/** UTF-8 as RFC 3629 defines it, and the table-driven automaton that recognises it. */
module Utf8 {
  import opened Bits
  import opened Utf8Table

  type Byte = b: nat | b < 0x100

  // ----- Section 4 of RFC 3629: the grammar of one character, and the scalar value it stands for

  predicate Tail(b: Byte) {
    0x80 <= b <= 0xBF
  }

  predicate IsUtf8Char(bs: seq<Byte>) {
    match |bs|
    case 1 => bs[0] <= 0x7F
    case 2 => 0xC2 <= bs[0] <= 0xDF && Tail(bs[1])
    case 3 =>
      && Tail(bs[2])
      && ( || (bs[0] == 0xE0 && 0xA0 <= bs[1] <= 0xBF)
           || (0xE1 <= bs[0] <= 0xEC && Tail(bs[1]))
           || (bs[0] == 0xED && 0x80 <= bs[1] <= 0x9F)
           || (0xEE <= bs[0] <= 0xEF && Tail(bs[1])))
    case 4 =>
      && Tail(bs[2])
      && Tail(bs[3])
      && ( || (bs[0] == 0xF0 && 0x90 <= bs[1] <= 0xBF)
           || (0xF1 <= bs[0] <= 0xF3 && Tail(bs[1]))
           || (bs[0] == 0xF4 && 0x80 <= bs[1] <= 0x8F))
    case _ => false
  }

  /** A whole byte string: `UTF8-octets = *( UTF8-char )`. */
  ghost predicate IsUtf8(bs: seq<Byte>)
    decreases |bs|
  {
    bs == [] || exists n :: 1 <= n <= |bs| && IsUtf8Char(bs[..n]) && IsUtf8(bs[n..])
  }

  predicate IsScalar(cp: nat) {
    cp < 0xD800 || 0xE000 <= cp <= 0x10FFFF
  }

  function ScalarOf(bs: seq<Byte>): (cp: nat)
    requires IsUtf8Char(bs)
    ensures IsScalar(cp)
  {
    var b := (k: int) requires 0 <= k < |bs| => bs[k] as int;
    match |bs|
    case 1 => b(0)
    case 2 => (b(0) - 0xC0) * 0x40 + (b(1) - 0x80)
    case 3 => (b(0) - 0xE0) * 0x1000 + (b(1) - 0x80) * 0x40 + (b(2) - 0x80)
    case 4 => (b(0) - 0xF0) * 0x40000 + (b(1) - 0x80) * 0x1000 + (b(2) - 0x80) * 0x40 + (b(3) - 0x80)
  }

  /** Section 3 of RFC 3629: the bytes of a scalar value. */
  function Encode(cp: nat): (bs: seq<Byte>)
    requires IsScalar(cp)
    ensures IsUtf8Char(bs)
  {
    var q := cp / 0x40;
    var p := q / 0x40;
    if cp < 0x80 then [cp]
    else if cp < 0x800 then [0xC0 + q, 0x80 + cp % 0x40]
    else if cp < 0x10000 then [0xE0 + p, 0x80 + q % 0x40, 0x80 + cp % 0x40]
    else [0xF0 + p / 0x40, 0x80 + p % 0x40, 0x80 + q % 0x40, 0x80 + cp % 0x40]
  }

  lemma ScalarOfEncode(cp: nat)
    requires IsScalar(cp)
    ensures ScalarOf(Encode(cp)) == cp
  {
  }

  /** The grammar admits one spelling a scalar value: no overlong forms. */
  lemma EncodeScalarOf(bs: seq<Byte>)
    requires IsUtf8Char(bs)
    ensures Encode(ScalarOf(bs)) == bs
  {
    if |bs| == 3 {
      ThreeByteDigits(bs);
    } else if |bs| == 4 {
      FourByteDigits(bs);
    }
  }

  lemma ThreeByteDigits(bs: seq<Byte>)
    requires IsUtf8Char(bs) && |bs| == 3
    ensures Encode(ScalarOf(bs)) == bs
  {
    var x, y, z := bs[0] as int - 0xE0, bs[1] as int - 0x80, bs[2] as int - 0x80;
    var cp := ScalarOf(bs);
    assert cp == (x * 0x40 + y) * 0x40 + z;
    assert cp / 0x40 == x * 0x40 + y;
    assert Encode(cp) == [0xE0 + x, 0x80 + y, 0x80 + z];
  }

  lemma FourByteDigits(bs: seq<Byte>)
    requires IsUtf8Char(bs) && |bs| == 4
    ensures Encode(ScalarOf(bs)) == bs
  {
    var w, x, y, z := bs[0] as int - 0xF0, bs[1] as int - 0x80, bs[2] as int - 0x80, bs[3] as int - 0x80;
    var cp := ScalarOf(bs);
    var p := w * 0x40 + x;
    var q := p * 0x40 + y;
    assert cp == q * 0x40 + z;
    assert cp / 0x40 == q && q / 0x40 == p && p / 0x40 == w;
    assert Encode(cp) == [0xF0 + w, 0x80 + x, 0x80 + y, 0x80 + z];
  }

  // ----- The automaton: a state of the table and the code point gathered so far

  datatype Auto = Auto(state: nat, codepoint: nat)

  const Start: Auto := Auto(UTF8_ACCEPT, 0)
  const Rejected: Auto := Auto(UTF8_REJECT, 0)

  predicate IsPending(a: Auto) {
    a.state != UTF8_ACCEPT && a.state != UTF8_REJECT
  }

  /** How large a code point can be while the state still waits for bytes. */
  function Limit(state: nat): nat {
    match state
    case 12 => 1
    case 24 => 0x4400
    case 48 => 0x110
    case 36 => 0x10
    case 60 => 0x10
    case 72 => 4
    case 84 => 1
    case _ => 5
  }

  /** The automaton may take another byte: it has not rejected and its code point leaves room for six bits. */
  predicate CanStep(a: Auto) {
    a.state != UTF8_REJECT && IsState(a.state) && a.codepoint < Limit(a.state)
  }

  predicate IsSound(a: Auto) {
    || a == Rejected
    || (a.state == UTF8_ACCEPT && a.codepoint <= 0x10FFFF)
    || (IsPending(a) && CanStep(a))
  }

  /** One byte, read from the cases of the table and in ordinary arithmetic. */
  function Next(a: Auto, b: Byte): (r: Auto)
    requires CanStep(a)
    ensures IsSound(r)
  {
    var t := ByteType(b);
    var state := Transition(a.state, t);
    if state == UTF8_REJECT then Rejected
    else Auto(state, a.codepoint * 64 + b % (Mask(t) + 1))
  }

  /** After a complete character the decoder clears the code point. */
  function Restart(a: Auto): Auto {
    if a.state == UTF8_ACCEPT then Start else a
  }

  /** Reading a byte string from the start; a rejected run stays rejected. */
  function Run(bs: seq<Byte>): (a: Auto)
    ensures IsSound(a)
  {
    if bs == [] then Start
    else
      var a := Run(bs[..|bs| - 1]);
      if a.state == UTF8_REJECT then a else Next(Restart(a), bs[|bs| - 1])
  }

  // ----- The decoder's own step: two lookups for the next state, one for the payload mask

  lemma StepIndices(state: nat, b: Byte)
    requires IsState(state)
    ensures Utf8Data()[b] == ByteType(b)
    ensures 256 + state + ByteType(b) < 376 && 364 + ByteType(b) < 376
    ensures Utf8Data()[256 + state + ByteType(b)] == Transition(state, ByteType(b))
    ensures Utf8Data()[364 + ByteType(b)] == Mask(ByteType(b))
  {
    TypeLookup(b);
    TransitionLookup(state, ByteType(b));
    MaskLookup(ByteType(b));
  }

  lemma Powers()
    ensures Pow2(0) == 1 && Pow2(3) == 8 && Pow2(4) == 16 && Pow2(5) == 32 && Pow2(6) == 64 && Pow2(7) == 128
    ensures Pow2(10) == 1024
  {
    assert Pow2(3) == 8;
    assert Pow2(6) == 64;
  }

  lemma MaskedPayload(b: Byte)
    ensures And(b, Mask(ByteType(b))) == b % (Mask(ByteType(b)) + 1)
  {
    Powers();
    AndMask(b, 0);
    AndMask(b, 3);
    AndMask(b, 4);
    AndMask(b, 5);
    AndMask(b, 6);
    AndMask(b, 7);
  }

  /** The shift, the mask and the or of the decoder gather the code point that Next gathers. */
  lemma StepArithmetic(a: Auto, b: Byte)
    requires CanStep(a)
    ensures a.codepoint * Pow2(6) < 0x8000_0000
    ensures Next(a, b) != Rejected ==>
              Or(Shl(a.codepoint, 6), And(b, Mask(ByteType(b)))) == Next(a, b).codepoint
  {
    Powers();
    MaskedPayload(b);
    var t := ByteType(b);
    if Next(a, b) != Rejected {
      if t == 0 {
        OrZero(b % 128);
      } else {
        OrDisjoint(a.codepoint, b % (Mask(t) + 1), 6);
      }
    }
  }

  /** One byte as the decoder takes it. */
  function TableStep(a: Auto, b: Byte): (r: Auto)
    requires CanStep(a)
    ensures r.state == Next(a, b).state
    ensures r.state != UTF8_REJECT ==> r == Next(a, b)
  {
    StepIndices(a.state, b);
    StepArithmetic(a, b);
    var t := Utf8Data()[b];
    Auto(Utf8Data()[256 + a.state + t], Or(Shl(a.codepoint, 6), And(b, Utf8Data()[364 + t])))
  }

  /** The decoder's bytes so far: stop at a rejection, clear the code point after a character. */
  function TableRun(bs: seq<Byte>): (a: Auto)
    ensures a.state == Run(bs).state
    ensures a.state != UTF8_REJECT ==> a == Run(bs)
  {
    if bs == [] then Start
    else
      var a := TableRun(bs[..|bs| - 1]);
      if a.state == UTF8_REJECT then a else TableStep(Restart(a), bs[|bs| - 1])
  }

  // ----- The automaton recognises exactly the grammar

  lemma RunSnoc(bs: seq<Byte>, b: Byte)
    requires Run(bs).state != UTF8_REJECT
    ensures Run(bs + [b]) == Next(Restart(Run(bs)), b)
  {
    assert (bs + [b])[..|bs + [b]| - 1] == bs;
  }

  /** Strictly inside a character: every non-empty proper prefix waits for more bytes. */
  ghost predicate Unbroken(bs: seq<Byte>) {
    forall j :: 0 < j < |bs| ==> IsPending(Run(bs[..j]))
  }

  lemma UnbrokenPrefix(bs: seq<Byte>)
    requires |bs| > 1 && Unbroken(bs)
    ensures Unbroken(bs[..|bs| - 1]) && IsPending(Run(bs[..|bs| - 1]))
    ensures Run(bs) == Next(Run(bs[..|bs| - 1]), bs[|bs| - 1])
  {
    var front := bs[..|bs| - 1];
    assert forall j :: 0 < j < |front| ==> front[..j] == bs[..j];
  }

  /** The second bytes that may follow a lead byte. */
  predicate Second(lead: Byte, b: Byte) {
    match lead
    case 0xE0 => 0xA0 <= b <= 0xBF
    case 0xED => 0x80 <= b <= 0x9F
    case 0xF0 => 0x90 <= b <= 0xBF
    case 0xF4 => 0x80 <= b <= 0x8F
    case _ => Tail(b)
  }

  /** The state after a lead byte. */
  function AfterLead(lead: Byte): Auto {
    if lead < 0xC2 then Rejected
    else if lead < 0xE0 then Auto(24, lead - 0xC0)
    else if lead == 0xE0 then Auto(36, 0)
    else if lead == 0xED then Auto(60, 13)
    else if lead < 0xF0 then Auto(48, lead - 0xE0)
    else if lead == 0xF0 then Auto(84, 0)
    else if lead < 0xF4 then Auto(72, lead - 0xF0)
    else if lead == 0xF4 then Auto(96, 4)
    else Rejected
  }

  /** The state a non-empty proper prefix of a character leaves the automaton in; Rejected when it is no such prefix. */
  function Waiting(bs: seq<Byte>): Auto {
    match |bs|
    case 1 => AfterLead(bs[0])
    case 2 =>
      if 0xE0 <= bs[0] <= 0xF4 && Second(bs[0], bs[1])
      then Auto(if bs[0] < 0xF0 then 24 else 48, AfterLead(bs[0]).codepoint * 64 + bs[1] % 64)
      else Rejected
    case 3 =>
      if 0xF0 <= bs[0] <= 0xF4 && Second(bs[0], bs[1]) && Tail(bs[2])
      then Auto(24, (AfterLead(bs[0]).codepoint * 64 + bs[1] % 64) * 64 + bs[2] % 64)
      else Rejected
    case _ => Rejected
  }

  /** The next byte completes a character, leaves the automaton waiting, or breaks the character off. */
  predicate StepsSoundly(bs: seq<Byte>, b: Byte, r: Auto) {
    && (r.state == UTF8_ACCEPT <==> IsUtf8Char(bs + [b]))
    && (r.state == UTF8_ACCEPT ==> r.codepoint == ScalarOf(bs + [b]))
    && Waiting(bs + [b]) == if IsPending(r) then r else Rejected
  }

  lemma WaitingStep(bs: seq<Byte>, b: Byte)
    requires bs != [] && Waiting(bs) != Rejected
    ensures CanStep(Waiting(bs)) && IsPending(Waiting(bs))
    ensures StepsSoundly(bs, b, Next(Waiting(bs), b))
  {
    match |bs| {
      case 1 => WaitingStepAfterOne(bs, b);
      case 2 => WaitingStepAfterTwo(bs, b);
      case _ => WaitingStepAfterThree(bs, b);
    }
  }

  lemma WaitingStepAfterOne(bs: seq<Byte>, b: Byte)
    requires |bs| == 1 && Waiting(bs) != Rejected
    ensures CanStep(Waiting(bs)) && IsPending(Waiting(bs))
    ensures StepsSoundly(bs, b, Next(Waiting(bs), b))
  {
  }

  lemma WaitingStepAfterTwo(bs: seq<Byte>, b: Byte)
    requires |bs| == 2 && Waiting(bs) != Rejected
    ensures CanStep(Waiting(bs)) && IsPending(Waiting(bs))
    ensures StepsSoundly(bs, b, Next(Waiting(bs), b))
  {
  }

  lemma WaitingStepAfterThree(bs: seq<Byte>, b: Byte)
    requires |bs| == 3 && Waiting(bs) != Rejected
    ensures CanStep(Waiting(bs)) && IsPending(Waiting(bs))
    ensures StepsSoundly(bs, b, Next(Waiting(bs), b))
  {
  }

  lemma LeadByte(b: Byte)
    ensures Next(Start, b) == if b <= 0x7F then Auto(UTF8_ACCEPT, b) else AfterLead(b)
  {
    if b <= 0x7F {
    } else if b < 0xC2 {
    } else if b < 0xE0 {
    } else if b < 0xF0 {
    } else if b < 0xF5 {
    }
  }

  lemma FirstByte(b: Byte)
    ensures Run([b]) == Next(Start, b)
    ensures Run([b]).state == UTF8_ACCEPT <==> IsUtf8Char([b])
    ensures Run([b]).state == UTF8_ACCEPT ==> Run([b]).codepoint == b
    ensures IsPending(Run([b])) ==> Run([b]) == Waiting([b])
    ensures !IsPending(Run([b])) ==> Waiting([b]) == Rejected
  {
    RunSnoc([], b);
    assert [] + [b] == [b];
    LeadByte(b);
  }

  /** The first return to ACCEPT completes exactly one character of the grammar, with its scalar value. */
  lemma {:induction false} AcceptsChar(bs: seq<Byte>)
    requires bs != [] && Unbroken(bs)
    ensures Run(bs).state == UTF8_ACCEPT <==> IsUtf8Char(bs)
    ensures IsUtf8Char(bs) ==> Run(bs).codepoint == ScalarOf(bs)
    ensures IsPending(Run(bs)) ==> Run(bs) == Waiting(bs)
  {
    var front, b := bs[..|bs| - 1], bs[|bs| - 1];
    assert front + [b] == bs;
    if front == [] {
      FirstByte(b);
    } else {
      UnbrokenPrefix(bs);
      AcceptsChar(front);
      WaitingStep(front, b);
    }
  }

  lemma {:induction false} WaitingUnbroken(bs: seq<Byte>)
    requires bs != [] && Waiting(bs) != Rejected
    ensures Unbroken(bs) && Run(bs) == Waiting(bs)
  {
    var front, b := bs[..|bs| - 1], bs[|bs| - 1];
    assert front + [b] == bs;
    if front == [] {
      FirstByte(b);
    } else {
      WaitingUnbroken(front);
      WaitingStep(front, b);
      UnbrokenOneMore(bs);
    }
  }

  lemma UnbrokenOneMore(bs: seq<Byte>)
    requires |bs| > 1 && Unbroken(bs[..|bs| - 1]) && IsPending(Run(bs[..|bs| - 1]))
    ensures Unbroken(bs)
  {
    var front := bs[..|bs| - 1];
    assert forall j :: 0 < j < |front| ==> front[..j] == bs[..j];
  }

  lemma CharFrontWaits(bs: seq<Byte>)
    requires IsUtf8Char(bs) && |bs| > 1
    ensures Waiting(bs[..|bs| - 1]) != Rejected
  {
  }

  lemma CharUnbroken(bs: seq<Byte>)
    requires IsUtf8Char(bs)
    ensures Unbroken(bs)
  {
    if |bs| > 1 {
      CharFrontWaits(bs);
      WaitingUnbroken(bs[..|bs| - 1]);
      UnbrokenOneMore(bs);
    }
  }

  lemma {:induction false} RunConcat(xs: seq<Byte>, ys: seq<Byte>)
    requires Run(xs).state == UTF8_ACCEPT
    ensures ys != [] ==> Run(xs + ys) == Run(ys)
  {
    if |ys| == 1 {
      RunSnoc(xs, ys[0]);
      FirstByte(ys[0]);
      assert ys == [ys[0]];
    } else if |ys| > 1 {
      RunConcat(xs, ys[..|ys| - 1]);
      assert (xs + ys)[..|xs + ys| - 1] == xs + ys[..|ys| - 1];
    }
  }

  lemma {:induction false} RejectedStays(bs: seq<Byte>, n: nat)
    requires n <= |bs| && Run(bs[..n]).state == UTF8_REJECT
    ensures Run(bs).state == UTF8_REJECT
    decreases |bs|
  {
    if n == |bs| {
      assert bs[..n] == bs;
    } else {
      var front := bs[..|bs| - 1];
      assert front[..n] == bs[..n];
      RejectedStays(front, n);
    }
  }

  /**
   * Started in ACCEPT, the table ends in ACCEPT on exactly the byte strings of section 4 of RFC 3629,
   * and the code point gathered over the last character is its scalar value.
   */
  lemma TableAccepts(bs: seq<Byte>)
    ensures TableRun(bs).state == UTF8_ACCEPT <==> IsUtf8(bs)
    ensures forall n :: 0 <= n < |bs| && IsUtf8(bs[..n]) && IsUtf8Char(bs[n..]) ==>
              TableRun(bs).codepoint == ScalarOf(bs[n..])
  {
    AcceptsUtf8(bs);
    forall n | 0 <= n < |bs| && IsUtf8(bs[..n]) && IsUtf8Char(bs[n..])
      ensures TableRun(bs).codepoint == ScalarOf(bs[n..])
    {
      LastCharacter(bs, n);
    }
  }

  lemma LastCharacter(bs: seq<Byte>, n: nat)
    requires n < |bs| && IsUtf8(bs[..n]) && IsUtf8Char(bs[n..])
    ensures Run(bs).state == UTF8_ACCEPT && Run(bs).codepoint == ScalarOf(bs[n..])
  {
    AcceptsUtf8(bs[..n]);
    CharUnbroken(bs[n..]);
    AcceptsChar(bs[n..]);
    assert bs == bs[..n] + bs[n..];
    RunConcat(bs[..n], bs[n..]);
  }

  lemma {:induction false} AcceptsUtf8(bs: seq<Byte>)
    ensures Run(bs).state == UTF8_ACCEPT <==> IsUtf8(bs)
    decreases |bs|
  {
    if bs != [] {
      if Run(bs).state == UTF8_ACCEPT {
        var n := FirstAccept(bs, 1);
        AcceptsChar(bs[..n]);
        AcceptsAfter(bs, n);
        AcceptsUtf8(bs[n..]);
      } else if IsUtf8(bs) {
        var n :| 1 <= n <= |bs| && IsUtf8Char(bs[..n]) && IsUtf8(bs[n..]);
        CharUnbroken(bs[..n]);
        AcceptsChar(bs[..n]);
        AcceptsAfter(bs, n);
        AcceptsUtf8(bs[n..]);
      }
    }
  }

  lemma AcceptsAfter(bs: seq<Byte>, n: nat)
    requires n <= |bs| && Run(bs[..n]).state == UTF8_ACCEPT
    ensures Run(bs).state == UTF8_ACCEPT <==> Run(bs[n..]).state == UTF8_ACCEPT
  {
    assert bs == bs[..n] + bs[n..];
    RunConcat(bs[..n], bs[n..]);
    if n == |bs| {
      assert bs[..n] == bs;
    }
  }

  lemma FirstAccept(bs: seq<Byte>, from: nat) returns (n: nat)
    requires 1 <= from <= |bs| && Run(bs).state == UTF8_ACCEPT
    requires forall j :: 0 < j < from ==> IsPending(Run(bs[..j]))
    ensures from <= n <= |bs| && Run(bs[..n]).state == UTF8_ACCEPT && Unbroken(bs[..n])
    decreases |bs| - from
  {
    if Run(bs[..from]).state == UTF8_ACCEPT {
      n := from;
      assert forall j :: 0 < j < n ==> bs[..n][..j] == bs[..j];
    } else if Run(bs[..from]).state == UTF8_REJECT {
      RejectedStays(bs, from);
      assert false;
    } else {
      assert bs[..|bs|] == bs;
      n := FirstAccept(bs, from + 1);
    }
  }

  // ----- One byte at a time, without runs: what a decoder that feeds the automaton relies on

  /** The bytes bs stop inside a character and have brought the automaton to a. */
  predicate Inside(bs: seq<Byte>, a: Auto) {
    if bs == [] then a == Start else a != Rejected && a == Waiting(bs)
  }

  ghost predicate NoCharExtends(bs: seq<Byte>) {
    forall cs :: bs <= cs ==> !IsUtf8Char(cs)
  }

  ghost predicate NoCharWithin(bs: seq<Byte>) {
    forall cs :: cs <= bs ==> !IsUtf8Char(cs)
  }

  lemma InsideStep(bs: seq<Byte>, a: Auto, b: Byte)
    requires Inside(bs, a)
    ensures CanStep(a) && a.state != UTF8_REJECT
    ensures Next(a, b).state == UTF8_ACCEPT ==>
              IsUtf8Char(bs + [b]) && Next(a, b).codepoint == ScalarOf(bs + [b])
    ensures IsPending(Next(a, b)) ==> Inside(bs + [b], Next(a, b))
    ensures Next(a, b) == Rejected ==> NoCharExtends(bs + [b])
  {
    if bs == [] {
      LeadByte(b);
      assert bs + [b] == [b];
    } else {
      WaitingStep(bs, b);
    }
    if Next(a, b) == Rejected {
      forall cs | bs + [b] <= cs
        ensures !IsUtf8Char(cs)
      {
        if IsUtf8Char(cs) {
          NotWaiting(bs + [b], cs);
        }
      }
    }
  }

  /** A proper prefix of a character is waiting. */
  lemma NotWaiting(bs: seq<Byte>, cs: seq<Byte>)
    requires bs != [] && bs <= cs && IsUtf8Char(cs)
    ensures bs == cs || Waiting(bs) != Rejected
  {
  }

  lemma InsideHoldsNone(bs: seq<Byte>, a: Auto)
    requires Inside(bs, a)
    ensures NoCharWithin(bs)
  {
    forall cs | cs <= bs
      ensures !IsUtf8Char(cs)
    {
      if IsUtf8Char(cs) {
        WaitingIsNoChar(bs, cs);
      }
    }
  }

  lemma WaitingIsNoChar(bs: seq<Byte>, cs: seq<Byte>)
    requires bs != [] && Waiting(bs) != Rejected && cs <= bs
    ensures !IsUtf8Char(cs)
  {
  }
}
