/** encodeURIComponent, and what decoding undoes, accepts and shortens. */
module UriRoundTrip {
  import opened Prelude
  import opened Utf8
  import opened UriComponent

  // ----- The Encode operation of section 19.2.6 of ECMA-262

  /** ASCII letters and digits, and - . ! ~ * ' ( ) _ */
  predicate IsUnreserved(c: CodeUnit) {
    || 0x30 <= c <= 0x39 || 0x41 <= c <= 0x5A || 0x61 <= c <= 0x7A
    || c in {0x2D, 0x5F, 0x2E, 0x21, 0x7E, 0x2A, 0x27, 0x28, 0x29}
  }

  function UpperHex(v: nat): (c: CodeUnit)
    requires v < 16
    ensures IsHexDigit(c) && HexValue(c) == v
  {
    if v < 10 then 0x30 + v else 0x37 + v
  }

  function Escape(b: Byte): JsString {
    [PERCENT, UpperHex(b / 16), UpperHex(b % 16)]
  }

  function EscapeAll(bs: seq<Byte>): (s: JsString)
    ensures |s| == 3 * |bs|
  {
    if bs == [] then [] else EscapeAll(bs[..|bs| - 1]) + Escape(bs[|bs| - 1])
  }

  predicate IsLead(c: CodeUnit) {
    0xD800 <= c <= 0xDBFF
  }

  predicate IsTrail(c: CodeUnit) {
    0xDC00 <= c <= 0xDFFF
  }

  function PairValue(lead: CodeUnit, trail: CodeUnit): (cp: nat)
    requires IsLead(lead) && IsTrail(trail)
    ensures 0x10000 <= cp <= 0x10FFFF && Utf16(cp) == [lead, trail]
  {
    (lead as int - 0xD800) * 0x400 + (trail as int - 0xDC00) + 0x10000
  }

  /** None stands for the URIError that encodeURIComponent throws on a lone surrogate. */
  function EncodeURIComponent(s: JsString): Option<JsString> {
    if s == [] then Some([])
    else if IsUnreserved(s[0]) then Prepend([s[0]], EncodeURIComponent(s[1..]))
    else if IsTrail(s[0]) then None
    else if IsLead(s[0]) then
      if |s| > 1 && IsTrail(s[1])
      then Prepend(EscapeAll(Encode(PairValue(s[0], s[1]))), EncodeURIComponent(s[2..]))
      else None
    else Prepend(EscapeAll(Encode(s[0])), EncodeURIComponent(s[1..]))
  }

  /** A surrogate at position i has its partner beside it. */
  predicate IsPaired(s: JsString, i: nat)
    requires i < |s|
  {
    && (IsLead(s[i]) ==> i + 1 < |s| && IsTrail(s[i + 1]))
    && (IsTrail(s[i]) ==> i > 0 && IsLead(s[i - 1]))
  }

  /** Well-formed UTF-16: surrogates come in pairs. */
  ghost predicate IsWellFormed(s: JsString) {
    forall i :: 0 <= i < |s| ==> IsPaired(s, i)
  }

  /** Encoding succeeds on exactly the well-formed strings. */
  lemma {:induction false} EncodeDefined(s: JsString)
    ensures EncodeURIComponent(s).Some? <==> IsWellFormed(s)
  {
    if s != [] {
      assert IsWellFormed(s) ==> IsPaired(s, 0);
      if IsUnreserved(s[0]) || !(IsLead(s[0]) || IsTrail(s[0])) {
        EncodeDefined(s[1..]);
        WellFormedTail(s, 1);
      } else if IsLead(s[0]) && |s| > 1 && IsTrail(s[1]) {
        EncodeDefined(s[2..]);
        WellFormedTail(s, 2);
      }
    }
  }

  lemma WellFormedTail(s: JsString, n: nat)
    requires 1 <= n <= 2 && n <= |s|
    requires if n == 1 then !IsLead(s[0]) && !IsTrail(s[0]) else IsLead(s[0]) && IsTrail(s[1])
    ensures IsWellFormed(s) <==> IsWellFormed(s[n..])
  {
    var t := s[n..];
    assert forall i :: 0 <= i < |t| ==> (IsPaired(t, i) <==> IsPaired(s, n + i));
    if IsWellFormed(t) {
      forall i | 0 <= i < |s|
        ensures IsPaired(s, i)
      {
        assert i >= n ==> IsPaired(t, i - n);
      }
    }
  }

  // ----- Decoding undoes encoding

  lemma {:induction false} EscapeAllAt(bs: seq<Byte>, k: nat)
    requires k < |bs|
    ensures var e := EscapeAll(bs);
            e[3 * k] == PERCENT && e[3 * k + 1] == UpperHex(bs[k] / 16) && e[3 * k + 2] == UpperHex(bs[k] % 16)
  {
    if k < |bs| - 1 {
      EscapeAllAt(bs[..|bs| - 1], k);
    }
  }

  lemma OctetOfEscape(u: JsString, i: nat, bs: seq<Byte>, k: nat)
    requires i + 3 * |bs| <= |u| && u[i..i + 3 * |bs|] == EscapeAll(bs) && k < |bs|
    ensures u[i + 3 * k] == PERCENT && Octet(u, i + 3 * k) == Some(bs[k])
  {
    EscapeAllAt(bs, k);
  }

  lemma {:induction false} OctetsOfEscapes(u: JsString, i: nat, bs: seq<Byte>, n: nat)
    requires i + 3 * |bs| <= |u| && u[i..i + 3 * |bs|] == EscapeAll(bs) && n <= |bs|
    ensures Octets(u, i, n) == Some(bs[..n])
  {
    if n > 0 {
      OctetsOfEscapes(u, i, bs, n - 1);
      EscapeAllAt(bs, n - 1);
      OctetOfEscape(u, i, bs, n - 1);
      assert bs[..n - 1] + [bs[n - 1]] == bs[..n];
    }
  }

  /** An escaped character decodes to its UTF-16 form. */
  lemma DecodeEscaped(u: JsString, i: nat, cp: nat)
    requires IsScalar(cp)
    requires i + 3 * |Encode(cp)| <= |u| && u[i..i + 3 * |Encode(cp)|] == EscapeAll(Encode(cp))
    ensures DecodeFrom(u, i) == Prepend(Utf16(cp), DecodeFrom(u, i + 3 * |Encode(cp)|))
  {
    var bs := Encode(cp);
    OctetsOfEscapes(u, i, bs, |bs|);
    assert bs[..|bs|] == bs;
    ScalarOfEncode(cp);
    CompleteGroup(u, i, bs);
    OctetOfEscape(u, i, bs, 0);
  }

  lemma {:induction false} DecodeEncodeFrom(u: JsString, i: nat, s: JsString)
    requires i <= |u| && EncodeURIComponent(s) == Some(u[i..])
    ensures DecodeFrom(u, i) == Some(s)
    decreases |s|, 1
  {
    if s != [] {
      if IsUnreserved(s[0]) {
        DecodeEncodedLiteral(u, i, s);
      } else {
        DecodeEncodedEscape(u, i, s);
      }
    }
  }

  lemma {:induction false} DecodeEncodedLiteral(u: JsString, i: nat, s: JsString)
    requires i <= |u| && EncodeURIComponent(s) == Some(u[i..])
    requires s != [] && IsUnreserved(s[0])
    ensures DecodeFrom(u, i) == Some(s)
    decreases |s|, 0
  {
    EncodedRest(u, i, [s[0]], EncodeURIComponent(s[1..]));
    assert u[i] == u[i..i + 1][0];
    DecodeEncodeFrom(u, i + 1, s[1..]);
    assert [s[0]] + s[1..] == s;
  }

  lemma {:induction false} DecodeEncodedEscape(u: JsString, i: nat, s: JsString)
    requires i <= |u| && EncodeURIComponent(s) == Some(u[i..])
    requires s != [] && !IsUnreserved(s[0])
    ensures DecodeFrom(u, i) == Some(s)
    decreases |s|, 0
  {
    var cp, n := EscapedChar(s);
    EncodedRest(u, i, EscapeAll(Encode(cp)), EncodeURIComponent(s[n..]));
    DecodeEncodeFrom(u, i + 3 * |Encode(cp)|, s[n..]);
    EscapeThenRest(u, i, cp, s[..n], s[n..]);
    assert s[..n] + s[n..] == s;
  }

  lemma EscapeThenRest(u: JsString, i: nat, cp: nat, front: JsString, rest: JsString)
    requires IsScalar(cp) && Utf16(cp) == front
    requires i + 3 * |Encode(cp)| <= |u| && u[i..i + 3 * |Encode(cp)|] == EscapeAll(Encode(cp))
    requires DecodeFrom(u, i + 3 * |Encode(cp)|) == Some(rest)
    ensures DecodeFrom(u, i) == Some(front + rest)
  {
    DecodeEscaped(u, i, cp);
  }

  /** The character that is escaped at the start of s, and its length in code units. */
  lemma EscapedChar(s: JsString) returns (cp: nat, n: nat)
    requires s != [] && !IsUnreserved(s[0]) && EncodeURIComponent(s).Some?
    ensures IsScalar(cp) && 1 <= n <= |s| && Utf16(cp) == s[..n]
    ensures EncodeURIComponent(s) == Prepend(EscapeAll(Encode(cp)), EncodeURIComponent(s[n..]))
  {
    n := if IsLead(s[0]) then 2 else 1;
    cp := if n == 2 then PairValue(s[0], s[1]) else s[0];
  }

  lemma EncodedRest(u: JsString, i: nat, front: JsString, rest: Option<JsString>)
    requires i <= |u| && Prepend(front, rest) == Some(u[i..])
    ensures i + |front| <= |u| && u[i..i + |front|] == front && rest == Some(u[i + |front|..])
  {
    assert u[i..][..|front|] == front && u[i..][|front|..] == rest.value;
  }

  /** Decoding undoes encoding, on every string that can be encoded. */
  lemma DecodeEncode(s: JsString)
    requires IsWellFormed(s)
    ensures EncodeURIComponent(s).Some? && Decode(EncodeURIComponent(s).value) == Some(s)
  {
    EncodeDefined(s);
    var u := EncodeURIComponent(s).value;
    assert u[0..] == u;
    DecodeEncodeFrom(u, 0, s);
  }

  // ----- What decoding accepts: any spelling, in escapes of either case or literally

  /** From position i, u spells s: literal code units, and UTF-8 characters written as escapes. */
  ghost predicate SpellsFrom(u: JsString, i: nat, s: JsString)
    decreases |u| - i
  {
    if i >= |u| then s == []
    else
      || (u[i] != PERCENT && s != [] && s[0] == u[i] && SpellsFrom(u, i + 1, s[1..]))
      || (exists n: nat :: SpellsChar(u, i, n, s) && SpellsFrom(u, i + 3 * n, s[|CharAtEscapes(u, i, n)|..]))
  }

  ghost predicate SpellsChar(u: JsString, i: nat, n: nat, s: JsString) {
    && n > 0
    && Octets(u, i, n).Some? && IsUtf8Char(Octets(u, i, n).value)
    && CharAtEscapes(u, i, n) <= s
  }

  ghost function CharAtEscapes(u: JsString, i: nat, n: nat): JsString
    requires Octets(u, i, n).Some? && IsUtf8Char(Octets(u, i, n).value)
  {
    Utf16(ScalarOf(Octets(u, i, n).value))
  }

  /** The decoder finds a spelling whenever there is one, and there is never more than one. */
  lemma {:induction false} DecodeIffSpells(u: JsString, i: nat, s: JsString)
    ensures DecodeFrom(u, i) == Some(s) <==> SpellsFrom(u, i, s)
    decreases |u| - i, 2
  {
    if i < |u| {
      if u[i] != PERCENT {
        if s != [] {
          DecodeIffSpells(u, i + 1, s[1..]);
          assert [s[0]] + s[1..] == s;
        }
        assert forall n :: n > 0 ==> Octets(u, i, n) == None by {
          forall n | n > 0
            ensures Octets(u, i, n) == None
          {
            NoOctets(u, i, n);
          }
        }
      } else {
        EscapeIffSpells(u, i, s);
      }
    }
  }

  lemma {:induction false} NoOctets(u: JsString, i: nat, n: nat)
    requires n > 0 && Octet(u, i) == None
    ensures Octets(u, i, n) == None
  {
    if n > 1 {
      NoOctets(u, i, n - 1);
    }
  }

  lemma EscapeIffSpells(u: JsString, i: nat, s: JsString)
    requires i < |u| && u[i] == PERCENT
    ensures DecodeFrom(u, i) == Some(s) <==> SpellsFrom(u, i, s)
    decreases |u| - i, 1
  {
    if DecodeFrom(u, i) == Some(s) {
      DecodedSpells(u, i, s, |Group(u, i).value|);
    }
    if SpellsFrom(u, i, s) {
      var n: nat :| SpellsChar(u, i, n, s) && SpellsFrom(u, i + 3 * n, s[|CharAtEscapes(u, i, n)|..]);
      SpelledDecodes(u, i, s, n);
    }
  }

  lemma DecodedSpells(u: JsString, i: nat, s: JsString, n: nat)
    requires i < |u| && u[i] == PERCENT && n > 0
    requires Group(u, i).Some? && n == |Group(u, i).value| && DecodeFrom(u, i) == Some(s)
    ensures SpellsChar(u, i, n, s) && SpellsFrom(u, i + 3 * n, s[|CharAtEscapes(u, i, n)|..])
    decreases |u| - i, 0
  {
    var c := CharAtEscapes(u, i, n);
    var rest := DecodeFrom(u, i + 3 * n).value;
    assert s == c + rest && s[|c|..] == rest;
    DecodeIffSpells(u, i + 3 * n, rest);
  }

  lemma SpelledDecodes(u: JsString, i: nat, s: JsString, n: nat)
    requires i < |u| && u[i] == PERCENT
    requires SpellsChar(u, i, n, s) && SpellsFrom(u, i + 3 * n, s[|CharAtEscapes(u, i, n)|..])
    ensures DecodeFrom(u, i) == Some(s)
    decreases |u| - i, 0
  {
    CompleteGroup(u, i, Octets(u, i, n).value);
    var c := CharAtEscapes(u, i, n);
    DecodeIffSpells(u, i + 3 * n, s[|c|..]);
    assert c + s[|c|..] == s;
  }

  // ----- Decoding makes progress

  /** A decoded string is never longer, never empties, and loses at least two units when there was an escape. */
  lemma {:induction false} DecodeShortens(u: JsString, i: nat)
    requires i <= |u| && DecodeFrom(u, i).Some?
    ensures |DecodeFrom(u, i).value| <= |u| - i
    ensures PERCENT in u[i..] ==> |DecodeFrom(u, i).value| + 2 <= |u| - i
    ensures i < |u| ==> DecodeFrom(u, i).value != []
    decreases |u| - i
  {
    if i < |u| {
      if u[i] != PERCENT {
        DecodeShortens(u, i + 1);
        assert u[i..] == [u[i]] + u[i + 1..];
      } else {
        DecodeShortens(u, i + 3 * |Group(u, i).value|);
        ShortUtf16(Group(u, i).value);
      }
    }
  }

  /** Two code units take four octets to spell. */
  lemma ShortUtf16(bs: seq<Byte>)
    requires IsUtf8Char(bs)
    ensures |Utf16(ScalarOf(bs))| + 2 <= 3 * |bs|
  {
  }
}
