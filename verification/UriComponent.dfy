/**
 * decodeURIComponent as section 19.2.6 of ECMA-262 defines it,
 * and the table-driven decoder that must agree with the former without throwing.
 */
module UriComponent {
  import opened Prelude
  import opened Bits
  import opened Utf8Table
  import opened Utf8

  const PERCENT: CodeUnit := 0x25

  // ----- The Decode operation of section 19.2.6 of ECMA-262

  predicate IsHexDigit(c: CodeUnit) {
    0x30 <= c <= 0x39 || 0x41 <= c <= 0x46 || 0x61 <= c <= 0x66
  }

  function HexValue(c: CodeUnit): (v: nat)
    requires IsHexDigit(c)
    ensures v < 16
  {
    if c <= 0x39 then c - 0x30 else if c <= 0x46 then c - 0x37 else c - 0x57
  }

  /** The octet that the escape at position i spells, if there is an escape. */
  function Octet(s: JsString, i: nat): Option<Byte> {
    if i + 2 < |s| && s[i] == PERCENT && IsHexDigit(s[i + 1]) && IsHexDigit(s[i + 2])
    then Some(16 * HexValue(s[i + 1]) + HexValue(s[i + 2]))
    else None
  }

  /** The octets that n escapes in a row from position i spell, if there are n. */
  function Octets(s: JsString, i: nat, n: nat): (bs: Option<seq<Byte>>)
    ensures bs.Some? ==> |bs.value| == n
  {
    if n == 0 then Some([])
    else
      match (Octets(s, i, n - 1), Octet(s, i + 3 * (n - 1)))
      case (Some(bs), Some(b)) => Some(bs + [b])
      case _ => None
  }

  /** How many octets a lead octet announces by its leading one bits; 0 when it announces none. */
  function Announced(lead: Byte): nat {
    if lead < 0x80 then 1
    else if lead < 0xC0 then 0
    else if lead < 0xE0 then 2
    else if lead < 0xF0 then 3
    else if lead < 0xF8 then 4
    else 0
  }

  /** The UTF-8 character spelled by the escapes from position i. */
  function Group(s: JsString, i: nat): (bs: Option<seq<Byte>>)
    ensures bs.Some? ==> IsUtf8Char(bs.value) && i + 3 * |bs.value| <= |s| && Octets(s, i, |bs.value|) == bs
  {
    match Octet(s, i)
    case None => None
    case Some(lead) =>
      match Octets(s, i, Announced(lead))
      case Some(bs) =>
        OctetsFit(s, i, |bs|);
        if IsUtf8Char(bs) then Some(bs) else None
      case None => None
  }

  lemma {:induction false} OctetsFit(s: JsString, i: nat, n: nat)
    ensures n > 0 && Octets(s, i, n).Some? ==> i + 3 * n <= |s|
  {
  }

  /** UTF16EncodeCodePoint, section 11.1.1 of ECMA-262. */
  function Utf16(cp: nat): (s: JsString)
    requires cp <= 0x10FFFF
    ensures 1 <= |s| <= 2
  {
    if cp <= 0xFFFF then [cp]
    else [0xD800 + (cp - 0x10000) / 0x400, 0xDC00 + (cp - 0x10000) % 0x400]
  }

  function Prepend(front: JsString, rest: Option<JsString>): Option<JsString> {
    match rest
    case None => None
    case Some(s) => Some(front + s)
  }

  /** Decoding from position i; None stands for the URIError that decodeURIComponent throws. */
  function DecodeFrom(s: JsString, i: nat): Option<JsString>
    decreases |s| - i
  {
    if i >= |s| then Some([])
    else if s[i] != PERCENT then Prepend([s[i]], DecodeFrom(s, i + 1))
    else
      match Group(s, i)
      case None => None
      case Some(bs) => Prepend(Utf16(ScalarOf(bs)), DecodeFrom(s, i + 3 * |bs|))
  }

  function Decode(s: JsString): Option<JsString> {
    DecodeFrom(s, 0)
  }

  // ----- The decoder

  function CharAt(s: JsString, i: nat): Option<CodeUnit> {
    if i < |s| then Some(s[i]) else None
  }

  /** A hex digit shifted into place, or the sentinel 255 for anything else. */
  function HexCodeToInt(c: Option<CodeUnit>, shift: nat): nat
    requires shift <= 4
  {
    if c.Some? && IsHexDigit(c.value) then
      ShiftedDigitFits(HexValue(c.value), shift);
      Shl(HexValue(c.value), shift)
    else 255
  }

  lemma ShiftedDigitFits(v: nat, shift: nat)
    requires v < 16 && shift <= 4
    ensures v * Pow2(shift) < 0x8000_0000
  {
    assert Pow2(shift) <= 16 by {
      if shift == 4 {
        assert Pow2(4) == 16;
      }
    }
    assert v * Pow2(shift) <= 16 * 16;
  }

  /** The two digits make the octet, and a bad or missing digit makes the byte 255. */
  lemma HexByte(s: JsString, i: nat)
    requires i < |s| && s[i] == PERCENT
    ensures Or(HexCodeToInt(CharAt(s, i + 1), 4), HexCodeToInt(CharAt(s, i + 2), 0)) ==
            match Octet(s, i) { case Some(b) => b case None => 255 }
  {
    var high, low := HexCodeToInt(CharAt(s, i + 1), 4), HexCodeToInt(CharAt(s, i + 2), 0);
    assert Pow2(0) == 1 && Pow2(4) == 16 && Pow2(8) == 256 by {
      assert Pow2(4) == 16;
    }
    assert high == 255 || (IsHexDigit(s[i + 1]) && high == HexValue(s[i + 1]) * 16);
    assert low == 255 || (IsHexDigit(s[i + 2]) && low == HexValue(s[i + 2]));
    if high == 255 && low == 255 {
      OrOnes(255, 8);
    } else if high == 255 {
      OrOnes(low, 8);
    } else if low == 255 {
      OrOnes(high, 8);
    } else {
      OrDisjoint(HexValue(s[i + 1]), low, 4);
    }
  }

  /** The sentinel is never accepted as a byte. */
  lemma SentinelRejects(a: Auto)
    requires CanStep(a)
    ensures Next(a, 255) == Rejected
  {
  }

  lemma {:induction false} OctetsPrefix(s: JsString, i: nat, n: nat, k: nat)
    requires k <= n && Octets(s, i, n).Some?
    ensures Octets(s, i, k) == Some(Octets(s, i, n).value[..k])
  {
    if k < n {
      OctetsPrefix(s, i, n - 1, k);
      assert Octets(s, i, n).value[..k] == Octets(s, i, n - 1).value[..k];
    } else {
      assert Octets(s, i, n).value[..k] == Octets(s, i, n).value;
    }
  }

  /** When the next octet is missing or rejected, no reading of the escapes is a character. */
  lemma BrokenGroup(s: JsString, i: nat, octets: seq<Byte>)
    requires Octets(s, i, |octets|) == Some(octets) && NoCharWithin(octets)
    requires match Octet(s, i + 3 * |octets|) { case None => true case Some(b) => NoCharExtends(octets + [b]) }
    ensures Group(s, i) == None
  {
    if Group(s, i).Some? {
      var cs := Group(s, i).value;
      if |cs| <= |octets| {
        OctetsNested(s, i, cs, octets);
      } else {
        OctetsBeyond(s, i, octets, cs);
      }
    }
  }

  lemma OctetsNested(s: JsString, i: nat, cs: seq<Byte>, octets: seq<Byte>)
    requires Octets(s, i, |octets|) == Some(octets) && Octets(s, i, |cs|) == Some(cs) && |cs| <= |octets|
    ensures cs <= octets
  {
    OctetsPrefix(s, i, |octets|, |cs|);
  }

  lemma OctetsBeyond(s: JsString, i: nat, octets: seq<Byte>, cs: seq<Byte>)
    requires Octets(s, i, |octets|) == Some(octets) && Octets(s, i, |cs|) == Some(cs) && |cs| > |octets|
    ensures Octet(s, i + 3 * |octets|).Some? && octets + [Octet(s, i + 3 * |octets|).value] <= cs
  {
    OctetsPrefix(s, i, |cs|, |octets| + 1);
  }

  lemma AnnouncedLength(bs: seq<Byte>)
    requires IsUtf8Char(bs)
    ensures Announced(bs[0]) == |bs|
  {
  }

  /** Octets that make a character are the group. */
  lemma CompleteGroup(s: JsString, i: nat, octets: seq<Byte>)
    requires IsUtf8Char(octets) && Octets(s, i, |octets|) == Some(octets)
    ensures Group(s, i) == Some(octets)
  {
    AnnouncedLength(octets);
    OctetsPrefix(s, i, |octets|, 1);
  }

  lemma PrependTwice(a: JsString, b: JsString, rest: Option<JsString>)
    ensures Prepend(a, Prepend(b, rest)) == Prepend(a + b, rest)
  {
    if rest.Some? {
      assert a + (b + rest.value) == a + b + rest.value;
    }
  }

  lemma PrependNothing(rest: Option<JsString>)
    ensures Prepend([], rest) == rest
  {
    if rest.Some? {
      assert [] + rest.value == rest.value;
    }
  }

  /** From the end of the last character to the next escape everything is copied. */
  lemma {:induction false} Copied(s: JsString, last: nat, upTo: nat, decoded: JsString)
    requires last <= upTo <= |s| && PERCENT !in s[last..upTo]
    ensures Prepend(decoded, DecodeFrom(s, last)) == Prepend(decoded + s[last..upTo], DecodeFrom(s, upTo))
    decreases upTo - last
  {
    if last == upTo {
      assert decoded + s[last..upTo] == decoded;
    } else {
      assert s[last] == s[last..upTo][0];
      assert s[last + 1..upTo] == s[last..upTo][1..];
      PrependTwice(decoded, [s[last]], DecodeFrom(s, last + 1));
      Copied(s, last + 1, upTo, decoded + [s[last]]);
      assert decoded + [s[last]] + s[last + 1..upTo] == decoded + s[last..upTo];
    }
  }

  /** With no escape left the rest is copied as it stands. */
  lemma CopiedToEnd(s: JsString, last: nat, decoded: JsString)
    requires last <= |s| && PERCENT !in s[last..]
    ensures Prepend(decoded, DecodeFrom(s, last)) == Some(decoded + s[last..])
  {
    assert s[last..|s|] == s[last..];
    Copied(s, last, |s|, decoded);
    assert decoded + s[last..] + [] == decoded + s[last..];
  }

  /**
   * The decoder stands at the escape at `position`; the escapes from `start` on spell `octets`, and
   * everything from `last` to `start` is still to be copied.
   */
  ghost predicate Reading(s: JsString, last: nat, start: int, position: int, octets: seq<Byte>) {
    && last <= start
    && start + 3 * |octets| == position
    && start < |s| && s[start] == PERCENT
    && PERCENT !in s[last..start]
    && Octets(s, start, |octets|) == Some(octets)
  }

  /** A broken group ends the decoding, whatever was decoded before it. */
  lemma BrokenAt(s: JsString, last: nat, start: nat, position: nat, octets: seq<Byte>, decoded: JsString)
    requires Reading(s, last, start, position, octets) && NoCharWithin(octets)
    requires match Octet(s, position) { case None => true case Some(b) => NoCharExtends(octets + [b]) }
    ensures Prepend(decoded, DecodeFrom(s, last)) == None
  {
    BrokenGroup(s, start, octets);
    Copied(s, last, start, decoded);
  }

  /** A complete group is replaced by its character. */
  lemma CharacterAt(s: JsString, last: nat, start: nat, position: nat, octets: seq<Byte>, decoded: JsString)
    requires Reading(s, last, start, position, octets) && IsUtf8Char(octets)
    ensures position <= |s|
    ensures Prepend(decoded, DecodeFrom(s, last)) ==
            Prepend(decoded + s[last..start] + Utf16(ScalarOf(octets)), DecodeFrom(s, position))
  {
    CompleteGroup(s, start, octets);
    Copied(s, last, start, decoded);
    PrependTwice(decoded + s[last..start], Utf16(ScalarOf(octets)), DecodeFrom(s, position));
  }

  /** The surrogate pair the decoder computes by shifting and masking. */
  lemma SurrogateArithmetic(cp: nat)
    requires 0x10000 <= cp <= 0x10FFFF
    ensures 0xd7c0 + Shr(cp, 10) == 0xD800 + (cp - 0x10000) / 0x400
    ensures 0xdc00 + And(cp, 0x3ff) == 0xDC00 + (cp - 0x10000) % 0x400
  {
    Powers();
    AndMask(cp, 10);
  }

  function FromCharCode(c: CodeUnit): JsString {
    [c]
  }

  function FromCharCodes(c: CodeUnit, d: CodeUnit): JsString {
    [c, d]
  }

  /** The code units the decoder appends for an accepted code point. */
  function CharsOf(cp: nat): (s: JsString)
    requires cp <= 0x10FFFF
    ensures s == Utf16(cp)
  {
    if cp <= 0xffff then FromCharCode(cp)
    else
      SurrogateArithmetic(cp);
      FromCharCodes(0xd7c0 + Shr(cp, 10), 0xdc00 + And(cp, 0x3ff))
  }

  /** The state of the decoder's loop: what is decoded, and what the rest still has to yield. */
  ghost predicate Scanning(uri: JsString, decoded: JsString, last: nat, start: int, position: int, octets: seq<Byte>,
                           a: Auto)
  {
    && last <= |uri|
    && Decode(uri) == Prepend(decoded, DecodeFrom(uri, last))
    && if position == -1 then PERCENT !in uri[last..]
       else
         && 0 <= position < |uri| && uri[position] == PERCENT
         && Reading(uri, last, start, position, octets)
         && Inside(octets, a)
  }

  /** The next escape after a character, or none. */
  lemma ScanOn(uri: JsString, decoded: JsString, last: nat)
    requires last <= |uri| && Decode(uri) == Prepend(decoded, DecodeFrom(uri, last))
    ensures Scanning(uri, decoded, last, IndexOf(uri, PERCENT, last), IndexOf(uri, PERCENT, last), [], Start)
  {
    IndexOfFirst(uri, PERCENT, last);
  }

  lemma StepAccepted(uri: JsString, decoded: JsString, last: nat, start: int, position: int, octets: seq<Byte>,
                     a: Auto, b: Byte)
    requires position != -1 && Scanning(uri, decoded, last, start, position, octets, a)
    requires Octet(uri, position) == Some(b)
    requires CanStep(a) && Next(a, b).state == UTF8_ACCEPT
    ensures 0 <= position && position + 3 <= |uri| && last <= start <= |uri| && Next(a, b).codepoint <= 0x10FFFF
    ensures var next := IndexOf(uri, PERCENT, position + 3);
            Scanning(uri, decoded + uri[last..start] + Utf16(Next(a, b).codepoint), position + 3, next, next, [], Start)
  {
    InsideStep(octets, a, b);
    CharacterAt(uri, last, start, position + 3, octets + [b], decoded);
    ScanOn(uri, decoded + uri[last..start] + Utf16(Next(a, b).codepoint), position + 3);
  }

  lemma StepRejected(uri: JsString, decoded: JsString, last: nat, start: int, position: int, octets: seq<Byte>,
                     a: Auto, b: Byte)
    requires position != -1 && Scanning(uri, decoded, last, start, position, octets, a)
    requires b == match Octet(uri, position) { case Some(octet) => octet case None => 255 }
    requires CanStep(a) && Next(a, b) == Rejected
    ensures Decode(uri) == None
  {
    InsideStep(octets, a, b);
    InsideHoldsNone(octets, a);
    BrokenAt(uri, last, start, position, octets, decoded);
  }

  lemma StepPending(uri: JsString, decoded: JsString, last: nat, start: int, position: int, octets: seq<Byte>,
                    a: Auto, b: Byte)
    requires position != -1 && Scanning(uri, decoded, last, start, position, octets, a)
    requires Octet(uri, position) == Some(b)
    requires CanStep(a) && IsPending(Next(a, b))
    ensures if position + 3 < |uri| && uri[position + 3] == PERCENT
            then Scanning(uri, decoded, last, start, position + 3, octets + [b], Next(a, b))
            else Decode(uri) == None
  {
    InsideStep(octets, a, b);
    if !(position + 3 < |uri| && uri[position + 3] == PERCENT) {
      InsideHoldsNone(octets + [b], Next(a, b));
      BrokenAt(uri, last, start, position + 3, octets + [b], decoded);
    }
  }

  /** What the escape at `position` does to the decoding; a bad or missing hex digit is the byte 255. */
  lemma EscapeStep(uri: JsString, decoded: JsString, last: nat, start: int, position: int, octets: seq<Byte>,
                   a: Auto, byte: Byte)
    requires position != -1 && Scanning(uri, decoded, last, start, position, octets, a)
    requires byte == match Octet(uri, position) { case Some(octet) => octet case None => 255 }
    ensures CanStep(a)
    ensures Next(a, byte) == Rejected ==> Decode(uri) == None
    ensures Next(a, byte).state == UTF8_ACCEPT ==>
              && 0 <= position && position + 3 <= |uri| && last <= start <= |uri|
              && Next(a, byte).codepoint <= 0x10FFFF
              && var next := IndexOf(uri, PERCENT, position + 3);
                 Scanning(uri, decoded + uri[last..start] + Utf16(Next(a, byte).codepoint), position + 3, next, next,
                          [], Start)
    ensures IsPending(Next(a, byte)) ==>
              if position + 3 < |uri| && uri[position + 3] == PERCENT
              then Scanning(uri, decoded, last, start, position + 3, octets + [byte], Next(a, byte))
              else Decode(uri) == None
  {
    InsideStep(octets, a, byte);
    SentinelRejects(a);
    if Next(a, byte) == Rejected {
      StepRejected(uri, decoded, last, start, position, octets, a, byte);
    } else if IsPending(Next(a, byte)) {
      StepPending(uri, decoded, last, start, position, octets, a, byte);
    } else {
      StepAccepted(uri, decoded, last, start, position, octets, a, byte);
    }
  }

  /** The three lookups of the loop body: they take the automaton's step. */
  method FeedByte(state: nat, codepoint: nat, byte: Byte) returns (nextState: nat, nextCodepoint: nat)
    requires CanStep(Auto(state, codepoint))
    ensures nextState == Next(Auto(state, codepoint), byte).state
    ensures nextState != UTF8_REJECT ==> nextCodepoint == Next(Auto(state, codepoint), byte).codepoint
  {
    StepIndices(state, byte);
    StepArithmetic(Auto(state, codepoint), byte);
    var typ := Utf8Data()[byte];
    nextState := Utf8Data()[256 + state + typ];
    nextCodepoint := Or(Shl(codepoint, 6), And(byte, Utf8Data()[364 + typ]));
  }

  /** The two digits after the percent sign, or the byte 255. */
  method ReadByte(uri: JsString, percentPosition: nat) returns (byte: Byte)
    requires percentPosition < |uri| && uri[percentPosition] == PERCENT
    ensures byte == match Octet(uri, percentPosition) { case Some(octet) => octet case None => 255 }
  {
    var high := HexCodeToInt(CharAt(uri, percentPosition + 1), 4);
    var low := HexCodeToInt(CharAt(uri, percentPosition + 2), 0);
    HexByte(uri, percentPosition);
    byte := Or(high, low);
  }

  method SafeDecodeURIComponent(uri: JsString) returns (r: Option<JsString>)
    ensures r == Decode(uri)
  {
    PrependNothing(Decode(uri));
    ScanOn(uri, [], 0);
    var percentPosition := IndexOf(uri, PERCENT, 0);
    if percentPosition == -1 {
      CopiedToEnd(uri, 0, []);
      assert [] + uri[0..] == uri;
      return Some(uri);
    }

    var length := |uri|;
    var decoded: JsString := [];
    var last := 0;
    var codepoint := 0;
    var startOfOctets := percentPosition;
    var state := UTF8_ACCEPT;
    ghost var octets: seq<Byte> := [];

    while percentPosition > -1 && percentPosition < length
      invariant last <= length
      invariant Scanning(uri, decoded, last, startOfOctets, percentPosition, octets, Auto(state, codepoint))
      decreases if percentPosition == -1 then 0 else length - percentPosition
    {
      var byte := ReadByte(uri, percentPosition);
      EscapeStep(uri, decoded, last, startOfOctets, percentPosition, octets, Auto(state, codepoint), byte);
      state, codepoint := FeedByte(state, codepoint, byte);

      if state == UTF8_ACCEPT {
        decoded := decoded + uri[last..startOfOctets];
        decoded := decoded + CharsOf(codepoint);
        codepoint := 0;
        last := percentPosition + 3;
        startOfOctets := IndexOf(uri, PERCENT, last);
        percentPosition := startOfOctets;
        octets := [];
      } else if state == UTF8_REJECT {
        return None;
      } else {
        percentPosition := percentPosition + 3;
        octets := octets + [byte];
        if percentPosition < length && uri[percentPosition] == 37 {
          continue;
        }
        return None;
      }
    }
    CopiedToEnd(uri, last, decoded);
    return Some(decoded + uri[last..]);
  }
}
