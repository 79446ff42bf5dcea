/** The digits of escapes, spelled out: which units they are, and that their case does not matter. */
module UriHex {
  import opened Prelude
  import opened Utf8
  import opened UriComponent

  /** 0123456789ABCDEF */
  const UPPER: seq<CodeUnit> := [0x30, 0x31, 0x32, 0x33, 0x34, 0x35, 0x36, 0x37,
                                 0x38, 0x39, 0x41, 0x42, 0x43, 0x44, 0x45, 0x46]
  /** 0123456789abcdef */
  const LOWER: seq<CodeUnit> := [0x30, 0x31, 0x32, 0x33, 0x34, 0x35, 0x36, 0x37,
                                 0x38, 0x39, 0x61, 0x62, 0x63, 0x64, 0x65, 0x66]

  predicate Spells(c: CodeUnit, v: nat)
    requires v < 16
  {
    c == UPPER[v] || c == LOWER[v]
  }

  lemma DigitIff(c: CodeUnit, v: nat)
    requires v < 16
    ensures IsHexDigit(c) && HexValue(c) == v <==> Spells(c, v)
  {
  }

  /** An escape spells an octet by the two hexadecimal digits of it, in either case. */
  lemma OctetIff(s: JsString, i: nat, b: Byte)
    ensures Octet(s, i) == Some(b) <==>
            i + 2 < |s| && s[i] == 0x25 && Spells(s[i + 1], b / 16) && Spells(s[i + 2], b % 16)
  {
    if i + 2 < |s| {
      DigitIff(s[i + 1], b / 16);
      DigitIff(s[i + 2], b % 16);
    }
  }

  // ----- The case of the digits

  /** The same unit, or the same digit in the other case. */
  ghost predicate IsSameDigit(c: CodeUnit, d: CodeUnit) {
    c == d || exists v: nat :: v < 16 && Spells(c, v) && Spells(d, v)
  }

  /** From position i on t is s, but for the case of the digits of escapes. */
  ghost predicate IsVariant(s: JsString, t: JsString, i: nat)
    requires |s| == |t|
    decreases |s| - i
  {
    if i >= |s| then true
    else if s[i] != 0x25 then t[i] == s[i] && IsVariant(s, t, i + 1)
    else if i + 2 >= |s| then s[i..] == t[i..]
    else
      t[i] == 0x25 && IsSameDigit(s[i + 1], t[i + 1]) && IsSameDigit(s[i + 2], t[i + 2]) && IsVariant(s, t, i + 3)
  }

  lemma SameDigit(c: CodeUnit, d: CodeUnit)
    requires IsSameDigit(c, d)
    ensures IsHexDigit(c) <==> IsHexDigit(d)
    ensures IsHexDigit(c) ==> HexValue(c) == HexValue(d)
  {
    if c != d {
      var v: nat :| v < 16 && Spells(c, v) && Spells(d, v);
      DigitIff(c, v);
      DigitIff(d, v);
    }
  }

  lemma SameOctet(s: JsString, t: JsString, i: nat)
    requires |s| == |t| && IsVariant(s, t, i)
    ensures Octet(s, i) == Octet(t, i)
    ensures Octet(s, i).Some? ==> IsVariant(s, t, i + 3)
  {
    if i + 2 < |s| && s[i] == 0x25 {
      SameDigit(s[i + 1], t[i + 1]);
      SameDigit(s[i + 2], t[i + 2]);
    }
  }

  lemma {:induction false} SameOctets(s: JsString, t: JsString, i: nat, n: nat)
    requires |s| == |t| && IsVariant(s, t, i)
    ensures Octets(s, i, n) == Octets(t, i, n)
    ensures Octets(s, i, n).Some? ==> IsVariant(s, t, i + 3 * n)
  {
    if n > 0 {
      SameOctets(s, t, i, n - 1);
      if Octets(s, i, n - 1).Some? {
        SameOctet(s, t, i + 3 * (n - 1));
      }
    }
  }

  lemma SameGroup(s: JsString, t: JsString, i: nat)
    requires |s| == |t| && IsVariant(s, t, i)
    ensures Group(s, i) == Group(t, i)
    ensures Group(s, i).Some? ==> IsVariant(s, t, i + 3 * |Group(s, i).value|)
  {
    SameOctet(s, t, i);
    if Octet(s, i).Some? {
      SameOctets(s, t, i, Announced(Octet(s, i).value));
    }
  }

  lemma {:induction false} DecodeVariantFrom(s: JsString, t: JsString, i: nat)
    requires |s| == |t| && IsVariant(s, t, i)
    ensures DecodeFrom(s, i) == DecodeFrom(t, i)
    decreases |s| - i
  {
    if i < |s| {
      if s[i] != 0x25 {
        DecodeVariantFrom(s, t, i + 1);
      } else {
        SameGroup(s, t, i);
        if Group(s, i).Some? {
          DecodeVariantFrom(s, t, i + 3 * |Group(s, i).value|);
        }
      }
    }
  }

  /** Changing the case of the digits of escapes never changes what a string decodes to. */
  lemma DecodeVariant(s: JsString, t: JsString)
    requires |s| == |t| && IsVariant(s, t, 0)
    ensures Decode(s) == Decode(t)
  {
    DecodeVariantFrom(s, t, 0);
  }
}
