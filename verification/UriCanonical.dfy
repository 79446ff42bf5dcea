/** Of all spellings of a string encodeURIComponent yields the canonical one, which can be told by looking at it. */
module UriCanonical {
  import opened Prelude
  import opened Utf8
  import opened UriComponent
  import opened UriRoundTrip

  predicate IsUpperHexDigit(c: CodeUnit) {
    0x30 <= c <= 0x39 || 0x41 <= c <= 0x46
  }

  /** An escape in capitals, of an octet that must be escaped. */
  predicate IsCanonicalEscape(u: JsString, i: nat) {
    && Octet(u, i).Some? && IsUpperHexDigit(u[i + 1]) && IsUpperHexDigit(u[i + 2])
    && !IsUnreserved(Octet(u, i).value)
  }

  /** From position i on: unreserved units as they are, and canonical escapes. */
  predicate CanonicalFrom(u: JsString, i: nat)
    decreases |u| - i
  {
    if i >= |u| then true
    else if u[i] != PERCENT then IsUnreserved(u[i]) && CanonicalFrom(u, i + 1)
    else IsCanonicalEscape(u, i) && CanonicalFrom(u, i + 3)
  }

  predicate IsCanonical(u: JsString) {
    CanonicalFrom(u, 0)
  }

  // ----- A row of escapes

  ghost predicate AreCanonical(u: JsString, i: nat, n: nat) {
    forall k :: 0 <= k < n ==> IsCanonicalEscape(u, i + 3 * k)
  }

  /** A row of escapes is canonical with what follows it if and only if both are. */
  lemma {:induction false} CanonicalRow(u: JsString, i: nat, n: nat)
    requires Octets(u, i, n).Some?
    ensures CanonicalFrom(u, i) <==> AreCanonical(u, i, n) && CanonicalFrom(u, i + 3 * n)
  {
    if n > 0 {
      CanonicalRow(u, i, n - 1);
      OneMoreCanonical(u, i, n - 1);
    }
  }

  lemma OneMoreCanonical(u: JsString, i: nat, n: nat)
    requires Octet(u, i + 3 * n).Some?
    ensures AreCanonical(u, i, n + 1) <==> AreCanonical(u, i, n) && IsCanonicalEscape(u, i + 3 * n)
    ensures CanonicalFrom(u, i + 3 * n) <==> IsCanonicalEscape(u, i + 3 * n) && CanonicalFrom(u, i + 3 * (n + 1))
  {
  }

  lemma UpperHexOfValue(c: CodeUnit)
    requires IsUpperHexDigit(c)
    ensures UpperHex(HexValue(c)) == c
  {
  }

  lemma EscapeOfOctet(u: JsString, i: nat)
    requires IsCanonicalEscape(u, i)
    ensures i + 3 <= |u| && u[i..i + 3] == Escape(Octet(u, i).value)
  {
    UpperHexOfValue(u[i + 1]);
    UpperHexOfValue(u[i + 2]);
  }

  lemma LastOctet(u: JsString, i: nat, n: nat) returns (bs: seq<Byte>, b: Byte)
    requires Octets(u, i, n + 1).Some?
    ensures Octets(u, i, n) == Some(bs) && Octet(u, i + 3 * n) == Some(b) && Octets(u, i, n + 1).value == bs + [b]
  {
    bs, b := Octets(u, i, n).value, Octet(u, i + 3 * n).value;
  }

  lemma LastCanonical(u: JsString, i: nat, n: nat)
    requires AreCanonical(u, i, n + 1)
    ensures AreCanonical(u, i, n) && IsCanonicalEscape(u, i + 3 * n)
  {
  }

  /** Canonical escapes are the ones their octets have. */
  lemma {:induction false} RowOfOctets(u: JsString, i: nat, n: nat)
    requires i <= |u| && Octets(u, i, n).Some? && AreCanonical(u, i, n)
    ensures i + 3 * n <= |u| && u[i..i + 3 * n] == EscapeAll(Octets(u, i, n).value)
  {
    if n > 0 {
      var m := n - 1;
      var bs, b := LastOctet(u, i, m);
      LastCanonical(u, i, m);
      RowOfOctets(u, i, m);
      EscapeOfOctet(u, i + 3 * m);
      RowStep(u, i, m, bs, b);
    }
  }

  lemma RowStep(u: JsString, i: nat, n: nat, bs: seq<Byte>, b: Byte)
    requires i + 3 * n + 3 <= |u| && u[i..i + 3 * n] == EscapeAll(bs)
    requires u[i + 3 * n..i + 3 * n + 3] == Escape(b)
    ensures u[i..i + 3 * n + 3] == EscapeAll(bs + [b])
  {
    EscapeSnoc(bs, b);
  }

  lemma EscapeSnoc(bs: seq<Byte>, b: Byte)
    ensures EscapeAll(bs + [b]) == EscapeAll(bs) + Escape(b)
  {
    assert (bs + [b])[..|bs|] == bs;
  }

  // ----- Characters

  /** A character that must be escaped has only octets that must be, and no other character has. */
  lemma MustEscape(bs: seq<Byte>)
    requires IsUtf8Char(bs)
    ensures IsUnreserved(bs[0]) <==> ScalarOf(bs) < 0x80 && IsUnreserved(ScalarOf(bs))
    ensures !IsUnreserved(bs[0]) ==> forall k :: 0 <= k < |bs| ==> !IsUnreserved(bs[k])
  {
  }

  /** A character that must be escaped is encoded by the escapes of its octets. */
  lemma EncodeCharacter(cp: nat, rest: JsString)
    requires IsScalar(cp) && !(cp < 0x80 && IsUnreserved(cp))
    ensures EncodeURIComponent(Utf16(cp) + rest) ==
            Prepend(EscapeAll(Encode(cp)), EncodeURIComponent(rest))
  {
    if cp <= 0xFFFF {
      assert ([cp] + rest)[1..] == rest;
    } else {
      PairOf(cp);
    }
  }

  lemma PairOf(cp: nat)
    requires 0x10000 <= cp <= 0x10FFFF
    ensures |Utf16(cp)| == 2 && IsLead(Utf16(cp)[0]) && IsTrail(Utf16(cp)[1])
    ensures PairValue(Utf16(cp)[0], Utf16(cp)[1]) == cp
  {
  }

  // ----- Encoding undoes decoding on canonical spellings

  lemma {:induction false} EncodeDecodeFrom(u: JsString, i: nat)
    requires i <= |u| && CanonicalFrom(u, i) && DecodeFrom(u, i).Some?
    ensures EncodeURIComponent(DecodeFrom(u, i).value) == Some(u[i..])
    decreases |u| - i
  {
    if i < |u| {
      if u[i] != PERCENT {
        EncodeDecodeFrom(u, i + 1);
        EncodeLiteral(u[i], DecodeFrom(u, i + 1).value);
        assert u[i..] == [u[i]] + u[i + 1..];
      } else {
        var bs := Group(u, i).value;
        CanonicalRow(u, i, |bs|);
        EncodeDecodeFrom(u, i + 3 * |bs|);
        EncodeGroup(u, i, bs, DecodeFrom(u, i + 3 * |bs|).value);
      }
    }
  }

  lemma EncodeLiteral(c: CodeUnit, rest: JsString)
    requires IsUnreserved(c)
    ensures EncodeURIComponent([c] + rest) == Prepend([c], EncodeURIComponent(rest))
  {
    assert ([c] + rest)[1..] == rest;
  }

  lemma EncodeGroup(u: JsString, i: nat, bs: seq<Byte>, rest: JsString)
    requires i + 3 * |bs| <= |u| && bs != [] && IsUtf8Char(bs)
    requires Octets(u, i, |bs|) == Some(bs) && AreCanonical(u, i, |bs|)
    requires EncodeURIComponent(rest) == Some(u[i + 3 * |bs|..])
    ensures EncodeURIComponent(Utf16(ScalarOf(bs)) + rest) == Some(u[i..])
  {
    FirstOctet(u, i, bs);
    EncodeOctets(bs, rest);
    RowOfOctets(u, i, |bs|);
    PrependSlice(u, i, EscapeAll(bs), EncodeURIComponent(rest));
  }

  lemma PrependSlice(u: JsString, i: nat, front: JsString, rest: Option<JsString>)
    requires i + |front| <= |u| && u[i..i + |front|] == front && rest == Some(u[i + |front|..])
    ensures Prepend(front, rest) == Some(u[i..])
  {
    assert u[i..] == u[i..i + |front|] + u[i + |front|..];
  }

  /** A decoded character is encoded by the very octets it was spelled with. */
  lemma EncodeOctets(bs: seq<Byte>, rest: JsString)
    requires IsUtf8Char(bs) && !IsUnreserved(bs[0])
    ensures EncodeURIComponent(Utf16(ScalarOf(bs)) + rest) == Prepend(EscapeAll(bs), EncodeURIComponent(rest))
  {
    MustEscape(bs);
    EncodeScalarOf(bs);
    EncodeCharacter(ScalarOf(bs), rest);
  }

  lemma FirstOctet(u: JsString, i: nat, bs: seq<Byte>)
    requires bs != [] && Octets(u, i, |bs|) == Some(bs) && AreCanonical(u, i, |bs|)
    ensures !IsUnreserved(bs[0])
  {
    OctetsPrefix(u, i, |bs|, 1);
    assert IsCanonicalEscape(u, i + 3 * 0);
    assert Octets(u, i, 0) == Some([]);
    assert Octets(u, i, 1).value[0] == Octet(u, i).value;
  }

  // ----- What is encoded is canonical

  lemma {:induction false} EncodedIsCanonical(u: JsString, i: nat, s: JsString)
    requires i <= |u| && EncodeURIComponent(s) == Some(u[i..])
    ensures CanonicalFrom(u, i)
    decreases |s|
  {
    if s != [] {
      if IsUnreserved(s[0]) {
        EncodedRest(u, i, [s[0]], EncodeURIComponent(s[1..]));
        assert u[i] == u[i..i + 1][0];
        EncodedIsCanonical(u, i + 1, s[1..]);
      } else {
        var cp, n := EscapedChar(s);
        var bs := Encode(cp);
        EncodedRest(u, i, EscapeAll(bs), EncodeURIComponent(s[n..]));
        EncodedIsCanonical(u, i + 3 * |bs|, s[n..]);
        EscapedRow(u, i, s[0], cp);
        CanonicalRow(u, i, |bs|);
      }
    }
  }

  lemma EscapedRow(u: JsString, i: nat, c: CodeUnit, cp: nat)
    requires IsScalar(cp) && !IsUnreserved(c) && Utf16(cp)[0] == c
    requires i + 3 * |Encode(cp)| <= |u| && u[i..i + 3 * |Encode(cp)|] == EscapeAll(Encode(cp))
    ensures Octets(u, i, |Encode(cp)|).Some? && AreCanonical(u, i, |Encode(cp)|)
  {
    var bs := Encode(cp);
    OctetsOfEscapes(u, i, bs, |bs|);
    ScalarOfEncode(cp);
    MustEscape(bs);
    forall k | 0 <= k < |bs|
      ensures IsCanonicalEscape(u, i + 3 * k)
    {
      OctetOfEscape(u, i, bs, k);
      UpperAt(u, i, bs, k);
    }
  }

  lemma UpperAt(u: JsString, i: nat, bs: seq<Byte>, k: nat)
    requires i + 3 * |bs| <= |u| && u[i..i + 3 * |bs|] == EscapeAll(bs) && k < |bs|
    ensures IsUpperHexDigit(u[i + 3 * k + 1]) && IsUpperHexDigit(u[i + 3 * k + 2])
  {
    var e := EscapeAll(bs);
    EscapeAllAt(bs, k);
    assert u[i + 3 * k + 1] == e[3 * k + 1] && u[i + 3 * k + 2] == e[3 * k + 2];
  }

  /** A text is the encoding of a string if and only if it decodes to it and is canonical. */
  lemma EncodeIffCanonical(u: JsString, s: JsString)
    ensures EncodeURIComponent(s) == Some(u) <==> Decode(u) == Some(s) && IsCanonical(u)
  {
    assert u[0..] == u;
    if EncodeURIComponent(s) == Some(u) {
      DecodeEncodeFrom(u, 0, s);
      EncodedIsCanonical(u, 0, s);
    }
    if Decode(u) == Some(s) && IsCanonical(u) {
      EncodeDecodeFrom(u, 0);
    }
  }
}
