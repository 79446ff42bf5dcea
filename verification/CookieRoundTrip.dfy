/** Parsing undoes printing: the Cookie header of section 4.2.1 of RFC 6265 with percent-encoded values. */
module CookieRoundTrip {
  import opened Prelude
  import opened UriComponent
  import opened UriRoundTrip
  import opened Cookies

  type Cookie = (JsString, JsString)

  /** A key that survives: no `=` or `;` inside and no blank at either end. */
  predicate IsPrintableKey(key: JsString) {
    && EQUALS !in key && SEMICOLON !in key
    && (key != [] ==> !IsBlank(key[0]) && !IsBlank(key[|key| - 1]))
  }

  ghost predicate IsPrintable(pair: Cookie) {
    IsPrintableKey(pair.0) && IsWellFormed(pair.1)
  }

  ghost predicate ArePrintable(pairs: seq<Cookie>) {
    forall k :: 0 <= k < |pairs| ==> IsPrintable(pairs[k])
  }

  ghost function Encoded(pair: Cookie): JsString
    requires IsPrintable(pair)
  {
    EncodeDefined(pair.1);
    EncodeURIComponent(pair.1).value
  }

  ghost function PrintPair(pair: Cookie): JsString
    requires IsPrintable(pair)
  {
    pair.0 + [EQUALS] + Encoded(pair)
  }

  /** `cookie-string = cookie-pair *( ";" SP cookie-pair )` */
  ghost function Print(pairs: seq<Cookie>): JsString
    requires ArePrintable(pairs)
  {
    if pairs == [] then []
    else if |pairs| == 1 then PrintPair(pairs[0])
    else PrintPair(pairs[0]) + [SEMICOLON, SPACE] + Print(pairs[1..])
  }

  // ----- Encoded values hold nothing the parser looks for

  predicate IsPlain(c: CodeUnit) {
    IsUnreserved(c) || c == PERCENT
  }

  ghost predicate ArePlain(s: JsString) {
    forall k :: 0 <= k < |s| ==> IsPlain(s[k])
  }

  lemma {:induction false} EscapesPlain(bs: seq<Utf8.Byte>)
    ensures ArePlain(EscapeAll(bs))
  {
    if bs != [] {
      EscapesPlain(bs[..|bs| - 1]);
    }
  }

  lemma {:induction false} EncodedPlain(s: JsString)
    requires EncodeURIComponent(s).Some?
    ensures ArePlain(EncodeURIComponent(s).value)
  {
    if s != [] {
      if IsUnreserved(s[0]) {
        EncodedPlain(s[1..]);
      } else {
        var cp, n := EscapedChar(s);
        EscapesPlain(Utf8.Encode(cp));
        EncodedPlain(s[n..]);
      }
    }
  }

  // ----- One printed pair is one piece, and the piece gives the pair back

  /** A piece as it stands between semicolons: after the first pair a space comes first. */
  lemma PieceOfPair(lead: JsString, pair: Cookie, rest: Pairs)
    requires IsPrintable(pair) && lead in [[], [SPACE]]
    ensures PieceThen(lead + PrintPair(pair), rest) == Pair(pair.0, Encoded(pair), rest)
  {
    var key, value := lead + pair.0, Encoded(pair);
    EncodeDefined(pair.1);
    EncodedPlain(pair.1);
    CutAtEquals(lead, pair.0, value);
    assert lead + PrintPair(pair) == key + [EQUALS] + value;
    TrimLed(lead, pair.0);
    TrimPlain(value);
  }

  lemma CutAtEquals(lead: JsString, key: JsString, value: JsString)
    requires EQUALS !in key && EQUALS !in lead
    ensures var piece := lead + key + [EQUALS] + value;
            var eq := IndexOf(piece, EQUALS, 0);
            eq == |lead + key| && piece[..eq] == lead + key && piece[eq + 1..] == value
  {
    var whole := lead + key;
    var piece := whole + [EQUALS] + value;
    assert EQUALS !in whole;
    forall k | 0 <= k < |whole|
      ensures piece[k] != EQUALS
    {
      assert piece[k] == whole[k] && whole[k] in whole;
    }
    IndexOfIs(piece, EQUALS, 0, |whole|);
  }

  lemma NoSemicolon(lead: JsString, pair: Cookie)
    requires IsPrintable(pair) && lead in [[], [SPACE]]
    ensures SEMICOLON !in lead + PrintPair(pair)
  {
    EncodeDefined(pair.1);
    EncodedPlain(pair.1);
    var value := Encoded(pair);
    forall k | 0 <= k < |value|
      ensures value[k] != SEMICOLON
    {
      assert IsPlain(value[k]);
    }
  }

  lemma TrimLed(lead: JsString, key: JsString)
    requires IsPrintableKey(key) && lead in [[], [SPACE]]
    ensures Trim(lead + key) == key
  {
    var s := lead + key;
    TrimIs(s, |lead|, |s|);
    assert s[|lead|..|s|] == key;
  }

  lemma TrimPlain(value: JsString)
    requires ArePlain(value)
    ensures Unquote(Trim(value)) == value
  {
    TrimIs(value, 0, |value|);
    assert value[0..|value|] == value;
  }

  /** What the specification should find in the printed text. */
  ghost function EncodedPairs(pairs: seq<Cookie>): Pairs
    requires ArePrintable(pairs)
  {
    if pairs == [] then End else Pair(pairs[0].0, Encoded(pairs[0]), EncodedPairs(pairs[1..]))
  }

  /** The first piece of u from i on. */
  lemma FirstPiece(u: JsString, i: nat, piece: JsString)
    requires i + |piece| <= |u| && u[i..i + |piece|] == piece && SEMICOLON !in piece
    requires i + |piece| < |u| ==> u[i + |piece|] == SEMICOLON
    ensures PairsFrom(u, i) == PieceThen(piece, PairsFrom(u, i + |piece| + 1))
  {
    EndOfPiece(u, i, i + |piece|);
  }

  lemma EndOfPiece(u: JsString, i: nat, end: nat)
    requires i <= end <= |u| && SEMICOLON !in u[i..end] && (end < |u| ==> u[end] == SEMICOLON)
    ensures PieceEnd(u, i) == end
  {
    forall k | i <= k < end
      ensures u[k] != SEMICOLON
    {
      assert u[k] == u[i..end][k - i];
    }
    if end < |u| {
      IndexOfIs(u, SEMICOLON, i, end);
    } else {
      IndexOfNone(u, SEMICOLON, i);
    }
  }

  lemma SplitRest(u: JsString, i: nat, a: JsString, b: JsString)
    requires i <= |u| && u[i..] == a + b
    ensures i + |a| <= |u| && u[i..i + |a|] == a && u[i + |a|..] == b
  {
    assert u[i..][..|a|] == a && u[i..][|a|..] == b;
  }

  /** The specification finds exactly the printed pairs. */
  lemma {:induction false} PairsOfPrinted(u: JsString, i: nat, lead: JsString, pairs: seq<Cookie>)
    requires ArePrintable(pairs) && pairs != [] && lead in [[], [SPACE]]
    requires i <= |u| && u[i..] == lead + Print(pairs)
    ensures PairsFrom(u, i) == EncodedPairs(pairs)
    decreases |pairs|
  {
    if |pairs| == 1 {
      LastPrinted(u, i, lead, pairs[0]);
      assert EncodedPairs(pairs[1..]) == End;
    } else {
      var next := PrintedBeforeMore(u, i, lead, pairs[0], Print(pairs[1..]));
      PairsOfPrinted(u, next, [SPACE], pairs[1..]);
    }
  }

  lemma LastPrinted(u: JsString, i: nat, lead: JsString, pair: Cookie)
    requires IsPrintable(pair) && lead in [[], [SPACE]]
    requires i <= |u| && u[i..] == lead + PrintPair(pair)
    ensures PairsFrom(u, i) == Pair(pair.0, Encoded(pair), End)
  {
    var piece := lead + PrintPair(pair);
    NoSemicolon(lead, pair);
    PieceOfPair(lead, pair, End);
    assert u[i..i + |piece|] == u[i..] == piece;
    FirstPiece(u, i, piece);
  }

  lemma PrintedBeforeMore(u: JsString, i: nat, lead: JsString, pair: Cookie, more: JsString) returns (next: nat)
    requires IsPrintable(pair) && lead in [[], [SPACE]]
    requires i <= |u| && u[i..] == lead + (PrintPair(pair) + [SEMICOLON, SPACE] + more)
    ensures next <= |u| && u[next..] == [SPACE] + more
    ensures PairsFrom(u, i) == Pair(pair.0, Encoded(pair), PairsFrom(u, next))
  {
    NoSemicolon(lead, pair);
    next := PieceBeforeMore(u, i, lead, PrintPair(pair), more);
    PieceOfPair(lead, pair, PairsFrom(u, next));
  }

  lemma PieceAhead(u: JsString, i: nat, piece: JsString) returns (next: nat)
    requires i + |piece| < |u| && u[i..i + |piece|] == piece && SEMICOLON !in piece && u[i + |piece|] == SEMICOLON
    ensures next == i + |piece| + 1 && PairsFrom(u, i) == PieceThen(piece, PairsFrom(u, next))
  {
    FirstPiece(u, i, piece);
    next := i + |piece| + 1;
  }

  lemma PieceBeforeMore(u: JsString, i: nat, lead: JsString, first: JsString, more: JsString) returns (next: nat)
    requires SEMICOLON !in lead + first
    requires i <= |u| && u[i..] == lead + (first + [SEMICOLON, SPACE] + more)
    ensures next <= |u| && u[next..] == [SPACE] + more
    ensures PairsFrom(u, i) == PieceThen(lead + first, PairsFrom(u, next))
  {
    next := PieceAhead(u, i, lead + first);
  }

  // ----- What is stored

  /** The first value of each key is stored into obj, but not under the key that cannot be stored. */
  function Stored(obj: Jar, pairs: seq<Cookie>): Jar
    decreases pairs
  {
    if pairs == [] then obj
    else Stored(if pairs[0].0 in obj then obj else Store(obj, pairs[0].0, pairs[0].1), pairs[1..])
  }

  lemma DecodeEncodedValue(pair: Cookie)
    requires IsPrintable(pair)
    ensures TryDecode(Encoded(pair)) == pair.1
  {
    DecodeEncode(pair.1);
    var e := Encoded(pair);
    if IndexOf(e, PERCENT, 0) == -1 {
      IndexOfFirst(e, PERCENT, 0);
      assert e[0..] == e;
      PrependNothing(Decode(e));
      CopiedToEnd(e, 0, []);
    }
  }

  lemma {:induction false} AddEncodedPairs(obj: Jar, pairs: seq<Cookie>)
    requires ArePrintable(pairs)
    ensures AddPairs(obj, EncodedPairs(pairs)) == Stored(obj, pairs)
    decreases pairs
  {
    if pairs != [] {
      DecodeEncodedValue(pairs[0]);
      AddEncodedPairs(AddPair(obj, pairs[0].0, Encoded(pairs[0])), pairs[1..]);
    }
  }

  /** Parsing printed pairs stores the first value of each key, unless the text is too short to be read. */
  lemma ParsePrinted(pairs: seq<Cookie>)
    requires ArePrintable(pairs)
    ensures Print(pairs) != [EQUALS] ==> Parsed(Print(pairs)) == Stored(map[], pairs)
    ensures Print(pairs) == [EQUALS] ==> Parsed(Print(pairs)) == map[]
  {
    if pairs != [] {
      var u := Print(pairs);
      assert u[0..] == [] + u;
      PairsOfPrinted(u, 0, [], pairs);
      AddEncodedPairs(map[], pairs);
      ShortStrings(u);
    }
  }

  // ----- The round trip

  ghost predicate HasDistinctKeys(pairs: seq<Cookie>) {
    forall j, k :: 0 <= j < k < |pairs| ==> pairs[j].0 != pairs[k].0
  }

  ghost predicate HasKey(pairs: seq<Cookie>, key: JsString) {
    exists k :: 0 <= k < |pairs| && pairs[k].0 == key
  }

  /** The pairs as a map, on top of obj. */
  function AsMap(obj: Jar, pairs: seq<Cookie>): Jar
    decreases pairs
  {
    if pairs == [] then obj else AsMap(obj[pairs[0].0 := pairs[0].1], pairs[1..])
  }

  lemma {:induction false} KeysOfMap(obj: Jar, pairs: seq<Cookie>, key: JsString)
    ensures key in AsMap(obj, pairs) <==> key in obj || HasKey(pairs, key)
    decreases pairs
  {
    if pairs != [] {
      KeysOfMap(obj[pairs[0].0 := pairs[0].1], pairs[1..], key);
    }
  }

  lemma {:induction false} ProtoNotStored(obj: Jar, pairs: seq<Cookie>)
    requires PROTO !in obj
    ensures PROTO !in Stored(obj, pairs)
    decreases pairs
  {
    if pairs != [] {
      ProtoNotStored(if pairs[0].0 in obj then obj else Store(obj, pairs[0].0, pairs[0].1), pairs[1..]);
    }
  }

  lemma {:induction false} StoredIsAll(obj: Jar, pairs: seq<Cookie>)
    requires HasDistinctKeys(pairs) && !HasKey(pairs, PROTO)
    requires forall key :: key in obj ==> !HasKey(pairs, key)
    ensures Stored(obj, pairs) == AsMap(obj, pairs)
    decreases pairs
  {
    if pairs != [] {
      var more := obj[pairs[0].0 := pairs[0].1];
      assert HasKey(pairs, pairs[0].0);
      assert forall key :: key in more ==> !HasKey(pairs[1..], key);
      StoredIsAll(more, pairs[1..]);
    }
  }

  /**
   * Printing and parsing give the map back exactly when no key is `__proto__` and the text is not a lone
   * equals sign, which is one empty key with an empty value.
   */
  lemma RoundTrip(pairs: seq<Cookie>)
    requires ArePrintable(pairs) && HasDistinctKeys(pairs)
    ensures Parsed(Print(pairs)) == AsMap(map[], pairs) <==> !HasKey(pairs, PROTO) && pairs != [([], [])]
  {
    ParsePrinted(pairs);
    ProtoNotStored(map[], pairs);
    KeysOfMap(map[], pairs, PROTO);
    KeysOfMap(map[], pairs, []);
    if Print(pairs) == [EQUALS] {
      LoneEquals(pairs);
    } else if !HasKey(pairs, PROTO) {
      StoredIsAll(map[], pairs);
    }
    if pairs == [([], [])] {
      assert pairs[0].0 == [] && HasKey(pairs, []);
      assert Print(pairs) == [EQUALS];
    }
  }

  lemma LoneEquals(pairs: seq<Cookie>)
    requires ArePrintable(pairs) && Print(pairs) == [EQUALS]
    ensures pairs == [([], [])]
  {
    var pair := pairs[0];
    assert |pairs| == 1;
    assert |pair.0| + 1 + |Encoded(pair)| == 1;
    DecodeEncode(pair.1);
    assert Decode([]) == Some([]);
  }
}
