/** What a Cookie header says, spelled out as a grammar every string has a reading in, and that the parser agrees. */
module CookieGrammar {
  import opened Prelude
  import opened UriComponent
  import opened Cookies
  import CookieRoundTrip

  /** A value as written: bare, between quotes, or a single quote. */
  datatype Raw = Bare(w: JsString) | Quoted(w: JsString) | LoneQuote

  /** What stands between semicolons: something without an equals sign, or a key and a value with blanks around them. */
  datatype Piece =
    | Junk(text: JsString)
    | Cookie(lead: JsString, key: JsString, gap: JsString, before: JsString, raw: Raw, after: JsString)

  // ----- The grammar

  predicate AreBlanks(s: JsString) {
    forall i :: 0 <= i < |s| ==> s[i] == 0x20 || s[i] == 0x09
  }

  predicate HasFirmEnds(s: JsString) {
    s != [] ==> s[0] != 0x20 && s[0] != 0x09 && s[|s| - 1] != 0x20 && s[|s| - 1] != 0x09
  }

  function Written(raw: Raw): JsString {
    match raw
    case Bare(w) => w
    case Quoted(w) => [0x22] + w + [0x22]
    case LoneQuote => [0x22]
  }

  function Text(p: Piece): JsString {
    match p
    case Junk(text) => text
    case Cookie(lead, key, gap, before, raw, after) => lead + key + gap + [0x3D] + (before + Written(raw) + after)
  }

  /** A bare value is not quoted: it does not start and end with a quote. */
  predicate IsRaw(raw: Raw) {
    && 0x3B !in Written(raw)
    && (raw.Bare? ==> HasFirmEnds(raw.w) && !(raw.w != [] && raw.w[0] == 0x22 && raw.w[|raw.w| - 1] == 0x22))
  }

  predicate IsPiece(p: Piece) {
    match p
    case Junk(text) => 0x3B !in text && 0x3D !in text
    case Cookie(lead, key, gap, before, raw, after) =>
      && AreBlanks(lead) && AreBlanks(gap) && AreBlanks(before) && AreBlanks(after)
      && 0x3B !in key && 0x3D !in key && HasFirmEnds(key) && IsRaw(raw)
  }

  ghost predicate IsReading(ps: seq<Piece>) {
    ps != [] && forall i :: 0 <= i < |ps| ==> IsPiece(ps[i])
  }

  function Join(ps: seq<Piece>): JsString {
    if ps == [] then []
    else if |ps| == 1 then Text(ps[0])
    else Text(ps[0]) + [0x3B] + Join(ps[1..])
  }

  // ----- The meaning

  function Content(raw: Raw): JsString {
    match raw
    case Bare(w) => w
    case Quoted(w) => w
    case LoneQuote => []
  }

  /** A value that does not decode is kept as it is. */
  function Meaning(content: JsString): JsString {
    match Decode(content)
    case None => content
    case Some(decoded) => decoded
  }

  /** `__proto__` */
  predicate IsProto(key: JsString) {
    key == [0x5F, 0x5F, 0x70, 0x72, 0x6F, 0x74, 0x6F, 0x5F, 0x5F]
  }

  /** The first value of a key counts, and nothing is stored under `__proto__`. */
  function Said(obj: Jar, ps: seq<Piece>): Jar
    decreases ps
  {
    if ps == [] then obj
    else if ps[0].Junk? || ps[0].key in obj || IsProto(ps[0].key) then Said(obj, ps[1..])
    else Said(obj[ps[0].key := Meaning(Content(ps[0].raw))], ps[1..])
  }

  // ----- One piece

  lemma TrimBlanks(lead: JsString, s: JsString, trail: JsString)
    requires AreBlanks(lead) && AreBlanks(trail) && HasFirmEnds(s)
    ensures Trim(lead + s + trail) == s
  {
    var t := lead + s + trail;
    if s == [] {
      TrimIs(t, |t|, |t|);
    } else {
      TrimIs(t, |lead|, |lead| + |s|);
    }
  }

  lemma UnquoteWritten(raw: Raw)
    requires IsRaw(raw)
    ensures Unquote(Written(raw)) == Content(raw) && HasFirmEnds(Written(raw))
  {
  }

  lemma TryDecodeMeans(s: JsString)
    ensures TryDecode(s) == Meaning(s)
  {
    IndexOfFirst(s, PERCENT, 0);
    if IndexOf(s, PERCENT, 0) == -1 {
      CopiedToEnd(s, 0, []);
      assert s[0..] == s && [] + s == s;
      PrependNothing(Decode(s));
    }
  }

  lemma FirstEquals(a: JsString, b: JsString)
    requires 0x3D !in a
    ensures var t := a + [0x3D] + b; IndexOf(t, EQUALS, 0) == |a| && t[..|a|] == a && t[|a| + 1..] == b
  {
    IndexOfIs(a + [0x3D] + b, EQUALS, 0, |a|);
  }

  lemma PieceMeans(p: Piece, rest: Pairs)
    requires IsPiece(p)
    ensures PieceThen(Text(p), rest) == if p.Junk? then rest else Pair(p.key, Content(p.raw), rest)
  {
    if p.Junk? {
      IndexOfNone(p.text, EQUALS, 0);
    } else {
      FirstEquals(p.lead + p.key + p.gap, p.before + Written(p.raw) + p.after);
      TrimBlanks(p.lead, p.key, p.gap);
      UnquoteWritten(p.raw);
      TrimBlanks(p.before, Written(p.raw), p.after);
    }
  }

  lemma NoSemicolonInside(p: Piece)
    requires IsPiece(p)
    ensures 0x3B !in Text(p)
  {
  }

  // ----- All pieces

  function PairsOf(ps: seq<Piece>): Pairs {
    if ps == [] then End
    else if ps[0].Junk? then PairsOf(ps[1..])
    else Pair(ps[0].key, Content(ps[0].raw), PairsOf(ps[1..]))
  }

  /** A piece with more after it. */
  lemma PieceBefore(u: JsString, i: nat, t: JsString, more: JsString) returns (next: nat)
    requires i <= |u| && u[i..] == t + [0x3B] + more && 0x3B !in t
    ensures next <= |u| && u[next..] == more
    ensures PairsFrom(u, i) == PieceThen(t, PairsFrom(u, next))
  {
    next := i + |t| + 1;
    assert u[i..] == t + ([0x3B] + more);
    CookieRoundTrip.SplitRest(u, i, t, [0x3B] + more);
    CookieRoundTrip.SplitRest(u, i + |t|, [0x3B], more);
    CookieRoundTrip.FirstPiece(u, i, t);
  }

  lemma LastPiece(u: JsString, i: nat, t: JsString)
    requires i <= |u| && u[i..] == t && 0x3B !in t
    ensures PairsFrom(u, i) == PieceThen(t, End)
  {
    assert u[i..i + |t|] == t;
    CookieRoundTrip.FirstPiece(u, i, t);
  }

  lemma PairsOfStep(ps: seq<Piece>)
    requires IsReading(ps)
    ensures PairsOf(ps) == PieceThen(Text(ps[0]), PairsOf(ps[1..])) && 0x3B !in Text(ps[0])
  {
    NoSemicolonInside(ps[0]);
    PieceMeans(ps[0], PairsOf(ps[1..]));
  }

  lemma {:induction false} PairsOfJoined(u: JsString, i: nat, ps: seq<Piece>)
    requires i <= |u| && IsReading(ps) && u[i..] == Join(ps)
    ensures PairsFrom(u, i) == PairsOf(ps)
    decreases |ps|
  {
    PairsOfStep(ps);
    if |ps| == 1 {
      LastPiece(u, i, Text(ps[0]));
    } else {
      var next := PieceBefore(u, i, Text(ps[0]), Join(ps[1..]));
      PairsOfJoined(u, next, ps[1..]);
    }
  }

  lemma {:induction false} AddedIsSaid(obj: Jar, ps: seq<Piece>)
    ensures AddPairs(obj, PairsOf(ps)) == Said(obj, ps)
    decreases ps
  {
    if ps != [] {
      if ps[0].Junk? {
        AddedIsSaid(obj, ps[1..]);
      } else {
        TryDecodeMeans(Content(ps[0].raw));
        AddedIsSaid(AddPair(obj, ps[0].key, Content(ps[0].raw)), ps[1..]);
      }
    }
  }

  /** Whatever reading a header has, the parser finds what it says; only a lone equals sign says more. */
  lemma ParsedIsSaid(ps: seq<Piece>)
    requires IsReading(ps)
    ensures Parsed(Join(ps)) == if Join(ps) == [0x3D] then map[] else Said(map[], ps)
  {
    var u := Join(ps);
    assert u[0..] == u;
    PairsOfJoined(u, 0, ps);
    AddedIsSaid(map[], ps);
    ShortStrings(u);
  }

  // ----- Every string has a reading

  lemma {:induction false} SplitBlanks(s: JsString) returns (lead: JsString, mid: JsString, trail: JsString)
    ensures s == lead + mid + trail && AreBlanks(lead) && AreBlanks(trail) && HasFirmEnds(mid)
  {
    if s == [] {
      lead, mid, trail := [], [], [];
    } else if IsBlank(s[0]) {
      lead, mid, trail := SplitBlanks(s[1..]);
      assert s == [s[0]] + s[1..];
      lead := [s[0]] + lead;
    } else if IsBlank(s[|s| - 1]) {
      lead, mid, trail := SplitBlanks(s[..|s| - 1]);
      assert s == s[..|s| - 1] + [s[|s| - 1]];
      trail := trail + [s[|s| - 1]];
    } else {
      lead, mid, trail := [], s, [];
    }
  }

  lemma ReadRaw(w: JsString) returns (raw: Raw)
    requires HasFirmEnds(w) && 0x3B !in w
    ensures IsRaw(raw) && Written(raw) == w
  {
    if w == [0x22] {
      raw := LoneQuote;
    } else if w != [] && w[0] == 0x22 && w[|w| - 1] == 0x22 {
      raw := Quoted(w[1..|w| - 1]);
      assert w == [0x22] + w[1..|w| - 1] + [0x22];
    } else {
      raw := Bare(w);
    }
  }

  lemma ReadPiece(t: JsString) returns (p: Piece)
    requires 0x3B !in t
    ensures IsPiece(p) && Text(p) == t
  {
    var eq := IndexOf(t, EQUALS, 0);
    IndexOfFirst(t, EQUALS, 0);
    if eq == -1 {
      p := Junk(t);
    } else {
      var a, b := t[..eq], t[eq + 1..];
      assert t == a + [0x3D] + b;
      var lead, key, gap := SplitBlanks(a);
      var before, w, after := SplitBlanks(b);
      PartsOf(lead, key, gap, a);
      PartsOf(before, w, after, b);
      var raw := ReadRaw(w);
      p := Cookie(lead, key, gap, before, raw, after);
    }
  }

  lemma PartsOf(x: JsString, y: JsString, z: JsString, s: JsString)
    requires s == x + y + z
    ensures forall c :: c in y ==> c in s
  {
    forall c | c in y
      ensures c in s
    {
      var i :| 0 <= i < |y| && y[i] == c;
      assert s[|x| + i] == c;
    }
  }

  lemma CutAt(s: JsString, i: nat)
    requires i < |s|
    ensures s == s[..i] + [s[i]] + s[i + 1..]
  {
  }

  /** Every string can be read as pieces. */
  lemma {:induction false} ReadHeader(s: JsString) returns (ps: seq<Piece>)
    ensures IsReading(ps) && Join(ps) == s
  {
    var end := IndexOf(s, SEMICOLON, 0);
    IndexOfFirst(s, SEMICOLON, 0);
    if end == -1 {
      var p := ReadPiece(s);
      ps := [p];
    } else {
      var p := ReadPiece(s[..end]);
      var rest := ReadHeader(s[end + 1..]);
      ps := [p] + rest;
      CutAt(s, end);
    }
  }

  // ----- One pair

  /** A bare value is decoded, or kept when it does not decode. */
  lemma OnePair(k: JsString, w: JsString)
    requires k != [] && 0x3B !in k && 0x3D !in k && HasFirmEnds(k) && !IsProto(k) && IsRaw(Bare(w))
    ensures Parsed(k + [0x3D] + w) == map[k := if Decode(w).None? then w else Decode(w).value]
  {
    var ps := [Cookie([], k, [], [], Bare(w), [])];
    assert Join(ps) == k + [0x3D] + w;
    ParsedIsSaid(ps);
    assert Said(map[], ps) == Said(map[k := Meaning(w)], []);
  }
}
