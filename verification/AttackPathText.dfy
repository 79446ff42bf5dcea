/** When the text of a path tells the path: exactly for one path among all, and for the paths of ordinary keys. */
module AttackPathText {
  import opened Prelude
  import opened Values
  import opened AttackPath

  const DOT: CodeUnit := 0x2E
  const OPEN: CodeUnit := 0x5B
  const CLOSE: CodeUnit := 0x5D

  /** The text of a step into a token. */
  const JWT: JsString := [0x3C, 0x6A, 0x77, 0x74, 0x3E]

  // ----- Keys that look like other parts

  predicate AreDigits(s: JsString) {
    forall i :: 0 <= i < |s| ==> 0x30 <= s[i] <= 0x39
  }

  /** An array index in brackets, without leading zeros. */
  predicate LooksLikeIndex(key: JsString) {
    && |key| >= 3 && key[0] == OPEN && key[|key| - 1] == CLOSE
    && AreDigits(key[1..|key| - 1]) && (key[1] != 0x30 || |key| == 3)
  }

  predicate EndsWithJwt(s: JsString) {
    |s| >= |JWT| && s[|s| - |JWT|..] == JWT
  }

  /** The key has a text that no other path has. */
  predicate IsTellingKey(key: JsString) {
    key != [] && DOT !in key && !LooksLikeIndex(key) && !EndsWithJwt(key)
  }

  function NumberOf(s: JsString): nat
    requires AreDigits(s)
  {
    if s == [] then 0 else NumberOf(s[..|s| - 1]) * 10 + (s[|s| - 1] - 0x30)
  }

  function Bracketed(i: nat): JsString {
    [OPEN] + Digits(i) + [CLOSE]
  }

  lemma {:induction false} DigitsAreDigits(n: nat)
    ensures Digits(n) != [] && AreDigits(Digits(n))
    ensures n > 0 ==> Digits(n)[0] != 0x30
    ensures NumberOf(Digits(n)) == n
  {
    var d := Digits(n);
    if n >= 10 {
      DigitsAreDigits(n / 10);
      assert d[..|d| - 1] == Digits(n / 10);
    } else {
      assert d == [0x30 + n] && NumberOf(d[..0]) == 0;
    }
  }

  lemma {:induction false} DigitsOfNumber(s: JsString)
    requires s != [] && AreDigits(s) && (s[0] != 0x30 || |s| == 1)
    ensures Digits(NumberOf(s)) == s && (s[0] != 0x30 ==> NumberOf(s) > 0)
  {
    var front := s[..|s| - 1];
    assert s == front + [s[|s| - 1]];
    if front != [] {
      DigitsOfNumber(front);
    }
  }

  lemma LooksLikeIndexIff(key: JsString)
    ensures LooksLikeIndex(key) <==> exists i: nat :: key == Bracketed(i)
  {
    if LooksLikeIndex(key) {
      var d := key[1..|key| - 1];
      DigitsOfNumber(d);
      assert key == Bracketed(NumberOf(d));
    }
    if i: nat :| key == Bracketed(i) {
      BracketedLooks(i);
    }
  }

  lemma BracketedLooks(i: nat)
    ensures LooksLikeIndex(Bracketed(i)) && NumberOf(Bracketed(i)[1..|Bracketed(i)| - 1]) == i
    ensures DOT !in Bracketed(i)
  {
    DigitsAreDigits(i);
    assert Bracketed(i)[1..|Bracketed(i)| - 1] == Digits(i);
  }

  // ----- Texts of parts and paths

  lemma TextOf(part: PathPart)
    ensures Text(part) == match part
                          case Jwt => JWT
                          case Key(key) => [DOT] + key
                          case Index(i) => [DOT] + Bracketed(i)
  {
  }

  lemma ReducedSnoc(path: Path, part: PathPart)
    ensures Reduced(path + [part]) == Reduced(path) + Text(part)
  {
    assert (path + [part])[..|path|] == path;
  }

  lemma Associates(u: JsString, v: JsString, w: JsString)
    ensures (u + v) + w == u + (v + w)
  {
  }

  lemma ConcatSnoc(a: Path, b: Path)
    requires b != []
    ensures a + b == a + b[..|b| - 1] + [b[|b| - 1]]
  {
  }

  lemma {:induction false} ReducedConcat(a: Path, b: Path)
    ensures Reduced(a + b) == Reduced(a) + Reduced(b)
  {
    if b == [] {
      assert a + b == a;
    } else {
      ConcatSnoc(a, b);
      ReducedConcat(a, b[..|b| - 1]);
      ReducedSnoc(a + b[..|b| - 1], b[|b| - 1]);
      Associates(Reduced(a), Reduced(b[..|b| - 1]), Text(b[|b| - 1]));
    }
  }

  lemma ReducedOne(part: PathPart)
    ensures Reduced([part]) == Text(part)
  {
    assert [part][..0] == [];
  }

  lemma ReducedTwo(a: PathPart, b: PathPart)
    ensures Reduced([a, b]) == Text(a) + Text(b)
  {
    ReducedOne(a);
    ReducedOne(b);
    ReducedConcat([a], [b]);
    assert [a] + [b] == [a, b];
  }

  lemma Exchange(front: Path, x: Path, y: Path, back: Path)
    requires Reduced(x) == Reduced(y)
    ensures Reduced(front + x + back) == Reduced(front + y + back)
  {
    ReducedConcat(front, x);
    ReducedConcat(front, y);
    ReducedConcat(front + x, back);
    ReducedConcat(front + y, back);
  }

  predicate AreTokens(path: Path) {
    forall i :: 0 <= i < |path| ==> path[i].Jwt?
  }

  lemma DotInText(part: PathPart)
    ensures DOT in Text(part) <==> !part.Jwt?
    ensures part.Jwt? ==> |Text(part)| == 5
  {
    TextOf(part);
    if !part.Jwt? {
      assert Text(part)[0] == DOT;
    }
  }

  lemma DotInConcat(u: JsString, v: JsString)
    ensures DOT in u + v <==> DOT in u || DOT in v
  {
  }

  /** Only steps into tokens have a text without a dot. */
  lemma {:induction false} DotlessTokens(path: Path)
    ensures DOT !in Reduced(path) <==> AreTokens(path)
    ensures AreTokens(path) ==> |Reduced(path)| == 5 * |path|
  {
    if path != [] {
      DotlessTokens(path[..|path| - 1]);
      DotInText(path[|path| - 1]);
      DotInConcat(Reduced(path[..|path| - 1]), Text(path[|path| - 1]));
    }
  }

  lemma TokensTell(p: Path, q: Path)
    requires AreTokens(p) && Reduced(p) == Reduced(q)
    ensures p == q
  {
    DotlessTokens(p);
    DotlessTokens(q);
  }

  // ----- How a text ends

  lemma EndsWithToken(u: JsString)
    ensures EndsWithJwt(u + JWT)
  {
  }

  /** What follows a dot ends like the whole text. */
  lemma EndsAfterDot(u: JsString, s: JsString)
    ensures EndsWithJwt(u + [DOT] + s) <==> EndsWithJwt(s)
  {
    var w := u + [DOT] + s;
    if |s| >= 5 {
      assert w[|w| - 5..] == s[|s| - 5..];
    } else if |w| >= 5 {
      assert w[|w| - 5..][4 - |s|] == w[|u|];
    }
  }

  lemma IndexEndsOtherwise(i: nat)
    ensures !EndsWithJwt(Bracketed(i))
  {
    var b := Bracketed(i);
    if |b| >= 5 {
      assert b[|b| - 5..][4] == CLOSE;
    }
  }

  lemma UnitAt(u: JsString, s: JsString, i: nat)
    requires i < |u + [DOT] + s|
    ensures var c := (u + [DOT] + s)[i];
            if i < |u| then c in u else if i == |u| then c == DOT else c in s
  {
    var w := u + [DOT] + s;
    assert i < |u| ==> w[i] == u[i];
    assert i > |u| ==> w[i] == s[i - |u| - 1];
  }

  lemma SameCut(u: JsString, v: JsString, s: JsString, t: JsString)
    requires u + [DOT] + s == v + [DOT] + t && |u| == |v|
    ensures u == v && s == t
  {
    var w, x := u + [DOT] + s, v + [DOT] + t;
    assert u == w[..|u|] && v == x[..|v|] && s == w[|u| + 1..] && t == x[|v| + 1..];
  }

  /** What follows the last dot of two equal texts is the same. */
  lemma SameAfterDot(u: JsString, v: JsString, s: JsString, t: JsString)
    requires u + [DOT] + s == v + [DOT] + t && DOT !in s && DOT !in t
    ensures u == v && s == t
  {
    var w, x := u + [DOT] + s, v + [DOT] + t;
    assert |w| == |u| + 1 + |s| && |x| == |v| + 1 + |t|;
    UnitAt(u, s, |u|);
    UnitAt(u, s, |v|);
    UnitAt(v, t, |u|);
    UnitAt(v, t, |v|);
    SameCut(u, v, s, t);
  }

  // ----- Paths of telling keys

  predicate IsTellingPart(part: PathPart) {
    part.Key? ==> IsTellingKey(part.key)
  }

  predicate IsTellingPath(path: Path) {
    forall i :: 0 <= i < |path| ==> IsTellingPart(path[i])
  }

  /** What follows the dot in the text of a part that is no token. */
  function AfterDot(part: PathPart): JsString
    requires !part.Jwt?
  {
    if part.Key? then part.key else Bracketed(part.index)
  }

  lemma TellingAfterDot(part: PathPart)
    requires !part.Jwt? && IsTellingPart(part)
    ensures AfterDot(part) != [] && DOT !in AfterDot(part) && !EndsWithJwt(AfterDot(part))
    ensures LooksLikeIndex(AfterDot(part)) <==> part.Index?
  {
    if part.Index? {
      BracketedLooks(part.index);
      IndexEndsOtherwise(part.index);
    }
  }

  lemma AfterDotTells(a: PathPart, b: PathPart)
    requires !a.Jwt? && !b.Jwt? && IsTellingPart(a) && IsTellingPart(b) && AfterDot(a) == AfterDot(b)
    ensures a == b
  {
    TellingAfterDot(a);
    TellingAfterDot(b);
    if a.Index? {
      BracketedLooks(a.index);
      BracketedLooks(b.index);
    }
  }

  lemma TokenIffEnds(u: JsString, part: PathPart)
    requires IsTellingPart(part)
    ensures EndsWithJwt(u + Text(part)) <==> part.Jwt?
  {
    TextOf(part);
    if part.Jwt? {
      EndsWithToken(u);
    } else {
      TellingAfterDot(part);
      EndsAfterDot(u, AfterDot(part));
      TextAfterDot(u, part);
    }
  }

  lemma SameUnlessToken(u: JsString, v: JsString, a: PathPart, b: PathPart)
    requires u + Text(a) == v + Text(b) && IsTellingPart(a) && IsTellingPart(b) && !a.Jwt? && !b.Jwt?
    ensures u == v && a == b
  {
    TextAfterDot(u, a);
    TextAfterDot(v, b);
    TellingAfterDot(a);
    TellingAfterDot(b);
    SameAfterDot(u, v, AfterDot(a), AfterDot(b));
    AfterDotTells(a, b);
  }

  lemma TextAfterDot(u: JsString, part: PathPart)
    requires !part.Jwt?
    ensures u + Text(part) == u + [DOT] + AfterDot(part)
  {
    TextOf(part);
    Associates(u, [DOT], AfterDot(part));
  }

  lemma SameFront(u: JsString, v: JsString, t: JsString)
    requires u + t == v + t
    ensures u == v
  {
    assert u == (u + t)[..|u|] && v == (v + t)[..|v|];
  }

  lemma SameLast(u: JsString, v: JsString, a: PathPart, b: PathPart)
    requires u + Text(a) == v + Text(b) && IsTellingPart(a) && IsTellingPart(b)
    ensures u == v && a == b
  {
    TokenIffEnds(u, a);
    TokenIffEnds(v, b);
    if a.Jwt? {
      SameFront(u, v, Text(Jwt));
    } else {
      SameUnlessToken(u, v, a, b);
    }
  }

  lemma SameLastPart(p: Path, q: Path)
    requires IsTellingPath(p) && IsTellingPath(q) && p != [] && q != [] && Reduced(p) == Reduced(q)
    ensures p[|p| - 1] == q[|q| - 1] && Reduced(p[..|p| - 1]) == Reduced(q[..|q| - 1])
  {
    SameLast(Reduced(p[..|p| - 1]), Reduced(q[..|q| - 1]), p[|p| - 1], q[|q| - 1]);
  }

  lemma SameSnoc(p: Path, q: Path)
    requires p != [] && q != [] && p[|p| - 1] == q[|q| - 1] && p[..|p| - 1] == q[..|q| - 1]
    ensures p == q
  {
    assert p == p[..|p| - 1] + [p[|p| - 1]];
    assert q == q[..|q| - 1] + [q[|q| - 1]];
  }

  /** The text of a path that is not empty is longer than a dot. */
  lemma LongText(path: Path)
    requires IsTellingPath(path)
    ensures path != [] ==> |Reduced(path)| > 1
  {
    if path != [] {
      var last := path[|path| - 1];
      TextOf(last);
      assert IsTellingPart(last);
    }
  }

  lemma {:induction false} ReducedTells(p: Path, q: Path)
    requires IsTellingPath(p) && IsTellingPath(q) && Reduced(p) == Reduced(q)
    ensures p == q
  {
    LongText(p);
    LongText(q);
    if p != [] {
      SameLastPart(p, q);
      ReducedTells(p[..|p| - 1], q[..|q| - 1]);
      SameSnoc(p, q);
    }
  }

  /** Paths whose keys are all telling have the same text only if they are the same. */
  lemma PathTextTells(p: Path, q: Path)
    requires IsTellingPath(p) && IsTellingPath(q)
    ensures BuildPathToPayload(p) == BuildPathToPayload(q) <==> p == q
  {
    if BuildPathToPayload(p) == BuildPathToPayload(q) {
      LongText(p);
      LongText(q);
      if p != [] && q != [] {
        ReducedTells(p, q);
      }
    }
  }

  // ----- One path among all paths

  /** Tokens only, but for a last key without a dot that does not look like the end of another path. */
  predicate IsUniquePath(path: Path) {
    && path != [] && AreTokens(path[..|path| - 1])
    && match path[|path| - 1]
       case Jwt => true
       case Index(_) => false
       case Key(key) =>
         DOT !in key && !LooksLikeIndex(key) && !EndsWithJwt(key) && (key == [] ==> |path| > 1)
  }

  /** A path that is not unique has a twin: two parts merge into a key, or a key falls into other parts. */
  lemma Twin(p: Path) returns (q: Path)
    requires !IsUniquePath(p)
    ensures q != p && BuildPathToPayload(q) == BuildPathToPayload(p)
  {
    if p == [] {
      q := [Key([])];
      ReducedOne(Key([]));
    } else if i :| 0 <= i < |p| - 1 && !p[i].Jwt? {
      q := Merged(p, i);
    } else {
      q := Parted(p);
    }
  }

  lemma Merged(p: Path, i: nat) returns (q: Path)
    requires i < |p| - 1 && !p[i].Jwt?
    ensures q != p && BuildPathToPayload(q) == BuildPathToPayload(p)
  {
    var key := AfterDot(p[i]) + Text(p[i + 1]);
    q := p[..i] + [Key(key)] + p[i + 2..];
    assert p == p[..i] + [p[i], p[i + 1]] + p[i + 2..];
    MergedText(p[i], p[i + 1]);
    Exchange(p[..i], [Key(key)], [p[i], p[i + 1]], p[i + 2..]);
    assert |q| == |p| - 1;
  }

  lemma MergedText(a: PathPart, b: PathPart)
    requires !a.Jwt?
    ensures Reduced([Key(AfterDot(a) + Text(b))]) == Reduced([a, b])
  {
    TextOf(a);
    ReducedOne(Key(AfterDot(a) + Text(b)));
    ReducedTwo(a, b);
    Associates([DOT], AfterDot(a), Text(b));
  }

  /** The last part, when it can be read in another way. */
  lemma Parted(p: Path) returns (q: Path)
    requires p != [] && !IsUniquePath(p) && AreTokens(p[..|p| - 1])
    ensures q != p && BuildPathToPayload(q) == BuildPathToPayload(p)
  {
    var front, last := p[..|p| - 1], p[|p| - 1];
    assert p == front + [last] + [];
    if last == Key([]) {
      q := [];
      ReducedOne(last);
      assert p == [last];
    } else {
      var parts := OtherReading(last);
      q := front + parts + [];
      Exchange(front, parts, [last], []);
      OtherEnd(front, parts, last);
    }
  }

  lemma OtherEnd(front: Path, parts: Path, last: PathPart)
    requires parts != [last]
    ensures front + parts + [] != front + [last] + []
  {
    assert (front + parts + [])[|front|..] == parts;
    assert (front + [last] + [])[|front|..] == [last];
  }

  lemma OtherReading(part: PathPart) returns (parts: Path)
    requires part.Index? || (part.Key? && part.key != [] && !IsTellingKey(part.key))
    ensures parts != [] && parts != [part] && Reduced(parts) == Reduced([part])
  {
    if part.Index? {
      parts := [Key(Bracketed(part.index))];
      SameText(parts[0], part);
    } else if DOT in part.key {
      parts := KeyWithDot(part.key);
    } else if LooksLikeIndex(part.key) {
      LooksLikeIndexIff(part.key);
      var i: nat :| part.key == Bracketed(i);
      parts := [Index(i)];
      SameText(parts[0], part);
    } else {
      parts := KeyWithToken(part.key);
    }
  }

  lemma SameText(a: PathPart, b: PathPart)
    requires !a.Jwt? && !b.Jwt? && AfterDot(a) == AfterDot(b)
    ensures Reduced([a]) == Reduced([b])
  {
    TextOf(a);
    TextOf(b);
    ReducedOne(a);
    ReducedOne(b);
  }

  lemma KeyWithDot(key: JsString) returns (parts: Path)
    requires DOT in key
    ensures |parts| == 2 && Reduced(parts) == Reduced([Key(key)])
  {
    var i :| 0 <= i < |key| && key[i] == DOT;
    parts := [Key(key[..i]), Key(key[i + 1..])];
    assert key == key[..i] + ([DOT] + key[i + 1..]);
    MergedText(parts[0], parts[1]);
  }

  lemma KeyWithToken(key: JsString) returns (parts: Path)
    requires EndsWithJwt(key)
    ensures |parts| == 2 && Reduced(parts) == Reduced([Key(key)])
  {
    var n := |key| - |JWT|;
    parts := [Key(key[..n]), Jwt];
    assert key == key[..n] + JWT;
    MergedText(parts[0], parts[1]);
  }

  /** A text that ends in an unambiguous key ends in no token. */
  lemma NoTokenLast(u: JsString, key: JsString, v: JsString)
    requires !EndsWithJwt(key)
    ensures u + [DOT] + key != v + JWT
  {
    EndsAfterDot(u, key);
    EndsWithToken(v);
  }

  /** The text after tokens and a dot, when only one reading of it is left. */
  lemma LastKeyTells(fp: Path, key: JsString, fq: Path, last: PathPart)
    requires AreTokens(fp) && DOT !in key && !LooksLikeIndex(key) && !EndsWithJwt(key)
    requires Reduced(fp) + Text(Key(key)) == Reduced(fq) + Text(last)
    ensures fp == fq && last == Key(key)
  {
    TextAfterDot(Reduced(fp), Key(key));
    if last.Jwt? {
      NoTokenLast(Reduced(fp), key, Reduced(fq));
      assert false;
    } else {
      TextAfterDot(Reduced(fq), last);
      DotlessTokens(fp);
      FirstDotTells(Reduced(fp), Reduced(fq), key, AfterDot(last));
      TokensTell(fp, fq);
      AfterDotOfKey(last, key);
    }
  }

  lemma AfterDotOfKey(part: PathPart, key: JsString)
    requires !part.Jwt? && AfterDot(part) == key && !LooksLikeIndex(key)
    ensures part == Key(key)
  {
    if part.Index? {
      BracketedLooks(part.index);
    }
  }

  /** With a single dot there is one way to cut at it. */
  lemma FirstDotTells(u: JsString, v: JsString, s: JsString, t: JsString)
    requires u + [DOT] + s == v + [DOT] + t && DOT !in u && DOT !in s
    ensures u == v && s == t
  {
    var x := v + [DOT] + t;
    assert |x| == |v| + 1 + |t|;
    UnitAt(u, s, |v|);
    UnitAt(v, t, |v|);
    SameCut(u, v, s, t);
  }

  /** A unique path does not have the text of the empty one. */
  lemma UniqueIsNotRoot(p: Path)
    requires IsUniquePath(p)
    ensures Reduced(p) != [DOT]
  {
    var front, last := p[..|p| - 1], p[|p| - 1];
    DotlessTokens(front);
    TextOf(last);
  }

  lemma TokensSnoc(p: Path)
    requires p != [] && AreTokens(p[..|p| - 1]) && p[|p| - 1].Jwt?
    ensures AreTokens(p)
  {
    assert forall i :: 0 <= i < |p| - 1 ==> p[i] == p[..|p| - 1][i];
  }

  lemma ReducedLast(p: Path)
    requires p != []
    ensures Reduced(p) == Reduced(p[..|p| - 1]) + Text(p[|p| - 1])
  {
  }

  lemma UniqueReduced(p: Path, q: Path)
    requires IsUniquePath(p) && q != [] && Reduced(q) == Reduced(p)
    ensures p == q
  {
    var last := p[|p| - 1];
    if last.Jwt? {
      TokensSnoc(p);
      TokensTell(p, q);
    } else {
      ReducedLast(p);
      ReducedLast(q);
      LastKeyTells(p[..|p| - 1], last.key, q[..|q| - 1], q[|q| - 1]);
      SameSnoc(p, q);
    }
  }

  lemma UniqueTells(p: Path, q: Path)
    requires IsUniquePath(p) && BuildPathToPayload(q) == BuildPathToPayload(p)
    ensures p == q
  {
    UniqueIsNotRoot(p);
    if q != [] {
      UniqueReduced(p, q);
    }
  }

  /** Of all paths only this one has its text, if and only if it is tokens but for an unambiguous last key. */
  lemma TextUniqueIff(p: Path)
    ensures (forall q :: BuildPathToPayload(q) == BuildPathToPayload(p) ==> q == p) <==> IsUniquePath(p)
  {
    if IsUniquePath(p) {
      forall q | BuildPathToPayload(q) == BuildPathToPayload(p)
        ensures q == p
      {
        UniqueTells(p, q);
      }
    } else {
      var q := Twin(p);
    }
  }

  /** A top-level key has a text of its own if and only if it is telling. */
  lemma KeyTellsIff(key: JsString)
    ensures (forall q :: BuildPathToPayload(q) == BuildPathToPayload([Key(key)]) ==> q == [Key(key)]) <==>
            IsTellingKey(key)
  {
    TextUniqueIff([Key(key)]);
    assert [Key(key)][..0] == [];
  }

  /** An empty key, and one written like an index, are not told apart from other paths. */
  lemma OddKeys()
    ensures BuildPathToPayload([Key([])]) == BuildPathToPayload([])
    ensures BuildPathToPayload([Key([OPEN, 0x30, CLOSE])]) == BuildPathToPayload([Index(0)])
  {
    assert Digits(0) == [0x30];
    ReducedOne(Key([]));
    ReducedOne(Key([OPEN, 0x30, CLOSE]));
    ReducedOne(Index(0));
  }
}
