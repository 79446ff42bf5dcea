/** The Cookie header parser: a scanner over one string, against a specification that splits and trims. */
module Cookies {
  import opened Prelude
  import opened UriComponent

  const SEMICOLON: CodeUnit := 0x3B
  const EQUALS: CodeUnit := 0x3D
  const QUOTE: CodeUnit := 0x22
  const SPACE: CodeUnit := 0x20
  const TAB: CodeUnit := 0x09

  /** `__proto__`: assigning a string to it on an object literal stores nothing. */
  const PROTO: JsString := [0x5F, 0x5F, 0x70, 0x72, 0x6F, 0x74, 0x6F, 0x5F, 0x5F]

  type Jar = map<JsString, JsString>

  function Store(obj: Jar, key: JsString, value: JsString): Jar {
    if key == PROTO then obj else obj[key := value]
  }

  function TryDecode(s: JsString): JsString {
    if IndexOf(s, PERCENT, 0) == -1 then s
    else match Decode(s)
         case None => s
         case Some(decoded) => decoded
  }

  // ----- The specification: cut, trim, unquote, decode, and let the first occurrence of a key win

  predicate IsBlank(c: CodeUnit) {
    c == SPACE || c == TAB
  }

  /** The first position from i on that is not blank, or the end of s. */
  function FirstNonBlank(s: JsString, i: nat): (r: nat)
    requires i <= |s|
    ensures i <= r <= |s|
    decreases |s| - i
  {
    if i < |s| && IsBlank(s[i]) then FirstNonBlank(s, i + 1) else i
  }

  /** One past the last position before j that is not blank, but no less than i. */
  function AfterLastNonBlank(s: JsString, i: nat, j: nat): (r: nat)
    requires i <= j <= |s|
    ensures i <= r <= j
  {
    if j > i && IsBlank(s[j - 1]) then AfterLastNonBlank(s, i, j - 1) else j
  }

  function Trim(s: JsString): JsString {
    var i := FirstNonBlank(s, 0);
    s[i..AfterLastNonBlank(s, i, |s|)]
  }

  /** Drops one quote at each end; a single quote is both ends at once. */
  function Unquote(s: JsString): JsString {
    if s != [] && s[0] == QUOTE && s[|s| - 1] == QUOTE
    then if |s| == 1 then [] else s[1..|s| - 1]
    else s
  }

  /** Where the piece that starts at position i ends: at the next semicolon, or at the end of s. */
  function PieceEnd(s: JsString, i: nat): (end: nat)
    requires i <= |s|
    ensures i <= end <= |s| && (end < |s| ==> s[end] == SEMICOLON)
  {
    var end := IndexOf(s, SEMICOLON, i);
    if end == -1 then |s| else end
  }

  /** The pairs of a header in order, each a key and a raw value. */
  datatype Pairs = End | Pair(key: JsString, value: JsString, rest: Pairs)

  /** The pair of a piece, cut at its first `=`; a piece without one is dropped. */
  function PieceThen(piece: JsString, rest: Pairs): Pairs {
    var eq := IndexOf(piece, EQUALS, 0);
    if eq == -1 then rest else Pair(Trim(piece[..eq]), Unquote(Trim(piece[eq + 1..])), rest)
  }

  /** The pairs of the pieces from position i on; past the end there are none. */
  function PairsFrom(s: JsString, i: nat): Pairs
    decreases |s| + 1 - i
  {
    if i > |s| then End else PieceThen(s[i..PieceEnd(s, i)], PairsFrom(s, PieceEnd(s, i) + 1))
  }

  /** The first value of a key stays. */
  function AddPair(obj: Jar, key: JsString, value: JsString): Jar {
    if key in obj then obj else Store(obj, key, TryDecode(value))
  }

  function AddPairs(obj: Jar, pairs: Pairs): Jar
    decreases pairs
  {
    match pairs
    case End => obj
    case Pair(key, value, rest) => AddPairs(AddPair(obj, key, value), rest)
  }

  function SplitParse(s: JsString): Jar {
    AddPairs(map[], PairsFrom(s, 0))
  }

  /** What parse promises: the split specification, except that a string too short for a pair holds none. */
  function Parsed(s: JsString): Jar {
    if |s| < 2 then map[] else SplitParse(s)
  }

  /** The length test changes the answer for one string only: a lone equals sign. */
  lemma ShortStrings(s: JsString)
    ensures Parsed(s) == SplitParse(s) <==> s != [EQUALS]
  {
    if s == [EQUALS] {
      assert PieceEnd(s, 0) == 1 && s[0..1] == s && s[..0] == [] && s[1..] == [];
      assert PairsFrom(s, 0) == Pair([], [], End);
      assert SplitParse(s) == map[[] := []];
    } else if |s| < 2 {
      NoPairsFrom(s, 0);
    }
  }

  // ----- The scanner's two trimming loops

  /** The first non-blank position from `index` on, or `max`; the unit at `index` is read even when it is `max`. */
  method StartIndex(s: JsString, index: nat, max: nat) returns (r: nat)
    requires index <= max <= |s|
    ensures index <= r <= max
    ensures forall k :: index <= k < r ==> IsBlank(s[k])
    ensures r < max ==> !IsBlank(s[r])
  {
    var i := index;
    while true
      invariant index <= i <= max && (i == max ==> index == max)
      invariant forall k :: index <= k < i ==> IsBlank(s[k])
      decreases max - i
    {
      var code := CharAt(s, i);
      if code != Some(SPACE) && code != Some(TAB) {
        return i;
      }
      i := i + 1;
      if i >= max {
        return max;
      }
    }
  }

  /** One past the last non-blank position before `index`, or `min`. */
  method EndIndex(s: JsString, index: nat, min: nat) returns (r: nat)
    requires min <= index <= |s|
    ensures min <= r <= index
    ensures forall k :: r <= k < index ==> IsBlank(s[k])
    ensures r > min ==> !IsBlank(s[r - 1])
  {
    var i := index;
    while i > min
      invariant min <= i <= index
      invariant forall k :: i <= k < index ==> IsBlank(s[k])
    {
      i := i - 1;
      var code := s[i];
      if code != SPACE && code != TAB {
        return i + 1;
      }
    }
    return min;
  }

  lemma {:induction false} FirstNonBlankIs(s: JsString, i: nat, k: nat)
    requires i <= k <= |s| && (forall j :: i <= j < k ==> IsBlank(s[j])) && (k < |s| ==> !IsBlank(s[k]))
    ensures FirstNonBlank(s, i) == k
    decreases k - i
  {
    if i < k {
      FirstNonBlankIs(s, i + 1, k);
    }
  }

  lemma {:induction false} AfterLastNonBlankIs(s: JsString, i: nat, j: nat, k: nat)
    requires i <= k <= j <= |s| && (forall m :: k <= m < j ==> IsBlank(s[m])) && (k > i ==> !IsBlank(s[k - 1]))
    ensures AfterLastNonBlank(s, i, j) == k
    decreases j - k
  {
    if k < j {
      AfterLastNonBlankIs(s, i, j - 1, k);
    }
  }

  /** A string that is blank before i and from j on, and not at the ends in between, trims to that stretch. */
  lemma TrimIs(s: JsString, i: nat, j: nat)
    requires i <= j <= |s|
    requires forall k :: 0 <= k < i ==> IsBlank(s[k])
    requires i < |s| ==> !IsBlank(s[i])
    requires forall k :: j <= k < |s| ==> IsBlank(s[k])
    requires j > i ==> !IsBlank(s[j - 1])
    ensures Trim(s) == s[i..j]
  {
    FirstNonBlankIs(s, 0, i);
    AfterLastNonBlankIs(s, i, |s|, j);
  }

  /** The two loops together trim the stretch from i to j. */
  lemma TrimBetween(s: JsString, i: nat, j: nat, start: nat, end: nat)
    requires i <= start <= end <= j <= |s|
    requires forall k :: i <= k < start ==> IsBlank(s[k])
    requires start < j ==> !IsBlank(s[start])
    requires forall k :: end <= k < j ==> IsBlank(s[k])
    requires end > start ==> !IsBlank(s[end - 1])
    ensures s[start..end] == Trim(s[i..j])
  {
    var t := s[i..j];
    assert forall k :: 0 <= k < |t| ==> t[k] == s[i + k];
    TrimIs(t, start - i, end - i);
    SliceOfSlice(s, i, j, start, end);
  }

  lemma SliceOfSlice(s: JsString, i: nat, j: nat, start: nat, end: nat)
    requires i <= start <= end <= j <= |s|
    ensures s[i..j][start - i..end - i] == s[start..end]
  {
    var part := s[i..j][start - i..end - i];
    assert forall k :: 0 <= k < end - start ==> part[k] == s[start..end][k];
  }

  // ----- The scanner

  /** A piece without `=` adds nothing. */
  lemma NoPairInPiece(s: JsString, i: nat)
    requires i <= |s| && Absent(s, EQUALS, i, PieceEnd(s, i))
    ensures PairsFrom(s, i) == PairsFrom(s, PieceEnd(s, i) + 1)
  {
    IndexOfNone(s[i..PieceEnd(s, i)], EQUALS, 0);
  }

  /** A stretch without `=` that ends at a semicolon holds no pair. */
  lemma {:induction false} SkipPieces(s: JsString, i: nat, j: nat)
    requires i <= j <= |s| && Absent(s, EQUALS, i, j)
    requires i < j ==> s[j - 1] == SEMICOLON
    ensures PairsFrom(s, i) == PairsFrom(s, j)
    decreases j - i
  {
    if i < j {
      PieceEndWithin(s, i, j - 1);
      NoPairInPiece(s, i);
      SkipPieces(s, PieceEnd(s, i) + 1, j);
    }
  }

  lemma {:induction false} NoPairsFrom(s: JsString, i: nat)
    requires i <= |s| ==> Absent(s, EQUALS, i, |s|)
    ensures PairsFrom(s, i) == End
    decreases |s| + 1 - i
  {
    if i <= |s| {
      NoPairInPiece(s, i);
      NoPairsFrom(s, PieceEnd(s, i) + 1);
    }
  }

  lemma PieceEndWithin(s: JsString, i: nat, j: nat)
    requires i <= j < |s| && s[j] == SEMICOLON
    ensures PieceEnd(s, i) <= j
  {
    IndexOfFirst(s, SEMICOLON, i);
  }

  /** The piece from i to end, whose first `=` is at eq. */
  lemma CutPiece(s: JsString, i: nat, eq: nat, end: nat, rest: Pairs)
    requires i <= eq < end <= |s| && s[eq] == EQUALS && Absent(s, EQUALS, i, eq)
    ensures PieceThen(s[i..end], rest) == Pair(Trim(s[i..eq]), Unquote(Trim(s[eq + 1..end])), rest)
  {
    var piece := s[i..end];
    IndexOfIs(piece, EQUALS, 0, eq - i);
    assert piece[..eq - i] == s[i..eq] && piece[eq - i + 1..] == s[eq + 1..end];
  }

  lemma PairInPiece(s: JsString, i: nat, eq: nat, end: nat)
    requires i <= eq < end <= |s| && end == PieceEnd(s, i) && s[eq] == EQUALS && Absent(s, EQUALS, i, eq)
    ensures PairsFrom(s, i) == Pair(Trim(s[i..eq]), Unquote(Trim(s[eq + 1..end])), PairsFrom(s, end + 1))
  {
    CutPiece(s, i, eq, end, PairsFrom(s, end + 1));
  }

  lemma InnerSlice(s: JsString, i: nat, j: nat)
    requires i + 1 < j <= |s|
    ensures s[i..j][1..j - i - 1] == s[i + 1..j - 1]
  {
    SliceOfSlice(s, i, j, i + 1, j - 1);
  }

  /** The quotes the scanner looks for are those of the trimmed value. */
  lemma QuotedValue(s: JsString, start: nat, end: nat, limit: nat)
    requires start <= end <= limit <= |s|
    requires start == end ==> start == limit && (limit == |s| || s[limit] == SEMICOLON)
    ensures var quoted := CharAt(s, start) == Some(QUOTE) && end > 0 && CharAt(s, end - 1) == Some(QUOTE);
            Unquote(s[start..end]) == if quoted then Slice(s, start + 1, end - 1) else s[start..end]
  {
    var v := s[start..end];
    if start < end {
      assert v[0] == s[start] && v[|v| - 1] == s[end - 1];
      if |v| > 1 {
        InnerSlice(s, start, end);
      }
    }
  }

  /** Both loops on the stretch from i to j. */
  method TrimmedBounds(str: JsString, i: nat, j: nat) returns (start: nat, end: nat)
    requires i <= j <= |str|
    ensures i <= start <= end <= j && (start == end ==> start == j)
    ensures str[start..end] == Trim(str[i..j])
  {
    start := StartIndex(str, i, j);
    end := EndIndex(str, j, start);
    TrimBetween(str, i, j, start, end);
  }

  /** The value between the `=` at eqIdx and the end of the pair. */
  method ReadValue(str: JsString, eqIdx: nat, endIdx: nat) returns (val: JsString)
    requires eqIdx < endIdx <= |str| && (endIdx == |str| || str[endIdx] == SEMICOLON)
    ensures val == Unquote(Trim(str[eqIdx + 1..endIdx]))
  {
    var valStartIdx, valEndIdx := TrimmedBounds(str, eqIdx + 1, endIdx);
    QuotedValue(str, valStartIdx, valEndIdx, endIdx);
    if CharAt(str, valStartIdx) == Some(QUOTE) && valEndIdx > 0 && CharAt(str, valEndIdx - 1) == Some(QUOTE) {
      valStartIdx := valStartIdx + 1;
      valEndIdx := valEndIdx - 1;
    }
    val := Slice(str, valStartIdx, valEndIdx);
  }

  /** The body of the loop once the bounds of the pair are known: only the first value of a key is assigned. */
  method AssignOnce(str: JsString, index: nat, eqIdx: nat, endIdx: nat, obj: Jar) returns (r: Jar)
    requires index <= eqIdx < endIdx <= |str| && endIdx == PieceEnd(str, index)
    requires str[eqIdx] == EQUALS && Absent(str, EQUALS, index, eqIdx)
    ensures PairsFrom(str, index).Pair? && PairsFrom(str, endIdx + 1) == PairsFrom(str, index).rest
    ensures r == AddPair(obj, PairsFrom(str, index).key, PairsFrom(str, index).value)
  {
    PairInPiece(str, index, eqIdx, endIdx);
    r := obj;
    var keyStartIdx, keyEndIdx := TrimmedBounds(str, index, eqIdx);
    var key := str[keyStartIdx..keyEndIdx];
    if key !in obj {
      var val := ReadValue(str, eqIdx, endIdx);
      r := Store(obj, key, TryDecode(val));
    }
  }

  /** The backtracking branch: the first `=` lies beyond the next semicolon. */
  method StartOfPair(str: JsString, index: nat, eqIdx: nat, endIdx: nat) returns (next: nat)
    requires index <= endIdx < eqIdx < |str| && str[endIdx] == SEMICOLON && Absent(str, EQUALS, index, eqIdx)
    ensures endIdx < next <= eqIdx && PairsFrom(str, next) == PairsFrom(str, index)
  {
    LastIndexOfAtLeast(str, SEMICOLON, eqIdx - 1, endIdx);
    next := LastIndexOf(str, SEMICOLON, eqIdx - 1) + 1;
    SkipPieces(str, index, next);
  }

  /**
   * One turn of the loop: either no pair is left, or the scanner moves past pieces without `=`, or past a pair,
   * which it assigns. Every turn but the last advances.
   */
  method Advance(str: JsString, index: nat, obj: Jar) returns (more: bool, next: nat, r: Jar)
    requires index < |str|
    ensures !more ==> r == obj && PairsFrom(str, index) == End
    ensures more ==>
              && index < next
              && var here, there := PairsFrom(str, index), PairsFrom(str, next);
                 || (there == here && r == obj)
                 || (here.Pair? && there == here.rest && r == AddPair(obj, here.key, here.value))
  {
    more, next, r := true, index, obj;
    var eqIdx := IndexOf(str, EQUALS, index);
    IndexOfFirst(str, EQUALS, index);
    if eqIdx == -1 {
      NoPairsFrom(str, index);
      more := false;
      return;
    }

    var endIdx := IndexOf(str, SEMICOLON, index);
    if endIdx == -1 {
      endIdx := |str|;
    } else if eqIdx > endIdx {
      next := StartOfPair(str, index, eqIdx, endIdx);
      return;
    }

    r := AssignOnce(str, index, eqIdx, endIdx, obj);
    next := endIdx + 1;
  }

  method Parse(str: JsString) returns (obj: Jar)
    ensures obj == Parsed(str)
  {
    obj := map[];
    var len := |str|;
    if len < 2 {
      return;
    }

    var index := 0;
    while index < len
      invariant 0 <= index
      invariant SplitParse(str) == AddPairs(obj, PairsFrom(str, index))
      decreases len - index
    {
      var more: bool;
      more, index, obj := Advance(str, index, obj);
      if !more {
        return;
      }
    }
    NoPairsFrom(str, index);
  }
}
