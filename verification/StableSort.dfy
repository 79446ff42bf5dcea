/** `Array.prototype.sort` with a consistent comparator: stable, as ECMA-262 has asked since 2019. */
module StableSort {

  /** The comparator does not put a behind b. */
  type InOrder<!T> = (T, T) -> bool

  function Insert<T>(x: T, s: seq<T>, inOrder: InOrder<T>): seq<T> {
    if s == [] || inOrder(x, s[0]) then [x] + s else [s[0]] + Insert(x, s[1..], inOrder)
  }

  function Sort<T>(s: seq<T>, inOrder: InOrder<T>): seq<T> {
    if s == [] then [] else Insert(s[0], Sort(s[1..], inOrder), inOrder)
  }

  function Filter<T>(s: seq<T>, keep: T -> bool): seq<T> {
    if s == [] then []
    else if keep(s[0]) then [s[0]] + Filter(s[1..], keep)
    else Filter(s[1..], keep)
  }

  /** Every element stands in the relation to all that follow it. */
  ghost predicate IsChain<T>(s: seq<T>, before: InOrder<T>) {
    forall i, j :: 0 <= i < j < |s| ==> before(s[i], s[j])
  }

  ghost predicate IsConsistent<T>(s: seq<T>, inOrder: InOrder<T>) {
    && (forall a, b :: a in s && b in s ==> inOrder(a, b) || inOrder(b, a))
    && (forall a, b, c :: a in s && b in s && c in s && inOrder(a, b) && inOrder(b, c) ==> inOrder(a, c))
  }

  /** `after` orders first by the comparator and then by `before`. */
  ghost predicate Refines<T>(s: seq<T>, inOrder: InOrder<T>, before: InOrder<T>, after: InOrder<T>) {
    forall a, b :: a in s && b in s ==> (after(a, b) <==> inOrder(a, b) && (!inOrder(b, a) || before(a, b)))
  }

  lemma {:induction false} InsertPermutes<T>(x: T, s: seq<T>, inOrder: InOrder<T>)
    ensures multiset(Insert(x, s, inOrder)) == multiset{x} + multiset(s)
  {
    if s != [] {
      assert s == [s[0]] + s[1..];
      if !inOrder(x, s[0]) {
        InsertPermutes(x, s[1..], inOrder);
      }
    }
  }

  /** Sorting permutes. */
  lemma {:induction false} SortPermutes<T>(s: seq<T>, inOrder: InOrder<T>)
    ensures multiset(Sort(s, inOrder)) == multiset(s)
  {
    if s != [] {
      assert s == [s[0]] + s[1..];
      SortPermutes(s[1..], inOrder);
      InsertPermutes(s[0], Sort(s[1..], inOrder), inOrder);
    }
  }

  lemma InsertMember<T>(x: T, s: seq<T>, inOrder: InOrder<T>, y: T)
    ensures y in Insert(x, s, inOrder) <==> y == x || y in s
  {
    InsertPermutes(x, s, inOrder);
    assert y in Insert(x, s, inOrder) <==> y in multiset(Insert(x, s, inOrder));
  }

  lemma SortMember<T>(s: seq<T>, inOrder: InOrder<T>, y: T)
    ensures y in Sort(s, inOrder) <==> y in s
  {
    SortPermutes(s, inOrder);
    assert y in Sort(s, inOrder) <==> y in multiset(Sort(s, inOrder));
  }

  lemma {:induction false} InsertOrders<T>(x: T, s: seq<T>, all: seq<T>, inOrder: InOrder<T>, before: InOrder<T>,
                                           after: InOrder<T>)
    requires IsConsistent(all, inOrder) && Refines(all, inOrder, before, after)
    requires x in all && forall y :: y in s ==> y in all && before(x, y)
    requires IsChain(s, after)
    ensures IsChain(Insert(x, s, inOrder), after)
  {
    if s != [] {
      if inOrder(x, s[0]) {
        forall y | y in s
          ensures after(x, y)
        {
          assert y == s[0] || (y in s[1..] && after(s[0], y));
        }
      } else {
        InsertOrders(x, s[1..], all, inOrder, before, after);
        forall y | y in Insert(x, s[1..], inOrder)
          ensures after(s[0], y)
        {
          InsertMember(x, s[1..], inOrder, y);
          assert y == x || y in s[1..];
        }
      }
    }
  }

  /** Sorting orders by the comparator and, where that does not tell two elements apart, as before. */
  lemma {:induction false} SortOrders<T>(s: seq<T>, all: seq<T>, inOrder: InOrder<T>, before: InOrder<T>,
                                         after: InOrder<T>)
    requires IsConsistent(all, inOrder) && Refines(all, inOrder, before, after)
    requires IsChain(s, before) && forall y :: y in s ==> y in all
    ensures IsChain(Sort(s, inOrder), after)
  {
    if s != [] {
      SortOrders(s[1..], all, inOrder, before, after);
      forall y | y in Sort(s[1..], inOrder)
        ensures y in all && before(s[0], y)
      {
        SortMember(s[1..], inOrder, y);
        assert y in s[1..];
      }
      InsertOrders(s[0], Sort(s[1..], inOrder), all, inOrder, before, after);
    }
  }

  lemma {:induction false} FilterMember<T>(s: seq<T>, keep: T -> bool, y: T)
    ensures y in Filter(s, keep) <==> y in s && keep(y)
  {
    if s != [] {
      FilterMember(s[1..], keep, y);
      assert s == [s[0]] + s[1..];
    }
  }

  lemma {:induction false} FilterKeepsChain<T>(s: seq<T>, keep: T -> bool, before: InOrder<T>)
    requires IsChain(s, before)
    ensures IsChain(Filter(s, keep), before)
  {
    if s != [] {
      FilterKeepsChain(s[1..], keep, before);
      if keep(s[0]) {
        forall y | y in Filter(s[1..], keep)
          ensures before(s[0], y)
        {
          FilterMember(s[1..], keep, y);
        }
      }
    }
  }
}
