/** A smaller map is always a thinned-out copy of a larger one that is used the same way. */
module LruInclusion {
  import opened LruSpec

  datatype Op<K, V> =
    | GetOp(key: K, now: real)
    | SetOp(key: K, value: V, now: real)
    | DeleteOp(key: K)
    | ClearOp

  function Apply<K(==), V>(es: seq<Entry<K, V>>, max: nat, ttl: real, op: Op<K, V>): seq<Entry<K, V>> {
    match op
    case GetOp(key, now) => AfterGet(es, ttl, key, now)
    case SetOp(key, value, now) => AfterSet(es, max, ttl, key, value, now)
    case DeleteOp(key) => AfterDelete(es, key)
    case ClearOp => []
  }

  /** What a map of capacity max holds after the operations, in order. */
  function Run<K(==), V>(max: nat, ttl: real, ops: seq<Op<K, V>>): seq<Entry<K, V>> {
    if ops == [] then [] else Apply(Run(max, ttl, ops[..|ops| - 1]), max, ttl, ops[|ops| - 1])
  }

  // ----- What every operation keeps

  ghost predicate IsLru<K, V>(es: seq<Entry<K, V>>, max: nat) {
    HasDistinctKeys(es) && (max > 0 ==> |es| <= max)
  }

  lemma {:induction false} WithoutFacts<K, V>(es: seq<Entry<K, V>>, key: K)
    requires HasDistinctKeys(es)
    ensures HasDistinctKeys(Without(es, key)) && !HasKey(Without(es, key), key)
    ensures |Without(es, key)| == |es| - (if HasKey(es, key) then 1 else 0)
    ensures forall k :: HasKey(Without(es, key), k) <==> HasKey(es, k) && k != key
  {
    if HasKey(es, key) {
      var i :| 0 <= i < |es| && es[i].key == key;
      WithoutAt(es, i);
      var r := RemoveAt(es, i);
      forall k
        ensures HasKey(r, k) <==> HasKey(es, k) && k != key
      {
        RemovedKeys(es, i, k);
      }
    } else {
      WithoutAbsent(es, key);
    }
  }

  lemma RemovedKeys<K, V>(es: seq<Entry<K, V>>, i: nat, k: K)
    requires i < |es| && HasDistinctKeys(es)
    ensures HasKey(RemoveAt(es, i), k) <==> HasKey(es, k) && k != es[i].key
  {
    var r := RemoveAt(es, i);
    if HasKey(es, k) && k != es[i].key {
      var j :| 0 <= j < |es| && es[j].key == k;
      assert r[if j < i then j else j - 1].key == k;
    }
    if HasKey(r, k) {
      var j :| 0 <= j < |r| && r[j].key == k;
      assert es[if j < i then j else j + 1].key == k;
    }
  }

  /** Every operation keeps the keys distinct and the capacity respected. */
  lemma ApplyKeeps<K, V>(es: seq<Entry<K, V>>, max: nat, ttl: real, op: Op<K, V>)
    requires IsLru(es, max)
    ensures IsLru(Apply(es, max, ttl, op), max)
  {
    match op {
      case GetOp(key, now) => WithoutFacts(es, key);
      case SetOp(key, value, now) =>
        WithoutFacts(es, key);
        assert max > 0 && |es| == max && !HasKey(es, key) ==> !HasKey(es[1..], key);
      case DeleteOp(key) => WithoutFacts(es, key);
      case ClearOp =>
    }
  }

  // ----- Subsequences

  predicate IsSub<T(==)>(a: seq<T>, b: seq<T>)
    decreases |b|
  {
    a == [] || (b != [] && if a[0] == b[0] then IsSub(a[1..], b[1..]) else IsSub(a, b[1..]))
  }

  lemma {:induction false} SubTail<T>(a: seq<T>, b: seq<T>)
    requires IsSub(a, b) && a != []
    ensures IsSub(a[1..], b)
    decreases |b|
  {
    if a[0] == b[0] {
      SubMore(a[1..], b);
    } else {
      SubTail(a, b[1..]);
      SubMore(a[1..], b);
    }
  }

  lemma {:induction false} SubMore<T>(a: seq<T>, b: seq<T>)
    requires b != [] && IsSub(a, b[1..])
    ensures IsSub(a, b)
    decreases |b|, 0
  {
    if a != [] && a[0] == b[0] {
      SubTail(a, b[1..]);
    }
  }

  lemma {:induction false} SubAppend<T>(a: seq<T>, b: seq<T>, e: T)
    requires IsSub(a, b)
    ensures IsSub(a + [e], b + [e]) && IsSub(a, b + [e])
    decreases |b|
  {
    if b == [] {
      assert IsSub([e], [e]);
    } else {
      assert (b + [e])[1..] == b[1..] + [e];
      if a == [] {
        SubAppend([], b[1..], e);
        assert [] + [e] == [e] == a + [e];
        SubMore([e], b + [e]);
      } else if a[0] == b[0] {
        assert (a + [e])[1..] == a[1..] + [e];
        SubAppend(a[1..], b[1..], e);
      } else {
        SubAppend(a, b[1..], e);
      }
    }
  }

  lemma {:induction false} SubLength<T>(a: seq<T>, b: seq<T>)
    requires IsSub(a, b)
    ensures |a| <= |b|
    ensures forall x :: x in a ==> x in b
    decreases |b|
  {
    if a != [] {
      if a[0] == b[0] {
        SubLength(a[1..], b[1..]);
        forall x | x in a
          ensures x in b
        {
          assert x == a[0] || x in a[1..];
        }
      } else {
        SubLength(a, b[1..]);
      }
    }
  }

  /** Removing a key keeps the thinned-out copy one. */
  lemma {:induction false} SubWithout<K, V>(a: seq<Entry<K, V>>, b: seq<Entry<K, V>>, key: K)
    requires IsSub(a, b) && HasDistinctKeys(b)
    ensures IsSub(Without(a, key), Without(b, key))
    decreases |b|
  {
    if a != [] {
      if a[0] == b[0] {
        if b[0].key != key {
          SubWithout(a[1..], b[1..], key);
        }
      } else if b[0].key == key {
        SubLength(a, b[1..]);
        forall i | 0 <= i < |a|
          ensures a[i].key != key
        {
          assert a[i] in b[1..];
        }
        WithoutAbsent(a, key);
      } else {
        SubWithout(a, b[1..], key);
        assert Without(b, key)[1..] == Without(b[1..], key);
        SubMore(Without(a, key), Without(b, key));
      }
    }
  }

  // ----- The inclusion

  /** A capacity M is at least m; 0 is no bound at all. */
  predicate IsAtLeast(M: nat, m: nat) {
    M == 0 || 0 < m <= M
  }

  ghost predicate IsThinned<K, V>(a: seq<Entry<K, V>>, b: seq<Entry<K, V>>, m: nat, M: nat) {
    && IsLru(a, m) && IsLru(b, M)
    && IsSub(a, b)
    && (M > 0 ==> |b| - |a| <= M - m)
  }

  lemma SubKey<K, V>(a: seq<Entry<K, V>>, b: seq<Entry<K, V>>, key: K)
    requires IsSub(a, b) && HasDistinctKeys(a) && HasDistinctKeys(b)
    ensures HasKey(a, key) ==> HasKey(b, key) && Lookup(a, key) == Lookup(b, key)
  {
    SubLength(a, b);
    if HasKey(a, key) {
      var i :| 0 <= i < |a| && a[i].key == key;
      assert a[i] in b;
      var j :| 0 <= j < |b| && b[j] == a[i];
      WithoutAt(a, i);
      WithoutAt(b, j);
    }
  }

  lemma ThinnedSet<K, V>(a: seq<Entry<K, V>>, b: seq<Entry<K, V>>, m: nat, M: nat, ttl: real, key: K, value: V,
                         now: real)
    requires IsThinned(a, b, m, M) && IsAtLeast(M, m)
    ensures IsSub(AfterSet(a, m, ttl, key, value, now), AfterSet(b, M, ttl, key, value, now))
    ensures M > 0 ==> |AfterSet(b, M, ttl, key, value, now)| - |AfterSet(a, m, ttl, key, value, now)| <= M - m
  {
    var e := Entry(key, value, Expiry(ttl, now));
    SubKey(a, b, key);
    SubLength(a, b);
    WithoutFacts(a, key);
    WithoutFacts(b, key);
    SubWithout(a, b, key);
    SubAppend(Without(a, key), Without(b, key), e);
    if !HasKey(a, key) {
      WithoutAbsent(a, key);
      var a' := if m > 0 && |a| == m then a[1..] else a;
      var b' := if HasKey(b, key) then Without(b, key) else if M > 0 && |b| == M then b[1..] else b;
      assert IsSub(a', b') by {
        if !HasKey(b, key) {
          WithoutAbsent(b, key);
          if m > 0 && |a| == m && b' == b {
            SubTail(a, b);
          } else if b' != b && a[0] != b[0] {
            SubTail(a, b[1..]);
          }
        } else if m > 0 && |a| == m {
          SubTail(a, Without(b, key));
        }
      }
      SubAppend(a', b', e);
    }
  }

  lemma ThinnedGet<K, V>(a: seq<Entry<K, V>>, b: seq<Entry<K, V>>, m: nat, M: nat, ttl: real, key: K, now: real)
    requires IsThinned(a, b, m, M) && IsAtLeast(M, m)
    ensures IsSub(AfterGet(a, ttl, key, now), AfterGet(b, ttl, key, now))
    ensures M > 0 ==> |AfterGet(b, ttl, key, now)| - |AfterGet(a, ttl, key, now)| <= M - m
  {
    SubKey(a, b, key);
    WithoutFacts(a, key);
    WithoutFacts(b, key);
    SubWithout(a, b, key);
    if HasKey(b, key) {
      SubAppend(Without(a, key), Without(b, key), Lookup(b, key).value);
    }
    if !HasKey(a, key) {
      WithoutAbsent(a, key);
    }
  }

  lemma ThinnedStep<K, V>(a: seq<Entry<K, V>>, b: seq<Entry<K, V>>, m: nat, M: nat, ttl: real, op: Op<K, V>)
    requires IsThinned(a, b, m, M) && IsAtLeast(M, m)
    ensures IsThinned(Apply(a, m, ttl, op), Apply(b, M, ttl, op), m, M)
  {
    ApplyKeeps(a, m, ttl, op);
    ApplyKeeps(b, M, ttl, op);
    match op {
      case GetOp(key, now) => ThinnedGet(a, b, m, M, ttl, key, now);
      case SetOp(key, value, now) => ThinnedSet(a, b, m, M, ttl, key, value, now);
      case DeleteOp(key) =>
        SubKey(a, b, key);
        SubWithout(a, b, key);
        WithoutFacts(a, key);
        WithoutFacts(b, key);
      case ClearOp =>
    }
  }

  /** Over any run the smaller map holds a subsequence of what the larger one holds, in the same recency order. */
  lemma {:induction false} Inclusion<K, V>(m: nat, M: nat, ttl: real, ops: seq<Op<K, V>>)
    requires IsAtLeast(M, m)
    ensures IsThinned(Run(m, ttl, ops), Run(M, ttl, ops), m, M)
  {
    if ops != [] {
      Inclusion(m, M, ttl, ops[..|ops| - 1]);
      ThinnedStep(Run(m, ttl, ops[..|ops| - 1]), Run(M, ttl, ops[..|ops| - 1]), m, M, ttl, ops[|ops| - 1]);
    }
  }

  /** A bounded map never disagrees with a larger or unbounded one on a key it still holds. */
  lemma HitsAgree<K, V>(m: nat, M: nat, ttl: real, ops: seq<Op<K, V>>, key: K, now: real)
    requires IsAtLeast(M, m)
    ensures HasKey(Run(m, ttl, ops), key) ==>
              HasKey(Run(M, ttl, ops), key) &&
              GetValue(Run(m, ttl, ops), ttl, key, now) == GetValue(Run(M, ttl, ops), ttl, key, now)
  {
    Inclusion(m, M, ttl, ops);
    SubKey(Run(m, ttl, ops), Run(M, ttl, ops), key);
  }
}
