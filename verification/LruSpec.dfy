/** A least-recently-used map as a plain sequence, from the least to the most recently touched entry. */
module LruSpec {
  import opened Prelude

  datatype Entry<K, V> = Entry(key: K, value: V, expiry: real)

  predicate HasKey<K(==), V>(es: seq<Entry<K, V>>, key: K) {
    exists i :: 0 <= i < |es| && es[i].key == key
  }

  ghost predicate HasDistinctKeys<K, V>(es: seq<Entry<K, V>>) {
    forall i, j :: 0 <= i < j < |es| ==> es[i].key != es[j].key
  }

  function Lookup<K(==), V>(es: seq<Entry<K, V>>, key: K): (e: Option<Entry<K, V>>)
    ensures e.Some? <==> HasKey(es, key)
    ensures e.Some? ==> e.value in es && e.value.key == key
  {
    if es == [] then None
    else if es[0].key == key then Some(es[0])
    else
      assert forall i :: 0 <= i < |es[1..]| ==> es[1..][i] == es[i + 1];
      Lookup(es[1..], key)
  }

  function Without<K(==), V>(es: seq<Entry<K, V>>, key: K): seq<Entry<K, V>> {
    if es == [] then []
    else if es[0].key == key then es[1..]
    else [es[0]] + Without(es[1..], key)
  }

  function Expiry(ttl: real, now: real): real {
    if ttl > 0.0 then now + ttl else ttl
  }

  predicate IsExpired<K, V>(e: Entry<K, V>, ttl: real, now: real) {
    ttl > 0.0 && e.expiry <= now
  }

  // ----- The operations

  function GetValue<K(==), V>(es: seq<Entry<K, V>>, ttl: real, key: K, now: real): Option<V> {
    match Lookup(es, key)
    case None => None
    case Some(e) => if IsExpired(e, ttl, now) then None else Some(e.value)
  }

  /** A fresh entry becomes the most recently touched one; an expired entry goes. */
  function AfterGet<K(==), V>(es: seq<Entry<K, V>>, ttl: real, key: K, now: real): seq<Entry<K, V>> {
    match Lookup(es, key)
    case None => es
    case Some(e) => if IsExpired(e, ttl, now) then Without(es, key) else Without(es, key) + [e]
  }

  /** A new key in a full map costs the least recently touched entry. A bound of 0 is no bound. */
  function AfterSet<K(==), V>(es: seq<Entry<K, V>>, max: nat, ttl: real, key: K, value: V, now: real)
    : seq<Entry<K, V>>
  {
    var e := Entry(key, value, Expiry(ttl, now));
    if HasKey(es, key) then Without(es, key) + [e]
    else if max > 0 && |es| == max then es[1..] + [e]
    else es + [e]
  }

  function AfterDelete<K(==), V>(es: seq<Entry<K, V>>, key: K): seq<Entry<K, V>> {
    Without(es, key)
  }

  // ----- Where an entry lies

  function RemoveAt<T>(s: seq<T>, i: nat): (r: seq<T>)
    requires i < |s|
    ensures |r| == |s| - 1
    ensures forall k :: 0 <= k < i ==> r[k] == s[k]
    ensures forall k :: i <= k < |r| ==> r[k] == s[k + 1]
  {
    seq(|s| - 1, k requires 0 <= k < |s| - 1 => if k < i then s[k] else s[k + 1])
  }

  function MoveToEnd<T>(s: seq<T>, i: nat): (r: seq<T>)
    requires i < |s|
    ensures |r| == |s|
    ensures forall k :: 0 <= k < i ==> r[k] == s[k]
    ensures forall k :: i <= k < |r| - 1 ==> r[k] == s[k + 1]
    ensures r[|r| - 1] == s[i]
  {
    seq(|s|, k requires 0 <= k < |s| => if k < i then s[k] else if k < |s| - 1 then s[k + 1] else s[i])
  }

  lemma MoveIsRemoveAndAppend<T>(s: seq<T>, i: nat)
    requires i < |s|
    ensures MoveToEnd(s, i) == RemoveAt(s, i) + [s[i]]
  {
  }

  lemma MoveLast<T>(s: seq<T>)
    requires s != []
    ensures MoveToEnd(s, |s| - 1) == s
  {
  }

  /** `place` tells for every element of s where it stands; so s repeats nothing. */
  ghost predicate ArePlaced<T>(s: seq<T>, place: map<T, nat>) {
    forall i {:trigger s[i]} :: 0 <= i < |s| ==> s[i] in place && place[s[i]] == i
  }

  ghost function MovedPlaces<T>(place: map<T, nat>, i: nat, n: nat): map<T, nat>
    requires i < n
  {
    map x | x in place ::
      if place[x] < i then place[x]
      else if place[x] == i then n - 1
      else if place[x] < n then place[x] - 1
      else place[x]
  }

  lemma MovePlaced<T>(s: seq<T>, place: map<T, nat>, i: nat)
    requires i < |s| && ArePlaced(s, place)
    ensures ArePlaced(MoveToEnd(s, i), MovedPlaces(place, i, |s|))
  {
  }

  ghost function RemovedPlaces<T>(place: map<T, nat>, i: nat): map<T, nat> {
    map x | x in place && place[x] != i :: if place[x] < i then place[x] else place[x] - 1
  }

  lemma RemovePlaced<T>(s: seq<T>, place: map<T, nat>, i: nat)
    requires i < |s| && ArePlaced(s, place)
    ensures ArePlaced(RemoveAt(s, i), RemovedPlaces(place, i))
  {
  }

  /** Keys are distinct, so removing a key cuts out its one position. */
  lemma {:induction false} WithoutAt<K, V>(es: seq<Entry<K, V>>, i: nat)
    requires i < |es| && HasDistinctKeys(es)
    ensures Without(es, es[i].key) == RemoveAt(es, i)
    ensures Lookup(es, es[i].key) == Some(es[i])
  {
    if i == 0 {
      assert RemoveAt(es, 0) == es[1..];
    } else {
      WithoutAt(es[1..], i - 1);
      assert RemoveAt(es, i) == [es[0]] + RemoveAt(es[1..], i - 1);
    }
  }

  lemma {:induction false} WithoutAbsent<K, V>(es: seq<Entry<K, V>>, key: K)
    requires !HasKey(es, key)
    ensures Without(es, key) == es
  {
    if es != [] {
      assert es[0].key != key;
      WithoutAbsent(es[1..], key);
    }
  }
}
