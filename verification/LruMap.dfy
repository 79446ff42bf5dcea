/** The doubly linked list kept in step with a hash map, proved against the sequence of LruSpec. */
module LruMap {
  import opened Prelude
  import opened LruSpec

  class Item<K, V> {
    var expiry: real
    const key: K
    var prev: Item?<K, V>
    var next: Item?<K, V>
    var value: V

    constructor (key: K, value: V, expiry: real, prev: Item?<K, V>)
      ensures this.key == key && this.value == value && this.expiry == expiry
      ensures this.prev == prev && this.next == null
    {
      this.key := key;
      this.value := value;
      this.expiry := expiry;
      this.prev := prev;
      this.next := null;
    }
  }

  /** The prev and next pointers run along `nodes` from first to last, each the reverse of the other. */
  ghost predicate IsChain<K, V>(nodes: seq<Item<K, V>>, first: Item?<K, V>, last: Item?<K, V>)
    reads nodes`prev, nodes`next
  {
    && first == (if nodes == [] then null else nodes[0])
    && last == (if nodes == [] then null else nodes[|nodes| - 1])
    && (forall i {:trigger nodes[i].prev} :: 0 <= i < |nodes| ==>
          nodes[i].prev == if i == 0 then null else nodes[i - 1])
    && (forall i {:trigger nodes[i].next} :: 0 <= i < |nodes| ==>
          nodes[i].next == if i == |nodes| - 1 then null else nodes[i + 1])
  }

  /** The hash map holds exactly the chained items, each under its own key. */
  ghost predicate IsIndex<K, V>(nodes: seq<Item<K, V>>, place: map<Item<K, V>, nat>, items: map<K, Item<K, V>>) {
    && ArePlaced(nodes, place)
    && |nodes| == |items|
    && (forall i {:trigger nodes[i]} :: 0 <= i < |nodes| ==> nodes[i].key in items && items[nodes[i].key] == nodes[i])
    && (forall k :: k in items ==>
          && items[k].key == k
          && items[k] in place && place[items[k]] < |nodes| && nodes[place[items[k]]] == items[k])
  }

  /** The entries are what the nodes hold, in order. */
  ghost predicate Mirrors<K, V>(nodes: seq<Item<K, V>>, entries: seq<Entry<K, V>>)
    reads nodes`value, nodes`expiry
  {
    && |entries| == |nodes|
    && forall i {:trigger entries[i]} :: 0 <= i < |nodes| ==>
         entries[i] == Entry(nodes[i].key, nodes[i].value, nodes[i].expiry)
  }

  // ----- Moving an item to the end

  lemma MoveIndex<K, V>(nodes: seq<Item<K, V>>, place: map<Item<K, V>, nat>, items: map<K, Item<K, V>>, i: nat)
    requires i < |nodes| && IsIndex(nodes, place, items)
    ensures IsIndex(MoveToEnd(nodes, i), MovedPlaces(place, i, |nodes|), items)
  {
    MovePlaced(nodes, place, i);
  }

  lemma MoveMirror<K, V>(nodes: seq<Item<K, V>>, entries: seq<Entry<K, V>>, i: nat)
    requires i < |nodes| && Mirrors(nodes, entries)
    ensures Mirrors(MoveToEnd(nodes, i), MoveToEnd(entries, i))
  {
  }

  lemma MovedPrev<K, V>(o: seq<Item<K, V>>, i: nat)
    requires i < |o| - 1
    requires forall k {:trigger o[k].prev} :: 0 <= k < |o| ==>
               o[k].prev == if k == i then o[|o| - 1] else if k == i + 1 then (if i == 0 then null else o[i - 1])
                            else if k == 0 then null else o[k - 1]
    ensures var r := MoveToEnd(o, i);
            forall k {:trigger r[k].prev} :: 0 <= k < |r| ==> r[k].prev == if k == 0 then null else r[k - 1]
  {
  }

  lemma MovedNext<K, V>(o: seq<Item<K, V>>, i: nat)
    requires i < |o| - 1
    requires forall k {:trigger o[k].next} :: 0 <= k < |o| ==>
               o[k].next == if k == i then null else if k == i - 1 then o[i + 1]
                            else if k == |o| - 1 then o[i] else o[k + 1]
    ensures var r := MoveToEnd(o, i);
            forall k {:trigger r[k].next} :: 0 <= k < |r| ==> r[k].next == if k == |r| - 1 then null else r[k + 1]
  {
  }

  // ----- Taking an item out

  lemma RemoveIndex<K, V>(nodes: seq<Item<K, V>>, place: map<Item<K, V>, nat>, items: map<K, Item<K, V>>, i: nat)
    requires i < |nodes| && IsIndex(nodes, place, items)
    ensures IsIndex(RemoveAt(nodes, i), RemovedPlaces(place, i), items - {nodes[i].key})
  {
    var key := nodes[i].key;
    RemovePlaced(nodes, place, i);
    assert (items - {key}).Keys == items.Keys - {key};
    forall j | 0 <= j < |nodes| && j != i
      ensures nodes[j].key != key
    {
      assert items[nodes[j].key] == nodes[j] && place[nodes[j]] == j;
      assert items[key] == nodes[i] && place[nodes[i]] == i;
    }
  }

  lemma RemoveMirror<K, V>(nodes: seq<Item<K, V>>, entries: seq<Entry<K, V>>, i: nat)
    requires i < |nodes| && Mirrors(nodes, entries)
    ensures Mirrors(RemoveAt(nodes, i), RemoveAt(entries, i))
  {
  }

  lemma RemovedLinks<K, V>(o: seq<Item<K, V>>, i: nat)
    requires i < |o|
    requires forall k {:trigger o[k].prev} :: 0 <= k < |o| && k != i ==>
               o[k].prev == if k == 0 || (k == 1 && i == 0) then null else if k == i + 1 then o[i - 1] else o[k - 1]
    requires forall k {:trigger o[k].next} :: 0 <= k < |o| && k != i ==>
               o[k].next == if k == |o| - 1 || (k == i - 1 && i == |o| - 1) then null
                            else if k == i - 1 then o[i + 1] else o[k + 1]
    ensures var r := RemoveAt(o, i);
            IsChain(r, if r == [] then null else r[0], if r == [] then null else r[|r| - 1])
  {
  }

  // ----- Adding an item

  lemma AppendIndex<K, V>(nodes: seq<Item<K, V>>, place: map<Item<K, V>, nat>, items: map<K, Item<K, V>>,
                          item: Item<K, V>)
    requires IsIndex(nodes, place, items) && item.key !in items
    ensures IsIndex(nodes + [item], place[item := |nodes|], items[item.key := item])
  {
    forall i | 0 <= i < |nodes|
      ensures nodes[i] != item
    {
      assert nodes[i].key in items;
    }
  }

  lemma AppendChain<K, V>(nodes: seq<Item<K, V>>, first: Item?<K, V>, item: Item<K, V>)
    requires item !in nodes
    requires nodes != [] ==> first == nodes[0]
    requires forall k {:trigger nodes[k].prev} :: 0 <= k < |nodes| ==>
               nodes[k].prev == if k == 0 then null else nodes[k - 1]
    requires forall k {:trigger nodes[k].next} :: 0 <= k < |nodes| ==>
               nodes[k].next == if k == |nodes| - 1 then item else nodes[k + 1]
    requires item.prev == (if nodes == [] then null else nodes[|nodes| - 1]) && item.next == null
    ensures IsChain(nodes + [item], if nodes == [] then item else first, item)
  {
  }

  class LRUMap<K(==), V> {
    var first: Item?<K, V>
    var items: map<K, Item<K, V>>
    var last: Item?<K, V>
    const max: nat
    const ttl: real

    // The chain from first to last, what it holds, and where each item stands in it.
    ghost var order: seq<Item<K, V>>
    ghost var entries: seq<Entry<K, V>>
    ghost var place: map<Item<K, V>, nat>

    ghost function Repr(): set<object>
      reads `order
    {
      {this} + (set x: Item<K, V> | x in order)
    }

    ghost predicate Valid()
      reads this, order
    {
      && IsChain(order, first, last)
      && IsIndex(order, place, items)
      && Mirrors(order, entries)
      && (max > 0 ==> |order| <= max)
    }

    constructor (max: nat, ttl: real)
      requires ttl >= 0.0
      ensures Valid() && entries == [] && order == []
      ensures this.max == max && this.ttl == ttl
    {
      first := null;
      items := map[];
      last := null;
      this.max := max;
      this.ttl := ttl;
      order := [];
      entries := [];
      place := map[];
    }

    lemma EntriesDistinct()
      requires Valid()
      ensures HasDistinctKeys(entries)
    {
      forall i, j | 0 <= i < j < |entries|
        ensures entries[i].key != entries[j].key
      {
        assert items[order[i].key] == order[i] && items[order[j].key] == order[j];
      }
    }

    lemma PresentKey(key: K)
      requires Valid() && key in items
      ensures var i := place[items[key]];
              && HasKey(entries, key) && Lookup(entries, key) == Some(entries[i])
              && Without(entries, key) == RemoveAt(entries, i)
    {
      var i := place[items[key]];
      EntriesDistinct();
      assert order[i].key == key && entries[i].key == key;
      WithoutAt(entries, i);
    }

    lemma AbsentKey(key: K)
      requires Valid() && key !in items
      ensures !HasKey(entries, key) && Lookup(entries, key) == None && Without(entries, key) == entries
    {
      forall i | 0 <= i < |entries|
        ensures entries[i].key != key
      {
        assert order[i].key in items;
      }
      WithoutAbsent(entries, key);
    }

    /** Takes the item out of the chain and hangs it on behind the last one. */
    method Relink(item: Item<K, V>, ghost o: seq<Item<K, V>>, ghost at: map<Item<K, V>, nat>, ghost i: nat)
      requires IsChain(o, first, last) && ArePlaced(o, at) && i < |o| - 1 && o[i] == item
      modifies `first, `last, o`prev, o`next
      ensures IsChain(MoveToEnd(o, i), first, last)
    {
      var last := this.last;
      var next := item.next;
      var prev := item.prev;
      assert next == o[i + 1] && prev == if i == 0 then null else o[i - 1];

      if first == item {
        first := next;
      }

      item.next := null;
      item.prev := last;
      if last != null {
        last.next := item;
      }

      if prev != null {
        prev.next := next;
      }

      if next != null {
        next.prev := prev;
      }

      this.last := item;
      MovedPrev(o, i);
      MovedNext(o, i);
    }

    lemma LastPlace(item: Item<K, V>)
      requires Valid() && item in place && place[item] < |order| && order[place[item]] == item
      ensures last == item ==> place[item] == |order| - 1
      ensures last != item ==> place[item] < |order| - 1
    {
      assert place[order[|order| - 1]] == |order| - 1;
    }

    method BumpLru(item: Item<K, V>)
      requires Valid() && item.key in items && items[item.key] == item
      modifies `first, `last, `order, `entries, `place, order`prev, order`next
      ensures Valid()
      ensures order == MoveToEnd(old(order), old(place[item]))
      ensures entries == MoveToEnd(old(entries), old(place[item]))
    {
      LastPlace(item);
      ghost var o, at, i := order, place, place[item];
      if this.last == item {
        MoveLast(order);
        MoveLast(entries);
        return;
      }
      Reorder(i);
      Relink(item, o, at, i);
    }

    /** The sequences of the item to be bumped, ahead of the pointers. */
    ghost method Reorder(i: nat)
      requires Valid() && i < |order|
      modifies `order, `entries, `place
      ensures order == MoveToEnd(old(order), i) && entries == MoveToEnd(old(entries), i)
      ensures IsIndex(order, place, items) && Mirrors(order, entries)
      ensures |order| == |old(order)|
    {
      MoveIndex(order, place, items, i);
      MoveMirror(order, entries, i);
      order, entries, place := MoveToEnd(order, i), MoveToEnd(entries, i), MovedPlaces(place, i, |order|);
    }

    method Clear()
      requires Valid()
      modifies this
      ensures Valid() && entries == [] && order == []
    {
      items := map[];
      first := null;
      last := null;
      order, entries, place := [], [], map[];
    }

    function Size(): (n: nat)
      requires Valid()
      reads this, order
      ensures n == |entries|
    {
      |items|
    }

    /** Takes the item out of the chain. */
    method Unlink(item: Item<K, V>, ghost o: seq<Item<K, V>>, ghost at: map<Item<K, V>, nat>, ghost i: nat)
      requires IsChain(o, first, last) && ArePlaced(o, at) && i < |o| && o[i] == item
      modifies `first, `last, o`prev, o`next
      ensures IsChain(RemoveAt(o, i), first, last)
    {
      assert item.next == (if i == |o| - 1 then null else o[i + 1]) && item.prev == (if i == 0 then null else o[i - 1]);
      assert at[o[0]] == 0 && at[o[|o| - 1]] == |o| - 1;
      if item.prev != null {
        item.prev.next := item.next;
      }

      if item.next != null {
        item.next.prev := item.prev;
      }

      if first == item {
        first := item.next;
      }

      if last == item {
        last := item.prev;
      }
      RemovedLinks(o, i);
    }

    /** Deletes a key from the hash map; its item is still in the chain. */
    method Forget(key: K, ghost i: nat)
      requires Valid() && i < |order| && order[i].key == key
      modifies `items, `order, `entries, `place
      ensures items == old(items) - {key} && order == RemoveAt(old(order), i) && entries == RemoveAt(old(entries), i)
      ensures IsIndex(order, place, items) && Mirrors(order, entries)
      ensures |order| == |old(order)| - 1
    {
      RemoveIndex(order, place, items, i);
      RemoveMirror(order, entries, i);
      order, entries, place := RemoveAt(order, i), RemoveAt(entries, i), RemovedPlaces(place, i);
      items := items - {key};
    }

    /** Forgets the item of a key and takes it out of the chain. */
    method RemoveItem(key: K)
      requires Valid() && key in items
      modifies `first, `last, `items, `order, `entries, `place, order`prev, order`next
      ensures Valid()
      ensures entries == RemoveAt(old(entries), old(place[items[key]]))
      ensures order == RemoveAt(old(order), old(place[items[key]]))
    {
      var item := items[key];
      ghost var o, at, i := order, place, place[item];
      Forget(key, i);
      Unlink(item, o, at, i);
    }

    method Delete(key: K)
      requires Valid()
      modifies `first, `last, `items, `order, `entries, `place, order`prev, order`next
      ensures Valid()
      ensures entries == AfterDelete(old(entries), key)
      ensures forall x <- order :: x in old(order)
    {
      if key in items {
        PresentKey(key);
        RemoveItem(key);
      } else {
        AbsentKey(key);
      }
    }

    method Evict()
      requires Valid()
      modifies `first, `last, `items, `order, `entries, `place, order`prev, order`next
      ensures Valid()
      ensures if old(entries) == [] then entries == [] && items == old(items) && order == old(order)
              else
                && entries == RemoveAt(old(entries), 0) && order == RemoveAt(old(order), 0)
                && items == old(items) - {old(entries)[0].key}
    {
      if |items| > 0 {
        EvictFirst();
      }
    }

    /** The body of evict when there is an item. */
    method EvictFirst()
      requires Valid() && entries != []
      modifies `first, `last, `items, `order, `entries, `place, order`prev, order`next
      ensures Valid()
      ensures entries == RemoveAt(old(entries), 0) && order == RemoveAt(old(order), 0)
      ensures items == old(items) - {old(entries)[0].key}
    {
      var item := first;
      ghost var o, at := order, place;
      Forget(item.key, 0);
      UnlinkFirst(o, at);
    }

    /** The pointer part of evict, once the first item is out of the hash map. */
    method UnlinkFirst(ghost o: seq<Item<K, V>>, ghost at: map<Item<K, V>, nat>)
      requires o != [] && IsChain(o, first, last) && ArePlaced(o, at) && |items| == |o| - 1
      modifies `first, `last, o`prev, o`next
      ensures IsChain(RemoveAt(o, 0), first, last)
    {
      var item := first;
      assert item.next == (if |o| == 1 then null else o[1]);
      if |items| == 0 {
        first := null;
        last := null;
      } else {
        first := item.next;
        if first != null {
          first.prev := null;
        }
      }
      RemovedLinks(o, 0);
    }

    method Get(key: K, now: real) returns (value: Option<V>)
      requires Valid()
      modifies `first, `last, `items, `order, `entries, `place, order`prev, order`next
      ensures Valid()
      ensures value == GetValue(old(entries), ttl, key, now)
      ensures entries == AfterGet(old(entries), ttl, key, now)
      ensures forall x <- order :: x in old(order)
    {
      if key in items {
        var item := items[key];
        PresentKey(key);

        if ttl > 0.0 && item.expiry <= now {
          Delete(key);
          return None;
        }

        MoveIsRemoveAndAppend(entries, place[item]);
        BumpLru(item);
        return Some(item.value);
      }
      AbsentKey(key);
      return None;
    }

    /** Overwrites the item of a key in place. */
    method Replace(key: K, value: V, expiry: real)
      requires Valid() && key in items
      modifies `entries, order`value, order`expiry
      ensures Valid()
      ensures entries == old(entries)[old(place[items[key]]) := Entry(key, value, expiry)]
    {
      var item := items[key];
      ghost var i := place[item];
      item.value := value;
      item.expiry := expiry;
      entries := entries[i := Entry(key, value, expiry)];
    }

    /** The pointer part of adding an item, once it is in the hash map. */
    method LinkLast(item: Item<K, V>, ghost o: seq<Item<K, V>>, ghost at: map<Item<K, V>, nat>)
      requires IsChain(o, first, last) && ArePlaced(o, at) && item !in o && |items| == |o| + 1
      requires item.prev == last && item.next == null
      modifies `first, `last, o`next
      ensures IsChain(o + [item], first, last)
    {
      if |items| == 1 {
        first := item;
      } else {
        if last != null {
          last.next := item;
        }
      }

      last := item;
      assert o != [] ==> at[o[|o| - 1]] == |o| - 1;
      AppendChain(o, first, item);
    }

    /** Puts a new item in the hash map; it is not in the chain yet. */
    method Remember(item: Item<K, V>)
      requires Valid() && item.key !in items
      modifies `items, `order, `entries, `place
      ensures items == old(items)[item.key := item] && order == old(order) + [item]
      ensures entries == old(entries) + [Entry(item.key, item.value, item.expiry)]
      ensures IsIndex(order, place, items) && Mirrors(order, entries)
    {
      AppendIndex(order, place, items, item);
      place := place[item := |order|];
      order, entries := order + [item], entries + [Entry(item.key, item.value, item.expiry)];
      items := items[item.key := item];
    }

    /** Adds an item for a key that has none. */
    method Append(key: K, value: V, expiry: real) returns (item: Item<K, V>)
      requires Valid() && key !in items && (max > 0 ==> |order| < max)
      modifies `first, `last, `items, `order, `entries, `place, order`next
      ensures Valid()
      ensures entries == old(entries) + [Entry(key, value, expiry)]
      ensures fresh(item) && order == old(order) + [item]
    {
      ghost var o, at := order, place;
      item := new Item(key, value, expiry, last);
      Remember(item);
      LinkLast(item, o, at);
    }

    /** The first half of set: the key is present, its item is overwritten and bumped. */
    method Overwrite(key: K, value: V, now: real)
      requires Valid() && key in items
      modifies Repr()
      ensures Valid()
      ensures entries == AfterSet(old(entries), max, ttl, key, value, now)
      ensures forall x <- order :: x in old(order)
    {
      var item := items[key];
      PresentKey(key);
      SetPresent(entries, place[item], max, ttl, key, value, now);
      Replace(key, value, if ttl > 0.0 then now + ttl else ttl);

      LastPlace(item);
      if last != item {
        BumpLru(item);
      } else {
        MoveLast(entries);
      }
    }

    /** Evicts from a map that is not empty; a key that was absent stays absent. */
    method EvictForKey(ghost key: K)
      requires Valid() && key !in items && entries != []
      modifies `first, `last, `items, `order, `entries, `place, order`prev, order`next
      ensures Valid() && key !in items
      ensures entries == RemoveAt(old(entries), 0) && |order| == |old(order)| - 1
      ensures forall x <- order :: x in old(order)
    {
      Evict();
    }

    /** The second half of set: a new item, at the cost of the first one when the map is full. */
    method Insert(key: K, value: V, now: real)
      requires Valid() && key !in items
      modifies Repr()
      ensures Valid()
      ensures entries == AfterSet(old(entries), max, ttl, key, value, now)
      ensures forall x <- order :: x in old(order) || fresh(x)
    {
      AbsentKey(key);
      if max > 0 && |items| == max {
        RemoveFirst(entries);
        EvictForKey(key);
      }
      var item := Append(key, value, if ttl > 0.0 then now + ttl else ttl);
    }

    method Set(key: K, value: V, now: real)
      requires Valid()
      modifies Repr()
      ensures Valid()
      ensures entries == AfterSet(old(entries), max, ttl, key, value, now)
      ensures forall x <- order :: x in old(order) || fresh(x)
    {
      if key in items {
        Overwrite(key, value, now);
        return;
      }
      Insert(key, value, now);
    }
  }

  /** The constructor as callers see it: null where it throws. */
  method NewLRUMap<K(==), V>(max: int, ttlInMsecs: real) returns (r: LRUMap?<K, V>)
    ensures r == null <==> max < 0 || ttlInMsecs < 0.0
    ensures r != null ==> fresh(r) && r.Valid() && r.entries == [] && r.max == max && r.ttl == ttlInMsecs
  {
    if max < 0 || ttlInMsecs < 0.0 {
      return null;
    }
    r := new LRUMap(max, ttlInMsecs);
  }

  lemma RemoveFirst<T>(s: seq<T>)
    requires s != []
    ensures RemoveAt(s, 0) == s[1..]
  {
  }

  /** Overwriting a present entry and moving it to the end is what AfterSet does. */
  lemma SetPresent<K, V>(es: seq<Entry<K, V>>, i: nat, max: nat, ttl: real, key: K, value: V, now: real)
    requires i < |es| && HasKey(es, key) && Without(es, key) == RemoveAt(es, i)
    ensures MoveToEnd(es[i := Entry(key, value, Expiry(ttl, now))], i) == AfterSet(es, max, ttl, key, value, now)
  {
  }
}
