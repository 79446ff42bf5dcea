/** What the map holds after any run, told from the operations alone: which keys, which values, and in which order. */
module LruRecency {
  import opened Prelude
  import opened LruSpec
  import opened LruInclusion

  // ----- What the operations say of a key

  function Before<K, V>(ops: seq<Op<K, V>>): seq<Op<K, V>>
    requires ops != []
  {
    ops[..|ops| - 1]
  }

  function Latest<K, V>(ops: seq<Op<K, V>>): Op<K, V>
    requires ops != []
  {
    ops[|ops| - 1]
  }

  /** The last time the key was set. */
  function LastSet<K(==), V>(ops: seq<Op<K, V>>, key: K): (r: Option<Op<K, V>>)
    ensures r.Some? ==> r.value.SetOp? && r.value.key == key
  {
    if ops == [] then None
    else if Latest(ops).SetOp? && Latest(ops).key == key then Some(Latest(ops))
    else LastSet(Before(ops), key)
  }

  /** When what was set last expires. */
  function ExpiryOf<K, V>(ttl: real, op: Op<K, V>): real
    requires op.SetOp?
  {
    if ttl > 0.0 then op.now + ttl else ttl
  }

  /** A get at this time finds the key: it is held, and what was set last is younger than the time-to-live. */
  predicate Finds<K(==), V>(max: nat, ttl: real, ops: seq<Op<K, V>>, key: K, now: real) {
    && HasKey(Run(max, ttl, ops), key) && LastSet(ops, key).Some?
    && !(ttl > 0.0 && LastSet(ops, key).value.now + ttl <= now)
  }

  /** A touch is a set, or a get that finds the key. */
  predicate Touches<K(==), V>(max: nat, ttl: real, ops: seq<Op<K, V>>, op: Op<K, V>, key: K) {
    match op
    case SetOp(k, _, _) => k == key
    case GetOp(k, now) => k == key && Finds(max, ttl, ops, key, now)
    case _ => false
  }

  /** How many operations there were up to the last touch of the key; 0 if it was never touched. */
  function LastTouch<K(==), V>(max: nat, ttl: real, ops: seq<Op<K, V>>, key: K): (n: nat)
    ensures n <= |ops|
  {
    if ops == [] then 0
    else if Touches(max, ttl, Before(ops), Latest(ops), key) then |ops|
    else LastTouch(max, ttl, Before(ops), key)
  }

  // ----- Entries and their order

  /** The entry is what the last set of its key made. */
  predicate IsLastSet<K(==), V(==)>(e: Entry<K, V>, ttl: real, ops: seq<Op<K, V>>) {
    && LastSet(ops, e.key).Some?
    && e.value == LastSet(ops, e.key).value.value && e.expiry == ExpiryOf(ttl, LastSet(ops, e.key).value)
  }

  ghost predicate AreLastSet<K, V>(es: seq<Entry<K, V>>, ttl: real, ops: seq<Op<K, V>>) {
    forall i :: 0 <= i < |es| ==> IsLastSet(es[i], ttl, ops)
  }

  ghost predicate InTouchOrder<K, V>(es: seq<Entry<K, V>>, max: nat, ttl: real, ops: seq<Op<K, V>>) {
    forall i, j :: 0 <= i < j < |es| ==> LastTouch(max, ttl, ops, es[i].key) < LastTouch(max, ttl, ops, es[j].key)
  }

  /** Entries whose keys the latest operation is not about are described as before it. */
  lemma StillDescribed<K, V>(es: seq<Entry<K, V>>, max: nat, ttl: real, ops: seq<Op<K, V>>)
    requires ops != [] && AreLastSet(es, ttl, Before(ops)) && InTouchOrder(es, max, ttl, Before(ops))
    requires Latest(ops).ClearOp? || Latest(ops).DeleteOp? || forall i :: 0 <= i < |es| ==> es[i].key != Latest(ops).key
    ensures AreLastSet(es, ttl, ops) && InTouchOrder(es, max, ttl, ops)
    ensures forall i :: 0 <= i < |es| ==> LastTouch(max, ttl, ops, es[i].key) < |ops|
  {
    forall i | 0 <= i < |es|
      ensures LastSet(ops, es[i].key) == LastSet(Before(ops), es[i].key)
      ensures LastTouch(max, ttl, ops, es[i].key) == LastTouch(max, ttl, Before(ops), es[i].key)
    {
    }
    forall i | 0 <= i < |es|
      ensures IsLastSet(es[i], ttl, ops)
    {
      assert IsLastSet(es[i], ttl, Before(ops));
    }
  }

  lemma RemovedDescribed<K, V>(es: seq<Entry<K, V>>, i: nat, max: nat, ttl: real, ops: seq<Op<K, V>>)
    requires i < |es| && AreLastSet(es, ttl, ops) && InTouchOrder(es, max, ttl, ops)
    ensures AreLastSet(RemoveAt(es, i), ttl, ops) && InTouchOrder(RemoveAt(es, i), max, ttl, ops)
  {
    var r := RemoveAt(es, i);
    forall k | 0 <= k < |r|
      ensures IsLastSet(r[k], ttl, ops)
    {
      assert IsLastSet(es[if k < i then k else k + 1], ttl, ops);
    }
  }

  lemma WithoutDescribed<K, V>(es: seq<Entry<K, V>>, key: K, max: nat, ttl: real, ops: seq<Op<K, V>>)
    requires HasDistinctKeys(es) && AreLastSet(es, ttl, ops) && InTouchOrder(es, max, ttl, ops)
    ensures AreLastSet(Without(es, key), ttl, ops) && InTouchOrder(Without(es, key), max, ttl, ops)
    ensures forall i :: 0 <= i < |Without(es, key)| ==> Without(es, key)[i].key != key
  {
    WithoutFacts(es, key);
    if HasKey(es, key) {
      var i :| 0 <= i < |es| && es[i].key == key;
      WithoutAt(es, i);
      RemovedDescribed(es, i, max, ttl, ops);
    } else {
      WithoutAbsent(es, key);
    }
  }

  lemma AppendDescribed<K, V>(es: seq<Entry<K, V>>, e: Entry<K, V>, max: nat, ttl: real, ops: seq<Op<K, V>>)
    requires AreLastSet(es, ttl, ops) && InTouchOrder(es, max, ttl, ops)
    requires IsLastSet(e, ttl, ops) && LastTouch(max, ttl, ops, e.key) == |ops|
    requires forall i :: 0 <= i < |es| ==> LastTouch(max, ttl, ops, es[i].key) < |ops|
    ensures AreLastSet(es + [e], ttl, ops) && InTouchOrder(es + [e], max, ttl, ops)
  {
  }

  lemma {:induction false} RunIsLru<K, V>(max: nat, ttl: real, ops: seq<Op<K, V>>)
    ensures IsLru(Run(max, ttl, ops), max)
  {
    if ops != [] {
      RunIsLru(max, ttl, Before(ops));
      ApplyKeeps(Run(max, ttl, Before(ops)), max, ttl, Latest(ops));
    }
  }

  /** After any run the entries stand in the order of their last touch, each with what its key was last set to. */
  lemma {:induction false} Described<K, V>(max: nat, ttl: real, ops: seq<Op<K, V>>)
    ensures IsLru(Run(max, ttl, ops), max)
    ensures AreLastSet(Run(max, ttl, ops), ttl, ops)
    ensures InTouchOrder(Run(max, ttl, ops), max, ttl, ops)
  {
    RunIsLru(max, ttl, ops);
    if ops != [] {
      Described(max, ttl, Before(ops));
      match Latest(ops) {
        case GetOp(key, now) => GetDescribed(max, ttl, ops, key, now);
        case SetOp(key, value, now) => SetDescribed(max, ttl, ops, key);
        case DeleteOp(key) =>
          WithoutDescribed(Run(max, ttl, Before(ops)), key, max, ttl, Before(ops));
          StillDescribed(Without(Run(max, ttl, Before(ops)), key), max, ttl, ops);
        case ClearOp =>
      }
    }
  }

  lemma SetDescribed<K, V>(max: nat, ttl: real, ops: seq<Op<K, V>>, key: K)
    requires ops != [] && Latest(ops).SetOp? && Latest(ops).key == key
    requires IsLru(Run(max, ttl, Before(ops)), max)
    requires AreLastSet(Run(max, ttl, Before(ops)), ttl, Before(ops))
    requires InTouchOrder(Run(max, ttl, Before(ops)), max, ttl, Before(ops))
    ensures AreLastSet(Run(max, ttl, ops), ttl, ops) && InTouchOrder(Run(max, ttl, ops), max, ttl, ops)
  {
    var es, op := Run(max, ttl, Before(ops)), Latest(ops);
    var e := Entry(key, op.value, Expiry(ttl, op.now));
    var rest := Without(es, key);
    WithoutDescribed(es, key, max, ttl, Before(ops));
    if !HasKey(es, key) {
      WithoutAbsent(es, key);
      if max > 0 && |es| == max {
        RemovedDescribed(es, 0, max, ttl, Before(ops));
        assert RemoveAt(es, 0) == es[1..];
        rest := es[1..];
      }
    }
    StillDescribed(rest, max, ttl, ops);
    AppendDescribed(rest, e, max, ttl, ops);
    assert Run(max, ttl, ops) == rest + [e];
  }

  lemma GetDescribed<K, V>(max: nat, ttl: real, ops: seq<Op<K, V>>, key: K, now: real)
    requires ops != [] && Latest(ops) == GetOp(key, now)
    requires IsLru(Run(max, ttl, Before(ops)), max)
    requires AreLastSet(Run(max, ttl, Before(ops)), ttl, Before(ops))
    requires InTouchOrder(Run(max, ttl, Before(ops)), max, ttl, Before(ops))
    ensures AreLastSet(Run(max, ttl, ops), ttl, ops) && InTouchOrder(Run(max, ttl, ops), max, ttl, ops)
  {
    var es := Run(max, ttl, Before(ops));
    var rest := Without(es, key);
    WithoutDescribed(es, key, max, ttl, Before(ops));
    StillDescribed(rest, max, ttl, ops);
    if HasKey(es, key) {
      var e := Lookup(es, key).value;
      if !IsExpired(e, ttl, now) {
        AppendDescribed(rest, e, max, ttl, ops);
      }
    } else {
      WithoutAbsent(es, key);
    }
  }

  // ----- What a get yields, and which keys are held

  /** A get yields what the key was last set to, if the key is held and that is younger than the time-to-live. */
  lemma GetYields<K, V>(max: nat, ttl: real, ops: seq<Op<K, V>>, key: K, now: real)
    ensures GetValue(Run(max, ttl, ops), ttl, key, now) ==
            if Finds(max, ttl, ops, key, now) then Some(LastSet(ops, key).value.value) else None
  {
    Described(max, ttl, ops);
  }

  /** No held key was touched longer ago. */
  ghost predicate IsLeastRecent<K, V>(max: nat, ttl: real, ops: seq<Op<K, V>>, key: K) {
    forall e :: e in Run(max, ttl, ops) ==> LastTouch(max, ttl, ops, key) <= LastTouch(max, ttl, ops, e.key)
  }

  /** The first entry is the least recently touched one. */
  lemma FirstIsLeastRecent<K, V>(max: nat, ttl: real, ops: seq<Op<K, V>>, key: K)
    requires HasKey(Run(max, ttl, ops), key)
    ensures Run(max, ttl, ops)[0].key == key <==> IsLeastRecent(max, ttl, ops, key)
  {
    var es := Run(max, ttl, ops);
    Described(max, ttl, ops);
    var i :| 0 <= i < |es| && es[i].key == key;
    assert es[0] in es;
  }

  lemma AppendKeys<K, V>(es: seq<Entry<K, V>>, e: Entry<K, V>, key: K)
    ensures HasKey(es + [e], key) <==> HasKey(es, key) || e.key == key
  {
    if HasKey(es, key) {
      var i :| 0 <= i < |es| && es[i].key == key;
      assert (es + [e])[i].key == key;
    }
    if e.key == key {
      assert (es + [e])[|es|].key == key;
    }
  }

  /** Told from what was held before the operation. */
  ghost predicate IsHeldAfter<K, V>(max: nat, ttl: real, ops: seq<Op<K, V>>, op: Op<K, V>, key: K) {
    var es := Run(max, ttl, ops);
    match op
    case SetOp(k, _, _) =>
      || k == key
      || (HasKey(es, key) && !(max > 0 && |es| == max && !HasKey(es, k) && IsLeastRecent(max, ttl, ops, key)))
    case GetOp(k, now) => HasKey(es, key) && (k == key ==> Finds(max, ttl, ops, key, now))
    case DeleteOp(k) => HasKey(es, key) && k != key
    case ClearOp => false
  }

  /**
   * A key is held after an operation if and only if it is the one that was set, or was held and is neither deleted,
   * nor cleared, nor got when it has expired, nor the least recently touched one of a full map when a new key is set.
   */
  lemma HeldAfter<K, V>(max: nat, ttl: real, ops: seq<Op<K, V>>, key: K)
    requires ops != []
    ensures HasKey(Run(max, ttl, ops), key) <==> IsHeldAfter(max, ttl, Before(ops), Latest(ops), key)
  {
    var es := Run(max, ttl, Before(ops));
    Described(max, ttl, Before(ops));
    match Latest(ops) {
      case SetOp(k, value, now) => HeldAfterSet(max, ttl, ops, key);
      case GetOp(k, now) => HeldAfterGet(max, ttl, ops, key, k, now);
      case DeleteOp(k) => WithoutFacts(es, k);
      case ClearOp =>
    }
  }

  lemma HeldAfterSet<K, V>(max: nat, ttl: real, ops: seq<Op<K, V>>, key: K)
    requires ops != [] && Latest(ops).SetOp? && IsLru(Run(max, ttl, Before(ops)), max)
    ensures var es, k := Run(max, ttl, Before(ops)), Latest(ops).key;
            HasKey(Run(max, ttl, ops), key) <==>
            k == key || (HasKey(es, key) &&
                         !(max > 0 && |es| == max && !HasKey(es, k) && IsLeastRecent(max, ttl, Before(ops), key)))
  {
    var es, op := Run(max, ttl, Before(ops)), Latest(ops);
    var e := Entry(op.key, op.value, Expiry(ttl, op.now));
    if HasKey(es, op.key) {
      WithoutFacts(es, op.key);
      AppendKeys(Without(es, op.key), e, key);
    } else if max > 0 && |es| == max {
      AppendKeys(es[1..], e, key);
      if HasKey(es, key) {
        FirstIsLeastRecent(max, ttl, Before(ops), key);
      }
    } else {
      AppendKeys(es, e, key);
    }
  }

  lemma HeldAfterGet<K, V>(max: nat, ttl: real, ops: seq<Op<K, V>>, key: K, k: K, now: real)
    requires ops != [] && Latest(ops) == GetOp(k, now)
    ensures HasKey(Run(max, ttl, ops), key) <==>
            HasKey(Run(max, ttl, Before(ops)), key) && (k == key ==> Finds(max, ttl, Before(ops), key, now))
  {
    var es := Run(max, ttl, Before(ops));
    Described(max, ttl, Before(ops));
    if HasKey(es, k) {
      WithoutFacts(es, k);
      AppendKeys(Without(es, k), Lookup(es, k).value, key);
    }
  }
}
