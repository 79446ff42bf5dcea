/** Which keys the limiter's store still holds after a run of attempts. */
module Residency {
  import opened Prelude
  import opened LruSpec
  import opened LruInclusion
  import opened SlidingWindow

  type History = seq<Attempt>

  function Front(h: History): History
    requires h != []
  {
    h[..|h| - 1]
  }

  function Last(h: History): Attempt
    requires h != []
  {
    h[|h| - 1]
  }

  /** The store after the attempts, in order. */
  function StoreAfter(cfg: Config, h: History): LogStore {
    if h == [] then [] else Record(StoreAfter(cfg, Front(h)), cfg, Last(h))
  }

  // ----- A get followed by a set of the same key is just the set

  lemma WithoutAppended<K, V>(es: seq<Entry<K, V>>, e: Entry<K, V>)
    requires HasDistinctKeys(es) && !HasKey(es, e.key)
    ensures Without(es + [e], e.key) == es && HasKey(es + [e], e.key)
  {
    assert (es + [e])[|es|] == e;
    WithoutAt(es + [e], |es|);
  }

  lemma RecordIsSet(es: LogStore, cfg: Config, a: Attempt)
    requires IsLru(es, cfg.maxItems)
    ensures Record(es, cfg, a) == AfterSet(es, cfg.maxItems, cfg.ttl, a.key, NewLog(es, cfg, a), a.time)
  {
    WithoutFacts(es, a.key);
    if HasKey(es, a.key) {
      WithoutAppended(Without(es, a.key), Lookup(es, a.key).value);
    }
  }

  lemma {:induction false} StoreIsLru(cfg: Config, h: History)
    ensures IsLru(StoreAfter(cfg, h), cfg.maxItems)
  {
    if h != [] {
      var es, a := StoreAfter(cfg, Front(h)), Last(h);
      StoreIsLru(cfg, Front(h));
      RecordIsSet(es, cfg, a);
      ApplyKeeps(es, cfg.maxItems, cfg.ttl, SetOp(a.key, NewLog(es, cfg, a), a.time));
    }
  }

  // ----- What was used, and what was used since

  predicate IsUsed(h: History, key: JsString) {
    h != [] && (Last(h).key == key || IsUsed(Front(h), key))
  }

  /** The other keys used after the last attempt of the key. */
  function Since(h: History, key: JsString): set<JsString> {
    if h == [] || Last(h).key == key then {} else Since(Front(h), key) + {Last(h).key}
  }

  function LastTime(h: History, key: JsString): real
    requires IsUsed(h, key)
  {
    if Last(h).key == key then Last(h).time else LastTime(Front(h), key)
  }

  ghost function Keys<V>(es: seq<Entry<JsString, V>>): set<JsString> {
    if es == [] then {} else Keys(es[1..]) + {es[0].key}
  }

  /** The keys that stand after the given one. */
  ghost function After<V>(es: seq<Entry<JsString, V>>, key: JsString): set<JsString> {
    if es == [] then {} else if es[0].key == key then Keys(es[1..]) else After(es[1..], key)
  }

  lemma {:induction false} KeysHas<V>(es: seq<Entry<JsString, V>>, key: JsString)
    ensures key in Keys(es) <==> HasKey(es, key)
  {
    if es != [] {
      KeysHas(es[1..], key);
      if HasKey(es, key) && key != es[0].key {
        var i :| 0 <= i < |es| && es[i].key == key;
        assert es[1..][i - 1].key == key;
      }
      if HasKey(es[1..], key) {
        var i :| 0 <= i < |es[1..]| && es[1..][i].key == key;
        assert es[i + 1].key == key;
      }
    }
  }

  lemma DistinctTail<V>(es: seq<Entry<JsString, V>>)
    requires es != [] && HasDistinctKeys(es)
    ensures HasDistinctKeys(es[1..]) && es[0].key !in Keys(es[1..])
  {
    KeysHas(es[1..], es[0].key);
  }

  lemma {:induction false} KeyCount<V>(es: seq<Entry<JsString, V>>)
    requires HasDistinctKeys(es)
    ensures |Keys(es)| == |es|
  {
    if es != [] {
      DistinctTail(es);
      KeyCount(es[1..]);
    }
  }

  lemma {:induction false} KeysWithout<V>(es: seq<Entry<JsString, V>>, k: JsString)
    requires HasDistinctKeys(es)
    ensures Keys(Without(es, k)) == Keys(es) - {k}
  {
    if es != [] {
      DistinctTail(es);
      if es[0].key != k {
        KeysWithout(es[1..], k);
        assert Without(es, k)[1..] == Without(es[1..], k);
      }
    }
  }

  lemma {:induction false} KeysAppend<V>(es: seq<Entry<JsString, V>>, e: Entry<JsString, V>)
    ensures Keys(es + [e]) == Keys(es) + {e.key}
  {
    if es == [] {
      assert es + [e] == [e];
    } else {
      assert (es + [e])[1..] == es[1..] + [e];
      KeysAppend(es[1..], e);
    }
  }

  lemma {:induction false} AfterWithout<V>(es: seq<Entry<JsString, V>>, k: JsString, key: JsString)
    requires HasDistinctKeys(es) && k != key
    ensures After(Without(es, k), key) == After(es, key) - {k}
  {
    if es != [] {
      DistinctTail(es);
      if es[0].key == k {
        NotAfter(es[1..], k, key);
      } else {
        assert Without(es, k)[0] == es[0] && Without(es, k)[1..] == Without(es[1..], k);
        if es[0].key == key {
          KeysWithout(es[1..], k);
        } else {
          AfterWithout(es[1..], k, key);
        }
      }
    }
  }

  lemma {:induction false} NotAfter<V>(es: seq<Entry<JsString, V>>, k: JsString, key: JsString)
    requires k !in Keys(es)
    ensures k !in After(es, key)
  {
    if es != [] && es[0].key != key {
      NotAfter(es[1..], k, key);
    }
  }

  lemma {:induction false} AfterAppend<V>(es: seq<Entry<JsString, V>>, e: Entry<JsString, V>, key: JsString)
    requires key in Keys(es)
    ensures After(es + [e], key) == After(es, key) + {e.key}
  {
    assert (es + [e])[1..] == es[1..] + [e];
    if es[0].key == key {
      KeysAppend(es[1..], e);
    } else {
      AfterAppend(es[1..], e, key);
    }
  }

  lemma {:induction false} AfterLast<V>(es: seq<Entry<JsString, V>>, e: Entry<JsString, V>)
    requires e.key !in Keys(es)
    ensures After(es + [e], e.key) == {}
  {
    if es == [] {
      assert es + [e] == [e];
    } else {
      assert (es + [e])[1..] == es[1..] + [e];
      AfterLast(es[1..], e);
    }
  }

  lemma {:induction false} AfterCount<V>(es: seq<Entry<JsString, V>>, key: JsString)
    requires HasDistinctKeys(es) && key in Keys(es)
    ensures |After(es, key)| < |es|
  {
    DistinctTail(es);
    if es[0].key == key {
      KeyCount(es[1..]);
    } else {
      AfterCount(es[1..], key);
    }
  }

  // ----- The invariant of every run

  /** A present key has exactly the keys used since behind it; a lost key has at least a full map used since. */
  ghost predicate Settles(es: LogStore, max: nat, h: History, key: JsString) {
    && (key in Keys(es) ==> IsUsed(h, key) && Since(h, key) == After(es, key))
    && (IsUsed(h, key) && key !in Keys(es) ==> max > 0 && |es| == max && Keys(es) <= Since(h, key))
  }

  lemma {:induction false} SettlesStep(es: LogStore, max: nat, h: History, a: Attempt, e: Entry<JsString, Log>,
                                       key: JsString)
    requires IsLru(es, max) && Settles(es, max, h, key) && Settles(es, max, h, a.key) && e.key == a.key
    ensures var next := if HasKey(es, a.key) then Without(es, a.key) + [e]
                        else if max > 0 && |es| == max then es[1..] + [e] else es + [e];
            Settles(next, max, h + [a], key)
  {
    assert Front(h + [a]) == h && Last(h + [a]) == a;
    KeysHas(es, a.key);
    KeysWithout(es, a.key);
    WithoutFacts(es, a.key);
    var kept := if HasKey(es, a.key) then Without(es, a.key) else if max > 0 && |es| == max then es[1..] else es;
    if es != [] {
      DistinctTail(es);
    }
    assert a.key !in Keys(kept);
    KeysAppend(kept, e);
    if key == a.key {
      AfterLast(kept, e);
    } else {
      AfterWithout(es, a.key, key);
      if key in Keys(kept) {
        AfterAppend(kept, e, key);
      }
      if !HasKey(es, a.key) && max > 0 && |es| == max && key == es[0].key {
        assert Since(h, key) == After(es, key) == Keys(es[1..]);
      }
    }
  }

  lemma {:induction false} Settled(cfg: Config, h: History, key: JsString)
    ensures Settles(StoreAfter(cfg, h), cfg.maxItems, h, key)
  {
    if h != [] {
      var es, a := StoreAfter(cfg, Front(h)), Last(h);
      assert Front(h) + [a] == h;
      Settled(cfg, Front(h), key);
      Settled(cfg, Front(h), a.key);
      StoreIsLru(cfg, Front(h));
      RecordIsSet(es, cfg, a);
      SettlesStep(es, cfg.maxItems, Front(h), a, Entry(a.key, NewLog(es, cfg, a), Expiry(cfg.ttl, a.time)), key);
    }
  }

  /** Not evicted: fewer than maxItems other keys were used since, or there is no bound. */
  predicate IsRetained(cfg: Config, h: History, key: JsString) {
    IsUsed(h, key) && (cfg.maxItems == 0 || |Since(h, key)| < cfg.maxItems)
  }

  lemma SubsetCount<T>(a: set<T>, b: set<T>)
    requires a <= b
    ensures |a| <= |b|
  {
    assert b == a + (b - a);
  }

  /** The store holds a key exactly when fewer than maxItems other keys were used since its last attempt. */
  lemma HoldsIffRetained(cfg: Config, h: History, key: JsString)
    ensures HasKey(StoreAfter(cfg, h), key) <==> IsRetained(cfg, h, key)
  {
    var es := StoreAfter(cfg, h);
    Settled(cfg, h, key);
    StoreIsLru(cfg, h);
    KeysHas(es, key);
    if HasKey(es, key) {
      AfterCount(es, key);
    } else if IsUsed(h, key) {
      KeyCount(es);
      SubsetCount(Keys(es), Since(h, key));
    }
  }
}
