/** The in-memory cache: a counter beside a map, expiry, and eviction of the entries that expire first.
    Each operation is atomic; the current time is a parameter. */
module TtlCache {
  import opened Wrappers

  datatype Item<T> = Item(value: T, expiration: int)

  /** What the callers did to the cache so far. */
  datatype Event<T> = Wrote(key: string, item: Item<T>) | Deleted(key: string) | Cleared

  /** The item last written under a key and not deleted since. */
  function Latest<T>(history: seq<Event<T>>, key: string): Option<Item<T>>
    decreases |history|
  {
    if history == [] then None
    else
      var n := |history| - 1;
      match history[n]
      case Wrote(k, item) => if k == key then Some(item) else Latest(history[..n], key)
      case Deleted(k) => if k == key then None else Latest(history[..n], key)
      case Cleared => None
  }

  lemma LatestSnoc<T>(history: seq<Event<T>>, e: Event<T>, key: string)
    ensures Latest(history + [e], key) ==
      match e
      case Wrote(k, item) => if k == key then Some(item) else Latest(history, key)
      case Deleted(k) => if k == key then None else Latest(history, key)
      case Cleared => None
  {
  }

  /** Every entry is the latest one written under its key. */
  ghost predicate Current<T>(data: map<string, Item<T>>, history: seq<Event<T>>) {
    forall k :: k in data ==> Latest(history, k) == Some(data[k])
  }

  lemma WroteCurrent<T>(data: map<string, Item<T>>, history: seq<Event<T>>, key: string, item: Item<T>)
    requires Current(data, history)
    ensures Current(data[key := item], history + [Wrote(key, item)])
  {
    forall k | k in data[key := item]
      ensures Latest(history + [Wrote(key, item)], k) == Some(data[key := item][k])
    {
      LatestSnoc(history, Wrote(key, item), k);
    }
  }

  lemma DeletedCurrent<T>(data: map<string, Item<T>>, history: seq<Event<T>>, key: string)
    requires Current(data, history)
    ensures Current(data - {key}, history + [Deleted(key)])
  {
    forall k | k in data - {key}
      ensures Latest(history + [Deleted(key)], k) == Some(data[k])
    {
      LatestSnoc(history, Deleted(key), k);
    }
  }

  function Max(a: int, b: int): int { if a >= b then a else b }

  /** How many entries one eviction removes: a fifth of the capacity, at least one. */
  function Threshold(maxItems: int): nat
    requires maxItems > 0
  {
    Max(maxItems / 5, 1)
  }

  /** Five times the threshold reaches the capacity but for a remainder below five, from a capacity of five on. */
  lemma ThresholdFits(maxItems: int)
    requires maxItems > 0
    ensures 0 < Threshold(maxItems) <= maxItems
    ensures maxItems >= 5 ==> maxItems - 5 < 5 * Threshold(maxItems) <= maxItems
    ensures maxItems < 5 ==> Threshold(maxItems) == 1
  {
  }

  /** `after` is `before` without `n` entries, none of which expires later than a survivor. */
  ghost predicate Evicts<T>(before: map<string, Item<T>>, after: map<string, Item<T>>, n: nat) {
    && after.Keys <= before.Keys
    && (forall k :: k in after ==> after[k] == before[k])
    && |before.Keys - after.Keys| == n
    && (forall r, k :: r in before.Keys - after.Keys && k in after ==> before[r].expiration <= before[k].expiration)
  }

  datatype Candidate<T> = Candidate(key: string, value: T, expiration: int)

  ghost function Keys<T>(cs: seq<Candidate<T>>): set<string> { set c | c in cs :: c.key }

  ghost predicate DistinctKeys<T>(cs: seq<Candidate<T>>) {
    forall i, j :: 0 <= i < j < |cs| ==> cs[i].key != cs[j].key
  }

  lemma {:induction false} KeysSize<T>(cs: seq<Candidate<T>>)
    requires DistinctKeys(cs)
    ensures |Keys(cs)| == |cs|
    decreases |cs|
  {
    if cs != [] {
      var n := |cs| - 1;
      KeysSize(cs[..n]);
      assert cs == cs[..n] + [cs[n]];
      assert Keys(cs) == Keys(cs[..n]) + {cs[n].key};
      assert cs[n].key !in Keys(cs[..n]);
    }
  }

  /** After visiting some keys: the candidates are among them, as many as allowed, and none expires after
      a visited key that is not a candidate. */
  ghost predicate Oldest<T>(data: map<string, Item<T>>, visited: set<string>, cs: seq<Candidate<T>>, threshold: nat) {
    && visited <= data.Keys
    && DistinctKeys(cs)
    && (forall i :: 0 <= i < |cs| ==>
          cs[i].key in visited && cs[i] == Candidate(cs[i].key, data[cs[i].key].value, data[cs[i].key].expiration))
    && |cs| == (if |visited| < threshold then |visited| else threshold)
    && (|cs| < threshold ==> Keys(cs) == visited)
    && (forall i, k :: 0 <= i < |cs| && k in visited && k !in Keys(cs) ==> cs[i].expiration <= data[k].expiration)
  }

  method NewestIndex<T>(cs: seq<Candidate<T>>) returns (newest: nat)
    requires cs != []
    ensures newest < |cs| && forall i :: 0 <= i < |cs| ==> cs[i].expiration <= cs[newest].expiration
  {
    newest := 0;
    for i := 1 to |cs|
      invariant newest < |cs| && forall j :: 0 <= j < i ==> cs[j].expiration <= cs[newest].expiration
    {
      if cs[i].expiration > cs[newest].expiration {
        newest := i;
      }
    }
  }

  function CandidateFor<T>(data: map<string, Item<T>>, key: string): Candidate<T>
    requires key in data
  {
    Candidate(key, data[key].value, data[key].expiration)
  }

  lemma KeysAt<T>(cs: seq<Candidate<T>>, i: nat)
    requires i < |cs|
    ensures cs[i].key in Keys(cs)
  {
  }

  lemma KeysReplaced<T>(cs: seq<Candidate<T>>, i: nat, c: Candidate<T>)
    requires DistinctKeys(cs) && i < |cs| && c.key !in Keys(cs)
    ensures Keys(cs[i := c]) == Keys(cs) - {cs[i].key} + {c.key}
    ensures DistinctKeys(cs[i := c])
  {
    var r := cs[i := c];
    forall j | 0 <= j < |cs|
      ensures cs[j].key in Keys(cs) && r[j].key in Keys(r)
    {
      KeysAt(cs, j);
      KeysAt(r, j);
    }
    forall k | k in Keys(r)
      ensures k in Keys(cs) - {cs[i].key} + {c.key}
    {
      var j :| 0 <= j < |r| && r[j].key == k;
    }
    forall k | k in Keys(cs) && k != cs[i].key
      ensures k in Keys(r)
    {
      var j :| 0 <= j < |cs| && cs[j].key == k;
      assert r[j].key == k;
    }
    assert r[i].key == c.key;
  }

  lemma JoinOldest<T>(data: map<string, Item<T>>, visited: set<string>, cs: seq<Candidate<T>>, threshold: nat,
                      key: string)
    requires Oldest(data, visited, cs, threshold) && |cs| < threshold && key in data && key !in visited
    ensures Oldest(data, visited + {key}, cs + [CandidateFor(data, key)], threshold)
  {
  }

  lemma ReplaceOldest<T>(data: map<string, Item<T>>, visited: set<string>, cs: seq<Candidate<T>>, threshold: nat,
                         key: string, newest: nat)
    requires Oldest(data, visited, cs, threshold) && |cs| == threshold && key in data && key !in visited
    requires newest < |cs| && forall i :: 0 <= i < |cs| ==> cs[i].expiration <= cs[newest].expiration
    ensures if data[key].expiration < cs[newest].expiration
            then Oldest(data, visited + {key}, cs[newest := CandidateFor(data, key)], threshold)
            else Oldest(data, visited + {key}, cs, threshold)
  {
    assert |visited + {key}| == |visited| + 1;
    forall k | k in Keys(cs)
      ensures k in visited
    {
      var j :| 0 <= j < |cs| && cs[j].key == k;
    }
    if data[key].expiration < cs[newest].expiration {
      KeysReplaced(cs, newest, CandidateFor(data, key));
    }
  }

  /** Considers one more key: joins while there is room, else replaces the newest candidate if it is older. */
  method Consider<T>(data: map<string, Item<T>>, ghost visited: set<string>, cs: seq<Candidate<T>>, threshold: nat,
                     key: string)
    returns (r: seq<Candidate<T>>)
    requires threshold > 0 && Oldest(data, visited, cs, threshold) && key in data && key !in visited
    ensures Oldest(data, visited + {key}, r, threshold)
  {
    if |cs| < threshold {
      JoinOldest(data, visited, cs, threshold, key);
      return cs + [CandidateFor(data, key)];
    }
    var newest := NewestIndex(cs);
    ReplaceOldest(data, visited, cs, threshold, key, newest);
    r := cs;
    if data[key].expiration < cs[newest].expiration {
      r := cs[newest := CandidateFor(data, key)];
    }
  }

  lemma NoneOldest<T>(data: map<string, Item<T>>, threshold: nat)
    ensures Oldest(data, {}, [], threshold)
  {
  }

  /** The keys still to visit, and those visited. */
  ghost predicate Splits(all: set<string>, keys: set<string>, visited: set<string>) {
    keys + visited == all && keys !! visited
  }

  lemma VisitOne(all: set<string>, keys: set<string>, visited: set<string>, k: string)
    requires Splits(all, keys, visited) && k in keys
    ensures Splits(all, keys - {k}, visited + {k}) && k in all && k !in visited
  {
  }

  /** Visits every key once, in an arbitrary order. */
  method SelectOldest<T>(data: map<string, Item<T>>, threshold: nat) returns (candidates: seq<Candidate<T>>)
    requires threshold > 0
    ensures Oldest(data, data.Keys, candidates, threshold)
  {
    candidates := [];
    var keys := data.Keys;
    ghost var visited := {};
    NoneOldest(data, threshold);
    while keys != {}
      invariant Splits(data.Keys, keys, visited)
      invariant Oldest(data, visited, candidates, threshold)
      decreases keys
    {
      var k :| k in keys;
      VisitOne(data.Keys, keys, visited, k);
      candidates := Consider(data, visited, candidates, threshold, k);
      keys, visited := keys - {k}, visited + {k};
    }
  }

  ghost predicate Without<T>(before: map<string, Item<T>>, after: map<string, Item<T>>, cs: seq<Candidate<T>>) {
    after.Keys == before.Keys - Keys(cs) && forall k :: k in after ==> after[k] == before[k]
  }

  /** Removing the final candidates is an eviction. */
  lemma OldestEvicts<T>(data: map<string, Item<T>>, after: map<string, Item<T>>, cs: seq<Candidate<T>>, threshold: nat)
    requires Oldest(data, data.Keys, cs, threshold) && |data| >= threshold
    requires Without(data, after, cs)
    ensures Keys(cs) <= data.Keys && |cs| == threshold && |after| == |data| - threshold
    ensures Evicts(data, after, threshold)
  {
    KeysSize(cs);
    CandidatesHeld(data, cs, threshold);
    SizeLeft(data.Keys, Keys(cs));
    assert data.Keys - after.Keys == Keys(cs);
    forall r, k | r in Keys(cs) && k in after
      ensures data[r].expiration <= data[k].expiration
    {
      var i :| 0 <= i < |cs| && cs[i].key == r;
    }
  }

  lemma SizeLeft(all: set<string>, gone: set<string>)
    requires gone <= all
    ensures |all - gone| == |all| - |gone|
  {
  }

  lemma CandidatesHeld<T>(data: map<string, Item<T>>, cs: seq<Candidate<T>>, threshold: nat)
    requires Oldest(data, data.Keys, cs, threshold)
    ensures Keys(cs) <= data.Keys
  {
  }

  class Cache<T> {
    const maxItems: int
    var data: map<string, Item<T>>
    var itemCount: int
    ghost var history: seq<Event<T>>

    constructor (maxItems: int)
      ensures Valid() && data == map[] && history == [] && this.maxItems == maxItems
    {
      this.maxItems := maxItems;
      data, itemCount, history := map[], 0, [];
    }

    /** The counter is exact, the capacity is respected, and every entry is the latest one written. */
    ghost predicate Valid()
      reads this
    {
      Counted() && (maxItems > 0 ==> |data| <= maxItems)
    }

    ghost predicate Counted()
      reads this
    {
      itemCount == |data| && Current(data, history)
    }

    method SetWithTTL(key: string, value: T, ttl: int, now: int)
      requires Valid()
      modifies this
      ensures Valid() && history == old(history) + [Wrote(key, Item(value, now + ttl))]
      ensures var full := old(data)[key := Item(value, now + ttl)];
        if maxItems > 0 && |full| > maxItems then Evicts(full, data, Threshold(maxItems)) else data == full
    {
      Store(key, Item(value, now + ttl));
      if maxItems > 0 && itemCount > maxItems {
        CleanupOldest();
      }
    }

    method Store(key: string, item: Item<T>)
      requires Counted()
      modifies this
      ensures Counted() && data == old(data)[key := item] && history == old(history) + [Wrote(key, item)]
    {
      ghost var full := data[key := item];
      if key in data {
        data := data - {key};
      } else {
        itemCount := itemCount + 1;
      }
      data := data[key := item];
      history := history + [Wrote(key, item)];
      assert data == full;
      assert full.Keys == old(data).Keys + {key};
      WroteCurrent(old(data), old(history), key, item);
    }

    /** A hit is the latest value written and not since deleted, and has not expired; an expired entry is dropped. */
    method Get(key: string, now: int) returns (r: Option<T>)
      requires Valid()
      modifies this
      ensures Valid() && history == old(history)
      ensures r.Some? ==> Latest(history, key).Some? && r.value == Latest(history, key).value.value
                          && now <= Latest(history, key).value.expiration
      ensures r.Some? <==> key in old(data) && now <= old(data)[key].expiration
      ensures data == if key in old(data) && now > old(data)[key].expiration then old(data) - {key} else old(data)
    {
      if key !in data {
        return None;
      }
      var item := data[key];
      if now > item.expiration {
        data := data - {key};
        itemCount := itemCount - 1;
        return None;
      }
      r := Some(item.value);
    }

    method Delete(key: string)
      requires Valid()
      modifies this
      ensures Valid() && history == old(history) + [Deleted(key)]
      ensures data == old(data) - {key}
    {
      history := history + [Deleted(key)];
      DeletedCurrent(data, old(history), key);
      assert key !in data ==> data == data - {key};
      if key in data {
        data := data - {key};
        itemCount := itemCount - 1;
      }
    }

    method Clear()
      requires Valid()
      modifies this
      ensures Valid() && history == old(history) + [Cleared] && data == map[]
    {
      var keys := data.Keys;
      while keys != {}
        invariant data.Keys == keys && history == old(history)
        decreases keys
      {
        var k :| k in keys;
        data := data - {k};
        keys := keys - {k};
      }
      itemCount := 0;
      history := history + [Cleared];
    }

    /** Drops exactly the expired entries. */
    method Cleanup(now: int)
      requires Valid()
      modifies this
      ensures Valid() && history == old(history)
      ensures data == map k | k in old(data) && now <= old(data)[k].expiration :: old(data)[k]
    {
      var count := 0;
      var keys := data.Keys;
      while keys != {}
        invariant keys <= data.Keys <= old(data).Keys && history == old(history) && itemCount == old(itemCount)
        invariant itemCount == |data| + count
        invariant forall k :: k in data ==> data[k] == old(data)[k]
        invariant forall k :: k in old(data) && k !in keys ==> (k in data <==> now <= old(data)[k].expiration)
        decreases keys
      {
        var k :| k in keys;
        if now > data[k].expiration {
          data := data - {k};
          count := count + 1;
        }
        keys := keys - {k};
      }
      if count > 0 {
        itemCount := itemCount - count;
      }
    }

    /** Removes the entries that expire first, in whatever order the map is visited. */
    method CleanupOldest()
      requires Counted() && maxItems > 0 && |data| > maxItems
      modifies this`data, this`itemCount
      ensures Counted() && Evicts(old(data), data, Threshold(maxItems))
    {
      ThresholdFits(maxItems);
      var removed := RemoveOldest(Threshold(maxItems));
      itemCount := itemCount - removed;
    }

    method RemoveOldest(threshold: nat) returns (removed: nat)
      requires 0 < threshold <= |data|
      modifies this`data
      ensures Evicts(old(data), data, threshold) && |data| == |old(data)| - removed
      ensures forall k :: k in data ==> k in old(data) && data[k] == old(data)[k]
    {
      var candidates := SelectOldest(data, threshold);
      RemoveCandidates(candidates);
      OldestEvicts(old(data), data, candidates, threshold);
      removed := |candidates|;
    }

    method RemoveCandidates(candidates: seq<Candidate<T>>)
      modifies this`data
      ensures Without(old(data), data, candidates)
    {
      for i := 0 to |candidates|
        invariant Without(old(data), data, candidates[..i])
      {
        assert candidates[..i + 1] == candidates[..i] + [candidates[i]];
        assert Keys(candidates[..i + 1]) == Keys(candidates[..i]) + {candidates[i].key};
        data := data - {candidates[i].key};
      }
      assert candidates[..|candidates|] == candidates;
    }
  }

  // Who survives an eviction.

  function Earlier<T>(data: map<string, Item<T>>, key: string): set<string>
    requires key in data
  {
    set k | k in data && data[k].expiration < data[key].expiration
  }

  function NoLater<T>(data: map<string, Item<T>>, key: string): set<string>
    requires key in data
  {
    set k | k in data && k != key && data[k].expiration <= data[key].expiration
  }

  /** An eviction of `n` leaves that many fewer entries, each as it was. */
  lemma SurvivorsKept<T>(before: map<string, Item<T>>, after: map<string, Item<T>>, n: nat)
    requires Evicts(before, after, n)
    ensures |after| == |before| - n
    ensures forall key :: key in after ==> key in before && after[key] == before[key]
  {
    assert before.Keys == after.Keys + (before.Keys - after.Keys);
  }

  /** Whatever the visiting order: an entry surely survives when enough others expire strictly earlier, and is surely
      evicted, even if just written, when too few others expire no later. */
  lemma EvictionOutcome<T>(before: map<string, Item<T>>, after: map<string, Item<T>>, n: nat, key: string)
    requires Evicts(before, after, n) && key in before
    ensures |Earlier(before, key)| >= n ==> key in after
    ensures |NoLater(before, key)| < n ==> key !in after
  {
    var removed := before.Keys - after.Keys;
    if key !in after {
      assert Earlier(before, key) + {key} <= removed;
      SubsetSize(Earlier(before, key) + {key}, removed);
    } else {
      assert removed <= NoLater(before, key);
      SubsetSize(removed, NoLater(before, key));
    }
  }
}
