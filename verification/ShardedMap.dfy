/** ShardedLockMap of include/util/concurrent_map.hpp: a fixed number of maps, each behind its own
    lock, where a key lives in the map its hash selects. Each single-key operation holds one lock
    and is atomic; size, for_each and clear take the locks one after another. */
module ShardedMap {

  import opened Wrappers

  type Shards<K(==), V> = seq<map<K, V>>

  // ---------------------------------------------------------------- one map out of many

  function ShardOf<K>(hash: K -> nat, key: K, count: nat): (i: nat)
    requires count > 0
    ensures i < count
  {
    hash(key) % count
  }

  /** Every key lives only in the shard of its hash. */
  ghost predicate Placed<K(!new), V>(shards: Shards<K, V>, hash: K -> nat) {
    |shards| > 0
    && forall i, k :: 0 <= i < |shards| && k in shards[i] ==> ShardOf(hash, k, |shards|) == i
  }

  ghost function Merged<K, V>(shards: Shards<K, V>): map<K, V> {
    if shards == [] then map[] else shards[0] + Merged(shards[1..])
  }

  ghost function TotalSize<K, V>(shards: Shards<K, V>): nat {
    if shards == [] then 0 else |shards[0]| + TotalSize(shards[1..])
  }

  ghost predicate Disjoint<K, V>(shards: Shards<K, V>) {
    forall i, j :: 0 <= i < j < |shards| ==> shards[i].Keys !! shards[j].Keys
  }

  lemma PlacedIsDisjoint<K(!new), V>(shards: Shards<K, V>, hash: K -> nat)
    requires Placed(shards, hash)
    ensures Disjoint(shards)
  {
    forall i, j | 0 <= i < j < |shards| ensures shards[i].Keys !! shards[j].Keys {
      forall k | k in shards[i] ensures k !in shards[j] {
        assert ShardOf(hash, k, |shards|) == i;
      }
    }
  }

  lemma {:induction false} MergedKeys<K, V>(shards: Shards<K, V>, k: K)
    ensures k in Merged(shards) <==> exists i :: 0 <= i < |shards| && k in shards[i]
  {
    if shards != [] {
      MergedKeys(shards[1..], k);
      if i :| 0 <= i < |shards| && k in shards[i] {
        if i > 0 { assert k in shards[1..][i - 1]; }
      }
      if k in Merged(shards[1..]) {
        var i :| 0 <= i < |shards[1..]| && k in shards[1..][i];
        assert k in shards[i + 1];
      }
    }
  }

  lemma {:induction false} MergedAt<K, V>(shards: Shards<K, V>, i: nat, k: K)
    requires Disjoint(shards) && i < |shards| && k in shards[i]
    ensures k in Merged(shards) && Merged(shards)[k] == shards[i][k]
    decreases |shards|
  {
    DisjointRest(shards);
    if i > 0 {
      MergedAt(shards[1..], i - 1, k);
    }
  }

  lemma DisjointRest<K, V>(shards: Shards<K, V>)
    requires Disjoint(shards) && shards != []
    ensures Disjoint(shards[1..])
    ensures shards[0].Keys !! Merged(shards[1..]).Keys
  {
    var rest := shards[1..];
    forall i, j | 0 <= i < j < |rest| ensures rest[i].Keys !! rest[j].Keys {
      assert shards[i + 1].Keys !! shards[j + 1].Keys;
    }
    forall k | k in shards[0] ensures k !in Merged(rest) {
      MergedKeys(rest, k);
      forall i | 0 <= i < |rest| ensures k !in rest[i] {
        assert shards[0].Keys !! shards[i + 1].Keys;
      }
    }
  }

  /** Looking a key up in its shard is looking it up in the one map. */
  lemma LookupInShard<K(!new), V>(shards: Shards<K, V>, hash: K -> nat, k: K)
    requires Placed(shards, hash)
    ensures var i := ShardOf(hash, k, |shards|);
      (k in Merged(shards) <==> k in shards[i]) && (k in shards[i] ==> Merged(shards)[k] == shards[i][k])
  {
    PlacedIsDisjoint(shards, hash);
    MergedKeys(shards, k);
    var i := ShardOf(hash, k, |shards|);
    if k in shards[i] { MergedAt(shards, i, k); }
  }

  /** Putting a value into the shard of its key is putting it into the one map. */
  lemma PutInShard<K(!new), V>(shards: Shards<K, V>, hash: K -> nat, key: K, value: V)
    requires Placed(shards, hash)
    ensures var i := ShardOf(hash, key, |shards|);
      var after := shards[i := shards[i][key := value]];
      Placed(after, hash) && Merged(after) == Merged(shards)[key := value]
  {
    var i := ShardOf(hash, key, |shards|);
    var after := shards[i := shards[i][key := value]];
    forall k ensures (k in Merged(after) <==> k in Merged(shards)[key := value])
      && (k in Merged(after) ==> Merged(after)[k] == Merged(shards)[key := value][k])
    {
      LookupInShard(shards, hash, k);
      LookupInShard(after, hash, k);
    }
  }

  lemma RemoveFromShard<K(!new), V>(shards: Shards<K, V>, hash: K -> nat, key: K)
    requires Placed(shards, hash)
    ensures var i := ShardOf(hash, key, |shards|);
      var after := shards[i := shards[i] - {key}];
      Placed(after, hash) && Merged(after) == Merged(shards) - {key}
  {
    var i := ShardOf(hash, key, |shards|);
    var after := shards[i := shards[i] - {key}];
    forall k ensures (k in Merged(after) <==> k in Merged(shards) - {key})
      && (k in Merged(after) ==> Merged(after)[k] == (Merged(shards) - {key})[k])
    {
      LookupInShard(shards, hash, k);
      LookupInShard(after, hash, k);
    }
  }

  /** The sizes of the shards add up to the size of the one map. */
  lemma {:induction false} SizesAddUp<K, V>(shards: Shards<K, V>)
    requires Disjoint(shards)
    ensures TotalSize(shards) == |Merged(shards)|
  {
    if shards != [] {
      DisjointRest(shards);
      SizesAddUp(shards[1..]);
      UnionSize(shards[0], Merged(shards[1..]));
    }
  }

  lemma UnionSize<K, V>(a: map<K, V>, b: map<K, V>)
    requires a.Keys !! b.Keys
    ensures |a + b| == |a| + |b|
  {
    assert (a + b).Keys == a.Keys + b.Keys;
    assert |a.Keys + b.Keys| == |a.Keys| + |b.Keys|;
  }

  lemma {:induction false} TotalSizeAppend<K, V>(shards: Shards<K, V>, shard: map<K, V>)
    ensures TotalSize(shards + [shard]) == TotalSize(shards) + |shard|
  {
    if shards == [] {
      assert ([] + [shard])[1..] == [];
    } else {
      TotalSizeAppend(shards[1..], shard);
      assert (shards + [shard])[1..] == shards[1..] + [shard];
    }
  }

  lemma {:induction false} MergedAppend<K, V>(shards: Shards<K, V>, shard: map<K, V>)
    ensures Merged(shards + [shard]) == Merged(shards) + shard
  {
    if shards == [] {
      assert ([] + [shard])[1..] == [];
      assert map[] + shard == shard && shard + map[] == shard;
    } else {
      MergedAppend(shards[1..], shard);
      assert (shards + [shard])[1..] == shards[1..] + [shard];
      assert shards[0] + (Merged(shards[1..]) + shard) == shards[0] + Merged(shards[1..]) + shard;
    }
  }

  // ---------------------------------------------------------------- visiting every entry

  function Entries<K, V>(m: map<K, V>, k: K): (K, V)
    requires k in m
  {
    (k, m[k])
  }

  /** Every entry of the map once, in some order. */
  ghost predicate VisitsOnce<K(!new), V>(visited: seq<(K, V)>, m: map<K, V>) {
    && (forall i :: 0 <= i < |visited| ==> visited[i].0 in m && visited[i] == Entries(m, visited[i].0))
    && (forall i, j :: 0 <= i < j < |visited| ==> visited[i].0 != visited[j].0)
    && (forall k :: k in m ==> exists i :: 0 <= i < |visited| && visited[i].0 == k)
  }

  lemma VisitsBoth<K(!new), V>(a: seq<(K, V)>, m: map<K, V>, b: seq<(K, V)>, n: map<K, V>)
    requires VisitsOnce(a, m) && VisitsOnce(b, n) && m.Keys !! n.Keys
    ensures VisitsOnce(a + b, m + n)
  {
    forall k | k in m + n ensures exists i :: 0 <= i < |a + b| && (a + b)[i].0 == k {
      if k in m {
        var i :| 0 <= i < |a| && a[i].0 == k;
        assert (a + b)[i].0 == k;
      } else {
        var i :| 0 <= i < |b| && b[i].0 == k;
        assert (a + b)[|a| + i].0 == k;
      }
    }
  }

  ghost function Changed<K, V>(m: map<K, V>, change: (K, V) -> V): map<K, V> {
    map k | k in m :: change(k, m[k])
  }

  lemma ChangedShards<K(!new), V>(was: Shards<K, V>, now: Shards<K, V>, hash: K -> nat, change: (K, V) -> V)
    requires Placed(was, hash) && |now| == |was|
    requires forall i :: 0 <= i < |was| ==> now[i] == Changed(was[i], change)
    ensures Placed(now, hash) && Merged(now) == Changed(Merged(was), change)
  {
    forall k ensures (k in Merged(now) <==> k in Changed(Merged(was), change))
      && (k in Merged(now) ==> Merged(now)[k] == Changed(Merged(was), change)[k])
    {
      LookupInShard(was, hash, k);
      LookupInShard(now, hash, k);
    }
  }

  /** The loop over one shard: every entry is passed on once and may be changed. */
  method VisitShard<K(!new, ==), V>(shard: map<K, V>, change: (K, V) -> V)
    returns (visited: seq<(K, V)>, changed: map<K, V>)
    ensures VisitsOnce(visited, shard) && changed == Changed(shard, change)
  {
    hide VisitsOnce;
    visited, changed := [], shard;
    var left := shard.Keys;
    ghost var done: map<K, V> := map[];
    NothingVisited<K, V>();
    while left != {}
      invariant left <= shard.Keys == changed.Keys && done.Keys == shard.Keys - left
      invariant forall k :: k in done ==> done[k] == shard[k]
      invariant forall k :: k in shard ==> changed[k] == if k in left then shard[k] else change(k, shard[k])
      invariant VisitsOnce(visited, done)
      decreases |left|
    {
      var key :| key in left;
      VisitsOneMore(visited, done, key, shard[key]);
      visited := visited + [(key, shard[key])];
      changed := changed[key := change(key, shard[key])];
      done := done[key := shard[key]];
      left := left - {key};
    }
    assert done == shard;
  }

  lemma NothingVisited<K(!new), V>()
    ensures VisitsOnce<K, V>([], map[])
  {
  }

  lemma VisitsOneMore<K(!new), V>(visited: seq<(K, V)>, m: map<K, V>, key: K, value: V)
    requires VisitsOnce(visited, m) && key !in m
    ensures VisitsOnce(visited + [(key, value)], m[key := value])
  {
    var one: map<K, V> := map[key := value];
    assert [(key, value)][0].0 == key && one[key] == value;
    assert VisitsOnce([(key, value)], one);
    VisitsBoth(visited, m, [(key, value)], one);
    assert m + one == m[key := value];
  }

  // ---------------------------------------------------------------- size beside other threads

  /** What happens to the shards while one thread runs size: other threads put and remove entries,
      and the thread counts one shard after another. */
  datatype Action<K, V> = Put(key: K, value: V) | Remove(key: K) | CountNext

  datatype Counting<K(==), V> = Counting(shards: Shards<K, V>, next: nat, total: nat)

  ghost function Act<K, V>(c: Counting<K, V>, hash: K -> nat, a: Action<K, V>): (r: Counting<K, V>)
    requires |c.shards| > 0
    ensures |r.shards| == |c.shards|
  {
    match a
    case Put(key, value) =>
      var i := ShardOf(hash, key, |c.shards|);
      c.(shards := c.shards[i := c.shards[i][key := value]])
    case Remove(key) =>
      var i := ShardOf(hash, key, |c.shards|);
      c.(shards := c.shards[i := c.shards[i] - {key}])
    case CountNext =>
      if c.next < |c.shards| then c.(next := c.next + 1, total := c.total + |c.shards[c.next]|) else c
  }

  ghost function ActAll<K, V>(c: Counting<K, V>, hash: K -> nat, actions: seq<Action<K, V>>): (r: Counting<K, V>)
    requires |c.shards| > 0
    ensures |r.shards| == |c.shards|
    decreases |actions|
  {
    if actions == [] then c else ActAll(Act(c, hash, actions[0]), hash, actions[1..])
  }

  /** Actions that change the size of the map. */
  predicate Adds<K, V>(c: Counting<K, V>, hash: K -> nat, a: Action<K, V>)
    requires |c.shards| > 0
  {
    a.Put? && a.key !in c.shards[ShardOf(hash, a.key, |c.shards|)]
  }

  predicate Drops<K, V>(c: Counting<K, V>, hash: K -> nat, a: Action<K, V>)
    requires |c.shards| > 0
  {
    a.Remove? && a.key in c.shards[ShardOf(hash, a.key, |c.shards|)]
  }

  /** The shard that an action changes is still to be counted. */
  predicate Ahead<K, V>(c: Counting<K, V>, hash: K -> nat, a: Action<K, V>)
    requires |c.shards| > 0 && !a.CountNext?
  {
    ShardOf(hash, a.key, |c.shards|) >= c.next
  }

  /** How many entries a run of actions adds, or adds ahead of the count. */
  ghost function Added<K, V>(c: Counting<K, V>, hash: K -> nat, actions: seq<Action<K, V>>, ahead: bool): nat
    requires |c.shards| > 0
    decreases |actions|
  {
    if actions == [] then 0
    else
      (if Adds(c, hash, actions[0]) && (ahead ==> Ahead(c, hash, actions[0])) then 1 else 0)
      + Added(Act(c, hash, actions[0]), hash, actions[1..], ahead)
  }

  /** How many entries it removes, or removes ahead of the count. */
  ghost function Dropped<K, V>(c: Counting<K, V>, hash: K -> nat, actions: seq<Action<K, V>>, ahead: bool): nat
    requires |c.shards| > 0
    decreases |actions|
  {
    if actions == [] then 0
    else
      (if Drops(c, hash, actions[0]) && (ahead ==> Ahead(c, hash, actions[0])) then 1 else 0)
      + Dropped(Act(c, hash, actions[0]), hash, actions[1..], ahead)
  }

  lemma {:induction false} TotalSizeUpdate<K, V>(shards: Shards<K, V>, i: nat, m: map<K, V>)
    requires i < |shards|
    ensures TotalSize(shards[i := m]) == TotalSize(shards) - |shards[i]| + |m|
    decreases |shards|
  {
    if i > 0 {
      TotalSizeUpdate(shards[1..], i - 1, m);
      assert shards[i := m][1..] == shards[1..][i - 1 := m];
    }
  }

  lemma PutOrRemoveSize<K, V>(m: map<K, V>, key: K, value: V)
    ensures |m[key := value]| == |m| + if key in m then 0 else 1
    ensures |m - {key}| == |m| - if key in m then 1 else 0
  {
    assert m[key := value].Keys == m.Keys + {key};
    assert (m - {key}).Keys == m.Keys - {key};
  }

  /** What has been counted and what is still ahead. */
  ghost function Expected<K, V>(c: Counting<K, V>): nat
    requires c.next <= |c.shards|
  {
    c.total + TotalSize(c.shards[c.next..])
  }

  /** One action changes the size of the whole, and what is to be expected of the count, by one
      entry or not at all. */
  lemma ActChangesSizes<K, V>(c: Counting<K, V>, hash: K -> nat, a: Action<K, V>)
    requires |c.shards| > 0 && c.next <= |c.shards|
    ensures var d := Act(c, hash, a);
      && d.next <= |d.shards|
      && TotalSize(d.shards) ==
         TotalSize(c.shards) + (if Adds(c, hash, a) then 1 else 0) - (if Drops(c, hash, a) then 1 else 0)
      && Expected(d) == Expected(c) + (if Adds(c, hash, a) && Ahead(c, hash, a) then 1 else 0)
                        - (if Drops(c, hash, a) && Ahead(c, hash, a) then 1 else 0)
  {
    hide TotalSize;
    match a
    case CountNext =>
      if c.next < |c.shards| { CountedOneMore(c.shards, c.next); }
    case Put(key, value) =>
      var i := ShardOf(hash, key, |c.shards|);
      PutOrRemoveSize(c.shards[i], key, value);
      OneShardChanges(c.shards, c.next, i, c.shards[i][key := value]);
    case Remove(key) =>
      var i := ShardOf(hash, key, |c.shards|);
      if key in c.shards[i] { PutOrRemoveSize(c.shards[i], key, c.shards[i][key]); }
      assert key !in c.shards[i] ==> c.shards[i] - {key} == c.shards[i];
      OneShardChanges(c.shards, c.next, i, c.shards[i] - {key});
  }

  lemma CountedOneMore<K, V>(shards: Shards<K, V>, next: nat)
    requires next < |shards|
    ensures TotalSize(shards[next..]) == |shards[next]| + TotalSize(shards[next + 1..])
  {
    assert shards[next..][1..] == shards[next + 1..];
  }

  lemma OneShardChanges<K, V>(shards: Shards<K, V>, next: nat, i: nat, m: map<K, V>)
    requires i < |shards| && next <= |shards|
    ensures TotalSize(shards[i := m]) == TotalSize(shards) - |shards[i]| + |m|
    ensures TotalSize(shards[i := m][next..]) ==
      TotalSize(shards[next..]) + if i >= next then |m| - |shards[i]| else 0
  {
    hide TotalSize;
    TotalSizeUpdate(shards, i, m);
    if i >= next {
      TotalSizeUpdate(shards[next..], i - next, m);
      assert shards[i := m][next..] == shards[next..][i - next := m];
    } else {
      assert shards[i := m][next..] == shards[next..];
    }
  }

  lemma {:induction false} RunChangesSizes<K, V>(c: Counting<K, V>, hash: K -> nat, actions: seq<Action<K, V>>)
    requires |c.shards| > 0 && c.next <= |c.shards|
    ensures var d := ActAll(c, hash, actions);
      && d.next <= |d.shards|
      && TotalSize(d.shards) ==
         TotalSize(c.shards) + Added(c, hash, actions, false) - Dropped(c, hash, actions, false)
      && Expected(d) == Expected(c) + Added(c, hash, actions, true) - Dropped(c, hash, actions, true)
    ensures Added(c, hash, actions, true) <= Added(c, hash, actions, false)
    ensures Dropped(c, hash, actions, true) <= Dropped(c, hash, actions, false)
    decreases |actions|
  {
    hide TotalSize, Act, Adds, Drops, Ahead, Expected;
    if actions != [] {
      ActChangesSizes(c, hash, actions[0]);
      RunChangesSizes(Act(c, hash, actions[0]), hash, actions[1..]);
    }
  }

  lemma {:induction false} StaysPlaced<K(!new), V>(c: Counting<K, V>, hash: K -> nat, actions: seq<Action<K, V>>)
    requires Placed(c.shards, hash)
    ensures Placed(ActAll(c, hash, actions).shards, hash)
    decreases |actions|
  {
    if actions != [] {
      StaysPlaced(Act(c, hash, actions[0]), hash, actions[1..]);
    }
  }

  /** Whatever other threads do meanwhile, size returns the size of the map when it started, plus the
      entries added, minus the entries removed, in shards that it had still to count. */
  lemma SizeIsExactly<K(!new), V>(start: Shards<K, V>, hash: K -> nat, actions: seq<Action<K, V>>)
    requires Placed(start, hash)
    requires ActAll(Counting(start, 0, 0), hash, actions).next == |start|
    ensures var begin := Counting(start, 0, 0);
      var end := ActAll(begin, hash, actions);
      && end.total == |Merged(start)| + Added(begin, hash, actions, true) - Dropped(begin, hash, actions, true)
      && |Merged(end.shards)| ==
         |Merged(start)| + Added(begin, hash, actions, false) - Dropped(begin, hash, actions, false)
  {
    hide ActAll, Act, Added, Dropped, Merged;
    var begin := Counting(start, 0, 0);
    var end := ActAll(begin, hash, actions);
    RunChangesSizes(begin, hash, actions);
    StaysPlaced(begin, hash, actions);
    PlacedIsDisjoint(start, hash);
    PlacedIsDisjoint(end.shards, hash);
    SizesAddUp(start);
    SizesAddUp(end.shards);
    assert start[0..] == start && end.shards[|start|..] == [];
  }

  /** So it is off the sizes at the start and at the end by no more than what was added or removed. */
  lemma SizeIsBounded<K(!new), V>(start: Shards<K, V>, hash: K -> nat, actions: seq<Action<K, V>>)
    requires Placed(start, hash)
    requires ActAll(Counting(start, 0, 0), hash, actions).next == |start|
    ensures var begin := Counting(start, 0, 0);
      var end := ActAll(begin, hash, actions);
      var added, dropped := Added(begin, hash, actions, false), Dropped(begin, hash, actions, false);
      && |Merged(start)| - dropped <= end.total <= |Merged(start)| + added
      && |Merged(end.shards)| - added <= end.total <= |Merged(end.shards)| + dropped
  {
    hide ActAll, Added, Dropped, Merged;
    SizeIsExactly(start, hash, actions);
    RunChangesSizes(Counting(start, 0, 0), hash, actions);
  }

  ghost predicate NoRemovals<K, V>(actions: seq<Action<K, V>>) {
    forall i :: 0 <= i < |actions| ==> !actions[i].Remove?
  }

  ghost predicate NoPuts<K, V>(actions: seq<Action<K, V>>) {
    forall i :: 0 <= i < |actions| ==> !actions[i].Put?
  }

  lemma {:induction false} NothingDropped<K, V>(c: Counting<K, V>, hash: K -> nat, actions: seq<Action<K, V>>)
    requires |c.shards| > 0 && NoRemovals(actions)
    ensures Dropped(c, hash, actions, false) == 0
    decreases |actions|
  {
    if actions != [] {
      NothingDropped(Act(c, hash, actions[0]), hash, actions[1..]);
    }
  }

  lemma {:induction false} NothingAdded<K, V>(c: Counting<K, V>, hash: K -> nat, actions: seq<Action<K, V>>)
    requires |c.shards| > 0 && NoPuts(actions)
    ensures Added(c, hash, actions, false) == 0
    decreases |actions|
  {
    if actions != [] {
      NothingAdded(Act(c, hash, actions[0]), hash, actions[1..]);
    }
  }

  /** While other threads only insert, or only remove, size returns something between the size of the
      map when it starts and the size when it ends, whatever the interleaving. */
  lemma SizeOneWay<K(!new), V>(start: Shards<K, V>, hash: K -> nat, actions: seq<Action<K, V>>)
    requires Placed(start, hash)
    requires ActAll(Counting(start, 0, 0), hash, actions).next == |start|
    ensures var end := ActAll(Counting(start, 0, 0), hash, actions);
      && (NoRemovals(actions) ==> |Merged(start)| <= end.total <= |Merged(end.shards)|)
      && (NoPuts(actions) ==> |Merged(end.shards)| <= end.total <= |Merged(start)|)
  {
    hide ActAll, Added, Dropped, Merged, NoPuts, NoRemovals;
    SizeIsBounded(start, hash, actions);
    if NoRemovals(actions) { NothingDropped(Counting(start, 0, 0), hash, actions); }
    if NoPuts(actions) { NothingAdded(Counting(start, 0, 0), hash, actions); }
  }

  /** With both it is not so: a map that always holds one or two entries is counted as empty. */
  lemma SizeUnderRemovals(hash: bool -> nat)
    requires hash(false) == 0 && hash(true) == 1
    ensures var start: Shards<bool, int> := [map[], map[true := 7]];
      var end := ActAll(Counting(start, 0, 0), hash, [CountNext, Put(false, 7), Remove(true), CountNext]);
      && Placed(start, hash) && |Merged(start)| == 1
      && Merged(end.shards) == map[false := 7] && end.next == 2 && end.total == 0
  {
    hide ActAll, Act, Merged;
    var start: Shards<bool, int> := [map[], map[true := 7]];
    FourActions(Counting(start, 0, 0), hash, CountNext, Put(false, 7), Remove(true), CountNext);
    RemovalSteps(hash);
    TwoMerged(start);
    TwoMerged<bool, int>([map[false := 7], map[]]);
    assert map[] + map[true := 7] == map[true := 7];
    assert map[false := 7] + map[] == map[false := 7];
  }

  lemma RemovalSteps(hash: bool -> nat)
    requires hash(false) == 0 && hash(true) == 1
    ensures var c: Counting<bool, int> := Counting([map[], map[true := 7]], 0, 0);
      Act(Act(Act(Act(c, hash, CountNext), hash, Put(false, 7)), hash, Remove(true)), hash, CountNext)
        == Counting([map[false := 7], map[]], 2, 0)
  {
    var c: Counting<bool, int> := Counting([map[], map[true := 7]], 0, 0);
    var c2 := Act(Act(c, hash, CountNext), hash, Put(false, 7));
    assert c2.shards == [map[false := 7], map[true := 7]];
    var c3 := Act(c2, hash, Remove(true));
    assert map[true := 7] - {true} == map[];
    assert c3.shards == [map[false := 7], map[]];
  }

  lemma FourActions<K, V>(c: Counting<K, V>, hash: K -> nat,
                          p: Action<K, V>, q: Action<K, V>, r: Action<K, V>, t: Action<K, V>)
    requires |c.shards| > 0
    ensures ActAll(c, hash, [p, q, r, t]) == Act(Act(Act(Act(c, hash, p), hash, q), hash, r), hash, t)
  {
    hide Act;
    assert [p, q, r, t][1..] == [q, r, t] && [q, r, t][1..] == [r, t] && [r, t][1..] == [t] && [t][1..] == [];
    var c3 := Act(Act(Act(c, hash, p), hash, q), hash, r);
    assert ActAll(c3, hash, [t]) == Act(c3, hash, t) by { NoActions(Act(c3, hash, t), hash); }
    assert ActAll(Act(Act(c, hash, p), hash, q), hash, [r, t]) == ActAll(c3, hash, [t]);
  }

  lemma NoActions<K, V>(c: Counting<K, V>, hash: K -> nat)
    requires |c.shards| > 0
    ensures ActAll(c, hash, []) == c
  {
  }

  lemma TwoMerged<K, V>(shards: Shards<K, V>)
    requires |shards| == 2
    ensures Merged(shards) == shards[0] + shards[1]
  {
    assert shards[1..] == [shards[1]] && [shards[1]][1..] == [];
    assert Merged(shards[1..]) == shards[1] + Merged<K, V>([]);
    assert shards[1] + map[] == shards[1];
  }

  // ---------------------------------------------------------------- the map object

  class ShardedLockMap<K(!new, ==), V> {
    const shards: array<map<K, V>>
    const hash: K -> nat
    const default: V

    ghost predicate Valid()
      reads shards
    {
      Placed(shards[..], hash)
    }

    /** The plain map that the shards stand for. */
    ghost function View(): map<K, V>
      reads shards
    {
      Merged(shards[..])
    }

    constructor (shardCount: nat, hash: K -> nat, default: V)
      requires shardCount > 0
      ensures Valid() && View() == map[] && fresh(shards)
      ensures shards.Length == shardCount && this.hash == hash && this.default == default
    {
      this.hash, this.default := hash, default;
      shards := new map<K, V>[shardCount](_ => map[]);
      new;
      forall k ensures k !in Merged(shards[..]) {
        MergedKeys(shards[..], k);
      }
    }

    function Index(key: K): (i: nat)
      requires shards.Length > 0
      ensures i < shards.Length
    {
      ShardOf(hash, key, shards.Length)
    }

    method Find(key: K) returns (r: Option<V>)
      requires Valid()
      ensures r == if key in View() then Some(View()[key]) else None
    {
      LookupInShard(shards[..], hash, key);
      var idx := Index(key);
      r := if key in shards[idx] then Some(shards[idx][key]) else None;
    }

    method Contains(key: K) returns (r: bool)
      requires Valid()
      ensures r <==> key in View()
    {
      LookupInShard(shards[..], hash, key);
      r := key in shards[Index(key)];
    }

    /** Returns the value of a key, after adding the default if there was none. */
    method Get(key: K) returns (r: V)
      requires Valid()
      modifies shards
      ensures Valid()
      ensures View() == if key in old(View()) then old(View()) else old(View())[key := default]
      ensures r == View()[key]
    {
      LookupInShard(shards[..], hash, key);
      var idx := Index(key);
      if key !in shards[idx] {
        Put(key, default);
        LookupInShard(shards[..], hash, key);
      }
      r := shards[idx][key];
    }

    method Put(key: K, value: V)
      requires Valid()
      modifies shards
      ensures Valid() && View() == old(View())[key := value]
    {
      ghost var was := shards[..];
      var idx := Index(key);
      PutInShard(was, hash, key, value);
      shards[idx] := shards[idx][key := value];
      assert shards[..] == was[idx := was[idx][key := value]];
    }

    method InsertOrAssign(key: K, value: V)
      requires Valid()
      modifies shards
      ensures Valid() && View() == old(View())[key := value]
    {
      Put(key, value);
    }

    /** Adds a value unless the key is there. */
    method Emplace(key: K, value: V) returns (inserted: bool)
      requires Valid()
      modifies shards
      ensures Valid() && (inserted <==> key !in old(View()))
      ensures View() == if inserted then old(View())[key := value] else old(View())
    {
      LookupInShard(shards[..], hash, key);
      if key in shards[Index(key)] {
        return false;
      }
      Put(key, value);
      inserted := true;
    }

    /** Returns the number of entries removed. */
    method Erase(key: K) returns (removed: nat)
      requires Valid()
      modifies shards
      ensures Valid() && View() == old(View()) - {key}
      ensures removed == if key in old(View()) then 1 else 0
    {
      ghost var was := shards[..];
      var idx := Index(key);
      LookupInShard(was, hash, key);
      RemoveFromShard(was, hash, key);
      removed := if key in shards[idx] then 1 else 0;
      shards[idx] := shards[idx] - {key};
      assert shards[..] == was[idx := was[idx] - {key}];
    }

    /** Applies a change to the value of a key, which is the default if the key is new. */
    method ExecOnKey(key: K, change: V -> V)
      requires Valid()
      modifies shards
      ensures Valid()
      ensures View() == old(View())[key := change(if key in old(View()) then old(View())[key] else default)]
    {
      var value := Get(key);
      Put(key, change(value));
    }

    method Clear()
      requires Valid()
      modifies shards
      ensures Valid() && View() == map[]
    {
      for i := 0 to shards.Length
        invariant forall j :: 0 <= j < i ==> shards[j] == map[]
      {
        shards[i] := map[];
      }
      forall k ensures k !in Merged(shards[..]) {
        MergedKeys(shards[..], k);
      }
    }

    method Size() returns (total: nat)
      requires Valid()
      ensures total == |View()|
    {
      total := 0;
      for i := 0 to shards.Length
        invariant total == TotalSize(shards[..i])
      {
        assert shards[..i + 1] == shards[..i] + [shards[i]];
        TotalSizeAppend(shards[..i], shards[i]);
        total := total + |shards[i]|;
      }
      assert shards[..shards.Length] == shards[..];
      PlacedIsDisjoint(shards[..], hash);
      SizesAddUp(shards[..]);
    }

    method Empty() returns (r: bool)
      requires Valid()
      ensures r <==> View() == map[]
    {
      for i := 0 to shards.Length
        invariant forall j :: 0 <= j < i ==> shards[j] == map[]
      {
        if shards[i] != map[] {
          var k :| k in shards[i];
          MergedKeys(shards[..], k);
          return false;
        }
      }
      forall k ensures k !in Merged(shards[..]) {
        MergedKeys(shards[..], k);
      }
      r := true;
    }

    /** Every entry of the map is passed on exactly once, and may be changed. */
    method ForEach(change: (K, V) -> V) returns (visited: seq<(K, V)>)
      requires Valid()
      modifies shards
      ensures Valid() && VisitsOnce(visited, old(View())) && |visited| == |old(View())|
      ensures View() == Changed(old(View()), change)
    {
      hide VisitsOnce, Merged, Changed, Placed, Disjoint, ShardOf;
      ghost var was := shards[..];
      PlacedIsDisjoint(was, hash);
      visited := [];
      NothingVisited<K, V>();
      NothingMerged(was[..0]);
      for i := 0 to shards.Length
        invariant forall j :: 0 <= j < shards.Length ==> shards[j] == if j < i then Changed(was[j], change) else was[j]
        invariant VisitsOnce(visited, Merged(was[..i])) && |visited| == |Merged(was[..i])|
      {
        var seen, changed := VisitShard(shards[i], change);
        OneShardMore(was, i, visited, seen);
        visited := visited + seen;
        shards[i] := changed;
      }
      assert was[..shards.Length] == was;
      ChangedShards(was, shards[..], hash, change);
    }
  }

  /** The entries of one shard more are visited. */
  lemma OneShardMore<K(!new), V>(shards: Shards<K, V>, i: nat, visited: seq<(K, V)>, seen: seq<(K, V)>)
    requires Disjoint(shards) && i < |shards|
    requires VisitsOnce(visited, Merged(shards[..i])) && |visited| == |Merged(shards[..i])|
    requires VisitsOnce(seen, shards[i])
    ensures VisitsOnce(visited + seen, Merged(shards[..i + 1])) && |visited + seen| == |Merged(shards[..i + 1])|
  {
    hide VisitsOnce, Merged;
    OncePerEntry(seen, shards[i]);
    EarlierShardsApart(shards, i);
    VisitsBoth(visited, Merged(shards[..i]), seen, shards[i]);
    MergedAppend(shards[..i], shards[i]);
    UnionSize(Merged(shards[..i]), shards[i]);
    assert shards[..i + 1] == shards[..i] + [shards[i]];
  }

  lemma NothingMerged<K, V>(shards: Shards<K, V>)
    requires shards == []
    ensures Merged(shards) == map[]
  {
  }

  lemma EarlierShardsApart<K, V>(shards: Shards<K, V>, i: nat)
    requires Disjoint(shards) && i < |shards|
    ensures Merged(shards[..i]).Keys !! shards[i].Keys
  {
    forall k | k in Merged(shards[..i]) ensures k !in shards[i] {
      MergedKeys(shards[..i], k);
      var j :| 0 <= j < i && k in shards[..i][j];
      assert shards[j].Keys !! shards[i].Keys;
    }
  }

  lemma {:induction false} OncePerEntry<K(!new), V>(visited: seq<(K, V)>, m: map<K, V>)
    requires VisitsOnce(visited, m)
    ensures |visited| == |m|
    decreases |visited|
  {
    if visited == [] {
      assert m.Keys == {};
    } else {
      var front, last := visited[..|visited| - 1], visited[|visited| - 1];
      forall k | k in m - {last.0} ensures exists i :: 0 <= i < |front| && front[i].0 == k {
        var i :| 0 <= i < |visited| && visited[i].0 == k;
        assert front[i].0 == k;
      }
      OncePerEntry(front, m - {last.0});
      assert (m - {last.0}).Keys == m.Keys - {last.0};
    }
  }
}
