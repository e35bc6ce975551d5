/** The heartbeat table of src/lifecyclemgr/lifecycle_mgr.cpp, a client of the sharded map. Whether
    ResourceMgr accepts a heartbeat and what the clock says are inputs; times are in seconds. */
module Heartbeats {

  import opened Wrappers
  import opened ShardedMap

  type Id = string

  const HEARTBEAT_SHARD_COUNT := 8
  const MAX_HEARTBEAT_VALID_TIME := 60

  datatype LifecycleState = Unknown | Inactive | Init | Standby | Running | Suspend | Terminated | Error

  predicate IsActive(s: LifecycleState) {
    s.Init? || s.Standby? || s.Running? || s.Suspend?
  }

  datatype Heartbeat = Heartbeat(id: Id, state: LifecycleState, protocol: string, port: nat)

  /** A client is made for a protocol and a port. */
  datatype Client = Client(protocol: string, port: nat)

  datatype Entry = Entry(heartbeat: Heartbeat, lastUpdate: int, lastConnect: Option<int>, client: Option<Client>)

  type Table = map<Id, Entry>

  const NO_ENTRY := Entry(Heartbeat("", Unknown, "", 0), 0, None, None)

  // ---------------------------------------------------------------- one event on the plain map

  /** An accepted heartbeat renews the entry; the client is made anew when there is none or the
      port has changed. */
  function Touched(e: Entry, hb: Heartbeat, now: int): Entry {
    Entry(hb, now, if hb.state.Running? then Some(now) else e.lastConnect,
          if e.client.None? || e.heartbeat.port != hb.port then Some(Client(hb.protocol, hb.port)) else e.client)
  }

  predicate Stale(e: Entry, now: int) {
    now - e.lastUpdate > MAX_HEARTBEAT_VALID_TIME
  }

  ghost function StaleIds(t: Table, now: int): set<Id> {
    set id | id in t && Stale(t[id], now)
  }

  datatype Event = Beat(heartbeat: Heartbeat, accepted: bool, now: int) | Exit(id: Id) | Sweep(now: int)

  ghost function Step(t: Table, ev: Event): Table {
    match ev
    case Beat(hb, accepted, now) =>
      if accepted then t[hb.id := Touched(if hb.id in t then t[hb.id] else NO_ENTRY, hb, now)] else t
    case Exit(id) => t - {id}
    case Sweep(now) => t - StaleIds(t, now)
  }

  /** An accepted heartbeat is what its entry then holds, with the time; a running instance has just
      connected, and a new client is made where there is none for the port. No other entry changes. */
  lemma BeatRenewsItsEntry(t: Table, hb: Heartbeat, now: int)
    ensures var u, known := Step(t, Beat(hb, true, now)), hb.id in t;
      && hb.id in u && u[hb.id].heartbeat == hb && u[hb.id].lastUpdate == now
      && u[hb.id].lastConnect ==
           (if hb.state == Running then Some(now) else if known then t[hb.id].lastConnect else None)
      && u[hb.id].client == (if known && t[hb.id].client.Some? && t[hb.id].heartbeat.port == hb.port
                             then t[hb.id].client else Some(Client(hb.protocol, hb.port)))
      && u - {hb.id} == t - {hb.id}
    ensures Step(t, Beat(hb, false, now)) == t
  {
  }

  // ---------------------------------------------------------------- every sequence of events

  /** A table after a sequence of events. */
  ghost function Through(t: Table, events: seq<Event>): Table {
    if events == [] then t else Step(Through(t, events[..|events| - 1]), events[|events| - 1])
  }

  ghost function Run(events: seq<Event>): Table {
    Through(map[], events)
  }

  predicate AcceptedBeat(ev: Event, id: Id) {
    ev.Beat? && ev.accepted && ev.heartbeat.id == id
  }

  /** Event `i` is the last accepted heartbeat of an instance; since then it has not exited, and no
      sweep came more than a minute after it. */
  ghost predicate LivesBy(events: seq<Event>, i: nat, id: Id) {
    && i < |events| && AcceptedBeat(events[i], id)
    && forall j :: i < j < |events| ==>
         !AcceptedBeat(events[j], id) && events[j] != Exit(id)
         && (events[j].Sweep? ==> events[j].now - events[i].now <= 60)
  }

  /** The entry that an instance has at the start is left alone: no heartbeat, no exit, and no
      sweep more than a minute after it. */
  ghost predicate Untouched(t: Table, events: seq<Event>, id: Id) {
    && id in t
    && forall j :: 0 <= j < |events| ==>
         !AcceptedBeat(events[j], id) && events[j] != Exit(id)
         && (events[j].Sweep? ==> events[j].now - t[id].lastUpdate <= 60)
  }

  /** What an event leaves of being there, if it is no accepted heartbeat of the instance. */
  ghost predicate Spares(ev: Event, lastUpdate: int, id: Id) {
    !AcceptedBeat(ev, id) && ev != Exit(id) && (ev.Sweep? ==> ev.now - lastUpdate <= 60)
  }

  lemma OneEventLonger(t: Table, before: seq<Event>, ev: Event, id: Id)
    ensures Untouched(t, before + [ev], id) <==> Untouched(t, before, id) && Spares(ev, t[id].lastUpdate, id)
    ensures forall i: nat | i < |before| ::
      LivesBy(before + [ev], i, id) <==> LivesBy(before, i, id) && Spares(ev, before[i].now, id)
    ensures LivesBy(before + [ev], |before|, id) <==> AcceptedBeat(ev, id)
  {
    var events, last := before + [ev], |before|;
    assert events[last] == ev && forall j :: 0 <= j < last ==> events[j] == before[j];
  }

  lemma {:induction false} WhoIsThere(t: Table, events: seq<Event>, id: Id)
    ensures id in Through(t, events) <==> Untouched(t, events, id) || exists i: nat :: LivesBy(events, i, id)
    ensures Untouched(t, events, id) ==> id in Through(t, events) && Through(t, events)[id] == t[id]
    ensures forall i: nat :: LivesBy(events, i, id) ==>
      && id in Through(t, events) && Through(t, events)[id].heartbeat == events[i].heartbeat
      && Through(t, events)[id].lastUpdate == events[i].now
  {
    if events != [] {
      hide LivesBy, Untouched;
      var before, ev := events[..|events| - 1], events[|events| - 1];
      WhoIsThere(t, before, id);
      assert events == before + [ev];
      OneEventLonger(t, before, ev, id);
      forall i: nat | LivesBy(events, i, id) ensures i < |before| || i == |before| { LivesByABeat(events, i, id); }
    }
  }

  /** An instance is in the table exactly while it lives by some accepted heartbeat, and then its
      entry is from that heartbeat. Orphans, whose heartbeats are not accepted, never get in. */
  lemma InTableIffAlive(events: seq<Event>, id: Id)
    ensures id in Run(events) <==> exists i: nat :: LivesBy(events, i, id)
    ensures forall i: nat :: LivesBy(events, i, id) ==>
      && id in Run(events) && Run(events)[id].heartbeat == events[i].heartbeat
      && Run(events)[id].lastUpdate == events[i].now
  {
    WhoIsThere(map[], events, id);
  }

  /** Every entry belongs to its key and has a client for the port of its last heartbeat. */
  ghost predicate ClientsFollow(t: Table) {
    forall id :: id in t ==>
      t[id].heartbeat.id == id && t[id].client.Some? && t[id].client.value.port == t[id].heartbeat.port
  }

  lemma {:induction false} ClientsAlwaysFollow(events: seq<Event>)
    ensures ClientsFollow(Run(events))
  {
    if events != [] {
      ClientsAlwaysFollow(events[..|events| - 1]);
    }
  }

  // ---------------------------------------------------------------- a sweep that is interrupted

  /** A sweep takes one shard lock after another to look for stale entries, and then one for each
      entry that it erases; everything else may happen in between. */
  datatype Piece = Other(event: Event) | Scans(shard: nat) | Erases(id: Id)

  ghost function TableAfter(t: Table, pieces: seq<Piece>): Table {
    if pieces == [] then t
    else
      var u := TableAfter(t, pieces[..|pieces| - 1]);
      match pieces[|pieces| - 1]
      case Other(ev) => Step(u, ev)
      case Scans(_) => u
      case Erases(id) => u - {id}
  }

  /** The same, but for a sweep that looks at each entry once more before it erases it. */
  ghost function CarefullyAfter(t: Table, pieces: seq<Piece>, now: int): Table {
    if pieces == [] then t
    else
      var u := CarefullyAfter(t, pieces[..|pieces| - 1], now);
      match pieces[|pieces| - 1]
      case Other(ev) => Step(u, ev)
      case Scans(_) => u
      case Erases(id) => if id in u && Stale(u[id], now) then u - {id} else u
  }

  ghost function EventsOf(pieces: seq<Piece>): seq<Event> {
    if pieces == [] then []
    else
      var before, last := EventsOf(pieces[..|pieces| - 1]), pieces[|pieces| - 1];
      if last.Other? then before + [last.event] else before
  }

  /** No accepted heartbeat is older than a time. */
  ghost predicate NoneBefore(pieces: seq<Piece>, now: int) {
    forall j :: 0 <= j < |pieces| && pieces[j].Other? && pieces[j].event.Beat? && pieces[j].event.accepted ==>
      pieces[j].event.now >= now
  }

  /** The scan of its shard finds an entry stale. */
  ghost predicate FoundAt(t: Table, pieces: seq<Piece>, scan: nat, id: Id, hash: Id -> nat, now: int) {
    && scan < |pieces| && pieces[scan] == Scans(ShardOf(hash, id, HEARTBEAT_SHARD_COUNT))
    && var u := TableAfter(t, pieces[..scan]); id in u && Stale(u[id], now)
  }

  /** The pieces of one sweep, in the order of the code: every shard is scanned, one after another,
      and then each entry found stale is erased, once. */
  ghost predicate SweepsInOrder(t: Table, pieces: seq<Piece>, hash: Id -> nat, now: int) {
    && (forall k :: 0 <= k < HEARTBEAT_SHARD_COUNT ==> exists i :: 0 <= i < |pieces| && pieces[i] == Scans(k))
    && (forall i, j :: 0 <= i < j < |pieces| && pieces[i].Scans? && pieces[j].Scans? ==>
          pieces[i].shard < pieces[j].shard)
    && (forall i, j :: 0 <= i < |pieces| && 0 <= j < |pieces| && pieces[i].Scans? && pieces[j].Erases? ==> i < j)
    && (forall i, j :: 0 <= i < j < |pieces| && pieces[i].Erases? ==> pieces[j] != pieces[i])
    && (forall id :: Erases(id) in pieces <==> exists scan: nat :: FoundAt(t, pieces, scan, id, hash, now))
  }

  lemma SameForOne(t: Table, u: Table, ev: Event, id: Id)
    requires (id in t <==> id in u) && (id in t ==> t[id] == u[id])
    ensures id in Step(t, ev) <==> id in Step(u, ev)
    ensures id in Step(t, ev) ==> Step(t, ev)[id] == Step(u, ev)[id]
  {
  }

  /** An entry that a sweep does not erase is decided by the other events alone. */
  lemma {:induction false} OthersDecide(t: Table, pieces: seq<Piece>, id: Id)
    requires Erases(id) !in pieces
    ensures id in TableAfter(t, pieces) <==> id in Through(t, EventsOf(pieces))
    ensures id in TableAfter(t, pieces) ==> TableAfter(t, pieces)[id] == Through(t, EventsOf(pieces))[id]
  {
    hide Step;
    if pieces != [] {
      var before, last := pieces[..|pieces| - 1], pieces[|pieces| - 1];
      OthersDecide(t, before, id);
      if last.Other? {
        assert EventsOf(pieces)[..|EventsOf(pieces)| - 1] == EventsOf(before);
        SameForOne(TableAfter(t, before), Through(t, EventsOf(before)), last.event, id);
      }
    }
  }

  lemma {:induction false} TableAfterBoth(t: Table, first: seq<Piece>, more: seq<Piece>)
    ensures TableAfter(t, first + more) == TableAfter(TableAfter(t, first), more)
    decreases |more|
  {
    hide Step;
    var all := first + more;
    if more == [] {
      assert all == first;
    } else {
      TableAfterBoth(t, first, more[..|more| - 1]);
      assert all[..|all| - 1] == first + more[..|more| - 1];
      assert all[|all| - 1] == more[|more| - 1];
    }
  }

  lemma {:induction false} EventsAreLate(pieces: seq<Piece>, now: int)
    requires NoneBefore(pieces, now)
    ensures forall j :: 0 <= j < |EventsOf(pieces)| && EventsOf(pieces)[j].Beat? && EventsOf(pieces)[j].accepted ==>
      EventsOf(pieces)[j].now >= now
  {
    if pieces != [] {
      EventsAreLate(pieces[..|pieces| - 1], now);
    }
  }

  /** The instance lives by some heartbeat among the events. */
  ghost predicate Renewed(events: seq<Event>, id: Id) {
    exists i: nat :: LivesBy(events, i, id)
  }

  /** An entry that is stale, after events that are not: it is there and fresh exactly if it lives by
      one of their heartbeats. */
  lemma FreshAgainWhen(t: Table, window: seq<Piece>, id: Id, now: int)
    requires id in t && Stale(t[id], now) && NoneBefore(window, now) && Erases(id) !in window
    ensures var u := TableAfter(t, window);
      id in u && !Stale(u[id], now) <==> Renewed(EventsOf(window), id)
  {
    hide LivesBy, Through, TableAfter, EventsOf, Untouched;
    OthersDecide(t, window, id);
    WhoIsThere(t, EventsOf(window), id);
    EventsAreLate(window, now);
    forall i: nat | LivesBy(EventsOf(window), i, id)
      ensures i < |EventsOf(window)| && EventsOf(window)[i].Beat? && EventsOf(window)[i].now >= now
    {
      LivesByABeat(EventsOf(window), i, id);
    }
  }

  lemma LivesByABeat(events: seq<Event>, i: nat, id: Id)
    requires LivesBy(events, i, id)
    ensures i < |events| && events[i].Beat? && events[i].accepted
  {
  }

  /** What happens between the scan that finds an entry and its erasure. */
  ghost function Window(pieces: seq<Piece>, scan: nat, erase: nat): seq<Event>
    requires scan < erase <= |pieces|
  {
    EventsOf(pieces[scan + 1..erase])
  }

  /** An erasure hits a fresh entry. */
  ghost predicate Loses(t: Table, pieces: seq<Piece>, erase: nat, now: int) {
    && erase < |pieces| && pieces[erase].Erases?
    && var u := TableAfter(t, pieces[..erase]);
       pieces[erase].id in u && !Stale(u[pieces[erase].id], now)
  }

  /** For each entry erased: it is lost although fresh if and only if, after the scan of its shard and
      before its own erasure, an accepted heartbeat has renewed it and nothing has undone that. */
  lemma ErasureLosesWhen(t: Table, pieces: seq<Piece>, hash: Id -> nat, now: int, id: Id, scan: nat, erase: nat)
    requires SweepsInOrder(t, pieces, hash, now) && NoneBefore(pieces, now)
    requires FoundAt(t, pieces, scan, id, hash, now) && erase < |pieces| && pieces[erase] == Erases(id)
    ensures scan < erase
    ensures Loses(t, pieces, erase, now) <==> Renewed(Window(pieces, scan, erase), id)
  {
    hide TableAfter, EventsOf, Renewed;
    var u, window := TableAfter(t, pieces[..scan]), pieces[scan + 1..erase];
    assert pieces[..scan + 1] + window == pieces[..erase];
    TableAfterBoth(t, pieces[..scan + 1], window);
    ScanChangesNothing(t, pieces, scan);
    assert forall j :: 0 <= j < |window| ==> window[j] == pieces[scan + 1 + j];
    assert Erases(id) !in window;
    FreshAgainWhen(u, window, id, now);
    var w := TableAfter(u, window);
    assert TableAfter(t, pieces[..erase]) == w;
    assert Loses(t, pieces, erase, now) <==> id in w && !Stale(w[id], now);
    assert Window(pieces, scan, erase) == EventsOf(window);
  }

  lemma ScanChangesNothing(t: Table, pieces: seq<Piece>, scan: nat)
    requires scan < |pieces| && pieces[scan].Scans?
    ensures TableAfter(t, pieces[..scan + 1]) == TableAfter(t, pieces[..scan])
  {
    assert pieces[..scan + 1][..scan] == pieces[..scan];
  }

  lemma {:induction false} CarefulWhen(t: Table, pieces: seq<Piece>, now: int, n: nat)
    requires n <= |pieces|
    ensures (forall m :: 0 <= m <= n ==> TableAfter(t, pieces[..m]) == CarefullyAfter(t, pieces[..m], now)) <==>
      forall erase: nat :: erase < n ==> !Loses(t, pieces, erase, now)
  {
    hide TableAfter, CarefullyAfter, Loses;
    if n == 0 {
      BothStart(t, pieces, now);
    } else {
      CarefulWhen(t, pieces, now, n - 1);
      if TableAfter(t, pieces[..n - 1]) == CarefullyAfter(t, pieces[..n - 1], now) {
        CarefulStep(t, pieces, now, n - 1);
      }
    }
  }

  lemma BothStart(t: Table, pieces: seq<Piece>, now: int)
    ensures TableAfter(t, pieces[..0]) == CarefullyAfter(t, pieces[..0], now)
  {
  }

  lemma CarefulStep(t: Table, pieces: seq<Piece>, now: int, n: nat)
    requires n < |pieces| && TableAfter(t, pieces[..n]) == CarefullyAfter(t, pieces[..n], now)
    ensures TableAfter(t, pieces[..n + 1]) == CarefullyAfter(t, pieces[..n + 1], now) <==>
      !Loses(t, pieces, n, now)
  {
    hide Step;
    assert pieces[..n + 1][..n] == pieces[..n];
    var u := TableAfter(t, pieces[..n]);
    if pieces[n].Erases? {
      var id := pieces[n].id;
      assert id !in u ==> u - {id} == u;
      assert id in u ==> id !in u - {id};
    }
  }

  /** No entry found stale is renewed for good before it is erased. */
  ghost predicate NothingRenewed(t: Table, pieces: seq<Piece>, hash: Id -> nat, now: int) {
    forall id, scan: nat, erase: nat ::
      FoundAt(t, pieces, scan, id, hash, now) && scan < erase < |pieces| && pieces[erase] == Erases(id) ==>
        !Renewed(Window(pieces, scan, erase), id)
  }

  /** A sweep may be interrupted anywhere: at every moment it has done what one would have done that
      looks again before it erases, if and only if no entry found stale was renewed for good between
      the scan of its shard and its own erasure. */
  lemma SweepIsExactWhen(t: Table, pieces: seq<Piece>, hash: Id -> nat, now: int)
    requires SweepsInOrder(t, pieces, hash, now) && NoneBefore(pieces, now)
    ensures (forall n :: 0 <= n <= |pieces| ==> TableAfter(t, pieces[..n]) == CarefullyAfter(t, pieces[..n], now)) <==>
      NothingRenewed(t, pieces, hash, now)
  {
    hide TableAfter, CarefullyAfter, Loses, Renewed, FoundAt, EventsOf, NoneBefore, SweepsInOrder;
    CarefulWhen(t, pieces, now, |pieces|);
    forall id, scan: nat, erase: nat
      | FoundAt(t, pieces, scan, id, hash, now) && erase < |pieces| && pieces[erase] == Erases(id)
      ensures scan < erase
      ensures Loses(t, pieces, erase, now) <==> Renewed(Window(pieces, scan, erase), id)
    {
      ErasureLosesWhen(t, pieces, hash, now, id, scan, erase);
    }
    forall erase: nat | Loses(t, pieces, erase, now) ensures !NothingRenewed(t, pieces, hash, now) {
      LosesAnErased(t, pieces, erase, now);
      var scan := WhereFound(t, pieces, hash, now, pieces[erase].id, erase);
      assert Renewed(Window(pieces, scan, erase), pieces[erase].id);
    }
  }

  lemma LosesAnErased(t: Table, pieces: seq<Piece>, erase: nat, now: int)
    requires Loses(t, pieces, erase, now)
    ensures erase < |pieces| && pieces[erase].Erases?
  {
  }

  lemma WhereFound(t: Table, pieces: seq<Piece>, hash: Id -> nat, now: int, id: Id, erase: nat) returns (scan: nat)
    requires SweepsInOrder(t, pieces, hash, now) && erase < |pieces| && pieces[erase] == Erases(id)
    ensures FoundAt(t, pieces, scan, id, hash, now)
  {
    assert Erases(id) in pieces;
    scan :| FoundAt(t, pieces, scan, id, hash, now);
  }

  lemma {:induction false} ScansOnly(t: Table, pieces: seq<Piece>)
    requires forall j :: 0 <= j < |pieces| ==> pieces[j].Scans?
    ensures TableAfter(t, pieces) == t
  {
    if pieces != [] { ScansOnly(t, pieces[..|pieces| - 1]); }
  }

  /** A sweep of which the first scan is followed by one other event. */
  function EventAfterFirstScan(ev: Event, id: Id): seq<Piece> {
    [Scans(0), Other(ev), Scans(1), Scans(2), Scans(3), Scans(4), Scans(5), Scans(6), Scans(7), Erases(id)]
  }

  lemma TablesOfThatSweep(t: Table, ev: Event, id: Id, n: nat)
    requires n <= 9
    ensures TableAfter(t, EventAfterFirstScan(ev, id)[..n]) == if n <= 1 then t else Step(t, ev)
  {
    hide Step;
    var pieces := EventAfterFirstScan(ev, id);
    assert pieces[0] == Scans(0) && forall i :: 2 <= i < 9 ==> pieces[i].Scans?;
    if n <= 1 {
      forall j | 0 <= j < n ensures pieces[..n][j].Scans? { assert pieces[..n][j] == pieces[j]; }
      ScansOnly(t, pieces[..n]);
    } else {
      assert pieces[..1] == [Scans(0)];
      ScansOnly(t, pieces[..1]);
      assert pieces[..2][..1] == pieces[..1];
      forall j | 0 <= j < n - 2 ensures pieces[2..n][j].Scans? { assert pieces[2..n][j] == pieces[j + 2]; }
      ScansOnly(Step(t, ev), pieces[2..n]);
      TableAfterBoth(t, pieces[..2], pieces[2..n]);
      assert pieces[..2] + pieces[2..n] == pieces[..n];
    }
  }

  /** The stale entry is the only one found, where its shard is scanned first. */
  lemma OnlyThatIsFound(t: Table, pieces: seq<Piece>, hash: Id -> nat, now: int, id: Id)
    requires t.Keys == {id} && Stale(t[id], now) && hash(id) == 0 && pieces != [] && pieces[0] == Scans(0)
    requires forall n :: 0 <= n < |pieces| && pieces[n].Scans? ==> TableAfter(t, pieces[..n]).Keys == {id}
    ensures FoundAt(t, pieces, 0, id, hash, now)
    ensures forall l, scan: nat :: FoundAt(t, pieces, scan, l, hash, now) ==> l == id
  {
    hide Stale;
    assert pieces[..0] == [];
  }

  lemma ScansInOrder(ev: Event, id: Id)
    ensures var pieces := EventAfterFirstScan(ev, id);
      && (forall k :: 0 <= k < HEARTBEAT_SHARD_COUNT ==> exists i :: 0 <= i < |pieces| && pieces[i] == Scans(k))
      && forall i :: 0 <= i < |pieces| && pieces[i].Scans? ==> pieces[i].shard == if i == 0 then 0 else i - 1
  {
    var pieces := EventAfterFirstScan(ev, id);
    forall k: nat | k < HEARTBEAT_SHARD_COUNT ensures exists i :: 0 <= i < |pieces| && pieces[i] == Scans(k) {
      assert pieces[if k == 0 then 0 else k + 1] == Scans(k);
    }
  }

  lemma ThatSweepInOrder(t: Table, ev: Event, hash: Id -> nat, now: int, id: Id)
    requires var pieces := EventAfterFirstScan(ev, id);
      && FoundAt(t, pieces, 0, id, hash, now)
      && forall l, scan: nat :: FoundAt(t, pieces, scan, l, hash, now) ==> l == id
    ensures SweepsInOrder(t, EventAfterFirstScan(ev, id), hash, now)
  {
    hide FoundAt;
    ScansInOrder(ev, id);
    assert EventAfterFirstScan(ev, id)[9] == Erases(id);
  }

  /** One heartbeat of a stale instance during the scan, after that of its own shard, is enough to
      lose it. */
  lemma RefreshDuringSweepIsLost(t: Table, hb: Heartbeat, hash: Id -> nat, now: int)
    requires t.Keys == {hb.id} && Stale(t[hb.id], now) && hash(hb.id) == 0
    ensures var pieces := EventAfterFirstScan(Beat(hb, true, now), hb.id);
      && SweepsInOrder(t, pieces, hash, now) && NoneBefore(pieces, now)
      && Loses(t, pieces, 9, now) && TableAfter(t, pieces) == map[]
  {
    hide TableAfter, FoundAt, SweepsInOrder;
    var ev := Beat(hb, true, now);
    var pieces := EventAfterFirstScan(ev, hb.id);
    forall n: nat | n <= 9 ensures TableAfter(t, pieces[..n]) == if n <= 1 then t else Step(t, ev) {
      TablesOfThatSweep(t, ev, hb.id, n);
    }
    OnlyThatIsFound(t, pieces, hash, now, hb.id);
    ThatSweepInOrder(t, ev, hash, now, hb.id);
    LastErases(t, pieces, hb.id);
    assert Step(t, ev) - {hb.id} == map[];
  }

  lemma LastErases(t: Table, pieces: seq<Piece>, id: Id)
    requires pieces != [] && pieces[|pieces| - 1] == Erases(id)
    ensures TableAfter(t, pieces) == TableAfter(t, pieces[..|pieces| - 1]) - {id}
  {
  }

  // ---------------------------------------------------------------- the code

  class LifecycleManager {
    const heartbeats: ShardedLockMap<Id, Entry>

    ghost predicate Valid()
      reads heartbeats.shards
    {
      heartbeats.Valid() && heartbeats.default == NO_ENTRY
    }

    ghost function View(): Table
      reads heartbeats.shards
    {
      heartbeats.View()
    }

    constructor (hash: Id -> nat)
      ensures Valid() && View() == map[]
    {
      heartbeats := new ShardedLockMap(HEARTBEAT_SHARD_COUNT, hash, NO_ENTRY);
    }

    method OnHeartbeat(hb: Heartbeat, accepted: bool, now: int) returns (ok: bool)
      requires Valid()
      modifies heartbeats.shards
      ensures Valid() && ok == accepted && View() == Step(old(View()), Beat(hb, accepted, now))
    {
      if !accepted {
        return false;
      }
      heartbeats.ExecOnKey(hb.id, e => Touched(e, hb, now));
      ok := true;
    }

    method OnAbilityExit(id: Id)
      requires Valid()
      modifies heartbeats.shards
      ensures Valid() && View() == Step(old(View()), Exit(id))
    {
      var removed := heartbeats.Erase(id);
    }

    method ContainsActive(id: Id) returns (r: bool)
      requires Valid()
      ensures r <==> id in View() && View()[id].heartbeat.state in [Init, Standby, Running, Suspend]
    {
      var entry := heartbeats.Find(id);
      if entry.None? {
        return false;
      }
      r := IsActive(entry.value.heartbeat.state);
    }

    method GetHeartbeat(id: Id) returns (r: Option<Heartbeat>)
      requires Valid()
      ensures r == if id in View() then Some(View()[id].heartbeat) else None
    {
      var entry := heartbeats.Find(id);
      r := if entry.Some? then Some(entry.value.heartbeat) else None;
    }

    /** Erases the entries that are more than a minute old and keeps exactly the others. */
    method ClearStaleHeartbeats(now: int)
      requires Valid()
      modifies heartbeats.shards
      ensures Valid() && View() == Step(old(View()), Sweep(now))
      ensures forall id :: id in View() <==>
                             id in old(View()) && now - old(View())[id].lastUpdate <= 60
    {
      hide VisitsOnce, Stale, Step, StaleIds, Changed, Merged, Placed, SetOf;
      ghost var was := View();
      var same := (id: Id, e: Entry) => e;
      var visited := heartbeats.ForEach(same);
      Unchanged(was, same);
      var staleIds := CollectStale(visited, now);
      VisitedStale(visited, was, now, staleIds);
      EraseAll(staleIds);
      SweepRemoves(was, now);
      FreshRemain(was, now);
    }

    /** The loop that erases the ids collected. */
    method EraseAll(ids: seq<Id>)
      requires Valid()
      modifies heartbeats.shards
      ensures Valid() && View() == old(View()) - SetOf(ids)
    {
      hide Merged, Placed;
      ghost var was := View();
      assert was - SetOf(ids[..0]) == was;
      for i := 0 to |ids|
        invariant Valid() && View() == was - SetOf(ids[..i])
      {
        var removed := heartbeats.Erase(ids[i]);
        SetOfMore(ids, i);
        assert was - SetOf(ids[..i]) - {ids[i]} == was - SetOf(ids[..i + 1]);
      }
      assert ids[..|ids|] == ids;
    }
  }

  /** The ids of the entries passed on by for_each that are stale. */
  method CollectStale(visited: seq<(Id, Entry)>, now: int) returns (staleIds: seq<Id>)
    ensures forall id :: id in staleIds <==>
      exists j :: 0 <= j < |visited| && visited[j].0 == id && Stale(visited[j].1, now)
  {
    staleIds := [];
    for i := 0 to |visited|
      invariant forall id :: id in staleIds <==>
                               exists j :: 0 <= j < i && visited[j].0 == id && Stale(visited[j].1, now)
    {
      if Stale(visited[i].1, now) {
        staleIds := staleIds + [visited[i].0];
      }
    }
  }

  lemma SweepRemoves(t: Table, now: int)
    ensures Step(t, Sweep(now)) == t - StaleIds(t, now)
  {
  }

  lemma Unchanged(t: Table, f: (Id, Entry) -> Entry)
    requires forall id, e :: f(id, e) == e
    ensures Changed(t, f) == t
  {
  }

  ghost function SetOf(ids: seq<Id>): set<Id> {
    set id | id in ids
  }

  lemma SetOfMore(ids: seq<Id>, i: nat)
    requires i < |ids|
    ensures SetOf(ids[..i + 1]) == SetOf(ids[..i]) + {ids[i]}
  {
    assert ids[..i + 1] == ids[..i] + [ids[i]];
  }

  lemma VisitedStale(visited: seq<(Id, Entry)>, t: Table, now: int, staleIds: seq<Id>)
    requires VisitsOnce(visited, t)
    requires forall id :: id in staleIds <==>
      exists j :: 0 <= j < |visited| && visited[j].0 == id && Stale(visited[j].1, now)
    ensures SetOf(staleIds) == StaleIds(t, now)
  {
    forall id ensures id in staleIds <==> id in t && Stale(t[id], now) {
      if id in t {
        var j :| 0 <= j < |visited| && visited[j].0 == id;
        assert visited[j] == Entries(t, id);
      }
    }
  }

  lemma FreshRemain(t: Table, now: int)
    ensures forall id :: id in t - StaleIds(t, now) <==> id in t && now - t[id].lastUpdate <= MAX_HEARTBEAT_VALID_TIME
  {
  }
}
