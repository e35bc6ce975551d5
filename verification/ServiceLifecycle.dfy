/** The restart and health-check machine of src/lifecyclemgr/service_lifecycle.cpp. Launching a
    process and probing a port are outside: whether a launch throws and whether a probe passes
    are inputs. The back-off delay is computed only to be logged and is not modelled. */
module ServiceLifecycle {

  import opened Wrappers

  type Id = string

  datatype ServiceState = Stopped | Starting | Running | Failed | Restarting

  datatype Probe = Probe(kind: string, path: string, port: int, failureThreshold: int)

  /** What the manager reads of a ServiceSpec; `liveness` is absent if there is no health check. */
  datatype Spec = Spec(restartPolicy: string, maxRestarts: int, liveness: Option<Probe>)

  datatype Entry = Entry(spec: Spec, state: ServiceState, restartCount: int, consecutiveHealthFailures: int)

  // ---------------------------------------------------------------- one event on one service

  predicate ShouldRestart(e: Entry, exitCode: int) {
    e.spec.restartPolicy != "never"
    && !(e.spec.restartPolicy == "on-failure" && exitCode == 0)
    && e.restartCount < e.spec.maxRestarts
  }

  predicate HttpProbe(p: Probe) {
    p.kind == "http" && p.port > 0 && p.path != ""
  }

  /** The service is probed by run_health_checks. */
  predicate Probed(e: Entry) {
    e.state.Running? && e.spec.liveness.Some? && HttpProbe(e.spec.liveness.value)
  }

  predicate Trips(e: Entry) {
    e.spec.liveness.Some? && e.consecutiveHealthFailures + 1 >= e.spec.liveness.value.failureThreshold
  }

  /** `launches` says whether the launch, if there is one, succeeds. */
  datatype Event =
    | Start(spec: Spec, launches: bool)
    | Stop
    | Exit(code: int, launches: bool)
    | HealthCheck(passes: bool, launches: bool)

  function Restarted(e: Entry, launches: bool): Entry {
    if launches then
      e.(restartCount := e.restartCount + 1, state := Running, consecutiveHealthFailures := 0)
    else
      e.(restartCount := e.restartCount + 1, state := Failed)
  }

  function RestartOrFail(e: Entry, exitCode: int, launches: bool): Entry {
    if ShouldRestart(e, exitCode) then Restarted(e, launches) else e.(state := Failed)
  }

  function Step(s: Option<Entry>, ev: Event): Option<Entry> {
    match ev
    case Start(spec, launches) => Some(Entry(spec, if launches then Running else Failed, 0, 0))
    case Stop => if s.None? then None else Some(s.value.(state := Stopped))
    case Exit(code, launches) =>
      if s.None? || s.value.state.Stopped? then s
      else Some(RestartOrFail(s.value, code, launches))
    case HealthCheck(passes, launches) =>
      if s.None? || !Probed(s.value) then s
      else if passes then Some(s.value.(consecutiveHealthFailures := 0))
      else if Trips(s.value) then
        Some(RestartOrFail(s.value.(consecutiveHealthFailures := 0), 1, launches))
      else
        Some(s.value.(consecutiveHealthFailures := s.value.consecutiveHealthFailures + 1))
  }

  /** Whether start_process_fn is called. */
  predicate Launches(s: Option<Entry>, ev: Event) {
    match ev
    case Start(_, _) => true
    case Stop => false
    case Exit(code, _) => s.Some? && !s.value.state.Stopped? && ShouldRestart(s.value, code)
    case HealthCheck(passes, _) =>
      s.Some? && Probed(s.value) && !passes && Trips(s.value) && ShouldRestart(s.value, 1)
  }

  // ---------------------------------------------------------------- every sequence of events

  function Run(events: seq<Event>): Option<Entry> {
    if events == [] then None
    else Step(Run(events[..|events| - 1]), events[|events| - 1])
  }

  /** Launch attempts since the last start_service. */
  function LaunchesSinceStart(events: seq<Event>): nat {
    if events == [] then 0
    else
      var before, ev := events[..|events| - 1], events[|events| - 1];
      if ev.Start? then 1
      else LaunchesSinceStart(before) + if Launches(Run(before), ev) then 1 else 0
  }

  function Max(a: int, b: int): int { if a < b then b else a }

  /** Launch attempts are one more than the restart count and never exceed the limit; with policy
      "never" there is exactly one. Between calls a service is running, failed or stopped. */
  lemma {:induction false} LaunchesAreCounted(events: seq<Event>)
    requires Run(events).Some?
    ensures var e := Run(events).value;
      && LaunchesSinceStart(events) == 1 + e.restartCount
      && 1 <= LaunchesSinceStart(events) <= 1 + Max(0, e.spec.maxRestarts)
      && (e.spec.restartPolicy == "never" ==> LaunchesSinceStart(events) == 1)
      && (e.state.Running? || e.state.Failed? || e.state.Stopped?)
  {
    var before, ev := events[..|events| - 1], events[|events| - 1];
    if Run(before).Some? && !ev.Start? {
      LaunchesAreCounted(before);
    }
  }

  function LaunchesOn(events: seq<Event>, more: seq<Event>): nat {
    if more == [] then 0
    else
      LaunchesOn(events, more[..|more| - 1])
      + if Launches(Run(events + more[..|more| - 1]), more[|more| - 1]) then 1 else 0
  }

  ghost predicate NoStart(events: seq<Event>) {
    forall i :: 0 <= i < |events| ==> !events[i].Start?
  }

  lemma {:induction false} LaunchesAddUp(events: seq<Event>, more: seq<Event>)
    requires NoStart(more)
    ensures LaunchesSinceStart(events + more) == LaunchesSinceStart(events) + LaunchesOn(events, more)
    ensures Run(events).Some? ==> Run(events + more).Some? && Run(events + more).value.spec == Run(events).value.spec
    ensures Run(events).None? ==> Run(events + more).None?
    decreases |more|
  {
    if more == [] {
      assert events + more == events;
    } else {
      var front := more[..|more| - 1];
      LaunchesAddUp(events, front);
      assert (events + more)[..|events + more| - 1] == events + front;
    }
  }

  /** However many exits and failed health checks follow, without another start_service there are
      at most as many launches as the restart limit, and none for an unknown service. */
  lemma ExitsCauseFinitelyManyLaunches(events: seq<Event>, more: seq<Event>)
    requires NoStart(more)
    ensures Run(events).None? ==> LaunchesOn(events, more) == 0
    ensures Run(events).Some? ==> LaunchesOn(events, more) <= Max(0, Run(events).value.spec.maxRestarts)
  {
    LaunchesAddUp(events, more);
    if Run(events).Some? {
      LaunchesAreCounted(events);
      LaunchesAreCounted(events + more);
    } else {
      UnknownNeverLaunches(events, more);
    }
  }

  lemma {:induction false} UnknownNeverLaunches(events: seq<Event>, more: seq<Event>)
    requires NoStart(more) && Run(events).None?
    ensures LaunchesOn(events, more) == 0
    decreases |more|
  {
    if more != [] {
      UnknownNeverLaunches(events, more[..|more| - 1]);
      LaunchesAddUp(events, more[..|more| - 1]);
    }
  }

  lemma RunOnce(events: seq<Event>, ev: Event)
    ensures Run(events + [ev]) == Step(Run(events), ev)
  {
    assert (events + [ev])[..|events|] == events;
  }

  /** start_service begins afresh, whatever was before: the service runs if its launch succeeded and
      is failed if not. */
  lemma StartBeginsAfresh(events: seq<Event>, spec: Spec, launches: bool)
    ensures var r := Run(events + [Start(spec, launches)]);
      && r.Some? && r.value.spec == spec
      && (r.value.state.Running? <==> launches) && (r.value.state.Failed? <==> !launches)
      && r.value.restartCount == 0 && r.value.consecutiveHealthFailures == 0
      && Launches(Run(events), Start(spec, launches))
  {
    RunOnce(events, Start(spec, launches));
  }

  /** stop_service marks a known service and changes nothing else. */
  lemma StopOnlyMarks(events: seq<Event>)
    ensures Run(events).None? ==> Run(events + [Stop]).None?
    ensures Run(events).Some? ==> Run(events + [Stop]) == Some(Run(events).value.(state := Stopped))
    ensures !Launches(Run(events), Stop)
  {
    RunOnce(events, Stop);
  }

  /** After stop_service nothing but start_service changes the state or launches anything. */
  lemma {:induction false} StoppedStaysStopped(events: seq<Event>, more: seq<Event>)
    requires NoStart(more)
    requires Run(events).Some?
    ensures var stopped := events + [Stop];
      && Run(stopped).Some?
      && Run(stopped + more) == Run(stopped)
      && Run(stopped).value.state.Stopped?
      && LaunchesOn(stopped, more) == 0
    decreases |more|
  {
    var stopped := events + [Stop];
    assert stopped[..|stopped| - 1] == events;
    if more == [] {
      assert stopped + more == stopped;
    } else {
      var front := more[..|more| - 1];
      StoppedStaysStopped(events, front);
      assert (stopped + more)[..|stopped + more| - 1] == stopped + front;
    }
  }

  /** An exit of a service that is not stopped launches it again exactly when its policy asks for
      it, "on-failure" for a non-zero code only, and the limit is not reached; the service then runs
      if the launch succeeded and is failed in every other case. Only a successful launch clears the
      count of failed probes. */
  lemma ExitsRestartByPolicy(events: seq<Event>, code: int, launches: bool)
    requires Run(events).Some? && !Run(events).value.state.Stopped?
    ensures var e, again := Run(events).value, Launches(Run(events), Exit(code, launches));
      && (again <==>
            e.spec.restartPolicy != "never"
            && (e.spec.restartPolicy == "on-failure" ==> code != 0)
            && LaunchesSinceStart(events) < 1 + e.spec.maxRestarts)
      && Run(events + [Exit(code, launches)]) == Some(Entry(
           e.spec, if again && launches then Running else Failed, if again then e.restartCount + 1 else e.restartCount,
           if again && launches then 0 else e.consecutiveHealthFailures))
  {
    LaunchesAreCounted(events);
    RunOnce(events, Exit(code, launches));
  }

  // ---------------------------------------------------------------- the failure counter

  /** What can be seen from outside while the events of one service are handled. */
  datatype Sight = ProbePassed | ProbeFailed | LaunchSucceeded | ThresholdTripped

  function SeenIn(s: Option<Entry>, ev: Event): seq<Sight> {
    (if ev.HealthCheck? && s.Some? && Probed(s.value) then
       if ev.passes then [ProbePassed]
       else if Trips(s.value) then [ProbeFailed, ThresholdTripped]
       else [ProbeFailed]
     else [])
    + (if Launches(s, ev) && ev.launches then [LaunchSucceeded] else [])
  }

  /** Everything seen since the last start_service. */
  function Seen(events: seq<Event>): seq<Sight> {
    if events == [] then []
    else
      var before, ev := events[..|events| - 1], events[|events| - 1];
      (if ev.Start? then [] else Seen(before)) + SeenIn(Run(before), ev)
  }

  /** Failing probes since the last passing probe, successful launch or threshold trip. */
  function FailuresInARow(sights: seq<Sight>): nat {
    if sights == [] || !sights[|sights| - 1].ProbeFailed? then 0
    else 1 + FailuresInARow(sights[..|sights| - 1])
  }

  lemma RowAfter(sights: seq<Sight>, more: seq<Sight>)
    ensures more == [] ==> FailuresInARow(sights + more) == FailuresInARow(sights)
    ensures more == [ProbeFailed] ==> FailuresInARow(sights + more) == FailuresInARow(sights) + 1
    ensures more != [] && !more[|more| - 1].ProbeFailed? ==> FailuresInARow(sights + more) == 0
  {
    if more == [] {
      assert sights + more == sights;
    } else {
      assert (sights + more)[|sights + more| - 1] == more[|more| - 1];
      if more == [ProbeFailed] {
        assert (sights + more)[..|sights|] == sights;
      }
    }
  }

  lemma CounterStep(e: Entry, ev: Event, sights: seq<Sight>)
    requires !ev.Start? && e.consecutiveHealthFailures == FailuresInARow(sights)
    ensures Step(Some(e), ev).Some?
    ensures Step(Some(e), ev).value.consecutiveHealthFailures == FailuresInARow(sights + SeenIn(Some(e), ev))
  {
    hide FailuresInARow;
    RowAfter(sights, SeenIn(Some(e), ev));
  }

  /** The counter is the number of failing probes in a row, and stays below a threshold of at
      least one. */
  lemma {:induction false} CounterCountsFailures(events: seq<Event>)
    requires Run(events).Some?
    ensures var e := Run(events).value;
      && e.consecutiveHealthFailures == FailuresInARow(Seen(events))
      && (e.spec.liveness.Some? && e.spec.liveness.value.failureThreshold >= 1 ==>
            e.consecutiveHealthFailures < e.spec.liveness.value.failureThreshold)
  {
    hide FailuresInARow, SeenIn;
    var before, ev := events[..|events| - 1], events[|events| - 1];
    var s := Run(before);
    if ev.Start? {
      StartSeesAtMostItsLaunch(s, ev);
    } else {
      CounterCountsFailures(before);
      CounterStep(s.value, ev, Seen(before));
    }
  }

  lemma StartSeesAtMostItsLaunch(s: Option<Entry>, ev: Event)
    requires ev.Start?
    ensures FailuresInARow([] + SeenIn(s, ev)) == 0
  {
    assert [] + SeenIn(s, ev) == SeenIn(s, ev);
  }

  /** A health check leaves a service alone unless it runs and has an "http" probe with a port and a
      path. A passing probe clears the count. A failing one that is not yet the last of
      `failureThreshold` in a row is counted; the last one clears the count and launches the service
      again, if its policy is not "never" and it is not at its limit, or fails it. */
  lemma RepeatedFailuresLaunch(events: seq<Event>, passes: bool, launches: bool)
    requires Run(events).Some?
    ensures var e := Run(events).value;
      var probed := && e.state == Running && e.spec.liveness.Some? && e.spec.liveness.value.kind == "http"
                    && e.spec.liveness.value.port > 0 && e.spec.liveness.value.path != "";
      var full := probed && !passes && FailuresInARow(Seen(events)) + 1 >= e.spec.liveness.value.failureThreshold;
      var again := full && e.spec.restartPolicy != "never" && LaunchesSinceStart(events) < 1 + e.spec.maxRestarts;
      && (Launches(Run(events), HealthCheck(passes, launches)) <==> again)
      && Run(events + [HealthCheck(passes, launches)]) == Some(Entry(
           e.spec, if full && !(again && launches) then Failed else e.state,
           if again then e.restartCount + 1 else e.restartCount,
           if !probed then e.consecutiveHealthFailures
           else if passes || full then 0 else e.consecutiveHealthFailures + 1))
  {
    hide Run, Step, Launches, FailuresInARow, Seen, LaunchesSinceStart;
    CounterCountsFailures(events);
    LaunchesAreCounted(events);
    RunOnce(events, HealthCheck(passes, launches));
    OneHealthCheck(Run(events).value, passes, launches);
  }

  lemma OneHealthCheck(e: Entry, passes: bool, launches: bool)
    ensures var probed := && e.state == Running && e.spec.liveness.Some? && e.spec.liveness.value.kind == "http"
                          && e.spec.liveness.value.port > 0 && e.spec.liveness.value.path != "";
      var full := probed && !passes && e.consecutiveHealthFailures + 1 >= e.spec.liveness.value.failureThreshold;
      var again := full && e.spec.restartPolicy != "never" && e.restartCount < e.spec.maxRestarts;
      && (Launches(Some(e), HealthCheck(passes, launches)) <==> again)
      && Step(Some(e), HealthCheck(passes, launches)) == Some(Entry(
           e.spec, if full && !(again && launches) then Failed else e.state,
           if again then e.restartCount + 1 else e.restartCount,
           if !probed then e.consecutiveHealthFailures
           else if passes || full then 0 else e.consecutiveHealthFailures + 1))
  {
  }

  // ---------------------------------------------------------------- the manager

  function Lookup<K, V>(m: map<K, V>, key: K): Option<V> {
    if key in m then Some(m[key]) else None
  }

  /** Only the entry of one service has changed, to `entry`. */
  ghost predicate Replaces(was: map<Id, Entry>, now: map<Id, Entry>, id: Id, entry: Option<Entry>) {
    forall k :: Lookup(now, k) == if k == id then entry else Lookup(was, k)
  }

  function Checked(s: Option<Entry>, passes: bool, launches: bool): Option<Entry> {
    Step(s, HealthCheck(passes, launches))
  }

  function LaunchCount(s: Option<Entry>, passes: bool, launches: bool): nat {
    if Launches(s, HealthCheck(passes, launches)) then 1 else 0
  }

  /** The services in `left` are still to be checked; `launched` are those launched so far. */
  ghost predicate HalfChecked(was: map<Id, Entry>, now: map<Id, Entry>, left: set<Id>, launched: seq<Id>,
                              passes: Id -> bool, launches: Id -> bool) {
    && (forall k ::
          Lookup(now, k) == if k in left then Lookup(was, k) else Checked(Lookup(was, k), passes(k), launches(k)))
    && (forall k ::
          multiset(launched)[k] == if k in left then 0 else LaunchCount(Lookup(was, k), passes(k), launches(k)))
  }

  lemma NothingChecked(was: map<Id, Entry>, passes: Id -> bool, launches: Id -> bool)
    ensures HalfChecked(was, was, was.Keys, [], passes, launches)
  {
    forall k | k !in was ensures Checked(None, passes(k), launches(k)) == None { }
  }

  lemma OneChecked(was: map<Id, Entry>, now: map<Id, Entry>, left: set<Id>, launched: seq<Id>,
                   passes: Id -> bool, launches: Id -> bool, id: Id)
    requires HalfChecked(was, now, left, launched, passes, launches) && id in left && id in now
    ensures Checked(Some(now[id]), passes(id), launches(id)).Some?
    ensures HalfChecked(was, now[id := Checked(Some(now[id]), passes(id), launches(id)).value], left - {id},
                        launched + if Launches(Some(now[id]), HealthCheck(passes(id), launches(id))) then [id] else [],
                        passes, launches)
  {
    hide Launches;
    assert Checked(Some(now[id]), passes(id), launches(id)).Some?;
    assert Lookup(now, id) == Lookup(was, id);
    assert multiset(launched)[id] == 0;
  }

  lemma AllChecked(was: map<Id, Entry>, now: map<Id, Entry>, launched: seq<Id>,
                   passes: Id -> bool, launches: Id -> bool)
    requires HalfChecked(was, now, {}, launched, passes, launches)
    ensures forall k :: Lookup(now, k) == Checked(Lookup(was, k), passes(k), launches(k))
    ensures forall k :: multiset(launched)[k] == LaunchCount(Lookup(was, k), passes(k), launches(k))
    ensures now.Keys == was.Keys
  {
    forall k ensures k in now <==> k in was {
      assert Lookup(now, k) == Checked(Lookup(was, k), passes(k), launches(k));
    }
  }

  /** `calls` is the history of calls of start_process_fn. */
  class ServiceLifecycleManager {
    var services: map<Id, Entry>
    ghost var calls: seq<Id>

    constructor ()
      ensures services == map[] && calls == []
    {
      services, calls := map[], [];
    }

    method StartProcess(id: Id)
      modifies this`calls
      ensures calls == old(calls) + [id]
    {
      calls := calls + [id];
    }

    method StartService(id: Id, spec: Spec, launches: bool)
      modifies this
      ensures services == old(services)[id := Step(Lookup(old(services), id), Start(spec, launches)).value]
      ensures services[id] == Entry(spec, if launches then Running else Failed, 0, 0)
      ensures calls == old(calls) + [id]
    {
      var entry := Entry(spec, Starting, 0, 0);
      StartProcess(id);
      if launches {
        entry := entry.(state := Running);
      } else {
        entry := entry.(state := Failed);
      }
      services := services[id := entry];
    }

    method StopService(id: Id)
      modifies this`services
      ensures Replaces(old(services), services, id, Step(Lookup(old(services), id), Stop))
    {
      if id !in services {
        return;
      }
      services := services[id := services[id].(state := Stopped)];
    }

    method OnServiceExit(id: Id, exitCode: int, launches: bool)
      modifies this
      ensures Replaces(old(services), services, id, Step(Lookup(old(services), id), Exit(exitCode, launches)))
      ensures calls == old(calls) + if Launches(Lookup(old(services), id), Exit(exitCode, launches)) then [id] else []
    {
      if id !in services {
        return;
      }
      if services[id].state == Stopped {
        return;
      }
      if ShouldRestart(services[id], exitCode) {
        DoRestart(id, launches);
      } else {
        services := services[id := services[id].(state := Failed)];
      }
    }

    method DoRestart(id: Id, launches: bool)
      requires id in services
      modifies this
      ensures services == old(services)[id := Restarted(old(services)[id], launches)]
      ensures calls == old(calls) + [id]
    {
      services := services[id := services[id].(restartCount := services[id].restartCount + 1)];
      services := services[id := services[id].(state := Restarting)];
      StartProcess(id);
      if launches {
        services := services[id := services[id].(state := Running, consecutiveHealthFailures := 0)];
      } else {
        services := services[id := services[id].(state := Failed)];
      }
    }

    /** One entry of the health-check loop. */
    method CheckOne(id: Id, passes: bool, launches: bool)
      requires id in services
      modifies this
      ensures services == old(services)[id := Step(Some(old(services)[id]), HealthCheck(passes, launches)).value]
      ensures calls == old(calls) +
        if Launches(Some(old(services)[id]), HealthCheck(passes, launches)) then [id] else []
    {
      var entry := services[id];
      if entry.state != Running || entry.spec.liveness.None? {
        assert services == services[id := entry];
        return;
      }
      var probe := entry.spec.liveness.value;
      if probe.kind == "http" && probe.port > 0 && probe.path != "" {
        if passes {
          services := services[id := entry.(consecutiveHealthFailures := 0)];
        } else {
          entry := entry.(consecutiveHealthFailures := entry.consecutiveHealthFailures + 1);
          services := services[id := entry];
          if entry.consecutiveHealthFailures >= probe.failureThreshold {
            entry := entry.(consecutiveHealthFailures := 0);
            services := services[id := entry];
            if ShouldRestart(entry, 1) {
              DoRestart(id, launches);
            } else {
              services := services[id := entry.(state := Failed)];
            }
          }
        }
      } else {
        assert services == services[id := entry];
      }
    }

    /** Every service is checked once, in any order, and each check affects its own service. */
    method RunHealthChecks(passes: Id -> bool, launches: Id -> bool)
      modifies this
      ensures services.Keys == old(services).Keys
      ensures forall k :: Lookup(services, k) == Checked(Lookup(old(services), k), passes(k), launches(k))
      ensures old(calls) <= calls
      ensures forall k ::
        multiset(calls[|old(calls)|..])[k] == LaunchCount(Lookup(old(services), k), passes(k), launches(k))
    {
      hide Lookup, Launches, Step, HalfChecked;
      ghost var before, launched: seq<Id> := services, [];
      var left := services.Keys;
      NothingChecked(before, passes, launches);
      while left != {}
        invariant left <= services.Keys
        invariant HalfChecked(before, services, left, launched, passes, launches)
        invariant calls == old(calls) + launched
        decreases |left|
      {
        var id :| id in left;
        ghost var entry, launch := Checked(Some(services[id]), passes(id), launches(id)),
          Launches(Some(services[id]), HealthCheck(passes(id), launches(id)));
        OneChecked(before, services, left, launched, passes, launches, id);
        CheckOne(id, passes(id), launches(id));
        launched := launched + if launch then [id] else [];
        left := left - {id};
      }
      assert calls[|old(calls)|..] == launched;
      AllChecked(before, services, launched, passes, launches);
    }

    method GetState(id: Id) returns (state: ServiceState)
      ensures state == if id in services then services[id].state else Stopped
    {
      state := if id in services then services[id].state else Stopped;
    }
  }
}
