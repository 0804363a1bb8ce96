/**
 The deployment manager (app/targets/manager.py): its target and window tables, its batch loop and
 its keyed table of deferred jobs.  Each method is tied to the history-keeping model of
 DeploySchedule, and the theorems about runs are carried over to the class at the end.
 */
module DeployManagement {
  import opened Wrappers
  import opened Calendar
  import opened Policies
  import Positions
  import opened DeploySchedule

  datatype Provider = F5 | Ivanti | Exchange

  datatype Target = Target(name: string, provider: Provider)

  datatype TargetConfig = TargetConfig(name: string, provider: Provider, window: Option<Window>)

  datatype Status = Ok | Error | Deferred

  datatype DeployResult = DeployResult(
    target: string, provider: Provider, status: Status, nextWindow: Option<int>, error: Option<string>)

  /** What a target's `deploy` does: it returns a result or raises. */
  datatype Outcome = Returned(result: DeployResult) | Raised(message: string)

  /** A call of a target's `deploy`. */
  datatype Call = Call(target: string, domain: string, cert: Cert)

  /** The index of the first entry for `n`, or `|configs|`. */
  function FirstEntry(configs: seq<TargetConfig>, n: string): (i: nat)
    ensures i <= |configs| && (i < |configs| ==> configs[i].name == n)
    ensures forall j :: 0 <= j < i ==> configs[j].name != n
  {
    if configs == [] then 0
    else
      var last := |configs| - 1;
      var i := FirstEntry(configs[..last], n);
      if i < last || configs[last].name == n then i else |configs|
  }

  /** The index of the last entry for `n`, or -1. */
  function LastEntry(configs: seq<TargetConfig>, n: string): (i: int)
    ensures -1 <= i < |configs| && (i >= 0 ==> configs[i].name == n)
    ensures forall j :: i < j < |configs| ==> configs[j].name != n
  {
    if configs == [] then -1
    else
      var last := |configs| - 1;
      if configs[last].name == n then last else LastEntry(configs[..last], n)
  }

  /** The dictionaries `_targets` and `_windows`, with the insertion order of their keys. */
  datatype Tables = Tables(names: seq<string>, targets: map<string, Target>, windows: map<string, Option<Window>>)

  /** The tables hold exactly the configured names, each with the target and the window of its last entry. */
  ghost predicate LastEntryWins(configs: seq<TargetConfig>, default: Option<Window>, tables: Tables) {
    forall n ::
      && (n in tables.targets <==> LastEntry(configs, n) >= 0)
      && (n in tables.windows <==> LastEntry(configs, n) >= 0)
      && (n in tables.targets && n in tables.windows ==>
            && tables.targets[n] == Target(n, configs[LastEntry(configs, n)].provider)
            && tables.windows[n] ==
                 if configs[LastEntry(configs, n)].window.Some? then configs[LastEntry(configs, n)].window else default)
  }

  /** The keys are the configured names, in the order of their first entries. */
  ghost predicate InFirstEntryOrder(configs: seq<TargetConfig>, names: seq<string>) {
    && (forall n :: n in names <==> FirstEntry(configs, n) < |configs|)
    && (forall a, b :: 0 <= a < b < |names| ==> FirstEntry(configs, names[a]) < FirstEntry(configs, names[b]))
  }

  ghost predicate Registered(configs: seq<TargetConfig>, default: Option<Window>, tables: Tables) {
    LastEntryWins(configs, default, tables) && InFirstEntryOrder(configs, tables.names)
  }

  /** One round of the loop in `__init__`. */
  function RegisterOne(tables: Tables, default: Option<Window>, cfg: TargetConfig): Tables {
    Tables(
      if cfg.name in tables.targets then tables.names else tables.names + [cfg.name],
      tables.targets[cfg.name := Target(cfg.name, cfg.provider)],
      tables.windows[cfg.name := if cfg.window.Some? then cfg.window else default])
  }

  predicate HasEntry(configs: seq<TargetConfig>, n: string) {
    exists i :: 0 <= i < |configs| && configs[i].name == n
  }

  predicate IsLastEntry(configs: seq<TargetConfig>, i: nat)
    requires i < |configs|
  {
    forall j :: i < j < |configs| ==> configs[j].name != configs[i].name
  }

  predicate RegisteredAs(tables: Tables, default: Option<Window>, cfg: TargetConfig) {
    && cfg.name in tables.names && cfg.name in tables.targets && cfg.name in tables.windows
    && tables.targets[cfg.name] == Target(cfg.name, cfg.provider)
    && (cfg.window.Some? ==> tables.windows[cfg.name] == cfg.window)
    && (cfg.window.None? ==> tables.windows[cfg.name] == default)
  }

  /** A name's last entry gives its target, and its own window or else the default one. */
  lemma LastEntryIsRegistered(configs: seq<TargetConfig>, default: Option<Window>, tables: Tables, i: nat)
    requires Registered(configs, default, tables) && i < |configs| && IsLastEntry(configs, i)
    ensures RegisteredAs(tables, default, configs[i])
  {
    var n := configs[i].name;
    assert LastEntry(configs, n) == i;
    assert FirstEntry(configs, n) <= i;
  }

  lemma EntriesAfterOneMore(configs: seq<TargetConfig>, cfg: TargetConfig, n: string)
    ensures LastEntry(configs + [cfg], n) == if n == cfg.name then |configs| else LastEntry(configs, n)
    ensures FirstEntry(configs + [cfg], n) ==
              if FirstEntry(configs, n) < |configs| || n == cfg.name then FirstEntry(configs, n) else |configs| + 1
    ensures LastEntry(configs, n) >= 0 <==> FirstEntry(configs, n) < |configs|
  {
    assert (configs + [cfg])[..|configs|] == configs;
  }

  lemma RegisterOneHolds(configs: seq<TargetConfig>, default: Option<Window>, tables: Tables, cfg: TargetConfig)
    requires Registered(configs, default, tables)
    ensures Registered(configs + [cfg], default, RegisterOne(tables, default, cfg))
  {
    LastEntryStillWins(configs, default, tables, cfg);
    EntriesAfterOneMore(configs, cfg, cfg.name);
    OrderKept(configs, tables.names, cfg);
  }

  lemma LastEntryStillWins(configs: seq<TargetConfig>, default: Option<Window>, tables: Tables, cfg: TargetConfig)
    requires LastEntryWins(configs, default, tables)
    ensures LastEntryWins(configs + [cfg], default, RegisterOne(tables, default, cfg))
  {
    forall n
      ensures LastEntry(configs + [cfg], n) == if n == cfg.name then |configs| else LastEntry(configs, n)
    {
      EntriesAfterOneMore(configs, cfg, n);
    }
  }

  lemma OrderKept(configs: seq<TargetConfig>, names: seq<string>, cfg: TargetConfig)
    requires InFirstEntryOrder(configs, names)
    ensures InFirstEntryOrder(configs + [cfg], if cfg.name in names then names else names + [cfg.name])
  {
    forall n
      ensures FirstEntry(configs + [cfg], n) ==
                if FirstEntry(configs, n) < |configs| || n == cfg.name then FirstEntry(configs, n) else |configs| + 1
    {
      EntriesAfterOneMore(configs, cfg, n);
    }
  }

  /** The calls so far, and that of target `n` unless it is deferred. */
  function WithCall(ws: Windows, calls: seq<Call>, n: string, domain: string, cert: Cert, now: int): seq<Call> {
    if IsDeferred(ws, n, now) then calls else calls + [Call(n, domain, cert)]
  }

  /** The calls so far, and those of a batch: one per occurrence of a target that is not deferred, in order. */
  function WithCalls(ws: Windows, calls: seq<Call>, selected: seq<string>, domain: string, cert: Cert, now: int):
    seq<Call>
  {
    if selected == [] then calls
    else
      var last := |selected| - 1;
      WithCall(ws, WithCalls(ws, calls, selected[..last], domain, cert, now), selected[last], domain, cert, now)
  }

  /** The results of a batch, position by position. */
  function ResultsOf(ws: Windows, ts: map<string, Target>, selected: seq<string>, now: int, answer: nat -> Outcome):
    seq<DeployResult>
    requires forall n :: n in selected ==> n in ts
  {
    if selected == [] then []
    else
      var last := |selected| - 1;
      ResultsOf(ws, ts, selected[..last], now, answer) + [ResultFor(ws, ts[selected[last]], now, answer(last))]
  }

  /**
   Results match the request position by position.  A result is the manager's own deferral, with a
   strictly later instant, where the window is closed; elsewhere it is what the target returned, or an
   error report where the target raised.
   */
  lemma {:induction false} ResultsArePositional(ws: Windows, ts: map<string, Target>, selected: seq<string>, now: int,
                                                answer: nat -> Outcome, i: nat)
    requires (forall n :: n in selected ==> n in ts && ts[n].name == n) && i < |selected|
    ensures |ResultsOf(ws, ts, selected, now, answer)| == |selected|
    ensures var n, result := selected[i], ResultsOf(ws, ts, selected, now, answer)[i];
            if IsDeferred(ws, n, now) then
              && result.target == n && result.provider == ts[n].provider
              && result.status == Deferred && result.error.None?
              && result.nextWindow.Some? && now < result.nextWindow.value
              && result.nextWindow.value == ws[n].value.next(now)
            else
              && (answer(i).Returned? ==> result == answer(i).result)
              && (answer(i).Raised? ==>
                    result == DeployResult(n, ts[n].provider, Error, None, Some(answer(i).message)))
  {
    var n, last := selected[i], |selected| - 1;
    if IsDeferred(ws, n, now) {
      assert LawfulAt(ws[n].value, now);
    }
    ResultsLength(ws, ts, selected[..last], now, answer);
    if i < last {
      ResultsArePositional(ws, ts, selected[..last], now, answer, i);
    }
  }

  lemma {:induction false} ResultsLength(ws: Windows, ts: map<string, Target>, selected: seq<string>, now: int,
                                         answer: nat -> Outcome)
    requires forall n :: n in selected ==> n in ts
    ensures |ResultsOf(ws, ts, selected, now, answer)| == |selected|
  {
    if selected != [] {
      ResultsLength(ws, ts, selected[..|selected| - 1], now, answer);
    }
  }

  lemma ResultsGrow(ws: Windows, ts: map<string, Target>, selected: seq<string>, i: nat, now: int,
                    answer: nat -> Outcome)
    requires (forall n :: n in selected ==> n in ts) && i < |selected|
    ensures ResultsOf(ws, ts, selected[..i + 1], now, answer) ==
              ResultsOf(ws, ts, selected[..i], now, answer) + [ResultFor(ws, ts[selected[i]], now, answer(i))]
  {
    assert selected[..i + 1][..i] == selected[..i];
  }

  lemma BatchGrows(ws: Windows, st: State, calls: seq<Call>, selected: seq<string>, i: nat, domain: string, cert: Cert,
                   now: int)
    requires i < |selected|
    ensures SubmitAll(ws, st, selected[..i + 1], domain, cert, now) ==
              SubmitOne(ws, SubmitAll(ws, st, selected[..i], domain, cert, now), selected[i], domain, cert, now)
    ensures WithCalls(ws, calls, selected[..i + 1], domain, cert, now) ==
              WithCall(ws, WithCalls(ws, calls, selected[..i], domain, cert, now), selected[i], domain, cert, now)
  {
    assert selected[..i + 1][..i] == selected[..i];
  }

  /** Every target that is not deferred is called once per occurrence, and no other call is made. */
  lemma {:induction false} OneCallPerOccurrence(ws: Windows, calls: seq<Call>, selected: seq<string>, domain: string,
                                                cert: Cert, now: int, c: Call)
    ensures multiset(WithCalls(ws, calls, selected, domain, cert, now))[c] == multiset(calls)[c] +
              if c == Call(c.target, domain, cert) && !IsDeferred(ws, c.target, now) then multiset(selected)[c.target]
              else 0
  {
    if selected != [] {
      var front, n := selected[..|selected| - 1], selected[|selected| - 1];
      assert selected == front + [n];
      OneCallPerOccurrence(ws, calls, front, domain, cert, now, c);
    }
  }

  /** A batch appends its calls in the order of the request; `ps` lists the positions that are not deferred. */
  lemma {:induction false} CallsAreInOrder(ws: Windows, calls: seq<Call>, selected: seq<string>, domain: string,
                                           cert: Cert, now: int) returns (ps: seq<nat>)
    ensures Positions.Increasing(ps)
    ensures forall p: nat :: p in ps <==> p < |selected| && !IsDeferred(ws, selected[p], now)
    ensures var calls' := WithCalls(ws, calls, selected, domain, cert, now);
            && calls <= calls' && |calls'| == |calls| + |ps|
            && forall i :: 0 <= i < |ps| ==>
                 ps[i] < |selected| && calls'[|calls| + i] == Call(selected[ps[i]], domain, cert)
  {
    ps := [];
    if selected != [] {
      var front, last := selected[..|selected| - 1], |selected| - 1;
      ps := CallsAreInOrder(ws, calls, front, domain, cert, now);
      assert forall p :: 0 <= p < last ==> front[p] == selected[p];
      if !IsDeferred(ws, selected[last], now) {
        ps := Positions.Append(ps, last);
      }
    }
  }

  /** The result reported for target `t`, whose call would end as `outcome`. */
  function ResultFor(ws: Windows, t: Target, now: int, outcome: Outcome): DeployResult {
    if IsDeferred(ws, t.name, now) then
      DeployResult(t.name, t.provider, Deferred, Some(ws[t.name].value.next(now)), None)
    else
      match outcome
      case Returned(result) => result
      case Raised(message) => DeployResult(t.name, t.provider, Error, None, Some(message))
  }

  /** The loop of `__init__`. */
  method BuildTables(configs: seq<TargetConfig>, default: Option<Window>) returns (tables: Tables)
    ensures Registered(configs, default, tables)
  {
    tables := Tables([], map[], map[]);
    for i := 0 to |configs|
      invariant Registered(configs[..i], default, tables)
    {
      RegisterOneHolds(configs[..i], default, tables, configs[i]);
      assert configs[..i + 1] == configs[..i] + [configs[i]];
      tables := RegisterOne(tables, default, configs[i]);
    }
    assert configs[..|configs|] == configs;
  }

  method RegisterAll(configs: seq<TargetConfig>, default: Option<Window>) returns (tables: Tables)
    ensures InFirstEntryOrder(configs, tables.names)
    ensures forall i :: 0 <= i < |configs| && IsLastEntry(configs, i) ==> RegisteredAs(tables, default, configs[i])
    ensures tables.targets.Keys == tables.windows.Keys && forall n :: n in tables.names <==> n in tables.targets
    ensures forall n :: n in tables.targets <==> HasEntry(configs, n)
    ensures forall n :: n in tables.targets ==> tables.targets[n].name == n
  {
    tables := BuildTables(configs, default);
    forall i | 0 <= i < |configs| && IsLastEntry(configs, i)
      ensures RegisteredAs(tables, default, configs[i])
    {
      LastEntryIsRegistered(configs, default, tables, i);
    }
    forall n
      ensures n in tables.targets <==> HasEntry(configs, n)
    {
      if n in tables.targets {
        assert configs[LastEntry(configs, n)].name == n;
      }
    }
    forall n
      ensures n in tables.names <==> n in tables.targets
    {
      EntriesAfterOneMore(configs, TargetConfig(n, F5, None), n);
    }
  }

  class DeployManager {
    var names: seq<string>  // the insertion order of the dictionary `_targets`
    var targets: map<string, Target>
    var windows: map<string, Option<Window>>
    var jobs: map<string, Job>
    var calls: seq<Call>  // the calls made to target objects so far
    ghost const start: int
    ghost var events: seq<Event>  // the successful batches and the firings so far
    ghost var model: State

    ghost predicate Valid()
      reads this
    {
      && targets.Keys == windows.Keys
      && (forall n :: n in names <==> n in targets)
      && (forall n :: n in targets ==> targets[n].name == n)
      && jobs.Keys == model.jobs.Keys
      && (forall id :: id in jobs ==> jobs[id] == model.jobs[id].job)
      && |calls| == |model.handed|
      && forall k :: 0 <= k < |calls| ==>
           calls[k] == Call(model.handed[k].target, model.handed[k].domain, model.handed[k].cert)
    }

    /** The scheduler has fired every job in time so far: what happened is a run of the model. */
    ghost predicate OnSchedule()
      reads this
    {
      ValidRun(PoliciesOf(windows), start, events) && model == Run(PoliciesOf(windows), start, events)
    }

    constructor (configs: seq<TargetConfig>, defaultWindow: Option<Window>, ghost start: int)
      ensures Valid() && OnSchedule() && model == Init(start) && jobs == map[] && calls == []
      ensures InFirstEntryOrder(configs, names)
      ensures forall n :: n in targets <==> HasEntry(configs, n)
      ensures forall i :: 0 <= i < |configs| && IsLastEntry(configs, i) ==>
                var n := configs[i].name;
                && n in names && n in targets && n in windows && targets[n] == Target(n, configs[i].provider)
                && (configs[i].window.Some? ==> windows[n] == configs[i].window)
                && (configs[i].window.None? ==> windows[n] == defaultWindow)
    {
      var tables := RegisterAll(configs, defaultWindow);
      names, targets, windows := tables.names, tables.targets, tables.windows;
      this.start := start;
      jobs, calls, events, model := map[], [], [], Init(start);
    }

    /**
     Deploys to the selected targets at instant `now`; the call made for position `i`, if any, ends
     as `answer(i)`.  Fails with the first unknown name.
     */
    method Deploy(domain: string, cert: Cert, targetNames: Option<seq<string>>, now: int, answer: nat -> Outcome)
      returns (r: Result<seq<DeployResult>, string>)
      requires Valid()
      modifies this`jobs, this`calls, this`model, this`events
      ensures Valid()
      ensures old(OnSchedule()) && NoneDue(old(model), now) ==> OnSchedule()
      ensures targetNames.None? ==> r.Success?
      ensures targetNames.Some? ==> (r.Success? <==> forall n :: n in targetNames.value ==> n in targets)
      ensures r.Failure? ==>
                && model == old(model) && jobs == old(jobs) && calls == old(calls) && targetNames.Some?
                && exists i :: 0 <= i < |targetNames.value| && r.error == targetNames.value[i] &&
                     r.error !in targets && forall j :: 0 <= j < i ==> targetNames.value[j] in targets
      ensures r.Success? ==>
                var selected := if targetNames.None? then names else targetNames.value;
                && r.value == ResultsOf(PoliciesOf(windows), targets, selected, now, answer)
                && model == SubmitAll(PoliciesOf(windows), old(model), selected, domain, cert, now)
                && calls == WithCalls(PoliciesOf(windows), old(calls), selected, domain, cert, now)
    {
      var selected := if targetNames.None? then names else targetNames.value;
      var looked := LookUp(selected);
      if looked.Failure? {
        return Failure(looked.error);
      }
      var results := DeployAll(selected, looked.value, domain, cert, now, answer);
      RunGrows(PoliciesOf(windows), start, events, Submit(selected, domain, cert, now));
      events := events + [Submit(selected, domain, cert, now)];
      r := Success(results);
    }

    /** The loop of `deploy`. */
    method DeployAll(ghost selected: seq<string>, found: seq<Target>, domain: string, cert: Cert, now: int,
                     answer: nat -> Outcome)
      returns (results: seq<DeployResult>)
      requires Valid() && (forall n :: n in selected ==> n in targets)
      requires |found| == |selected| && forall i :: 0 <= i < |selected| ==> found[i] == targets[selected[i]]
      modifies this`jobs, this`calls, this`model
      ensures Valid()
      ensures results == ResultsOf(PoliciesOf(windows), targets, selected, now, answer)
      ensures model == SubmitAll(PoliciesOf(windows), old(model), selected, domain, cert, now)
      ensures calls == WithCalls(PoliciesOf(windows), old(calls), selected, domain, cert, now)
    {
      results := [];
      ghost var ws, before := PoliciesOf(windows), model;
      for i := 0 to |found|
        invariant Valid()
        invariant results == ResultsOf(ws, targets, selected[..i], now, answer)
        invariant model == SubmitAll(ws, before, selected[..i], domain, cert, now)
        invariant calls == WithCalls(ws, old(calls), selected[..i], domain, cert, now)
      {
        BatchGrows(ws, before, old(calls), selected, i, domain, cert, now);
        ResultsGrow(ws, targets, selected, i, now, answer);
        var result := DeployTo(found[i], domain, cert, now, answer(i));
        results := results + [result];
      }
      assert selected[..|selected|] == selected;
    }

    /** The targets of the given names; fails with the first unknown one. */
    method LookUp(selected: seq<string>) returns (r: Result<seq<Target>, string>)
      requires Valid()
      ensures r.Success? <==> forall n :: n in selected ==> n in targets
      ensures r.Success? ==>
                |r.value| == |selected| && forall i :: 0 <= i < |selected| ==> r.value[i] == targets[selected[i]]
      ensures r.Failure? ==>
                exists i :: 0 <= i < |selected| && r.error == selected[i] && r.error !in targets &&
                  forall j :: 0 <= j < i ==> selected[j] in targets
    {
      var found: seq<Target> := [];
      for i := 0 to |selected|
        invariant |found| == i
        invariant forall j :: 0 <= j < i ==> selected[j] in targets && found[j] == targets[selected[j]]
      {
        if selected[i] !in targets {
          return Failure(selected[i]);
        }
        found := found + [targets[selected[i]]];
      }
      r := Success(found);
    }

    /** One round of the loop in `deploy`. */
    method DeployTo(t: Target, domain: string, cert: Cert, now: int, outcome: Outcome) returns (result: DeployResult)
      requires Valid() && t.name in targets && targets[t.name] == t
      modifies this`jobs, this`calls, this`model
      ensures Valid()
      ensures result == ResultFor(PoliciesOf(windows), t, now, outcome)
      ensures model == SubmitOne(PoliciesOf(windows), old(model), t.name, domain, cert, now)
      ensures calls == WithCall(PoliciesOf(windows), old(calls), t.name, domain, cert, now)
    {
      model := SubmitOne(PoliciesOf(windows), model, t.name, domain, cert, now);
      var window := windows[t.name];
      if window.Some? && !IsWithinWindow(window.value, now) {
        var nextTime, _ := ComputeNextWindowStart(window.value, now);
        ScheduleDeferred(t.name, domain, cert, nextTime);
        return DeployResult(t.name, t.provider, Deferred, Some(nextTime), None);
      }
      calls := calls + [Call(t.name, domain, cert)];
      match outcome {
        case Returned(res) =>
          result := res;
        case Raised(message) =>
          result := DeployResult(t.name, t.provider, Error, None, Some(message));
      }
    }

    method ScheduleDeferred(target: string, domain: string, cert: Cert, runAt: int)
      modifies this`jobs
      ensures jobs == old(jobs)["deploy-" + target + "-" + domain := Job(runAt, target, domain, cert)]
    {
      jobs := jobs[JobId(target, domain) := Job(runAt, target, domain, cert)];
    }

    /** The scheduler takes a due job out of its table and runs it; what the call returns or raises is only logged. */
    method FireDue(id: string)
      requires Valid() && id in jobs
      modifies this`jobs, this`calls, this`model, this`events
      ensures Valid()
      ensures old(OnSchedule()) && Enabled(PoliciesOf(windows), old(model), FireJob(id)) ==> OnSchedule()
      ensures model == Fire(PoliciesOf(windows), old(model), id)
      ensures jobs == old(jobs) - {id}
      ensures var job := old(jobs)[id];
              calls ==
                if job.target in targets then old(calls) + [Call(job.target, job.domain, job.cert)] else old(calls)
    {
      RunGrows(PoliciesOf(windows), start, events, FireJob(id));
      events := events + [FireJob(id)];
      RunJob(id);
    }

    method RunJob(id: string)
      requires Valid() && id in jobs
      modifies this`jobs, this`calls, this`model
      ensures Valid()
      ensures model == Fire(PoliciesOf(windows), old(model), id)
      ensures jobs == old(jobs) - {id}
      ensures var job := old(jobs)[id];
              calls ==
                if job.target in targets then old(calls) + [Call(job.target, job.domain, job.cert)] else old(calls)
    {
      var job := jobs[id];
      jobs := jobs - {id};
      model := Fire(PoliciesOf(windows), model, id);
      DeferredDeploy(job.target, job.domain, job.cert);
    }

    method DeferredDeploy(target: string, domain: string, cert: Cert)
      modifies this`calls
      ensures calls == if target in targets then old(calls) + [Call(target, domain, cert)] else old(calls)
    {
      if target !in targets {
        return;
      }
      calls := calls + [Call(target, domain, cert)];
    }

    /** The submitted certificate is the one that waits for the target or, if none waits, the last one handed to it. */
    ghost predicate HeldBy(s: Submission)
      reads this
    {
      var id := JobId(s.target, s.domain);
      if id in jobs && jobs[id].target == s.target && jobs[id].domain == s.domain then jobs[id].cert == s.cert
      else
        exists k :: 0 <= k < |calls| && calls[k] == Call(s.target, s.domain, s.cert) &&
          forall l :: k < l < |calls| ==> !(calls[l].target == s.target && calls[l].domain == s.domain)
    }

    /**
     While the scheduler fires in time, and with windows that keep deployments fresh, nothing submitted
     is ever lost, and every target has or awaits the latest certificate of each domain.
     */
    lemma StaysFreshOnSchedule()
      requires Valid() && OnSchedule() && KeepsFresh(windows)
      ensures Accounted(PoliciesOf(windows), model) && Fresh(model) && InOrder(model)
      ensures forall i: nat :: i < |model.history| && IsLatest(model, i) ==> HeldBy(model.history[i])
    {
      FreshRun(windows, start, events);
      forall i: nat | i < |model.history| && IsLatest(model, i)
        ensures HeldBy(model.history[i])
      {
        LatestIsHeld(i);
      }
    }

    lemma LatestIsHeld(i: nat)
      requires Valid() && Accounted(PoliciesOf(windows), model) && Fresh(model)
      requires i < |model.history| && IsLatest(model, i)
      ensures HeldBy(model.history[i])
    {
      if PairPending(model, model.history[i]) {
        LatestIsPending(i);
      } else {
        LatestHasLanded(i);
      }
    }

    lemma LatestIsPending(i: nat)
      requires Valid() && Sound(PoliciesOf(windows), model) && i < |model.history| && IsPending(model, i)
      ensures HeldBy(model.history[i])
    {
      var own :| own in model.jobs && model.jobs[own].serial == i;
      assert JobMatches(PoliciesOf(windows), model, own);
    }

    lemma LatestHasLanded(i: nat)
      requires Valid() && Sound(PoliciesOf(windows), model) && i < |model.history| && LandedLast(model, i)
      requires !PairPending(model, model.history[i])
      ensures HeldBy(model.history[i])
    {
      var s := model.history[i];
      var handed := model.handed;
      var k :| 0 <= k < |handed| && handed[k].serial == i &&
               forall l :: k < l < |handed| ==> !(handed[l].target == s.target && handed[l].domain == s.domain);
      assert HandOverMatches(PoliciesOf(windows), model, handed[k]);
      assert calls[k] == Call(s.target, s.domain, s.cert);
    }

    /** While the scheduler fires in time, everything is handed over in the target's window, if that is ever open. */
    lemma StaysInWindowOnSchedule(n: string)
      requires Valid() && OnSchedule() && n in windows && windows[n].Some? && Openable(windows[n].value)
      ensures InWindow(model, n, windows[n].value)
    {
      InWindowRun(windows, n, start, events);
    }
  }
}
