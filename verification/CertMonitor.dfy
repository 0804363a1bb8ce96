/**
 The certificate expiry monitor (app/cert_monitor.py): alerts sent once per threshold, automatic
 renewal triggered once per domain, and renewals deferred to the deploy window.
 */
module CertMonitoring {
  import opened Wrappers
  import opened Calendar
  import opened Policies
  import Positions

  datatype MonitorConfig = MonitorConfig(
    warnDays: seq<int>,
    renewCommand: Option<string>,
    renewThreshold: int,
    renewPercentage: Option<int>,
    window: Option<Window>)
  {
    predicate HasCommand() {
      renewCommand.Some? && renewCommand.value != ""
    }
  }

  /** A certificate read from the vault; `lifetime` is its validity in days, if both dates are known. */
  datatype CertInfo = CertInfo(domain: string, daysLeft: Option<int>, lifetime: Option<int>)

  /** What one check sees of one certificate. */
  datatype Observation = Observation(domain: string, days: int, lifetime: Option<int>)

  /** All observations so far, each after those before it. */
  datatype History = Nothing | Then(before: History, last: Observation) {
    function All(): seq<Observation> {
      match this
      case Nothing => []
      case Then(before, o) => before.All() + [o]
    }
  }

  datatype Alert = Alert(domain: string, threshold: int, days: int)

  /* ---------- alerts ---------- */

  predicate Meets(o: Observation, d: string, threshold: int) {
    o.domain == d && o.days <= threshold
  }

  predicate EverMet(seen: History, d: string, threshold: int) {
    match seen
    case Nothing => false
    case Then(before, o) => EverMet(before, d, threshold) || Meets(o, d, threshold)
  }

  /** The alerts so far, and that for one threshold unless it was met before or is among those in `done`. */
  function WithAlert(alerts: seq<Alert>, threshold: int, done: seq<int>, seen: History, o: Observation):
    seq<Alert>
  {
    if o.days <= threshold && !EverMet(seen, o.domain, threshold) && threshold !in done then
      alerts + [Alert(o.domain, threshold, o.days)]
    else alerts
  }

  /** The alerts so far, and those of observation `o`: for its thresholds not met before, in configured order. */
  function WithAlerts(alerts: seq<Alert>, warnDays: seq<int>, seen: History, o: Observation): seq<Alert> {
    if warnDays == [] then alerts
    else
      var front := warnDays[..|warnDays| - 1];
      WithAlert(WithAlerts(alerts, front, seen, o), warnDays[|warnDays| - 1], front, seen, o)
  }

  function AlertsOf(warnDays: seq<int>, seen: History): seq<Alert> {
    match seen
    case Nothing => []
    case Then(before, o) => WithAlerts(AlertsOf(warnDays, before), warnDays, before, o)
  }

  function Sent(warnDays: seq<int>, seen: History, d: string): set<int> {
    set th | th in warnDays && EverMet(seen, d, th)
  }

  /** Observation `i` of all those made is the first of its domain that meets the threshold. */
  predicate FirstToMeet(all: seq<Observation>, i: nat, threshold: int)
    requires i < |all|
  {
    && Meets(all[i], all[i].domain, threshold)
    && forall j :: 0 <= j < i ==> !Meets(all[j], all[i].domain, threshold)
  }

  /** Observation `i` is the one that alert `a` is due to report. */
  predicate Reports(all: seq<Observation>, i: nat, a: Alert) {
    i < |all| && FirstToMeet(all, i, a.threshold) && all[i].domain == a.domain && all[i].days == a.days
  }

  /** The alert is due: its threshold is configured, and it reports the first observation that met it. */
  predicate Due(warnDays: seq<int>, all: seq<Observation>, a: Alert) {
    && a.threshold in warnDays
    && exists i: nat :: i < |all| && Reports(all, i, a)
  }

  predicate NoPairTwice(alerts: seq<Alert>) {
    forall k, l :: 0 <= k < l < |alerts| ==>
      !(alerts[k].domain == alerts[l].domain && alerts[k].threshold == alerts[l].threshold)
  }

  lemma {:induction false} WithAlertsExact(alerts: seq<Alert>, warnDays: seq<int>, seen: History, o: Observation)
    requires NoPairTwice(alerts) && forall a :: a in alerts ==> EverMet(seen, a.domain, a.threshold)
    ensures forall a :: a in WithAlerts(alerts, warnDays, seen, o) <==>
              || a in alerts
              || (a.domain == o.domain && a.days == o.days && a.threshold in warnDays
                  && o.days <= a.threshold && !EverMet(seen, o.domain, a.threshold))
    ensures NoPairTwice(WithAlerts(alerts, warnDays, seen, o))
  {
    if warnDays != [] {
      var front := warnDays[..|warnDays| - 1];
      assert warnDays == front + [warnDays[|warnDays| - 1]];
      WithAlertsExact(alerts, front, seen, o);
      var before := WithAlerts(alerts, front, seen, o);
      assert forall k :: 0 <= k < |before| ==> before[k] in before;
    }
  }

  predicate MetIn(all: seq<Observation>, d: string, threshold: int) {
    exists i :: 0 <= i < |all| && Meets(all[i], d, threshold)
  }

  lemma MetInStep(front: seq<Observation>, o: Observation, d: string, threshold: int)
    ensures MetIn(front + [o], d, threshold) <==> MetIn(front, d, threshold) || Meets(o, d, threshold)
  {
    var all := front + [o];
    if i :| 0 <= i < |front| && Meets(front[i], d, threshold) {
      assert Meets(all[i], d, threshold);
    }
    if Meets(o, d, threshold) {
      assert Meets(all[|front|], d, threshold);
    }
  }

  lemma DueStep(warnDays: seq<int>, front: seq<Observation>, o: Observation, a: Alert)
    ensures Due(warnDays, front + [o], a) <==>
              || Due(warnDays, front, a)
              || (a.threshold in warnDays && Meets(o, a.domain, a.threshold) && a.days == o.days
                  && !MetIn(front, a.domain, a.threshold))
    ensures Due(warnDays, front, a) ==> MetIn(front, a.domain, a.threshold)
  {
    var all := front + [o];
    forall i: nat | i < |front|
      ensures Reports(all, i, a) <==> Reports(front, i, a)
    {
      assert all[i] == front[i];
      assert forall j :: 0 <= j < i ==> all[j] == front[j];
    }
    assert all[|front|] == o && forall j :: 0 <= j < |front| ==> all[j] == front[j];
    assert Reports(all, |front|, a) <==>
        Meets(o, a.domain, a.threshold) && a.days == o.days && !MetIn(front, a.domain, a.threshold);
  }

  /**
   The alert history is exact: a pair is alerted iff its threshold is configured and was ever met,
   never twice, and with the days left at the first observation that met it.
   */
  lemma {:induction false} AlertHistoryExact(warnDays: seq<int>, seen: History)
    ensures forall a :: a in AlertsOf(warnDays, seen) <==> Due(warnDays, seen.All(), a)
    ensures NoPairTwice(AlertsOf(warnDays, seen))
  {
    if seen.Then? {
      var before, o := seen.before, seen.last;
      AlertHistoryExact(warnDays, before);
      forall a | a in AlertsOf(warnDays, before)
        ensures EverMet(before, a.domain, a.threshold)
      {
        DueStep(warnDays, before.All(), o, a);
        EverMetIff(before, a.domain, a.threshold);
      }
      WithAlertsExact(AlertsOf(warnDays, before), warnDays, before, o);
      forall a
        ensures a in AlertsOf(warnDays, seen) <==> Due(warnDays, seen.All(), a)
      {
        DueStep(warnDays, before.All(), o, a);
        EverMetIff(before, a.domain, a.threshold);
      }
    }
  }

  /** The least `days_left` ever seen for a domain. */
  function LeastDays(seen: History, d: string): Option<int> {
    match seen
    case Nothing => None
    case Then(before, o) =>
      var least := LeastDays(before, d);
      if o.domain == d && (least.None? || o.days < least.value) then Some(o.days) else least
  }

  /** A threshold was ever met iff some observation meets it, or iff it is at or above the least `days_left` seen. */
  lemma {:induction false} EverMetIff(seen: History, d: string, threshold: int)
    ensures EverMet(seen, d, threshold) <==> MetIn(seen.All(), d, threshold)
    ensures EverMet(seen, d, threshold) <==> LeastDays(seen, d).Some? && LeastDays(seen, d).value <= threshold
  {
    if seen.Then? {
      EverMetIff(seen.before, d, threshold);
      MetInStep(seen.before.All(), seen.last, d, threshold);
    }
  }

  /* ---------- when a renewal is wanted ---------- */

  predicate ShouldRenewByPercentage(cfg: MonitorConfig, days: int, lifetime: Option<int>) {
    if cfg.renewPercentage.None? || lifetime.None? then false
    else if lifetime.value <= 0 then false
    else days as real / lifetime.value as real * 100.0 <= cfg.renewPercentage.value as real
  }

  predicate Wants(cfg: MonitorConfig, o: Observation) {
    o.days <= cfg.renewThreshold || ShouldRenewByPercentage(cfg, o.days, o.lifetime)
  }

  /** The percentage test is an integer comparison of days times 100 with percent of the lifetime. */
  lemma PercentageByCrossMultiplying(cfg: MonitorConfig, days: int, lifetime: Option<int>)
    ensures ShouldRenewByPercentage(cfg, days, lifetime) <==>
              cfg.renewPercentage.Some? && lifetime.Some? && lifetime.value > 0 &&
              days * 100 <= cfg.renewPercentage.value * lifetime.value
  {
    if cfg.renewPercentage.Some? && lifetime.Some? && lifetime.value > 0 {
      var d, n, p := days as real, lifetime.value as real, cfg.renewPercentage.value as real;
      var q := d / n;
      assert q * n == d;
      if q * 100.0 <= p {
        assert (q * 100.0) * n <= p * n;
      }
      if d * 100.0 <= p * n {
        assert (p - q * 100.0) * n >= 0.0;
      }
      assert (days * 100) as real == d * 100.0;
      assert (cfg.renewPercentage.value * lifetime.value) as real == p * n;
    }
  }

  /** A renewal is wanted at or below the configured days, and at or below the configured share of the lifetime. */
  lemma WantedIff(cfg: MonitorConfig, o: Observation)
    ensures Wants(cfg, o) <==>
              || o.days <= cfg.renewThreshold
              || (cfg.renewPercentage.Some? && o.lifetime.Some? && o.lifetime.value > 0
                  && o.days * 100 <= cfg.renewPercentage.value * o.lifetime.value)
  {
    PercentageByCrossMultiplying(cfg, o.days, o.lifetime);
  }

  /** With the same certificate dates, a wanted renewal stays wanted as days pass. */
  lemma WantedStaysWanted(cfg: MonitorConfig, o: Observation, later: Observation)
    requires Wants(cfg, o) && later.lifetime == o.lifetime && later.days <= o.days
    ensures Wants(cfg, later)
  {
    PercentageByCrossMultiplying(cfg, o.days, o.lifetime);
    PercentageByCrossMultiplying(cfg, later.days, later.lifetime);
  }

  /* ---------- the automatic trigger ---------- */

  /** The domains for which the automatic path calls `_run_renew`, in order. */
  function AutoRenewals(cfg: MonitorConfig, seen: History): seq<string> {
    match seen
    case Nothing => []
    case Then(before, o) =>
      var calls := AutoRenewals(cfg, before);
      if cfg.HasCommand() && Wants(cfg, o) && o.domain !in calls then calls + [o.domain] else calls
  }

  predicate NoneTwice(domains: seq<string>) {
    forall k, l :: 0 <= k < l < |domains| ==> domains[k] != domains[l]
  }

  lemma NoneTwiceStep(domains: seq<string>, d: string)
    requires NoneTwice(domains)
    ensures d !in domains ==> NoneTwice(domains + [d])
  {
  }

  /** At most one call per domain ever, and exactly for the domains some check wanted renewed. */
  lemma {:induction false} AutoRenewalsExact(cfg: MonitorConfig, seen: History)
    ensures NoneTwice(AutoRenewals(cfg, seen))
    ensures forall d :: d in AutoRenewals(cfg, seen) <==>
              cfg.HasCommand() && exists o :: o in seen.All() && o.domain == d && Wants(cfg, o)
  {
    if seen.Then? {
      AutoRenewalsExact(cfg, seen.before);
      NoneTwiceStep(AutoRenewals(cfg, seen.before), seen.last.domain);
      forall d
        ensures d in AutoRenewals(cfg, seen) <==>
                  cfg.HasCommand() && exists o :: o in seen.All() && o.domain == d && Wants(cfg, o)
      {
        if o :| o in seen.before.All() && o.domain == d && Wants(cfg, o) {
          assert o in seen.All();
        }
        if seen.last.domain == d && Wants(cfg, seen.last) {
          assert seen.last in seen.All();
        }
      }
    }
  }

  /* ---------- running and deferring renewals ---------- */

  datatype RenewJob = RenewJob(runAt: int, domain: string)

  /** A run of the renew command. */
  datatype Command = Command(domain: string, at: int)

  datatype Renewals = Renewals(jobs: map<string, RenewJob>, commands: seq<Command>)

  function RenewId(domain: string): string {
    "renew-" + domain
  }

  /** Whether there is a renew command, and the window for running it. */
  datatype RenewPolicy = RenewPolicy(hasCommand: bool, window: Option<Policy>)

  function RenewPolicyOf(cfg: MonitorConfig): RenewPolicy {
    RenewPolicy(cfg.HasCommand(), OptionalPolicy(cfg.window))
  }

  /** `_run_renew` at instant `now`. */
  function RunRenew(rp: RenewPolicy, started: bool, r: Renewals, domain: string, now: int): Renewals {
    if !rp.hasCommand then r
    else if rp.window.Some? && started && !rp.window.value.isOpen(now) then
      r.(jobs := r.jobs[RenewId(domain) := RenewJob(rp.window.value.next(now), domain)])
    else
      r.(commands := r.commands + [Command(domain, now)])
  }

  /** Without a command nothing happens; a closed window defers, if the scheduler exists; else the command runs now. */
  lemma RunRenewMeans(cfg: MonitorConfig, started: bool, r: Renewals, domain: string, now: int)
    ensures var r' := RunRenew(RenewPolicyOf(cfg), started, r, domain, now);
            if cfg.renewCommand == None || cfg.renewCommand == Some("") then r' == r
            else if cfg.window.Some? && started && !IsWithinWindow(cfg.window.value, now) then
              && r'.commands == r.commands
              && r'.jobs == r.jobs["renew-" + domain := RenewJob(NextWindowStart(cfg.window.value, now), domain)]
            else r'.jobs == r.jobs && r'.commands == r.commands + [Command(domain, now)]
  {
    RunRenewCases(RenewPolicyOf(cfg), started, r, domain, now);
    if cfg.window.Some? {
      PolicyOfMeans(cfg.window.value, now);
    }
  }

  lemma RunRenewCases(rp: RenewPolicy, started: bool, r: Renewals, domain: string, now: int)
    ensures var r' := RunRenew(rp, started, r, domain, now);
            if !rp.hasCommand then r' == r
            else if rp.window.Some? && started && !rp.window.value.isOpen(now) then
              && r'.commands == r.commands
              && r'.jobs == r.jobs["renew-" + domain := RenewJob(rp.window.value.next(now), domain)]
            else r'.jobs == r.jobs && r'.commands == r.commands + [Command(domain, now)]
  {
  }

  /** The scheduler takes out the job and runs it at instant `now`. */
  function FireRenewal(rp: RenewPolicy, started: bool, r: Renewals, id: string, now: int): Renewals
    requires id in r.jobs
  {
    RunRenew(rp, started, r.(jobs := r.jobs - {id}), r.jobs[id].domain, now)
  }

  /** Calls of `_run_renew`, automatic or by request, and firings of its jobs, on time or late. */
  datatype RenewEvent = Request(domain: string, now: int) | FireJob(id: string, now: int)

  datatype RenewState = RenewState(clock: int, renewals: Renewals, requests: seq<Command>)

  predicate RenewEnabled(st: RenewState, e: RenewEvent) {
    && st.clock <= e.now
    && (e.FireJob? ==> e.id in st.renewals.jobs && st.renewals.jobs[e.id].runAt <= e.now)
  }

  function RenewApply(rp: RenewPolicy, st: RenewState, e: RenewEvent): RenewState {
    match e
    case Request(domain, now) =>
      RenewState(now, RunRenew(rp, true, st.renewals, domain, now), st.requests + [Command(domain, now)])
    case FireJob(id, now) =>
      if id in st.renewals.jobs then RenewState(now, FireRenewal(rp, true, st.renewals, id, now), st.requests) else st
  }

  function RenewRun(rp: RenewPolicy, start: int, es: seq<RenewEvent>): RenewState {
    if es == [] then RenewState(start, Renewals(map[], []), [])
    else RenewApply(rp, RenewRun(rp, start, es[..|es| - 1]), es[|es| - 1])
  }

  predicate RenewValidRun(rp: RenewPolicy, start: int, es: seq<RenewEvent>) {
    es == [] ||
    (RenewValidRun(rp, start, es[..|es| - 1]) && RenewEnabled(RenewRun(rp, start, es[..|es| - 1]), es[|es| - 1]))
  }

  /** A job runs the renewal of the domain in its id, at an opening found from an earlier closed instant. */
  ghost predicate RenewJobOk(rp: RenewPolicy, st: RenewState, id: string)
    requires id in st.renewals.jobs
  {
    && id == RenewId(st.renewals.jobs[id].domain)
    && rp.window.Some?
    && exists t :: t <= st.clock && !rp.window.value.isOpen(t) &&
         st.renewals.jobs[id].runAt == rp.window.value.next(t)
  }

  predicate RanSince(commands: seq<Command>, d: string, t: int) {
    exists k :: 0 <= k < |commands| && commands[k].domain == d && t <= commands[k].at
  }

  predicate RequestedBy(requests: seq<Command>, d: string, t: int) {
    exists k :: 0 <= k < |requests| && requests[k].domain == d && requests[k].at <= t
  }

  /**
   Commands run only in the window and only for requested domains; and every request either led to
   a command since, or its domain's one job is pending.
   */
  ghost predicate RenewalsSound(rp: RenewPolicy, st: RenewState) {
    var r := st.renewals;
    && (forall id :: id in r.jobs ==> RenewJobOk(rp, st, id))
    && (forall id :: id in r.jobs ==> RequestedBy(st.requests, r.jobs[id].domain, st.clock))
    && (forall k :: 0 <= k < |r.commands| ==>
          && (rp.window.Some? ==> rp.window.value.isOpen(r.commands[k].at))
          && RequestedBy(st.requests, r.commands[k].domain, r.commands[k].at))
    && (forall k :: 0 <= k < |st.requests| && rp.hasCommand ==>
          RenewId(st.requests[k].domain) in r.jobs || RanSince(r.commands, st.requests[k].domain, st.requests[k].at))
    && (forall k :: 0 <= k < |st.requests| ==> st.requests[k].at <= st.clock)
  }

  lemma SameRenewIdSameDomain(d: string, e: string)
    requires RenewId(d) == RenewId(e)
    ensures d == e
  {
    assert RenewId(d)[6..] == d && RenewId(e)[6..] == e;
  }

  lemma RequestStep(rp: RenewPolicy, st: RenewState, domain: string, now: int)
    requires RenewalsSound(rp, st) && st.clock <= now
    ensures RenewalsSound(rp, RenewApply(rp, st, Request(domain, now)))
  {
    var st' := RenewApply(rp, st, Request(domain, now));
    var r, r' := st.renewals, st'.renewals;
    assert st'.requests[|st.requests|] == Command(domain, now);
    RequestsKept(st.requests, Command(domain, now));
    forall id | id in r'.jobs
      ensures RenewJobOk(rp, st', id) && RequestedBy(st'.requests, r'.jobs[id].domain, st'.clock)
    {
      assert id in r.jobs ==> RenewJobOk(rp, st, id) && RequestedBy(st.requests, r.jobs[id].domain, st.clock);
    }
    CommandsKept(r.commands, Command(domain, now));
  }

  lemma RequestsKept(requests: seq<Command>, c: Command)
    ensures forall d, t, u :: RequestedBy(requests, d, t) && t <= u ==> RequestedBy(requests, d, u)
    ensures forall d, t :: RequestedBy(requests, d, t) ==> RequestedBy(requests + [c], d, t)
    ensures RequestedBy(requests + [c], c.domain, c.at)
  {
    assert (requests + [c])[|requests|] == c;
    assert forall k :: 0 <= k < |requests| ==> (requests + [c])[k] == requests[k];
  }

  lemma CommandsKept(commands: seq<Command>, c: Command)
    ensures forall d, t :: RanSince(commands, d, t) ==> RanSince(commands + [c], d, t)
    ensures forall t :: t <= c.at ==> RanSince(commands + [c], c.domain, t)
  {
    assert (commands + [c])[|commands|] == c;
    assert forall k :: 0 <= k < |commands| ==> (commands + [c])[k] == commands[k];
  }

  lemma FireStep(rp: RenewPolicy, st: RenewState, id: string, now: int)
    requires RenewalsSound(rp, st) && st.clock <= now && id in st.renewals.jobs
    ensures RenewalsSound(rp, RenewApply(rp, st, FireJob(id, now)))
  {
    var st' := RenewApply(rp, st, FireJob(id, now));
    var r, r' := st.renewals, st'.renewals;
    var domain := r.jobs[id].domain;
    assert RenewJobOk(rp, st, id);
    RequestsKept(st.requests, Command(domain, now));
    CommandsKept(r.commands, Command(domain, now));
    forall other | other in r'.jobs
      ensures RenewJobOk(rp, st', other) && RequestedBy(st'.requests, r'.jobs[other].domain, st'.clock)
    {
      assert other in r.jobs ==> RenewJobOk(rp, st, other) && RequestedBy(st.requests, r.jobs[other].domain, st.clock);
    }
    forall k | 0 <= k < |st.requests| && rp.hasCommand
      ensures || RenewId(st.requests[k].domain) in r'.jobs
              || RanSince(r'.commands, st.requests[k].domain, st.requests[k].at)
    {
      if RenewId(st.requests[k].domain) == id {
        SameRenewIdSameDomain(st.requests[k].domain, domain);
      }
    }
  }

  /** What every run of the monitor with a started scheduler keeps. */
  lemma {:induction false} RenewalsStaySound(rp: RenewPolicy, start: int, es: seq<RenewEvent>)
    requires RenewValidRun(rp, start, es)
    ensures RenewalsSound(rp, RenewRun(rp, start, es))
  {
    if es != [] {
      var front := es[..|es| - 1];
      RenewalsStaySound(rp, start, front);
      match es[|es| - 1] {
        case Request(domain, now) => RequestStep(rp, RenewRun(rp, start, front), domain, now);
        case FireJob(id, now) => FireStep(rp, RenewRun(rp, start, front), id, now);
      }
    }
  }

  /** In every run with a window, renew commands run only while it is open. */
  lemma CommandsRunInWindow(cfg: MonitorConfig, start: int, es: seq<RenewEvent>)
    requires RenewValidRun(RenewPolicyOf(cfg), start, es) && cfg.window.Some?
    ensures forall c :: c in RenewRun(RenewPolicyOf(cfg), start, es).renewals.commands ==>
              IsWithinWindow(cfg.window.value, c.at)
  {
    RenewalsStaySound(RenewPolicyOf(cfg), start, es);
  }

  /** A job fired while the window is open runs its command and is gone; otherwise it is deferred, strictly later. */
  lemma FiringRunsOrDefers(rp: RenewPolicy, start: int, es: seq<RenewEvent>, id: string, now: int)
    requires RenewValidRun(rp, start, es) && rp.hasCommand && id in RenewRun(rp, start, es).renewals.jobs
    ensures rp.window.Some?
    ensures var r := RenewRun(rp, start, es).renewals;
            var r' := FireRenewal(rp, true, r, id, now);
            if rp.window.value.isOpen(now) then
              r' == Renewals(r.jobs - {id}, r.commands + [Command(r.jobs[id].domain, now)])
            else
              && r'.commands == r.commands && r'.jobs.Keys == r.jobs.Keys
              && r'.jobs[id].domain == r.jobs[id].domain && r'.jobs[id].runAt > now
  {
    RenewalsStaySound(rp, start, es);
    assert RenewJobOk(rp, RenewRun(rp, start, es), id);
    assert LawfulAt(rp.window.value, now);
  }

  /** In any run, a job fired exactly on time runs its command, unless the window is never open. */
  lemma FiringOnTimeRunsIff(cfg: MonitorConfig, start: int, es: seq<RenewEvent>, id: string)
    requires RenewValidRun(RenewPolicyOf(cfg), start, es) && cfg.HasCommand()
    requires id in RenewRun(RenewPolicyOf(cfg), start, es).renewals.jobs
    ensures cfg.window.Some?
    ensures var r := RenewRun(RenewPolicyOf(cfg), start, es).renewals;
            var job := r.jobs[id];
            Openable(cfg.window.value) <==>
              FireRenewal(RenewPolicyOf(cfg), true, r, id, job.runAt).commands ==
                r.commands + [Command(job.domain, job.runAt)]
  {
    var rp := RenewPolicyOf(cfg);
    var st := RenewRun(rp, start, es);
    RenewalsStaySound(rp, start, es);
    assert RenewJobOk(rp, st, id);
    var t :| t <= st.clock && !rp.window.value.isOpen(t) && st.renewals.jobs[id].runAt == rp.window.value.next(t);
    NextIsOpenIff(cfg.window.value, t);
    FiringRunsOrDefers(rp, start, es, id, st.renewals.jobs[id].runAt);
    var r := st.renewals;
    assert |(r.commands + [Command(r.jobs[id].domain, r.jobs[id].runAt)])| != |r.commands|;
  }

  /* ---------- the monitor ---------- */

  function ObservationOf(cert: CertInfo): Observation
    requires cert.daysLeft.Some?
  {
    Observation(cert.domain, cert.daysLeft.value, cert.lifetime)
  }

  /** The observations so far, once one more certificate has been looked at. */
  function Observe(seen: History, cert: CertInfo): History {
    if cert.daysLeft.Some? then Then(seen, ObservationOf(cert)) else seen
  }

  /** The observations so far, once the first `n` certificates have been looked at. */
  function ObserveAll(seen: History, certs: seq<CertInfo>, n: nat): History
    requires n <= |certs|
  {
    if n == 0 then seen else Observe(ObserveAll(seen, certs, n - 1), certs[n - 1])
  }

  /**
   A check appends one observation for each certificate whose days left are known, in list order, with
   that certificate's domain, days and lifetime; `known` lists the positions of these certificates.
   */
  lemma {:induction false} ObservedExactly(seen: History, certs: seq<CertInfo>, n: nat) returns (known: seq<nat>)
    requires n <= |certs|
    ensures Positions.Increasing(known)
    ensures forall k: nat :: k in known <==> k < n && certs[k].daysLeft.Some?
    ensures var all, before := ObserveAll(seen, certs, n).All(), seen.All();
            && before <= all && |all| == |before| + |known|
            && forall i :: 0 <= i < |known| ==>
                 known[i] < |certs| && certs[known[i]].daysLeft.Some? &&
                 all[|before| + i] ==
                   Observation(certs[known[i]].domain, certs[known[i]].daysLeft.value, certs[known[i]].lifetime)
  {
    known := [];
    if n > 0 {
      known := ObservedExactly(seen, certs, n - 1);
      if certs[n - 1].daysLeft.Some? {
        known := Positions.Append(known, n - 1);
      }
    }
  }

  /** Observation `o`, made after those in `seen`, triggers a renewal. */
  predicate Triggers(cfg: MonitorConfig, seen: History, o: Observation) {
    cfg.HasCommand() && Wants(cfg, o) && o.domain !in AutoRenewals(cfg, seen)
  }

  /** That is: there is a command, and this is the first observation of its domain for which a renewal is wanted. */
  lemma TriggersIff(cfg: MonitorConfig, seen: History, o: Observation)
    ensures Triggers(cfg, seen, o) <==>
              && cfg.renewCommand.Some? && cfg.renewCommand.value != ""
              && Wants(cfg, o)
              && !exists e :: e in seen.All() && e.domain == o.domain && Wants(cfg, e)
  {
    AutoRenewalsExact(cfg, seen);
  }

  /** The renewals after observation `o` at `now`: at most one automatic call of `_run_renew`. */
  function RenewalsAfter(cfg: MonitorConfig, started: bool, seen: History, r: Renewals, o: Observation, now: int):
    Renewals
  {
    if Triggers(cfg, seen, o) then RunRenew(RenewPolicyOf(cfg), started, r, o.domain, now)
    else r
  }

  function RenewalsAfterCert(cfg: MonitorConfig, started: bool, seen: History, r: Renewals,
                             cert: CertInfo, now: int): Renewals
  {
    if cert.daysLeft.None? then r else RenewalsAfter(cfg, started, seen, r, ObservationOf(cert), now)
  }

  /**
   The renewals after a check of the first `n` certificates; certificate `i` is looked at when the
   clock reads `clock(i)`.
   */
  function RenewalsAfterCheck(cfg: MonitorConfig, started: bool, seen: History, r: Renewals,
                              certs: seq<CertInfo>, n: nat, clock: nat -> int): Renewals
    requires n <= |certs|
  {
    if n == 0 then r
    else
      RenewalsAfterCert(cfg, started, ObserveAll(seen, certs, n - 1),
                        RenewalsAfterCheck(cfg, started, seen, r, certs, n - 1, clock), certs[n - 1], clock(n - 1))
  }

  /** The calls of `_run_renew` so far, and the one that looking at one certificate makes, if any. */
  function WithRequest(cfg: MonitorConfig, es: seq<RenewEvent>, seen: History, cert: CertInfo, now: int):
    seq<RenewEvent>
  {
    if cert.daysLeft.Some? && Triggers(cfg, seen, ObservationOf(cert)) then es + [RenewEvent.Request(cert.domain, now)]
    else es
  }

  /** The calls of `_run_renew` so far, and those that a check of the first `n` certificates makes. */
  function WithRequests(cfg: MonitorConfig, es: seq<RenewEvent>, seen: History, certs: seq<CertInfo>, n: nat,
                        clock: nat -> int): seq<RenewEvent>
    requires n <= |certs|
  {
    if n == 0 then es
    else
      WithRequest(cfg, WithRequests(cfg, es, seen, certs, n - 1, clock), ObserveAll(seen, certs, n - 1),
                  certs[n - 1], clock(n - 1))
  }

  /** The certificate's days are known, and what a check observes of it wants a renewal. */
  predicate WantedFor(cfg: MonitorConfig, cert: CertInfo) {
    cert.daysLeft.Some? && Wants(cfg, Observation(cert.domain, cert.daysLeft.value, cert.lifetime))
  }

  /** Certificate `p` of a check is the first of its domain ever for which a renewal is wanted. */
  ghost predicate FirstWanted(cfg: MonitorConfig, seen: History, certs: seq<CertInfo>, p: nat)
    requires p < |certs|
  {
    && WantedFor(cfg, certs[p])
    && (forall e :: e in seen.All() && e.domain == certs[p].domain ==> !Wants(cfg, e))
    && forall q :: 0 <= q < p && certs[q].domain == certs[p].domain ==> !WantedFor(cfg, certs[q])
  }

  lemma {:induction false} SeenInCheck(seen: History, certs: seq<CertInfo>, n: nat, e: Observation)
    requires n <= |certs|
    ensures e in ObserveAll(seen, certs, n).All() <==>
              || e in seen.All()
              || exists q :: 0 <= q < n && certs[q].daysLeft.Some? &&
                   e == Observation(certs[q].domain, certs[q].daysLeft.value, certs[q].lifetime)
  {
    if n > 0 {
      SeenInCheck(seen, certs, n - 1, e);
    }
  }

  lemma TriggersIffFirstWanted(cfg: MonitorConfig, seen: History, certs: seq<CertInfo>, p: nat)
    requires p < |certs|
    ensures var cert := certs[p];
            cert.daysLeft.Some? && Triggers(cfg, ObserveAll(seen, certs, p), ObservationOf(cert)) <==>
              cfg.HasCommand() && FirstWanted(cfg, seen, certs, p)
  {
    var cert, so := certs[p], ObserveAll(seen, certs, p);
    if cert.daysLeft.Some? {
      TriggersIff(cfg, so, ObservationOf(cert));
      if e :| e in so.All() && e.domain == cert.domain && Wants(cfg, e) {
        SeenInCheck(seen, certs, p, e);
      }
      if e :| e in seen.All() && e.domain == cert.domain && Wants(cfg, e) {
        SeenInCheck(seen, certs, p, e);
      }
      if q :| 0 <= q < p && certs[q].domain == cert.domain && WantedFor(cfg, certs[q]) {
        SeenInCheck(seen, certs, p, Observation(certs[q].domain, certs[q].daysLeft.value, certs[q].lifetime));
      }
    }
  }

  /**
   The calls of `_run_renew` that a check makes: one for each certificate that is the first of its domain
   ever for which a renewal is wanted, in list order, at the instant it is looked at, if there is a
   command.
   */
  lemma {:induction false} CheckRequestsExactly(cfg: MonitorConfig, es: seq<RenewEvent>, seen: History,
                                                certs: seq<CertInfo>, n: nat, clock: nat -> int)
    returns (ps: seq<nat>)
    requires n <= |certs|
    ensures Positions.Increasing(ps)
    ensures forall p: nat :: p in ps <==> p < n && cfg.HasCommand() && FirstWanted(cfg, seen, certs, p)
    ensures var es' := WithRequests(cfg, es, seen, certs, n, clock);
            && es <= es' && |es'| == |es| + |ps|
            && forall i :: 0 <= i < |ps| ==>
                 ps[i] < |certs| && es'[|es| + i] == RenewEvent.Request(certs[ps[i]].domain, clock(ps[i]))
  {
    ps := [];
    if n > 0 {
      ps := CheckRequestsExactly(cfg, es, seen, certs, n - 1, clock);
      TriggersIffFirstWanted(cfg, seen, certs, n - 1);
      if cfg.HasCommand() && FirstWanted(cfg, seen, certs, n - 1) {
        ps := Positions.Append(ps, n - 1);
      }
    }
  }

  /** They are exactly what the check adds to the automatic renewals, so no domain gets two of them, ever. */
  lemma {:induction false} RequestsAreNewRenewals(cfg: MonitorConfig, es: seq<RenewEvent>, seen: History,
                                                  certs: seq<CertInfo>, n: nat, clock: nat -> int)
    requires n <= |certs|
    ensures var es' := WithRequests(cfg, es, seen, certs, n, clock);
            var before, after := AutoRenewals(cfg, seen), AutoRenewals(cfg, ObserveAll(seen, certs, n));
            && before <= after && es <= es' && |after| - |before| == |es'| - |es|
            && forall k :: |es| <= k < |es'| ==>
                 es'[k].Request? && es'[k].domain == after[|before| + (k - |es|)]
  {
    if n > 0 {
      RequestsAreNewRenewals(cfg, es, seen, certs, n - 1, clock);
    }
  }

  /** No domain gets two automatic calls, neither in one check nor over all checks. */
  lemma NoRequestTwice(cfg: MonitorConfig, seen: History, certs: seq<CertInfo>, n: nat, clock: nat -> int)
    requires n <= |certs|
    ensures var calls := WithRequests(cfg, [], seen, certs, n, clock);
            && (forall i :: 0 <= i < |calls| ==> calls[i].Request? && calls[i].domain !in AutoRenewals(cfg, seen))
            && forall i, j :: 0 <= i < j < |calls| ==> calls[i].domain != calls[j].domain
  {
    var before, after := AutoRenewals(cfg, seen), AutoRenewals(cfg, ObserveAll(seen, certs, n));
    RequestsAreNewRenewals(cfg, [], seen, certs, n, clock);
    AutoRenewalsExact(cfg, ObserveAll(seen, certs, n));
    var calls := WithRequests(cfg, [], seen, certs, n, clock);
    forall i | 0 <= i < |calls|
      ensures calls[i].domain == after[|before| + i] && calls[i].domain !in before
    {
    }
  }

  /** Without a scheduler, a check runs the command at once for each of its calls of `_run_renew`. */
  lemma {:induction false} CheckWithoutScheduler(cfg: MonitorConfig, seen: History, r: Renewals, certs: seq<CertInfo>,
                                                 n: nat, clock: nat -> int)
    requires n <= |certs|
    ensures var r', calls := RenewalsAfterCheck(cfg, false, seen, r, certs, n, clock),
                             WithRequests(cfg, [], seen, certs, n, clock);
            && r'.jobs == r.jobs && r.commands <= r'.commands && |r'.commands| == |r.commands| + |calls|
            && forall i :: 0 <= i < |calls| ==>
                 calls[i].Request? && r'.commands[|r.commands| + i] == Command(calls[i].domain, calls[i].now)
  {
    if n > 0 {
      CheckWithoutScheduler(cfg, seen, r, certs, n - 1, clock);
    }
  }

  /** Certificates are looked at one after the other. */
  ghost predicate NonDecreasing(clock: nat -> int) {
    forall i: nat, j: nat :: i <= j ==> clock(i) <= clock(j)
  }

  /**
   A check extends a run of the scheduler by its calls of `_run_renew`, so what RenewalsStaySound
   says of runs holds across checks.
   */
  lemma {:induction false} CheckExtendsRun(cfg: MonitorConfig, start: int, es: seq<RenewEvent>, seen: History,
                                           certs: seq<CertInfo>, n: nat, clock: nat -> int)
    requires RenewValidRun(RenewPolicyOf(cfg), start, es) && n <= |certs|
    requires NonDecreasing(clock) && RenewRun(RenewPolicyOf(cfg), start, es).clock <= clock(0)
    ensures var rp, es' := RenewPolicyOf(cfg), WithRequests(cfg, es, seen, certs, n, clock);
            && RenewValidRun(rp, start, es') && RenewRun(rp, start, es').clock <= clock(n)
            && RenewRun(rp, start, es').renewals ==
                 RenewalsAfterCheck(cfg, true, seen, RenewRun(rp, start, es).renewals, certs, n, clock)
  {
    if n > 0 {
      var before := WithRequests(cfg, es, seen, certs, n - 1, clock);
      CheckExtendsRun(cfg, start, es, seen, certs, n - 1, clock);
      CertExtendsRun(cfg, start, before, ObserveAll(seen, certs, n - 1), certs[n - 1], clock(n - 1));
      assert clock(n - 1) <= clock(n);
    }
  }

  lemma CertExtendsRun(cfg: MonitorConfig, start: int, es: seq<RenewEvent>, seen: History,
                       cert: CertInfo, now: int)
    requires RenewValidRun(RenewPolicyOf(cfg), start, es)
    requires RenewRun(RenewPolicyOf(cfg), start, es).clock <= now
    ensures var rp, es' := RenewPolicyOf(cfg), WithRequest(cfg, es, seen, cert, now);
            && RenewValidRun(rp, start, es') && RenewRun(rp, start, es').clock <= now
            && RenewRun(rp, start, es').renewals ==
                 RenewalsAfterCert(cfg, true, seen, RenewRun(rp, start, es).renewals, cert, now)
  {
    if cert.daysLeft.Some? && Triggers(cfg, seen, ObservationOf(cert)) {
      RequestExtendsRun(RenewPolicyOf(cfg), start, es, cert.domain, now);
    }
  }

  lemma RequestExtendsRun(rp: RenewPolicy, start: int, es: seq<RenewEvent>, domain: string, now: int)
    requires RenewValidRun(rp, start, es) && RenewRun(rp, start, es).clock <= now
    ensures var e := RenewEvent.Request(domain, now);
            var st := RenewRun(rp, start, es + [e]);
            && RenewValidRun(rp, start, es + [e]) && st.clock == now
            && st.renewals == RunRenew(rp, true, RenewRun(rp, start, es).renewals, domain, now)
  {
    var e := RenewEvent.Request(domain, now);
    assert (es + [e])[..|es|] == es;
  }

  /** The table holds, for each domain with any, exactly the thresholds that were ever met. */
  ghost predicate SentExactly(table: map<string, set<int>>, warnDays: seq<int>, seen: History) {
    forall d ::
      && (d in table <==> Sent(warnDays, seen, d) != {})
      && (d in table ==> table[d] == Sent(warnDays, seen, d))
  }

  /** The thresholds sent for `d` once observation `o` has been compared with those in `done`. */
  function SentWith(warnDays: seq<int>, done: seq<int>, seen: History, o: Observation, d: string): set<int> {
    set th | th in warnDays && (EverMet(seen, d, th) || (th in done && Meets(o, d, th)))
  }

  ghost predicate SentSoFar(table: map<string, set<int>>, warnDays: seq<int>, done: seq<int>, seen: History,
                            o: Observation)
  {
    forall d ::
      && (d in table <==> SentWith(warnDays, done, seen, o, d) != {})
      && (d in table ==> table[d] == SentWith(warnDays, done, seen, o, d))
  }

  lemma SentAtFirst(table: map<string, set<int>>, warnDays: seq<int>, seen: History, o: Observation)
    requires SentExactly(table, warnDays, seen)
    ensures SentSoFar(table, warnDays, [], seen, o)
  {
    assert forall d :: SentWith(warnDays, [], seen, o, d) == Sent(warnDays, seen, d);
  }

  lemma SentOneMore(table: map<string, set<int>>, warnDays: seq<int>, done: seq<int>, th: int, seen: History,
                    o: Observation)
    requires SentSoFar(table, warnDays, done, seen, o) && th in warnDays
    ensures var sent := if o.domain in table then table[o.domain] else {};
            && (o.days <= th ==> (th in sent <==> EverMet(seen, o.domain, th) || th in done))
            && SentSoFar(if o.days <= th then table[o.domain := sent + {th}] else table, warnDays, done + [th], seen, o)
  {
    forall d
      ensures SentWith(warnDays, done + [th], seen, o, d) ==
                SentWith(warnDays, done, seen, o, d) + if Meets(o, d, th) then {th} else {}
    {
    }
    var sent := if o.domain in table then table[o.domain] else {};
    assert sent == SentWith(warnDays, done, seen, o, o.domain);
    assert o.days <= th ==> Meets(o, o.domain, th);
  }

  lemma SentAtLast(table: map<string, set<int>>, warnDays: seq<int>, seen: History, o: Observation)
    requires SentSoFar(table, warnDays, warnDays, seen, o)
    ensures SentExactly(table, warnDays, Then(seen, o))
  {
    forall d
      ensures Sent(warnDays, Then(seen, o), d) == SentWith(warnDays, warnDays, seen, o, d)
    {
    }
  }

  class CertMonitor {
    const config: Option<MonitorConfig>
    var started: bool  // the scheduler exists
    var sentWarnings: map<string, set<int>>
    var latestStatus: seq<CertInfo>
    var renewing: set<string>
    var jobs: map<string, RenewJob>
    var commands: seq<Command>
    var alerts: seq<Alert>
    ghost var seen: History  // every observation made with a configuration
    ghost var autoCalls: seq<string>  // the domains for which a check called `_run_renew`

    /** The monitor's tables are functions of what it has seen. */
    ghost predicate Valid()
      reads this
    {
      && (config.None? ==> !started)
      && (!started ==> jobs == map[])
      && (config.Some? ==>
            && alerts == AlertsOf(config.value.warnDays, seen)
            && SentExactly(sentWarnings, config.value.warnDays, seen)
            && autoCalls == AutoRenewals(config.value, seen)
            && forall d :: d in renewing <==> d in autoCalls)
    }

    constructor (config: Option<MonitorConfig>)
      ensures Valid() && this.config == config && !started && seen == Nothing
      ensures jobs == map[] && commands == [] && alerts == [] && latestStatus == []
    {
      this.config := config;
      started, sentWarnings, latestStatus, renewing := false, map[], [], {};
      jobs, commands, alerts, seen, autoCalls := map[], [], [], Nothing, [];
    }

    method RunRenewal(domain: string, now: int)
      requires config.Some?
      modifies this`jobs, this`commands
      ensures old(Valid()) ==> Valid()
      ensures config.value.renewCommand == None || config.value.renewCommand == Some("") ==>
                jobs == old(jobs) && commands == old(commands)
      ensures config.value.renewCommand != None && config.value.renewCommand != Some("") ==>
                var window := config.value.window;
                if window.Some? && started && !IsWithinWindow(window.value, now) then
                  && commands == old(commands)
                  && jobs == old(jobs)["renew-" + domain := RenewJob(NextWindowStart(window.value, now), domain)]
                else
                  jobs == old(jobs) && commands == old(commands) + [Command(domain, now)]
      ensures Renewals(jobs, commands) ==
                RunRenew(RenewPolicyOf(config.value), started, old(Renewals(jobs, commands)), domain, now)
    {
      RunRenewMeans(config.value, started, Renewals(jobs, commands), domain, now);
      if !config.value.HasCommand() {
        return;
      }
      var window := config.value.window;
      if window.Some? && started {
        if !IsWithinWindow(window.value, now) {
          var nextTime, _ := ComputeNextWindowStart(window.value, now);
          jobs := jobs[RenewId(domain) := RenewJob(nextTime, domain)];
          return;
        }
      }
      commands := commands + [Command(domain, now)];
    }

    method CheckDayThreshold(o: Observation, now: int)
      requires Valid() && config.Some?
      modifies this`sentWarnings, this`alerts, this`renewing, this`jobs, this`commands, this`seen, this`autoCalls
      ensures Valid() && seen == Then(old(seen), o)
      ensures Renewals(jobs, commands) ==
                RenewalsAfter(config.value, started, old(seen), old(Renewals(jobs, commands)), o, now)
      ensures var cfg := config.value;
              var calls := cfg.renewCommand.Some? && cfg.renewCommand.value != "" && Wants(cfg, o) &&
                           !exists e :: e in old(seen).All() && e.domain == o.domain && Wants(cfg, e);
              Renewals(jobs, commands) ==
                if calls then RunRenew(RenewPolicyOf(cfg), started, old(Renewals(jobs, commands)), o.domain, now)
                else old(Renewals(jobs, commands))
    {
      var cfg := config.value;
      TriggersIff(cfg, seen, o);
      SendAlerts(o);
      var shouldRenew := o.days <= cfg.renewThreshold || ShouldRenewByPercentage(cfg, o.days, o.lifetime);
      assert shouldRenew == Wants(cfg, o);
      seen := Then(seen, o);
      if cfg.HasCommand() && shouldRenew && o.domain !in renewing {
        renewing := renewing + {o.domain};
        autoCalls := autoCalls + [o.domain];
        RunRenewal(o.domain, now);
      }
    }

    /** The loop over the thresholds. */
    method SendAlerts(o: Observation)
      requires Valid() && config.Some?
      modifies this`sentWarnings, this`alerts
      ensures alerts == WithAlerts(old(alerts), config.value.warnDays, seen, o)
      ensures SentExactly(sentWarnings, config.value.warnDays, Then(seen, o))
    {
      var w := config.value.warnDays;
      SentAtFirst(sentWarnings, w, seen, o);
      for i := 0 to |w|
        invariant alerts == WithAlerts(old(alerts), w[..i], seen, o)
        invariant SentSoFar(sentWarnings, w, w[..i], seen, o)
      {
        assert w[..i + 1] == w[..i] + [w[i]] && w[..i + 1][..i] == w[..i];
        CompareWith(w[i], w[..i], o);
      }
      assert w[..|w|] == w;
      SentAtLast(sentWarnings, w, seen, o);
    }

    /** One round of that loop, after those for the thresholds in `done`. */
    method CompareWith(threshold: int, ghost done: seq<int>, o: Observation)
      requires config.Some? && threshold in config.value.warnDays
      requires SentSoFar(sentWarnings, config.value.warnDays, done, seen, o)
      modifies this`sentWarnings, this`alerts
      ensures alerts == WithAlert(old(alerts), threshold, done, seen, o)
      ensures SentSoFar(sentWarnings, config.value.warnDays, done + [threshold], seen, o)
    {
      SentOneMore(sentWarnings, config.value.warnDays, done, threshold, seen, o);
      if o.days <= threshold {
        var sent := if o.domain in sentWarnings then sentWarnings[o.domain] else {};
        if threshold !in sent {
          alerts := alerts + [Alert(o.domain, threshold, o.days)];
          sent := sent + {threshold};
        }
        sentWarnings := sentWarnings[o.domain := sent];
      }
    }

    /** One round of the loop in `run_check`. */
    method CheckCert(cert: CertInfo, now: int)
      requires Valid()
      modifies this`sentWarnings, this`alerts, this`renewing, this`jobs, this`commands, this`seen, this`autoCalls
      ensures Valid()
      ensures config.Some? ==>
                && seen == Observe(old(seen), cert)
                && Renewals(jobs, commands) ==
                     RenewalsAfterCert(config.value, started, old(seen), old(Renewals(jobs, commands)), cert, now)
      ensures config.None? ==> OnlyStatusChanged()
    {
      if cert.daysLeft.Some? && config.Some? {
        CheckDayThreshold(ObservationOf(cert), now);
      }
    }

    twostate predicate OnlyStatusChanged()
      reads this
    {
      && started == old(started) && jobs == old(jobs) && commands == old(commands)
      && alerts == old(alerts) && sentWarnings == old(sentWarnings) && renewing == old(renewing)
      && seen == old(seen) && autoCalls == old(autoCalls)
    }

    /** `known` lists the positions of the certificates whose days left are known. */
    method RunCheck(certs: seq<CertInfo>, clock: nat -> int) returns (r: seq<CertInfo>, ghost known: seq<nat>)
      requires Valid()
      modifies this`sentWarnings, this`alerts, this`renewing, this`jobs, this`commands, this`seen, this`autoCalls
      modifies this`latestStatus
      ensures Valid() && r == certs && latestStatus == certs
      ensures config.Some? ==>
                && seen == ObserveAll(old(seen), certs, |certs|)
                && Renewals(jobs, commands) ==
                     RenewalsAfterCheck(
                       config.value, started, old(seen), old(Renewals(jobs, commands)), certs, |certs|, clock)
      ensures Positions.Increasing(known)
      ensures forall k: nat :: k in known <==> k < |certs| && certs[k].daysLeft.Some?
      ensures config.Some? ==>
                var all, before := seen.All(), old(seen).All();
                && before <= all && |all| == |before| + |known|
                && forall i :: 0 <= i < |known| ==>
                     known[i] < |certs| && certs[known[i]].daysLeft.Some? &&
                     all[|before| + i] ==
                       Observation(certs[known[i]].domain, certs[known[i]].daysLeft.value, certs[known[i]].lifetime)
      ensures config.None? ==> OnlyStatusChanged()
    {
      for i := 0 to |certs|
        invariant Valid()
        invariant config.Some? ==>
                    && seen == ObserveAll(old(seen), certs, i)
                    && Renewals(jobs, commands) ==
                         RenewalsAfterCheck(
                           config.value, started, old(seen), old(Renewals(jobs, commands)), certs, i, clock)
        invariant config.None? ==> OnlyStatusChanged()
      {
        CheckCert(certs[i], clock(i));
      }
      latestStatus := certs;
      known := ObservedExactly(old(seen), certs, |certs|);
      return certs, known;
    }

    /**
     Starts the scheduler, with an empty table, and makes the first check.  If no renew command was run
     before, what follows is a run of the model above, of which the first check is the beginning.
     */
    method Start(certs: seq<CertInfo>, clock: nat -> int)
      requires Valid() && !started
      modifies this
      ensures Valid() && started == config.Some?
      ensures config.None? ==> OnlyStatusChanged() && latestStatus == old(latestStatus)
      ensures config.Some? ==>
                && latestStatus == certs && seen == ObserveAll(old(seen), certs, |certs|)
                && Renewals(jobs, commands) ==
                     RenewalsAfterCheck(
                       config.value, true, old(seen), Renewals(map[], old(commands)), certs, |certs|, clock)
      ensures config.Some? && old(commands) == [] && NonDecreasing(clock) ==>
                var rp := RenewPolicyOf(config.value);
                var es := WithRequests(config.value, [], old(seen), certs, |certs|, clock);
                RenewValidRun(rp, clock(0), es) && Renewals(jobs, commands) == RenewRun(rp, clock(0), es).renewals
    {
      if config.None? {
        return;
      }
      ghost var before := seen;
      started := true;
      var _, _ := RunCheck(certs, clock);
      if old(commands) == [] && NonDecreasing(clock) {
        CheckExtendsRun(config.value, clock(0), [], before, certs, |certs|, clock);
      }
    }

    /** Shuts the scheduler down; its pending jobs are gone. */
    method Stop()
      requires Valid()
      modifies this`started, this`jobs
      ensures Valid() && !started && jobs == map[]
    {
      if started {
        started, jobs := false, map[];
      }
    }

    /** The scheduler takes out a job and runs it. */
    method FireDue(id: string, now: int)
      requires Valid() && config.Some? && id in jobs
      modifies this`jobs, this`commands
      ensures Valid()
      ensures Renewals(jobs, commands) ==
                FireRenewal(RenewPolicyOf(config.value), started, old(Renewals(jobs, commands)), id, now)
    {
      var domain := jobs[id].domain;
      jobs := jobs - {id};
      RunRenewal(domain, now);
    }
  }
}
