/**
 The history-keeping model of deployments (app/targets/manager.py): what every run of submissions
 and timer firings keeps.

 Submissions are numbered in the order in which they are made.  The numbers, the submission history
 and the list of hand-overs are bookkeeping of the model: no decision depends on them, and
 DeployManager.dfy shows that the class without them behaves the same.
 */
module DeploySchedule {
  import opened Wrappers
  import opened Policies
  import Calendar

  /* ---------- job ids ---------- */

  function JobId(target: string, domain: string): string {
    "deploy-" + target + "-" + domain
  }

  /** No name continues another one after a dash. */
  predicate NoDashPrefix(names: set<string>) {
    forall a, b :: a in names && b in names ==> !(a + "-" <= b)
  }

  ghost predicate JobIdsInjective(names: set<string>) {
    forall a, b, d, e :: a in names && b in names && JobId(a, d) == JobId(b, e) ==> a == b && d == e
  }

  lemma JobIdsInjectiveIff(names: set<string>)
    ensures JobIdsInjective(names) <==> NoDashPrefix(names)
  {
    forall a, b, d, e | NoDashPrefix(names) && a in names && b in names && JobId(a, d) == JobId(b, e)
      ensures a == b && d == e
    {
      SameIdSamePair(a, d, b, e);
    }
    if !NoDashPrefix(names) {
      var a, b :| a in names && b in names && a + "-" <= b;
      CollidingDomain(a, b, "x");
    }
  }

  /** The domain for which the shorter name gets the job id of the longer one. */
  lemma CollidingDomain(a: string, b: string, e: string)
    requires a + "-" <= b
    ensures JobId(a, b[|a| + 1..] + "-" + e) == JobId(b, e)
  {
    assert b == a + "-" + b[|a| + 1..];
  }

  lemma SameIdSamePair(a: string, d: string, b: string, e: string)
    requires JobId(a, d) == JobId(b, e)
    ensures (a == b && d == e) || a + "-" <= b || b + "-" <= a
  {
    assert JobId(a, d)[7..] == a + "-" + d && JobId(b, e)[7..] == b + "-" + e;
    ShorterIsDashPrefix(a, d, b, e);
    ShorterIsDashPrefix(b, e, a, d);
    assert (a + "-" + d)[..|a|] == a && (a + "-" + d)[|a| + 1..] == d;
    assert (b + "-" + e)[..|b|] == b && (b + "-" + e)[|b| + 1..] == e;
  }

  lemma ShorterIsDashPrefix(a: string, d: string, b: string, e: string)
    requires a + "-" + d == b + "-" + e
    ensures |a| < |b| ==> a + "-" <= b
  {
    if |a| < |b| {
      assert (a + "-" + d)[..|a| + 1] == a + "-";
      assert (b + "-" + e)[..|a| + 1] == b[..|a| + 1];
    }
  }

  /* ---------- states ---------- */

  datatype Cert = Cert(fullchain: string, privkey: string)

  /** The windows of the registered targets; `None` is a target without a window. */
  type Windows = map<string, Option<Policy>>

  /** A scheduled call of `_deferred_deploy`: when, and with which arguments. */
  datatype Job = Job(runAt: int, target: string, domain: string, cert: Cert)

  datatype Pending = Pending(job: Job, serial: nat)

  datatype Submission = Submission(target: string, domain: string, cert: Cert, at: int)

  /** A call of a target's `deploy`. */
  datatype HandOver = HandOver(target: string, domain: string, cert: Cert, at: int, serial: nat)

  datatype State = State(clock: int, jobs: map<string, Pending>, history: seq<Submission>, handed: seq<HandOver>)

  function Init(start: int): State {
    State(start, map[], [], [])
  }

  /* ---------- operations ---------- */

  /** The target has a window and the window is closed. */
  predicate IsDeferred(ws: Windows, target: string, now: int) {
    target in ws && ws[target].Some? && !ws[target].value.isOpen(now)
  }

  /** One round of the loop in `deploy`. */
  function SubmitOne(ws: Windows, st: State, target: string, domain: string, cert: Cert, now: int): State {
    var serial := |st.history|;
    var logged := st.(clock := now, history := st.history + [Submission(target, domain, cert, now)]);
    if IsDeferred(ws, target, now) then
      var job := Job(ws[target].value.next(now), target, domain, cert);
      logged.(jobs := st.jobs[JobId(target, domain) := Pending(job, serial)])
    else
      logged.(handed := st.handed + [HandOver(target, domain, cert, now, serial)])
  }

  function SubmitAll(ws: Windows, st: State, targets: seq<string>, domain: string, cert: Cert, now: int): State {
    if targets == [] then st
    else
      var last := |targets| - 1;
      SubmitOne(ws, SubmitAll(ws, st, targets[..last], domain, cert, now), targets[last], domain, cert, now)
  }

  /** The scheduler removes a job and runs `_deferred_deploy` at the job's instant. */
  function Fire(ws: Windows, st: State, id: string): State
    requires id in st.jobs
  {
    var Pending(job, serial) := st.jobs[id];
    var fired := st.(clock := job.runAt, jobs := st.jobs - {id});
    if job.target in ws then
      fired.(handed := st.handed + [HandOver(job.target, job.domain, job.cert, job.runAt, serial)])
    else
      fired
  }

  /* ---------- runs ---------- */

  /** A successful batch submission to registered targets, or the firing of a job. */
  datatype Event =
    | Submit(targets: seq<string>, domain: string, cert: Cert, now: int)
    | FireJob(id: string)

  /** No job is due at `now`, and time has not passed `now`. */
  predicate NoneDue(st: State, now: int) {
    st.clock <= now && forall id :: id in st.jobs ==> now < st.jobs[id].job.runAt
  }

  /** Jobs fire at their instant, in order, and before any request with the same timestamp. */
  predicate Enabled(ws: Windows, st: State, e: Event) {
    match e
    case Submit(targets, _, _, now) =>
      NoneDue(st, now) && forall n :: n in targets ==> n in ws
    case FireJob(id) =>
      id in st.jobs && st.clock <= st.jobs[id].job.runAt &&
      forall other :: other in st.jobs ==> st.jobs[id].job.runAt <= st.jobs[other].job.runAt
  }

  function Apply(ws: Windows, st: State, e: Event): State {
    match e
    case Submit(targets, domain, cert, now) => SubmitAll(ws, st, targets, domain, cert, now)
    case FireJob(id) => if id in st.jobs then Fire(ws, st, id) else st
  }

  function Run(ws: Windows, start: int, es: seq<Event>): State {
    if es == [] then Init(start) else Apply(ws, Run(ws, start, es[..|es| - 1]), es[|es| - 1])
  }

  predicate ValidRun(ws: Windows, start: int, es: seq<Event>) {
    es == [] ||
    (ValidRun(ws, start, es[..|es| - 1]) && Enabled(ws, Run(ws, start, es[..|es| - 1]), es[|es| - 1]))
  }

  lemma RunGrows(ws: Windows, start: int, es: seq<Event>, e: Event)
    ensures Run(ws, start, es + [e]) == Apply(ws, Run(ws, start, es), e)
    ensures ValidRun(ws, start, es + [e]) <==> ValidRun(ws, start, es) && Enabled(ws, Run(ws, start, es), e)
  {
    assert (es + [e])[..|es|] == es;
  }

  /* ---------- what every run keeps, whatever the windows and names ---------- */

  /** A pending job carries the arguments and the instant that its own submission asked for. */
  predicate JobMatches(ws: Windows, st: State, id: string)
    requires id in st.jobs
  {
    var Pending(job, serial) := st.jobs[id];
    && serial < |st.history|
    && var s := st.history[serial];
       && job.target == s.target && job.domain == s.domain && job.cert == s.cert
       && id == JobId(s.target, s.domain)
       && IsDeferred(ws, s.target, s.at)
       && job.runAt == ws[s.target].value.next(s.at)
       && s.at <= st.clock <= job.runAt
  }

  /** A hand-over carries its own submission's arguments, at once or at the instant it was deferred to. */
  predicate HandOverMatches(ws: Windows, st: State, h: HandOver) {
    && h.serial < |st.history|
    && var s := st.history[h.serial];
       && h.target == s.target && h.domain == s.domain && h.cert == s.cert
       && s.target in ws
       && h.at <= st.clock
       && h.at == if IsDeferred(ws, s.target, s.at) then ws[s.target].value.next(s.at) else s.at
  }

  predicate Sound(ws: Windows, st: State) {
    && (forall id :: id in st.jobs ==> JobMatches(ws, st, id))
    && (forall k :: 0 <= k < |st.handed| ==> HandOverMatches(ws, st, st.handed[k]))
    && (forall i :: 0 <= i < |st.history| ==> st.history[i].target in ws && st.history[i].at <= st.clock)
  }

  /** Records stay right as the history grows and time passes, for a job until its instant. */
  lemma StillMatches(ws: Windows, st: State, st': State)
    requires Sound(ws, st) && st.history <= st'.history && st.clock <= st'.clock
    ensures forall id | id in st.jobs && id in st'.jobs && st'.jobs[id] == st.jobs[id] ::
              st'.clock <= st.jobs[id].job.runAt ==> JobMatches(ws, st', id)
    ensures forall k :: 0 <= k < |st.handed| ==> HandOverMatches(ws, st', st.handed[k])
  {
    forall id | id in st.jobs && id in st'.jobs && st'.jobs[id] == st.jobs[id] && st'.clock <= st.jobs[id].job.runAt
      ensures JobMatches(ws, st', id)
    {
      assert JobMatches(ws, st, id);
    }
    forall k | 0 <= k < |st.handed|
      ensures HandOverMatches(ws, st', st.handed[k])
    {
      assert HandOverMatches(ws, st, st.handed[k]);
    }
  }

  lemma SubmitOneSound(ws: Windows, st: State, target: string, domain: string, cert: Cert, now: int)
    requires Sound(ws, st) && NoneDue(st, now) && target in ws
    ensures var st' := SubmitOne(ws, st, target, domain, cert, now);
            Sound(ws, st') && NoneDue(st', now)
  {
    var st' := SubmitOne(ws, st, target, domain, cert, now);
    StillMatches(ws, st, st');
    if IsDeferred(ws, target, now) {
      assert LawfulAt(ws[target].value, now);
      var id := JobId(target, domain);
      assert st'.history[|st.history|] == Submission(target, domain, cert, now);
      assert JobMatches(ws, st', id) && now < st'.jobs[id].job.runAt;
      assert forall other :: other in st'.jobs && other != id ==> other in st.jobs && st'.jobs[other] == st.jobs[other];
    } else {
      assert HandOverMatches(ws, st', HandOver(target, domain, cert, now, |st.history|));
    }
  }

  lemma FireSound(ws: Windows, st: State, id: string)
    requires Sound(ws, st) && Enabled(ws, st, FireJob(id))
    ensures Sound(ws, Fire(ws, st, id))
  {
    assert JobMatches(ws, st, id);
    StillMatches(ws, st, Fire(ws, st, id));
  }

  lemma {:induction false} SubmitAllSound(ws: Windows, st: State, targets: seq<string>, domain: string, cert: Cert,
                                          now: int)
    requires Sound(ws, st) && NoneDue(st, now) && forall n :: n in targets ==> n in ws
    ensures var st' := SubmitAll(ws, st, targets, domain, cert, now);
            Sound(ws, st') && NoneDue(st', now)
  {
    if targets != [] {
      var last := |targets| - 1;
      SubmitAllSound(ws, st, targets[..last], domain, cert, now);
      SubmitOneSound(ws, SubmitAll(ws, st, targets[..last], domain, cert, now), targets[last], domain, cert, now);
    }
  }

  lemma {:induction false} RunSound(ws: Windows, start: int, es: seq<Event>)
    requires ValidRun(ws, start, es)
    ensures Sound(ws, Run(ws, start, es))
  {
    if es != [] {
      var front, last := es[..|es| - 1], es[|es| - 1];
      RunSound(ws, start, front);
      match last {
        case Submit(targets, domain, cert, now) =>
          SubmitAllSound(ws, Run(ws, start, front), targets, domain, cert, now);
        case FireJob(id) =>
          FireSound(ws, Run(ws, start, front), id);
      }
    }
  }

  /* ---------- nothing is lost or mixed up ---------- */

  predicate SamePair(a: Submission, b: Submission) {
    a.target == b.target && a.domain == b.domain
  }

  predicate WasDeferred(ws: Windows, s: Submission) {
    IsDeferred(ws, s.target, s.at)
  }

  predicate IsPending(st: State, i: nat) {
    exists id :: id in st.jobs && st.jobs[id].serial == i
  }

  predicate IsHanded(st: State, i: nat) {
    exists k :: 0 <= k < |st.handed| && st.handed[k].serial == i
  }

  /** Submission `j` for the same pair was deferred before the instant to which `i` had been deferred. */
  predicate Replaces(ws: Windows, st: State, j: nat, i: nat)
    requires i < |st.history| && j < |st.history|
  {
    var a, b := st.history[i], st.history[j];
    && i < j && SamePair(a, b) && WasDeferred(ws, a) && WasDeferred(ws, b)
    && b.at < ws[a.target].value.next(a.at)
  }

  predicate IsSuperseded(ws: Windows, st: State, i: nat)
    requires i < |st.history|
  {
    exists j :: i < j < |st.history| && Replaces(ws, st, j, i)
  }

  /** Every submission is exactly one of pending, handed over, and superseded. */
  predicate OneFate(ws: Windows, st: State, i: nat)
    requires i < |st.history|
  {
    && (IsPending(st, i) || IsHanded(st, i) || IsSuperseded(ws, st, i))
    && !(IsPending(st, i) && IsHanded(st, i))
    && !(IsPending(st, i) && IsSuperseded(ws, st, i))
    && !(IsHanded(st, i) && IsSuperseded(ws, st, i))
  }

  /** No submission is handed over twice. */
  predicate HandedOnce(st: State) {
    forall k, l :: 0 <= k < l < |st.handed| ==> st.handed[k].serial != st.handed[l].serial
  }

  predicate Accounted(ws: Windows, st: State) {
    && Sound(ws, st)
    && (forall i: nat :: i < |st.history| ==> OneFate(ws, st, i))
    && HandedOnce(st)
  }

  /**
   Two targets that can share a job id, and that can both be waiting: `a` since `t`, and `b`
   from `u` on, before the job of `a` is due.
   */
  predicate Clash(ws: Windows, a: string, b: string, t: int, u: int) {
    && (a + "-" <= b || b + "-" <= a)
    && IsDeferred(ws, a, t) && IsDeferred(ws, b, u)
    && t <= u < ws[a].value.next(t)
  }

  ghost predicate NoClash(ws: Windows) {
    forall a, b, t, u :: !Clash(ws, a, b, t, u)
  }

  lemma DashFreeNamesNeverClash(ws: Windows)
    requires NoDashPrefix(ws.Keys)
    ensures NoClash(ws)
  {
  }

  lemma NewFate(ws: Windows, st: State, target: string, domain: string, cert: Cert, now: int)
    requires Sound(ws, st)
    ensures OneFate(ws, SubmitOne(ws, st, target, domain, cert, now), |st.history|)
  {
    var st' := SubmitOne(ws, st, target, domain, cert, now);
    var n := |st.history|;
    assert forall id :: id in st.jobs ==> JobMatches(ws, st, id);
    assert forall k :: 0 <= k < |st.handed| ==> HandOverMatches(ws, st, st.handed[k]);
    if IsDeferred(ws, target, now) {
      assert st'.jobs[JobId(target, domain)].serial == n;
    } else {
      assert st'.handed[|st.handed|].serial == n;
    }
  }

  lemma SupersededAfter(ws: Windows, st: State, st': State, i: nat)
    requires i < |st.history| && |st'.history| == |st.history| + 1 && st.history <= st'.history
    ensures IsSuperseded(ws, st', i) <==> IsSuperseded(ws, st, i) || Replaces(ws, st', |st.history|, i)
  {
    forall j | i < j < |st.history|
      ensures Replaces(ws, st', j, i) <==> Replaces(ws, st, j, i)
    {
    }
  }

  lemma HandedAfter(st: State, st': State, i: nat)
    requires st'.handed == st.handed || (exists h :: st'.handed == st.handed + [h] && h.serial != i)
    ensures IsHanded(st', i) <==> IsHanded(st, i)
  {
    if k :| 0 <= k < |st.handed| && st.handed[k].serial == i {
      assert st'.handed[k].serial == i;
    }
  }

  /** Earlier submissions after a new one: a pending job of the same pair is superseded if the new one is deferred. */
  lemma OldFate(ws: Windows, st: State, target: string, domain: string, cert: Cert, now: int, i: nat)
    requires Sound(ws, st) && NoneDue(st, now) && target in ws && NoClash(ws)
    requires i < |st.history| && OneFate(ws, st, i)
    ensures OneFate(ws, SubmitOne(ws, st, target, domain, cert, now), i)
  {
    var st' := SubmitOne(ws, st, target, domain, cert, now);
    var n := |st.history|;
    assert st'.history[i] == st.history[i];
    SupersededAfter(ws, st, st', i);
    HandedAfter(st, st', i);
    if k :| 0 <= k < |st.handed| && st.handed[k].serial == i {
      assert HandOverMatches(ws, st, st.handed[k]);
      assert !IsPending(st, i);
    }
    if id :| id in st.jobs && st.jobs[id].serial == i {
      assert JobMatches(ws, st, id);
      OldJob(ws, st, target, domain, cert, now, id);
    } else {
      assert !IsPending(st', i);
    }
  }

  lemma OldJob(ws: Windows, st: State, target: string, domain: string, cert: Cert, now: int, id: string)
    requires Sound(ws, st) && NoneDue(st, now) && target in ws && NoClash(ws) && id in st.jobs
    ensures var st' := SubmitOne(ws, st, target, domain, cert, now);
            var i := st.jobs[id].serial;
            i < |st.history| && (IsPending(st', i) <==> !Replaces(ws, st', |st.history|, i))
  {
    var st' := SubmitOne(ws, st, target, domain, cert, now);
    var i := st.jobs[id].serial;
    assert JobMatches(ws, st, id);
    var s := st.history[i];
    if id == JobId(target, domain) {
      SameIdSamePair(s.target, s.domain, target, domain);
      assert !Clash(ws, s.target, target, s.at, now);
    }
    if IsDeferred(ws, target, now) && id == JobId(target, domain) {
      assert Replaces(ws, st', |st.history|, i);
      forall other | other in st'.jobs
        ensures st'.jobs[other].serial != i
      {
        if other != id {
          assert JobMatches(ws, st, other);
        }
      }
    } else {
      assert st'.jobs[id] == st.jobs[id];
    }
  }

  lemma SubmitOneAccounted(ws: Windows, st: State, target: string, domain: string, cert: Cert, now: int)
    requires Accounted(ws, st) && NoneDue(st, now) && target in ws && NoClash(ws)
    ensures Accounted(ws, SubmitOne(ws, st, target, domain, cert, now))
  {
    var st' := SubmitOne(ws, st, target, domain, cert, now);
    SubmitOneSound(ws, st, target, domain, cert, now);
    var n := |st.history|;
    forall i: nat | i < |st'.history|
      ensures OneFate(ws, st', i)
    {
      if i < n {
        assert OneFate(ws, st, i);
        OldFate(ws, st, target, domain, cert, now, i);
      } else {
        NewFate(ws, st, target, domain, cert, now);
      }
    }
  }

  lemma {:induction false} SubmitAllAccounted(ws: Windows, st: State, targets: seq<string>, domain: string, cert: Cert,
                                              now: int)
    requires Accounted(ws, st) && NoneDue(st, now) && NoClash(ws) && forall n :: n in targets ==> n in ws
    ensures var st' := SubmitAll(ws, st, targets, domain, cert, now);
            Accounted(ws, st') && NoneDue(st', now)
  {
    if targets != [] {
      var front := targets[..|targets| - 1];
      SubmitAllAccounted(ws, st, front, domain, cert, now);
      var mid := SubmitAll(ws, st, front, domain, cert, now);
      SubmitOneSound(ws, mid, targets[|targets| - 1], domain, cert, now);
      SubmitOneAccounted(ws, mid, targets[|targets| - 1], domain, cert, now);
    }
  }

  lemma FireAccounted(ws: Windows, st: State, id: string)
    requires Accounted(ws, st) && Enabled(ws, st, FireJob(id))
    ensures Accounted(ws, Fire(ws, st, id))
  {
    var st' := Fire(ws, st, id);
    FireSound(ws, st, id);
    assert JobMatches(ws, st, id);
    var fired := st.jobs[id].serial;
    assert IsPending(st, fired);
    forall i: nat | i < |st'.history|
      ensures OneFate(ws, st', i)
    {
      assert OneFate(ws, st, i);
      FiredFate(ws, st, id, i);
    }
    forall k, l | 0 <= k < l < |st'.handed|
      ensures st'.handed[k].serial != st'.handed[l].serial
    {
      if l == |st.handed| {
        assert OneFate(ws, st, fired);
        assert st.handed[k].serial == fired ==> IsHanded(st, fired);
      }
    }
  }

  lemma FiredFate(ws: Windows, st: State, id: string, i: nat)
    requires Sound(ws, st) && id in st.jobs && i < |st.history| && OneFate(ws, st, i)
    ensures OneFate(ws, Fire(ws, st, id), i)
  {
    var st' := Fire(ws, st, id);
    assert JobMatches(ws, st, id);
    assert IsSuperseded(ws, st', i) <==> IsSuperseded(ws, st, i) by {
      assert forall j: nat :: j < |st.history| ==> Replaces(ws, st', j, i) == Replaces(ws, st, j, i);
    }
    if st.jobs[id].serial == i {
      assert IsPending(st, i);
      assert st'.handed[|st.handed|].serial == i;
      forall other | other in st'.jobs
        ensures st'.jobs[other].serial != i
      {
        assert JobMatches(ws, st, other);
      }
    } else {
      if k :| 0 <= k < |st.handed| && st.handed[k].serial == i {
        assert st'.handed[k].serial == i;
      }
      if other :| other in st.jobs && st.jobs[other].serial == i {
        assert other in st'.jobs && st'.jobs[other].serial == i;
      }
      assert IsHanded(st', i) <==> IsHanded(st, i);
      assert IsPending(st', i) <==> IsPending(st, i);
    }
  }

  /**
   With targets that never clash, in every run every submission is exactly one of pending,
   handed over, and superseded by a later deferral of the same pair.
   */
  lemma {:induction false} NothingIsLost(ws: Windows, start: int, es: seq<Event>)
    requires NoClash(ws) && ValidRun(ws, start, es)
    ensures Accounted(ws, Run(ws, start, es))
  {
    if es != [] {
      var front := es[..|es| - 1];
      NothingIsLost(ws, start, front);
      match es[|es| - 1] {
        case Submit(targets, domain, cert, now) =>
          SubmitAllAccounted(ws, Run(ws, start, front), targets, domain, cert, now);
        case FireJob(id) =>
          FireAccounted(ws, Run(ws, start, front), id);
      }
    }
  }

  /** Two submissions, the second to `b` at `u`, of which the first is lost without a trace. */
  lemma ClashLosesJob(ws: Windows, a: string, b: string, t: int, u: int) returns (es: seq<Event>)
    requires Clash(ws, a, b, t, u)
    ensures ValidRun(ws, t, es) && !Accounted(ws, Run(ws, t, es))
  {
    var d, e := "x", "x";
    if a + "-" <= b {
      CollidingDomain(a, b, "x");
      d := b[|a| + 1..] + "-" + "x";
    } else {
      CollidingDomain(b, a, "x");
      e := a[|b| + 1..] + "-" + "x";
    }
    var c := Cert("", "");
    es := TwoSubmissions(ws, a, d, c, t, b, e, c, u);
    assert !OneFate(ws, Run(ws, t, es), 0);
  }

  /** The run that submits for `(a, d)` at `t` and for `(b, e)` at `u`, before the first job is due. */
  lemma TwoSubmissions(ws: Windows, a: string, d: string, c0: Cert, t: int, b: string, e: string, c1: Cert, u: int)
    returns (es: seq<Event>)
    requires IsDeferred(ws, a, t) && b in ws && t <= u < ws[a].value.next(t)
    ensures ValidRun(ws, t, es)
    ensures Run(ws, t, es) == SubmitOne(ws, SubmitOne(ws, Init(t), a, d, c0, t), b, e, c1, u)
  {
    var first, second := Submit([a], d, c0, t), Submit([b], e, c1, u);
    es := [first, second];
    assert es[..1] == [first] && [first][..0] == [] && [a][..0] == [] && [b][..0] == [];
    assert SubmitAll(ws, Init(t), [a], d, c0, t) == SubmitOne(ws, Init(t), a, d, c0, t);
    assert Run(ws, t, [first]) == SubmitOne(ws, Init(t), a, d, c0, t);
    assert ValidRun(ws, t, []) && Run(ws, t, []) == Init(t);
    assert Enabled(ws, Init(t), first);
    assert ValidRun(ws, t, [first]);
    var mid := Run(ws, t, [first]);
    assert SubmitAll(ws, mid, [b], e, c1, u) == SubmitOne(ws, mid, b, e, c1, u);
  }

  /** Every submission of every run is accounted for exactly when no two targets clash. */
  lemma NothingIsLostIff(ws: Windows)
    ensures NoClash(ws) <==> forall start, es :: ValidRun(ws, start, es) ==> Accounted(ws, Run(ws, start, es))
  {
    forall start, es | NoClash(ws) && ValidRun(ws, start, es)
      ensures Accounted(ws, Run(ws, start, es))
    {
      NothingIsLost(ws, start, es);
    }
    if !NoClash(ws) {
      var a, b, t, u :| Clash(ws, a, b, t, u);
      var es := ClashLosesJob(ws, a, b, t, u);
    }
  }

  /* ---------- freshness ---------- */

  /** No later submission is for the same target and domain. */
  predicate IsLatest(st: State, i: nat)
    requires i < |st.history|
  {
    forall j :: i < j < |st.history| ==> !SamePair(st.history[i], st.history[j])
  }

  /** The last hand-over to the target of `i` for its domain is that of `i`. */
  predicate LandedLast(st: State, i: nat)
    requires i < |st.history|
  {
    var s := st.history[i];
    exists k :: 0 <= k < |st.handed| && st.handed[k].serial == i &&
      forall l :: k < l < |st.handed| ==> !(st.handed[l].target == s.target && st.handed[l].domain == s.domain)
  }

  predicate PairPending(st: State, s: Submission) {
    exists id :: id in st.jobs && st.jobs[id].job.target == s.target && st.jobs[id].job.domain == s.domain
  }

  /** What a target has, or is about to get, is the most recently submitted certificate. */
  predicate Fresh(st: State) {
    forall i: nat :: i < |st.history| && IsLatest(st, i) ==>
      if PairPending(st, st.history[i]) then IsPending(st, i) else LandedLast(st, i)
  }

  /** An older certificate never lands after a newer one. */
  predicate InOrder(st: State) {
    forall k, l :: 0 <= k < l < |st.handed| &&
      st.handed[k].target == st.handed[l].target && st.handed[k].domain == st.handed[l].domain
      ==> st.handed[k].serial < st.handed[l].serial
  }

  /** Every pending job is for the latest submission of its pair. */
  predicate PendingIsLatest(st: State) {
    forall id :: id in st.jobs ==> st.jobs[id].serial < |st.history| && IsLatest(st, st.jobs[id].serial)
  }

  ghost predicate AllGapless(ws: Windows) {
    forall n :: n in ws && ws[n].Some? ==> Gapless(ws[n].value)
  }

  lemma FreshFollows(ws: Windows, st: State)
    requires Accounted(ws, st) && PendingIsLatest(st) && InOrder(st)
    ensures Fresh(st)
  {
    forall i: nat | i < |st.history| && IsLatest(st, i)
      ensures if PairPending(st, st.history[i]) then IsPending(st, i) else LandedLast(st, i)
    {
      var s := st.history[i];
      assert OneFate(ws, st, i);
      if id :| id in st.jobs && st.jobs[id].job.target == s.target && st.jobs[id].job.domain == s.domain {
        assert JobMatches(ws, st, id);
        assert st.jobs[id].serial == i;
      } else {
        forall other | other in st.jobs
          ensures st.jobs[other].serial != i
        {
          assert JobMatches(ws, st, other);
        }
        var k :| 0 <= k < |st.handed| && st.handed[k].serial == i;
        assert HandOverMatches(ws, st, st.handed[k]);
        forall l | k < l < |st.handed|
          ensures !(st.handed[l].target == s.target && st.handed[l].domain == s.domain)
        {
          assert HandOverMatches(ws, st, st.handed[l]);
        }
      }
    }
  }

  /** While no instant is skipped, a pair with a pending job is still closed, so its job is replaced. */
  lemma SubmitOneFresh(ws: Windows, st: State, target: string, domain: string, cert: Cert, now: int)
    requires Accounted(ws, st) && PendingIsLatest(st) && InOrder(st)
    requires NoneDue(st, now) && target in ws && AllGapless(ws)
    ensures var st' := SubmitOne(ws, st, target, domain, cert, now);
            PendingIsLatest(st') && InOrder(st')
  {
    var st' := SubmitOne(ws, st, target, domain, cert, now);
    forall id | id in st'.jobs
      ensures st'.jobs[id].serial < |st'.history| && IsLatest(st', st'.jobs[id].serial)
    {
      if id in st.jobs && st'.jobs[id] == st.jobs[id] {
        assert JobMatches(ws, st, id);
        assert !IsDeferred(ws, target, now) ==> !SamePair(st.history[st.jobs[id].serial], st'.history[|st.history|]);
      }
    }
    forall k, l | 0 <= k < l < |st'.handed| && st'.handed[k].target == st'.handed[l].target &&
                  st'.handed[k].domain == st'.handed[l].domain
      ensures st'.handed[k].serial < st'.handed[l].serial
    {
      if l == |st.handed| {
        assert HandOverMatches(ws, st, st.handed[k]);
      }
    }
  }

  lemma {:induction false} SubmitAllFresh(ws: Windows, st: State, targets: seq<string>, domain: string, cert: Cert,
                                          now: int)
    requires Accounted(ws, st) && PendingIsLatest(st) && InOrder(st)
    requires NoneDue(st, now) && NoClash(ws) && AllGapless(ws) && forall n :: n in targets ==> n in ws
    ensures var st' := SubmitAll(ws, st, targets, domain, cert, now);
            PendingIsLatest(st') && InOrder(st')
  {
    if targets != [] {
      var front := targets[..|targets| - 1];
      SubmitAllFresh(ws, st, front, domain, cert, now);
      SubmitAllAccounted(ws, st, front, domain, cert, now);
      SubmitOneFresh(ws, SubmitAll(ws, st, front, domain, cert, now), targets[|targets| - 1], domain, cert, now);
    }
  }

  lemma FireFresh(ws: Windows, st: State, id: string)
    requires Accounted(ws, st) && PendingIsLatest(st) && InOrder(st) && Enabled(ws, st, FireJob(id))
    ensures var st' := Fire(ws, st, id);
            PendingIsLatest(st') && InOrder(st')
  {
    var st' := Fire(ws, st, id);
    assert JobMatches(ws, st, id);
    var i := st.jobs[id].serial;
    assert OneFate(ws, st, i) && IsPending(st, i);
    forall other | other in st'.jobs
      ensures st'.jobs[other].serial < |st'.history| && IsLatest(st', st'.jobs[other].serial)
    {
      assert IsLatest(st, st.jobs[other].serial);
    }
    forall k, l | 0 <= k < l < |st'.handed| && st'.handed[k].target == st'.handed[l].target &&
                  st'.handed[k].domain == st'.handed[l].domain
      ensures st'.handed[k].serial < st'.handed[l].serial
    {
      if l == |st.handed| {
        assert HandOverMatches(ws, st, st.handed[k]);
        assert st.handed[k].serial != i;
        assert IsLatest(st, i);
      }
    }
  }

  lemma {:induction false} StaysFresh(ws: Windows, start: int, es: seq<Event>)
    requires NoClash(ws) && AllGapless(ws) && ValidRun(ws, start, es)
    ensures var st := Run(ws, start, es);
            Accounted(ws, st) && PendingIsLatest(st) && InOrder(st)
  {
    NothingIsLost(ws, start, es);
    if es != [] {
      var front := es[..|es| - 1];
      StaysFresh(ws, start, front);
      match es[|es| - 1] {
        case Submit(targets, domain, cert, now) =>
          SubmitAllFresh(ws, Run(ws, start, front), targets, domain, cert, now);
        case FireJob(id) =>
          FireFresh(ws, Run(ws, start, front), id);
      }
    }
  }

  /** A skipped opening: the second submission is handed over at once, and the older job stays pending. */
  lemma SkippedOpeningGoesStale(ws: Windows, n: string, t: int, u: int) returns (es: seq<Event>)
    requires n in ws && ws[n].Some? && t <= u < ws[n].value.next(t) && ws[n].value.isOpen(u)
    ensures ValidRun(ws, t, es) && !Fresh(Run(ws, t, es))
  {
    var p := ws[n].value;
    assert LawfulAt(p, t);
    es := TwoSubmissions(ws, n, "x", Cert("old", ""), t, n, "x", Cert("new", ""), u);
    var st := Run(ws, t, es);
    assert IsLatest(st, 1) && JobId(n, "x") in st.jobs;
    assert st.jobs == map[JobId(n, "x") := Pending(Job(p.next(t), n, "x", Cert("old", "")), 0)];
    assert PairPending(st, st.history[1]) && !IsPending(st, 1);
  }

  /**
   In every run nothing is lost, every target has or awaits the latest certificate, and no older
   certificate lands after a newer one -- exactly when no two targets clash and no search skips an
   open instant.
   */
  lemma FreshIffGapless(ws: Windows)
    ensures NoClash(ws) && AllGapless(ws) <==>
            forall start, es :: ValidRun(ws, start, es) ==>
              var st := Run(ws, start, es); Accounted(ws, st) && Fresh(st) && InOrder(st)
  {
    forall start, es | NoClash(ws) && AllGapless(ws) && ValidRun(ws, start, es)
      ensures var st := Run(ws, start, es); Accounted(ws, st) && Fresh(st) && InOrder(st)
    {
      StaysFresh(ws, start, es);
      FreshFollows(ws, Run(ws, start, es));
    }
    if !NoClash(ws) {
      NothingIsLostIff(ws);
    } else if !AllGapless(ws) {
      var n :| n in ws && ws[n].Some? && !Gapless(ws[n].value);
      var t, u :| t <= u < ws[n].value.next(t) && ws[n].value.isOpen(u);
      var es := SkippedOpeningGoesStale(ws, n, t, u);
    }
  }

  /* ---------- window safety and progress ---------- */

  /** Every hand-over to `n` happens while its window is open. */
  predicate OnlyWhenOpen(st: State, n: string, p: Policy) {
    forall k :: 0 <= k < |st.handed| && st.handed[k].target == n ==> p.isOpen(st.handed[k].at)
  }

  /** In every run all hand-overs to a target are in its window, exactly when the search ends at open instants only. */
  lemma OnlyWhenOpenIff(ws: Windows, n: string)
    requires n in ws && ws[n].Some?
    ensures LeadsToOpen(ws[n].value) <==>
            forall start, es :: ValidRun(ws, start, es) ==> OnlyWhenOpen(Run(ws, start, es), n, ws[n].value)
  {
    var p := ws[n].value;
    forall start, es | LeadsToOpen(p) && ValidRun(ws, start, es)
      ensures OnlyWhenOpen(Run(ws, start, es), n, p)
    {
      RunSound(ws, start, es);
      var st := Run(ws, start, es);
      forall k | 0 <= k < |st.handed| && st.handed[k].target == n
        ensures p.isOpen(st.handed[k].at)
      {
        assert HandOverMatches(ws, st, st.handed[k]);
      }
    }
    if !LeadsToOpen(p) {
      var t :| !p.isOpen(p.next(t));
      assert LawfulAt(p, t);
      var es := SubmitThenFire(ws, n, t);
      assert Run(ws, t, es).handed[0].target == n;
    }
  }

  /** The run that defers one submission at `t` and fires its job. */
  lemma SubmitThenFire(ws: Windows, n: string, t: int) returns (es: seq<Event>)
    requires IsDeferred(ws, n, t) && t <= ws[n].value.next(t)
    ensures ValidRun(ws, t, es)
    ensures Run(ws, t, es).handed == [HandOver(n, "x", Cert("", ""), ws[n].value.next(t), 0)]
  {
    var c := Cert("", "");
    var first, second := Submit([n], "x", c, t), FireJob(JobId(n, "x"));
    es := [first, second];
    assert es[..1] == [first] && [first][..0] == [] && [n][..0] == [];
    assert ValidRun(ws, t, []) && Run(ws, t, []) == Init(t);
    var mid := SubmitOne(ws, Init(t), n, "x", c, t);
    assert SubmitAll(ws, Init(t), [n], "x", c, t) == mid;
    assert Enabled(ws, Init(t), first);
    assert Run(ws, t, [first]) == mid && ValidRun(ws, t, [first]);
    assert Enabled(ws, mid, second);
    assert Run(ws, t, es) == Fire(ws, mid, JobId(n, "x"));
  }

  /** Whenever jobs are pending, one of them can fire. */
  lemma SomeJobCanFire(ws: Windows, st: State) returns (id: string)
    requires Sound(ws, st) && st.jobs != map[]
    ensures Enabled(ws, st, FireJob(id))
  {
    id := Earliest(st.jobs);
    assert JobMatches(ws, st, id);
  }

  lemma {:induction false} Earliest(jobs: map<string, Pending>) returns (id: string)
    requires jobs != map[]
    ensures id in jobs && forall other :: other in jobs ==> jobs[id].job.runAt <= jobs[other].job.runAt
    decreases |jobs|
  {
    var first :| first in jobs;
    var rest := jobs - {first};
    assert forall other :: other in jobs ==> other == first || other in rest;
    if rest == map[] {
      id := first;
    } else {
      var best := Earliest(rest);
      assert forall other :: other in rest ==> rest[best].job.runAt <= rest[other].job.runAt;
      id := if jobs[best].job.runAt < jobs[first].job.runAt then best else first;
      assert forall other :: other in rest ==> jobs[id].job.runAt <= rest[other].job.runAt;
    }
  }

  /* ---------- one batch ---------- */

  /** A batch writes one job for each deferred name, overwriting an earlier one, and touches no other job. */
  lemma {:induction false} BatchJobs(ws: Windows, st: State, targets: seq<string>, domain: string, cert: Cert, now: int)
    ensures var jobs := SubmitAll(ws, st, targets, domain, cert, now).jobs;
            && (forall n :: n in targets && IsDeferred(ws, n, now) ==>
                  && JobId(n, domain) in jobs
                  && jobs[JobId(n, domain)].job == Job(ws[n].value.next(now), n, domain, cert)
                  && now < jobs[JobId(n, domain)].job.runAt)
            && (forall id :: (forall n :: n in targets && IsDeferred(ws, n, now) ==> id != JobId(n, domain)) ==>
                  (id in jobs <==> id in st.jobs) && (id in jobs ==> jobs[id] == st.jobs[id]))
  {
    if targets != [] {
      var front, n := targets[..|targets| - 1], targets[|targets| - 1];
      assert targets == front + [n];
      BatchJobs(ws, st, front, domain, cert, now);
      if IsDeferred(ws, n, now) {
        assert LawfulAt(ws[n].value, now);
        forall m | m in front && JobId(m, domain) == JobId(n, domain)
          ensures m == n
        {
          SameDomainSameName(m, n, domain);
        }
      }
    }
  }

  lemma SameDomainSameName(a: string, b: string, domain: string)
    requires JobId(a, domain) == JobId(b, domain)
    ensures a == b
  {
    assert |JobId(a, domain)| == |a| + 8 + |domain| && |JobId(b, domain)| == |b| + 8 + |domain|;
    assert a == JobId(a, domain)[7..7 + |a|] && b == JobId(b, domain)[7..7 + |b|];
  }

  /* ---------- the windows of the configuration ---------- */

  type WindowTable = map<string, Option<Calendar.Window>>

  function PoliciesOf(table: WindowTable): Windows {
    map n | n in table :: OptionalPolicy(table[n])
  }

  /** Of two targets that can share a job id, one can always be deployed to at once. */
  predicate NeverClash(table: WindowTable) {
    forall m, n :: m in table && n in table && m + "-" <= n && table[m].Some? && table[n].Some? ==>
      Calendar.Complementary(table[m].value, table[n].value)
  }

  /** Without skipped instants, two targets of which one is open at every instant never both wait. */
  lemma NeverBothWait(ws: Windows, a: string, b: string, t: int, u: int)
    requires a in ws && b in ws && ws[a].Some? && ws[b].Some?
    requires Gapless(ws[a].value) && OneAlwaysOpen(ws[a].value, ws[b].value)
    ensures !Clash(ws, a, b, t, u)
  {
    assert ws[a].value.isOpen(u) || ws[b].value.isOpen(u);
  }

  lemma BothClosedClash(ws: Windows, a: string, b: string) returns (u: int)
    requires a in ws && b in ws && ws[a].Some? && ws[b].Some? && a + "-" <= b
    requires !OneAlwaysOpen(ws[a].value, ws[b].value)
    ensures Clash(ws, a, b, u, u)
  {
    u :| !(ws[a].value.isOpen(u) || ws[b].value.isOpen(u));
    assert LawfulAt(ws[a].value, u);
  }

  /** No two targets clash exactly when those that can share a job id have complementary windows. */
  lemma NeverClashIff(table: WindowTable)
    ensures NeverClash(table) <==> NoClash(PoliciesOf(table))
  {
    var ws := PoliciesOf(table);
    forall a, b, t, u | NeverClash(table)
      ensures !Clash(ws, a, b, t, u)
    {
      if a in ws && b in ws && ws[a].Some? && ws[b].Some? && (a + "-" <= b || b + "-" <= a) {
        OneAlwaysOpenIff(table[a].value, table[b].value);
        OneAlwaysOpenIff(table[b].value, table[a].value);
        NeverBothWait(ws, a, b, t, u);
      }
    }
    if !NeverClash(table) {
      var a, b :| a in table && b in table && a + "-" <= b && table[a].Some? && table[b].Some? &&
                  !Calendar.Complementary(table[a].value, table[b].value);
      OneAlwaysOpenIff(table[a].value, table[b].value);
      var u := BothClosedClash(ws, a, b);
    }
  }

  /** Every submission of every run of the configured targets is accounted for exactly when NeverClash holds. */
  lemma DeploymentsAreAccountedIff(table: WindowTable)
    ensures NeverClash(table) <==>
            forall start, es :: ValidRun(PoliciesOf(table), start, es) ==>
              Accounted(PoliciesOf(table), Run(PoliciesOf(table), start, es))
  {
    NeverClashIff(table);
    NothingIsLostIff(PoliciesOf(table));
  }

  /** No two targets clash, and no window skips an open instant. */
  predicate KeepsFresh(table: WindowTable) {
    NeverClash(table) && forall n :: n in table && table[n].Some? ==> Calendar.GapFree(table[n].value)
  }

  /**
   In every run of the configured targets nothing is lost, every target has or awaits the latest
   certificate, and no older certificate lands after a newer one -- exactly when KeepsFresh holds.
   */
  lemma DeploymentsAreFreshIff(table: WindowTable)
    ensures KeepsFresh(table) <==>
            forall start, es :: ValidRun(PoliciesOf(table), start, es) ==>
              var st := Run(PoliciesOf(table), start, es); Accounted(PoliciesOf(table), st) && Fresh(st) && InOrder(st)
  {
    FreshIffGapless(PoliciesOf(table));
    NeverClashIff(table);
    forall n | n in table && table[n].Some?
      ensures Gapless(PoliciesOf(table)[n].value) <==> Calendar.GapFree(table[n].value)
    {
      GaplessIff(table[n].value);
    }
    assert AllGapless(PoliciesOf(table)) <==>
        forall n :: n in table && table[n].Some? ==> Calendar.GapFree(table[n].value);
  }

  lemma FreshRun(table: WindowTable, start: int, es: seq<Event>)
    requires KeepsFresh(table) && ValidRun(PoliciesOf(table), start, es)
    ensures var st := Run(PoliciesOf(table), start, es);
            Accounted(PoliciesOf(table), st) && Fresh(st) && InOrder(st)
  {
    var ws := PoliciesOf(table);
    NeverClashIff(table);
    forall n | n in ws && ws[n].Some?
      ensures Gapless(ws[n].value)
    {
      GaplessIff(table[n].value);
    }
    StaysFresh(ws, start, es);
    FreshFollows(ws, Run(ws, start, es));
  }

  /** All hand-overs to a configured target, in all runs, are in its window exactly when that window is ever open. */
  lemma OnlyInWindowIff(table: WindowTable, n: string)
    requires n in table && table[n].Some?
    ensures Calendar.Openable(table[n].value) <==>
            forall start, es :: ValidRun(PoliciesOf(table), start, es) ==>
              InWindow(Run(PoliciesOf(table), start, es), n, table[n].value)
  {
    OnlyWhenOpenIff(PoliciesOf(table), n);
    LeadsToOpenIff(table[n].value);
    assert forall st :: OnlyWhenOpen(st, n, PoliciesOf(table)[n].value) <==> InWindow(st, n, table[n].value);
  }

  /** Every hand-over to `n` happens at an instant in the window. */
  predicate InWindow(st: State, n: string, w: Calendar.Window) {
    forall k :: 0 <= k < |st.handed| && st.handed[k].target == n ==> Calendar.IsWithinWindow(w, st.handed[k].at)
  }

  lemma InWindowRun(table: WindowTable, n: string, start: int, es: seq<Event>)
    requires n in table && table[n].Some? && Calendar.Openable(table[n].value)
    requires ValidRun(PoliciesOf(table), start, es)
    ensures InWindow(Run(PoliciesOf(table), start, es), n, table[n].value)
  {
    OnlyInWindowIff(table, n);
    assert ValidRun(PoliciesOf(table), start, es) ==> InWindow(Run(PoliciesOf(table), start, es), n, table[n].value);
  }
}
