/**
 Concurrent challenge requests (`acme_auth` and `acme_cleanup` in app/main.py, on the Git backend):
 each takes the lock, updates the shared clone (app/git_handler.py), edits the zone, commits and
 pushes, and releases the lock.

 Every request has its own program counter, and the steps of all requests interleave freely.  Other
 writers may push records that are not challenges at any time, except between a request's pull and
 its push.
 */
module ChallengeServer {
  import opened Wrappers
  import Names
  import opened ZoneHandler

  /* ---------- the clone and the remote ---------- */

  /** The local clone: the last commit and the working tree. */
  datatype Clone = NoClone | Clone(head: Repo, tree: Repo)

  predicate IsClean(c: Clone) {
    c.Clone? ==> c.tree == c.head
  }

  /** `clone_or_pull`; pulling with rebase refuses a dirty working tree. */
  function CloneOrPull(c: Clone, remote: Repo): Option<Clone> {
    if IsClean(c) then Some(Clone(remote, remote)) else None
  }

  /**
   `commit_and_push`: nothing if the tree is clean.  A push is rejected if the remote has moved on;
   the commit then stays in the clone.  The last component tells whether the push succeeded.
   */
  function CommitAndPush(c: Clone, remote: Repo): (Clone, Repo, bool)
    requires c.Clone?
  {
    if c.tree == c.head then (c, remote, true)
    else if remote != c.head then (Clone(c.tree, c.tree), remote, false)
    else (Clone(c.tree, c.tree), c.tree, true)
  }

  /* ---------- the server ---------- */

  datatype PC =
    | Waiting                      // for the lock
    | Holding                      // the lock is taken
    | Pulled                       // the clone is up to date
    | Edited(outcome: Outcome)     // the zone file is rewritten
    | Finishing(outcome: Outcome)  // all but the release of the lock is done
    | Done(outcome: Outcome)

  /** The edit of a zone that a request makes, and its outcome. */
  type Editor = (Repo, Op) -> (Repo, Outcome)

  /** The edit reports whether it changed anything. */
  ghost predicate Honest(edit: Editor) {
    forall r, op :: HonestAt(edit, r, op)
  }

  predicate HonestAt(edit: Editor, r: Repo, op: Op) {
    var (r', outcome) := edit(r, op);
    outcome.Added? || outcome.Removed? || (r' == r && (outcome.EditFailed? || outcome.Skipped?))
  }

  /** The edits of the zone handler. */
  function Edits(suffix: string): Editor {
    (r, op) => Perform(r, op, suffix)
  }

  lemma EditsAreHonest(suffix: string)
    ensures Honest(Edits(suffix))
  {
    forall r, op
      ensures HonestAt(Edits(suffix), r, op)
    {
      PerformTouchesOneRecord(r, op, suffix);
    }
  }

  /** What happened to the remote, in order. */
  datatype Entry =
    | ByRequest(id: nat, op: Op)
    | ByOthers(file: string, key: Key, values: Option<set<string>>)

  /** `log` and `acquired`, the order in which the lock was taken, are bookkeeping of the model. */
  datatype Server = Server(
    lock: Option<nat>, remote: Repo, clone: Clone, ops: seq<Op>, pcs: seq<PC>, log: seq<Entry>, acquired: seq<nat>)

  function Init(remote: Repo): Server {
    Server(None, remote, NoClone, [], [], [], [])
  }

  datatype Step =
    | Arrive(op: Op)
    | Acquire(i: nat)
    | TimeOut(i: nat)
    | Pull(i: nat)
    | Edit(i: nat)
    | Push(i: nat)
    | Release(i: nat)
    | PushByOthers(file: string, key: Key, values: Option<set<string>>)

  predicate IsChallengeKey(key: Key) {
    key.rtype == TXT && CHALLENGE_PREFIX <= key.name
  }

  /** A request has pulled and not yet pushed. */
  predicate MidEdit(st: Server) {
    st.lock.Some? && st.lock.value < |st.pcs| && (st.pcs[st.lock.value].Pulled? || st.pcs[st.lock.value].Edited?)
  }

  predicate At(st: Server, i: nat, pc: PC) {
    i < |st.pcs| && i < |st.ops| && st.pcs[i] == pc
  }

  predicate Enabled(st: Server, step: Step) {
    match step
    case Arrive(op) => ChallengeDomain(op.domain)
    case Acquire(i) => At(st, i, Waiting) && st.lock.None?
    case TimeOut(i) => At(st, i, Waiting) && st.lock.Some?
    case Pull(i) => At(st, i, Holding)
    case Edit(i) => At(st, i, Pulled) && st.clone.Clone?
    case Push(i) => i < |st.pcs| && i < |st.ops| && st.pcs[i].Edited? && st.clone.Clone?
    case Release(i) => i < |st.pcs| && st.pcs[i].Finishing?
    case PushByOthers(file, key, _) => file in st.remote.zones && !IsChallengeKey(key) && !MidEdit(st)
  }

  function Next(st: Server, step: Step, edit: Editor): Server
    requires Enabled(st, step)
  {
    match step
    case Arrive(op) => st.(ops := st.ops + [op], pcs := st.pcs + [Waiting])
    case Acquire(i) => st.(lock := Some(i), pcs := st.pcs[i := Holding], acquired := st.acquired + [i])
    case TimeOut(i) => st.(pcs := st.pcs[i := Done(Busy)])
    case Pull(i) =>
      (match CloneOrPull(st.clone, st.remote)
       case Some(c) => st.(clone := c, pcs := st.pcs[i := Pulled])
       case None => st.(pcs := st.pcs[i := Finishing(GitFailed)]))
    case Edit(i) =>
      var (tree, outcome) := edit(st.clone.tree, st.ops[i]);
      if outcome.Added? || outcome.Removed? then
        st.(clone := st.clone.(tree := tree), pcs := st.pcs[i := Edited(outcome)])
      else
        st.(pcs := st.pcs[i := Finishing(outcome)], log := st.log + [ByRequest(i, st.ops[i])])
    case Push(i) =>
      var (c, remote, pushed) := CommitAndPush(st.clone, st.remote);
      if pushed then
        st.(clone := c, remote := remote, pcs := st.pcs[i := Finishing(st.pcs[i].outcome)],
            log := st.log + [ByRequest(i, st.ops[i])])
      else
        st.(clone := c, remote := remote, pcs := st.pcs[i := Finishing(GitFailed)])
    case Release(i) => st.(lock := None, pcs := st.pcs[i := Done(st.pcs[i].outcome)])
    case PushByOthers(file, key, values) =>
      st.(remote := Write(st.remote, file, key, values), log := st.log + [ByOthers(file, key, values)])
  }

  function Run(remote: Repo, steps: seq<Step>, edit: Editor): Server {
    if steps == [] then Init(remote)
    else
      var before, step := Run(remote, steps[..|steps| - 1], edit), steps[|steps| - 1];
      if Enabled(before, step) then Next(before, step, edit) else before
  }

  /* ---------- the sequential specification ---------- */

  function ApplyEntry(before: Repo, e: Entry, edit: Editor): Repo {
    match e
    case ByRequest(_, op) => edit(before, op).0
    case ByOthers(file, key, values) => if file in before.zones then Write(before, file, key, values) else before
  }

  /** The remote after the log's entries, one after the other, without any concurrency. */
  function Replay(remote: Repo, log: seq<Entry>, edit: Editor): Repo {
    if log == [] then remote
    else ApplyEntry(Replay(remote, log[..|log| - 1], edit), log[|log| - 1], edit)
  }

  function WithId(ids: seq<nat>, e: Entry): seq<nat> {
    if e.ByRequest? then ids + [e.id] else ids
  }

  function Ids(log: seq<Entry>): seq<nat> {
    if log == [] then [] else WithId(Ids(log[..|log| - 1]), log[|log| - 1])
  }

  /** The request took effect at position `p` of the log, with the outcome it has there sequentially. */
  predicate TookEffectAt(remote: Repo, st: Server, edit: Editor, i: nat, outcome: Outcome, p: nat) {
    && i < |st.ops| && p < |st.log| && st.log[p] == ByRequest(i, st.ops[i])
    && outcome == edit(Replay(remote, st.log[..p], edit), st.ops[i]).1
  }

  ghost predicate TookEffect(remote: Repo, st: Server, edit: Editor, i: nat, outcome: Outcome) {
    exists p :: TookEffectAt(remote, st, edit, i, outcome, p)
  }

  /* ---------- invariants ---------- */

  predicate InCritical(pc: PC) {
    !pc.Waiting? && !pc.Done?
  }

  /** The lock is a mutex around the critical section. */
  predicate Exclusive(st: Server) {
    && |st.pcs| == |st.ops|
    && (st.lock.Some? ==> st.lock.value < |st.pcs|)
    && forall i: nat :: i < |st.pcs| ==> (InCritical(st.pcs[i]) <==> st.lock == Some(i))
  }

  /** The clone is clean and current whenever a request is about to rely on that. */
  predicate CloneCurrent(st: Server, edit: Editor)
    requires Exclusive(st)
  {
    if st.lock.None? then IsClean(st.clone)
    else match st.pcs[st.lock.value]
      case Pulled => st.clone == Clone(st.remote, st.remote)
      case Edited(outcome) =>
        && st.clone.Clone? && st.clone.head == st.remote && (outcome.Added? || outcome.Removed?)
        && (st.clone.tree, outcome) == edit(st.remote, st.ops[st.lock.value])
      case _ => IsClean(st.clone)
  }

  /** The requests that took the lock are those logged, in the same order, and its holder if that is not logged yet. */
  predicate InLockOrder(st: Server)
    requires Exclusive(st)
  {
    st.acquired ==
      if st.lock.Some? && !st.pcs[st.lock.value].Finishing? then Ids(st.log) + [st.lock.value] else Ids(st.log)
  }

  /** Completed requests took effect once, with their sequential outcome; others not at all. */
  ghost predicate EffectOk(remote: Repo, st: Server, edit: Editor, i: nat)
    requires i < |st.pcs|
  {
    match st.pcs[i]
    case Finishing(o) => o != Busy && TookEffect(remote, st, edit, i, o)
    case Done(o) => if o == Busy then NoEntry(st.log, i) else TookEffect(remote, st, edit, i, o)
    case _ => NoEntry(st.log, i)
  }

  predicate NoEntry(log: seq<Entry>, i: nat) {
    forall p :: 0 <= p < |log| ==> !(log[p].ByRequest? && log[p].id == i)
  }

  ghost predicate EffectsOk(remote: Repo, st: Server, edit: Editor) {
    forall i: nat :: i < |st.pcs| ==> EffectOk(remote, st, edit, i)
  }

  predicate EntriesOk(st: Server) {
    && (forall p, q :: 0 <= p < q < |st.log| && st.log[p].ByRequest? && st.log[q].ByRequest? ==>
          st.log[p].id != st.log[q].id)
    && (forall p :: 0 <= p < |st.log| && st.log[p].ByRequest? ==>
          st.log[p].id < |st.ops| && st.log[p].op == st.ops[st.log[p].id])
    && (forall p :: 0 <= p < |st.log| && st.log[p].ByOthers? ==> !IsChallengeKey(st.log[p].key))
    && (forall i :: 0 <= i < |st.ops| ==> ChallengeDomain(st.ops[i].domain))
  }

  /**
   The run so far is linearizable: the remote is what the log yields sequentially, the log has the
   requests in the order in which they took the lock, and every outcome is the sequential one.
   */
  ghost predicate Linearizable(remote: Repo, st: Server, edit: Editor) {
    && Exclusive(st)
    && CloneCurrent(st, edit)
    && st.remote == Replay(remote, st.log, edit)
    && InLockOrder(st)
    && EntriesOk(st)
    && EffectsOk(remote, st, edit)
  }

  /* ---------- every step keeps them ---------- */

  /** A request keeps its effect when others' entries are added, also when it goes from finishing to done. */
  lemma EffectKept(remote: Repo, st: Server, st': Server, edit: Editor, more: seq<Entry>, i: nat)
    requires i < |st.pcs| <= |st'.pcs| && |st.ops| == |st.pcs| && EffectOk(remote, st, edit, i)
    requires st.ops <= st'.ops && st'.log == st.log + more && NoEntry(more, i)
    requires st'.pcs[i] == st.pcs[i] || (st.pcs[i].Finishing? && st'.pcs[i] == Done(st.pcs[i].outcome))
    ensures EffectOk(remote, st', edit, i)
  {
    if st.pcs[i].Finishing? || (st.pcs[i].Done? && st.pcs[i].outcome != Busy) {
      TookEffectStays(remote, st, st', edit, i, st.pcs[i].outcome);
    } else {
      NoEntryConcat(st.log, more, i);
    }
  }

  lemma TookEffectStays(remote: Repo, st: Server, st': Server, edit: Editor, i: nat, outcome: Outcome)
    requires TookEffect(remote, st, edit, i, outcome) && st.ops <= st'.ops && st.log <= st'.log
    ensures TookEffect(remote, st', edit, i, outcome)
  {
    var p: nat :| TookEffectAt(remote, st, edit, i, outcome, p);
    assert st'.log[p] == st.log[p] && st'.log[..p] == st.log[..p];
    assert TookEffectAt(remote, st', edit, i, outcome, p);
  }

  lemma NoEntryConcat(a: seq<Entry>, b: seq<Entry>, i: nat)
    requires NoEntry(a, i) && NoEntry(b, i)
    ensures NoEntry(a + b, i)
  {
  }

  /** No counter changes but that of `moved`, which may be a new one. */
  predicate OnlyMoves(pcs: seq<PC>, pcs': seq<PC>, moved: nat) {
    && |pcs| <= |pcs'| && (moved < |pcs| ==> pcs' == pcs[moved := pcs'[moved]])
    && (moved >= |pcs| ==> pcs' == pcs || (moved == |pcs| && |pcs'| == |pcs| + 1 && pcs' == pcs + [pcs'[moved]]))
  }

  /** A step of request `moved`, existing or new, leaves the effects of all others alone. */
  lemma EffectsAfter(remote: Repo, st: Server, st': Server, edit: Editor, more: seq<Entry>, moved: nat)
    requires EffectsOk(remote, st, edit) && |st.ops| == |st.pcs| <= |st'.pcs| && moved <= |st.pcs|
    requires st.ops <= st'.ops && st'.log == st.log + more
    requires more == [] || (exists e :: more == [e] && (e.ByRequest? ==> e.id == moved))
    requires OnlyMoves(st.pcs, st'.pcs, moved)
    requires moved < |st'.pcs| ==> EffectOk(remote, st', edit, moved)
    ensures EffectsOk(remote, st', edit)
  {
    forall j: nat | j < |st'.pcs|
      ensures EffectOk(remote, st', edit, j)
    {
      if j != moved {
        assert EffectOk(remote, st, edit, j);
        EffectKept(remote, st, st', edit, more, j);
      }
    }
  }

  lemma ArriveStep(remote: Repo, st: Server, op: Op, edit: Editor)
    requires Linearizable(remote, st, edit) && ChallengeDomain(op.domain)
    ensures Linearizable(remote, Next(st, Arrive(op), edit), edit)
  {
    var st' := Next(st, Arrive(op), edit);
    EntriesKept(st, st', op);
    ArriveKeepsLock(st, op, edit);
    ArriveEffects(remote, st, st', op, edit);
  }

  lemma ArriveKeepsLock(st: Server, op: Op, edit: Editor)
    requires Exclusive(st) && CloneCurrent(st, edit) && InLockOrder(st)
    ensures var st' := st.(ops := st.ops + [op], pcs := st.pcs + [Waiting]);
            Exclusive(st') && CloneCurrent(st', edit) && InLockOrder(st')
  {
    var st' := st.(ops := st.ops + [op], pcs := st.pcs + [Waiting]);
    assert forall i: nat :: i < |st.pcs| ==> st'.pcs[i] == st.pcs[i] && st'.ops[i] == st.ops[i];
  }

  lemma ArriveEffects(remote: Repo, st: Server, st': Server, op: Op, edit: Editor)
    requires EffectsOk(remote, st, edit) && |st.ops| == |st.pcs| && NoEntry(st.log, |st.pcs|)
    requires st'.ops == st.ops + [op] && st'.pcs == st.pcs + [Waiting] && st'.log == st.log
    ensures EffectsOk(remote, st', edit)
  {
    EffectsAfter(remote, st, st', edit, [], |st.pcs|);
  }

  /** The request has not taken effect. */
  predicate Quiet(pc: PC) {
    !pc.Finishing? && (pc.Done? ==> pc.outcome == Busy)
  }

  lemma QuietEffects(remote: Repo, st: Server, st': Server, i: nat, edit: Editor)
    requires EffectsOk(remote, st, edit) && i < |st.pcs| == |st.ops| && Quiet(st.pcs[i])
    requires st'.log == st.log && st'.ops == st.ops
    requires |st'.pcs| == |st.pcs| && st'.pcs == st.pcs[i := st'.pcs[i]] && Quiet(st'.pcs[i])
    ensures EffectsOk(remote, st', edit)
  {
    assert EffectOk(remote, st, edit, i);
    EffectsAfter(remote, st, st', edit, [], i);
  }

  lemma EntriesKept(st: Server, st': Server, op: Op)
    requires EntriesOk(st) && st'.log == st.log && st'.ops == st.ops + [op] && ChallengeDomain(op.domain)
    ensures EntriesOk(st') && NoEntry(st'.log, |st.ops|)
  {
  }

  lemma AcquireOrTimeOutStep(remote: Repo, st: Server, step: Step, edit: Editor)
    requires Linearizable(remote, st, edit) && Enabled(st, step) && (step.Acquire? || step.TimeOut?)
    ensures Linearizable(remote, Next(st, step, edit), edit)
  {
    QuietEffects(remote, st, Next(st, step, edit), step.i, edit);
  }

  lemma PullStep(remote: Repo, st: Server, i: nat, edit: Editor)
    requires Linearizable(remote, st, edit) && Enabled(st, Pull(i))
    ensures Linearizable(remote, Next(st, Pull(i), edit), edit)
  {
    assert InCritical(st.pcs[i]);
    QuietEffects(remote, st, Next(st, Pull(i), edit), i, edit);
  }

  lemma ReleaseStep(remote: Repo, st: Server, i: nat, edit: Editor)
    requires Linearizable(remote, st, edit) && Enabled(st, Release(i))
    ensures Linearizable(remote, Next(st, Release(i), edit), edit)
  {
    var st' := Next(st, Release(i), edit);
    assert InCritical(st.pcs[i]) && EffectOk(remote, st, edit, i);
    EffectKept(remote, st, st', edit, [], i);
    EffectsAfter(remote, st, st', edit, [], i);
  }

  /** What a logged entry adds to the invariants about the log. */
  lemma LogGrows(remote: Repo, log: seq<Entry>, e: Entry, edit: Editor)
    ensures Replay(remote, log + [e], edit) == ApplyEntry(Replay(remote, log, edit), e, edit)
    ensures Ids(log + [e]) == WithId(Ids(log), e)
  {
    assert (log + [e])[..|log|] == log;
  }

  lemma EntryAdded(st: Server, st': Server, e: Entry)
    requires EntriesOk(st) && st'.ops == st.ops && st'.log == st.log + [e]
    requires e.ByRequest? ==> e.id < |st.ops| && e.op == st.ops[e.id] && NoEntry(st.log, e.id)
    requires e.ByOthers? ==> !IsChallengeKey(e.key)
    ensures EntriesOk(st')
  {
  }

  /** The holder of the lock takes effect: its entry is logged, and it is left to release the lock. */
  lemma TakesEffect(remote: Repo, st: Server, st': Server, i: nat, edit: Editor)
    requires i < |st.pcs| == |st.ops| && st.lock == Some(i) && !st.pcs[i].Finishing?
    requires Linearizable(remote, st, edit) && HonestAt(edit, st.remote, st.ops[i])
    requires st'.lock == st.lock && st'.ops == st.ops && st'.acquired == st.acquired
    requires st'.log == st.log + [ByRequest(i, st.ops[i])]
    requires st'.pcs == st.pcs[i := Finishing(edit(st.remote, st.ops[i]).1)]
    requires st'.remote == edit(st.remote, st.ops[i]).0
    requires IsClean(st'.clone)
    ensures Linearizable(remote, st', edit)
  {
    var e := ByRequest(i, st.ops[i]);
    LogGrows(remote, st.log, e, edit);
    assert InCritical(st.pcs[i]) && EffectOk(remote, st, edit, i) && NoEntry(st.log, i);
    EntryAdded(st, st', e);
    LoggedEffects(remote, st, st', i, edit);
  }

  lemma LoggedEffects(remote: Repo, st: Server, st': Server, i: nat, edit: Editor)
    requires i < |st.pcs| == |st.ops| && EffectsOk(remote, st, edit)
    requires st.remote == Replay(remote, st.log, edit) && edit(st.remote, st.ops[i]).1 != Busy
    requires st'.ops == st.ops && st'.log == st.log + [ByRequest(i, st.ops[i])]
    requires st'.pcs == st.pcs[i := Finishing(edit(st.remote, st.ops[i]).1)]
    ensures EffectsOk(remote, st', edit)
  {
    assert st'.log[..|st.log|] == st.log;
    assert TookEffectAt(remote, st', edit, i, st'.pcs[i].outcome, |st.log|);
    EffectsAfter(remote, st, st', edit, [ByRequest(i, st.ops[i])], i);
  }

  /** An operation that changes nothing takes effect when it is tried. */
  lemma FruitlessEditStep(remote: Repo, st: Server, i: nat, edit: Editor)
    requires Linearizable(remote, st, edit) && Honest(edit) && Enabled(st, Edit(i))
    requires var outcome := edit(st.remote, st.ops[i]).1; !outcome.Added? && !outcome.Removed?
    ensures Linearizable(remote, Next(st, Edit(i), edit), edit)
  {
    var st' := Next(st, Edit(i), edit);
    assert InCritical(st.pcs[i]);
    assert st.clone == Clone(st.remote, st.remote);
    assert HonestAt(edit, st.remote, st.ops[i]);
    TakesEffect(remote, st, st', i, edit);
  }

  lemma EditStep(remote: Repo, st: Server, i: nat, edit: Editor)
    requires Linearizable(remote, st, edit) && Honest(edit) && Enabled(st, Edit(i))
    ensures Linearizable(remote, Next(st, Edit(i), edit), edit)
  {
    var outcome := edit(st.remote, st.ops[i]).1;
    assert InCritical(st.pcs[i]);
    assert st.clone == Clone(st.remote, st.remote);
    if outcome.Added? || outcome.Removed? {
      var tree := edit(st.remote, st.ops[i]).0;
      var st' := st.(clone := Clone(st.remote, tree), pcs := st.pcs[i := Edited(outcome)]);
      assert Next(st, Edit(i), edit) == st';
      QuietEffects(remote, st, st', i, edit);
    } else {
      FruitlessEditStep(remote, st, i, edit);
    }
  }

  lemma PushStep(remote: Repo, st: Server, i: nat, edit: Editor)
    requires Linearizable(remote, st, edit) && Honest(edit) && Enabled(st, Push(i))
    ensures Linearizable(remote, Next(st, Push(i), edit), edit)
  {
    assert HonestAt(edit, st.remote, st.ops[i]);
    assert InCritical(st.pcs[i]);
    TakesEffect(remote, st, Next(st, Push(i), edit), i, edit);
  }

  lemma OthersStep(remote: Repo, st: Server, step: Step, edit: Editor)
    requires Linearizable(remote, st, edit) && Enabled(st, step) && step.PushByOthers?
    ensures Linearizable(remote, Next(st, step, edit), edit)
  {
    var e := ByOthers(step.file, step.key, step.values);
    var after := ApplyEntry(st.remote, e, edit);
    OthersLogged(remote, st, after, e, edit);
  }

  lemma OthersLogged(remote: Repo, st: Server, after: Repo, e: Entry, edit: Editor)
    requires Linearizable(remote, st, edit) && !MidEdit(st)
    requires e.ByOthers? && !IsChallengeKey(e.key) && after == ApplyEntry(st.remote, e, edit)
    ensures Linearizable(remote, st.(remote := after, log := st.log + [e]), edit)
  {
    var st' := st.(remote := after, log := st.log + [e]);
    LogGrows(remote, st.log, e, edit);
    EntryAdded(st, st', e);
    EffectsAfter(remote, st, st', edit, [e], |st.pcs|);
  }

  /** Every interleaving of any number of requests, and of pushes by others, is linearizable in lock order. */
  lemma {:induction false} EveryRunIsLinearizable(remote: Repo, steps: seq<Step>, edit: Editor)
    requires Honest(edit)
    ensures Linearizable(remote, Run(remote, steps, edit), edit)
  {
    if steps != [] {
      var step := steps[|steps| - 1];
      EveryRunIsLinearizable(remote, steps[..|steps| - 1], edit);
      var st := Run(remote, steps[..|steps| - 1], edit);
      if Enabled(st, step) {
        match step {
          case Arrive(op) => ArriveStep(remote, st, op, edit);
          case Acquire(_) => AcquireOrTimeOutStep(remote, st, step, edit);
          case TimeOut(_) => AcquireOrTimeOutStep(remote, st, step, edit);
          case Pull(i) => PullStep(remote, st, i, edit);
          case Edit(i) => EditStep(remote, st, i, edit);
          case Push(i) => PushStep(remote, st, i, edit);
          case Release(i) => ReleaseStep(remote, st, i, edit);
          case PushByOthers(_, _, _) => OthersStep(remote, st, step, edit);
        }
      }
    }
  }

  /* ---------- consequences ---------- */

  /** The holder of the lock always has a next step, so the lock is released. */
  lemma HolderCanAdvance(remote: Repo, steps: seq<Step>, suffix: string)
    ensures var st := Run(remote, steps, Edits(suffix));
            st.lock.Some? ==>
              var i := st.lock.value;
              Enabled(st, Pull(i)) || Enabled(st, Edit(i)) || Enabled(st, Push(i)) || Enabled(st, Release(i))
  {
    EditsAreHonest(suffix);
    EveryRunIsLinearizable(remote, steps, Edits(suffix));
    HolderHasStep(Run(remote, steps, Edits(suffix)), Edits(suffix));
  }

  lemma HolderHasStep(st: Server, edit: Editor)
    requires Exclusive(st) && CloneCurrent(st, edit)
    ensures st.lock.Some? ==>
              var i := st.lock.value;
              Enabled(st, Pull(i)) || Enabled(st, Edit(i)) || Enabled(st, Push(i)) || Enabled(st, Release(i))
  {
    if st.lock.Some? {
      assert InCritical(st.pcs[st.lock.value]);
    }
  }

  lemma {:induction false} ReplayKeepsFiles(remote: Repo, log: seq<Entry>, suffix: string)
    ensures var r := Replay(remote, log, Edits(suffix));
            r.entries == remote.entries && r.zones.Keys == remote.zones.Keys
  {
    if log != [] {
      ReplayKeepsFiles(remote, log[..|log| - 1], suffix);
      var e := log[|log| - 1];
      if e.ByRequest? {
        PerformTouchesOneRecord(Replay(remote, log[..|log| - 1], Edits(suffix)), e.op, suffix);
      }
    }
  }

  lemma FailureNeverChanges(remote: Repo, log: seq<Entry>, op: Op, suffix: string)
    ensures FailureOf(Replay(remote, log, Edits(suffix)), op, suffix) == FailureOf(remote, op, suffix)
  {
    var r := Replay(remote, log, Edits(suffix));
    ReplayKeepsFiles(remote, log, suffix);
    SameEntriesSameResolution(remote, r, op.domain, suffix);
  }

  /** A plain map from challenge names to values, seen at domain `d`: served requests insert, replace or delete. */
  function MapAfter(remote: Repo, log: seq<Entry>, suffix: string, before: set<string>, d: string): set<string> {
    if log == [] then before
    else
      var value := MapAfter(remote, log[..|log| - 1], suffix, before, d);
      match log[|log| - 1]
      case ByRequest(_, op) => Expected(value, op, FailureOf(remote, op, suffix).Some?, d)
      case ByOthers(_, _, _) => value
  }

  lemma EntryRefinesMap(before: Repo, e: Entry, suffix: string, d: string)
    requires ChallengeDomain(d) && (e.ByOthers? ==> !IsChallengeKey(e.key))
    ensures View(ApplyEntry(before, e, Edits(suffix)), suffix, d) ==
              if e.ByRequest? then Expected(View(before, suffix, d), e.op, FailureOf(before, e.op, suffix).Some?, d)
              else View(before, suffix, d)
  {
    match e
    case ByRequest(_, op) =>
      PerformRefinesMap(before, op, suffix, d);
      PerformIsWrite(before, op, suffix);
    case ByOthers(file, key, values) =>
      if file in before.zones {
        WriteChangesOneRecord(before, file, key, values);
        OtherViewsKept(before, Write(before, file, key, values), suffix, file, key, d);
      }
  }

  lemma {:induction false} ReplayRefinesMap(remote: Repo, log: seq<Entry>, suffix: string, d: string)
    requires ChallengeDomain(d)
    requires forall p :: 0 <= p < |log| && log[p].ByOthers? ==> !IsChallengeKey(log[p].key)
    ensures View(Replay(remote, log, Edits(suffix)), suffix, d) ==
              MapAfter(remote, log, suffix, View(remote, suffix, d), d)
  {
    if log != [] {
      var front, e := log[..|log| - 1], log[|log| - 1];
      ReplayRefinesMap(remote, front, suffix, d);
      EntryRefinesMap(Replay(remote, front, Edits(suffix)), e, suffix, d);
      if e.ByRequest? {
        FailureNeverChanges(remote, front, e.op, suffix);
      }
    }
  }

  /** In every run the published challenges of every domain are those of the plain map. */
  lemma EveryRunRefinesMap(remote: Repo, steps: seq<Step>, suffix: string, d: string)
    requires ChallengeDomain(d)
    ensures var st := Run(remote, steps, Edits(suffix));
            View(st.remote, suffix, d) == MapAfter(remote, st.log, suffix, View(remote, suffix, d), d)
  {
    EditsAreHonest(suffix);
    EveryRunIsLinearizable(remote, steps, Edits(suffix));
    ReplayRefinesMap(remote, Run(remote, steps, Edits(suffix)).log, suffix, d);
  }

  /** No request of any run ends with a Git error; and with plain files and a one-dot suffix none is out of zone. */
  lemma NoRequestBreaks(remote: Repo, steps: seq<Step>, suffix: string, i: nat)
    ensures var st := Run(remote, steps, Edits(suffix));
            i < |st.pcs| && st.pcs[i].Done? ==>
              var outcome := st.pcs[i].outcome;
              && outcome != GitFailed
              && (NoLinks(remote) && Names.OneDotSuffix(suffix) && '/' !in suffix ==> outcome != EditFailed(NotInZone))
  {
    EditsAreHonest(suffix);
    EveryRunIsLinearizable(remote, steps, Edits(suffix));
    var st := Run(remote, steps, Edits(suffix));
    if i < |st.pcs| && st.pcs[i].Done? && st.pcs[i].outcome != Busy {
      assert EffectOk(remote, st, Edits(suffix), i);
      assert TookEffect(remote, st, Edits(suffix), i, st.pcs[i].outcome);
      var p: nat :| TookEffectAt(remote, st, Edits(suffix), i, st.pcs[i].outcome, p);
      var r := Replay(remote, st.log[..p], Edits(suffix));
      PerformIsWrite(r, st.ops[i], suffix);
      ReplayKeepsFiles(remote, st.log[..p], suffix);
      if NoLinks(remote) && Names.OneDotSuffix(suffix) && '/' !in suffix {
        ChallengeIsInZone(r, st.ops[i].domain, suffix);
      }
    }
  }

  /** A finished authorization stays published until a later request for the same domain takes the lock. */
  lemma AddedStaysPublished(remote: Repo, steps: seq<Step>, suffix: string, p: nat)
    requires var st := Run(remote, steps, Edits(suffix));
             && p < |st.log| && st.log[p].ByRequest? && st.log[p].op.Auth?
             && FailureOf(remote, st.log[p].op, suffix).None?
             && forall q :: p < q < |st.log| && st.log[q].ByRequest? ==> st.log[q].op.domain != st.log[p].op.domain
    ensures var st := Run(remote, steps, Edits(suffix));
            View(st.remote, suffix, st.log[p].op.domain) == {st.log[p].op.token}
  {
    var st := Run(remote, steps, Edits(suffix));
    EditsAreHonest(suffix);
    EveryRunIsLinearizable(remote, steps, Edits(suffix));
    EveryRunRefinesMap(remote, steps, suffix, st.log[p].op.domain);
    LastRequestWins(remote, st.log, suffix, View(remote, suffix, st.log[p].op.domain), p);
  }

  lemma {:induction false} LastRequestWins(remote: Repo, log: seq<Entry>, suffix: string, before: set<string>, p: nat)
    requires p < |log| && log[p].ByRequest? && FailureOf(remote, log[p].op, suffix).None?
    requires forall q :: p < q < |log| && log[q].ByRequest? ==> log[q].op.domain != log[p].op.domain
    ensures MapAfter(remote, log, suffix, before, log[p].op.domain) == if log[p].op.Auth? then {log[p].op.token} else {}
  {
    if p < |log| - 1 {
      LastRequestWins(remote, log[..|log| - 1], suffix, before, p);
    }
  }

  /* ---------- one request, as the endpoints run it ---------- */

  /** What one request does when nothing interferes; `acquired` says whether it gets the lock in time. */
  function Serve(remote: Repo, clone: Clone, op: Op, acquired: bool, edit: Editor): (Repo, Clone, Outcome) {
    if !acquired then (remote, clone, Busy)
    else if !IsClean(clone) then (remote, clone, GitFailed)
    else
      var (after, outcome) := edit(remote, op);
      (after, Clone(after, after), outcome)
  }

  lemma RunGrows(remote: Repo, steps: seq<Step>, step: Step, edit: Editor)
    requires Enabled(Run(remote, steps, edit), step)
    ensures Run(remote, steps + [step], edit) == Next(Run(remote, steps, edit), step, edit)
  {
    assert (steps + [step])[..|steps|] == steps;
  }

  /** The new request `i`, at `pc`, and the lock taken by it. */
  function WithRequest(st: Server, op: Op, pc: PC): Server {
    st.(lock := Some(|st.pcs|), ops := st.ops + [op], pcs := st.pcs + [pc], acquired := st.acquired + [|st.pcs|])
  }

  /** The new request has done all but releasing the lock. */
  function Logged(st: Server, op: Op, edit: Editor): Server {
    var (after, outcome) := edit(st.remote, op);
    WithRequest(st, op, Finishing(outcome)).(
      log := st.log + [ByRequest(|st.pcs|, op)], remote := after, clone := Clone(after, after))
  }

  lemma ArrivesAndPulls(remote: Repo, steps: seq<Step>, op: Op, edit: Editor) returns (more: seq<Step>)
    requires var st := Run(remote, steps, edit); st.lock.None? && IsClean(st.clone) && |st.ops| == |st.pcs|
    requires ChallengeDomain(op.domain)
    ensures var st := Run(remote, steps, edit);
            Run(remote, steps + more, edit) == WithRequest(st, op, Pulled).(clone := Clone(st.remote, st.remote))
  {
    var st := Run(remote, steps, edit);
    var i := |st.pcs|;
    RunGrows(remote, steps, Arrive(op), edit);
    var arrived := steps + [Arrive(op)];
    RunGrows(remote, arrived, Acquire(i), edit);
    assert (st.pcs + [Waiting])[i := Holding] == st.pcs + [Holding];
    var holding := arrived + [Acquire(i)];
    RunGrows(remote, holding, Pull(i), edit);
    assert (st.pcs + [Holding])[i := Pulled] == st.pcs + [Pulled];
    more := [Arrive(op), Acquire(i), Pull(i)];
    assert steps + more == holding + [Pull(i)];
  }

  lemma EditsAndPushes(remote: Repo, steps: seq<Step>, st: Server, op: Op, edit: Editor) returns (more: seq<Step>)
    requires Run(remote, steps, edit) == WithRequest(st, op, Pulled).(clone := Clone(st.remote, st.remote))
    requires |st.ops| == |st.pcs| && HonestAt(edit, st.remote, op)
    ensures Run(remote, steps + more, edit) == Logged(st, op, edit)
  {
    var i := |st.pcs|;
    var (after, outcome) := edit(st.remote, op);
    RunGrows(remote, steps, Edit(i), edit);
    if outcome.Added? || outcome.Removed? {
      assert (st.pcs + [Pulled])[i := Edited(outcome)] == st.pcs + [Edited(outcome)];
      var edited := steps + [Edit(i)];
      RunGrows(remote, edited, Push(i), edit);
      assert (st.pcs + [Edited(outcome)])[i := Finishing(outcome)] == st.pcs + [Finishing(outcome)];
      more := [Edit(i), Push(i)];
      assert steps + more == edited + [Push(i)];
    } else {
      assert (st.pcs + [Pulled])[i := Finishing(outcome)] == st.pcs + [Finishing(outcome)];
      more := [Edit(i)];
    }
  }

  lemma FreeLockMeansClean(remote: Repo, steps: seq<Step>, edit: Editor)
    requires Honest(edit)
    ensures var st := Run(remote, steps, edit);
            |st.ops| == |st.pcs| && (st.lock.None? ==> IsClean(st.clone))
  {
    EveryRunIsLinearizable(remote, steps, edit);
  }

  /** A new request has gone through, to the remote, the clone and the outcome that Serve gives. */
  predicate Served(st: Server, st': Server, op: Op, edit: Editor) {
    var (after, clone, outcome) := Serve(st.remote, st.clone, op, st.lock.None?, edit);
    && st'.remote == after && st'.clone == clone && st'.lock == st.lock
    && st'.ops == st.ops + [op] && st'.pcs == st.pcs + [Done(outcome)]
  }

  lemma ServedUnderLock(remote: Repo, steps: seq<Step>, op: Op, edit: Editor) returns (more: seq<Step>)
    requires var st := Run(remote, steps, edit); st.lock.None? && IsClean(st.clone) && |st.ops| == |st.pcs|
    requires ChallengeDomain(op.domain) && HonestAt(edit, Run(remote, steps, edit).remote, op)
    ensures Served(Run(remote, steps, edit), Run(remote, steps + more, edit), op, edit)
  {
    var st := Run(remote, steps, edit);
    var first := ArrivesAndPulls(remote, steps, op, edit);
    var second := EditsAndPushes(remote, steps + first, st, op, edit);
    more := first + second + [Release(|st.pcs|)];
    assert steps + more == steps + first + second + [Release(|st.pcs|)];
    Releases(remote, steps + first + second, st, op, edit);
  }

  lemma Releases(remote: Repo, steps: seq<Step>, st: Server, op: Op, edit: Editor)
    requires st.lock.None? && IsClean(st.clone) && |st.ops| == |st.pcs|
    requires Run(remote, steps, edit) == Logged(st, op, edit)
    ensures Served(st, Run(remote, steps + [Release(|st.pcs|)], edit), op, edit)
  {
    var outcome := edit(st.remote, op).1;
    assert (st.pcs + [Finishing(outcome)])[|st.pcs| := Done(outcome)] == st.pcs + [Done(outcome)];
    RunGrows(remote, steps, Release(|st.pcs|), edit);
  }

  lemma TurnedAway(remote: Repo, steps: seq<Step>, op: Op, edit: Editor) returns (more: seq<Step>)
    requires var st := Run(remote, steps, edit); st.lock.Some? && |st.ops| == |st.pcs|
    requires ChallengeDomain(op.domain)
    ensures Served(Run(remote, steps, edit), Run(remote, steps + more, edit), op, edit)
  {
    var st := Run(remote, steps, edit);
    RunGrows(remote, steps, Arrive(op), edit);
    RunGrows(remote, steps + [Arrive(op)], TimeOut(|st.pcs|), edit);
    assert (st.pcs + [Waiting])[|st.pcs| := Done(Busy)] == st.pcs + [Done(Busy)];
    more := [Arrive(op), TimeOut(|st.pcs|)];
    assert steps + more == steps + [Arrive(op)] + [TimeOut(|st.pcs|)];
  }

  /**
   The endpoints follow the protocol: after any run, a request served without interference takes steps
   that lead to the remote, the clone and the outcome that Serve gives.
   */
  lemma ServeIsProtocolRun(remote: Repo, steps: seq<Step>, op: Op, edit: Editor) returns (more: seq<Step>)
    requires ChallengeDomain(op.domain) && Honest(edit)
    ensures Served(Run(remote, steps, edit), Run(remote, steps + more, edit), op, edit)
  {
    FreeLockMeansClean(remote, steps, edit);
    var st := Run(remote, steps, edit);
    assert HonestAt(edit, st.remote, op);
    if st.lock.None? {
      more := ServedUnderLock(remote, steps, op, edit);
    } else {
      more := TurnedAway(remote, steps, op, edit);
    }
  }

  class Webhook {
    const suffix: string
    var lockHeld: bool
    var remote: Repo
    var clone: Clone

    constructor (suffix: string, remote: Repo)
      ensures this.suffix == suffix && this.remote == remote && clone == NoClone && !lockHeld
    {
      this.suffix, this.remote, clone, lockHeld := suffix, remote, NoClone, false;
    }

    method UpdateClone() returns (ok: bool)
      modifies this`clone
      ensures ok <==> old(clone).NoClone? || old(clone).tree == old(clone).head
      ensures clone == if ok then Clone(remote, remote) else old(clone)
      ensures ok <==> CloneOrPull(old(clone), remote).Some?
      ensures clone == if ok then CloneOrPull(old(clone), remote).value else old(clone)
    {
      if clone.Clone? && clone.tree != clone.head {
        return false;
      }
      clone := Clone(remote, remote);
      ok := true;
    }

    method CommitAndPushClone() returns (ok: bool)
      requires clone.Clone?
      modifies this`clone, this`remote
      ensures var changed := old(clone).tree != old(clone).head;
              && clone == Clone(old(clone).tree, old(clone).tree)
              && ok == (changed ==> old(remote) == old(clone).head)
              && remote == if changed && ok then old(clone).tree else old(remote)
      ensures (clone, remote, ok) == CommitAndPush(old(clone), old(remote))
    {
      ok := true;
      if clone.tree != clone.head {
        ok := remote == clone.head;
        clone := Clone(clone.tree, clone.tree);
        if ok {
          remote := clone.head;
        }
      }
    }

    method AddTxtRecord(domain: string, token: string) returns (r: Result<string, EditError>)
      requires clone.Clone?
      modifies this`clone
      ensures match AddTxt(old(clone).tree, domain, token, suffix)
              case Success(tree) => r.Success? && clone == Clone(old(clone).head, tree)
              case Failure(error) => r == Failure(error) && clone == old(clone)
      ensures r.Success? ==> ResolveZonePath(old(clone).tree, domain, suffix) == Some(r.value)
    {
      var tree := clone.tree;
      ResolvedIsZone(tree, domain, suffix);
      var resolved := ComputeZonePath(tree, domain, suffix);
      if resolved.None? {
        return Failure(NoZoneFile);
      }
      var file := resolved.value;
      if !InZone(domain, file) {
        return Failure(NotInZone);
      }
      var zone := ReplaceRdataset(tree.zones[file], Key(domain, TXT), token);
      clone := Clone(clone.head, WithZone(tree, file, zone));
      return Success(file);
    }

    /** The rdataset is cleared, or created, and gets the token as its only value. */
    method ReplaceRdataset(z: Zone, key: Key, token: string) returns (zone: Zone)
      ensures zone == Put(z, key, Some({token}))
    {
      zone := z;
      var rdataset: set<string> := if key in zone then zone[key] else {};
      if key in zone {
        rdataset := {};
      }
      rdataset := rdataset + {token};
      assert rdataset == {token};
      zone := zone[key := rdataset];
    }

    method RemoveTxtRecord(domain: string) returns (removed: Option<string>)
      requires clone.Clone?
      modifies this`clone
      ensures match RemoveTxt(old(clone).tree, domain, suffix)
              case Some(tree) => removed.Some? && clone == Clone(old(clone).head, tree)
              case None => removed.None? && clone == old(clone)
      ensures removed.Some? ==> removed == ResolveZonePath(old(clone).tree, domain, suffix)
    {
      var tree := clone.tree;
      ResolvedIsZone(tree, domain, suffix);
      var resolved := ComputeZonePath(tree, domain, suffix);
      if resolved.None? {
        return None;
      }
      var zone := tree.zones[resolved.value];
      if !InZone(domain, resolved.value) || Key(domain, TXT) !in zone {
        return None;
      }
      zone := zone - {Key(domain, TXT)};
      clone := Clone(clone.head, WithZone(tree, resolved.value, zone));
      return resolved;
    }

    /** `acquired` says whether the lock was obtained in time. */
    method AcmeAuth(domain: string, token: string, acquired: bool) returns (outcome: Outcome)
      requires acquired ==> !lockHeld
      modifies this
      ensures lockHeld == old(lockHeld)
      ensures (remote, clone, outcome) ==
                Serve(old(remote), old(clone), Auth(domain, token), acquired, Edits(suffix))
      ensures !acquired ==> outcome == Busy && remote == old(remote) && clone == old(clone)
      ensures acquired && old(clone).Clone? && old(clone).tree != old(clone).head ==>
                outcome == GitFailed && remote == old(remote) && clone == old(clone)
      ensures acquired && (old(clone).NoClone? || old(clone).tree == old(clone).head) ==>
                (remote, outcome) == Perform(old(remote), Auth(domain, token), suffix) && clone == Clone(remote, remote)
    {
      if !acquired {
        return Busy;
      }
      lockHeld := true;
      outcome := AuthUnderLock(domain, token);
      lockHeld := false;
    }

    method AuthUnderLock(domain: string, token: string) returns (outcome: Outcome)
      modifies this`clone, this`remote
      ensures (remote, clone, outcome) == Serve(old(remote), old(clone), Auth(domain, token), true, Edits(suffix))
    {
      var updated := UpdateClone();
      if !updated {
        return GitFailed;
      }
      var added := AddTxtRecord(domain, token);
      if added.Failure? {
        return EditFailed(added.error);
      }
      var pushed := CommitAndPushClone();
      outcome := if pushed then Added else GitFailed;
    }

    method AcmeCleanup(domain: string, acquired: bool) returns (outcome: Outcome)
      requires acquired ==> !lockHeld
      modifies this
      ensures lockHeld == old(lockHeld)
      ensures (remote, clone, outcome) == Serve(old(remote), old(clone), Cleanup(domain), acquired, Edits(suffix))
      ensures !acquired ==> outcome == Busy && remote == old(remote) && clone == old(clone)
      ensures acquired && old(clone).Clone? && old(clone).tree != old(clone).head ==>
                outcome == GitFailed && remote == old(remote) && clone == old(clone)
      ensures acquired && (old(clone).NoClone? || old(clone).tree == old(clone).head) ==>
                (remote, outcome) == Perform(old(remote), Cleanup(domain), suffix) && clone == Clone(remote, remote)
    {
      if !acquired {
        return Busy;
      }
      lockHeld := true;
      outcome := CleanupUnderLock(domain);
      lockHeld := false;
    }

    method CleanupUnderLock(domain: string) returns (outcome: Outcome)
      modifies this`clone, this`remote
      ensures (remote, clone, outcome) == Serve(old(remote), old(clone), Cleanup(domain), true, Edits(suffix))
    {
      var updated := UpdateClone();
      if !updated {
        return GitFailed;
      }
      var removed := RemoveTxtRecord(domain);
      if removed.None? {
        return Skipped;
      }
      var pushed := CommitAndPushClone();
      outcome := if pushed then Removed else GitFailed;
    }
  }
}
