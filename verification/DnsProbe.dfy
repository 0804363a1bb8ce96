/**
 The propagation polling loop (app/dns_probe.py).  What the name servers answer is an oracle:
 `answers(r, p)` is whether the server at position `p` of the list returns the expected value in
 round `r`.
 */
module DnsProbe {
  type Answers = (nat, nat) -> bool

  /** The returned dictionary, or the ValueError that `time.sleep` raises for a negative interval. */
  datatype Propagation =
    | Polled(matched: seq<string>, pending: seq<string>, elapsed: int)
    | SleepError

  /** In round `r` all of the first `n` servers answer as expected. */
  predicate AllMatch(answers: Answers, n: nat, r: nat) {
    forall p: nat :: p < n ==> answers(r, p)
  }

  /** The time elapsed when round `k` starts. */
  function Start(k: nat, interval: int): int {
    if k == 0 then 0 else Start(k - 1, interval) + interval
  }

  lemma {:induction false} StartIs(k: nat, interval: int)
    ensures Start(k, interval) == k * interval
  {
    if k > 0 {
      StartIs(k - 1, interval);
    }
  }

  lemma {:induction false} StartsInOrder(k: nat, l: nat, interval: nat)
    requires k <= l
    ensures Start(k, interval) <= Start(l, interval)
  {
    if k < l {
      StartsInOrder(k, l - 1, interval);
    }
  }

  /** The loop is at the head of round `k`: time is left, and no earlier round was complete. */
  predicate StillPolling(answers: Answers, n: nat, timeout: int, interval: int, k: nat) {
    Start(k, interval) < timeout && forall q: nat :: q < k ==> !AllMatch(answers, n, q)
  }

  /** The positions, of the first `n`, of the servers that answer `want` in round `r`. */
  function Positions(answers: Answers, n: nat, r: nat, want: bool): seq<nat> {
    if n == 0 then []
    else
      var front := Positions(answers, n - 1, r, want);
      if answers(r, n - 1) == want then front + [n - 1] else front
  }

  /** A selection lists exactly the positions with the wanted answer, in increasing order. */
  lemma {:induction false} PositionsExact(answers: Answers, n: nat, r: nat, want: bool)
    ensures var ps := Positions(answers, n, r, want);
            && (forall p: nat :: p in ps <==> p < n && answers(r, p) == want)
            && (forall k, l :: 0 <= k < l < |ps| ==> ps[k] < ps[l])
  {
    if n > 0 {
      PositionsExact(answers, n - 1, r, want);
      var front := Positions(answers, n - 1, r, want);
      assert forall k :: 0 <= k < |front| ==> front[k] in front;
    }
  }

  /** The servers, among the first `n`, that answer `want` in round `r`. */
  function Selected(names: seq<string>, answers: Answers, n: nat, r: nat, want: bool): seq<string>
    requires n <= |names|
  {
    if n == 0 then []
    else
      var front := Selected(names, answers, n - 1, r, want);
      if answers(r, n - 1) == want then front + [names[n - 1]] else front
  }

  /** A selection keeps the listed order: it is the list at its positions, which increase. */
  lemma {:induction false} SelectedAtPositions(names: seq<string>, answers: Answers, n: nat, r: nat, want: bool)
    requires n <= |names|
    ensures forall p :: p in Positions(answers, n, r, want) ==> p < |names|
    ensures |Selected(names, answers, n, r, want)| == |Positions(answers, n, r, want)|
    ensures forall k :: 0 <= k < |Positions(answers, n, r, want)| ==>
              Positions(answers, n, r, want)[k] < |names| &&
              Selected(names, answers, n, r, want)[k] == names[Positions(answers, n, r, want)[k]]
  {
    if n > 0 {
      SelectedAtPositions(names, answers, n - 1, r, want);
    }
  }

  /** In a complete round everything is selected, in order; otherwise something is pending. */
  lemma {:induction false} CompleteSelectsAll(names: seq<string>, answers: Answers, n: nat, r: nat)
    requires n <= |names|
    ensures AllMatch(answers, n, r) ==> Selected(names, answers, n, r, true) == names[..n]
    ensures AllMatch(answers, n, r) <==> Selected(names, answers, n, r, false) == []
  {
    if n > 0 {
      CompleteSelectsAll(names, answers, n - 1, r);
      assert AllMatch(answers, n, r) <==> AllMatch(answers, n - 1, r) && answers(r, n - 1);
      assert names[..n] == names[..n - 1] + [names[n - 1]];
    }
  }

  /** The loop is left eventually: time runs out, `time.sleep` raises, or some round is complete. */
  ghost predicate Ends(answers: Answers, n: nat, timeout: int, interval: int) {
    timeout <= 0 || interval != 0 || exists r: nat :: AllMatch(answers, n, r)
  }

  /** The precondition is exact: without it the loop never stops polling. */
  lemma PollsForeverIff(answers: Answers, n: nat, timeout: int, interval: nat)
    ensures Ends(answers, n, timeout, interval) <==> exists k: nat :: !StillPolling(answers, n, timeout, interval, k)
  {
    if timeout <= 0 {
      assert !StillPolling(answers, n, timeout, interval, 0);
    } else if interval > 0 {
      StartIs(timeout, interval);
      assert timeout * interval >= timeout;
      assert !StillPolling(answers, n, timeout, interval, timeout);
    } else if r: nat :| AllMatch(answers, n, r) {
      assert !StillPolling(answers, n, timeout, interval, r + 1);
    } else {
      forall k: nat
        ensures StillPolling(answers, n, timeout, interval, k)
      {
        StartIs(k, interval);
      }
    }
  }

  /** Round `r` starts before the timeout and is complete. */
  predicate CompleteInTime(answers: Answers, n: nat, timeout: int, interval: int, r: nat) {
    Start(r, interval) < timeout && AllMatch(answers, n, r)
  }

  /** Polling ends with round `rounds - 1`, started in time: it is the first complete one. */
  ghost predicate FirstComplete(names: seq<string>, timeout: int, interval: int, answers: Answers,
                                result: Propagation, rounds: nat)
  {
    && timeout > 0 && rounds > 0 && StillPolling(answers, |names|, timeout, interval, rounds - 1)
    && AllMatch(answers, |names|, rounds - 1)
    && result == Polled(names, [], Start(rounds - 1, interval))
  }

  /** Exactly the rounds that start in time are made, none is complete, and the last one is reported. */
  ghost predicate TimedOut(names: seq<string>, timeout: int, interval: int, answers: Answers,
                           result: Propagation, rounds: nat)
  {
    && (forall q: nat :: q < rounds ==> !AllMatch(answers, |names|, q))
    && timeout <= Start(rounds, interval)
    && (rounds > 0 ==> Start(rounds - 1, interval) < timeout)
    && result == if rounds == 0 then Polled([], names, timeout) else
                   Polled(Selected(names, answers, |names|, rounds - 1, true),
                          Selected(names, answers, |names|, rounds - 1, false), timeout)
  }

  /** Nothing is pending in the end exactly if some round in time is complete. */
  lemma EmptyIffCompleteInTime(names: seq<string>, timeout: int, interval: nat, answers: Answers,
                               result: Propagation, rounds: nat)
    requires timeout > 0
    requires || FirstComplete(names, timeout, interval, answers, result, rounds)
             || TimedOut(names, timeout, interval, answers, result, rounds)
    ensures result.pending == [] <==> exists r: nat :: CompleteInTime(answers, |names|, timeout, interval, r)
  {
    if FirstComplete(names, timeout, interval, answers, result, rounds) {
      assert CompleteInTime(answers, |names|, timeout, interval, rounds - 1);
    } else {
      assert rounds > 0;
      CompleteSelectsAll(names, answers, |names|, rounds - 1);
      forall r: nat
        ensures !CompleteInTime(answers, |names|, timeout, interval, r)
      {
        if rounds <= r {
          StartsInOrder(rounds, r, interval);
        }
      }
    }
  }

  /** A poll that times out makes as many rounds as the timeout divided by the interval, rounded up. */
  lemma RoundsAreCeiling(timeout: int, interval: int, rounds: nat)
    requires interval > 0 && rounds > 0 && Start(rounds - 1, interval) < timeout <= Start(rounds, interval)
    ensures rounds == (timeout + interval - 1) / interval
  {
    StartIs(rounds, interval);
    StartIs(rounds - 1, interval);
    assert (rounds - 1) * interval == rounds * interval - interval;
    QuotientIs(timeout + interval - 1, interval, rounds);
  }

  lemma QuotientIs(n: int, k: int, q: int)
    requires k > 0 && q * k <= n < q * k + k
    ensures q == n / k
  {
    var d := n / k;
    assert d * k <= n < d * k + k;
    AtLeastOneMore(q, d, k);
    AtLeastOneMore(d, q, k);
  }

  lemma {:induction false} AtLeastOneMore(a: int, b: int, k: int)
    requires k > 0
    ensures a < b ==> a * k + k <= b * k
    decreases b - a
  {
    if a < b {
      AtLeastOneMore(a + 1, b, k);
      assert (a + 1) * k == a * k + k;
    }
  }

  /** The inner loop: one round of queries. */
  method PollRound(names: seq<string>, r: nat, answers: Answers) returns (matched: seq<string>, pending: seq<string>)
    ensures matched == Selected(names, answers, |names|, r, true)
    ensures pending == Selected(names, answers, |names|, r, false)
  {
    matched, pending := [], [];
    for p := 0 to |names|
      invariant matched == Selected(names, answers, p, r, true)
      invariant pending == Selected(names, answers, p, r, false)
    {
      if answers(r, p) {
        matched := matched + [names[p]];
      } else {
        pending := pending + [names[p]];
      }
    }
  }

  method CheckPropagation(names: seq<string>, timeout: int, interval: int, answers: Answers)
    returns (result: Propagation, rounds: nat)
    requires Ends(answers, |names|, timeout, interval)
    ensures result.SleepError? <==> interval < 0 < timeout && !AllMatch(answers, |names|, 0)
    ensures result.Polled? ==>
              || FirstComplete(names, timeout, interval, answers, result, rounds)
              || TimedOut(names, timeout, interval, answers, result, rounds)
    ensures result.Polled? && timeout > 0 && interval >= 0 ==>
              (result.pending == [] <==> exists r: nat :: CompleteInTime(answers, |names|, timeout, interval, r))
  {
    var elapsed := 0;
    var matched: seq<string>, pending: seq<string> := [], names;
    rounds := 0;
    ghost var bound: nat := if r: nat :| AllMatch(answers, |names|, r) then r else 0;
    while elapsed < timeout
      invariant elapsed == Start(rounds, interval)
      invariant timeout <= 0 || interval < 0 ==> rounds == 0
      invariant rounds > 0 ==> Start(rounds - 1, interval) < timeout
      invariant forall q: nat :: q < rounds ==> !AllMatch(answers, |names|, q)
      invariant matched == if rounds == 0 then [] else Selected(names, answers, |names|, rounds - 1, true)
      invariant pending == if rounds == 0 then names else Selected(names, answers, |names|, rounds - 1, false)
      decreases if interval == 0 then bound - rounds else timeout - elapsed
    {
      matched, pending := PollRound(names, rounds, answers);
      CompleteSelectsAll(names, answers, |names|, rounds);
      rounds := rounds + 1;
      if pending == [] {
        result := Polled(matched, [], elapsed);
        if interval >= 0 {
          EmptyIffCompleteInTime(names, timeout, interval, answers, result, rounds);
        }
        return;
      }
      if interval < 0 {
        return SleepError, rounds;
      }
      elapsed := elapsed + interval;
    }
    result := Polled(matched, pending, timeout);
    if timeout > 0 {
      EmptyIffCompleteInTime(names, timeout, interval, answers, result, rounds);
    }
  }
}
