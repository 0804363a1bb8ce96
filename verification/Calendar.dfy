/**
 Deploy windows (app/config.py): when a window is open, and when it opens next.

 An instant is an integer number of microseconds since Monday 0001-01-01T00:00 UTC, the
 resolution and the proleptic calendar of Python's `datetime`.  A window's time zone is a
 fixed offset from UTC.
 */
module Calendar {
  /** The length of `n` days.  The factors are written out where they occur, which keeps the arithmetic linear. */
  function Days(n: int): int {
    n * 86_400_000_000
  }

  /** A wall-clock time `HH:MM`. */
  datatype Clock = Clock(hour: int, minute: int) {
    predicate Valid() {
      0 <= hour < 24 && 0 <= minute < 60
    }

    function Minutes(): int {
      hour * 60 + minute
    }

    /** The time since midnight. */
    function Time(): int {
      Minutes() * 60_000_000
    }
  }

  datatype DeployWindow = DeployWindow(start: Clock, end: Clock, days: seq<int>, offset: int)

  /** The windows whose clock times `datetime.replace` accepts. */
  type Window = w: DeployWindow | w.start.Valid() && w.end.Valid()
    witness DeployWindow(Clock(8, 0), Clock(18, 0), [1, 2, 3, 4, 5], 0)

  /* ---------- the calendar ---------- */

  function Local(w: DeployWindow, t: int): int {
    t + w.offset
  }

  /** Days since Monday 0001-01-01. */
  function DayOf(local: int): int {
    local / 86_400_000_000
  }

  function TimeOfDay(local: int): int {
    local % 86_400_000_000
  }

  function MinuteOfDay(local: int): int {
    TimeOfDay(local) / 60_000_000
  }

  /** 1 = Monday ... 7 = Sunday. */
  function IsoWeekday(local: int): int {
    DayOf(local) % 7 + 1
  }

  /* ---------- is_within_window ---------- */

  function WindowStartEnd(w: Window, t: int): (int, int) {
    var dayStart := Local(w, t) - TimeOfDay(Local(w, t));
    (dayStart + w.start.Time(), dayStart + w.end.Time())
  }

  /** The wrap test as `is_within_window` writes it: by hour, then by minute. */
  predicate WrapsByClock(w: Window) {
    w.start.hour > w.end.hour || (w.start.hour == w.end.hour && w.start.minute > w.end.minute)
  }

  predicate IsWithinWindow(w: Window, t: int) {
    var local := Local(w, t);
    var (winStart, winEnd) := WindowStartEnd(w, t);
    if IsoWeekday(local) !in w.days then false
    else if WrapsByClock(w) then local >= winStart || local < winEnd
    else winStart <= local < winEnd
  }

  /* ---------- next_window_start ---------- */

  /** The wrap test as `next_window_start` writes it: by minutes since midnight. */
  predicate WrapsByMinutes(w: Window) {
    w.start.Minutes() > w.end.Minutes()
  }

  /** The local instant at which the day search begins. */
  function FirstCandidate(w: Window, t: int): int {
    var winStart := WindowStartEnd(w, t).0;
    var localMins := MinuteOfDay(Local(w, t));
    if WrapsByMinutes(w) || localMins < w.start.Minutes() then winStart else winStart + Days(1)
  }

  /** The first of `n` consecutive days, from `local` on, that falls on an allowed weekday. */
  function DaySearch(w: Window, local: int, n: nat): int
    decreases n, w
  {
    if n == 0 || IsoWeekday(local) in w.days then local else DaySearch(w, local + Days(1), n - 1)
  }

  function NextWindowStart(w: Window, t: int): int {
    if IsWithinWindow(w, t) then t else DaySearch(w, FirstCandidate(w, t), 14) - w.offset
  }

  /** How many of `n` consecutive days the search moves past; all of them if it falls through. */
  function DaysPassed(w: Window, local: int, n: nat): nat
    decreases n, w
  {
    if n == 0 || IsoWeekday(local) in w.days then 0 else 1 + DaysPassed(w, local + Days(1), n - 1)
  }

  /** `next_window_start`, with its bounded loop over the days; `passed` counts the days it moves past. */
  method ComputeNextWindowStart(w: Window, t: int) returns (r: int, ghost passed: nat)
    ensures r == NextWindowStart(w, t)
    ensures passed == if IsWithinWindow(w, t) then 0 else DaysPassed(w, FirstCandidate(w, t), 14)
  {
    passed := 0;
    if IsWithinWindow(w, t) {
      return t, passed;
    }
    var local := Local(w, t);
    var (winStart, _) := WindowStartEnd(w, t);
    var localMins := MinuteOfDay(local);
    var startMins := w.start.Minutes();
    var wraps := startMins > w.end.Minutes();
    var candidate := if wraps || localMins < startMins then winStart else winStart + Days(1);
    assert candidate == FirstCandidate(w, t);
    candidate, passed := SearchDays(w, candidate);
    return candidate - w.offset, passed;
  }

  /** The loop over the days. */
  method SearchDays(w: Window, first: int) returns (candidate: int, ghost passed: nat)
    ensures candidate == DaySearch(w, first, 14) && passed == DaysPassed(w, first, 14)
  {
    candidate, passed := first, 0;
    for i := 0 to 14
      invariant DaySearch(w, first, 14) == DaySearch(w, candidate, 14 - i)
      invariant DaysPassed(w, first, 14) == passed + DaysPassed(w, candidate, 14 - i)
    {
      if IsoWeekday(candidate) in w.days {
        return;
      }
      candidate, passed := candidate + Days(1), passed + 1;
    }
  }

  /* ---------- vocabulary of the theorems ---------- */

  /** Whether day `d` falls on one of the window's weekdays. */
  predicate Allowed(w: Window, d: int) {
    d % 7 + 1 in w.days
  }

  predicate HasDay(w: Window) {
    exists k :: 1 <= k <= 7 && k in w.days
  }

  predicate AllDays(w: Window) {
    forall k :: 1 <= k <= 7 ==> k in w.days
  }

  /** The window has open instants at all (see NextIsOpenIff). */
  predicate Openable(w: Window) {
    w.start != w.end && HasDay(w)
  }

  /** An allowed day at exactly the window's opening time. */
  predicate IsOpening(w: Window, t: int) {
    Allowed(w, DayOf(Local(w, t))) && TimeOfDay(Local(w, t)) == w.start.Time()
  }

  /* ---------- the two formulations of the source agree ---------- */

  lemma WrapTestsAgree(w: Window)
    ensures WrapsByClock(w) == WrapsByMinutes(w)
  {
  }

  lemma Split(local: int)
    ensures local == Days(DayOf(local)) + TimeOfDay(local) && 0 <= TimeOfDay(local) < Days(1)
  {
  }

  lemma ShiftDays(local: int, k: int)
    ensures DayOf(local + Days(k)) == DayOf(local) + k
    ensures TimeOfDay(local + Days(k)) == TimeOfDay(local)
  {
  }

  lemma AllowedWithinWeek(w: Window, d: int) returns (e: int)
    requires HasDay(w)
    ensures d <= e < d + 7 && Allowed(w, e)
  {
    var k :| 1 <= k <= 7 && k in w.days;
    e := d + (k - 1 - d) % 7;
    SameRemainder(d, k - 1);
  }

  lemma SameRemainder(d: int, k: int)
    requires 0 <= k < 7
    ensures (d + (k - d) % 7) % 7 == k
  {
    var q := (k - d) / 7;
    assert d + (k - d) % 7 == k - 7 * q;
  }

  lemma AllowedMeansHasDay(w: Window, d: int)
    requires Allowed(w, d)
    ensures HasDay(w)
  {
    assert 1 <= d % 7 + 1 <= 7;
  }

  /**
   A window in terms of the local weekday, counted from Monday as 1, and the microseconds since local
   midnight: from the start on and before the end, or if the start is later than the end, either one.
   */
  lemma OpenMeans(w: Window, t: int)
    ensures var weekday := (t + w.offset) / 86_400_000_000 % 7 + 1;
            var x := (t + w.offset) % 86_400_000_000;
            var s := w.start.hour * 3_600_000_000 + w.start.minute * 60_000_000;
            var e := w.end.hour * 3_600_000_000 + w.end.minute * 60_000_000;
            IsWithinWindow(w, t) <==> weekday in w.days && if s > e then x >= s || x < e else s <= x < e
  {
    WrapTestsAgree(w);
  }

  /** Comparing truncated minutes with the start is comparing the exact local time with it. */
  lemma TruncatedMinutesSuffice(w: Window, t: int)
    ensures MinuteOfDay(Local(w, t)) < w.start.Minutes() <==> Local(w, t) < WindowStartEnd(w, t).0
  {
  }

  /** The search lands on the first allowed day, or `n` days on. */
  lemma {:induction false} DaySearchFinds(w: Window, local: int, n: nat) returns (k: nat)
    ensures k == DaysPassed(w, local, n) <= n && DaySearch(w, local, n) == local + Days(k)
    ensures forall d :: DayOf(local) <= d < DayOf(local) + k ==> !Allowed(w, d)
    ensures k < n ==> Allowed(w, DayOf(local) + k)
    ensures HasDay(w) && n >= 7 ==> k < 7
    decreases n, w
  {
    if n == 0 || IsoWeekday(local) in w.days {
      k := 0;
    } else {
      ShiftDays(local, 1);
      var j := DaySearchFinds(w, local + Days(1), n - 1);
      k := j + 1;
      if HasDay(w) && n >= 7 {
        var e := AllowedWithinWeek(w, DayOf(local));
      }
    }
  }

  /* ---------- what next_window_start returns ---------- */

  lemma AtTime(d: int, tod: int)
    requires 0 <= tod < Days(1)
    ensures DayOf(Days(d) + tod) == d && TimeOfDay(Days(d) + tod) == tod
  {
  }

  lemma FirstCandidateMeans(w: Window, t: int)
    ensures var d := DayOf(Local(w, t));
            var s, e := w.start.Time(), w.end.Time();
            FirstCandidate(w, t) == Days(FirstDay(s, e, d, TimeOfDay(Local(w, t)))) + s
  {
    TruncatedMinutesSuffice(w, t);
  }

  /** The day on which the window opens next, seen from a closed instant. */
  lemma NextDay(w: Window, t: int) returns (d: int)
    requires !IsWithinWindow(w, t)
    ensures Local(w, NextWindowStart(w, t)) == Days(d) + w.start.Time()
    ensures var s, e := w.start.Time(), w.end.Time();
            var first := FirstDay(s, e, DayOf(Local(w, t)), TimeOfDay(Local(w, t)));
            && first <= d <= first + 14
            && (forall x :: first <= x < d ==> !Allowed(w, x))
            && (d < first + 14 ==> Allowed(w, d))
            && (HasDay(w) ==> d < first + 7)
  {
    FirstCandidateMeans(w, t);
    var first := FirstDay(w.start.Time(), w.end.Time(), DayOf(Local(w, t)), TimeOfDay(Local(w, t)));
    var k := SearchFromDay(w, first, w.start.Time(), 14);
    d := first + k;
  }

  lemma SearchFromDay(w: Window, first: int, tod: int, n: nat) returns (k: nat)
    requires 0 <= tod < Days(1)
    ensures k <= n && DaySearch(w, Days(first) + tod, n) == Days(first + k) + tod
    ensures forall d :: first <= d < first + k ==> !Allowed(w, d)
    ensures k < n ==> Allowed(w, first + k)
    ensures HasDay(w) && n >= 7 ==> k < 7
  {
    AtTime(first, tod);
    k := DaySearchFinds(w, Days(first) + tod, n);
  }

  /** From a closed instant the search moves strictly forward. */
  lemma NextIsLater(w: Window, t: int)
    ensures IsWithinWindow(w, t) <==> NextWindowStart(w, t) == t
    ensures !IsWithinWindow(w, t) ==> NextWindowStart(w, t) > t
  {
    if !IsWithinWindow(w, t) {
      var d, x := Reading(w, t);
      var r := NextDay(w, t);
      LaterArithmetic(w.start.Time(), w.end.Time(), d, x, Allowed(w, d), r, Allowed(w, r));
    }
  }

  lemma LaterArithmetic(s: int, e: int, d: int, x: int, ad: bool, r: int, ar: bool)
    requires 0 <= s < Days(1) && 0 <= x < Days(1) && !(ad && OpenTime(s, e, x))
    requires FirstDay(s, e, d, x) <= r && (r < FirstDay(s, e, d, x) + 14 ==> ar) && (r == d ==> ar == ad)
    ensures Days(r) + s > Days(d) + x
  {
  }

  /** With an allowed weekday, a closed instant is followed by the least opening strictly after it. */
  lemma NextIsLeastOpening(w: Window, t: int)
    requires HasDay(w) && !IsWithinWindow(w, t)
    ensures var r := NextWindowStart(w, t);
            && t < r && IsOpening(w, r)
            && forall u :: t < u < r ==> !IsOpening(w, u)
  {
    var r := NextWindowStart(w, t);
    var s := w.start.Time();
    NextIsLater(w, t);
    var d := NextDay(w, t);
    AtTime(d, s);
    Split(Local(w, t));
    forall u | t < u < r
      ensures !IsOpening(w, u)
    {
      Split(Local(w, u));
    }
  }

  /**
   The loop of the search moves past fewer than 7 of its 14 days, unless no weekday is allowed: only
   then it moves past all of them and falls through.
   */
  lemma FallbackIffNoDay(w: Window, t: int)
    ensures var passed := DaysPassed(w, FirstCandidate(w, t), 14);
            && DaySearch(w, FirstCandidate(w, t), 14) == FirstCandidate(w, t) + Days(passed)
            && (if HasDay(w) then passed < 7 else passed == 14)
  {
    var passed := DaySearchFinds(w, FirstCandidate(w, t), 14);
    if passed < 14 {
      AllowedMeansHasDay(w, DayOf(FirstCandidate(w, t)) + passed);
    }
  }

  /** A closed instant waits at most a week, and less than a week unless the window is empty. */
  lemma WaitIsAtMostAWeek(w: Window, t: int)
    requires HasDay(w)
    ensures NextWindowStart(w, t) <= t + Days(7)
    ensures w.start != w.end ==> NextWindowStart(w, t) < t + Days(7)
  {
    if !IsWithinWindow(w, t) {
      var d, x := Reading(w, t);
      var r := NextDay(w, t);
      SameWeekday(w, d);
      WaitArithmetic(w.start.Time(), w.end.Time(), d, x, Allowed(w, d), r, Allowed(w, r));
    }
  }

  lemma SameWeekday(w: Window, d: int)
    ensures Allowed(w, d + 7) == Allowed(w, d)
  {
  }

  lemma WaitArithmetic(s: int, e: int, d: int, x: int, ad: bool, r: int, ar: bool)
    requires 0 <= s < Days(1) && 0 <= x < Days(1) && !(ad && OpenTime(s, e, x))
    requires r < FirstDay(s, e, d, x) + 7 && ar && (r == d + 7 ==> ar == ad)
    ensures Days(r) + s <= Days(d + 7) + x
    ensures s != e ==> Days(r) + s < Days(d + 7) + x
  {
  }

  /** The window is open at the instant found exactly when it is ever open at all. */
  lemma NextIsOpenIff(w: Window, t: int)
    ensures IsWithinWindow(w, NextWindowStart(w, t)) <==> Openable(w)
  {
    var r := NextWindowStart(w, t);
    OpenMeans(w, r);
    if IsWithinWindow(w, t) {
      AllowedMeansHasDay(w, DayOf(Local(w, t)));
    } else {
      var d := NextDay(w, t);
      AtTime(d, w.start.Time());
      if Allowed(w, d) {
        AllowedMeansHasDay(w, d);
      }
    }
  }

  /** `next_window_start` is idempotent at `t` exactly for windows that are ever open. */
  lemma IdempotentIff(w: Window, t: int)
    ensures NextWindowStart(w, NextWindowStart(w, t)) == NextWindowStart(w, t) <==> Openable(w)
  {
    NextIsOpenIff(w, t);
    NextIsLater(w, NextWindowStart(w, t));
  }

  /* ---------- when the result is the earliest open instant ---------- */

  /** No open instant lies between `t` and the instant found. */
  predicate FindsEarliest(w: Window, t: int) {
    forall u :: t <= u < NextWindowStart(w, t) ==> !IsWithinWindow(w, u)
  }

  /** An open instant passed over lies on the result's own day, before the end of a wrapping window. */
  lemma OnlyMorningsAreSkipped(w: Window, t: int, u: int)
    requires t <= u < NextWindowStart(w, t) && IsWithinWindow(w, u)
    ensures WrapsByClock(w) && !Allowed(w, DayOf(Local(w, t)))
    ensures HasDay(w) && DayOf(Local(w, u)) == DayOf(Local(w, NextWindowStart(w, t)))
    ensures TimeOfDay(Local(w, u)) < w.end.Time()
  {
    NextIsLater(w, t);
    var s, e := w.start.Time(), w.end.Time();
    var dt, xt := Reading(w, t);
    var du, xu := Reading(w, u);
    var r := NextDay(w, t);
    AtTime(r, s);
    AllowedMeansHasDay(w, du);
    MorningArithmetic(s, e, dt, xt, Allowed(w, dt), du, xu, Allowed(w, du), r);
    WrapTestsAgree(w);
  }

  /** Day and time of day of an instant, and whether the window is open then. */
  lemma Reading(w: Window, t: int) returns (d: int, x: int)
    ensures d == DayOf(Local(w, t)) && x == TimeOfDay(Local(w, t))
    ensures Local(w, t) == Days(d) + x && 0 <= x < Days(1)
    ensures IsWithinWindow(w, t) <==> Allowed(w, d) && OpenTime(w.start.Time(), w.end.Time(), x)
  {
    d, x := DayOf(Local(w, t)), TimeOfDay(Local(w, t));
    OpenMeans(w, t);
    Split(Local(w, t));
  }

  predicate OpenTime(s: int, e: int, x: int) {
    if s > e then x >= s || x < e else s <= x < e
  }

  function FirstDay(s: int, e: int, d: int, x: int): int {
    if s > e || x < s then d else d + 1
  }

  lemma MorningArithmetic(s: int, e: int, dt: int, xt: int, at: bool, du: int, xu: int, au: bool, r: int)
    requires 0 <= s < Days(1) && 0 <= xt < Days(1) && 0 <= xu < Days(1)
    requires !(at && OpenTime(s, e, xt)) && au && OpenTime(s, e, xu)
    requires Days(dt) + xt <= Days(du) + xu < Days(r) + s
    requires FirstDay(s, e, dt, xt) <= dt < r ==> !at
    requires FirstDay(s, e, dt, xt) <= du < r ==> !au
    requires dt == du ==> at == au
    requires FirstDay(s, e, dt, xt) <= r
    ensures s > e && !at && du == r && xu < e
  {
    assert dt <= du <= r;
  }

  /**
   From `t` the search finds the earliest open instant, unless the window wraps past midnight and
   `t` falls on a day that is not allowed.
   */
  lemma FindsEarliestIff(w: Window, t: int)
    ensures FindsEarliest(w, t) <==>
              !WrapsByClock(w) || w.end == Clock(0, 0) || !HasDay(w) || Allowed(w, DayOf(Local(w, t)))
  {
    if !FindsEarliest(w, t) {
      var u :| t <= u < NextWindowStart(w, t) && IsWithinWindow(w, u);
      Split(Local(w, u));
      OnlyMorningsAreSkipped(w, t, u);
    } else if WrapsByClock(w) && w.end != Clock(0, 0) && HasDay(w) && !Allowed(w, DayOf(Local(w, t))) {
      var u := SkippedMidnight(w, t);
    }
  }

  lemma SkippedMidnight(w: Window, t: int) returns (u: int)
    requires WrapsByClock(w) && w.end != Clock(0, 0) && HasDay(w) && !Allowed(w, DayOf(Local(w, t)))
    ensures t < u < NextWindowStart(w, t) && IsWithinWindow(w, u)
  {
    WrapTestsAgree(w);
    NextIsLater(w, t);
    var d, x := Reading(w, t);
    var r := NextDay(w, t);
    u := Days(r) - w.offset;
    AtTime(r, 0);
    var du, xu := Reading(w, u);
    assert du == r && xu == 0;
    assert d < r;
  }

  /** The windows from which no instant is ever skipped. */
  predicate GapFree(w: Window) {
    !WrapsByClock(w) || w.end == Clock(0, 0) || !HasDay(w) || AllDays(w)
  }

  lemma GapFreeIff(w: Window)
    ensures GapFree(w) <==> forall t :: FindsEarliest(w, t)
  {
    forall t | GapFree(w)
      ensures FindsEarliest(w, t)
    {
      FindsEarliestIff(w, t);
    }
    if !GapFree(w) {
      var t := ForbiddenDay(w);
      FindsEarliestIff(w, t);
    }
  }

  lemma ForbiddenDay(w: Window) returns (t: int)
    requires !AllDays(w)
    ensures !Allowed(w, DayOf(Local(w, t)))
  {
    var k :| 1 <= k <= 7 && k !in w.days;
    t := Days(k - 1) - w.offset;
    AtTime(k - 1, 0);
  }

  /** `next_window_start` is monotone exactly for the windows from which no instant is ever skipped. */
  lemma MonotoneIff(w: Window)
    ensures GapFree(w) <==> forall t, u :: t <= u ==> NextWindowStart(w, t) <= NextWindowStart(w, u)
  {
    forall t, u | GapFree(w) && t <= u
      ensures NextWindowStart(w, t) <= NextWindowStart(w, u)
    {
      FindsEarliestIff(w, t);
      NextStaysBehind(w, t, u);
    }
    if !GapFree(w) {
      var t := ForbiddenDay(w);
      var u := SkippedMidnight(w, t);
      assert t <= u && NextWindowStart(w, u) == u;
    }
  }

  lemma NextStaysBehind(w: Window, t: int, u: int)
    requires t <= u && FindsEarliest(w, t)
    ensures NextWindowStart(w, t) <= NextWindowStart(w, u)
  {
    NextIsLater(w, t);
    NextIsLater(w, u);
    if u < NextWindowStart(w, t) {
      var dt, xt := Reading(w, t);
      var du, xu := Reading(w, u);
      var r := NextDay(w, t);
      var q := NextDay(w, u);
      StaysBehindArithmetic(w.start.Time(), w.end.Time(), dt, xt, du, xu, r, q, Allowed(w, q));
    }
  }

  lemma StaysBehindArithmetic(s: int, e: int, dt: int, xt: int, du: int, xu: int, r: int, q: int, aq: bool)
    requires 0 <= s < Days(1) && 0 <= xt < Days(1) && 0 <= xu < Days(1) && Days(dt) + xt <= Days(du) + xu
    requires r <= FirstDay(s, e, dt, xt) + 14 && (FirstDay(s, e, dt, xt) <= q < r ==> !aq)
    requires FirstDay(s, e, du, xu) <= q <= FirstDay(s, e, du, xu) + 14 && (q < FirstDay(s, e, du, xu) + 14 ==> aq)
    ensures r <= q
  {
    assert dt <= du;
    assert FirstDay(s, e, dt, xt) <= FirstDay(s, e, du, xu);
  }

  /** Everything repeats weekly. */
  lemma WeeklyPeriod(w: Window, t: int)
    ensures IsWithinWindow(w, t + Days(7)) == IsWithinWindow(w, t)
    ensures NextWindowStart(w, t + Days(7)) == NextWindowStart(w, t) + Days(7)
  {
    OpenWeekly(w, t);
    FirstCandidateWeekly(w, t);
    DaySearchWeekly(w, FirstCandidate(w, t), 14);
  }

  lemma OpenWeekly(w: Window, t: int)
    ensures IsWithinWindow(w, t + Days(7)) == IsWithinWindow(w, t)
  {
    var d, x := Reading(w, t);
    var d', x' := Reading(w, t + Days(7));
    assert d' == d + 7 && x' == x;
    SameWeekday(w, d);
  }

  lemma FirstCandidateWeekly(w: Window, t: int)
    ensures FirstCandidate(w, t + Days(7)) == FirstCandidate(w, t) + Days(7)
  {
    var local := Local(w, t);
    assert Local(w, t + Days(7)) == local + Days(7);
    ShiftDays(local, 7);
    FirstCandidateMeans(w, t);
    FirstCandidateMeans(w, t + Days(7));
    FirstDayWeekly(w.start.Time(), w.end.Time(), DayOf(local), TimeOfDay(local));
  }

  lemma FirstDayWeekly(s: int, e: int, d: int, x: int)
    ensures Days(FirstDay(s, e, d + 7, x)) == Days(FirstDay(s, e, d, x)) + Days(7)
  {
  }

  lemma WeekLater(w: Window, local: int)
    ensures (IsoWeekday(local + Days(7)) in w.days) == (IsoWeekday(local) in w.days)
  {
    ShiftDays(local, 7);
    SameWeekday(w, DayOf(local));
  }

  lemma {:induction false} DaySearchWeekly(w: Window, local: int, n: nat)
    ensures DaySearch(w, local + Days(7), n) == DaySearch(w, local, n) + Days(7)
    decreases n, w
  {
    WeekLater(w, local);
    if n > 0 && IsoWeekday(local) !in w.days {
      var next := local + Days(1);
      DaySearchWeekly(w, next, n - 1);
      assert local + Days(7) + Days(1) == next + Days(7);
    }
  }

  /* ---------- when one of two windows is always open ---------- */

  /** The instant at which the window closes on local day `d`. */
  function ClosingOn(w: Window, d: int): int {
    Days(d) + w.end.Time() - w.offset
  }

  /** Both windows open every day, and each of them is open when the other one closes. */
  predicate Complementary(a: Window, b: Window) {
    && AllDays(a) && AllDays(b) && a.start != a.end && b.start != b.end
    && IsWithinWindow(a, ClosingOn(b, 0)) && IsWithinWindow(b, ClosingOn(a, 0))
  }

  /** The time since the window's end was last passed. */
  function SinceClosing(w: Window, t: int): int {
    TimeOfDay(Local(w, t) - w.end.Time())
  }

  /** How long a window of every day stays closed after its end. */
  function ClosedFor(w: Window): int {
    LaterToday(w.end.Time(), w.start.Time())
  }

  /** From time of day `x` to the next `y`, on the same day or the next one. */
  function LaterToday(x: int, y: int): int {
    if x <= y then y - x else y - x + Days(1)
  }

  lemma SinceTime(d: int, x: int, e: int)
    requires 0 <= x < Days(1) && 0 <= e < Days(1)
    ensures TimeOfDay(Days(d) + x - e) == LaterToday(e, x)
  {
    if e <= x {
      AtTime(d, x - e);
    } else {
      AtTime(d - 1, x - e + Days(1));
      assert Days(d) + x - e == Days(d - 1) + (x - e + Days(1));
    }
  }

  /** A window of every day is closed for a fixed time after its end. */
  lemma OpenBySinceClosing(w: Window, t: int)
    requires AllDays(w) && w.start != w.end
    ensures IsWithinWindow(w, t) <==> ClosedFor(w) <= SinceClosing(w, t)
  {
    var d, x := Reading(w, t);
    assert Allowed(w, d) by {
      assert 1 <= d % 7 + 1 <= 7;
    }
    SinceTime(d, x, w.end.Time());
  }

  /** A closed instant is on the first part of a day that begins when the window closes. */
  lemma LastClosing(w: Window, t: int) returns (d: int)
    ensures t - SinceClosing(w, t) == ClosingOn(w, d)
    ensures 0 <= SinceClosing(w, t) < Days(1)
  {
    d := DayOf(Local(w, t) - w.end.Time());
    Split(Local(w, t) - w.end.Time());
  }

  lemma SinceClosingEarlier(w: Window, t: int, k: int)
    requires 0 <= k <= SinceClosing(w, t)
    ensures SinceClosing(w, t - k) == SinceClosing(w, t) - k
  {
    EarlierThatDay(Local(w, t) - w.end.Time(), k);
  }

  lemma EarlierThatDay(local: int, k: int)
    requires 0 <= k <= TimeOfDay(local)
    ensures TimeOfDay(local - k) == TimeOfDay(local) - k
  {
    Split(local);
    AtTime(DayOf(local), TimeOfDay(local) - k);
    assert local - k == Days(DayOf(local)) + (TimeOfDay(local) - k);
  }

  lemma SinceClosingDaily(w: Window, t: int, d: int)
    ensures SinceClosing(w, t + Days(d)) == SinceClosing(w, t)
  {
    ShiftDays(Local(w, t) - w.end.Time(), d);
  }

  /** If both are closed at `t`, and `a` closed last, then `b` is closed when `a` closes. */
  lemma ClosedWhenLastCloses(a: Window, b: Window, t: int)
    requires AllDays(a) && AllDays(b) && a.start != a.end && b.start != b.end
    requires !IsWithinWindow(b, t) && SinceClosing(a, t) <= SinceClosing(b, t)
    ensures !IsWithinWindow(b, ClosingOn(a, 0))
  {
    var d := LastClosing(a, t);
    OpenBySinceClosing(b, t);
    SinceClosingEarlier(b, t, SinceClosing(a, t));
    assert ClosingOn(a, d) == ClosingOn(a, 0) + Days(d);
    SinceClosingDaily(b, ClosingOn(a, 0), d);
    OpenBySinceClosing(b, ClosingOn(a, 0));
  }

  lemma ClosedAtClosing(w: Window, d: int)
    ensures !IsWithinWindow(w, ClosingOn(w, d))
  {
    var day, x := Reading(w, ClosingOn(w, d));
    AtTime(d, w.end.Time());
  }

  /** On a day on which `a` is closed all day, `b` closes at some instant. */
  lemma BothClosedOn(a: Window, b: Window, d: int) returns (t: int)
    requires !Allowed(a, d)
    ensures !IsWithinWindow(a, t) && !IsWithinWindow(b, t)
  {
    var last := Days(d) + (Days(1) - 1) - a.offset;
    var k := LastClosing(b, last);
    t := ClosingOn(b, k);
    ClosedAtClosing(b, k);
    var day, x := Reading(a, t);
    AtTime(d, Days(1) - 1 - SinceClosing(b, last));
  }

  lemma NotComplementaryBothClosed(a: Window, b: Window) returns (t: int)
    requires !AllDays(a) || a.start == a.end || !IsWithinWindow(b, ClosingOn(a, 0))
    ensures !IsWithinWindow(a, t) && !IsWithinWindow(b, t)
  {
    if !AllDays(a) {
      var forbidden := ForbiddenDay(a);
      t := BothClosedOn(a, b, DayOf(Local(a, forbidden)));
    } else if a.start == a.end {
      t := ClosingOn(b, 0);
      ClosedAtClosing(b, 0);
      OpenMeans(a, t);
    } else {
      t := ClosingOn(a, 0);
      ClosedAtClosing(a, 0);
    }
  }

  /** At every instant one of two windows is open, exactly when they are complementary. */
  lemma OneAlwaysOpenIff(a: Window, b: Window)
    ensures Complementary(a, b) <==> forall t :: IsWithinWindow(a, t) || IsWithinWindow(b, t)
  {
    forall t | Complementary(a, b)
      ensures IsWithinWindow(a, t) || IsWithinWindow(b, t)
    {
      if !IsWithinWindow(a, t) && !IsWithinWindow(b, t) {
        if SinceClosing(a, t) <= SinceClosing(b, t) {
          ClosedWhenLastCloses(a, b, t);
        } else {
          ClosedWhenLastCloses(b, a, t);
        }
      }
    }
    if !AllDays(a) || a.start == a.end || !IsWithinWindow(b, ClosingOn(a, 0)) {
      var t := NotComplementaryBothClosed(a, b);
    } else if !AllDays(b) || b.start == b.end || !IsWithinWindow(a, ClosingOn(b, 0)) {
      var t := NotComplementaryBothClosed(b, a);
    }
  }
}
