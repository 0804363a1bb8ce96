/**
 What scheduling needs to know of a deploy window: when it is open and where the search for its next
 opening leads.  Reasoning about runs uses the two laws below only; the windows of Calendar obey them.
 */
module Policies {
  import opened Wrappers
  import Calendar

  datatype RawPolicy = Policy(isOpen: int -> bool, next: int -> int)

  /** The search stays exactly at open instants, and otherwise moves strictly forward. */
  predicate LawfulAt(p: RawPolicy, t: int) {
    (p.isOpen(t) <==> p.next(t) == t) && p.next(t) >= t
  }

  type Policy = p: RawPolicy | forall t :: LawfulAt(p, t)
    witness Policy(t => true, t => t)

  function PolicyOf(w: Calendar.Window): Policy {
    var p := Policy((t: int) => Calendar.IsWithinWindow(w, t), (t: int) => Calendar.NextWindowStart(w, t));
    assert forall t :: LawfulAt(p, t) by {
      forall t
        ensures LawfulAt(p, t)
      {
        Calendar.NextIsLater(w, t);
      }
    }
    p
  }

  lemma PolicyOfMeans(w: Calendar.Window, t: int)
    ensures PolicyOf(w).isOpen(t) == Calendar.IsWithinWindow(w, t)
    ensures PolicyOf(w).next(t) == Calendar.NextWindowStart(w, t)
  {
  }

  function OptionalPolicy(w: Option<Calendar.Window>): Option<Policy> {
    if w.Some? then Some(PolicyOf(w.value)) else None
  }

  /** No open instant is skipped by the search from a closed one. */
  ghost predicate Gapless(p: Policy) {
    forall t, u :: t <= u < p.next(t) ==> !p.isOpen(u)
  }

  /** The search always leads to an open instant. */
  ghost predicate LeadsToOpen(p: Policy) {
    forall t :: p.isOpen(p.next(t))
  }

  lemma GaplessIff(w: Calendar.Window)
    ensures Gapless(PolicyOf(w)) <==> Calendar.GapFree(w)
  {
    var p := PolicyOf(w);
    Calendar.GapFreeIff(w);
    if Calendar.GapFree(w) {
      forall t, u | t <= u < p.next(t)
        ensures !p.isOpen(u)
      {
        assert Calendar.FindsEarliest(w, t);
      }
    } else {
      var t :| !Calendar.FindsEarliest(w, t);
      var u :| t <= u < Calendar.NextWindowStart(w, t) && Calendar.IsWithinWindow(w, u);
      assert t <= u < p.next(t) && p.isOpen(u);
    }
  }

  lemma LeadsToOpenIff(w: Calendar.Window)
    ensures LeadsToOpen(PolicyOf(w)) <==> Calendar.Openable(w)
  {
    var p := PolicyOf(w);
    forall t
      ensures p.isOpen(p.next(t)) <==> Calendar.Openable(w)
    {
      Calendar.NextIsOpenIff(w, t);
    }
    assert Calendar.Openable(w) || !p.isOpen(p.next(0));
  }

  /** At every instant one of the two is open. */
  ghost predicate OneAlwaysOpen(p: Policy, q: Policy) {
    forall t :: p.isOpen(t) || q.isOpen(t)
  }

  /** For configured windows: exactly for complementary ones, and then neither skips an open instant. */
  lemma OneAlwaysOpenIff(a: Calendar.Window, b: Calendar.Window)
    ensures OneAlwaysOpen(PolicyOf(a), PolicyOf(b)) <==> Calendar.Complementary(a, b)
    ensures Calendar.Complementary(a, b) ==> Gapless(PolicyOf(a)) && Gapless(PolicyOf(b))
  {
    var p, q := PolicyOf(a), PolicyOf(b);
    Calendar.OneAlwaysOpenIff(a, b);
    assert forall t :: p.isOpen(t) == Calendar.IsWithinWindow(a, t) && q.isOpen(t) == Calendar.IsWithinWindow(b, t);
    GaplessIff(a);
    GaplessIff(b);
  }
}
