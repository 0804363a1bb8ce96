/** Lists of positions in increasing order, as a filtering loop collects them. */
module Positions {
  predicate Increasing(ps: seq<nat>) {
    forall i, j :: 0 <= i < j < |ps| ==> ps[i] < ps[j]
  }

  lemma Append(ps: seq<nat>, p: nat) returns (ps': seq<nat>)
    requires Increasing(ps) && forall q: nat :: q in ps ==> q < p
    ensures ps' == ps + [p] && Increasing(ps')
    ensures forall q: nat :: q in ps' <==> q in ps || q == p
  {
    ps' := ps + [p];
    assert forall i :: 0 <= i < |ps| ==> ps[i] in ps;
  }
}
