/** A growable list object shared by reference, as the program's node lists, configuration
    variable lists and display lists are: callers hand one in and every operation below
    changes its contents in place. */
module Lists {

  class MutableList<T> {
    var items: seq<T>

    /** An empty list. */
    constructor ()
      ensures items == []
    {
      items := [];
    }
  }

  /** Progress of an in-place pass that turns the list s0 into r front to back: the first x
      elements already hold their final values and the rest still hold the original ones. */
  predicate DoneUpTo<T(==)>(t: seq<T>, r: seq<T>, s0: seq<T>, x: nat)
  {
    |t| == |s0| && |r| == |s0| && x <= |s0| &&
    (forall p {:trigger t[p]} :: 0 <= p < x ==> t[p] == r[p]) &&
    (forall p {:trigger t[p]} :: x <= p < |s0| ==> t[p] == s0[p])
  }

  /** A pass that has reached x is finished when the result keeps everything from x on. */
  lemma DoneIsAll<T>(t: seq<T>, r: seq<T>, s0: seq<T>, x: nat)
    requires DoneUpTo(t, r, s0, x)
    requires forall p :: x <= p < |s0| ==> r[p] == s0[p]
    ensures t == r
  {
    assert forall p :: 0 <= p < |t| ==> t[p] == r[p];
  }

  /** Exchanging two entries of a sequence keeps its multiset. */
  lemma SwapKeepsMultiset(a: seq<int>, i: nat, j: nat)
    requires i < |a| && j < |a|
    ensures multiset(a[i := a[j]][j := a[i]]) == multiset(a)
  {
    var b := a[i := a[j]];
    assert multiset(b) == multiset(a) - multiset{a[i]} + multiset{a[j]};
    assert multiset(b[j := a[i]]) == multiset(b) - multiset{b[j]} + multiset{a[i]};
  }
}
