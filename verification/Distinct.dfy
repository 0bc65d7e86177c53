/** Keeping the first occurrence of each id: the `seen` loops of SendToUsers and CreateGroupChat. */
module Distinct {

  /** The ids of `xs` outside `seen`, each once, in order of first occurrence. */
  function Firsts(xs: seq<nat>, seen: set<nat>): seq<nat> {
    if xs == [] then []
    else
      var init, last := Firsts(xs[..|xs| - 1], seen), xs[|xs| - 1];
      if last in seen || last in init then init else init + [last]
  }

  ghost predicate AllDistinct(xs: seq<nat>) {
    forall i, j | 0 <= i < j < |xs| :: xs[i] != xs[j]
  }

  lemma OneMoreDistinct(xs: seq<nat>, x: nat)
    ensures AllDistinct(xs + [x]) <==> AllDistinct(xs) && x !in xs
  {
    var ys := xs + [x];
    assert forall i | 0 <= i < |xs| :: ys[i] == xs[i];
    assert ys[|xs|] == x;
  }

  lemma FirstsAppend(xs: seq<nat>, x: nat, seen: set<nat>)
    ensures Firsts(xs + [x], seen)
         == if x in seen || x in Firsts(xs, seen) then Firsts(xs, seen) else Firsts(xs, seen) + [x]
  {
    assert (xs + [x])[..|xs|] == xs;
  }

  /** Nothing outside `seen` is lost and nothing is kept twice. */
  lemma {:induction false} FirstsKeepAll(xs: seq<nat>, seen: set<nat>)
    ensures AllDistinct(Firsts(xs, seen))
    ensures forall x :: x in Firsts(xs, seen) <==> x in xs && x !in seen
  {
    if xs != [] {
      FirstsKeepAll(xs[..|xs| - 1], seen);
      assert xs == xs[..|xs| - 1] + [xs[|xs| - 1]];
    }
  }

  lemma FirstsNonEmpty(xs: seq<nat>)
    ensures Firsts(xs, {}) == [] <==> xs == []
  {
    FirstsKeepAll(xs, {});
    if xs != [] {
      assert xs[0] in Firsts(xs, {});
    }
  }
}
