/** Values shared by several components. */
module Options {
  datatype Option<T> = None | Some(value: T)
}

/** Which pool a unit of work belongs to (src/miner/origin.h). */
module Origins {
  datatype Origin = Main | Dev
}

/** Keeping the entries of a sequence that pass a test. */
module Selections {
  /** The entries of s that pass, each as often as it occurs and in the order of s. */
  function Picked<T>(s: seq<T>, keep: T -> bool): (p: seq<T>)
    decreases |s|
  {
    if s == [] then [] else Picked(s[..|s| - 1], keep) + if keep(s[|s| - 1]) then [s[|s| - 1]] else []
  }

  /** `at` holds, ascending, the positions of exactly those entries of s that pass. */
  ghost predicate PassingPositions<T(!new)>(s: seq<T>, keep: T -> bool, at: seq<nat>)
  {
    && (forall i :: 0 <= i < |at| ==> at[i] < |s| && keep(s[at[i]]))
    && (forall i, j :: 0 <= i < j < |at| ==> at[i] < at[j])
    && (forall j :: 0 <= j < |s| && keep(s[j]) ==> j in at)
  }

  /** `picked` is s without the entries that fail: nothing lost, nothing twice, nothing moved. */
  ghost predicate IsSelection<T(!new)>(s: seq<T>, keep: T -> bool, picked: seq<T>)
  {
    exists at :: PassingPositions(s, keep, at) && |at| == |picked| && forall i :: 0 <= i < |at| ==> picked[i] == s[at[i]]
  }

  /** One more entry at the end of s. */
  lemma OneMorePosition<T(!new)>(s: seq<T>, keep: T -> bool, at: seq<nat>, last: T)
    requires PassingPositions(s, keep, at)
    ensures PassingPositions(s + [last], keep, if keep(last) then at + [|s|] else at)
  {
    var at' := if keep(last) then at + [|s|] else at;
    forall j | 0 <= j < |s| + 1 && keep((s + [last])[j]) ensures j in at' {
      if j == |s| {
        assert at'[|at|] == j;
      } else {
        assert j in at;
      }
    }
  }

  /** Picked is that selection, and here are the positions. */
  lemma {:induction false} PickedPositions<T(!new)>(s: seq<T>, keep: T -> bool) returns (at: seq<nat>)
    ensures PassingPositions(s, keep, at) && |at| == |Picked(s, keep)|
    ensures forall i :: 0 <= i < |at| ==> at[i] < |s| && Picked(s, keep)[i] == s[at[i]]
    decreases |s|
  {
    hide PassingPositions;
    if s == [] {
      at := NoPositions(keep);
    } else {
      var n := |s| - 1;
      assert s == s[..n] + [s[n]];
      var before := PickedPositions(s[..n], keep);
      OneMorePosition(s[..n], keep, before, s[n]);
      at := if keep(s[n]) then before + [n] else before;
    }
  }

  lemma NoPositions<T(!new)>(keep: T -> bool) returns (at: seq<nat>)
    ensures at == [] && PassingPositions([], keep, at)
  {
    at := [];
  }

  lemma PickedIsSelection<T(!new)>(s: seq<T>, keep: T -> bool)
    ensures IsSelection(s, keep, Picked(s, keep))
  {
    hide PassingPositions;
    var at := PickedPositions(s, keep);
  }

  lemma {:induction false} PickedConcat<T>(s: seq<T>, t: seq<T>, keep: T -> bool)
    ensures Picked(s + t, keep) == Picked(s, keep) + Picked(t, keep)
    decreases |t|
  {
    if t == [] {
      assert s + t == s;
    } else {
      assert (s + t)[..|s + t| - 1] == s + t[..|t| - 1];
      PickedConcat(s, t[..|t| - 1], keep);
    }
  }

  lemma {:induction false} PickedCounts<T(!new)>(s: seq<T>, keep: T -> bool, x: T)
    ensures multiset(Picked(s, keep))[x] == if keep(x) then multiset(s)[x] else 0
    decreases |s|
  {
    if s == [] {
    } else {
      var n := |s| - 1;
      assert s == s[..n] + [s[n]];
      PickedCounts(s[..n], keep, x);
    }
  }
}
