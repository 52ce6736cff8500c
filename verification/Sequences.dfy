/** What sequences have in common, whatever their elements. */
module Sequences {
  import opened Options

  lemma Associate<T>(a: seq<T>, b: seq<T>, c: seq<T>)
    ensures a + (b + c) == (a + b) + c
  {
  }

  lemma SplitBack<T>(s: seq<T>, n: nat)
    requires n <= |s|
    ensures s[..n] + s[n..] == s
  {
  }

  /** The elements at some places, in order. */
  ghost predicate Picks<T>(from: seq<T>, at: seq<nat>, picked: seq<T>) {
    && |at| == |picked|
    && (forall k :: 0 <= k < |at| ==> at[k] < |from| && picked[k] == from[at[k]])
    && forall j, k :: 0 <= j < k < |at| ==> at[j] < at[k]
  }

  lemma PicksNone<T>(from: seq<T>)
    ensures Picks(from, [], [])
  {
  }

  lemma PicksLonger<T>(from: seq<T>, at: seq<nat>, picked: seq<T>, x: T)
    requires Picks(from, at, picked)
    ensures Picks(from + [x], at, picked) && Picks(from + [x], at + [|from|], picked + [x])
  {
  }

  /** The same places after something in front. */
  function Later(at: seq<nat>): (r: seq<nat>)
    ensures |r| == |at| && forall k :: 0 <= k < |at| ==> r[k] == at[k] + 1
  {
    seq(|at|, k requires 0 <= k < |at| => at[k] + 1)
  }

  lemma PicksLater<T>(from: seq<T>, at: seq<nat>, picked: seq<T>, x: T)
    requires Picks(from, at, picked)
    ensures Picks([x] + from, Later(at), picked)
    ensures Picks([x] + from, [0] + Later(at), [x] + picked)
  {
  }

  lemma LaterIn(at: seq<nat>, j: nat)
    ensures j in Later(at) <==> j > 0 && j - 1 in at
  {
    if j > 0 && j - 1 in at {
      var k :| 0 <= k < |at| && at[k] == j - 1;
      assert Later(at)[k] == j;
    }
  }

  /** What is there already, before what is still to come, if that can be had. */
  function Prefixed<T>(done: seq<T>, more: Option<seq<T>>): Option<seq<T>> {
    match more
    case None => None
    case Some(rest) => Some(done + rest)
  }

  lemma PrefixedNone<T>(more: Option<seq<T>>)
    ensures Prefixed([], more) == more
  {
    if more.Some? {
      assert [] + more.value == more.value;
    }
  }

  lemma PrefixedNext<T>(done: seq<T>, x: T, more: Option<seq<T>>)
    ensures Prefixed(done, Prefixed([x], more)) == Prefixed(done + [x], more)
    ensures more.Some? ==> Prefixed(done, Some([x] + more.value)) == Prefixed(done + [x], more)
    ensures Prefixed(done, Some([x])) == Prefixed(done + [x], Some([]))
  {
    PrefixedAll(done + [x]);
    if more.Some? {
      Associate(done, [x], more.value);
    }
  }

  lemma PrefixedAll<T>(done: seq<T>)
    ensures Prefixed(done, Some([])) == Some(done)
  {
    assert done + [] == done;
  }
}
