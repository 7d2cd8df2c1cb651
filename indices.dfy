/** Positions of a sequence whose element satisfies a predicate, in order.
    Both the symbol scan (which entries are text symbols) and the teardown
    (which records are armed) select positions this way. */
module Indices {

  /** The positions of `s` whose element satisfies `p`, in increasing order. */
  function Where<T>(s: seq<T>, p: T -> bool): (r: seq<nat>)
    ensures forall k :: 0 <= k < |r| ==> r[k] < |s| && p(s[r[k]])
    ensures forall k, l :: 0 <= k < l < |r| ==> r[k] < r[l]
    decreases |s|
  {
    if s == [] then []
    else
      var before := Where(s[..|s| - 1], p);
      if p(s[|s| - 1]) then before + [|s| - 1] else before
  }

  /** One more element extends the selection by its position exactly when it qualifies. */
  lemma WhereStep<T>(s: seq<T>, p: T -> bool, i: nat)
    requires i < |s|
    ensures Where(s[..i + 1], p) == Where(s[..i], p) + (if p(s[i]) then [i] else [])
  {
    assert s[..i + 1][..i] == s[..i];
  }

  /** A position is selected if and only if it lies in `s` and its element qualifies. */
  lemma {:induction false} WhereMembers<T>(s: seq<T>, p: T -> bool, i: int)
    ensures i in Where(s, p) <==> 0 <= i < |s| && p(s[i])
    decreases |s|
  {
    if s != [] {
      var n := |s| - 1;
      WhereMembers(s[..n], p, i);
    }
  }

  /** Selecting from a prefix gives a prefix of the selection. */
  lemma {:induction false} WherePrefix<T>(s: seq<T>, p: T -> bool, i: nat, k: nat)
    requires i <= k <= |s|
    ensures Where(s[..i], p) <= Where(s[..k], p)
    decreases k - i
  {
    if i < k {
      WherePrefix(s, p, i, k - 1);
      WhereStep(s, p, k - 1);
    }
  }

  /** The qualifying positions of `s`, as a set. */
  function Positions<T>(s: seq<T>, p: T -> bool): set<int> {
    set i | 0 <= i < |s| && p(s[i])
  }

  /** The selection has as many positions as there are qualifying elements. */
  lemma {:induction false} WhereCount<T>(s: seq<T>, p: T -> bool)
    ensures |Where(s, p)| == |Positions(s, p)|
    decreases |s|
  {
    if s != [] {
      var n := |s| - 1;
      WhereCount(s[..n], p);
      if p(s[n]) {
        assert Positions(s, p) == Positions(s[..n], p) + {n};
      } else {
        assert Positions(s, p) == Positions(s[..n], p);
      }
    }
  }
}
