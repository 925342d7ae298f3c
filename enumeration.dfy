/** Reference definition of what the collision search enumerates: every
    sequence of alphabet positions of a given length, in lexicographic
    order with the first position most significant. The search works on
    positions rather than bytes so that an alphabet with repeated symbols
    is enumerated redundantly, as the search does. */
module Enumeration {

  /** k to the power n. */
  function Pow(k: nat, n: nat): nat
  {
    if n == 0 then 1 else k * Pow(k, n - 1)
  }

  /** Every position in t is one of 0..k-1. */
  predicate Below(k: nat, t: seq<nat>)
  {
    forall i :: 0 <= i < |t| ==> t[i] < k
  }

  /** t is a word of length n over the positions 0..k-1. */
  predicate IsTuple(k: nat, n: nat, t: seq<nat>)
  {
    |t| == n && Below(k, t)
  }

  /** Strict lexicographic order on sequences of equal length. */
  predicate LexLess(u: seq<nat>, v: seq<nat>)
    decreases |u|
  {
    |u| == |v| && u != [] &&
    (u[0] < v[0] || (u[0] == v[0] && LexLess(u[1..], v[1..])))
  }

  /** Every element is strictly smaller than every later one. */
  predicate StrictlySorted(s: seq<seq<nat>>)
  {
    forall i, j :: 0 <= i < j < |s| ==> LexLess(s[i], s[j])
  }

  /** Each word of ts with the position d put in front. */
  function Prefixed(d: nat, ts: seq<seq<nat>>): (r: seq<seq<nat>>)
    ensures |r| == |ts|
    ensures forall j :: 0 <= j < |ts| ==> r[j] == [d] + ts[j]
  {
    seq(|ts|, j requires 0 <= j < |ts| => [d] + ts[j])
  }

  /** The words [d] + t for d = 0..m-1 and t in ts, d most significant. */
  function Lead(m: nat, ts: seq<seq<nat>>): seq<seq<nat>>
  {
    if m == 0 then [] else Lead(m - 1, ts) + Prefixed(m - 1, ts)
  }

  /** All words of length n over positions 0..k-1, in lexicographic order. */
  function Tuples(k: nat, n: nat): (r: seq<seq<nat>>)
    ensures forall t :: t in r ==> IsTuple(k, n, t)
  {
    if n == 0 then [[]]
    else
      var shorter := Tuples(k, n - 1);
      LeadShape(k, k, n - 1, shorter);
      Lead(k, shorter)
  }

  lemma {:induction false} LeadShape(k: nat, m: nat, n: nat, ts: seq<seq<nat>>)
    requires m <= k
    requires forall t :: t in ts ==> IsTuple(k, n, t)
    ensures forall t :: t in Lead(m, ts) ==> IsTuple(k, n + 1, t) && t[0] < m
  {
    if m > 0 {
      LeadShape(k, m - 1, n, ts);
      forall t | t in Prefixed(m - 1, ts)
        ensures IsTuple(k, n + 1, t) && t[0] < m
      {
        var j :| 0 <= j < |ts| && Prefixed(m - 1, ts)[j] == t;
        assert ts[j] in ts;
      }
    }
  }

  lemma {:induction false} LeadLength(m: nat, ts: seq<seq<nat>>)
    ensures |Lead(m, ts)| == m * |ts|
  {
    if m > 0 {
      LeadLength(m - 1, ts);
      assert (m - 1) * |ts| + |ts| == m * |ts|;
    }
  }

  /** There are k^n words of length n. */
  lemma {:induction false} TuplesCount(k: nat, n: nat)
    ensures |Tuples(k, n)| == Pow(k, n)
  {
    if n > 0 {
      TuplesCount(k, n - 1);
      LeadLength(k, Tuples(k, n - 1));
    }
  }

  lemma {:induction false} LeadContains(m: nat, ts: seq<seq<nat>>, d: nat, j: nat)
    requires d < m && j < |ts|
    ensures [d] + ts[j] in Lead(m, ts)
  {
    if d == m - 1 {
      assert Prefixed(m - 1, ts)[j] == [d] + ts[j];
    } else {
      LeadContains(m - 1, ts, d, j);
    }
  }

  /** No word is missing: every word of length n over 0..k-1 is enumerated. */
  lemma {:induction false} TuplesComplete(k: nat, n: nat, t: seq<nat>)
    requires IsTuple(k, n, t)
    ensures t in Tuples(k, n)
  {
    if n == 0 {
      assert t == [];
    } else {
      var shorter := Tuples(k, n - 1);
      TuplesComplete(k, n - 1, t[1..]);
      var j :| 0 <= j < |shorter| && shorter[j] == t[1..];
      LeadContains(k, shorter, t[0], j);
      assert [t[0]] + t[1..] == t;
    }
  }

  lemma {:induction false} LexLessIrreflexive(u: seq<nat>)
    ensures !LexLess(u, u)
    decreases |u|
  {
    if u != [] {
      LexLessIrreflexive(u[1..]);
    }
  }

  lemma PrefixedSorted(d: nat, ts: seq<seq<nat>>)
    requires StrictlySorted(ts)
    ensures StrictlySorted(Prefixed(d, ts))
  {
    forall i, j | 0 <= i < j < |ts|
      ensures LexLess(Prefixed(d, ts)[i], Prefixed(d, ts)[j])
    {
      var u, v := [d] + ts[i], [d] + ts[j];
      assert u[1..] == ts[i] && v[1..] == ts[j];
    }
  }

  lemma {:induction false} LeadSorted(k: nat, m: nat, n: nat, ts: seq<seq<nat>>)
    requires m <= k
    requires forall t :: t in ts ==> IsTuple(k, n, t)
    requires StrictlySorted(ts)
    ensures StrictlySorted(Lead(m, ts))
  {
    if m > 0 {
      var front, back := Lead(m - 1, ts), Prefixed(m - 1, ts);
      LeadSorted(k, m - 1, n, ts);
      LeadShape(k, m - 1, n, ts);
      PrefixedSorted(m - 1, ts);
      var s := front + back;
      forall i, j | 0 <= i < j < |s| ensures LexLess(s[i], s[j])
      {
        if j < |front| {
          assert LexLess(front[i], front[j]);
        } else if i >= |front| {
          assert LexLess(back[i - |front|], back[j - |front|]);
        } else {
          assert front[i] in front;
          assert s[j] == [m - 1] + ts[j - |front|];
          assert ts[j - |front|] in ts;
        }
      }
    }
  }

  /** The enumeration is strictly increasing in lexicographic order, so
      (with completeness) each word appears exactly once. */
  lemma {:induction false} TuplesSorted(k: nat, n: nat)
    ensures StrictlySorted(Tuples(k, n))
  {
    if n > 0 {
      TuplesSorted(k, n - 1);
      LeadSorted(k, k, n - 1, Tuples(k, n - 1));
    }
  }

  /** No word is enumerated twice. */
  lemma TuplesDistinct(k: nat, n: nat, i: nat, j: nat)
    requires i < j < |Tuples(k, n)|
    ensures Tuples(k, n)[i] != Tuples(k, n)[j]
  {
    TuplesSorted(k, n);
    LexLessIrreflexive(Tuples(k, n)[i]);
  }
}
