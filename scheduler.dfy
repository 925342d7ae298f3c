/** The length scheduler of the search: one counter, starting at 0, hands
    each new worker the next length. The first `multi` workers get lengths
    0..multi-1; every completion signal then starts one more worker at the
    current counter. The model is sequential: the completion signals
    arrive one at a time, as the single coordinating loop receives them. */
module Scheduler {

  /** The lengths in s are the consecutive integers from lo on. */
  predicate CountsFrom(s: seq<int>, lo: int)
  {
    forall i :: 0 <= i < |s| ==> s[i] == lo + i
  }

  class LengthCounter {
    /** The next length to hand out. */
    var length: int
    /** Every length handed out so far, in the order handed out. */
    ghost var handedOut: seq<int>

    /** The lengths handed out are exactly 0..length-1, in order. */
    ghost predicate Valid()
      reads this
    {
      length == |handedOut| && CountsFrom(handedOut, 0)
    }

    constructor ()
      ensures Valid() && length == 0 && handedOut == []
    {
      length := 0;
      handedOut := [];
    }

    /** Starts `multi` workers, at the next `multi` lengths (none when
        `multi` is zero or less), and returns their lengths in order. */
    method Start(multi: int) returns (started: seq<int>)
      requires Valid()
      modifies this
      ensures Valid()
      ensures |started| == if multi > 0 then multi else 0
      ensures CountsFrom(started, old(length))
      ensures length == old(length) + |started|
      ensures handedOut == old(handedOut) + started
    {
      started := [];
      var i := 0;
      while i < multi
        invariant multi <= 0 ==> i == 0
        invariant multi > 0 ==> 0 <= i <= multi
        invariant |started| == i && CountsFrom(started, old(length))
        invariant length == old(length) + i
        invariant handedOut == old(handedOut) + started
        invariant Valid()
      {
        started := started + [length];
        handedOut := handedOut + [length];
        length := length + 1;
        i := i + 1;
      }
    }

    /** On one completion signal: starts one worker at the current length
        and moves the counter on. */
    method OnCompletion() returns (next: int)
      requires Valid()
      modifies this
      ensures Valid()
      ensures next == old(length) && length == old(length) + 1
      ensures handedOut == old(handedOut) + [next]
    {
      next := length;
      handedOut := handedOut + [next];
      length := length + 1;
    }
  }

  /** The lengths of all workers started in a run with `multi` initial
      workers that has so far received `completions` completion signals,
      in the order they were started. */
  method Schedule(multi: int, completions: nat) returns (lengths: seq<int>)
    ensures |lengths| == (if multi > 0 then multi else 0) + completions
    ensures CountsFrom(lengths, 0)
  {
    var counter := new LengthCounter();
    lengths := counter.Start(multi);
    ghost var initial := |lengths|;
    var n := 0;
    while n < completions
      invariant 0 <= n <= completions
      invariant |lengths| == initial + n
      invariant counter.Valid()
      invariant lengths == counter.handedOut
    {
      var next := counter.OnCompletion();
      lengths := lengths + [next];
      n := n + 1;
    }
  }

  /** Across a run, lengths are handed out strictly increasing, so no two
      workers ever share a length, and no length is skipped. */
  lemma ScheduleIsContiguous(lengths: seq<int>, m: int)
    requires CountsFrom(lengths, 0)
    ensures forall i, j :: 0 <= i < j < |lengths| ==> lengths[i] < lengths[j]
    ensures 0 <= m < |lengths| <==> m in lengths
  {
    if m in lengths {
      var i :| 0 <= i < |lengths| && lengths[i] == m;
    }
    if 0 <= m < |lengths| {
      assert lengths[m] == m;
    }
  }
}
