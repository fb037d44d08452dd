/**
 The saturating reference count: the lock-based version as the reference, and the
 lock-free one as threads that interleave at every load and compare-and-swap.
 */
module Refcount {
  import opened Common

  const MAX: nat := 0xffff_ffff

  datatype Op = Inc | Dec

  // ----- the reference -------------------------------------------------------

  /** The count after an operation and whether it reports zero; None is an abort. */
  function Atomic(count: nat, op: Op): Option<(nat, bool)> {
    match op
    case Inc => Some((if count < MAX then count + 1 else count, false))
    case Dec =>
      if count == 0 then None
      else
        var next := if count < MAX then count - 1 else count;
        Some((next, next == 0))
  }

  /** The lock-based version; the lock makes each call one step. */
  class LockedCounter {
    var count: nat

    constructor (count: nat)
      requires count <= MAX
      ensures this.count == count
    {
      this.count := count;
    }

    method Increment()
      requires count <= MAX
      modifies this
      ensures count <= MAX && Atomic(old(count), Inc) == Some((count, false))
    {
      if count < MAX {
        count := count + 1;
      }
    }

    method DecrementAndTestZero() returns (aborted: bool, zero: bool)
      requires count <= MAX
      modifies this
      ensures count <= MAX
      ensures Atomic(old(count), Dec) == if aborted then None else Some((count, zero))
    {
      if count == 0 {
        return true, false;
      }
      if count < MAX {
        count := count - 1;
      }
      return false, count == 0;
    }
  }

  // ----- the lock-free version -----------------------------------------------

  /** A thread between calls, or inside one with the value it last read. */
  datatype Thread = Idle | Trying(op: Op, expected: nat)

  datatype System = System(count: nat, threads: seq<Thread>, aborted: bool)

  /** A thread enters a call and loads the count, or takes one turn of its loop; a
      weak compare-and-swap may fail although the values agree. */
  datatype Action = Begin(thread: nat, op: Op) | Turn(thread: nat, spurious: bool)

  datatype Completed = Completed(op: Op, zero: bool)

  function Exchange(s: System, t: nat, expected: nat, desired: nat, spurious: bool): (r: (System, bool))
    requires t < |s.threads| && s.threads[t].Trying?
  {
    if s.count == expected && !spurious then
      (s.(count := desired, threads := s.threads[t := Idle]), true)
    else
      (s.(threads := s.threads[t := s.threads[t].(expected := s.count)]), false)
  }

  /** One step of the system, and the call it completes if any. */
  function Next(s: System, a: Action): (System, Option<Completed>) {
    if s.aborted || a.thread >= |s.threads| then (s, None)
    else
      match a
      case Begin(t, op) =>
        if s.threads[t].Trying? then (s, None)
        else (s.(threads := s.threads[t := Trying(op, s.count)]), None)
      case Turn(t, spurious) =>
        match s.threads[t]
        case Idle => (s, None)
        case Trying(Inc, expected) =>
          if expected == MAX then (s.(threads := s.threads[t := Idle]), Some(Completed(Inc, false)))
          else
            var (next, done) := Exchange(s, t, expected, expected + 1, spurious);
            (next, if done then Some(Completed(Inc, false)) else None)
        case Trying(Dec, expected) =>
          if expected == 0 then (s.(aborted := true), None)
          else if expected == MAX then (s.(threads := s.threads[t := Idle]), Some(Completed(Dec, false)))
          else
            var (next, done) := Exchange(s, t, expected, expected - 1, spurious);
            (next, if done then Some(Completed(Dec, expected - 1 == 0)) else None)
  }

  function Run(s: System, actions: seq<Action>): System
    decreases |actions|
  {
    if actions == [] then s else Run(Next(s, actions[0]).0, actions[1..])
  }

  /** The completed calls of a run, in the order in which they took effect. */
  function History(s: System, actions: seq<Action>): seq<Completed>
    decreases |actions|
  {
    if actions == [] then []
    else
      var (next, done) := Next(s, actions[0]);
      (if done.None? then [] else [done.value]) + History(next, actions[1..])
  }

  /** The count after the calls ran one at a time on the reference; None when the
      reference would have aborted or reported something else. */
  function Replay(count: nat, log: seq<Completed>): Option<nat>
    decreases |log|
  {
    if log == [] then Some(count)
    else
      match Atomic(count, log[0].op)
      case None => None
      case Some((next, zero)) => if zero == log[0].zero then Replay(next, log[1..]) else None
  }

  /** A thread that has read the maximum can rely on it: it never goes away. */
  ghost predicate Inv(s: System) {
    && s.count <= MAX
    && forall t :: 0 <= t < |s.threads| && s.threads[t].Trying? ==>
         s.threads[t].expected <= MAX && (s.threads[t].expected == MAX ==> s.count == MAX)
  }

  lemma NextIsAtomic(s: System, a: Action)
    requires Inv(s)
    ensures var (next, done) := Next(s, a);
            && Inv(next)
            && (done.None? ==> next.count == s.count)
            && (done.Some? ==> Atomic(s.count, done.value.op) == Some((next.count, done.value.zero)))
  {}

  /** Any number of threads, any interleaving, any spurious failures: the calls
      behave as if run one at a time on the lock-based counter. */
  lemma {:induction false} RunIsAtomic(s: System, actions: seq<Action>)
    requires Inv(s)
    ensures Inv(Run(s, actions))
    ensures Replay(s.count, History(s, actions)) == Some(Run(s, actions).count)
    decreases |actions|
  {
    hide Next, Inv, Atomic;
    if actions != [] {
      NextIsAtomic(s, actions[0]);
      var (next, done) := Next(s, actions[0]);
      RunIsAtomic(next, actions[1..]);
      var log, rest := History(s, actions), History(next, actions[1..]);
      if done.Some? {
        assert log[0] == done.value && log[1..] == rest;
      } else {
        assert log == rest;
      }
    }
  }

  // ----- what the atomic counter guarantees ----------------------------------

  function CountOf(log: seq<Completed>, op: Op): nat
    decreases |log|
  {
    if log == [] then 0 else (if log[0].op == op then 1 else 0) + CountOf(log[1..], op)
  }

  /** The replayed counts stay below the maximum, the last one included. */
  predicate StaysBelowMax(count: nat, log: seq<Completed>)
    decreases |log|
  {
    count < MAX && (log != [] && Atomic(count, log[0].op).Some? ==>
                      StaysBelowMax(Atomic(count, log[0].op).value.0, log[1..]))
  }

  lemma {:induction false} BelowMaxCounts(count: nat, log: seq<Completed>)
    requires Replay(count, log).Some? && StaysBelowMax(count, log)
    ensures Replay(count, log).value == count + CountOf(log, Inc) - CountOf(log, Dec)
    decreases |log|
  {
    if log != [] {
      BelowMaxCounts(Atomic(count, log[0].op).value.0, log[1..]);
    }
  }

  lemma {:induction false} SaturatedForGood(log: seq<Completed>)
    requires Replay(MAX, log).Some?
    ensures Replay(MAX, log).value == MAX && forall i :: 0 <= i < |log| ==> !log[i].zero
    decreases |log|
  {
    if log != [] {
      SaturatedForGood(log[1..]);
    }
  }

  /** No increment takes effect on a count of zero. */
  predicate NoRevival(count: nat, log: seq<Completed>)
    decreases |log|
  {
    log != [] && Atomic(count, log[0].op).Some? ==>
      !(count == 0 && log[0].op == Inc) && NoRevival(Atomic(count, log[0].op).value.0, log[1..])
  }

  lemma {:induction false} ZeroIsReportedLast(count: nat, log: seq<Completed>, i: nat)
    requires Replay(count, log).Some? && NoRevival(count, log)
    requires i < |log| && log[i].zero
    ensures i == |log| - 1 && Replay(count, log).value == 0
    decreases |log|
  {
    if i > 0 {
      ZeroIsReportedLast(Atomic(count, log[0].op).value.0, log[1..], i - 1);
    }
  }

  /** Over every run of the lock-free counter: exact counting below the maximum, at
      most one report of zero, and a maximum that stays. */
  lemma CounterIsSafe(s: System, actions: seq<Action>)
    requires Inv(s)
    ensures var log, last := History(s, actions), Run(s, actions).count;
            && (StaysBelowMax(s.count, log) ==> last == s.count + CountOf(log, Inc) - CountOf(log, Dec))
            && (NoRevival(s.count, log) ==>
              forall i, j :: 0 <= i < |log| && 0 <= j < |log| && log[i].zero && log[j].zero ==> i == j)
            && (s.count == MAX ==> last == MAX && forall i :: 0 <= i < |log| ==> !log[i].zero)
  {
    hide Run, History, Replay, NoRevival, StaysBelowMax, Inv;
    RunIsAtomic(s, actions);
    var log := History(s, actions);
    if StaysBelowMax(s.count, log) {
      BelowMaxCounts(s.count, log);
    }
    if s.count == MAX {
      SaturatedForGood(log);
    }
    if NoRevival(s.count, log) {
      forall i: nat | i < |log| && log[i].zero
        ensures i == |log| - 1
      {
        ZeroIsReportedLast(s.count, log, i);
      }
    }
  }

  /** A decrement reports zero if and only if it brings the count from one to zero. */
  lemma ZeroIsReportedExactly(s: System, a: Action)
    requires Inv(s) && Next(s, a).1.Some?
    ensures var (next, done) := Next(s, a);
            done.value.zero <==> done.value.op == Dec && s.count == 1 && next.count == 0
  {}

  /** Without revival, a count that has come down to zero was reported by the last call,
      and by no other. */
  lemma {:induction false} DownToZero(count: nat, log: seq<Completed>)
    requires count > 0 && NoRevival(count, log) && Replay(count, log) == Some(0)
    ensures log != [] && log[|log| - 1] == Completed(Dec, true)
    ensures forall i :: 0 <= i < |log| - 1 ==> !log[i].zero
    decreases |log|
  {
    var next := Atomic(count, log[0].op).value.0;
    if next > 0 {
      DownToZero(next, log[1..]);
    } else {
      assert log[1..] == [];
    }
  }

  /** Over every run of the lock-free counter that begins above zero and does not revive:
      the count is zero at the end if and only if exactly one call reported it, the last
      decrement to take effect. */
  lemma ZeroIsReportedOnce(s: System, actions: seq<Action>)
    requires Inv(s) && s.count > 0 && NoRevival(s.count, History(s, actions))
    ensures var log := History(s, actions);
            Run(s, actions).count == 0 <==>
            exists i: nat :: i < |log| && log[i] == Completed(Dec, true) &&
              forall j: nat :: j < |log| && log[j].zero ==> j == i
  {
    hide Run, History, Replay, NoRevival, Inv;
    RunIsAtomic(s, actions);
    var log := History(s, actions);
    if Run(s, actions).count == 0 {
      DownToZero(s.count, log);
      assert log[|log| - 1 as nat] == Completed(Dec, true);
    }
    if i: nat :| i < |log| && log[i] == Completed(Dec, true) {
      ZeroIsReportedLast(s.count, log, i);
    }
  }

  /** A turn of a thread inside a call either completes the call, or aborts, or the
      exchange failed spuriously, or the count is no longer what the thread had read. */
  lemma TurnFailsExactly(s: System, t: nat, spurious: bool)
    requires Inv(s) && !s.aborted && t < |s.threads| && s.threads[t].Trying?
    ensures var (next, done) := Next(s, Turn(t, spurious));
            var (op, expected) := (s.threads[t].op, s.threads[t].expected);
            && (next.aborted <==> op == Dec && expected == 0)
            && (done.None? && !next.aborted <==>
                  expected != MAX && !(op == Dec && expected == 0) && (spurious || s.count != expected))
            && (done.None? && !next.aborted ==> next.threads[t] == Trying(op, s.count))
  {}

  // ----- aborts --------------------------------------------------------------

  predicate AllIdle(s: System) {
    !s.aborted && forall t :: 0 <= t < |s.threads| ==> s.threads[t].Idle?
  }

  lemma {:induction false} RunLast(s: System, actions: seq<Action>, a: Action)
    ensures Run(s, actions + [a]) == Next(Run(s, actions), a).0
    decreases |actions|
  {
    hide Next;
    if actions == [] {
      assert [] + [a] == [a];
    } else {
      assert (actions + [a])[1..] == actions[1..] + [a];
      RunLast(Next(s, actions[0]).0, actions[1..], a);
    }
  }

  /** Thread t is in one and the same call, with what it read first at step k unchanged,
      through to the end of the run. */
  ghost predicate ReadAt(s: System, actions: seq<Action>, t: nat, op: Op, e: nat, k: nat)
    requires k <= |actions|
  {
    && Run(s, actions[..k]).count == e
    && forall j :: k <= j <= |actions| ==>
         t < |Run(s, actions[..j]).threads| && Run(s, actions[..j]).threads[t] == Trying(op, e)
  }

  /** What a thread goes by was the count at some moment within its call. */
  lemma {:induction false} ReadInCall(s: System, actions: seq<Action>, t: nat) returns (k: nat)
    requires AllIdle(s) && t < |Run(s, actions).threads| && Run(s, actions).threads[t].Trying?
    ensures var th := Run(s, actions).threads[t];
            k <= |actions| && ReadAt(s, actions, t, th.op, th.expected, k)
    decreases |actions|
  {
    hide Run, Next;
    var n := |actions|;
    if n == 0 {
      assert Run(s, actions) == s by { RunNothing(s); }
      assert false;
    } else {
      var front, a := actions[..n - 1], actions[n - 1];
      assert actions == front + [a];
      RunLast(s, front, a);
      var before, after := Run(s, front), Run(s, actions);
      assert actions[..n] == actions;
      assert forall j :: 0 <= j < n ==> actions[..j] == front[..j];
      ReadsOrStays(before, a, t);
      if t < |before.threads| && before.threads[t] == after.threads[t] {
        k := ReadInCall(s, front, t);
      } else {
        k := n;
      }
    }
  }

  lemma RunNothing(s: System)
    ensures Run(s, []) == s
  {}

  /** A step leaves a thread's call alone, or the thread has just read the count. */
  lemma ReadsOrStays(s: System, a: Action, t: nat)
    requires t < |Next(s, a).0.threads| && Next(s, a).0.threads[t].Trying?
    ensures t < |s.threads|
    ensures Next(s, a).0.threads[t] == s.threads[t]
         || (Next(s, a).0.count == s.count == Next(s, a).0.threads[t].expected)
  {}

  /** A step that aborts is a decrement's, which goes by a zero. */
  lemma AbortSawZero(s: System, a: Action)
    requires !s.aborted && Next(s, a).0.aborted
    ensures a.Turn? && a.thread < |s.threads| && s.threads[a.thread] == Trying(Dec, 0)
  {}

  lemma {:induction false} FirstAbort(s: System, actions: seq<Action>) returns (n: nat)
    requires !s.aborted && Run(s, actions).aborted
    ensures n < |actions| && !Run(s, actions[..n]).aborted && Run(s, actions[..n + 1]).aborted
    decreases |actions|
  {
    hide Run, Next;
    if |actions| == 0 {
      RunNothing(s);
      assert false;
    } else {
      n := |actions| - 1;
      assert actions[..n + 1] == actions;
      if Run(s, actions[..n]).aborted {
        n := FirstAbort(s, actions[..n]);
        assert actions[..n] == actions[..|actions| - 1][..n] && actions[..n + 1] == actions[..|actions| - 1][..n + 1];
      } else if n == 0 {
        RunNothing(s);
      }
    }
  }

  /** An abort is atomic too. A run that starts between calls and aborts does so at a step
      n of a decrement; at an earlier step k of that same call the count was zero, and
      there, after the calls completed by then, the reference aborts on a decrement. The
      count may have risen again by the time the thread acts on it. */
  lemma AbortIsAtomic(s: System, actions: seq<Action>) returns (n: nat, k: nat)
    requires Inv(s) && AllIdle(s) && Run(s, actions).aborted
    ensures k <= n < |actions| && actions[n].Turn?
    ensures !Run(s, actions[..n]).aborted && Run(s, actions[..n + 1]).aborted
    ensures ReadAt(s, actions[..n], actions[n].thread, Dec, 0, k)
    ensures Replay(s.count, History(s, actions[..k])) == Some(0) && Atomic(0, Dec).None?
  {
    hide Run, Next, History, Replay, Inv;
    n := FirstAbort(s, actions);
    var front, a := actions[..n], actions[n];
    assert actions[..n + 1] == front + [a];
    RunLast(s, front, a);
    AbortSawZero(Run(s, front), a);
    k := ReadInCall(s, front, a.thread);
    RunIsAtomic(s, actions[..k]);
    assert front[..k] == actions[..k];
  }

  /** It can have risen: a decrement reads zero, an increment completes, and the
      decrement aborts although the count is one. */
  lemma AbortAfterRevival() returns (s: System, actions: seq<Action>)
    ensures Inv(s) && AllIdle(s) && s.count == 0
    ensures Run(s, actions).aborted && Run(s, actions).count == 1
  {
    s := System(0, [Idle, Idle], false);
    actions := [Begin(0, Dec), Begin(1, Inc), Turn(1, false), Turn(0, false)];
    var s1 := Next(s, actions[0]).0;
    var s2 := Next(s1, actions[1]).0;
    var s3 := Next(s2, actions[2]).0;
    var s4 := Next(s3, actions[3]).0;
    assert s1.threads == [Trying(Dec, 0), Idle] && s2.threads == [Trying(Dec, 0), Trying(Inc, 0)];
    assert s3.count == 1 && s3.threads == [Trying(Dec, 0), Idle] && s4.aborted && s4.count == 1;
    assert actions[1..][1..] == actions[2..] && actions[2..][1..] == actions[3..] && actions[3..][1..] == [];
    assert Run(s4, []) == s4 && Run(s3, actions[3..]) == s4;
    assert Run(s2, actions[2..]) == s4 && Run(s1, actions[1..]) == s4;
  }
}
