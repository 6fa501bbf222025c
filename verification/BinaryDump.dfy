// The first binary selection dumps the device binaries under a double-checked lock; a thread
// that waited for the lock and found the work done returns without writing its record.
module BinaryDump {

  /** Where a thread is inside handleSelectBinary; the dumping thread holds the mutex. */
  datatype Pc = Idle | AtLock(images: nat) | Dumping(next: nat, images: nat)

  /** `passed` counts the calls that found the flag unset; `dumped` lists the image indices written to disk. */
  datatype State = State(collected: bool, pcs: seq<Pc>, dumped: seq<nat>,
                         passed: nat, records: nat, early: nat, completed: nat)

  function Init(threads: nat): State {
    State(false, seq(threads, _ => Idle), [], 0, 0, 0, 0)
  }

  function Waiting(pcs: seq<Pc>): nat {
    if pcs == [] then 0 else (if pcs[0].AtLock? then 1 else 0) + Waiting(pcs[1..])
  }

  function Holders(pcs: seq<Pc>): nat {
    if pcs == [] then 0 else (if pcs[0].Dumping? then 1 else 0) + Holders(pcs[1..])
  }

  lemma {:induction false} CountUpdate(pcs: seq<Pc>, t: nat, pc: Pc)
    requires t < |pcs|
    ensures Waiting(pcs[t := pc]) == Waiting(pcs) - (if pcs[t].AtLock? then 1 else 0) + (if pc.AtLock? then 1 else 0)
    ensures Holders(pcs[t := pc]) == Holders(pcs) - (if pcs[t].Dumping? then 1 else 0) + (if pc.Dumping? then 1 else 0)
  {
    if t == 0 {
      assert pcs[t := pc][1..] == pcs[1..];
    } else {
      CountUpdate(pcs[1..], t - 1, pc);
      assert pcs[t := pc][1..] == pcs[1..][t - 1 := pc];
    }
  }

  lemma {:induction false} NobodyThere(pcs: seq<Pc>)
    ensures Waiting(pcs) == 0 <==> forall t :: 0 <= t < |pcs| ==> !pcs[t].AtLock?
    ensures Holders(pcs) == 0 <==> forall t :: 0 <= t < |pcs| ==> !pcs[t].Dumping?
  {
    if pcs != [] {
      NobodyThere(pcs[1..]);
      assert forall t :: 0 < t < |pcs| ==> pcs[t] == pcs[1..][t - 1];
    }
  }

  /** A call enters: with the flag set it completes at once and writes its record. */
  ghost predicate Enter(a: State, t: nat, images: nat, b: State) {
    && t < |a.pcs| && a.pcs[t].Idle?
    && b == if a.collected then a.(records := a.records + 1, completed := a.completed + 1)
            else a.(pcs := a.pcs[t := AtLock(images)], passed := a.passed + 1)
  }

  /** The mutex is free and thread t takes it: it either returns early or sets the flag and starts to dump. */
  ghost predicate Lock(a: State, t: nat, b: State) {
    && t < |a.pcs| && a.pcs[t].AtLock? && Holders(a.pcs) == 0
    && b == if a.collected then a.(pcs := a.pcs[t := Idle], early := a.early + 1, completed := a.completed + 1)
            else a.(collected := true, pcs := a.pcs[t := Dumping(0, a.pcs[t].images)])
  }

  /** The loop writes one image, or ends: the mutex is released and the record is written. */
  ghost predicate Dump(a: State, t: nat, b: State) {
    && t < |a.pcs| && a.pcs[t].Dumping?
    && var Dumping(next, images) := a.pcs[t];
       b == if next < images then a.(pcs := a.pcs[t := Dumping(next + 1, images)], dumped := a.dumped + [next])
            else a.(pcs := a.pcs[t := Idle], records := a.records + 1, completed := a.completed + 1)
  }

  /** A new thread starts outside. */
  function Started(a: State): State {
    a.(pcs := a.pcs + [Idle])
  }

  lemma {:induction false} StartedCounts(pcs: seq<Pc>)
    ensures Waiting(pcs + [Idle]) == Waiting(pcs) && Holders(pcs + [Idle]) == Holders(pcs)
  {
    if pcs == [] {
      assert [Idle][1..] == [];
    } else {
      StartedCounts(pcs[1..]);
      assert (pcs + [Idle])[1..] == pcs[1..] + [Idle];
    }
  }

  ghost predicate Step(a: State, b: State) {
    exists t: nat, images: nat :: StepBy(a, t, images, b)
  }

  ghost predicate StepBy(a: State, t: nat, images: nat, b: State) {
    MovesBy(a, t, images, b) || b == Started(a)
  }

  ghost predicate MovesBy(a: State, t: nat, images: nat, b: State) {
    Enter(a, t, images, b) || Lock(a, t, b) || Dump(a, t, b)
  }

  ghost predicate Run(run: seq<State>) {
    && run != [] && run[0] == Init(|run[0].pcs|)
    && forall k :: 0 < k < |run| ==> Step(run[k - 1], run[k])
  }

  /** The images 0, 1, ..., n - 1, each once. */
  function UpTo(n: nat): seq<nat> {
    seq(n, k => k)
  }

  /** Every call that found the flag unset is waiting, has returned early, or is the one that set the flag. */
  ghost predicate Inv(s: State) {
    && s.records + s.early == s.completed
    && s.passed == s.early + Waiting(s.pcs) + (if s.collected then 1 else 0)
    && Holders(s.pcs) <= 1
    && (!s.collected ==> Holders(s.pcs) == 0 && s.dumped == [] && s.records == 0 && s.early == 0)
    && (forall t :: 0 <= t < |s.pcs| && s.pcs[t].Dumping? ==> DumpedSoFar(s, t))
    && s.dumped == UpTo(|s.dumped|)
  }

  ghost predicate DumpedSoFar(s: State, t: nat)
    requires t < |s.pcs| && s.pcs[t].Dumping?
  {
    s.pcs[t].next <= s.pcs[t].images && |s.dumped| == s.pcs[t].next
  }

  lemma InitInv(threads: nat)
    ensures Inv(Init(threads))
  {
    NobodyThere(Init(threads).pcs);
  }

  lemma LockKeepsInv(a: State, t: nat, b: State)
    requires Inv(a) && Lock(a, t, b)
    ensures Inv(b)
  {
    NobodyThere(a.pcs);
    CountUpdate(a.pcs, t, b.pcs[t]);
  }

  lemma DumpKeepsInv(a: State, t: nat, b: State)
    requires Inv(a) && Dump(a, t, b)
    ensures Inv(b)
  {
    CountUpdate(a.pcs, t, b.pcs[t]);
    CountUpdate(a.pcs, t, Idle);
    NobodyThere(a.pcs[t := Idle]);
    assert forall u :: 0 <= u < |a.pcs| && u != t ==> a.pcs[u] == a.pcs[t := Idle][u];
    assert DumpedSoFar(a, t);
  }

  lemma StartKeepsInv(a: State)
    requires Inv(a)
    ensures Inv(Started(a))
  {
    StartedCounts(a.pcs);
    forall t | 0 <= t < |Started(a).pcs| && Started(a).pcs[t].Dumping? ensures DumpedSoFar(Started(a), t) {
      assert DumpedSoFar(a, t);
    }
  }

  lemma StepKeepsInv(a: State, b: State)
    requires Inv(a) && Step(a, b)
    ensures Inv(b)
  {
    var t: nat, images: nat :| StepBy(a, t, images, b);
    if Enter(a, t, images, b) {
      CountUpdate(a.pcs, t, AtLock(images));
    } else if Lock(a, t, b) {
      LockKeepsInv(a, t, b);
    } else if Dump(a, t, b) {
      DumpKeepsInv(a, t, b);
    } else {
      StartKeepsInv(a);
    }
  }

  lemma {:induction false} ReachableInv(run: seq<State>)
    requires Run(run)
    ensures Inv(run[|run| - 1])
  {
    if |run| == 1 {
      InitInv(|run[0].pcs|);
    } else {
      ReachableInv(run[..|run| - 1]);
      StepKeepsInv(run[|run| - 2], run[|run| - 1]);
    }
  }

  /** In every interleaving no image is written twice, and every completed call either wrote its record or lost it. */
  lemma DumpedAtMostOnce(run: seq<State>)
    requires Run(run)
    ensures var s := run[|run| - 1];
            && s.records + s.early == s.completed
            && forall i, j :: 0 <= i < j < |s.dumped| ==> s.dumped[i] != s.dumped[j]
  {
    ReachableInv(run);
  }

  /** No call is in progress. */
  predicate Quiet(s: State) {
    forall t :: 0 <= t < |s.pcs| ==> s.pcs[t].Idle?
  }

  /** When no call is in progress: exactly one of the calls that saw the flag unset kept its record. */
  lemma LossesExactly(run: seq<State>)
    requires Run(run)
    requires Quiet(run[|run| - 1])
    ensures var s := run[|run| - 1];
            && s.early == (if s.passed == 0 then 0 else s.passed - 1)
            && s.records == s.completed - s.early
            && (s.completed > 0 ==> s.collected)
  {
    ReachableInv(run);
    NobodyThere(run[|run| - 1].pcs);
  }

  /** Two threads that both find the flag unset: one of them loses its record. */
  lemma LossIsReachable()
    ensures exists run: seq<State> :: Run(run) && Quiet(run[|run| - 1]) && run[|run| - 1].completed == 2 && run[|run| - 1].early == 1
  {
    hide Holders, Waiting, Inv;
    var s0 := Init(2);
    var s1 := s0.(pcs := [AtLock(0), Idle], passed := 1);
    var s2 := s1.(pcs := [AtLock(0), AtLock(0)], passed := 2);
    var s3 := s2.(collected := true, pcs := [Dumping(0, 0), AtLock(0)]);
    var s4 := s3.(pcs := [Idle, AtLock(0)], records := 1, completed := 1);
    var s5 := s4.(pcs := [Idle, Idle], early := 1, completed := 2);
    var run := [s0, s1, s2, s3, s4, s5];
    NobodyThere(s2.pcs);
    NobodyThere(s4.pcs);
    assert StepBy(s0, 0, 0, s1);
    assert StepBy(s1, 1, 0, s2);
    assert StepBy(s2, 0, 0, s3);
    assert StepBy(s3, 0, 0, s4);
    assert StepBy(s4, 1, 0, s5);
    assert Run(run) && Quiet(run[|run| - 1]);
  }

  /** Once the flag is set and nobody dumps, the dump is finished for good: no later step adds an image. */
  lemma NoSecondDump(a: State, b: State)
    requires Inv(a) && Step(a, b) && a.collected && Holders(a.pcs) == 0
    ensures b.dumped == a.dumped && Holders(b.pcs) == 0
  {
    var t: nat, images: nat :| StepBy(a, t, images, b);
    NobodyThere(a.pcs);
    if b == Started(a) {
      StartedCounts(a.pcs);
    } else {
      CountUpdate(a.pcs, t, b.pcs[t]);
      assert !Dump(a, t, b);
    }
  }

  // ---- What the first test of the flag is for ----

  /** A thread that starts a selection once the flag is set does not wait: it is done in the same step. */
  lemma LateSelectionDoesNotWait(a: State, b: State, t: nat)
    requires Step(a, b) && a.collected && t < |a.pcs| && a.pcs[t].Idle?
    ensures b.collected && t < |b.pcs| && b.pcs[t].Idle?
    ensures b.pcs == a.pcs ==> b.dumped == a.dumped && b.records == a.records + 1 && b.completed == a.completed + 1
                               && b.early == a.early
  {
    var u: nat, images: nat :| StepBy(a, u, images, b);
    if MovesBy(a, u, images, b) && u != t { MovesOneThread(a, u, images, b); }
  }

  lemma MovesOneThread(a: State, t: nat, images: nat, b: State)
    requires MovesBy(a, t, images, b)
    ensures t < |a.pcs| == |b.pcs| && forall u :: 0 <= u < |a.pcs| && u != t ==> b.pcs[u] == a.pcs[u]
    ensures a.collected ==> b.collected
  {
  }

  /** A thread that leaves the handler has completed a call: with its record after a dump, without it after waiting. */
  lemma LeavingCompletes(a: State, b: State, t: nat)
    requires Step(a, b) && t < |a.pcs| && t < |b.pcs| && !a.pcs[t].Idle? && b.pcs[t].Idle?
    ensures b.completed == a.completed + 1
    ensures a.pcs[t].Dumping? ==> b.records == a.records + 1 && b.early == a.early
    ensures a.pcs[t].AtLock? ==> b.records == a.records && b.early == a.early + 1 && a.collected
  {
    var u: nat, images: nat :| StepBy(a, u, images, b);
    if MovesBy(a, u, images, b) && u != t { MovesOneThread(a, u, images, b); }
  }

  /** Over runs: idle once the flag is set, idle whenever looked at again. */
  lemma {:induction false} IdleFromThenOn(run: seq<State>, m: nat, n: nat, t: nat)
    requires Run(run) && m <= n < |run|
    requires run[m].collected && t < |run[m].pcs| && run[m].pcs[t].Idle?
    ensures run[n].collected && t < |run[n].pcs| && run[n].pcs[t].Idle?
    decreases n - m
  {
    hide Step;
    if m < n {
      assert Step(run[m + 1 - 1], run[m + 1]);
      LateSelectionDoesNotWait(run[m], run[m + 1], t);
      IdleFromThenOn(run, m + 1, n, t);
    }
  }

  lemma StepKeepsWaiters(a: State, b: State)
    requires Step(a, b) && a.collected
    ensures b.collected && b.early + Waiting(b.pcs) == a.early + Waiting(a.pcs)
  {
    var t: nat, images: nat :| StepBy(a, t, images, b);
    StartedCounts(a.pcs);
    if MovesBy(a, t, images, b) && t < |a.pcs| {
      CountUpdate(a.pcs, t, b.pcs[t]);
      assert a.pcs[t := b.pcs[t]] == b.pcs;
    }
  }

  /** Once the flag is set, exactly those threads return early that were waiting at the lock then. */
  lemma {:induction false} OnlyWaitersLose(run: seq<State>, m: nat, n: nat)
    requires Run(run) && m <= n < |run| && run[m].collected
    ensures run[n].collected && run[n].early + Waiting(run[n].pcs) == run[m].early + Waiting(run[m].pcs)
    decreases n - m
  {
    hide Step;
    if m < n {
      assert Step(run[m + 1 - 1], run[m + 1]);
      StepKeepsWaiters(run[m], run[m + 1]);
      OnlyWaitersLose(run, m + 1, n);
    }
  }

  /** All threads but t stay outside. */
  ghost predicate OnlyOne(run: seq<State>, t: nat) {
    forall k, u :: 0 <= k < |run| && 0 <= u < |run[k].pcs| && u != t ==> run[k].pcs[u].Idle?
  }

  ghost predicate Alone(s: State, t: nat) {
    && s.early == 0
    && (s.collected && t < |s.pcs| ==> !s.pcs[t].AtLock?)
  }

  lemma StepKeepsAlone(a: State, b: State, t: nat)
    requires Step(a, b) && Alone(a, t) && Inv(a)
    requires forall u :: 0 <= u < |a.pcs| && u != t ==> a.pcs[u].Idle?
    requires forall u :: 0 <= u < |b.pcs| && u != t ==> b.pcs[u].Idle?
    ensures Alone(b, t)
  {
    hide Holders, Waiting;
    var u: nat, images: nat :| StepBy(a, u, images, b);
  }

  /** As long as a single thread selects, however often, no record is lost. */
  lemma {:induction false} OneSelectingThreadLosesNothing(run: seq<State>, t: nat)
    requires Run(run) && OnlyOne(run, t)
    ensures run[|run| - 1].early == 0 && run[|run| - 1].records == run[|run| - 1].completed
  {
    AloneThroughout(run, t);
    ReachableInv(run);
  }

  lemma {:induction false} AloneThroughout(run: seq<State>, t: nat)
    requires Run(run) && OnlyOne(run, t)
    ensures Alone(run[|run| - 1], t)
  {
    hide Step, Inv;
    var n := |run| - 1;
    if n > 0 {
      AloneThroughout(run[..n], t);
      ReachableInv(run[..n]);
      assert Step(run[n - 1], run[n]);
      StepKeepsAlone(run[n - 1], run[n], t);
    }
  }

  /** The winner writes all its images: when its loop ends, the disk holds each of them exactly once. */
  lemma WinnerDumpsAll(run: seq<State>, t: nat, b: State)
    requires Run(run) && Dump(run[|run| - 1], t, b) && b.pcs[t].Idle?
    ensures b.dumped == UpTo(run[|run| - 1].pcs[t].images)
  {
    ReachableInv(run);
    assert DumpedSoFar(run[|run| - 1], t);
  }
}
