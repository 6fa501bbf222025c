// Recording with the lock around the binary dump built in: which recordings lose records.
module LockedRecording {
  import opened TraceFraming
  import opened ThreadNames
  import opened PiCalls
  import opened RecordReplay
  import opened Determinism
  import Lock = BinaryDump

  /** A recording in progress: threads and files, and where each thread is in the handler of a selection. */
  datatype State = State(rec: Recording, lock: Lock.State)

  const START := State(RECORD_INIT, Lock.Init(1))

  predicate AsksToSelect(s: Setup, r: Recording, i: nat)
    requires i < |r.threads| == |r.logs|
  {
    s.program.next(r.threads[i].path, Observe(r.logs[i])) == Invoke(SelectBinary)
  }

  /** Any event but a selection, of a thread that is not inside the handler. */
  ghost predicate OrdinaryStep(s: Setup, a: State, i: nat, e: Event, b: State) {
    && RecordStepBy(s, a.rec, i, e, b.rec) && !AsksToSelect(s, a.rec, i)
    && i < |a.lock.pcs| && a.lock.pcs[i].Idle?
    && b.lock == if e.ThreadCreated? then Lock.Started(a.lock) else a.lock
  }

  /** One move of a thread inside the handler; the move that completes the call is the recorded event,
      and it loses its record exactly when it is the early return. */
  ghost predicate SelectStep(s: Setup, a: State, i: nat, images: nat, e: Event, b: State) {
    && i < |a.rec.threads| == |a.rec.logs| && AsksToSelect(s, a.rec, i)
    && Lock.MovesBy(a.lock, i, images, b.lock)
    && if b.lock.completed == a.lock.completed then b.rec == a.rec
       else RecordStepBy(s, a.rec, i, e, b.rec) && e.Called? && (e.lost <==> b.lock.early > a.lock.early)
  }

  ghost predicate StepBy(s: Setup, a: State, i: nat, images: nat, e: Event, b: State) {
    OrdinaryStep(s, a, i, e, b) || SelectStep(s, a, i, images, e, b)
  }

  ghost predicate Step(s: Setup, a: State, b: State) {
    exists i: nat, images: nat, e: Event :: StepBy(s, a, i, images, e, b)
  }

  ghost predicate Run(s: Setup, run: seq<State>) {
    && run != [] && run[0] == START
    && forall k :: 0 < k < |run| ==> Step(s, run[k - 1], run[k])
  }

  /** The records lost by all threads together. */
  function TotalLost(logs: seq<seq<Event>>): nat {
    if logs == [] then 0 else Lost(logs[0]) + TotalLost(logs[1..])
  }

  lemma {:induction false} TotalLostUpdate(logs: seq<seq<Event>>, i: nat, log: seq<Event>)
    requires i < |logs|
    ensures TotalLost(logs[i := log]) == TotalLost(logs) - Lost(logs[i]) + Lost(log)
  {
    if i == 0 {
      assert logs[i := log][1..] == logs[1..];
    } else {
      TotalLostUpdate(logs[1..], i - 1, log);
      assert logs[i := log][1..] == logs[1..][i - 1 := log];
    }
  }

  lemma {:induction false} TotalLostNew(logs: seq<seq<Event>>)
    ensures TotalLost(logs + [[]]) == TotalLost(logs)
  {
    if logs == [] {
      assert (logs + [[]])[1..] == [];
    } else {
      TotalLostNew(logs[1..]);
      assert (logs + [[]])[1..] == logs[1..] + [[]];
    }
  }

  lemma {:induction false} TotalLostZero(logs: seq<seq<Event>>)
    ensures TotalLost(logs) == 0 <==> forall i :: 0 <= i < |logs| ==> Lost(logs[i]) == 0
  {
    if logs != [] {
      TotalLostZero(logs[1..]);
      assert forall i :: 0 < i < |logs| ==> logs[i] == logs[1..][i - 1];
    }
  }

  lemma LostStep(log: seq<Event>, e: Event)
    ensures Lost(log + [e]) == Lost(log) + if e.Called? && e.lost then 1 else 0
  {
    assert (log + [e])[..|log|] == log;
  }

  /** One event adds what it loses. */
  lemma EventLoses(s: Setup, a: Recording, i: nat, e: Event, b: Recording)
    requires RecordStepBy(s, a, i, e, b)
    ensures TotalLost(b.logs) == TotalLost(a.logs) + if e.Called? && e.lost then 1 else 0
  {
    hide Allowed, MakeRecord, WriteMem, Frame, Spawn;
    var logs := a.logs[i := a.logs[i] + [e]];
    LostStep(a.logs[i], e);
    TotalLostUpdate(a.logs, i, a.logs[i] + [e]);
    TotalLostNew(logs);
  }

  /** Lost records are the early returns, and only threads that ask for a selection are inside the handler. */
  ghost predicate Inv(s: Setup, a: State) {
    && |a.rec.logs| == |a.rec.threads| == |a.lock.pcs|
    && TotalLost(a.rec.logs) == a.lock.early
    && forall i: nat :: i < |a.lock.pcs| ==> (a.lock.pcs[i].Idle? || AsksToSelect(s, a.rec, i))
  }

  lemma ShapeAfter(s: Setup, a: Recording, i: nat, e: Event, b: Recording)
    requires RecordStepBy(s, a, i, e, b)
    ensures |b.logs| == |b.threads| == |a.threads| + if e.ThreadCreated? then 1 else 0
    ensures forall j :: 0 <= j < |a.threads| && j != i ==> b.logs[j] == a.logs[j] && b.threads[j].path == a.threads[j].path
    ensures e.Called? && AsksToSelect(s, a, i) ==> e.call == SelectBinary
    ensures AsksToSelect(s, a, i) ==> e.Called?
    ensures !AsksToSelect(s, a, i) && e.Called? ==> !e.lost
  {
    hide MakeRecord, WriteMem, Frame, Answers, WellFormed, EventUsed;
  }

  lemma OrdinaryKeepsInv(s: Setup, a: State, i: nat, e: Event, b: State)
    requires Inv(s, a) && OrdinaryStep(s, a, i, e, b)
    ensures Inv(s, b)
  {
    EventLoses(s, a.rec, i, e, b.rec);
    ShapeAfter(s, a.rec, i, e, b.rec);
    hide RecordStepBy, TotalLost;
  }

  lemma SelectKeepsInv(s: Setup, a: State, i: nat, images: nat, e: Event, b: State)
    requires Inv(s, a) && SelectStep(s, a, i, images, e, b)
    ensures Inv(s, b)
  {
    MoveOfOne(a.lock, i, images, b.lock);
    if b.lock.completed != a.lock.completed {
      EventLoses(s, a.rec, i, e, b.rec);
      ShapeAfter(s, a.rec, i, e, b.rec);
    }
    hide RecordStepBy, TotalLost, Lock.MovesBy;
  }

  /** A move changes one thread; a completed call leaves it outside, and at most one early return is counted. */
  lemma MoveOfOne(a: Lock.State, i: nat, images: nat, b: Lock.State)
    requires Lock.MovesBy(a, i, images, b)
    ensures i < |a.pcs| == |b.pcs|
    ensures forall j :: 0 <= j < |a.pcs| && j != i ==> b.pcs[j] == a.pcs[j]
    ensures b.completed != a.completed ==> b.pcs[i].Idle?
    ensures b.completed == a.completed ==> b.early == a.early
    ensures a.early <= b.early <= a.early + 1
  {
    hide Lock.Holders;
  }

  lemma StepKeepsInv(s: Setup, a: State, b: State)
    requires Inv(s, a) && Step(s, a, b)
    ensures Inv(s, b)
  {
    hide OrdinaryStep, SelectStep, Inv;
    var i: nat, images: nat, e: Event :| StepBy(s, a, i, images, e, b);
    if OrdinaryStep(s, a, i, e, b) {
      OrdinaryKeepsInv(s, a, i, e, b);
    } else {
      SelectKeepsInv(s, a, i, images, e, b);
    }
  }

  lemma {:induction false} RunKeepsInv(s: Setup, run: seq<State>)
    requires Run(s, run)
    ensures Inv(s, run[|run| - 1])
  {
    hide Step, Inv;
    var n := |run| - 1;
    if n == 0 {
      assert Inv(s, START) by { StartInv(s); }
    } else {
      RunKeepsInv(s, run[..n]);
      assert Step(s, run[n - 1], run[n]);
      StepKeepsInv(s, run[n - 1], run[n]);
    }
  }

  lemma StartInv(s: Setup)
    ensures Inv(s, START)
  {
    assert TotalLost([[]]) == 0 by { TotalLostZero([[]]); }
  }

  // ---- The two parts on their own ----

  lemma StepOfParts(s: Setup, a: State, b: State)
    requires Step(s, a, b)
    ensures b.rec == a.rec || RecordStep(s, a.rec, b.rec)
    ensures b.lock == a.lock || Lock.Step(a.lock, b.lock)
  {
    var i: nat, images: nat, e: Event :| StepBy(s, a, i, images, e, b);
    hide RecordStepBy, Lock.MovesBy;
    if b.lock != a.lock { assert Lock.StepBy(a.lock, i, images, b.lock); }
  }

  /** Without the steps in which it rests, each part goes through a run of its own. */
  lemma {:induction false} RunsOfParts(s: Setup, run: seq<State>)
    requires Run(s, run)
    ensures exists recording :: RecordRun(s, recording) && recording[|recording| - 1] == run[|run| - 1].rec
    ensures exists locks :: Lock.Run(locks) && locks[|locks| - 1] == run[|run| - 1].lock
  {
    hide Step, RecordStep, Lock.Step;
    var n := |run| - 1;
    if n == 0 {
      assert RecordRun(s, [RECORD_INIT]) && [RECORD_INIT][0] == run[0].rec;
      var locks := [Lock.Init(1)];
      assert Lock.Run(locks) && locks[0] == run[0].lock;
    } else {
      RunsOfParts(s, run[..n]);
      assert Step(s, run[n - 1], run[n]);
      StepOfParts(s, run[n - 1], run[n]);
      var recording :| RecordRun(s, recording) && recording[|recording| - 1] == run[n - 1].rec;
      var locks :| Lock.Run(locks) && locks[|locks| - 1] == run[n - 1].lock;
      RecordingExtends(s, recording, run[n].rec);
      LockExtends(locks, run[n].lock);
    }
  }

  lemma RecordingExtends(s: Setup, recording: seq<Recording>, b: Recording)
    requires RecordRun(s, recording)
    requires b == recording[|recording| - 1] || RecordStep(s, recording[|recording| - 1], b)
    ensures exists more :: RecordRun(s, more) && more[|more| - 1] == b
  {
    hide RecordStep;
    if b != recording[|recording| - 1] {
      var more := recording + [b];
      forall k | 0 < k < |more| ensures RecordStep(s, more[k - 1], more[k]) {
        assert k < |recording| ==> more[k] == recording[k];
      }
      assert RecordRun(s, more);
    }
  }

  lemma LockExtends(locks: seq<Lock.State>, b: Lock.State)
    requires Lock.Run(locks)
    requires b == locks[|locks| - 1] || Lock.Step(locks[|locks| - 1], b)
    ensures exists more :: Lock.Run(more) && more[|more| - 1] == b
  {
    hide Lock.Step;
    if b != locks[|locks| - 1] {
      var more := locks + [b];
      forall k | 0 < k < |more| ensures Lock.Step(more[k - 1], more[k]) {
        assert k < |locks| ==> more[k] == locks[k];
      }
      assert Lock.Run(more);
    }
  }

  // ---- The theorems ----

  lemma FinishedIsQuiet(s: Setup, a: State)
    requires Inv(s, a) && Completed(s, a.rec)
    ensures Lock.Quiet(a.lock)
  {
  }

  /** A finished recording lost no record exactly when at most one of its selections found the flag unset. */
  lemma NoneLostExactly(s: Setup, run: seq<State>)
    requires Run(s, run) && Completed(s, run[|run| - 1].rec)
    ensures var a := run[|run| - 1];
            NoneLost(a.rec) <==> a.lock.passed <= 1
  {
    var a := run[|run| - 1];
    RunKeepsInv(s, run);
    RunsOfParts(s, run);
    FinishedIsQuiet(s, a);
    hide Run, Completed;
    var locks :| Lock.Run(locks) && locks[|locks| - 1] == a.lock;
    Lock.LossesExactly(locks);
    TotalLostZero(a.rec.logs);
  }

  /** Some schedule replays a finished recording in full exactly when at most one selection found the flag unset
      and every call was faithful. */
  lemma LockedReplayableExactly(s: Setup, run: seq<State>)
    requires Run(s, run) && Lawful(s.codec)
    requires var r := run[|run| - 1].rec;
             NamesFit(r.threads) && Completed(s, r) && RecordsFit(s, r)
    ensures var a := run[|run| - 1];
            CanBeReplayed(s, a.rec) <==> a.lock.passed <= 1 && AllFaithful(s, a.rec)
  {
    var r := run[|run| - 1].rec;
    RunsOfParts(s, run);
    NoneLostExactly(s, run);
    hide Run, Completed, AllFaithful, NoneLost, RecordsFit, RecordRun;
    var recording :| RecordRun(s, recording) && recording[|recording| - 1] == r;
    ReplayableExactly(s, recording);
  }
}
