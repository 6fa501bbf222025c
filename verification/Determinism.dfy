// Exactly which recordings can be replayed, and a condition on the program alone that suffices.
module Determinism {
  import opened TraceFraming
  import opened ThreadNames
  import opened PiCalls
  import opened RecordReplay

  // ---- Unfaithful calls ----

  /** Up to and including event m, the replayed history is the recorded one. */
  ghost predicate SameThrough(hist: seq<Obs>, log: seq<Event>, m: nat) {
    m < |hist| && m < |log| && hist[..m + 1] == Observe(log)[..m + 1]
  }

  /** Whatever this thread repeated so far was faithful. */
  ghost predicate Honest(s: Setup, hist: seq<Obs>, log: seq<Event>) {
    forall m: nat :: SameThrough(hist, log, m) ==> FaithfulEvent(s, log[m])
  }

  /** A call that shows what was recorded, from its own record, is faithful. */
  lemma ShownCallIsFaithful(s: Setup, r: Recording, a: Replaying, j: nat, i: nat, call: Call)
    requires Replayable(s, r) && ReplayShape(r, a)
    requires j < |a.threads| && i < |r.threads| && a.threads[j].path == r.threads[i].path && CursorBound(s, r, a, j, i)
    requires s.program.next(a.threads[j].path, a.hists[j]) == Invoke(call)
    requires var m := |a.hists[j]|;
             Lost(r.logs[i]) == 0 && m < |r.logs[i]| && a.hists[j] == Observe(r.logs[i])[..m]
    ensures var e := r.logs[i][|a.hists[j]|];
            && e.Called?
            && (ReplayCall(s.codec, FileOf(r, a.threads[j]), a.cursors[j], call, r.mems).0 == Ok(Seen(e.call, e.resp))
                ==> FaithfulEvent(s, e))
  {
    var log, m, c := r.logs[i], |a.hists[j]|, Calls(a.hists[j]);
    assert Observe(log)[..m] == Observe(log[..m]);
    assert Asked(s, r.threads[i].path, log, m);
    var e := log[m];
    RecordOfEvent(s, r.threads[i].name, log, m);
    MemIsKept(s, r, i, m);
    hide Replayable, ReplayShape, FileOf, MakeRecord, Answer, Seen, ReplayCall, Written, Offset, Observe, Calls, Answers, WellFormed,
         Selections, SelectRecords, Lost;
    CallReads(s, r, a, j, call, i, c);
    ReplayExact(r.threads[i].name, s.writeMem, e.call, e.resp, e.at, r.mems);
  }

  lemma HonestAppend(s: Setup, hist: seq<Obs>, o: Obs, log: seq<Event>)
    requires Honest(s, hist, log)
    requires |hist| < |log| && hist == Observe(log)[..|hist|] && o == ObsOf(log[|hist|]) ==> FaithfulEvent(s, log[|hist|])
    ensures Honest(s, hist + [o], log)
  {
    hide FaithfulEvent, ObsOf;
    forall m: nat | SameThrough(hist + [o], log, m) ensures FaithfulEvent(s, log[m]) {
      var prefix := (hist + [o])[..m + 1];
      if m < |hist| {
        assert prefix == hist[..m + 1];
        assert SameThrough(hist, log, m);
      } else {
        assert prefix[..m] == hist && Observe(log)[..m + 1][..m] == Observe(log)[..m];
        assert prefix[m] == o && Observe(log)[..m + 1][m] == ObsOf(log[m]);
      }
    }
  }

  ghost predicate AllHonest(s: Setup, r: Recording, a: Replaying)
    requires |r.threads| == |r.logs| && |a.threads| == |a.hists|
  {
    forall j: nat, i: nat ::
      j < |a.threads| && i < |r.threads| && a.threads[j].path == r.threads[i].path && Lost(r.logs[i]) == 0 ==>
        Honest(s, a.hists[j], r.logs[i])
  }

  lemma CallKeepsHonest(s: Setup, r: Recording, a: Replaying, j: nat, call: Call, b: Replaying, i: nat)
    requires Replayable(s, r) && ReplayShape(r, a) && ReplayStepBy(s, r, a, j, b)
    requires s.program.next(a.threads[j].path, a.hists[j]) == Invoke(call)
    requires i < |r.threads| && a.threads[j].path == r.threads[i].path && CursorBound(s, r, a, j, i)
    requires Lost(r.logs[i]) == 0 && Honest(s, a.hists[j], r.logs[i])
    ensures |b.hists| == |a.hists| && Honest(s, b.hists[j], r.logs[i])
  {
    var hist, log := a.hists[j], r.logs[i];
    CallEffect(s, r, a, j, call, b);
    if |hist| < |log| && hist == Observe(log)[..|hist|] {
      ShownCallIsFaithful(s, r, a, j, i, call);
    }
    hide Replayable, ReplayShape, ReplayStepBy, CursorBound, ReplayCall, FileOf, Honest, FaithfulEvent, Seen, Lost;
    var (reply, _) := ReplayCall(s.codec, FileOf(r, a.threads[j]), a.cursors[j], call, r.mems);
    if reply.Ok? { HonestAppend(s, hist, Saw(reply.outcome), log); }
  }

  lemma CreationKeepsHonest(s: Setup, r: Recording, a: Replaying, m: nat, b: Replaying, j: nat, i: nat)
    requires Replayable(s, r) && ReplayShape(r, a) && ReplayStepBy(s, r, a, m, b)
    requires s.program.next(a.threads[m].path, a.hists[m]) == CreateThread
    requires |b.hists| == |b.threads| && j < |b.threads| && i < |r.threads| && b.threads[j].path == r.threads[i].path
    requires j < |a.threads| ==> Honest(s, a.hists[j], r.logs[i])
    ensures Honest(s, b.hists[j], r.logs[i])
  {
    if j == m {
      var hist, log := a.hists[m], r.logs[i];
      if |hist| < |log| && hist == Observe(log)[..|hist|] {
        assert Observe(log)[..|hist|] == Observe(log[..|hist|]);
        assert Asked(s, r.threads[i].path, log, |hist|);
      }
      hide TracesOk, MemsOk, Tree, Completed, RecordsFit, Honest;
      HonestAppend(s, hist, Created, log);
    }
  }

  lemma StepKeepsHonest(s: Setup, r: Recording, a: Replaying, m: nat, b: Replaying)
    requires Replayable(s, r) && ReplayShape(r, a) && ReplayShape(r, b) && ReplayStepBy(s, r, a, m, b)
    requires CursorsOk(s, r, a) && AllHonest(s, r, a)
    ensures AllHonest(s, r, b)
  {
    hide Tree, LogsOk, TracesOk, MemsOk, RecordsFit, NamesFit, Honest, CursorBound, Lost, ReplayCall, FileOf;
    var action := s.program.next(a.threads[m].path, a.hists[m]);
    forall j: nat, i: nat | j < |b.threads| && i < |r.threads| && b.threads[j].path == r.threads[i].path && Lost(r.logs[i]) == 0
      ensures Honest(s, b.hists[j], r.logs[i])
    {
      if action.CreateThread? {
        CreationKeepsHonest(s, r, a, m, b, j, i);
      } else if j == m {
        CallKeepsHonest(s, r, a, m, action.call, b, i);
      }
    }
  }

  lemma {:induction false} ReplaysAreHonest(s: Setup, r: Recording, run: seq<Replaying>)
    requires Replayable(s, r) && ReplayRun(s, r, run)
    ensures |r.threads| == |r.logs| && ReplayShape(r, run[|run| - 1]) && AllHonest(s, r, run[|run| - 1])
  {
    hide Tree, LogsOk, TracesOk, MemsOk, ReplayEffect, CursorBound, RecordsFit, AllHonest;
    var n := |run| - 1;
    CursorInvariant(s, r, run);
    if n == 0 {
      NothingRepeated(s, r);
    } else {
      ReplaysAreHonest(s, r, run[..n]);
      CursorInvariant(s, r, run[..n]);
      assert ReplayStep(s, r, run[n - 1], run[n]);
      var m: nat :| ReplayStepBy(s, r, run[n - 1], m, run[n]);
      StepKeepsHonest(s, r, run[n - 1], m, run[n]);
    }
  }

  lemma NothingRepeated(s: Setup, r: Recording)
    requires |r.threads| == |r.logs|
    ensures AllHonest(s, r, REPLAY_INIT)
  {
  }

  /** If a recorded call of a thread is not faithful, no replay whatsoever shows that thread all it saw. */
  lemma UnfaithfulCallIsFatal(s: Setup, r: Recording, run: seq<Replaying>, i: nat, j: nat, k: nat)
    requires Replayable(s, r) && ReplayRun(s, r, run)
    requires i < |r.threads| == |r.logs| && k < |r.logs[i]| && !FaithfulEvent(s, r.logs[i][k])
    requires var a := run[|run| - 1];
             j < |a.threads| == |a.hists| && a.threads[j].path == r.threads[i].path
    ensures run[|run| - 1].hists[j] != Observe(r.logs[i])
  {
    hide Replayable, FaithfulEvent;
    var a := run[|run| - 1];
    if Lost(r.logs[i]) > 0 {
      LostRecordIsFatal(s, r, run, i, j);
    } else {
      ReplaysAreHonest(s, r, run);
      hide ReplayRun, ReplayShape;
      assert Honest(s, a.hists[j], r.logs[i]);
      assert !SameThrough(a.hists[j], r.logs[i], k);
    }
  }

  // ---- Replaying in the order of the recording ----

  /** Recording b continues recording a. */
  ghost predicate Continues(a: Recording, b: Recording) {
    && |a.logs| == |a.threads| <= |b.threads| == |b.logs|
    && forall i :: 0 <= i < |a.threads| ==> a.threads[i].path == b.threads[i].path && a.logs[i] <= b.logs[i]
  }

  lemma StepContinues(s: Setup, a: Recording, b: Recording)
    requires RecordStep(s, a, b)
    ensures Continues(a, b)
  {
    var i: nat, e :| RecordStepBy(s, a, i, e, b);
  }

  lemma {:induction false} RunContinues(s: Setup, run: seq<Recording>, n: nat)
    requires RecordRun(s, run) && n < |run|
    ensures Continues(run[n], run[|run| - 1])
    decreases |run| - n
  {
    hide RecordStep;
    if n < |run| - 1 {
      assert RecordStep(s, run[n + 1 - 1], run[n + 1]);
      StepContinues(s, run[n], run[n + 1]);
      RunContinues(s, run, n + 1);
    } else {
      RecordingInvariant(s, run);
    }
  }

  /** A replay that has come exactly as far as a recording. */
  ghost predicate Mirrors(a: Replaying, r: Recording) {
    && !a.died && a.threads == r.threads && |a.hists| == |a.threads| == |r.logs|
    && forall i :: 0 <= i < |a.threads| ==> a.hists[i] == Observe(r.logs[i])
  }

  lemma EffectOnHists(s: Setup, r: Recording, a: Replaying, i: nat, b: Replaying)
    requires ReplayStepBy(s, r, a, i, b) && !b.died
    ensures var action := s.program.next(a.threads[i].path, a.hists[i]);
            && b.threads == (if action.CreateThread? then Spawn(a.threads, i) else a.threads)
            && |b.hists| == |b.threads| && |b.hists[i]| == |a.hists[i]| + 1
            && (forall j :: 0 <= j < |a.hists| && j != i ==> b.hists[j] == a.hists[j])
            && (action.CreateThread? ==> b.hists[|a.hists|] == [])
  {
    hide ReplayCall, FileOf, Child;
  }

  lemma EffectOnLogs(s: Setup, a: Recording, i: nat, e: Event, b: Recording)
    requires RecordStepBy(s, a, i, e, b)
    ensures var action := s.program.next(a.threads[i].path, Observe(a.logs[i]));
            && !action.Finish?
            && b.threads == (if action.CreateThread? then Spawn(a.threads, i) else a.threads)
            && |b.logs| == |b.threads| && |b.logs[i]| == |a.logs[i]| + 1
            && (forall j :: 0 <= j < |a.logs| && j != i ==> b.logs[j] == a.logs[j])
            && (action.CreateThread? ==> b.logs[|a.logs|] == [])
  {
    hide MakeRecord, Frame, WriteMem, Child, WellFormed, Answers;
  }

  /** Two histories of one length that a third one continues are the same. */
  lemma SameHistory(hist: seq<Obs>, log: seq<Event>, whole: seq<Event>)
    requires log <= whole && hist <= Observe(whole) && |hist| == |log|
    ensures hist == Observe(log)
  {
    assert forall k :: 0 <= k < |log| ==> hist[k] == Observe(whole)[k] == ObsOf(whole[k]) && log[k] == whole[k];
  }

  /** After one more step on each side, replay and recording are level again. */
  lemma StepMirrors(s: Setup, r: Recording, p: Recording, i: nat, e: Event, p': Recording, a: Replaying, b: Replaying)
    requires Replayable(s, r) && RecordStepBy(s, p, i, e, p') && Continues(p', r)
    requires Mirrors(a, p) && ReplayStepBy(s, r, a, i, b) && ReplayInv(s, r, b)
    ensures Mirrors(b, p')
  {
    hide LogsOk, TracesOk, MemsOk, Tree, RecordsFit, Completed;
    EffectOnHists(s, r, a, i, b);
    EffectOnLogs(s, p, i, e, p');
    SamePathFollows(s, r, b, i, i);
    SameHistory(b.hists[i], p'.logs[i], r.logs[i]);
    hide RecordStepBy, ReplayStepBy, ReplayInv, Observe;
    assert Observe([]) == [] by { NothingObserved(); }
  }

  lemma NothingObserved()
    ensures Observe([]) == []
  {
  }

  /** A faithful recording can be replayed by following its own schedule. */
  lemma {:induction false} ReplayCanFollow(s: Setup, recording: seq<Recording>, n: nat)
    requires RecordRun(s, recording) && n < |recording|
    requires var r := recording[|recording| - 1];
             Replayable(s, r) && NoneLost(r) && AllFaithful(s, r)
    ensures var r := recording[|recording| - 1];
            exists run :: ReplayRun(s, r, run) && Mirrors(run[|run| - 1], recording[n])
  {
    hide Replayable, NoneLost, AllFaithful, RecordStep, RecordStepBy, ReplayStepBy;
    var r := recording[|recording| - 1];
    if n == 0 {
      assert ReplayRun(s, r, [REPLAY_INIT]) && Mirrors(REPLAY_INIT, RECORD_INIT) by { NothingObserved(); }
    } else {
      ReplayCanFollow(s, recording, n - 1);
      var run :| ReplayRun(s, r, run) && Mirrors(run[|run| - 1], recording[n - 1]);
      assert RecordStep(s, recording[n - 1], recording[n]);
      RunContinues(s, recording, n);
      hide ReplayRun, RecordRun, Mirrors, Continues;
      var b := FollowStep(s, r, recording[n - 1], recording[n], run);
    }
  }

  lemma FollowStep(s: Setup, r: Recording, p: Recording, p': Recording, run: seq<Replaying>) returns (b: Replaying)
    requires Replayable(s, r) && NoneLost(r) && AllFaithful(s, r)
    requires RecordStep(s, p, p') && Continues(p', r)
    requires ReplayRun(s, r, run) && Mirrors(run[|run| - 1], p)
    ensures ReplayRun(s, r, run + [b]) && Mirrors((run + [b])[|run + [b]| - 1], p')
  {
    ReplayInvariant(s, r, run);
    var a := run[|run| - 1];
    var i: nat, e :| RecordStepBy(s, p, i, e, p');
    EffectOnLogs(s, p, i, e, p');
    b := NextState(s, r, a, i);
    hide NoneLost, AllFaithful, RecordStepBy, ReplayStepBy, ReplayInv, Mirrors, Continues, LogsOk, TracesOk, MemsOk, Tree;
    RunExtends(s, r, run, i, b);
    ReplayInvariant(s, r, run + [b]);
    StepMirrors(s, r, p, i, e, p', a, b);
  }

  /** Every recorded thread was replayed and saw all it saw while recording. */
  ghost predicate ShowsAll(r: Recording, a: Replaying) {
    && |r.threads| == |r.logs| && |a.threads| == |a.hists|
    && forall i: nat :: i < |r.threads| ==> ShowsThread(r, a, i)
  }

  /** Some replay, under some schedule, shows every thread all it saw. */
  ghost predicate CanBeReplayed(s: Setup, r: Recording) {
    exists run :: ReplayRun(s, r, run) && ShowsAll(r, run[|run| - 1])
  }

  ghost predicate ShowsThread(r: Recording, a: Replaying, i: nat)
    requires i < |r.threads| == |r.logs| && |a.threads| == |a.hists|
  {
    exists j: nat :: j < |a.threads| && a.threads[j].path == r.threads[i].path && a.hists[j] == Observe(r.logs[i])
  }

  lemma MirrorShowsAll(r: Recording, a: Replaying)
    requires Mirrors(a, r)
    ensures ShowsAll(r, a)
  {
    hide Observe;
    forall i: nat | i < |r.threads| ensures ShowsThread(r, a, i) {
      assert a.threads[i].path == r.threads[i].path && a.hists[i] == Observe(r.logs[i]);
    }
  }

  /** A thread that was shown all it saw lost no record and made faithful calls only. */
  lemma ShownThreadIsFaithful(s: Setup, r: Recording, run: seq<Replaying>, i: nat)
    requires Replayable(s, r) && ReplayRun(s, r, run)
    requires i < |r.threads| == |r.logs| && |run[|run| - 1].threads| == |run[|run| - 1].hists|
    requires ShowsThread(r, run[|run| - 1], i)
    ensures Lost(r.logs[i]) == 0 && forall k: nat :: k < |r.logs[i]| ==> FaithfulEvent(s, r.logs[i][k])
  {
    var a := run[|run| - 1];
    hide Replayable, ReplayRun, FaithfulEvent, Observe;
    var j: nat :| j < |a.threads| && a.threads[j].path == r.threads[i].path && a.hists[j] == Observe(r.logs[i]);
    if Lost(r.logs[i]) > 0 { LostRecordIsFatal(s, r, run, i, j); }
    forall k: nat | k < |r.logs[i]| ensures FaithfulEvent(s, r.logs[i][k]) {
      if !FaithfulEvent(s, r.logs[i][k]) { UnfaithfulCallIsFatal(s, r, run, i, j, k); }
    }
  }

  /** Some schedule replays a finished recording in full exactly when no record was lost and every call was faithful;
      and then, by `ReplayShowsTheRecording`, every schedule does. */
  lemma ReplayableExactly(s: Setup, recording: seq<Recording>)
    requires RecordRun(s, recording) && Lawful(s.codec)
    requires var r := recording[|recording| - 1];
             NamesFit(r.threads) && Completed(s, r) && RecordsFit(s, r)
    ensures var r := recording[|recording| - 1];
            CanBeReplayed(s, r) <==> NoneLost(r) && AllFaithful(s, r)
  {
    var r := recording[|recording| - 1];
    RecordingInvariant(s, recording);
    assert Replayable(s, r);
    hide Replayable, RecordRun, RecordInv, ReplayRun, ShowsAll, FaithfulEvent;
    if NoneLost(r) && AllFaithful(s, r) {
      ReplayCanFollow(s, recording, |recording| - 1);
      var run :| ReplayRun(s, r, run) && Mirrors(run[|run| - 1], r);
      MirrorShowsAll(r, run[|run| - 1]);
    }
    if run :| ReplayRun(s, r, run) && ShowsAll(r, run[|run| - 1]) {
      ShownIsFaithful(s, r, run);
    }
  }

  lemma ShownIsFaithful(s: Setup, r: Recording, run: seq<Replaying>)
    requires Replayable(s, r) && ReplayRun(s, r, run) && ShowsAll(r, run[|run| - 1])
    ensures NoneLost(r) && AllFaithful(s, r)
  {
    hide Replayable, ReplayRun, FaithfulEvent, ShowsThread;
    forall i: nat | i < |r.logs|
      ensures Lost(r.logs[i]) == 0 && forall k: nat :: k < |r.logs[i]| ==> FaithfulEvent(s, r.logs[i][k])
    {
      ShownThreadIsFaithful(s, r, run, i);
    }
  }

  // ---- A condition on the program ----

  /** Whatever happens, the program makes guarded calls only. */
  ghost predicate GuardedProgram(s: Setup) {
    forall path: seq<nat>, hist: seq<Obs> :: GuardedAction(s.program.next(path, hist), s.writeMem)
  }

  predicate GuardedAction(action: Action, writeMem: bool) {
    action.Invoke? ==> Guarded(action.call, writeMem)
  }

  lemma GuardedProgramIsFaithful(s: Setup, r: Recording)
    requires GuardedProgram(s) && LogsOk(s, r)
    ensures AllFaithful(s, r)
  {
    forall i, k: nat | 0 <= i < |r.logs| && k < |r.logs[i]| ensures FaithfulEvent(s, r.logs[i][k]) {
      assert Asked(s, r.threads[i].path, r.logs[i], k);
      var e := r.logs[i][k];
      assert GuardedAction(s.program.next(r.threads[i].path, Observe(r.logs[i][..k])), s.writeMem);
      if e.Called? { GuardExact(e.call, s.writeMem); }
    }
  }

  /** Determinism of guarded programs: no condition on what the plugin answered is left. */
  lemma GuardedReplayShowsTheRecording(s: Setup, recording: seq<Recording>, run: seq<Replaying>)
    requires Lawful(s.codec) && GuardedProgram(s) && RecordRun(s, recording)
    requires var r := recording[|recording| - 1];
             NamesFit(r.threads) && Completed(s, r) && RecordsFit(s, r) && NoneLost(r) && ReplayRun(s, r, run)
    ensures var r, a := recording[|recording| - 1], run[|run| - 1];
            && !a.died && |a.hists| == |a.threads|
            && forall j :: 0 <= j < |a.threads| ==>
                 exists i :: 0 <= i < |r.threads|
                             && r.threads[i].path == a.threads[j].path && r.threads[i].name == a.threads[j].name
                             && a.hists[j] <= Observe(r.logs[i])
                             && (Finished(s, a, j) ==> a.hists[j] == Observe(r.logs[i]))
  {
    var r := recording[|recording| - 1];
    hide GuardedProgram, ReplayRun, RecordRun, Completed, RecordsFit, AllFaithful, NoneLost, NamesFit;
    RecordingInvariant(s, recording);
    GuardedProgramIsFaithful(s, r);
    ReplayShowsTheRecording(s, recording, run);
  }
}
