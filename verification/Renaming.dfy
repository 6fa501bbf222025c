// Handles over whole runs: what a replayed query for a kernel's program yields is the recorded answer, renamed.
module Renaming {
  import opened Bytes
  import opened TraceFraming
  import opened ThreadNames
  import opened PiCalls
  import opened RecordReplay
  import Handles

  /** The creations and queries of a recording, whatever their order. */
  ghost predicate RecordedBy(r: Recording, op: Handles.Op, i: nat, k: nat) {
    && i < |r.threads| == |r.logs| && k < |r.logs[i]| && r.logs[i][k].Called?
    && op in OpsOf((r.threads[i].path, k), r.logs[i][k].call, Seen(r.logs[i][k].call, r.logs[i][k].resp))
  }

  ghost predicate IsRecorded(r: Recording, op: Handles.Op) {
    exists i: nat, k: nat :: RecordedBy(r, op, i, k)
  }

  ghost function RecordedOps(r: Recording): iset<Handles.Op> {
    iset op: Handles.Op | IsRecorded(r, op)
  }

  /** Replayed thread j did this with its k-th action. */
  ghost predicate DoneBy(s: Setup, a: Replaying, op: Handles.Op, j: nat, k: nat) {
    && j < |a.threads| == |a.hists| && k < |a.hists[j]|
    && var action := s.program.next(a.threads[j].path, a.hists[j][..k]);
       action.Invoke? && a.hists[j][k].Saw? && op in OpsOf((a.threads[j].path, k), action.call, a.hists[j][k].outcome)
  }

  ghost predicate Done(s: Setup, a: Replaying, op: Handles.Op) {
    exists j: nat, k: nat :: DoneBy(s, a, op, j, k)
  }

  ghost predicate OpsOk(s: Setup, a: Replaying) {
    forall op :: op in a.ops ==> Done(s, a, op)
  }

  lemma CreationsAreNamed(name: Handles.Name, call: Call, outcome: Outcome)
    ensures forall op :: op in OpsOf(name, call, outcome) ==> (if op.AskProgram? then op.asker else op.name) == name
    ensures |OpsOf(name, call, outcome)| <= 1
  {
  }

  /** What was done stays done. */
  lemma DoneStays(s: Setup, a: Replaying, b: Replaying, op: Handles.Op)
    requires Done(s, a, op) && |a.threads| == |a.hists| && |a.threads| <= |b.threads| == |b.hists|
    requires forall j :: 0 <= j < |a.threads| ==> b.threads[j].path == a.threads[j].path && a.hists[j] <= b.hists[j]
    ensures Done(s, b, op)
  {
    var j: nat, k: nat :| DoneBy(s, a, op, j, k);
    assert b.hists[j][..k] == a.hists[j][..k];
    assert DoneBy(s, b, op, j, k);
  }

  lemma StepExtends(s: Setup, r: Recording, a: Replaying, i: nat, b: Replaying)
    requires ReplayStepBy(s, r, a, i, b)
    ensures |a.threads| <= |b.threads| == |b.hists|
    ensures forall j :: 0 <= j < |a.threads| ==> b.threads[j].path == a.threads[j].path && a.hists[j] <= b.hists[j]
    ensures a.ops <= b.ops
    ensures |b.ops| > |a.ops| ==>
              var action := s.program.next(a.threads[i].path, a.hists[i]);
              && action.Invoke? && |b.hists[i]| == |a.hists[i]| + 1 && b.hists[i][|a.hists[i]|].Saw?
              && b.ops == a.ops + OpsOf((a.threads[i].path, |a.hists[i]|), action.call, b.hists[i][|a.hists[i]|].outcome)
  {
    hide ReplayCall, FileOf, Child, OpsOf;
  }

  lemma StepKeepsOps(s: Setup, r: Recording, a: Replaying, i: nat, b: Replaying)
    requires OpsOk(s, a) && ReplayStepBy(s, r, a, i, b)
    ensures OpsOk(s, b)
  {
    StepExtends(s, r, a, i, b);
    hide ReplayStepBy, Done, OpsOf;
    forall op | op in b.ops ensures Done(s, b, op) {
      if op in a.ops {
        DoneStays(s, a, b, op);
      } else {
        NewOpIsDone(s, a, i, b, op);
      }
    }
  }

  lemma NewOpIsDone(s: Setup, a: Replaying, i: nat, b: Replaying, op: Handles.Op)
    requires i < |a.threads| == |a.hists| <= |b.threads| == |b.hists|
    requires b.threads[i].path == a.threads[i].path && a.hists[i] <= b.hists[i] && |b.hists[i]| == |a.hists[i]| + 1
    requires var action, n := s.program.next(a.threads[i].path, a.hists[i]), |a.hists[i]|;
             action.Invoke? && b.hists[i][n].Saw? && op in OpsOf((a.threads[i].path, n), action.call, b.hists[i][n].outcome)
    ensures Done(s, b, op)
  {
    assert b.hists[i][..|a.hists[i]|] == a.hists[i];
    assert DoneBy(s, b, op, i, |a.hists[i]|);
  }

  lemma {:induction false} ReplayedOpsAreDone(s: Setup, r: Recording, run: seq<Replaying>)
    requires ReplayRun(s, r, run)
    ensures OpsOk(s, run[|run| - 1])
  {
    hide ReplayStepBy, Done;
    var n := |run| - 1;
    if n > 0 {
      ReplayedOpsAreDone(s, r, run[..n]);
      assert ReplayStep(s, r, run[n - 1], run[n]);
      var i: nat :| ReplayStepBy(s, r, run[n - 1], i, run[n]);
      StepKeepsOps(s, r, run[n - 1], i, run[n]);
    }
  }

  /** What a thread that follows the recording did with handles, its twin did while recording. */
  lemma DoneIsRecorded(s: Setup, r: Recording, a: Replaying, op: Handles.Op)
    requires Replayable(s, r) && ReplayInv(s, r, a) && Done(s, a, op)
    ensures op in RecordedOps(r)
  {
    assert |r.threads| == |r.logs|;
    hide Replayable, Follows, LogsOk, OpsOf;
    var j: nat, k: nat :| DoneBy(s, a, op, j, k);
    assert FollowsSome(s, r, a, j);
    var i: nat :| i < |r.threads| && Follows(s, r, a, j, i);
    FollowerIsPrefix(s, r, a, j, i);
    RecordedAt(s, r, i, a.hists[j], k, op);
    assert RecordedBy(r, op, i, k);
  }

  lemma FollowerIsPrefix(s: Setup, r: Recording, a: Replaying, j: nat, i: nat)
    requires Replayable(s, r) && j < |a.threads| == |a.hists| == |a.cursors| && i < |r.threads| == |r.logs|
    requires Follows(s, r, a, j, i)
    ensures a.threads[j].path == r.threads[i].path && a.hists[j] <= Observe(r.logs[i]) && LogsOk(s, r)
  {
  }

  lemma RecordedAt(s: Setup, r: Recording, i: nat, hist: seq<Obs>, k: nat, op: Handles.Op)
    requires LogsOk(s, r) && i < |r.threads| && hist <= Observe(r.logs[i]) && k < |hist|
    requires var action := s.program.next(r.threads[i].path, hist[..k]);
             action.Invoke? && hist[k].Saw? && op in OpsOf((r.threads[i].path, k), action.call, hist[k].outcome)
    ensures RecordedBy(r, op, i, k)
  {
    hide OpsOf;
    var log := r.logs[i];
    assert hist[..k] == Observe(log)[..k] == Observe(log[..k]);
    assert Asked(s, r.threads[i].path, log, k);
    assert hist[k] == Observe(log)[k] == ObsOf(log[k]);
  }

  /** What each kind of successful call does with handles; a failed one does nothing. */
  lemma OpsMean(name: Handles.Name, kernel: Handles.Name, program: Handles.Name, size: U64, wantSize: bool, prior: U64, outcome: Outcome)
    requires outcome.ret == 0
    ensures forall api :: api in {ContextCreate, QueueCreate, MemBufferCreate, ProgramCreate, ProgramCreateWithBinary} ==>
              OpsOf(name, Plain(api), outcome) == [Handles.Create(name)]
    ensures OpsOf(name, MakeKernel(program), outcome) == [Handles.CreateKernel(name, program)]
    ensures OpsOf(name, GetInfo(KernelGetInfo, ForProgram(kernel), size, true, wantSize, prior), outcome) == [Handles.AskProgram(kernel, name)]
    ensures OpsOf(name, Plain(ProgramLink), outcome) == []
  {
  }

  /** Everything that was done is listed. */
  ghost predicate AllListed(s: Setup, a: Replaying) {
    forall op, j: nat, k: nat :: DoneBy(s, a, op, j, k) ==> op in a.ops
  }

  lemma StepListsAll(s: Setup, r: Recording, a: Replaying, i: nat, b: Replaying)
    requires ReplayShape(r, a) && AllListed(s, a) && ReplayStepBy(s, r, a, i, b)
    ensures AllListed(s, b)
  {
    hide ReplayCall, FileOf, Child, OpsOf, Tree;
    forall op, j: nat, k: nat | DoneBy(s, b, op, j, k) ensures op in b.ops {
      if j < |a.threads| && k < |a.hists[j]| {
        assert b.hists[j][..k] == a.hists[j][..k];
        assert DoneBy(s, a, op, j, k);
      } else {
        assert j == i && k == |a.hists[i]| && b.hists[i][..k] == a.hists[i];
      }
    }
  }

  /** In every replay each successful query for a kernel's program is among the operations, under the name of its call. */
  lemma {:induction false} ReplayedOpsAreListed(s: Setup, r: Recording, run: seq<Replaying>)
    requires Replayable(s, r) && ReplayRun(s, r, run)
    ensures AllListed(s, run[|run| - 1])
  {
    hide ReplayStepBy, AllListed, Replayable;
    var n := |run| - 1;
    if n == 0 {
      assert AllListed(s, REPLAY_INIT) by { NothingListed(s); }
    } else {
      ReplayedOpsAreListed(s, r, run[..n]);
      CursorInvariant(s, r, run[..n]);
      assert ReplayStep(s, r, run[n - 1], run[n]);
      var i: nat :| ReplayStepBy(s, r, run[n - 1], i, run[n]);
      StepListsAll(s, r, run[n - 1], i, run[n]);
    }
  }

  lemma NothingListed(s: Setup)
    ensures AllListed(s, REPLAY_INIT)
  {
  }

  // ---- Objects are used after they were made ----

  /** A kernel's program, and a kernel that is asked for it, were created before: the program hands on handles
      it has, whatever the schedule. */
  predicate Causal(ops: seq<Handles.Op>) {
    forall k :: 0 <= k < |ops| ==> UsesCreated(ops[..k], ops[k])
  }

  predicate UsesCreated(before: seq<Handles.Op>, op: Handles.Op) {
    match op
    case Create(_) => true
    case CreateKernel(_, program) => Handles.Created(before, program)
    case AskProgram(kernel, _) => Handles.KernelCreated(before, kernel)
  }

  /** A name that is about to be given to an object was not given before. */
  lemma NameIsNew(s: Setup, a: Replaying, i: nat)
    requires OpsOk(s, a) && Tree(a.threads) && i < |a.threads| == |a.hists|
    ensures !Handles.Created(a.ops, (a.threads[i].path, |a.hists[i]|))
  {
    hide OpsOf;
    var name := (a.threads[i].path, |a.hists[i]|);
    if Handles.Created(a.ops, name) {
      var m :| 0 <= m < |a.ops| && Handles.Creates(a.ops[m], name);
      assert Done(s, a, a.ops[m]);
      var j: nat, k: nat :| DoneBy(s, a, a.ops[m], j, k);
      CreationsAreNamed((a.threads[j].path, k), s.program.next(a.threads[j].path, a.hists[j][..k]).call, a.hists[j][k].outcome);
    }
  }

  lemma CausalPrefix(ops: seq<Handles.Op>, n: nat)
    requires Causal(ops) && n <= |ops|
    ensures Causal(ops[..n])
  {
    hide UsesCreated;
    forall k | 0 <= k < n ensures UsesCreated(ops[..n][..k], ops[..n][k]) {
      assert ops[..n][..k] == ops[..k];
    }
  }

  lemma WellFormedAppend(ops: seq<Handles.Op>, op: Handles.Op)
    requires Handles.WellFormed(ops) && Handles.Usable(ops, op)
    ensures Handles.WellFormed(ops + [op])
  {
    hide Handles.Usable;
    var more := ops + [op];
    forall k | 0 <= k < |more| ensures Handles.Usable(more[..k], more[k]) {
      assert k < |ops| ==> more[..k] == ops[..k];
      assert k == |ops| ==> more[..k] == ops;
    }
  }

  lemma StepKeepsWellFormed(s: Setup, r: Recording, a: Replaying, i: nat, b: Replaying)
    requires OpsOk(s, a) && ReplayShape(r, a) && ReplayStepBy(s, r, a, i, b)
    requires Handles.WellFormed(a.ops) && Causal(b.ops)
    ensures Handles.WellFormed(b.ops)
  {
    hide Tree, Done, OpsOf, FileOf, Causal, Handles.WellFormed;
    StepExtends(s, r, a, i, b);
    if |b.ops| > |a.ops| {
      NameIsNew(s, a, i);
      hide ReplayStepBy, ReplayShape, OpsOk, OpsOf, Handles.WellFormed, Handles.Created, Causal;
      var n := |a.hists[i]|;
      NextOps(a.ops, b.ops, (a.threads[i].path, n), s.program.next(a.threads[i].path, a.hists[i]).call, b.hists[i][n].outcome);
    } else {
      assert b.ops == a.ops;
    }
  }

  lemma NextOps(ops: seq<Handles.Op>, more: seq<Handles.Op>, name: Handles.Name, call: Call, outcome: Outcome)
    requires Handles.WellFormed(ops) && Causal(more) && !Handles.Created(ops, name)
    requires more == ops + OpsOf(name, call, outcome) && |more| > |ops|
    ensures Handles.WellFormed(more)
  {
    hide OpsOf, Handles.WellFormed, Handles.Created, Causal;
    CreationsAreNamed(name, call, outcome);
    var op := OpsOf(name, call, outcome)[0];
    assert OpsOf(name, call, outcome) == [op];
    NextIsUsable(ops, op);
    WellFormedAppend(ops, op);
  }

  lemma NextIsUsable(ops: seq<Handles.Op>, op: Handles.Op)
    requires Causal(ops + [op])
    requires !op.AskProgram? ==> !Handles.Created(ops, op.name)
    ensures Handles.Usable(ops, op)
  {
    hide Handles.Created, Handles.KernelCreated;
    var more := ops + [op];
    assert more[..|ops|] == ops && more[|ops|] == op;
    assert UsesCreated(more[..|ops|], more[|ops|]);
  }

  /** Names are never given twice, so that operations in causal order are all there is to ask for. */
  lemma {:induction false} CausalRunsAreWellFormed(s: Setup, r: Recording, run: seq<Replaying>)
    requires Replayable(s, r) && ReplayRun(s, r, run) && Causal(run[|run| - 1].ops)
    ensures Handles.WellFormed(run[|run| - 1].ops)
  {
    hide Replayable, ReplayStepBy, OpsOk, Handles.WellFormed, Causal;
    var n := |run| - 1;
    if n == 0 {
      assert Handles.WellFormed([]) by { NothingDone(); }
    } else {
      assert ReplayStep(s, r, run[n - 1], run[n]);
      var i: nat :| ReplayStepBy(s, r, run[n - 1], i, run[n]);
      StepExtends(s, r, run[n - 1], i, run[n]);
      CausalPrefix(run[n].ops, |run[n - 1].ops|);
      assert run[n].ops[..|run[n - 1].ops|] == run[n - 1].ops;
      CausalRunsAreWellFormed(s, r, run[..n]);
      ReplayedOpsAreDone(s, r, run[..n]);
      CursorInvariant(s, r, run[..n]);
      StepKeepsWellFormed(s, r, run[n - 1], i, run[n]);
    }
  }

  lemma NothingDone()
    ensures Handles.WellFormed([])
  {
  }

  // ---- The theorem ----

  /** The event of the recording that a name stands for. */
  ghost predicate EventAt(r: Recording, name: Handles.Name, e: Event) {
    exists i: nat :: i < |r.threads| == |r.logs| && r.threads[i].path == name.0 && name.1 < |r.logs[i]| && r.logs[i][name.1] == e
  }

  /** A query of the recording that was answered with a program. */
  ghost predicate ProgramQuery(e: Event, kernel: Handles.Name) {
    && e.Called? && e.call.GetInfo? && e.call.asks == ForProgram(kernel) && e.call.wantValue
    && e.resp.ret == SUCCESS && |e.resp.value| >= 8
  }

  /** The address that the recorded query left with its caller, as it was logged. */
  function LoggedAddress(e: Event): nat
    requires e.Called? && |e.resp.value| >= 8
  {
    FromLE(e.resp.value[..8])
  }

  /** The plugin of the recording gave every program a handle, and answered each query for a kernel's program with
      the handle of the program the kernel was created from. */
  ghost predicate PluginAnswers(r: Recording, handles: map<Handles.Name, nat>) {
    forall name: Handles.Name, e: Event, kernel: Handles.Name, program: Handles.Name ::
      EventAt(r, name, e) && ProgramQuery(e, kernel) && Handles.CreateKernel(kernel, program) in RecordedOps(r) ==>
        program in handles && LoggedAddress(e) == handles[program]
  }

  /** A recorded query is an event at the name of its asker. */
  lemma QueryIsLogged(s: Setup, r: Recording, op: Handles.Op) returns (e: Event)
    requires Replayable(s, r) && AllFaithful(s, r) && op in RecordedOps(r) && op.AskProgram?
    ensures EventAt(r, op.asker, e) && ProgramQuery(e, op.kernel)
  {
    var i: nat, k: nat :| RecordedBy(r, op, i, k);
    e := r.logs[i][k];
    CreationsAreNamed((r.threads[i].path, k), e.call, Seen(e.call, e.resp));
    assert AnswersAt(r, i, k) by { EventsAreAnswers(s, r, i, k); }
    assert FaithfulEvent(s, e);
    hide Replayable, AllFaithful;
  }

  predicate AnswersAt(r: Recording, i: nat, k: nat)
    requires i < |r.logs| && k < |r.logs[i]|
  {
    r.logs[i][k].Called? ==> Answers(r.logs[i][k].call, r.logs[i][k].resp)
  }

  lemma EventsAreAnswers(s: Setup, r: Recording, i: nat, k: nat)
    requires LogsOk(s, r) && i < |r.logs| && k < |r.logs[i]|
    ensures AnswersAt(r, i, k)
  {
    assert Asked(s, r.threads[i].path, r.logs[i], k);
  }

  /** Query k of a replay is the recorded event e; the address logged with e is the recorded handle of the program
      that the kernel was created from, and the replayed answer is the replayed handle of that same program. */
  ghost predicate Renamed(r: Recording, ops: seq<Handles.Op>, handles: map<Handles.Name, nat>, k: nat, e: Event, program: Handles.Name)
    requires k < |ops| && ops[k].AskProgram?
  {
    && EventAt(r, ops[k].asker, e) && ProgramQuery(e, ops[k].kernel)
    && Handles.CreateKernel(ops[k].kernel, program) in RecordedOps(r)
    && program in handles && LoggedAddress(e) == handles[program]
    && Handles.Answer(ops[..k], ops[k].kernel) == Handles.Handle(Handles.Replayed(ops), program) != Handles.NULL
  }

  ghost predicate AnswerIsRenamed(r: Recording, ops: seq<Handles.Op>, handles: map<Handles.Name, nat>, k: nat)
    requires k < |ops| && ops[k].AskProgram?
  {
    exists e: Event, program: Handles.Name :: Renamed(r, ops, handles, k, e, program)
  }

  /** Under the conditions of determinism, for any handles the plugin gave while recording, every replayed query for a
      kernel's program gives the logged answer, renamed. */
  lemma ReplayedQueriesAreRenamed(s: Setup, recording: seq<Recording>, run: seq<Replaying>,
                                  handles: map<Handles.Name, nat>, k: nat)
    requires Lawful(s.codec) && RecordRun(s, recording)
    requires var r := recording[|recording| - 1];
             NamesFit(r.threads) && Completed(s, r) && RecordsFit(s, r) && NoneLost(r) && AllFaithful(s, r)
             && ReplayRun(s, r, run) && PluginAnswers(r, handles)
    requires var ops := run[|run| - 1].ops;
             Causal(ops) && k < |ops| && ops[k].AskProgram?
    ensures AnswerIsRenamed(recording[|recording| - 1], run[|run| - 1].ops, handles, k)
  {
    var r, a := recording[|recording| - 1], run[|run| - 1];
    RecordingInvariant(s, recording);
    ReplayInvariant(s, r, run);
    ReplayedOpsAreDone(s, r, run);
    CausalRunsAreWellFormed(s, r, run);
    hide Replayable, ReplayInv, RecordedOps, Causal, ReplayRun, RecordRun, AllFaithful, AnswerIsRenamed;
    QueryIsRenamed(s, r, a, handles, k);
  }

  lemma QueryIsRenamed(s: Setup, r: Recording, a: Replaying, handles: map<Handles.Name, nat>, k: nat)
    requires Replayable(s, r) && AllFaithful(s, r) && ReplayInv(s, r, a) && OpsOk(s, a) && Handles.WellFormed(a.ops)
    requires PluginAnswers(r, handles) && k < |a.ops| && a.ops[k].AskProgram?
    ensures AnswerIsRenamed(r, a.ops, handles, k)
  {
    hide Replayable, ReplayInv, RecordedOps, AllFaithful, EventAt, Done, Handles.WellFormed;
    var program := Handles.AnswerIsOwnProgram(a.ops, k);
    DoneIsRecorded(s, r, a, a.ops[k]);
    DoneIsRecorded(s, r, a, Handles.CreateKernel(a.ops[k].kernel, program));
    var e := QueryIsLogged(s, r, a.ops[k]);
    assert Renamed(r, a.ops, handles, k, e, program);
  }
}
