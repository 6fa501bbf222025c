// Record and replay of a multi-threaded program as two step systems over the same trace
// directory, and the determinism theorem that connects them.
module RecordReplay {
  import opened Bytes
  import opened TraceFraming
  import opened ThreadNames
  import opened PiCalls
  import Handles

  // ---- The program ----

  /** What a thread knows of its own past. */
  datatype Obs = Created | Saw(outcome: Outcome)

  datatype Action = Finish | CreateThread | Invoke(call: Call)

  /** A program decides what each thread does next from its spawn-tree position and what it observed so far. */
  datatype Program = Program(next: (seq<nat>, seq<Obs>) -> Action)

  datatype Setup = Setup(program: Program, codec: Codec<ApiCall>, writeMem: bool)

  /** The number of calls, and of thread creations, in a history. */
  function Calls(hist: seq<Obs>): nat {
    if hist == [] then 0 else Calls(hist[..|hist| - 1]) + if hist[|hist| - 1].Saw? then 1 else 0
  }

  function Creations(hist: seq<Obs>): nat {
    if hist == [] then 0 else Creations(hist[..|hist| - 1]) + if hist[|hist| - 1].Created? then 1 else 0
  }

  lemma HistoryStep(hist: seq<Obs>, o: Obs)
    ensures Calls(hist + [o]) == Calls(hist) + if o.Saw? then 1 else 0
    ensures Creations(hist + [o]) == Creations(hist) + if o.Created? then 1 else 0
  {
    assert (hist + [o])[..|hist|] == hist;
  }

  lemma {:induction false} HistoryPrefix(hist: seq<Obs>, k: nat)
    requires k < |hist|
    ensures Calls(hist[..k]) + (if hist[k].Saw? then 1 else 0) <= Calls(hist)
    ensures Creations(hist[..k]) + (if hist[k].Created? then 1 else 0) <= Creations(hist)
  {
    var n := |hist| - 1;
    if k < n {
      HistoryPrefix(hist[..n], k);
      assert hist[..n][..k] == hist[..k];
    }
  }

  // ---- Recording ----

  /** One step of one thread while recording; `lost` says the record was dropped by the early return. */
  datatype Event = ThreadCreated | Called(call: Call, resp: Response, at: Stamp, lost: bool)

  datatype Recording = Recording(threads: seq<Thread>, logs: seq<seq<Event>>, traces: Files, mems: Files)

  function ObsOf(e: Event): Obs {
    match e
    case ThreadCreated => Created
    case Called(call, resp, _, _) => Saw(Seen(call, resp))
  }

  function Observe(log: seq<Event>): (hist: seq<Obs>)
    ensures |hist| == |log|
    ensures forall k :: 0 <= k < |log| ==> hist[k] == ObsOf(log[k])
  {
    seq(|log|, k requires 0 <= k < |log| => ObsOf(log[k]))
  }

  /** The records a thread with this log has written. */
  function Written(s: Setup, thread: string, log: seq<Event>): seq<ApiCall> {
    if log == [] then []
    else
      var before, e := Written(s, thread, log[..|log| - 1]), log[|log| - 1];
      if e.Called? && !e.lost then before + [MakeRecord(thread, s.writeMem, e.call, e.resp, e.at)] else before
  }

  function Lost(log: seq<Event>): nat {
    if log == [] then 0
    else Lost(log[..|log| - 1]) + if log[|log| - 1].Called? && log[|log| - 1].lost then 1 else 0
  }

  predicate EventUsed(log: seq<Event>, eventId: nat) {
    exists k :: 0 <= k < |log| && log[k].Called? && log[k].at.eventId == eventId
  }

  const RECORD_INIT := Recording([MAIN], [[]], map[], map[])

  /** The effect of event `e` of thread i; only a binary selection can lose its record. */
  function RecordEffect(s: Setup, a: Recording, i: nat, e: Event): Recording
    requires i < |a.threads| == |a.logs|
  {
    var logs := a.logs[i := a.logs[i] + [e]];
    match e
    case ThreadCreated => Recording(Spawn(a.threads, i), logs + [[]], a.traces, a.mems)
    case Called(call, resp, at, lost) =>
      var name := a.threads[i].name;
      Recording(a.threads, logs,
                if lost then a.traces
                else Append(a.traces, TraceName(name), Frame(s.codec, MakeRecord(name, s.writeMem, call, resp, at))),
                WriteMem(a.mems, name, s.writeMem, call, resp, at))
  }

  /** The program asks for event `e` after `log`; the plugin may answer anything that fits the call. */
  predicate Allowed(s: Setup, path: seq<nat>, log: seq<Event>, e: Event) {
    match s.program.next(path, Observe(log))
    case Finish => false
    case CreateThread => e.ThreadCreated?
    case Invoke(call) =>
      && e.Called? && e.call == call && WellFormed(call) && Answers(call, e.resp)
      && !EventUsed(log, e.at.eventId)
      && (e.lost ==> call.SelectBinary?)
  }

  ghost predicate RecordStep(s: Setup, a: Recording, b: Recording) {
    exists i: nat, e :: RecordStepBy(s, a, i, e, b)
  }

  ghost predicate RecordStepBy(s: Setup, a: Recording, i: nat, e: Event, b: Recording) {
    i < |a.threads| == |a.logs| && Allowed(s, a.threads[i].path, a.logs[i], e) && b == RecordEffect(s, a, i, e)
  }

  ghost predicate RecordRun(s: Setup, run: seq<Recording>) {
    && run != [] && run[0] == RECORD_INIT
    && forall k :: 0 < k < |run| ==> RecordStep(s, run[k - 1], run[k])
  }

  // ---- What every recording keeps ----

  /** Event k of the log is one the program asked for at that point. */
  ghost predicate Asked(s: Setup, path: seq<nat>, log: seq<Event>, k: nat)
    requires k < |log|
  {
    Allowed(s, path, log[..k], log[k])
  }

  ghost predicate LogsOk(s: Setup, a: Recording) {
    && |a.logs| == |a.threads|
    && (forall i :: 0 <= i < |a.logs| ==> a.threads[i].counter == Creations(Observe(a.logs[i])))
    && (forall i, k: nat :: 0 <= i < |a.logs| && k < |a.logs[i]| ==> Asked(s, a.threads[i].path, a.logs[i], k))
  }

  /** Each thread's trace file holds its own records, in order, and no file is anybody else's. */
  ghost predicate TracesOk(s: Setup, a: Recording)
    requires |a.logs| == |a.threads|
  {
    && (forall i :: 0 <= i < |a.threads| ==>
          ContentOf(a.traces, TraceName(a.threads[i].name)) == Frames(s.codec, Written(s, a.threads[i].name, a.logs[i])))
    && (forall f :: f in a.traces ==> exists i :: 0 <= i < |a.threads| && f == TraceName(a.threads[i].name))
  }

  /** The side file of every call that saved memory still holds that call's size and bytes. */
  ghost predicate MemsOk(s: Setup, a: Recording)
    requires |a.logs| == |a.threads|
  {
    forall i, k: nat :: 0 <= i < |a.logs| && k < |a.logs[i]| ==> MemKept(s, a.mems, a.threads[i].name, a.logs[i][k])
  }

  ghost predicate MemKept(s: Setup, mems: Files, thread: string, e: Event) {
    e.Called? && SavesMemory(e.call, s.writeMem) ==>
      MemName(thread, e.at.eventId) in mems && mems[MemName(thread, e.at.eventId)] == MemFile(e.resp)
  }

  ghost predicate RecordInv(s: Setup, a: Recording) {
    && Tree(a.threads) && LogsOk(s, a)
    && (NamesDistinct(a.threads) ==> TracesOk(s, a) && MemsOk(s, a))
  }

  lemma WrittenStep(s: Setup, thread: string, log: seq<Event>, e: Event)
    ensures Written(s, thread, log + [e]) ==
            Written(s, thread, log) +
            if e.Called? && !e.lost then [MakeRecord(thread, s.writeMem, e.call, e.resp, e.at)] else []
  {
    assert (log + [e])[..|log|] == log;
  }

  lemma ObserveStep(log: seq<Event>, e: Event)
    ensures Observe(log + [e]) == Observe(log) + [ObsOf(e)]
  {
  }

  lemma StepKeepsAsked(s: Setup, a: Recording, i: nat, e: Event, b: Recording, j: nat, k: nat)
    requires |a.logs| == |a.threads| && RecordStepBy(s, a, i, e, b)
    requires j < |b.logs| && k < |b.logs[j]|
    requires j < |a.logs| && k < |a.logs[j]| ==> Asked(s, a.threads[j].path, a.logs[j], k)
    ensures |b.logs| == |b.threads| && Asked(s, b.threads[j].path, b.logs[j], k)
  {
    if j == i {
      assert k <= |a.logs[i]| && b.logs[i][..k] == a.logs[i][..k];
      assert a.logs[i][..|a.logs[i]|] == a.logs[i];
    }
  }

  lemma StepKeepsLogs(s: Setup, a: Recording, i: nat, e: Event, b: Recording)
    requires LogsOk(s, a) && RecordStepBy(s, a, i, e, b)
    ensures LogsOk(s, b)
  {
    ObserveStep(a.logs[i], e);
    HistoryStep(Observe(a.logs[i]), ObsOf(e));
    forall j: nat, k: nat | j < |b.logs| && k < |b.logs[j]| ensures Asked(s, b.threads[j].path, b.logs[j], k) {
      StepKeepsAsked(s, a, i, e, b, j, k);
    }
  }

  lemma TracesApart(ts: seq<Thread>, i: nat, j: nat)
    requires NamesDistinct(ts) && i < |ts| && j < |ts| && i != j
    ensures TraceName(ts[i].name) != TraceName(ts[j].name)
  {
    assert ts[i].name != ts[j].name;
    if TraceName(ts[i].name) == TraceName(ts[j].name) {
      TraceNameInjective(ts[i].name, ts[j].name);
    }
  }

  lemma CreationKeepsTrace(s: Setup, a: Recording, i: nat, b: Recording, j: nat)
    requires |a.logs| == |a.threads| && i < |a.threads| && b == RecordEffect(s, a, i, ThreadCreated)
    requires NamesDistinct(b.threads) && TracesOk(s, a) && j < |b.threads|
    ensures ContentOf(b.traces, TraceName(b.threads[j].name)) == Frames(s.codec, Written(s, b.threads[j].name, b.logs[j]))
  {
    var n := |a.threads|;
    if j == i {
      WrittenStep(s, a.threads[i].name, a.logs[i], ThreadCreated);
    } else if j == n {
      forall m: nat | m < n ensures TraceName(b.threads[n].name) != TraceName(a.threads[m].name) {
        TracesApart(b.threads, n, m);
      }
      assert TraceName(b.threads[n].name) !in a.traces;
    }
  }

  lemma CreationKeepsOwners(s: Setup, a: Recording, i: nat, b: Recording, f: string)
    requires |a.logs| == |a.threads| && i < |a.threads| && b == RecordEffect(s, a, i, ThreadCreated)
    requires exists m :: 0 <= m < |a.threads| && f == TraceName(a.threads[m].name)
    ensures exists m :: 0 <= m < |b.threads| && f == TraceName(b.threads[m].name)
  {
    var m :| 0 <= m < |a.threads| && f == TraceName(a.threads[m].name);
    assert b.threads[m].name == a.threads[m].name;
  }

  lemma CreationKeepsMem(s: Setup, a: Recording, i: nat, b: Recording, j: nat, k: nat)
    requires |a.logs| == |a.threads| && i < |a.threads| && b == RecordEffect(s, a, i, ThreadCreated)
    requires MemsOk(s, a) && j < |b.logs| && k < |b.logs[j]|
    ensures MemKept(s, b.mems, b.threads[j].name, b.logs[j][k])
  {
    if j < |a.logs| && k < |a.logs[j]| {
      assert MemKept(s, a.mems, a.threads[j].name, a.logs[j][k]);
    }
  }

  lemma CreationKeepsFiles(s: Setup, a: Recording, i: nat, b: Recording)
    requires |a.logs| == |a.threads| && i < |a.threads| && b == RecordEffect(s, a, i, ThreadCreated)
    requires NamesDistinct(b.threads) && TracesOk(s, a) && MemsOk(s, a)
    ensures TracesOk(s, b) && MemsOk(s, b)
  {
    forall j: nat | j < |b.threads|
      ensures ContentOf(b.traces, TraceName(b.threads[j].name)) == Frames(s.codec, Written(s, b.threads[j].name, b.logs[j]))
    {
      CreationKeepsTrace(s, a, i, b, j);
    }
    forall f | f in b.traces ensures exists j :: 0 <= j < |b.threads| && f == TraceName(b.threads[j].name) {
      CreationKeepsOwners(s, a, i, b, f);
    }
    forall j: nat, k: nat | j < |b.logs| && k < |b.logs[j]| ensures MemKept(s, b.mems, b.threads[j].name, b.logs[j][k]) {
      CreationKeepsMem(s, a, i, b, j, k);
    }
  }

  /** The file of thread j after thread i's call: longer by one frame for i itself, untouched for the others. */
  lemma CallKeepsTrace(s: Setup, a: Recording, i: nat, e: Event, b: Recording, j: nat)
    requires |a.logs| == |a.threads| && NamesDistinct(a.threads) && i < |a.threads| && j < |a.threads|
    requires e.Called? && b == RecordEffect(s, a, i, e)
    requires ContentOf(a.traces, TraceName(a.threads[j].name)) == Frames(s.codec, Written(s, a.threads[j].name, a.logs[j]))
    ensures ContentOf(b.traces, TraceName(b.threads[j].name)) == Frames(s.codec, Written(s, b.threads[j].name, b.logs[j]))
  {
    var name := a.threads[i].name;
    if j == i {
      WrittenStep(s, name, a.logs[i], e);
      if !e.lost {
        FramesAppend(s.codec, Written(s, name, a.logs[i]), MakeRecord(name, s.writeMem, e.call, e.resp, e.at));
      }
    } else {
      TracesApart(a.threads, j, i);
    }
  }

  lemma CallKeepsOwners(s: Setup, a: Recording, i: nat, e: Event, b: Recording, f: string)
    requires i < |a.threads| == |a.logs| && e.Called? && b == RecordEffect(s, a, i, e) && f in b.traces
    requires f in a.traces ==> exists m :: 0 <= m < |a.threads| && f == TraceName(a.threads[m].name)
    ensures exists m :: 0 <= m < |b.threads| && f == TraceName(b.threads[m].name)
  {
    if f !in a.traces {
      assert f == TraceName(b.threads[i].name);
    }
  }

  lemma CallKeepsTraces(s: Setup, a: Recording, i: nat, e: Event, b: Recording)
    requires i < |a.threads| == |a.logs| && e.Called? && b == RecordEffect(s, a, i, e)
    requires NamesDistinct(a.threads) && TracesOk(s, a)
    ensures TracesOk(s, b)
  {
    hide Written, NamesDistinct, Append, WriteMem;
    forall j: nat | j < |b.threads|
      ensures ContentOf(b.traces, TraceName(b.threads[j].name)) == Frames(s.codec, Written(s, b.threads[j].name, b.logs[j]))
    {
      CallKeepsTrace(s, a, i, e, b, j);
    }
    forall f | f in b.traces ensures exists m :: 0 <= m < |b.threads| && f == TraceName(b.threads[m].name) {
      CallKeepsOwners(s, a, i, e, b, f);
    }
  }

  /** A new event's side file is not the file of any earlier call of any thread. */
  lemma MemsApart(a: Recording, i: nat, eventId: nat, j: nat, k: nat)
    requires |a.threads| == |a.logs| && NamesDistinct(a.threads) && i < |a.threads| && j < |a.threads|
    requires k < |a.logs[j]| && a.logs[j][k].Called? && !EventUsed(a.logs[i], eventId)
    ensures MemName(a.threads[j].name, a.logs[j][k].at.eventId) != MemName(a.threads[i].name, eventId)
  {
    assert i != j ==> a.threads[i].name != a.threads[j].name;
    assert i == j ==> a.logs[j][k].at.eventId != eventId;
    if MemName(a.threads[j].name, a.logs[j][k].at.eventId) == MemName(a.threads[i].name, eventId) {
      MemNameInjective(a.threads[j].name, a.logs[j][k].at.eventId, a.threads[i].name, eventId);
    }
  }

  lemma CallKeepsMems(s: Setup, a: Recording, i: nat, e: Event, b: Recording)
    requires |a.logs| == |a.threads| && RecordStepBy(s, a, i, e, b) && e.Called?
    requires NamesDistinct(a.threads) && MemsOk(s, a)
    ensures MemsOk(s, b)
  {
    forall j: nat, k: nat | j < |b.logs| && k < |b.logs[j]| ensures MemKept(s, b.mems, b.threads[j].name, b.logs[j][k]) {
      if j < |a.logs| && k < |a.logs[j]| {
        assert MemKept(s, a.mems, a.threads[j].name, a.logs[j][k]);
        if a.logs[j][k].Called? { MemsApart(a, i, e.at.eventId, j, k); }
      }
    }
  }

  lemma StepKeepsRecordInv(s: Setup, a: Recording, b: Recording)
    requires RecordInv(s, a) && RecordStep(s, a, b)
    ensures RecordInv(s, b)
  {
    var i: nat, e :| RecordStepBy(s, a, i, e, b);
    StepKeepsLogs(s, a, i, e, b);
    if e.ThreadCreated? {
      SpawnKeepsTree(a.threads, i);
      if NamesDistinct(b.threads) {
        EarlierNamesDistinct(a.threads, i);
        CreationKeepsFiles(s, a, i, b);
      }
    } else if NamesDistinct(b.threads) {
      CallKeepsTraces(s, a, i, e, b);
      CallKeepsMems(s, a, i, e, b);
    }
  }

  lemma EarlierNamesDistinct(ts: seq<Thread>, i: nat)
    requires i < |ts| && NamesDistinct(Spawn(ts, i))
    ensures NamesDistinct(ts)
  {
    var us := Spawn(ts, i);
    forall j, k | 0 <= j < k < |ts| ensures ts[j].name != ts[k].name {
      assert us[j].name == ts[j].name && us[k].name == ts[k].name;
    }
  }

  /** Every reachable recording keeps threads, logs, trace files and side files consistent. */
  lemma {:induction false} RecordingInvariant(s: Setup, run: seq<Recording>)
    requires RecordRun(s, run)
    ensures RecordInv(s, run[|run| - 1])
  {
    if |run| == 1 {
      assert RECORD_INIT.logs[0] == [];
      assert TracesOk(s, RECORD_INIT);
    } else {
      RecordingInvariant(s, run[..|run| - 1]);
      StepKeepsRecordInv(s, run[|run| - 2], run[|run| - 1]);
    }
  }

  /** Records written plus records lost is the number of completed calls. */
  lemma {:induction false} WrittenPlusLost(s: Setup, thread: string, log: seq<Event>)
    ensures |Written(s, thread, log)| + Lost(log) == Calls(Observe(log))
  {
    if log != [] {
      var before := log[..|log| - 1];
      WrittenPlusLost(s, thread, before);
      assert Observe(log)[..|log| - 1] == Observe(before);
    }
  }

  /** Without losses, the record of the k-th event sits at the number of calls before it. */
  lemma {:induction false} RecordOfEvent(s: Setup, thread: string, log: seq<Event>, k: nat)
    requires Lost(log) == 0 && k < |log| && log[k].Called?
    ensures var c := Calls(Observe(log)[..k]); var e := log[k];
            c < |Written(s, thread, log)|
            && Written(s, thread, log)[c] == MakeRecord(thread, s.writeMem, e.call, e.resp, e.at)
  {
    var n := |log| - 1;
    var before := log[..n];
    assert Observe(before)[..k] == Observe(log)[..k];
    if k < n {
      RecordOfEvent(s, thread, before, k);
      assert Written(s, thread, before) <= Written(s, thread, log);
    } else {
      assert Observe(before)[..k] == Observe(before);
      WrittenPlusLost(s, thread, before);
    }
  }

  // ---- Replay ----

  /** `ops` lists what the threads together did with handles, in order. */
  datatype Replaying = Replaying(threads: seq<Thread>, hists: seq<seq<Obs>>, cursors: seq<nat>, died: bool, ops: seq<Handles.Op>)

  const REPLAY_INIT := Replaying([MAIN], [[]], [0], false, [])

  /** What a successful call does with handles on replay; a created object is named after its call. */
  function OpsOf(name: Handles.Name, call: Call, outcome: Outcome): seq<Handles.Op> {
    if outcome.ret != SUCCESS then []
    else match call
      case Plain(api) => if MakesHandle(api) then [Handles.Create(name)] else []
      case MakeKernel(program) => [Handles.CreateKernel(name, program)]
      case GetInfo(_, ForProgram(kernel), _, wantValue, _, _) => if wantValue then [Handles.AskProgram(kernel, name)] else []
      case _ => []
  }

  function FileOf(r: Recording, t: Thread): seq<Byte> {
    ContentOf(r.traces, TraceName(t.name))
  }

  /** Thread i of the replayed program takes its next action; a call is answered from the thread's own file. */
  function ReplayEffect(s: Setup, r: Recording, a: Replaying, i: nat): Replaying
    requires i < |a.threads| == |a.hists| == |a.cursors|
    requires a.cursors[i] <= |FileOf(r, a.threads[i])|
  {
    match s.program.next(a.threads[i].path, a.hists[i])
    case Finish => a
    case CreateThread =>
      Replaying(Spawn(a.threads, i), a.hists[i := a.hists[i] + [Created]] + [[]], a.cursors + [0], a.died, a.ops)
    case Invoke(call) =>
      var (reply, pos) := ReplayCall(s.codec, FileOf(r, a.threads[i]), a.cursors[i], call, r.mems);
      match reply
      case Died => a.(died := true)
      case Ok(outcome) =>
        a.(hists := a.hists[i := a.hists[i] + [Saw(outcome)]], cursors := a.cursors[i := pos],
           ops := a.ops + OpsOf((a.threads[i].path, |a.hists[i]|), call, outcome))
  }

  predicate Finished(s: Setup, a: Replaying, i: nat)
    requires i < |a.threads| == |a.hists|
  {
    s.program.next(a.threads[i].path, a.hists[i]) == Finish
  }

  ghost predicate ReplayStep(s: Setup, r: Recording, a: Replaying, b: Replaying) {
    exists i: nat :: ReplayStepBy(s, r, a, i, b)
  }

  ghost predicate ReplayStepBy(s: Setup, r: Recording, a: Replaying, i: nat, b: Replaying) {
    && !a.died && i < |a.threads| == |a.hists| == |a.cursors|
    && a.cursors[i] <= |FileOf(r, a.threads[i])|
    && !Finished(s, a, i)
    && b == ReplayEffect(s, r, a, i)
  }

  ghost predicate ReplayRun(s: Setup, r: Recording, run: seq<Replaying>) {
    && run != [] && run[0] == REPLAY_INIT
    && forall k :: 0 < k < |run| ==> ReplayStep(s, r, run[k - 1], run[k])
  }

  // ---- What every replay keeps ----

  ghost predicate ReplayShape(r: Recording, a: Replaying) {
    && Tree(a.threads) && |a.hists| == |a.cursors| == |a.threads|
    && (forall j :: 0 <= j < |a.threads| ==> a.threads[j].counter == Creations(a.hists[j]))
    && (forall j :: 0 <= j < |a.threads| ==> a.cursors[j] <= |FileOf(r, a.threads[j])|)
  }

  lemma CreationKeepsShape(s: Setup, r: Recording, a: Replaying, i: nat, b: Replaying)
    requires ReplayShape(r, a) && ReplayStepBy(s, r, a, i, b)
    requires s.program.next(a.threads[i].path, a.hists[i]) == CreateThread
    ensures ReplayShape(r, b)
  {
    SpawnKeepsTree(a.threads, i);
    HistoryStep(a.hists[i], Created);
    forall j | 0 <= j < |b.threads|
      ensures b.threads[j].counter == Creations(b.hists[j]) && b.cursors[j] <= |FileOf(r, b.threads[j])|
    {
      if j < |a.threads| {
        assert b.threads[j].name == a.threads[j].name;
      }
    }
  }

  lemma CallKeepsShape(s: Setup, r: Recording, a: Replaying, i: nat, call: Call, b: Replaying)
    requires ReplayShape(r, a) && ReplayStepBy(s, r, a, i, b)
    requires s.program.next(a.threads[i].path, a.hists[i]) == Invoke(call)
    ensures ReplayShape(r, b)
  {
    hide Tree, Answer;
    var (reply, _) := ReplayCall(s.codec, FileOf(r, a.threads[i]), a.cursors[i], call, r.mems);
    if reply.Ok? {
      HistoryStep(a.hists[i], Saw(reply.outcome));
    }
  }

  lemma StepKeepsShape(s: Setup, r: Recording, a: Replaying, i: nat, b: Replaying)
    requires ReplayShape(r, a) && ReplayStepBy(s, r, a, i, b)
    ensures ReplayShape(r, b)
  {
    match s.program.next(a.threads[i].path, a.hists[i]) {
      case Finish =>
      case CreateThread => CreationKeepsShape(s, r, a, i, b);
      case Invoke(call) => CallKeepsShape(s, r, a, i, call, b);
    }
  }

  /** Replayed thread j stands where recorded thread i stood: same position, a prefix of the same history, the cursor after as many records. */
  ghost predicate Follows(s: Setup, r: Recording, a: Replaying, j: nat, i: nat)
    requires j < |a.threads| == |a.hists| == |a.cursors| && i < |r.threads| == |r.logs|
  {
    && a.threads[j].path == r.threads[i].path
    && a.hists[j] <= Observe(r.logs[i])
    && CursorAt(s, r, a, j, i)
  }

  /** The cursor stands after as many records as the thread made calls. */
  ghost predicate CursorAt(s: Setup, r: Recording, a: Replaying, j: nat, i: nat)
    requires j < |a.threads| == |a.hists| == |a.cursors| && i < |r.threads| == |r.logs|
  {
    var records := Written(s, r.threads[i].name, r.logs[i]);
    Calls(a.hists[j]) <= |records| && a.cursors[j] == Offset(s.codec, records, Calls(a.hists[j]))
  }

  ghost predicate FollowsSome(s: Setup, r: Recording, a: Replaying, j: nat)
    requires j < |a.threads| == |a.hists| == |a.cursors| && |r.threads| == |r.logs|
  {
    exists i: nat :: i < |r.threads| && Follows(s, r, a, j, i)
  }

  ghost predicate ReplayInv(s: Setup, r: Recording, a: Replaying)
    requires |r.threads| == |r.logs|
  {
    && ReplayShape(r, a) && !a.died
    && (forall j: nat :: j < |a.threads| ==> FollowsSome(s, r, a, j))
  }

  /** The recorded program ran to the end of every thread. */
  ghost predicate Completed(s: Setup, r: Recording) {
    && |r.threads| == |r.logs|
    && forall i :: 0 <= i < |r.threads| ==> s.program.next(r.threads[i].path, Observe(r.logs[i])) == Finish
  }

  /** Every call of the recording is one whose record lets replay repeat it. */
  ghost predicate AllFaithful(s: Setup, r: Recording) {
    forall i, k: nat :: 0 <= i < |r.logs| && k < |r.logs[i]| ==> FaithfulEvent(s, r.logs[i][k])
  }

  predicate FaithfulEvent(s: Setup, e: Event) {
    e.Called? ==> Faithful(e.call, e.resp, s.writeMem)
  }

  ghost predicate NoneLost(r: Recording) {
    forall i :: 0 <= i < |r.logs| ==> Lost(r.logs[i]) == 0
  }

  ghost predicate RecordsFit(s: Setup, r: Recording)
    requires |r.threads| == |r.logs|
  {
    forall i :: 0 <= i < |r.logs| ==> AllFit(s.codec, Written(s, r.threads[i].name, r.logs[i]))
  }

  /** The recordings the determinism theorem is about. */
  ghost predicate Replayable(s: Setup, r: Recording) {
    && RecordInv(s, r) && Lawful(s.codec) && NamesFit(r.threads)
    && Completed(s, r) && RecordsFit(s, r)
  }

  /** A replayed thread opens the file of the recorded thread at its position. */
  lemma FileIsWritten(s: Setup, r: Recording, a: Replaying, j: nat, i: nat)
    requires Replayable(s, r) && ReplayShape(r, a)
    requires j < |a.threads| && i < |r.threads| && a.threads[j].path == r.threads[i].path
    ensures FileOf(r, a.threads[j]) == Frames(s.codec, Written(s, r.threads[i].name, r.logs[i]))
    ensures r.threads[i].name == a.threads[j].name
  {
    DistinctIffFit(r.threads);
    assert TracesOk(s, r);
    hide LogsOk, MemsOk, Completed, Written, Frames;
  }

  /** Reading after c records: the next record while there is one, else the end of the file. */
  lemma ReadNext(s: Setup, r: Recording, a: Replaying, j: nat, i: nat, c: nat)
    requires Replayable(s, r) && ReplayShape(r, a)
    requires j < |a.threads| && i < |r.threads| && a.threads[j].path == r.threads[i].path
    requires c <= |Written(s, r.threads[i].name, r.logs[i])|
    requires a.cursors[j] == Offset(s.codec, Written(s, r.threads[i].name, r.logs[i]), c)
    ensures var records, file := Written(s, r.threads[i].name, r.logs[i]), FileOf(r, a.threads[j]);
            && ReadRecord(s.codec, file, a.cursors[j])
               == (if c < |records| then Got(records[c], Offset(s.codec, records, c + 1)) else Eof)
            && (c == |records| ==> a.cursors[j] == |file|)
  {
    var records := Written(s, r.threads[i].name, r.logs[i]);
    FileIsWritten(s, r, a, j, i);
    hide Tree, LogsOk, TracesOk, MemsOk, Completed, Written, Frames, FileOf, ReadRecord, NamesFit;
    if c < |records| {
      FramesPrefix(s.codec, records, c + 1);
      ReadAtOffset(s.codec, records, c, Frames(s.codec, records));
    } else {
      assert records[..c] == records;
    }
  }

  /** A call is answered from the record at the cursor, or from a blank one at the end of the file. */
  lemma CallReads(s: Setup, r: Recording, a: Replaying, j: nat, call: Call, i: nat, c: nat)
    requires Replayable(s, r) && ReplayShape(r, a)
    requires j < |a.threads| && i < |r.threads| && a.threads[j].path == r.threads[i].path
    requires c <= |Written(s, r.threads[i].name, r.logs[i])|
    requires a.cursors[j] == Offset(s.codec, Written(s, r.threads[i].name, r.logs[i]), c)
    ensures var records := Written(s, r.threads[i].name, r.logs[i]);
            ReplayCall(s.codec, FileOf(r, a.threads[j]), a.cursors[j], call, r.mems)
            == if c < |records| then (Answer(call, records[c], r.mems), Offset(s.codec, records, c + 1))
               else (Answer(call, BLANK, r.mems), a.cursors[j])
  {
    ReadNext(s, r, a, j, i, c);
    hide Tree, LogsOk, TracesOk, MemsOk, Completed, RecordsFit, Answer, ReadRecord, Written, Offset;
  }

  lemma FullHistoryIsFinished(s: Setup, r: Recording, a: Replaying, j: nat, i: nat)
    requires Completed(s, r) && j < |a.threads| == |a.hists| == |a.cursors| && i < |r.threads|
    requires Follows(s, r, a, j, i) && |a.hists[j]| == |r.logs[i]|
    ensures a.hists[j] == Observe(r.logs[i]) && Finished(s, a, j)
  {
  }

  /** What an unfinished thread does next is what the recording did next. */
  lemma NextIsRecorded(s: Setup, r: Recording, a: Replaying, j: nat, i: nat)
    requires Completed(s, r) && LogsOk(s, r) && j < |a.threads| == |a.hists| == |a.cursors| && i < |r.threads|
    requires Follows(s, r, a, j, i) && !Finished(s, a, j)
    ensures |a.hists[j]| < |r.logs[i]|
    ensures a.hists[j] == Observe(r.logs[i])[..|a.hists[j]|] == Observe(r.logs[i][..|a.hists[j]|])
    ensures Asked(s, r.threads[i].path, r.logs[i], |a.hists[j]|)
  {
    var log, k := r.logs[i], |a.hists[j]|;
    if k == |log| { FullHistoryIsFinished(s, r, a, j, i); }
    assert Observe(log)[..k] == a.hists[j];
    assert Observe(log[..k]) == a.hists[j];
  }

  /** A thread that follows the recording makes the recorded call next and sees the recorded outcome. */
  lemma CallIsRepeated(s: Setup, r: Recording, a: Replaying, j: nat, i: nat, call: Call)
    requires Replayable(s, r) && NoneLost(r) && AllFaithful(s, r) && ReplayShape(r, a)
    requires j < |a.threads| && i < |r.threads| && Follows(s, r, a, j, i)
    requires s.program.next(a.threads[j].path, a.hists[j]) == Invoke(call)
    ensures |a.hists[j]| < |r.logs[i]|
    ensures var e := r.logs[i][|a.hists[j]|];
            var records, c := Written(s, r.threads[i].name, r.logs[i]), Calls(a.hists[j]);
            && e.Called? && c < |records|
            && ReplayCall(s.codec, FileOf(r, a.threads[j]), a.cursors[j], call, r.mems)
               == (Ok(Seen(e.call, e.resp)), Offset(s.codec, records, c + 1))
  {
    hide FileOf, MakeRecord, Answer, Seen, ReplayCall, Written, Offset, Observe, Calls, Answers, WellFormed, Faithful, SavesMemory,
         Tree, LogsOk, TracesOk, MemsOk, RecordsFit;
    CalledIsFaithful(s, r, a, j, i, call);
    var log, k, c := r.logs[i], |a.hists[j]|, Calls(a.hists[j]);
    var e := log[k];
    MemIsKept(s, r, i, k);
    RecordOfEvent(s, r.threads[i].name, log, k);
    hide Replayable, ReplayShape, AllFaithful, Follows, NoneLost, Lost;
    CallReads(s, r, a, j, call, i, c);
    ReplayExact(r.threads[i].name, s.writeMem, e.call, e.resp, e.at, r.mems);
  }

  lemma CalledIsFaithful(s: Setup, r: Recording, a: Replaying, j: nat, i: nat, call: Call)
    requires Replayable(s, r) && AllFaithful(s, r) && ReplayShape(r, a)
    requires j < |a.threads| && i < |r.threads| && Follows(s, r, a, j, i)
    requires s.program.next(a.threads[j].path, a.hists[j]) == Invoke(call)
    ensures |a.hists[j]| < |r.logs[i]| && a.hists[j] == Observe(r.logs[i])[..|a.hists[j]|]
    ensures var e := r.logs[i][|a.hists[j]|];
            e.Called? && e.call == call && WellFormed(e.call) && Answers(e.call, e.resp) && Faithful(e.call, e.resp, s.writeMem)
  {
    hide Answers, WellFormed, Faithful, TracesOk, MemsOk, Tree, RecordsFit;
    NextIsRecorded(s, r, a, j, i);
    assert FaithfulEvent(s, r.logs[i][|a.hists[j]|]);
  }

  lemma MemIsKept(s: Setup, r: Recording, i: nat, k: nat)
    requires Replayable(s, r) && i < |r.logs| && k < |r.logs[i]|
    ensures MemKept(s, r.mems, r.threads[i].name, r.logs[i][k])
  {
    DistinctIffFit(r.threads);
    hide Tree, LogsOk, TracesOk, Completed, RecordsFit, MemKept;
  }

  /** A thread that follows the recording creates a child exactly where the recording did. */
  lemma CreationIsRepeated(s: Setup, r: Recording, a: Replaying, j: nat, i: nat)
    requires Replayable(s, r) && ReplayShape(r, a)
    requires j < |a.threads| && i < |r.threads| && Follows(s, r, a, j, i)
    requires s.program.next(a.threads[j].path, a.hists[j]) == CreateThread
    ensures a.hists[j] + [Created] <= Observe(r.logs[i])
    ensures Present(r.threads, a.threads[j].path + [a.threads[j].counter])
  {
    hide TracesOk, MemsOk, RecordsFit, Completed, CursorAt, NamesFit, Asked, Observe, Creations, Tree;
    CreationIsNext(s, r, a, j, i);
    HistoryPrefix(Observe(r.logs[i]), |a.hists[j]|);
    ChildIsPresent(r.threads, i, a.threads[j].counter);
  }

  lemma CreationIsNext(s: Setup, r: Recording, a: Replaying, j: nat, i: nat)
    requires Replayable(s, r) && ReplayShape(r, a)
    requires j < |a.threads| && i < |r.threads| && Follows(s, r, a, j, i)
    requires s.program.next(a.threads[j].path, a.hists[j]) == CreateThread
    ensures |a.hists[j]| < |r.logs[i]|
    ensures a.hists[j] == Observe(r.logs[i])[..|a.hists[j]|] && Observe(r.logs[i])[|a.hists[j]|] == Created
  {
    NextIsRecorded(s, r, a, j, i);
  }

  lemma ChildIsPresent(ts: seq<Thread>, i: nat, k: nat)
    requires Tree(ts) && i < |ts| && k < ts[i].counter
    ensures Present(ts, ts[i].path + [k])
  {
  }

  /** A thread that has done nothing yet follows the recorded thread at its position. */
  lemma FreshThreadFollows(s: Setup, r: Recording, b: Replaying, m: nat, i: nat)
    requires |r.threads| == |r.logs| && i < |r.threads| && m < |b.threads| == |b.hists| == |b.cursors|
    requires b.threads[m].path == r.threads[i].path && b.hists[m] == [] && b.cursors[m] == 0
    ensures Follows(s, r, b, m, i)
  {
    assert Written(s, r.threads[i].name, r.logs[i])[..0] == [];
  }

  lemma NewThreadFollows(s: Setup, r: Recording, a: Replaying, j: nat, b: Replaying)
    requires Replayable(s, r) && ReplayInv(s, r, a) && ReplayStepBy(s, r, a, j, b)
    requires s.program.next(a.threads[j].path, a.hists[j]) == CreateThread
    ensures |b.hists| == |b.cursors| == |b.threads| == |a.threads| + 1 && FollowsSome(s, r, b, |a.threads|)
  {
    hide Tree, LogsOk, TracesOk, MemsOk;
    assert FollowsSome(s, r, a, j);
    var i: nat :| i < |r.threads| && Follows(s, r, a, j, i);
    CreationIsRepeated(s, r, a, j, i);
    var c: nat :| c < |r.threads| && r.threads[c].path == a.threads[j].path + [a.threads[j].counter];
    FreshThreadFollows(s, r, b, |a.threads|, c);
  }

  lemma OldThreadFollows(s: Setup, r: Recording, a: Replaying, j: nat, b: Replaying, m: nat)
    requires Replayable(s, r) && ReplayInv(s, r, a) && ReplayStepBy(s, r, a, j, b)
    requires s.program.next(a.threads[j].path, a.hists[j]) == CreateThread
    requires m < |a.threads|
    ensures |b.hists| == |b.cursors| == |b.threads| == |a.threads| + 1 && FollowsSome(s, r, b, m)
  {
    hide Tree, LogsOk, TracesOk, MemsOk;
    assert FollowsSome(s, r, a, m);
    var i: nat :| i < |r.threads| && Follows(s, r, a, m, i);
    if m == j {
      CreationIsRepeated(s, r, a, j, i);
      HistoryStep(a.hists[j], Created);
    }
    assert Follows(s, r, b, m, i);
  }

  /** A thread that a step leaves alone goes on following the recording. */
  lemma UntouchedFollows(s: Setup, r: Recording, a: Replaying, b: Replaying, m: nat)
    requires |r.threads| == |r.logs|
    requires m < |a.threads| == |a.hists| == |a.cursors| && b.threads == a.threads && |b.hists| == |b.cursors| == |b.threads|
    requires b.hists[m] == a.hists[m] && b.cursors[m] == a.cursors[m] && FollowsSome(s, r, a, m)
    ensures FollowsSome(s, r, b, m)
  {
    var n: nat :| n < |r.threads| && Follows(s, r, a, m, n);
    assert Follows(s, r, b, m, n);
  }

  /** Seeing the recorded outcome and moving past one record keeps a thread on the recording. */
  lemma RepeatedCallFollows(s: Setup, r: Recording, a: Replaying, j: nat, i: nat, call: Call)
    requires |r.threads| == |r.logs| && i < |r.threads| && j < |a.threads| == |a.hists| == |a.cursors|
    requires a.cursors[j] <= |FileOf(r, a.threads[j])|
    requires Follows(s, r, a, j, i) && |a.hists[j]| < |r.logs[i]|
    requires s.program.next(a.threads[j].path, a.hists[j]) == Invoke(call)
    requires var e := r.logs[i][|a.hists[j]|];
             var records, c := Written(s, r.threads[i].name, r.logs[i]), Calls(a.hists[j]);
             && e.Called? && c < |records|
             && ReplayCall(s.codec, FileOf(r, a.threads[j]), a.cursors[j], call, r.mems)
                == (Ok(Seen(e.call, e.resp)), Offset(s.codec, records, c + 1))
    ensures var b := ReplayEffect(s, r, a, j);
            && b.died == a.died && b.threads == a.threads && |b.hists| == |b.cursors| == |b.threads|
            && (forall m :: 0 <= m < |b.threads| && m != j ==> b.hists[m] == a.hists[m] && b.cursors[m] == a.cursors[m])
            && Follows(s, r, b, j, i)
  {
    hide Seen, OpsOf, Written, ReplayCall, FileOf, Offset;
    var e := r.logs[i][|a.hists[j]|];
    HistoryStep(a.hists[j], Saw(Seen(e.call, e.resp)));
  }

  lemma CallerFollows(s: Setup, r: Recording, a: Replaying, j: nat, call: Call, b: Replaying)
    requires Replayable(s, r) && NoneLost(r) && AllFaithful(s, r) && ReplayShape(r, a) && ReplayStepBy(s, r, a, j, b)
    requires FollowsSome(s, r, a, j) && s.program.next(a.threads[j].path, a.hists[j]) == Invoke(call)
    ensures b.died == a.died && b.threads == a.threads && |b.hists| == |b.cursors| == |b.threads|
    ensures forall m :: 0 <= m < |b.threads| && m != j ==> b.hists[m] == a.hists[m] && b.cursors[m] == a.cursors[m]
    ensures FollowsSome(s, r, b, j)
  {
    var i: nat :| i < |r.threads| && Follows(s, r, a, j, i);
    CallIsRepeated(s, r, a, j, i, call);
    RepeatedCallFollows(s, r, a, j, i, call);
    assert Follows(s, r, b, j, i);
  }

  lemma CallKeepsFollowing(s: Setup, r: Recording, a: Replaying, j: nat, call: Call, b: Replaying)
    requires Replayable(s, r) && NoneLost(r) && AllFaithful(s, r) && ReplayInv(s, r, a) && ReplayStepBy(s, r, a, j, b)
    requires s.program.next(a.threads[j].path, a.hists[j]) == Invoke(call)
    ensures !b.died && |b.hists| == |b.cursors| == |b.threads|
    ensures forall m: nat :: m < |b.threads| ==> FollowsSome(s, r, b, m)
  {
    hide Tree, LogsOk, TracesOk, MemsOk;
    assert FollowsSome(s, r, a, j);
    CallerFollows(s, r, a, j, call, b);
    forall m: nat | m < |b.threads| ensures FollowsSome(s, r, b, m) {
      if m != j { UntouchedFollows(s, r, a, b, m); }
    }
  }

  lemma CreationKeepsFollowing(s: Setup, r: Recording, a: Replaying, j: nat, b: Replaying)
    requires Replayable(s, r) && ReplayInv(s, r, a) && ReplayStepBy(s, r, a, j, b)
    requires s.program.next(a.threads[j].path, a.hists[j]) == CreateThread
    ensures !b.died && |b.hists| == |b.cursors| == |b.threads|
    ensures forall m: nat :: m < |b.threads| ==> FollowsSome(s, r, b, m)
  {
    hide Tree, LogsOk, TracesOk, MemsOk;
    NewThreadFollows(s, r, a, j, b);
    forall m: nat | m < |b.threads| ensures FollowsSome(s, r, b, m) {
      if m < |a.threads| { OldThreadFollows(s, r, a, j, b, m); }
    }
  }

  lemma StepKeepsReplayInv(s: Setup, r: Recording, a: Replaying, j: nat, b: Replaying)
    requires Replayable(s, r) && NoneLost(r) && AllFaithful(s, r) && ReplayInv(s, r, a) && ReplayStepBy(s, r, a, j, b)
    ensures ReplayInv(s, r, b)
  {
    hide Tree, LogsOk, TracesOk, MemsOk;
    StepKeepsShape(s, r, a, j, b);
    var action := s.program.next(a.threads[j].path, a.hists[j]);
    if action.CreateThread? {
      CreationKeepsFollowing(s, r, a, j, b);
    } else if action.Invoke? {
      CallKeepsFollowing(s, r, a, j, action.call, b);
    }
  }

  lemma MainIsATree()
    ensures Tree([MAIN])
  {
  }

  lemma RootIsMain(ts: seq<Thread>)
    requires Tree(ts)
    ensures ts != [] && ts[0].path == MAIN.path
  {
  }

  lemma ReplayStarts(s: Setup, r: Recording)
    requires |r.threads| == |r.logs| && Tree(r.threads)
    ensures ReplayInv(s, r, REPLAY_INIT)
  {
    MainIsATree();
    RootIsMain(r.threads);
    hide Tree, CursorAt;
    FreshThreadFollows(s, r, REPLAY_INIT, 0, 0);
  }

  lemma {:induction false} ReplayInvariant(s: Setup, r: Recording, run: seq<Replaying>)
    requires Replayable(s, r) && NoneLost(r) && AllFaithful(s, r)
    requires ReplayRun(s, r, run)
    ensures ReplayInv(s, r, run[|run| - 1])
  {
    hide Tree, LogsOk, TracesOk, MemsOk, RecordsFit, NoneLost, AllFaithful, ReplayInv, ReplayStepBy;
    var n := |run| - 1;
    if n == 0 {
      ReplayStarts(s, r);
    } else {
      ReplayInvariant(s, r, run[..n]);
      assert ReplayStep(s, r, run[n - 1], run[n]);
      var j: nat :| ReplayStepBy(s, r, run[n - 1], j, run[n]);
      StepKeepsReplayInv(s, r, run[n - 1], j, run[n]);
    }
  }

  // ---- Determinism ----

  /** Under any record schedule and any replay schedule, replay never dies, and every replayed thread has
      seen a prefix of what the thread of the same name saw while recording: all of it once it has finished. */
  lemma ReplayShowsTheRecording(s: Setup, recording: seq<Recording>, run: seq<Replaying>)
    requires Lawful(s.codec) && RecordRun(s, recording)
    requires var r := recording[|recording| - 1];
             NamesFit(r.threads) && Completed(s, r) && RecordsFit(s, r) && NoneLost(r) && AllFaithful(s, r)
             && ReplayRun(s, r, run)
    ensures var r, a := recording[|recording| - 1], run[|run| - 1];
            && !a.died && |a.hists| == |a.threads|
            && forall j :: 0 <= j < |a.threads| ==>
                 exists i :: 0 <= i < |r.threads|
                             && r.threads[i].path == a.threads[j].path && r.threads[i].name == a.threads[j].name
                             && a.hists[j] <= Observe(r.logs[i])
                             && (Finished(s, a, j) ==> a.hists[j] == Observe(r.logs[i]))
  {
    var r, a := recording[|recording| - 1], run[|run| - 1];
    RecordingInvariant(s, recording);
    ReplayInvariant(s, r, run);
    forall j: nat | j < |a.threads|
      ensures exists i :: 0 <= i < |r.threads|
                          && r.threads[i].path == a.threads[j].path && r.threads[i].name == a.threads[j].name
                          && a.hists[j] <= Observe(r.logs[i])
                          && (Finished(s, a, j) ==> a.hists[j] == Observe(r.logs[i]))
    {
      assert FollowsSome(s, r, a, j);
      var i: nat :| i < |r.threads| && Follows(s, r, a, j, i);
      FinishedThreadSawAll(s, r, a, j, i);
    }
  }

  lemma FinishedThreadSawAll(s: Setup, r: Recording, a: Replaying, j: nat, i: nat)
    requires Replayable(s, r) && ReplayShape(r, a)
    requires j < |a.threads| && i < |r.threads| && Follows(s, r, a, j, i)
    ensures Finished(s, a, j) ==> a.hists[j] == Observe(r.logs[i])
  {
    var log, k := r.logs[i], |a.hists[j]|;
    assert Observe(log)[..k] == a.hists[j];
    if k < |log| {
      assert Observe(log[..k]) == a.hists[j];
      assert Asked(s, r.threads[i].path, log, k);
    }
  }

  /** Once all replayed threads have finished, every recorded thread was replayed, in full. */
  lemma FinishedReplayIsTheRecording(s: Setup, recording: seq<Recording>, run: seq<Replaying>, i: nat)
    requires Lawful(s.codec) && RecordRun(s, recording)
    requires var r := recording[|recording| - 1];
             NamesFit(r.threads) && Completed(s, r) && RecordsFit(s, r) && NoneLost(r) && AllFaithful(s, r)
             && ReplayRun(s, r, run) && i < |r.threads|
    requires var a := run[|run| - 1];
             |a.hists| == |a.threads| && forall j: nat :: j < |a.threads| ==> Finished(s, a, j)
    ensures var r, a := recording[|recording| - 1], run[|run| - 1];
            exists j :: 0 <= j < |a.threads| && a.threads[j].path == r.threads[i].path && a.hists[j] == Observe(r.logs[i])
  {
    RecordingInvariant(s, recording);
    ReplayInvariant(s, recording[|recording| - 1], run);
    ReplayedInFull(s, recording[|recording| - 1], run[|run| - 1], i);
  }

  /** A replayed thread with the position of a recorded one follows that one. */
  lemma SamePathFollows(s: Setup, r: Recording, a: Replaying, j: nat, i: nat)
    requires Replayable(s, r) && ReplayInv(s, r, a)
    requires j < |a.threads| && i < |r.threads| && a.threads[j].path == r.threads[i].path
    ensures Follows(s, r, a, j, i)
  {
    assert FollowsSome(s, r, a, j);
    var m: nat :| m < |r.threads| && Follows(s, r, a, j, m);
    assert forall k: nat :: k < |r.threads| && k != i ==> r.threads[k].path != r.threads[i].path;
  }

  /** The child of a fully replayed thread is there. */
  lemma ChildIsReplayed(r: Recording, a: Replaying, p: nat, i: nat, q: nat)
    requires ReplayShape(r, a) && p < |r.threads| == |r.logs| && i < |r.threads| && Parent(r.threads, p, i)
    requires r.threads[p].counter == Creations(Observe(r.logs[p]))
    requires q < |a.threads| && a.threads[q].path == r.threads[p].path && a.hists[q] == Observe(r.logs[p])
    ensures Present(a.threads, r.threads[i].path)
  {
    var path := r.threads[i].path;
    assert path == a.threads[q].path + [path[|path| - 1]];
    assert a.threads[q].counter == r.threads[p].counter;
  }

  lemma {:induction false} ReplayedInFull(s: Setup, r: Recording, a: Replaying, i: nat)
    requires Replayable(s, r) && ReplayInv(s, r, a) && i < |r.threads|
    requires forall j: nat :: j < |a.threads| ==> Finished(s, a, j)
    ensures exists j :: 0 <= j < |a.threads| && a.threads[j].path == r.threads[i].path && a.hists[j] == Observe(r.logs[i])
  {
    if i > 0 {
      assert HasParent(r.threads, i);
      var p: nat :| p < i && Parent(r.threads, p, i);
      ReplayedInFull(s, r, a, p);
      var q :| 0 <= q < |a.threads| && a.threads[q].path == r.threads[p].path && a.hists[q] == Observe(r.logs[p]);
      ChildIsReplayed(r, a, p, i, q);
    }
    var j: nat :| j < |a.threads| && a.threads[j].path == r.threads[i].path;
    SamePathFollows(s, r, a, j, i);
    FinishedThreadSawAll(s, r, a, j, i);
  }

  /** Replay never gets stuck: a thread that has not finished can take its next step and live. */
  lemma ReplayAdvances(s: Setup, r: Recording, run: seq<Replaying>, j: nat)
    requires Replayable(s, r) && NoneLost(r) && AllFaithful(s, r) && ReplayRun(s, r, run)
    requires var a := run[|run| - 1];
             j < |a.threads| == |a.hists| && !Finished(s, a, j)
    ensures exists b :: ReplayRun(s, r, run + [b]) && !b.died
                        && |b.hists| > j && |b.hists[j]| == |run[|run| - 1].hists[j]| + 1
  {
    ReplayInvariant(s, r, run);
    var b := NextState(s, r, run[|run| - 1], j);
    hide ReplayInv, ReplayStepBy, ReplayRun, Replayable, NoneLost, AllFaithful;
    RunExtends(s, r, run, j, b);
    ReplayInvariant(s, r, run + [b]);
    StepGrows(s, r, run[|run| - 1], j, b);
  }

  function NextState(s: Setup, r: Recording, a: Replaying, j: nat): (b: Replaying)
    requires |r.threads| == |r.logs| && ReplayInv(s, r, a) && j < |a.threads| && !Finished(s, a, j)
    ensures ReplayStepBy(s, r, a, j, b)
  {
    ReplayEffect(s, r, a, j)
  }

  lemma StepGrows(s: Setup, r: Recording, a: Replaying, j: nat, b: Replaying)
    requires ReplayStepBy(s, r, a, j, b) && !b.died
    ensures |b.hists| > j && |b.hists[j]| == |a.hists[j]| + 1
  {
    hide ReplayCall, FileOf, Spawn;
  }

  lemma RunExtends(s: Setup, r: Recording, run: seq<Replaying>, j: nat, b: Replaying)
    requires ReplayRun(s, r, run) && ReplayStepBy(s, r, run[|run| - 1], j, b)
    ensures ReplayRun(s, r, run + [b])
  {
    hide ReplayStepBy;
    var more := run + [b];
    assert ReplayStep(s, r, run[|run| - 1], b);
    forall k | 0 < k < |more| ensures ReplayStep(s, r, more[k - 1], more[k]) {
      assert k < |run| ==> more[k] == run[k];
    }
  }

  // ---- Lost records ----

  /** The binary selections a thread saw, and those that were recorded. */
  function Selections(hist: seq<Obs>): nat {
    if hist == [] then 0
    else
      var last := hist[|hist| - 1];
      Selections(hist[..|hist| - 1]) + if last.Saw? && last.outcome.Selected? then 1 else 0
  }

  function SelectRecords(records: seq<ApiCall>): nat {
    if records == [] then 0
    else SelectRecords(records[..|records| - 1]) + if records[|records| - 1].functionId.DeviceSelectBinary? then 1 else 0
  }

  lemma SelectionsStep(hist: seq<Obs>, o: Obs)
    ensures Selections(hist + [o]) == Selections(hist) + if o.Saw? && o.outcome.Selected? then 1 else 0
  {
    assert (hist + [o])[..|hist|] == hist;
  }

  lemma SelectRecordsStep(records: seq<ApiCall>, c: nat)
    requires c < |records|
    ensures SelectRecords(records[..c + 1])
            == SelectRecords(records[..c]) + if records[c].functionId.DeviceSelectBinary? then 1 else 0
  {
    assert records[..c + 1][..c] == records[..c];
  }

  lemma {:induction false} SelectRecordsPrefix(records: seq<ApiCall>, c: nat)
    requires c <= |records|
    ensures SelectRecords(records[..c]) <= SelectRecords(records)
    decreases |records| - c
  {
    if c < |records| {
      SelectRecordsStep(records, c);
      SelectRecordsPrefix(records, c + 1);
    } else {
      assert records[..c] == records;
    }
  }

  /** Every selection the recorded thread saw was either recorded or lost. */
  lemma {:induction false} SelectionsWritten(s: Setup, thread: string, path: seq<nat>, log: seq<Event>)
    requires forall k: nat :: k < |log| ==> Asked(s, path, log, k)
    ensures Selections(Observe(log)) == SelectRecords(Written(s, thread, log)) + Lost(log)
  {
    if log != [] {
      var n := |log| - 1;
      var before, e := log[..n], log[n];
      assert log == before + [e];
      forall k: nat | k < n ensures Asked(s, path, before, k) {
        assert Asked(s, path, log, k) && before[..k] == log[..k];
      }
      SelectionsWritten(s, thread, path, before);
      ObserveStep(before, e);
      SelectionsStep(Observe(before), ObsOf(e));
      WrittenStep(s, thread, before, e);
      assert Asked(s, path, log, n);
      if e.Called? && !e.lost {
        var records := Written(s, thread, log);
        SelectRecordsStep(records, |records| - 1);
        assert records[..|records|] == records;
        SelectedIsRecorded(e.call, e.resp);
      }
    }
  }

  lemma SelectedIsRecorded(call: Call, resp: Response)
    requires WellFormed(call)
    ensures ApiOf(call).DeviceSelectBinary? <==> Seen(call, resp).Selected?
  {
  }

  /** The cursor stands after as many records as the thread made calls, or at the end of the file;
      no more selections were seen than were read. */
  ghost predicate CursorBound(s: Setup, r: Recording, a: Replaying, j: nat, i: nat)
    requires j < |a.threads| == |a.hists| == |a.cursors| && i < |r.threads| == |r.logs|
  {
    Bound(s, Written(s, r.threads[i].name, r.logs[i]), a.hists[j], a.cursors[j])
  }

  ghost predicate Bound(s: Setup, records: seq<ApiCall>, hist: seq<Obs>, cursor: nat) {
    var c := Consumed(records, hist);
    cursor == Offset(s.codec, records, c) && Selections(hist) <= SelectRecords(records[..c])
  }

  function Consumed(records: seq<ApiCall>, hist: seq<Obs>): (c: nat)
    ensures c <= |records|
  {
    if Calls(hist) < |records| then Calls(hist) else |records|
  }

  lemma CallEffect(s: Setup, r: Recording, a: Replaying, j: nat, call: Call, b: Replaying)
    requires ReplayStepBy(s, r, a, j, b) && s.program.next(a.threads[j].path, a.hists[j]) == Invoke(call)
    ensures var (reply, pos) := ReplayCall(s.codec, FileOf(r, a.threads[j]), a.cursors[j], call, r.mems);
            && b.threads == a.threads && |b.hists| == |b.cursors| == |a.threads|
            && b.hists[j] == (if reply.Ok? then a.hists[j] + [Saw(reply.outcome)] else a.hists[j])
            && b.cursors[j] == (if reply.Ok? then pos else a.cursors[j])
  {
    hide ReplayCall, FileOf;
  }

  lemma CallKeepsBound(s: Setup, r: Recording, a: Replaying, j: nat, call: Call, b: Replaying, i: nat)
    requires Replayable(s, r) && ReplayShape(r, a) && ReplayStepBy(s, r, a, j, b)
    requires s.program.next(a.threads[j].path, a.hists[j]) == Invoke(call)
    requires i < |r.threads| && a.threads[j].path == r.threads[i].path && CursorBound(s, r, a, j, i)
    ensures CursorBound(s, r, b, j, i)
  {
    hide Tree, LogsOk, TracesOk, MemsOk, RecordsFit, Answer, ReplayCall, FileOf, Written, Offset, Selections, SelectRecords;
    var records := Written(s, r.threads[i].name, r.logs[i]);
    var c := Consumed(records, a.hists[j]);
    CallReads(s, r, a, j, call, i, c);
    CallEffect(s, r, a, j, call, b);
    hide Replayable, ReplayShape, ReplayStepBy, Answer, ReplayCall, FileOf, Written, Offset, Selections, SelectRecords, Consumed, Bound;
    var (reply, pos) := ReplayCall(s.codec, FileOf(r, a.threads[j]), a.cursors[j], call, r.mems);
    KeepsBound(s, records, a.hists[j], a.cursors[j], call, r.mems, reply, pos, b.hists[j], b.cursors[j]);
  }

  lemma KeepsBound(s: Setup, records: seq<ApiCall>, hist: seq<Obs>, cursor: nat, call: Call, mems: Files, reply: Reply, pos: nat,
                   hist': seq<Obs>, cursor': nat)
    requires Bound(s, records, hist, cursor)
    requires var c := Consumed(records, hist);
             (reply, pos) == if c < |records| then (Answer(call, records[c], mems), Offset(s.codec, records, c + 1))
                             else (Answer(call, BLANK, mems), cursor)
    requires hist' == if reply.Ok? then hist + [Saw(reply.outcome)] else hist
    requires cursor' == if reply.Ok? then pos else cursor
    ensures Bound(s, records, hist', cursor')
  {
    hide Bound, Consumed, Answer, Offset;
    if reply.Ok? { SeenIsBound(s, records, hist, cursor, call, mems, reply, pos); }
  }

  /** One more call answered from the next record, or from none, keeps the bound. */
  lemma SeenIsBound(s: Setup, records: seq<ApiCall>, hist: seq<Obs>, cursor: nat, call: Call, mems: Files, reply: Reply, pos: nat)
    requires Bound(s, records, hist, cursor) && reply.Ok?
    requires var c := Consumed(records, hist);
             (reply, pos) == if c < |records| then (Answer(call, records[c], mems), Offset(s.codec, records, c + 1))
                             else (Answer(call, BLANK, mems), cursor)
    ensures Bound(s, records, hist + [Saw(reply.outcome)], pos)
  {
    hide Answer, Selections, SelectRecords, Offset;
    var c := Consumed(records, hist);
    HistoryStep(hist, Saw(reply.outcome));
    SelectionsStep(hist, Saw(reply.outcome));
    if reply.outcome.Selected? {
      SelectionNeedsItsRecord(call, if c < |records| then records[c] else BLANK, mems);
    }
    if c < |records| { SelectRecordsStep(records, c); }
  }

  lemma CreationKeepsBound(s: Setup, r: Recording, a: Replaying, m: nat, b: Replaying, j: nat, i: nat)
    requires |r.threads| == |r.logs| && ReplayStepBy(s, r, a, m, b)
    requires s.program.next(a.threads[m].path, a.hists[m]) == CreateThread
    requires |b.threads| == |b.hists| == |b.cursors| && j < |b.threads| && i < |r.threads|
    requires j < |a.threads| ==> CursorBound(s, r, a, j, i)
    ensures CursorBound(s, r, b, j, i)
  {
    assert Written(s, r.threads[i].name, r.logs[i])[..0] == [];
    HistoryStep(a.hists[m], Created);
    SelectionsStep(a.hists[m], Created);
  }

  lemma StepKeepsBound(s: Setup, r: Recording, a: Replaying, m: nat, b: Replaying, j: nat, i: nat)
    requires Replayable(s, r) && ReplayShape(r, a) && ReplayShape(r, b) && ReplayStepBy(s, r, a, m, b)
    requires j < |b.threads| && i < |r.threads| && b.threads[j].path == r.threads[i].path
    requires j < |a.threads| && a.threads[j].path == r.threads[i].path ==> CursorBound(s, r, a, j, i)
    ensures CursorBound(s, r, b, j, i)
  {
    hide Tree, LogsOk, TracesOk, MemsOk, Answer;
    var action := s.program.next(a.threads[m].path, a.hists[m]);
    if action.CreateThread? {
      CreationKeepsBound(s, r, a, m, b, j, i);
    } else if j == m {
      CallKeepsBound(s, r, a, m, action.call, b, i);
    }
  }

  /** Cursors are bound by the recording's records for every pair of threads at the same position. */
  ghost predicate CursorsOk(s: Setup, r: Recording, a: Replaying)
    requires |a.threads| == |a.hists| == |a.cursors| && |r.threads| == |r.logs|
  {
    forall j: nat, i: nat :: j < |a.threads| && i < |r.threads| && a.threads[j].path == r.threads[i].path ==>
      CursorBound(s, r, a, j, i)
  }

  lemma FreshThreadIsBound(s: Setup, r: Recording, i: nat)
    requires |r.threads| == |r.logs| && i < |r.threads|
    ensures CursorBound(s, r, REPLAY_INIT, 0, i)
  {
    assert Written(s, r.threads[i].name, r.logs[i])[..0] == [];
  }

  /** Whatever replay answers, a replayed thread reads its recording's records in order and then nothing. */
  lemma {:induction false} CursorInvariant(s: Setup, r: Recording, run: seq<Replaying>)
    requires Replayable(s, r) && ReplayRun(s, r, run)
    ensures ReplayShape(r, run[|run| - 1]) && CursorsOk(s, r, run[|run| - 1])
  {
    hide Tree, LogsOk, TracesOk, MemsOk, ReplayEffect, CursorBound;
    var n := |run| - 1;
    if n == 0 {
      ReplayStarts(s, r);
      forall i: nat | i < |r.threads| && r.threads[i].path == MAIN.path ensures CursorBound(s, r, REPLAY_INIT, 0, i) {
        FreshThreadIsBound(s, r, i);
      }
    } else {
      CursorInvariant(s, r, run[..n]);
      assert ReplayStep(s, r, run[n - 1], run[n]);
      var m: nat :| ReplayStepBy(s, r, run[n - 1], m, run[n]);
      StepKeepsShape(s, r, run[n - 1], m, run[n]);
      forall j: nat, i: nat | j < |run[n].threads| && i < |r.threads| && run[n].threads[j].path == r.threads[i].path
        ensures CursorBound(s, r, run[n], j, i)
      {
        StepKeepsBound(s, r, run[n - 1], m, run[n], j, i);
      }
    }
  }

  /** If a record of a thread was lost, no replay whatsoever shows that thread all it saw. */
  lemma LostRecordIsFatal(s: Setup, r: Recording, run: seq<Replaying>, i: nat, j: nat)
    requires Replayable(s, r) && ReplayRun(s, r, run)
    requires i < |r.threads| && Lost(r.logs[i]) > 0
    requires var a := run[|run| - 1];
             j < |a.threads| == |a.hists| && a.threads[j].path == r.threads[i].path
    ensures run[|run| - 1].hists[j] != Observe(r.logs[i])
  {
    var a := run[|run| - 1];
    var records := Written(s, r.threads[i].name, r.logs[i]);
    hide ReplayStep, Asked, Written, Tree, TracesOk, MemsOk, Completed, RecordsFit;
    CursorInvariant(s, r, run);
    assert CursorBound(s, r, a, j, i);
    SelectRecordsPrefix(records, Consumed(records, a.hists[j]));
    SelectionsWritten(s, r.threads[i].name, r.threads[i].path, r.logs[i]);
  }
}
