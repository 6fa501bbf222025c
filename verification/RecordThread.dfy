// The record callback of one thread: the first begin opens the thread's trace file, every end after that records a call.
module RecordThread {
  import opened Bytes
  import opened TraceFraming
  import opened PiCalls
  import opened Wrappers

  datatype Callback =
    | Begin(now: U64)
    | End(now: U64, eventId: nat, call: Call, resp: Response, lostRace: bool)

  /** The time of the last begin. */
  function LastBegin(cbs: seq<Callback>): Option<U64> {
    if cbs == [] then None
    else if cbs[|cbs| - 1].Begin? then Some(cbs[|cbs| - 1].now)
    else LastBegin(cbs[..|cbs| - 1])
  }

  /** The records of a run of callbacks: an end before any begin leaves none, and neither does a lost race. */
  function Recorded(cbs: seq<Callback>, thread: string, writeMem: bool): seq<ApiCall> {
    if cbs == [] then []
    else
      var before, cb := cbs[..|cbs| - 1], cbs[|cbs| - 1];
      var records := Recorded(before, thread, writeMem);
      if cb.Begin? || LastBegin(before).None? || (cb.call.SelectBinary? && cb.lostRace) then records
      else records + [MakeRecord(thread, writeMem, cb.call, cb.resp, Stamp(cb.eventId, LastBegin(before).value, cb.now))]
  }

  lemma HistoryAppend(cbs: seq<Callback>, cb: Callback, thread: string, writeMem: bool)
    ensures LastBegin(cbs + [cb]) == if cb.Begin? then Some(cb.now) else LastBegin(cbs)
    ensures Recorded(cbs + [cb], thread, writeMem)
            == var records := Recorded(cbs, thread, writeMem);
               if cb.Begin? || LastBegin(cbs).None? || (cb.call.SelectBinary? && cb.lostRace) then records
               else records + [MakeRecord(thread, writeMem, cb.call, cb.resp, Stamp(cb.eventId, LastBegin(cbs).value, cb.now))]
  {
    assert (cbs + [cb])[..|cbs|] == cbs;
  }

  /** Ends that come before any begin leave nothing. */
  lemma {:induction false} NothingBeforeBegin(cbs: seq<Callback>, thread: string, writeMem: bool)
    requires forall k :: 0 <= k < |cbs| ==> cbs[k].End?
    ensures LastBegin(cbs) == None && Recorded(cbs, thread, writeMem) == []
  {
    if cbs != [] { NothingBeforeBegin(cbs[..|cbs| - 1], thread, writeMem); }
  }

  /** A call with the times at which it began and ended. */
  datatype Timed = Timed(begin: U64, end: U64, eventId: nat, call: Call, resp: Response)

  /** The callbacks of calls that do not nest. */
  function OneAfterTheOther(calls: seq<Timed>): seq<Callback> {
    if calls == [] then []
    else
      var t := calls[|calls| - 1];
      OneAfterTheOther(calls[..|calls| - 1]) + [Begin(t.begin)] + [End(t.end, t.eventId, t.call, t.resp, false)]
  }

  /** Calls that do not nest are recorded one by one, each with its own begin and end. */
  lemma {:induction false} EveryCallHasItsRecord(calls: seq<Timed>, thread: string, writeMem: bool)
    ensures var rs := Recorded(OneAfterTheOther(calls), thread, writeMem);
            && |rs| == |calls|
            && forall k :: 0 <= k < |rs| ==>
                 rs[k] == MakeRecord(thread, writeMem, calls[k].call, calls[k].resp,
                                     Stamp(calls[k].eventId, calls[k].begin, calls[k].end))
  {
    hide MakeRecord;
    if calls != [] {
      var n := |calls| - 1;
      var t, before := calls[n], OneAfterTheOther(calls[..n]);
      EveryCallHasItsRecord(calls[..n], thread, writeMem);
      HistoryAppend(before, Begin(t.begin), thread, writeMem);
      HistoryAppend(before + [Begin(t.begin)], End(t.end, t.eventId, t.call, t.resp, false), thread, writeMem);
    }
  }

  // ---- Nesting ----

  lemma {:induction false} LastBeginConcat(a: seq<Callback>, b: seq<Callback>)
    ensures LastBegin(a + b) == if LastBegin(b).Some? then LastBegin(b) else LastBegin(a)
  {
    if b == [] {
      assert a + b == a;
    } else {
      var n := |b| - 1;
      assert (a + b)[..|a + b| - 1] == a + b[..n];
      LastBeginConcat(a, b[..n]);
    }
  }

  /** In every run: a recorded end carries the begin b that came `mid` before it exactly when no begin follows b,
      or the last one that does is at the same time. */
  lemma BeginIsOwn(before: seq<Callback>, b: U64, mid: seq<Callback>, end: Callback, thread: string, writeMem: bool)
    requires end.End? && !(end.call.SelectBinary? && end.lostRace)
    ensures var rs := Recorded(before + [Begin(b)] + mid + [end], thread, writeMem);
            && rs != [] && rs[|rs| - 1].timeEnd == end.now
            && (rs[|rs| - 1].timeStart == b <==> LastBegin(mid).None? || LastBegin(mid).value == b)
  {
    var cbs := before + [Begin(b)] + mid;
    HistoryAppend(before, Begin(b), thread, writeMem);
    LastBeginConcat(before + [Begin(b)], mid);
    HistoryAppend(cbs, end, thread, writeMem);
  }

  /** Calls of one thread, in order, each with the calls made inside it, to any depth. */
  datatype Calls = NoCalls | Then(before: Calls, call: Timed, lostRace: bool, inside: Calls)

  function EndOf(call: Timed, lostRace: bool): Callback {
    End(call.end, call.eventId, call.call, call.resp, lostRace)
  }

  function Callbacks(cs: Calls): seq<Callback> {
    match cs
    case NoCalls => []
    case Then(before, call, lostRace, inside) =>
      Callbacks(before) + [Begin(call.begin)] + Callbacks(inside) + [EndOf(call, lostRace)]
  }

  /** The begin of the call that began last. */
  function Latest(cs: Calls): (t: Option<U64>)
    ensures t.Some? <==> !cs.NoCalls?
  {
    match cs
    case NoCalls => None
    case Then(_, call, _, inside) => if inside.NoCalls? then Some(call.begin) else Latest(inside)
  }

  /** What is recorded of nested calls: every call begins when the last call inside it did. */
  function RecordsOf(cs: Calls, thread: string, writeMem: bool): seq<ApiCall> {
    match cs
    case NoCalls => []
    case Then(before, call, lostRace, inside) =>
      RecordsOf(before, thread, writeMem) + RecordsOf(inside, thread, writeMem)
      + if call.call.SelectBinary? && lostRace then [] else [RecordOf(call, inside, thread, writeMem)]
  }

  function RecordOf(call: Timed, inside: Calls, thread: string, writeMem: bool): ApiCall {
    MakeRecord(thread, writeMem, call.call, call.resp,
               Stamp(call.eventId, if inside.NoCalls? then call.begin else Latest(inside).value, call.end))
  }

  lemma {:induction false} LatestIsLastBegin(cs: Calls)
    ensures LastBegin(Callbacks(cs)) == Latest(cs)
  {
    match cs {
      case NoCalls =>
      case Then(before, call, lostRace, inside) =>
        LatestIsLastBegin(inside);
        var head := Callbacks(before) + [Begin(call.begin)];
        HistoryAppend(Callbacks(before), Begin(call.begin), "", false);
        LastBeginConcat(head, Callbacks(inside));
        HistoryAppend(head + Callbacks(inside), EndOf(call, lostRace), "", false);
    }
  }

  /** A begin, the calls inside and the end add the records of the calls inside and one more. */
  lemma CallIsRecorded(head: seq<Callback>, call: Timed, lostRace: bool, inside: Calls, thread: string, writeMem: bool)
    requires var mid := head + [Begin(call.begin)];
             Recorded(mid + Callbacks(inside), thread, writeMem)
             == Recorded(mid, thread, writeMem) + RecordsOf(inside, thread, writeMem)
    ensures Recorded(head + [Begin(call.begin)] + Callbacks(inside) + [EndOf(call, lostRace)], thread, writeMem)
            == Recorded(head, thread, writeMem) + RecordsOf(inside, thread, writeMem)
               + if call.call.SelectBinary? && lostRace then [] else [RecordOf(call, inside, thread, writeMem)]
  {
    hide Recorded, LastBegin, Callbacks, RecordsOf, MakeRecord;
    var mid := head + [Begin(call.begin)];
    HistoryAppend(head, Begin(call.begin), thread, writeMem);
    LatestIsLastBegin(inside);
    LastBeginConcat(mid, Callbacks(inside));
    HistoryAppend(mid + Callbacks(inside), EndOf(call, lostRace), thread, writeMem);
  }

  lemma Regroup(a: seq<Callback>, b: seq<Callback>, c: seq<Callback>, d: seq<Callback>, e: seq<Callback>)
    ensures a + (b + c + d + e) == a + b + c + d + e
  {
  }

  lemma RegroupRecords(a: seq<ApiCall>, b: seq<ApiCall>, c: seq<ApiCall>, d: seq<ApiCall>)
    ensures a + (b + c + d) == a + b + c + d
  {
  }

  /** Whatever came before, nested calls leave exactly these records. */
  lemma {:induction false} NestedCallsAreRecorded(cbs: seq<Callback>, cs: Calls, thread: string, writeMem: bool)
    ensures Recorded(cbs + Callbacks(cs), thread, writeMem)
            == Recorded(cbs, thread, writeMem) + RecordsOf(cs, thread, writeMem)
    decreases cs
  {
    hide Recorded, RecordOf;
    match cs {
      case NoCalls =>
        assert cbs + [] == cbs;
      case Then(before, call, lostRace, inside) =>
        var head := cbs + Callbacks(before);
        NestedCallsAreRecorded(cbs, before, thread, writeMem);
        NestedCallsAreRecorded(head + [Begin(call.begin)], inside, thread, writeMem);
        CallIsRecorded(head, call, lostRace, inside, thread, writeMem);
        Regroup(cbs, Callbacks(before), [Begin(call.begin)], Callbacks(inside), [EndOf(call, lostRace)]);
        var last := if call.call.SelectBinary? && lostRace then [] else [RecordOf(call, inside, thread, writeMem)];
        RegroupRecords(Recorded(cbs, thread, writeMem), RecordsOf(before, thread, writeMem),
                       RecordsOf(inside, thread, writeMem), last);
    }
  }

  /** Every call inside began at time t. */
  predicate AllBeginAt(cs: Calls, t: U64) {
    match cs
    case NoCalls => true
    case Then(before, call, _, inside) => AllBeginAt(before, t) && call.begin == t && AllBeginAt(inside, t)
  }

  /** The clock of the thread does not run backwards. */
  predicate Clocked(cs: Calls, from: U64) {
    match cs
    case NoCalls => true
    case Then(before, call, _, inside) =>
      && Clocked(before, from) && from <= call.begin && Clocked(inside, call.begin)
      && (!before.NoCalls? ==> Latest(before).value <= call.begin)
  }

  lemma {:induction false} LatestIsLargest(cs: Calls, from: U64, t: U64)
    requires Clocked(cs, from) && !cs.NoCalls?
    ensures from <= Latest(cs).value
    ensures Latest(cs).value == from ==> AllBeginAt(cs, from)
    ensures AllBeginAt(cs, t) ==> Latest(cs).value == t
  {
    var Then(before, call, _, inside) := cs;
    if !inside.NoCalls? { LatestIsLargest(inside, call.begin, t); }
    if !before.NoCalls? { LatestIsLargest(before, from, t); }
  }

  /** To any depth: a call is recorded with its own begin exactly when every call inside it began at that time. */
  lemma OwnBeginExact(call: Timed, inside: Calls, thread: string, writeMem: bool)
    requires Clocked(inside, call.begin)
    ensures RecordOf(call, inside, thread, writeMem).timeStart == call.begin <==> AllBeginAt(inside, call.begin)
  {
    if !inside.NoCalls? { LatestIsLargest(inside, call.begin, call.begin); }
  }

  /** So a call around one that began later is recorded with the wrong begin. */
  lemma OuterBeginIsLost(outer: Timed, inner: Timed, thread: string, writeMem: bool)
    requires outer.begin < inner.begin
    ensures var cs := Then(NoCalls, outer, false, Then(NoCalls, inner, false, NoCalls));
            var rs := Recorded(Callbacks(cs), thread, writeMem);
            |rs| == 2 && rs[1].timeEnd == outer.end && rs[1].timeStart == inner.begin
  {
    var inside := Then(NoCalls, inner, false, NoCalls);
    var cs := Then(NoCalls, outer, false, inside);
    NestedCallsAreRecorded([], cs, thread, writeMem);
    assert [] + Callbacks(cs) == Callbacks(cs);
    Nothing(thread, writeMem);
    hide Recorded, Callbacks, SmallOutputs, SavesMemory;
    assert RecordsOf(inside, thread, writeMem) == [RecordOf(inner, NoCalls, thread, writeMem)];
    assert RecordsOf(cs, thread, writeMem)
        == [RecordOf(inner, NoCalls, thread, writeMem), RecordOf(outer, inside, thread, writeMem)];
  }

  lemma Appended(files: Files, name: string, bytes: seq<Byte>)
    ensures ContentOf(Append(files, name, bytes), name) == ContentOf(files, name) + bytes
    ensures forall other :: other != name ==> ContentOf(Append(files, name, bytes), other) == ContentOf(files, other)
  {
  }

  lemma FileGrows(codec: Codec<ApiCall>, existing: seq<Byte>, records: seq<ApiCall>, record: ApiCall)
    ensures existing + Frames(codec, records) + Frame(codec, record) == existing + Frames(codec, records + [record])
  {
    FramesAppend(codec, records, record);
  }

  lemma Nothing(thread: string, writeMem: bool)
    ensures LastBegin([]) == None && Recorded([], thread, writeMem) == []
  {
  }

  /** One thread of the traced program, with its thread-local recorder. */
  class ThreadRecorder {
    const codec: Codec<ApiCall>
    const dir: TraceDir
    const thread: string
    const skipMemObjects: bool
    var handler: RecordHandler?
    ghost const existing: seq<Byte>
    ghost var history: seq<Callback>

    ghost predicate Valid()
      reads this, handler, dir
    {
      && (handler == null <==> LastBegin(history).None?)
      && (handler != null ==>
            && handler.codec == codec && handler.dir == dir && handler.thread == thread
            && handler.writeMem == !skipMemObjects
            && handler.timestampBegin == LastBegin(history).value)
      && ContentOf(dir.traces, TraceName(thread)) == existing + Frames(codec, Recorded(history, thread, !skipMemObjects))
    }

    constructor (codec: Codec<ApiCall>, dir: TraceDir, thread: string, skipMemObjects: bool)
      ensures Valid() && history == []
      ensures this.codec == codec && this.dir == dir && this.thread == thread && this.skipMemObjects == skipMemObjects
      ensures existing == ContentOf(dir.traces, TraceName(thread))
    {
      this.codec, this.dir, this.thread, this.skipMemObjects := codec, dir, thread, skipMemObjects;
      handler, existing, history := null, ContentOf(dir.traces, TraceName(thread)), [];
    }

    /** The thread's file always holds what was there before and then one frame per recorded call;
        no other trace file changes. */
    method TpCallback(cb: Callback)
      requires Valid()
      requires cb.End? ==> Answers(cb.call, cb.resp)
      modifies this, handler, dir
      ensures Valid() && history == old(history) + [cb]
      ensures forall name :: name != TraceName(thread) ==> ContentOf(dir.traces, name) == ContentOf(old(dir.traces), name)
      ensures handler == old(handler) || fresh(handler)
    {
      hide Recorded, LastBegin, Answers, WriteMem, MakeRecord, TraceName, Append, ContentOf, Frame, Frames;
      HistoryAppend(history, cb, thread, !skipMemObjects);
      match cb {
        case Begin(now) =>
          if handler == null {
            handler := new RecordHandler(codec, dir, thread, !skipMemObjects);
          }
          handler.TimestampBegin(now);
        case End(now, eventId, call, resp, lostRace) =>
          if handler != null {
            handler.TimestampEnd(now);
            handler.Handle(eventId, call, resp, lostRace);
            ghost var records := Recorded(history, thread, !skipMemObjects);
            ghost var record := MakeRecord(thread, !skipMemObjects, call, resp, Stamp(eventId, handler.timestampBegin, now));
            Appended(old(dir.traces), TraceName(thread), Frame(codec, record));
            FileGrows(codec, existing, records, record);
          }
      }
      history := history + [cb];
    }
  }
}
