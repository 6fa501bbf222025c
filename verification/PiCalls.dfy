// One PI call: what the recorder writes for it, what the replay plugin makes of that record,
// and exactly when the two agree on what the caller gets to see.
module PiCalls {
  import opened Bytes
  import opened Decimal
  import opened TraceFraming
  import opened Wrappers
  import Handles

  /** The entry points by what replay makes of them; the numeric ids are not part of this model. */
  datatype Api =
    | PlatformsGet | DevicesGet
    | PlatformGetInfo | DeviceGetInfo | ContextGetInfo | KernelGetInfo | KernelGetGroupInfo
    | QueueGetInfo | MemGetInfo | MemImageGetInfo | ProgramGetInfo
    | DeviceSelectBinary | EnqueueMemBufferMap | EnqueueMemBufferRead | UsmEnqueueMemcpy | UsmEnqueueMemset
    | EnqueueKernelLaunch | EnqueueMemUnmap | EnqueueEventsWait | EnqueueEventsWaitWithBarrier
    | ContextCreate | QueueCreate | MemBufferCreate | ProgramCreate | ProgramCreateWithBinary | KernelCreate
    | UsmHostAlloc | UsmDeviceAlloc
    | ProgramLink | MemRetain
    | ResultOnly(call: Simple)
    | Unreplayed(id: nat)

  /** Entry points whose replay only returns the recorded result. */
  datatype Simple =
    | DeviceRetain | DeviceRelease | ContextRetain | ContextRelease
    | QueueRetain | QueueRelease | QueueFinish | MemRelease
    | ProgramBuild | ProgramCompile | ProgramRetain | ProgramRelease | ProgramSetSpecializationConstant
    | KernelSetExecInfo | KernelSetArg | KernelSetArgMemObj | KernelSetArgPointer | KernelRetain | KernelRelease
    | EventsWait | EventRelease | UsmFree

  /** Where a USM pointer was allocated; only device memory is invisible to the host. */
  datatype AllocType = Unknown | Host | Device | Shared

  /** What an info query is after: plain bytes, the program of a kernel, or some other handle. */
  datatype Asks = ForBytes | ForProgram(kernel: Handles.Name) | ForHandle

  /** A call as the application makes it. Handles have no values here but names: replay hands out fresh ones.
      `event` says that an event is asked for, `prior` is what the memory held that the call may write. */
  datatype Call =
    | Plain(api: Api)
    | MakeKernel(program: Handles.Name)
    | GetCount(api: Api, wantCount: bool)
    | GetInfo(api: Api, asks: Asks, size: U64, wantValue: bool, wantSize: bool, priorSize: U64)
    | SelectBinary
    | BufferMap(size: U64, event: bool)
    | BufferRead(size: U64, event: bool)
    | UsmMemcpy(size: U64, alloc: AllocType, event: bool, prior: seq<Byte>)
    | UsmMemset(value: Byte, alloc: AllocType, event: bool, prior: seq<Byte>)
    | Enqueue(api: Api, event: bool, prior: seq<Byte>)

  /** What the real plugin answered: each call uses the fields that concern it. `pad` is what follows the selected index in memory. */
  datatype Response = Response(ret: I32, count: U32, value: seq<Byte>, retSize: U64,
                               selected: U32, pad: seq<Byte>, data: seq<Byte>)

  const SUCCESS: I32 := 0

  /** What the application can observe of a finished call; `made` says that it got the handle it asked for. */
  datatype Outcome =
    | Returned(ret: I32, made: bool)
    | Counted(ret: I32, count: Option<U32>)
    | Info(ret: I32, value: Option<Shown>, retSize: Option<U64>)
    | Selected(ret: I32, index: U32)
    | Data(ret: I32, data: Option<seq<Byte>>)

  /** The answer of an info query: bytes, the process's own handle of a kernel's program, a handle that the process
      was given, or an address that was a handle in another process. */
  datatype Shown = Raw(bytes: seq<Byte>) | OwnProgram(kernel: Handles.Name) | Live(address: seq<Byte>) | Stale(address: seq<Byte>)

  datatype ApiCall = ApiCall(functionId: Api, timeStart: U64, timeEnd: U64, returnValue: U32,
                             smallOutputs: seq<seq<Byte>>, memObjOutputs: seq<string>)

  /** The identity and time of one recorded call. */
  datatype Stamp = Stamp(eventId: nat, begin: U64, end: U64)

  predicate InfoQuery(api: Api) {
    Wired(api) || api.QueueGetInfo? || api.MemGetInfo? || api.MemImageGetInfo? || api.ProgramGetInfo?
  }

  /** The info queries whose outputs the recorder captures. */
  predicate Wired(api: Api) {
    api.PlatformGetInfo? || api.DeviceGetInfo? || api.ContextGetInfo? || api.KernelGetInfo? || api.KernelGetGroupInfo?
  }

  /** A successful call leaves a new object's handle, or new memory, with the caller. */
  predicate Creates(api: Api) {
    MakesHandle(api) || api.UsmHostAlloc? || api.UsmDeviceAlloc?
  }

  /** Creations for which replay allocates a handle. */
  predicate MakesHandle(api: Api) {
    api.ContextCreate? || api.QueueCreate? || api.MemBufferCreate? || api.ProgramCreate? || api.ProgramCreateWithBinary?
  }

  /** The call is made to an entry point of its kind; only kernels write memory that nothing else names. */
  predicate WellFormed(call: Call) {
    match call
    case Plain(api) => Creates(api) || api.ProgramLink? || api.MemRetain? || api.ResultOnly? || api.Unreplayed?
    case Enqueue(api, _, prior) =>
      api.EnqueueKernelLaunch?
      || ((api.EnqueueMemUnmap? || api.EnqueueEventsWait? || api.EnqueueEventsWaitWithBarrier?) && prior == [])
    case GetCount(api, _) => api.PlatformsGet? || api.DevicesGet?
    case GetInfo(api, asks, _, _, _, _) => InfoQuery(api) && (asks.ForProgram? ==> api.KernelGetInfo?)
    case UsmMemcpy(size, _, _, prior) => |prior| == size
    case _ => true
  }

  function Filled(value: Byte, size: nat): (s: seq<Byte>)
    ensures |s| == size
  {
    seq(size, _ => value)
  }

  /** The plugin fills exactly the buffers the call describes; a memset that fails leaves its memory alone. */
  predicate Answers(call: Call, resp: Response) {
    && |resp.pad| == 4
    && match call
       case GetInfo(_, _, size, wantValue, _, _) => wantValue ==> |resp.value| == size
       case BufferMap(size, _) => |resp.data| == size
       case BufferRead(size, _) => |resp.data| == size
       case UsmMemcpy(size, _, _, _) => |resp.data| == size
       case UsmMemset(value, _, _, prior) => resp.data == prior || resp.data == Filled(value, |prior|)
       case Enqueue(_, _, prior) => |resp.data| == |prior|
       case _ => true
  }

  function ApiOf(call: Call): Api {
    match call
    case Plain(api) => api
    case MakeKernel(_) => KernelCreate
    case GetCount(api, _) => api
    case GetInfo(api, _, _, _, _, _) => api
    case SelectBinary => DeviceSelectBinary
    case BufferMap(_, _) => EnqueueMemBufferMap
    case BufferRead(_, _) => EnqueueMemBufferRead
    case UsmMemcpy(_, _, _, _) => UsmEnqueueMemcpy
    case UsmMemset(_, _, _, _) => UsmEnqueueMemset
    case Enqueue(api, _, _) => api
  }

  /** A value as the real plugin gives it; a query that fails leaves the caller's bytes. */
  function Given(asks: Asks, ret: I32, value: seq<Byte>): Shown {
    if ret != SUCCESS then Raw(value)
    else match asks
      case ForBytes => Raw(value)
      case ForProgram(kernel) => OwnProgram(kernel)
      case ForHandle => Live(value)
  }

  /** A recorded value as replay gives it: the recorded bytes, but a kernel's program is looked up afresh,
      whatever the recorded result was. */
  function Restored(asks: Asks, ret: I32, value: seq<Byte>): Shown {
    match asks
    case ForBytes => Raw(value)
    case ForProgram(kernel) => OwnProgram(kernel)
    case ForHandle => if ret == SUCCESS then Stale(value) else Raw(value)
  }

  /** What the application sees while recording. */
  function Seen(call: Call, resp: Response): Outcome {
    match call
    case Plain(api) => Returned(resp.ret, resp.ret == SUCCESS && (Creates(api) || api.ProgramLink?))
    case MakeKernel(_) => Returned(resp.ret, resp.ret == SUCCESS)
    case GetCount(_, wantCount) => Counted(resp.ret, if wantCount then Some(resp.count) else None)
    case GetInfo(_, asks, _, wantValue, wantSize, _) =>
      Info(resp.ret, if wantValue then Some(Given(asks, resp.ret, resp.value)) else None,
           if wantSize then Some(resp.retSize) else None)
    case SelectBinary => Selected(resp.ret, resp.selected)
    case BufferMap(_, _) => Data(resp.ret, Some(resp.data))
    case BufferRead(_, _) => Data(resp.ret, Some(resp.data))
    case UsmMemcpy(_, alloc, _, _) => Data(resp.ret, if alloc.Device? then None else Some(resp.data))
    case UsmMemset(_, alloc, _, _) => Data(resp.ret, if alloc.Device? then None else Some(resp.data))
    case Enqueue(_, _, _) => Data(resp.ret, Some(resp.data))
  }

  // ---- Recording ----

  function SmallOutputs(call: Call, resp: Response): seq<seq<Byte>> {
    match call
    case GetCount(_, wantCount) => if wantCount then [ToLE(resp.count, 4)] else []
    case GetInfo(api, _, _, wantValue, wantSize, _) =>
      if Wired(api) then
        (if wantValue then [resp.value] else []) + (if wantSize then [ToLE(resp.retSize, 8)] else [])
      else []
    case SelectBinary => [ToLE(resp.selected, 4) + resp.pad]
    case _ => []
  }

  predicate SavesMemory(call: Call, writeMem: bool) {
    match call
    case BufferMap(_, _) => writeMem
    case BufferRead(_, _) => writeMem
    case UsmMemcpy(_, alloc, _, _) => (alloc.Unknown? || alloc.Host?) && writeMem
    case _ => false
  }

  function MemName(thread: string, eventId: nat): string {
    thread + "_" + ToDecimal(eventId) + ".mem"
  }

  function MemFile(resp: Response): seq<Byte> {
    ToLE(|resp.data|, 8) + resp.data
  }

  function MakeRecord(thread: string, writeMem: bool, call: Call, resp: Response, at: Stamp): ApiCall {
    ApiCall(ApiOf(call), at.begin, at.end, ToU32(resp.ret), SmallOutputs(call, resp),
            if SavesMemory(call, writeMem) then [MemName(thread, at.eventId)] else [])
  }

  lemma SelectionsSaveNothing(mems: Files, thread: string, writeMem: bool, call: Call, resp: Response, at: Stamp)
    requires call.SelectBinary?
    ensures WriteMem(mems, thread, writeMem, call, resp, at) == mems
  {
  }

  type Files = map<string, seq<Byte>>

  function WriteMem(mems: Files, thread: string, writeMem: bool, call: Call, resp: Response, at: Stamp): Files {
    if SavesMemory(call, writeMem) then mems[MemName(thread, at.eventId) := MemFile(resp)] else mems
  }

  function TraceName(thread: string): string { thread + ".pi_trace" }

  function ContentOf(files: Files, name: string): seq<Byte> {
    if name in files then files[name] else []
  }

  function Append(files: Files, name: string, bytes: seq<Byte>): Files {
    files[name := ContentOf(files, name) + bytes]
  }

  /** Side files of different threads or events never collide, although thread names contain underscores. */
  lemma MemNameInjective(t: string, e: nat, t': string, e': nat)
    requires MemName(t, e) == MemName(t', e')
    ensures t == t' && e == e'
  {
    var n, n' := t + "_" + ToDecimal(e), t' + "_" + ToDecimal(e');
    assert MemName(t, e)[..|n|] == n && MemName(t', e')[..|n'|] == n';
    NumberedInjective(t, e, t', e');
  }

  lemma TraceNameInjective(t: string, t': string)
    requires TraceName(t) == TraceName(t')
    ensures t == t'
  {
    assert TraceName(t)[..|t|] == t && TraceName(t')[..|t'|] == t';
  }

  /** The trace directory: one trace file per thread, and the memory side files. */
  class TraceDir {
    var traces: Files
    var mems: Files

    constructor ()
      ensures traces == map[] && mems == map[]
    {
      traces, mems := map[], map[];
    }
  }

  /** The recorder of one thread. */
  class RecordHandler {
    const codec: Codec<ApiCall>
    const dir: TraceDir
    const thread: string
    const writeMem: bool
    var lastEventId: nat
    var lastApi: Api
    var timestampBegin: U64
    var timestampEnd: U64

    /** The last argument is called skipMemObjects in the source, but its callers pass, and its handlers take it, as this. */
    constructor (codec: Codec<ApiCall>, dir: TraceDir, thread: string, writeMem: bool)
      ensures this.codec == codec && this.dir == dir && this.thread == thread && this.writeMem == writeMem
    {
      this.codec, this.dir, this.thread, this.writeMem := codec, dir, thread, writeMem;
      lastEventId, lastApi, timestampBegin, timestampEnd := 0, PlatformsGet, 0, 0;
    }

    method TimestampBegin(now: U64)
      modifies this`timestampBegin
      ensures timestampBegin == now
    {
      timestampBegin := now;
    }

    method TimestampEnd(now: U64)
      modifies this`timestampEnd
      ensures timestampEnd == now
    {
      timestampEnd := now;
    }

    /** Handles the end of a call. `lostRace` says that this thread waited for the binaries mutex and lost. */
    method Handle(eventId: nat, call: Call, resp: Response, lostRace: bool)
      requires Answers(call, resp)
      modifies this`lastEventId, this`lastApi, dir
      ensures lastEventId == eventId && lastApi == ApiOf(call)
      ensures var at := Stamp(eventId, timestampBegin, timestampEnd);
              && dir.mems == WriteMem(old(dir.mems), thread, writeMem, call, resp, at)
              && dir.traces == if call.SelectBinary? && lostRace then old(dir.traces)
                               else Append(old(dir.traces), TraceName(thread),
                                           Frame(codec, MakeRecord(thread, writeMem, call, resp, at)))
    {
      hide MakeRecord, WriteMem, Answers, Frame, Append;
      lastEventId, lastApi := eventId, ApiOf(call);
      if call.SelectBinary? && lostRace {
        assert WriteMem(dir.mems, thread, writeMem, call, resp, Stamp(eventId, timestampBegin, timestampEnd)) == dir.mems by {
          SelectionsSaveNothing(dir.mems, thread, writeMem, call, resp, Stamp(eventId, timestampBegin, timestampEnd));
        }
        return;
      }
      var record := Capture(call, resp);
      dir.traces := Append(dir.traces, TraceName(thread), Frame(codec, record));
    }

    /** The handler of the entry point: what it puts into the record, and the memory it saves. */
    method Capture(call: Call, resp: Response) returns (record: ApiCall)
      requires Answers(call, resp) && lastApi == ApiOf(call)
      modifies dir`mems
      ensures var at := Stamp(lastEventId, timestampBegin, timestampEnd);
              record == MakeRecord(thread, writeMem, call, resp, at)
              && dir.mems == WriteMem(old(dir.mems), thread, writeMem, call, resp, at)
    {
      hide Answers, MemName, MemFile;
      record := ApiCall(lastApi, timestampBegin, timestampEnd, ToU32(resp.ret), [], []);
      match call {
        case GetCount(_, wantCount) =>
          if wantCount { record := record.(smallOutputs := [ToLE(resp.count, 4)]); }
        case GetInfo(api, _, _, wantValue, wantSize, _) =>
          if Wired(api) {
            if wantValue { record := record.(smallOutputs := record.smallOutputs + [resp.value]); }
            if wantSize { record := record.(smallOutputs := record.smallOutputs + [ToLE(resp.retSize, 8)]); }
          }
          assert record.smallOutputs == SmallOutputs(call, resp);
        case SelectBinary =>
          record := record.(smallOutputs := [ToLE(resp.selected, 4) + resp.pad]);
        case BufferMap(_, _) => if writeMem { record := SaveMemory(record, resp); }
        case BufferRead(_, _) => if writeMem { record := SaveMemory(record, resp); }
        case UsmMemcpy(_, alloc, _, _) =>
          if (alloc.Unknown? || alloc.Host?) && writeMem { record := SaveMemory(record, resp); }
        case _ =>
      }
    }

    method SaveMemory(record: ApiCall, resp: Response) returns (named: ApiCall)
      modifies dir`mems
      ensures dir.mems == old(dir.mems)[MemName(thread, lastEventId) := MemFile(resp)]
      ensures named == record.(memObjOutputs := [MemName(thread, lastEventId)])
    {
      var filename := thread + "_" + ToDecimal(lastEventId) + ".mem";
      dir.mems := dir.mems[filename := ToLE(|resp.data|, 8) + resp.data];
      named := record.(memObjOutputs := [filename]);
    }
  }

  // ---- Replay ----

  /** What a read at the end of the trace leaves behind: nothing was parsed, and id 0 is piPlatformsGet. */
  const BLANK := ApiCall(PlatformsGet, 0, 0, 0, [], [])

  /** Died covers exit(-1) on an unexpected record, reading outputs the record does not hold, a record cut short,
      writing through a null event pointer or past a buffer, and calling what the replay plugin does not provide. */
  datatype Reply = Ok(outcome: Outcome) | Died

  /** The function id the replay of an entry point insists on. */
  function Expected(api: Api): Api {
    if api.MemRetain? then MemImageGetInfo else api
  }

  function Answer(call: Call, record: ApiCall, mems: Files): Reply {
    var ret := ToI32(record.returnValue);
    if record.functionId != Expected(ApiOf(call)) then Died
    else match call
      case Plain(api) => if api.Unreplayed? then Died else Ok(Returned(ret, ret == SUCCESS && Creates(api)))
      case MakeKernel(_) => Ok(Returned(ret, ret == SUCCESS))
      case GetCount(_, wantCount) =>
        if !wantCount then Ok(Counted(ret, None))
        else if record.smallOutputs == [] || |record.smallOutputs[0]| < 4 then Died
        else
          U32Range(record.smallOutputs[0][..4]);
          Ok(Counted(ret, Some(FromLE(record.smallOutputs[0][..4]))))
      case GetInfo(_, asks, size, wantValue, wantSize, priorSize) =>
        if record.smallOutputs == [] || (wantValue && asks.ForProgram? && size < 8) then Died
        else if wantValue then
          Ok(Info(ret, Some(Restored(asks, ret, record.smallOutputs[0])), if wantSize then Some(priorSize) else None))
        else if wantSize && |record.smallOutputs[0]| == 8 then
          U64Range(record.smallOutputs[0]);
          Ok(Info(ret, None, Some(FromLE(record.smallOutputs[0]))))
        else Died
      case SelectBinary =>
        if record.smallOutputs == [] || |record.smallOutputs[0]| < 4 then Died
        else
          U32Range(record.smallOutputs[0][..4]);
          Ok(Selected(ret, FromLE(record.smallOutputs[0][..4])))
      case BufferMap(_, event) =>
        (match SavedMemory(record, mems)
         case None => Died
         case Some(file) =>
           var objSize := FromLE(file[..8]);
           if |file| - 8 < objSize || !event then Died else Ok(Data(ret, Some(file[8..8 + objSize]))))
      case BufferRead(size, event) =>
        (match SavedMemory(record, mems)
         case None => Died
         case Some(file) => if |file| - 8 < size || !event then Died else Ok(Data(ret, Some(file[8..8 + size]))))
      case UsmMemcpy(size, alloc, event, prior) =>
        if !event then Died
        else if record.memObjOutputs == [] then Ok(Data(ret, if alloc.Device? then None else Some(prior)))
        else (match SavedMemory(record, mems)
          case None => Died
          case Some(file) =>
            if |file| - 8 < size then Died
            else Ok(Data(ret, if alloc.Device? then None else Some(file[8..8 + size]))))
      case UsmMemset(_, alloc, event, prior) =>
        if event then Ok(Data(ret, if alloc.Device? then None else Some(prior))) else Died
      case Enqueue(_, event, prior) => if event then Ok(Data(ret, Some(prior))) else Died
  }

  /** Only a record of a binary selection makes replay report a selection. */
  lemma SelectionNeedsItsRecord(call: Call, record: ApiCall, mems: Files)
    requires Answer(call, record, mems).Ok? && Answer(call, record, mems).outcome.Selected?
    ensures record.functionId.DeviceSelectBinary?
  {
    hide SavedMemory;
  }

  /** The first side file of the record, if it exists and holds at least its size field. */
  function SavedMemory(record: ApiCall, mems: Files): (file: Option<seq<Byte>>)
    ensures file.Some? ==> |file.value| >= 8
  {
    if record.memObjOutputs == [] || record.memObjOutputs[0] !in mems then None
    else if |mems[record.memObjOutputs[0]]| < 8 then None
    else Some(mems[record.memObjOutputs[0]])
  }

  lemma {:induction false} LERange(s: seq<Byte>)
    ensures FromLE(s) < Bound(|s|)
  {
    if s != [] { LERange(s[1..]); }
  }

  lemma U32Range(s: seq<Byte>)
    requires |s| == 4
    ensures FromLE(s) <= U32_MAX
  {
    LERange(s);
    Bounds();
  }

  lemma U64Range(s: seq<Byte>)
    requires |s| == 8
    ensures FromLE(s) <= U64_MAX
  {
    LERange(s);
    Bounds();
  }

  /** When the record of a call lets replay show the caller what it saw while recording. */
  predicate Faithful(call: Call, resp: Response, writeMem: bool) {
    match call
    case Plain(api) => !api.MemRetain? && !api.Unreplayed? && (api.ProgramLink? ==> resp.ret != SUCCESS)
    case MakeKernel(_) => true
    case GetCount(_, _) => true
    case GetInfo(api, asks, size, wantValue, wantSize, priorSize) =>
      && Wired(api)
      && (wantValue || wantSize)
      && (wantValue && asks.ForHandle? ==> resp.ret != SUCCESS)
      && (wantValue && asks.ForProgram? ==> resp.ret == SUCCESS && size >= 8)
      && (wantValue && wantSize ==> priorSize == resp.retSize)
    case SelectBinary => true
    case BufferMap(_, event) => writeMem && event
    case BufferRead(_, event) => writeMem && event
    case UsmMemcpy(_, alloc, event, prior) =>
      event && (alloc.Device? || SavesMemory(call, writeMem) || prior == resp.data)
    case UsmMemset(_, alloc, event, prior) => event && (alloc.Device? || prior == resp.data)
    case Enqueue(_, event, prior) => event && prior == resp.data
  }

  lemma MemoryReplayExact(thread: string, writeMem: bool, call: Call, resp: Response, at: Stamp, mems: Files)
    requires call.BufferMap? || call.BufferRead? || call.UsmMemcpy?
    requires WellFormed(call) && Answers(call, resp)
    requires SavesMemory(call, writeMem) ==>
               MemName(thread, at.eventId) in mems && mems[MemName(thread, at.eventId)] == MemFile(resp)
    ensures Answer(call, MakeRecord(thread, writeMem, call, resp, at), mems) == Ok(Seen(call, resp))
            <==> Faithful(call, resp, writeMem)
  {
    hide MemName, ToU32, ToI32;
    ResultReturns(resp.ret);
    MemFileParts(resp);
    hide MemFile;
  }

  lemma OutputReplayExact(thread: string, writeMem: bool, call: Call, resp: Response, at: Stamp, mems: Files)
    requires call.GetCount? || call.GetInfo? || call.SelectBinary?
    requires WellFormed(call) && Answers(call, resp)
    ensures Answer(call, MakeRecord(thread, writeMem, call, resp, at), mems) == Ok(Seen(call, resp))
            <==> Faithful(call, resp, writeMem)
  {
    hide ToU32, ToI32, MemName, MemFile, SavedMemory, ToLE, FromLE;
    ResultReturns(resp.ret);
    if call.GetCount? {
      assert ToLE(resp.count, 4)[..4] == ToLE(resp.count, 4);
      U32RoundTrip(resp.count);
    } else if call.GetInfo? {
      U64RoundTrip(resp.retSize);
    } else {
      assert (ToLE(resp.selected, 4) + resp.pad)[..4] == ToLE(resp.selected, 4);
      U32RoundTrip(resp.selected);
    }
  }

  lemma ResultReturns(ret: I32)
    ensures ToI32(ToU32(ret)) == ret
  {
  }

  /** Replaying a call from its own record shows the recorded outcome exactly for the faithful calls. */
  lemma ReplayExact(thread: string, writeMem: bool, call: Call, resp: Response, at: Stamp, mems: Files)
    requires WellFormed(call) && Answers(call, resp)
    requires SavesMemory(call, writeMem) ==>
               MemName(thread, at.eventId) in mems && mems[MemName(thread, at.eventId)] == MemFile(resp)
    ensures Answer(call, MakeRecord(thread, writeMem, call, resp, at), mems) == Ok(Seen(call, resp))
            <==> Faithful(call, resp, writeMem)
  {
    if call.BufferMap? || call.BufferRead? || call.UsmMemcpy? {
      MemoryReplayExact(thread, writeMem, call, resp, at, mems);
    } else if call.GetCount? || call.GetInfo? || call.SelectBinary? {
      OutputReplayExact(thread, writeMem, call, resp, at, mems);
    } else {
      hide ToU32, ToI32, MemName, MemFile, SavedMemory, ToLE;
      ResultReturns(resp.ret);
    }
  }

  /** The calls that replay repeats whatever the plugin answered: a caller can tell before the call. */
  predicate Guarded(call: Call, writeMem: bool) {
    match call
    case Plain(api) => !api.MemRetain? && !api.Unreplayed? && !api.ProgramLink?
    case MakeKernel(_) => true
    case GetCount(_, _) => true
    case GetInfo(api, asks, _, wantValue, wantSize, _) =>
      Wired(api) && wantValue != wantSize && (wantValue ==> asks.ForBytes?)
    case SelectBinary => true
    case BufferMap(_, event) => writeMem && event
    case BufferRead(_, event) => writeMem && event
    case UsmMemcpy(size, alloc, event, _) => event && (alloc.Device? || SavesMemory(call, writeMem) || size == 0)
    case UsmMemset(value, alloc, event, prior) => event && (alloc.Device? || forall k :: 0 <= k < |prior| ==> prior[k] == value)
    case Enqueue(_, event, prior) => event && prior == []
  }

  /** All answers to a call are repeated exactly when the call is guarded. */
  lemma GuardExact(call: Call, writeMem: bool)
    requires WellFormed(call)
    ensures (forall resp :: Answers(call, resp) ==> Faithful(call, resp, writeMem)) <==> Guarded(call, writeMem)
  {
    if Guarded(call, writeMem) {
      if call.UsmMemset? && !call.alloc.Device? { assert Filled(call.value, |call.prior|) == call.prior; }
    } else {
      var resp := Spoiler(call);
      SpoilerDiffers(call);
      assert Answers(call, resp) && !Faithful(call, resp, writeMem);
    }
  }

  /** An answer that replay does not repeat, if there is one. */
  function Spoiler(call: Call): (resp: Response)
    requires WellFormed(call)
    ensures Answers(call, resp)
  {
    var blank := Response(SUCCESS, 0, [], 0, 0, seq(4, _ => 0), []);
    match call
    case GetInfo(_, asks, size, _, _, priorSize) =>
      blank.(ret := if asks.ForProgram? then -1 else SUCCESS, value := seq(size, _ => 0), retSize := if priorSize == 0 then 1 else 0)
    case BufferMap(size, _) => blank.(data := seq(size, _ => 0))
    case BufferRead(size, _) => blank.(data := seq(size, _ => 0))
    case UsmMemcpy(_, _, _, prior) => blank.(data := Altered(prior))
    case UsmMemset(value, _, _, prior) => blank.(data := Filled(value, |prior|))
    case Enqueue(_, _, prior) => blank.(data := Altered(prior))
    case _ => blank
  }

  function Altered(s: seq<Byte>): (t: seq<Byte>)
    ensures |t| == |s|
    ensures s != [] ==> t != s
  {
    if s == [] then [] else [if s[0] == 0 then 1 else 0] + s[1..]
  }

  lemma SpoilerDiffers(call: Call)
    requires WellFormed(call)
    ensures call.UsmMemset? && (exists k :: 0 <= k < |call.prior| && call.prior[k] != call.value) ==>
              Spoiler(call).data != call.prior
  {
    if call.UsmMemset? {
      if k :| 0 <= k < |call.prior| && call.prior[k] != call.value {
        assert Spoiler(call).data[k] == call.value;
      }
    }
  }

  lemma MemFileParts(resp: Response)
    requires |resp.data| <= U64_MAX
    ensures |MemFile(resp)| == 8 + |resp.data| && FromLE(MemFile(resp)[..8]) == |resp.data|
    ensures MemFile(resp)[8..8 + |resp.data|] == resp.data
  {
    assert MemFile(resp)[..8] == ToLE(|resp.data|, 8);
    U64RoundTrip(|resp.data|);
  }

  // ---- Every kind of call, spelled out ----

  /** Replaying a call from the record and the side file that recording it left. */
  function Again(thread: string, writeMem: bool, call: Call, resp: Response, at: Stamp, mems: Files): Reply {
    Answer(call, MakeRecord(thread, writeMem, call, resp, at), WriteMem(mems, thread, writeMem, call, resp, at))
  }

  /** Copies into host memory, registered or not, come back; those into device memory show nothing, those into shared
      memory the old content. Without an event replay dies. */
  lemma CopiesAgain(thread: string, size: U64, prior: seq<Byte>, event: bool, resp: Response, at: Stamp, mems: Files)
    requires |prior| == |resp.data| == size
    ensures forall alloc :: alloc == Host || alloc == Unknown ==>
              Again(thread, true, UsmMemcpy(size, alloc, event, prior), resp, at, mems)
              == (if event then Ok(Data(resp.ret, Some(resp.data))) else Died)
    ensures Again(thread, true, UsmMemcpy(size, Shared, event, prior), resp, at, mems)
            == (if event then Ok(Data(resp.ret, Some(prior))) else Died)
    ensures forall writeMem :: Again(thread, writeMem, UsmMemcpy(size, Device, event, prior), resp, at, mems)
                               == (if event then Ok(Data(resp.ret, None)) else Died)
    ensures forall alloc :: alloc != Device ==>
              Again(thread, false, UsmMemcpy(size, alloc, event, prior), resp, at, mems)
              == (if event then Ok(Data(resp.ret, Some(prior))) else Died)
  {
    hide MemName, MemFile, ToU32, ToI32;
    ResultReturns(resp.ret);
    MemFileParts(resp);
  }

  /** Mapped and read buffers come back when memory is saved and an event was asked for; else replay dies. */
  lemma BuffersAgain(thread: string, writeMem: bool, size: U64, event: bool, resp: Response, at: Stamp, mems: Files)
    requires |resp.data| == size
    ensures Again(thread, writeMem, BufferMap(size, event), resp, at, mems)
            == Again(thread, writeMem, BufferRead(size, event), resp, at, mems)
            == if writeMem && event then Ok(Data(resp.ret, Some(resp.data))) else Died
  {
    hide MemName, MemFile, ToU32, ToI32;
    ResultReturns(resp.ret);
    MemFileParts(resp);
  }

  predicate HasHandler(api: Api) {
    api in {PlatformGetInfo, DeviceGetInfo, ContextGetInfo, KernelGetInfo, KernelGetGroupInfo}
  }

  /** The five queries with a handler give back the recorded bytes, or the recorded size when only that is asked for;
      with both pointers the size is left alone, and with neither replay dies. */
  lemma QueriesAgain(thread: string, writeMem: bool, api: Api, asks: Asks, size: U64, prior: U64, resp: Response, at: Stamp, mems: Files)
    requires HasHandler(api)
    ensures Again(thread, writeMem, GetInfo(api, ForBytes, size, true, false, prior), resp, at, mems)
            == Ok(Info(resp.ret, Some(Raw(resp.value)), None))
    ensures Again(thread, writeMem, GetInfo(api, ForBytes, size, true, true, prior), resp, at, mems)
            == Ok(Info(resp.ret, Some(Raw(resp.value)), Some(prior)))
    ensures Again(thread, writeMem, GetInfo(api, asks, size, false, true, prior), resp, at, mems)
            == Ok(Info(resp.ret, None, Some(resp.retSize)))
    ensures Again(thread, writeMem, GetInfo(api, asks, size, false, false, prior), resp, at, mems) == Died
  {
    hide ToU32, ToI32, ToLE, FromLE;
    ResultReturns(resp.ret);
    U64RoundTrip(resp.retSize);
  }

  /** A query for a kernel's program gives the process's own one, whatever was recorded; for any other handle it gives
      the recorded address. */
  lemma HandleQueriesAgain(thread: string, writeMem: bool, api: Api, kernel: Handles.Name, size: U64, prior: U64, resp: Response,
                           at: Stamp, mems: Files)
    requires HasHandler(api)
    ensures Again(thread, writeMem, GetInfo(KernelGetInfo, ForProgram(kernel), size, true, false, prior), resp, at, mems)
            == if size < 8 then Died else Ok(Info(resp.ret, Some(OwnProgram(kernel)), None))
    ensures Again(thread, writeMem, GetInfo(api, ForHandle, size, true, false, prior), resp, at, mems)
            == Ok(Info(resp.ret, Some(if resp.ret == 0 then Stale(resp.value) else Raw(resp.value)), None))
  {
    hide ToU32, ToI32, ToLE, FromLE;
    ResultReturns(resp.ret);
  }

  /** The other four queries die on replay, whatever is asked. */
  lemma UnhandledQueriesDie(thread: string, writeMem: bool, api: Api, asks: Asks, size: U64, value: bool, wantSize: bool, prior: U64,
                            resp: Response, at: Stamp, mems: Files)
    requires api in {QueueGetInfo, MemGetInfo, MemImageGetInfo, ProgramGetInfo}
    ensures Again(thread, writeMem, GetInfo(api, asks, size, value, wantSize, prior), resp, at, mems) == Died
  {
  }

  /** Counts and selections come back. */
  lemma CountsAgain(thread: string, writeMem: bool, api: Api, resp: Response, at: Stamp, mems: Files)
    requires api == PlatformsGet || api == DevicesGet
    ensures Again(thread, writeMem, GetCount(api, true), resp, at, mems) == Ok(Counted(resp.ret, Some(resp.count)))
    ensures Again(thread, writeMem, GetCount(api, false), resp, at, mems) == Ok(Counted(resp.ret, None))
    ensures Again(thread, writeMem, SelectBinary, resp, at, mems) == Ok(Selected(resp.ret, resp.selected))
  {
    hide ToU32, ToI32, ToLE, FromLE;
    ResultReturns(resp.ret);
    assert ToLE(resp.count, 4)[..4] == ToLE(resp.count, 4);
    U32RoundTrip(resp.count);
    assert (ToLE(resp.selected, 4) + resp.pad)[..4] == ToLE(resp.selected, 4);
    U32RoundTrip(resp.selected);
  }

  /** Results come back, creations leave an object when they succeeded, a link leaves none, and piMemRetain and
      whatever replay does not provide die. */
  lemma ResultsAgain(thread: string, writeMem: bool, call: Simple, id: nat, program: Handles.Name, resp: Response, at: Stamp, mems: Files)
    ensures Again(thread, writeMem, Plain(ResultOnly(call)), resp, at, mems) == Ok(Returned(resp.ret, false))
    ensures forall api ::
              api in {ContextCreate, QueueCreate, MemBufferCreate, ProgramCreate, ProgramCreateWithBinary, UsmHostAlloc, UsmDeviceAlloc} ==>
                Again(thread, writeMem, Plain(api), resp, at, mems) == Ok(Returned(resp.ret, resp.ret == 0))
    ensures Again(thread, writeMem, MakeKernel(program), resp, at, mems) == Ok(Returned(resp.ret, resp.ret == 0))
    ensures Again(thread, writeMem, Plain(ProgramLink), resp, at, mems) == Ok(Returned(resp.ret, false))
    ensures Again(thread, writeMem, Plain(MemRetain), resp, at, mems) == Died
    ensures Again(thread, writeMem, Plain(Unreplayed(id)), resp, at, mems) == Died
  {
    hide ToU32, ToI32;
    ResultReturns(resp.ret);
  }

  /** What kernels and memsets wrote is not restored; without an event they die. */
  lemma WritesAgain(thread: string, writeMem: bool, api: Api, value: Byte, event: bool, prior: seq<Byte>, resp: Response, at: Stamp, mems: Files)
    requires api in {EnqueueKernelLaunch, EnqueueMemUnmap, EnqueueEventsWait, EnqueueEventsWaitWithBarrier}
    ensures Again(thread, writeMem, Enqueue(api, event, prior), resp, at, mems)
            == if event then Ok(Data(resp.ret, Some(prior))) else Died
    ensures forall alloc :: Again(thread, writeMem, UsmMemset(value, alloc, event, prior), resp, at, mems)
                            == if event then Ok(Data(resp.ret, if alloc == Device then None else Some(prior))) else Died
  {
    hide ToU32, ToI32;
    ResultReturns(resp.ret);
  }

  /** A record carries the entry point, the two times and the result of its call. */
  lemma RecordCarries(thread: string, writeMem: bool, call: Call, resp: Response, at: Stamp)
    ensures var record := MakeRecord(thread, writeMem, call, resp, at);
            record.functionId == ApiOf(call) && record.timeStart == at.begin && record.timeEnd == at.end && ToI32(record.returnValue) == resp.ret
  {
    hide SmallOutputs, SavesMemory;
  }

  /** The outputs in a record: a count in four bytes, a selection in the eight bytes from its address on, a query's value
      as it is and then its size in eight bytes. */
  lemma OutputSizes(api: Api, asks: Asks, size: U64, p: U64, resp: Response)
    requires HasHandler(api) && |resp.pad| == 4
    ensures SmallOutputs(GetCount(PlatformsGet, true), resp) == SmallOutputs(GetCount(DevicesGet, true), resp) == [ToLE(resp.count, 4)]
    ensures var outputs := SmallOutputs(SelectBinary, resp);
            |outputs| == 1 && |outputs[0]| == 8 && outputs[0][..4] == ToLE(resp.selected, 4)
    ensures SmallOutputs(GetInfo(api, asks, size, true, true, p), resp) == [resp.value, ToLE(resp.retSize, 8)]
  {
    hide ToLE;
  }

  /** The entry point of each kind of call. */
  lemma EntryPoints(api: Api, size: U64, event: bool, alloc: AllocType, value: Byte, prior: seq<Byte>, program: Handles.Name,
                    asks: Asks, v: bool, w: bool, p: U64)
    ensures ApiOf(Plain(api)) == ApiOf(GetCount(api, v)) == ApiOf(GetInfo(api, asks, size, v, w, p)) == ApiOf(Enqueue(api, event, prior)) == api
    ensures ApiOf(MakeKernel(program)) == KernelCreate && ApiOf(SelectBinary) == DeviceSelectBinary
    ensures ApiOf(BufferMap(size, event)) == EnqueueMemBufferMap && ApiOf(BufferRead(size, event)) == EnqueueMemBufferRead
    ensures ApiOf(UsmMemcpy(size, alloc, event, prior)) == UsmEnqueueMemcpy
    ensures ApiOf(UsmMemset(value, alloc, event, prior)) == UsmEnqueueMemset
  {
  }

  /** Replay of a call dies at the record of any other entry point; that of piMemRetain takes piMemImageGetInfo for its own. */
  lemma ForeignRecordsDie(call: Call, record: ApiCall, mems: Files)
    requires WellFormed(call)
    ensures call != Plain(MemRetain) && record.functionId != ApiOf(call) ==> Answer(call, record, mems) == Died
    ensures Answer(Plain(MemRetain), record, mems) != Died <==> record.functionId == MemImageGetInfo
  {
    hide SmallOutputs, SavesMemory, SavedMemory;
  }

  /** What the program saw while recording is the plugin's answer itself. */
  lemma SeenIsTheAnswer(api: Api, call: Simple, kernel: Handles.Name, size: U64, event: bool, value: Byte, prior: seq<Byte>, p: U64, resp: Response)
    requires HasHandler(api)
    ensures Seen(Plain(ResultOnly(call)), resp) == Returned(resp.ret, false)
    ensures forall made ::
              made in {ContextCreate, QueueCreate, MemBufferCreate, ProgramCreate, ProgramCreateWithBinary, UsmHostAlloc, UsmDeviceAlloc, ProgramLink} ==>
                Seen(Plain(made), resp) == Returned(resp.ret, resp.ret == 0)
    ensures Seen(MakeKernel(kernel), resp) == Returned(resp.ret, resp.ret == 0)
    ensures Seen(GetCount(PlatformsGet, true), resp) == Seen(GetCount(DevicesGet, true), resp) == Counted(resp.ret, Some(resp.count))
    ensures Seen(GetInfo(api, ForBytes, size, true, true, p), resp) == Info(resp.ret, Some(Raw(resp.value)), Some(resp.retSize))
    ensures Seen(SelectBinary, resp) == Selected(resp.ret, resp.selected)
    ensures Seen(BufferMap(size, event), resp) == Seen(BufferRead(size, event), resp) == Seen(UsmMemcpy(size, Host, event, prior), resp)
            == Seen(UsmMemcpy(size, Unknown, event, prior), resp) == Seen(UsmMemcpy(size, Shared, event, prior), resp)
            == Seen(UsmMemset(value, Host, event, prior), resp) == Seen(Enqueue(EnqueueKernelLaunch, event, prior), resp)
            == Data(resp.ret, Some(resp.data))
    ensures Seen(UsmMemcpy(size, Device, event, prior), resp) == Data(resp.ret, None)
  {
  }

  /** Memory the program can read but the recorder does not save: a copy into shared memory, a memset of host
      memory and a kernel that writes either show the old content on replay. */
  lemma VisibleMemoryIsNotReplayed(prior: seq<Byte>, data: seq<Byte>)
    requires |prior| == |data| <= U64_MAX && prior != data
    ensures var resp := Response(SUCCESS, 0, [], 0, 0, [0, 0, 0, 0], data);
            && Unrepeated(UsmMemcpy(|prior|, Shared, true, prior), resp)
            && Unrepeated(Enqueue(EnqueueKernelLaunch, true, prior), resp)
            && (forall value :: data == Filled(value, |data|) ==> Unrepeated(UsmMemset(value, Host, true, prior), resp))
  {
    var resp := Response(SUCCESS, 0, [], 0, 0, [0, 0, 0, 0], data);
    assert Answers(UsmMemcpy(|prior|, Shared, true, prior), resp);
  }

  /** A call with this answer is not repeated, although memory is being saved. */
  predicate Unrepeated(call: Call, resp: Response) {
    WellFormed(call) && Answers(call, resp) && !Faithful(call, resp, true)
  }

  /** The replay plugin on one thread: its stream is opened on the first call and advances with each. */
  class ReplayThread {
    const codec: Codec<ApiCall>
    const dir: TraceDir
    const thread: string
    var stream: Option<seq<Byte>>
    var pos: nat

    ghost predicate Valid()
      reads this, dir
    {
      && (stream.Some? ==> stream.value == ContentOf(dir.traces, TraceName(thread)))
      && (stream.None? ==> pos == 0)
      && pos <= |ContentOf(dir.traces, TraceName(thread))|
    }

    constructor (codec: Codec<ApiCall>, dir: TraceDir, thread: string)
      ensures Valid() && this.codec == codec && this.dir == dir && this.thread == thread && pos == 0
    {
      this.codec, this.dir, this.thread := codec, dir, thread;
      stream, pos := None, 0;
    }

    method EnsureTraceOpened()
      requires Valid()
      modifies this
      ensures Valid() && pos == old(pos) && stream.Some?
    {
      if stream.None? {
        stream := Some(ContentOf(dir.traces, TraceName(thread)));
      }
    }

    /** Any replayed entry point: next record, id check, then the outputs of that kind of call. */
    method Replay(call: Call) returns (reply: Reply)
      requires Valid()
      modifies this
      ensures Valid()
      ensures (reply, pos) == ReplayCall(codec, ContentOf(dir.traces, TraceName(thread)), old(pos), call, dir.mems)
    {
      EnsureTraceOpened();
      var mems := dir.mems;
      match ReadRecord(codec, stream.value, pos) {
        case Got(record, next) =>
          pos := next;
          if record.functionId != Expected(ApiOf(call)) {
            return Died;
          }
          reply := Answer(call, record, mems);
        case _ =>
          reply := if pos == |stream.value| then Answer(call, BLANK, mems) else Died;
      }
    }
  }

  /** One replayed call as a function of the thread's file and cursor. */
  function ReplayCall(c: Codec<ApiCall>, file: seq<Byte>, pos: nat, call: Call, mems: Files): (r: (Reply, nat))
    requires pos <= |file|
    ensures pos <= r.1 <= |file|
  {
    match ReadRecord(c, file, pos)
    case Got(record, next) => (Answer(call, record, mems), next)
    case _ => (if pos == |file| then Answer(call, BLANK, mems) else Died, pos)
  }

  /** At the end of the trace replay dies, but for a call of piPlatformsGet that asks for no count: that one succeeds. */
  lemma PastTheEnd(c: Codec<ApiCall>, file: seq<Byte>, call: Call, mems: Files)
    requires WellFormed(call)
    ensures ReplayCall(c, file, |file|, call, mems)
            == (if call == GetCount(PlatformsGet, false) then Ok(Counted(0, None)) else Died, |file|)
  {
  }
}
