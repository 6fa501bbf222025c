// The graph recorder: one event per id, created once, then timed by the task callbacks that follow.
module GraphDump {
  import opened Bytes
  import opened TraceFraming
  import opened Wrappers

  datatype Kind = NodeCreate | EdgeCreate | TaskBegin | TaskEnd

  /** A callback, with the time taken on entry; `id` is 0 when there is no event. */
  datatype Callback = Callback(kind: Kind, id: int, time: U64, source: int, target: int, metadata: seq<(string, string)>)

  datatype GraphEvent = GraphEvent(id: int, edge: bool, ends: Option<(int, int)>, created: U64,
                                   start: Option<U64>, end: Option<U64>, metadata: seq<(string, string)>)

  // ---- The simple view: every id on its own ----

  /** The event a callback creates: anything but an edge is a node, even a task end. */
  function Made(cb: Callback): GraphEvent {
    GraphEvent(cb.id, cb.kind.EdgeCreate?, if cb.kind.EdgeCreate? then Some((cb.source, cb.target)) else None,
               cb.time, None, None, cb.metadata)
  }

  function Timed(e: GraphEvent, cb: Callback): GraphEvent {
    match cb.kind
    case TaskBegin => e.(start := Some(cb.time))
    case TaskEnd => e.(end := Some(cb.time))
    case _ => e
  }

  /** What became of one id: a task begin never creates, everything else does the first time. */
  function Life(cbs: seq<Callback>, id: int): (e: Option<GraphEvent>)
    ensures e.Some? ==> e.value.id == id
  {
    if cbs == [] then None
    else
      var before, cb := Life(cbs[..|cbs| - 1], id), cbs[|cbs| - 1];
      if cb.id != id then before
      else if before.Some? then Some(Timed(before.value, cb))
      else if cb.kind.TaskBegin? then None
      else Some(Made(cb))
  }

  /** The ids in the order in which they were created. */
  function Order(cbs: seq<Callback>): seq<int> {
    if cbs == [] then []
    else
      var before, cb := cbs[..|cbs| - 1], cbs[|cbs| - 1];
      if Life(before, cb.id).None? && !cb.kind.TaskBegin? then Order(before) + [cb.id] else Order(before)
  }

  lemma Append(cbs: seq<Callback>, cb: Callback)
    ensures Order(cbs + [cb])
            == if Life(cbs, cb.id).None? && !cb.kind.TaskBegin? then Order(cbs) + [cb.id] else Order(cbs)
    ensures forall id :: id != cb.id ==> Life(cbs + [cb], id) == Life(cbs, id)
    ensures Life(cbs + [cb], cb.id)
            == if Life(cbs, cb.id).Some? then Some(Timed(Life(cbs, cb.id).value, cb))
               else if cb.kind.TaskBegin? then None else Some(Made(cb))
  {
    assert (cbs + [cb])[..|cbs|] == cbs;
  }

  predicate Distinct(ids: seq<int>) {
    forall i, j :: 0 <= i < j < |ids| ==> ids[i] != ids[j]
  }

  /** Exactly the ids with an event are listed, each once. */
  lemma {:induction false} OrderIsTheIds(cbs: seq<Callback>)
    ensures Distinct(Order(cbs))
    ensures forall id :: id in Order(cbs) <==> Life(cbs, id).Some?
  {
    hide Timed, Made;
    if cbs != [] {
      var n := |cbs| - 1;
      OrderIsTheIds(cbs[..n]);
      Append(cbs[..n], cbs[n]);
      assert cbs == cbs[..n] + [cbs[n]];
    }
  }

  /** The events of a run, in the order of creation. */
  function Events(cbs: seq<Callback>): (es: seq<GraphEvent>)
    ensures |es| == |Order(cbs)|
    ensures forall k :: 0 <= k < |es| ==> Life(cbs, Order(cbs)[k]) == Some(es[k])
  {
    OrderIsTheIds(cbs);
    var order := Order(cbs);
    seq(|order|, k requires 0 <= k < |order| => assert order[k] in order; Life(cbs, order[k]).value)
  }

  predicate Makes(cb: Callback, id: int) {
    cb.id == id && !cb.kind.TaskBegin?
  }

  /** The time of the last callback of a kind for an id. */
  function LastTime(cbs: seq<Callback>, id: int, kind: Kind): Option<U64> {
    if cbs == [] then None
    else
      var cb := cbs[|cbs| - 1];
      if cb.id == id && cb.kind == kind then Some(cb.time) else LastTime(cbs[..|cbs| - 1], id, kind)
  }

  /** The event that the callback at c created, timed by the last task callbacks after c. */
  function TimedSince(cbs: seq<Callback>, id: int, c: nat): GraphEvent
    requires c < |cbs|
  {
    Made(cbs[c]).(start := LastTime(cbs[c + 1..], id, TaskBegin), end := LastTime(cbs[c + 1..], id, TaskEnd))
  }

  predicate MadeFirstAt(cbs: seq<Callback>, id: int, c: nat) {
    c < |cbs| && Makes(cbs[c], id) && forall k :: 0 <= k < c ==> !Makes(cbs[k], id)
  }

  lemma TimedSinceAppend(cbs: seq<Callback>, id: int, c: nat, cb: Callback)
    requires c < |cbs|
    ensures TimedSince(cbs + [cb], id, c)
            == if cb.id == id then Timed(TimedSince(cbs, id, c), cb) else TimedSince(cbs, id, c)
  {
    var after := (cbs + [cb])[c + 1..];
    assert after == cbs[c + 1..] + [cb];
    assert after[..|after| - 1] == cbs[c + 1..];
  }

  /** An id's event is the one its first creating callback made; its start and end are those of the last
      task callback after that. Task callbacks that come too early leave no time behind. */
  lemma {:induction false} LifeIsTimedSince(cbs: seq<Callback>, id: int)
    ensures Life(cbs, id).None? <==> forall k :: 0 <= k < |cbs| ==> !Makes(cbs[k], id)
    ensures forall c: nat :: MadeFirstAt(cbs, id, c) ==> Life(cbs, id) == Some(TimedSince(cbs, id, c))
  {
    if cbs != [] {
      var n := |cbs| - 1;
      var before, cb := cbs[..n], cbs[n];
      assert cbs == before + [cb];
      LifeIsTimedSince(before, id);
      forall c: nat | MadeFirstAt(cbs, id, c) ensures Life(cbs, id) == Some(TimedSince(cbs, id, c)) {
        if c < n {
          assert MadeFirstAt(before, id, c);
          TimedSinceAppend(before, id, c, cb);
        } else {
          assert Life(before, id).None?;
          assert cbs[c + 1..] == [];
        }
      }
    }
  }

  /** What the first creating callback of an id leaves in its event, whatever comes later: the time and the metadata,
      and for an edge, and only for an edge, its source and its target. */
  lemma EventMeans(cbs: seq<Callback>, id: int, c: nat)
    requires MadeFirstAt(cbs, id, c)
    ensures Life(cbs, id).Some?
    ensures var e, cb := Life(cbs, id).value, cbs[c];
            && e.id == cb.id && e.created == cb.time && e.metadata == cb.metadata
            && (e.edge <==> cb.kind == EdgeCreate)
            && e.ends == (if cb.kind == EdgeCreate then Some((cb.source, cb.target)) else None)
  {
    LifeIsTimedSince(cbs, id);
    hide Life;
  }

  /** Any callback but a task begin gives its id an event. */
  lemma HasEvent(cbs: seq<Callback>, id: int)
    ensures Life(cbs, id).Some? <==> exists k :: 0 <= k < |cbs| && cbs[k].id == id && cbs[k].kind != TaskBegin
  {
    LifeIsTimedSince(cbs, id);
    hide Life;
  }

  lemma {:induction false} KeepsTimes(before: seq<Callback>, mid: seq<Callback>, id: int)
    requires Life(before, id).Some?
    ensures Life(before + mid, id).Some?
    ensures (forall k :: 0 <= k < |mid| && mid[k].id == id ==> mid[k].kind != TaskBegin) ==>
              Life(before + mid, id).value.start == Life(before, id).value.start
    ensures (forall k :: 0 <= k < |mid| && mid[k].id == id ==> mid[k].kind != TaskEnd) ==>
              Life(before + mid, id).value.end == Life(before, id).value.end
  {
    if mid == [] {
      assert before + mid == before;
    } else {
      var n := |mid| - 1;
      KeepsTimes(before, mid[..n], id);
      assert before + mid == before + mid[..n] + [mid[n]];
      assert forall k :: 0 <= k < n ==> mid[..n][k] == mid[k];
      Append(before + mid[..n], mid[n]);
      hide Life;
    }
  }

  /** A task callback on an id that has an event sets its own time and leaves the other one alone, and the time stays
      until the next callback of the kind. */
  lemma TimeIsSet(before: seq<Callback>, cb: Callback, mid: seq<Callback>)
    requires Life(before, cb.id).Some?
    requires forall k :: 0 <= k < |mid| && mid[k].id == cb.id ==> mid[k].kind != cb.kind
    ensures Life(before + [cb] + mid, cb.id).Some?
    ensures var e := Life(before + [cb] + mid, cb.id).value;
            (cb.kind == TaskBegin ==> e.start == Some(cb.time)) && (cb.kind == TaskEnd ==> e.end == Some(cb.time))
  {
    Append(before, cb);
    hide Life;
    KeepsTimes(before + [cb], mid, cb.id);
  }

  /** The callbacks got the lock in the order of their timestamps. */
  predicate Serialised(cbs: seq<Callback>) {
    forall i, j :: 0 <= i <= j < |cbs| ==> cbs[i].time <= cbs[j].time
  }

  lemma {:induction false} LastTimeOf(cbs: seq<Callback>, id: int, kind: Kind)
    ensures LastTime(cbs, id, kind).Some? ==> exists k :: 0 <= k < |cbs| && cbs[k].time == LastTime(cbs, id, kind).value
  {
    if cbs != [] {
      var n := |cbs| - 1;
      LastTimeOf(cbs[..n], id, kind);
      assert forall k :: 0 <= k < n ==> cbs[..n][k] == cbs[k];
    }
  }

  /** No event starts or ends before it was created, as long as the callbacks are serialised. */
  lemma NoTimeBeforeCreation(cbs: seq<Callback>, id: int)
    requires Serialised(cbs) && Life(cbs, id).Some?
    ensures var e := Life(cbs, id).value;
            && (e.start.Some? ==> e.created <= e.start.value)
            && (e.end.Some? ==> e.created <= e.end.value)
  {
    hide Life, LastTime;
    LifeIsTimedSince(cbs, id);
    var c := FirstMade(cbs, id);
    LastTimeOf(cbs[c + 1..], id, TaskBegin);
    LastTimeOf(cbs[c + 1..], id, TaskEnd);
  }

  function FirstMade(cbs: seq<Callback>, id: int): (c: nat)
    requires exists k :: 0 <= k < |cbs| && Makes(cbs[k], id)
    ensures MadeFirstAt(cbs, id, c)
  {
    if Makes(cbs[0], id) then 0
    else
      assert forall k :: 1 <= k < |cbs| ==> cbs[k] == cbs[1..][k - 1];
      1 + FirstMade(cbs[1..], id)
  }

  // ---- The shared graph ----

  /** The message of one event; only its times change after creation. */
  class Event {
    const id: int
    const edge: bool
    const ends: Option<(int, int)>
    const created: U64
    const metadata: seq<(string, string)>
    var start: Option<U64>
    var end: Option<U64>

    constructor (cb: Callback)
      ensures Value() == Made(cb)
    {
      id, created, metadata := cb.id, cb.time, cb.metadata;
      edge := cb.kind.EdgeCreate?;
      ends := if cb.kind.EdgeCreate? then Some((cb.source, cb.target)) else None;
      start, end := None, None;
    }

    function Value(): (v: GraphEvent)
      reads this
      ensures v.id == id
    {
      GraphEvent(id, edge, ends, created, start, end, metadata)
    }

    method SetTimeStart(now: U64)
      modifies this
      ensures Value() == old(Value()).(start := Some(now))
    {
      start := Some(now);
    }

    method SetTimeEnd(now: U64)
      modifies this
      ensures Value() == old(Value()).(end := Some(now))
    {
      end := Some(now);
    }
  }

  class GraphData {
    var graph: seq<Event>
    var ids: set<int>
    ghost var history: seq<Callback>

    /** The list holds the event of every id, once and in the order of creation; the id set agrees with it. */
    ghost predicate Valid()
      reads this, graph
    {
      && (forall i, j :: 0 <= i < j < |graph| ==> graph[i] != graph[j])
      && |graph| == |Order(history)|
      && (forall k :: 0 <= k < |graph| ==> Order(history)[k] == graph[k].id)
      && (forall k :: 0 <= k < |graph| ==> Life(history, graph[k].id) == Some(graph[k].Value()))
      && (forall id :: id in ids <==> id in Order(history))
    }

    constructor ()
      ensures Valid() && history == [] && graph == []
    {
      graph, ids, history := [], {}, [];
    }

    /** The search from the back finds the only event of the id there can be. */
    method FindById(id: int) returns (k: int)
      requires Valid()
      ensures -1 <= k < |graph|
      ensures k >= 0 <==> id in ids
      ensures k >= 0 ==> forall j :: 0 <= j < |graph| ==> (graph[j].id == id <==> j == k)
    {
      OrderIsTheIds(history);
      k := |graph| - 1;
      while k >= 0 && graph[k].id != id
        invariant -1 <= k < |graph|
        invariant forall j :: k < j < |graph| ==> graph[j].id != id
      {
        k := k - 1;
      }
      assert k < 0 ==> id !in Order(history);
    }

    method TpCallback(cb: Callback)
      requires Valid()
      modifies this, graph
      ensures Valid() && history == old(history) + [cb]
      ensures old(graph) <= graph && |graph| <= |old(graph)| + 1
      ensures forall e :: e in graph && e !in old(graph) ==> fresh(e)
    {
      hide Life, Order, Made, Event.Value;
      OrderIsTheIds(history);
      Append(history, cb);
      if cb.kind.TaskBegin? {
        var k := FindById(cb.id);
        if k >= 0 {
          graph[k].SetTimeStart(cb.time);
        }
        history := history + [cb];
        return;
      }
      if cb.kind.TaskEnd? {
        var k := FindById(cb.id);
        if k >= 0 {
          graph[k].SetTimeEnd(cb.time);
        }
      }
      if cb.id in ids {
        history := history + [cb];
        return;
      }
      AddEvent(cb);
    }

    /** The first callback of an id, other than a task begin, creates its event. */
    method AddEvent(cb: Callback)
      requires Valid() && cb.id !in ids && !cb.kind.TaskBegin?
      modifies this
      ensures Valid() && history == old(history) + [cb]
      ensures |graph| == |old(graph)| + 1 && old(graph) <= graph && fresh(graph[|old(graph)|])
    {
      hide Life, Order, Made, Event.Value;
      OrderIsTheIds(history);
      Append(history, cb);
      ids := ids + {cb.id};
      var event := new Event(cb);
      graph := graph + [event];
      history := history + [cb];
    }

    /** The file holds every event, framed, in the order of creation. */
    method DumpGraph(c: Codec<GraphEvent>) returns (file: seq<Byte>)
      requires Valid()
      ensures file == Frames(c, Events(history))
    {
      file := [];
      for i := 0 to |graph|
        invariant file == Frames(c, Events(history)[..i])
      {
        OffsetStep(c, Events(history), i);
        var out := c.encode(graph[i].Value());
        file := file + ToLE(|out|, 4);
        file := file + out;
      }
      assert Events(history)[..|graph|] == Events(history);
    }
  }
}
