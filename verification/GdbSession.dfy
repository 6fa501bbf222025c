// The session: acknowledgement mode and thread enumeration over a run of packets.
module GdbSession {
  import opened Bytes
  import opened Division
  import opened GdbCodec
  import opened GdbPackets
  import opened Wrappers

  /** A packet after the dispatcher has recognised it; Query stands for every command that is answered with
      one framed payload and leaves the session's own fields alone. */
  datatype Request =
    | StartNoAckMode
    | ThreadInfo
    | SelectThread(id: Text)
    | Ack
    | Kill
    | Query(payload: Text)

  /** The fields of the protocol object. */
  datatype State = State(ack: bool, running: bool, currentThread: nat, lastThreadInfo: nat)

  const START := State(true, true, 0, 0)
  const OK: Text := [0x4f, 0x4b]

  /** What a thread-info request with this index is answered. */
  function ThreadInfoPayload(threads: seq<U64>, index: nat): Text {
    if index < |threads| then [LETTER_M] + EncodeInt(threads[index], 8) else [LETTER_L]
  }

  function Process(s: State, r: Request, threads: seq<U64>): (State, Text) {
    match r
    case StartNoAckMode => (s.(ack := false), Packet(OK, true))
    case ThreadInfo =>
      (s.(lastThreadInfo := if s.lastThreadInfo < |threads| then s.lastThreadInfo + 1 else 0),
       Packet(ThreadInfoPayload(threads, s.lastThreadInfo), s.ack))
    case SelectThread(id) =>
      (s.(currentThread := if id != [] && id[0] == MINUS then 0 else ParseU64(id)), Packet(OK, s.ack))
    case Ack => (s, if s.ack then [PLUS] else [])
    case Kill => (s.(running := false), [])
    case Query(payload) => (s, Packet(payload, s.ack))
  }

  class GDBServerProtocol {
    const threads: seq<U64>
    var mAck: bool
    var mRunning: bool
    var mCurrentThreadIndex: nat
    var mLastThreadInfoIndex: nat

    constructor (threads: seq<U64>)
      ensures this.threads == threads && Abs() == START
    {
      this.threads := threads;
      mAck, mRunning, mCurrentThreadIndex, mLastThreadInfoIndex := true, true, 0, 0;
    }

    function Abs(): State
      reads this
    {
      State(mAck, mRunning, mCurrentThreadIndex, mLastThreadInfoIndex)
    }

    method ProcessPacket(packet: Request) returns (reply: Text)
      modifies this
      ensures (Abs(), reply) == Process(old(Abs()), packet, threads)
    {
      match packet {
        case StartNoAckMode =>
          mAck := false;
          reply := CreateResponse(OK, true);
        case ThreadInfo =>
          reply := ProcessQfThreadInfo();
        case SelectThread(id) =>
          if id != [] && id[0] == MINUS {
            mCurrentThreadIndex := 0;
          } else {
            mCurrentThreadIndex := ParseInt(id);
          }
          reply := CreateResponse(OK, mAck);
        case Ack =>
          if mAck {
            reply := [PLUS];
          } else {
            reply := [];
          }
        case Kill =>
          mRunning := false;
          reply := [];
        case Query(payload) =>
          reply := CreateResponse(payload, mAck);
      }
    }

    method ProcessQfThreadInfo() returns (reply: Text)
      modifies this`mLastThreadInfoIndex
      ensures mLastThreadInfoIndex ==
              if old(mLastThreadInfoIndex) < |threads| then old(mLastThreadInfoIndex) + 1 else 0
      ensures reply == Packet(ThreadInfoPayload(threads, old(mLastThreadInfoIndex)), mAck)
    {
      if mLastThreadInfoIndex < |threads| {
        var id := EncodeInt(threads[mLastThreadInfoIndex], 8);
        mLastThreadInfoIndex := mLastThreadInfoIndex + 1;
        reply := CreateResponse([LETTER_M] + id, mAck);
      } else {
        mLastThreadInfoIndex := 0;
        reply := CreateResponse([LETTER_L], mAck);
      }
    }
  }

  // ---- Runs ----

  /** The state before packet k. */
  function StateAt(run: seq<Request>, threads: seq<U64>, k: nat): State
    requires k <= |run|
  {
    if k == 0 then START else Process(StateAt(run, threads, k - 1), run[k - 1], threads).0
  }

  function ReplyAt(run: seq<Request>, threads: seq<U64>, k: nat): Text
    requires k < |run|
  {
    Process(StateAt(run, threads, k), run[k], threads).1
  }

  lemma {:induction false} AckUntilStarted(run: seq<Request>, threads: seq<U64>, k: nat)
    requires k <= |run|
    ensures StateAt(run, threads, k).ack <==> StartNoAckMode !in run[..k]
  {
    hide Packet, ThreadInfoPayload, ParseU64;
    if k > 0 {
      AckUntilStarted(run, threads, k - 1);
      assert run[..k] == run[..k - 1] + [run[k - 1]];
    }
  }

  /** In every run a nonempty reply starts with '+' exactly when no earlier packet was QStartNoAckMode, or the
      packet is itself one: a repeated QStartNoAckMode is still acknowledged. */
  lemma PlusExact(run: seq<Request>, threads: seq<U64>, k: nat)
    requires k < |run| && ReplyAt(run, threads, k) != []
    ensures ReplyAt(run, threads, k)[0] == PLUS <==> StartNoAckMode !in run[..k] || run[k].StartNoAckMode?
  {
    AckUntilStarted(run, threads, k);
  }

  /** In every run, each packet gets its own reply, acknowledged until the first QStartNoAckMode. */
  lemma RepliesInRun(run: seq<Request>, threads: seq<U64>, k: nat)
    requires k < |run|
    ensures var reply, ack := ReplyAt(run, threads, k), StartNoAckMode !in run[..k];
            match run[k]
            case StartNoAckMode => reply == Packet(Ascii("OK"), true)
            case SelectThread(_) => reply == Packet(Ascii("OK"), ack)
            case Ack => reply == (if ack then Ascii("+") else [])
            case Kill => reply == []
            case Query(payload) => reply == Packet(payload, ack)
            case ThreadInfo => reply == Packet(Ascii("l"), ack) || exists t :: t in threads && reply == Packet(Ascii("m") + EncodeInt(t, 8), ack)
  {
    hide Packet, EncodeInt;
    AckUntilStarted(run, threads, k);
    assert Ascii("OK") == [0x4f, 0x4b] && Ascii("+") == [0x2b] && Ascii("l") == [0x6c] && Ascii("m") == [0x6d];
  }

  /** The session runs until it is killed. */
  lemma {:induction false} RunsUntilKilled(run: seq<Request>, threads: seq<U64>, k: nat)
    requires k <= |run|
    ensures StateAt(run, threads, k).running <==> Kill !in run[..k]
  {
    hide Packet, ThreadInfoPayload, ParseU64;
    if k > 0 {
      RunsUntilKilled(run, threads, k - 1);
      assert run[..k] == run[..k - 1] + [run[k - 1]];
    }
  }

  /** The selected thread is the one named last, where a minus sign selects the first; before that it is the first. */
  lemma {:induction false} SelectedIsLastNamed(run: seq<Request>, threads: seq<U64>, m: nat, k: nat)
    requires m <= k <= |run| && forall i :: m <= i < k ==> !run[i].SelectThread?
    ensures m == 0 ==> StateAt(run, threads, k).currentThread == 0
    ensures m > 0 && run[m - 1].SelectThread? ==>
              var id := run[m - 1].id;
              StateAt(run, threads, k).currentThread == if id != [] && id[0] == 0x2d then 0 else ParseU64(id)
    decreases k
  {
    hide Packet, ThreadInfoPayload, ParseU64;
    if m < k { SelectedIsLastNamed(run, threads, m, k - 1); }
  }

  /** How many of the first k packets are thread-info requests. */
  function Asked(run: seq<Request>, k: nat): nat
    requires k <= |run|
  {
    if k == 0 then 0 else Asked(run, k - 1) + if run[k - 1].ThreadInfo? then 1 else 0
  }

  lemma {:induction false} IndexIsAsked(run: seq<Request>, threads: seq<U64>, k: nat)
    requires k <= |run|
    ensures StateAt(run, threads, k).lastThreadInfo == Asked(run, k) % (|threads| + 1)
  {
    hide Packet, ThreadInfoPayload, ParseU64;
    if k > 0 {
      IndexIsAsked(run, threads, k - 1);
      NextModulo(Asked(run, k - 1), |threads| + 1);
    }
  }

  /** Whatever is interleaved, the n-th thread-info request is answered with thread n modulo N + 1, where the
      last residue is the end marker: any N + 1 requests from index 0 list each thread once, in order, then "l". */
  lemma ThreadsListedInOrder(run: seq<Request>, threads: seq<U64>, k: nat)
    requires k < |run| && run[k].ThreadInfo?
    ensures ReplyAt(run, threads, k) ==
            Packet(ThreadInfoPayload(threads, Asked(run, k) % (|threads| + 1)), StartNoAckMode !in run[..k])
    ensures Asked(run, k + 1) % (|threads| + 1) == 0 ==>
              ReplyAt(run, threads, k) == Packet([LETTER_L], StartNoAckMode !in run[..k])
              && StateAt(run, threads, k + 1).lastThreadInfo == 0
  {
    AckUntilStarted(run, threads, k);
    IndexIsAsked(run, threads, k);
    IndexIsAsked(run, threads, k + 1);
    NextModulo(Asked(run, k), |threads| + 1);
  }

  /** The client reads the listed thread's id back from the reply. */
  lemma ListedIdIsThread(threads: seq<U64>, index: nat, ack: bool)
    requires index < |threads|
    ensures Receive(Packet(ThreadInfoPayload(threads, index), ack)) == Some(ThreadInfoPayload(threads, index))
    ensures ThreadInfoPayload(threads, index)[0] == 0x6d && ParseU64(ThreadInfoPayload(threads, index)[1..]) == threads[index]
  {
    var id := EncodeInt(threads[index], 8);
    TrimKeepsValue(Padded(threads[index]));
    assert HASH !in id by { assert forall k :: 0 <= k < |id| ==> IsLowerHex(id[k]); }
    FramingExact([LETTER_M] + id, ack);
    IntRoundTrip(threads[index]);
    assert ([LETTER_M] + id)[1..] == id;
  }
}
