// The tracer: a seccomp filter that stops the tracee at a few system calls, the decoding of
// wait statuses, and the loop that hands file names to the handlers.
module Tracer {
  import opened Bytes
  import opened TraceeMemory
  import opened Wrappers

  const NR_STAT := 4
  const NR_OPENAT := 257
  const NR_NEWFSTATAT := 262

  // ---- The seccomp filter ----

  datatype Verdict = Trace | Allow

  datatype Insn = LoadNr | JumpEq(k: nat, jt: nat, jf: nat) | Return(verdict: Verdict)

  /** The classic BPF machine on one system call; running off the end gives no verdict. */
  function Execute(prog: seq<Insn>, pc: nat, acc: nat, nr: nat): (verdict: Option<Verdict>)
    decreases |prog| - pc
  {
    if pc >= |prog| then None
    else match prog[pc]
      case LoadNr => Execute(prog, pc + 1, nr, nr)
      case JumpEq(k, jt, jf) => Execute(prog, pc + 1 + (if acc == k then jt else jf), acc, nr)
      case Return(verdict) => Some(verdict)
  }

  const FILTER := [
    LoadNr,
    JumpEq(NR_NEWFSTATAT, 0, 1), Return(Trace),
    JumpEq(NR_OPENAT, 0, 1), Return(Trace),
    JumpEq(NR_STAT, 0, 1), Return(Trace),
    Return(Allow)
  ]

  /** The tests of a filter that traces the listed calls and allows the rest. */
  function Tests(nrs: seq<nat>): seq<Insn> {
    if nrs == [] then [Return(Allow)] else [JumpEq(nrs[0], 0, 1), Return(Trace)] + Tests(nrs[1..])
  }

  lemma {:induction false} TestsDecide(prog: seq<Insn>, pc: nat, nrs: seq<nat>, nr: nat)
    requires pc <= |prog| && prog[pc..] == Tests(nrs)
    ensures Execute(prog, pc, nr, nr) == Some(if nr in nrs then Trace else Allow)
    decreases |nrs|
  {
    assert prog[pc] == prog[pc..][0];
    if nrs != [] {
      assert prog[pc + 1] == prog[pc..][1];
      assert prog[pc + 2..] == prog[pc..][2..] == Tests(nrs[1..]);
      TestsDecide(prog, pc + 2, nrs[1..], nr);
      assert nr in nrs <==> nr == nrs[0] || nr in nrs[1..];
    }
  }

  predicate Watched(nr: nat) {
    nr == NR_STAT || nr == NR_OPENAT || nr == NR_NEWFSTATAT
  }

  /** The installed filter stops exactly the system calls the tracer's switch handles. */
  lemma FilterStopsWatched(nr: nat)
    ensures Execute(FILTER, 0, 0, nr) == Some(if Watched(nr) then Trace else Allow)
    ensures Watched(nr) <==> nr in {4, 257, 262}
  {
    var nrs := [NR_NEWFSTATAT, NR_OPENAT, NR_STAT];
    assert nrs[1..] == [NR_OPENAT, NR_STAT] && nrs[1..][1..] == [NR_STAT] && nrs[1..][1..][1..] == [];
    assert Tests([NR_STAT]) == [JumpEq(NR_STAT, 0, 1), Return(Trace), Return(Allow)];
    assert Tests([NR_OPENAT, NR_STAT]) == [JumpEq(NR_OPENAT, 0, 1), Return(Trace)] + Tests([NR_STAT]);
    assert FILTER[1..] == Tests(nrs);
    TestsDecide(FILTER, 1, nrs, nr);
  }

  // ---- Wait statuses ----

  const SIGINT := 2
  const SIGILL := 4
  const SIGTRAP := 5
  const SIGABRT := 6
  const SIGFPE := 8
  const SIGSEGV := 11
  const SIGTERM := 15
  const PTRACE_EVENT_SECCOMP := 7

  /** Why the kernel reports the tracee. */
  datatype Report =
    | Exited(code: Byte)
    | Killed(sig: Signal, core: bool)
    | Stopped(sig: Signal, event: Byte)
    | Continued

  type Signal = s: int | 1 <= s <= 64 witness 1

  /** The status word of a report. */
  function Encode(r: Report): nat {
    match r
    case Exited(code) => code * 0x100
    case Killed(sig, core) => sig + if core then 0x80 else 0
    case Stopped(sig, event) => event * 0x10000 + sig * 0x100 + 0x7f
    case Continued => 0xffff
  }

  predicate WIfExited(status: nat) { status % 0x80 == 0 }
  function WExitStatus(status: nat): nat { status / 0x100 % 0x100 }
  /** ((signed char) ((status & 0x7f) + 1) >> 1) > 0 */
  predicate WIfSignaled(status: nat) {
    var b := status % 0x80 + 1;
    (if b >= 0x80 then b - 0x100 else b) / 2 > 0
  }
  function WTermSig(status: nat): nat { status % 0x80 }
  predicate WIfStopped(status: nat) { status % 0x100 == 0x7f }
  function WStopSig(status: nat): nat { WExitStatus(status) }
  predicate WIfContinued(status: nat) { status == 0xffff }

  /** The bits of the status word: exit codes in the second byte, signals in the lowest one, and for a stop the signal in
      the second byte above 0x7f and the event in the third. */
  lemma SomeStatuses()
    ensures Encode(Exited(3)) == 0x300 && Encode(Killed(9, false)) == 0x9 && Encode(Killed(11, true)) == 0x8b
    ensures Encode(Stopped(19, 0)) == 0x137f && Encode(Stopped(5, 7)) == 0x7_057f && Encode(Continued) == 0xffff
  {
  }

  datatype ResultType = Success | SignalResult | Fail | ExitedResult

  datatype WaitResult = WaitResult(kind: ResultType, code: nat, status: nat) {
    predicate IsSeccomp() {
      status / 0x100 == SIGTRAP + PTRACE_EVENT_SECCOMP * 0x100
    }
  }

  predicate Fatal(sig: nat) {
    sig == SIGTERM || sig == SIGSEGV || sig == SIGINT || sig == SIGILL || sig == SIGABRT || sig == SIGFPE
  }

  /** The classification of a status that waitpid delivered. */
  function Decode(status: nat): WaitResult {
    if WIfExited(status) then WaitResult(ExitedResult, WExitStatus(status), status)
    else if WIfSignaled(status) then WaitResult(SignalResult, WTermSig(status), status)
    else if WIfStopped(status) then
      var signal := WStopSig(status);
      WaitResult(if Fatal(signal) then SignalResult else Success, signal, status)
    else if WIfContinued(status) then WaitResult(Success, 0, status)
    else WaitResult(Fail, 0, status)
  }

  lemma StoppedBits(sig: Signal, event: Byte)
    ensures var status := event * 0x10000 + sig * 0x100 + 0x7f;
            status % 0x80 == 0x7f && status % 0x100 == 0x7f && status / 0x100 == event * 0x100 + sig
  {
    var high := event * 0x100 + sig;
    assert event * 0x10000 + sig * 0x100 + 0x7f == 0x100 * high + 0x7f == 0x80 * (2 * high) + 0x7f;
  }

  lemma StoppedDecoded(sig: Signal, event: Byte)
    ensures var w := Decode(Encode(Stopped(sig, event)));
            && w.kind == (if Fatal(sig) then SignalResult else Success) && w.code == sig
            && (w.IsSeccomp() <==> sig == SIGTRAP && event == PTRACE_EVENT_SECCOMP)
  {
    hide WIfExited, WIfSignaled, WIfStopped, WIfContinued, WStopSig;
    StoppedBits(sig, event);
    StoppedIsStopped(Encode(Stopped(sig, event)), event * 0x100 + sig, sig, event);
  }

  lemma StoppedIsStopped(status: nat, high: nat, sig: Signal, event: Byte)
    requires status % 0x80 == 0x7f && status % 0x100 == 0x7f && status / 0x100 == high == event * 0x100 + sig
    ensures !WIfExited(status) && !WIfSignaled(status) && WIfStopped(status) && WStopSig(status) == sig
    ensures high == SIGTRAP + PTRACE_EVENT_SECCOMP * 0x100 <==> sig == SIGTRAP && event == PTRACE_EVENT_SECCOMP
  {
    assert high % 0x100 == sig;
  }

  lemma EndDecoded(code: Byte, sig: Signal, core: bool)
    ensures Decode(Encode(Exited(code))) == WaitResult(ExitedResult, code, code * 0x100)
    ensures Decode(Encode(Killed(sig, core))) == WaitResult(SignalResult, sig, Encode(Killed(sig, core)))
  {
    assert code * 0x100 % 0x80 == 0 && code * 0x100 / 0x100 == code;
    assert (sig + 0x80) % 0x80 == sig;
  }

  /** Every report is recognised for what it is, and only a seccomp stop counts as one. */
  lemma StatusDecoded(r: Report)
    ensures var w := Decode(Encode(r));
            match r
            case Exited(code) => w.kind == ExitedResult && w.code == code
            case Killed(sig, _) => w.kind == SignalResult && w.code == sig
            case Stopped(sig, event) =>
              && w.kind == (if sig in {2, 4, 6, 8, 11, 15} then SignalResult else Success) && w.code == sig
              && (w.IsSeccomp() <==> sig == 5 && event == 7)
            case Continued => w.kind == Success && !w.IsSeccomp()
  {
    match r {
      case Exited(code) => EndDecoded(code, 1, false);
      case Killed(sig, core) => EndDecoded(0, sig, core);
      case Stopped(sig, event) => StoppedDecoded(sig, event);
      case Continued =>
    }
  }

  // ---- The traced process ----

  /** What the tracee does next: a system call with its registers and memory, a signal delivery, or its end. */
  datatype Step =
    | Syscall(nr: nat, rdi: int, rsi: int, rsp: int, mem: Memory, name: seq<Byte>)
    | SignalStop(sig: Signal)
    | Exit(code: Byte)
    | Die(sig: Signal, core: bool)

  function NameReg(nr: nat): Reg {
    if nr == NR_STAT then RDI else RSI
  }

  /** Where the kernel looks for the path: stat takes it as its first argument, openat and newfstatat as their second. */
  function NameAddr(s: Step): int
    requires s.Syscall?
  {
    if s.nr == 4 then s.rdi else s.rsi
  }

  /** What the kernel reports for a step, if the step is reported at all. */
  function ReportOf(s: Step): Option<Report> {
    match s
    case Syscall(nr, _, _, _, _, _) =>
      if Execute(FILTER, 0, 0, nr) == Some(Trace) then Some(Stopped(SIGTRAP, PTRACE_EVENT_SECCOMP)) else None
    case SignalStop(sig) => Some(Stopped(sig, 0))
    case Exit(code) => Some(Exited(code))
    case Die(sig, core) => Some(Killed(sig, core))
  }

  /** `name` is the string the system call refers to, and the words it lies in are mapped. */
  ghost predicate Readable(s: Step) {
    s.Syscall? && Watched(s.nr) ==>
      HoldsString(s.mem, NameAddr(s), s.name) && Mapped(s.mem, NameAddr(s), Extent(|s.name|))
  }

  /** The kernel as the tracer's PTRACE_CONT and waitpid see it. */
  class Kernel {
    const steps: seq<Step>
    var pos: nat

    constructor (steps: seq<Step>)
      ensures this.steps == steps && pos == 0
    {
      this.steps, pos := steps, 0;
    }

    /** Lets the tracee run to the next step that is reported; without one, waitpid fails. */
    method ContinueAndWait() returns (status: Option<nat>)
      requires pos <= |steps|
      modifies this
      ensures old(pos) <= pos <= |steps|
      ensures status.None? ==> pos == |steps|
      ensures status.Some? ==> old(pos) < pos && ReportOf(steps[pos - 1]).Some?
                               && status.value == Encode(ReportOf(steps[pos - 1]).value)
      ensures var stop := if status.Some? then pos - 1 else pos;
              forall k :: old(pos) <= k < stop ==> ReportOf(steps[k]).None?
    {
      while pos < |steps|
        invariant old(pos) <= pos <= |steps|
        invariant forall k :: old(pos) <= k < pos ==> ReportOf(steps[k]).None?
      {
        var report := ReportOf(steps[pos]);
        pos := pos + 1;
        if report.Some? {
          return Some(Encode(report.value));
        }
      }
      status := None;
    }
  }

  // ---- The worker loop ----

  datatype Kind = OpenCall | StatCall

  /** One handler invocation: what the handler was told, and the tracee as it resumed. */
  datatype Invocation = Invocation(kind: Kind, name: seq<Byte>, resumed: Memory, rdi: int, rsi: int)

  /** The right handler got the call's own name. */
  predicate Told(v: Invocation, s: Step) {
    && s.Syscall? && s.nr in {4, 257, 262}
    && v.kind == (if s.nr == 257 then OpenCall else StatCall)
    && v.name == s.name
  }

  /** After that the kernel goes on with the replacement in the place of the path, if there is one, and with
      nothing else changed. */
  ghost predicate Serves(v: Invocation, s: Step, replace: seq<Byte> -> Option<seq<Byte>>) {
    && Told(v, s)
    && match replace(s.name)
       case None => v.resumed == s.mem && v.rdi == s.rdi && v.rsi == s.rsi
       case Some(file) =>
         var addr := s.rsp - 4224;
         && (if s.nr == 4 then v.rdi == addr && v.rsi == s.rsi else v.rdi == s.rdi && v.rsi == addr)
         && Wrote(s.mem, v.resumed, addr, file)
         && (NulFree(file) ==> HoldsString(v.resumed, addr, file))
  }

  /** The handler's replacement does not fit into the tracee's stack. */
  predicate Throws(s: Step, replace: seq<Byte> -> Option<seq<Byte>>) {
    && s.Syscall? && Watched(s.nr) && replace(s.name).Some?
    && !Mapped(s.mem, s.rsp - 4224, 8 * (|replace(s.name).value| / 8 + 1))
  }

  /** The first step that ends the loop. */
  predicate Ends(s: Step) {
    s.Exit? || s.Die? || (s.SignalStop? && Fatal(s.sig))
  }

  function EndCode(s: Step): nat
    requires Ends(s)
  {
    match s
    case Exit(code) => code
    case Die(sig, _) => sig
    case SignalStop(sig) => sig
  }

  /** The watched calls among the first n steps, in order. */
  function WatchedCalls(steps: seq<Step>, n: nat): seq<Step>
    requires n <= |steps|
  {
    if n == 0 then []
    else WatchedCalls(steps, n - 1) + if steps[n - 1].Syscall? && Watched(steps[n - 1].nr) then [steps[n - 1]] else []
  }

  lemma {:induction false} UnreportedAddNothing(steps: seq<Step>, m: nat, n: nat)
    requires m <= n <= |steps|
    requires forall k :: m <= k < n ==> ReportOf(steps[k]).None?
    ensures WatchedCalls(steps, n) == WatchedCalls(steps, m)
    ensures forall k :: m <= k < n ==> !Ends(steps[k]) && !(steps[k].Syscall? && Watched(steps[k].nr))
  {
    if m < n {
      UnreportedAddNothing(steps, m, n - 1);
      var s := steps[n - 1];
      assert ReportOf(s).None?;
      if s.Syscall? { FilterStopsWatched(s.nr); }
    }
  }

  /** What the loop concludes from the status of a reported step is what the step was. */
  lemma ReportedStep(s: Step)
    requires ReportOf(s).Some?
    ensures var w := Decode(Encode(ReportOf(s).value));
            && (w.kind != Success <==> Ends(s))
            && (Ends(s) ==> w.code == EndCode(s))
            && (w.kind == Success ==> (w.IsSeccomp() <==> s.Syscall? && Watched(s.nr)))
            && (s.Syscall? ==> Watched(s.nr))
  {
    StatusDecoded(ReportOf(s).value);
    if s.Syscall? { FilterStopsWatched(s.nr); }
  }

  datatype Finish = Completed | Threw

  class NativeTracer {
    const replace: seq<Byte> -> Option<seq<Byte>>
    var exitCode: nat
    var calls: seq<Invocation>

    constructor (replace: seq<Byte> -> Option<seq<Byte>>)
      ensures this.replace == replace && exitCode == 0 && calls == []
    {
      this.replace, exitCode, calls := replace, 0, [];
    }

    /** One seccomp stop: read the name, call the handler, write its replacement. Not ok: the write threw. */
    method HandleStop(s: Step) returns (ok: bool)
      requires s.Syscall? && Watched(s.nr) && Readable(s)
      modifies this`calls
      ensures ok == !Throws(s, replace)
      ensures |calls| == |old(calls)| + 1 && calls[..|old(calls)|] == old(calls)
      ensures Told(calls[|old(calls)|], s) && (ok ==> Serves(calls[|old(calls)|], s, replace))
    {
      hide HoldsString, EndsAfter, Peeked, Wrote;
      var tracee := new Tracee(s.mem, s.rdi, s.rsi, s.rsp);
      var reg := NameReg(s.nr);
      MappedIsRead(s.mem, NameAddr(s), s.name);
      var filename := tracee.ReadString(tracee.Register(reg), |s.name| / WORD);
      var kind := if s.nr == NR_OPENAT then OpenCall else StatCall;
      var replacement := replace(filename);
      ok := true;
      if replacement.Some? {
        ok := tracee.WriteString(reg, replacement.value);
        if ok && NulFree(replacement.value) {
          WrittenStringIsThere(s.mem, tracee.mem, s.rsp - 4224, replacement.value);
        }
      }
      calls := calls + [Invocation(kind, filename, tracee.mem, tracee.rdi, tracee.rsi)];
    }

    /** The worker. `last` is the first step that ends the tracee or makes a handler throw: exactly the watched calls
        before it are served, each once and in order; at a throw the handler was told, and the worker throws too;
        else the exit code is that of the terminating report, and without one waitpid fails. */
    method Work(kernel: Kernel, ghost last: nat) returns (r: Finish)
      requires kernel.pos == 0 && calls == [] && exitCode == 0
      requires forall k :: 0 <= k < |kernel.steps| ==> Readable(kernel.steps[k])
      requires last <= |kernel.steps|
      requires forall k :: 0 <= k < last ==> !Ends(kernel.steps[k]) && !Throws(kernel.steps[k], replace)
      requires last < |kernel.steps| ==> Ends(kernel.steps[last]) || Throws(kernel.steps[last], replace)
      modifies this`exitCode, this`calls, kernel
      ensures r.Completed? <==> last < |kernel.steps| && Ends(kernel.steps[last])
      ensures exitCode == if r.Completed? then EndCode(kernel.steps[last]) else 0
      ensures var watched := WatchedCalls(kernel.steps, last);
              && |watched| <= |calls|
              && forall k :: 0 <= k < |watched| ==> Serves(calls[k], watched[k], replace)
      ensures var n := |WatchedCalls(kernel.steps, last)|;
              if last < |kernel.steps| && Throws(kernel.steps[last], replace)
              then |calls| == n + 1 && Told(calls[n], kernel.steps[last])
              else |calls| == n
    {
      hide Decode, Encode, ReportOf, Readable, Serves, Told, Throws;
      while true
        invariant kernel.pos <= last && exitCode == 0
        invariant |calls| == |WatchedCalls(kernel.steps, kernel.pos)|
        invariant forall k :: 0 <= k < |calls| ==> Serves(calls[k], WatchedCalls(kernel.steps, kernel.pos)[k], replace)
        decreases |kernel.steps| - kernel.pos
      {
        ghost var start := kernel.pos;
        var status := kernel.ContinueAndWait();
        ghost var stop := if status.Some? then kernel.pos - 1 else kernel.pos;
        UnreportedAddNothing(kernel.steps, start, stop);
        if stop > last { UnwatchedDoesNotThrow(kernel.steps[last], replace); }
        if status.None? {
          return Threw;
        }
        var s := kernel.steps[kernel.pos - 1];
        ReportedStep(s);
        var res := Decode(status.value);
        if res.kind != Success {
          EndingDoesNotThrow(s, replace);
          exitCode := res.code;
          return Completed;
        }
        if !res.IsSeccomp() {
          UnwatchedDoesNotThrow(s, replace);
          continue;
        }
        var ok := HandleStop(s);
        if !ok {
          return Threw;
        }
      }
    }
  }

  lemma UnwatchedDoesNotThrow(s: Step, replace: seq<Byte> -> Option<seq<Byte>>)
    requires !(s.Syscall? && Watched(s.nr))
    ensures !Throws(s, replace)
  {
  }

  lemma EndingDoesNotThrow(s: Step, replace: seq<Byte> -> Option<seq<Byte>>)
    requires Ends(s)
    ensures !Throws(s, replace)
  {
  }
}
