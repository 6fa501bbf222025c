// Handles on replay: every created object is a fresh allocation, and a kernel remembers its program.
// Recorded and replayed handles differ; they agree up to a renaming.
module Handles {

  /** What a program calls an object: the position of the creating thread and the place in its history. */
  type Name = (seq<nat>, nat)

  /** Creations and queries, in the order in which all threads together make them. */
  datatype Op =
    | Create(name: Name)
    | CreateKernel(name: Name, program: Name)
    | AskProgram(kernel: Name, asker: Name)

  predicate Creates(op: Op, name: Name) {
    !op.AskProgram? && op.name == name
  }

  predicate Created(ops: seq<Op>, name: Name) {
    exists k :: 0 <= k < |ops| && Creates(ops[k], name)
  }

  predicate KernelCreated(ops: seq<Op>, name: Name) {
    exists k :: 0 <= k < |ops| && Creates(ops[k], name) && ops[k].CreateKernel?
  }

  /** Names are created once and used after that; only kernels are asked for their program. */
  predicate WellFormed(ops: seq<Op>) {
    forall k :: 0 <= k < |ops| ==> Usable(ops[..k], ops[k])
  }

  predicate Usable(before: seq<Op>, op: Op) {
    match op
    case Create(name) => !Created(before, name)
    case CreateKernel(name, program) => !Created(before, name) && Created(before, program)
    case AskProgram(kernel, _) => KernelCreated(before, kernel)
  }

  /** The replayed process: heap addresses are never reused, because nothing frees them. */
  datatype State = State(handles: map<Name, nat>, kernelPrograms: map<nat, nat>, heap: nat)

  const START := State(map[], map[], 1)

  /** The null handle, which a lookup of an unknown kernel yields. */
  const NULL := 0

  function Lookup(m: map<nat, nat>, kernel: nat): nat {
    if kernel in m then m[kernel] else NULL
  }

  function Handle(s: State, name: Name): nat {
    if name in s.handles then s.handles[name] else NULL
  }

  function Apply(s: State, op: Op): State {
    match op
    case Create(name) => s.(handles := s.handles[name := s.heap], heap := s.heap + 1)
    case CreateKernel(name, program) =>
      State(s.handles[name := s.heap], s.kernelPrograms[s.heap := Handle(s, program)], s.heap + 1)
    case AskProgram(_, _) => s
  }

  function Replayed(ops: seq<Op>): State {
    if ops == [] then START else Apply(Replayed(ops[..|ops| - 1]), ops[|ops| - 1])
  }

  /** What the replayed query answers after `ops`. */
  function Answer(ops: seq<Op>, kernel: Name): nat {
    Lookup(Replayed(ops).kernelPrograms, Handle(Replayed(ops), kernel))
  }

  /** Handles are allocated, pairwise distinct, and every kernel leads to the handle of its program. */
  ghost predicate Inv(ops: seq<Op>, s: State) {
    && s.heap >= 1
    && (forall n :: n in s.handles <==> Created(ops, n))
    && (forall n :: n in s.handles ==> 1 <= s.handles[n] < s.heap)
    && (forall m, n :: m in s.handles && n in s.handles && m != n ==> s.handles[m] != s.handles[n])
    && (forall k :: 0 <= k < |ops| && ops[k].CreateKernel? ==> Remembered(s, ops[k]))
  }

  ghost predicate Remembered(s: State, op: Op)
    requires op.CreateKernel?
  {
    && op.name in s.handles && op.program in s.handles
    && s.handles[op.name] in s.kernelPrograms
    && s.kernelPrograms[s.handles[op.name]] == s.handles[op.program]
  }

  lemma CreatedAppend(ops: seq<Op>, op: Op, n: Name)
    ensures Created(ops + [op], n) <==> Created(ops, n) || Creates(op, n)
  {
    var more := ops + [op];
    assert more[|ops|] == op;
    if Created(ops, n) {
      var k :| 0 <= k < |ops| && Creates(ops[k], n);
      assert Creates(more[k], n);
    }
  }

  lemma ApplyKeepsInv(ops: seq<Op>, s: State, op: Op)
    requires Inv(ops, s) && Usable(ops, op)
    ensures Inv(ops + [op], Apply(s, op))
  {
    hide Created;
    var s', more := Apply(s, op), ops + [op];
    forall n ensures n in s'.handles <==> Created(more, n) {
      CreatedAppend(ops, op, n);
    }
    forall k | 0 <= k < |more| && more[k].CreateKernel? ensures Remembered(s', more[k]) {
      if k < |ops| { assert Remembered(s, ops[k]); }
    }
  }

  lemma WellFormedPrefix(ops: seq<Op>, n: nat)
    requires WellFormed(ops) && n < |ops|
    ensures WellFormed(ops[..n]) && Usable(ops[..n], ops[n])
  {
    hide Usable;
    forall k | 0 <= k < n ensures Usable(ops[..n][..k], ops[..n][k]) {
      assert ops[..n][..k] == ops[..k];
    }
  }

  lemma {:induction false} ReplayedInv(ops: seq<Op>)
    requires WellFormed(ops)
    ensures Inv(ops, Replayed(ops))
  {
    if ops == [] {
    } else {
      var n := |ops| - 1;
      WellFormedPrefix(ops, n);
      hide Usable, WellFormed, Inv, Apply;
      ReplayedInv(ops[..n]);
      ApplyKeepsInv(ops[..n], Replayed(ops[..n]), ops[n]);
      assert ops == ops[..n] + [ops[n]];
    }
  }

  /** Replayed handles are equal exactly when they name the same object. */
  lemma HandlesAreNames(ops: seq<Op>, m: Name, n: Name)
    requires WellFormed(ops) && Created(ops, m) && Created(ops, n)
    ensures Handle(Replayed(ops), m) != NULL
    ensures Handle(Replayed(ops), m) == Handle(Replayed(ops), n) <==> m == n
  {
    ReplayedInv(ops);
  }

  lemma {:induction false} HandleIsKept(ops: seq<Op>, k: nat, n: Name)
    requires WellFormed(ops) && k <= |ops| && Created(ops[..k], n)
    ensures Handle(Replayed(ops[..k]), n) == Handle(Replayed(ops), n)
    decreases |ops| - k
  {
    if k == |ops| {
      assert ops[..k] == ops;
    } else {
      var before, op := ops[..k], ops[k];
      assert Usable(before, op);
      assert ops[..k + 1] == before + [op] && (before + [op])[..k] == before;
      CreatedAppend(before, op, n);
      hide WellFormed, Created;
      HandleIsKept(ops, k + 1, n);
    }
  }

  /** A usable query is about a kernel whose creation came before it. */
  lemma AskedKernel(ops: seq<Op>, k: nat) returns (j: nat)
    requires WellFormed(ops) && k < |ops| && ops[k].AskProgram?
    ensures j < k && ops[j].CreateKernel? && ops[j].name == ops[k].kernel
  {
    assert Usable(ops[..k], ops[k]);
    j :| j < k && Creates(ops[..k][j], ops[k].kernel) && ops[..k][j].CreateKernel?;
  }

  lemma AnswerIsProgram(ops: seq<Op>, k: nat, j: nat)
    requires WellFormed(ops) && j < k < |ops| && ops[j].CreateKernel?
    ensures Answer(ops[..k], ops[j].name) == Handle(Replayed(ops), ops[j].program) != NULL
  {
    WellFormedPrefix(ops, k);
    ReplayedInv(ops[..k]);
    assert ops[..k][j] == ops[j];
    assert Remembered(Replayed(ops[..k]), ops[..k][j]);
    HandleIsKept(ops, k, ops[j].program);
    hide WellFormed, Created, Replayed;
  }

  /** In whatever order objects are created, each query is answered with the handle of the very program that the
      kernel was created from. */
  lemma AnswerIsOwnProgram(ops: seq<Op>, k: nat) returns (program: Name)
    requires WellFormed(ops) && k < |ops| && ops[k].AskProgram?
    ensures CreateKernel(ops[k].kernel, program) in ops
    ensures Answer(ops[..k], ops[k].kernel) == Handle(Replayed(ops), program) != NULL
  {
    var j := AskedKernel(ops, k);
    AnswerIsProgram(ops, k, j);
    program := ops[j].program;
  }

  /** A query for a handle: the program of a kernel, or anything else that is answered with an object's handle. */
  datatype Query = ProgramOf(kernel: Name) | HandleOf(asked: Name)

  /** The object a query asks for. */
  ghost predicate About(ops: seq<Op>, q: Query, target: Name) {
    match q
    case ProgramOf(kernel) => CreateKernel(kernel, target) in ops
    case HandleOf(asked) => asked == target
  }

  /** What the replayed query puts into the caller's memory: only a kernel's program is looked up,
      every other address is the recorded one. */
  function ReplayedAddress(ops: seq<Op>, q: Query, recorded: nat): nat {
    match q
    case ProgramOf(kernel) => Answer(ops, kernel)
    case HandleOf(_) => recorded
  }

  /** Whatever the plugin's handle of the object was, the replayed query yields the replayed handle of that object
      exactly for the program of a kernel. */
  lemma RenamedExactly(ops: seq<Op>, q: Query, target: Name)
    requires WellFormed(ops) && About(ops, q, target)
    ensures (forall recorded: nat :: ReplayedAddress(ops, q, recorded) == Handle(Replayed(ops), target)) <==> q.ProgramOf?
  {
    ReplayedInv(ops);
    hide WellFormed, Created, Replayed;
    match q {
      case ProgramOf(kernel) =>
        var k :| 0 <= k < |ops| && ops[k] == CreateKernel(kernel, target);
        assert Remembered(Replayed(ops), ops[k]);
      case HandleOf(_) =>
        assert ReplayedAddress(ops, q, Handle(Replayed(ops), target) + 1) != Handle(Replayed(ops), target);
    }
  }

  /** The replay plugin's own state. */
  class ReplayHandles {
    var kernelPrograms: map<nat, nat>
    var heap: nat

    constructor ()
      ensures Matches(START)
    {
      kernelPrograms, heap := map[], 1;
    }

    /** The plugin's state is that of the model, lookups being all that can be observed of the map. */
    ghost predicate Matches(s: State)
      reads this
    {
      heap == s.heap && forall k :: Lookup(kernelPrograms, k) == Lookup(s.kernelPrograms, k)
    }

    /** new int{1} */
    method New(ghost s: State, ghost name: Name) returns (handle: nat)
      requires Matches(s)
      modifies this`heap
      ensures Matches(Apply(s, Create(name))) && handle == Handle(Apply(s, Create(name)), name)
    {
      handle := heap;
      heap := heap + 1;
    }

    /** `s` is the model's state and `op` the creation; the program passes the handle it got for op.program. */
    method PiKernelCreate(program: nat, ghost s: State, ghost op: Op) returns (kernel: nat)
      requires Matches(s) && op.CreateKernel? && program == Handle(s, op.program)
      modifies this
      ensures Matches(Apply(s, op)) && kernel == Handle(Apply(s, op), op.name)
    {
      kernel := New(s, op.name);
      kernelPrograms := kernelPrograms[kernel := program];
      assert forall k :: Lookup(kernelPrograms, k) == if k == kernel then program else Lookup(old(kernelPrograms), k);
      assert forall k :: Lookup(Apply(s, op).kernelPrograms, k) == if k == kernel then program else Lookup(s.kernelPrograms, k);
    }

    /** operator[] of the map: an unknown kernel is entered with a null program. */
    method PiKernelGetProgram(kernel: nat, ghost s: State) returns (program: nat)
      requires Matches(s)
      modifies this`kernelPrograms
      ensures Matches(s) && program == Lookup(s.kernelPrograms, kernel)
    {
      if kernel !in kernelPrograms {
        kernelPrograms := kernelPrograms[kernel := NULL];
      }
      program := kernelPrograms[kernel];
    }
  }
}
