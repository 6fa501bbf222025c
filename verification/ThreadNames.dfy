// The interposed pthread_create: every child is named after its parent and the parent's
// spawn counter. Creating and naming a thread is one step here.
module ThreadNames {
  import opened Decimal

  /** The kernel keeps 15 characters of a thread name and rejects longer ones. */
  const NAME_LIMIT := 15

  /** `path` is the position in the spawn tree: which code the thread runs. The other fields are what the library sees. */
  datatype Thread = Thread(path: seq<nat>, name: string, counter: nat)

  /** pthread_setname_np: a rejected name leaves the one inherited from the creator. */
  function SetName(inherited: string, wanted: string): string {
    if |wanted| <= NAME_LIMIT then wanted else inherited
  }

  const MAIN := Thread([], "main", 0)

  function Child(parent: Thread): Thread {
    Thread(parent.path + [parent.counter],
           SetName(parent.name, parent.name + "_" + ToDecimal(parent.counter)), 0)
  }

  /** Thread i creates a thread. */
  function Spawn(ts: seq<Thread>, i: nat): seq<Thread>
    requires i < |ts|
  {
    ts[i := ts[i].(counter := ts[i].counter + 1)] + [Child(ts[i])]
  }

  /** The threads after a schedule of spawns; the k-th entry says which thread spawns. */
  predicate Schedule(sched: seq<nat>) {
    forall k :: 0 <= k < |sched| ==> sched[k] <= k
  }

  function Threads(sched: seq<nat>): (ts: seq<Thread>)
    requires Schedule(sched)
    ensures |ts| == |sched| + 1
  {
    if sched == [] then [MAIN] else Spawn(Threads(sched[..|sched| - 1]), sched[|sched| - 1])
  }

  /** The name a position gets, whatever the schedule. */
  function NameOf(path: seq<nat>): string {
    if path == [] then "main"
    else
      var parent := NameOf(path[..|path| - 1]);
      SetName(parent, parent + "_" + ToDecimal(path[|path| - 1]))
  }

  /** The name a position would get without the kernel's limit. */
  function FullName(path: seq<nat>): (s: string)
    ensures |s| >= 4
  {
    if path == [] then "main" else FullName(path[..|path| - 1]) + "_" + ToDecimal(path[|path| - 1])
  }

  lemma {:induction false} FullNameInjective(p: seq<nat>, q: seq<nat>)
    requires FullName(p) == FullName(q)
    ensures p == q
  {
    if p == [] && q == [] {
    } else if p == [] {
      MainIsNotAChild(q);
    } else if q == [] {
      MainIsNotAChild(p);
    } else {
      var p', q' := p[..|p| - 1], q[..|q| - 1];
      NumberedInjective(FullName(p'), p[|p| - 1], FullName(q'), q[|q| - 1]);
      FullNameInjective(p', q');
      assert p == p' + [p[|p| - 1]] && q == q' + [q[|q| - 1]];
    }
  }

  /** The k-th child of a thread is called after its parent and k, if that is at most 15 characters long;
      else it keeps its parent's name. */
  lemma ChildName(path: seq<nat>, k: nat)
    ensures NameOf([]) == "main"
    ensures var wanted := NameOf(path) + "_" + ToDecimal(k);
            NameOf(path + [k]) == if |wanted| <= 15 then wanted else NameOf(path)
  {
    assert (path + [k])[..|path|] == path;
  }

  lemma MainIsNotAChild(p: seq<nat>)
    requires p != []
    ensures FullName(p) != "main"
  {
    assert FullName(p)[|FullName(p[..|p| - 1])|] == '_';
  }

  lemma {:induction false} ShortNameIsFull(p: seq<nat>)
    requires |FullName(p)| <= NAME_LIMIT
    ensures NameOf(p) == FullName(p)
  {
    if p != [] {
      ShortNameIsFull(p[..|p| - 1]);
    }
  }

  /** A spawn tree: every position is there once, with all its ancestors and elder siblings. */
  ghost predicate Tree(ts: seq<Thread>) {
    && |ts| > 0 && ts[0].path == []
    && (forall i :: 0 <= i < |ts| ==> ts[i].name == NameOf(ts[i].path))
    && (forall i, j :: 0 <= i < j < |ts| ==> ts[i].path != ts[j].path)
    && (forall i :: 0 < i < |ts| ==> HasParent(ts, i))
    && (forall i, k: nat :: 0 <= i < |ts| && k < ts[i].counter ==> Present(ts, ts[i].path + [k]))
  }

  ghost predicate Present(ts: seq<Thread>, path: seq<nat>) {
    exists i :: 0 <= i < |ts| && ts[i].path == path
  }

  /** Thread j created thread i. */
  ghost predicate Parent(ts: seq<Thread>, j: nat, i: nat)
    requires i < |ts| && j < |ts|
  {
    var path := ts[i].path;
    path != [] && ts[j].path == path[..|path| - 1] && path[|path| - 1] < ts[j].counter
  }

  ghost predicate HasParent(ts: seq<Thread>, i: nat)
    requires i < |ts|
  {
    exists j: nat :: j < i && Parent(ts, j, i)
  }

  lemma NewPathIsNew(ts: seq<Thread>, i: nat, j: nat)
    requires Tree(ts) && i < |ts| && j < |ts|
    ensures ts[j].path != ts[i].path + [ts[i].counter]
  {
    var path := ts[i].path + [ts[i].counter];
    assert path[..|path| - 1] == ts[i].path && path[|path| - 1] == ts[i].counter;
    if j > 0 {
      assert HasParent(ts, j);
      var p: nat :| p < j && Parent(ts, p, j);
      if p != i { assert ts[p].path != ts[i].path; }
    }
  }

  lemma SpawnKeepsParent(ts: seq<Thread>, i: nat, j: nat)
    requires Tree(ts) && i < |ts| && 0 < j <= |ts|
    ensures HasParent(Spawn(ts, i), j)
  {
    var us := Spawn(ts, i);
    if j < |ts| {
      assert HasParent(ts, j);
      var p: nat :| p < j && Parent(ts, p, j);
      assert Parent(us, p, j);
    } else {
      var path := us[j].path;
      assert path[..|path| - 1] == us[i].path && path[|path| - 1] < us[i].counter;
      assert Parent(us, i, j);
    }
  }

  lemma SpawnKeepsChild(ts: seq<Thread>, i: nat, j: nat, k: nat)
    requires Tree(ts) && i < |ts| && j <= |ts| && k < Spawn(ts, i)[j].counter
    ensures Present(Spawn(ts, i), Spawn(ts, i)[j].path + [k])
  {
    var us := Spawn(ts, i);
    if j == i && k == ts[i].counter {
      assert us[|ts|].path == us[j].path + [k];
    } else {
      assert Present(ts, ts[j].path + [k]);
      var m :| 0 <= m < |ts| && ts[m].path == ts[j].path + [k];
      assert us[m].path == us[j].path + [k];
    }
  }

  lemma SpawnKeepsTree(ts: seq<Thread>, i: nat)
    requires Tree(ts) && i < |ts|
    ensures Tree(Spawn(ts, i))
  {
    var us := Spawn(ts, i);
    assert us[|ts|].path[..|us[|ts|].path| - 1] == ts[i].path;
    forall j, k | 0 <= j < k < |us| ensures us[j].path != us[k].path {
      if k == |ts| { NewPathIsNew(ts, i, j); }
    }
    forall j: nat | 0 < j < |us| ensures HasParent(us, j) {
      SpawnKeepsParent(ts, i, j);
    }
    forall j: nat, k: nat | j < |us| && k < us[j].counter ensures Present(us, us[j].path + [k]) {
      SpawnKeepsChild(ts, i, j, k);
    }
  }

  lemma {:induction false} ThreadsFormTree(sched: seq<nat>)
    requires Schedule(sched)
    ensures Tree(Threads(sched))
  {
    if sched != [] {
      var before := sched[..|sched| - 1];
      ThreadsFormTree(before);
      SpawnKeepsTree(Threads(before), sched[|sched| - 1]);
    }
  }

  ghost predicate NamesDistinct(ts: seq<Thread>) {
    forall i, j :: 0 <= i < j < |ts| ==> ts[i].name != ts[j].name
  }

  /** Every thread's untruncated name is within the kernel's limit. */
  predicate NamesFit(ts: seq<Thread>) {
    forall i :: 0 <= i < |ts| ==> |FullName(ts[i].path)| <= NAME_LIMIT
  }

  /** Thread names are pairwise distinct exactly when all of them fit. */
  lemma DistinctIffFit(ts: seq<Thread>)
    requires Tree(ts)
    ensures NamesDistinct(ts) <==> NamesFit(ts)
  {
    if NamesFit(ts) {
      forall i, j | 0 <= i < j < |ts| ensures ts[i].name != ts[j].name {
        ShortNameIsFull(ts[i].path);
        ShortNameIsFull(ts[j].path);
        if ts[i].name == ts[j].name { FullNameInjective(ts[i].path, ts[j].path); }
      }
    } else {
      var i :| 0 <= i < |ts| && |FullName(ts[i].path)| > NAME_LIMIT;
      LongNameCollides(ts, i);
    }
  }

  lemma {:induction false} LongNameCollides(ts: seq<Thread>, i: nat)
    requires Tree(ts) && i < |ts|
    requires |FullName(ts[i].path)| > NAME_LIMIT
    ensures !NamesDistinct(ts)
  {
    assert i > 0;
    assert HasParent(ts, i);
    var j: nat :| j < i && Parent(ts, j, i);
    if |FullName(ts[j].path)| > NAME_LIMIT {
      LongNameCollides(ts, j);
    } else {
      ShortNameIsFull(ts[j].path);
      assert ts[i].name == ts[j].name;
    }
  }

  /** Two runs with any schedules give the same name to the same position. */
  lemma NameIgnoresSchedule(s1: seq<nat>, s2: seq<nat>, i: nat, j: nat)
    requires Schedule(s1) && Schedule(s2) && i <= |s1| && j <= |s2|
    requires Threads(s1)[i].path == Threads(s2)[j].path
    ensures Threads(s1)[i].name == Threads(s2)[j].name
  {
    ThreadsFormTree(s1);
    ThreadsFormTree(s2);
  }

  /** In every run of spawns from main the names are pairwise distinct exactly when they fit. */
  lemma SpawnedNamesDistinctIffFit(sched: seq<nat>)
    requires Schedule(sched)
    ensures NamesDistinct(Threads(sched)) <==> NamesFit(Threads(sched))
  {
    ThreadsFormTree(sched);
    DistinctIffFit(Threads(sched));
  }

  /** The library inside one process: thread-local counters, names set by side effect. */
  class ThreadTable {
    var threads: seq<Thread>

    ghost predicate Valid()
      reads this
    {
      Tree(threads)
    }

    /** The library constructor: names the initial thread. */
    constructor ()
      ensures Valid() && threads == [MAIN]
    {
      threads := [MAIN];
    }

    /** pthread_create called on thread `self`. */
    method PthreadCreate(self: nat) returns (created: nat)
      requires Valid() && self < |threads|
      modifies this
      ensures Valid() && threads == Spawn(old(threads), self)
      ensures created == |old(threads)| && |threads| == created + 1
      ensures var me := old(threads[self]);
              var wanted := me.name + "_" + ToDecimal(me.counter);
              && threads[created].name == (if |wanted| <= 15 then wanted else me.name)
              && threads[created].counter == 0 && threads[self].counter == me.counter + 1
      ensures NamesFit(threads) ==> forall i :: 0 <= i < created ==> threads[i].name != threads[created].name
    {
      SpawnKeepsTree(threads, self);
      DistinctIffFit(Spawn(threads, self));
      created := |threads|;
      var me := threads[self];
      var newName := me.name + "_" + ToDecimal(me.counter);
      threads := threads[self := me.(counter := me.counter + 1)];
      threads := threads + [Thread(me.path + [me.counter], SetName(me.name, newName), 0)];
    }
  }
}
