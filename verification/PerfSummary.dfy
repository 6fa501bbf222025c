// The trace printer: the performance table, and the two orders in which calls are listed.
module PerfSummary {
  import opened Bytes
  import opened PiCalls
  import opened Wrappers

  /** A call and the thread whose trace file it came from. */
  datatype Entry = Entry(thread: string, call: ApiCall)

  /** One row of the table; every field is a size_t. */
  datatype Summary = Summary(calls: U64, longest: U64, shortest: U64, total: U64)

  type Table = map<Api, Summary>

  const NO_CALLS := Summary(0, 0, U64_MAX, 0)

  function Wrap(n: int): U64 {
    n % (U64_MAX + 1)
  }

  /** The unsigned difference of the two timestamps. */
  function Duration(r: Entry): U64 {
    Wrap(r.call.timeEnd - r.call.timeStart)
  }

  function Row(t: Table, api: Api): Summary {
    if api in t then t[api] else NO_CALLS
  }

  function Add(s: Summary, d: U64): Summary {
    Summary(Wrap(s.calls + 1), if s.longest < d then d else s.longest,
            if d < s.shortest then d else s.shortest, Wrap(s.total + d))
  }

  function Collected(t: Table, r: Entry): Table {
    t[r.call.functionId := Add(Row(t, r.call.functionId), Duration(r))]
  }

  /** The table after the calls `rs` were collected in order. */
  function Summarised(rs: seq<Entry>): Table {
    if rs == [] then map[] else Collected(Summarised(rs[..|rs| - 1]), rs[|rs| - 1])
  }

  lemma SummarisedAppend(rs: seq<Entry>, r: Entry)
    ensures Summarised(rs + [r]) == Collected(Summarised(rs), r)
  {
    assert (rs + [r])[..|rs|] == rs;
  }

  // ---- The order of collection does not matter ----

  lemma WrapAdd(n: nat, m: nat)
    ensures Wrap(Wrap(n) + m) == Wrap(n + m)
  {
  }

  lemma AddCommutes(s: Summary, d: U64, e: U64)
    ensures Add(Add(s, d), e) == Add(Add(s, e), d)
  {
    hide Wrap;
    WrapAdd(s.total + d, e);
    WrapAdd(s.total + e, d);
    assert s.total + d + e == s.total + e + d;
  }

  lemma CollectedCommutes(t: Table, a: Entry, b: Entry)
    ensures Collected(Collected(t, a), b) == Collected(Collected(t, b), a)
  {
    hide Add, Duration;
    if a.call.functionId == b.call.functionId {
      AddCommutes(Row(t, a.call.functionId), Duration(a), Duration(b));
    }
  }

  function Without(rs: seq<Entry>, i: nat): seq<Entry>
    requires i < |rs|
  {
    rs[..i] + rs[i + 1..]
  }

  lemma WithoutMultiset(rs: seq<Entry>, i: nat)
    requires i < |rs|
    ensures multiset(Without(rs, i)) == multiset(rs) - multiset{rs[i]}
  {
    assert rs == rs[..i] + [rs[i]] + rs[i + 1..];
  }

  lemma WithoutLast(rs: seq<Entry>, i: nat)
    requires i < |rs|
    ensures var n := |rs| - 1;
            Without(rs, i) == if i < n then Without(rs[..n], i) + [rs[n]] else rs[..n]
  {
  }

  /** Any call could have been collected last. */
  lemma {:induction false} CollectLast(rs: seq<Entry>, i: nat)
    requires i < |rs|
    ensures Summarised(rs) == Collected(Summarised(Without(rs, i)), rs[i])
  {
    hide Collected, Without, Summarised;
    var n := |rs| - 1;
    assert rs == rs[..n] + [rs[n]];
    SummarisedAppend(rs[..n], rs[n]);
    WithoutLast(rs, i);
    if i < n {
      var rest := Without(rs[..n], i);
      CollectLast(rs[..n], i);
      SummarisedAppend(rest, rs[n]);
      CollectedCommutes(Summarised(rest), rs[i], rs[n]);
    }
  }

  /** Every order of the same calls gives the same table, wrap-around included. */
  lemma {:induction false} TableIgnoresOrder(rs: seq<Entry>, rs': seq<Entry>)
    requires multiset(rs) == multiset(rs')
    ensures Summarised(rs) == Summarised(rs')
    decreases |rs'|
  {
    hide Collected;
    assert |rs| == |multiset(rs)| == |multiset(rs')| == |rs'|;
    if rs' != [] {
      var n := |rs'| - 1;
      assert rs'[n] in multiset(rs);
      var i :| 0 <= i < |rs| && rs[i] == rs'[n];
      WithoutMultiset(rs, i);
      WithoutMultiset(rs', n);
      assert Without(rs', n) == rs'[..n];
      TableIgnoresOrder(Without(rs, i), rs'[..n]);
      CollectLast(rs, i);
    }
  }

  // ---- What a row means ----

  /** The durations of the calls of one function. */
  function Times(rs: seq<Entry>, api: Api): (ds: seq<U64>)
    ensures |ds| <= |rs|
  {
    if rs == [] then []
    else
      var last := rs[|rs| - 1];
      Times(rs[..|rs| - 1], api) + if last.call.functionId == api then [Duration(last)] else []
  }

  /** A row appears exactly for the functions called. */
  lemma {:induction false} HasTimes(rs: seq<Entry>, api: Api)
    ensures Times(rs, api) != [] <==> exists k :: 0 <= k < |rs| && rs[k].call.functionId == api
  {
    if rs != [] {
      var n := |rs| - 1;
      HasTimes(rs[..n], api);
      if rs[n].call.functionId != api {
        assert forall k :: 0 <= k < n ==> rs[..n][k] == rs[k];
      }
    }
  }

  function Sum(ds: seq<U64>): nat {
    if ds == [] then 0 else Sum(ds[..|ds| - 1]) + ds[|ds| - 1]
  }

  lemma SumAppend(ds: seq<U64>, d: U64)
    ensures Sum(ds + [d]) == Sum(ds) + d
  {
    assert (ds + [d])[..|ds|] == ds;
  }

  /** The extremes of a row are extreme durations, and both occur. */
  ghost predicate Extremes(s: Summary, ds: seq<U64>) {
    && (forall k :: 0 <= k < |ds| ==> s.shortest <= ds[k] <= s.longest)
    && (if ds == [] then s.shortest == U64_MAX && s.longest == 0 else s.shortest in ds && s.longest in ds)
  }

  lemma AddKeepsExtremes(s: Summary, ds: seq<U64>, d: U64)
    requires Extremes(s, ds)
    ensures Extremes(Add(s, d), ds + [d])
  {
    var s', ds' := Add(s, d), ds + [d];
    assert ds'[|ds|] == d;
    assert forall k :: 0 <= k < |ds| ==> ds'[k] == ds[k];
    if ds != [] {
      assert s.shortest in ds' && s.longest in ds';
    }
  }

  /** There is a row for exactly the functions called; it counts their calls, adds their durations and knows their extremes. */
  lemma {:induction false} RowMeans(rs: seq<Entry>, api: Api)
    ensures api in Summarised(rs) <==> Times(rs, api) != []
    ensures Row(Summarised(rs), api).calls == Wrap(|Times(rs, api)|)
    ensures Row(Summarised(rs), api).total == Wrap(Sum(Times(rs, api)))
    ensures Extremes(Row(Summarised(rs), api), Times(rs, api))
  {
    hide Extremes, Duration, Wrap, Sum;
    if rs == [] {
      EmptyRow();
    } else {
      var before, last := rs[..|rs| - 1], rs[|rs| - 1];
      var t, s, ds := Summarised(before), Row(Summarised(before), api), Times(before, api);
      assert Summarised(rs) == Collected(t, last);
      assert Times(rs, api) == ds + if last.call.functionId == api then [Duration(last)] else [];
      hide Summarised, Times, Add;
      RowMeans(before, api);
      if last.call.functionId == api {
        AddKeepsExtremes(s, ds, Duration(last));
        SumAppend(ds, Duration(last));
        AddCounts(s, ds, Duration(last));
      } else {
        assert Times(rs, api) == ds;
      }
    }
  }

  lemma AddCounts(s: Summary, ds: seq<U64>, d: U64)
    requires s.calls == Wrap(|ds|) && s.total == Wrap(Sum(ds))
    ensures Add(s, d).calls == Wrap(|ds| + 1) && Add(s, d).total == Wrap(Sum(ds) + d)
  {
    hide Wrap, Sum;
    WrapAdd(Sum(ds), d);
    WrapAdd(|ds|, 1);
  }

  lemma EmptyRow()
    ensures Extremes(NO_CALLS, []) && Sum([]) == Wrap(0) == 0
  {
  }

  lemma {:induction false} SumBounds(ds: seq<U64>, lo: nat, hi: nat)
    requires forall k :: 0 <= k < |ds| ==> lo <= ds[k] <= hi
    ensures lo * |ds| <= Sum(ds) <= hi * |ds|
  {
    if ds != [] {
      var n := |ds| - 1;
      SumBounds(ds[..n], lo, hi);
      assert lo * |ds| == lo * n + lo && hi * |ds| == hi * n + hi;
    }
  }

  lemma ProductMonotone(a: nat, b: nat, n: nat)
    requires a <= b
    ensures a * n <= b * n
  {
  }

  lemma FactorLess(a: nat, b: nat, n: nat)
    requires a * n < b * n
    ensures a < b
  {
    if b <= a { ProductMonotone(b, a, n); }
  }

  lemma QuotientBetween(total: nat, n: nat, lo: nat, hi: nat)
    requires n > 0 && lo * n <= total <= hi * n
    ensures lo <= total / n <= hi
  {
    var q := total / n;
    assert q * n <= total < q * n + n == (q + 1) * n;
    assert hi * n < hi * n + n == (hi + 1) * n;
    FactorLess(lo, q + 1, n);
    FactorLess(q, hi + 1, n);
  }

  /** As long as nothing overflows, the printed average lies between the extremes. */
  lemma AverageBetween(rs: seq<Entry>, api: Api)
    requires api in Summarised(rs) && |rs| <= U64_MAX && Sum(Times(rs, api)) <= U64_MAX
    ensures var s := Summarised(rs)[api];
            s.calls > 0 && s.shortest <= s.total / s.calls <= s.longest
  {
    hide Summarised, Times, Sum;
    RowMeans(rs, api);
    var s, ds := Summarised(rs)[api], Times(rs, api);
    SumBounds(ds, s.shortest, s.longest);
    QuotientBetween(Sum(ds), |ds|, s.shortest, s.longest);
  }

  // ---- A row from the timestamps ----

  /** The sum of the end times of the calls of one function, and of their start times. */
  function Ends(rs: seq<Entry>, api: Api): nat {
    if rs == [] then 0
    else
      var last := rs[|rs| - 1];
      Ends(rs[..|rs| - 1], api) + if last.call.functionId == api then last.call.timeEnd else 0
  }

  function Starts(rs: seq<Entry>, api: Api): nat {
    if rs == [] then 0
    else
      var last := rs[|rs| - 1];
      Starts(rs[..|rs| - 1], api) + if last.call.functionId == api then last.call.timeStart else 0
  }

  predicate Forward(rs: seq<Entry>, api: Api) {
    forall k :: 0 <= k < |rs| && rs[k].call.functionId == api ==> rs[k].call.timeStart <= rs[k].call.timeEnd
  }

  lemma DurationMeans(r: Entry)
    ensures r.call.timeStart <= r.call.timeEnd ==> Duration(r) == r.call.timeEnd - r.call.timeStart
    ensures exists k: int :: Duration(r) == r.call.timeEnd - r.call.timeStart + 0x1_0000_0000_0000_0000 * k
  {
    var d := r.call.timeEnd - r.call.timeStart;
    if d < 0 {
      assert Duration(r) == d + 0x1_0000_0000_0000_0000 * 1;
    } else {
      assert Duration(r) == d + 0x1_0000_0000_0000_0000 * 0;
    }
  }

  /** Durations are ends minus starts, up to whole turns of the counter. */
  lemma {:induction false} TimesSum(rs: seq<Entry>, api: Api) returns (turns: int)
    ensures Sum(Times(rs, api)) == Ends(rs, api) - Starts(rs, api) + 0x1_0000_0000_0000_0000 * turns
  {
    hide Duration;
    if rs == [] {
      turns := 0;
    } else {
      var n := |rs| - 1;
      turns := TimesSum(rs[..n], api);
      if rs[n].call.functionId == api {
        DurationMeans(rs[n]);
        var k: int :| Duration(rs[n]) == rs[n].call.timeEnd - rs[n].call.timeStart + 0x1_0000_0000_0000_0000 * k;
        SumAppend(Times(rs[..n], api), Duration(rs[n]));
        turns := turns + k;
      } else {
        assert Times(rs, api) == Times(rs[..n], api);
      }
    }
  }

  lemma {:induction false} TimesAre(rs: seq<Entry>, api: Api, d: U64)
    ensures d in Times(rs, api) <==> exists k :: 0 <= k < |rs| && rs[k].call.functionId == api && Duration(rs[k]) == d
  {
    hide Duration;
    if rs != [] {
      var n := |rs| - 1;
      TimesAre(rs[..n], api, d);
      assert forall k :: 0 <= k < n ==> rs[..n][k] == rs[k];
    }
  }

  lemma WrapTurns(x: nat, y: int, turns: int)
    requires x == y + 0x1_0000_0000_0000_0000 * turns
    ensures Wrap(x) == y % 0x1_0000_0000_0000_0000
  {
  }

  /** The total of a row is the sum of the ends minus the sum of the starts, in 64 bits. */
  lemma TotalFromTimestamps(rs: seq<Entry>, api: Api)
    ensures Row(Summarised(rs), api).total == (Ends(rs, api) - Starts(rs, api)) % 0x1_0000_0000_0000_0000
  {
    hide Summarised, Times, Sum, Ends, Starts, Wrap;
    RowMeans(rs, api);
    var turns := TimesSum(rs, api);
    WrapTurns(Sum(Times(rs, api)), Ends(rs, api) - Starts(rs, api), turns);
  }

  /** If no call ends before it starts, the extremes of a row bound the calls' times, and two calls attain them. */
  lemma ExtremesFromTimestamps(rs: seq<Entry>, api: Api)
    requires api in Summarised(rs) && Forward(rs, api)
    ensures var s := Summarised(rs)[api];
            && (forall k :: 0 <= k < |rs| && rs[k].call.functionId == api ==>
                  s.shortest <= rs[k].call.timeEnd - rs[k].call.timeStart <= s.longest)
            && (exists k :: 0 <= k < |rs| && rs[k].call.functionId == api && rs[k].call.timeEnd - rs[k].call.timeStart == s.shortest)
            && (exists k :: 0 <= k < |rs| && rs[k].call.functionId == api && rs[k].call.timeEnd - rs[k].call.timeStart == s.longest)
  {
    hide Summarised, Times, Duration;
    RowMeans(rs, api);
    var s, ds := Summarised(rs)[api], Times(rs, api);
    forall k | 0 <= k < |rs| && rs[k].call.functionId == api
      ensures s.shortest <= rs[k].call.timeEnd - rs[k].call.timeStart <= s.longest
    {
      DurationMeans(rs[k]);
      TimesAre(rs, api, Duration(rs[k]));
    }
    AttainedBy(rs, api, s.shortest);
    AttainedBy(rs, api, s.longest);
  }

  lemma AttainedBy(rs: seq<Entry>, api: Api, d: U64)
    requires d in Times(rs, api) && Forward(rs, api)
    ensures exists k :: 0 <= k < |rs| && rs[k].call.functionId == api && rs[k].call.timeEnd - rs[k].call.timeStart == d
  {
    hide Duration;
    TimesAre(rs, api, d);
    var k :| 0 <= k < |rs| && rs[k].call.functionId == api && Duration(rs[k]) == d;
    DurationMeans(rs[k]);
  }

  predicate Later(r: Entry, shifted: Entry, shift: nat) {
    && shifted.call.functionId == r.call.functionId
    && shifted.call.timeStart == r.call.timeStart + shift && shifted.call.timeEnd == r.call.timeEnd + shift
  }

  /** A clock that started earlier gives the same table. */
  lemma {:induction false} TableIgnoresClockStart(rs: seq<Entry>, shifted: seq<Entry>, shift: nat)
    requires |shifted| == |rs| && forall k :: 0 <= k < |rs| ==> Later(rs[k], shifted[k], shift)
    ensures Summarised(shifted) == Summarised(rs)
  {
    if rs != [] {
      var n := |rs| - 1;
      TableIgnoresClockStart(rs[..n], shifted[..n], shift);
      assert Later(rs[n], shifted[n], shift);
      assert Duration(shifted[n]) == Duration(rs[n]);
    }
  }

  // ---- The time-sorted listing ----

  predicate ByStart(rs: seq<Entry>) {
    forall i, j :: 0 <= i < j < |rs| ==> rs[i].call.timeStart <= rs[j].call.timeStart
  }

  predicate StrictlyByStart(rs: seq<Entry>) {
    forall i, j :: 0 <= i < j < |rs| ==> rs[i].call.timeStart < rs[j].call.timeStart
  }

  /** Calls that start at the same time are the same record. */
  predicate TiesEqual(rs: seq<Entry>) {
    forall i, j :: 0 <= i < j < |rs| && rs[i].call.timeStart == rs[j].call.timeStart ==> rs[i] == rs[j]
  }

  /** What std::sort may leave behind: it is not stable, so any ordered permutation. */
  ghost predicate SortOf(rs: seq<Entry>, sorted: seq<Entry>) {
    multiset(sorted) == multiset(rs) && ByStart(sorted)
  }

  function Of(rs: seq<Entry>, thread: string): seq<Entry> {
    if rs == [] then []
    else
      var last := rs[|rs| - 1];
      Of(rs[..|rs| - 1], thread) + if last.thread == thread then [last] else []
  }

  lemma {:induction false} OfElements(rs: seq<Entry>, thread: string, r: Entry)
    ensures multiset(Of(rs, thread))[r] == if r.thread == thread then multiset(rs)[r] else 0
  {
    if rs != [] {
      var n := |rs| - 1;
      OfElements(rs[..n], thread, r);
      assert rs == rs[..n] + [rs[n]];
    }
  }

  lemma {:induction false} OfOrdered(rs: seq<Entry>, thread: string)
    requires ByStart(rs)
    ensures ByStart(Of(rs, thread))
  {
    if rs != [] {
      var n := |rs| - 1;
      OfOrdered(rs[..n], thread);
      forall r | r in Of(rs[..n], thread) ensures r.call.timeStart <= rs[n].call.timeStart {
        OfElements(rs[..n], thread, r);
        assert r in multiset(rs[..n]);
      }
    }
  }

  lemma LastIsLatest(rs: seq<Entry>, k: nat)
    requires ByStart(rs) && k < |rs|
    ensures rs[k].call.timeStart <= rs[|rs| - 1].call.timeStart
  {
  }

  lemma TieWithLast(rs: seq<Entry>, k: nat)
    requires TiesEqual(rs) && k < |rs| && rs[k].call.timeStart == rs[|rs| - 1].call.timeStart
    ensures rs[k] == rs[|rs| - 1]
  {
  }

  lemma OrderOfPrefix(rs: seq<Entry>, n: nat)
    requires n <= |rs|
    ensures ByStart(rs) ==> ByStart(rs[..n])
    ensures TiesEqual(rs) ==> TiesEqual(rs[..n])
  {
  }

  /** Where an ordered sequence without different ties ends, every ordered permutation of it ends. */
  lemma SameLast(a: seq<Entry>, b: seq<Entry>)
    requires multiset(a) == multiset(b) && ByStart(a) && TiesEqual(a) && ByStart(b)
    requires |a| == |b| > 0
    ensures a[|a| - 1] == b[|b| - 1]
  {
    hide ByStart, TiesEqual;
    var n := |a| - 1;
    assert a[n] in multiset(b) && b[n] in multiset(a);
    var i :| 0 <= i < |b| && b[i] == a[n];
    var j :| 0 <= j < |a| && a[j] == b[n];
    LastIsLatest(b, i);
    LastIsLatest(a, j);
    TieWithLast(a, j);
  }

  lemma SameSize(a: seq<Entry>, b: seq<Entry>)
    requires multiset(a) == multiset(b)
    ensures |a| == |b|
  {
    assert |a| == |multiset(a)| == |multiset(b)| == |b|;
  }

  lemma SameRest(a: seq<Entry>, b: seq<Entry>)
    requires multiset(a) == multiset(b) && |a| == |b| > 0 && a[|a| - 1] == b[|b| - 1]
    ensures multiset(a[..|a| - 1]) == multiset(b[..|b| - 1])
  {
    var n := |a| - 1;
    WithoutMultiset(a, n);
    WithoutMultiset(b, n);
    assert Without(a, n) == a[..n] && Without(b, n) == b[..n];
  }

  lemma Rejoin(a: seq<Entry>, b: seq<Entry>, n: nat)
    requires |a| == |b| == n + 1 && a[..n] == b[..n] && a[n] == b[n]
    ensures a == b
  {
    assert a == a[..n] + [a[n]] && b == b[..n] + [b[n]];
  }

  lemma {:induction false} OrderUnique(a: seq<Entry>, b: seq<Entry>)
    requires multiset(a) == multiset(b) && ByStart(a) && TiesEqual(a) && ByStart(b)
    ensures a == b
  {
    hide ByStart, TiesEqual;
    SameSize(a, b);
    if a != [] {
      var n := |a| - 1;
      OrderOfPrefix(a, n);
      OrderOfPrefix(b, n);
      SameLast(a, b);
      SameRest(a, b);
      OrderUnique(a[..n], b[..n]);
      Rejoin(a, b, n);
    }
  }

  lemma OfPermuted(rs: seq<Entry>, sorted: seq<Entry>, thread: string)
    requires multiset(sorted) == multiset(rs)
    ensures multiset(Of(sorted, thread)) == multiset(Of(rs, thread))
  {
    forall r ensures multiset(Of(sorted, thread))[r] == multiset(Of(rs, thread))[r] {
      OfElements(rs, thread, r);
      OfElements(sorted, thread, r);
    }
  }

  /** If a thread's start times strictly increase, every sort lists its calls in file order. */
  lemma SortKeepsThreadOrder(rs: seq<Entry>, sorted: seq<Entry>, thread: string)
    requires SortOf(rs, sorted) && StrictlyByStart(Of(rs, thread))
    ensures Of(sorted, thread) == Of(rs, thread)
  {
    SortExact(rs, thread);
  }

  /** Every sort lists a thread's calls in file order exactly when they are ordered by start already and
      calls that start together are the same record. */
  lemma SortExact(rs: seq<Entry>, thread: string)
    ensures (forall sorted :: SortOf(rs, sorted) ==> Of(sorted, thread) == Of(rs, thread))
            <==> ByStart(Of(rs, thread)) && TiesEqual(Of(rs, thread))
  {
    if ByStart(Of(rs, thread)) && TiesEqual(Of(rs, thread)) {
      forall sorted | SortOf(rs, sorted) ensures Of(sorted, thread) == Of(rs, thread) {
        OfOrdered(sorted, thread);
        OfPermuted(rs, sorted, thread);
        OrderUnique(Of(rs, thread), Of(sorted, thread));
      }
    }
    if forall sorted :: SortOf(rs, sorted) ==> Of(sorted, thread) == Of(rs, thread) {
      SomeSort(rs);
      OfOrdered(InsertionSorted(rs), thread);
      var mine := Of(rs, thread);
      forall i, j | 0 <= i < j < |mine| && mine[i].call.timeStart == mine[j].call.timeStart ensures mine[i] == mine[j] {
        TiesMustAgree(rs, thread, mine[i], mine[j]);
      }
    }
  }

  /** One of the results std::sort may have. */
  function InsertionSorted(rs: seq<Entry>): seq<Entry> {
    if rs == [] then [] else Inserted(InsertionSorted(rs[..|rs| - 1]), rs[|rs| - 1])
  }

  function Inserted(rs: seq<Entry>, r: Entry): seq<Entry> {
    if rs == [] || rs[|rs| - 1].call.timeStart <= r.call.timeStart then rs + [r]
    else Inserted(rs[..|rs| - 1], r) + [rs[|rs| - 1]]
  }

  lemma OrderedAppend(rs: seq<Entry>, r: Entry)
    requires ByStart(rs) && forall x :: x in rs ==> x.call.timeStart <= r.call.timeStart
    ensures ByStart(rs + [r])
  {
  }

  lemma {:induction false} InsertedElements(rs: seq<Entry>, r: Entry)
    ensures multiset(Inserted(rs, r)) == multiset(rs) + multiset{r}
  {
    if rs != [] && r.call.timeStart < rs[|rs| - 1].call.timeStart {
      InsertedElements(rs[..|rs| - 1], r);
      SplitLast(rs);
    }
  }

  lemma {:induction false} InsertedSorts(rs: seq<Entry>, r: Entry)
    requires ByStart(rs)
    ensures multiset(Inserted(rs, r)) == multiset(rs) + multiset{r} && ByStart(Inserted(rs, r))
    decreases |rs|, 1
  {
    hide ByStart;
    InsertedElements(rs, r);
    if rs == [] {
      OrderedAppend(rs, r);
    } else if rs[|rs| - 1].call.timeStart <= r.call.timeStart {
      forall x | x in rs ensures x.call.timeStart <= r.call.timeStart {
        EarlierThanLast(rs, x);
      }
      OrderedAppend(rs, r);
    } else {
      InsertBeforeLast(rs, r);
    }
  }

  lemma InsertBeforeLast(rs: seq<Entry>, r: Entry)
    requires rs != [] && ByStart(rs) && r.call.timeStart < rs[|rs| - 1].call.timeStart
    ensures ByStart(Inserted(rs, r))
    decreases |rs|, 0
  {
    var n := |rs| - 1;
    var init, last, head := rs[..n], rs[n], Inserted(rs[..n], r);
    assert Inserted(rs, r) == head + [last];
    OrderOfPrefix(rs, n);
    hide ByStart, Inserted;
    InsertedSorts(init, r);
    forall x | x in head ensures x.call.timeStart <= last.call.timeStart {
      assert x in multiset(init) + multiset{r};
      if x in init { EarlierThanLast(rs, x); }
    }
    OrderedAppend(head, last);
  }

  lemma EarlierThanLast(rs: seq<Entry>, x: Entry)
    requires ByStart(rs) && x in rs
    ensures x.call.timeStart <= rs[|rs| - 1].call.timeStart
  {
    var k :| 0 <= k < |rs| && rs[k] == x;
    LastIsLatest(rs, k);
  }

  lemma {:induction false} SomeSort(rs: seq<Entry>)
    ensures SortOf(rs, InsertionSorted(rs))
  {
    hide ByStart, Inserted;
    if rs == [] {
      NothingOrdered();
    } else {
      var n := |rs| - 1;
      SomeSort(rs[..n]);
      InsertedSorts(InsertionSorted(rs[..n]), rs[n]);
      SplitLast(rs);
    }
  }

  lemma SplitLast(rs: seq<Entry>)
    requires rs != []
    ensures multiset(rs) == multiset(rs[..|rs| - 1]) + multiset{rs[|rs| - 1]}
  {
    assert rs == rs[..|rs| - 1] + [rs[|rs| - 1]];
  }

  lemma NothingOrdered()
    ensures ByStart([])
  {
  }

  /** A call of the thread is listed after those before it. */
  lemma {:induction false} OfAt(rs: seq<Entry>, thread: string, p: nat)
    requires p < |rs| && rs[p].thread == thread
    ensures |Of(rs[..p], thread)| < |Of(rs, thread)| && Of(rs, thread)[|Of(rs[..p], thread)|] == rs[p]
  {
    var n := |rs| - 1;
    if p < n {
      OfAt(rs[..n], thread, p);
      assert rs[..n][..p] == rs[..p];
    }
  }

  function Swapped(rs: seq<Entry>, p: nat, q: nat): seq<Entry>
    requires p < |rs| && q < |rs|
  {
    rs[p := rs[q]][q := rs[p]]
  }

  /** Swapping two calls of a thread that start together gives another sort, and a different list if they differ. */
  lemma SwapTies(rs: seq<Entry>, sorted: seq<Entry>, thread: string, p: nat, q: nat)
    requires SortOf(rs, sorted) && p < q < |sorted|
    requires sorted[p].thread == sorted[q].thread == thread && sorted[p].call.timeStart == sorted[q].call.timeStart
    ensures SortOf(rs, Swapped(sorted, p, q))
    ensures Of(Swapped(sorted, p, q), thread) == Of(sorted, thread) ==> sorted[p] == sorted[q]
  {
    var swapped := Swapped(sorted, p, q);
    assert forall k :: 0 <= k < |sorted| ==> swapped[k].call.timeStart == sorted[k].call.timeStart;
    hide Of;
    OfAt(sorted, thread, p);
    OfAt(swapped, thread, p);
    assert swapped[..p] == sorted[..p];
  }

  lemma TiesMustAgree(rs: seq<Entry>, thread: string, x: Entry, y: Entry)
    requires forall sorted :: SortOf(rs, sorted) ==> Of(sorted, thread) == Of(rs, thread)
    requires x in Of(rs, thread) && y in Of(rs, thread) && x.call.timeStart == y.call.timeStart
    ensures x == y
  {
    hide Of, SortOf, InsertionSorted, Swapped;
    var sorted := InsertionSorted(rs);
    SomeSort(rs);
    var p := PlaceOf(rs, sorted, thread, x);
    var q := PlaceOf(rs, sorted, thread, y);
    if p < q {
      SwapTies(rs, sorted, thread, p, q);
    } else if q < p {
      SwapTies(rs, sorted, thread, q, p);
    }
  }

  lemma PlaceOf(rs: seq<Entry>, sorted: seq<Entry>, thread: string, x: Entry) returns (p: nat)
    requires SortOf(rs, sorted) && x in Of(rs, thread)
    ensures p < |sorted| && sorted[p] == x && x.thread == thread
  {
    hide Of, ByStart;
    OfElements(rs, thread, x);
    assert x in multiset(Of(rs, thread));
    assert x in multiset(sorted);
    p :| p < |sorted| && sorted[p] == x;
  }

  lemma PairOrdered(a: Entry, b: Entry)
    requires a.call.timeStart <= b.call.timeStart
    ensures ByStart([a, b])
  {
  }

  lemma OfPair(a: Entry, b: Entry)
    requires a.thread == b.thread
    ensures Of([a, b], a.thread) == [a, b]
  {
    assert [a, b][..1] == [a] && [a][..0] == [];
    assert Of([a], a.thread) == [a];
  }

  /** Two different calls that start in the same microsecond may be listed in either order. */
  lemma TiesMayFlip(a: Entry, b: Entry)
    requires a != b && a.thread == b.thread && a.call.timeStart == b.call.timeStart
    ensures SortOf([a, b], [b, a]) && SortOf([a, b], [a, b])
    ensures Of([b, a], a.thread) != Of([a, b], a.thread)
  {
    hide Of, ByStart;
    OfPair(a, b);
    OfPair(b, a);
    assert [a, b][0] != [b, a][0];
    PairOrdered(a, b);
    PairOrdered(b, a);
    assert multiset([a, b]) == multiset{a, b} == multiset([b, a]);
  }

  // ---- printTrace ----

  /** What is printed, line by line. */
  datatype Line = StartThread(name: string) | EndThread(name: string) | Thread(name: string) | Call(call: ApiCall)

  /** Reading a listing back: a call belongs to the thread announced last. */
  function ReadBack(lines: seq<Line>): (r: (seq<Entry>, string)) {
    if lines == [] then ([], "")
    else
      var (rs, thread) := ReadBack(lines[..|lines| - 1]);
      match lines[|lines| - 1]
      case StartThread(name) => (rs, name)
      case EndThread(_) => (rs, thread)
      case Thread(name) => (rs, name)
      case Call(call) => (rs + [Entry(thread, call)], thread)
  }

  lemma ReadBackAppend(lines: seq<Line>, line: Line)
    ensures var (rs, thread) := ReadBack(lines);
            ReadBack(lines + [line]) == match line
              case StartThread(name) => (rs, name)
              case EndThread(_) => (rs, thread)
              case Thread(name) => (rs, name)
              case Call(call) => (rs + [Entry(thread, call)], thread)
  {
    assert (lines + [line])[..|lines|] == lines;
  }

  /** The thread whose section is open, while every section is closed before the next one starts: None if not. */
  function Section(lines: seq<Line>): Option<string> {
    if lines == [] then Some("")
    else match Section(lines[..|lines| - 1])
      case None => None
      case Some(name) => NextSection(name, lines[|lines| - 1])
  }

  /** "" stands for no section. */
  function NextSection(name: string, line: Line): Option<string> {
    match line
    case StartThread(next) => if name == "" then Some(next) else None
    case EndThread(last) => if last == name then Some("") else None
    case _ => Some(name)
  }

  lemma SectionAppend(lines: seq<Line>, line: Line)
    ensures Section(lines + [line]) == match Section(lines) case None => None case Some(name) => NextSection(name, line)
  {
    assert (lines + [line])[..|lines|] == lines;
  }

  lemma NoSection()
    ensures Section([]) == Some("")
  {
  }

  class PerfMap {
    var rows: Table

    constructor ()
      ensures rows == map[]
    {
      rows := map[];
    }

    method CollectPerf(r: Entry)
      modifies this
      ensures rows == Collected(old(rows), r)
    {
      var id := r.call.functionId;
      if id !in rows {
        rows := rows[id := NO_CALLS];
      }
      var ps := rows[id];
      ps := ps.(calls := Wrap(ps.calls + 1));
      var duration := Wrap(r.call.timeEnd - r.call.timeStart);
      ps := ps.(total := Wrap(ps.total + duration));
      ps := ps.(longest := if ps.longest < duration then duration else ps.longest);
      ps := ps.(shortest := if duration < ps.shortest then duration else ps.shortest);
      rows := rows[id := ps];
    }
  }

  /** `sorted` is what std::sort makes of the records. Either way every call is listed once, under its own thread,
      and the table is the same. */
  method PrintTrace(records: seq<Entry>, byThread: bool, sorted: seq<Entry>) returns (lines: seq<Line>, table: Table)
    requires SortOf(records, sorted)
    ensures ReadBack(lines).0 == if byThread then records else sorted
    ensures table == Summarised(records)
    ensures byThread ==> Section(lines) == Some("")
  {
    hide Collected, ByStart, ReadBack, Summarised, Section;
    NoSection();
    var perf := new PerfMap();
    assert ReadBack([]) == ([], "") && Summarised([]) == map[] by { NothingRead(); }
    lines := [];
    if byThread {
      var lastThread := "";
      for i := 0 to |records|
        invariant ReadBack(lines) == (records[..i], lastThread)
        invariant Section(lines) == Some(lastThread)
        invariant perf.rows == Summarised(records[..i])
      {
        var r := records[i];
        assert records[..i + 1] == records[..i] + [r];
        SummarisedAppend(records[..i], r);
        if lastThread != r.thread {
          if lastThread != "" {
            ReadBackAppend(lines, EndThread(lastThread));
            SectionAppend(lines, EndThread(lastThread));
            lines := lines + [EndThread(lastThread)];
          }
          lastThread := r.thread;
          ReadBackAppend(lines, StartThread(lastThread));
          SectionAppend(lines, StartThread(lastThread));
          lines := lines + [StartThread(lastThread)];
        }
        ReadBackAppend(lines, Call(r.call));
        SectionAppend(lines, Call(r.call));
        lines := lines + [Call(r.call)];
        perf.CollectPerf(r);
      }
      assert records[..|records|] == records;
      table := perf.rows;
      ReadBackAppend(lines, EndThread(lastThread));
      SectionAppend(lines, EndThread(lastThread));
      lines := lines + [EndThread(lastThread)];
    } else {
      for i := 0 to |sorted|
        invariant ReadBack(lines).0 == sorted[..i]
        invariant perf.rows == Summarised(sorted[..i])
      {
        var r := sorted[i];
        assert sorted[..i + 1] == sorted[..i] + [r];
        SummarisedAppend(sorted[..i], r);
        ReadBackAppend(lines, Thread(r.thread));
        lines := lines + [Thread(r.thread)];
        ReadBackAppend(lines, Call(r.call));
        lines := lines + [Call(r.call)];
        perf.CollectPerf(r);
      }
      assert sorted[..|sorted|] == sorted;
      TableIgnoresOrder(sorted, records);
      table := perf.rows;
    }
  }

  lemma NothingRead()
    ensures ReadBack([]) == ([], "") && Summarised([]) == map[]
  {
  }
}
