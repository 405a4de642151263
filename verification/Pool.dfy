/**
 src/main.rs, `tcp_probe_ports`: up to 64 workers share an atomic counter and a result vector
 behind a mutex. Each step of each worker is one transition; a run is any interleaving of them.
 What a connection attempt finds is an arbitrary function of the port's position in the list.
 */
module Pool {
  import opened Words
  import Lists
  import Sorting

  const MAX_CONCURRENT_PROBES: nat := 64

  datatype Status = Connected | ConnectionRefused | Failed
  datatype ProbeResult = ProbeResult(port: u16, status: Status)

  /** The ports to probe and what each attempt will find. */
  datatype Task = Task(ports: seq<u16>, outcome: nat -> Status)
  {
    function ResultAt(i: nat): ProbeResult
      requires i < |ports|
    {
      ProbeResult(ports[i], outcome(i))
    }

    function WorkerCount(): nat {
      if |ports| <= MAX_CONCURRENT_PROBES then |ports| else MAX_CONCURRENT_PROBES
    }
  }

  /** What probing one port after the other gives. */
  function Sequential(task: Task): (rs: seq<ProbeResult>)
    ensures |rs| == |task.ports|
  {
    seq(|task.ports|, i requires 0 <= i < |task.ports| => task.ResultAt(i))
  }

  // ---- The transition system ----

  /** A worker about to claim, probing a claimed index, waiting to push its result, or finished. */
  datatype Worker = Ready | Probing(index: nat) | Holding(index: nat, result: ProbeResult) | Exited

  /** The counter, the workers, and the result vector; `order` records which index each result was claimed under. */
  datatype State = State(next: nat, workers: seq<Worker>, results: seq<ProbeResult>, order: seq<nat>)

  function Initial(task: Task): State {
    State(0, seq(task.WorkerCount(), i => Ready), [], [])
  }

  predicate Enabled(task: Task, s: State, w: nat) {
    && w < |s.workers| && !s.workers[w].Exited?
    && (s.workers[w].Probing? ==> s.workers[w].index < |task.ports|)
  }

  /** One step of worker w: fetch_add and look up, or connect, or push under the lock. */
  function Step(task: Task, s: State, w: nat): State
    requires Enabled(task, s, w)
  {
    match s.workers[w]
    case Ready =>
      var claimed := if s.next < |task.ports| then Probing(s.next) else Exited;
      s.(next := s.next + 1, workers := s.workers[w := claimed])
    case Probing(index) => s.(workers := s.workers[w := Holding(index, task.ResultAt(index))])
    case Holding(index, result) =>
      s.(workers := s.workers[w := Ready], results := s.results + [result], order := s.order + [index])
  }

  /** The state after a schedule of steps; an interleaving is any schedule that is enabled throughout. */
  ghost predicate IsRun(task: Task, schedule: seq<nat>, s: State) {
    if schedule == [] then s == Initial(task)
    else
      var last := |schedule| - 1;
      exists before: State ::
        IsRun(task, schedule[..last], before) && Enabled(task, before, schedule[last])
        && s == Step(task, before, schedule[last])
  }

  predicate Finished(s: State) {
    forall w :: 0 <= w < |s.workers| ==> s.workers[w].Exited?
  }

  // ---- Counting over workers ----

  function Exits(w: Worker): nat { if w.Exited? then 1 else 0 }

  function Holds(w: Worker): nat { if w.Holding? then 1 else 0 }

  /** Has claimed an index whose result is not pushed yet. */
  function Busy(w: Worker): nat { if w.Probing? || w.Holding? then 1 else 0 }

  function BusyWith(i: nat): Worker -> nat {
    (w: Worker) => if (w.Probing? || w.Holding?) && w.index == i then 1 else 0
  }

  function Sum(workers: seq<Worker>, weight: Worker -> nat): nat {
    if workers == [] then 0 else weight(workers[0]) + Sum(workers[1..], weight)
  }

  lemma {:induction false} SumUpdate(workers: seq<Worker>, w: nat, x: Worker, weight: Worker -> nat)
    requires w < |workers|
    ensures Sum(workers[w := x], weight) + weight(workers[w]) == Sum(workers, weight) + weight(x)
  {
    if w == 0 {
      assert workers[w := x][1..] == workers[1..];
    } else {
      assert workers[w := x][1..] == workers[1..][w - 1 := x];
      SumUpdate(workers[1..], w - 1, x, weight);
    }
  }

  lemma {:induction false} SumBound(workers: seq<Worker>, weight: Worker -> nat)
    requires forall w :: weight(w) <= 1
    ensures Sum(workers, weight) <= |workers|
  {
    if workers == [] {
    } else {
      SumBound(workers[1..], weight);
    }
  }

  lemma {:induction false} SumOfSame(workers: seq<Worker>, x: Worker, weight: Worker -> nat)
    requires forall w :: 0 <= w < |workers| ==> workers[w] == x
    ensures Sum(workers, weight) == |workers| * weight(x)
  {
    if workers == [] {
    } else {
      SumOfSame(workers[1..], x, weight);
    }
  }

  lemma {:induction false} SumAtLeast(workers: seq<Worker>, weight: Worker -> nat, w: nat)
    requires w < |workers|
    ensures Sum(workers, weight) >= weight(workers[w])
  {
    if w == 0 {
    } else {
      SumAtLeast(workers[1..], weight, w - 1);
    }
  }

  lemma {:induction false} SumAtLeastTwo(workers: seq<Worker>, weight: Worker -> nat, w: nat, v: nat)
    requires w < v < |workers|
    ensures Sum(workers, weight) >= weight(workers[w]) + weight(workers[v])
  {
    if w > 0 {
      SumAtLeastTwo(workers[1..], weight, w - 1, v - 1);
    } else {
      SumAtLeast(workers[1..], weight, v - 1);
    }
  }

  lemma {:induction false} SumPositive(workers: seq<Worker>, weight: Worker -> nat)
    requires Sum(workers, weight) > 0
    ensures exists w :: 0 <= w < |workers| && weight(workers[w]) > 0
  {
    if weight(workers[0]) == 0 {
      SumPositive(workers[1..], weight);
      var v :| 0 <= v < |workers[1..]| && weight(workers[1..][v]) > 0;
      assert weight(workers[v + 1]) > 0;
    }
  }

  lemma {:induction false} HeldAreBusy(workers: seq<Worker>)
    ensures Sum(workers, Holds) <= Sum(workers, Busy)
  {
    if workers == [] {
    } else {
      HeldAreBusy(workers[1..]);
    }
  }

  function Min(x: nat, y: nat): nat { if x < y then x else y }

  // ---- The invariant of every reachable state ----

  /** In how many places, workers and results, a claim of index i is recorded. */
  function Claims(s: State, i: nat): nat {
    Sum(s.workers, BusyWith(i)) + multiset(s.order)[i]
  }

  ghost predicate ClaimedOnce(task: Task, s: State) {
    forall i: nat {:trigger Claims(s, i)} :: Claims(s, i) == if i < s.next && i < |task.ports| then 1 else 0
  }

  predicate Truthful(task: Task, s: State) {
    && |s.results| == |s.order|
    && (forall k :: 0 <= k < |s.order| ==> s.order[k] < |task.ports| && s.results[k] == task.ResultAt(s.order[k]))
    && (forall w :: 0 <= w < |s.workers| ==>
          && (s.workers[w].Probing? ==> s.workers[w].index < |task.ports|)
          && (s.workers[w].Holding? ==>
                s.workers[w].index < |task.ports| && s.workers[w].result == task.ResultAt(s.workers[w].index)))
  }

  ghost predicate Inv(task: Task, s: State) {
    && |s.workers| == task.WorkerCount()
    && Truthful(task, s)
    && ClaimedOnce(task, s)
    && Sum(s.workers, Busy) + |s.results| == Min(s.next, |task.ports|)
    && s.next == Min(s.next, |task.ports|) + Sum(s.workers, Exits)
  }

  /** How many steps lead to a state: one for each claim attempt, each finished probe, each push. */
  function StepsTaken(s: State): nat {
    s.next + Sum(s.workers, Holds) + 2 * |s.results|
  }

  lemma InitialInv(task: Task)
    ensures Inv(task, Initial(task)) && StepsTaken(Initial(task)) == 0
  {
    var s := Initial(task);
    SumOfSame(s.workers, Ready, Busy);
    SumOfSame(s.workers, Ready, Exits);
    SumOfSame(s.workers, Ready, Holds);
    forall i: nat ensures Claims(s, i) == 0 {
      SumOfSame(s.workers, Ready, BusyWith(i));
    }
  }

  lemma PushCounts(order: seq<nat>, x: nat, i: nat)
    ensures multiset(order + [x])[i] == multiset(order)[i] + if i == x then 1 else 0
  {}

  lemma StepKeepsClaims(task: Task, s: State, w: nat)
    requires Enabled(task, s, w) && ClaimedOnce(task, s)
    ensures ClaimedOnce(task, Step(task, s, w))
  {
    var s' := Step(task, s, w);
    forall i: nat ensures Claims(s', i) == if i < s'.next && i < |task.ports| then 1 else 0 {
      assert Claims(s, i) == if i < s.next && i < |task.ports| then 1 else 0;
      SumUpdate(s.workers, w, s'.workers[w], BusyWith(i));
      if s.workers[w].Holding? {
        PushCounts(s.order, s.workers[w].index, i);
      }
    }
  }

  lemma StepKeepsTruth(task: Task, s: State, w: nat)
    requires Truthful(task, s) && Enabled(task, s, w)
    ensures Truthful(task, Step(task, s, w))
  {}

  lemma StepKeepsInv(task: Task, s: State, w: nat)
    requires Inv(task, s) && Enabled(task, s, w)
    ensures Inv(task, Step(task, s, w))
    ensures StepsTaken(Step(task, s, w)) == StepsTaken(s) + 1
  {
    hide ClaimedOnce, Truthful;
    var s' := Step(task, s, w);
    StepKeepsClaims(task, s, w);
    StepKeepsTruth(task, s, w);
    SumUpdate(s.workers, w, s'.workers[w], Exits);
    SumUpdate(s.workers, w, s'.workers[w], Holds);
    SumUpdate(s.workers, w, s'.workers[w], Busy);
    assert |s.results| == |s.order|;
  }

  lemma {:induction false} RunInv(task: Task, schedule: seq<nat>, s: State)
    requires IsRun(task, schedule, s)
    ensures Inv(task, s) && StepsTaken(s) == |schedule|
  {
    if schedule == [] {
      InitialInv(task);
    } else {
      var last := |schedule| - 1;
      var before: State :| IsRun(task, schedule[..last], before) && Enabled(task, before, schedule[last])
        && s == Step(task, before, schedule[last]);
      RunInv(task, schedule[..last], before);
      StepKeepsInv(task, before, schedule[last]);
    }
  }

  // ---- Safety in every interleaving ----

  predicate IsClaimedBy(s: State, w: nat, i: nat) {
    w < |s.workers| && (s.workers[w].Probing? || s.workers[w].Holding?) && s.workers[w].index == i
  }

  predicate HasResult(s: State, k: nat, i: nat) {
    k < |s.order| && s.order[k] == i
  }

  lemma TwiceInOrder(order: seq<nat>, j: nat, k: nat)
    requires j < k < |order| && order[j] == order[k]
    ensures multiset(order)[order[j]] >= 2
  {
    assert order == order[..k] + order[k..];
    assert order[j] in order[..k] && order[k] in order[k..];
  }

  /** An index below both the counter and the list's length is with some worker or has a result; no other index is. */
  lemma ClaimedIndices(task: Task, schedule: seq<nat>, s: State, i: nat)
    requires IsRun(task, schedule, s)
    ensures (exists w :: IsClaimedBy(s, w, i)) || (exists k :: HasResult(s, k, i))
       <==> i < s.next && i < |task.ports|
  {
    RunInv(task, schedule, s);
    assert Claims(s, i) == if i < s.next && i < |task.ports| then 1 else 0;
    if Claims(s, i) > 0 {
      if multiset(s.order)[i] > 0 {
        assert i in s.order;
        var k :| 0 <= k < |s.order| && s.order[k] == i;
        assert HasResult(s, k, i);
      } else {
        SumPositive(s.workers, BusyWith(i));
        var w :| 0 <= w < |s.workers| && BusyWith(i)(s.workers[w]) > 0;
        assert IsClaimedBy(s, w, i);
      }
    } else {
      forall w: nat | IsClaimedBy(s, w, i) ensures false { SumAtLeast(s.workers, BusyWith(i), w); }
      forall k: nat | HasResult(s, k, i) ensures false {}
    }
  }

  /** In no interleaving do two claims of the same index exist, whether in flight or pushed. */
  lemma NoIndexClaimedTwice(task: Task, schedule: seq<nat>, s: State, i: nat)
    requires IsRun(task, schedule, s)
    ensures forall w, v :: IsClaimedBy(s, w, i) && IsClaimedBy(s, v, i) ==> w == v
    ensures forall j, k :: HasResult(s, j, i) && HasResult(s, k, i) ==> j == k
    ensures forall w, k :: !(IsClaimedBy(s, w, i) && HasResult(s, k, i))
  {
    RunInv(task, schedule, s);
    assert Claims(s, i) <= 1;
    forall w, v | IsClaimedBy(s, w, i) && IsClaimedBy(s, v, i) ensures w == v {
      if w < v { SumAtLeastTwo(s.workers, BusyWith(i), w, v); }
      if v < w { SumAtLeastTwo(s.workers, BusyWith(i), v, w); }
    }
    forall j, k | HasResult(s, j, i) && HasResult(s, k, i) ensures j == k {
      if j < k { TwiceInOrder(s.order, j, k); }
      if k < j { TwiceInOrder(s.order, k, j); }
    }
    forall w: nat, k: nat | IsClaimedBy(s, w, i) && HasResult(s, k, i) ensures false {
      SumAtLeast(s.workers, BusyWith(i), w);
    }
  }

  /** At most 64 probes are in flight, and the counter overruns the list by at most one per worker. */
  lemma BoundsInEveryRun(task: Task, schedule: seq<nat>, s: State)
    requires IsRun(task, schedule, s)
    ensures Sum(s.workers, Busy) + |s.results| == Min(s.next, |task.ports|)
    ensures |s.workers| == Min(|task.ports|, 64)
    ensures Sum(s.workers, Busy) <= Min(|task.ports|, 64)
    ensures s.next <= |task.ports| + Min(|task.ports|, 64)
  {
    RunInv(task, schedule, s);
    SumBound(s.workers, Exits);
    SumBound(s.workers, Busy);
  }

  lemma NoSteps(task: Task)
    ensures IsRun(task, [], Initial(task))
  {}

  lemma RunExtends(task: Task, schedule: seq<nat>, s: State, w: nat)
    requires IsRun(task, schedule, s) && Enabled(task, s, w)
    ensures IsRun(task, schedule + [w], Step(task, s, w))
  {
    var longer := schedule + [w];
    assert longer[..|longer| - 1] == schedule && longer[|longer| - 1] == w;
  }

  lemma {:induction false} FirstClaims(task: Task, k: nat)
    requires k <= task.WorkerCount()
    ensures exists schedule: seq<nat>, s: State ::
              && IsRun(task, schedule, s) && s.next == k && s.results == []
              && |s.workers| == task.WorkerCount() && forall w :: k <= w < |s.workers| ==> s.workers[w] == Ready
  {
    if k == 0 {
      NoSteps(task);
    } else {
      FirstClaims(task, k - 1);
      var schedule: seq<nat>, s: State :|
        && IsRun(task, schedule, s) && s.next == k - 1 && s.results == []
        && |s.workers| == task.WorkerCount() && forall w :: k - 1 <= w < |s.workers| ==> s.workers[w] == Ready;
      RunExtends(task, schedule, s, k - 1);
      assert IsRun(task, schedule + [k - 1], Step(task, s, k - 1));
    }
  }

  /** The bound is reached: some interleaving has as many probes in flight at once. */
  lemma BoundIsReached(task: Task)
    ensures exists schedule: seq<nat>, s: State ::
              IsRun(task, schedule, s) && Sum(s.workers, Busy) == Min(|task.ports|, 64)
  {
    FirstClaims(task, task.WorkerCount());
    var schedule: seq<nat>, s: State :|
      IsRun(task, schedule, s) && s.next == task.WorkerCount() && s.results == [];
    BoundsInEveryRun(task, schedule, s);
  }

  // ---- Termination and the final result ----

  /** Until every worker has exited, one of them can step. */
  lemma NoDeadlock(task: Task, schedule: seq<nat>, s: State)
    requires IsRun(task, schedule, s) && !Finished(s)
    ensures exists w :: Enabled(task, s, w)
  {
    RunInv(task, schedule, s);
    var w :| 0 <= w < |s.workers| && !s.workers[w].Exited?;
    assert Enabled(task, s, w);
  }

  /** No interleaving is longer than three steps per port and one per worker. */
  lemma RunsAreBounded(task: Task, schedule: seq<nat>, s: State)
    requires IsRun(task, schedule, s)
    ensures |schedule| <= 3 * |task.ports| + Min(|task.ports|, 64)
  {
    RunInv(task, schedule, s);
    SumBound(s.workers, Exits);
    HeldAreBusy(s.workers);
  }

  function Indices(n: nat): (r: seq<nat>)
    ensures |r| == n && forall i :: 0 <= i < n ==> r[i] == i
  {
    seq(n, i => i)
  }

  lemma {:induction false} IndicesCount(n: nat, i: nat)
    ensures multiset(Indices(n))[i] == if i < n then 1 else 0
  {
    if n == 0 {
    } else {
      IndicesCount(n - 1, i);
      assert Indices(n) == Indices(n - 1) + [n - 1];
      PushCounts(Indices(n - 1), n - 1, i);
    }
  }

  /** The result for an index of the list. */
  function Lookup(task: Task): nat -> Option<ProbeResult> {
    (i: nat) => if i < |task.ports| then Some(task.ResultAt(i)) else None
  }

  lemma {:induction false} LookupAll(task: Task, order: seq<nat>, results: seq<ProbeResult>)
    requires |results| == |order|
    requires forall k :: 0 <= k < |order| ==> order[k] < |task.ports| && results[k] == task.ResultAt(order[k])
    ensures Lists.FilterMap(Lookup(task), order) == results
  {
    if order == [] {
    } else {
      LookupAll(task, order[1..], results[1..]);
      assert results == [results[0]] + results[1..];
    }
  }

  lemma FinishedCounts(task: Task, schedule: seq<nat>, s: State)
    requires IsRun(task, schedule, s) && Finished(s)
    ensures s.next == |task.ports| + Min(|task.ports|, 64)
    ensures |schedule| == 3 * |task.ports| + Min(|task.ports|, 64)
  {
    hide IsRun, Truthful, ClaimedOnce;
    RunInv(task, schedule, s);
    SumOfSame(s.workers, Exited, Exits);
    SumOfSame(s.workers, Exited, Holds);
    SumOfSame(s.workers, Exited, Busy);
  }

  lemma FinishedOrder(task: Task, schedule: seq<nat>, s: State)
    requires IsRun(task, schedule, s) && Finished(s)
    ensures multiset(s.order) == multiset(Indices(|task.ports|))
  {
    hide IsRun, Truthful, Indices;
    RunInv(task, schedule, s);
    FinishedCounts(task, schedule, s);
    forall i: nat ensures multiset(s.order)[i] == multiset(Indices(|task.ports|))[i] {
      SumOfSame(s.workers, Exited, BusyWith(i));
      IndicesCount(|task.ports|, i);
      assert Claims(s, i) == if i < s.next && i < |task.ports| then 1 else 0;
    }
  }

  /** A finished run has collected each port's result once, in some order. */
  lemma FinishedHasAllResults(task: Task, schedule: seq<nat>, s: State)
    requires IsRun(task, schedule, s) && Finished(s)
    ensures multiset(s.results) == multiset(Sequential(task))
  {
    hide IsRun, Claims, ClaimedOnce, Finished;
    RunInv(task, schedule, s);
    FinishedOrder(task, schedule, s);
    Lists.FilterMapPermutes(Lookup(task), s.order, Indices(|task.ports|));
    LookupAll(task, s.order, s.results);
    LookupAll(task, Indices(|task.ports|), Sequential(task));
  }

  predicate StrictlyAscending(ports: seq<u16>) {
    forall i, j :: 0 <= i < j < |ports| ==> ports[i] < ports[j]
  }

  const BY_PORT: (ProbeResult, ProbeResult) -> bool := (a: ProbeResult, b: ProbeResult) => a.port <= b.port

  lemma AscendingDistinguishes(task: Task, rs: seq<ProbeResult>)
    requires StrictlyAscending(task.ports) && multiset(rs) == multiset(Sequential(task))
    ensures Sorting.Distinguishes(BY_PORT, rs)
  {
    var expected := Sequential(task);
    forall x, y | x in rs && y in rs && BY_PORT(x, y) && BY_PORT(y, x) ensures x == y {
      assert x in multiset(rs) && y in multiset(rs);
      var i :| 0 <= i < |expected| && expected[i] == x;
      var j :| 0 <= j < |expected| && expected[j] == y;
    }
  }

  /**
   For a strictly ascending port list, sorting what any complete interleaving collected gives the
   sequential result: the i-th entry is the outcome for the i-th port.
   */
  lemma EveryInterleavingRefinesSequential(task: Task, schedule: seq<nat>, s: State)
    requires IsRun(task, schedule, s) && Finished(s) && StrictlyAscending(task.ports)
    ensures Sorting.Sort(BY_PORT, s.results) == Sequential(task)
  {
    FinishedHasAllResults(task, schedule, s);
    var sorted := Sorting.Sort(BY_PORT, s.results);
    AscendingDistinguishes(task, sorted);
    Sorting.SortSorts(BY_PORT, s.results);
    Sorting.SortedPermutationIsUnique(BY_PORT, sorted, Sequential(task));
  }

  // ---- The function itself ----

  /** The whole call under a scheduler that picks any enabled worker, until all have exited. */
  method TcpProbePorts(task: Task) returns (results: seq<ProbeResult>)
    ensures StrictlyAscending(task.ports) ==> results == Sequential(task)
    ensures multiset(results) == multiset(Sequential(task))
  {
    if |task.ports| == 1 {
      return [task.ResultAt(0)];
    }
    hide IsRun, ClaimedOnce, Claims, Step;
    var s := Initial(task);
    NoSteps(task);
    ghost var schedule: seq<nat> := [];
    while exists w :: 0 <= w < |s.workers| && !s.workers[w].Exited?
      invariant IsRun(task, schedule, s)
      decreases 3 * |task.ports| + task.WorkerCount() - |schedule|
    {
      RunInv(task, schedule, s);
      var w :| 0 <= w < |s.workers| && !s.workers[w].Exited?;
      RunExtends(task, schedule, s, w);
      s := Step(task, s, w);
      schedule := schedule + [w];
      RunsAreBounded(task, schedule, s);
    }
    FinishedHasAllResults(task, schedule, s);
    if StrictlyAscending(task.ports) {
      EveryInterleavingRefinesSequential(task, schedule, s);
    }
    results := Sorting.Sort(BY_PORT, s.results);
  }
}
