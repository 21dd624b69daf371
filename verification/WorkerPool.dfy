/**
 * The bounded concurrent map, as a state machine over the steps between two suspensions: a worker
 * claims the next index from a shared cursor, waits for the operation, stores its result, and
 * claims again.
 */
module WorkerPool {
  import opened Naturals
  import opened Results
  import opened Sets

  /**
   * `Starting` has not run yet, `Busy(i)` awaits the operation on index i, `Returned` found no work
   * left or an undefined value, `Failed(i)` had its operation on index i rejected.
   */
  datatype Worker = Starting | Busy(index: nat) | Returned | Failed(index: nat)

  /** The shared cursor, the workers, the stored results, and the indices claimed so far. */
  datatype State<R> = State(next: nat, workers: seq<Worker>, results: map<nat, R>, claimed: seq<nat>)

  /** The values, with `None` for `undefined`, and the outcome of the operation on each defined one. */
  datatype Job<!T, R, E> = Job(values: seq<Option<T>>, operation: T -> Result<R, E>)

  function Start<T, R, E>(job: Job<T, R, E>, jobs: nat): State<R> {
    State(0, seq(Min(jobs, |job.values|), i => Starting), map[], [])
  }

  /** A worker that ends on this index: the value is undefined or the operation rejects. */
  predicate Ends<T, R, E>(job: Job<T, R, E>, i: nat)
    requires i < |job.values|
  {
    job.values[i].None? || job.operation(job.values[i].value).Failure?
  }

  /** The loop head: claim the next index, or return. */
  function Claim<T, R, E>(job: Job<T, R, E>, s: State<R>, w: nat): State<R>
    requires w < |s.workers|
  {
    if s.next >= |job.values| then
      s.(workers := s.workers[w := Returned])
    else
      s.(next := s.next + 1,
         workers := s.workers[w := if job.values[s.next].None? then Returned else Busy(s.next)],
         claimed := s.claimed + [s.next])
  }

  predicate CanStep<R>(s: State<R>, w: nat) {
    w < |s.workers| && (s.workers[w].Starting? || s.workers[w].Busy?)
  }

  /** A busy worker awaits the operation on a defined value. */
  predicate WellHeld<T, R, E>(job: Job<T, R, E>, worker: Worker) {
    worker.Busy? ==> worker.index < |job.values| && job.values[worker.index].Some?
  }

  /** One uninterrupted run of worker `w`: start, or resume when its operation settles. */
  function Step<T, R, E>(job: Job<T, R, E>, s: State<R>, w: nat): State<R>
    requires CanStep(s, w) && WellHeld(job, s.workers[w])
  {
    match s.workers[w]
    case Starting => Claim(job, s, w)
    case Busy(i) =>
      match job.operation(job.values[i].value)
      case Success(r) => Claim(job, s.(results := s.results[i := r]), w)
      case Failure(_) => s.(workers := s.workers[w := Failed(i)])
  }

  // ---------------------------------------------------------------- the invariant

  /** The indices claimed that end a worker. */
  function EndingBelow<T, R, E>(job: Job<T, R, E>, n: nat): (k: nat)
    requires n <= |job.values|
    ensures k <= n
  {
    if n == 0 then 0 else EndingBelow(job, n - 1) + if Ends(job, n - 1) then 1 else 0
  }

  /** A worker that will claim nothing more. */
  predicate Gone<T, R, E>(job: Job<T, R, E>, worker: Worker) {
    || worker.Returned?
    || worker.Failed?
    || (worker.Busy? && worker.index < |job.values| && Ends(job, worker.index))
  }

  function GoneCount<T, R, E>(job: Job<T, R, E>, workers: seq<Worker>): (k: nat)
    ensures k <= |workers|
  {
    if workers == [] then 0
    else GoneCount(job, workers[..|workers| - 1]) + if Gone(job, workers[|workers| - 1]) then 1 else 0
  }

  function ActiveCount(workers: seq<Worker>): nat {
    if workers == [] then 0
    else
      var last := workers[|workers| - 1];
      ActiveCount(workers[..|workers| - 1]) + if last.Starting? || last.Busy? then 1 else 0
  }

  ghost predicate WorkerOk<T, R, E>(job: Job<T, R, E>, s: State<R>, worker: Worker) {
    match worker
    case Busy(i) => i < s.next <= |job.values| && job.values[i].Some? && i !in s.results
    case Failed(i) => i < s.next <= |job.values| && job.values[i].Some? && job.operation(job.values[i].value).Failure?
    case _ => true
  }

  ghost predicate HeldBy<R>(s: State<R>, i: nat) {
    exists w :: 0 <= w < |s.workers| && (s.workers[w] == Busy(i) || s.workers[w] == Failed(i))
  }

  ghost predicate Stored<T, R, E>(job: Job<T, R, E>, s: State<R>, i: nat) {
    && i < |job.values| && job.values[i].Some? && i in s.results
    && job.operation(job.values[i].value) == Success(s.results[i])
  }

  /** Every worker is in order, and no two are busy on one index. */
  ghost predicate Manned<T, R, E>(job: Job<T, R, E>, s: State<R>) {
    && (forall w | 0 <= w < |s.workers| :: WorkerOk(job, s, s.workers[w]))
    && (forall v, w | 0 <= v < w < |s.workers| && s.workers[v].Busy? && s.workers[w].Busy? ::
          s.workers[v].index != s.workers[w].index)
  }

  /** Every claimed index is undefined, stored, or held by a worker. */
  ghost predicate Covered<T, R, E>(job: Job<T, R, E>, s: State<R>)
    requires s.next <= |job.values|
  {
    forall i | 0 <= i < s.next :: job.values[i].None? || i in s.results || HeldBy(s, i)
  }

  /**
   * Claimed indices are 0, 1, 2, ... in turn; each is undefined, stored, or held by a worker, and no
   * two workers are busy on one index. Each claim was made while some worker was not gone.
   */
  ghost predicate Pooling<T, R, E>(job: Job<T, R, E>, jobs: nat, s: State<R>) {
    && |s.workers| == Min(jobs, |job.values|)
    && s.next <= |job.values|
    && |s.claimed| == s.next && (forall k | 0 <= k < s.next :: s.claimed[k] == k)
    && Manned(job, s)
    && (forall i | i in s.results :: i < s.next && Stored(job, s, i))
    && Covered(job, s)
    && Counted(job, s.next, s.workers)
  }

  /** While indices are left, the workers gone are as many as the claimed indices that end one. */
  ghost predicate Counted<T, R, E>(job: Job<T, R, E>, next: nat, workers: seq<Worker>)
    requires next <= |job.values|
  {
    && (next < |job.values| ==> GoneCount(job, workers) == EndingBelow(job, next))
    && (next > 0 ==> EndingBelow(job, next - 1) < |workers|)
  }

  // ---------------------------------------------------------------- every step keeps the invariant

  lemma {:induction false} GoneUpdate<T, R, E>(job: Job<T, R, E>, workers: seq<Worker>, w: nat, worker: Worker)
    requires w < |workers|
    ensures GoneCount(job, workers[w := worker]) ==
            GoneCount(job, workers) - (if Gone(job, workers[w]) then 1 else 0) + (if Gone(job, worker) then 1 else 0)
  {
    var k := |workers| - 1;
    if w == k {
      assert workers[w := worker][..k] == workers[..k];
    } else {
      GoneUpdate(job, workers[..k], w, worker);
      assert workers[w := worker][..k] == workers[..k][w := worker];
    }
  }

  lemma {:induction false} ActiveUpdate(workers: seq<Worker>, w: nat, worker: Worker)
    requires w < |workers|
    ensures ActiveCount(workers[w := worker]) ==
            ActiveCount(workers) - (if workers[w].Starting? || workers[w].Busy? then 1 else 0)
            + (if worker.Starting? || worker.Busy? then 1 else 0)
  {
    var k := |workers| - 1;
    if w == k {
      assert workers[w := worker][..k] == workers[..k];
    } else {
      ActiveUpdate(workers[..k], w, worker);
      assert workers[w := worker][..k] == workers[..k][w := worker];
    }
  }

  lemma {:induction false} NotAllGone<T, R, E>(job: Job<T, R, E>, workers: seq<Worker>, w: nat)
    requires w < |workers| && !Gone(job, workers[w])
    ensures GoneCount(job, workers) < |workers|
  {
    if w < |workers| - 1 {
      NotAllGone(job, workers[..|workers| - 1], w);
    }
  }

  lemma {:induction false} NoneGone<T, R, E>(job: Job<T, R, E>, workers: seq<Worker>)
    requires forall w | 0 <= w < |workers| :: workers[w].Starting?
    ensures GoneCount(job, workers) == 0 && ActiveCount(workers) == |workers|
  {
    if workers != [] {
      NoneGone(job, workers[..|workers| - 1]);
    }
  }

  lemma StartPools<T, R, E>(job: Job<T, R, E>, jobs: nat)
    ensures Pooling(job, jobs, Start(job, jobs))
  {
    NoneGone(job, Start(job, jobs).workers);
  }

  /** The state between storing a result and claiming again: worker `w` holds nothing. */
  ghost predicate Released<T, R, E>(job: Job<T, R, E>, jobs: nat, s: State<R>, w: nat) {
    w < |s.workers| && s.workers[w] == Starting && Pooling(job, jobs, s)
  }

  lemma ClaimCounts<T, R, E>(job: Job<T, R, E>, next: nat, workers: seq<Worker>, w: nat)
    requires next < |job.values| && w < |workers| && workers[w] == Starting && Counted(job, next, workers)
    ensures Counted(job, next + 1, workers[w := if job.values[next].None? then Returned else Busy(next)])
  {
    GoneUpdate(job, workers, w, if job.values[next].None? then Returned else Busy(next));
    NotAllGone(job, workers, w);
  }

  /** A step that stores what its worker held, and gives it what was claimed, leaves every index covered. */
  lemma CoveredStep<T, R, E>(job: Job<T, R, E>, s: State<R>, s': State<R>, w: nat)
    requires s.next <= s'.next <= |job.values| && Covered(job, s)
    requires w < |s.workers| && |s'.workers| == |s.workers|
    requires forall v | 0 <= v < |s.workers| && v != w :: s'.workers[v] == s.workers[v]
    requires s.results.Keys <= s'.results.Keys
    requires forall i | s.workers[w] == Busy(i) :: i in s'.results || s'.workers[w] == Failed(i)
    requires !s.workers[w].Failed?
    requires forall i | s.next <= i < s'.next :: job.values[i].None? || s'.workers[w] == Busy(i)
    ensures Covered(job, s')
  {
    forall i | 0 <= i < s'.next && job.values[i].Some? && i !in s'.results ensures HeldBy(s', i) {
      if i < s.next {
        assert HeldBy(s, i);
        var v :| 0 <= v < |s.workers| && (s.workers[v] == Busy(i) || s.workers[v] == Failed(i));
        assert s'.workers[v] == (if v == w then Failed(i) else s.workers[v]);
      } else {
        assert s'.workers[w] == Busy(i);
      }
    }
  }

  lemma ClaimKeeps<T, R, E>(job: Job<T, R, E>, jobs: nat, s: State<R>, w: nat)
    requires Released(job, jobs, s, w)
    ensures Pooling(job, jobs, Claim(job, s, w))
  {
    hide Stored, Covered, Gone, GoneCount, EndingBelow;
    var s' := Claim(job, s, w);
    if s.next < |job.values| {
      ClaimCounts(job, s.next, s.workers, w);
    }
    assert Counted(job, s'.next, s'.workers);
    hide Counted;
    CoveredStep(job, s, s', w);
    forall i | i in s'.results ensures Stored(job, s', i) {
      StoredStays(job, s, s', i);
    }
  }

  lemma StoredStays<T, R, E>(job: Job<T, R, E>, s: State<R>, s': State<R>, i: nat)
    requires Stored(job, s, i) && i in s'.results && s'.results[i] == s.results[i]
    ensures Stored(job, s', i)
  {
  }

  lemma StoreReleases<T, R, E>(job: Job<T, R, E>, jobs: nat, s: State<R>, w: nat, r: R)
    requires Pooling(job, jobs, s) && w < |s.workers| && s.workers[w].Busy?
    requires job.operation(job.values[s.workers[w].index].value) == Success(r)
    ensures Released(job, jobs, s.(results := s.results[s.workers[w].index := r], workers := s.workers[w := Starting]), w)
  {
    hide Stored, Covered, EndingBelow, GoneCount;
    var i := s.workers[w].index;
    var s' := s.(results := s.results[i := r], workers := s.workers[w := Starting]);
    GoneUpdate(job, s.workers, w, Starting);
    assert Counted(job, s'.next, s'.workers);
    hide Counted, Gone;
    forall j | j in s'.results ensures j < s'.next && Stored(job, s', j) {
      if j != i {
        StoredStays(job, s, s', j);
      } else {
        NewlyStored(job, s', i);
      }
    }
    CoveredStep(job, s, s', w);
  }

  lemma NewlyStored<T, R, E>(job: Job<T, R, E>, s: State<R>, i: nat)
    requires i < |job.values| && job.values[i].Some? && i in s.results
    requires job.operation(job.values[i].value) == Success(s.results[i])
    ensures Stored(job, s, i)
  {
  }

  lemma FailKeeps<T, R, E>(job: Job<T, R, E>, jobs: nat, s: State<R>, w: nat)
    requires Pooling(job, jobs, s) && w < |s.workers| && s.workers[w].Busy?
    requires job.operation(job.values[s.workers[w].index].value).Failure?
    ensures Pooling(job, jobs, s.(workers := s.workers[w := Failed(s.workers[w].index)]))
  {
    hide Stored, Covered, EndingBelow, GoneCount;
    var i := s.workers[w].index;
    var s' := s.(workers := s.workers[w := Failed(i)]);
    GoneUpdate(job, s.workers, w, Failed(i));
    assert Counted(job, s'.next, s'.workers);
    hide Counted, Gone;
    forall j | j in s'.results ensures Stored(job, s', j) {
      StoredStays(job, s, s', j);
    }
    CoveredStep(job, s, s', w);
  }

  /** Work left in a state: unclaimed indices and active workers. */
  function Left<T, R, E>(job: Job<T, R, E>, s: State<R>): int {
    |job.values| - s.next + ActiveCount(s.workers)
  }

  /** Every step keeps the invariant and uses up some of the work left. */
  lemma StepKeeps<T, R, E>(job: Job<T, R, E>, jobs: nat, s: State<R>, w: nat)
    requires Pooling(job, jobs, s) && CanStep(s, w)
    ensures WellHeld(job, s.workers[w])
    ensures Pooling(job, jobs, Step(job, s, w)) && 0 <= Left(job, Step(job, s, w)) < Left(job, s)
  {
    assert WorkerOk(job, s, s.workers[w]);
    hide Manned, Covered, Counted, Stored, ActiveCount;
    var s' := Step(job, s, w);
    ActiveUpdate(s.workers, w, s'.workers[w]);
    match s.workers[w]
    case Starting =>
      ClaimKeeps(job, jobs, s, w);
      assert s'.workers == s.workers[w := s'.workers[w]];
    case Busy(i) =>
      match job.operation(job.values[i].value)
      case Success(r) =>
        StoreReleases(job, jobs, s, w, r);
        var released := s.(results := s.results[i := r], workers := s.workers[w := Starting]);
        ClaimKeeps(job, jobs, released, w);
        assert Claim(job, released, w) == s';
        assert s'.workers == s.workers[w := s'.workers[w]];
      case Failure(_) => FailKeeps(job, jobs, s, w);
  }

  // ---------------------------------------------------------------- whole runs

  /** One step of some worker. */
  ghost predicate Next<T, R, E>(job: Job<T, R, E>, s: State<R>, s': State<R>) {
    exists w: nat :: CanStep(s, w) && WellHeld(job, s.workers[w]) && s' == Step(job, s, w)
  }

  /** Any interleaving of the workers' steps. */
  ghost predicate IsRun<T, R, E>(job: Job<T, R, E>, jobs: nat, run: seq<State<R>>) {
    && run != [] && run[0] == Start(job, jobs)
    && forall k | 0 < k < |run| :: Next(job, run[k - 1], run[k])
  }

  /** No worker can step: every one has returned or failed. */
  ghost predicate Settled<R>(s: State<R>) {
    forall w | 0 <= w < |s.workers| :: !CanStep(s, w)
  }

  /** Every state of every run keeps the invariant, and a run takes at most two steps an index. */
  lemma {:induction false} RunPools<T, R, E>(job: Job<T, R, E>, jobs: nat, run: seq<State<R>>, k: nat)
    requires IsRun(job, jobs, run) && k < |run|
    ensures Pooling(job, jobs, run[k])
    ensures k <= k + Left(job, run[k]) <= |job.values| + Min(jobs, |job.values|)
  {
    hide Pooling;
    if k == 0 {
      StartPools(job, jobs);
      NoneGone(job, run[0].workers);
    } else {
      RunPools(job, jobs, run, k - 1);
      assert Next(job, run[k - 1], run[k]);
      var w: nat :| CanStep(run[k - 1], w) && WellHeld(job, run[k - 1].workers[w]) && run[k] == Step(job, run[k - 1], w);
      StepKeeps(job, jobs, run[k - 1], w);
    }
  }

  /** A run that has not settled can go on. */
  lemma RunGoesOn<T, R, E>(job: Job<T, R, E>, jobs: nat, run: seq<State<R>>) returns (s': State<R>)
    requires IsRun(job, jobs, run) && !Settled(run[|run| - 1])
    ensures IsRun(job, jobs, run + [s'])
  {
    var s := run[|run| - 1];
    RunPools(job, jobs, run, |run| - 1);
    var w: nat :| w < |s.workers| && CanStep(s, w);
    StepKeeps(job, jobs, s, w);
    s' := Step(job, s, w);
    forall k | 0 < k < |run + [s']| ensures Next(job, (run + [s'])[k - 1], (run + [s'])[k]) {
      if k < |run| {
        assert Next(job, run[k - 1], run[k]);
      }
    }
  }

  // ---------------------------------------------------------------- where every run stops

  /** The cursor's final value: all indices, or up to and including the one that ends the last worker. */
  function StopAt<T, R, E>(job: Job<T, R, E>, workers: nat, from: nat): (stop: nat)
    requires from <= |job.values|
    ensures from <= stop <= |job.values|
    ensures stop < |job.values| ==> EndingBelow(job, stop) >= workers
    ensures forall k | from <= k < stop :: EndingBelow(job, k) < workers
    decreases |job.values| - from
  {
    if from == |job.values| || EndingBelow(job, from) >= workers then from else StopAt(job, workers, from + 1)
  }

  lemma {:induction false} EndingMonotone<T, R, E>(job: Job<T, R, E>, i: nat, j: nat)
    requires i <= j <= |job.values|
    ensures EndingBelow(job, i) <= EndingBelow(job, j)
    decreases j
  {
    if i < j {
      EndingMonotone(job, i, j - 1);
    }
  }

  lemma {:induction false} AllGone<T, R, E>(job: Job<T, R, E>, workers: seq<Worker>)
    requires forall w | 0 <= w < |workers| :: workers[w].Returned? || workers[w].Failed?
    ensures GoneCount(job, workers) == |workers|
  {
    if workers != [] {
      AllGone(job, workers[..|workers| - 1]);
    }
  }

  /** The cursor of a settled state does not depend on the interleaving. */
  lemma SettledCursor<T, R, E>(job: Job<T, R, E>, jobs: nat, s: State<R>)
    requires Pooling(job, jobs, s) && Settled(s)
    ensures s.next == StopAt(job, Min(jobs, |job.values|), 0)
  {
    var k := |s.workers|;
    var stop := StopAt(job, k, 0);
    forall w | 0 <= w < k ensures s.workers[w].Returned? || s.workers[w].Failed? {
      assert !CanStep(s, w);
    }
    AllGone(job, s.workers);
    hide WorkerOk, Stored, HeldBy, EndingBelow, GoneCount;
    if stop < s.next {
      EndingMonotone(job, stop, s.next - 1);
    }
  }

  /**
   * Every settled state of every interleaving has claimed exactly the indices below the same stop,
   * each once and in order, holds exactly the successful outcomes below it, and has a failed worker
   * exactly when some operation below it rejects.
   */
  lemma SettledOutcome<T, R, E>(job: Job<T, R, E>, jobs: nat, s: State<R>)
    requires Pooling(job, jobs, s) && Settled(s)
    ensures var stop := StopAt(job, Min(jobs, |job.values|), 0);
            && s.claimed == seq(stop, i => i)
            && (forall i :: i in s.results <==>
                      0 <= i < stop && job.values[i].Some? && job.operation(job.values[i].value).Success?)
            && (forall i | i in s.results :: Stored(job, s, i))
            && ((exists w :: 0 <= w < |s.workers| && s.workers[w].Failed?) <==>
                (exists i :: 0 <= i < stop && job.values[i].Some? && job.operation(job.values[i].value).Failure?))
  {
    var stop := StopAt(job, Min(jobs, |job.values|), 0);
    SettledCursor(job, jobs, s);
    forall i | 0 <= i < stop && job.values[i].Some?
      ensures i in s.results <==> job.operation(job.values[i].value).Success?
      ensures i !in s.results ==> exists w :: 0 <= w < |s.workers| && s.workers[w].Failed?
    {
      SettledIndex(job, jobs, s, i);
    }
    if w :| 0 <= w < |s.workers| && s.workers[w].Failed? {
      assert WorkerOk(job, s, s.workers[w]);
      var i := s.workers[w].index;
      assert 0 <= i < stop && job.values[i].Some? && job.operation(job.values[i].value).Failure?;
    }
  }

  lemma SettledIndex<T, R, E>(job: Job<T, R, E>, jobs: nat, s: State<R>, i: nat)
    requires Pooling(job, jobs, s) && Settled(s) && i < s.next && job.values[i].Some?
    ensures i in s.results <==> job.operation(job.values[i].value).Success?
    ensures i !in s.results ==> exists w :: 0 <= w < |s.workers| && s.workers[w].Failed?
  {
    if i in s.results {
      assert Stored(job, s, i);
    } else {
      var w :| 0 <= w < |s.workers| && (s.workers[w] == Busy(i) || s.workers[w] == Failed(i));
      assert !CanStep(s, w);
      assert WorkerOk(job, s, s.workers[w]);
    }
  }

  lemma {:induction false} NoEnding<T, R, E>(job: Job<T, R, E>, n: nat)
    requires n <= |job.values| && forall i | 0 <= i < |job.values| :: !Ends(job, i)
    ensures EndingBelow(job, n) == 0
  {
    if n > 0 {
      NoEnding(job, n - 1);
    }
  }

  /** With at least one job, defined values and successful operations, every settled run maps every value. */
  lemma MapsEverything<T, R, E>(job: Job<T, R, E>, jobs: nat, run: seq<State<R>>)
    requires IsRun(job, jobs, run) && Settled(run[|run| - 1]) && jobs >= 1
    requires forall i | 0 <= i < |job.values| :: !Ends(job, i)
    ensures var s := run[|run| - 1];
            && s.claimed == seq(|job.values|, i => i)
            && (forall w | 0 <= w < |s.workers| :: s.workers[w].Returned?)
            && forall i | 0 <= i < |job.values| ::
                 job.values[i].Some? && i in s.results && job.operation(job.values[i].value) == Success(s.results[i])
  {
    var s := run[|run| - 1];
    RunPools(job, jobs, run, |run| - 1);
    SettledOutcome(job, jobs, s);
    var stop := StopAt(job, Min(jobs, |job.values|), 0);
    NoEnding(job, stop);
    assert stop == |job.values|;
    forall w | 0 <= w < |s.workers| ensures s.workers[w].Returned? {
      assert !CanStep(s, w);
      assert WorkerOk(job, s, s.workers[w]);
      if s.workers[w].Failed? {
        assert Ends(job, s.workers[w].index);
      }
    }
    forall i | 0 <= i < |job.values|
      ensures job.values[i].Some? && i in s.results && job.operation(job.values[i].value) == Success(s.results[i])
    {
      assert !Ends(job, i);
      assert i in s.results;
      assert Stored(job, s, i);
    }
  }

  ghost predicate Rejected<R>(s: State<R>, i: nat) {
    exists w :: 0 <= w < |s.workers| && s.workers[w] == Failed(i)
  }

  /** Operations started and not settled: claimed, on a defined value, neither stored nor rejected. */
  ghost function InFlight<T, R, E>(job: Job<T, R, E>, s: State<R>): set<nat> {
    set i | i in s.claimed && i < |job.values| && job.values[i].Some? && i !in s.results && !Rejected(s, i)
  }

  /** At most min(jobs, n) operations are in flight in any state of any run. */
  lemma BoundedConcurrency<T, R, E>(job: Job<T, R, E>, jobs: nat, run: seq<State<R>>, k: nat)
    requires IsRun(job, jobs, run) && k < |run|
    ensures |InFlight(job, run[k])| <= Min(jobs, |job.values|)
  {
    RunPools(job, jobs, run, k);
    var s := run[k];
    var held := set w | 0 <= w < |s.workers| && s.workers[w].Busy? :: s.workers[w].index;
    forall i | i in InFlight(job, s) ensures i in held {
      assert i < s.next && HeldBy(s, i);
      var w :| 0 <= w < |s.workers| && (s.workers[w] == Busy(i) || s.workers[w] == Failed(i));
    }
    SubsetSize(InFlight(job, s), held);
    FewIndices(s.workers);
  }

  lemma {:induction false} FewIndices(workers: seq<Worker>)
    ensures |set w | 0 <= w < |workers| && workers[w].Busy? :: workers[w].index| <= |workers|
  {
    var all := set w | 0 <= w < |workers| && workers[w].Busy? :: workers[w].index;
    if workers != [] {
      var front, last := workers[..|workers| - 1], workers[|workers| - 1];
      FewIndices(front);
      var fewer := set w | 0 <= w < |front| && front[w].Busy? :: front[w].index;
      forall i | i in all ensures i in fewer || (last.Busy? && i == last.index) {
        var w :| 0 <= w < |workers| && workers[w].Busy? && workers[w].index == i;
        assert w < |front| ==> front[w] == workers[w];
      }
      SizeBound(all, fewer, if last.Busy? then {last.index} else {});
    }
  }

  lemma SizeBound(a: set<nat>, b: set<nat>, c: set<nat>)
    requires a <= b + c
    ensures |a| <= |b| + |c|
  {
    if a != {} {
      var x :| x in a;
      if x in b {
        SizeBound(a - {x}, b - {x}, c);
      } else {
        SizeBound(a - {x}, b, c - {x});
      }
    }
  }
}
