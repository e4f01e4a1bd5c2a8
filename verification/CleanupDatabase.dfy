/** CppParser::cleanupDatabase: the cleanup layers, each run on a thread pool of
    its own, with wait() as a barrier between them. Runs are interleavings of the
    main thread and all workers. */
module CleanupDatabase {
  import opened CppParser
  import opened CleanupOrder
  import TP = ThreadPool

  // make_thread_pool: jobs run inside enqueue for one thread, on workers otherwise.
  datatype Pool =
    | Synchronous(pos: nat, busy: bool, log: seq<TP.Event>)
    | Pooled(threads: TP.State)
  {
    function Log(): seq<TP.Event> {
      if Synchronous? then log else threads.log
    }
  }

  // `past` is the log of the layers already finished.
  datatype State = State(level: nat, past: seq<TP.Event>, pool: Pool) {
    function Log(): seq<TP.Event> {
      past + pool.Log()
    }
  }

  function NewPool(threadNum: nat): Pool {
    if threadNum == 1 then Synchronous(0, false, []) else Pooled(TP.Init(threadNum))
  }

  // Number of files in the first n layers.
  function Offset(layers: seq<seq<File>>, n: nat): nat
    requires n <= |layers|
  {
    if n == 0 then 0 else Offset(layers, n - 1) + |layers[n - 1]|
  }

  // The jobs of one layer, numbered through all layers from 1.
  function Jobs(layers: seq<seq<File>>, n: nat): (jobs: seq<TP.Job>)
    requires n < |layers|
    ensures |jobs| == |layers[n]|
    ensures forall i :: 0 <= i < |jobs| ==> jobs[i].path == layers[n][i] && jobs[i].index == Offset(layers, n) + i + 1
  {
    seq(|layers[n]|, i requires 0 <= i < |layers[n]| => TP.Job(layers[n][i], Offset(layers, n) + i + 1))
  }

  // The jobs of the first n layers.
  function JobsBefore(layers: seq<seq<File>>, n: nat): seq<TP.Job>
    requires n <= |layers|
  {
    if n == 0 then [] else JobsBefore(layers, n - 1) + Jobs(layers, n - 1)
  }

  /** The jobs are numbered from 1 on through all layers, without gaps. */
  lemma {:induction false} JobsNumbered(layers: seq<seq<File>>, n: nat, i: nat)
    requires n <= |layers| && i < |JobsBefore(layers, n)|
    ensures JobsBefore(layers, n)[i].index == i + 1
    decreases n
  {
    JobCount(layers, n - 1);
    if i < |JobsBefore(layers, n - 1)| {
      JobsNumbered(layers, n - 1, i);
    }
  }

  lemma {:induction false} JobCount(layers: seq<seq<File>>, n: nat)
    requires n <= |layers|
    ensures |JobsBefore(layers, n)| == Offset(layers, n)
  {
    if n > 0 {
      JobCount(layers, n - 1);
    }
  }

  // The main thread enqueues the jobs of its layer in order and then waits.
  ghost predicate Obeys(jobs: seq<TP.Job>, p: TP.State) {
    && p.enqueued <= jobs
    && (p.client.Pushing? ==> p.enqueued + [p.client.job] <= jobs)
    && (p.die ==> p.enqueued == jobs)
  }

  function Advance(threadNum: nat, s: State): State {
    State(s.level + 1, s.Log(), NewPool(threadNum))
  }

  ghost predicate Next(threadNum: nat, layers: seq<seq<File>>, s: State, t: State) {
    s.level < |layers| &&
    var jobs := Jobs(layers, s.level);
    match s.pool
    case Synchronous(pos, busy, log) =>
      if pos >= |jobs| then t == Advance(threadNum, s)
      else if busy then t == s.(pool := Synchronous(pos + 1, false, log + [TP.Finish(jobs[pos])]))
      else t == s.(pool := Synchronous(pos, true, log + [TP.Start(jobs[pos])]))
    case Pooled(p) =>
      if p.client.Returned? then t == Advance(threadNum, s)
      else t.pool.Pooled? && t == s.(pool := t.pool)
           && TP.Next(TP.DieThenQueue, p, t.pool.threads) && Obeys(jobs, t.pool.threads)
  }

  ghost predicate IsRun(threadNum: nat, layers: seq<seq<File>>, run: seq<State>) {
    && |run| > 0 && run[0] == State(0, [], NewPool(threadNum))
    && forall n :: 0 < n < |run| ==> Next(threadNum, layers, run[n - 1], run[n])
  }

  // ----- invariant -----

  ghost predicate RanOnce(log: seq<TP.Event>, jobs: seq<TP.Job>) {
    forall x: TP.Job :: TP.Times(log, TP.Start(x)) == TP.Times(log, TP.Finish(x)) == multiset(jobs)[x]
  }

  ghost predicate SynchronousCounts(jobs: seq<TP.Job>, pos: nat, busy: bool, log: seq<TP.Event>, x: TP.Job)
    requires pos <= |jobs| && (busy ==> pos < |jobs|)
  {
    && TP.Times(log, TP.Finish(x)) == multiset(jobs[..pos])[x]
    && TP.Times(log, TP.Start(x)) == multiset(jobs[..pos])[x] + (if busy && jobs[pos] == x then 1 else 0)
  }

  ghost predicate PoolInv(threadNum: nat, jobs: seq<TP.Job>, pool: Pool) {
    match pool
    case Synchronous(pos, busy, log) =>
      && pos <= |jobs| && (busy ==> pos < |jobs|)
      && forall x: TP.Job :: SynchronousCounts(jobs, pos, busy, log, x)
    case Pooled(p) => TP.Inv(p) && |p.workers| == threadNum && Obeys(jobs, p)
  }

  // Each job starts after all jobs of the earlier layers have finished.
  ghost predicate Barrier(layers: seq<seq<File>>, log: seq<TP.Event>) {
    forall i, l :: 0 <= i < |log| && 0 <= l < |layers| && log[i].Start? && log[i].job in Jobs(layers, l) ==>
      AllFinished(JobsBefore(layers, l), log[..i])
  }

  ghost predicate AllFinished(jobs: seq<TP.Job>, log: seq<TP.Event>) {
    forall y :: y in jobs ==> TP.Finish(y) in log
  }

  ghost predicate Inv(threadNum: nat, layers: seq<seq<File>>, s: State) {
    && s.level <= |layers|
    && RanOnce(s.past, JobsBefore(layers, s.level))
    && (if s.level < |layers| then PoolInv(threadNum, Jobs(layers, s.level), s.pool) else s.pool == NewPool(threadNum))
    && Barrier(layers, s.Log())
  }

  lemma {:induction false} OffsetMonotone(layers: seq<seq<File>>, m: nat, n: nat)
    requires m <= n <= |layers|
    ensures Offset(layers, m) <= Offset(layers, n)
  {
    if m < n {
      OffsetMonotone(layers, m, n - 1);
    }
  }

  // A job belongs to one layer only, since jobs are numbered.
  lemma OneLayer(layers: seq<seq<File>>, l: nat, m: nat, x: TP.Job)
    requires l < |layers| && m < |layers| && x in Jobs(layers, l) && x in Jobs(layers, m)
    ensures l == m
  {
    if l < m {
      OffsetMonotone(layers, l + 1, m);
    } else if m < l {
      OffsetMonotone(layers, m + 1, l);
    }
  }

  lemma StartedIsEnqueued(threadNum: nat, jobs: seq<TP.Job>, pool: Pool, x: TP.Job)
    requires PoolInv(threadNum, jobs, pool) && TP.Start(x) in pool.Log()
    ensures x in jobs
  {
    match pool
    case Synchronous(pos, busy, log) =>
      assert SynchronousCounts(jobs, pos, busy, log, x);
      assert TP.Times(log, TP.Start(x)) > 0;
      assert x in multiset(jobs[..pos]) || jobs[pos] == x;
      assert x in multiset(jobs[..pos]) ==> x in jobs[..pos];
    case Pooled(p) =>
      assert TP.Times(p.log, TP.Start(x)) > 0;
      assert TP.JobCounts(p, x);
      assert x in multiset(p.popped);
      assert x in p.popped && x in p.enqueued;
  }

  lemma BarrierExtend(layers: seq<seq<File>>, log: seq<TP.Event>, e: TP.Event)
    requires Barrier(layers, log)
    requires e.Start? ==> forall l :: 0 <= l < |layers| && e.job in Jobs(layers, l) ==> AllFinished(JobsBefore(layers, l), log)
    ensures Barrier(layers, log + [e])
  {
    forall i, l | 0 <= i <= |log| && 0 <= l < |layers| && (log + [e])[i].Start? && (log + [e])[i].job in Jobs(layers, l)
      ensures AllFinished(JobsBefore(layers, l), (log + [e])[..i])
    {
      assert (log + [e])[..i] == log[..i];
      if i < |log| {
        assert (log + [e])[i] == log[i];
      } else {
        assert log[..i] == log;
      }
    }
  }

  // Appending one event to the log of the current layer keeps the barrier.
  lemma BarrierAppend(layers: seq<seq<File>>, s: State, e: TP.Event)
    requires s.level < |layers| && Barrier(layers, s.Log())
    requires RanOnce(s.past, JobsBefore(layers, s.level))
    requires e.Start? ==> e.job in Jobs(layers, s.level)
    ensures Barrier(layers, s.Log() + [e])
  {
    forall l | 0 <= l < |layers| && e.Start? && e.job in Jobs(layers, l)
      ensures AllFinished(JobsBefore(layers, l), s.Log())
    {
      OneLayer(layers, l, s.level, e.job);
      RanMeansFinished(s.past, JobsBefore(layers, l));
    }
    BarrierExtend(layers, s.Log(), e);
  }

  lemma RanMeansFinished(log: seq<TP.Event>, jobs: seq<TP.Job>)
    requires RanOnce(log, jobs)
    ensures AllFinished(jobs, log)
  {
    forall y | y in jobs ensures TP.Finish(y) in log {
      assert multiset(jobs)[y] > 0;
      assert TP.Times(log, TP.Finish(y)) > 0;
    }
  }

  lemma FreshPool(threadNum: nat, jobs: seq<TP.Job>)
    ensures PoolInv(threadNum, jobs, NewPool(threadNum)) && NewPool(threadNum).Log() == []
  {
    TP.InitInv(threadNum);
    assert jobs[..0] == [];
  }

  lemma Appended(past: seq<TP.Event>, log: seq<TP.Event>, done: seq<TP.Job>, jobs: seq<TP.Job>)
    requires RanOnce(past, done) && RanOnce(log, jobs)
    ensures RanOnce(past + log, done + jobs)
  {
    forall x: TP.Job
      ensures TP.Times(past + log, TP.Start(x)) == TP.Times(past + log, TP.Finish(x)) == multiset(done + jobs)[x]
    {
      assert multiset(past + log) == multiset(past) + multiset(log);
      assert multiset(done + jobs) == multiset(done) + multiset(jobs);
    }
  }

  lemma LayerAppended(layers: seq<seq<File>>, level: nat, past: seq<TP.Event>, log: seq<TP.Event>)
    requires level < |layers| && RanOnce(past, JobsBefore(layers, level)) && RanOnce(log, Jobs(layers, level))
    ensures RanOnce(past + log, JobsBefore(layers, level + 1))
  {
    Appended(past, log, JobsBefore(layers, level), Jobs(layers, level));
    assert JobsBefore(layers, level + 1) == JobsBefore(layers, level) + Jobs(layers, level);
  }

  // The layer is finished: wait() has returned, or the last job has run.
  lemma LayerDone(threadNum: nat, jobs: seq<TP.Job>, pool: Pool)
    requires threadNum > 0 && PoolInv(threadNum, jobs, pool)
    requires if pool.Synchronous? then pool.pos == |jobs| else pool.threads.client.Returned?
    ensures RanOnce(pool.Log(), jobs)
  {
    if pool.Pooled? {
      TP.ReturnedAllDone(pool.threads);
      assert pool.threads.enqueued == jobs;
    } else {
      assert jobs[..|jobs|] == jobs;
      forall x: TP.Job
        ensures TP.Times(pool.log, TP.Start(x)) == TP.Times(pool.log, TP.Finish(x)) == multiset(jobs)[x]
      {
        assert SynchronousCounts(jobs, |jobs|, false, pool.log, x);
      }
    }
  }

  // A layer about to start, or the end after the last one.
  lemma LayerStarts(threadNum: nat, layers: seq<seq<File>>, s: State)
    requires s.level <= |layers| && s.pool == NewPool(threadNum)
    requires Barrier(layers, s.past) && RanOnce(s.past, JobsBefore(layers, s.level))
    ensures Inv(threadNum, layers, s)
  {
    assert s.past + [] == s.past && s.pool.Log() == [];
    if s.level < |layers| {
      FreshPool(threadNum, Jobs(layers, s.level));
    }
  }

  lemma PastGrows(threadNum: nat, layers: seq<seq<File>>, s: State, t: State)
    requires threadNum > 0 && s.level < |layers| && RanOnce(s.past, JobsBefore(layers, s.level))
    requires PoolInv(threadNum, Jobs(layers, s.level), s.pool)
    requires if s.pool.Synchronous? then s.pool.pos == |Jobs(layers, s.level)| else s.pool.threads.client.Returned?
    requires t.past == s.Log() && t.level == s.level + 1
    ensures RanOnce(t.past, JobsBefore(layers, t.level))
  {
    LayerDone(threadNum, Jobs(layers, s.level), s.pool);
    LayerAppended(layers, s.level, s.past, s.pool.Log());
  }

  lemma AdvanceKeepsInv(threadNum: nat, layers: seq<seq<File>>, s: State)
    requires threadNum > 0 && Inv(threadNum, layers, s) && s.level < |layers|
    requires if s.pool.Synchronous? then s.pool.pos == |Jobs(layers, s.level)| else s.pool.threads.client.Returned?
    ensures Inv(threadNum, layers, Advance(threadNum, s))
  {
    var t := Advance(threadNum, s);
    PastGrows(threadNum, layers, s, t);
    LayerStarts(threadNum, layers, t);
  }

  lemma SynchronousKeepsInv(threadNum: nat, layers: seq<seq<File>>, s: State, t: State)
    requires Inv(threadNum, layers, s) && s.level < |layers| && s.pool.Synchronous?
    requires s.pool.pos < |Jobs(layers, s.level)| && Next(threadNum, layers, s, t)
    ensures Inv(threadNum, layers, t)
  {
    var jobs := Jobs(layers, s.level);
    var Synchronous(pos, busy, log) := s.pool;
    var e := if busy then TP.Finish(jobs[pos]) else TP.Start(jobs[pos]);
    assert t.Log() == s.Log() + [e];
    BarrierAppend(layers, s, e);
    SynchronousStep(threadNum, jobs, pos, busy, log);
  }

  lemma SynchronousStepCounts(jobs: seq<TP.Job>, pos: nat, busy: bool, log: seq<TP.Event>, x: TP.Job)
    requires pos < |jobs| && SynchronousCounts(jobs, pos, busy, log, x)
    ensures busy ==> SynchronousCounts(jobs, pos + 1, false, log + [TP.Finish(jobs[pos])], x)
    ensures !busy ==> SynchronousCounts(jobs, pos, true, log + [TP.Start(jobs[pos])], x)
  {
    var e := if busy then TP.Finish(jobs[pos]) else TP.Start(jobs[pos]);
    assert jobs[..pos + 1] == jobs[..pos] + [jobs[pos]];
    TP.CountAppend(log, e, TP.Start(x));
    TP.CountAppend(log, e, TP.Finish(x));
    TP.CountAppend(jobs[..pos], jobs[pos], x);
  }

  lemma SynchronousStep(threadNum: nat, jobs: seq<TP.Job>, pos: nat, busy: bool, log: seq<TP.Event>)
    requires PoolInv(threadNum, jobs, Synchronous(pos, busy, log)) && pos < |jobs|
    ensures busy ==> PoolInv(threadNum, jobs, Synchronous(pos + 1, false, log + [TP.Finish(jobs[pos])]))
    ensures !busy ==> PoolInv(threadNum, jobs, Synchronous(pos, true, log + [TP.Start(jobs[pos])]))
  {
    if busy {
      var next, log' := pos + 1, log + [TP.Finish(jobs[pos])];
      forall x: TP.Job ensures SynchronousCounts(jobs, next, false, log', x) {
        SynchronousStepCounts(jobs, pos, busy, log, x);
      }
    } else {
      forall x: TP.Job ensures SynchronousCounts(jobs, pos, true, log + [TP.Start(jobs[pos])], x) {
        SynchronousStepCounts(jobs, pos, busy, log, x);
      }
    }
  }

  lemma PoolStepLogs(p: TP.State, q: TP.State)
    requires TP.Next(TP.DieThenQueue, p, q)
    ensures q.log == p.log || exists e :: q.log == p.log + [e]
  {
    if !TP.ClientStep(p, q) {
      var i: nat :| i < |p.workers| && TP.WorkerStep(TP.DieThenQueue, p, i, q);
      if p.workers[i].Ready? {
        assert q.log == p.log + [TP.Start(p.workers[i].job)];
      } else if p.workers[i].Running? {
        assert q.log == p.log + [TP.Finish(p.workers[i].job)];
      }
    }
  }

  lemma PooledKeepsInv(threadNum: nat, layers: seq<seq<File>>, s: State, t: State)
    requires Inv(threadNum, layers, s) && s.level < |layers| && s.pool.Pooled?
    requires !s.pool.threads.client.Returned? && Next(threadNum, layers, s, t)
    ensures Inv(threadNum, layers, t)
  {
    var p, q := s.pool.threads, t.pool.threads;
    TP.NextKeepsInv(p, q);
    PoolStepLogs(p, q);
    if q.log != p.log {
      var e :| q.log == p.log + [e];
      assert t.Log() == s.Log() + [e];
      if e.Start? {
        StartedIsEnqueued(threadNum, Jobs(layers, s.level), t.pool, e.job);
      }
      BarrierAppend(layers, s, e);
    } else {
      assert t.Log() == s.Log();
    }
  }

  lemma {:induction false} RunInv(threadNum: nat, layers: seq<seq<File>>, run: seq<State>, n: nat)
    requires threadNum > 0 && IsRun(threadNum, layers, run) && n < |run|
    ensures Inv(threadNum, layers, run[n])
  {
    if n == 0 {
      if layers != [] {
        FreshPool(threadNum, Jobs(layers, 0));
      }
      FreshPool(threadNum, []);
      assert run[0].Log() == [];
    } else {
      RunInv(threadNum, layers, run, n - 1);
      var s, t := run[n - 1], run[n];
      if s.pool.Synchronous? && s.pool.pos < |Jobs(layers, s.level)| {
        SynchronousKeepsInv(threadNum, layers, s, t);
      } else if s.pool.Pooled? && !s.pool.threads.client.Returned? {
        PooledKeepsInv(threadNum, layers, s, t);
      } else {
        AdvanceKeepsInv(threadNum, layers, s);
      }
    }
  }

  // ----- main results -----

  /** In every interleaving, for any number of threads, the cleanup of a file that
      is outside the leftover layer starts only after the cleanup of every marked
      file that includes it has finished. */
  lemma IncludersCleanedFirst(threadNum: nat, rows: seq<Inclusion>, names: set<File>, layers: seq<seq<File>>,
                              run: seq<State>, n: nat, i: nat, l: nat, g: File)
    requires threadNum > 0 && IsCleanupOrder(rows, names, layers)
    requires IsRun(threadNum, layers, run) && n < |run|
    requires var log := run[n].Log();
      && i < |log| && l < |layers| && log[i].Start? && log[i].job in Jobs(layers, l)
      && g in names && Inclusion(g, log[i].job.path) in rows
    requires !IsLeftover(rows, names, l)
    ensures exists k :: 0 <= k < i && run[n].Log()[k].Finish? && run[n].Log()[k].job.path == g
  {
    RunInv(threadNum, layers, run, n);
    var log := run[n].Log();
    IncludersComeFirst(rows, names, layers, g, log[i].job.path, l);
    var j :| 0 <= j < l && g in layers[j];
    var pos :| 0 <= pos < |layers[j]| && layers[j][pos] == g;
    var y := Jobs(layers, j)[pos];
    JobIsBefore(layers, j, l, y);
    assert TP.Finish(y) in log[..i];
    var k :| 0 <= k < i && log[k] == TP.Finish(y);
  }

  lemma {:induction false} JobIsBefore(layers: seq<seq<File>>, j: nat, l: nat, y: TP.Job)
    requires j < l <= |layers| && y in Jobs(layers, j)
    ensures y in JobsBefore(layers, l)
  {
    if j < l - 1 {
      JobIsBefore(layers, j, l - 1, y);
    }
  }

  /** When cleanupDatabase is through all layers, the cleanup job of every marked
      file has been started once and has finished once, and no other job has. */
  lemma EveryFileCleanedOnce(threadNum: nat, rows: seq<Inclusion>, names: set<File>, layers: seq<seq<File>>,
                             run: seq<State>, n: nat)
    requires threadNum > 0 && IsCleanupOrder(rows, names, layers)
    requires IsRun(threadNum, layers, run) && n < |run| && run[n].level == |layers|
    ensures forall f :: f in names <==> exists x :: x in JobsBefore(layers, |layers|) && x.path == f
    ensures forall x :: x in JobsBefore(layers, |layers|) ==>
      TP.Times(run[n].Log(), TP.Start(x)) == TP.Times(run[n].Log(), TP.Finish(x)) == 1
    ensures forall x :: x !in JobsBefore(layers, |layers|) ==>
      TP.Times(run[n].Log(), TP.Start(x)) == TP.Times(run[n].Log(), TP.Finish(x)) == 0
    ensures forall x, y :: x in JobsBefore(layers, |layers|) && y in JobsBefore(layers, |layers|) && x.path == y.path ==> x == y
  {
    RunInv(threadNum, layers, run, n);
    var all := JobsBefore(layers, |layers|);
    FreshPool(threadNum, []);
    assert run[n].Log() == run[n].past;
    LayersPartition(rows, names, layers);
    forall f ensures f in names <==> exists x :: x in all && x.path == f {
      if f in names {
        var k :| 0 <= k < |layers| && f in layers[k];
        var pos :| 0 <= pos < |layers[k]| && layers[k][pos] == f;
        JobIsBefore(layers, k, |layers|, Jobs(layers, k)[pos]);
        assert Jobs(layers, k)[pos] in all;
      }
      if x :| x in all && x.path == f {
        var k := LayerOf(layers, |layers|, x);
        assert f in layers[k];
      }
    }
    forall x | x in all ensures multiset(all)[x] == 1 {
      CountOne(layers, |layers|, x);
    }
    forall x, y | x in all && y in all && x.path == y.path ensures x == y {
      var j := LayerOf(layers, |layers|, x);
      var k := LayerOf(layers, |layers|, y);
      assert x.path in layers[j] && x.path in layers[k];
      assert j == k;
      assert IsLayer(rows, names, j, layers[j]);
    }
  }

  lemma {:induction false} LayerOf(layers: seq<seq<File>>, n: nat, x: TP.Job) returns (k: nat)
    requires n <= |layers| && x in JobsBefore(layers, n)
    ensures k < n && x in Jobs(layers, k)
  {
    if x in Jobs(layers, n - 1) {
      k := n - 1;
    } else {
      k := LayerOf(layers, n - 1, x);
    }
  }

  lemma DistinctCount<T>(s: seq<T>, i: nat)
    requires i < |s| && forall j, k :: 0 <= j < k < |s| ==> s[j] != s[k]
    ensures multiset(s)[s[i]] == 1
  {
    assert s == s[..i] + [s[i]] + s[i + 1..];
    assert multiset(s) == multiset(s[..i]) + multiset{s[i]} + multiset(s[i + 1..]);
    assert s[i] !in multiset(s[..i]) by {
      assert s[i] !in s[..i];
    }
    assert s[i] !in multiset(s[i + 1..]) by {
      assert s[i] !in s[i + 1..];
    }
  }

  lemma {:induction false} CountOne(layers: seq<seq<File>>, n: nat, x: TP.Job)
    requires n <= |layers| && x in JobsBefore(layers, n)
    ensures multiset(JobsBefore(layers, n))[x] == 1
  {
    var jobs := Jobs(layers, n - 1);
    var before := JobsBefore(layers, n - 1);
    assert multiset(before + jobs) == multiset(before) + multiset(jobs);
    if x in jobs {
      var i :| 0 <= i < |jobs| && jobs[i] == x;
      DistinctCount(jobs, i);
      if x in before {
        var k := LayerOf(layers, n - 1, x);
        OneLayer(layers, k, n - 1, x);
        assert false;
      }
    } else {
      CountOne(layers, n - 1, x);
    }
  }

  // ----- progress -----

  // How many steps a worker in the critical section is from giving up the mutex.
  function HeldFor(p: TP.State): nat {
    if !p.owner.Worker? || p.owner.id >= |p.workers| then 0
    else
      match p.workers[p.owner.id]
      case Check => 2
      case Popped(_) => 1
      case Wake => 1
      case _ => 0
  }

  // Steps of the main thread before wait(), and of a worker that holds it up.
  function Pushes(jobs: seq<TP.Job>, p: TP.State): nat {
    var left: nat := if |p.enqueued| <= |jobs| then |jobs| - |p.enqueued| else 0;
    8 * left + (match p.client
                case Idle => 5 + HeldFor(p)
                case Pushing(_) => 3
                case Pushed => 6
                case _ => 0)
  }

  function Phase(pool: Pool): nat {
    if pool.Pooled? && !pool.threads.die then 1 else 0
  }

  function Steps(jobs: seq<TP.Job>, pool: Pool): nat {
    match pool
    case Synchronous(pos, busy, _) => if pos <= |jobs| then 2 * (|jobs| - pos) + (if busy then 0 else 1) else 0
    case Pooled(p) => if p.die then TP.Rank(p) else Pushes(jobs, p)
  }

  // t is closer to the end of the layer than s, or in the next one.
  ghost predicate Closer(layers: seq<seq<File>>, s: State, t: State)
    requires s.level < |layers|
  {
    var jobs := Jobs(layers, s.level);
    t.level == s.level + 1 ||
    (t.level == s.level &&
     (Phase(t.pool) < Phase(s.pool) || (Phase(t.pool) == Phase(s.pool) && Steps(jobs, t.pool) < Steps(jobs, s.pool))))
  }

  // Before wait() the main thread can move, or the worker that holds the mutex can.
  lemma PushStep(jobs: seq<TP.Job>, p: TP.State) returns (q: TP.State)
    requires TP.Inv(p) && Obeys(jobs, p) && !p.die
    ensures TP.Next(TP.DieThenQueue, p, q) && Obeys(jobs, q) && (q.die || Pushes(jobs, q) < Pushes(jobs, p))
  {
    match p.client
    case Idle =>
      if p.enqueued == jobs {
        q := p.(die := true, client := TP.Joining(0));
      } else if p.owner == TP.Free {
        q := p.(owner := TP.Client, client := TP.Pushing(jobs[|p.enqueued|]));
        assert TP.ClientStep(p, q);
      } else {
        q := HolderStep(jobs, p);
      }
    case Pushing(j) => q := p.(queue := p.queue + [j], enqueued := p.enqueued + [j], client := TP.Pushed);
    case Pushed => q := p.(owner := TP.Free, client := TP.Idle);
  }

  lemma HolderStep(jobs: seq<TP.Job>, p: TP.State) returns (q: TP.State)
    requires TP.Inv(p) && Obeys(jobs, p) && !p.die && p.client.Idle? && p.owner != TP.Free
    ensures TP.Next(TP.DieThenQueue, p, q) && Obeys(jobs, q) && !q.die && Pushes(jobs, q) < Pushes(jobs, p)
  {
    var i := p.owner.id;
    assert TP.HoldsMutex(p.workers[i]);
    q := TP.Move(p, i);
    assert TP.WorkerStep(TP.DieThenQueue, p, i, q);
  }

  // ----- one thread and more -----

  /** One thread means that the jobs run inside enqueue, more threads mean as many
      workers. */
  lemma {:induction false} PoolOfRun(threadNum: nat, layers: seq<seq<File>>, run: seq<State>, n: nat)
    requires threadNum > 0 && IsRun(threadNum, layers, run) && n < |run|
    ensures run[n].pool.Synchronous? <==> threadNum == 1
    ensures run[n].pool.Pooled? ==> |run[n].pool.threads.workers| == threadNum
  {
    RunInv(threadNum, layers, run, n);
    if n > 0 {
      PoolOfRun(threadNum, layers, run, n - 1);
      assert Next(threadNum, layers, run[n - 1], run[n]);
    }
  }

  // Each job starts and finishes before the next one.
  function Calls(jobs: seq<TP.Job>): seq<TP.Event> {
    if jobs == [] then []
    else Calls(jobs[..|jobs| - 1]) + [TP.Start(jobs[|jobs| - 1]), TP.Finish(jobs[|jobs| - 1])]
  }

  lemma {:induction false} CallsAppend(a: seq<TP.Job>, b: seq<TP.Job>)
    ensures Calls(a + b) == Calls(a) + Calls(b)
  {
    if b == [] {
      assert a + b == a;
    } else {
      CallsAppend(a, b[..|b| - 1]);
      assert (a + b)[..|a + b| - 1] == a + b[..|b| - 1];
    }
  }

  ghost predicate InTurn(layers: seq<seq<File>>, s: State) {
    && s.level <= |layers| && s.past == Calls(JobsBefore(layers, s.level)) && s.pool.Synchronous?
    && (s.level == |layers| ==> s.pool.log == [])
    && (s.level < |layers| ==> InTurnNow(Jobs(layers, s.level), s.pool.pos, s.pool.busy, s.pool.log))
  }

  ghost predicate InTurnNow(jobs: seq<TP.Job>, pos: nat, busy: bool, log: seq<TP.Event>) {
    && pos <= |jobs| && (busy ==> pos < |jobs|)
    && log == Calls(jobs[..pos]) + (if busy then [TP.Start(jobs[pos])] else [])
  }

  lemma TurnGoesOn(jobs: seq<TP.Job>, pos: nat, log: seq<TP.Event>)
    requires pos < |jobs|
    ensures InTurnNow(jobs, pos, false, log) ==> InTurnNow(jobs, pos, true, log + [TP.Start(jobs[pos])])
    ensures InTurnNow(jobs, pos, true, log) ==> InTurnNow(jobs, pos + 1, false, log + [TP.Finish(jobs[pos])])
  {
    assert jobs[..pos + 1][..pos] == jobs[..pos];
  }

  lemma TurnEnds(layers: seq<seq<File>>, s: State)
    requires InTurn(layers, s) && s.level < |layers| && s.pool.pos >= |Jobs(layers, s.level)|
    ensures InTurn(layers, Advance(1, s))
  {
    var jobs := Jobs(layers, s.level);
    assert jobs[..|jobs|] == jobs;
    CallsAppend(JobsBefore(layers, s.level), jobs);
  }

  /** With one thread the cleanup jobs of all layers start and finish one after the
      other, in their order. */
  lemma {:induction false} OneByOne(layers: seq<seq<File>>, run: seq<State>, n: nat)
    requires IsRun(1, layers, run) && n < |run|
    ensures InTurn(layers, run[n])
  {
    if n > 0 {
      OneByOne(layers, run, n - 1);
      var s := run[n - 1];
      assert Next(1, layers, s, run[n]);
      if s.pool.pos >= |Jobs(layers, s.level)| {
        TurnEnds(layers, s);
      } else {
        TurnGoesOn(Jobs(layers, s.level), s.pool.pos, s.pool.log);
      }
    }
  }

  // ----- every run can end -----

  /** As long as a layer is not finished, some step brings its end closer. */
  lemma NeverStuck(threadNum: nat, layers: seq<seq<File>>, s: State) returns (t: State)
    requires threadNum > 0 && Inv(threadNum, layers, s) && s.level < |layers|
    ensures Next(threadNum, layers, s, t) && Closer(layers, s, t)
  {
    var jobs := Jobs(layers, s.level);
    match s.pool
    case Synchronous(pos, busy, log) =>
      t := if pos >= |jobs| then Advance(threadNum, s)
           else if busy then s.(pool := Synchronous(pos + 1, false, log + [TP.Finish(jobs[pos])]))
           else s.(pool := Synchronous(pos, true, log + [TP.Start(jobs[pos])]));
    case Pooled(p) =>
      if p.client.Returned? {
        t := Advance(threadNum, s);
      } else {
        var q := PoolStep(jobs, p);
        t := s.(pool := Pooled(q));
      }
  }

  lemma PoolStep(jobs: seq<TP.Job>, p: TP.State) returns (q: TP.State)
    requires TP.Inv(p) && Obeys(jobs, p) && !p.client.Returned?
    ensures TP.Next(TP.DieThenQueue, p, q) && Obeys(jobs, q)
    ensures if !p.die then q.die || Pushes(jobs, q) < Pushes(jobs, p) else q.die && TP.Rank(q) < TP.Rank(p)
  {
    if p.die {
      q := TP.WaitNeverStuck(p);
      JoiningObeys(jobs, p, q);
    } else {
      q := PushStep(jobs, p);
    }
  }

  lemma JoiningObeys(jobs: seq<TP.Job>, p: TP.State, q: TP.State)
    requires p.die && p.client.Joining? && Obeys(jobs, p) && TP.Next(TP.DieThenQueue, p, q)
    ensures Obeys(jobs, q) && q.die
  {
    if !TP.ClientStep(p, q) {
      var i: nat :| i < |p.workers| && TP.WorkerStep(TP.DieThenQueue, p, i, q);
    }
  }

  /** Every run can be continued until all layers are finished. */
  lemma {:induction false} CleanupCompletes(threadNum: nat, layers: seq<seq<File>>, run: seq<State>) returns (longer: seq<State>)
    requires threadNum > 0 && IsRun(threadNum, layers, run)
    ensures IsRun(threadNum, layers, longer) && run <= longer && longer[|longer| - 1].level == |layers|
    decreases |layers| - run[|run| - 1].level, Phase(run[|run| - 1].pool), StepsLeft(layers, run[|run| - 1])
  {
    var s := run[|run| - 1];
    RunInv(threadNum, layers, run, |run| - 1);
    if s.level == |layers| {
      longer := run;
    } else {
      var t := NeverStuck(threadNum, layers, s);
      RunContinues(threadNum, layers, run, t);
      longer := CleanupCompletes(threadNum, layers, run + [t]);
    }
  }

  lemma RunContinues(threadNum: nat, layers: seq<seq<File>>, run: seq<State>, t: State)
    requires IsRun(threadNum, layers, run) && Next(threadNum, layers, run[|run| - 1], t)
    ensures IsRun(threadNum, layers, run + [t])
  {
    var next := run + [t];
    forall n | 0 < n < |next| ensures Next(threadNum, layers, next[n - 1], next[n]) {
      assert next[n - 1] == run[n - 1];
    }
  }

  function StepsLeft(layers: seq<seq<File>>, s: State): nat {
    if s.level < |layers| then Steps(Jobs(layers, s.level), s.pool) else 0
  }
}
