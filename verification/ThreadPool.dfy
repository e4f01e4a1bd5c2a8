/** The job-queue thread pool of util/threadpool.h as a transition system.

    One client thread enqueues jobs and finally calls wait(); any number of
    worker threads run the worker loop. Every access to shared memory is a step
    of its own, so a run is an arbitrary interleaving. The exit test of the
    worker loop reads _die and then _queue.empty() without holding the mutex;
    `ExitTest` makes the order of these two reads a parameter, so that the
    order the source uses can be compared with the opposite one. */
module ThreadPool {

  // JobData of the cleanup pool is a job for one file; jobs are told apart by value.
  datatype Job = Job(path: string, index: nat)

  datatype ExitTest = DieThenQueue | QueueThenDie

  datatype Event = Start(job: Job) | Finish(job: Job)

  // Program counter of a worker thread.
  datatype Pc =
    | Test0              // about to make the first read of the loop condition
    | Test1              // about to make the second read
    | Lock               // about to lock the mutex
    | Check              // holds the mutex, about to inspect the queue
    | Sleep              // inside wait_for, mutex released
    | Wake               // woken inside wait_for, mutex reacquired
    | Popped(job: Job)     // job taken off the queue, mutex still held
    | Ready(job: Job)      // mutex released, function_ not called yet
    | Running(job: Job)    // inside function_
    | Exited

  // Program counter of the client thread.
  datatype ClientPc =
    | Idle
    | Pushing(job: Job)    // in enqueue, mutex held, job not in the queue yet
    | Pushed             // in enqueue, mutex held, job in the queue
    | Joining(next: nat) // in wait, the first `next` threads joined
    | Returned           // wait has returned

  datatype Owner = Free | Client | Worker(id: nat)

  /** `enqueued`, `popped` and `log` are the history of the run: the jobs in the
      order they entered and left the queue, and the calls of function_. */
  datatype State = State(
    queue: seq<Job>, die: bool, owner: Owner,
    workers: seq<Pc>, client: ClientPc,
    enqueued: seq<Job>, popped: seq<Job>, log: seq<Event>)

  function Init(threadCount: nat): State {
    State([], false, Free, seq(threadCount, _ => Test0), Idle, [], [], [])
  }

  // ----- steps -----

  ghost predicate ClientStep(s: State, t: State) {
    match s.client
    case Idle =>
      || (exists j :: s.owner == Free && t == s.(owner := Client, client := Pushing(j)))
      || t == s.(die := true, client := Joining(0))
    case Pushing(j) => t == s.(queue := s.queue + [j], enqueued := s.enqueued + [j], client := Pushed)
    case Pushed => t == s.(owner := Free, client := Idle)
    case Joining(k) =>
      if k < |s.workers| then s.workers[k].Exited? && t == s.(client := Joining(k + 1))
      else t == s.(client := Returned)
    case Returned => false
  }

  ghost predicate Goto(s: State, i: nat, pc: Pc, t: State)
    requires i < |s.workers|
  {
    t == s.(workers := s.workers[i := pc])
  }

  // A step of worker i that moves it to pc and sets the mutex owner.
  ghost predicate GotoWith(s: State, i: nat, pc: Pc, owner: Owner, t: State)
    requires i < |s.workers|
  {
    t == s.(workers := s.workers[i := pc], owner := owner)
  }

  // One read of the loop condition: does the part of it that is read allow leaving?
  predicate ReadsTrue(s: State, readsDie: bool) {
    if readsDie then s.die else s.queue == []
  }

  /** wait_for gives up the mutex again only when the queue is still empty; this
      is the one step that makes no progress. */
  ghost predicate Resleep(s: State, i: nat, t: State)
    requires i < |s.workers|
  {
    s.workers[i].Wake? && s.queue == [] && GotoWith(s, i, Sleep, Free, t)
  }

  ghost predicate WorkStep(test: ExitTest, s: State, i: nat, t: State)
    requires i < |s.workers|
  {
    match s.workers[i]
    case Test0 => Goto(s, i, if ReadsTrue(s, test.DieThenQueue?) then Test1 else Lock, t)
    case Test1 => Goto(s, i, if ReadsTrue(s, test.QueueThenDie?) then Exited else Lock, t)
    case Lock => s.owner == Free && GotoWith(s, i, Check, Worker(i), t)
    case Check =>
      if s.queue == [] then GotoWith(s, i, Sleep, Free, t)
      else t == s.(queue := s.queue[1..], popped := s.popped + [s.queue[0]],
                   workers := s.workers[i := Popped(s.queue[0])])
    case Sleep => s.owner == Free && GotoWith(s, i, Wake, Worker(i), t)
    case Wake => GotoWith(s, i, Test0, Free, t)
    case Popped(j) => GotoWith(s, i, Ready(j), Free, t)
    case Ready(j) => t == s.(workers := s.workers[i := Running(j)], log := s.log + [Start(j)])
    case Running(j) => t == s.(workers := s.workers[i := Test0], log := s.log + [Finish(j)])
    case Exited => false
  }

  ghost predicate WorkerStep(test: ExitTest, s: State, i: nat, t: State)
    requires i < |s.workers|
  {
    WorkStep(test, s, i, t) || Resleep(s, i, t)
  }

  ghost predicate Next(test: ExitTest, s: State, t: State) {
    ClientStep(s, t) || exists i: nat :: i < |s.workers| && WorkerStep(test, s, i, t)
  }

  ghost predicate IsRun(test: ExitTest, threadCount: nat, run: seq<State>) {
    && |run| > 0 && run[0] == Init(threadCount)
    && forall n :: 0 < n < |run| ==> Next(test, run[n - 1], run[n])
  }

  // ----- what a state holds -----

  // How often job x has been taken off the queue without its call having started.
  function Pending(ws: seq<Pc>, x: Job): nat {
    if ws == [] then 0 else PendingOf(ws[0], x) + Pending(ws[1..], x)
  }

  function PendingOf(pc: Pc, x: Job): nat {
    if (pc.Popped? || pc.Ready?) && pc.job == x then 1 else 0
  }

  // How many calls for job x are in progress.
  function InCall(ws: seq<Pc>, x: Job): nat {
    if ws == [] then 0 else InCallOf(ws[0], x) + InCall(ws[1..], x)
  }

  function InCallOf(pc: Pc, x: Job): nat {
    if pc == Running(x) then 1 else 0
  }

  // How often e occurs in the log.
  function Times(log: seq<Event>, e: Event): nat {
    multiset(log)[e]
  }

  predicate HoldsMutex(pc: Pc) {
    pc.Check? || pc.Wake? || pc.Popped?
  }

  // ----- invariant -----

  ghost predicate Inv(s: State) {
    && MutexInv(s)
    && ExitInv(s)
    && JobInv(s)
  }

  ghost predicate MutexInv(s: State) {
    && (s.owner == Client <==> s.client.Pushing? || s.client.Pushed?)
    && (forall i: nat {:trigger s.workers[i]} :: i < |s.workers| ==> (s.owner == Worker(i) <==> HoldsMutex(s.workers[i])))
    && (s.owner.Worker? ==> s.owner.id < |s.workers|)
  }

  ghost predicate ExitInv(s: State) {
    && (s.die <==> s.client.Joining? || s.client.Returned?)
    && (forall i: nat {:trigger s.workers[i]} :: i < |s.workers| ==>
          && (s.workers[i].Test1? ==> s.die)
          && (s.workers[i].Exited? ==> s.die && s.queue == [])
          && (s.client.Joining? && i < s.client.next ==> s.workers[i].Exited?)
          && (s.client.Returned? ==> s.workers[i].Exited?))
    && (s.client.Joining? ==> s.client.next <= |s.workers|)
  }

  ghost predicate JobInv(s: State) {
    && s.enqueued == s.popped + s.queue
    && forall x: Job :: JobCounts(s, x)
  }

  ghost predicate JobCounts(s: State, x: Job) {
    && multiset(s.popped)[x] == Pending(s.workers, x) + Times(s.log, Start(x))
    && Times(s.log, Start(x)) == InCall(s.workers, x) + Times(s.log, Finish(x))
  }

  lemma {:induction false} HeldUpdate(ws: seq<Pc>, i: nat, pc: Pc, x: Job)
    requires i < |ws|
    ensures Pending(ws[i := pc], x) == Pending(ws, x) - PendingOf(ws[i], x) + PendingOf(pc, x)
    ensures InCall(ws[i := pc], x) == InCall(ws, x) - InCallOf(ws[i], x) + InCallOf(pc, x)
  {
    if i > 0 {
      HeldUpdate(ws[1..], i - 1, pc, x);
      assert ws[i := pc][1..] == ws[1..][i - 1 := pc];
    } else {
      assert ws[i := pc][1..] == ws[1..];
    }
  }

  lemma {:induction false} HeldNone(ws: seq<Pc>, x: Job)
    requires forall i :: 0 <= i < |ws| ==> !ws[i].Popped? && !ws[i].Ready? && !ws[i].Running?
    ensures Pending(ws, x) == 0 && InCall(ws, x) == 0
  {
    if ws != [] {
      HeldNone(ws[1..], x);
    }
  }

  lemma InitInv(threadCount: nat)
    ensures Inv(Init(threadCount))
  {
    forall x: Job {
      HeldNone(Init(threadCount).workers, x);
    }
  }

  lemma ClientKeepsInv(s: State, t: State)
    requires Inv(s) && ClientStep(s, t)
    ensures Inv(t)
  {
    assert forall x: Job :: JobCounts(s, x) ==> JobCounts(t, x);
  }

  lemma CountAppend<T>(a: seq<T>, e: T, x: T)
    ensures multiset(a + [e])[x] == multiset(a)[x] + (if e == x then 1 else 0)
  {
  }

  // A step that moves worker i to pc and appends to the history keeps the counts
  // when the three changes balance.
  lemma CountsBalance(s: State, i: nat, pc: Pc, t: State, x: Job)
    requires JobCounts(s, x) && i < |s.workers| && t.workers == s.workers[i := pc]
    requires multiset(t.popped)[x] + PendingOf(s.workers[i], x) + Times(s.log, Start(x))
      == multiset(s.popped)[x] + PendingOf(pc, x) + Times(t.log, Start(x))
    requires Times(t.log, Start(x)) + InCallOf(s.workers[i], x) + Times(s.log, Finish(x))
      == Times(s.log, Start(x)) + InCallOf(pc, x) + Times(t.log, Finish(x))
    ensures JobCounts(t, x)
  {
    HeldUpdate(s.workers, i, pc, x);
  }

  lemma PopKeepsCounts(s: State, i: nat, t: State, x: Job)
    requires JobCounts(s, x) && i < |s.workers| && WorkStep(DieThenQueue, s, i, t)
    requires s.workers[i].Check? && s.queue != []
    ensures JobCounts(t, x)
  {
    CountAppend(s.popped, s.queue[0], x);
    CountsBalance(s, i, t.workers[i], t, x);
  }

  lemma CallKeepsCounts(s: State, i: nat, t: State, x: Job)
    requires JobCounts(s, x) && i < |s.workers| && WorkStep(DieThenQueue, s, i, t)
    requires s.workers[i].Ready? || s.workers[i].Running?
    ensures JobCounts(t, x)
  {
    var e := if s.workers[i].Ready? then Start(s.workers[i].job) else Finish(s.workers[i].job);
    assert t.log == s.log + [e];
    CountAppend(s.log, e, Start(x));
    CountAppend(s.log, e, Finish(x));
    CountsBalance(s, i, t.workers[i], t, x);
  }

  lemma OtherStepKeepsCounts(s: State, i: nat, t: State, x: Job)
    requires JobCounts(s, x) && i < |s.workers| && WorkerStep(DieThenQueue, s, i, t)
    requires !s.workers[i].Ready? && !s.workers[i].Running? && (s.workers[i].Check? ==> s.queue == [])
    ensures JobCounts(t, x)
  {
    OtherStepKeepsHistory(s, i, t);
    OtherStepKeepsJob(s, i, t, x);
    CountsBalance(s, i, t.workers[i], t, x);
  }

  // No job is taken off the queue, no call starts or ends.
  lemma OtherStepKeepsHistory(s: State, i: nat, t: State)
    requires i < |s.workers| && WorkerStep(DieThenQueue, s, i, t)
    requires !s.workers[i].Ready? && !s.workers[i].Running? && (s.workers[i].Check? ==> s.queue == [])
    ensures t.popped == s.popped && t.log == s.log
    ensures |t.workers| == |s.workers| && t.workers == s.workers[i := t.workers[i]]
  {
  }

  lemma OtherStepKeepsJob(s: State, i: nat, t: State, x: Job)
    requires i < |s.workers| && WorkerStep(DieThenQueue, s, i, t) && i < |t.workers|
    requires !s.workers[i].Ready? && !s.workers[i].Running? && (s.workers[i].Check? ==> s.queue == [])
    ensures PendingOf(t.workers[i], x) == PendingOf(s.workers[i], x)
    ensures InCallOf(t.workers[i], x) == InCallOf(s.workers[i], x)
  {
  }

  lemma WorkerKeepsJobs(s: State, i: nat, t: State)
    requires JobInv(s) && i < |s.workers| && WorkerStep(DieThenQueue, s, i, t)
    ensures JobInv(t)
  {
    forall x: Job ensures JobCounts(t, x) {
      assert JobCounts(s, x);
      var pc := s.workers[i];
      if pc.Check? && s.queue != [] {
        PopKeepsCounts(s, i, t, x);
      } else if pc.Ready? || pc.Running? {
        CallKeepsCounts(s, i, t, x);
      } else {
        OtherStepKeepsCounts(s, i, t, x);
      }
    }
  }

  // Worker i takes the free mutex, gives up its own, or leaves it alone.
  ghost predicate OwnerMoves(s: State, i: nat, pc: Pc, t: State)
    requires i < |s.workers|
  {
    || (t.owner == s.owner && HoldsMutex(pc) == HoldsMutex(s.workers[i]))
    || (s.owner == Free && t.owner == Worker(i) && HoldsMutex(pc))
    || (t.owner == Free && HoldsMutex(s.workers[i]) && !HoldsMutex(pc))
  }

  lemma WorkerStepMoves(s: State, i: nat, t: State)
    requires i < |s.workers| && WorkerStep(DieThenQueue, s, i, t)
    ensures |t.workers| == |s.workers| && t.workers == s.workers[i := t.workers[i]] && t.client == s.client
    ensures OwnerMoves(s, i, t.workers[i], t)
  {
  }

  lemma WorkerKeepsMutex(s: State, i: nat, t: State)
    requires MutexInv(s) && i < |s.workers| && WorkerStep(DieThenQueue, s, i, t)
    ensures MutexInv(t)
  {
    WorkerStepMoves(s, i, t);
    MovesKeepMutex(s, i, t.workers[i], t);
  }

  lemma MovesKeepMutex(s: State, i: nat, pc: Pc, t: State)
    requires MutexInv(s) && i < |s.workers| && t.workers == s.workers[i := pc] && t.client == s.client
    requires OwnerMoves(s, i, pc, t)
    ensures MutexInv(t)
  {
  }

  lemma WorkerKeepsExit(s: State, i: nat, t: State)
    requires ExitInv(s) && i < |s.workers| && WorkerStep(DieThenQueue, s, i, t)
    ensures ExitInv(t)
  {
  }

  lemma NextKeepsInv(s: State, t: State)
    requires Inv(s) && Next(DieThenQueue, s, t)
    ensures Inv(t) && |t.workers| == |s.workers|
  {
    if ClientStep(s, t) {
      ClientKeepsInv(s, t);
    } else {
      var i: nat :| i < |s.workers| && WorkerStep(DieThenQueue, s, i, t);
      WorkerKeepsJobs(s, i, t);
      WorkerKeepsMutex(s, i, t);
      WorkerKeepsExit(s, i, t);
    }
  }

  lemma {:induction false} RunInv(threadCount: nat, run: seq<State>, n: nat)
    requires IsRun(DieThenQueue, threadCount, run) && n < |run|
    ensures Inv(run[n]) && |run[n].workers| == threadCount
  {
    if n == 0 {
      InitInv(threadCount);
    } else {
      RunInv(threadCount, run, n - 1);
      NextKeepsInv(run[n - 1], run[n]);
    }
  }

  // ----- main results -----

  /** In every state of every interleaving the enqueued jobs are those still
      queued, those in the hands of a worker and those finished; jobs leave the
      queue in the order they entered it; at most one thread holds the mutex. */
  lemma JobsConserved(threadCount: nat, run: seq<State>, n: nat)
    requires IsRun(DieThenQueue, threadCount, run) && n < |run|
    ensures forall x: Job :: var s := run[n];
      multiset(s.enqueued)[x]
      == multiset(s.queue)[x] + Pending(s.workers, x) + InCall(s.workers, x) + Times(s.log, Finish(x))
    ensures var s := run[n]; s.popped <= s.enqueued && s.queue == s.enqueued[|s.popped|..]
    ensures forall i, j :: 0 <= i < j < |run[n].workers| && HoldsMutex(run[n].workers[i]) ==>
      !HoldsMutex(run[n].workers[j]) && run[n].owner != Client
  {
    RunInv(threadCount, run, n);
    var s := run[n];
    forall x: Job
      ensures multiset(s.enqueued)[x]
        == multiset(s.queue)[x] + Pending(s.workers, x) + InCall(s.workers, x) + Times(s.log, Finish(x))
    {
      assert JobCounts(s, x);
    }
  }

  // Every enqueued job has been started and finished as often as it was enqueued.
  ghost predicate AllDone(s: State) {
    forall x: Job :: Times(s.log, Start(x)) == Times(s.log, Finish(x)) == multiset(s.enqueued)[x]
  }

  lemma ReturnedAllDone(s: State)
    requires Inv(s) && s.client.Returned? && |s.workers| > 0
    ensures AllDone(s) && s.queue == []
  {
    assert s.workers[0].Exited?;
    assert s.enqueued == s.popped;
    forall x: Job
      ensures Times(s.log, Start(x)) == Times(s.log, Finish(x)) == multiset(s.enqueued)[x]
    {
      HeldNone(s.workers, x);
      assert JobCounts(s, x);
    }
  }

  lemma {:induction false} NoWorkersNoLog(test: ExitTest, run: seq<State>, n: nat)
    requires IsRun(test, 0, run) && n < |run|
    ensures run[n].log == [] && run[n].workers == []
  {
    if n > 0 {
      NoWorkersNoLog(test, run, n - 1);
    }
  }

  /** When wait() returns, every enqueued job has been run exactly once if and
      only if the pool has a worker or was given nothing to do. */
  lemma WaitRunsEveryJobOnce(threadCount: nat, run: seq<State>, n: nat)
    requires IsRun(DieThenQueue, threadCount, run) && n < |run| && run[n].client.Returned?
    ensures AllDone(run[n]) <==> threadCount > 0 || run[n].enqueued == []
    ensures threadCount > 0 ==> run[n].queue == []
  {
    var s := run[n];
    RunInv(threadCount, run, n);
    if threadCount > 0 {
      ReturnedAllDone(s);
    } else {
      NoWorkersNoLog(DieThenQueue, run, n);
      if s.enqueued != [] {
        assert multiset(s.enqueued)[s.enqueued[0]] > 0;
        assert Times(s.log, Start(s.enqueued[0])) == 0;
      }
    }
  }

  /** The order of the two unlocked reads is what makes this work: if the queue
      were read before _die, wait() could return while a job is still queued. */
  lemma SwappedReadsLoseAJob(job: Job) returns (run: seq<State>)
    ensures IsRun(QueueThenDie, 1, run)
    ensures var s := run[|run| - 1];
      s.client.Returned? && s.enqueued == [job] && s.queue == [job] && s.log == []
  {
    var s0 := Init(1);
    var s1 := s0.(workers := [Test1]);
    var s2 := s1.(owner := Client, client := Pushing(job));
    var s3 := s2.(queue := [job], enqueued := [job], client := Pushed);
    var s4 := s3.(owner := Free, client := Idle);
    var s5 := s4.(die := true, client := Joining(0));
    var s6 := s5.(workers := [Exited]);
    var s7 := s6.(client := Joining(1));
    var s8 := s7.(client := Returned);
    run := [s0, s1, s2, s3, s4, s5, s6, s7, s8];
    assert s0.workers == [Test0];
    assert s0.workers[0 := Test1] == s1.workers && WorkerStep(QueueThenDie, s0, 0, s1);
    assert ClientStep(s1, s2) && ClientStep(s2, s3) && ClientStep(s3, s4) && ClientStep(s4, s5);
    assert s5.workers[0 := Exited] == s6.workers && WorkerStep(QueueThenDie, s5, 0, s6);
    assert ClientStep(s6, s7) && ClientStep(s7, s8);
  }

  // ----- progress of wait() -----

  // How many steps a worker is away from Exited once _die is set.
  function Distance(pc: Pc, queueEmpty: bool): nat {
    match pc
    case Exited => 0
    case Test1 => if queueEmpty then 1 else 9
    case Test0 => if queueEmpty then 2 else 10
    case Wake => if queueEmpty then 3 else 11
    case Sleep => if queueEmpty then 4 else 12
    case Check => if queueEmpty then 5 else 7
    case Lock => if queueEmpty then 6 else 8
    case Running(_) => 13
    case Ready(_) => 14
    case Popped(_) => 15
  }

  function Distances(ws: seq<Pc>, queueEmpty: bool): nat {
    if ws == [] then 0 else Distance(ws[0], queueEmpty) + Distances(ws[1..], queueEmpty)
  }

  function Rank(s: State): nat {
    16 * |s.queue|
    + Distances(s.workers, s.queue == [])
    + (match s.client
       case Joining(k) => if k <= |s.workers| then |s.workers| - k + 1 else 0
       case _ => 0)
  }

  lemma {:induction false} DistancesUpdate(ws: seq<Pc>, i: nat, pc: Pc, queueEmpty: bool)
    requires i < |ws|
    ensures Distances(ws[i := pc], queueEmpty)
      == Distances(ws, queueEmpty) - Distance(ws[i], queueEmpty) + Distance(pc, queueEmpty)
  {
    if i > 0 {
      DistancesUpdate(ws[1..], i - 1, pc, queueEmpty);
      assert ws[i := pc][1..] == ws[1..][i - 1 := pc];
    }
  }

  lemma {:induction false} DistancesEmptied(ws: seq<Pc>)
    ensures Distances(ws, true) <= Distances(ws, false)
  {
    if ws != [] {
      DistancesEmptied(ws[1..]);
    }
  }

  lemma WorkCountsDown(s: State, i: nat, t: State)
    requires s.die && i < |s.workers| && WorkStep(DieThenQueue, s, i, t)
    ensures Rank(t) < Rank(s)
  {
    if s.workers[i].Check? && s.queue != [] {
      DistancesUpdate(s.workers, i, t.workers[i], false);
      if t.queue == [] {
        DistancesEmptied(t.workers);
      }
    } else {
      OtherWorkIsCloser(s, i, t);
      DistancesUpdate(s.workers, i, t.workers[i], s.queue == []);
    }
  }

  lemma OtherWorkIsCloser(s: State, i: nat, t: State)
    requires s.die && i < |s.workers| && WorkStep(DieThenQueue, s, i, t)
    requires !s.workers[i].Check? || s.queue == []
    ensures t.queue == s.queue && t.client == s.client
    ensures |t.workers| == |s.workers| && t.workers == s.workers[i := t.workers[i]]
    ensures Distance(t.workers[i], s.queue == []) < Distance(s.workers[i], s.queue == [])
  {
  }

  /** Once wait() has begun, every step of every thread brings it closer to its
      end, except that a woken worker may go back to sleep on the empty queue. */
  lemma WaitStepsCountDown(s: State, t: State)
    requires Inv(s) && s.die && Next(DieThenQueue, s, t)
    ensures Rank(t) < Rank(s) || exists i: nat :: i < |s.workers| && Resleep(s, i, t)
  {
    if !ClientStep(s, t) {
      var i: nat :| i < |s.workers| && WorkerStep(DieThenQueue, s, i, t);
      if WorkStep(DieThenQueue, s, i, t) {
        WorkCountsDown(s, i, t);
      }
    }
  }

  /** And until wait() returns some such step is always possible: the pool cannot
      deadlock. */
  lemma WaitNeverStuck(s: State) returns (t: State)
    requires Inv(s) && s.client.Joining?
    ensures Next(DieThenQueue, s, t) && Rank(t) < Rank(s)
  {
    var k := s.client.next;
    if k == |s.workers| {
      t := s.(client := Returned);
    } else if s.workers[k].Exited? {
      t := s.(client := Joining(k + 1));
    } else {
      // A worker that is not waiting for the mutex can always move.
      var i: nat := if s.owner.Worker? then s.owner.id else k;
      t := Move(s, i);
      assert WorkerStep(DieThenQueue, s, i, t);
      WorkCountsDown(s, i, t);
    }
  }

  function Move(s: State, i: nat): (t: State)
    requires Inv(s) && i < |s.workers| && !s.workers[i].Exited?
    requires s.owner == Free || s.owner == Worker(i)
    ensures WorkStep(DieThenQueue, s, i, t)
  {
    match s.workers[i]
    case Test0 => s.(workers := s.workers[i := if s.die then Test1 else Lock])
    case Test1 => s.(workers := s.workers[i := if s.queue == [] then Exited else Lock])
    case Lock => s.(workers := s.workers[i := Check], owner := Worker(i))
    case Check =>
      if s.queue == [] then s.(workers := s.workers[i := Sleep], owner := Free)
      else s.(queue := s.queue[1..], popped := s.popped + [s.queue[0]], workers := s.workers[i := Popped(s.queue[0])])
    case Sleep => s.(workers := s.workers[i := Wake], owner := Worker(i))
    case Wake => s.(workers := s.workers[i := Test0], owner := Free)
    case Popped(j) => s.(workers := s.workers[i := Ready(j)], owner := Free)
    case Ready(j) => s.(workers := s.workers[i := Running(j)], log := s.log + [Start(j)])
    case Running(j) => s.(workers := s.workers[i := Test0], log := s.log + [Finish(j)])
  }
}
