// The task protocol of a thread (src/classes/thread.c, src/ds/pht_queue.c): its
// owner adds tasks, starts it and joins it while its worker pops and runs tasks.
// Every access to shared state is a step of its own, so that the steps of the two
// interleave in every possible way.

module ThreadProtocol {
  import opened Options

  datatype Status = NotStarted | StartingUp | Started | Joined

  datatype Holder = Nobody | OwnerHolds | WorkerHolds

  // Where the owner is. Adding a task takes the lock, links a node, counts it and
  // releases the lock; thread_join_destroy stores JOINED under the lock,
  // Thread::join stores it without.
  datatype OwnerPc =
    | Idle
    | LinkTask(t: nat) | CountTask | UnlockAdd
    | CreateWorker
    | StoreJoined | UnlockJoin
    | AwaitWorker | Finished

  // Where the worker is, in worker_function and handle_thread_tasks.
  datatype WorkerPc =
    | Unborn
    | LockBoot | TestBoot | StoreStarted | UnlockBoot
    | ReadStatus | ReadSize
    | LockPop | Pop | CountPop(t: nat) | UnlockPop(popped: Option<nat>)
    | Run(t: nat) | Delete(t: nat)
    | Exited

  datatype State = State(
    status: Status, lock: Holder, queue: seq<nat>, size: int,
    owner: OwnerPc, worker: WorkerPc,
    added: seq<nat>, executed: seq<nat>, deleted: seq<nat>)

  // What the owner may call when it is idle; Continue is the next step of a call.
  datatype Call = AddTask(t: nat) | Start | Join | JoinDestroy | Continue

  datatype Action = Owner(call: Call) | Worker

  const INITIAL := State(NotStarted, Nobody, [], 0, Idle, Unborn, [], [], [])

  function OwnerStep(s: State, call: Call): Option<State>
  {
    if call != Continue && !s.owner.Idle? then None
    else
    match s.owner
    case Idle =>
      (match call
       case Continue => None
       case AddTask(t) =>
         if s.lock == Nobody then Some(s.(lock := OwnerHolds, owner := LinkTask(t))) else None
       case Start =>
         if s.status == NotStarted then Some(s.(status := StartingUp, owner := CreateWorker)) else None
       case Join =>
         if s.status != NotStarted then Some(s.(status := Joined, owner := AwaitWorker)) else None
       case JoinDestroy =>
         if s.status != NotStarted && s.lock == Nobody then Some(s.(lock := OwnerHolds, owner := StoreJoined))
         else None)
    case LinkTask(t) => Some(s.(queue := s.queue + [t], added := s.added + [t], owner := CountTask))
    case CountTask => Some(s.(size := s.size + 1, owner := UnlockAdd))
    case UnlockAdd => Some(s.(lock := Nobody, owner := Idle))
    case CreateWorker => Some(s.(worker := LockBoot, owner := Idle))
    case StoreJoined => Some(s.(status := Joined, owner := UnlockJoin))
    case UnlockJoin => Some(s.(lock := Nobody, owner := AwaitWorker))
    case AwaitWorker => if s.worker == Exited then Some(s.(owner := Finished)) else None
    case Finished => None
  }

  function WorkerStep(s: State): Option<State>
  {
    match s.worker
    case Unborn => None
    case LockBoot => if s.lock == Nobody then Some(s.(lock := WorkerHolds, worker := TestBoot)) else None
    case TestBoot => Some(s.(worker := if s.status == StartingUp then StoreStarted else UnlockBoot))
    case StoreStarted => Some(s.(status := Started, worker := UnlockBoot))
    case UnlockBoot => Some(s.(lock := Nobody, worker := ReadStatus))
    case ReadStatus => Some(s.(worker := if s.status != Joined then LockPop else ReadSize))
    case ReadSize => Some(s.(worker := if s.size != 0 then LockPop else Exited))
    case LockPop => if s.lock == Nobody then Some(s.(lock := WorkerHolds, worker := Pop)) else None
    case Pop =>
      if s.queue == [] then Some(s.(worker := UnlockPop(None)))
      else Some(s.(queue := s.queue[1..], worker := CountPop(s.queue[0])))
    case CountPop(t) => Some(s.(size := s.size - 1, worker := UnlockPop(Some(t))))
    case UnlockPop(popped) =>
      Some(s.(lock := Nobody, worker := if popped.Some? then Run(popped.value) else ReadStatus))
    case Run(t) => Some(s.(executed := s.executed + [t], worker := Delete(t)))
    case Delete(t) => Some(s.(deleted := s.deleted + [t], worker := ReadStatus))
    case Exited => None
  }

  function Step(s: State, a: Action): Option<State>
  {
    match a
    case Owner(call) => OwnerStep(s, call)
    case Worker => WorkerStep(s)
  }

  // The state after a run, if every action in it was enabled.
  function Execute(s: State, run: seq<Action>): Option<State>
    decreases |run|
  {
    if run == [] then Some(s)
    else
      var next := Step(s, run[0]);
      if next.None? then None else Execute(next.value, run[1..])
  }

  // The invariant --------------------------------------------------------------

  function InFlight(w: WorkerPc): seq<nat>
  {
    match w
    case CountPop(t) => [t]
    case UnlockPop(Some(t)) => [t]
    case Run(t) => [t]
    case _ => []
  }

  // The owner has stored JOINED and will add nothing more.
  predicate PastJoin(o: OwnerPc)
  {
    o.UnlockJoin? || o.AwaitWorker? || o.Finished?
  }

  // The worker has not yet left its start-up code.
  predicate Booting(w: WorkerPc)
  {
    w.LockBoot? || w.TestBoot? || w.StoreStarted?
  }

  // The tasks are all there, in the order of adding.
  predicate TasksConserved(s: State)
  {
    && s.added == s.executed + InFlight(s.worker) + s.queue
    && s.executed == s.deleted + if s.worker.Delete? then [s.worker.t] else []
  }

  // Whoever is in a critical section holds the lock, and only inside one does the
  // size field differ from the length of the queue.
  predicate LockKept(s: State)
  {
    && (s.lock == OwnerHolds <==>
        s.owner.LinkTask? || s.owner.CountTask? || s.owner.UnlockAdd? || s.owner.StoreJoined? || s.owner.UnlockJoin?)
    && (s.lock == WorkerHolds <==>
        s.worker.TestBoot? || s.worker.StoreStarted? || s.worker.UnlockBoot?
        || s.worker.Pop? || s.worker.CountPop? || s.worker.UnlockPop?)
    && s.size == |s.queue| - (if s.owner.CountTask? then 1 else 0) + if s.worker.CountPop? then 1 else 0
  }

  predicate LifeCycle(s: State)
  {
    && (s.status == NotStarted ==> s.owner.Idle? || s.owner.LinkTask? || s.owner.CountTask? || s.owner.UnlockAdd?)
    && (s.worker.Unborn? <==> s.status == NotStarted || s.owner.CreateWorker?)
    && (s.owner.CreateWorker? ==> s.status == StartingUp)
    && (s.status == StartingUp ==> s.worker.Unborn? || Booting(s.worker))
    && (s.status == Started ==> !s.worker.Unborn? && !Booting(s.worker))
    && (s.worker.StoreStarted? ==> s.status == StartingUp || s.status == Joined)
    && (s.status == Joined ==> PastJoin(s.owner))
    && (PastJoin(s.owner) ==> s.status == Joined || s.status == Started)
    && (s.worker.ReadSize? || s.worker.Exited? ==> s.status == Joined)
    && (s.worker.Exited? ==> s.queue == [])
    && (s.owner.Finished? ==> s.worker.Exited?)
  }

  predicate Inv(s: State)
  {
    TasksConserved(s) && LockKept(s) && LifeCycle(s)
  }

  lemma OwnerKeepsTasks(s: State, call: Call)
    requires TasksConserved(s) && (s.owner.CreateWorker? ==> s.worker.Unborn?) && OwnerStep(s, call).Some?
    ensures TasksConserved(OwnerStep(s, call).value)
  {
  }

  lemma WorkerKeepsTasks(s: State)
    requires TasksConserved(s) && WorkerStep(s).Some?
    ensures TasksConserved(WorkerStep(s).value)
  {
  }

  lemma StepKeepsInv(s: State, a: Action)
    requires Inv(s) && Step(s, a).Some?
    ensures Inv(Step(s, a).value)
  {
    match a
    case Owner(call) => OwnerKeepsTasks(s, call);
    case Worker => WorkerKeepsTasks(s);
    hide TasksConserved;
  }

  lemma {:induction false} RunKeepsInv(s: State, run: seq<Action>)
    requires Inv(s) && Execute(s, run).Some?
    ensures Inv(Execute(s, run).value)
    decreases |run|
  {
    hide Inv, Step;
    if run != [] {
      StepKeepsInv(s, run[0]);
      RunKeepsInv(Step(s, run[0]).value, run[1..]);
    }
  }

  // Safety over every run --------------------------------------------------------

  // The tasks that a run's calls add, and the one that is still to be linked.
  function AddedBy(run: seq<Action>): seq<nat>
  {
    if run == [] then [] else Adds(run[0]) + AddedBy(run[1..])
  }

  function Adds(a: Action): seq<nat>
  {
    match a
    case Owner(AddTask(t)) => [t]
    case _ => []
  }

  function ToLink(o: OwnerPc): seq<nat>
  {
    match o
    case LinkTask(t) => [t]
    case _ => []
  }

  lemma StepAdds(s: State, a: Action)
    requires Step(s, a).Some?
    ensures var s' := Step(s, a).value; s'.added + ToLink(s'.owner) == s.added + ToLink(s.owner) + Adds(a)
  {
  }

  lemma {:induction false} RunAdds(s: State, run: seq<Action>)
    requires Execute(s, run).Some?
    ensures var s' := Execute(s, run).value; s'.added + ToLink(s'.owner) == s.added + ToLink(s.owner) + AddedBy(run)
    decreases |run|
  {
    hide Step, Adds, ToLink;
    if run != [] {
      StepAdds(s, run[0]);
      RunAdds(Step(s, run[0]).value, run[1..]);
    }
  }

  // Of the tasks that the run's calls add, each runs at most once and in the order of
  // the calls, is deleted at most once and only after it ran; each is deleted, run,
  // popped, queued or still to be linked; and when the worker has left its loop, or
  // the join has returned, all have run and been deleted.
  lemma EveryRun(run: seq<Action>)
    requires Execute(INITIAL, run).Some?
    ensures var s := Execute(INITIAL, run).value;
      && s.deleted <= s.executed <= AddedBy(run)
      && |s.executed| <= |s.deleted| + 1
      && s.added == s.executed + InFlight(s.worker) + s.queue && AddedBy(run) == s.added + ToLink(s.owner)
      && (s.worker.Exited? || s.owner.Finished? ==> s.deleted == s.executed == AddedBy(run))
  {
    RunKeepsInv(INITIAL, run);
    AllAdded(run);
    hide Inv, Execute, AddedBy, InFlight, ToLink;
    AddedAre(Execute(INITIAL, run).value, AddedBy(run));
  }

  lemma AllAdded(run: seq<Action>)
    requires Execute(INITIAL, run).Some?
    ensures var s := Execute(INITIAL, run).value; s.added + ToLink(s.owner) == AddedBy(run)
  {
    RunAdds(INITIAL, run);
    assert INITIAL.added + ToLink(INITIAL.owner) + AddedBy(run) == AddedBy(run);
  }

  lemma AddedAre(s: State, added: seq<nat>)
    requires Inv(s) && added == s.added + ToLink(s.owner)
    ensures s.deleted <= s.executed <= added && |s.executed| <= |s.deleted| + 1
    ensures s.added == s.executed + InFlight(s.worker) + s.queue
    ensures s.worker.Exited? || s.owner.Finished? ==> s.deleted == s.executed == added
  {
    assert added == s.executed + (InFlight(s.worker) + s.queue + ToLink(s.owner));
  }

  // The owner's calls: which are possible, and that a call once begun is blocked by
  // nothing but the wait for the worker.
  lemma OwnerEnabled(s: State, t: nat)
    ensures s.owner.Idle? ==>
      && (OwnerStep(s, AddTask(t)).Some? <==> s.lock == Nobody)
      && (OwnerStep(s, Start).Some? <==> s.status == NotStarted)
      && (OwnerStep(s, Join).Some? <==> s.status != NotStarted)
      && (OwnerStep(s, JoinDestroy).Some? <==> s.status != NotStarted && s.lock == Nobody)
    ensures !s.owner.Idle? && !s.owner.Finished? ==>
      (OwnerStep(s, Continue).Some? <==> s.owner.AwaitWorker? ==> s.worker == Exited)
  {
  }

  // How many steps the worker is from having run one more task, if there is one.
  function Distance(w: WorkerPc): nat
  {
    match w
    case Run(_) => 1
    case UnlockPop(popped) => if popped.Some? then 2 else 8
    case CountPop(_) => 3
    case Pop => 4
    case LockPop => 5
    case ReadSize => 6
    case ReadStatus => 7
    case Delete(_) => 8
    case UnlockBoot => 8
    case StoreStarted => 9
    case TestBoot => 10
    case LockBoot => 11
    case _ => 0
  }

  // A started worker does not wait for the join: as long as the owner is not in a
  // critical section it runs the next task by its own steps.
  lemma {:induction false} NextTaskRuns(s: State) returns (run: seq<Action>)
    requires Inv(s) && !s.worker.Unborn? && s.lock != OwnerHolds
    requires s.queue != [] || InFlight(s.worker) != []
    ensures Execute(s, run).Some? && |run| <= Distance(s.worker) <= 11 && forall a :: a in run ==> a.Worker?
    ensures Execute(s, run).value.executed == s.executed + [(InFlight(s.worker) + s.queue)[0]]
    decreases Distance(s.worker)
  {
    StepKeepsInv(s, Worker);
    var s' := WorkerStep(s).value;
    if s.worker.Run? {
      run := [Worker];
      assert Execute(s', run[1..]) == Some(s');
    } else {
      var rest := NextTaskRuns(s');
      run := [Worker] + rest;
      assert run[1..] == rest;
    }
  }

  // Joining ------------------------------------------------------------------------

  // The owner waits, JOINED is stored, and the worker is past the point where it
  // could overwrite it.
  predicate JoinHeard(s: State)
  {
    Inv(s) && (s.owner.AwaitWorker? || s.owner.Finished?) && s.status == Joined && !s.worker.StoreStarted?
  }

  // The worker has overwritten JOINED, or is about to.
  predicate JoinLost(s: State)
  {
    Inv(s) && s.owner.AwaitWorker? && (s.status == Started || s.worker.StoreStarted?)
  }

  lemma {:induction false} JoinedIsAbsorbing(s: State, run: seq<Action>)
    requires JoinHeard(s) && Execute(s, run).Some?
    ensures JoinHeard(Execute(s, run).value)
    decreases |run|
  {
    if run != [] {
      StepKeepsInv(s, run[0]);
      hide Inv;
      JoinedIsAbsorbing(Step(s, run[0]).value, run[1..]);
    }
  }

  lemma {:induction false} LostStaysLost(s: State, run: seq<Action>)
    requires JoinLost(s) && Execute(s, run).Some?
    ensures JoinLost(Execute(s, run).value)
    decreases |run|
  {
    if run != [] {
      StepKeepsInv(s, run[0]);
      LostStaysLost(Step(s, run[0]).value, run[1..]);
    }
  }

  // How many steps the worker still takes once the join is heard: eight for each
  // queued task, and what is left of its present round.
  function Rank(s: State): nat
  {
    var n := 8 * |s.queue|;
    match s.worker
    case Unborn => n + 7
    case LockBoot => n + 6
    case TestBoot => n + 5
    case StoreStarted => n + 4
    case UnlockBoot => n + 3
    case ReadStatus => n + 2
    case ReadSize => n + 1
    case LockPop => if n > 0 then n else 5
    case Pop => if n > 0 then n - 1 else 4
    case CountPop(_) => n + 6
    case UnlockPop(popped) => if popped.Some? then n + 5 else n + 3
    case Run(_) => n + 4
    case Delete(_) => n + 3
    case Exited => 0
  }

  // The worker is never blocked then, and every step brings it closer to the end.
  lemma DrainStep(s: State)
    requires JoinHeard(s) && s.worker != Exited
    ensures WorkerStep(s).Some? && Rank(WorkerStep(s).value) < Rank(s)
  {
  }

  // So no run goes on for longer than that,
  lemma {:induction false} DrainIsBounded(s: State, run: seq<Action>)
    requires JoinHeard(s) && Execute(s, run).Some?
    ensures |run| <= Rank(s) + if s.owner.AwaitWorker? then 1 else 0
    decreases |run|
  {
    if run != [] {
      JoinedIsAbsorbing(s, [run[0]]);
      if run[0].Worker? {
        if s.worker != Exited {
          DrainStep(s);
        }
      }
      DrainIsBounded(Step(s, run[0]).value, run[1..]);
    }
  }

  // and the worker gets to the end: the join returns.
  lemma {:induction false} Drain(s: State) returns (run: seq<Action>)
    requires JoinHeard(s)
    ensures Execute(s, run).Some? && Execute(s, run).value.owner.Finished?
    decreases Rank(s)
  {
    if s.owner.Finished? {
      run := [];
    } else if s.worker == Exited {
      run := [Owner(Continue)];
      assert Execute(Step(s, run[0]).value, []).value.owner.Finished?;
    } else {
      DrainStep(s);
      JoinedIsAbsorbing(s, [Worker]);
      var rest := Drain(WorkerStep(s).value);
      run := [Worker] + rest;
      assert run[1..] == rest;
    }
  }

  ghost predicate CanReturn(s: State)
  {
    exists run :: Execute(s, run).Some? && Execute(s, run).value.owner.Finished?
  }

  // Thread::join stores JOINED without the lock. It can return exactly if the
  // worker is not between testing the status and storing STARTED at that moment.
  lemma JoinReturnsIff(s: State)
    requires Inv(s) && s.owner.Idle? && s.status != NotStarted
    ensures CanReturn(OwnerStep(s, Join).value) <==> !s.worker.StoreStarted?
  {
    StepKeepsInv(s, Owner(Join));
    var t := OwnerStep(s, Join).value;
    if s.worker.StoreStarted? {
      forall run | Execute(t, run).Some?
        ensures !Execute(t, run).value.owner.Finished?
      {
        LostStaysLost(t, run);
      }
    } else {
      var run := Drain(t);
    }
  }

  // An owner that has seen the status STARTED can join: the join can return, and
  // within a bounded number of steps it does.
  lemma JoinAfterStartReturns(s: State, more: seq<Action>)
    requires Inv(s) && s.owner.Idle? && s.status == Started
    ensures var t := OwnerStep(s, Join).value;
      && CanReturn(t) && (Execute(t, more).Some? ==> |more| <= Rank(t) + 1)
  {
    StepKeepsInv(s, Owner(Join));
    JoinReturnsIff(s);
    if Execute(OwnerStep(s, Join).value, more).Some? {
      DrainIsBounded(OwnerStep(s, Join).value, more);
    }
  }

  // thread_join_destroy stores it with the lock held, and is always heard.
  predicate NeverLost(s: State)
  {
    PastJoin(s.owner) ==> s.status == Joined && !s.worker.StoreStarted?
  }

  lemma {:induction false} LockedJoinIsHeard(s: State, run: seq<Action>)
    requires Inv(s) && NeverLost(s) && Execute(s, run).Some? && Owner(Join) !in run
    ensures NeverLost(Execute(s, run).value)
    decreases |run|
  {
    if run != [] {
      StepKeepsInv(s, run[0]);
      LockedJoinIsHeard(Step(s, run[0]).value, run[1..]);
    }
  }

  // A thread that is only ever joined by thread_join_destroy: whenever its owner
  // waits, the join can return and returns within a bounded number of steps.
  lemma LockedJoinReturns(run: seq<Action>, more: seq<Action>)
    requires Execute(INITIAL, run).Some? && Owner(Join) !in run
    requires Execute(INITIAL, run).value.owner.AwaitWorker?
    ensures CanReturn(Execute(INITIAL, run).value)
    ensures Execute(Execute(INITIAL, run).value, more).Some? ==> |more| <= Rank(Execute(INITIAL, run).value) + 1
  {
    RunKeepsInv(INITIAL, run);
    LockedJoinIsHeard(INITIAL, run);
    var s := Execute(INITIAL, run).value;
    var rest := Drain(s);
    if Execute(s, more).Some? {
      DrainIsBounded(s, more);
    }
  }

  // The race happens: start, let the worker test the status, join.
  lemma JoinCanBeLost()
    ensures exists run :: Execute(INITIAL, run).Some? && JoinLost(Execute(INITIAL, run).value)
  {
    var s1 := INITIAL.(status := StartingUp, owner := CreateWorker);
    var s2 := s1.(owner := Idle, worker := LockBoot);
    var s3 := s2.(lock := WorkerHolds, worker := TestBoot);
    var s4 := s3.(worker := StoreStarted);
    var s5 := s4.(status := Joined, owner := AwaitWorker);
    var run4 := [Owner(Join)];
    var run3 := [Worker] + run4;
    var run2 := [Worker] + run3;
    var run1 := [Owner(Continue)] + run2;
    var run := [Owner(Start)] + run1;
    LostAt(s5);
    hide Execute, JoinLost;
    NoStep(s5);
    FirstStep(s4, Owner(Join), s5, []);
    FirstStep(s3, Worker, s4, run4);
    FirstStep(s2, Worker, s3, run3);
    FirstStep(s1, Owner(Continue), s2, run2);
    FirstStep(INITIAL, Owner(Start), s1, run1);
    assert Execute(INITIAL, run) == Some(s5);
  }

  lemma LostAt(s: State)
    requires s == INITIAL.(status := Joined, lock := WorkerHolds, owner := AwaitWorker, worker := StoreStarted)
    ensures JoinLost(s)
  {
  }

  lemma NoStep(s: State)
    ensures Execute(s, []) == Some(s)
  {
  }

  lemma FirstStep(s: State, a: Action, s': State, rest: seq<Action>)
    requires Step(s, a) == Some(s')
    ensures Execute(s, [a] + rest) == Execute(s', rest)
  {
    assert ([a] + rest)[1..] == rest;
  }
}
