// AtomicInteger (src/classes/atomic_integer.c): any number of threads increment,
// decrement, and work in regions between lock and unlock, under one recursive
// mutex. An increment is four steps: acquire, read, write and release.

module AtomicIntegers {
  import opened Options

  datatype Pc =
    | Ready
    | Locked(delta: int)             // inc or dec holds the mutex
    | Loaded(delta: int, tmp: int)   // and has read the value
    | Stored                         // and has written it

  // `seen` is what the thread got since it holds the mutex and last wrote.
  datatype Thread = Thread(pc: Pc, seen: Option<int>)

  // What the integer has been through, as single steps.
  datatype Effect = Add(delta: int) | Double

  datatype State = State(
    value: int, owner: Option<nat>, depth: nat, threads: seq<Thread>,
    log: seq<Effect>)

  datatype Action =
    | Inc | Dec     // begin inc() or dec()
    | Continue      // its next step
    | Lock | Unlock
    | Get           // $i->get()
    | SetDouble     // $i->set($got * 2), in a region after a get

  function Start(value: int, n: nat): State
  {
    State(value, None, 0, seq(n, _ => Thread(Ready, None)), [])
  }

  predicate CanAcquire(s: State, t: nat)
  {
    s.owner == None || s.owner == Some(t)
  }

  function Acquired(s: State, t: nat): State
  {
    s.(owner := Some(t), depth := s.depth + 1)
  }

  // Releasing a recursive mutex; what the thread saw is stale once it is free.
  function Released(s: State, t: nat): State
    requires t < |s.threads| && s.depth > 0
  {
    if s.depth > 1 then s.(depth := s.depth - 1)
    else s.(owner := None, depth := 0, threads := s.threads[t := s.threads[t].(seen := None)])
  }

  function At(s: State, t: nat, th: Thread): State
    requires t < |s.threads|
  {
    s.(threads := s.threads[t := th])
  }

  function Step(s: State, t: nat, a: Action): Option<State>
  {
    if t >= |s.threads| || (a != Continue && s.threads[t].pc != Ready) then None
    else
      var th := s.threads[t];
      match th.pc
      case Ready =>
        (match a
         case Inc => if CanAcquire(s, t) then Some(At(Acquired(s, t), t, th.(pc := Locked(1)))) else None
         case Dec => if CanAcquire(s, t) then Some(At(Acquired(s, t), t, th.(pc := Locked(-1)))) else None
         case Lock => if CanAcquire(s, t) then Some(Acquired(s, t)) else None
         case Unlock =>
           if s.owner == Some(t) && s.depth > 0 then Some(Released(s, t)) else None
         case Continue => None
         case Get => Some(At(s, t, th.(seen := if s.owner == Some(t) then Some(s.value) else None)))
         case SetDouble =>
           if s.owner == Some(t) && th.seen.Some? then
             Some(At(s.(value := th.seen.value * 2, log := s.log + [Double]), t, th.(seen := None)))
           else None)
      case Locked(delta) => Some(At(s, t, th.(pc := Loaded(delta, s.value))))
      case Loaded(delta, tmp) =>
        Some(At(s.(value := tmp + delta, log := s.log + [Add(delta)]), t, Thread(Stored, None)))
      case Stored =>
        if s.depth > 0 then Some(Released(At(s, t, th.(pc := Ready)), t)) else None
  }

  datatype Move = Move(thread: nat, action: Action)

  function Execute(s: State, run: seq<Move>): Option<State>
    decreases |run|
  {
    if run == [] then Some(s)
    else
      var next := Step(s, run[0].thread, run[0].action);
      if next.None? then None else Execute(next.value, run[1..])
  }

  // The effects one after another, each as a whole.
  function Outcome(value: int, log: seq<Effect>): int
  {
    if log == [] then value
    else
      var before := Outcome(value, log[..|log| - 1]);
      match log[|log| - 1]
      case Add(delta) => before + delta
      case Double => before * 2
  }

  // Only the owner of the mutex is inside an operation, and what it has read is
  // still the value.
  predicate ThreadKept(s: State, t: nat)
    requires t < |s.threads|
  {
    var th := s.threads[t];
    && (th.pc != Ready ==> s.owner == Some(t))
    && (th.pc.Loaded? ==> th.pc.tmp == s.value)
    && (th.seen.Some? ==> s.owner == Some(t) && th.seen.value == s.value)
  }

  predicate Inv(s: State, start: int)
  {
    && (s.owner.Some? <==> s.depth > 0)
    && (forall t :: 0 <= t < |s.threads| ==> ThreadKept(s, t))
    && s.value == Outcome(start, s.log)
  }

  lemma StepKeepsInv(s: State, start: int, t: nat, a: Action)
    requires Inv(s, start) && Step(s, t, a).Some?
    ensures Inv(Step(s, t, a).value, start)
  {
    hide Outcome;
    var s' := Step(s, t, a).value;
    assert ThreadKept(s, t);
    LogStep(s, start, s');
    StepKeepsThreads(s, t, a);
  }

  lemma StepKeepsThreads(s: State, t: nat, a: Action)
    requires Step(s, t, a).Some? && (s.owner.Some? <==> s.depth > 0)
    requires forall u :: 0 <= u < |s.threads| ==> ThreadKept(s, u)
    ensures var s' := Step(s, t, a).value;
      && (s'.owner.Some? <==> s'.depth > 0)
      && forall u :: 0 <= u < |s'.threads| ==> ThreadKept(s', u)
  {
    var s' := Step(s, t, a).value;
    assert ThreadKept(s, t);
    forall u | 0 <= u < |s'.threads|
      ensures ThreadKept(s', u)
    {
      assert ThreadKept(s, u);
    }
  }

  lemma LogStep(s: State, start: int, s': State)
    ensures forall e :: s'.log == s.log + [e] ==>
      var before := Outcome(start, s.log);
      Outcome(start, s'.log) == match e case Add(d) => before + d case Double => before * 2
  {
  }

  lemma {:induction false} RunKeepsInv(s: State, start: int, run: seq<Move>)
    requires Inv(s, start) && Execute(s, run).Some?
    ensures Inv(Execute(s, run).value, start)
    decreases |run|
  {
    hide Inv, Step;
    if run != [] {
      StepKeepsInv(s, start, run[0].thread, run[0].action);
      RunKeepsInv(Step(s, run[0].thread, run[0].action).value, start, run[1..]);
    }
  }

  // In every interleaving of any number of threads the value is that of the
  // completed increments, decrements and doublings, each taken as one step.
  lemma EveryRunIsSerial(value: int, n: nat, run: seq<Move>)
    requires Execute(Start(value, n), run).Some?
    ensures var s := Execute(Start(value, n), run).value; s.value == Outcome(value, s.log)
  {
    RunKeepsInv(Start(value, n), value, run);
  }

  // What a log adds up to, and the doublings in it.
  function Adds(log: seq<Effect>): int
  {
    if log == [] then 0
    else Adds(log[..|log| - 1]) + match log[|log| - 1] case Add(d) => d case Double => 0
  }

  function Doublings(log: seq<Effect>): nat
  {
    if log == [] then 0 else Doublings(log[..|log| - 1]) + if log[|log| - 1].Double? then 1 else 0
  }

  lemma {:induction false} OutcomeOfAdds(value: int, log: seq<Effect>)
    requires Doublings(log) == 0
    ensures Outcome(value, log) == value + Adds(log)
  {
    if log != [] {
      OutcomeOfAdds(value, log[..|log| - 1]);
    }
  }

  // What the moves of a run ask for: its inc()s minus its dec()s, and its
  // doublings; and what the threads still have to write.
  function Asked(run: seq<Move>): int
  {
    if run == [] then 0
    else Asked(run[1..]) + match run[0].action case Inc => 1 case Dec => -1 case _ => 0
  }

  function SetsAsked(run: seq<Move>): nat
  {
    if run == [] then 0 else SetsAsked(run[1..]) + if run[0].action == SetDouble then 1 else 0
  }

  function Unwritten(pc: Pc): int
  {
    match pc case Locked(delta) => delta case Loaded(delta, _) => delta case _ => 0
  }

  function InFlight(threads: seq<Thread>): int
  {
    if threads == [] then 0 else InFlight(threads[..|threads| - 1]) + Unwritten(threads[|threads| - 1].pc)
  }

  lemma {:induction false} InFlightUpdate(threads: seq<Thread>, t: nat, th: Thread)
    requires t < |threads|
    ensures InFlight(threads[t := th]) == InFlight(threads) - Unwritten(threads[t].pc) + Unwritten(th.pc)
  {
    var n := |threads| - 1;
    if t == n {
      assert threads[t := th][..n] == threads[..n];
    } else {
      InFlightUpdate(threads[..n], t, th);
      assert threads[t := th][..n] == threads[..n][t := th];
    }
  }

  lemma {:induction false} NoneInFlight(n: nat)
    ensures InFlight(seq(n, _ => Thread(Ready, None))) == 0
  {
    if n > 0 {
      NoneInFlight(n - 1);
      assert seq(n, _ => Thread(Ready, None))[..n - 1] == seq(n - 1, _ => Thread(Ready, None));
    }
  }

  lemma Logged(log: seq<Effect>, e: Effect)
    ensures Adds(log + [e]) == Adds(log) + match e case Add(d) => d case Double => 0
    ensures Doublings(log + [e]) == Doublings(log) + if e.Double? then 1 else 0
  {
  }

  lemma StepIsLogged(s: State, t: nat, a: Action)
    requires Step(s, t, a).Some?
    ensures var s' := Step(s, t, a).value;
      && Adds(s'.log) + InFlight(s'.threads) ==
         Adds(s.log) + InFlight(s.threads) + (match a case Inc => 1 case Dec => -1 case _ => 0)
      && Doublings(s'.log) == Doublings(s.log) + if a == SetDouble then 1 else 0
  {
    hide InFlight, Adds, Doublings;
    var s' := Step(s, t, a).value;
    assert s'.threads == s.threads[t := s'.threads[t]];
    InFlightUpdate(s.threads, t, s'.threads[t]);
    if s'.log != s.log {
      Logged(s.log, s'.log[|s.log|]);
    }
  }

  // The log and the operations still in flight are what the run asked for, with
  // doublings in between or not.
  lemma {:induction false} RunIsLogged(s: State, run: seq<Move>)
    requires Execute(s, run).Some?
    ensures var s' := Execute(s, run).value;
      && Adds(s'.log) + InFlight(s'.threads) == Adds(s.log) + InFlight(s.threads) + Asked(run)
      && Doublings(s'.log) == Doublings(s.log) + SetsAsked(run)
    decreases |run|
  {
    hide Step, InFlight, Adds, Doublings;
    if run != [] {
      StepIsLogged(s, run[0].thread, run[0].action);
      RunIsLogged(Step(s, run[0].thread, run[0].action).value, run[1..]);
    }
  }

  // Without doublings: the start plus inc()s minus dec()s, but for those that some
  // thread has begun and not yet written.
  lemma EveryRunCounts(value: int, n: nat, run: seq<Move>)
    requires Execute(Start(value, n), run).Some? && SetsAsked(run) == 0
    ensures var s := Execute(Start(value, n), run).value; s.value + InFlight(s.threads) == value + Asked(run)
  {
    EveryRunIsSerial(value, n, run);
    NoneInFlight(n);
    RunIsLogged(Start(value, n), run);
    OutcomeOfAdds(value, Execute(Start(value, n), run).value.log);
  }

  // The mutex is recursive: no lock() and no operation of its owner blocks, and
  // unlock() undoes lock(). Nobody else gets in.
  lemma OwnerCanMove(s: State, start: int, t: nat)
    requires Inv(s, start) && s.owner == Some(t) && t < |s.threads|
    ensures s.threads[t].pc != Ready ==> Step(s, t, Continue).Some?
    ensures s.threads[t].pc == Ready ==>
      && (forall a :: a in {Inc, Dec, Lock, Unlock, Get} ==> Step(s, t, a).Some?)
      && Step(Step(s, t, Lock).value, t, Unlock) == Some(s)
    ensures forall u, a :: u != t && a in {Inc, Dec, Lock, Unlock, SetDouble} ==> Step(s, u, a) == None
  {
    assert forall u: nat | u < |s.threads| :: ThreadKept(s, u);
  }

  // A mutex that nobody has can be had by anybody.
  lemma FreeMutexIsOpen(s: State, t: nat)
    requires s.owner == None && t < |s.threads| && s.threads[t].pc == Ready
    ensures forall a :: a in {Inc, Dec, Lock} ==> Step(s, t, a).Some?
  {
  }

  // inc() and dec() from beginning to end, with nothing in between: the value changes
  // by one, and the mutex is as before.
  lemma WholeOperation(s: State, start: int, t: nat, a: Action)
    requires Inv(s, start) && (a == Inc || a == Dec)
    requires t < |s.threads| && s.threads[t].pc == Ready && (s.owner == None || s.owner == Some(t))
    ensures var d := if a == Inc then 1 else -1;
      Execute(s, [Move(t, a), Move(t, Continue), Move(t, Continue), Move(t, Continue)]) ==
        Some(s.(value := s.value + d, log := s.log + [Add(d)], threads := s.threads[t := Thread(Ready, None)]))
  {
    var s1, s2, s3, s4 := OperationSteps(s, start, t, a);
    hide Inv, Step, Execute;
    NoMove(s4);
    FirstMove(s, Move(t, a), s1, [Move(t, Continue), Move(t, Continue), Move(t, Continue)]);
    FirstMove(s1, Move(t, Continue), s2, [Move(t, Continue), Move(t, Continue)]);
    FirstMove(s2, Move(t, Continue), s3, [Move(t, Continue)]);
    FirstMove(s3, Move(t, Continue), s4, []);
    assert [Move(t, a), Move(t, Continue), Move(t, Continue), Move(t, Continue)] ==
      [Move(t, a)] + [Move(t, Continue), Move(t, Continue), Move(t, Continue)];
    assert [Move(t, Continue), Move(t, Continue), Move(t, Continue)] ==
      [Move(t, Continue)] + [Move(t, Continue), Move(t, Continue)];
    assert [Move(t, Continue), Move(t, Continue)] == [Move(t, Continue)] + [Move(t, Continue)];
    assert [Move(t, Continue)] + [] == [Move(t, Continue)];
  }

  lemma OperationSteps(s: State, start: int, t: nat, a: Action) returns (s1: State, s2: State, s3: State, s4: State)
    requires Inv(s, start) && (a == Inc || a == Dec)
    requires t < |s.threads| && s.threads[t].pc == Ready && (s.owner == None || s.owner == Some(t))
    ensures Step(s, t, a) == Some(s1) && Step(s1, t, Continue) == Some(s2)
    ensures Step(s2, t, Continue) == Some(s3) && Step(s3, t, Continue) == Some(s4)
    ensures var d := if a == Inc then 1 else -1;
      s4 == s.(value := s.value + d, log := s.log + [Add(d)], threads := s.threads[t := Thread(Ready, None)])
  {
    s1 := Step(s, t, a).value;
    s2 := Step(s1, t, Continue).value;
    s3 := Step(s2, t, Continue).value;
    s4 := Step(s3, t, Continue).value;
    assert s4.threads == s.threads[t := Thread(Ready, None)];
  }

  // $i->lock(); $i->set($i->get() * 2); $i->unlock(); as the README shows it.
  lemma WholeDoubling(s: State, start: int, t: nat)
    requires Inv(s, start) && t < |s.threads| && s.threads[t].pc == Ready && s.owner == None
    ensures Execute(s, [Move(t, Lock), Move(t, Get), Move(t, SetDouble), Move(t, Unlock)]) ==
      Some(s.(value := s.value * 2, log := s.log + [Double], threads := s.threads[t := Thread(Ready, None)]))
  {
    var s1, s2, s3, s4 := DoublingSteps(s, start, t);
    hide Inv, Step, Execute;
    NoMove(s4);
    FirstMove(s, Move(t, Lock), s1, [Move(t, Get), Move(t, SetDouble), Move(t, Unlock)]);
    FirstMove(s1, Move(t, Get), s2, [Move(t, SetDouble), Move(t, Unlock)]);
    FirstMove(s2, Move(t, SetDouble), s3, [Move(t, Unlock)]);
    FirstMove(s3, Move(t, Unlock), s4, []);
    assert [Move(t, Lock), Move(t, Get), Move(t, SetDouble), Move(t, Unlock)] ==
      [Move(t, Lock)] + [Move(t, Get), Move(t, SetDouble), Move(t, Unlock)];
    assert [Move(t, Get), Move(t, SetDouble), Move(t, Unlock)] ==
      [Move(t, Get)] + [Move(t, SetDouble), Move(t, Unlock)];
    assert [Move(t, SetDouble), Move(t, Unlock)] == [Move(t, SetDouble)] + [Move(t, Unlock)];
    assert [Move(t, Unlock)] + [] == [Move(t, Unlock)];
  }

  lemma DoublingSteps(s: State, start: int, t: nat) returns (s1: State, s2: State, s3: State, s4: State)
    requires Inv(s, start) && t < |s.threads| && s.threads[t].pc == Ready && s.owner == None
    ensures Step(s, t, Lock) == Some(s1) && Step(s1, t, Get) == Some(s2)
    ensures Step(s2, t, SetDouble) == Some(s3) && Step(s3, t, Unlock) == Some(s4)
    ensures s4 == s.(value := s.value * 2, log := s.log + [Double], threads := s.threads[t := Thread(Ready, None)])
  {
    s1 := Step(s, t, Lock).value;
    s2 := Step(s1, t, Get).value;
    s3 := Step(s2, t, SetDouble).value;
    s4 := Step(s3, t, Unlock).value;
    assert s4.threads == s.threads[t := Thread(Ready, None)];
  }

  lemma NoMove(s: State)
    ensures Execute(s, []) == Some(s)
  {
  }

  lemma FirstMove(s: State, m: Move, s': State, rest: seq<Move>)
    requires Step(s, m.thread, m.action) == Some(s')
    ensures Execute(s, [m] + rest) == Execute(s', rest)
  {
    assert ([m] + rest)[1..] == rest;
  }

  // How often the mutex is held: once for each lock() not undone and for each
  // operation in progress.
  function Held(run: seq<Move>): int
  {
    if run == [] then 0
    else Held(run[1..]) + match run[0].action case Lock => 1 case Unlock => -1 case _ => 0
  }

  function Busy(threads: seq<Thread>): nat
  {
    if threads == [] then 0 else Busy(threads[..|threads| - 1]) + if threads[|threads| - 1].pc == Ready then 0 else 1
  }

  lemma {:induction false} BusyUpdate(threads: seq<Thread>, t: nat, th: Thread)
    requires t < |threads|
    ensures Busy(threads[t := th]) ==
      Busy(threads) - (if threads[t].pc == Ready then 0 else 1) + if th.pc == Ready then 0 else 1
  {
    var n := |threads| - 1;
    if t == n {
      assert threads[t := th][..n] == threads[..n];
    } else {
      BusyUpdate(threads[..n], t, th);
      assert threads[t := th][..n] == threads[..n][t := th];
    }
  }

  lemma {:induction false} NoneBusy(n: nat)
    ensures Busy(seq(n, _ => Thread(Ready, None))) == 0
  {
    if n > 0 {
      NoneBusy(n - 1);
      assert seq(n, _ => Thread(Ready, None))[..n - 1] == seq(n - 1, _ => Thread(Ready, None));
    }
  }

  lemma StepHolds(s: State, t: nat, a: Action)
    requires Step(s, t, a).Some?
    ensures var s' := Step(s, t, a).value;
      s'.depth - Busy(s'.threads) == s.depth - Busy(s.threads) + match a case Lock => 1 case Unlock => -1 case _ => 0
  {
    hide Busy;
    var s' := Step(s, t, a).value;
    assert s'.threads == s.threads[t := s'.threads[t]];
    BusyUpdate(s.threads, t, s'.threads[t]);
  }

  lemma {:induction false} RunHolds(s: State, run: seq<Move>)
    requires Execute(s, run).Some?
    ensures var s' := Execute(s, run).value; s'.depth - Busy(s'.threads) == s.depth - Busy(s.threads) + Held(run)
    decreases |run|
  {
    hide Step, Busy;
    if run != [] {
      StepHolds(s, run[0].thread, run[0].action);
      RunHolds(Step(s, run[0].thread, run[0].action).value, run[1..]);
    }
  }

  // So the mutex is free exactly if every lock() has been undone and no operation is
  // in progress.
  lemma EveryRunReleases(value: int, n: nat, run: seq<Move>)
    requires Execute(Start(value, n), run).Some?
    ensures var s := Execute(Start(value, n), run).value;
      s.depth == Held(run) + Busy(s.threads) && (s.owner == None <==> Held(run) + Busy(s.threads) == 0)
  {
    RunKeepsInv(Start(value, n), value, run);
    NoneBusy(n);
    RunHolds(Start(value, n), run);
  }
}
