// The last releases of a container by several threads (src/pht_entry.c:55-90 and
// the *_free_obj functions of src/classes): a release lowers the count under the
// lock, but tests it for zero after unlocking.

module ReleaseRaces {
  import opened Options

  datatype Pc =
    | Holding   // has a reference
    | Untested  // has given it up, and still has to test the count
    | Freeing   // has found the count to be zero
    | Done

  datatype State = State(count: int, frees: nat, pcs: seq<Pc>)

  // The threads together hold all references that are left, one each.
  function Start(n: nat): State
  {
    State(n, 0, seq(n, _ => Holding))
  }

  // One step of thread t. With `locked`, testing belongs to the step that lowers
  // the count; the code has it apart.
  function Step(s: State, t: nat, locked: bool): Option<State>
  {
    if t >= |s.pcs| then None
    else
      match s.pcs[t]
      case Holding =>
        var pc := if !locked then Untested else if s.count == 1 then Freeing else Done;
        Some(State(s.count - 1, s.frees, s.pcs[t := pc]))
      case Untested => Some(s.(pcs := s.pcs[t := if s.count == 0 then Freeing else Done]))
      case Freeing => Some(s.(frees := s.frees + 1, pcs := s.pcs[t := Done]))
      case Done => None
  }

  function Execute(s: State, run: seq<nat>, locked: bool): Option<State>
  {
    if run == [] then Some(s)
    else
      match Execute(s, run[..|run| - 1], locked)
      case None => None
      case Some(before) => Step(before, run[|run| - 1], locked)
  }

  // A run in which every release has come to its end.
  predicate Complete(n: nat, run: seq<nat>, locked: bool)
  {
    var r := Execute(Start(n), run, locked);
    r.Some? && forall t :: 0 <= t < n ==> t < |r.value.pcs| && r.value.pcs[t] == Done
  }

  function Frees(n: nat, run: seq<nat>, locked: bool): nat
    requires Complete(n, run, locked)
  {
    Execute(Start(n), run, locked).value.frees
  }

  // Counting threads -------------------------------------------------------------

  function Count(pcs: seq<Pc>, pc: Pc): nat
  {
    if pcs == [] then 0 else Count(pcs[..|pcs| - 1], pc) + if pcs[|pcs| - 1] == pc then 1 else 0
  }

  lemma {:induction false} CountUpdate(pcs: seq<Pc>, t: nat, x: Pc, pc: Pc)
    requires t < |pcs|
    ensures Count(pcs[t := x], pc) == Count(pcs, pc) - (if pcs[t] == pc then 1 else 0) + if x == pc then 1 else 0
  {
    var n := |pcs| - 1;
    if t == n {
      assert pcs[t := x][..n] == pcs[..n];
    } else {
      CountUpdate(pcs[..n], t, x, pc);
      assert pcs[t := x][..n] == pcs[..n][t := x];
    }
  }

  lemma {:induction false} CountPositive(pcs: seq<Pc>, pc: Pc)
    ensures Count(pcs, pc) > 0 <==> exists t :: 0 <= t < |pcs| && pcs[t] == pc
  {
    if pcs != [] {
      var n := |pcs| - 1;
      CountPositive(pcs[..n], pc);
      assert forall t :: 0 <= t < n ==> pcs[..n][t] == pcs[t];
    }
  }

  lemma CountTwo(pcs: seq<Pc>, t: nat, pc: Pc)
    requires t < |pcs| && pcs[t] == pc
    ensures Count(pcs, pc) >= 2 <==> exists u :: 0 <= u < |pcs| && u != t && pcs[u] == pc
  {
    var x := if pc == Done then Holding else Done;
    CountUpdate(pcs, t, x, pc);
    CountPositive(pcs[t := x], pc);
    assert forall u :: 0 <= u < |pcs| && u != t ==> pcs[t := x][u] == pcs[u];
    assert pcs[t := x][t] != pc;
    hide Count;
    if u :| 0 <= u < |pcs| && u != t && pcs[u] == pc {
      assert pcs[t := x][u] == pc;
    }
  }

  lemma {:induction false} AllHolding(n: nat)
    ensures Count(Start(n).pcs, Holding) == n && Count(Start(n).pcs, Freeing) == Count(Start(n).pcs, Untested) == 0
  {
    if n > 0 {
      AllHolding(n - 1);
      assert Start(n).pcs[..n - 1] == Start(n - 1).pcs;
    }
  }

  // Runs -------------------------------------------------------------------------

  // The threads that will free the container, or have: they are fixed once the
  // count is zero.
  function Committed(s: State): nat
  {
    s.frees + Count(s.pcs, Freeing) + if s.count == 0 then Count(s.pcs, Untested) else 0
  }

  predicate Inv(s: State, n: nat, locked: bool)
  {
    && |s.pcs| == n && s.count == Count(s.pcs, Holding)
    && (locked ==> Count(s.pcs, Untested) == 0)
    && (s.count > 0 ==> Committed(s) == 0)
  }

  lemma StepKeepsInv(s: State, n: nat, t: nat, locked: bool)
    requires Inv(s, n, locked) && Step(s, t, locked).Some?
    ensures var s' := Step(s, t, locked).value;
      && Inv(s', n, locked)
      && (s.count == 0 ==> s'.count == 0 && Committed(s') == Committed(s))
      && (s.count > 0 && s'.count == 0 ==>
          s.pcs[t] == Holding && Committed(s') == if locked then 1 else Count(s'.pcs, Untested))
  {
    var s' := Step(s, t, locked).value;
    var x := s'.pcs[t];
    CountUpdate(s.pcs, t, x, Holding);
    CountUpdate(s.pcs, t, x, Untested);
    CountUpdate(s.pcs, t, x, Freeing);
    hide Count;
  }

  // Every prefix of a run is one, and keeps the invariant.
  lemma {:induction false} PrefixKeepsInv(n: nat, run: seq<nat>, locked: bool, i: nat)
    requires Execute(Start(n), run, locked).Some? && i <= |run|
    ensures var r := Execute(Start(n), run[..i], locked); r.Some? && Inv(r.value, n, locked)
    decreases |run|
  {
    hide Inv, Step, Count;
    if i < |run| {
      assert run[..|run| - 1][..i] == run[..i];
      PrefixKeepsInv(n, run[..|run| - 1], locked, i);
    } else if run == [] {
      Beginning(n, locked);
      assert run[..i] == [];
    } else {
      var rest := run[..|run| - 1];
      PrefixKeepsInv(n, rest, locked, |rest|);
      assert rest[..|rest|] == rest && run[..i] == run;
      StepKeepsInv(Execute(Start(n), rest, locked).value, n, run[|run| - 1], locked);
    }
  }

  lemma Beginning(n: nat, locked: bool)
    ensures Inv(Start(n), n, locked)
  {
    AllHolding(n);
  }

  lemma OneMore(n: nat, run: seq<nat>, locked: bool, i: nat)
    requires Execute(Start(n), run, locked).Some? && i < |run|
    ensures var r := Execute(Start(n), run[..i], locked);
      && r.Some? && Inv(r.value, n, locked)
      && Execute(Start(n), run[..i + 1], locked) == Step(r.value, run[i], locked)
      && Step(r.value, run[i], locked).Some?
  {
    PrefixKeepsInv(n, run, locked, i);
    PrefixKeepsInv(n, run, locked, i + 1);
    assert run[..i + 1][..i] == run[..i];
  }

  // Move i takes the count to zero.
  predicate LastDecrement(n: nat, run: seq<nat>, locked: bool, i: nat)
  {
    && i < |run|
    && var before, after := Execute(Start(n), run[..i], locked), Execute(Start(n), run[..i + 1], locked);
    before.Some? && after.Some? && before.value.count > 0 && after.value.count == 0
  }

  lemma {:induction false} CountFalls(n: nat, run: seq<nat>, locked: bool, j: nat) returns (i: nat)
    requires Execute(Start(n), run, locked).Some? && n > 0 && j <= |run|
    requires var r := Execute(Start(n), run[..j], locked); r.Some? && r.value.count == 0
    ensures LastDecrement(n, run, locked, i)
  {
    assert run[..0] == [];
    i := j - 1;
    OneMore(n, run, locked, i);
    CountIsNat(Execute(Start(n), run[..i], locked).value, n, locked);
    if Execute(Start(n), run[..i], locked).value.count == 0 {
      i := CountFalls(n, run, locked, i);
    }
  }

  lemma CountIsNat(s: State, n: nat, locked: bool)
    requires Inv(s, n, locked)
    ensures s.count >= 0
  {
  }

  // In a complete run one release takes the count to zero.
  lemma CompleteFalls(n: nat, run: seq<nat>, locked: bool) returns (i: nat)
    requires n > 0 && Complete(n, run, locked)
    ensures LastDecrement(n, run, locked, i)
  {
    var s := Execute(Start(n), run, locked).value;
    assert run[..|run|] == run;
    PrefixKeepsInv(n, run, locked, |run|);
    CountPositive(s.pcs, Holding);
    i := CountFalls(n, run, locked, |run|);
  }

  // After it the threads that will free stay the same.
  lemma {:induction false} CommittedStays(n: nat, run: seq<nat>, locked: bool, i: nat, j: nat)
    requires Execute(Start(n), run, locked).Some? && LastDecrement(n, run, locked, i) && i < j <= |run|
    ensures var at, end := Execute(Start(n), run[..i + 1], locked), Execute(Start(n), run[..j], locked);
      end.Some? && end.value.count == 0 && Committed(end.value) == Committed(at.value)
  {
    hide Inv, Committed, Step, Count;
    if i + 1 < j {
      CommittedStays(n, run, locked, i, j - 1);
      OneMore(n, run, locked, j - 1);
      StepKeepsInv(Execute(Start(n), run[..j - 1], locked).value, n, run[j - 1], locked);
    }
  }

  lemma DoneIsCommitted(n: nat, run: seq<nat>, locked: bool)
    requires Complete(n, run, locked) && Execute(Start(n), run, locked).value.count == 0
    requires |Execute(Start(n), run, locked).value.pcs| == n
    ensures Committed(Execute(Start(n), run, locked).value) == Frees(n, run, locked)
  {
    var s := Execute(Start(n), run, locked).value;
    CountPositive(s.pcs, Freeing);
    CountPositive(s.pcs, Untested);
  }

  // A container is freed once for every release that stands between lowering the
  // count and testing it at the moment the count gets to zero.
  lemma FreesAreUntested(n: nat, run: seq<nat>, i: nat)
    requires Complete(n, run, false) && LastDecrement(n, run, false, i)
    ensures Frees(n, run, false) == Count(Execute(Start(n), run[..i + 1], false).value.pcs, Untested)
  {
    hide Step, Count, Committed;
    FreesAreCommitted(n, run, false, i);
    OneMore(n, run, false, i);
    StepKeepsInv(Execute(Start(n), run[..i], false).value, n, run[i], false);
  }

  lemma FreesAreCommitted(n: nat, run: seq<nat>, locked: bool, i: nat)
    requires Complete(n, run, locked) && LastDecrement(n, run, locked, i)
    ensures Frees(n, run, locked) == Committed(Execute(Start(n), run[..i + 1], locked).value)
  {
    hide Step, Count, Committed;
    assert run[..|run|] == run;
    PrefixKeepsInv(n, run, locked, |run|);
    CommittedStays(n, run, locked, i, |run|);
    DoneIsCommitted(n, run, locked);
  }

  // So it is freed at least once, and more than once if and only if at that moment
  // another release has lowered the count and not yet tested it.
  lemma FreedOnceIff(n: nat, run: seq<nat>, i: nat)
    requires Complete(n, run, false) && LastDecrement(n, run, false, i)
    ensures Frees(n, run, false) >= 1
    ensures var pcs := Execute(Start(n), run[..i + 1], false).value.pcs;
      Frees(n, run, false) == 1 <==> forall u :: 0 <= u < |pcs| && u != run[i] ==> pcs[u] != Untested
  {
    FreesAreUntested(n, run, i);
    OneMore(n, run, false, i);
    var before, after := Execute(Start(n), run[..i], false).value, Execute(Start(n), run[..i + 1], false).value;
    StepKeepsInv(before, n, run[i], false);
    CountTwo(after.pcs, run[i], Untested);
    CountPositive(after.pcs, Untested);
    hide Count;
    assert after.pcs[run[i]] == Untested;
  }

  // Testing under the lock frees exactly once, in every interleaving.
  lemma LockedFreesOnce(n: nat, run: seq<nat>)
    requires n > 0 && Complete(n, run, true)
    ensures Frees(n, run, true) == 1
  {
    var i := CompleteFalls(n, run, true);
    FreesAreCommitted(n, run, true, i);
    OneMore(n, run, true, i);
    StepKeepsInv(Execute(Start(n), run[..i], true).value, n, run[i], true);
  }

  // No run is stuck: whatever has happened, all releases can come to their end.
  lemma {:induction false} RunCompletes(n: nat, run: seq<nat>, locked: bool) returns (more: seq<nat>)
    requires Execute(Start(n), run, locked).Some?
    ensures Complete(n, run + more, locked)
    decreases Remaining(Execute(Start(n), run, locked).value.pcs)
  {
    var s := Execute(Start(n), run, locked).value;
    AllThere(n, run, locked);
    hide Step, Remaining;
    if t :| 0 <= t < n && s.pcs[t] != Done {
      var run' := run + [t];
      assert run'[..|run|] == run;
      RemainingFalls(s, t, locked);
      assert Execute(Start(n), run', locked) == Step(s, t, locked);
      var rest := RunCompletes(n, run', locked);
      more := [t] + rest;
      assert run + more == run' + rest;
    } else {
      more := [];
      assert run + more == run;
    }
  }

  lemma AllThere(n: nat, run: seq<nat>, locked: bool)
    requires Execute(Start(n), run, locked).Some?
    ensures |Execute(Start(n), run, locked).value.pcs| == n
  {
    PrefixKeepsInv(n, run, locked, |run|);
    assert run[..|run|] == run;
  }

  // The steps that are left.
  function Remaining(pcs: seq<Pc>): nat
  {
    3 * Count(pcs, Holding) + 2 * Count(pcs, Untested) + Count(pcs, Freeing)
  }

  lemma RemainingFalls(s: State, t: nat, locked: bool)
    requires t < |s.pcs| && s.pcs[t] != Done
    ensures Step(s, t, locked).Some? && Remaining(Step(s, t, locked).value.pcs) < Remaining(s.pcs)
  {
    var x := Step(s, t, locked).value.pcs[t];
    CountUpdate(s.pcs, t, x, Holding);
    CountUpdate(s.pcs, t, x, Untested);
    CountUpdate(s.pcs, t, x, Freeing);
    hide Count;
  }

  // Two releases that both lower the count before either tests it.
  lemma FreedTwice()
    ensures Complete(2, [0, 1, 0, 1, 0, 1], false) && Frees(2, [0, 1, 0, 1, 0, 1], false) == 2
  {
    var s := State(2, 0, [Holding, Holding]);
    assert Start(2).pcs == s.pcs;
    Moved([], s, 0, [0], State(1, 0, [Untested, Holding]));
    Moved([0], State(1, 0, [Untested, Holding]), 1, [0, 1], State(0, 0, [Untested, Untested]));
    Moved([0, 1], State(0, 0, [Untested, Untested]), 0, [0, 1, 0], State(0, 0, [Freeing, Untested]));
    Moved([0, 1, 0], State(0, 0, [Freeing, Untested]), 1, [0, 1, 0, 1], State(0, 0, [Freeing, Freeing]));
    Moved([0, 1, 0, 1], State(0, 0, [Freeing, Freeing]), 0, [0, 1, 0, 1, 0], State(0, 1, [Done, Freeing]));
    Moved([0, 1, 0, 1, 0], State(0, 1, [Done, Freeing]), 1, [0, 1, 0, 1, 0, 1], State(0, 2, [Done, Done]));
  }

  lemma Moved(run: seq<nat>, s: State, t: nat, run': seq<nat>, s': State)
    requires Execute(Start(2), run, false) == Some(s) && run' == run + [t]
    requires t < |s.pcs| && s.pcs[t] != Done
    requires var r := Step(s, t, false).value; r.count == s'.count && r.frees == s'.frees && r.pcs == s'.pcs
    ensures Execute(Start(2), run', false) == Some(s')
  {
    assert run'[..|run|] == run;
  }
}
