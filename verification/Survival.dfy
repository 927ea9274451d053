// Which cells a cascade of releases leaves alive. Reference counting keeps what a
// reference from outside the heap or a task can reach, and what a cycle can reach
// (the leak that README.md:313 documents); everything else goes.

module Survival {
  import opened Cells

  // No container is dying.
  ghost predicate AllCounted(cells: seq<Cell>)
  {
    forall i :: 0 <= i < |cells| && cells[i].Container? ==> cells[i].count > 0
  }

  // Sustained sets ---------------------------------------------------------------

  ghost predicate Survives(cells: seq<Cell>, outside: multiset<nat>, id: nat)
  {
    exists T: set<nat> :: Sustained(cells, outside, T) && id in T
  }

  ghost function Survivors(cells: seq<Cell>, outside: multiset<nat>): set<nat>
  {
    set id: nat | 0 <= id < |cells| && Survives(cells, outside, id)
  }

  lemma SurvivorsSustained(cells: seq<Cell>, outside: multiset<nat>)
    ensures Sustained(cells, outside, Survivors(cells, outside))
  {
  }

  ghost function LiveCells(cells: seq<Cell>): set<nat>
  {
    set id: nat | 0 <= id < |cells| && !cells[id].Freed?
  }

  // With exact positive counts, the live cells keep each other alive.
  lemma LiveSustained(cells: seq<Cell>, outside: multiset<nat>)
    requires Exact(cells, outside, Plain) && AllCounted(cells)
    ensures Sustained(cells, outside, LiveCells(cells))
  {
    hide Sum;
    var S := LiveCells(cells);
    forall id | id in S
      ensures Supported(cells, outside, S, id)
    {
      if cells[id].Container? && outside[id] == 0 {
        assert Counted(cells, outside, Plain, id);
        var j := SumWitness(cells, id);
        assert j in S;
      }
    }
  }

  // A cascade that started on cells a and ended on cells b freed exactly what no
  // sustained set of a holds.
  ghost predicate Outcome(a: seq<Cell>, outside: multiset<nat>, b: seq<Cell>)
  {
    Evolves(a, b) && forall id: nat :: id < |a| ==> (!b[id].Freed? <==> Survives(a, outside, id))
  }

  lemma CascadeOutcome(a: seq<Cell>, outside: multiset<nat>, b: seq<Cell>)
    requires Evolves(a, b) && Exact(b, outside, Plain) && AllCounted(b)
    requires Sustained(b, outside, Survivors(a, outside))
    ensures Outcome(a, outside, b)
  {
    hide Exact;
    LiveSustained(b, outside);
    SustainedBefore(a, outside, b, LiveCells(b));
    forall id: nat | id < |a|
      ensures !b[id].Freed? <==> Survives(a, outside, id)
    {
      if !b[id].Freed? {
        assert id in LiveCells(b);
      }
      if Survives(a, outside, id) {
        assert id in Survivors(a, outside);
        assert Supported(b, outside, Survivors(a, outside), id);
      }
    }
  }

  lemma SustainedBefore(a: seq<Cell>, outside: multiset<nat>, b: seq<Cell>, S: set<nat>)
    requires Evolves(a, b) && Sustained(b, outside, S)
    ensures Sustained(a, outside, S)
  {
  }

  // Paths ----------------------------------------------------------------------

  predicate Step(cells: seq<Cell>, from: nat, to: nat)
  {
    from < |cells| && Ref(to) in cells[from].Entries()
  }

  // A path through live cells, each holding a reference to the next.
  ghost predicate IsPath(cells: seq<Cell>, p: seq<nat>)
  {
    && |p| > 0
    && (forall k :: 0 <= k < |p| ==> p[k] < |cells| && !cells[p[k]].Freed?)
    && (forall k :: 0 < k < |p| ==> Step(cells, p[k - 1], p[k]))
  }

  predicate Root(cells: seq<Cell>, outside: multiset<nat>, id: nat)
  {
    id < |cells| && (cells[id].Task? || (cells[id].Container? && outside[id] > 0))
  }

  // The path comes back to where it starts.
  ghost predicate StartsOnCycle(p: seq<nat>)
  {
    exists k :: 0 < k < |p| && p[k] == p[0]
  }

  ghost predicate PathTo(cells: seq<Cell>, p: seq<nat>, id: nat)
  {
    IsPath(cells, p) && p[|p| - 1] == id
  }

  ghost predicate Reachable(cells: seq<Cell>, outside: multiset<nat>, id: nat)
  {
    exists p :: PathTo(cells, p, id) && Root(cells, outside, p[0])
  }

  ghost predicate HeldByCycle(cells: seq<Cell>, id: nat)
  {
    exists p :: PathTo(cells, p, id) && StartsOnCycle(p)
  }

  ghost predicate Acyclic(cells: seq<Cell>)
  {
    forall p :: IsPath(cells, p) ==> !StartsOnCycle(p)
  }

  // The cells on a path from a root or a cycle keep each other alive.
  lemma PathSustained(cells: seq<Cell>, outside: multiset<nat>, p: seq<nat>)
    requires IsPath(cells, p) && (Root(cells, outside, p[0]) || StartsOnCycle(p))
    ensures Sustained(cells, outside, set x | x in p)
  {
    var T := set x | x in p;
    forall id | id in T
      ensures Supported(cells, outside, T, id)
    {
      var k :| 0 <= k < |p| && p[k] == id;
      if k == 0 && !Root(cells, outside, p[0]) {
        k :| 0 < k < |p| && p[k] == p[0];
      }
      if k > 0 {
        assert Step(cells, p[k - 1], p[k]) && p[k - 1] in T;
      }
    }
  }

  // From a cell of a sustained set one can walk back through the set until a root
  // or a cell already passed: the set is finite.
  lemma {:induction false} WalkBack(cells: seq<Cell>, outside: multiset<nat>, T: set<nat>, p: seq<nat>,
                                      ahead: set<nat>)
    returns (q: seq<nat>)
    requires Sustained(cells, outside, T) && IsPath(cells, p)
    requires p[0] in T && forall x :: x in T ==> x in p || x in ahead
    ensures PathTo(cells, q, p[|p| - 1]) && (Root(cells, outside, q[0]) || StartsOnCycle(q))
    decreases ahead
  {
    assert Supported(cells, outside, T, p[0]);
    if Root(cells, outside, p[0]) {
      q := p;
    } else {
      var j :| j in T && j < |cells| && Ref(p[0]) in cells[j].Entries();
      assert Supported(cells, outside, T, j);
      q := [j] + p;
      PathExtends(cells, j, p);
      if j in p {
        var k :| 0 <= k < |p| && p[k] == j;
        assert q[k + 1] == q[0];
      } else {
        q := WalkBack(cells, outside, T, q, ahead - {j});
      }
    }
  }

  lemma PathExtends(cells: seq<Cell>, j: nat, p: seq<nat>)
    requires IsPath(cells, p) && Step(cells, j, p[0]) && !cells[j].Freed?
    ensures IsPath(cells, [j] + p)
  {
  }

  // What survives is what a reference from outside, a task or a cycle can reach.
  lemma SurvivesIffHeld(cells: seq<Cell>, outside: multiset<nat>, id: nat)
    ensures Survives(cells, outside, id) <==> Reachable(cells, outside, id) || HeldByCycle(cells, id)
  {
    if Survives(cells, outside, id) {
      var T: set<nat> :| Sustained(cells, outside, T) && id in T;
      assert Supported(cells, outside, T, id);
      var q := WalkBack(cells, outside, T, [id], T);
    }
    if Reachable(cells, outside, id) {
      var p :| PathTo(cells, p, id) && Root(cells, outside, p[0]);
      PathSustained(cells, outside, p);
      assert id in set x | x in p;
    }
    if HeldByCycle(cells, id) {
      var p :| PathTo(cells, p, id) && StartsOnCycle(p);
      PathSustained(cells, outside, p);
      assert id in set x | x in p;
    }
  }

  // So a cascade frees exactly the unreachable cells if no cycle holds one.
  lemma AcyclicOutcome(a: seq<Cell>, outside: multiset<nat>, b: seq<Cell>, id: nat)
    requires Outcome(a, outside, b) && Acyclic(a) && id < |a|
    ensures !b[id].Freed? <==> Reachable(a, outside, id)
  {
    SurvivesIffHeld(a, outside, id);
  }

  // In any state between operations: nothing dangles, and a live cell is out of
  // reach only if a cycle holds it.
  lemma NoDangling(cells: seq<Cell>, outside: multiset<nat>, id: nat)
    requires Exact(cells, outside, Plain)
    requires outside[id] > 0 || exists i :: 0 <= i < |cells| && Ref(id) in cells[i].Entries()
    ensures id < |cells| && cells[id].Container? && cells[id].count > 0
  {
    hide Sum;
    assert Counted(cells, outside, Plain, id);
    if outside[id] == 0 {
      var i :| 0 <= i < |cells| && Ref(id) in cells[i].Entries();
      SumMember(cells, i, Ref(id), To(id));
    }
  }

  lemma LeakIffCycle(cells: seq<Cell>, outside: multiset<nat>, id: nat)
    requires Exact(cells, outside, Plain) && AllCounted(cells) && id < |cells|
    ensures !cells[id].Freed? <==> Reachable(cells, outside, id) || HeldByCycle(cells, id)
  {
    LiveSustained(cells, outside);
    if !cells[id].Freed? {
      assert id in LiveCells(cells);
    }
    SurvivesIffHeld(cells, outside, id);
  }

  lemma EvolvesCounted(a: seq<Cell>, b: seq<Cell>)
    requires Evolves(a, b) && AllCounted(a)
    ensures AllCounted(b)
  {
  }

  // A wrapped container that an entry refers to has two references at least.
  lemma NotLast(cells: seq<Cell>, outside: multiset<nat>, id: nat, i: nat)
    requires Exact(cells, outside, Plain) && id < |cells| && i < |cells[id].Entries()|
    requires cells[id].entries[i].Ref? ==> outside[cells[id].entries[i].id] > 0
    ensures !IsLast(cells, cells[id].entries[i])
  {
    hide Sum;
    var e := cells[id].entries[i];
    if e.Ref? {
      assert Counted(cells, outside, Plain, e.id);
      SumMember(cells, id, e, To(e.id));
    }
  }

  lemma NotFreed(cells: seq<Cell>, outside: multiset<nat>, S: set<nat>, id: nat)
    requires Sustained(cells, outside, S) && id < |cells| && cells[id].Freed?
    ensures id !in S
  {
  }

  // Exact counts are determined by the references from outside and the entries.
  lemma CountsDetermined(a: seq<Cell>, b: seq<Cell>, outside: multiset<nat>)
    requires Exact(a, outside, Plain) && Exact(b, outside, Plain) && SameShape(a, b)
    ensures a == b
  {
    hide Sum;
    forall m
      ensures Sum(a, m) == Sum(b, m)
    {
      SameSums(a, b, m);
    }
    forall i | 0 <= i < |a|
      ensures a[i] == b[i]
    {
      assert Counted(a, outside, Plain, i) && Counted(b, outside, Plain, i);
    }
  }

  // Cells that differ in counts only.
  ghost predicate SameShape(a: seq<Cell>, b: seq<Cell>)
  {
    |a| == |b| && forall i :: 0 <= i < |a| ==> SameBut(a[i], b[i])
  }

  predicate SameBut(x: Cell, y: Cell)
  {
    x == y || (x.Container? && y.Container? && x.entries == y.entries)
  }

  lemma {:induction false} SameSums(a: seq<Cell>, b: seq<Cell>, m: Measure)
    requires SameShape(a, b)
    ensures Sum(a, m) == Sum(b, m)
  {
    hide EntrySum;
    if a != [] {
      var n := |a| - 1;
      assert SameBut(a[n], b[n]);
      SameSums(a[..n], b[..n], m);
    }
  }

  // A task added to cells a and taken back before anything else happened leaves
  // every other cell as it was.
  lemma Undone(a: seq<Cell>, outside: multiset<nat>, mid: seq<Cell>, b: seq<Cell>)
    requires Exact(a, outside, Plain) && AllCounted(a) && Exact(b, outside, Plain)
    requires |mid| == |a| + 1 && SameShape(a, mid[..|a|])
    requires Outcome(mid[|a| := Freed], outside, b)
    ensures b == a + [Freed]
  {
    hide Exact;
    var without := mid[|a| := Freed];
    LiveSustained(a, outside);
    SustainedShape(a, without, outside, LiveCells(a));
    forall i | 0 <= i < |b|
      ensures SameBut((a + [Freed])[i], b[i])
    {
      assert CellEvolves(without[i], b[i]);
      if i < |a| {
        assert SameBut(a[i], mid[..|a|][i]);
        if !a[i].Freed? {
          assert i in LiveCells(a);
          assert Survives(without, outside, i);
        }
      }
    }
    AppendFreed(a, outside);
    CountsDetermined(a + [Freed], b, outside);
  }

  lemma AppendFreed(a: seq<Cell>, outside: multiset<nat>)
    requires Exact(a, outside, Plain)
    ensures Exact(a + [Freed], outside, Plain)
  {
    hide Sum;
    var after := a + [Freed];
    forall k: nat {:trigger Counted(after, outside, Plain, k)}
      ensures Counted(after, outside, Plain, k)
    {
      assert Counted(a, outside, Plain, k);
      SumAppend(a, Freed, To(k));
    }
  }

  lemma SustainedShape(a: seq<Cell>, b: seq<Cell>, outside: multiset<nat>, S: set<nat>)
    requires Sustained(a, outside, S) && |a| <= |b| && SameShape(a, b[..|a|])
    ensures Sustained(b, outside, S)
  {
  }

  // Everything has been freed if and only if nothing outside refers to a container,
  // no task is left, and there is no cycle.
  lemma NothingLeftIff(cells: seq<Cell>, outside: multiset<nat>)
    requires Exact(cells, outside, Plain) && AllCounted(cells)
    ensures (forall i :: 0 <= i < |cells| ==> cells[i].Freed?) <==>
      outside == multiset{} && (forall i :: 0 <= i < |cells| ==> !cells[i].Task?) && Acyclic(cells)
  {
    hide Exact;
    forall i: nat | i < |cells|
      ensures !cells[i].Freed? <==> Reachable(cells, outside, i) || HeldByCycle(cells, i)
    {
      LeakIffCycle(cells, outside, i);
    }
    if k :| k in outside {
      NoDangling(cells, outside, k);
      assert !cells[k].Freed?;
    }
    if !Acyclic(cells) {
      var p :| IsPath(cells, p) && StartsOnCycle(p);
      assert !cells[p[0]].Freed?;
    }
  }

  // What is reached from two kinds of references is reached from one of them.
  lemma ReachableFromEither(cells: seq<Cell>, a: multiset<nat>, b: multiset<nat>, id: nat)
    ensures Reachable(cells, a + b, id) <==> Reachable(cells, a, id) || Reachable(cells, b, id)
  {
    if Reachable(cells, a + b, id) {
      var p :| PathTo(cells, p, id) && Root(cells, a + b, p[0]);
      assert Root(cells, a, p[0]) || Root(cells, b, p[0]);
    }
    if Reachable(cells, a, id) {
      var p :| PathTo(cells, p, id) && Root(cells, a, p[0]);
      assert Root(cells, a + b, p[0]);
    }
    if Reachable(cells, b, id) {
      var p :| PathTo(cells, p, id) && Root(cells, b, p[0]);
      assert Root(cells, a + b, p[0]);
    }
  }
}
