// The shared objects of pht as a heap of numbered cells, and reference counts as
// sums over it (src/pht_entry.c and the *_free functions of src/classes).

module Cells {

  // A pht_entry_t, by what deleting it has to do. A queue, hash table, vector or
  // atomic integer is shared through a reference; a string, serialised array or
  // function owns one allocated block, and so does any other, serialised object.
  datatype Entry = Plain | Block | SerialisedObject | Ref(id: nat)

  // An internal object with its reference count and its entries in the order in
  // which destroying it visits them, a queued or running task with its arguments,
  // or a cell already freed. Numbers of freed cells are not used again.
  datatype Cell = Container(count: int, entries: seq<Entry>) | Task(entries: seq<Entry>) | Freed
  {
    function Entries(): seq<Entry>
    {
      if Freed? then [] else entries
    }
  }

  // What can be summed over entries: all of them, those whose block deletion
  // frees, serialised objects, and those that refer to one cell.
  datatype Measure = All | Blocks | Objects | To(id: nat)

  function Weight(m: Measure, e: Entry): nat
  {
    match m
    case All => 1
    case Blocks => if e.Block? then 1 else 0
    case Objects => if e.SerialisedObject? then 1 else 0
    case To(id) => if e == Ref(id) then 1 else 0
  }

  function EntrySum(es: seq<Entry>, m: Measure): nat
  {
    if es == [] then 0 else Weight(m, es[0]) + EntrySum(es[1..], m)
  }

  function Sum(cells: seq<Cell>, m: Measure): nat
  {
    if cells == [] then 0
    else Sum(cells[..|cells| - 1], m) + EntrySum(cells[|cells| - 1].Entries(), m)
  }

  lemma {:induction false} SumUpdate(cells: seq<Cell>, i: nat, c: Cell, m: Measure)
    requires i < |cells|
    ensures Sum(cells[i := c], m) == Sum(cells, m) - EntrySum(cells[i].Entries(), m) + EntrySum(c.Entries(), m)
  {
    hide EntrySum;
    var n := |cells| - 1;
    if i == n {
      assert cells[i := c][..n] == cells[..n];
    } else {
      SumUpdate(cells[..n], i, c, m);
      assert cells[i := c][..n] == cells[..n][i := c];
    }
  }

  lemma SumAppend(cells: seq<Cell>, c: Cell, m: Measure)
    ensures Sum(cells + [c], m) == Sum(cells, m) + EntrySum(c.Entries(), m)
  {
  }

  lemma {:induction false} EntrySumSplice(es: seq<Entry>, i: nat, e: Entry, m: Measure)
    requires i <= |es|
    ensures EntrySum(es[..i] + [e] + es[i..], m) == EntrySum(es, m) + Weight(m, e)
  {
    var long := es[..i] + [e] + es[i..];
    if i == 0 {
      assert long[1..] == es;
    } else {
      EntrySumSplice(es[1..], i - 1, e, m);
      assert long[1..] == es[1..][..i - 1] + [e] + es[1..][i - 1..];
    }
  }

  lemma EntrySumLast(es: seq<Entry>, i: nat, m: Measure)
    requires i < |es|
    ensures EntrySum(es[..i + 1], m) == EntrySum(es[..i], m) + Weight(m, es[i])
  {
    EntrySumSplice(es[..i], i, es[i], m);
    assert es[..i][..i] + [es[i]] + es[..i][i..] == es[..i + 1];
  }

  lemma {:induction false} EntrySumConcat(a: seq<Entry>, b: seq<Entry>, m: Measure)
    ensures EntrySum(a + b, m) == EntrySum(a, m) + EntrySum(b, m)
  {
    if a == [] {
      assert a + b == b;
    } else {
      EntrySumConcat(a[1..], b, m);
      assert (a + b)[1..] == a[1..] + b;
    }
  }

  lemma {:induction false} EntrySumMember(es: seq<Entry>, e: Entry, m: Measure)
    requires e in es
    ensures EntrySum(es, m) >= Weight(m, e)
  {
    if es[0] != e {
      EntrySumMember(es[1..], e, m);
    }
  }

  lemma {:induction false} SumMember(cells: seq<Cell>, i: nat, e: Entry, m: Measure)
    requires i < |cells| && e in cells[i].Entries()
    ensures Sum(cells, m) >= Weight(m, e)
  {
    if i == |cells| - 1 {
      EntrySumMember(cells[i].Entries(), e, m);
    } else {
      SumMember(cells[..|cells| - 1], i, e, m);
    }
  }

  // A positive number of references has an entry behind it.
  lemma {:induction false} EntrySumWitness(es: seq<Entry>, id: nat)
    requires EntrySum(es, To(id)) > 0
    ensures Ref(id) in es
  {
    if es[0] != Ref(id) {
      EntrySumWitness(es[1..], id);
    }
  }

  lemma {:induction false} SumWitness(cells: seq<Cell>, id: nat) returns (i: nat)
    requires Sum(cells, To(id)) > 0
    ensures i < |cells| && Ref(id) in cells[i].Entries()
  {
    var n := |cells| - 1;
    if EntrySum(cells[n].Entries(), To(id)) > 0 {
      EntrySumWitness(cells[n].Entries(), id);
      i := n;
    } else {
      i := SumWitness(cells[..n], id);
    }
  }

  // Exact counts ---------------------------------------------------------------

  // The number of references to a cell: those from outside the heap, entries in
  // cells, and the one entry e that has left its place and is still to be deleted.
  function References(cells: seq<Cell>, outside: multiset<nat>, e: Entry, id: nat): nat
  {
    outside[id] + Sum(cells, To(id)) + Weight(To(id), e)
  }

  // A live container counts its references; nothing refers to anything else.
  predicate Counted(cells: seq<Cell>, outside: multiset<nat>, e: Entry, id: nat)
  {
    if id < |cells| && cells[id].Container? then cells[id].count == References(cells, outside, e, id)
    else References(cells, outside, e, id) == 0
  }

  ghost predicate Exact(cells: seq<Cell>, outside: multiset<nat>, e: Entry)
  {
    forall id: nat :: Counted(cells, outside, e, id)
  }

  function Recount(cells: seq<Cell>, e: Entry, delta: int): seq<Cell>
  {
    if e.Ref? && e.id < |cells| && cells[e.id].Container? then
      cells[e.id := cells[e.id].(count := cells[e.id].count + delta)]
    else cells
  }

  // Entry e is the last reference to a container.
  predicate IsLast(cells: seq<Cell>, e: Entry)
  {
    e.Ref? && e.id < |cells| && cells[e.id].Container? && cells[e.id].count <= 1
  }

  // Counting a new reference, and no longer counting one.
  lemma AcquireExact(cells: seq<Cell>, outside: multiset<nat>, e: Entry)
    requires Exact(cells, outside, Plain) && (e.Ref? ==> outside[e.id] > 0)
    ensures Exact(Recount(cells, e, 1), outside, e)
  {
    hide Sum;
    if e.Ref? {
      assert Counted(cells, outside, Plain, e.id);
    }
    var after := Recount(cells, e, 1);
    forall k: nat {:trigger Counted(after, outside, e, k)}
      ensures Counted(after, outside, e, k)
    {
      assert Counted(cells, outside, Plain, k);
      if e.Ref? {
        SumUpdate(cells, e.id, after[e.id], To(k));
      }
    }
  }

  lemma ReleaseExact(cells: seq<Cell>, outside: multiset<nat>, e: Entry)
    requires Exact(cells, outside, e)
    ensures e.Ref? ==> e.id < |cells| && cells[e.id].Container? && cells[e.id].count > 0
    ensures Exact(Recount(cells, e, -1), outside, Plain)
  {
    hide Sum;
    if e.Ref? {
      assert Counted(cells, outside, e, e.id);
    }
    var after := Recount(cells, e, -1);
    forall k: nat {:trigger Counted(after, outside, Plain, k)}
      ensures Counted(after, outside, Plain, k)
    {
      assert Counted(cells, outside, e, k);
      if e.Ref? {
        SumUpdate(cells, e.id, after[e.id], To(k));
      }
    }
  }

  // Taking entry i out of a cell, and putting an entry in at i.
  function Without(c: Cell, i: nat): Cell
    requires i < |c.Entries()|
  {
    c.(entries := c.entries[..i] + c.entries[i + 1..])
  }

  function With(c: Cell, i: nat, e: Entry): Cell
    requires !c.Freed? && i <= |c.entries|
  {
    c.(entries := c.entries[..i] + [e] + c.entries[i..])
  }

  lemma WithoutSum(c: Cell, i: nat, m: Measure)
    requires i < |c.Entries()|
    ensures EntrySum(c.entries, m) == EntrySum(Without(c, i).entries, m) + Weight(m, c.entries[i])
  {
    var rest := Without(c, i).entries;
    assert rest[..i] + [c.entries[i]] + rest[i..] == c.entries;
    EntrySumSplice(rest, i, c.entries[i], m);
  }

  lemma TakeExact(cells: seq<Cell>, outside: multiset<nat>, id: nat, i: nat)
    requires Exact(cells, outside, Plain) && id < |cells| && i < |cells[id].Entries()|
    ensures Exact(cells[id := Without(cells[id], i)], outside, cells[id].entries[i])
  {
    hide Sum, EntrySum;
    var e := cells[id].entries[i];
    var after := cells[id := Without(cells[id], i)];
    forall k: nat {:trigger Counted(after, outside, e, k)}
      ensures Counted(after, outside, e, k)
    {
      assert Counted(cells, outside, Plain, k);
      SumUpdate(cells, id, after[id], To(k));
      WithoutSum(cells[id], i, To(k));
    }
  }

  lemma PutExact(cells: seq<Cell>, outside: multiset<nat>, id: nat, i: nat, e: Entry)
    requires Exact(cells, outside, e) && id < |cells| && !cells[id].Freed? && i <= |cells[id].entries|
    ensures Exact(cells[id := With(cells[id], i, e)], outside, Plain)
  {
    hide Sum, EntrySum;
    var after := cells[id := With(cells[id], i, e)];
    forall k: nat {:trigger Counted(after, outside, Plain, k)}
      ensures Counted(after, outside, Plain, k)
    {
      assert Counted(cells, outside, e, k);
      SumUpdate(cells, id, after[id], To(k));
      EntrySumSplice(cells[id].entries, i, e, To(k));
    }
  }

  // A reference in hand becomes one from outside, or comes from there.
  lemma WrapExact(cells: seq<Cell>, outside: multiset<nat>, id: nat)
    ensures Exact(cells, outside, Ref(id)) ==> Exact(cells, outside + multiset{id}, Plain)
    ensures Exact(cells, outside + multiset{id}, Plain) ==> Exact(cells, outside, Ref(id))
  {
    hide Sum;
    forall k: nat {:trigger Counted(cells, outside, Ref(id), k)}
      {:trigger Counted(cells, outside + multiset{id}, Plain, k)}
      ensures Counted(cells, outside, Ref(id), k) <==> Counted(cells, outside + multiset{id}, Plain, k)
    {
    }
  }

  // The containers that entries refer to.
  function Targets(es: seq<Entry>): multiset<nat>
  {
    if es == [] then multiset{} else Handle(es[0]) + Targets(es[1..])
  }

  function Handle(e: Entry): multiset<nat>
  {
    if e.Ref? then multiset{e.id} else multiset{}
  }

  lemma {:induction false} TargetsAreSummed(es: seq<Entry>, id: nat)
    ensures Targets(es)[id] == EntrySum(es, To(id))
  {
    if es != [] {
      TargetsAreSummed(es[1..], id);
    }
  }

  lemma TargetsConcat(a: seq<Entry>, b: seq<Entry>)
    ensures Targets(a + b) == Targets(a) + Targets(b)
  {
    hide Targets, EntrySum;
    forall k: nat
      ensures Targets(a + b)[k] == (Targets(a) + Targets(b))[k]
    {
      TargetsAreSummed(a, k);
      TargetsAreSummed(b, k);
      TargetsAreSummed(a + b, k);
      EntrySumConcat(a, b, To(k));
    }
  }

  // The entries of a container are dropped, and what they refer to stays counted.
  lemma ForgetExact(cells: seq<Cell>, outside: multiset<nat>, id: nat)
    requires Exact(cells, outside, Plain) && id < |cells| && cells[id].Container?
    ensures Exact(cells[id := cells[id].(entries := [])], outside + Targets(cells[id].entries), Plain)
  {
    hide Sum, Targets;
    var after, held := cells[id := cells[id].(entries := [])], outside + Targets(cells[id].entries);
    forall k: nat {:trigger Counted(after, held, Plain, k)}
      ensures Counted(after, held, Plain, k)
    {
      assert Counted(cells, outside, Plain, k);
      SumUpdate(cells, id, after[id], To(k));
      TargetsAreSummed(cells[id].entries, k);
    }
  }

  // Freeing an emptied cell that nothing refers to.
  lemma FreeExact(cells: seq<Cell>, outside: multiset<nat>, id: nat)
    requires Exact(cells, outside, Plain) && id < |cells|
    requires cells[id] == Container(0, []) || cells[id] == Task([])
    ensures Exact(cells[id := Freed], outside, Plain)
  {
    hide Sum;
    var after := cells[id := Freed];
    forall k: nat {:trigger Counted(after, outside, Plain, k)}
      ensures Counted(after, outside, Plain, k)
    {
      assert Counted(cells, outside, Plain, k);
      SumUpdate(cells, id, Freed, To(k));
    }
  }

  // What a cascade may do to the cells it was not started on: nothing, lower a
  // count that stays positive, or free a container that had a positive count.
  predicate CellEvolves(x: Cell, y: Cell)
  {
    || x == y
    || (x.Container? && x.count > 0
        && (y.Freed? || (y.Container? && 0 < y.count <= x.count && y.entries == x.entries)))
  }

  ghost predicate Evolves(a: seq<Cell>, b: seq<Cell>)
  {
    |a| == |b| && forall i :: 0 <= i < |a| ==> CellEvolves(a[i], b[i])
  }

  ghost predicate EvolvesExcept(a: seq<Cell>, b: seq<Cell>, id: nat)
  {
    |a| == |b| && forall i :: 0 <= i < |a| && i != id ==> CellEvolves(a[i], b[i])
  }

  // Sets of cells that keep each other alive: every container in one has a
  // reference from outside or an entry in a member; tasks need nothing.
  ghost predicate Sustained(cells: seq<Cell>, outside: multiset<nat>, S: set<nat>)
  {
    forall id :: id in S ==> Supported(cells, outside, S, id)
  }

  ghost predicate Supported(cells: seq<Cell>, outside: multiset<nat>, S: set<nat>, id: nat)
  {
    && id < |cells| && !cells[id].Freed?
    && (cells[id].Container? ==>
      || outside[id] > 0
      || exists j :: j in S && j < |cells| && Ref(id) in cells[j].Entries())
  }

  lemma SupportedIsCounted(cells: seq<Cell>, outside: multiset<nat>, e: Entry, S: set<nat>, id: nat)
    requires Exact(cells, outside, e) && Sustained(cells, outside, S) && id in S && cells[id].Container?
    ensures cells[id].count > Weight(To(id), e)
  {
    hide Sum;
    assert Supported(cells, outside, S, id) && Counted(cells, outside, e, id);
    if outside[id] == 0 {
      var j :| j in S && j < |cells| && Ref(id) in cells[j].Entries();
      SumMember(cells, j, Ref(id), To(id));
    }
  }

  // Changing a cell outside the set, or only the count of one inside, does not
  // disturb a sustained set.
  lemma SustainedUpdate(cells: seq<Cell>, outside: multiset<nat>, S: set<nat>, id: nat, c: Cell)
    requires Sustained(cells, outside, S) && id < |cells|
    requires id !in S || (cells[id].Container? && c.Container? && c.entries == cells[id].entries)
    ensures Sustained(cells[id := c], outside, S)
  {
  }

  // Cascades do not create entries.
  lemma {:induction false} EvolvesShrinks(a: seq<Cell>, b: seq<Cell>, m: Measure)
    requires Evolves(a, b)
    ensures Sum(b, m) <= Sum(a, m)
  {
    hide EntrySum;
    if a != [] {
      var n := |a| - 1;
      EvolvesShrinks(a[..n], b[..n], m);
      assert CellEvolves(a[n], b[n]);
      NoEntriesNoSum(b[n], m);
    }
  }

  lemma NoEntriesNoSum(c: Cell, m: Measure)
    ensures c.Freed? ==> EntrySum(c.Entries(), m) == 0
  {
  }

  // Bookkeeping of the cascade's steps -----------------------------------------

  lemma RecountSums(cells: seq<Cell>, e: Entry, delta: int)
    ensures forall m :: Sum(Recount(cells, e, delta), m) == Sum(cells, m)
  {
    hide Sum;
    if e.Ref? && e.id < |cells| && cells[e.id].Container? {
      forall m
        ensures Sum(Recount(cells, e, delta), m) == Sum(cells, m)
      {
        SumUpdate(cells, e.id, Recount(cells, e, delta)[e.id], m);
      }
    }
  }

  lemma TakeSums(cells: seq<Cell>, id: nat, i: nat)
    requires id < |cells| && i < |cells[id].Entries()|
    ensures forall m :: Sum(cells, m) == Sum(cells[id := Without(cells[id], i)], m) + Weight(m, cells[id].entries[i])
  {
    hide Sum, EntrySum;
    forall m
      ensures Sum(cells, m) == Sum(cells[id := Without(cells[id], i)], m) + Weight(m, cells[id].entries[i])
    {
      SumUpdate(cells, id, Without(cells[id], i), m);
      WithoutSum(cells[id], i, m);
    }
  }

  lemma PutSums(cells: seq<Cell>, id: nat, i: nat, e: Entry)
    requires id < |cells| && !cells[id].Freed? && i <= |cells[id].entries|
    ensures forall m :: Sum(cells[id := With(cells[id], i, e)], m) == Sum(cells, m) + Weight(m, e)
  {
    hide Sum, EntrySum;
    forall m
      ensures Sum(cells[id := With(cells[id], i, e)], m) == Sum(cells, m) + Weight(m, e)
    {
      SumUpdate(cells, id, With(cells[id], i, e), m);
      EntrySumSplice(cells[id].entries, i, e, m);
    }
  }

  lemma FreeSums(cells: seq<Cell>, id: nat)
    requires id < |cells| && cells[id].Entries() == []
    ensures forall m :: Sum(cells[id := Freed], m) == Sum(cells, m)
  {
    hide Sum;
    forall m
      ensures Sum(cells[id := Freed], m) == Sum(cells, m)
    {
      SumUpdate(cells, id, Freed, m);
    }
  }

  lemma RecountEvolves(cells: seq<Cell>, e: Entry)
    requires e.Ref? && e.id < |cells| && cells[e.id].Container? && cells[e.id].count > 0
    ensures EvolvesExcept(cells, Recount(cells, e, -1), e.id)
    ensures cells[e.id].count > 1 ==> Evolves(cells, Recount(cells, e, -1))
  {
  }

  lemma RecountSustained(cells: seq<Cell>, outside: multiset<nat>, S: set<nat>, e: Entry, delta: int)
    requires Sustained(cells, outside, S)
    ensures Sustained(Recount(cells, e, delta), outside, S)
  {
  }

  // A container about to be freed is in no sustained set.
  lemma SupportedOther(cells: seq<Cell>, outside: multiset<nat>, e: Entry, S: set<nat>, id: nat)
    requires Exact(cells, outside, e) && Sustained(cells, outside, S) && e == Ref(id)
    requires id < |cells| && cells[id].Container?
    ensures cells[id].count <= 1 ==> id !in S
  {
    if id in S {
      SupportedIsCounted(cells, outside, e, S, id);
    }
  }

  // The freed container had a positive count before the step that freed it.
  lemma FreedEvolves(a: seq<Cell>, b: seq<Cell>, c: seq<Cell>, id: nat)
    requires id < |a| && a[id].Container? && a[id].count > 0
    requires EvolvesExcept(a, b, id) && EvolvesExcept(b, c, id) && c[id] == Freed
    ensures Evolves(a, c)
  {
  }

  lemma EvolvesChain(a: seq<Cell>, b: seq<Cell>, c: seq<Cell>, id: nat)
    requires EvolvesExcept(a, b, id) && Evolves(b, c)
    ensures EvolvesExcept(a, c, id)
  {
  }

  lemma DyingStays(a: seq<Cell>, b: seq<Cell>, id: nat)
    requires Evolves(a, b) && id < |a| && (a[id].Task? || (a[id].Container? && a[id].count == 0))
    ensures b[id] == a[id]
  {
  }

  lemma AppendExact(cells: seq<Cell>, outside: multiset<nat>, c: Cell, handle: multiset<nat>)
    requires Exact(cells, outside, Plain) && c.Entries() == []
    requires (c == Container(1, []) && handle == multiset{|cells| as nat}) || (c.Task? && handle == multiset{})
    ensures Exact(cells + [c], outside + handle, Plain)
  {
    hide Sum;
    var after, handles := cells + [c], outside + handle;
    forall k: nat {:trigger Counted(after, handles, Plain, k)}
      ensures Counted(after, handles, Plain, k)
    {
      assert Counted(cells, outside, Plain, k);
      SumAppend(cells, c, To(k));
    }
  }

  lemma AppendSums(cells: seq<Cell>, c: Cell)
    requires c.Entries() == []
    ensures forall m :: Sum(cells + [c], m) == Sum(cells, m)
  {
  }

  // Another reference from outside to a live container.
  lemma WrapMore(cells: seq<Cell>, outside: multiset<nat>, id: nat)
    requires Exact(cells, outside, Plain) && id < |cells| && cells[id].Container?
    ensures Exact(cells[id := cells[id].(count := cells[id].count + 1)], outside + multiset{id}, Plain)
  {
    hide Sum;
    var after := cells[id := cells[id].(count := cells[id].count + 1)];
    var handles := outside + multiset{id};
    forall k: nat {:trigger Counted(after, handles, Plain, k)}
      ensures Counted(after, handles, Plain, k)
    {
      assert Counted(cells, outside, Plain, k);
      SumUpdate(cells, id, after[id], To(k));
    }
  }

  // Converting entry i and then deleting it changes no count.
  lemma TakeBalances(cells: seq<Cell>, id: nat, i: nat)
    requires id < |cells| && cells[id].Container? && i < |cells[id].entries|
    ensures var e := cells[id].entries[i];
      var counted := Recount(cells, e, 1);
      && counted[id].Container? && counted[id].entries == cells[id].entries
      && Recount(counted[id := Without(counted[id], i)], e, -1) == cells[id := Without(cells[id], i)]
  {
  }

  // Putting e in front of entry i and taking entry i + 1 out overwrites entry i.
  lemma PutTake(c: Cell, i: nat, e: Entry)
    requires c.Container? && i < |c.entries|
    ensures With(c, i, e).entries[i + 1] == c.entries[i]
    ensures Without(With(c, i, e), i + 1) == c.(entries := c.entries[i := e])
  {
  }
}
