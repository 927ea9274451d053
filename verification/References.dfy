// Reference counting across threads (src/pht_entry.c, and the *_free_obj and
// *oi_free functions of src/classes): containers that hold references to
// containers, the release that cascades when a count reaches zero, and the writes
// that fail after having counted what they were to write.

module References {
  import opened Cells
  import opened Survival

  // What refers to containers from outside the heap: wrapper objects, and entries
  // that were dropped without being deleted.
  function Outside(wrappers: multiset<nat>, lost: seq<Entry>): multiset<nat>
  {
    wrappers + Targets(lost)
  }

  class ReferenceHeap {
    var cells: seq<Cell>
    var wrappers: multiset<nat>  // the containers that live PHP objects wrap
    var blocks: int              // allocated payloads not freed yet
    var objects: nat             // serialised objects stored so far
    var lost: seq<Entry>         // entries dropped without being deleted

    // Counts are exact, but for the entry e that has left its place and is still
    // to be deleted. The payloads not freed are those of the entries that are there
    // or lost, and of every serialised object ever stored: deleting one frees nothing.
    ghost predicate Holding(e: Entry)
      reads this
    {
      && Exact(cells, Outside(wrappers, lost), e)
      && blocks == Sum(cells, Blocks) + Weight(Blocks, e) + EntrySum(lost, Blocks) + objects
    }

    // Between operations nothing is in hand and no container is dying.
    ghost predicate Valid()
      reads this
    {
      Holding(Plain) && AllCounted(cells)
    }

    constructor ()
      ensures Valid() && cells == [] && wrappers == multiset{} && blocks == objects == 0 && lost == []
    {
      cells, wrappers, blocks, objects, lost := [], multiset{}, 0, 0, [];
    }

    // pht_entry_delete_value. The cascade leaves dying containers further up and
    // tasks alone, frees what loses its last reference, and nothing in any set of
    // cells that keep each other alive.
    method DeleteValue(e: Entry, ghost S: set<nat>)
      requires Holding(e) && Sustained(cells, Outside(wrappers, lost), S)
      modifies `cells, `blocks
      ensures Holding(Plain) && Sustained(cells, Outside(wrappers, lost), S)
      ensures Evolves(old(cells), cells)
      ensures !IsLast(old(cells), e) ==> cells == Recount(old(cells), e, -1)
      decreases Sum(cells, All), 1
    {
      hide Outside;
      ghost var outside := Outside(wrappers, lost);
      ReleaseExact(cells, outside, e);
      match e {
        case Plain =>
        case Block =>
          blocks := blocks - 1;
        case SerialisedObject =>
        case Ref(id) =>
          SupportedOther(cells, outside, e, S, id);
          RecountSums(cells, e, -1);
          RecountEvolves(cells, e);
          RecountSustained(cells, outside, S, e, -1);
          cells := cells[id := cells[id].(count := cells[id].count - 1)];
          if cells[id].count == 0 {
            ghost var before := cells;
            Destroy(id, S);
            FreedEvolves(old(cells), before, cells, id);
          }
      }
    }

    // qoi_free, htoi_free, voi_free, aioi_free and task_delete: delete the entries
    // one after another, then free the cell.
    method Destroy(id: nat, ghost S: set<nat>)
      requires Holding(Plain) && Sustained(cells, Outside(wrappers, lost), S) && id !in S
      requires id < |cells| && (cells[id].Task? || (cells[id].Container? && cells[id].count == 0))
      modifies `cells, `blocks
      ensures Holding(Plain) && Sustained(cells, Outside(wrappers, lost), S)
      ensures EvolvesExcept(old(cells), cells, id) && cells[id] == Freed
      decreases Sum(cells, All), 0
    {
      hide Sum, EntrySum, Exact, Sustained, Outside;
      ghost var outside := Outside(wrappers, lost);
      while cells[id].entries != []
        invariant Holding(Plain) && Sustained(cells, outside, S)
        invariant EvolvesExcept(old(cells), cells, id)
        invariant cells[id].Task? || (cells[id].Container? && cells[id].count == 0)
        invariant Sum(cells, All) <= old(Sum(cells, All))
        decreases |cells[id].entries|
      {
        var e := cells[id].entries[0];
        assert Without(cells[id], 0).entries == cells[id].entries[1..];
        TakeExact(cells, outside, id, 0);
        TakeSums(cells, id, 0);
        SustainedUpdate(cells, outside, S, id, Without(cells[id], 0));
        cells := cells[id := cells[id].(entries := cells[id].entries[1..])];
        ghost var before := cells;
        DeleteValue(e, S);
        EvolvesShrinks(before, cells, All);
        DyingStays(before, cells, id);
        EvolvesChain(old(cells), before, cells, id);
      }
      FreeExact(cells, outside, id);
      FreeSums(cells, id);
      SustainedUpdate(cells, outside, S, id, Freed);
      cells := cells[id := Freed];
    }

    // PHP level ------------------------------------------------------------------

    // queue_ctor, hash_table_ctor, vector_ctor, atomic_integer_ctor
    method Create() returns (id: nat)
      requires Valid()
      modifies `cells, `wrappers
      ensures Valid() && id == |old(cells)|
      ensures cells == old(cells) + [Container(1, [])] && wrappers == old(wrappers) + multiset{id}
    {
      hide Targets;
      id := |cells|;
      AppendExact(cells, Outside(wrappers, lost), Container(1, []), multiset{id});
      AppendSums(cells, Container(1, []));
      OneMoreWrapper(wrappers, lost, id);
      cells := cells + [Container(1, [])];
      wrappers := wrappers + multiset{id};
    }

    // hto_free_obj and its siblings: a wrapper object goes. What is freed in the
    // cascade is exactly what nothing keeps alive any more.
    method DropWrapper(id: nat)
      requires Valid() && wrappers[id] > 0
      modifies `cells, `wrappers, `blocks
      ensures Valid() && wrappers == old(wrappers) - multiset{id}
      ensures Outcome(old(cells), Outside(wrappers, lost), cells)
      ensures !IsLast(old(cells), Ref(id)) ==> cells == Recount(old(cells), Ref(id), -1)
    {
      hide Targets;
      assert wrappers - multiset{id} + multiset{id} == wrappers;
      OneMoreWrapper(wrappers - multiset{id}, lost, id);
      WrapExact(cells, Outside(wrappers - multiset{id}, lost), id);
      wrappers := wrappers - multiset{id};
      Release(Ref(id));
    }

    // Deleting entry e with nothing else in hand.
    method Release(e: Entry)
      requires Holding(e) && AllCounted(cells)
      modifies `cells, `blocks
      ensures Valid() && Outcome(old(cells), Outside(wrappers, lost), cells)
      ensures !IsLast(old(cells), e) ==> cells == Recount(old(cells), e, -1)
    {
      hide Outside;
      ghost var outside := Outside(wrappers, lost);
      ghost var S := Survivors(cells, outside);
      SurvivorsSustained(cells, outside);
      DeleteValue(e, S);
      EvolvesCounted(old(cells), cells);
      CascadeOutcome(old(cells), outside, cells);
    }

    // pht_convert_zval_to_entry: a value that is an object wraps a container, and
    // the new entry counts as one more reference to it.
    method Acquire(e: Entry)
      requires Valid() && (e.Ref? ==> wrappers[e.id] > 0)
      modifies `cells, `blocks, `objects
      ensures Holding(e) && AllCounted(cells) && cells == Recount(old(cells), e, 1)
      ensures e.Ref? ==> e.id < |old(cells)| && old(cells)[e.id].Container?
      ensures objects == old(objects) + Weight(Objects, e)
    {
      hide Targets, EntrySum;
      AcquireExact(cells, Outside(wrappers, lost), e);
      RecountSums(cells, e, 1);
      match e {
        case Plain =>
        case Block =>
          blocks := blocks + 1;
        case SerialisedObject =>
          blocks := blocks + 1;
          objects := objects + 1;
        case Ref(id) =>
          NoDangling(cells, Outside(wrappers, lost), id);
          cells := cells[id := cells[id].(count := cells[id].count + 1)];
      }
    }

    // The entry in hand is dropped: nothing will ever delete it.
    method Lose(e: Entry)
      requires Holding(e) && AllCounted(cells)
      modifies `lost
      ensures Valid() && lost == old(lost) + [e]
    {
      hide Sum, Exact, EntrySum;
      DroppedExact(cells, wrappers, lost, e);
      EntrySumConcat(lost, [e], Blocks);
      EntrySumOne(e, Blocks);
      lost := lost + [e];
    }

    // pht_convert_entry_to_zval for entry i of a container or a task: a reference
    // gets a new wrapper object.
    method Fetch(id: nat, i: nat) returns (e: Entry)
      requires Valid() && id < |cells| && i < |cells[id].Entries()|
      modifies `cells, `wrappers
      ensures Valid() && e == old(cells)[id].entries[i] && cells == Recount(old(cells), e, 1)
      ensures wrappers == old(wrappers) + Handle(e)
    {
      hide Targets, EntrySum;
      e := cells[id].entries[i];
      RecountSums(cells, e, 1);
      if e.Ref? {
        NoDangling(cells, Outside(wrappers, lost), e.id);
        WrapMore(cells, Outside(wrappers, lost), e.id);
        OneMoreWrapper(wrappers, lost, e.id);
        cells := cells[e.id := cells[e.id].(count := cells[e.id].count + 1)];
        wrappers := wrappers + multiset{e.id};
      }
    }

    // Storing a value in a container: push, unshift, insertAt, a new key. An
    // insertion out of range throws when the value has been counted already, and
    // drops the entry.
    method Store(id: nat, i: int, e: Entry) returns (ok: bool)
      requires Valid() && (e.Ref? ==> wrappers[e.id] > 0)
      requires id < |cells| && cells[id].Container?
      modifies `cells, `blocks, `objects, `lost
      ensures Valid() && objects == old(objects) + Weight(Objects, e)
      ensures ok <==> 0 <= i <= |old(cells)[id].entries|
      ensures var counted := Recount(old(cells), e, 1);
        cells == if ok then counted[id := With(counted[id], i, e)] else counted
      ensures lost == old(lost) + if ok then [] else [e]
    {
      hide Outside, Exact, Sum, EntrySum;
      Acquire(e);
      ok := 0 <= i <= |cells[id].entries|;
      if ok {
        PutExact(cells, Outside(wrappers, lost), id, i, e);
        PutSums(cells, id, i, e);
        cells := cells[id := With(cells[id], i, e)];
      } else {
        Lose(e);
      }
    }

    // Deleting an entry: unset, deleteAt, resize.
    method Remove(id: nat, i: nat)
      requires Valid() && id < |cells| && cells[id].Container? && i < |cells[id].entries|
      modifies `cells, `blocks
      ensures Valid() && Outcome(old(cells)[id := Without(old(cells)[id], i)], Outside(wrappers, lost), cells)
    {
      hide Outside;
      var e := cells[id].entries[i];
      TakeExact(cells, Outside(wrappers, lost), id, i);
      TakeSums(cells, id, i);
      cells := cells[id := Without(cells[id], i)];
      Release(e);
    }

    // Overwriting an entry, as updateAt and array access do: the new value is counted
    // before the old one goes, and before an index out of range throws.
    method Overwrite(id: nat, i: int, e: Entry) returns (ok: bool)
      requires Valid() && (e.Ref? ==> wrappers[e.id] > 0)
      requires id < |cells| && cells[id].Container?
      modifies `cells, `blocks, `objects, `lost
      ensures Valid() && objects == old(objects) + Weight(Objects, e)
      ensures ok <==> 0 <= i < |old(cells)[id].entries|
      ensures var counted := Recount(old(cells), e, 1);
        if ok then
          Outcome(counted[id := counted[id].(entries := counted[id].entries[i := e])], Outside(wrappers, lost), cells)
        else cells == counted
      ensures lost == old(lost) + if ok then [] else [e]
    {
      ok := 0 <= i < |cells[id].entries|;
      if ok {
        Replace(id, i, e);
      } else {
        Acquire(e);
        Lose(e);
      }
    }

    method Replace(id: nat, i: nat, e: Entry)
      requires Valid() && (e.Ref? ==> wrappers[e.id] > 0)
      requires id < |cells| && cells[id].Container? && i < |cells[id].entries|
      modifies `cells, `blocks, `objects, `lost
      ensures Valid() && objects == old(objects) + Weight(Objects, e) && lost == old(lost)
      ensures var counted := Recount(old(cells), e, 1);
        Outcome(counted[id := counted[id].(entries := counted[id].entries[i := e])], Outside(wrappers, lost), cells)
    {
      hide Sum, EntrySum, Exact, Outcome, Outside;
      ghost var counted := Recount(cells, e, 1);
      PutTake(counted[id], i, e);
      var ok := Store(id, i, e);
      var previous := cells[id].entries[i + 1];
      TakeExact(cells, Outside(wrappers, lost), id, i + 1);
      TakeSums(cells, id, i + 1);
      cells := cells[id := Without(cells[id], i + 1)];
      assert cells == counted[id := counted[id].(entries := counted[id].entries[i := e])];
      Release(previous);
    }

    // Array access with an offset that is no integer on a vector, or neither integer
    // nor string on a hash table: it throws after the value has been counted.
    method Refuse(e: Entry)
      requires Valid() && (e.Ref? ==> wrappers[e.id] > 0)
      modifies `cells, `blocks, `objects, `lost
      ensures Valid() && objects == old(objects) + Weight(Objects, e)
      ensures cells == Recount(old(cells), e, 1) && lost == old(lost) + [e]
    {
      Acquire(e);
      Lose(e);
    }

    // Vector::__construct called again on a vector in use: pht_vector_init starts a
    // new buffer, and nothing deletes the entries of the old one.
    method Forget(id: nat)
      requires Valid() && id < |cells| && cells[id].Container?
      modifies `cells, `lost
      ensures Valid() && lost == old(lost) + old(cells)[id].entries
      ensures cells == old(cells)[id := old(cells)[id].(entries := [])]
    {
      hide Sum, EntrySum, Exact, Targets;
      var es := cells[id].entries;
      ForgetExact(cells, Outside(wrappers, lost), id);
      ForgetSums(cells, id);
      TargetsConcat(lost, es);
      OutsideMore(wrappers, lost, es);
      EntrySumConcat(lost, es, Blocks);
      cells := cells[id := cells[id].(entries := [])];
      lost := lost + es;
    }

    // Queue::pop, Vector::pop and Vector::shift: convert, then delete the entry.
    // Because of that order the count never touches zero and nothing is freed.
    method Take(id: nat, i: nat) returns (e: Entry)
      requires Valid() && id < |cells| && cells[id].Container? && i < |cells[id].entries|
      modifies `cells, `wrappers, `blocks
      ensures Valid() && e == old(cells)[id].entries[i] && wrappers == old(wrappers) + Handle(e)
      ensures cells == old(cells)[id := Without(old(cells)[id], i)]
    {
      hide Sum, Exact, Targets;
      TakeBalances(cells, id, i);
      e := Fetch(id, i);
      TakeExact(cells, Outside(wrappers, lost), id, i);
      TakeSums(cells, id, i);
      NotLast(cells, Outside(wrappers, lost), id, i);
      cells := cells[id := Without(cells[id], i)];
      Release(e);
    }

    // task_delete after a task has run: its arguments go.
    method FinishTask(id: nat)
      requires Valid() && id < |cells| && cells[id].Task?
      modifies `cells, `blocks
      ensures Valid() && Outcome(old(cells)[id := Freed], Outside(wrappers, lost), cells)
    {
      hide Exact, Sum, Outcome, Outside;
      ghost var outside := Outside(wrappers, lost);
      ghost var S := Survivors(cells[id := Freed], outside);
      ghost var before := cells;
      SurvivorsSustained(cells[id := Freed], outside);
      NotFreed(cells[id := Freed], outside, S, id);
      SustainedUpdate(cells[id := Freed], outside, S, id, cells[id]);
      assert cells[id := Freed][id := cells[id]] == cells;
      Destroy(id, S);
      EvolvesCounted(before[id := Freed], cells);
      CascadeOutcome(before[id := Freed], outside, cells);
    }

    // addClassTask, addFunctionTask and addFileTask: convert the arguments one by
    // one into a new task. If one cannot be converted (the one at `convertible`,
    // if that is an argument) the entries made so far are deleted again, and every
    // container is as it was; but nothing deletes the head of the task.
    method AddTask(head: Head, args: seq<Entry>, convertible: nat) returns (id: nat, ok: bool)
      requires Valid() && head.Proper() && forall e :: e in args && e.Ref? ==> wrappers[e.id] > 0
      modifies `cells, `blocks, `objects, `lost
      ensures Valid() && id == |old(cells)| && (ok <==> |args| <= convertible)
      ensures var parts := [head.Entry()] + args;
        && cells == (if ok then CountAll(old(cells), parts) + [Task(parts)] else old(cells) + [Freed])
        && objects == old(objects) + EntrySum(Converted(parts, convertible), Objects)
      ensures lost == old(lost) + if ok then [] else [head.Entry()]
    {
      hide Exact, Sum, EntrySum, Recount, Outside;
      ghost var base, outside := cells, Outside(wrappers, lost);
      var parts := [head.Entry()] + args;
      id := |cells|;
      AppendExact(cells, outside, Task([]), multiset{});
      assert outside + multiset{} == outside;
      AppendSums(cells, Task([]));
      cells := cells + [Task([])];
      NoneConverted(parts);
      var i: nat := 0;
      while i < |parts| && i <= convertible
        invariant i <= |parts| && i <= convertible + 1 && Valid()
        invariant cells == CountAll(base, parts[..i]) + [Task(parts[..i])]
        invariant objects == old(objects) + EntrySum(parts[..i], Objects) && lost == old(lost)
      {
        CountStep(base, parts, i);
        EntrySumLast(parts, i, Objects);
        Acquire(parts[i]);
        PutExact(cells, outside, id, i, parts[i]);
        PutSums(cells, id, i, parts[i]);
        cells := cells[id := With(cells[id], i, parts[i])];
        i := i + 1;
      }
      assert parts[..i] == Converted(parts, convertible);
      if i < |parts| {
        CountShape(base, parts[..i]);
        LeaveHead(id);
        ghost var before := cells;
        FinishTask(id);
        Undone(base, outside, before, cells);
        return id, false;
      }
      assert parts[..i] == parts;
      return id, true;
    }

    // The head of a task that is given up leaves it without being deleted.
    method LeaveHead(id: nat)
      requires Valid() && id < |cells| && cells[id].Task? && cells[id].entries != [] && !cells[id].entries[0].Ref?
      modifies `cells, `lost
      ensures Valid() && cells == old(cells)[id := Without(old(cells)[id], 0)]
      ensures lost == old(lost) + [old(cells)[id].entries[0]]
      ensures Outside(wrappers, lost) == Outside(wrappers, old(lost))
    {
      hide Sum, EntrySum, Exact;
      var head := cells[id].entries[0];
      TakeExact(cells, Outside(wrappers, lost), id, 0);
      TakeSums(cells, id, 0);
      TargetsConcat(lost, [head]);
      cells := cells[id := Without(cells[id], 0)];
      Lose(head);
    }
  }

  lemma OneMoreWrapper(wrappers: multiset<nat>, lost: seq<Entry>, id: nat)
    ensures Outside(wrappers + multiset{id}, lost) == Outside(wrappers, lost) + multiset{id}
  {
  }

  lemma OutsideMore(wrappers: multiset<nat>, lost: seq<Entry>, es: seq<Entry>)
    ensures Outside(wrappers, lost + es) == Outside(wrappers, lost) + Targets(es)
  {
    TargetsConcat(lost, es);
  }

  lemma DroppedExact(cells: seq<Cell>, wrappers: multiset<nat>, lost: seq<Entry>, e: Entry)
    requires Exact(cells, Outside(wrappers, lost), e)
    ensures Exact(cells, Outside(wrappers, lost + [e]), Plain)
  {
    OutsideMore(wrappers, lost, [e]);
    assert Targets([e]) == Handle(e);
    hide Outside, Exact, Targets;
    var outside := Outside(wrappers, lost);
    if e.Ref? {
      WrapExact(cells, outside, e.id);
    } else {
      assert outside + multiset{} == outside;
      NotAReference(cells, outside, e);
    }
  }

  lemma ForgetSums(cells: seq<Cell>, id: nat)
    requires id < |cells| && cells[id].Container?
    ensures
      Sum(cells, Blocks) == Sum(cells[id := cells[id].(entries := [])], Blocks) + EntrySum(cells[id].entries, Blocks)
  {
    SumUpdate(cells, id, cells[id].(entries := []), Blocks);
  }

  lemma EntrySumOne(e: Entry, m: Measure)
    ensures EntrySum([e], m) == Weight(m, e)
  {
  }

  // What a task holds before its arguments: the name of a class or a file, or a
  // callable. The conversion of a callable may fail, unnoticed, if it is an object
  // to be serialised. Shared containers are not callable.
  datatype Head = Name | Callable(fn: Entry, converted: bool)
  {
    predicate Proper()
    {
      Callable? ==> if converted then fn.Block? || fn.SerialisedObject? else fn.SerialisedObject?
    }

    function Entry(): Entry
    {
      if Name? then Block else if converted then fn else Plain
    }
  }

  // The parts of a task that are converted: its head, and the arguments up to the
  // first that cannot be.
  function Converted(parts: seq<Entry>, convertible: nat): seq<Entry>
  {
    if |parts| <= convertible + 1 then parts else parts[..convertible + 1]
  }

  lemma NoneConverted(parts: seq<Entry>)
    ensures EntrySum(parts[..0], Objects) == 0
  {
  }

  lemma NotAReference(cells: seq<Cell>, outside: multiset<nat>, e: Entry)
    requires Exact(cells, outside, e) && !e.Ref?
    ensures Exact(cells, outside, Plain)
  {
    hide Sum;
    forall k: nat {:trigger Counted(cells, outside, Plain, k)}
      ensures Counted(cells, outside, Plain, k)
    {
      assert Counted(cells, outside, e, k);
    }
  }

  function CountAll(cells: seq<Cell>, es: seq<Entry>): (r: seq<Cell>)
    ensures |r| == |cells|
  {
    if es == [] then cells else Recount(CountAll(cells, es[..|es| - 1]), es[|es| - 1], 1)
  }

  lemma CountStep(base: seq<Cell>, args: seq<Entry>, i: nat)
    requires i < |args|
    ensures var x := CountAll(base, args[..i]);
      && CountAll(base, args[..i + 1]) == Recount(x, args[i], 1)
      && Recount(x + [Task(args[..i])], args[i], 1) == Recount(x, args[i], 1) + [Task(args[..i])]
      && With(Task(args[..i]), i, args[i]) == Task(args[..i + 1])
  {
    assert args[..i + 1][..i] == args[..i];
    assert With(Task(args[..i]), i, args[i]).entries == args[..i + 1];
  }

  lemma {:induction false} CountShape(base: seq<Cell>, es: seq<Entry>)
    ensures SameShape(base, CountAll(base, es))
  {
    if es != [] {
      CountShape(base, es[..|es| - 1]);
    }
  }

  // Whole histories ------------------------------------------------------------

  // Store and Overwrite come with any index, Refuse with an offset of another type.
  datatype Op =
    | Create | DropWrapper(id: nat)
    | Store(id: nat, at: int, e: Entry) | Overwrite(id: nat, at: int, e: Entry) | Refuse(e: Entry)
    | Remove(id: nat, i: nat) | Take(id: nat, i: nat) | Fetch(id: nat, i: nat) | Forget(id: nat)
    | AddTask(head: Head, args: seq<Entry>, convertible: nat) | FinishTask(id: nat)

  // What PHP code can do: use live containers, and hand over what it holds a
  // wrapper of.
  predicate Possible(cells: seq<Cell>, wrappers: multiset<nat>, op: Op)
  {
    match op
    case Create => true
    case DropWrapper(id) => wrappers[id] > 0
    case Store(id, _, e) => id < |cells| && cells[id].Container? && (e.Ref? ==> wrappers[e.id] > 0)
    case Overwrite(id, _, e) => id < |cells| && cells[id].Container? && (e.Ref? ==> wrappers[e.id] > 0)
    case Refuse(e) => e.Ref? ==> wrappers[e.id] > 0
    case Remove(id, i) => id < |cells| && cells[id].Container? && i < |cells[id].entries|
    case Take(id, i) => id < |cells| && cells[id].Container? && i < |cells[id].entries|
    case Fetch(id, i) => id < |cells| && i < |cells[id].Entries()|
    case Forget(id) => id < |cells| && cells[id].Container?
    case AddTask(head, args, _) => head.Proper() && forall e :: e in args && e.Ref? ==> wrappers[e.id] > 0
    case FinishTask(id) => id < |cells| && cells[id].Task?
  }

  // Everything the heap holds and has in its accounts.
  datatype State = State(cells: seq<Cell>, wrappers: multiset<nat>, blocks: int, objects: nat, lost: seq<Entry>)

  // The entries that an operation drops without deleting them.
  function Dropped(cells: seq<Cell>, wrappers: multiset<nat>, op: Op): seq<Entry>
    requires Possible(cells, wrappers, op)
  {
    match op
    case Store(id, i, e) => if 0 <= i <= |cells[id].entries| then [] else [e]
    case Overwrite(id, i, e) => if 0 <= i < |cells[id].entries| then [] else [e]
    case Refuse(e) => [e]
    case Forget(id) => cells[id].entries
    case AddTask(head, args, convertible) => if |args| <= convertible then [] else [head.Entry()]
    case _ => []
  }

  // The serialised objects that an operation stores.
  function NewObjects(op: Op): nat
  {
    match op
    case Store(_, _, e) => Weight(Objects, e)
    case Overwrite(_, _, e) => Weight(Objects, e)
    case Refuse(e) => Weight(Objects, e)
    case AddTask(head, args, convertible) => EntrySum(Converted([head.Entry()] + args, convertible), Objects)
    case _ => 0
  }

  // What one operation does. The cells an operation leaves are given outright, or
  // as the outcome of a cascade on given cells.
  ghost predicate Next(s: State, op: Op, s': State)
    requires Possible(s.cells, s.wrappers, op)
  {
    var cells, outside := s.cells, Outside(s'.wrappers, s'.lost);
    && s'.objects == s.objects + NewObjects(op) && s'.lost == s.lost + Dropped(cells, s.wrappers, op)
    && match op
       case Create =>
         s'.cells == cells + [Container(1, [])] && s'.wrappers == s.wrappers + multiset{|cells| as nat}
       case DropWrapper(id) => Outcome(cells, outside, s'.cells) && s'.wrappers == s.wrappers - multiset{id}
       case Store(id, i, e) =>
         var counted := Recount(cells, e, 1);
         && s'.cells == (if 0 <= i <= |cells[id].entries| then counted[id := With(counted[id], i, e)] else counted)
         && s'.wrappers == s.wrappers
       case Overwrite(id, i, e) =>
         var counted := Recount(cells, e, 1);
         && (if 0 <= i < |cells[id].entries| then
               Outcome(counted[id := counted[id].(entries := counted[id].entries[i := e])], outside, s'.cells)
             else s'.cells == counted)
         && s'.wrappers == s.wrappers
       case Refuse(e) => s'.cells == Recount(cells, e, 1) && s'.wrappers == s.wrappers
       case Remove(id, i) =>
         Outcome(cells[id := Without(cells[id], i)], outside, s'.cells) && s'.wrappers == s.wrappers
       case Take(id, i) =>
         && s'.cells == cells[id := Without(cells[id], i)]
         && s'.wrappers == s.wrappers + Handle(cells[id].entries[i])
       case Fetch(id, i) =>
         var e := cells[id].entries[i];
         s'.cells == Recount(cells, e, 1) && s'.wrappers == s.wrappers + Handle(e)
       case Forget(id) => s'.cells == cells[id := cells[id].(entries := [])] && s'.wrappers == s.wrappers
       case AddTask(head, args, convertible) =>
         var parts := [head.Entry()] + args;
         && s'.cells == (if |args| <= convertible then CountAll(cells, parts) + [Task(parts)] else cells + [Freed])
         && s'.wrappers == s.wrappers
       case FinishTask(id) => Outcome(cells[id := Freed], outside, s'.cells) && s'.wrappers == s.wrappers
  }

  // One operation on the heap is one such step.
  method Apply(heap: ReferenceHeap, op: Op, ghost s: State)
    requires heap.Valid() && s == State(heap.cells, heap.wrappers, heap.blocks, heap.objects, heap.lost)
    requires Possible(s.cells, s.wrappers, op)
    modifies heap
    ensures heap.Valid()
    ensures Next(s, op, State(heap.cells, heap.wrappers, heap.blocks, heap.objects, heap.lost))
  {
    hide ReferenceHeap.Valid, Outcome, Recount, CountAll, Weight, EntrySum, Converted, Handle, With, Without, Outside;
    match op {
      case Create =>
        var id := heap.Create();
      case DropWrapper(id) => heap.DropWrapper(id);
      case Remove(id, i) => heap.Remove(id, i);
      case Take(id, i) =>
        var e := heap.Take(id, i);
      case Fetch(id, i) =>
        var e := heap.Fetch(id, i);
      case FinishTask(id) => heap.FinishTask(id);
      case _ =>
        hide Next;
        ApplyWrite(heap, op, s);
    }
  }

  method ApplyWrite(heap: ReferenceHeap, op: Op, ghost s: State)
    requires heap.Valid() && s == State(heap.cells, heap.wrappers, heap.blocks, heap.objects, heap.lost)
    requires op.Store? || op.Overwrite? || op.Refuse? || op.Forget? || op.AddTask?
    requires Possible(s.cells, s.wrappers, op)
    modifies heap
    ensures heap.Valid()
    ensures Next(s, op, State(heap.cells, heap.wrappers, heap.blocks, heap.objects, heap.lost))
  {
    hide ReferenceHeap.Valid, Outcome, Recount, CountAll, Weight, EntrySum, Converted, Handle, With, Without, Outside;
    match op {
      case Store(id, i, e) =>
        var ok := heap.Store(id, i, e);
      case Overwrite(id, i, e) =>
        var ok := heap.Overwrite(id, i, e);
      case Refuse(e) => heap.Refuse(e);
      case Forget(id) => heap.Forget(id);
      case AddTask(head, args, convertible) =>
        var id, ok := heap.AddTask(head, args, convertible);
    }
  }

  // Counts are exact and positive, and the payloads not freed are those of the
  // entries, of the lost entries and of the serialised objects.
  ghost predicate Sound(s: State)
  {
    && Exact(s.cells, Outside(s.wrappers, s.lost), Plain) && AllCounted(s.cells)
    && s.blocks == Sum(s.cells, Blocks) + EntrySum(s.lost, Blocks) + s.objects
  }

  // What is live is what a wrapper object, a lost entry, a task or a cycle reaches.
  ghost predicate LiveIffHeld(s: State)
  {
    forall id: nat :: id < |s.cells| ==>
      (!s.cells[id].Freed? <==>
        || Reachable(s.cells, s.wrappers, id)
        || Reachable(s.cells, Targets(s.lost), id)
        || HeldByCycle(s.cells, id))
  }

  lemma SoundIsHeld(s: State)
    requires Sound(s)
    ensures LiveIffHeld(s)
  {
    hide Exact, AllCounted, Reachable, HeldByCycle, Sum, EntrySum, Targets;
    forall id: nat | id < |s.cells|
      ensures !s.cells[id].Freed? <==>
        || Reachable(s.cells, s.wrappers, id)
        || Reachable(s.cells, Targets(s.lost), id)
        || HeldByCycle(s.cells, id)
    {
      LeakIffCycle(s.cells, Outside(s.wrappers, s.lost), id);
      ReachableFromEither(s.cells, s.wrappers, Targets(s.lost), id);
    }
  }

  // A trace takes one step for each operation that is possible, and none for
  // those that are not.
  ghost predicate Steps(trace: seq<State>, ops: seq<Op>)
  {
    && |trace| == |ops| + 1 && trace[0] == State([], multiset{}, 0, 0, [])
    && forall i :: 0 <= i < |ops| ==> StepAt(trace, ops, i)
  }

  ghost predicate StepAt(trace: seq<State>, ops: seq<Op>, i: nat)
    requires i < |ops| && |trace| > i + 1
  {
    var s := trace[i];
    if Possible(s.cells, s.wrappers, ops[i]) then Next(s, ops[i], trace[i + 1]) else trace[i + 1] == s
  }

  lemma OneStep(trace: seq<State>, ops: seq<Op>, i: nat, s: State)
    requires i < |ops| && Steps(trace, ops[..i]) && StepAt(trace + [s], ops, i)
    ensures Steps(trace + [s], ops[..i + 1])
  {
    hide Next, Possible;
    forall k: nat {:trigger StepAt(trace + [s], ops[..i + 1], k)} | k < i
      ensures StepAt(trace + [s], ops[..i + 1], k)
    {
      assert StepAt(trace, ops[..i], k);
    }
    assert StepAt(trace + [s], ops[..i + 1], i);
  }

  // Every history takes the heap through states in which counts are exact and a
  // cell is live if and only if a wrapper object, a lost entry, a task or a cycle
  // reaches it.
  method Run(ops: seq<Op>) returns (trace: seq<State>)
    ensures Steps(trace, ops)
    ensures forall i :: 0 <= i < |trace| ==> Sound(trace[i]) && LiveIffHeld(trace[i])
  {
    hide Possible, Next, Sound, LiveIffHeld, Steps, ReferenceHeap.Valid;
    var heap := new ReferenceHeap();
    var s := State(heap.cells, heap.wrappers, heap.blocks, heap.objects, heap.lost);
    trace := [s];
    Beginning(heap, s);
    var i := 0;
    while i < |ops|
      invariant i <= |ops| && fresh(heap) && heap.Valid()
      invariant s == State(heap.cells, heap.wrappers, heap.blocks, heap.objects, heap.lost)
      invariant |trace| == i + 1 && trace[i] == s && Steps(trace, ops[..i])
      invariant forall k :: 0 <= k < |trace| ==> Sound(trace[k]) && LiveIffHeld(trace[k])
    {
      if Possible(heap.cells, heap.wrappers, ops[i]) {
        Apply(heap, ops[i], s);
      }
      s := State(heap.cells, heap.wrappers, heap.blocks, heap.objects, heap.lost);
      ValidIsSound(heap, s);
      OneStep(trace, ops, i, s);
      trace := trace + [s];
      i := i + 1;
    }
    assert ops[..i] == ops;
  }

  // What each operation of a history does, from plain facts about the state it meets.
  lemma EveryOperation(trace: seq<State>, ops: seq<Op>, i: nat)
    requires Steps(trace, ops) && i < |ops|
    ensures var s, s' := trace[i], trace[i + 1];
      var cells, outside := s.cells, Outside(s'.wrappers, s'.lost);
      match ops[i]
      case Create =>
        s'.cells == cells + [Container(1, [])] && s'.wrappers == s.wrappers + multiset{|cells| as nat}
        && s'.lost == s.lost && s'.objects == s.objects
      case DropWrapper(id) =>
        if s.wrappers[id] > 0 then
          Outcome(cells, outside, s'.cells) && s'.wrappers == s.wrappers - multiset{id}
          && s'.lost == s.lost && s'.objects == s.objects
        else s' == s
      case Store(id, at, e) =>
        if id < |cells| && cells[id].Container? && (e.Ref? ==> s.wrappers[e.id] > 0) then
          var counted := Recount(cells, e, 1);
          && s'.wrappers == s.wrappers && s'.objects == s.objects + (if e.SerialisedObject? then 1 else 0)
          && if 0 <= at <= |cells[id].entries| then
               s'.cells == counted[id := With(counted[id], at, e)] && s'.lost == s.lost
             else s'.cells == counted && s'.lost == s.lost + [e]
        else s' == s
      case Overwrite(id, at, e) =>
        if id < |cells| && cells[id].Container? && (e.Ref? ==> s.wrappers[e.id] > 0) then
          var counted := Recount(cells, e, 1);
          && s'.wrappers == s.wrappers && s'.objects == s.objects + (if e.SerialisedObject? then 1 else 0)
          && if 0 <= at < |cells[id].entries| then
               Outcome(counted[id := counted[id].(entries := counted[id].entries[at := e])], outside, s'.cells)
               && s'.lost == s.lost
             else s'.cells == counted && s'.lost == s.lost + [e]
        else s' == s
      case Refuse(e) =>
        if e.Ref? ==> s.wrappers[e.id] > 0 then
          && s'.cells == Recount(cells, e, 1) && s'.wrappers == s.wrappers && s'.lost == s.lost + [e]
          && s'.objects == s.objects + (if e.SerialisedObject? then 1 else 0)
        else s' == s
      case Remove(id, k) =>
        if id < |cells| && cells[id].Container? && k < |cells[id].entries| then
          Outcome(cells[id := Without(cells[id], k)], outside, s'.cells) && s'.wrappers == s.wrappers
          && s'.lost == s.lost && s'.objects == s.objects
        else s' == s
      case Take(id, k) =>
        if id < |cells| && cells[id].Container? && k < |cells[id].entries| then
          s'.cells == cells[id := Without(cells[id], k)] && s'.wrappers == s.wrappers + Handle(cells[id].entries[k])
          && s'.lost == s.lost && s'.objects == s.objects
        else s' == s
      case Fetch(id, k) =>
        if id < |cells| && k < |cells[id].Entries()| then
          s'.cells == Recount(cells, cells[id].entries[k], 1)
          && s'.wrappers == s.wrappers + Handle(cells[id].entries[k]) && s'.lost == s.lost && s'.objects == s.objects
        else s' == s
      case Forget(id) =>
        if id < |cells| && cells[id].Container? then
          s'.cells == cells[id := cells[id].(entries := [])] && s'.wrappers == s.wrappers
          && s'.lost == s.lost + cells[id].entries && s'.objects == s.objects
        else s' == s
      case AddTask(head, args, n) =>
        if (head.Callable? ==> head.fn.SerialisedObject? || (head.fn.Block? && head.converted))
           && forall e :: e in args && e.Ref? ==> s.wrappers[e.id] > 0 then
          var first := if head.Name? then Block else if head.converted then head.fn else Plain;
          var parts := if |args| <= n then [first] + args else [first] + args[..n];
          && s'.wrappers == s.wrappers && s'.objects == s.objects + EntrySum(parts, Objects)
          && (if |args| <= n then
                s'.cells == CountAll(cells, [first] + args) + [Task([first] + args)] && s'.lost == s.lost
              else s'.cells == cells + [Freed] && s'.lost == s.lost + [first])
        else s' == s
      case FinishTask(id) =>
        if id < |cells| && cells[id].Task? then
          Outcome(cells[id := Freed], outside, s'.cells) && s'.wrappers == s.wrappers
          && s'.lost == s.lost && s'.objects == s.objects
        else s' == s
  {
    assert StepAt(trace, ops, i);
    if ops[i].AddTask? && ops[i].convertible < |ops[i].args| {
      var first, args, n := ops[i].head.Entry(), ops[i].args, ops[i].convertible;
      assert ([first] + args)[..n + 1] == [first] + args[..n];
    }
    hide Outcome, Recount, CountAll, EntrySum, Outside, Handle, Steps;
  }

  lemma ValidIsSound(heap: ReferenceHeap, s: State)
    requires heap.Valid() && s == State(heap.cells, heap.wrappers, heap.blocks, heap.objects, heap.lost)
    ensures Sound(s) && LiveIffHeld(s)
  {
    SoundIsHeld(s);
  }

  lemma Beginning(heap: ReferenceHeap, s: State)
    requires heap.Valid() && s == State(heap.cells, heap.wrappers, heap.blocks, heap.objects, heap.lost)
    requires heap.cells == [] && heap.wrappers == multiset{} && heap.blocks == heap.objects == 0 && heap.lost == []
    ensures Steps([s], []) && Sound(s) && LiveIffHeld(s)
  {
    ValidIsSound(heap, s);
  }

  // The step an operation takes is the only one: it fixes every cell, count,
  // wrapper and account.
  lemma NextDetermined(s: State, op: Op, t: State, u: State)
    requires Possible(s.cells, s.wrappers, op) && Next(s, op, t) && Next(s, op, u) && Sound(t) && Sound(u)
    ensures t == u
  {
    hide Exact, AllCounted, Sum, CountAll, Weight, EntrySum, Converted, Outside;
    var outside := Outside(t.wrappers, t.lost);
    assert t.wrappers == u.wrappers && t.lost == u.lost;
    match op {
      case DropWrapper(id) => SameOutcome(s.cells, outside, t.cells, u.cells);
      case Overwrite(id, i, e) =>
        if 0 <= i < |s.cells[id].entries| {
          var counted := Recount(s.cells, e, 1);
          SameOutcome(counted[id := counted[id].(entries := counted[id].entries[i := e])], outside, t.cells, u.cells);
        }
      case Remove(id, i) => SameOutcome(s.cells[id := Without(s.cells[id], i)], outside, t.cells, u.cells);
      case FinishTask(id) => SameOutcome(s.cells[id := Freed], outside, t.cells, u.cells);
      case _ =>
    }
  }

  lemma SameOutcome(a: seq<Cell>, outside: multiset<nat>, b: seq<Cell>, c: seq<Cell>)
    requires Outcome(a, outside, b) && Outcome(a, outside, c)
    requires Exact(b, outside, Plain) && Exact(c, outside, Plain)
    ensures b == c
  {
    hide Exact, Survives;
    forall i | 0 <= i < |a|
      ensures SameBut(b[i], c[i])
    {
      assert CellEvolves(a[i], b[i]) && CellEvolves(a[i], c[i]);
      assert b[i].Freed? <==> c[i].Freed?;
    }
    CountsDetermined(b, c, outside);
  }

  // An operation loses entries if and only if it is a write of a value with an index
  // out of range or an offset of another type, a second construction of a vector that
  // is not empty, or a task with an argument that cannot be converted.
  lemma LostIff(s: State, op: Op, s': State)
    requires Possible(s.cells, s.wrappers, op) && Next(s, op, s')
    ensures s'.lost != s.lost <==>
      || (op.Store? && !(0 <= op.at <= |s.cells[op.id].entries|))
      || (op.Overwrite? && !(0 <= op.at < |s.cells[op.id].entries|))
      || op.Refuse?
      || (op.Forget? && s.cells[op.id].entries != [])
      || (op.AddTask? && op.convertible < |op.args|)
    ensures s.lost <= s'.lost
  {
    hide Outcome, Recount, CountAll, EntrySum, Converted, Outside;
  }

  // Adding a task loses a block if and only if an argument cannot be converted and
  // the head owns a block.
  lemma HeadLeaksIff(s: State, op: Op, s': State)
    requires Possible(s.cells, s.wrappers, op) && Next(s, op, s') && op.AddTask?
    ensures EntrySum(s'.lost, Blocks) != EntrySum(s.lost, Blocks) <==>
      op.convertible < |op.args| && (op.head.Name? || (op.head.converted && op.head.fn.Block?))
    ensures Targets(s'.lost) == Targets(s.lost)
  {
    hide Outcome, Recount, CountAll, Converted, Outside, Exact;
    var head := op.head.Entry();
    EntrySumConcat(s.lost, [head], Blocks);
    EntrySumOne(head, Blocks);
    TargetsConcat(s.lost, [head]);
    assert s.lost + [] == s.lost;
  }

  // A container that a lost entry refers to is live ever after.
  lemma {:induction false} LostForGood(trace: seq<State>, ops: seq<Op>, i: nat, j: nat, id: nat)
    requires Steps(trace, ops) && forall k :: 0 <= k < |trace| ==> Sound(trace[k])
    requires i <= j < |trace| && Ref(id) in trace[i].lost
    ensures Ref(id) in trace[j].lost
    ensures var cells := trace[j].cells; id < |cells| && cells[id].Container? && cells[id].count > 0
  {
    hide Next, Possible, Sound;
    assert Sound(trace[j]);
    if i < j {
      assert Sound(trace[j - 1]) && StepAt(trace, ops, j - 1);
      LostForGood(trace, ops, i, j - 1, id);
      LostStays(trace, ops, j - 1);
    }
    LostIsLive(trace[j], id);
  }

  lemma LostStays(trace: seq<State>, ops: seq<Op>, i: nat)
    requires i < |ops| && i + 1 < |trace| && StepAt(trace, ops, i)
    ensures trace[i].lost <= trace[i + 1].lost
  {
    hide Next, Possible;
    var s := trace[i];
    if Possible(s.cells, s.wrappers, ops[i]) {
      LostIff(s, ops[i], trace[i + 1]);
    }
  }

  lemma LostIsLive(s: State, id: nat)
    requires Sound(s) && Ref(id) in s.lost
    ensures id < |s.cells| && s.cells[id].Container? && s.cells[id].count > 0
  {
    EntrySumMember(s.lost, Ref(id), To(id));
    TargetsAreSummed(s.lost, id);
    hide Exact, Targets, Sum, EntrySum;
    NoDangling(s.cells, Outside(s.wrappers, s.lost), id);
  }

  // Everything is freed if and only if there is no wrapper object, no task, no cycle,
  // and no reference was lost. What then remains is the payloads of lost entries and
  // of serialised objects.
  lemma AllFreedIff(s: State)
    requires Sound(s)
    ensures (forall i :: 0 <= i < |s.cells| ==> s.cells[i].Freed?) <==>
      && s.wrappers == multiset{} && Targets(s.lost) == multiset{}
      && (forall i :: 0 <= i < |s.cells| ==> !s.cells[i].Task?) && Acyclic(s.cells)
    ensures (forall i :: 0 <= i < |s.cells| ==> s.cells[i].Freed?) ==>
      s.blocks == EntrySum(s.lost, Blocks) + s.objects
  {
    hide Exact, AllCounted, Acyclic, Sum, EntrySum, Targets;
    NothingLeftIff(s.cells, Outside(s.wrappers, s.lost));
    NeitherOutside(s.wrappers, Targets(s.lost));
    if forall i :: 0 <= i < |s.cells| ==> s.cells[i].Freed? {
      FreedSum(s.cells, Blocks);
    }
  }

  lemma NeitherOutside(a: multiset<nat>, b: multiset<nat>)
    ensures a + b == multiset{} <==> a == multiset{} && b == multiset{}
  {
    assert forall k: nat :: (a + b)[k] == a[k] + b[k];
    if a + b == multiset{} {
      forall k: nat
        ensures a[k] == 0 && b[k] == 0
      {
        assert (a + b)[k] == 0;
      }
    }
  }

  lemma {:induction false} FreedSum(cells: seq<Cell>, m: Measure)
    requires forall i :: 0 <= i < |cells| ==> cells[i].Freed?
    ensures Sum(cells, m) == 0
  {
    if cells != [] {
      FreedSum(cells[..|cells| - 1], m);
    }
  }

  // In an acyclic heap that has lost no reference, dropping every wrapper and finishing
  // every task frees everything, by steps of histories.
  method ReleaseAll(heap: ReferenceHeap, ghost start: State) returns (ops: seq<Op>, ghost trace: seq<State>)
    requires heap.Valid() && start == State(heap.cells, heap.wrappers, heap.blocks, heap.objects, heap.lost)
    requires Acyclic(start.cells) && Targets(start.lost) == multiset{}
    modifies heap
    ensures heap.Valid() && heap.wrappers == multiset{} && forall c :: c in heap.cells ==> c.Freed?
    ensures |trace| == |ops| + 1 && trace[0] == start && trace[|ops|].cells == heap.cells
    ensures forall i :: 0 <= i < |ops| ==> StepAt(trace, ops, i) && (ops[i].DropWrapper? || ops[i].FinishTask?)
  {
    hide ReferenceHeap.Valid, Acyclic, Outcome, StepAt;
    ghost var s := start;
    ops, trace := [], [s];
    while heap.wrappers != multiset{}
      invariant heap.Valid() && s == State(heap.cells, heap.wrappers, heap.blocks, heap.objects, heap.lost)
      invariant Acyclic(s.cells) && s.lost == start.lost
      invariant |trace| == |ops| + 1 && trace[0] == start && trace[|ops|] == s
      invariant forall i :: 0 <= i < |ops| ==> StepAt(trace, ops, i) && (ops[i].DropWrapper? || ops[i].FinishTask?)
      decreases |heap.wrappers|
    {
      var id :| id in heap.wrappers;
      ghost var before := s;
      Apply(heap, DropWrapper(id), s);
      s := State(heap.cells, heap.wrappers, heap.blocks, heap.objects, heap.lost);
      OutcomeAcyclic(before.cells, Outside(s.wrappers, s.lost), s.cells);
      OneMoreStep(trace, ops, before, DropWrapper(id), s);
      ops, trace := ops + [DropWrapper(id)], trace + [s];
    }
    var k := 0;
    while k < |heap.cells|
      invariant heap.Valid() && s == State(heap.cells, heap.wrappers, heap.blocks, heap.objects, heap.lost)
      invariant Acyclic(s.cells) && s.lost == start.lost && heap.wrappers == multiset{}
      invariant 0 <= k <= |heap.cells| && forall i :: 0 <= i < k ==> !heap.cells[i].Task?
      invariant |trace| == |ops| + 1 && trace[0] == start && trace[|ops|] == s
      invariant forall i :: 0 <= i < |ops| ==> StepAt(trace, ops, i) && (ops[i].DropWrapper? || ops[i].FinishTask?)
      decreases |heap.cells| - k
    {
      if heap.cells[k].Task? {
        ghost var before := s;
        Apply(heap, FinishTask(k), s);
        s := State(heap.cells, heap.wrappers, heap.blocks, heap.objects, heap.lost);
        FinishedAcyclic(before.cells, k, Outside(s.wrappers, s.lost), s.cells);
        OneMoreStep(trace, ops, before, FinishTask(k), s);
        ops, trace := ops + [FinishTask(k)], trace + [s];
      }
      k := k + 1;
    }
    ValidIsSound(heap, s);
    AllFreedIff(s);
  }

  lemma OneMoreStep(trace: seq<State>, ops: seq<Op>, s: State, op: Op, s': State)
    requires |trace| == |ops| + 1 && trace[|ops|] == s && Possible(s.cells, s.wrappers, op) && Next(s, op, s')
    requires forall i :: 0 <= i < |ops| ==> StepAt(trace, ops, i)
    ensures forall i :: 0 <= i < |ops| + 1 ==> StepAt(trace + [s'], ops + [op], i)
  {
    hide Possible, Next;
    forall i: nat {:trigger StepAt(trace + [s'], ops + [op], i)} | i < |ops| + 1
      ensures StepAt(trace + [s'], ops + [op], i)
    {
      if i < |ops| {
        assert StepAt(trace, ops, i);
      }
    }
  }

  // A cascade adds no references between cells, so it makes no cycle.
  lemma OutcomeAcyclic(a: seq<Cell>, outside: multiset<nat>, b: seq<Cell>)
    requires Acyclic(a) && Outcome(a, outside, b)
    ensures Acyclic(b) && |a| == |b| && forall i :: 0 <= i < |a| && !a[i].Task? ==> !b[i].Task?
  {
    forall i | 0 <= i < |a|
      ensures b[i].Freed? || (!a[i].Freed? && b[i].Entries() == a[i].Entries())
    {
      assert CellEvolves(a[i], b[i]);
    }
    FewerStepsAcyclic(a, b);
    assert forall i :: 0 <= i < |a| ==> CellEvolves(a[i], b[i]);
  }

  lemma FinishedAcyclic(a: seq<Cell>, id: nat, outside: multiset<nat>, b: seq<Cell>)
    requires Acyclic(a) && id < |a| && Outcome(a[id := Freed], outside, b)
    ensures Acyclic(b) && |a| == |b| && !b[id].Task? && forall i :: 0 <= i < |a| && !a[i].Task? ==> !b[i].Task?
  {
    FewerStepsAcyclic(a, a[id := Freed]);
    OutcomeAcyclic(a[id := Freed], outside, b);
  }

  lemma FewerStepsAcyclic(a: seq<Cell>, b: seq<Cell>)
    requires Acyclic(a) && |a| == |b|
    requires forall i :: 0 <= i < |a| ==> b[i].Freed? || (!a[i].Freed? && b[i].Entries() == a[i].Entries())
    ensures Acyclic(b)
  {
    forall p | IsPath(b, p)
      ensures !StartsOnCycle(p)
    {
      forall k | 0 < k < |p|
        ensures Step(a, p[k - 1], p[k])
      {
        assert Step(b, p[k - 1], p[k]);
      }
      assert IsPath(a, p);
    }
  }

  // addFunctionTask with the name of a function and one argument, a resource: one
  // block is left that belongs to no entry.
  method FailedTaskLeaks() returns (ok: bool, blocks: int, cells: seq<Cell>)
    ensures !ok && blocks == 1 && cells == [Freed] && Sum(cells, Blocks) == 0
  {
    var heap := new ReferenceHeap();
    var id;
    id, ok := heap.AddTask(Callable(Block, true), [Plain], 0);
    blocks, cells := heap.blocks, heap.cells;
    assert EntrySum([Block], Objects) == 0;
    assert EntrySum([Block], Blocks) == 1;
    assert heap.lost == [Block];
  }

  // A serialised object stored in a container: when the container is freed, its buffer
  // is left, while that of a string is not.
  method SerialisedObjectLeaks(e: Entry) returns (cells: seq<Cell>, blocks: int)
    requires e.Block? || e.SerialisedObject?
    ensures cells == [Freed] && blocks == if e.SerialisedObject? then 1 else 0
  {
    hide ReferenceHeap.Valid, Outcome, Acyclic, Outside;
    var heap := new ReferenceHeap();
    var id := heap.Create();
    var ok := heap.Store(id, 0, e);
    assert With(Container(1, []), 0, e).entries == [e];
    assert heap.cells == [Container(1, [e])];
    heap.DropWrapper(id);
    OneCellEvolves(e, Outside(heap.wrappers, heap.lost), heap.cells);
    OneCellFreed(heap, e);
    cells, blocks := heap.cells, heap.blocks;
  }

  // A vector and a queue; inserting the queue at index 7 of the empty vector throws,
  // and the queue's wrapper object goes. The queue is still there, with a count of 1,
  // although no wrapper, entry or cycle is.
  method FailedInsertLeaks() returns (ok: bool, cells: seq<Cell>, wrappers: multiset<nat>)
    ensures !ok && cells == [Container(1, []), Container(1, [])] && wrappers == multiset{0}
    ensures Acyclic(cells) && !Reachable(cells, wrappers, 1)
  {
    hide ReferenceHeap.Valid, Outcome, Reachable, Acyclic, Outside, Weight;
    var heap := new ReferenceHeap();
    var vector := heap.Create();
    var queue := heap.Create();
    ok := heap.Store(vector, 7, Ref(queue));
    heap.DropWrapper(queue);
    cells, wrappers := heap.cells, heap.wrappers;
    assert wrappers == multiset{0};
    OutOfReach();
  }

  lemma OneCellEvolves(e: Entry, outside: multiset<nat>, b: seq<Cell>)
    requires Outcome([Container(1, [e])], outside, b)
    ensures |b| == 1 && !b[0].Task? && (b[0].Freed? || b[0].Entries() == [e])
  {
    assert CellEvolves(Container(1, [e]), b[0]);
  }

  lemma OneCellFreed(heap: ReferenceHeap, e: Entry)
    requires heap.Valid() && |heap.cells| == 1 && !heap.cells[0].Task? && heap.wrappers == multiset{}
    requires heap.lost == [] && !e.Ref? && heap.objects == Weight(Objects, e)
    requires heap.cells[0].Freed? || heap.cells[0].Entries() == [e]
    ensures heap.cells == [Freed] && heap.blocks == Weight(Objects, e)
  {
    var s := State(heap.cells, heap.wrappers, heap.blocks, heap.objects, heap.lost);
    ValidIsSound(heap, s);
    forall p | IsPath(s.cells, p)
      ensures |p| == 1
    {
      assert |p| > 1 ==> Step(s.cells, p[0], p[1]);
    }
    hide Sound, LiveIffHeld;
    AllFreedIff(s);
  }

  lemma OutOfReach()
    ensures var cells := [Container(1, []), Container(1, [])];
      Acyclic(cells) && !Reachable(cells, multiset{0 as nat}, 1)
  {
    NoSteps([Container(1, []), Container(1, [])]);
  }

  lemma NoSteps(cells: seq<Cell>)
    requires forall i :: 0 <= i < |cells| ==> cells[i].Entries() == []
    ensures forall p :: IsPath(cells, p) ==> |p| == 1
  {
    forall p | IsPath(cells, p)
      ensures |p| == 1
    {
      assert |p| > 1 ==> Step(cells, p[0], p[1]);
    }
  }
}
