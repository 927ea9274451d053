// The cached property tables of wrapper objects (qo_get_properties,
// hto_get_properties and vo_get_properties in src/classes): a wrapper keeps the
// table it built last and the version of the contents it was built from.

module PropertyCache {
  import opened Options
  import opened Keys
  import Histories
  import Queues
  import Vectors

  // The internal object that several wrappers share.
  class Shared<C> {
    var contents: C
    var vn: nat

    constructor (contents: C)
      ensures this.contents == contents && vn == 0
    {
      this.contents, vn := contents, 0;
    }
  }

  // What a method does to the contents, and whether it bumps the version.
  datatype Effect<C> = Effect(contents: C, bumps: bool)

  class Wrapper<C, P> {
    const shared: Shared<C>
    const build: C -> P  // how a table is built from the contents
    var vn: nat
    var properties: Option<P>

    constructor (shared: Shared<C>, build: C -> P)
      ensures this.shared == shared && this.build == build && Coherent()
    {
      this.shared, this.build := shared, build;
      vn, properties := 0, None;
    }

    // A table of the current version is the table of the current contents.
    ghost predicate Coherent()
      reads this, shared
    {
      vn <= shared.vn && (UpToDate() ==> properties.value == build(shared.contents))
    }

    // The cached table is of the current version, so that it would be handed out.
    predicate UpToDate()
      reads this, shared
    {
      properties.Some? && vn == shared.vn
    }

    // Any method of any wrapper. The wrappers of the container stay coherent exactly
    // if the method bumps the version, or no table that would be handed out differs
    // from that of the new contents.
    method Call(call: C -> Effect<C>, ghost wrappers: set<Wrapper<C, P>>)
      requires forall w :: w in wrappers ==> w.shared == shared && w.Coherent()
      modifies shared
      ensures var effect := call(old(shared.contents));
        && shared.contents == effect.contents
        && shared.vn == old(shared.vn) + (if effect.bumps then 1 else 0)
        && ((forall w :: w in wrappers ==> w.Coherent()) <==>
            effect.bumps || forall w :: w in wrappers && old(w.UpToDate()) ==>
              w.properties.value == w.build(effect.contents))
    {
      var effect := call(shared.contents);
      shared.contents := effect.contents;
      if effect.bumps {
        shared.vn := shared.vn + 1;
      }
    }

    // get_properties: cached or not, it is the table of the current contents.
    method GetProperties(ghost wrappers: set<Wrapper<C, P>>) returns (table: P)
      requires this in wrappers && forall w :: w in wrappers ==> w.shared == shared && w.Coherent()
      modifies this
      ensures table == build(shared.contents)
      ensures forall w :: w in wrappers ==> w.Coherent()
    {
      if UpToDate() {
        return properties.value;
      }
      properties := Some(build(shared.contents));
      vn := shared.vn;
      return properties.value;
    }
  }

  // Histories of calls by any of the wrappers of one container, with tables asked
  // for in between. Tables are built from the contents; `effect` says what the
  // container's methods do.
  datatype Event<O> = Method(wrapper: nat, op: O) | Properties(wrapper: nat)

  function Contents<C, O>(effect: (C, O) -> Effect<C>, c: C, events: seq<Event<O>>): C
  {
    if events == [] then c
    else
      var before := Contents(effect, c, events[..|events| - 1]);
      match events[|events| - 1]
      case Method(_, op) => effect(before, op).contents
      case Properties(_) => before
  }

  function Tables<C, O, P>(effect: (C, O) -> Effect<C>, build: C -> P, c: C, events: seq<Event<O>>): seq<P>
  {
    if events == [] then []
    else
      var before := events[..|events| - 1];
      Tables(effect, build, c, before) +
      if events[|events| - 1].Properties? then [build(Contents(effect, c, before))] else []
  }

  lemma NoEvents<C, O, P>(effect: (C, O) -> Effect<C>, build: C -> P, c: C)
    ensures Contents(effect, c, []) == c && Tables(effect, build, c, []) == []
  {
  }

  lemma OneMoreEvent<C, O, P>(effect: (C, O) -> Effect<C>, build: C -> P, c: C, events: seq<Event<O>>, i: nat)
    requires i < |events|
    ensures var now := Contents(effect, c, events[..i]);
      && Contents(effect, c, events[..i + 1]) ==
         (match events[i] case Method(_, op) => effect(now, op).contents case Properties(_) => now)
      && Tables(effect, build, c, events[..i + 1]) ==
         Tables(effect, build, c, events[..i]) + if events[i].Properties? then [build(now)] else []
  {
    assert events[..i + 1][..i] == events[..i];
  }

  // Every method that changes the table of the contents bumps the version.
  ghost predicate BumpsOnChange<C(!new), O(!new), P>(effect: (C, O) -> Effect<C>, build: C -> P)
  {
    forall c, op :: !effect(c, op).bumps ==> build(effect(c, op).contents) == build(c)
  }

  // Then in every history every table is that of the contents at that moment.
  method ReplayEvents<C(!new), O(!new), P>(start: C, effect: (C, O) -> Effect<C>, build: C -> P, wrapperCount: nat,
                               events: seq<Event<O>>) returns (tables: seq<P>)
    requires BumpsOnChange(effect, build)
    requires forall i :: 0 <= i < |events| ==> events[i].wrapper < wrapperCount
    ensures tables == Tables(effect, build, start, events)
  {
    hide Contents, Tables, BumpsOnChange;
    NoEvents(effect, build, start);
    var shared := new Shared<C>(start);
    var wrappers: seq<Wrapper<C, P>> := [];
    while |wrappers| < wrapperCount
      invariant fresh(shared) && shared.contents == start && |wrappers| <= wrapperCount
      invariant forall w :: w in wrappers ==> fresh(w) && w.shared == shared && w.build == build && w.Coherent()
    {
      var w := new Wrapper<C, P>(shared, build);
      wrappers := wrappers + [w];
    }
    ghost var all := set w | w in wrappers;
    assert |wrappers| == wrapperCount;
    tables := [];
    var i: nat := 0;
    while i < |events|
      invariant i <= |events| && shared.contents == Contents(effect, start, events[..i])
      invariant tables == Tables(effect, build, start, events[..i])
      invariant fresh(shared)
      invariant forall w :: w in all ==> fresh(w) && w.shared == shared && w.build == build && w.Coherent()
    {
      OneMoreEvent(effect, build, start, events, i);
      var w := wrappers[events[i].wrapper];
      assert w in wrappers;
      match events[i] {
        case Method(_, op) =>
          Unbumped(effect, build, shared.contents, op);
          w.Call(c => effect(c, op), all);
        case Properties(_) =>
          var table := w.GetProperties(all);
          tables := tables + [table];
      }
      i := i + 1;
    }
    assert events[..i] == events;
  }

  lemma Unbumped<C(!new), O(!new), P>(effect: (C, O) -> Effect<C>, build: C -> P, c: C, op: O)
    requires BumpsOnChange(effect, build)
    ensures !effect(c, op).bumps ==> build(effect(c, op).contents) == build(c)
  {
  }

  // Vector: when its methods do not throw, and resize only when it does not return
  // at once.
  predicate VectorBumps<V>(m: Vectors.Model<V>, op: Vectors.Op<V>)
  {
    match op
    case Push(_) => true
    case Unshift(_) => true
    case Pop => m.items != []
    case Shift => m.items != []
    case InsertAt(_, i) => 0 <= i <= |m.items|
    case UpdateAt(_, i) => 0 <= i < |m.items|
    case DeleteAt(i) => 0 <= i < |m.items|
    case FetchAt(_) => false
    case Resize(n, _) => n != m.capacity
  }

  function VectorEffect<V>(m: Vectors.Model<V>, op: Vectors.Op<V>): Effect<Vectors.Model<V>>
  {
    Effect(Vectors.Next(m, op), VectorBumps(m, op))
  }

  // A call that only reads, or finds nothing to do, bumps nothing; any other does,
  // whether or not the vector looks different afterwards.
  lemma VectorBumpsWhen<V>(m: Vectors.Model<V>, op: Vectors.Op<V>)
    ensures var bumps, grown := VectorEffect(m, op).bumps, |Vectors.Next(m, op).items| - |m.items|;
      match op
      case Push(_) => bumps
      case Unshift(_) => bumps
      case Pop => bumps <==> Vectors.Returned(m, op).entry.Some?
      case Shift => bumps <==> Vectors.Returned(m, op).entry.Some?
      case InsertAt(_, _) => bumps <==> grown == 1
      case UpdateAt(_, i) => bumps <==> Vectors.Returned(m, Vectors.FetchAt(i)).entry.Some?
      case DeleteAt(_) => bumps <==> grown == -1
      case FetchAt(_) => !bumps
      case Resize(n, _) => bumps <==> n != m.capacity
  {
  }

  lemma VectorBumpsOnChange<V(!new), P>(build: Vectors.Model<V> -> P)
    ensures BumpsOnChange(VectorEffect<V>, build)
  {
  }

  // Queue: a push of a value that can be converted, and a pop that finds one.
  datatype QueueOp<V> = Push(v: V, convertible: bool) | Pop | Front

  function QueueEffect<V>(s: seq<V>, op: QueueOp<V>): Effect<seq<V>>
  {
    match op
    case Push(v, convertible) => if convertible then Effect(s + [v], true) else Effect(s, false)
    case Pop => if s == [] then Effect(s, false) else Effect(s[1..], true)
    case Front => Effect(s, false)
  }

  // What the methods of Queue do to a queue.
  method QueueStep<V>(queue: Queues.Queue<V>, op: QueueOp<V>) returns (entry: Option<V>)
    requires queue.Valid()
    modifies queue, queue.nodes
    ensures queue.Valid() && queue.contents == QueueEffect(old(queue.contents), op).contents
    ensures entry.Some? <==> !op.Push? && old(queue.contents) != []
    ensures entry.Some? ==> entry.value == old(queue.contents)[0]
    ensures QueueEffect(old(queue.contents), op).bumps <==> (op.Push? && op.convertible) || (op.Pop? && entry.Some?)
  {
    entry := None;
    match op
    case Push(v, convertible) =>
      if convertible {
        queue.Push(v);
      }
    case Pop => entry := queue.Pop();
    case Front => entry := queue.Front();
  }

  lemma QueueBumpsOnChange<V(!new), P>(build: seq<V> -> P)
    ensures BumpsOnChange(QueueEffect<V>, build)
  {
  }

  // HashTable: every write and unset with an offset of a valid type, whether or not
  // the key is stored; not one with any other offset or an inconvertible value.
  datatype Table<V> = Table(bindings: map<Ident, V>, hashOf: string -> int)

  datatype TableOp<V> = Access(op: Histories.Op<V>) | Refused

  function TableEffect<V>(t: Table<V>, op: TableOp<V>): Effect<Table<V>>
  {
    match op
    case Access(access) => Effect(t.(bindings := Histories.NextMap(t.bindings, access, t.hashOf)), !access.Read?)
    case Refused => Effect(t, false)
  }

  lemma TableBumpsWhen<V>(t: Table<V>, op: TableOp<V>)
    ensures TableEffect(t, op).bumps <==> op.Access? && (op.op.Write? || op.op.Unset?)
  {
  }

  lemma TableBumpsOnChange<V(!new), P>(build: Table<V> -> P)
    ensures BumpsOnChange(TableEffect<V>, build)
  {
  }

  // So all three containers answer with current tables, whatever a table shows of
  // the contents.
  method VectorTables<V(!new), P>(start: Vectors.Model<V>, build: Vectors.Model<V> -> P, wrapperCount: nat,
                                  events: seq<Event<Vectors.Op<V>>>) returns (tables: seq<P>)
    requires forall i :: 0 <= i < |events| ==> events[i].wrapper < wrapperCount
    ensures tables == Tables(VectorEffect<V>, build, start, events)
  {
    VectorBumpsOnChange(build);
    tables := ReplayEvents(start, VectorEffect<V>, build, wrapperCount, events);
  }

  method QueueTables<V(!new), P>(start: seq<V>, build: seq<V> -> P, wrapperCount: nat,
                                 events: seq<Event<QueueOp<V>>>) returns (tables: seq<P>)
    requires forall i :: 0 <= i < |events| ==> events[i].wrapper < wrapperCount
    ensures tables == Tables(QueueEffect<V>, build, start, events)
  {
    QueueBumpsOnChange(build);
    tables := ReplayEvents(start, QueueEffect<V>, build, wrapperCount, events);
  }

  method HashTableTables<V(!new), P>(start: Table<V>, build: Table<V> -> P, wrapperCount: nat,
                                     events: seq<Event<TableOp<V>>>) returns (tables: seq<P>)
    requires forall i :: 0 <= i < |events| ==> events[i].wrapper < wrapperCount
    ensures tables == Tables(TableEffect<V>, build, start, events)
  {
    TableBumpsOnChange(build);
    tables := ReplayEvents(start, TableEffect<V>, build, wrapperCount, events);
  }
}
