// Whole histories of array access on a fresh HashTable object, against a finite
// map (src/classes/hashtable.c:87-172, 216-239).

module Histories {
  import opened Options
  import opened Bits
  import opened Keys
  import opened Buckets
  import opened Probing
  import opened RobinHood
  import opened HashTables

  datatype Op<V> = Write(k: Key, v: V) | Unset(k: Key) | Read(k: Key)

  // What one operation does to the map, what it reads, and what it does to the
  // table: only writing an absent key inserts.
  function NextMap<V>(m: map<Ident, V>, op: Op<V>, hashOf: string -> int): map<Ident, V>
  {
    match op
    case Write(k, v) => m[Id(k, hashOf) := v]
    case Unset(k) => m - {Id(k, hashOf)}
    case Read(_) => m
  }

  function ReadBy<V>(m: map<Ident, V>, op: Op<V>, hashOf: string -> int): seq<Option<V>>
  {
    if op.Read? then [Lookup(m, Id(op.k, hashOf))] else []
  }

  predicate Inserts<V>(m: map<Ident, V>, op: Op<V>, hashOf: string -> int)
  {
    op.Write? && Id(op.k, hashOf) !in m
  }

  function NextExtent<V>(extent: Extent, m: map<Ident, V>, op: Op<V>, hashOf: string -> int): Extent
  {
    if Inserts(m, op, hashOf) then extent.Inserting()
    else if op.Unset? && Id(op.k, hashOf) in m then extent.Deleting()
    else extent
  }

  // What it makes of the buckets, and whether they are then in displacement order
  // without tombstones: unsetting a stored key ends that, and growing restores it.
  function NextTable<V>(bs: seq<Bucket<V>>, extent: Extent, m: map<Ident, V>, op: Op<V>, hashOf: string -> int)
    : (r: seq<Bucket<V>>)
    requires |bs| > 0
    ensures |r| > 0
  {
    match op
    case Write(k, v) => WriteIn(bs, extent.used, Id(k, hashOf) in m, Pointer(k), Hash(k, hashOf), v)
    case Unset(k) => UnsetIn(bs, Pointer(k), Hash(k, hashOf))
    case Read(_) => bs
  }

  predicate NextTidy<V>(tidy: bool, extent: Extent, m: map<Ident, V>, op: Op<V>, hashOf: string -> int)
  {
    if op.Unset? && Id(op.k, hashOf) in m then false
    else tidy || NextExtent(extent, m, op, hashOf).size != extent.size
  }

  // The map after a history on a fresh table of two buckets, what its reads
  // return, the table's extent and buckets, and the insertions.
  function Final<V>(ops: seq<Op<V>>, hashOf: string -> int): map<Ident, V>
  {
    if ops == [] then map[] else NextMap(Final(ops[..|ops| - 1], hashOf), ops[|ops| - 1], hashOf)
  }

  function Reads<V>(ops: seq<Op<V>>, hashOf: string -> int): seq<Option<V>>
  {
    if ops == [] then []
    else Reads(ops[..|ops| - 1], hashOf) + ReadBy(Final(ops[..|ops| - 1], hashOf), ops[|ops| - 1], hashOf)
  }

  function Extents<V>(ops: seq<Op<V>>, hashOf: string -> int): Extent
  {
    if ops == [] then Extent(2, 0, 0)
    else
      var before := ops[..|ops| - 1];
      NextExtent(Extents(before, hashOf), Final(before, hashOf), ops[|ops| - 1], hashOf)
  }

  function TableAfter<V>(ops: seq<Op<V>>, hashOf: string -> int): (r: seq<Bucket<V>>)
    ensures |r| > 0
  {
    if ops == [] then Vacant(2)
    else
      var before := ops[..|ops| - 1];
      NextTable(TableAfter(before, hashOf), Extents(before, hashOf), Final(before, hashOf), ops[|ops| - 1], hashOf)
  }

  predicate Tidy<V>(ops: seq<Op<V>>, hashOf: string -> int)
  {
    ops == [] ||
    var before := ops[..|ops| - 1];
    NextTidy(Tidy(before, hashOf), Extents(before, hashOf), Final(before, hashOf), ops[|ops| - 1], hashOf)
  }

  function Insertions<V>(ops: seq<Op<V>>, hashOf: string -> int): nat
  {
    if ops == [] then 0
    else
      var before := ops[..|ops| - 1];
      Insertions(before, hashOf) + if Inserts(Final(before, hashOf), ops[|ops| - 1], hashOf) then 1 else 0
  }

  lemma OneMore<V>(ops: seq<Op<V>>, i: nat, hashOf: string -> int)
    requires i < |ops|
    ensures var m, extent := Final(ops[..i], hashOf), Extents(ops[..i], hashOf);
      && Final(ops[..i + 1], hashOf) == NextMap(m, ops[i], hashOf)
      && Reads(ops[..i + 1], hashOf) == Reads(ops[..i], hashOf) + ReadBy(m, ops[i], hashOf)
      && Extents(ops[..i + 1], hashOf) == NextExtent(extent, m, ops[i], hashOf)
      && TableAfter(ops[..i + 1], hashOf) == NextTable(TableAfter(ops[..i], hashOf), extent, m, ops[i], hashOf)
      && (Tidy(ops[..i + 1], hashOf) <==> NextTidy(Tidy(ops[..i], hashOf), extent, m, ops[i], hashOf))
  {
    assert ops[..i + 1][..i] == ops[..i];
    hide NextMap, ReadBy, NextExtent, NextTable, NextTidy;
  }

  lemma Beginning<V>(hashOf: string -> int)
    ensures Final<V>([], hashOf) == map[] && Reads<V>([], hashOf) == []
    ensures Extents<V>([], hashOf) == Extent(2, 0, 0) && TableAfter<V>([], hashOf) == Vacant(2) && Tidy<V>([], hashOf)
  {
  }

  // The one kind of step the table gets wrong: overwriting integer key 1 while a
  // tombstone lies between its home bucket and its entry.
  ghost predicate Faulty<V>(bs: seq<Bucket<V>>, op: Op<V>, hashOf: string -> int)
  {
    op.Write? && op.k == Int(1) && Obstructed(bs, Id(op.k, hashOf))
  }

  ghost predicate FaultsAt<V>(ops: seq<Op<V>>, i: nat, hashOf: string -> int)
    requires i < |ops|
  {
    Faulty(TableAfter(ops[..i], hashOf), ops[i], hashOf)
  }

  // The buckets after a history stand for the map, tidily if the history is tidy.
  ghost predicate Fits<V>(ops: seq<Op<V>>, hashOf: string -> int)
  {
    Stands(TableAfter(ops, hashOf), Final(ops, hashOf), Tidy(ops, hashOf))
  }

  ghost predicate Stands<V>(bs: seq<Bucket<V>>, m: map<Ident, V>, tidy: bool)
  {
    WellFormed(bs) && Represents(bs, m) && (tidy ==> Pristine(bs))
  }

  // One operation on a table is one step of map, buckets and extent, unless it is
  // the faulty one.
  method Apply<V>(ht: HashTable<V>, op: Op<V>, ghost m: map<Ident, V>, ghost extent: Extent, ghost tidy: bool)
    returns (answers: seq<Option<V>>, ok: bool)
    requires ht.Valid() && ht.contents == m && Extent(ht.size, ht.used, ht.moved) == extent && |ht.buckets| > 0
    requires tidy ==> Pristine(ht.buckets)
    modifies ht, ht.values
    ensures ht.Valid() && (ht.values == old(ht.values) || fresh(ht.values)) && |ht.buckets| > 0
    ensures ok <==> !Faulty(old(ht.buckets), op, ht.hashOf)
    ensures ok ==> ht.contents == NextMap(m, op, ht.hashOf) && answers == ReadBy(m, op, ht.hashOf)
    ensures ok ==> Extent(ht.size, ht.used, ht.moved) == NextExtent(extent, m, op, ht.hashOf)
    ensures ok ==> ht.buckets == NextTable(old(ht.buckets), extent, m, op, ht.hashOf)
    ensures !ok ==> ht.contents == m && Extent(ht.size, ht.used, ht.moved) == extent
    ensures ok && NextTidy(tidy, extent, m, op, ht.hashOf) ==> Pristine(ht.buckets)
  {
    hide HashTable.Valid, Pristine, Obstructed, Id, IdentOf, Extent.Inserting, WriteIn, UnsetIn;
    answers, ok := [], true;
    match op {
      case Write(k, v) =>
        var outcome := ht.Write(k, v);
        ok := outcome == Updated;
      case Unset(k) =>
        ht.Delete(k);
      case Read(k) =>
        var r := ht.Search(k);
        answers := [r];
    }
  }

  lemma ValidStands<V>(ht: HashTable<V>, tidy: bool)
    requires ht.Valid() && (tidy ==> Pristine(ht.buckets))
    ensures Stands(ht.buckets, ht.contents, tidy)
  {
  }

  // A fresh table replays any history as the finite map does, read by read, as far
  // as its first faulty step; and it gets there bucket by bucket as the functions
  // above say.
  method Replay<V>(ops: seq<Op<V>>, hashOf: string -> int)
    returns (answers: seq<Option<V>>, done: nat, table: map<Key, V>, size: nat, used: nat, ghost moved: nat)
    ensures done <= |ops|
    ensures answers == Reads(ops[..done], hashOf)
    ensures Exports(table, Final(ops[..done], hashOf), hashOf)
    ensures Extent(size, used, moved) == Extents(ops[..done], hashOf)
    ensures forall i :: 0 <= i < done ==> !FaultsAt(ops, i, hashOf)
    ensures done < |ops| ==> FaultsAt(ops, done, hashOf)
    ensures forall i :: 0 <= i <= done ==> Fits(ops[..i], hashOf)
  {
    hide HashTable.Valid, Exports, Final, Reads, Extents, TableAfter, Tidy, NextMap, ReadBy, NextExtent, NextTable,
         NextTidy, Faulty, Stands, Pristine, Vacant;
    Beginning<V>(hashOf);
    var ht := new HashTable<V>(2, hashOf);
    ValidStands(ht, true);
    answers, done := [], 0;
    while done < |ops|
      invariant done <= |ops| && fresh(ht) && fresh(ht.values) && ht.Valid() && ht.hashOf == hashOf
      invariant ht.contents == Final(ops[..done], hashOf) && ht.buckets == TableAfter(ops[..done], hashOf)
      invariant answers == Reads(ops[..done], hashOf)
      invariant Extent(ht.size, ht.used, ht.moved) == Extents(ops[..done], hashOf)
      invariant Tidy(ops[..done], hashOf) ==> Pristine(ht.buckets)
      invariant forall i :: 0 <= i < done ==> !FaultsAt(ops, i, hashOf)
      invariant forall i :: 0 <= i <= done ==> Fits(ops[..i], hashOf)
    {
      OneMore(ops, done, hashOf);
      ghost var before := ops[..done];
      var r, ok := Apply(ht, ops[done], Final(before, hashOf), Extents(before, hashOf), Tidy(before, hashOf));
      if !ok {
        break;
      }
      answers := answers + r;
      done := done + 1;
      ValidStands(ht, Tidy(ops[..done], hashOf));
    }
    table := ht.Export();
    size, used, moved := ht.size, ht.used, ht.moved;
  }

  // A faulty step overwrites a stored key, some time after a stored key has been
  // unset in a table that has not grown since.
  lemma FaultNeedsUnset<V>(ops: seq<Op<V>>, i: nat, hashOf: string -> int) returns (u: nat)
    requires i < |ops| && Fits(ops[..i], hashOf) && FaultsAt(ops, i, hashOf)
    ensures Id(Int(1), hashOf) in Final(ops[..i], hashOf)
    ensures u < i && ops[u].Unset? && Id(ops[u].k, hashOf) in Final(ops[..u], hashOf)
    ensures Extents(ops[..u], hashOf).size == Extents(ops[..i], hashOf).size
  {
    Obstruction(TableAfter(ops[..i], hashOf), Final(ops[..i], hashOf), Id(Int(1), hashOf));
    hide TableAfter, Final, Id, Obstructed, Pristine, Extents, WellFormed, Represents;
    u := LastUnset(ops[..i], hashOf);
    assert ops[..i][..u] == ops[..u];
  }

  lemma {:induction false} LastUnset<V>(ops: seq<Op<V>>, hashOf: string -> int) returns (u: nat)
    requires !Tidy(ops, hashOf)
    ensures u < |ops| && ops[u].Unset? && Id(ops[u].k, hashOf) in Final(ops[..u], hashOf)
    ensures Extents(ops[..u], hashOf).size == Extents(ops, hashOf).size
  {
    hide Id, IdentOf;
    u := |ops| - 1;
    var before := ops[..u];
    if !(ops[u].Unset? && Id(ops[u].k, hashOf) in Final(before, hashOf)) {
      u := LastUnset(before, hashOf);
      assert before[..u] == ops[..u];
    }
  }

  // As long as a history is tidy, a search could stop at the first bucket that is
  // nearer to its home than the probe has come.
  lemma TidyEarlyExit<V>(ops: seq<Op<V>>, k: Key, hashOf: string -> int)
    requires Fits(ops, hashOf) && Tidy(ops, hashOf)
    ensures var bs, key, hash := TableAfter(ops, hashOf), Pointer(k), Hash(k, hashOf);
      FindEarly(bs, key, hash, Home(hash, |bs|), 0, |bs|) == FindFrom(bs, key, hash, Home(hash, |bs|), |bs|)
  {
    hide TableAfter, Final;
    EarlyExitAgrees(TableAfter(ops, hashOf), Final(ops, hashOf), Pointer(k), Hash(k, hashOf));
  }

  // The resizes of a table reinsert at most twice as many entries as have been
  // inserted, whatever is unset in between.
  lemma {:induction false} GrowthIsPaid<V>(ops: seq<Op<V>>, hashOf: string -> int)
    ensures Extents(ops, hashOf).moved <= 2 * Insertions(ops, hashOf)
  {
    GrowthAccount(ops, hashOf);
  }

  lemma {:induction false} GrowthAccount<V>(ops: seq<Op<V>>, hashOf: string -> int)
    ensures Paid(Extents(ops, hashOf), Insertions(ops, hashOf))
  {
    if ops == [] {
      PaidFresh();
    } else {
      var before := ops[..|ops| - 1];
      GrowthAccount(before, hashOf);
      PaidInsertion(Extents(before, hashOf), Insertions(before, hashOf));
      PaidDeletion(Extents(before, hashOf), Insertions(before, hashOf));
      hide Paid, Id, Extent.Inserting, Extent.Deleting;
    }
  }

  // What the doublings that led to an extent have moved, and who paid for it.
  predicate Paid(extent: Extent, inserts: nat)
  {
    && IsPowerOfTwo(extent.size) && extent.size >= 2
    && extent.used <= Threshold(extent.size) && extent.used <= inserts
    && extent.moved <= Threshold(extent.size) && (extent.size == 2 ==> extent.moved <= 1)
    && extent.moved <= 2 * inserts
  }

  lemma PaidFresh()
    ensures Paid(Extent(2, 0, 0), 0)
  {
  }

  lemma PaidInsertion(extent: Extent, inserts: nat)
    requires Paid(extent, inserts)
    ensures Paid(extent.Inserting(), inserts + 1)
  {
    ThresholdDoubles(extent.size);
    hide IsPowerOfTwo;
  }

  lemma PaidDeletion(extent: Extent, inserts: nat)
    requires Paid(extent, inserts)
    ensures Paid(extent.Deleting(), inserts)
  {
  }

  // At most three quarters of the buckets are ever in use, and all of them in a table
  // of two; and inserting doubles the table exactly if that many are in use before.
  lemma LoadFactor<V>(ops: seq<Op<V>>, op: Op<V>, hashOf: string -> int)
    ensures var e := Extents(ops, hashOf);
      if e.size >= 4 then 4 * e.used <= 3 * e.size else e.used <= e.size
    ensures var e, e' := Extents(ops, hashOf), Extents(ops + [op], hashOf);
      if Inserts(Final(ops, hashOf), op, hashOf) && (if e.size >= 4 then 4 * e.used == 3 * e.size else e.used == e.size)
      then e'.size == 2 * e.size
      else e'.size == e.size
  {
    var e, more := Extents(ops, hashOf), ops + [op];
    assert more[..|ops|] == ops && more[..|ops| + 1] == more;
    OneMore(more, |ops|, hashOf);
    GrowthAccount(ops, hashOf);
    ThresholdIs(e.size);
    LoadLaw(e.size, e.used, e.Inserting().size, e.Inserting().used);
    hide Final, Extents, TableAfter, Reads, Tidy, Id, IsPowerOfTwo, Threshold;
  }

  // The buckets in use are the bindings.
  lemma {:induction false} UsedIsSize<V>(ops: seq<Op<V>>, hashOf: string -> int)
    ensures Extents(ops, hashOf).used == |Final(ops, hashOf)|
  {
    hide Id, IdentOf;
    if ops != [] {
      var before, op := ops[..|ops| - 1], ops[|ops| - 1];
      UsedIsSize(before, hashOf);
      var m, m' := Final(before, hashOf), Final(ops, hashOf);
      assert op.Unset? ==> m'.Keys == m.Keys - {Id(op.k, hashOf)};
      assert op.Write? ==> m'.Keys == m.Keys + {Id(op.k, hashOf)};
    }
  }

  // Histories over keys without NUL characters, against a map over the keys
  // themselves: the hash function never shows.
  function PlainFinal<V>(ops: seq<Op<V>>): map<Key, V>
  {
    if ops == [] then map[]
    else
      var m := PlainFinal(ops[..|ops| - 1]);
      match ops[|ops| - 1]
      case Write(k, v) => m[k := v]
      case Unset(k) => m - {k}
      case Read(_) => m
  }

  function PlainReads<V>(ops: seq<Op<V>>): seq<Option<V>>
  {
    if ops == [] then []
    else
      var before := ops[..|ops| - 1];
      match ops[|ops| - 1]
      case Read(k) =>
        var m := PlainFinal(before);
        PlainReads(before) + [if k in m then Some(m[k]) else None]
      case _ => PlainReads(before)
  }

  predicate PlainOps<V>(ops: seq<Op<V>>)
  {
    forall i :: 0 <= i < |ops| ==> PlainKey(ops[i].k)
  }

  ghost predicate Mirrors<V>(m: map<Key, V>, m': map<Ident, V>, hashOf: string -> int)
  {
    && (forall k :: k in m ==> PlainKey(k))
    && (forall k :: PlainKey(k) ==> (k in m <==> Id(k, hashOf) in m'))
    && (forall k :: k in m ==> Id(k, hashOf) in m' && m[k] == m'[Id(k, hashOf)])
  }

  lemma {:induction false} PlainHistories<V>(ops: seq<Op<V>>, hashOf: string -> int)
    requires PlainOps(ops)
    ensures Reads(ops, hashOf) == PlainReads(ops)
    ensures Mirrors(PlainFinal(ops), Final(ops, hashOf), hashOf)
  {
    hide IdentOf, Id;
    if ops != [] {
      var n := |ops| - 1;
      PlainHistories(ops[..n], hashOf);
      MirrorStep(PlainFinal(ops[..n]), Final(ops[..n], hashOf), ops[n], hashOf);
    }
  }

  lemma MirrorStep<V>(m: map<Key, V>, m': map<Ident, V>, op: Op<V>, hashOf: string -> int)
    requires Mirrors(m, m', hashOf) && PlainKey(op.k)
    ensures op.Write? ==> Mirrors(m[op.k := op.v], m'[Id(op.k, hashOf) := op.v], hashOf)
    ensures op.Unset? ==> Mirrors(m - {op.k}, m' - {Id(op.k, hashOf)}, hashOf)
  {
    hide IdentOf, Id;
    forall k | PlainKey(k)
      ensures Id(k, hashOf) == Id(op.k, hashOf) <==> k == op.k
    {
      PlainKeysAreDistinct(k, op.k, hashOf);
    }
  }

  // The faulty step does occur. Writing keys 3 and 1 to a fresh table, unsetting 3
  // and overwriting 1: keys 3 and 1 share home bucket 1, the tombstone of 3 lies
  // before the entry of 1, and update_direct stops there, while search finds 1.
  method IntegerKeyOneFaults<V>(a: V, b: V, c: V, hashOf: string -> int)
    returns (answers: seq<Option<V>>, done: nat)
    ensures done == 4 && answers == [Some(b)]
  {
    var ops := KeyOneHistory(a, b, c);
    KeyOneLast(a, b, c, hashOf);
    KeyOneReads(a, b, c, hashOf);
    hide Reads, FaultsAt, Fits, Final, Extents, Exports;
    var table, size, used;
    ghost var moved;
    answers, done, table, size, used, moved := Replay(ops, hashOf);
    if done < 4 {
      KeyOneEarly(a, b, c, done, hashOf);
    }
  }

  function KeyOneHistory<V>(a: V, b: V, c: V): (r: seq<Op<V>>)
    ensures |r| == 5
  {
    [Write(Int(3), a), Write(Int(1), b), Unset(Int(3)), Read(Int(1)), Write(Int(1), c)]
  }

  // The run, one prefix after another: what the map holds and what is read, and the
  // buckets.
  lemma KeyOneHeld<V>(a: V, b: V, c: V, hashOf: string -> int)
    ensures var ops := KeyOneHistory(a, b, c);
      && IntId(1) !in Final(ops[..1], hashOf)
      && Lookup(Final(ops[..2], hashOf), IntId(1)) == Lookup(Final(ops[..3], hashOf), IntId(1)) == Some(b)
  {
    var ops := KeyOneHistory(a, b, c);
    assert ops[..3][..2] == ops[..2] && ops[..2][..1] == ops[..1] && ops[..1][..0] == [];
    assert Id(ops[0].k, hashOf) == IntId(3) == Id(ops[2].k, hashOf) && Id(ops[1].k, hashOf) == IntId(1);
    hide Id, IdentOf;
  }

  lemma KeyOneReads<V>(a: V, b: V, c: V, hashOf: string -> int)
    ensures Reads(KeyOneHistory(a, b, c)[..4], hashOf) == [Some(b)]
  {
    var ops := KeyOneHistory(a, b, c);
    KeyOneHeld(a, b, c, hashOf);
    assert ops[..4][..3] == ops[..3] && ops[..3][..2] == ops[..2] && ops[..2][..1] == ops[..1];
    assert ops[..0] == [] && ops[..1][..0] == ops[..0];
    assert Reads(ops[..0], hashOf) == Reads(ops[..1], hashOf) == [];
    assert Reads(ops[..2], hashOf) == Reads(ops[..3], hashOf) == [];
    assert Id(ops[3].k, hashOf) == IntId(1);
    hide Id, IdentOf, Final;
  }

  lemma KeyOneUsed<V>(a: V, b: V, c: V, hashOf: string -> int)
    ensures Extents(KeyOneHistory(a, b, c)[..1], hashOf).used == 1
  {
    var ops := KeyOneHistory(a, b, c);
    assert ops[..1][..0] == [];
    hide Id, IdentOf;
  }

  lemma KeyOneFirst<V>(a: V, b: V, c: V, hashOf: string -> int)
    ensures TableAfter(KeyOneHistory(a, b, c)[..1], hashOf) == [VacantBucket(), Bucket(None, Some(a), 3, 0)]
  {
    var ops := KeyOneHistory(a, b, c);
    assert ops[..1][..0] == [];
    WriteThree(a);
    hide Id, IdentOf, WriteIn, Vacant, Threshold;
  }

  lemma KeyOneSecond<V>(a: V, b: V, c: V, hashOf: string -> int)
    ensures TableAfter(KeyOneHistory(a, b, c)[..2], hashOf) ==
      [Bucket(None, Some(b), 1, 1), Bucket(None, Some(a), 3, 0)]
  {
    var ops := KeyOneHistory(a, b, c);
    assert Id(ops[1].k, hashOf) == IntId(1);
    hide TableAfter, Final, Extents, Reads, Tidy, NextTidy, NextMap, ReadBy, NextExtent, WriteIn, Id, IdentOf,
         Obstructed;
    WriteOne(a, b);
    KeyOneFirst(a, b, c, hashOf);
    KeyOneHeld(a, b, c, hashOf);
    KeyOneUsed(a, b, c, hashOf);
    OneMore(ops, 1, hashOf);
  }

  lemma KeyOneThird<V>(a: V, b: V, c: V, hashOf: string -> int)
    ensures Obstructed(TableAfter(KeyOneHistory(a, b, c)[..3], hashOf), IntId(1))
  {
    var ops := KeyOneHistory(a, b, c);
    assert ops[..3][..2] == ops[..2];
    UnsetThree(a, b);
    KeyOneSecond(a, b, c, hashOf);
    hide Id, IdentOf, UnsetIn, Obstructed, Final, Extents;
  }

  lemma KeyOneLast<V>(a: V, b: V, c: V, hashOf: string -> int)
    ensures FaultsAt(KeyOneHistory(a, b, c), 4, hashOf)
  {
    var ops := KeyOneHistory(a, b, c);
    assert Id(ops[4].k, hashOf) == IntId(1);
    assert ops[..4][..3] == ops[..3];
    KeyOneThird(a, b, c, hashOf);
    hide Id, IdentOf, Obstructed, Final, Extents;
  }

  lemma KeyOneEarly<V>(a: V, b: V, c: V, i: nat, hashOf: string -> int)
    requires i < 4
    ensures !FaultsAt(KeyOneHistory(a, b, c), i, hashOf)
  {
    var ops := KeyOneHistory(a, b, c);
    assert Id(ops[1].k, hashOf) == IntId(1);
    hide TableAfter, Final, Extents, Reads, WriteIn, Obstructed, Id, IdentOf;
    KeyOneFirst(a, b, c, hashOf);
    WriteOne(a, b);
  }

  lemma WriteThree<V>(a: V)
    ensures WriteIn(Vacant(2), 0, false, None, 3, a) == [VacantBucket(), Bucket(None, Some(a), 3, 0)]
    ensures Threshold(2) == 2
  {
    assert Vacant<V>(2) == [VacantBucket(), VacantBucket()];
    assert Home(3, 2) == 1;
  }

  lemma WriteOne<V>(a: V, b: V)
    ensures var one, three := Bucket(None, Some(b), 1, 0), Bucket(None, Some(a), 3, 0);
      && !Obstructed([VacantBucket(), three], IntId(1))
      && WriteIn([VacantBucket(), three], 1, false, None, 1, b) == [Aged(one), three]
  {
    assert Home(1, 2) == 1;
  }

  lemma UnsetThree<V>(a: V, b: V)
    ensures var one, three := Bucket(None, Some(b), 1, 1), Bucket(None, Some(a), 3, 0);
      Obstructed(UnsetIn([one, three], None, 3), IntId(1))
  {
    var one, three := Bucket(None, Some(b), 1, 1), Bucket(None, Some(a), 3, 0);
    assert Home(3, 2) == 1;
    var last := UnsetIn([one, three], None, 3);
    assert last == [one, TombstoneBucket()];
    assert last[0].hash == 1 && last[0].variance == 1;
    assert last[Walk(Home(last[0].hash, |last|), 0, |last|)].Tombstone();
    assert TombstoneBefore(last, 0, 0);
  }
}
