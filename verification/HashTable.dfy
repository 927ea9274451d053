// The hash table of src/ds/pht_hashtable.c, updated in place, and the array
// access of src/classes/hashtable.c on top of it.

module HashTables {
  import opened Options
  import opened Bits
  import opened Keys
  import opened Buckets
  import opened Probing
  import opened RobinHood

  // How update_direct ends. It compares keys without testing for a value, so it
  // can stop at a tombstone and hand NULL to the destructor.
  datatype UpdateOutcome = Updated | DestructorGotNull

  // Resizing happens when this many buckets are live: size - (size >> 2).
  function Threshold(size: nat): (t: nat)
    ensures t <= size && (size > 0 ==> t > 0)
  {
    size - size / 4
  }

  // The buckets of a table, those in use, and the entries that its resizes have
  // reinserted.
  datatype Extent = Extent(size: nat, used: nat, moved: nat)
  {
    // insert resizes a table that has reached the threshold.
    function Inserting(): Extent
    {
      if used == Threshold(size) then Extent(2 * size, used + 1, moved + used) else this.(used := used + 1)
    }

    function Deleting(): Extent
    {
      this.(used := if used > 0 then used - 1 else 0)
    }
  }

  lemma QuarterOfPower(size: nat)
    requires IsPowerOfTwo(size) && size > 2
    ensures size == 4 * (size / 4)
  {
    assert size % 2 == 0 && IsPowerOfTwo(size / 2);
    assert (size / 2) % 2 == 0;
    hide IsPowerOfTwo;
    TwiceEven(size);
  }

  lemma TwiceEven(n: nat)
    requires n % 2 == 0 && (n / 2) % 2 == 0
    ensures n == 4 * (n / 4)
  {
  }

  // Three quarters of the buckets, and all of them in a table of one or two.
  lemma ThresholdIs(size: nat)
    requires IsPowerOfTwo(size)
    ensures if size >= 4 then 4 * Threshold(size) == 3 * size else Threshold(size) == size
  {
    if size > 2 {
      QuarterOfPower(size);
      hide IsPowerOfTwo;
    }
  }

  // A table that is three quarters full grows before it takes another entry, one of
  // one or two buckets when it is full, and no other does.
  predicate GrownAtThreeQuarters(size: nat, used: nat, size': nat, used': nat)
  {
    && size' == (if (if size >= 4 then 4 * used == 3 * size else used == size) then 2 * size else size)
    && used' == used + 1 && (if size' >= 4 then 4 * used' <= 3 * size' else used' <= size')
  }

  lemma LoadLaw(size: nat, used: nat, size': nat, used': nat)
    requires IsPowerOfTwo(size) && used <= Threshold(size)
    requires size' == (if used == Threshold(size) then 2 * size else size) && used' == used + 1
    ensures GrownAtThreeQuarters(size, used, size', used')
  {
    ThresholdDoubles(size);
    ThresholdIs(size);
    ThresholdIs(2 * size);
    LoadArithmetic(size, used, Threshold(size), Threshold(2 * size));
    hide IsPowerOfTwo, Threshold, GrownAtThreeQuarters;
  }

  lemma LoadArithmetic(size: nat, used: nat, t: nat, t': nat)
    requires if size >= 4 then 4 * t == 3 * size else t == size
    requires if 2 * size >= 4 then 4 * t' == 3 * (2 * size) else t' == 2 * size
    requires used <= t < t'
    ensures GrownAtThreeQuarters(size, used, if used == t then 2 * size else size, used + 1)
  {
  }

  lemma ThresholdDoubles(size: nat)
    requires IsPowerOfTwo(size)
    ensures IsPowerOfTwo(2 * size) && Threshold(size) < Threshold(2 * size)
    ensures size > 2 ==> Threshold(2 * size) == 2 * Threshold(size)
  {
    assert IsPowerOfTwo((2 * size) / 2);
    if size > 2 {
      QuarterOfPower(size);
      hide IsPowerOfTwo;
    }
  }

  function Lookup<V>(m: map<Ident, V>, id: Ident): Option<V>
  {
    if id in m then Some(m[id]) else None
  }

  // What holds until something is deleted, and again after a resize.
  ghost predicate Pristine<V>(bs: seq<Bucket<V>>)
  {
    NoTombstones(bs) && Ordered(bs)
  }

  // A tombstone lies between the home bucket of a stored key and its entry.
  ghost predicate Obstructed<V>(bs: seq<Bucket<V>>, id: Ident)
  {
    exists s :: 0 <= s < |bs| && bs[s].Live() && bs[s].Id() == id && TombstoneBefore(bs, s, 0)
  }

  // An obstructed key is stored, and a deletion has happened.
  lemma Obstruction<V>(bs: seq<Bucket<V>>, m: map<Ident, V>, id: Ident)
    requires Represents(bs, m)
    ensures Obstructed(bs, id) ==> id in m && !Pristine(bs)
  {
  }

  // What the operations make of the buckets --------------------------------------

  function Vacant<V>(size: nat): (r: seq<Bucket<V>>)
    ensures |r| == size
  {
    seq(size, _ => VacantBucket())
  }

  function Placed<V>(bs: seq<Bucket<V>>, key: Option<string>, hash: int, v: V): (r: seq<Bucket<V>>)
    requires |bs| > 0
    ensures |r| == |bs|
  {
    InsertFrom(bs, Home(hash, |bs|), Bucket(key, Some(v), hash, 0), |bs|)
  }

  // The live buckets of olds inserted into bs from left to right.
  function Reinserted<V>(olds: seq<Bucket<V>>, bs: seq<Bucket<V>>): (r: seq<Bucket<V>>)
    requires |bs| > 0
    ensures |r| == |bs|
  {
    if olds == [] then bs
    else
      var before, b := Reinserted(olds[..|olds| - 1], bs), olds[|olds| - 1];
      if b.Live() then Placed(before, b.key, b.hash, b.value.value) else before
  }

  function WithRoom<V>(bs: seq<Bucket<V>>, used: nat): (r: seq<Bucket<V>>)
    requires |bs| > 0
    ensures |r| > 0
  {
    if used == Threshold(|bs|) then Reinserted(bs, Vacant(2 * |bs|)) else bs
  }

  // Writing to a key that is stored or not, and unsetting one.
  function WriteIn<V>(bs: seq<Bucket<V>>, used: nat, isStored: bool, key: Option<string>, hash: int, v: V)
    : (r: seq<Bucket<V>>)
    requires |bs| > 0
    ensures |r| > 0
  {
    if !isStored then Placed(WithRoom(bs, used), key, hash, v)
    else
      match UpdateSlotFrom(bs, key, hash, Home(hash, |bs|), |bs|)
      case Some(i) => if bs[i].Live() then bs[i := bs[i].(value := Some(v))] else bs
      case None => bs
  }

  function UnsetIn<V>(bs: seq<Bucket<V>>, key: Option<string>, hash: int): (r: seq<Bucket<V>>)
    requires |bs| > 0
    ensures |r| == |bs|
  {
    match FindFrom(bs, key, hash, Home(hash, |bs|), |bs|)
    case Some(i) => bs[i := TombstoneBucket()]
    case None => bs
  }

  lemma NothingReinserted<V>(bs: seq<Bucket<V>>)
    requires |bs| > 0
    ensures Reinserted([], bs) == bs
  {
  }

  lemma ReinsertedOne<V>(olds: seq<Bucket<V>>, i: nat, bs: seq<Bucket<V>>)
    requires i < |olds| && |bs| > 0
    ensures Reinserted(olds[..i + 1], bs) ==
      if olds[i].Live() then Placed(Reinserted(olds[..i], bs), olds[i].key, olds[i].hash, olds[i].value.value)
      else Reinserted(olds[..i], bs)
  {
    assert olds[..i + 1][..i] == olds[..i];
  }

  class HashTable<V> {
    var values: array<Bucket<V>>
    var size: nat
    var used: nat
    const hashOf: string -> int  // zend_hash_func, uninterpreted

    ghost var buckets: seq<Bucket<V>>  // what the array holds
    ghost var contents: map<Ident, V>  // the map the table stands for
    ghost var stored: multiset<V>      // every value ever handed to the table
    ghost var released: multiset<V>    // every value handed to the destructor
    ghost var moved: nat               // entries reinserted by resizing so far

    // What insert_direct relies on and restores.
    ghost predicate Sound()
      reads this, values
    {
      && values.Length == size > 0
      && buckets == values[..]
      && WellFormed(buckets)
      && Hashed(buckets, hashOf)
      && Represents(buckets, contents)
      && used == |contents|
    }

    ghost predicate Valid()
      reads this, values
    {
      && Sound()
      && IsPowerOfTwo(size)
      && used <= Threshold(size)
      && stored == MapValues(contents) + released
    }

    constructor (size: nat, hashOf: string -> int)
      requires IsPowerOfTwo(size)
      ensures Valid() && fresh(values) && this.size == size && this.hashOf == hashOf
      ensures contents == map[] && stored == multiset{} && released == multiset{} && used == moved == 0
      ensures Pristine(buckets) && buckets == Vacant(size)
    {
      values := new Bucket<V>[size](_ => VacantBucket());
      this.size, used := size, 0;
      this.hashOf := hashOf;
      contents, stored, released := map[], multiset{}, multiset{};
      moved := 0;
      new;
      buckets := values[..];
      AllVacant(buckets, hashOf);
      hide Vacant, Pristine, WellFormed, Represents, Hashed;
    }

    // insert_direct: probe from the home bucket, exchanging the carried entry
    // with any entry closer to its own home, until a bucket without a value.
    method InsertDirect(key: Option<string>, hash: int, value: V)
      requires Sound() && used < size
      requires IdentOf(key, hash) !in contents
      requires HashedEntry(Bucket(key, Some(value), hash, 0), hashOf)
      modifies values, `buckets, `used, `contents
      ensures Sound() && used == old(used) + 1
      ensures contents == old(contents)[IdentOf(key, hash) := value]
      ensures buckets == Placed(old(buckets), key, hash, value)
      ensures OnlyPoorerTake(old(buckets), buckets)
      ensures TakesFirst(old(buckets), buckets, Home(hash, size), Bucket(key, Some(value), hash, 0))
      ensures Pristine(old(buckets)) ==> Pristine(buckets)
    {
      hide WellFormed, Represents, Hashed, HashedEntry, NoTombstones, Ordered, Home, OnlyPoorerTake, TakesFirst,
           StaysOrMoves;
      ghost var before, entry := buckets, Bucket(key, Some(value), hash, 0);
      InsertIsSound(before, contents, entry, hashOf);
      InsertTakesFirst(before, contents, entry);

      var index: nat := Home(hash, size);
      var carried := Bucket(key, Some(value), hash, 0);
      var i: nat := 0;
      while i < size
        invariant i <= size == values.Length && index < size && carried.Live()
        invariant used == old(used) && contents == old(contents)
        invariant InsertFrom(values[..], index, carried, size - i) == InsertFrom(before, Home(hash, size), entry, size)
      {
        var b := values[index];
        if !b.Live() {
          values[index] := carried;
          break;
        }
        if carried.variance > b.variance {
          values[index], carried := carried, b;
        }
        carried := carried.(variance := carried.variance + 1);
        index := index + 1;
        if index == size {
          index := 0;
        }
        i := i + 1;
      }
      buckets := values[..];
      assert buckets == InsertFrom(before, Home(hash, size), entry, size);
      used := used + 1;
      contents := contents[IdentOf(key, hash) := value];
    }

    // repopulate: insert the live entries of the old array from left to right.
    method Repopulate(oldValues: array<Bucket<V>>, ghost m: map<Ident, V>)
      requires Sound() && contents == map[] && Pristine(buckets)
      requires oldValues != values && oldValues.Length < size
      requires WellFormed(oldValues[..]) && Hashed(oldValues[..], hashOf) && Represents(oldValues[..], m)
      modifies values, `buckets, `used, `contents
      ensures Sound() && Pristine(buckets) && contents == m
      ensures buckets == Reinserted(oldValues[..], old(buckets))
    {
      ghost var olds := oldValues[..];
      assert Unique(olds);
      hide WellFormed, Hashed, Pristine, Represents, Unique, Reinserted;
      NothingYet(olds);
      NothingReinserted(buckets);
      assert olds[..0] == [];
      var i: nat := 0;
      while i < oldValues.Length
        invariant i <= oldValues.Length && oldValues[..] == olds && used <= i
        invariant Sound() && Pristine(buckets) && Represents(olds[..i], contents)
        invariant buckets == Reinserted(olds[..i], old(buckets))
      {
        var b := oldValues[i];
        Reinsert(b, olds, i, old(buckets));
        i := i + 1;
      }
      assert olds[..i] == olds;
      RepresentsOneMap(olds, contents, m);
    }

    // One step of repopulate.
    method Reinsert(b: Bucket<V>, ghost olds: seq<Bucket<V>>, ghost i: nat, ghost start: seq<Bucket<V>>)
      requires Sound() && Pristine(buckets) && used <= i < |olds| < size && b == olds[i] && |start| > 0
      requires Unique(olds) && Hashed(olds, hashOf)
      requires Represents(olds[..i], contents) && buckets == Reinserted(olds[..i], start)
      modifies values, `buckets, `used, `contents
      ensures Sound() && Pristine(buckets) && used <= i + 1
      ensures Represents(olds[..i + 1], contents) && buckets == Reinserted(olds[..i + 1], start)
    {
      hide WellFormed, Hashed, Pristine, Represents, Unique, Reinserted, Placed;
      ReinsertedOne(olds, i, start);
      PrefixRepresents(olds, i, contents);
      if b.Live() {
        HashedAt(olds, i, hashOf);
        InsertDirect(b.key, b.hash, b.value.value);
      }
    }

    // resize: the doubled table stands for the same map, without tombstones.
    method Resize()
      requires Valid() && used == Threshold(size)
      modifies this
      ensures Valid() && Pristine(buckets) && fresh(values) && size == 2 * old(size) && used < Threshold(size)
      ensures contents == old(contents) && used == old(used)
      ensures stored == old(stored) && released == old(released)
      ensures moved == old(moved) + old(used) && buckets == Reinserted(old(buckets), Vacant(2 * old(size)))
    {
      hide WellFormed, Hashed, NoTombstones, Ordered, Represents, MapValues, IsPowerOfTwo, Threshold, Reinserted;
      ThresholdDoubles(size);
      ghost var m := contents;
      var oldValues := values;
      values := new Bucket<V>[2 * size](_ => VacantBucket());
      size, used, contents := 2 * size, 0, map[];
      buckets := values[..];
      AllVacant(buckets, hashOf);
      assert oldValues[..] == old(buckets);
      Repopulate(oldValues, m);
      moved := moved + used;
    }

    // insert and insert_ind, for a key that is not stored.
    method Insert(k: Key, value: V)
      requires Valid() && Id(k, hashOf) !in contents
      modifies this, values
      ensures Valid() && (values == old(values) || fresh(values))
      ensures contents == old(contents)[Id(k, hashOf) := value]
      ensures stored == old(stored) + multiset{value} && released == old(released)
      ensures Extent(size, used, moved) == old(Extent(size, used, moved)).Inserting()
      ensures GrownAtThreeQuarters(old(size), old(used), size, used)
      ensures buckets == WriteIn(old(buckets), old(used), false, Pointer(k), Hash(k, hashOf), value)
      ensures Pristine(old(buckets)) || size != old(size) ==> Pristine(buckets)
    {
      hide WellFormed, Hashed, Pristine, Represents, MapValues, IsPowerOfTwo, IdentOf, Placed, Reinserted,
           OnlyPoorerTake, TakesFirst, GrownAtThreeQuarters;
      KeyIsHashed(k, value, hashOf);
      if used == Threshold(size) {
        Resize();
      }
      BindValue(contents, Id(k, hashOf), value);
      InsertDirect(Pointer(k), Hash(k, hashOf), value);
      stored := stored + multiset{value};
      LoadLaw(old(size), old(used), size, used);
    }

    // search and search_ind: NULL exactly for the keys that are not stored.
    method Search(k: Key) returns (r: Option<V>)
      requires Valid()
      ensures r == Lookup(contents, Id(k, hashOf))
      ensures Obstructed(buckets, Id(k, hashOf)) ==> r.Some?
    {
      hide WellFormed, Hashed, Represents, SameKey, Home, IdentOf, Obstructed;
      Obstruction(buckets, contents, Id(k, hashOf));
      var key, hash := Pointer(k), Hash(k, hashOf);
      FindIsLookup(buckets, contents, key, hash);
      ghost var stop := FindFrom(buckets, key, hash, Home(hash, size), size);
      var index: nat := Home(hash, size);
      var i: nat := 0;
      while i < size
        invariant i <= size && index < size
        invariant FindFrom(buckets, key, hash, index, size - i) == stop
      {
        var b := values[index];
        if b.Live() {
          if SameKey(b.key, b.hash, key, hash) {
            return b.value;
          }
        } else if b.hash == 0 {
          return None;
        }
        index := index + 1;
        if index == size {
          index := 0;
        }
        i := i + 1;
      }
      return None;
    }

    // update and update_ind, for a key that is stored. The destructor is handed
    // NULL exactly for integer key 1 with a tombstone between its home bucket
    // and its entry; nothing has been written then.
    method Update(k: Key, value: V) returns (outcome: UpdateOutcome)
      requires Valid() && Id(k, hashOf) in contents
      modifies values, `buckets, `contents, `stored, `released
      ensures outcome == DestructorGotNull <==> k == Int(1) && Obstructed(old(buckets), Id(k, hashOf))
      ensures outcome == DestructorGotNull ==> !Pristine(old(buckets))
      ensures Valid()
      ensures outcome == Updated ==>
        && contents == old(contents)[Id(k, hashOf) := value]
        && stored == old(stored) + multiset{value}
        && released == old(released) + multiset{old(contents)[Id(k, hashOf)]}
      ensures outcome != Updated ==>
        contents == old(contents) && buckets == old(buckets) && stored == old(stored) && released == old(released)
      ensures buckets == WriteIn(old(buckets), used, true, Pointer(k), Hash(k, hashOf), value)
      ensures Pristine(old(buckets)) ==> Pristine(buckets)
    {
      hide WellFormed, Hashed, Represents, SameKey, Home, IdentOf, MapValues, IsPowerOfTwo, Threshold,
           Obstructed, Pristine;
      Obstruction(buckets, contents, Id(k, hashOf));
      var key, hash := Pointer(k), Hash(k, hashOf);
      UpdateOfKey(buckets, contents, k, hashOf);
      ghost var stop := UpdateSlotFrom(buckets, key, hash, Home(hash, size), size);
      var index: nat := Home(hash, size);
      var i: nat := 0;
      while i < size
        invariant i <= size && index < size
        invariant UpdateSlotFrom(buckets, key, hash, index, size - i) == stop
      {
        var b := values[index];
        if SameKey(b.key, b.hash, key, hash) {
          if b.value == None {
            return DestructorGotNull;
          }
          Revalue(index, value);
          return Updated;
        }
        index := index + 1;
        if index == size {
          index := 0;
        }
        i := i + 1;
      }
      assert false;
    }

    // What update_direct does with the entry it has found.
    method Revalue(index: nat, value: V)
      requires Valid() && index < size && values[index].Live()
      modifies values, `buckets, `contents, `stored, `released
      ensures var b := old(values[index]);
        && b.Id() in old(contents) && old(contents)[b.Id()] == b.value.value
        && contents == old(contents)[b.Id() := value]
        && stored == old(stored) + multiset{value} && released == old(released) + multiset{b.value.value}
      ensures buckets == old(buckets)[index := old(buckets)[index].(value := Some(value))]
      ensures Valid() && (Pristine(old(buckets)) ==> Pristine(buckets))
    {
      hide WellFormed, Represents, Hashed, Home, IdentOf, MapValues, IsPowerOfTwo, Threshold, Pristine;
      var b := values[index];
      ghost var id := b.Id();
      RevalueIsSound(buckets, contents, index, value, hashOf);
      RebindValue(contents, id, value);
      Replaced(stored, MapValues(contents), MapValues(contents[id := value]), released, b.value.value, value);
      values[index] := b.(value := Some(value));
      buckets, contents := values[..], contents[id := value];
      stored, released := stored + multiset{value}, released + multiset{b.value.value};
    }

    // What delete_direct does with the entry it has found.
    method BuryEntry(index: nat)
      requires Valid() && index < size && values[index].Live()
      modifies values, `buckets, `used, `contents, `released
      ensures var b := old(values[index]);
        && b.Id() in old(contents) && old(contents)[b.Id()] == b.value.value
        && contents == old(contents) - {b.Id()} && released == old(released) + multiset{b.value.value}
      ensures Valid() && used == old(used) - 1 && buckets == old(buckets)[index := TombstoneBucket()]
    {
      hide WellFormed, Represents, Hashed, Home, IdentOf, MapValues, IsPowerOfTwo, Threshold;
      BuryIsSound(buckets, contents, index, hashOf, stored, released);
      var b := values[index];
      values[index] := TombstoneBucket();
      buckets := values[..];
      used, contents, released := used - 1, contents - {b.Id()}, released + multiset{b.value.value};
    }

    // delete and delete_ind: a stored key goes, and its value is released.
    method Delete(k: Key)
      requires Valid()
      modifies values, `buckets, `used, `contents, `released
      ensures Valid() && contents == old(contents) - {Id(k, hashOf)}
      ensures Id(k, hashOf) in old(contents) ==>
        used == old(used) - 1 && released == old(released) + multiset{old(contents)[Id(k, hashOf)]}
      ensures Id(k, hashOf) !in old(contents) ==> used == old(used) && released == old(released)
      ensures buckets == UnsetIn(old(buckets), Pointer(k), Hash(k, hashOf))
      ensures Id(k, hashOf) !in old(contents) ==> buckets == old(buckets)
    {
      hide WellFormed, Hashed, Represents, SameKey, Home, IdentOf, MapValues, IsPowerOfTwo, Threshold;
      var key, hash := Pointer(k), Hash(k, hashOf);
      FindIsLookup(buckets, contents, key, hash);
      ghost var stop := FindFrom(buckets, key, hash, Home(hash, size), size);
      var index: nat := Home(hash, size);
      var i: nat := 0;
      while i < size
        invariant i <= size && index < size
        invariant FindFrom(buckets, key, hash, index, size - i) == stop
      {
        var b := values[index];
        if b.Live() {
          if SameKey(b.key, b.hash, key, hash) {
            BuryEntry(index);
            return;
          }
        } else if b.hash == 0 {
          break;
        }
        index := index + 1;
        if index == size {
          index := 0;
        }
        i := i + 1;
      }
      NotBound(contents, Id(k, hashOf));
    }

    // destroy: the destructor gets every stored value, so that in the end each
    // value ever stored has been released exactly once.
    method Destroy()
      requires Valid()
      modifies `contents, `released
      ensures released == stored && contents == map[]
    {
      hide WellFormed, Hashed, Represents, MapValues, LiveCount, LiveValues, IsPowerOfTwo, Threshold;
      Stored(values[..], contents);
      NothingYet(values[..]);
      var i: nat := 0;
      while i < size
        invariant i <= size && contents == old(contents)
        invariant released == old(released) + LiveValues(values[..i])
      {
        PrefixCounts(values[..], i);
        assert values[..][..i] == values[..i] && values[..][..i + 1] == values[..i + 1];
        var b := values[i];
        if b.Live() {
          released := released + multiset{b.value.value};
        }
        i := i + 1;
      }
      assert values[..i] == values[..];
      contents := map[];
    }

    // to_zend_hashtable: the entries with the keys they were stored under.
    method Export() returns (r: map<Key, V>)
      requires Valid()
      ensures Exports(r, contents, hashOf)
    {
      hide WellFormed, Hashed, Represents, Unique, IdentOf;
      ghost var bs := buckets;
      WholeTable(bs);
      NothingYet(bs);
      r := map[];
      ghost var m := map[];
      var i: nat := 0;
      while i < size
        invariant i <= size && Represents(bs[..i], m) && Exports(r, m, hashOf)
      {
        PrefixRepresents(bs, i, m);
        var b := values[i];
        if b.Live() {
          var k := if b.key.Some? then Str(b.key.value) else Int(b.hash);
          BucketKeyId(bs, i, k, hashOf);
          ExportOne(r, m, k, b.value.value, hashOf);
          if k !in r {
            r := r[k := b.value.value];
          }
          m := m[b.Id() := b.value.value];
        }
        i := i + 1;
      }
      assert bs[..i] == bs;
      RepresentsOneMap(bs, contents, m);
    }

    // Array access on a HashTable object (src/classes/hashtable.c). Writing
    // searches first and then overwrites or inserts.
    method Write(k: Key, value: V) returns (outcome: UpdateOutcome)
      requires Valid()
      modifies this, values
      ensures Valid() && (values == old(values) || fresh(values))
      ensures outcome == DestructorGotNull <==> k == Int(1) && Obstructed(old(buckets), Id(k, hashOf))
      ensures outcome == DestructorGotNull ==> Id(k, hashOf) in old(contents) && !Pristine(old(buckets))
      ensures contents == if outcome == Updated then old(contents)[Id(k, hashOf) := value] else old(contents)
      ensures stored == if outcome == Updated then old(stored) + multiset{value} else old(stored)
      ensures var extent := old(Extent(size, used, moved));
        Extent(size, used, moved) == if Id(k, hashOf) in old(contents) then extent else extent.Inserting()
      ensures Id(k, hashOf) in old(contents) ==> size == old(size)
      ensures Id(k, hashOf) !in old(contents) ==>
        GrownAtThreeQuarters(old(size), old(used), size, used)
      ensures buckets ==
        WriteIn(old(buckets), old(used), Id(k, hashOf) in old(contents), Pointer(k), Hash(k, hashOf), value)
      ensures Pristine(old(buckets)) || size != old(size) ==> Pristine(buckets)
    {
      hide Valid, Pristine, Obstructed, Id, IdentOf, Extent.Inserting, WriteIn, GrownAtThreeQuarters;
      var found := Search(k);
      if found.Some? {
        outcome := Update(k, value);
      } else {
        Insert(k, value);
        outcome := Updated;
      }
    }
  }

  lemma Stored<V>(bs: seq<Bucket<V>>, m: map<Ident, V>)
    requires WellFormed(bs) && Represents(bs, m)
    ensures LiveValues(bs) == MapValues(m)
  {
    hide IdentOf, MapValues;
    LiveIsStored(bs, m);
  }

  lemma WholeTable<V>(bs: seq<Bucket<V>>)
    requires WellFormed(bs)
    ensures Unique(bs)
  {
  }

  // An exported table has one key for each entry, with the entry's value.
  ghost predicate Exports<V>(r: map<Key, V>, m: map<Ident, V>, hashOf: string -> int)
  {
    && (forall k :: k in r ==> Id(k, hashOf) in m && m[Id(k, hashOf)] == r[k])
    && (forall id :: id in m ==> exists k :: k in r && Id(k, hashOf) == id)
    && (forall k1, k2 :: k1 in r && k2 in r && Id(k1, hashOf) == Id(k2, hashOf) ==> k1 == k2)
  }

  lemma BucketKeyId<V>(bs: seq<Bucket<V>>, i: nat, k: Key, hashOf: string -> int)
    requires i < |bs| && bs[i].Live() && Hashed(bs, hashOf)
    requires k == if bs[i].key.Some? then Str(bs[i].key.value) else Int(bs[i].hash)
    ensures Id(k, hashOf) == bs[i].Id()
  {
  }

  lemma ExportOne<V>(r: map<Key, V>, m: map<Ident, V>, k: Key, v: V, hashOf: string -> int)
    requires Exports(r, m, hashOf) && Id(k, hashOf) !in m
    ensures k !in r && Exports(r[k := v], m[Id(k, hashOf) := v], hashOf)
  {
  }

  lemma KeyIsHashed<V>(k: Key, value: V, hashOf: string -> int)
    ensures HashedEntry(Bucket(Pointer(k), Some(value), Hash(k, hashOf), 0), hashOf)
  {
  }

  lemma StoredSlot<V>(bs: seq<Bucket<V>>, m: map<Ident, V>, id: Ident) returns (s: nat)
    requires WellFormed(bs) && Represents(bs, m) && id in m
    ensures s < |bs| && bs[s].Live() && bs[s].Id() == id && bs[s].value.value == m[id]
    ensures forall t :: 0 <= t < |bs| && bs[t].Live() && bs[t].Id() == id ==> t == s
  {
    s :| 0 <= s < |bs| && bs[s].Live() && bs[s].Id() == id;
  }

  lemma UpdateOfKey<V>(bs: seq<Bucket<V>>, m: map<Ident, V>, k: Key, hashOf: string -> int)
    requires WellFormed(bs) && Represents(bs, m) && Id(k, hashOf) in m
    ensures var hash := Hash(k, hashOf);
      var r := UpdateSlotFrom(bs, Pointer(k), hash, Home(hash, |bs|), |bs|);
      r.Some? &&
      if k == Int(1) && Obstructed(bs, Id(k, hashOf)) then !bs[r.value].Live()
      else bs[r.value].Live() && bs[r.value].Id() == Id(k, hashOf) && bs[r.value].value.value == m[Id(k, hashOf)]
  {
    var s := StoredSlot(bs, m, Id(k, hashOf));
    hide WellFormed, Represents, Home, Visible;
    UpdateStops(bs, Pointer(k), s);
    if k == Int(1) && Obstructed(bs, Id(k, hashOf)) {
      assert TombstoneBefore(bs, s, 0);
    }
  }

  lemma RevalueIsSound<V>(bs: seq<Bucket<V>>, m: map<Ident, V>, i: nat, v: V, hashOf: string -> int)
    requires i < |bs| && WellFormed(bs) && Hashed(bs, hashOf) && Represents(bs, m) && bs[i].Live()
    ensures var bs', m' := bs[i := bs[i].(value := Some(v))], m[bs[i].Id() := v];
      WellFormed(bs') && Hashed(bs', hashOf) && Represents(bs', m') && |m'| == |m|
      && bs[i].Id() in m && m[bs[i].Id()] == bs[i].value.value
      && (Pristine(bs) ==> Pristine(bs'))
  {
    hide WellFormed, Represents, Pristine, IdentOf;
    Buckets.Revalue(bs, m, i, v);
    if Pristine(bs) {
      RevaluePristine(bs, i, v);
    }
    RevalueKeys(bs, m, i, v);
  }

  lemma RevaluePristine<V>(bs: seq<Bucket<V>>, i: nat, v: V)
    requires i < |bs| && bs[i].Live() && Pristine(bs)
    ensures Pristine(bs[i := bs[i].(value := Some(v))])
  {
  }

  lemma RevalueKeys<V>(bs: seq<Bucket<V>>, m: map<Ident, V>, i: nat, v: V)
    requires i < |bs| && Represents(bs, m) && bs[i].Live()
    ensures |m[bs[i].Id() := v]| == |m| && bs[i].Id() in m && m[bs[i].Id()] == bs[i].value.value
  {
    hide IdentOf;
    assert m[bs[i].Id() := v].Keys == m.Keys;
  }

  lemma BuryIsSound<V>(bs: seq<Bucket<V>>, m: map<Ident, V>, i: nat, hashOf: string -> int,
                       stored: multiset<V>, released: multiset<V>)
    requires i < |bs| && WellFormed(bs) && Hashed(bs, hashOf) && Represents(bs, m) && bs[i].Live()
    requires stored == MapValues(m) + released
    ensures bs[i].Id() in m && m[bs[i].Id()] == bs[i].value.value
    ensures var bs', m' := bs[i := TombstoneBucket()], m - {bs[i].Id()};
      && WellFormed(bs') && Hashed(bs', hashOf) && Represents(bs', m') && |m'| == |m| - 1
      && stored == MapValues(m') + (released + multiset{bs[i].value.value})
  {
    var m' := m - {bs[i].Id()};
    assert bs[i].Id() in m && m[bs[i].Id()] == bs[i].value.value;
    hide WellFormed, IdentOf, MapValues;
    Bury(bs, m, i);
    UnbindValue(m, bs[i].Id());
    Removed(stored, MapValues(m), MapValues(m'), released, bs[i].value.value);
  }

  lemma NotBound<K, V>(m: map<K, V>, k: K)
    requires k !in m
    ensures m - {k} == m
  {
  }

  lemma HashedAt<V>(bs: seq<Bucket<V>>, i: nat, hashOf: string -> int)
    requires i < |bs| && Hashed(bs, hashOf) && bs[i].Live()
    ensures HashedEntry(Bucket(bs[i].key, bs[i].value, bs[i].hash, 0), hashOf)
  {
  }

  lemma AllVacant<V>(bs: seq<Bucket<V>>, hashOf: string -> int)
    requires |bs| > 0 && forall i :: 0 <= i < |bs| ==> bs[i] == VacantBucket()
    ensures WellFormed(bs) && Hashed(bs, hashOf) && Represents(bs, map[]) && Pristine(bs)
    ensures bs == Vacant(|bs|)
  {
  }
}
