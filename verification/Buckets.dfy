// The bucket array of src/ds/pht_hashtable.c as a sequence: what a well-formed
// array is, which finite map it represents, and what seating, displacing and
// burying one entry does to both.

module Buckets {
  import opened Options
  import opened Bits
  import opened Keys

  // `value` is a pointer in the source: None is NULL. A bucket without a value
  // is vacant if its hash is 0 and a tombstone otherwise.
  datatype Bucket<V> = Bucket(key: Option<string>, value: Option<V>, hash: int, variance: int)
  {
    predicate Live() { value.Some? }

    predicate Vacant() { value.None? && hash == 0 }

    predicate Tombstone() { value.None? && hash != 0 }

    function Id(): Ident { IdentOf(key, hash) }
  }

  // A bucket as calloc leaves it, and a bucket as delete leaves it.
  function VacantBucket<V>(): Bucket<V> { Bucket(None, None, 0, 0) }

  function TombstoneBucket<V>(): Bucket<V> { Bucket(None, None, 1, 0) }

  // Cyclic positions ---------------------------------------------------------

  // The slot reached after d probes; d == size is back at the start.
  function Walk(from: nat, d: nat, size: nat): (slot: nat)
    requires from < size && d <= size
    ensures slot < size
  {
    if from + d < size then from + d else from + d - size
  }

  function Dist(from: nat, to: nat, size: nat): (d: nat)
    requires from < size && to < size
    ensures d < size && Walk(from, d, size) == to
  {
    if from <= to then to - from else to - from + size
  }

  // Well-formedness ----------------------------------------------------------

  // The recorded variance is the true cyclic distance from the home bucket.
  ghost predicate Seated<V>(bs: seq<Bucket<V>>)
  {
    forall i :: 0 <= i < |bs| && bs[i].Live() ==>
      bs[i].variance == Dist(Home(bs[i].hash, |bs|), i, |bs|)
  }

  // No vacant bucket lies on the path from a live entry's home to its slot.
  ghost predicate Connected<V>(bs: seq<Bucket<V>>)
  {
    forall i, j :: 0 <= i < |bs| && 0 <= j < |bs| && bs[i].Live() ==>
      Dist(Home(bs[i].hash, |bs|), j, |bs|) < bs[i].variance ==> !bs[j].Vacant()
  }

  ghost predicate Unique<V>(bs: seq<Bucket<V>>)
  {
    forall i, j :: 0 <= i < |bs| && 0 <= j < |bs| && bs[i].Live() && bs[j].Live() && bs[i].Id() == bs[j].Id() ==> i == j
  }

  ghost predicate Clean<V>(bs: seq<Bucket<V>>)
  {
    forall i :: 0 <= i < |bs| && !bs[i].Live() ==> bs[i] == VacantBucket() || bs[i] == TombstoneBucket()
  }

  ghost predicate WellFormed<V>(bs: seq<Bucket<V>>)
  {
    |bs| > 0 && Seated(bs) && Connected(bs) && Unique(bs) && Clean(bs)
  }

  ghost predicate NoTombstones<V>(bs: seq<Bucket<V>>)
  {
    forall i :: 0 <= i < |bs| ==> !bs[i].Tombstone()
  }

  // The finite map held by the live buckets.
  ghost predicate Represents<V>(bs: seq<Bucket<V>>, m: map<Ident, V>)
  {
    && (forall i :: 0 <= i < |bs| && bs[i].Live() ==> bs[i].Id() in m && m[bs[i].Id()] == bs[i].value.value)
    && (forall id :: id in m ==> exists i :: 0 <= i < |bs| && bs[i].Live() && bs[i].Id() == id)
  }

  // How many buckets are live, and the values they hold.
  ghost function LiveCount<V>(bs: seq<Bucket<V>>): (n: nat)
    ensures n <= |bs|
    ensures n == |bs| <==> forall i :: 0 <= i < |bs| ==> bs[i].Live()
  {
    if bs == [] then 0
    else
      var rest := bs[..|bs| - 1];
      assert forall i :: 0 <= i < |rest| ==> rest[i] == bs[i];
      LiveCount(rest) + if bs[|bs| - 1].Live() then 1 else 0
  }

  ghost function LiveValues<V>(bs: seq<Bucket<V>>): multiset<V>
  {
    if bs == [] then multiset{}
    else LiveValues(bs[..|bs| - 1]) + if bs[|bs| - 1].Live() then multiset{bs[|bs| - 1].value.value} else multiset{}
  }

  predicate Misses<V>(b: Bucket<V>, id: Ident)
  {
    !(b.Live() && b.Id() == id)
  }

  // Two maps represented by one array are equal: the representation is a function.
  lemma RepresentsOneMap<V>(bs: seq<Bucket<V>>, m1: map<Ident, V>, m2: map<Ident, V>)
    requires Represents(bs, m1) && Represents(bs, m2)
    ensures m1 == m2
  {
  }

  // Changing one bucket ------------------------------------------------------

  // Entry c may take slot i: its variance is its distance from home and no
  // vacant bucket lies on the way.
  ghost predicate CanSit<V>(bs: seq<Bucket<V>>, i: nat, c: Bucket<V>)
    requires i < |bs|
  {
    && c.Live()
    && c.variance == Dist(Home(c.hash, |bs|), i, |bs|)
    && forall j :: 0 <= j < |bs| && Dist(Home(c.hash, |bs|), j, |bs|) < c.variance ==> !bs[j].Vacant()
  }

  // The map without the entry of slot i, if there is one.
  ghost function Without<V>(bs: seq<Bucket<V>>, m: map<Ident, V>, i: nat): map<Ident, V>
    requires i < |bs|
  {
    if bs[i].Live() then m - {bs[i].Id()} else m
  }

  lemma SeatRepresents<V>(bs: seq<Bucket<V>>, m: map<Ident, V>, i: nat, c: Bucket<V>)
    requires i < |bs| && Unique(bs) && Represents(bs, m) && (c.Live() ==> c.Id() !in m)
    ensures var m' := Without(bs, m, i);
      Represents(bs[i := c], if c.Live() then m'[c.Id() := c.value.value] else m')
    ensures Unique(bs[i := c])
  {
    hide IdentOf;
    var bs' := bs[i := c];
    var m' := Without(bs, m, i);
    forall id | id in m'
      ensures exists k :: 0 <= k < |bs'| && bs'[k].Live() && bs'[k].Id() == id
    {
      var k :| 0 <= k < |bs| && bs[k].Live() && bs[k].Id() == id;
      assert bs'[k] == bs[k];
    }
    assert c.Live() ==> bs'[i].Live();
  }

  // Seating c in slot i replaces exactly the entry of slot i by c.
  lemma Seat<V>(bs: seq<Bucket<V>>, m: map<Ident, V>, i: nat, c: Bucket<V>)
    requires i < |bs| && WellFormed(bs) && Represents(bs, m)
    requires CanSit(bs, i, c) && c.Id() !in m
    ensures WellFormed(bs[i := c])
    ensures Represents(bs[i := c], Without(bs, m, i)[c.Id() := c.value.value])
  {
    hide Home, IdentOf;
    SeatRepresents(bs, m, i, c);
  }

  // Burying the entry of slot i under a tombstone removes exactly that entry.
  lemma Bury<V>(bs: seq<Bucket<V>>, m: map<Ident, V>, i: nat)
    requires i < |bs| && WellFormed(bs) && Represents(bs, m) && bs[i].Live()
    ensures WellFormed(bs[i := TombstoneBucket()])
    ensures Represents(bs[i := TombstoneBucket()], m - {bs[i].Id()})
  {
    hide Home, IdentOf;
    SeatRepresents(bs, m, i, TombstoneBucket());
  }

  // Overwriting the value of the entry in slot i.
  lemma Revalue<V>(bs: seq<Bucket<V>>, m: map<Ident, V>, i: nat, v: V)
    requires i < |bs| && WellFormed(bs) && Represents(bs, m) && bs[i].Live()
    ensures var bs' := bs[i := bs[i].(value := Some(v))];
      WellFormed(bs') && Represents(bs', m[bs[i].Id() := v])
  {
    RevalueShape(bs, i, v);
    RevalueRepresents(bs, m, i, v);
  }

  lemma RevalueRepresents<V>(bs: seq<Bucket<V>>, m: map<Ident, V>, i: nat, v: V)
    requires i < |bs| && Unique(bs) && Represents(bs, m) && bs[i].Live()
    ensures Represents(bs[i := bs[i].(value := Some(v))], m[bs[i].Id() := v])
  {
    hide IdentOf;
    var bs' := bs[i := bs[i].(value := Some(v))];
    forall id | id in m
      ensures exists k :: 0 <= k < |bs'| && bs'[k].Live() && bs'[k].Id() == id
    {
      var k :| 0 <= k < |bs| && bs[k].Live() && bs[k].Id() == id;
      assert bs'[k].Live() && bs'[k].Id() == id;
    }
  }

  lemma RevalueShape<V>(bs: seq<Bucket<V>>, i: nat, v: V)
    requires i < |bs| && WellFormed(bs) && bs[i].Live()
    ensures WellFormed(bs[i := bs[i].(value := Some(v))])
  {
  }

  // Reading the array from left to right, one bucket more at a time.
  lemma PrefixRepresents<V>(bs: seq<Bucket<V>>, i: nat, m: map<Ident, V>)
    requires i < |bs| && Unique(bs) && Represents(bs[..i], m)
    ensures bs[i].Live() ==> bs[i].Id() !in m
    ensures Represents(bs[..i + 1], if bs[i].Live() then m[bs[i].Id() := bs[i].value.value] else m)
  {
  }

  // The map has one binding for each live bucket, with the bucket's value.
  lemma LiveIsStored<V>(bs: seq<Bucket<V>>, m: map<Ident, V>)
    requires Unique(bs) && Represents(bs, m)
    ensures LiveCount(bs) == |m| && LiveValues(bs) == MapValues(m)
  {
    var m' := LivePrefix(bs, |bs|);
    assert bs[..|bs|] == bs;
    RepresentsOneMap(bs, m, m');
  }

  lemma {:induction false} LivePrefix<V>(bs: seq<Bucket<V>>, i: nat) returns (m: map<Ident, V>)
    requires i <= |bs| && Unique(bs)
    ensures Represents(bs[..i], m) && LiveCount(bs[..i]) == |m| && LiveValues(bs[..i]) == MapValues(m)
  {
    hide Represents, Unique, LiveCount, LiveValues, MapValues, IdentOf;
    if i == 0 {
      m := map[];
      NothingYet(bs);
    } else {
      m := LivePrefix(bs, i - 1);
      m := LiveStep(bs, i - 1, m);
    }
  }

  lemma NothingYet<V>(bs: seq<Bucket<V>>)
    ensures Represents(bs[..0], map[]) && LiveCount(bs[..0]) == 0 && LiveValues(bs[..0]) == multiset{}
    ensures MapValues<Ident, V>(map[]) == multiset{}
  {
  }

  lemma LiveStep<V>(bs: seq<Bucket<V>>, i: nat, m: map<Ident, V>) returns (m': map<Ident, V>)
    requires i < |bs| && Unique(bs)
    requires Represents(bs[..i], m) && LiveCount(bs[..i]) == |m| && LiveValues(bs[..i]) == MapValues(m)
    ensures Represents(bs[..i + 1], m') && LiveCount(bs[..i + 1]) == |m'| && LiveValues(bs[..i + 1]) == MapValues(m')
  {
    hide Represents, Unique, LiveCount, LiveValues, MapValues, IdentOf;
    PrefixRepresents(bs, i, m);
    PrefixCounts(bs, i);
    m' := m;
    if bs[i].Live() {
      BindValue(m, bs[i].Id(), bs[i].value.value);
      m' := m[bs[i].Id() := bs[i].value.value];
    }
  }

  lemma PrefixCounts<V>(bs: seq<Bucket<V>>, i: nat)
    requires i < |bs|
    ensures LiveCount(bs[..i + 1]) == LiveCount(bs[..i]) + if bs[i].Live() then 1 else 0
    ensures LiveValues(bs[..i + 1]) ==
      if bs[i].Live() then LiveValues(bs[..i]) + multiset{bs[i].value.value} else LiveValues(bs[..i])
  {
    assert bs[..i + 1][..i] == bs[..i];
  }

  // The values of a map, with repetitions.
  ghost function MapValues<K, V>(m: map<K, V>): multiset<V>
  {
    if m == map[] then multiset{}
    else var k :| k in m; MapValues(m - {k}) + multiset{m[k]}
  }

  lemma Exchanged<V>(rest: multiset<V>, a: V, b: V)
    ensures rest + multiset{a} + multiset{b} == rest + multiset{b} + multiset{a}
  {
  }

  lemma UnbindBoth<K, V>(m: map<K, V>, k1: K, k2: K)
    ensures m - {k1} - {k2} == m - {k2} - {k1}
  {
  }

  lemma {:induction false} UnbindValue<K, V>(m: map<K, V>, k: K)
    requires k in m
    ensures MapValues(m) == MapValues(m - {k}) + multiset{m[k]}
    decreases |m|
  {
    var k0 :| k0 in m && MapValues(m) == MapValues(m - {k0}) + multiset{m[k0]};
    hide MapValues;
    if k0 != k {
      UnbindValue(m - {k0}, k);
      UnbindValue(m - {k}, k0);
      UnbindBoth(m, k, k0);
      Exchanged(MapValues(m - {k0} - {k}), m[k], m[k0]);
    }
  }

  lemma BindValue<K, V>(m: map<K, V>, k: K, v: V)
    requires k !in m
    ensures MapValues(m[k := v]) == MapValues(m) + multiset{v} && |m[k := v]| == |m| + 1
  {
    UnbindValue(m[k := v], k);
    assert m[k := v] - {k} == m;
  }

  lemma RebindValue<K, V>(m: map<K, V>, k: K, v: V)
    requires k in m
    ensures MapValues(m[k := v]) + multiset{m[k]} == MapValues(m) + multiset{v}
  {
    hide MapValues;
    UnbindValue(m, k);
    UnbindValue(m[k := v], k);
    assert m[k := v] - {k} == m - {k};
    Exchanged(MapValues(m - {k}), m[k], v);
  }

  // The account of values when one replaces another, and when one goes.
  lemma Replaced<V>(stored: multiset<V>, held: multiset<V>, held': multiset<V>, released: multiset<V>,
                    out: V, entered: V)
    requires stored == held + released && held' + multiset{out} == held + multiset{entered}
    ensures stored + multiset{entered} == held' + (released + multiset{out})
  {
    assert held' + (released + multiset{out}) == (held' + multiset{out}) + released;
  }

  lemma Removed<V>(stored: multiset<V>, held: multiset<V>, held': multiset<V>, released: multiset<V>, out: V)
    requires stored == held + released && held == held' + multiset{out}
    ensures stored == held' + (released + multiset{out})
  {
  }
}
