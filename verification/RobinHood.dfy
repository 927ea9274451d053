// The order that displacement establishes and the early exit from a search that
// it justifies (the open questions at src/ds/pht_hashtable.c:178-180).

module RobinHood {
  import opened Options
  import opened Bits
  import opened Keys
  import opened Buckets
  import opened Probing

  function Before(i: nat, size: nat): (b: nat)
    requires i < size
    ensures b < size && Next(b, size) == i
  {
    if i == 0 then size - 1 else i - 1
  }

  // How far from home the bucket after slot i may be.
  function Allowance<V>(bs: seq<Bucket<V>>, i: nat): int
    requires i < |bs|
  {
    if bs[i].Live() then bs[i].variance + 1 else 0
  }

  // An entry is at most one step further from home than its live predecessor,
  // and at home if its predecessor is not live.
  ghost predicate Ordered<V>(bs: seq<Bucket<V>>)
  {
    forall i :: 0 <= i < |bs| && bs[i].Live() ==> bs[i].variance <= Allowance(bs, Before(i, |bs|))
  }

  // Insertion keeps the order.
  lemma {:induction false} InsertKeepsOrder<V>(bs: seq<Bucket<V>>, index: nat, c: Bucket<V>, left: nat)
    requires index < |bs| && c.Live() && c.variance >= 0 && Ordered(bs)
    requires forall i :: 0 <= i < |bs| && bs[i].Live() ==> bs[i].variance >= 0
    requires c.variance <= Allowance(bs, Before(index, |bs|))
    ensures Ordered(InsertFrom(bs, index, c, left))
    decreases left
  {
    if left > 0 && bs[index].Live() {
      assert Before(Next(index, |bs|), |bs|) == index;
      if c.variance > bs[index].variance {
        OrderedUpdate(bs, index, c);
        InsertKeepsOrder(bs[index := c], Next(index, |bs|), Aged(bs[index]), left - 1);
      } else {
        InsertKeepsOrder(bs, Next(index, |bs|), Aged(c), left - 1);
      }
    } else if left > 0 {
      OrderedUpdate(bs, index, c);
    }
  }

  lemma OrderedUpdate<V>(bs: seq<Bucket<V>>, index: nat, c: Bucket<V>)
    requires index < |bs| && c.Live() && c.variance >= 0 && Ordered(bs)
    requires c.variance <= Allowance(bs, Before(index, |bs|))
    requires bs[index].Live() ==> c.variance > bs[index].variance
    ensures Ordered(bs[index := c])
  {
  }

  // In an ordered table every bucket on the path to an entry is live and at
  // least as far from its home as the probe is from where it started.
  lemma {:induction false} PathIsRich<V>(bs: seq<Bucket<V>>, k: nat, i: nat)
    requires WellFormed(bs) && Ordered(bs) && k < |bs| && bs[k].Live() && i <= bs[k].variance
    ensures i < |bs|
    ensures var j := Walk(Home(bs[k].hash, |bs|), i, |bs|); bs[j].Live() && bs[j].variance >= i
    decreases bs[k].variance - i
  {
    hide Home;
    var home := Home(bs[k].hash, |bs|);
    assert bs[k].variance == Dist(home, k, |bs|);
    if i < bs[k].variance {
      PathIsRich(bs, k, i + 1);
      assert Before(Walk(home, i + 1, |bs|), |bs|) == Walk(home, i, |bs|);
    }
  }

  // search_direct with an early exit: stop once the probe has gone further than
  // the bucket it looks at.
  function FindEarly<V>(bs: seq<Bucket<V>>, key: Option<string>, hash: int, index: nat, d: nat, left: nat)
    : (r: Option<nat>)
    requires index < |bs|
    decreases left
  {
    if left == 0 then None
    else if bs[index].Live() then
      if SameKey(bs[index].key, bs[index].hash, key, hash) then Some(index)
      else if d > bs[index].variance then None
      else FindEarly(bs, key, hash, Next(index, |bs|), d + 1, left - 1)
    else if bs[index].hash == 0 then None
    else FindEarly(bs, key, hash, Next(index, |bs|), d + 1, left - 1)
  }

  // In an ordered table the early exit never changes the answer.
  lemma EarlyExitAgrees<V>(bs: seq<Bucket<V>>, m: map<Ident, V>, key: Option<string>, hash: int)
    requires WellFormed(bs) && Represents(bs, m) && Ordered(bs)
    ensures FindEarly(bs, key, hash, Home(hash, |bs|), 0, |bs|) == FindFrom(bs, key, hash, Home(hash, |bs|), |bs|)
  {
    EarlyExitStep(bs, m, key, hash, 0);
  }

  lemma {:induction false} EarlyExitStep<V>(bs: seq<Bucket<V>>, m: map<Ident, V>, key: Option<string>, hash: int,
                                            i: nat)
    requires |bs| > 0 && WellFormed(bs) && Represents(bs, m) && Ordered(bs) && i <= |bs|
    requires forall d :: 0 <= d < i ==> Misses(bs[Walk(Home(hash, |bs|), d, |bs|)], IdentOf(key, hash))
    ensures var index := Walk(Home(hash, |bs|), i, |bs|);
      FindEarly(bs, key, hash, index, i, |bs| - i) == FindFrom(bs, key, hash, index, |bs| - i)
    decreases |bs| - i
  {
    hide WellFormed, Represents, Ordered, Visible, StrncmpEq, Home;
    var home := Home(hash, |bs|);
    if i < |bs| {
      var j := Walk(home, i, |bs|);
      SameKeyIsSameIdent(bs[j].key, bs[j].hash, key, hash);
      if bs[j].Live() && Misses(bs[j], IdentOf(key, hash)) && i > bs[j].variance {
        PoorBucketEndsSearch(bs, m, key, hash, i);
        FindFromStep(bs, m, key, hash, i);
      } else if Misses(bs[j], IdentOf(key, hash)) {
        assert Next(j, |bs|) == Walk(home, i + 1, |bs|);
        EarlyExitStep(bs, m, key, hash, i + 1);
      }
    }
  }

  lemma PoorBucketEndsSearch<V>(bs: seq<Bucket<V>>, m: map<Ident, V>, key: Option<string>, hash: int, i: nat)
    requires WellFormed(bs) && Represents(bs, m) && Ordered(bs) && i < |bs|
    requires forall d :: 0 <= d < i ==> Misses(bs[Walk(Home(hash, |bs|), d, |bs|)], IdentOf(key, hash))
    requires i > bs[Walk(Home(hash, |bs|), i, |bs|)].variance
    ensures forall k :: 0 <= k < |bs| ==> Misses(bs[k], IdentOf(key, hash))
  {
    hide Home;
    forall k | 0 <= k < |bs|
      ensures Misses(bs[k], IdentOf(key, hash))
    {
      if bs[k].Live() && bs[k].hash == hash {
        var d := Dist(Home(hash, |bs|), k, |bs|);
        assert bs[k].variance == d;
        if d < i {
          assert Misses(bs[Walk(Home(hash, |bs|), d, |bs|)], IdentOf(key, hash));
        } else {
          PathIsRich(bs, k, i);
        }
      }
    }
  }

  // Where insertion puts what it carries --------------------------------------------

  // A carried entry at this distance from home takes a bucket that has no entry, or
  // one whose entry is nearer to its own home; an entry just as far keeps its place.
  predicate Yields<V>(b: Bucket<V>, distance: int)
  {
    !b.Live() || b.variance < distance
  }

  // c, carried on at slot `at` of bs, comes to rest k slots further, in the first
  // bucket that yields to it.
  ghost predicate Settles<V>(bs: seq<Bucket<V>>, r: seq<Bucket<V>>, c: Bucket<V>, at: nat, k: nat)
    requires at < |bs| == |r| && k < |bs|
  {
    && r[Walk(at, k, |bs|)] == c.(variance := c.variance + k)
    && Yields(bs[Walk(at, k, |bs|)], c.variance + k)
    && forall i :: 0 <= i < k ==> !Yields(bs[Walk(at, i, |bs|)], c.variance + i)
  }

  // The entry of slot j is where it was, or a poorer one has its bucket and it has
  // moved on in the same way, within `left` slots of `index`.
  ghost predicate StaysOrMoves<V>(bs: seq<Bucket<V>>, r: seq<Bucket<V>>, j: nat, index: nat, left: nat)
    requires j < |bs| == |r| && index < |bs| && left <= |bs|
  {
    && r[j].Live()
    && (r[j] == bs[j] ||
        (r[j].variance > bs[j].variance &&
         exists k :: 0 <= k && Dist(index, j, |bs|) + 1 + k < left && Settles(bs, r, Aged(bs[j]), Next(j, |bs|), k)))
  }

  // What comes to rest before `index` is met again does not see that bucket.
  lemma SettlesElsewhere<V>(bs: seq<Bucket<V>>, bs': seq<Bucket<V>>, r: seq<Bucket<V>>, c: Bucket<V>, index: nat,
                            at: nat, k: nat)
    requires |bs| == |bs'| == |r| && index < |bs| && at < |bs|
    requires bs' == bs[index := bs'[index]] && Dist(Next(index, |bs|), at, |bs|) + k < |bs| - 1
    requires Settles(bs', r, c, at, k)
    ensures Settles(bs, r, c, at, k)
  {
    forall i | 0 <= i <= k
      ensures bs'[Walk(at, i, |bs|)] == bs[Walk(at, i, |bs|)]
    {
      assert Walk(at, i, |bs|) != index;
    }
  }

  lemma FartherByOne(index: nat, j: nat, size: nat)
    requires index < size && j < size && j != index
    ensures Dist(index, j, size) == Dist(Next(index, size), j, size) + 1
    ensures Dist(Next(index, size), j, size) + 1 < size
    ensures Dist(Next(index, size), j, size) + 1 < size - 1 ==>
      Dist(Next(index, size), Next(j, size), size) == Dist(Next(index, size), j, size) + 1
  {
  }

  lemma StaysOrMovesBefore<V>(bs: seq<Bucket<V>>, bs': seq<Bucket<V>>, r: seq<Bucket<V>>, j: nat, index: nat, left: nat)
    requires |bs| == |bs'| == |r| && index < |bs| && j < |bs| && j != index && 0 < left <= |bs|
    requires bs' == bs[index := bs'[index]]
    requires StaysOrMoves(bs', r, j, Next(index, |bs|), left - 1)
    ensures StaysOrMoves(bs, r, j, index, left)
  {
    FartherByOne(index, j, |bs|);
    if r[j] != bs[j] {
      var next := Next(index, |bs|);
      var k :| 0 <= k && Dist(next, j, |bs|) + 1 + k < left - 1 && Settles(bs', r, Aged(bs'[j]), Next(j, |bs|), k);
      hide Dist, Next, Walk, Settles;
      SettlesElsewhere(bs, bs', r, Aged(bs[j]), index, Next(j, |bs|), k);
    }
  }

  lemma ExchangedPlaces<V>(bs: seq<Bucket<V>>, r: seq<Bucket<V>>, index: nat, c: Bucket<V>, left: nat, k: nat)
    requires index < |bs| == |r| && 0 < left <= |bs| && c.Live() && bs[index].Live() && c.variance > bs[index].variance
    requires k < left - 1 && Settles(bs[index := c], r, Aged(bs[index]), Next(index, |bs|), k)
    requires r[index] == c
    ensures Settles(bs, r, c, index, 0) && StaysOrMoves(bs, r, index, index, left)
  {
    SettlesElsewhere(bs, bs[index := c], r, Aged(bs[index]), index, Next(index, |bs|), k);
    assert Dist(index, index, |bs|) == 0;
  }

  lemma PassedPlaces<V>(bs: seq<Bucket<V>>, r: seq<Bucket<V>>, index: nat, c: Bucket<V>, k: nat)
    requires index < |bs| == |r| && k + 1 < |bs|
    requires !Yields(bs[index], c.variance) && Settles(bs, r, Aged(c), Next(index, |bs|), k)
    ensures Settles(bs, r, c, index, k + 1)
  {
    assert forall i :: 0 <= i <= k ==> Walk(index, i + 1, |bs|) == Walk(Next(index, |bs|), i, |bs|);
    forall i | 0 <= i < k + 1
      ensures !Yields(bs[Walk(index, i, |bs|)], c.variance + i)
    {
      if i > 0 {
        assert !Yields(bs[Walk(Next(index, |bs|), i - 1, |bs|)], Aged(c).variance + (i - 1));
      }
    }
  }

  lemma {:induction false} InsertPlaces<V>(bs: seq<Bucket<V>>, index: nat, c: Bucket<V>, left: nat) returns (k: nat)
    requires index < |bs| && c.Live() && left <= |bs| && Spare(bs, index, left)
    ensures var r := InsertFrom(bs, index, c, left);
      && (forall j :: 0 <= j < |bs| && Dist(index, j, |bs|) >= left ==> r[j] == bs[j])
      && k < left && Settles(bs, r, c, index, k)
      && (forall j :: 0 <= j < |bs| && bs[j].Live() ==> StaysOrMoves(bs, r, j, index, left))
    decreases left
  {
    var r, next := InsertFrom(bs, index, c, left), Next(index, |bs|);
    k := 0;
    if bs[index].Live() {
      var exchange := c.variance > bs[index].variance;
      var bs' := if exchange then bs[index := c] else bs;
      SpareAhead(bs, index, left, bs'[index]);
      assert bs' == bs[index := bs'[index]];
      k := InsertPlaces(bs', next, if exchange then Aged(bs[index]) else Aged(c), left - 1);
      assert Dist(next, index, |bs|) == |bs| - 1;
      assert r[index] == bs'[index];
      hide InsertFrom, Spare, Settles, StaysOrMoves;
      OthersPlaces(bs, bs', r, index, left);
      hide Dist, Next;
      if exchange {
        ExchangedPlaces(bs, r, index, c, left, k);
        k := 0;
      } else {
        PassedPlaces(bs, r, index, c, k);
        Stays(bs, r, index, left);
        k := k + 1;
      }
    }
  }

  lemma Stays<V>(bs: seq<Bucket<V>>, r: seq<Bucket<V>>, index: nat, left: nat)
    requires index < |bs| == |r| && 0 < left <= |bs| && r[index] == bs[index] && bs[index].Live()
    ensures StaysOrMoves(bs, r, index, index, left)
  {
  }

  lemma OthersPlaces<V>(bs: seq<Bucket<V>>, bs': seq<Bucket<V>>, r: seq<Bucket<V>>, index: nat, left: nat)
    requires |bs| == |bs'| == |r| && index < |bs| && 0 < left <= |bs| && bs' == bs[index := bs'[index]]
    requires forall j :: 0 <= j < |bs| && Dist(Next(index, |bs|), j, |bs|) >= left - 1 ==> r[j] == bs'[j]
    requires forall j :: 0 <= j < |bs| && bs'[j].Live() ==> StaysOrMoves(bs', r, j, Next(index, |bs|), left - 1)
    ensures forall j :: 0 <= j < |bs| && Dist(index, j, |bs|) >= left ==> r[j] == bs[j]
    ensures forall j :: 0 <= j < |bs| && j != index && bs[j].Live() ==> StaysOrMoves(bs, r, j, index, left)
  {
    hide StaysOrMoves;
    forall j | 0 <= j < |bs| && Dist(index, j, |bs|) >= left
      ensures r[j] == bs[j]
    {
      assert Dist(index, index, |bs|) == 0;
      FartherByOne(index, j, |bs|);
    }
    forall j | 0 <= j < |bs| && j != index && bs[j].Live()
      ensures StaysOrMoves(bs, r, j, index, left)
    {
      assert bs'[j] == bs[j] && bs'[j].Live();
      StaysOrMovesBefore(bs, bs', r, j, index, left);
    }
  }

  // No entry loses its bucket to one that is not farther from home.
  ghost predicate OnlyPoorerTake<V>(bs: seq<Bucket<V>>, r: seq<Bucket<V>>)
    requires |bs| == |r|
  {
    forall j :: 0 <= j < |bs| && bs[j].Live() ==> r[j] == bs[j] || r[j].variance > bs[j].variance
  }

  // c has the first bucket on its way from home that is free or has an entry nearer
  // to home than c has come.
  ghost predicate TakesFirst<V>(bs: seq<Bucket<V>>, r: seq<Bucket<V>>, home: nat, c: Bucket<V>)
    requires |bs| == |r| && home < |bs|
  {
    exists d :: 0 <= d < |bs|
      && r[Walk(home, d, |bs|)] == c.(variance := d)
      && (bs[Walk(home, d, |bs|)].Live() ==> bs[Walk(home, d, |bs|)].variance < d)
      && forall i :: 0 <= i < d ==> bs[Walk(home, i, |bs|)].Live() && bs[Walk(home, i, |bs|)].variance >= i
  }

  // From the home bucket of a new key: where it comes to rest, and where every entry
  // that has to move does.
  lemma InsertTakesFirst<V>(bs: seq<Bucket<V>>, m: map<Ident, V>, c: Bucket<V>)
    requires WellFormed(bs) && Represents(bs, m) && |m| < |bs| && c.Live() && c.variance == 0
    ensures var r, home := InsertFrom(bs, Home(c.hash, |bs|), c, |bs|), Home(c.hash, |bs|);
      && OnlyPoorerTake(bs, r) && TakesFirst(bs, r, home, c)
      && forall j :: 0 <= j < |bs| && bs[j].Live() ==> StaysOrMoves(bs, r, j, home, |bs|)
  {
    var home := Home(c.hash, |bs|);
    LiveIsStored(bs, m);
    hide WellFormed, Represents, LiveCount, Home, OnlyPoorerTake, TakesFirst, StaysOrMoves, Settles, Walk, Dist;
    SpareSomewhere(bs, home);
    var d := InsertPlaces(bs, home, c, |bs|);
    hide InsertFrom;
    var r := InsertFrom(bs, home, c, |bs|);
    SettlesIsFirst(bs, r, home, c, d);
    MovesArePoorer(bs, r, home);
  }

  lemma SettlesIsFirst<V>(bs: seq<Bucket<V>>, r: seq<Bucket<V>>, home: nat, c: Bucket<V>, d: nat)
    requires home < |bs| == |r| && d < |bs| && c.variance == 0 && Settles(bs, r, c, home, d)
    ensures TakesFirst(bs, r, home, c)
  {
    assert forall i :: 0 <= i < d ==> !Yields(bs[Walk(home, i, |bs|)], c.variance + i);
  }

  lemma MovesArePoorer<V>(bs: seq<Bucket<V>>, r: seq<Bucket<V>>, home: nat)
    requires home < |bs| == |r|
    requires forall j :: 0 <= j < |bs| && bs[j].Live() ==> StaysOrMoves(bs, r, j, home, |bs|)
    ensures OnlyPoorerTake(bs, r)
  {
  }

  // Everything one call of insert_direct does to a sound array with room in it.
  lemma InsertIsSound<V>(bs: seq<Bucket<V>>, m: map<Ident, V>, c: Bucket<V>, hashOf: string -> int)
    requires WellFormed(bs) && Represents(bs, m) && Hashed(bs, hashOf) && |m| < |bs|
    requires c.Live() && c.variance == 0 && HashedEntry(c, hashOf) && c.Id() !in m
    ensures var r := InsertFrom(bs, Home(c.hash, |bs|), c, |bs|);
      && WellFormed(r) && Hashed(r, hashOf)
      && Represents(r, m[c.Id() := c.value.value])
      && (NoTombstones(bs) ==> NoTombstones(r))
      && (Ordered(bs) ==> Ordered(r))
  {
    var home := Home(c.hash, |bs|);
    FreshCarry(bs, m, c);
    LiveIsStored(bs, m);
    hide WellFormed, Represents, Hashed, HashedEntry, LiveCount, NoTombstones, Ordered, Home, CanSit;
    SpareSomewhere(bs, home);
    InsertAdds(bs, m, home, c, |bs|);
    InsertKeepsEntries(bs, home, c, |bs|, hashOf);
    if Ordered(bs) {
      InsertKeepsOrder(bs, home, c, |bs|);
    }
  }

  lemma FreshCarry<V>(bs: seq<Bucket<V>>, m: map<Ident, V>, c: Bucket<V>)
    requires WellFormed(bs) && Represents(bs, m) && c.Live() && c.variance == 0 && c.Id() !in m
    ensures var home := Home(c.hash, |bs|);
      Carrying(bs, m, home, c) && c.variance <= Allowance(bs, Before(home, |bs|))
    ensures forall i :: 0 <= i < |bs| && bs[i].Live() ==> bs[i].variance >= 0
  {
  }

  // After a deletion the early exit is wrong. Keys 0, 4 and 8 share home bucket 0
  // of a table of size 4; deleting 4 and inserting 1 puts an entry that is at home
  // on the path to 8.
  lemma EarlyExitMissesAfterDeletion<V>(v: V)
    ensures var t0 := seq(4, _ => VacantBucket());
      var t1 := InsertFrom(t0, Home(0, 4), IntEntry(0, v), 4);
      var t2 := InsertFrom(t1, Home(4, 4), IntEntry(4, v), 4);
      var t3 := InsertFrom(t2, Home(8, 4), IntEntry(8, v), 4);
      && FindFrom(t3, None, 4, Home(4, 4), 4) == Some(1)
      && var t4 := InsertFrom(t3[1 := TombstoneBucket()], Home(1, 4), IntEntry(1, v), 4);
      && FindFrom(t4, None, 8, Home(8, 4), 4) == Some(2)
      && FindEarly(t4, None, 8, Home(8, 4), 0, 4) == None
  {
  }

  function IntEntry<V>(n: int, v: V): Bucket<V>
  {
    Bucket(None, Some(v), n, 0)
  }

  // search_direct with the early exit as the comment in the source words it: stop
  // at an entry whose variance is less than that of the bucket before.
  function FindUntilDrop<V>(bs: seq<Bucket<V>>, key: Option<string>, hash: int, index: nat, last: int, left: nat)
    : (r: Option<nat>)
    requires index < |bs|
    decreases left
  {
    if left == 0 then None
    else if bs[index].Live() then
      if SameKey(bs[index].key, bs[index].hash, key, hash) then Some(index)
      else if bs[index].variance < last then None
      else FindUntilDrop(bs, key, hash, Next(index, |bs|), bs[index].variance, left - 1)
    else if bs[index].hash == 0 then None
    else FindUntilDrop(bs, key, hash, Next(index, |bs|), -1, left - 1)
  }

  // That test is wrong even in a table without deletions: with keys 0, 8, 16, 2
  // and 10 in a table of size 8, the search for 10 stops at 2.
  lemma DropTestMisses<V>(v: V)
    ensures var t0 := seq(8, _ => VacantBucket());
      var t1 := InsertFrom(t0, Home(0, 8), IntEntry(0, v), 8);
      var t2 := InsertFrom(t1, Home(8, 8), IntEntry(8, v), 8);
      var t3 := InsertFrom(t2, Home(16, 8), IntEntry(16, v), 8);
      var t4 := InsertFrom(t3, Home(2, 8), IntEntry(2, v), 8);
      var t5 := InsertFrom(t4, Home(10, 8), IntEntry(10, v), 8);
      && FindFrom(t5, None, 10, Home(10, 8), 8) == Some(4)
      && FindUntilDrop(t5, None, 10, Home(10, 8), -1, 8) == None
  {
  }
}
