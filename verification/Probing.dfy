// The three probe loops of src/ds/pht_hashtable.c as functions on the bucket
// array, and what they do to the map the array represents.

module Probing {
  import opened Options
  import opened Bits
  import opened Keys
  import opened Buckets

  // ++index, back to 0 at the end.
  function Next(index: nat, size: nat): (n: nat)
    requires index < size
    ensures n < size && n == Walk(index, 1, size)
  {
    if index + 1 == size then 0 else index + 1
  }

  // insert_direct from slot `index` with `left` probes to go, carrying c. With
  // no probe left the carried entry would be lost.
  function InsertFrom<V>(bs: seq<Bucket<V>>, index: nat, c: Bucket<V>, left: nat): (r: seq<Bucket<V>>)
    requires index < |bs|
    ensures |r| == |bs|
    decreases left
  {
    if left == 0 then bs
    else if !bs[index].Live() then bs[index := c]
    else if c.variance > bs[index].variance then
      InsertFrom(bs[index := c], Next(index, |bs|), Aged(bs[index]), left - 1)
    else
      InsertFrom(bs, Next(index, |bs|), Aged(c), left - 1)
  }

  function Aged<V>(c: Bucket<V>): Bucket<V>
  {
    c.(variance := c.variance + 1)
  }

  // search_direct and delete_direct: the slot where they stop with a match.
  function FindFrom<V>(bs: seq<Bucket<V>>, key: Option<string>, hash: int, index: nat, left: nat): (r: Option<nat>)
    requires index < |bs|
    ensures r.Some? ==> r.value < |bs|
    decreases left
  {
    if left == 0 then None
    else if bs[index].Live() then
      if SameKey(bs[index].key, bs[index].hash, key, hash) then Some(index)
      else FindFrom(bs, key, hash, Next(index, |bs|), left - 1)
    else if bs[index].hash == 0 then None
    else FindFrom(bs, key, hash, Next(index, |bs|), left - 1)
  }

  // update_direct: as above, but blind to whether a bucket holds a value.
  function UpdateSlotFrom<V>(bs: seq<Bucket<V>>, key: Option<string>, hash: int, index: nat, left: nat)
    : (r: Option<nat>)
    requires index < |bs|
    ensures r.Some? ==> r.value < |bs|
    decreases left
  {
    if left == 0 then None
    else if SameKey(bs[index].key, bs[index].hash, key, hash) then Some(index)
    else UpdateSlotFrom(bs, key, hash, Next(index, |bs|), left - 1)
  }

  // The state of insert_direct's loop: the array is whole, and the carried
  // entry belongs at or after slot i.
  ghost predicate Carrying<V>(bs: seq<Bucket<V>>, m: map<Ident, V>, i: nat, c: Bucket<V>)
  {
    i < |bs| && WellFormed(bs) && Represents(bs, m) && c.Live() && c.variance >= 0 && CanSit(bs, i, c)
    && c.Id() !in m
  }

  // Passing over a live bucket without exchanging.
  lemma StepOver<V>(bs: seq<Bucket<V>>, m: map<Ident, V>, i: nat, c: Bucket<V>)
    requires Carrying(bs, m, i, c) && bs[i].Live() && c.variance + 1 < |bs|
    ensures Carrying(bs, m, Next(i, |bs|), Aged(c))
  {
  }

  // Exchanging the carried entry with the one in slot i: nothing is lost.
  lemma Exchange<V>(bs: seq<Bucket<V>>, m: map<Ident, V>, i: nat, c: Bucket<V>) returns (m': map<Ident, V>)
    requires Carrying(bs, m, i, c) && bs[i].Live()
    ensures Carrying(bs[i := c], m', i, bs[i])
    ensures m'[bs[i].Id() := bs[i].value.value] == m[c.Id() := c.value.value]
  {
    Seat(bs, m, i, c);
    m' := Without(bs, m, i)[c.Id() := c.value.value];
  }

  // A bucket that is not live lies within the next `left` slots.
  ghost predicate Spare<V>(bs: seq<Bucket<V>>, index: nat, left: nat)
    requires index < |bs| && left <= |bs|
  {
    left > 0 && exists d :: 0 <= d < left && !bs[Walk(index, d, |bs|)].Live()
  }

  lemma SpareSomewhere<V>(bs: seq<Bucket<V>>, start: nat)
    requires start < |bs| && LiveCount(bs) < |bs|
    ensures Spare(bs, start, |bs|)
  {
    var i :| 0 <= i < |bs| && !bs[i].Live();
    var d := Dist(start, i, |bs|);
    assert !bs[Walk(start, d, |bs|)].Live();
  }

  // The spare bucket is still ahead after passing a live one.
  lemma SpareAhead<V>(bs: seq<Bucket<V>>, index: nat, left: nat, c: Bucket<V>)
    requires index < |bs| && 0 < left <= |bs| && Spare(bs, index, left) && bs[index].Live() && c.Live()
    ensures Spare(bs[index := c], Next(index, |bs|), left - 1)
  {
    var d :| 0 <= d < left && !bs[Walk(index, d, |bs|)].Live();
    assert Walk(index, 0, |bs|) == index;
    var bs' := bs[index := c];
    assert Walk(Next(index, |bs'|), d - 1, |bs'|) == Walk(index, d, |bs|);
    assert !bs'[Walk(Next(index, |bs'|), d - 1, |bs'|)].Live();
  }

  // One exchange of insert_direct, and one step without.
  lemma Displace<V>(bs: seq<Bucket<V>>, m: map<Ident, V>, index: nat, c: Bucket<V>) returns (m': map<Ident, V>)
    requires Carrying(bs, m, index, c) && bs[index].Live() && bs[index].variance + 1 < |bs|
    ensures Carrying(bs[index := c], m', Next(index, |bs|), Aged(bs[index]))
    ensures m'[Aged(bs[index]).Id() := bs[index].value.value] == m[c.Id() := c.value.value]
  {
    hide WellFormed, Represents, CanSit, IdentOf;
    m' := Exchange(bs, m, index, c);
    StepOver(bs[index := c], m', index, bs[index]);
  }

  // Insertion loses nothing and adds exactly the new entry. Distances stay true
  // because the carried variance never exceeds the number of steps taken.
  lemma {:induction false} InsertAdds<V>(bs: seq<Bucket<V>>, m: map<Ident, V>, index: nat, c: Bucket<V>, left: nat)
    requires Carrying(bs, m, index, c) && c.variance + left <= |bs| && Spare(bs, index, left)
    ensures var r := InsertFrom(bs, index, c, left);
      WellFormed(r) && Represents(r, m[c.Id() := c.value.value])
    decreases left
  {
    hide WellFormed, CanSit, Represents;
    if !bs[index].Live() {
      Seat(bs, m, index, c);
    } else if c.variance > bs[index].variance {
      SpareAhead(bs, index, left, c);
      var m' := Displace(bs, m, index, c);
      InsertAdds(bs[index := c], m', Next(index, |bs|), Aged(bs[index]), left - 1);
    } else {
      SpareAhead(bs, index, left, bs[index]);
      assert bs[index := bs[index]] == bs;
      StepOver(bs, m, index, c);
      InsertAdds(bs, m, Next(index, |bs|), Aged(c), left - 1);
    }
  }

  // Every live entry of the result was there before or is the new one, whatever
  // happened to its variance; and no tombstone is created.
  lemma {:induction false} InsertKeepsEntries<V>(bs: seq<Bucket<V>>, index: nat, c: Bucket<V>, left: nat,
                                                 hashOf: string -> int)
    requires index < |bs| && c.Live() && Hashed(bs, hashOf) && HashedEntry(c, hashOf)
    ensures var r := InsertFrom(bs, index, c, left);
      Hashed(r, hashOf) && (NoTombstones(bs) ==> NoTombstones(r))
    decreases left
  {
    if left > 0 && bs[index].Live() {
      if c.variance > bs[index].variance {
        InsertKeepsEntries(bs[index := c], Next(index, |bs|), Aged(bs[index]), left - 1, hashOf);
      } else {
        InsertKeepsEntries(bs, Next(index, |bs|), Aged(c), left - 1, hashOf);
      }
    }
  }

  // String entries carry the hash of their string.
  ghost predicate HashedEntry<V>(b: Bucket<V>, hashOf: string -> int)
  {
    b.Live() && b.key.Some? ==> b.hash == hashOf(b.key.value)
  }

  ghost predicate Hashed<V>(bs: seq<Bucket<V>>, hashOf: string -> int)
  {
    forall i :: 0 <= i < |bs| ==> HashedEntry(bs[i], hashOf)
  }

  // A probe of id from its home that has met a vacant bucket, or every bucket,
  // without meeting id proves id absent.
  lemma ProbeMisses<V>(bs: seq<Bucket<V>>, m: map<Ident, V>, id: Ident, home: nat, i: nat)
    requires WellFormed(bs) && Represents(bs, m) && i <= |bs|
    requires home == Home(id.HashOf(), |bs|)
    requires forall d :: 0 <= d < i ==> Misses(bs[Walk(home, d, |bs|)], id)
    requires i < |bs| ==> bs[Walk(home, i, |bs|)].Vacant()
    ensures id !in m
  {
  }

  // Searching ----------------------------------------------------------------

  // search_direct and delete_direct stop at the entry of the key if the map has
  // one, and find nothing exactly if it has none.
  lemma {:induction false} FindIsLookup<V>(bs: seq<Bucket<V>>, m: map<Ident, V>, key: Option<string>, hash: int)
    requires WellFormed(bs) && Represents(bs, m)
    ensures var id := IdentOf(key, hash);
      match FindFrom(bs, key, hash, Home(hash, |bs|), |bs|)
      case Some(i) => bs[i].Live() && bs[i].Id() == id && id in m && m[id] == bs[i].value.value
      case None => id !in m
  {
    hide Home, Visible, StrncmpEq, Seated, Connected, Clean, Unique;
    FindFromStep(bs, m, key, hash, 0);
  }

  lemma {:induction false} FindFromStep<V>(bs: seq<Bucket<V>>, m: map<Ident, V>, key: Option<string>, hash: int, i: nat)
    requires |bs| > 0 && WellFormed(bs) && Represents(bs, m) && i <= |bs|
    requires forall d :: 0 <= d < i ==> Misses(bs[Walk(Home(hash, |bs|), d, |bs|)], IdentOf(key, hash))
    ensures match FindFrom(bs, key, hash, Walk(Home(hash, |bs|), i, |bs|), |bs| - i)
      case Some(j) => bs[j].Live() && bs[j].Id() == IdentOf(key, hash)
      case None => IdentOf(key, hash) !in m
    decreases |bs| - i
  {
    hide WellFormed, Represents, Visible, StrncmpEq, Home;
    var home := Home(hash, |bs|);
    var b := bs[Walk(home, i, |bs|)];
    if i == |bs| || b.Vacant() {
      ProbeMisses(bs, m, IdentOf(key, hash), home, i);
    } else {
      SameKeyIsSameIdent(b.key, b.hash, key, hash);
      if Misses(b, IdentOf(key, hash)) {
        assert Next(Walk(home, i, |bs|), |bs|) == Walk(home, i + 1, |bs|);
        FindFromStep(bs, m, key, hash, i + 1);
      }
    }
  }

  // A tombstone lies on the path to slot s, at distance `from` or later.
  ghost predicate TombstoneBefore<V>(bs: seq<Bucket<V>>, s: nat, from: nat)
    requires s < |bs|
  {
    exists d :: from <= d < bs[s].variance && d < |bs| && bs[Walk(Home(bs[s].hash, |bs|), d, |bs|)].Tombstone()
  }

  // update_direct reaches the entry of a stored key, except that a tombstone on
  // the way answers to integer key 1, whose hash a tombstone carries.
  lemma UpdateStops<V>(bs: seq<Bucket<V>>, key: Option<string>, s: nat)
    requires WellFormed(bs) && s < |bs| && bs[s].Live() && IdentOf(key, bs[s].hash) == bs[s].Id()
    ensures var r := UpdateSlotFrom(bs, key, bs[s].hash, Home(bs[s].hash, |bs|), |bs|);
      if bs[s].Id() == IntId(1) && TombstoneBefore(bs, s, 0) then r.Some? && bs[r.value].Tombstone()
      else r == Some(s)
  {
    PathBucket(bs, s, 0);
    UpdateStep(bs, key, s, 0);
  }

  // What lies on the path to an entry: other entries and tombstones.
  lemma PathBucket<V>(bs: seq<Bucket<V>>, s: nat, i: nat)
    requires WellFormed(bs) && s < |bs| && bs[s].Live() && i <= bs[s].variance
    ensures i < |bs|
    ensures var j := Walk(Home(bs[s].hash, |bs|), i, |bs|);
      if i == bs[s].variance then j == s
      else if bs[j].Live() then bs[j].Id() != bs[s].Id()
      else bs[j] == TombstoneBucket()
  {
  }

  lemma {:induction false} UpdateStep<V>(bs: seq<Bucket<V>>, key: Option<string>, s: nat, i: nat)
    requires WellFormed(bs) && s < |bs| && bs[s].Live() && IdentOf(key, bs[s].hash) == bs[s].Id()
    requires i <= bs[s].variance && i < |bs|
    ensures var hash := bs[s].hash;
      var r := UpdateSlotFrom(bs, key, hash, Walk(Home(hash, |bs|), i, |bs|), |bs| - i);
      if bs[s].Id() == IntId(1) && TombstoneBefore(bs, s, i) then r.Some? && bs[r.value].Tombstone()
      else r == Some(s)
    decreases |bs| - i
  {
    hide Visible, StrncmpEq, Home, WellFormed;
    var home := Home(bs[s].hash, |bs|);
    var j := Walk(home, i, |bs|);
    SameKeyIsSameIdent(bs[j].key, bs[j].hash, key, bs[s].hash);
    PathBucket(bs, s, i);
    if i < bs[s].variance {
      PathBucket(bs, s, i + 1);
      assert Next(j, |bs|) == Walk(home, i + 1, |bs|);
      UpdateStep(bs, key, s, i + 1);
    }
  }
}
