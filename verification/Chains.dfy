// Collision chains of a hash-form Zend array: heads[s] is the last bucket of hash
// slot s, and each bucket points at the one before it in its slot. A bucket whose
// element has been unset has been taken out of its chain.

module Chains {
  import opened Options
  import opened Bits
  import opened ZendValues

  // The bucket is in the chain of slot s.
  predicate InChain(b: Bucket, s: nat, size: nat)
    requires size > 0
  {
    !b.slot.Hole? && Home(b.h, size) == s
  }

  // The last of the first n buckets that is in the chain of slot s.
  function LastIn(data: seq<Bucket>, n: nat, s: nat, size: nat): (r: Option<nat>)
    requires n <= |data| && size > 0
    ensures r.Some? ==> r.value < n && InChain(data[r.value], s, size)
    ensures forall j :: 0 <= j < n && InChain(data[j], s, size) ==> r.Some? && j <= r.value
  {
    if n == 0 then None
    else if InChain(data[n - 1], s, size) then Some(n - 1)
    else LastIn(data, n - 1, s, size)
  }

  ghost predicate Linked(data: seq<Bucket>, heads: seq<Option<nat>>)
  {
    && |heads| > 0 && Descending(data)
    && (forall s :: 0 <= s < |heads| ==> heads[s] == LastIn(data, |data|, s, |heads|))
    && (forall j :: 0 <= j < |data| && !data[j].slot.Hole? ==>
         data[j].next == LastIn(data, j, Home(data[j].h, |heads|), |heads|))
  }

  lemma LastInAppend(data: seq<Bucket>, c: Bucket, n: nat, s: nat, size: nat)
    requires size > 0 && n <= |data| + 1
    ensures LastIn(data + [c], n, s, size) ==
      if n == |data| + 1 then (if InChain(c, s, size) then Some(|data|) else LastIn(data, |data|, s, size))
      else LastIn(data, n, s, size)
  {
  }

  // Appending a bucket at the head of its chain.
  lemma Link(data: seq<Bucket>, heads: seq<Option<nat>>, c: Bucket)
    requires Linked(data, heads) && !c.slot.Hole? && c.next == heads[Home(c.h, |heads|)]
    ensures Linked(data + [c], heads[Home(c.h, |heads|) := Some(|data|)])
  {
    hide Home, LastIn;
    var data', heads' := data + [c], heads[Home(c.h, |heads|) := Some(|data|)];
    forall s | 0 <= s < |heads|
      ensures heads'[s] == LastIn(data', |data'|, s, |heads|)
    {
      LastInAppend(data, c, |data'|, s, |heads|);
    }
    forall j | 0 <= j < |data'| && !data'[j].slot.Hole?
      ensures data'[j].next == LastIn(data', j, Home(data'[j].h, |heads|), |heads|)
    {
      LastInAppend(data, c, j, Home(data'[j].h, |heads|), |heads|);
    }
  }

  predicate Descending(data: seq<Bucket>)
  {
    forall j :: 0 <= j < |data| && data[j].next.Some? ==> data[j].next.value < j
  }

  // The indices visited from `at` along next.
  function Chain(data: seq<Bucket>, at: Option<nat>): seq<nat>
    requires at.Some? ==> at.value < |data|
    requires Descending(data)
    decreases if at.Some? then at.value + 1 else 0
  {
    if at.None? then [] else [at.value] + Chain(data, data[at.value].next)
  }

  // Where a chain starts among the first n buckets.
  lemma ChainStart(data: seq<Bucket>, heads: seq<Option<nat>>, s: nat, n: nat)
    requires Linked(data, heads) && s < |heads| && 0 < n <= |data|
    ensures var at := LastIn(data, n, s, |heads|);
      if InChain(data[n - 1], s, |heads|) then at == Some(n - 1) && data[n - 1].next == LastIn(data, n - 1, s, |heads|)
      else at == LastIn(data, n - 1, s, |heads|)
  {
    hide Home;
  }

  ghost predicate Lists(c: seq<nat>, data: seq<Bucket>, n: nat, s: nat, size: nat)
    requires n <= |data| && size > 0
  {
    && (forall j :: j in c <==> 0 <= j < n && InChain(data[j], s, size))
    && (forall k :: 0 < k < |c| ==> c[k] < c[k - 1])
  }

  lemma ListsOneMore(rest: seq<nat>, data: seq<Bucket>, n: nat, s: nat, size: nat)
    requires 0 < n <= |data| && size > 0 && Lists(rest, data, n - 1, s, size)
    ensures Lists(if InChain(data[n - 1], s, size) then [n - 1] + rest else rest, data, n, s, size)
  {
    hide InChain;
    if InChain(data[n - 1], s, size) {
      var c := [n - 1] + rest;
      forall k | 0 < k < |c|
        ensures c[k] < c[k - 1]
      {
        assert c[k] == rest[k - 1] && rest[k - 1] in rest;
      }
    }
  }

  lemma {:induction false} ChainLists(data: seq<Bucket>, heads: seq<Option<nat>>, s: nat, n: nat)
    requires Linked(data, heads) && s < |heads| && n <= |data|
    ensures Lists(Chain(data, LastIn(data, n, s, |heads|)), data, n, s, |heads|)
  {
    hide InChain, LastIn, Lists;
    if n == 0 {
      NoneListed(data, s, |heads|);
    } else {
      ChainLists(data, heads, s, n - 1);
      ChainStart(data, heads, s, n);
      ListsOneMore(Chain(data, LastIn(data, n - 1, s, |heads|)), data, n, s, |heads|);
    }
  }

  lemma NoneListed(data: seq<Bucket>, s: nat, size: nat)
    requires Descending(data) && size > 0
    ensures Lists(Chain(data, LastIn(data, 0, s, size)), data, 0, s, size)
  {
  }

  // The chain of a slot lists exactly the buckets of that slot, from the last to
  // the first.
  lemma ChainOfSlot(data: seq<Bucket>, heads: seq<Option<nat>>, s: nat)
    requires Linked(data, heads) && s < |heads|
    ensures Lists(Chain(data, heads[s]), data, |data|, s, |heads|)
  {
    ChainLists(data, heads, s, |data|);
  }

  // Lookup ---------------------------------------------------------------------

  predicate Matches(b: Bucket, h: int, key: Option<string>)
  {
    b.h == h && KeyChars(b.key) == key
  }

  // Walking a chain for a key.
  function FindAlong(data: seq<Bucket>, at: Option<nat>, h: int, key: Option<string>): (r: Option<nat>)
    requires at.Some? ==> at.value < |data|
    requires Descending(data)
    ensures r.Some? ==> r.value < |data|
    decreases if at.Some? then at.value + 1 else 0
  {
    if at.None? then None
    else if Matches(data[at.value], h, key) then at
    else FindAlong(data, data[at.value].next, h, key)
  }

  // The bucket holds the key, and has not been taken out of its chain.
  predicate Bears(b: Bucket, h: int, key: Option<string>)
  {
    !b.slot.Hole? && Matches(b, h, key)
  }

  ghost predicate Finds(r: Option<nat>, data: seq<Bucket>, n: nat, h: int, key: Option<string>)
    requires n <= |data|
  {
    match r
    case Some(j) => j < n && Bears(data[j], h, key)
    case None => forall j :: 0 <= j < n ==> !Bears(data[j], h, key)
  }

  lemma FindsOneMore(r: Option<nat>, data: seq<Bucket>, n: nat, h: int, key: Option<string>)
    requires 0 < n <= |data|
    requires !Bears(data[n - 1], h, key) && Finds(r, data, n - 1, h, key)
    ensures Finds(r, data, n, h, key)
  {
  }

  lemma FindsHere(data: seq<Bucket>, n: nat, h: int, key: Option<string>)
    requires 0 < n <= |data| && Bears(data[n - 1], h, key)
    ensures Finds(Some(n - 1), data, n, h, key)
  {
  }

  lemma AlongNext(data: seq<Bucket>, at: nat, h: int, key: Option<string>)
    requires at < |data| && Descending(data)
    ensures FindAlong(data, Some(at), h, key) ==
      if Matches(data[at], h, key) then Some(at) else FindAlong(data, data[at].next, h, key)
  {
  }

  lemma BearsInChain(b: Bucket, h: int, key: Option<string>, size: nat)
    requires size > 0
    ensures Bears(b, h, key) <==> InChain(b, Home(h, size), size) && Matches(b, h, key)
  {
    hide Home, KeyChars;
  }

  lemma {:induction false} FindAlongFinds(data: seq<Bucket>, heads: seq<Option<nat>>, n: nat, h: int,
                                            key: Option<string>)
    returns (r: Option<nat>)
    requires Linked(data, heads) && n <= |data|
    ensures r == FindAlong(data, LastIn(data, n, Home(h, |heads|), |heads|), h, key)
    ensures Finds(r, data, n, h, key)
  {
    hide Home, LastIn, InChain, Matches, Bears;
    if n == 0 {
      hide Linked, Descending;
      r := None;
    } else {
      r := FindAlongFinds(data, heads, n - 1, h, key);
      ChainStart(data, heads, Home(h, |heads|), n);
      AlongNext(data, n - 1, h, key);
      BearsInChain(data[n - 1], h, key, |heads|);
      hide Linked, FindAlong, Descending, Finds;
      if Bears(data[n - 1], h, key) {
        r := Some(n - 1);
        FindsHere(data, n, h, key);
      } else {
        FindsOneMore(r, data, n, h, key);
      }
    }
  }

  // What a lookup by key means for a list of pairs: the value stored under it.
  function FindPair(pairs: seq<Pair>, h: int, key: Option<string>): Option<Shape>
  {
    if pairs == [] then None
    else
      var last := pairs[|pairs| - 1];
      if last.h == h && last.key == key then Some(last.value) else FindPair(pairs[..|pairs| - 1], h, key)
  }

  predicate UniqueKeys(pairs: seq<Pair>)
  {
    forall i, j :: 0 <= i < j < |pairs| ==> !(pairs[i].h == pairs[j].h && pairs[i].key == pairs[j].key)
  }

  lemma {:induction false} FindPairIs(pairs: seq<Pair>, i: nat)
    requires UniqueKeys(pairs) && i < |pairs|
    ensures FindPair(pairs, pairs[i].h, pairs[i].key) == Some(pairs[i].value)
  {
    if i < |pairs| - 1 {
      FindPairIs(pairs[..|pairs| - 1], i);
    }
  }

  lemma {:induction false} FindPairMisses(pairs: seq<Pair>, h: int, key: Option<string>)
    requires forall i :: 0 <= i < |pairs| ==> !(pairs[i].h == h && pairs[i].key == key)
    ensures FindPair(pairs, h, key) == None
  {
    if pairs != [] {
      FindPairMisses(pairs[..|pairs| - 1], h, key);
    }
  }

  predicate AllDirect(data: seq<Bucket>)
  {
    forall i :: 0 <= i < |data| ==> data[i].slot.Direct?
  }

  lemma {:induction false} PairsOfDirect(data: seq<Bucket>)
    requires AllDirect(data)
    ensures |Pairs(data)| == |data| && forall i :: 0 <= i < |data| ==> Pairs(data)[i] == PairOf(data[i])
  {
    if data != [] {
      var rest := data[..|data| - 1];
      PairsOfDirect(rest);
      forall i | 0 <= i < |rest|
        ensures Pairs(data)[i] == PairOf(data[i])
      {
        assert rest[i] == data[i];
      }
    }
  }

  lemma {:induction false} PairsBound(data: seq<Bucket>, i: nat)
    requires i <= |data|
    ensures |Pairs(data[..i])| <= i && |Pairs(data[..i])| <= |Pairs(data)|
    ensures i < |data| && data[i].slot.Live() ==>
      |Pairs(data[..i])| < |Pairs(data)| && Pairs(data)[|Pairs(data[..i])|] == PairOf(data[i])
    decreases |data|
  {
    if i < |data| {
      var n := |data| - 1;
      assert data[..n][..i] == data[..i];
      PairsBound(data[..n], i);
    } else {
      assert data[..i] == data;
      if i > 0 {
        PairsBound(data[..i - 1], i - 1);
        assert data[..i - 1][..i - 1] == data[..i - 1];
      }
    }
  }

  // A live bucket has its place among the pairs, and a pair comes from a live bucket.
  lemma {:induction false} PairsComeFrom(data: seq<Bucket>, p: nat) returns (j: nat)
    requires p < |Pairs(data)|
    ensures j < |data| && data[j].slot.Live() && Pairs(data)[p] == PairOf(data[j]) && |Pairs(data[..j])| == p
  {
    hide PairOf;
    var n := |data| - 1;
    if p < |Pairs(data[..n])| {
      j := PairsComeFrom(data[..n], p);
      assert data[..n][..j] == data[..j];
    } else {
      j := n;
    }
  }

  // No two buckets in chains hold the same key.
  predicate UniqueBuckets(data: seq<Bucket>)
  {
    forall i, j :: 0 <= i < j < |data| && !data[i].slot.Hole? && !data[j].slot.Hole? ==>
      !Matches(data[i], data[j].h, KeyChars(data[j].key))
  }

  lemma UniquePairs(data: seq<Bucket>)
    requires UniqueBuckets(data)
    ensures UniqueKeys(Pairs(data))
  {
    hide Pairs, ShapeOf, KeyChars;
    forall p, q | 0 <= p < q < |Pairs(data)|
      ensures !(Pairs(data)[p].h == Pairs(data)[q].h && Pairs(data)[p].key == Pairs(data)[q].key)
    {
      var i := PairsComeFrom(data, p);
      var j := PairsComeFrom(data, q);
      assert i < j || j < i;
    }
  }

  // Looking a key up: walk the chain of its slot. An element that has been unset
  // behind an indirection is not there.
  function Lookup(data: seq<Bucket>, heads: seq<Option<nat>>, h: int, key: Option<string>): Option<Shape>
    requires Linked(data, heads)
  {
    match FindAlong(data, heads[Home(h, |heads|)], h, key)
    case Some(j) => if data[j].slot.Live() then Some(ShapeOf(data[j].slot.v)) else None
    case None => None
  }

  // With chains in order, holes or not, a lookup gives what the pairs have for the
  // key.
  lemma LookupAgrees(data: seq<Bucket>, heads: seq<Option<nat>>, h: int, key: Option<string>)
    requires Linked(data, heads) && UniqueBuckets(data)
    ensures Lookup(data, heads, h, key) == FindPair(Pairs(data), h, key)
  {
    UniquePairs(data);
    var r := FindAlongFinds(data, heads, |data|, h, key);
    assert heads[Home(h, |heads|)] == LastIn(data, |data|, Home(h, |heads|), |heads|);
    hide Pairs, FindAlong, FindPair, Home, ShapeOf, KeyChars, Linked, LastIn;
    if r.Some? && data[r.value].slot.Live() {
      PairsBound(data, r.value);
      FindPairIs(Pairs(data), |Pairs(data[..r.value])|);
    } else {
      forall p | 0 <= p < |Pairs(data)|
        ensures !(Pairs(data)[p].h == h && Pairs(data)[p].key == key)
      {
        var j := PairsComeFrom(data, p);
        assert !Bears(data[j], h, key);
      }
      FindPairMisses(Pairs(data), h, key);
    }
  }
}
