// The growable vector of src/ds/pht_vector.c, with Vector::__construct and
// Vector::resize of src/classes/vector.c, refining a sequence.

module Vectors {
  import opened Options

  // The first n elements of s, or s padded with copies of v.
  function Resized<V>(s: seq<V>, n: nat, v: V): (r: seq<V>)
    ensures |r| == n
  {
    if n <= |s| then s[..n] else s + seq(n - |s|, _ => v)
  }

  // s with v put in before position i, and s with the element at i taken out.
  function Inserted<V>(s: seq<V>, i: nat, v: V): seq<V>
    requires i <= |s|
  {
    s[..i] + [v] + s[i..]
  }

  function Removed<V>(s: seq<V>, i: nat): seq<V>
    requires i < |s|
  {
    s[..i] + s[i + 1..]
  }

  lemma RemovedSize<V>(s: seq<V>, i: nat)
    requires i < |s|
    ensures |Removed(s, i)| == |s| - 1 && (i == 0 ==> Removed(s, i) == s[1..])
  {
  }

  lemma Positions<V>(s: seq<V>, i: nat, n: nat, v: V)
    ensures forall k :: 0 <= k < n ==> Resized(s, n, v)[k] == if k < |s| then s[k] else v
    ensures i <= |s| ==>
      |Inserted(s, i, v)| == |s| + 1
      && forall k :: 0 <= k <= |s| ==> Inserted(s, i, v)[k] == if k < i then s[k] else if k == i then v else s[k - 1]
    ensures i < |s| ==>
      |Removed(s, i)| == |s| - 1
      && forall k :: 0 <= k < |s| - 1 ==> Removed(s, i)[k] == if k < i then s[k] else s[k + 1]
  {
  }

  // The capacity that one more entry needs.
  function Grown(used: nat, size: nat): nat
  {
    if used < size then size else if size == 0 then 1 else 2 * size
  }

  // The slots that making room for it copies.
  function GrowthCopies(used: nat, size: nat): nat
  {
    if used < size then 0 else size
  }

  lemma GrowthDoubles(used: nat, size: nat)
    ensures used < size ==> Grown(used, size) == size && GrowthCopies(used, size) == 0
    ensures used == size > 0 ==> Grown(used, size) == 2 * size && GrowthCopies(used, size) == size
    ensures used == size == 0 ==> Grown(used, size) == 1 && GrowthCopies(used, size) == 0
  {
  }

  // Where the entries went: all those ever put in, those that pop and shift have
  // returned, and those deleted.
  datatype Ledger<V> = Ledger(stored: multiset<V>, returned: multiset<V>, deleted: multiset<V>)
  {
    function In(v: V): Ledger<V> { this.(stored := stored + multiset{v}) }

    function Out(v: V): Ledger<V> { this.(returned := returned + multiset{v}) }

    function Gone(v: V): Ledger<V> { this.(deleted := deleted + multiset{v}) }

    function AllIn(s: seq<V>): Ledger<V> { this.(stored := stored + multiset(s)) }

    function AllGone(s: seq<V>): Ledger<V> { this.(deleted := deleted + multiset(s)) }

    lemma Moves(v: V, s: seq<V>)
      ensures var l := In(v); l.stored[v] == stored[v] + 1 && l.returned == returned && l.deleted == deleted
      ensures var l := Out(v); l.returned[v] == returned[v] + 1 && l.stored == stored && l.deleted == deleted
      ensures var l := Gone(v); l.deleted[v] == deleted[v] + 1 && l.stored == stored && l.returned == returned
      ensures var l := AllIn(s); l.stored == stored + multiset(s) && l.returned == returned && l.deleted == deleted
      ensures var l := AllGone(s); l.deleted == deleted + multiset(s) && l.stored == stored && l.returned == returned
    {
    }

    lemma NoneInOrGone()
      ensures AllIn([]) == this == AllGone([])
    {
    }

    lemma OneMoreIn(s: seq<V>, v: V)
      ensures AllIn(s).In(v) == AllIn(s + [v])
    {
    }

    lemma OneMoreGone(s: seq<V>, v: V)
      ensures AllGone(s).Gone(v) == AllGone([v] + s)
    {
    }

    // Every entry put in is exactly one of held, returned and deleted.
    ghost predicate Balances(held: seq<V>)
    {
      stored == multiset(held) + (returned + deleted)
    }

    lemma BalanceAppend(held: seq<V>, v: V)
      requires Balances(held)
      ensures In(v).Balances(held + [v])
    {
    }

    lemma BalanceInsert(held: seq<V>, i: nat, v: V)
      requires Balances(held) && i <= |held|
      ensures In(v).Balances(Inserted(held, i, v))
    {
      assert held == held[..i] + held[i..];
      assert multiset(held[..i] + [v] + held[i..]) == multiset(held) + multiset{v};
    }

    lemma BalanceRemove(held: seq<V>, i: nat)
      requires Balances(held) && i < |held|
      ensures Out(held[i]).Balances(Removed(held, i))
      ensures Gone(held[i]).Balances(Removed(held, i))
    {
      assert held == held[..i] + [held[i]] + held[i + 1..];
      var rest := multiset(held[..i] + held[i + 1..]);
      assert multiset(held) == rest + multiset{held[i]};
      assert rest + multiset{held[i]} + (returned + deleted) == rest + ((returned + multiset{held[i]}) + deleted);
      assert rest + multiset{held[i]} + (returned + deleted) == rest + (returned + (deleted + multiset{held[i]}));
    }

    lemma BalanceFirst(held: seq<V>)
      requires Balances(held) && held != []
      ensures Out(held[0]).Balances(held[1..]) && Gone(held[0]).Balances(held[1..])
    {
      BalanceRemove(held, 0);
      assert Removed(held, 0) == held[1..];
    }

    lemma BalanceLast(held: seq<V>)
      requires Balances(held) && held != []
      ensures Out(held[|held| - 1]).Balances(held[..|held| - 1])
      ensures Gone(held[|held| - 1]).Balances(held[..|held| - 1])
    {
      BalanceRemove(held, |held| - 1);
      assert Removed(held, |held| - 1) == held[..|held| - 1];
    }

    lemma BalanceReplace(held: seq<V>, i: nat, v: V)
      requires Balances(held) && i < |held|
      ensures Gone(held[i]).In(v).Balances(held[i := v])
    {
    }
  }

  class Vector<V(0)> {
    var values: array<V>
    var size: nat
    var used: nat

    ghost var contents: seq<V>  // what the vector stands for
    ghost var ledger: Ledger<V>
    ghost var copied: nat       // slots copied by doubling so far

    ghost predicate Valid()
      reads this, values
    {
      && used <= size == values.Length && contents == values[..used]
      && ledger.Balances(contents)
    }

    // pht_vector_init
    constructor (size: nat)
      ensures Valid() && fresh(values) && contents == [] && this.size == size
      ensures ledger == Ledger(multiset{}, multiset{}, multiset{}) && copied == 0
    {
      values := new V[size];
      this.size, used, contents := size, 0, [];
      ledger := Ledger(multiset{}, multiset{}, multiset{});
      copied := 0;
    }

    // pht_vector_space_check
    method SpaceCheck()
      requires Valid()
      modifies `values, `size, `copied
      ensures Valid() && used < size && (values == old(values) || fresh(values))
      ensures size == Grown(used, old(size)) && copied == old(copied) + GrowthCopies(used, old(size))
    {
      hide Ledger.Balances;
      if used == size {
        var newSize := if size != 0 then 2 * size else 1;
        var newValues := Copied(values, size, newSize);
        copied := copied + size;
        values, size := newValues, newSize;
      }
    }

    // realloc
    static method Copied(from: array<V>, n: nat, newSize: nat) returns (to: array<V>)
      requires n <= from.Length && n <= newSize
      ensures fresh(to) && to.Length == newSize && to[..n] == from[..n]
    {
      to := new V[newSize];
      var i: nat := 0;
      while i < n
        invariant i <= n && to[..i] == from[..i]
      {
        to[i] := from[i];
        i := i + 1;
      }
    }

    method Push(value: V)
      requires Valid()
      modifies this, values
      ensures Valid() && (values == old(values) || fresh(values))
      ensures contents == old(contents) + [value] && ledger == old(ledger).In(value)
      ensures size == Grown(old(used), old(size)) && copied == old(copied) + GrowthCopies(old(used), old(size))
    {
      hide Ledger.Balances, Ledger.In;
      SpaceCheck();
      ledger.BalanceAppend(contents, value);
      StoreLast(value, contents);
      contents, ledger := contents + [value], ledger.In(value);
    }

    // values[used++] = value
    method StoreLast(value: V, ghost s: seq<V>)
      requires used < size == values.Length && s == values[..used]
      modifies values, `used
      ensures used == old(used) + 1 && values[..used] == s + [value]
    {
      values[used] := value;
      used := used + 1;
    }

    method Pop() returns (r: Option<V>)
      requires Valid()
      modifies `used, `contents, `ledger
      ensures Valid()
      ensures old(contents) == [] ==> r == None && contents == [] && ledger == old(ledger)
      ensures old(contents) != [] ==>
        && r == Some(old(contents)[|old(contents)| - 1]) && contents == old(contents)[..|old(contents)| - 1]
        && ledger == old(ledger).Out(r.value)
    {
      hide Ledger.Balances, Ledger.Out, Ledger.Gone, Removed;
      if used == 0 {
        return None;
      }
      ledger.BalanceLast(contents);
      used := used - 1;
      ledger, contents := ledger.Out(contents[used]), contents[..used];
      return Some(values[used]);
    }

    method Shift() returns (r: Option<V>)
      requires Valid()
      modifies values, `used, `contents, `ledger
      ensures Valid()
      ensures old(contents) == [] ==> r == None && contents == [] && ledger == old(ledger)
      ensures old(contents) != [] ==>
        r == Some(old(contents)[0]) && contents == Removed(old(contents), 0) && ledger == old(ledger).Out(r.value)
    {
      hide Ledger.Balances, Ledger.Out, Ledger.Gone, Removed;
      if used == 0 {
        return None;
      }
      ledger.BalanceRemove(contents, 0);
      var value := values[0];
      ShiftDown(contents);
      used := used - 1;
      ledger, contents := ledger.Out(value), Removed(contents, 0);
      return Some(value);
    }

    // The loop of shift.
    method ShiftDown(ghost s: seq<V>)
      requires 0 < used <= size == values.Length && s == values[..used]
      modifies values
      ensures values[..used - 1] == Removed(s, 0)
    {
      var i: nat := 1;
      while i < used
        invariant 1 <= i <= used <= size == values.Length
        invariant values[..i - 1] == s[1..i]
        invariant values[i..used] == s[i..]
      {
        assert s[1..i + 1] == s[1..i] + [s[i]];
        values[i - 1] := values[i];
        assert values[..i] == values[..i - 1] + [values[i - 1]];
        i := i + 1;
      }
    }

    method Unshift(value: V)
      requires Valid()
      modifies this, values
      ensures Valid() && (values == old(values) || fresh(values))
      ensures contents == [value] + old(contents) && ledger == old(ledger).In(value)
      ensures size == Grown(old(used), old(size)) && copied == old(copied) + GrowthCopies(old(used), old(size))
    {
      hide Ledger.Balances, Ledger.In;
      ghost var s := contents;
      var ok := InsertAt(value, 0);
      assert s[..0] + [value] + s[0..] == [value] + s;
    }

    method FetchAt(i: int) returns (r: Option<V>)
      requires Valid()
      ensures r == if 0 <= i < |contents| then Some(contents[i]) else None
    {
      if i < 0 || i >= used {
        return None;
      }
      return Some(values[i]);
    }

    method UpdateAt(value: V, i: int) returns (ok: bool)
      requires Valid()
      modifies values, `contents, `ledger
      ensures Valid() && (ok <==> 0 <= i < |old(contents)|)
      ensures ok ==> contents == old(contents)[i := value] && ledger == old(ledger).Gone(old(contents)[i]).In(value)
      ensures !ok ==> contents == old(contents) && ledger == old(ledger)
    {
      hide Ledger.Balances, Ledger.Gone, Ledger.In;
      if i < 0 || i >= used {
        return false;
      }
      ledger.BalanceReplace(contents, i, value);
      ledger := ledger.Gone(values[i]).In(value);
      values[i] := value;
      contents := contents[i := value];
      return true;
    }

    method InsertAt(value: V, i: int) returns (ok: bool)
      requires Valid()
      modifies this, values
      ensures Valid() && (values == old(values) || fresh(values))
      ensures ok <==> 0 <= i <= |old(contents)|
      ensures ok ==>
        && contents == Inserted(old(contents), i, value) && ledger == old(ledger).In(value)
        && size == Grown(old(used), old(size)) && copied == old(copied) + GrowthCopies(old(used), old(size))
      ensures !ok ==>
        contents == old(contents) && ledger == old(ledger) && size == old(size) && copied == old(copied)
    {
      hide Ledger.Balances, Ledger.In, Inserted;
      if i < 0 || i > used {
        return false;
      }
      SpaceCheck();
      ledger.BalanceInsert(contents, i, value);
      InsertInto(i, value, contents);
      used := used + 1;
      contents, ledger := Inserted(contents, i, value), ledger.In(value);
      return true;
    }

    // The loop of unshift and insert_at, and the store after it.
    method InsertInto(i: nat, value: V, ghost s: seq<V>)
      requires i <= used < size == values.Length && s == values[..used]
      modifies values
      ensures values[..used + 1] == Inserted(s, i, value)
    {
      InsertedLast(s, values[..used + 1]);
      hide Inserted;
      var k: nat := used;
      while k > i
        invariant i <= k <= used < size == values.Length
        invariant values[..used + 1] == Inserted(s, k, values[k])
      {
        MovedUp(s, k, values[k]);
        ghost var t := values[..used + 1];
        assert values[k - 1] == t[k - 1];
        values[k] := values[k - 1];
        assert values[..used + 1] == t[k := t[k - 1]];
        k := k - 1;
      }
      Refilled(s, i, values[i], value);
      ghost var t := values[..used + 1];
      values[i] := value;
      assert values[..used + 1] == t[i := value];
    }

    // pht_vector_delete_at: it reads past the end of a vector that is full.
    method DeleteAt(i: int) returns (ok: bool, overread: bool)
      requires Valid()
      modifies values, `used, `contents, `ledger
      ensures Valid() && (ok <==> 0 <= i < |old(contents)|)
      ensures ok ==>
        && contents == Removed(old(contents), i)
        && ledger == old(ledger).Gone(old(contents)[i])
      ensures !ok ==> contents == old(contents) && ledger == old(ledger)
      ensures overread <==> ok && old(used) == size
    {
      hide Ledger.Balances, Ledger.Out, Ledger.Gone, Removed;
      if i < 0 || i >= used {
        return false, false;
      }
      ledger.BalanceRemove(contents, i);
      ledger := ledger.Gone(values[i]);
      overread := CloseGap(i, contents);
      used := used - 1;
      contents := Removed(contents, i);
      return true, overread;
    }

    // The loop of delete_at. It runs one step further than shift's and copies the
    // slot after the last entry, which exists only with capacity to spare.
    method CloseGap(i: nat, ghost s: seq<V>) returns (overread: bool)
      requires i < used <= size == values.Length && s == values[..used]
      modifies values
      ensures values[..used - 1] == Removed(s, i)
      ensures overread <==> used == size
    {
      hide MovedDown, Removed;
      MovedDownEnds(s, i);
      overread := false;
      var k: nat := i;
      while k < used
        invariant i <= k <= used <= size == values.Length
        invariant overread <==> k == used == size
        invariant k < used ==> values[..used] == MovedDown(s, i, k)
        invariant k == used ==> values[..used - 1] == Removed(s, i)
      {
        ghost var t := values[..used];
        if k + 1 < size {
          values[k] := values[k + 1];
        } else {
          overread := true;
        }
        if k + 1 < used {
          MovedDownStep(s, i, k);
          assert values[..used] == t[k := t[k + 1]];
        } else {
          assert values[..used - 1] == t[..used - 1];
        }
        k := k + 1;
      }
    }

    // pht_vector_destroy: afterwards every entry has been returned or deleted.
    method Destroy()
      requires Valid()
      modifies `ledger
      ensures ledger.Balances([])
      ensures ledger.stored == old(ledger.stored) && ledger.returned == old(ledger.returned)
    {
      var i: nat := 0;
      while i < used
        invariant i <= used && ledger.stored == old(ledger.stored) && ledger.returned == old(ledger.returned)
        invariant ledger.Balances(contents[i..])
      {
        ledger.BalanceFirst(contents[i..]);
        assert contents[i..][1..] == contents[i + 1..];
        ledger := ledger.Gone(values[i]);
        i := i + 1;
      }
    }

    // Vector::__construct, on a vector of capacity n that is still empty.
    method Fill(n: nat, value: V)
      requires Valid() && used == 0 && size == n
      modifies this, values
      ensures Valid() && (values == old(values) || fresh(values))
      ensures contents == seq(n, _ => value) && size == n && copied == old(copied)
      ensures ledger == old(ledger).AllIn(contents)
    {
      hide Ledger.Balances, Ledger.In, Ledger.AllIn;
      ledger.NoneInOrGone();
      var i: nat := 0;
      while i < n
        invariant i <= n && Valid() && used == i && size == n && copied == old(copied)
        invariant values == old(values) || fresh(values)
        invariant contents == seq(i, _ => value) && ledger == old(ledger).AllIn(contents)
      {
        old(ledger).OneMoreIn(contents, value);
        Push(value);
        i := i + 1;
      }
    }

    // Vector::resize. It returns at once if n is the capacity, even when fewer
    // entries are in use: that is the one case in which it does not resize.
    method Resize(n: nat, value: V)
      requires Valid()
      modifies this, values
      ensures Valid() && size == n && (values == old(values) || fresh(values)) && copied == old(copied)
      ensures contents == Resized(old(contents), n, value) <==> n != old(size) || old(used) == n
      ensures n == old(size) ==> contents == old(contents) && ledger == old(ledger)
      ensures n != old(size) && n > old(used) ==> ledger == old(ledger).AllIn(contents[|old(contents)|..])
      ensures n != old(size) && n <= old(used) ==> ledger == old(ledger).AllGone(old(contents)[n..])
    {
      hide Ledger.Balances, Ledger.AllIn, Ledger.AllGone;
      if n == size {
        return;
      }
      if n > used {
        Grow(n, value);
      } else {
        Shrink(n);
      }
    }

    method Grow(n: nat, value: V)
      requires Valid() && n > used
      modifies this, values
      ensures Valid() && size == n && fresh(values) && copied == old(copied)
      ensures contents == Resized(old(contents), n, value)
      ensures ledger == old(ledger).AllIn(contents[|old(contents)|..])
    {
      hide Ledger.Balances, Ledger.In, Ledger.AllIn;
      ghost var m := |contents|;
      var newValues := Copied(values, used, n);
      size, values := n, newValues;
      ledger.NoneInOrGone();
      assert contents[m..] == [];
      while used < n
        invariant Valid() && m <= used <= n && size == n && fresh(values) && copied == old(copied)
        invariant contents == Resized(old(contents), used, value)
        invariant ledger == old(ledger).AllIn(contents[m..])
      {
        old(ledger).OneMoreIn(contents[m..], value);
        assert (contents + [value])[m..] == contents[m..] + [value];
        Push(value);
      }
    }

    method Shrink(n: nat)
      requires Valid() && n <= used
      modifies this, values
      ensures Valid() && size == n && fresh(values) && copied == old(copied)
      ensures contents == old(contents)[..n] && ledger == old(ledger).AllGone(old(contents)[n..])
    {
      hide Ledger.Balances, Ledger.Gone, Ledger.AllGone;
      ghost var s := contents;
      var newValues := Copied(values, n, n);
      ledger.NoneInOrGone();
      assert s[used..] == [];
      while used > n
        invariant Valid() && n <= used <= |s| && values == old(values) && size == old(size) && copied == old(copied)
        invariant contents == s[..used] && ledger == old(ledger).AllGone(s[used..])
        invariant newValues[..n] == s[..n]
      {
        old(ledger).OneMoreGone(s[used..], s[used - 1]);
        TailStep(s, used);
        DeleteLast();
      }
      size, values := n, newValues;
    }

    // An entry that is popped in order to be deleted.
    method DeleteLast()
      requires Valid() && used > 0
      modifies `used, `contents, `ledger
      ensures Valid() && used == old(used) - 1 && contents == old(contents)[..used]
      ensures ledger == old(ledger).Gone(old(contents)[used])
    {
      hide Ledger.Balances, Ledger.Out, Ledger.Gone;
      ghost var before := ledger;
      before.BalanceLast(contents);
      var v := Pop();
      ledger := before.Gone(v.value);
    }
  }

  // Making room: the slot that is free moves down from the end to its place.
  lemma InsertedLast<V>(s: seq<V>, t: seq<V>)
    requires |t| == |s| + 1 && t[..|s|] == s
    ensures t == Inserted(s, |s|, t[|s|])
  {
  }

  lemma MovedUp<V>(s: seq<V>, k: nat, v: V)
    requires 0 < k <= |s|
    ensures var t := Inserted(s, k, v);
      |t| == |s| + 1 && t[k - 1] == s[k - 1] && t[k := t[k - 1]] == Inserted(s, k - 1, s[k - 1])
  {
  }

  lemma Refilled<V>(s: seq<V>, i: nat, v: V, w: V)
    requires i <= |s|
    ensures |Inserted(s, i, v)| == |s| + 1 && Inserted(s, i, v)[i := w] == Inserted(s, i, w)
  {
  }

  lemma TailStep<V>(s: seq<V>, n: nat)
    requires 0 < n <= |s|
    ensures s[n - 1..] == [s[n - 1]] + s[n..]
  {
  }

  // s while the entries after i are being moved down and k is next.
  function MovedDown<V>(s: seq<V>, i: nat, k: nat): (r: seq<V>)
    requires i <= k < |s|
    ensures |r| == |s|
  {
    s[..i] + s[i + 1..k + 1] + s[k..]
  }

  lemma MovedDownEnds<V>(s: seq<V>, i: nat)
    requires i < |s|
    ensures MovedDown(s, i, i) == s && MovedDown(s, i, |s| - 1)[..|s| - 1] == Removed(s, i)
  {
  }

  lemma MovedDownStep<V>(s: seq<V>, i: nat, k: nat)
    requires i <= k && k + 1 < |s|
    ensures var t := MovedDown(s, i, k); t[k := t[k + 1]] == MovedDown(s, i, k + 1)
  {
  }

  // Whole histories ------------------------------------------------------------

  datatype Op<V> =
    | Push(v: V) | Unshift(v: V) | Pop | Shift
    | InsertAt(v: V, i: int) | UpdateAt(v: V, i: int) | DeleteAt(i: int) | FetchAt(i: int)
    | Resize(n: nat, v: V)

  // A sequence with a capacity, and what an operation returns: the entry, if there
  // is one, and whether it read past the end of the buffer.
  datatype Model<V> = Model(items: seq<V>, capacity: nat)

  datatype Answer<V> = Answer(entry: Option<V>, overread: bool)

  function Next<V>(m: Model<V>, op: Op<V>): Model<V>
  {
    var s, n := m.items, |m.items|;
    match op
    case Push(v) => Model(s + [v], Grown(n, m.capacity))
    case Unshift(v) => Model([v] + s, Grown(n, m.capacity))
    case Pop => if s == [] then m else m.(items := s[..n - 1])
    case Shift => if s == [] then m else m.(items := s[1..])
    case InsertAt(v, i) => if 0 <= i <= n then Model(Inserted(s, i, v), Grown(n, m.capacity)) else m
    case UpdateAt(v, i) => if 0 <= i < n then m.(items := s[i := v]) else m
    case DeleteAt(i) => if 0 <= i < n then m.(items := Removed(s, i)) else m
    case FetchAt(_) => m
    case Resize(k, v) => if k == m.capacity then m else Model(Resized(s, k, v), k)
  }

  function Returned<V>(m: Model<V>, op: Op<V>): Answer<V>
  {
    var s, n := m.items, |m.items|;
    match op
    case Pop => Answer(if s == [] then None else Some(s[n - 1]), false)
    case Shift => Answer(if s == [] then None else Some(s[0]), false)
    case FetchAt(i) => Answer(if 0 <= i < n then Some(s[i]) else None, false)
    case DeleteAt(i) => Answer(None, 0 <= i < n && n == m.capacity)
    case _ => Answer(None, false)
  }

  // What an operation puts in, and the slots it copies to make room.
  function Insertions<V>(m: Model<V>, op: Op<V>): nat
  {
    match op
    case Push(_) => 1
    case Unshift(_) => 1
    case InsertAt(_, i) => if 0 <= i <= |m.items| then 1 else 0
    case _ => 0
  }

  function SlotsCopied<V>(m: Model<V>, op: Op<V>): nat
  {
    if Insertions(m, op) == 0 then 0 else GrowthCopies(|m.items|, m.capacity)
  }

  function After<V>(m: Model<V>, ops: seq<Op<V>>): Model<V>
  {
    if ops == [] then m else Next(After(m, ops[..|ops| - 1]), ops[|ops| - 1])
  }

  function Answers<V>(m: Model<V>, ops: seq<Op<V>>): seq<Answer<V>>
  {
    if ops == [] then []
    else Answers(m, ops[..|ops| - 1]) + [Returned(After(m, ops[..|ops| - 1]), ops[|ops| - 1])]
  }

  function AllInsertions<V>(m: Model<V>, ops: seq<Op<V>>): nat
  {
    if ops == [] then 0
    else AllInsertions(m, ops[..|ops| - 1]) + Insertions(After(m, ops[..|ops| - 1]), ops[|ops| - 1])
  }

  function AllSlotsCopied<V>(m: Model<V>, ops: seq<Op<V>>): nat
  {
    if ops == [] then 0
    else AllSlotsCopied(m, ops[..|ops| - 1]) + SlotsCopied(After(m, ops[..|ops| - 1]), ops[|ops| - 1])
  }

  lemma OneMore<V>(m: Model<V>, ops: seq<Op<V>>, i: nat)
    requires i < |ops|
    ensures After(m, ops[..i + 1]) == Next(After(m, ops[..i]), ops[i])
    ensures Answers(m, ops[..i + 1]) == Answers(m, ops[..i]) + [Returned(After(m, ops[..i]), ops[i])]
    ensures AllSlotsCopied(m, ops[..i + 1]) == AllSlotsCopied(m, ops[..i]) + SlotsCopied(After(m, ops[..i]), ops[i])
  {
    assert ops[..i + 1][..i] == ops[..i];
  }

  // The capacity never falls short of the contents.
  lemma {:induction false} CapacitySuffices<V>(m: Model<V>, ops: seq<Op<V>>)
    requires |m.items| <= m.capacity
    ensures |After(m, ops).items| <= After(m, ops).capacity
  {
    if ops != [] {
      CapacitySuffices(m, ops[..|ops| - 1]);
    }
  }

  // Growth by doubling is paid for by insertions, whatever is removed in between:
  // without explicit resizes a fresh vector copies at most twice as many slots as
  // entries are put in.
  lemma {:induction false} GrowthIsPaid<V>(capacity: nat, ops: seq<Op<V>>)
    requires forall i :: 0 <= i < |ops| ==> !ops[i].Resize?
    ensures AllSlotsCopied(Model([], capacity), ops) <= 2 * AllInsertions(Model([], capacity), ops)
  {
    GrowthAccount(capacity, ops);
  }

  lemma {:induction false} GrowthAccount<V>(capacity: nat, ops: seq<Op<V>>)
    requires forall i :: 0 <= i < |ops| ==> !ops[i].Resize?
    ensures var m := After(Model([], capacity), ops);
      Paid(m, AllInsertions(Model([], capacity), ops), AllSlotsCopied(Model([], capacity), ops))
  {
    if ops != [] {
      var rest := ops[..|ops| - 1];
      GrowthAccount(capacity, rest);
      PaidStep(After(Model([], capacity), rest), ops[|ops| - 1], AllInsertions(Model([], capacity), rest),
        AllSlotsCopied(Model([], capacity), rest));
    }
  }

  predicate Paid<V>(m: Model<V>, inserts: nat, copied: nat)
  {
    |m.items| <= inserts && copied <= m.capacity && (copied > 0 ==> m.capacity <= 2 * inserts)
  }

  lemma PaidStep<V>(m: Model<V>, op: Op<V>, inserts: nat, copied: nat)
    requires Paid(m, inserts, copied) && !op.Resize?
    ensures Paid(Next(m, op), inserts + Insertions(m, op), copied + SlotsCopied(m, op))
  {
  }

  // A full vector overreads, and one with spare capacity ignores a resize to it.
  lemma {:induction false} OverreadIsReachable<V>(v: V)
    ensures Answers(Model([], 0), [Push(v), DeleteAt(0)]) == [Answer(None, false), Answer(None, true)]
  {
    var ops: seq<Op<V>> := [Push(v), DeleteAt(0)];
    OneMore(Model([], 0), ops, 0);
    OneMore(Model([], 0), ops, 1);
    assert ops[..2] == ops;
  }

  lemma {:induction false} ResizeIsIgnored<V>(v: V, w: V)
    ensures After(Model([], 0), [Push(v), Push(v), Pop, Resize(2, w)]) == Model([v], 2) != Model(Resized([v], 2, w), 2)
  {
    var ops: seq<Op<V>> := [Push(v), Push(v), Pop, Resize(2, w)];
    OneMore(Model([], 0), ops, 0);
    OneMore(Model([], 0), ops, 1);
    OneMore(Model([], 0), ops, 2);
    OneMore(Model([], 0), ops, 3);
    assert After(Model([], 0), ops[..2]) == Model([v, v], 2);
    assert ops[..4] == ops;
  }

  // One operation on a vector is one step of the model.
  method Apply<V(0)>(vector: Vector<V>, op: Op<V>, ghost m: Model<V>) returns (answer: Answer<V>)
    requires vector.Valid() && m == Model(vector.contents, vector.size)
    modifies vector, vector.values
    ensures vector.Valid() && (vector.values == old(vector.values) || fresh(vector.values))
    ensures Model(vector.contents, vector.size) == Next(m, op) && answer == Returned(m, op)
    ensures vector.copied == old(vector.copied) + SlotsCopied(m, op)
  {
    hide Vector.Valid, Inserted, Removed, Resized, Grown, GrowthCopies;
    SizesMatch(vector);
    if vector.contents != [] {
      RemovedSize(vector.contents, 0);
    }
    answer := Answer(None, false);
    match op {
      case Push(v) => vector.Push(v);
      case Unshift(v) => vector.Unshift(v);
      case Pop =>
        var r := vector.Pop();
        answer := Answer(r, false);
      case Shift =>
        var r := vector.Shift();
        answer := Answer(r, false);
      case InsertAt(v, i) =>
        var ok := vector.InsertAt(v, i);
      case UpdateAt(v, i) =>
        var ok := vector.UpdateAt(v, i);
      case DeleteAt(i) =>
        var ok, overread := vector.DeleteAt(i);
        answer := Answer(None, overread);
      case FetchAt(i) =>
        var r := vector.FetchAt(i);
        answer := Answer(r, false);
      case Resize(n, v) => vector.Resize(n, v);
    }
  }

  lemma SizesMatch<V(0)>(vector: Vector<V>)
    requires vector.Valid()
    ensures |vector.contents| == vector.used
  {
  }

  // A vector replays every history as the model does.
  method Replay<V(0)>(capacity: nat, ops: seq<Op<V>>)
    returns (answers: seq<Answer<V>>, items: seq<V>, size: nat, ghost copied: nat)
    ensures answers == Answers(Model([], capacity), ops)
    ensures Model(items, size) == After(Model([], capacity), ops)
    ensures copied == AllSlotsCopied(Model([], capacity), ops)
  {
    hide Vector.Valid, Next, Returned, SlotsCopied;
    ghost var start: Model<V> := Model([], capacity);
    var vector := new Vector<V>(capacity);
    answers := [];
    var i: nat := 0;
    while i < |ops|
      invariant i <= |ops| && vector.Valid() && fresh(vector) && fresh(vector.values)
      invariant Model(vector.contents, vector.size) == After(start, ops[..i])
      invariant answers == Answers(start, ops[..i]) && vector.copied == AllSlotsCopied(start, ops[..i])
    {
      OneMore(start, ops, i);
      var answer := Apply(vector, ops[i], After(start, ops[..i]));
      answers := answers + [answer];
      i := i + 1;
    }
    assert ops[..i] == ops;
    items, size := Stored(vector);
    copied := vector.copied;
  }

  method Stored<V(0)>(vector: Vector<V>) returns (items: seq<V>, size: nat)
    requires vector.Valid()
    ensures items == vector.contents && size == vector.size
  {
    items, size := vector.values[..vector.used], vector.size;
  }
}
