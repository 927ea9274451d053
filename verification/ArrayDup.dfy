// Hard copies of Zend values (src/pht_zend.c): arrays, whose holes are squeezed
// out and whose collision chains are rebuilt, constant syntax trees and strings,
// copied in mutual recursion. `next` is the next block the allocator hands out.

module ArrayDup {
  import opened Options
  import opened Bits
  import opened ZendValues
  import opened Chains

  // Copies in progress -----------------------------------------------------------

  // dst holds copies of the live elements of src.
  ghost predicate DataCopy(src: seq<Bucket>, dst: seq<Bucket>, lo: nat, hi: nat)
  {
    Pairs(dst) == Pairs(src) && Renewed(DataNodes(dst), DataTaken(src), lo, hi)
  }

  // c is a copy of the live element b.
  ghost predicate BucketCopy(b: Bucket, c: Bucket, lo: nat, hi: nat)
  {
    && b.slot.Live() && c.slot.Direct?
    && PairOf(c) == PairOf(b)
    && Renewed(BucketNodes(c), BucketTaken(b), lo, hi)
  }

  lemma CopiedOne(src: seq<Bucket>, dst: seq<Bucket>, b: Bucket, c: Bucket, lo: nat, mid: nat, hi: nat)
    requires DataCopy(src, dst, lo, mid) && BucketCopy(b, c, mid, hi)
    ensures DataCopy(src + [b], dst + [c], lo, hi)
  {
    OneMoreBucket(src, b);
    OneMoreBucket(dst, c);
    hide Pairs, DataNodes, DataTaken, BucketNodes, BucketTaken, Renewed, PairOf;
    RenewedBoth(DataNodes(dst), BucketNodes(c), DataTaken(src), BucketTaken(b), lo, mid, hi);
  }

  lemma OneMoreBucket(data: seq<Bucket>, b: Bucket)
    ensures Pairs(data + [b]) == Pairs(data) + if b.slot.Live() then [PairOf(b)] else []
    ensures DataNodes(data + [b]) == DataNodes(data) + BucketNodes(b)
    ensures DataTaken(data + [b]) == DataTaken(data) + BucketTaken(b)
  {
    assert (data + [b])[..|data|] == data;
  }

  lemma SkippedOne(src: seq<Bucket>, dst: seq<Bucket>, b: Bucket, lo: nat, hi: nat)
    requires DataCopy(src, dst, lo, hi) && !b.slot.Live()
    ensures DataCopy(src + [b], dst, lo, hi)
    ensures forall c: Bucket :: !c.slot.Live() ==> DataCopy(src + [b], dst + [c], lo, hi)
  {
    NotLiveAdds(src, b);
    hide Pairs, DataNodes, DataTaken;
    forall c: Bucket | !c.slot.Live()
      ensures DataCopy(src + [b], dst + [c], lo, hi)
    {
      NotLiveAdds(dst, c);
    }
  }

  lemma NotLiveAdds(data: seq<Bucket>, b: Bucket)
    requires !b.slot.Live()
    ensures Pairs(data + [b]) == Pairs(data)
    ensures DataNodes(data + [b]) == DataNodes(data) && DataTaken(data + [b]) == DataTaken(data)
  {
    assert (data + [b])[..|data|] == data;
  }

  lemma LiveCountStep(data: seq<Bucket>, i: nat)
    requires i < |data|
    ensures |Pairs(data[..i + 1])| == |Pairs(data[..i])| + if data[i].slot.Live() then 1 else 0
    ensures data[i].slot.Live() ==> Pairs(data[..i + 1])[|Pairs(data[..i])|] == PairOf(data[i])
  {
    assert data[..i + 1][..i] == data[..i];
  }

  // Values -----------------------------------------------------------------------

  // zend_string_dup: an interned string is shared, any other gets a block of its own.
  method DupString(s: ZString, next: nat) returns (r: ZString, next': nat)
    ensures r.chars == s.chars && r.interned == s.interned
    ensures s.interned ==> r == s && next' == next
    ensures !s.interned ==> r.id == next && next' == next + 1
    ensures Renewed(StringNodes(r), StringTaken(s), next, next')
  {
    if s.interned {
      RenewedSame(StringNodes(s), next);
      return s, next;
    }
    RenewedOne(StringNode(next, false));
    return ZString(next, s.chars, false), next + 1;
  }

  // PHT_ZVAL_DUP with _pht_zval_copy_ctor_func
  method DupValue(v: Val, next: nat) returns (r: Val, next': nat)
    requires Proper(v)
    ensures CopyOf(v, r, next, next')
    ensures match v
      case Scalar(_) => r == v && next' == next
      case Text(s) => r.Text? && r.str.chars == s.chars && r.str.interned == s.interned && (s.interned ==> r == v)
      case Constant(s) =>
        r.Constant? && r.str.chars == s.chars && r.str.interned == s.interned && (s.interned ==> r == v)
      case Table(a) => r.Table? && WellCopied(a, r.arr)
      case ConstantAst(_, _) => r.ConstantAst?
      case Counted(_) => r == v && next' == next
    decreases v, 2
  {
    hide Renewed, WellCopied, DataNodes, DataTaken, AstNodes, AstTaken, Pairs, TreeOf;
    match v
    case Scalar(_) =>
      RenewedNone(next);
      r, next' := v, next;
    case Text(s) =>
      var t;
      t, next' := DupString(s, next);
      r := Text(t);
    case Constant(s) =>
      var t;
      t, next' := DupString(s, next);
      r := Constant(t);
    case Table(a) =>
      var b;
      b, next' := DupArray(a, next);
      r := Table(b);
    case ConstantAst(_, t) =>
      var c, n := DupAst(t, next);
      RenewedLast(TreeNode(n), AstNodes(c), AstTaken(t), next);
      r, next' := ConstantAst(n, c), n + 1;
    case Counted(_) =>
      RenewedNone(next);
      r, next' := v, next;
  }

  // pht_zend_ast_copy
  method DupAst(t: Ast, next: nat) returns (r: Ast, next': nat)
    requires ProperAst(t)
    ensures TreeOf(r) == TreeOf(t) && Renewed(AstNodes(r), AstTaken(t), next, next')
    ensures match t
      case NullAst => r == NullAst
      case ZvalAst(_, attr, _) => r.ZvalAst? && r.attr == attr
      case NodeAst(_, kind, attr, children) =>
        r.NodeAst? && r.kind == kind && r.attr == attr && |r.children| == |children|
    decreases t, 2
  {
    hide Renewed, WellCopied, Nodes, Taken, ShapeOf, AstsNodes, AstsTaken, Trees;
    match t
    case NullAst =>
      RenewedNone(next);
      r, next' := NullAst, next;
    case ZvalAst(_, attr, v) =>
      var c, n := DupValue(v, next + 1);
      RenewedFirst(TreeNode(next), Nodes(c), Taken(v), n);
      r, next' := ZvalAst(next, attr, c), n;
    case NodeAst(_, kind, attr, children) =>
      var copies;
      copies, next' := DupChildren(t, next + 1);
      RenewedFirst(TreeNode(next), AstsNodes(copies), AstsTaken(children), next');
      r := NodeAst(next, kind, attr, copies);
  }

  // The loop over the children of a node.
  method DupChildren(t: Ast, next: nat) returns (copies: seq<Ast>, next': nat)
    requires t.NodeAst? && ProperAst(t)
    ensures |copies| == |t.children| && Trees(copies) == Trees(t.children)
    ensures Renewed(AstsNodes(copies), AstsTaken(t.children), next, next')
    decreases t, 1
  {
    hide Renewed, AstsNodes, AstsTaken, Trees, TreeOf, AstNodes, AstTaken;
    var children := t.children;
    copies, next' := [], next;
    NoChildren(next);
    assert children[..0] == [];
    var i := 0;
    while i < |children|
      invariant 0 <= i <= |children| && |copies| == i
      invariant Trees(copies) == Trees(children[..i])
      invariant Renewed(AstsNodes(copies), AstsTaken(children[..i]), next, next')
    {
      var c, n := DupAst(children[i], next');
      assert children[..i + 1] == children[..i] + [children[i]];
      OneMoreChild(children[..i], children[i]);
      OneMoreChild(copies, c);
      RenewedBoth(AstsNodes(copies), AstNodes(c), AstsTaken(children[..i]), AstTaken(children[i]), next, next', n);
      copies, next' := copies + [c], n;
      i := i + 1;
    }
    assert children[..i] == children;
  }

  lemma NoChildren(next: nat)
    ensures Renewed(AstsNodes([]), AstsTaken([]), next, next)
  {
    RenewedNone(next);
  }

  lemma OneMoreChild(ts: seq<Ast>, t: Ast)
    ensures Trees(ts + [t]) == Trees(ts) + [TreeOf(t)]
    ensures AstsNodes(ts + [t]) == AstsNodes(ts) + AstNodes(t)
    ensures AstsTaken(ts + [t]) == AstsTaken(ts) + AstTaken(t)
  {
    assert (ts + [t])[..|ts|] == ts;
  }

  // Arrays -----------------------------------------------------------------------

  // pht_zend_array_dup_element: copy element p to slot j of the target and put it
  // at the head of its collision chain, or report that p is unset. The target's
  // data and hash parts are changed in place.
  method DupElement(p: Bucket, data: array<Bucket>, heads: array<Option<nat>>, j: nat, packed: bool, staticKeys: bool,
                    withHoles: bool, next: nat) returns (ok: bool, next': nat)
    requires ProperBucket(p) && j < data.Length && heads.Length > 0
    requires !withHoles ==> !p.slot.Hole?
    requires packed ==> p.key == None && (p.slot.Hole? || p.slot.Direct?)
    requires staticKeys && p.key.Some? ==> p.key.value.interned
    modifies data, heads
    ensures ok <==> p.slot.Live()
    ensures !ok ==> data[..] == old(data[..]) && heads[..] == old(heads[..]) && next' == next
    ensures ok ==> data[..] == old(data[..])[j := data[j]] && BucketCopy(p, data[j], next, next')
    ensures ok && packed ==> heads[..] == old(heads[..])
    ensures ok && !packed ==>
      var s := Home(data[j].h, heads.Length);
      data[j].next == old(heads[s]) && heads[..] == old(heads[..])[s := Some(j)]
    decreases p, 3
  {
    hide Home, BucketCopy, CopyOf, ShapeOf, Renewed, Nodes, Taken, WellCopied, Proper;
    next' := next;
    // Z_TYPE_INFO_P(data) after following a pointer to a slot elsewhere
    if withHoles {
      if p.slot.Hole? || (!packed && p.slot.IndirectHole?) {
        return false, next;
      }
    } else if !packed && p.slot.IndirectHole? {
      return false, next;
    }
    var v;
    v, next' := DupValue(p.slot.v, next);
    ghost var mid := next';
    if packed {
      RenewedNone(mid);
      data[j] := Bucket(Direct(v), p.h, None, None);
    } else {
      var key := p.key;
      if !staticKeys && key.Some? {
        var k;
        k, next' := DupString(key.value, next');
        key := Some(k);
      } else {
        RenewedSame(KeyNodes(key), mid);
      }
      var s := Home(p.h, heads.Length);
      data[j] := Bucket(Direct(v), p.h, key, heads[s]);
      heads[s] := Some(j);
    }
    CopiedBucket(p, data[j], next, mid, next');
    return true, next';
  }

  lemma CopiedBucket(b: Bucket, c: Bucket, lo: nat, mid: nat, hi: nat)
    requires b.slot.Live() && c.slot.Direct? && c.h == b.h && KeyChars(c.key) == KeyChars(b.key)
    requires CopyOf(b.slot.v, c.slot.v, lo, mid) && Renewed(KeyNodes(c.key), KeyTaken(b.key), mid, hi)
    ensures BucketCopy(b, c, lo, hi)
  {
    hide Renewed, Nodes, Taken, KeyNodes, KeyTaken;
    RenewedBoth(Nodes(c.slot.v), KeyNodes(c.key), Taken(b.slot.v), KeyTaken(b.key), lo, mid, hi);
    assert Nodes(c.slot.v) + KeyNodes(c.key) == KeyNodes(c.key) + Nodes(c.slot.v);
    assert Taken(b.slot.v) + KeyTaken(b.key) == KeyTaken(b.key) + Taken(b.slot.v);
  }

  // The target after the first i elements of the source: their copies without
  // holes, with all chains in order.
  ghost predicate Built(src: seq<Bucket>, i: nat, dst: seq<Bucket>, heads: seq<Option<nat>>, lo: nat, hi: nat)
  {
    && i <= |src| && DataCopy(src[..i], dst, lo, hi)
    && AllDirect(dst) && Linked(dst, heads) && |dst| == |Pairs(src[..i])|
  }

  lemma BuiltOne(src: seq<Bucket>, i: nat, dst: seq<Bucket>, heads: seq<Option<nat>>, c: Bucket,
                 lo: nat, mid: nat, hi: nat)
    requires i < |src| && Built(src, i, dst, heads, lo, mid) && BucketCopy(src[i], c, mid, hi)
    requires c.next == heads[Home(c.h, |heads|)]
    ensures Built(src, i + 1, dst + [c], heads[Home(c.h, |heads|) := Some(|dst|)], lo, hi)
  {
    hide Home, Linked, DataCopy, BucketCopy, Pairs;
    LiveCountStep(src, i);
    BucketCopyLive(src[i], c, mid, hi);
    assert src[..i + 1] == src[..i] + [src[i]];
    CopiedOne(src[..i], dst, src[i], c, lo, mid, hi);
    Link(dst, heads, c);
  }

  lemma BucketCopyLive(b: Bucket, c: Bucket, lo: nat, hi: nat)
    requires BucketCopy(b, c, lo, hi)
    ensures b.slot.Live() && c.slot.Direct? && PairOf(c) == PairOf(b)
  {
  }

  lemma BuiltNone(src: seq<Bucket>, i: nat, dst: seq<Bucket>, heads: seq<Option<nat>>, lo: nat, hi: nat)
    requires i < |src| && Built(src, i, dst, heads, lo, hi) && !src[i].slot.Live()
    ensures Built(src, i + 1, dst, heads, lo, hi)
  {
    hide Home, Linked, DataCopy, Pairs;
    LiveCountStep(src, i);
    assert src[..i + 1] == src[..i] + [src[i]];
    SkippedOne(src[..i], dst, src[i], lo, hi);
  }

  // Where the internal pointer goes: it follows a live element, and keeps its
  // number otherwise.
  function MovedPointer(data: seq<Bucket>, pointer: Option<nat>): Option<nat>
  {
    if pointer.Some? && pointer.value < |data| && data[pointer.value].slot.Live()
    then Some(|Pairs(data[..pointer.value])|)
    else pointer
  }

  // The pointer while the first i elements have been copied.
  function PointerSoFar(data: seq<Bucket>, pointer: Option<nat>, i: nat): Option<nat>
    requires i <= |data|
  {
    if pointer.Some? && pointer.value < i then MovedPointer(data, pointer) else pointer
  }

  // pht_zend_array_dup_elements: up to the first unset element source and target
  // advance together; from there on the target falls behind.
  method DupElements(a: ZArray, data: array<Bucket>, heads: array<Option<nat>>, staticKeys: bool, withHoles: bool,
                     next: nat)
    returns (used: nat, pointer: Option<nat>, next': nat)
    requires ProperTable(a) && ProperData(a.data) && !a.packed && a.data != []
    requires staticKeys == a.staticKeys && withHoles == (|a.data| != a.elements)
    requires data.Length == heads.Length == a.tableSize && forall s :: 0 <= s < heads.Length ==> heads[s] == None
    modifies data, heads
    ensures used <= data.Length && Built(a.data, |a.data|, data[..used], heads[..], next, next')
    ensures pointer == MovedPointer(a.data, a.pointer)
    decreases a, 0
  {
    hide Home, Built, Pairs, PairOf, BucketCopy, Proper, UsedCount, IsPowerOfTwo;
    BuiltNothing(a.data, heads[..], next);
    pointer, next' := a.pointer, next;
    var i: nat := 0;
    while i < |a.data|
      invariant i <= |a.data| && Built(a.data, i, data[..i], heads[..], next, next')
      invariant pointer == PointerSoFar(a.data, a.pointer, i)
    {
      ghost var dst, hs, mid := data[..i], heads[..], next';
      var ok;
      ok, next' := DupElement(a.data[i], data, heads, i, false, staticKeys, withHoles, next');
      if !ok {
        BuiltNone(a.data, i, data[..i], heads[..], next, next');
        used, i := i, i + 1;
        while i < |a.data|
          invariant used < i <= |a.data| && Built(a.data, i, data[..used], heads[..], next, next')
          invariant pointer == PointerSoFar(a.data, a.pointer, i)
        {
          dst, hs, mid := data[..used], heads[..], next';
          ok, next' := DupElement(a.data[i], data, heads, used, false, staticKeys, withHoles, next');
          BuiltSize(a.data, i, dst, hs, next, mid);
          if ok {
            assert data[..used + 1] == dst + [data[used]];
            BuiltOne(a.data, i, dst, hs, data[used], next, mid, next');
            if a.pointer == Some(i) {
              pointer := Some(used);
            }
            used := used + 1;
          } else {
            assert data[..used] == dst;
            BuiltNone(a.data, i, dst, hs, next, mid);
          }
          i := i + 1;
        }
        return used, pointer, next';
      }
      assert data[..i + 1] == dst + [data[i]];
      BuiltSize(a.data, i, dst, hs, next, mid);
      BuiltOne(a.data, i, dst, hs, data[i], next, mid, next');
      i := i + 1;
    }
    return i, pointer, next';
  }

  lemma BuiltNothing(src: seq<Bucket>, heads: seq<Option<nat>>, lo: nat)
    requires |heads| > 0 && forall s :: 0 <= s < |heads| ==> heads[s] == None
    ensures Built(src, 0, [], heads, lo, lo)
  {
  }

  lemma BuiltSize(src: seq<Bucket>, i: nat, dst: seq<Bucket>, heads: seq<Option<nat>>, lo: nat, hi: nat)
    requires Built(src, i, dst, heads, lo, hi)
    ensures i <= |src| && |dst| == |Pairs(src[..i])| && |heads| > 0
  {
  }

  // Position by position: element k of the copy is unset or a copy of element k.
  predicate SamePlaces(src: seq<Bucket>, dst: seq<Bucket>)
  {
    |dst| == |src| && forall k :: 0 <= k < |src| ==>
      if src[k].slot.Live() then dst[k].slot.Direct? && PairOf(dst[k]) == PairOf(src[k]) else dst[k].slot.Hole?
  }

  // pht_zend_array_dup_packed_elements: every element keeps its place, holes too.
  method DupPackedElements(a: ZArray, data: array<Bucket>, heads: array<Option<nat>>, withHoles: bool, next: nat)
    returns (next': nat)
    requires ProperTable(a) && ProperData(a.data) && a.packed && a.data != []
    requires withHoles == (|a.data| != a.elements)
    requires data.Length == a.tableSize && heads.Length > 0
    modifies data, heads
    ensures DataCopy(a.data, data[..|a.data|], next, next') && SamePlaces(a.data, data[..|a.data|])
    ensures heads[..] == old(heads[..])
    decreases a, 0
  {
    hide Home, Pairs, PairOf, BucketCopy, Proper, UsedCount, DataCopy;
    CopiedNothing(next);
    next' := next;
    var i: nat := 0;
    while i < |a.data|
      invariant i <= |a.data| && DataCopy(a.data[..i], data[..i], next, next')
      invariant SamePlaces(a.data[..i], data[..i]) && heads[..] == old(heads[..])
    {
      ghost var dst, mid := data[..i], next';
      var ok;
      ok, next' := DupElement(a.data[i], data, heads, i, true, false, withHoles, next');
      if !ok && withHoles {
        data[i] := data[i].(slot := Hole);
      }
      assert a.data[..i + 1] == a.data[..i] + [a.data[i]] && data[..i + 1] == dst + [data[i]];
      if ok {
        BucketCopyLive(a.data[i], data[i], mid, next');
        CopiedOne(a.data[..i], dst, a.data[i], data[i], next, mid, next');
      } else {
        SkippedOne(a.data[..i], dst, a.data[i], next, mid);
      }
      i := i + 1;
    }
    assert a.data[..i] == a.data;
  }

  lemma CopiedNothing(lo: nat)
    ensures DataCopy([], [], lo, lo)
  {
    RenewedNone(lo);
  }

  // The first element that is not unset, for an internal pointer that was invalid.
  function FirstUsed(data: seq<Bucket>): (r: Option<nat>)
    ensures match r
      case Some(i) => i < |data| && !data[i].slot.Hole? && forall k :: 0 <= k < i ==> data[k].slot.Hole?
      case None => forall k :: 0 <= k < |data| ==> data[k].slot.Hole?
  {
    if data == [] then None
    else
      var rest := data[..|data| - 1];
      assert forall k :: 0 <= k < |rest| ==> rest[k] == data[k];
      if FirstUsed(rest).Some? then FirstUsed(rest)
      else if data[|data| - 1].slot.Hole? then None
      else Some(|data| - 1)
  }

  method ResetPointer(data: seq<Bucket>, elements: nat, pointer: Option<nat>) returns (r: Option<nat>)
    requires elements == UsedCount(data)
    ensures r == if pointer == None then FirstUsed(data) else pointer
  {
    r := pointer;
    UsedOrNot(data);
    if elements > 0 && pointer == None {
      var idx: nat := 0;
      while data[idx].slot.Hole?
        invariant idx < |data| && forall k :: 0 <= k < idx ==> data[k].slot.Hole?
        decreases |data| - idx
      {
        idx := idx + 1;
      }
      r := Some(idx);
    }
  }

  lemma {:induction false} UsedOrNot(data: seq<Bucket>)
    ensures UsedCount(data) > 0 <==> FirstUsed(data).Some?
  {
    if data != [] {
      UsedOrNot(data[..|data| - 1]);
    }
  }

  // What the copy of an array looks like beyond its shape.
  ghost predicate WellCopied(a: ZArray, r: ZArray)
  {
    && r.tableSize == a.tableSize && !r.immutable
    // an array without used buckets starts afresh, whatever its next free index was
    && (a.data == [] ==> r.data == [] && r.elements == 0 && r.nextFree == 0 && r.pointer == None
                          && !r.packed && r.staticKeys && r.heads == [None, None])
    && (a.data != [] ==> r.nextFree == a.nextFree && r.packed == a.packed && r.staticKeys == a.staticKeys)
    // hash form: no holes, chains in order, the pointer still on the same element
    && (a.data != [] && !a.immutable && !a.packed ==>
        && AllDirect(r.data) && Linked(r.data, r.heads) && |r.heads| == a.tableSize
        && r.elements == |r.data| == |Pairs(a.data)|
        && r.pointer == (
             if a.pointer.Some? then MovedPointer(a.data, a.pointer)
             else if |r.data| > 0 then Some(0) else None))
    // packed form: every element in its place
    && (a.data != [] && !a.immutable && a.packed ==>
        && SamePlaces(a.data, r.data) && r.elements == a.elements && r.heads == [None, None]
        && r.pointer == if a.pointer.Some? then a.pointer else FirstUsed(a.data))
    // immutable source: the buckets are the source's own
    && (a.data != [] && a.immutable ==>
        && r.data == a.data && r.heads == a.heads && r.elements == a.elements
        && r.pointer == if a.pointer.Some? then a.pointer else FirstUsed(a.data))
  }

  // pht_zend_array_dup
  method DupArray(a: ZArray, next: nat) returns (r: ZArray, next': nat)
    requires ProperTable(a) && ProperData(a.data)
    ensures CopyOf(Table(a), Table(r), next, next')
    ensures WellCopied(a, r)
    decreases a, 2
  {
    hide Home, PairOf, UsedCount, Proper, Linked, AllDirect, CopyOf;
    if a.data == [] {
      r := ZArray(next, false, false, true, a.tableSize, 0, 0, None, [], [None, None]);
      next' := next + 1;
      SharedCopy(a, r, next);
    } else if a.immutable {
      var pointer := ResetPointer(a.data, a.elements, a.pointer);
      r := a.(id := next, immutable := false, pointer := pointer);
      next' := next + 1;
      SharedCopy(a, r, next);
    } else if a.packed {
      hide WellCopied;
      r, next' := DupPacked(a, next);
    } else {
      hide WellCopied;
      r, next' := DupHash(a, next);
    }
  }

  // Its packed branch.
  method DupPacked(a: ZArray, next: nat) returns (r: ZArray, next': nat)
    requires ProperTable(a) && ProperData(a.data) && a.data != [] && !a.immutable && a.packed
    ensures CopyOf(Table(a), Table(r), next, next')
    ensures WellCopied(a, r)
    decreases a, 1
  {
    hide Home, Pairs, PairOf, UsedCount, Proper, Linked, AllDirect, CopyOf, DataCopy;
    var data := new Bucket[a.tableSize](_ => Bucket(Hole, 0, None, None));
    var heads := new Option<nat>[2](_ => None);
    next' := DupPackedElements(a, data, heads, a.elements != |a.data|, next + 1);
    var copied := data[..|a.data|];
    SamePlacesCount(a.data, copied);
    var pointer := ResetPointer(copied, a.elements, a.pointer);
    r := ZArray(next, false, true, a.staticKeys, a.tableSize, a.elements, a.nextFree, pointer, copied, heads[..]);
    assert heads[..] == [None, None];
    TableCopy(a, r, next, next');
  }

  // Its hash-form branch.
  method DupHash(a: ZArray, next: nat) returns (r: ZArray, next': nat)
    requires ProperTable(a) && ProperData(a.data) && a.data != [] && !a.immutable && !a.packed
    ensures CopyOf(Table(a), Table(r), next, next')
    ensures WellCopied(a, r)
    decreases a, 1
  {
    hide Home, PairOf, UsedCount, Proper, Linked, AllDirect, CopyOf, DataCopy;
    var data := new Bucket[a.tableSize](_ => Bucket(Hole, 0, None, None));
    var heads := new Option<nat>[a.tableSize](_ => None);
    var used, pointer;
    used, pointer, next' := DupElements(a, data, heads, a.staticKeys, a.elements != |a.data|, next + 1);
    BuiltSize(a.data, |a.data|, data[..used], heads[..], next + 1, next');
    assert a.data[..|a.data|] == a.data;
    if used > 0 && pointer == None {
      pointer := Some(0);
    }
    r := ZArray(next, false, false, a.staticKeys, a.tableSize, used, a.nextFree, pointer, data[..used], heads[..]);
    TableCopy(a, r, next, next');
  }

  lemma TableCopy(a: ZArray, r: ZArray, lo: nat, hi: nat)
    requires !a.immutable && !r.immutable && r.id == lo && DataCopy(a.data, r.data, lo + 1, hi)
    ensures CopyOf(Table(a), Table(r), lo, hi)
  {
    RenewedFirst(ArrayNode(lo, false), DataNodes(r.data), DataTaken(a.data), hi);
    hide Renewed, DataNodes, DataTaken, Pairs;
  }

  lemma SharedCopy(a: ZArray, r: ZArray, lo: nat)
    requires (a.immutable || a.data == []) && !r.immutable && r.id == lo && r.data == a.data
    ensures CopyOf(Table(a), Table(r), lo, lo + 1)
  {
    RenewedSame(DataNodes(a.data), lo + 1);
    RenewedFirst(ArrayNode(lo, false), DataNodes(r.data), DataNodes(a.data), lo + 1);
    assert a.data == [] ==> DataTaken(a.data) == DataNodes(a.data);
    assert Taken(Table(a)) == DataNodes(a.data);
    hide Renewed, Pairs, DataNodes, DataTaken;
  }

  // Copies keep places, so they have as many used elements, and the same first one.
  lemma {:induction false} SamePlacesCount(src: seq<Bucket>, dst: seq<Bucket>)
    requires SamePlaces(src, dst) && forall k :: 0 <= k < |src| ==> !src[k].slot.IndirectHole?
    ensures UsedCount(dst) == UsedCount(src) && FirstUsed(dst) == FirstUsed(src)
  {
    if src != [] {
      SamePlacesCount(src[..|src| - 1], dst[..|dst| - 1]);
    }
  }

  // Consequences -----------------------------------------------------------------

  // The arrays that can be copied: any whose buckets fit a size that is a power of two
  // and are counted right, with keys and pointers to slots only in hash form, and with
  // interned keys only if it says so.
  lemma WhichArrays(a: ZArray)
    ensures ProperTable(a) <==>
      && IsPowerOfTwo(a.tableSize) && |a.data| <= a.tableSize && a.elements == UsedCount(a.data)
      && (forall i :: 0 <= i < |a.data| ==>
           && (a.packed ==> a.data[i].key.None? && !a.data[i].slot.Indirect? && !a.data[i].slot.IndirectHole?)
           && (a.staticKeys && a.data[i].key.Some? ==> a.data[i].key.value.interned))
    ensures HashForm(a) <==> a.data != [] && !a.immutable && !a.packed
  {
  }

  predicate HashForm(a: ZArray)
  {
    a.data != [] && !a.immutable && !a.packed
  }

  // A lookup in the copy of a hash-form array, along the rebuilt chain, gives what a
  // lookup along the source's chain gives.
  lemma CopyLooksUp(a: ZArray, r: ZArray, lo: nat, hi: nat, h: int, key: Option<string>)
    requires HashForm(a) && WellCopied(a, r) && CopyOf(Table(a), Table(r), lo, hi)
    requires Linked(a.data, a.heads) && UniqueBuckets(a.data)
    ensures Lookup(r.data, r.heads, h, key) == Lookup(a.data, a.heads, h, key)
  {
    assert Pairs(r.data) == Pairs(a.data);
    hide Home, Linked, Lookup, Pairs, FindPair, UniqueBuckets;
    LookupAgrees(a.data, a.heads, h, key);
    UniquePairs(a.data);
    UniqueCopies(r.data);
    LookupAgrees(r.data, r.heads, h, key);
  }

  lemma UniqueCopies(data: seq<Bucket>)
    requires AllDirect(data) && UniqueKeys(Pairs(data))
    ensures UniqueBuckets(data)
  {
    PairsOfDirect(data);
    hide Pairs, KeyChars, ShapeOf;
  }

  lemma {:induction false} AllLiveIffFull(data: seq<Bucket>)
    ensures |Pairs(data)| <= |data|
    ensures |Pairs(data)| == |data| <==> forall k :: 0 <= k < |data| ==> data[k].slot.Live()
  {
    if data != [] {
      var rest := data[..|data| - 1];
      AllLiveIffFull(rest);
      assert forall k :: 0 <= k < |rest| ==> rest[k] == data[k];
    }
  }

  // The internal pointer stands for the first live element from there on, and for
  // the end if there is none.
  function FirstLive(data: seq<Bucket>, i: nat): (r: Option<nat>)
    ensures r.Some? ==> i <= r.value < |data| && data[r.value].slot.Live()
    ensures forall k :: i <= k < (if r.Some? then r.value else |data|) ==> !data[k].slot.Live()
    decreases |data| - i
  {
    if i >= |data| then None else if data[i].slot.Live() then Some(i) else FirstLive(data, i + 1)
  }

  function Designated(data: seq<Bucket>, pointer: Option<nat>): Option<nat>
  {
    if pointer.Some? then FirstLive(data, pointer.value) else None
  }

  // The copy's pointer stands for the copy of what the source's stands for.
  predicate KeepsPlace(a: ZArray, r: ZArray)
  {
    Designated(r.data, r.pointer) ==
      match Designated(a.data, a.pointer)
      case Some(j) => Some(|Pairs(a.data[..j])|)
      case None => None
  }

  // It does exactly if it is on a live element, or nothing unset comes before it,
  // or nothing live comes from there on: a pointer on an unset element keeps its
  // number while the elements after it move down. A pointer that was at the end
  // as HT_INVALID_IDX is rewound, which shows if there is any element.
  lemma PointerKeepsPlaceIff(a: ZArray, r: ZArray)
    requires HashForm(a) && WellCopied(a, r)
    ensures KeepsPlace(a, r) <==>
      match a.pointer
      case Some(i) =>
        || (i < |a.data| && a.data[i].slot.Live())
        || (forall k :: 0 <= k < i && k < |a.data| ==> a.data[k].slot.Live())
        || (forall k :: i <= k < |a.data| ==> !a.data[k].slot.Live())
      case None => forall k :: 0 <= k < |a.data| ==> !a.data[k].slot.Live()
  {
    hide Linked;
    DirectIsLive(r.data);
    match a.pointer {
      case Some(i) =>
        var j := FirstLive(a.data, i);
        if j.Some? {
          LivePrefix(a.data, i, j.value);
        } else {
          NoneLive(a.data, i);
        }
      case None =>
        NoneLiveIffNoPairs(a.data);
    }
  }

  // All that a copy holds is live.
  lemma DirectIsLive(data: seq<Bucket>)
    requires AllDirect(data)
    ensures forall i: nat :: FirstLive(data, i) == if i < |data| then Some(i) else None
  {
  }

  lemma LivePrefix(data: seq<Bucket>, i: nat, j: nat)
    requires i <= j < |data| && data[j].slot.Live() && forall k :: i <= k < j ==> !data[k].slot.Live()
    ensures |Pairs(data[..i])| == |Pairs(data[..j])| < |Pairs(data)|
    ensures |Pairs(data[..i])| <= i
    ensures |Pairs(data[..i])| == i <==> forall k :: 0 <= k < i ==> data[k].slot.Live()
  {
    DeadStretch(data, i, j);
    PairsBound(data, j);
    AllLiveIffFull(data[..i]);
    assert forall k :: 0 <= k < i ==> data[..i][k] == data[k];
  }

  lemma {:induction false} DeadStretch(data: seq<Bucket>, i: nat, j: nat)
    requires i <= j <= |data| && forall k :: i <= k < j ==> !data[k].slot.Live()
    ensures |Pairs(data[..i])| == |Pairs(data[..j])|
  {
    if i < j {
      DeadStretch(data, i, j - 1);
      LiveCountStep(data, j - 1);
    }
  }

  lemma NoneLive(data: seq<Bucket>, i: nat)
    requires forall k :: i <= k < |data| ==> !data[k].slot.Live()
    ensures |Pairs(data)| <= i
  {
    if i < |data| {
      DeadStretch(data, i, |data|);
      AllLiveIffFull(data[..i]);
      assert data[..|data|] == data;
    } else {
      AllLiveIffFull(data);
    }
  }

  lemma NoneLiveIffNoPairs(data: seq<Bucket>)
    ensures |Pairs(data)| == 0 <==> forall k :: 0 <= k < |data| ==> !data[k].slot.Live()
  {
    forall k | 0 <= k < |data| && data[k].slot.Live()
      ensures |Pairs(data)| > 0
    {
      PairsBound(data, k);
    }
    if forall k :: 0 <= k < |data| ==> !data[k].slot.Live() {
      NoneLive(data, 0);
    }
  }

  // Two unset elements, then x and y: a pointer on the second unset one stands for
  // x, and for y in the copy.
  lemma PointerSkipsAnElement(a: ZArray, r: ZArray, x: Bucket, y: Bucket)
    requires HashForm(a) && WellCopied(a, r) && x.slot.Live() && y.slot.Live()
    requires a.data == [Bucket(Hole, 0, None, None), Bucket(Hole, 0, None, None), x, y] && a.pointer == Some(1)
    ensures Designated(a.data, a.pointer) == Some(2) && !KeepsPlace(a, r)
    ensures Designated(r.data, r.pointer) == Some(1) && |Pairs(a.data[..3])| == 1
  {
    hide Linked;
    PointerKeepsPlaceIff(a, r);
    DirectIsLive(r.data);
    DeadStretch(a.data, 0, 2);
    LiveCountStep(a.data, 2);
    LiveCountStep(a.data, 3);
    assert a.data[..4] == a.data;
  }

  // The next free index survives unless there is no bucket in use.
  lemma NextFreeKeptIff(a: ZArray, r: ZArray)
    requires WellCopied(a, r)
    ensures r.nextFree == a.nextFree <==> a.data != [] || a.nextFree == 0
  {
  }

  // On a live element, the copy's pointer is at the copy of that element.
  lemma PointerFollows(a: ZArray, r: ZArray, lo: nat, hi: nat, i: nat)
    requires HashForm(a) && WellCopied(a, r) && CopyOf(Table(a), Table(r), lo, hi)
    requires a.pointer == Some(i) && i < |a.data| && a.data[i].slot.Live()
    ensures r.pointer.Some? && r.pointer.value < |r.data| && PairOf(r.data[r.pointer.value]) == PairOf(a.data[i])
  {
    hide Linked;
    assert Pairs(r.data) == Pairs(a.data);
    PairsBound(a.data, i);
    PairsOfDirect(r.data);
  }
}
