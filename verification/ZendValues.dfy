// Zend values as src/pht_zend.c sees them. Every block that a copy could share
// with its source is a node with an id; what a value is apart from its nodes is
// its shape.

module ZendValues {
  import opened Options
  import opened Bits

  datatype ZString = ZString(id: nat, chars: string, interned: bool)

  // Scalars stand for null, booleans, integers and floats; Counted for objects,
  // references and resources, which are shared by raising a count.
  datatype Val =
    | Scalar(n: int)
    | Text(str: ZString)
    | Constant(str: ZString)
    | Table(arr: ZArray)
    | ConstantAst(id: nat, ast: Ast)
    | Counted(id: nat)

  // An element of an array is unset, or a value, or a pointer to a slot elsewhere
  // (in a symbol table) that is unset or has a value.
  datatype Slot = Hole | IndirectHole | Direct(v: Val) | Indirect(v: Val)
  {
    predicate Live() { Direct? || Indirect? }
  }

  datatype Bucket = Bucket(slot: Slot, h: int, key: Option<ZString>, next: Option<nat>)

  // data holds the nNumUsed buckets, heads the hash part; None is HT_INVALID_IDX.
  datatype ZArray = ZArray(
    id: nat, immutable: bool, packed: bool, staticKeys: bool,
    tableSize: nat, elements: nat, nextFree: int, pointer: Option<nat>,
    data: seq<Bucket>, heads: seq<Option<nat>>)

  // A list node and an ordinary node copy their children in the same way.
  datatype Ast =
    | NullAst
    | ZvalAst(id: nat, attr: int, v: Val)
    | NodeAst(id: nat, kind: int, attr: int, children: seq<Ast>)

  // Well-formed arrays ---------------------------------------------------------

  function UsedCount(data: seq<Bucket>): (n: nat)
    ensures n <= |data|
    ensures n == |data| <==> forall i :: 0 <= i < |data| ==> !data[i].slot.Hole?
  {
    if data == [] then 0
    else
      var rest := data[..|data| - 1];
      assert forall i :: 0 <= i < |rest| ==> rest[i] == data[i];
      UsedCount(rest) + if data[|data| - 1].slot.Hole? then 0 else 1
  }

  // nNumOfElements counts the buckets that are not unset; only hash-form arrays
  // have keys and pointers to slots; the static-keys flag says that all keys are
  // interned.
  predicate ProperTable(a: ZArray)
  {
    && IsPowerOfTwo(a.tableSize) && |a.data| <= a.tableSize
    && a.elements == UsedCount(a.data)
    && (a.packed ==> forall i :: 0 <= i < |a.data| ==>
          a.data[i].key == None && (a.data[i].slot.Hole? || a.data[i].slot.Direct?))
    && (a.staticKeys ==> forall i :: 0 <= i < |a.data| ==> a.data[i].key.Some? ==> a.data[i].key.value.interned)
  }

  predicate Proper(v: Val)
    decreases v, 0
  {
    match v
    case Table(a) => ProperTable(a) && ProperData(a.data)
    case ConstantAst(_, t) => ProperAst(t)
    case _ => true
  }

  predicate ProperData(data: seq<Bucket>)
    decreases data, 1
  {
    forall i :: 0 <= i < |data| ==> ProperBucket(data[i])
  }

  predicate ProperBucket(b: Bucket)
    decreases b, 1
  {
    b.slot.Live() ==> Proper(b.slot.v)
  }

  predicate ProperAst(t: Ast)
    decreases t, 1
  {
    match t
    case NullAst => true
    case ZvalAst(_, _, v) => Proper(v)
    case NodeAst(_, _, _, children) => forall i :: 0 <= i < |children| ==> ProperAst(children[i])
  }

  // Shapes ---------------------------------------------------------------------

  datatype Shape =
    | ScalarShape(n: int)
    | TextShape(chars: string)
    | ConstantShape(chars: string)
    | TableShape(pairs: seq<Pair>)
    | AstShape(tree: Tree)
    | CountedShape(id: nat)

  datatype Pair = Pair(h: int, key: Option<string>, value: Shape)

  datatype Tree = NoTree | Leaf(attr: int, value: Shape) | Branch(kind: int, attr: int, children: seq<Tree>)

  function ShapeOf(v: Val): Shape
    decreases v, 0
  {
    match v
    case Scalar(n) => ScalarShape(n)
    case Text(s) => TextShape(s.chars)
    case Constant(s) => ConstantShape(s.chars)
    case Table(a) => TableShape(Pairs(a.data))
    case ConstantAst(_, t) => AstShape(TreeOf(t))
    case Counted(id) => CountedShape(id)
  }

  function KeyChars(key: Option<ZString>): Option<string>
  {
    if key.Some? then Some(key.value.chars) else None
  }

  function PairOf(b: Bucket): Pair
    requires b.slot.Live()
    decreases b, 1
  {
    Pair(b.h, KeyChars(b.key), ShapeOf(b.slot.v))
  }

  // The live key/value pairs in order, holes squeezed out.
  function Pairs(data: seq<Bucket>): seq<Pair>
    decreases data, 1
  {
    if data == [] then []
    else
      var last := data[|data| - 1];
      Pairs(data[..|data| - 1]) + if last.slot.Live() then [PairOf(last)] else []
  }

  function TreeOf(t: Ast): Tree
    decreases t, 0
  {
    match t
    case NullAst => NoTree
    case ZvalAst(_, attr, v) => Leaf(attr, ShapeOf(v))
    case NodeAst(_, kind, attr, children) => Branch(kind, attr, Trees(children))
  }

  function Trees(ts: seq<Ast>): seq<Tree>
    decreases ts, 1
  {
    if ts == [] then [] else Trees(ts[..|ts| - 1]) + [TreeOf(ts[|ts| - 1])]
  }

  // Nodes ----------------------------------------------------------------------

  // A block that a value is made of. Interned strings and immutable arrays are
  // marked: whoever has one may not write to it.
  datatype Node = StringNode(id: nat, interned: bool) | ArrayNode(id: nat, immutable: bool) | TreeNode(id: nat)
  {
    predicate Marked()
    {
      (StringNode? && interned) || (ArrayNode? && immutable)
    }
  }

  // All the nodes of a value, marked or not, each as often as it occurs.
  function Nodes(v: Val): multiset<Node>
    decreases v, 0
  {
    match v
    case Scalar(_) => multiset{}
    case Text(s) => StringNodes(s)
    case Constant(s) => StringNodes(s)
    case Table(a) => multiset{ArrayNode(a.id, a.immutable)} + DataNodes(a.data)
    case ConstantAst(id, t) => multiset{TreeNode(id)} + AstNodes(t)
    case Counted(_) => multiset{}
  }

  function StringNodes(s: ZString): multiset<Node>
  {
    multiset{StringNode(s.id, s.interned)}
  }

  function KeyNodes(key: Option<ZString>): multiset<Node>
  {
    if key.Some? then StringNodes(key.value) else multiset{}
  }

  function BucketNodes(b: Bucket): multiset<Node>
    decreases b, 1
  {
    if b.slot.Live() then KeyNodes(b.key) + Nodes(b.slot.v) else multiset{}
  }

  function DataNodes(data: seq<Bucket>): multiset<Node>
    decreases data, 1
  {
    if data == [] then multiset{} else DataNodes(data[..|data| - 1]) + BucketNodes(data[|data| - 1])
  }

  function AstNodes(t: Ast): multiset<Node>
    decreases t, 0
  {
    match t
    case NullAst => multiset{}
    case ZvalAst(id, _, v) => multiset{TreeNode(id)} + Nodes(v)
    case NodeAst(id, _, _, children) => multiset{TreeNode(id)} + AstsNodes(children)
  }

  function AstsNodes(ts: seq<Ast>): multiset<Node>
    decreases ts, 1
  {
    if ts == [] then multiset{} else AstsNodes(ts[..|ts| - 1]) + AstNodes(ts[|ts| - 1])
  }

  // The nodes that a copy takes over from its source: interned strings, and whatever
  // lies inside an immutable array, which is copied bit by bit.
  function Taken(v: Val): multiset<Node>
    decreases v, 0
  {
    match v
    case Text(s) => StringTaken(s)
    case Constant(s) => StringTaken(s)
    case Table(a) => if a.immutable then DataNodes(a.data) else DataTaken(a.data)
    case ConstantAst(_, t) => AstTaken(t)
    case _ => multiset{}
  }

  function StringTaken(s: ZString): multiset<Node>
  {
    if s.interned then StringNodes(s) else multiset{}
  }

  function KeyTaken(key: Option<ZString>): multiset<Node>
  {
    if key.Some? then StringTaken(key.value) else multiset{}
  }

  function BucketTaken(b: Bucket): multiset<Node>
    decreases b, 1
  {
    if b.slot.Live() then KeyTaken(b.key) + Taken(b.slot.v) else multiset{}
  }

  function DataTaken(data: seq<Bucket>): multiset<Node>
    decreases data, 1
  {
    if data == [] then multiset{} else DataTaken(data[..|data| - 1]) + BucketTaken(data[|data| - 1])
  }

  function AstTaken(t: Ast): multiset<Node>
    decreases t, 0
  {
    match t
    case NullAst => multiset{}
    case ZvalAst(_, _, v) => Taken(v)
    case NodeAst(_, _, _, children) => AstsTaken(children)
  }

  function AstsTaken(ts: seq<Ast>): multiset<Node>
    decreases ts, 1
  {
    if ts == [] then multiset{} else AstsTaken(ts[..|ts| - 1]) + AstTaken(ts[|ts| - 1])
  }

  // How many unmarked nodes have this id.
  function Unmarked(nodes: multiset<Node>, id: nat): nat
  {
    nodes[StringNode(id, false)] + nodes[ArrayNode(id, false)] + nodes[TreeNode(id)]
  }

  // The nodes are those taken, and one unmarked node for each block from lo up to hi.
  ghost predicate Renewed(nodes: multiset<Node>, taken: multiset<Node>, lo: nat, hi: nat)
  {
    && lo <= hi && taken <= nodes
    && (forall n: Node :: n.Marked() ==> nodes[n] == taken[n])
    && (forall id: nat :: Unmarked(nodes, id) == Unmarked(taken, id) + if lo <= id < hi then 1 else 0)
  }

  lemma RenewedNone(lo: nat)
    ensures Renewed(multiset{}, multiset{}, lo, lo)
  {
  }

  lemma RenewedOne(n: Node)
    requires !n.Marked()
    ensures Renewed(multiset{n}, multiset{}, n.id, n.id + 1)
  {
  }

  lemma RenewedSame(nodes: multiset<Node>, lo: nat)
    ensures Renewed(nodes, nodes, lo, lo)
  {
  }

  // Two parts copied one after the other.
  lemma RenewedBoth(a: multiset<Node>, b: multiset<Node>, ta: multiset<Node>, tb: multiset<Node>,
                    lo: nat, mid: nat, hi: nat)
    requires Renewed(a, ta, lo, mid) && Renewed(b, tb, mid, hi)
    ensures Renewed(a + b, ta + tb, lo, hi)
  {
    forall id: nat
      ensures Unmarked(a + b, id) == Unmarked(ta + tb, id) + if lo <= id < hi then 1 else 0
    {
      assert Unmarked(a + b, id) == Unmarked(a, id) + Unmarked(b, id);
      assert Unmarked(ta + tb, id) == Unmarked(ta, id) + Unmarked(tb, id);
    }
  }

  // A block of its own, allocated before or after the other parts.
  lemma RenewedFirst(n: Node, rest: multiset<Node>, taken: multiset<Node>, hi: nat)
    requires !n.Marked() && Renewed(rest, taken, n.id + 1, hi)
    ensures Renewed(multiset{n} + rest, taken, n.id, hi)
  {
    RenewedOne(n);
    RenewedBoth(multiset{n}, rest, multiset{}, taken, n.id, n.id + 1, hi);
    assert multiset{} + taken == taken;
  }

  lemma RenewedLast(n: Node, rest: multiset<Node>, taken: multiset<Node>, lo: nat)
    requires !n.Marked() && Renewed(rest, taken, lo, n.id)
    ensures Renewed(multiset{n} + rest, taken, lo, n.id + 1)
  {
    RenewedOne(n);
    RenewedBoth(rest, multiset{n}, taken, multiset{}, lo, n.id, n.id + 1);
    assert taken + multiset{} == taken;
    assert rest + multiset{n} == multiset{n} + rest;
  }

  // r is a copy of v for which the blocks lo to hi were allocated.
  ghost predicate CopyOf(v: Val, r: Val, lo: nat, hi: nat)
  {
    ShapeOf(r) == ShapeOf(v) && Renewed(Nodes(r), Taken(v), lo, hi)
  }

  lemma {:induction false} TakenAreNodes(v: Val)
    ensures Taken(v) <= Nodes(v)
    decreases v, 0
  {
    match v
    case Table(a) => DataTakenAreNodes(a.data);
    case ConstantAst(_, t) => AstTakenAreNodes(t);
    case _ =>
  }

  lemma {:induction false} DataTakenAreNodes(data: seq<Bucket>)
    ensures DataTaken(data) <= DataNodes(data)
    decreases data, 1
  {
    if data != [] {
      DataTakenAreNodes(data[..|data| - 1]);
      BucketTakenAreNodes(data[|data| - 1]);
    }
  }

  lemma BucketTakenAreNodes(b: Bucket)
    ensures BucketTaken(b) <= BucketNodes(b)
    decreases b, 1
  {
    if b.slot.Live() {
      TakenAreNodes(b.slot.v);
    }
  }

  lemma {:induction false} AstTakenAreNodes(t: Ast)
    ensures AstTaken(t) <= AstNodes(t)
    decreases t, 0
  {
    match t
    case NullAst =>
    case ZvalAst(_, _, v) => TakenAreNodes(v);
    case NodeAst(_, _, _, children) => AstsTakenAreNodes(children);
  }

  lemma {:induction false} AstsTakenAreNodes(ts: seq<Ast>)
    ensures AstsTaken(ts) <= AstsNodes(ts)
    decreases ts, 1
  {
    if ts != [] {
      AstsTakenAreNodes(ts[..|ts| - 1]);
      AstTakenAreNodes(ts[|ts| - 1]);
    }
  }

  // A node is taken only if it is a marked string, or there is an immutable array.
  predicate OnlyStringsTaken(nodes: multiset<Node>, taken: multiset<Node>)
  {
    (exists n :: n in nodes && n.ArrayNode? && n.immutable) || forall n :: n in taken ==> n.StringNode? && n.interned
  }

  lemma {:induction false} TakenAreMarked(v: Val)
    ensures OnlyStringsTaken(Nodes(v), Taken(v))
    decreases v, 0
  {
    match v
    case Table(a) =>
      DataTakenAreMarked(a.data);
      assert ArrayNode(a.id, a.immutable) in Nodes(v);
    case ConstantAst(_, t) => AstTakenAreMarked(t);
    case _ =>
  }

  lemma {:induction false} DataTakenAreMarked(data: seq<Bucket>)
    ensures OnlyStringsTaken(DataNodes(data), DataTaken(data))
    decreases data, 1
  {
    if data != [] {
      DataTakenAreMarked(data[..|data| - 1]);
      BucketTakenAreMarked(data[|data| - 1]);
    }
  }

  lemma BucketTakenAreMarked(b: Bucket)
    ensures OnlyStringsTaken(BucketNodes(b), BucketTaken(b))
    decreases b, 1
  {
    if b.slot.Live() {
      TakenAreMarked(b.slot.v);
    }
  }

  lemma {:induction false} AstTakenAreMarked(t: Ast)
    ensures OnlyStringsTaken(AstNodes(t), AstTaken(t))
    decreases t, 0
  {
    match t
    case NullAst =>
    case ZvalAst(_, _, v) => TakenAreMarked(v);
    case NodeAst(_, _, _, children) => AstsTakenAreMarked(children);
  }

  lemma {:induction false} AstsTakenAreMarked(ts: seq<Ast>)
    ensures OnlyStringsTaken(AstsNodes(ts), AstsTaken(ts))
    decreases ts, 1
  {
    if ts != [] {
      AstsTakenAreMarked(ts[..|ts| - 1]);
      AstTakenAreMarked(ts[|ts| - 1]);
    }
  }

  // A copy has a block in common with its source, whatever flags it carries there,
  // exactly if the block is taken over; what is marked in the copy is taken over; and
  // each block allocated for the copy is in it once, unmarked.
  lemma SharesTaken(v: Val, r: Val, lo: nat, hi: nat)
    requires CopyOf(v, r, lo, hi) && forall n :: n in Nodes(v) ==> n.id < lo
    ensures forall n :: n in Nodes(r) && n.id < lo <==> n in Taken(v)
    ensures forall n, m :: n in Nodes(r) && m in Nodes(v) && n.id == m.id ==> n in Taken(v)
    ensures forall n :: n in Nodes(r) && n.Marked() ==> n in Taken(v)
    ensures forall id: nat :: lo <= id < hi ==> Unmarked(Nodes(r), id) == 1
    ensures forall n :: n in Nodes(r) ==> n.id < hi
  {
    hide Nodes, Taken, ShapeOf;
    TakenAreNodes(v);
    forall n | n in Nodes(r)
      ensures n in Taken(v) || (lo <= n.id < hi && !n.Marked())
    {
      assert Unmarked(Nodes(r), n.id) == Unmarked(Taken(v), n.id) + if lo <= n.id < hi then 1 else 0;
    }
    forall id: nat | lo <= id < hi
      ensures Unmarked(Nodes(r), id) == 1
    {
      assert Unmarked(Taken(v), id) == 0;
    }
  }

  // A value without interned strings and immutable arrays has no block in common
  // with its copy.
  lemma NothingShared(v: Val, r: Val, lo: nat, hi: nat)
    requires CopyOf(v, r, lo, hi) && forall n :: n in Nodes(v) ==> n.id < lo && !n.Marked()
    ensures forall n, m :: n in Nodes(r) && m in Nodes(v) ==> n.id != m.id
    ensures forall n :: n in Nodes(r) ==> !n.Marked()
  {
    SharesTaken(v, r, lo, hi);
    TakenAreMarked(v);
    TakenAreNodes(v);
  }
}
