// The linked queue of src/ds/pht_queue.c: single links, a tail pointer, and a
// size field, refining a sequence.

module Queues {
  import opened Options

  class Node<T> {
    const element: T
    var next: Node?<T>

    constructor (element: T)
      ensures this.element == element && next == null
    {
      this.element := element;
      next := null;
    }
  }

  class Queue<T> {
    var elements: Node?<T>
    var last: Node?<T>
    var size: nat

    ghost var nodes: seq<Node<T>>  // from elements along next
    ghost var contents: seq<T>     // their elements, front first
    ghost var pushed: seq<T>       // all elements ever pushed
    ghost var popped: seq<T>       // all elements popped or destroyed

    // The chain of nodes, and first in first out: what was popped followed by what
    // is held is what was pushed.
    ghost predicate Valid()
      reads this, nodes
    {
      && size == |nodes| == |contents|
      && elements == (if nodes == [] then null else nodes[0])
      && last == (if nodes == [] then null else nodes[|nodes| - 1])
      && (forall i :: 0 <= i < |nodes| ==> nodes[i].element == contents[i])
      && (forall i :: 0 < i < |nodes| ==> nodes[i - 1].next == nodes[i])
      && (nodes != [] ==> nodes[|nodes| - 1].next == null)
      && (forall i, j :: 0 <= i < j < |nodes| ==> nodes[i] != nodes[j])
      && pushed == popped + contents
    }

    constructor ()
      ensures Valid() && contents == [] && pushed == popped == []
    {
      elements, last, size := null, null, 0;
      nodes, contents, pushed, popped := [], [], [], [];
    }

    method Push(element: T)
      requires Valid()
      modifies this, nodes
      ensures Valid() && contents == old(contents) + [element]
      ensures pushed == old(pushed) + [element] && popped == old(popped)
      ensures |nodes| > 0 && fresh(nodes[|nodes| - 1]) && nodes[..|nodes| - 1] == old(nodes)
    {
      var ll := new Node(element);
      if elements != null {
        last.next := ll;
      } else {
        elements := ll;
      }
      last := ll;
      size := size + 1;
      nodes := nodes + [ll];
      pushed := pushed + [element];
      contents := contents + [element];
    }

    method Pop() returns (r: Option<T>)
      requires Valid()
      modifies this
      ensures Valid() && pushed == old(pushed)
      ensures old(contents) == [] ==> r == None && nodes == old(nodes) && popped == old(popped)
      ensures old(contents) != [] ==>
        && r.Some? && old(contents) == [r.value] + contents
        && nodes == old(nodes)[1..] && popped == old(popped) + [r.value]
    {
      r := None;
      if elements != null {
        assert |nodes| > 1 ==> nodes[0].next == nodes[1];
        r := Some(elements.element);
        elements := elements.next;
        if elements == null {
          last := null;
        }
        size := size - 1;
        ghost var rest := nodes[1..];
        assert forall i :: 0 <= i < |rest| ==> rest[i] == nodes[i + 1];
        nodes := rest;
        popped := popped + [r.value];
        contents := contents[1..];
      }
    }

    method Front() returns (r: Option<T>)
      requires Valid()
      ensures r == if contents == [] then None else Some(contents[0])
    {
      if elements == null {
        return None;
      }
      return Some(elements.element);
    }

    // pht_queue_destroy: every element ever pushed has then been popped or
    // destroyed, in the order of pushing.
    method Destroy()
      requires Valid()
      modifies this
      ensures Valid() && contents == [] && pushed == old(pushed) && popped == pushed
    {
      while size != 0
        invariant Valid() && pushed == old(pushed) && (forall n :: n in nodes ==> n in old(nodes))
        decreases size
      {
        var element := Pop();
      }
    }

    // pht_queue_to_zend_hashtable: the elements under the keys 0, 1, 2, ...
    method ToSeq() returns (r: seq<T>)
      requires Valid()
      ensures r == contents
    {
      r := [];
      var ll := elements;
      while ll != null
        invariant |r| <= |nodes| && r == contents[..|r|]
        invariant ll == if |r| < |nodes| then nodes[|r|] else null
        decreases |nodes| - |r|
      {
        assert |r| + 1 < |nodes| ==> ll.next == nodes[|r| + 1];
        r := r + [ll.element];
        ll := ll.next;
      }
    }
  }
}
