/** SingleLinkedList<Type>: a chain of heap nodes behind a head sentinel,
    with a size counter that the mutators update in place, and a forward
    iterator that holds one node reference.

    The abstract state of a list is its ghost `Contents` (the element values
    in order) and `Nodes` (the element nodes in chain order). Positions are
    chain indices: -1 is before-begin (the sentinel), 0 .. |Nodes|-1 are the
    element nodes and |Nodes| is end (null); `NodeAt` maps one to the other.

    `Valid()` is the structural invariant together with "the counter never
    undercounts". The stronger "the counter is exact" is kept apart, as
    `SizeMatches()`, because PopFront and EraseAfter do not decrement it. */
module LinkedList {

  /** One chain node; the sentinel is a node whose value is default-built. */
  class Node<T(0)> {
    var value: T
    var next: Node?<T>

    constructor Sentinel()
      ensures next == null
    {
      next := null;
    }

    constructor (v: T, n: Node?<T>)
      ensures value == v && next == n
    {
      value := v;
      next := n;
    }
  }

  /** The first of `nodes`, or `last` when there are none. */
  function First<T(0)>(nodes: seq<Node<T>>, last: Node?<T>): Node?<T>
  {
    if |nodes| == 0 then last else nodes[0]
  }

  /** No node occurs twice in `nodes`. */
  ghost predicate Distinct<T(0)>(nodes: seq<Node<T>>)
  {
    forall j, k :: 0 <= j < k < |nodes| ==> nodes[j] != nodes[k]
  }

  /** The node at position i differs from every other node of a distinct run. */
  lemma DistinctAt<T(0)>(nodes: seq<Node<T>>, i: int)
    requires Distinct(nodes) && 0 <= i < |nodes|
    ensures forall k :: 0 <= k < |nodes| && k != i ==> nodes[k] != nodes[i]
  {
    forall k | 0 <= k < |nodes| && k != i
      ensures nodes[k] != nodes[i]
    {
      if k < i {
        assert nodes[k] != nodes[i];
      } else {
        assert nodes[i] != nodes[k];
      }
    }
  }

  /** `nodes` hold `values` and are linked in order, the last one to `last`.
      It reads the listed nodes only, so it survives writes to other nodes. */
  ghost predicate Linked<T(0)>(nodes: seq<Node<T>>, values: seq<T>, last: Node?<T>)
    reads nodes
  {
    && |nodes| == |values|
    && forall i {:trigger nodes[i]} :: 0 <= i < |nodes| ==>
         nodes[i].value == values[i] && nodes[i].next == First(nodes[i + 1..], last)
  }

  /** A linked run splits at any point into two linked runs, and two linked
      runs, the first ending at the start of the second, join into one. */
  lemma LinkedConcat<T(0)>(a: seq<Node<T>>, b: seq<Node<T>>, va: seq<T>, vb: seq<T>, last: Node?<T>)
    requires |a| == |va| && |b| == |vb|
    ensures Linked(a + b, va + vb, last) <==> Linked(a, va, First(b, last)) && Linked(b, vb, last)
  {
    forall i | 0 <= i < |a|
      ensures (a + b)[i] == a[i] && (va + vb)[i] == va[i]
      ensures First((a + b)[i + 1..], last) == First(a[i + 1..], First(b, last))
    {
      assert (a + b)[i + 1..] == a[i + 1..] + b;
    }
    forall i | 0 <= i < |b|
      ensures (a + b)[|a| + i] == b[i] && (va + vb)[|a| + i] == vb[i]
      ensures (a + b)[|a| + i + 1..] == b[i + 1..]
    {
    }
    if Linked(a, va, First(b, last)) && Linked(b, vb, last) {
      forall k | 0 <= k < |a + b|
        ensures (a + b)[k].value == (va + vb)[k] && (a + b)[k].next == First((a + b)[k + 1..], last)
      {
        if k >= |a| {
          assert (a + b)[|a| + (k - |a|)] == b[k - |a|];
        }
      }
    }
  }

  /** A run whose links all still hold except the one out of position i,
      which now goes to the node `n`, itself linked to the node that followed
      position i: the run with `n` spliced in after position i is linked
      (position -1 stands for a node before the run). */
  lemma SpliceLinked<T(0)>(was: seq<Node<T>>, vals: seq<T>, i: int, n: Node<T>)
    requires |was| == |vals| && -1 <= i < |was|
    requires forall k :: 0 <= k < |was| ==> was[k].value == vals[k]
    requires forall k {:trigger was[k].next} :: 0 <= k < |was| && k != i ==> was[k].next == First(was[k + 1..], null)
    requires i == -1 || was[i].next == n
    requires n.next == First(was[i + 1..], null)
    ensures Linked(was[..i + 1] + [n] + was[i + 1..], vals[..i + 1] + [n.value] + vals[i + 1..], null)
  {
    var pre, pvals := was[..i + 1] + [n], vals[..i + 1] + [n.value];
    var post, pvs := was[i + 1..], vals[i + 1..];
    var nodes, values := pre + post, pvals + pvs;
    assert |pre| == |pvals| == i + 2;
    forall k | 0 <= k < |nodes|
      ensures nodes[k].value == values[k] && nodes[k].next == First(nodes[k + 1..], null)
    {
      if k <= i {
        assert nodes[k] == pre[k] == was[k] && values[k] == pvals[k] == vals[k];
        if k < i {
          assert nodes[k + 1] == pre[k + 1] == was[k + 1];
        } else {
          assert nodes[k + 1] == pre[i + 1] == n;
        }
      } else if k == i + 1 {
        assert nodes[k] == pre[i + 1] == n && values[k] == pvals[i + 1] == n.value;
        assert nodes[k + 1..] == post;
      } else {
        assert nodes[k] == post[k - i - 2] == was[k - 1];
        assert values[k] == pvs[k - i - 2] == vals[k - 1];
        assert nodes[k + 1..] == post[k - i - 1..] == was[k..];
      }
    }
  }

  /** Splicing a node that is not in a run of distinct nodes into it keeps
      the nodes distinct. */
  lemma SpliceDistinct<T(0)>(was: seq<Node<T>>, i: int, n: Node<T>, nodes: seq<Node<T>>)
    requires -1 <= i < |was| && nodes == was[..i + 1] + [n] + was[i + 1..]
    requires Distinct(was)
    requires forall k :: 0 <= k < |was| ==> was[k] != n
    ensures Distinct(nodes)
  {
    assert forall k :: 0 <= k <= i ==> nodes[k] == was[k];
    assert forall k :: i + 1 < k < |nodes| ==> nodes[k] == was[k - 1];
  }

  /** A run whose links all still hold except the one out of position i,
      which now bypasses the node at i + 1: the run without that node is
      linked (position -1 stands for a node before the run). */
  lemma UnspliceLinked<T(0)>(was: seq<Node<T>>, vals: seq<T>, i: int)
    requires |was| == |vals| && -1 <= i < |was| - 1
    requires forall k :: 0 <= k < |was| ==> was[k].value == vals[k]
    requires forall k :: 0 <= k < |was| && k != i ==> was[k].next == First(was[k + 1..], null)
    requires i >= 0 ==> was[i].next == First(was[i + 2..], null)
    ensures Linked(was[..i + 1] + was[i + 2..], vals[..i + 1] + vals[i + 2..], null)
  {
    var nodes, values := was[..i + 1] + was[i + 2..], vals[..i + 1] + vals[i + 2..];
    forall k | 0 <= k < |nodes|
      ensures nodes[k].value == values[k] && nodes[k].next == First(nodes[k + 1..], null)
    {
      if k <= i {
        assert nodes[k] == was[k] && values[k] == vals[k];
        if k < i {
          assert nodes[k + 1] == was[k + 1];
        } else {
          assert nodes[k + 1..] == was[i + 2..];
        }
      } else {
        assert nodes[k] == was[k + 1] && values[k] == vals[k + 1];
        assert nodes[k + 1..] == was[k + 2..];
      }
    }
  }

  /** Dropping a node from a run of distinct nodes keeps them distinct. */
  lemma UnspliceDistinct<T(0)>(was: seq<Node<T>>, i: int, nodes: seq<Node<T>>)
    requires -1 <= i < |was| - 1 && nodes == was[..i + 1] + was[i + 2..]
    requires Distinct(was)
    ensures Distinct(nodes)
  {
    assert forall k :: 0 <= k <= i ==> nodes[k] == was[k];
    assert forall k :: i < k < |nodes| ==> nodes[k] == was[k + 1];
  }

  /** BasicIterator: a cursor holding one node reference, null for end. */
  class Iterator<T(0)> {
    var node: Node?<T>

    /** The default-constructed iterator references no node. */
    constructor Default()
      ensures node == null
    {
      node := null;
    }

    constructor (n: Node?<T>)
      ensures node == n
    {
      node := n;
    }

    /** operator== and operator!=: identity of the referenced node. */
    predicate Equals(other: Iterator<T>)
      reads this, other
    {
      node == other.node
    }

    /** Pre-increment: follow the next link; not allowed on end. */
    method Next()
      requires node != null
      modifies this
      ensures node == old(node.next)
    {
      node := node.next;
    }

    /** Post-increment: advance, and return a cursor at the old position. */
    method PostNext() returns (prev: Iterator<T>)
      requires node != null
      modifies this
      ensures fresh(prev) && prev.node == old(node)
      ensures node == old(node.next)
    {
      prev := new Iterator(node);
      Next();
    }

    /** operator*: the value of the referenced node; not allowed on end. */
    function Value(): T
      reads this, node
      requires node != null
    {
      node.value
    }
  }

  class SingleLinkedList<T(0)> {
    /** The sentinel head_; it stays this list's own, `Swap` exchanges its link. */
    const head: Node<T>
    /** size_, a counter the mutators update by themselves. */
    var size: nat

    ghost var Contents: seq<T>
    ghost var Nodes: seq<Node<T>>
    /** The element nodes (the sentinel is not among them). */
    ghost var Repr: set<Node<T>>

    /** The node at chain position i: the sentinel at -1, null at the end. */
    ghost function NodeAt(i: int): Node?<T>
      reads this
      requires -1 <= i <= |Nodes|
    {
      if i == -1 then head else if i == |Nodes| then null else Nodes[i]
    }

    /** The node whose link an append rewrites: the last one, or the sentinel. */
    ghost function Tail(): Node<T>
      reads this
    {
      if |Nodes| == 0 then head else Nodes[|Nodes| - 1]
    }

    /** The chain from head: distinct nodes holding Contents, linked in order
        and ending in null. Repr holds the nodes of the chain and no other
        (all of them are in it, and it has as many members as they are). */
    ghost predicate Chain()
      reads this, head, Repr
    {
      && |Repr| == |Nodes|
      && head !in Repr
      && (forall i :: 0 <= i < |Nodes| ==> Nodes[i] in Repr)
      && Distinct(Nodes)
      && head.next == First(Nodes, null)
      && Linked(Nodes, Contents, null)
    }

    /** The chain is well formed and the counter never undercounts it. */
    ghost predicate Valid()
      reads this, head, Repr
    {
      Chain() && |Contents| <= size
    }

    /** The counter equals the number of elements. */
    ghost predicate SizeMatches()
      reads this
    {
      size == |Contents|
    }

    /** Default construction: an empty list with a zero counter. */
    constructor ()
      ensures Valid() && SizeMatches()
      ensures Contents == [] && size == 0 && fresh(head)
    {
      head := new Node.Sentinel();
      size := 0;
      Contents, Nodes, Repr := [], [], {};
    }

    /** Construction from an initializer list, through PushBackValues. */
    constructor FromValues(values: seq<T>)
      ensures Valid() && SizeMatches()
      ensures Contents == values && size == |values|
      ensures fresh(head) && fresh(Repr)
    {
      head := new Node.Sentinel();
      size := 0;
      Contents, Nodes, Repr := [], [], {};
      new;
      PushBackValues(values);
    }

    /** Copy construction: a fresh chain holding the same values in order. */
    constructor Copy(other: SingleLinkedList<T>)
      requires other.Valid()
      ensures Valid() && SizeMatches()
      ensures Contents == other.Contents
      ensures fresh(head) && fresh(Repr)
    {
      head := new Node.Sentinel();
      size := 0;
      Contents, Nodes, Repr := [], [], {};
      new;
      var values := other.Values();
      PushBackValues(values);
    }

    /** Link the new node n after the tail t (the last node, or the sentinel
        of an empty chain), leaving the counter alone. */
    method LinkAtTail(t: Node<T>, n: Node<T>)
      requires Chain() && t == Tail() && n.next == null && n !in Repr && n != head
      modifies this, t
      ensures Chain()
      ensures Contents == old(Contents) + [n.value] && Nodes == old(Nodes) + [n]
      ensures Repr == old(Repr) + {n} && size == old(size)
    {
      ghost var was, vals := Nodes, Contents;
      LinkAfter(t, n, |was| - 1);
      assert was[..|was|] == was && was[|was|..] == [];
      assert vals[..|was|] == vals && vals[|was|..] == [];
    }

    /** PushBackValues: append a node for each value after the sentinel in
        turn, then set the counter to the number of values. Called on an
        empty chain only. */
    method PushBackValues(values: seq<T>)
      requires Valid() && head.next == null
      modifies this, head
      ensures Valid() && SizeMatches()
      ensures Contents == values && size == |values|
      ensures fresh(Repr)
    {
      var tail := head;
      var k := 0;
      while k < |values|
        invariant 0 <= k <= |values|
        invariant Chain() && Contents == values[..k] && fresh(Repr)
        invariant tail == Tail() && (tail == head || fresh(tail))
      {
        var n := new Node(values[k], null);
        LinkAtTail(tail, n);
        tail := n;
        k := k + 1;
        assert values[..k] == values[..k - 1] + [values[k - 1]];
      }
      assert values[..k] == values;
      size := |values|;
    }

    /** The elements from begin() to end(), read by walking the chain: the
        range that the copy constructor hands to PushBackValues. */
    method Values() returns (values: seq<T>)
      requires Valid()
      ensures values == Contents
    {
      values := [];
      var node := head.next;
      var count := 0;
      while node != null
        invariant 0 <= count <= |Nodes| && node == NodeAt(count)
        invariant values == Contents[..count]
        decreases |Nodes| - count
      {
        assert Nodes[count].value == Contents[count];
        assert Nodes[count].next == First(Nodes[count + 1..], null);
        values := values + [node.value];
        node := node.next;
        count := count + 1;
        assert Contents[..count] == Contents[..count - 1] + [Contents[count - 1]];
      }
      assert Contents[..count] == Contents;
    }

    /** GetSize: the counter, which is never below the number of elements. */
    function GetSize(): (r: nat)
      reads this, head, Repr
      ensures Valid() ==> |Contents| <= r
      ensures SizeMatches() ==> r == |Contents|
    {
      size
    }

    /** IsEmpty: a zero counter. It agrees with the contents exactly when the
        counter is exact. */
    function IsEmpty(): (r: bool)
      reads this
      ensures r <==> size == 0
      ensures SizeMatches() ==> (r <==> Contents == [])
    {
      size == 0
    }

    method BeforeBegin() returns (it: Iterator<T>)
      requires Valid()
      ensures fresh(it) && it.node == NodeAt(-1)
    {
      it := new Iterator(head);
    }

    method Begin() returns (it: Iterator<T>)
      requires Valid()
      ensures fresh(it) && it.node == NodeAt(0)
    {
      it := new Iterator(head.next);
    }

    method End() returns (it: Iterator<T>)
      requires Valid()
      ensures fresh(it) && it.node == NodeAt(|Nodes|)
    {
      it := new Iterator(null);
    }

    /** Two positions of a valid list reference the same node exactly when
        they are the same position, so iterator equality is position equality. */
    lemma PositionsEqualIffSameIndex(i: int, j: int)
      requires Valid()
      requires -1 <= i <= |Nodes| && -1 <= j <= |Nodes|
      ensures NodeAt(i) == NodeAt(j) <==> i == j
    {
      if 0 <= i < |Nodes| && 0 <= j < |Nodes| && i != j {
        if i < j {
          assert Nodes[i] != Nodes[j];
        } else {
          assert Nodes[j] != Nodes[i];
        }
      }
    }

    /** Advancing from any position before end moves to the next position;
        in particular before-begin advances to begin. */
    lemma AdvancePosition(i: int)
      requires Valid()
      requires -1 <= i < |Nodes|
      ensures NodeAt(i) != null && NodeAt(i).next == NodeAt(i + 1)
    {
      if i >= 0 {
        assert Nodes[i].next == First(Nodes[i + 1..], null);
      }
    }

    /** Dereferencing an iterator at element position i yields Contents[i]. */
    lemma ValueAtPosition(it: Iterator<T>, i: int)
      requires Valid()
      requires 0 <= i < |Nodes| && it.node == NodeAt(i)
      ensures it.node != null && it.Value() == Contents[i]
    {
      assert Nodes[i].value == Contents[i];
    }

    /** Assignment through the reference that operator* returns. */
    method SetValue(pos: Iterator<T>, v: T, ghost i: int)
      requires Valid()
      requires 0 <= i < |Nodes| && pos.node == NodeAt(i)
      modifies this, pos.node
      ensures Valid()
      ensures Contents == old(Contents)[i := v]
      ensures Nodes == old(Nodes) && Repr == old(Repr) && size == old(size)
    {
      ghost var was, vals := Nodes, Contents;
      pos.node.value := v;
      Contents := vals[i := v];
      forall k | 0 <= k < |was|
        ensures was[k].value == Contents[k] && was[k].next == First(was[k + 1..], null)
      {
        assert old(was[k].value) == vals[k] && old(was[k].next) == First(was[k + 1..], null);
        if k < i {
          assert was[k] != was[i];
        } else if k > i {
          assert was[i] != was[k];
        }
      }
    }

    /** PushFront: a new first node linked to the old first node. */
    method PushFront(v: T)
      requires Valid()
      modifies this, head
      ensures Valid()
      ensures Contents == [v] + old(Contents)
      ensures size == old(size) + 1
      ensures |Nodes| > 0 && fresh(Nodes[0]) && Nodes[1..] == old(Nodes)
      ensures Repr == old(Repr) + {Nodes[0]}
      ensures old(SizeMatches()) ==> SizeMatches()
    {
      ghost var was, vals := Nodes, Contents;
      var n := new Node(v, head.next);
      head.next := n;
      size := size + 1;
      Contents, Nodes, Repr := [v] + vals, [n] + was, Repr + {n};
      LinkedConcat([n], was, [v], vals, null);
      assert forall k :: 0 < k < |Nodes| ==> Nodes[k] == was[k - 1];
    }

    /** PushBack: walk size - 1 links from the first node and link a new node
        there. The walk ends at the last node only when the counter is exact;
        with an overcounted non-empty list it would run off the chain. */
    method PushBack(v: T)
      requires Valid()
      requires head.next != null ==> SizeMatches()
      modifies this, Tail()
      ensures Valid()
      ensures Contents == old(Contents) + [v]
      ensures size == old(size) + 1
      ensures |Nodes| > 0 && fresh(Nodes[|Nodes| - 1]) && Nodes[..|Nodes| - 1] == old(Nodes)
      ensures Repr == old(Repr) + {Nodes[|Nodes| - 1]}
      ensures old(SizeMatches()) ==> SizeMatches()
    {
      var lnode := new Node(v, null);
      if head.next == null {
        LinkAtTail(head, lnode);
      } else {
        var endNode := head.next;
        var i := 0;
        while i != size - 1
          invariant 0 <= i < |Nodes| && endNode == Nodes[i]
          decreases size - 1 - i
        {
          assert Nodes[i].next == First(Nodes[i + 1..], null);
          endNode := endNode.next;
          i := i + 1;
        }
        LinkAtTail(endNode, lnode);
      }
      size := size + 1;
    }

    /** PopFront, as written: unlinks the first node but leaves the counter. */
    method PopFront()
      requires Valid()
      requires size > 0 && head.next != null
      modifies this, head
      ensures Valid()
      ensures Contents == old(Contents)[1..] && Nodes == old(Nodes)[1..]
      ensures Repr == old(Repr) - {old(Nodes)[0]}
      ensures size == old(size)
      ensures old(SizeMatches()) ==> !SizeMatches()
    {
      UnlinkFirst();
    }

    /** PopFront with the decrement the counter needs. */
    method PopFrontCounted()
      requires Valid()
      requires size > 0 && head.next != null
      modifies this, head
      ensures Valid()
      ensures Contents == old(Contents)[1..] && Nodes == old(Nodes)[1..]
      ensures Repr == old(Repr) - {old(Nodes)[0]}
      ensures size == old(size) - 1
      ensures old(SizeMatches()) ==> SizeMatches()
    {
      UnlinkFirst();
      size := size - 1;
    }

    /** Relink the sentinel past the first node, which leaves the chain. */
    method UnlinkFirst()
      requires Chain() && head.next != null
      modifies this, head
      ensures Chain() && size == old(size)
      ensures Contents == old(Contents)[1..] && Nodes == old(Nodes)[1..]
      ensures Repr == old(Repr) - {old(Nodes)[0]}
    {
      ghost var was, vals := Nodes, Contents;
      assert was == [was[0]] + was[1..] && vals == [vals[0]] + vals[1..];
      LinkedConcat([was[0]], was[1..], [vals[0]], vals[1..], null);
      head.next := head.next.next;
      Contents, Nodes, Repr := vals[1..], was[1..], Repr - {was[0]};
      assert forall k :: 0 <= k < |Nodes| ==> Nodes[k] == was[k + 1];
    }

    /** Clear: unlink the first node while there is one, decrementing the
        counter each time. The counter reaches 0 exactly when it was exact. */
    method Clear()
      requires Valid()
      modifies this, head
      ensures Valid()
      ensures Contents == [] && Nodes == [] && Repr == {}
      ensures size == old(size) - old(|Contents|)
      ensures size == 0 <==> old(SizeMatches())
    {
      while head.next != null
        invariant Valid()
        invariant size - |Contents| == old(size) - old(|Contents|)
        decreases |Nodes|
      {
        UnlinkFirst();
        size := size - 1;
      }
    }

    /** InsertAfter: a new node spliced in after position i (not end); the
        returned iterator references it, at position i + 1. */
    method InsertAfter(pos: Iterator<T>, v: T, ghost i: int) returns (it: Iterator<T>)
      requires Valid()
      requires -1 <= i < |Nodes| && pos.node == NodeAt(i)
      modifies this, pos.node
      ensures Valid()
      ensures Contents == old(Contents)[..i + 1] + [v] + old(Contents)[i + 1..]
      ensures fresh(it) && it.node != null && fresh(it.node) && it.node == NodeAt(i + 1)
      ensures Nodes == old(Nodes)[..i + 1] + [it.node] + old(Nodes)[i + 1..]
      ensures Repr == old(Repr) + {it.node}
      ensures size == old(size) + 1
      ensures old(SizeMatches()) ==> SizeMatches()
    {
      AdvancePosition(i);
      var n := new Node(v, pos.node.next);
      LinkAfter(pos.node, n, i);
      size := size + 1;
      it := new Iterator(n);
    }

    /** Link the node n, already pointing at the node at position i + 1, after
        the node at position i, leaving the counter alone. */
    method LinkAfter(p: Node<T>, n: Node<T>, ghost i: int)
      requires Chain()
      requires -1 <= i < |Nodes| && p == NodeAt(i)
      requires n !in Repr && n != head && n.next == NodeAt(i + 1)
      modifies this, p
      ensures Chain() && size == old(size)
      ensures Contents == old(Contents)[..i + 1] + [n.value] + old(Contents)[i + 1..]
      ensures Nodes == old(Nodes)[..i + 1] + [n] + old(Nodes)[i + 1..]
      ensures Repr == old(Repr) + {n}
    {
      ghost var was, vals, oldRepr := Nodes, Contents, Repr;
      assert forall k :: 0 <= k < |was| && k != i ==> was[k] != p by {
        if i >= 0 {
          DistinctAt(was, i);
        }
      }
      assert n.next == First(was[i + 1..], null) by {
        if i >= 0 {
          assert was[i].next == First(was[i + 1..], null);
        }
      }
      p.next := n;
      assert old(Linked(was, vals, null));
      forall k | 0 <= k < |was|
        ensures was[k].value == vals[k]
        ensures k != i ==> was[k].next == First(was[k + 1..], null)
      {
        assert old(was[k].value) == vals[k] && old(was[k].next) == First(was[k + 1..], null);
      }
      Contents := vals[..i + 1] + [n.value] + vals[i + 1..];
      Nodes := was[..i + 1] + [n] + was[i + 1..];
      Repr := Repr + {n};
      SplicedChain(was, vals, oldRepr, i, n);
    }

    /** The chain facts after a splice: the old chain `was`, its values and
        its node set, all links of which but the one out of position i still
        hold, with `n` linked in after position i. */
    lemma SplicedChain(was: seq<Node<T>>, vals: seq<T>, oldRepr: set<Node<T>>, i: int, n: Node<T>)
      requires |was| == |vals| && -1 <= i < |was|
      requires Distinct(was) && |oldRepr| == |was| && head !in oldRepr
      requires forall k :: 0 <= k < |was| ==> was[k] in oldRepr
      requires n !in oldRepr && n != head
      requires forall k :: 0 <= k < |was| ==> was[k].value == vals[k]
      requires forall k :: 0 <= k < |was| && k != i ==> was[k].next == First(was[k + 1..], null)
      requires i >= 0 ==> was[i].next == n && head.next == First(was, null)
      requires i == -1 ==> head.next == n
      requires n.next == First(was[i + 1..], null)
      requires Nodes == was[..i + 1] + [n] + was[i + 1..]
      requires Contents == vals[..i + 1] + [n.value] + vals[i + 1..]
      requires Repr == oldRepr + {n}
      ensures Chain()
    {
      SpliceLinked(was, vals, i, n);
      SpliceDistinct(was, i, n, Nodes);
      assert forall k :: 0 <= k <= i ==> Nodes[k] == was[k];
      assert forall k :: i + 1 < k < |Nodes| ==> Nodes[k] == was[k - 1];
    }

    /** EraseAfter, as written: unlinks the node after position i and returns
        the new successor of i (end when the last node went), but leaves the
        counter. */
    method EraseAfter(pos: Iterator<T>, ghost i: int) returns (it: Iterator<T>)
      requires Valid()
      requires -1 <= i < |Nodes| - 1 && pos.node == NodeAt(i)
      requires size > 0
      modifies this, pos.node
      ensures Valid()
      ensures Contents == old(Contents)[..i + 1] + old(Contents)[i + 2..]
      ensures Nodes == old(Nodes)[..i + 1] + old(Nodes)[i + 2..]
      ensures Repr == old(Repr) - {old(Nodes)[i + 1]}
      ensures fresh(it) && it.node == NodeAt(i + 1)
      ensures size == old(size)
      ensures old(SizeMatches()) ==> !SizeMatches()
    {
      UnlinkAfter(pos, i);
      it := new Iterator(pos.node.next);
    }

    /** EraseAfter with the decrement the counter needs. */
    method EraseAfterCounted(pos: Iterator<T>, ghost i: int) returns (it: Iterator<T>)
      requires Valid()
      requires -1 <= i < |Nodes| - 1 && pos.node == NodeAt(i)
      requires size > 0
      modifies this, pos.node
      ensures Valid()
      ensures Contents == old(Contents)[..i + 1] + old(Contents)[i + 2..]
      ensures Nodes == old(Nodes)[..i + 1] + old(Nodes)[i + 2..]
      ensures Repr == old(Repr) - {old(Nodes)[i + 1]}
      ensures fresh(it) && it.node == NodeAt(i + 1)
      ensures size == old(size) - 1
      ensures old(SizeMatches()) ==> SizeMatches()
    {
      UnlinkAfter(pos, i);
      size := size - 1;
      it := new Iterator(pos.node.next);
    }

    /** Relink the node at position i past its successor, which leaves the
        chain. */
    method UnlinkAfter(pos: Iterator<T>, ghost i: int)
      requires Chain()
      requires -1 <= i < |Nodes| - 1 && pos.node == NodeAt(i)
      modifies this, pos.node
      ensures Chain() && size == old(size)
      ensures Contents == old(Contents)[..i + 1] + old(Contents)[i + 2..]
      ensures Nodes == old(Nodes)[..i + 1] + old(Nodes)[i + 2..]
      ensures Repr == old(Repr) - {old(Nodes)[i + 1]}
      ensures pos.node != null && pos.node.next == NodeAt(i + 1)
    {
      ghost var was, vals, oldRepr := Nodes, Contents, Repr;
      ghost var erased := was[i + 1];
      assert forall k :: 0 <= k < |was| && k != i ==> was[k] != pos.node by {
        if i >= 0 {
          DistinctAt(was, i);
        }
      }
      assert erased.next == First(was[i + 2..], null);
      pos.node.next := pos.node.next.next;
      assert old(Linked(was, vals, null));
      forall k | 0 <= k < |was|
        ensures was[k].value == vals[k]
        ensures k != i ==> was[k].next == First(was[k + 1..], null)
      {
        assert old(was[k].value) == vals[k] && old(was[k].next) == First(was[k + 1..], null);
      }
      Contents := vals[..i + 1] + vals[i + 2..];
      Nodes := was[..i + 1] + was[i + 2..];
      Repr := Repr - {erased};
      UnsplicedChain(was, vals, oldRepr, i);
    }

    /** The chain facts after an unlink: the old chain `was`, its values and
        its node set, all links of which but the one out of position i still
        hold, with the node at i + 1 bypassed. */
    lemma UnsplicedChain(was: seq<Node<T>>, vals: seq<T>, oldRepr: set<Node<T>>, i: int)
      requires |was| == |vals| && -1 <= i < |was| - 1
      requires Distinct(was) && |oldRepr| == |was| && head !in oldRepr
      requires forall k :: 0 <= k < |was| ==> was[k] in oldRepr
      requires forall k :: 0 <= k < |was| ==> was[k].value == vals[k]
      requires forall k :: 0 <= k < |was| && k != i ==> was[k].next == First(was[k + 1..], null)
      requires i >= 0 ==> was[i].next == First(was[i + 2..], null) && head.next == First(was, null)
      requires i == -1 ==> head.next == First(was[1..], null)
      requires Nodes == was[..i + 1] + was[i + 2..]
      requires Contents == vals[..i + 1] + vals[i + 2..]
      requires Repr == oldRepr - {was[i + 1]}
      ensures Chain()
    {
      UnspliceLinked(was, vals, i);
      UnspliceDistinct(was, i, Nodes);
      assert forall k :: 0 <= k <= i ==> Nodes[k] == was[k];
      assert forall k :: i < k < |Nodes| ==> Nodes[k] == was[k + 1];
      assert forall k :: 0 <= k < |Nodes| ==> Nodes[k] != was[i + 1] by {
        DistinctAt(was, i + 1);
      }
    }

    /** Member swap: exchange the sentinels' links and the counters, touching
        no element node. Two lists own separate sentinels and nodes. */
    method Swap(other: SingleLinkedList<T>)
      requires Valid() && other.Valid()
      requires this != other ==> head != other.head && head !in other.Repr && other.head !in Repr
      modifies this, head, other, other.head
      ensures Valid() && other.Valid()
      ensures Contents == old(other.Contents) && other.Contents == old(Contents)
      ensures size == old(other.size) && other.size == old(size)
      ensures Nodes == old(other.Nodes) && other.Nodes == old(Nodes)
      ensures Repr == old(other.Repr) && other.Repr == old(Repr)
    {
      var link := other.head.next;
      other.head.next := head.next;
      head.next := link;
      var count := other.size;
      other.size := size;
      size := count;
      ghost var c, ns, r := other.Contents, other.Nodes, other.Repr;
      other.Contents, other.Nodes, other.Repr := Contents, Nodes, Repr;
      Contents, Nodes, Repr := c, ns, r;
    }

    /** operator=, copy-and-swap: nothing on self-assignment; otherwise build a
        complete copy of rhs first and only then swap it in. */
    method Assign(rhs: SingleLinkedList<T>)
      requires Valid() && rhs.Valid()
      requires this != rhs ==> head != rhs.head && head !in rhs.Repr && rhs.head !in Repr
      modifies this, head
      ensures Valid() && rhs.Valid()
      ensures rhs.Contents == old(rhs.Contents) && rhs.size == old(rhs.size)
      ensures this == rhs ==> Contents == old(Contents) && size == old(size) && Nodes == old(Nodes) && Repr == old(Repr)
      ensures this != rhs ==> Contents == rhs.Contents && SizeMatches() && fresh(Repr)
    {
      if this != rhs {
        var tmp := new SingleLinkedList.Copy(rhs);
        Swap(tmp);
      }
    }
  }

  /** The free swap. */
  method Swap<T(0)>(lhs: SingleLinkedList<T>, rhs: SingleLinkedList<T>)
    requires lhs.Valid() && rhs.Valid()
    requires lhs != rhs ==> lhs.head != rhs.head && lhs.head !in rhs.Repr && rhs.head !in lhs.Repr
    modifies lhs, lhs.head, rhs, rhs.head
    ensures lhs.Valid() && rhs.Valid()
    ensures lhs.Contents == old(rhs.Contents) && rhs.Contents == old(lhs.Contents)
    ensures lhs.size == old(rhs.size) && rhs.size == old(lhs.size)
  {
    lhs.Swap(rhs);
  }

  /** before_begin() advanced once equals begin(), and equals end() exactly
      when the list is empty. */
  method AdvanceBeforeBegin<T(0)>(l: SingleLinkedList<T>) returns (atBegin: bool, atEnd: bool)
    requires l.Valid()
    ensures atBegin
    ensures atEnd <==> l.Contents == []
  {
    var it := l.BeforeBegin();
    l.AdvancePosition(-1);
    it.Next();
    var b := l.Begin();
    var e := l.End();
    l.PositionsEqualIffSameIndex(0, |l.Nodes|);
    atBegin := it.Equals(b);
    atEnd := it.Equals(e);
  }

  /** InsertAfter(before_begin(), v) returns begin(), which reads v: the value
      is now the first element. */
  method InsertAtBeforeBegin<T(0)>(l: SingleLinkedList<T>, v: T) returns (isBegin: bool, first: T)
    requires l.Valid()
    modifies l, l.head
    ensures l.Valid() && l.Contents == [v] + old(l.Contents)
    ensures isBegin && first == v
  {
    var bb := l.BeforeBegin();
    var it := l.InsertAfter(bb, v, -1);
    var b := l.Begin();
    isBegin := it.Equals(b);
    l.ValueAtPosition(it, 0);
    first := it.Value();
  }

  /** PushFront undone by PopFront: the elements come back, but as written the
      counter stays one higher; with the decrement it comes back too. */
  method PushFrontThenPopFront<T(0)>(l: SingleLinkedList<T>, v: T, counted: bool)
    requires l.Valid()
    modifies l, l.head
    ensures l.Valid() && l.Contents == old(l.Contents)
    ensures l.size == old(l.size) + (if counted then 0 else 1)
  {
    l.PushFront(v);
    if counted {
      l.PopFrontCounted();
    } else {
      l.PopFront();
    }
  }

  /** A copy is independent of its original: pushing onto the copy leaves the
      original's elements and counter as they were. */
  method CopyIsIndependent<T(0)>(a: SingleLinkedList<T>, v: T) returns (b: SingleLinkedList<T>)
    requires a.Valid()
    ensures a.Valid() && a.Contents == old(a.Contents) && a.size == old(a.size)
    ensures b.Valid() && b.Contents == [v] + a.Contents
  {
    b := new SingleLinkedList.Copy(a);
    b.PushFront(v);
  }
}
