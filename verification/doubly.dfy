/**
  The doubly-linked list of double-link-list/src/main.rs, and its cursor.

  As for the singly-linked list, nodes live in an arena indexed by handles. A
  node's `next` link stands for the owning `Rc` and its `prev` link for the
  non-owning `Weak` back pointer; a `Weak` that no longer upgrades is a handle
  whose node has left the arena. `Valid` is the representation invariant and
  `Elements` the abstract sequence the list stands for.
 */
module DoublyLinkedList {
  import opened Options
  import opened Chain
  import Deque

  datatype Node<T> = Node(data: T, next: Option<Handle>, prev: Option<Handle>)

  /** `nextHandle` is the arena's allocation counter: the handle the next new
      node receives. */
  datatype List<T> = List(
    length: int,
    head: Option<Handle>,
    tail: Option<Handle>,
    nodes: map<Handle, Node<T>>,
    nextHandle: Handle)

  /** `Node::new`: a fresh node with neither neighbour. */
  function NewNode<T>(data: T): Node<T> {
    Node(data, None, None)
  }

  /** The handles met by following at most `n` `next` links from `h`; the walk
      stops early at an absent link or at a handle that is not in the arena. */
  function Walk<T>(nodes: map<Handle, Node<T>>, h: Option<Handle>, n: nat): (sp: seq<Handle>)
    ensures |sp| <= n
    ensures forall i :: 0 <= i < |sp| ==> sp[i] in nodes
    ensures |sp| > 0 ==> h == Some(sp[0])
    decreases n
  {
    if n == 0 || h.None? || h.value !in nodes then []
    else [h.value] + Walk(nodes, nodes[h.value].next, n - 1)
  }

  /** A walk of full length depends only on the `next` links it follows. */
  lemma {:induction false} WalkFrame<T>(m: map<Handle, Node<T>>, m': map<Handle, Node<T>>, h: Option<Handle>, n: nat)
    requires |Walk(m, h, n)| == n
    requires forall i :: 0 <= i < n ==> Walk(m, h, n)[i] in m'
    requires forall i :: 0 <= i < n - 1 ==> m'[Walk(m, h, n)[i]].next == m[Walk(m, h, n)[i]].next
    ensures Walk(m', h, n) == Walk(m, h, n)
    decreases n
  {
    if n > 0 {
      var sp := Walk(m, h, n);
      var k := h.value;
      var rest := Walk(m, m[k].next, n - 1);
      assert sp == [k] + rest;
      assert sp[0] == k;
      forall i | 0 <= i < n - 1
        ensures rest[i] in m' && (i < n - 2 ==> m'[rest[i]].next == m[rest[i]].next)
      {
        assert rest[i] == sp[i + 1];
      }
      WalkFrame(m, m', m[k].next, n - 1);
      if n > 1 {
        assert m'[sp[0]].next == m[sp[0]].next;
      }
    }
  }

  /** One more step of a full walk reaches the last node's successor. */
  lemma {:induction false} WalkExtend<T>(m: map<Handle, Node<T>>, h: Option<Handle>, n: nat)
    requires |Walk(m, h, n)| == n > 0
    requires m[Walk(m, h, n)[n - 1]].next.Some?
    requires m[Walk(m, h, n)[n - 1]].next.value in m
    ensures Walk(m, h, n + 1) == Walk(m, h, n) + [m[Walk(m, h, n)[n - 1]].next.value]
    decreases n
  {
    var k := h.value;
    var sp := Walk(m, h, n);
    assert sp == [k] + Walk(m, m[k].next, n - 1);
    if n > 1 {
      WalkExtend(m, m[k].next, n - 1);
    }
  }

  /** Along a full walk, each node's `next` is the following handle. */
  lemma {:induction false} WalkNext<T>(m: map<Handle, Node<T>>, h: Option<Handle>, n: nat, i: nat)
    requires |Walk(m, h, n)| == n
    requires i + 1 < n
    ensures m[Walk(m, h, n)[i]].next == Some(Walk(m, h, n)[i + 1])
    decreases n
  {
    var k := h.value;
    var rest := Walk(m, m[k].next, n - 1);
    assert Walk(m, h, n) == [k] + rest;
    if i > 0 {
      WalkNext(m, m[k].next, n - 1, i - 1);
    }
  }

  /** The handles reached from `head` in `length` steps. */
  function Spine<T>(l: List<T>): seq<Handle>
    requires l.length >= 0
  {
    Walk(l.nodes, l.head, l.length)
  }

  /** The forward half of the invariant: `length` nodes are reachable from
      `head`, the last of them has no successor and is `tail`, `head` is absent
      exactly when the list is empty, the arena holds exactly the reachable
      nodes (so the chain has no cycle), and every handle in use is below the
      allocation counter. */
  predicate Shape<T>(l: List<T>) {
    && l.length >= 0
    && |Spine(l)| == l.length
    && |l.nodes| == l.length
    && (l.length == 0 <==> l.head.None?)
    && (l.length == 0 ==> l.tail.None?)
    && (l.length > 0 ==> l.tail == Some(Spine(l)[l.length - 1]))
    && (l.length > 0 ==> l.nodes[Spine(l)[l.length - 1]].next.None?)
    && (forall k | k in l.nodes :: k in Spine(l))
    && (forall k | k in l.nodes :: k < l.nextHandle)
  }

  /** Along `sp`, the first node has no predecessor and every other node's
      `prev` is the node before it. */
  predicate BackLinked<T>(nodes: map<Handle, Node<T>>, sp: seq<Handle>) {
    forall i {:trigger nodes[sp[i]]} :: 0 <= i < |sp| ==>
      sp[i] in nodes && nodes[sp[i]].prev == (if i == 0 then None else Some(sp[i - 1]))
  }

  /** From position `from` on, every node along `sp` is in both arenas and
      keeps its back link. */
  predicate SamePrev<T>(m: map<Handle, Node<T>>, m': map<Handle, Node<T>>, sp: seq<Handle>, from: nat) {
    forall i :: from <= i < |sp| ==> sp[i] in m && sp[i] in m' && m'[sp[i]].prev == m[sp[i]].prev
  }

  /** Back links survive adding a node at the end that points back to the old
      last node, when no other node's `prev` changes. */
  lemma BackLinkedSnoc<T>(m: map<Handle, Node<T>>, m': map<Handle, Node<T>>, sp: seq<Handle>, k: Handle)
    requires BackLinked(m, sp)
    requires k in m' && m'[k].prev == (if sp == [] then None else Some(sp[|sp| - 1]))
    requires SamePrev(m, m', sp, 0)
    ensures BackLinked(m', sp + [k])
  {
    var sp' := sp + [k];
    forall i | 0 <= i < |sp'|
      ensures sp'[i] in m' && m'[sp'[i]].prev == (if i == 0 then None else Some(sp'[i - 1]))
    {
      if i < |sp| {
        assert sp'[i] == sp[i];
      } else {
        assert sp'[i] == k;
      }
      if i > 0 {
        assert sp'[i - 1] == sp[i - 1];
      }
    }
  }

  /** Back links survive adding a node at the front with no predecessor, when
      the old first node now points back to it and no other `prev` changes. */
  lemma BackLinkedCons<T>(m: map<Handle, Node<T>>, m': map<Handle, Node<T>>, sp: seq<Handle>, k: Handle)
    requires BackLinked(m, sp)
    requires k in m' && m'[k].prev.None?
    requires sp != [] ==> sp[0] in m' && m'[sp[0]].prev == Some(k)
    requires SamePrev(m, m', sp, 1)
    ensures BackLinked(m', [k] + sp)
  {
    var sp' := [k] + sp;
    forall i | 0 <= i < |sp'|
      ensures sp'[i] in m' && m'[sp'[i]].prev == (if i == 0 then None else Some(sp'[i - 1]))
    {
      if i > 0 {
        assert sp'[i] == sp[i - 1];
      }
    }
  }

  /** Back links survive dropping the first node, when the second node loses
      its back link and no other `prev` changes. */
  lemma BackLinkedDrop<T>(m: map<Handle, Node<T>>, m': map<Handle, Node<T>>, sp: seq<Handle>)
    requires BackLinked(m, sp) && sp != []
    requires |sp| > 1 ==> sp[1] in m' && m'[sp[1]].prev.None?
    requires SamePrev(m, m', sp, 2)
    ensures BackLinked(m', sp[1..])
  {
    var sp' := sp[1..];
    forall i | 0 <= i < |sp'|
      ensures sp'[i] in m' && m'[sp'[i]].prev == (if i == 0 then None else Some(sp'[i - 1]))
    {
      assert sp'[i] == sp[i + 1];
      if i > 0 {
        assert sp'[i - 1] == sp[i];
      }
    }
  }

  /** The backward half of the invariant: following `prev` from any node of
      the spine but the head leads to the node whose `next` it is, and the head
      has no predecessor. */
  predicate Backward<T>(l: List<T>)
    requires l.length >= 0
  {
    BackLinked(l.nodes, Spine(l))
  }

  /** The representation invariant. */
  predicate Valid<T>(l: List<T>) {
    Shape(l) && Backward(l)
  }

  /** The data of the nodes along `sp`, in order. */
  function Datas<T>(nodes: map<Handle, Node<T>>, sp: seq<Handle>): (s: seq<T>)
    requires forall i :: 0 <= i < |sp| ==> sp[i] in nodes
    ensures |s| == |sp|
  {
    seq(|sp|, i requires 0 <= i < |sp| => nodes[sp[i]].data)
  }

  /** Every node along `sp` is in both arenas and carries the same data. */
  ghost predicate SameData<T>(m: map<Handle, Node<T>>, m': map<Handle, Node<T>>, sp: seq<Handle>) {
    forall i :: 0 <= i < |sp| ==> sp[i] in m && sp[i] in m' && m'[sp[i]].data == m[sp[i]].data
  }

  lemma DatasSnoc<T>(m: map<Handle, Node<T>>, m': map<Handle, Node<T>>, sp: seq<Handle>, k: Handle)
    requires SameData(m, m', sp) && k in m'
    ensures Datas(m', sp + [k]) == Datas(m, sp) + [m'[k].data]
  {
    var sp' := sp + [k];
    assert forall i | 0 <= i < |sp| :: sp'[i] == sp[i];
  }

  lemma DatasCons<T>(m: map<Handle, Node<T>>, m': map<Handle, Node<T>>, sp: seq<Handle>, k: Handle)
    requires SameData(m, m', sp) && k in m'
    ensures Datas(m', [k] + sp) == [m'[k].data] + Datas(m, sp)
  {
    var sp' := [k] + sp;
    assert forall i | 0 <= i < |sp| :: sp'[i + 1] == sp[i];
  }

  lemma DatasDrop<T>(m: map<Handle, Node<T>>, m': map<Handle, Node<T>>, sp: seq<Handle>)
    requires sp != [] && sp[0] in m && SameData(m, m', sp[1..])
    ensures Datas(m', sp[1..]) == Datas(m, sp)[1..]
  {
    var sp' := sp[1..];
    assert forall i | 0 <= i < |sp'| :: sp'[i] == sp[i + 1];
  }

  /** The abstract sequence: the data of the spine's nodes, head first. */
  function Elements<T>(l: List<T>): (s: seq<T>)
    requires Valid(l)
    ensures |s| == l.length
  {
    Datas(l.nodes, Spine(l))
  }

  /** `LinkedList::new`: the empty list. */
  function New<T>(): (l: List<T>)
    ensures l.length == 0 && l.head.None? && l.tail.None?
    ensures Valid(l) && Elements(l) == []
  {
    List(0, None, None, map[], 0)
  }

  /** `LinkedList::append`: a fresh node becomes the tail, linked both ways
      with the old tail, or becomes the head too when the list was empty. */
  function Append<T>(l: List<T>, x: T): (r: List<T>)
    requires l.tail.Some? ==> l.tail.value in l.nodes
    requires l.nextHandle !in l.nodes
    ensures r.length == l.length + 1
    ensures r.tail == Some(l.nextHandle) && l.nextHandle in r.nodes
    ensures r.nodes[l.nextHandle] == Node(x, None, l.tail)
    ensures l.tail.None? ==> r.head == r.tail
    ensures l.tail.Some? ==> r.head == l.head && l.tail.value in r.nodes && r.nodes[l.tail.value].next == r.tail
  {
    var k := l.nextHandle;
    match l.tail
    case Some(prior) =>
      var nodes := l.nodes[prior := l.nodes[prior].(next := Some(k))];
      List(l.length + 1, l.head, Some(k), nodes[k := NewNode(x).(prev := Some(prior))], k + 1)
    case None =>
      List(l.length + 1, Some(k), Some(k), l.nodes[k := NewNode(x)], k + 1)
  }

  /** `LinkedList::prepend`: a fresh node becomes the head, linked both ways
      with the old head, or becomes the tail too when the list was empty. */
  function Prepend<T>(l: List<T>, x: T): (r: List<T>)
    requires l.head.Some? ==> l.head.value in l.nodes
    requires l.nextHandle !in l.nodes
    ensures r.length == l.length + 1
    ensures r.head == Some(l.nextHandle) && l.nextHandle in r.nodes
    ensures r.nodes[l.nextHandle] == Node(x, l.head, None)
    ensures l.head.None? ==> r.tail == r.head
    ensures l.head.Some? ==> r.tail == l.tail && l.head.value in r.nodes && r.nodes[l.head.value].prev == r.head
  {
    var k := l.nextHandle;
    match l.head
    case Some(prior) =>
      var nodes := l.nodes[prior := l.nodes[prior].(prev := Some(k))];
      List(l.length + 1, Some(k), l.tail, nodes[k := NewNode(x).(next := Some(prior))], k + 1)
    case None =>
      List(l.length + 1, Some(k), Some(k), l.nodes[k := NewNode(x)], k + 1)
  }

  /** `LinkedList::pop`: removes the head node from the arena and returns its
      data; the successor loses its back link and becomes the head, or both
      ends are cleared when there is none. An empty list is returned unchanged
      with no value. */
  function Pop<T>(l: List<T>): (r: (List<T>, Option<T>))
    requires l.head.Some? ==> l.head.value in l.nodes
    requires l.head.Some? && l.nodes[l.head.value].next.Some? ==> l.nodes[l.head.value].next.value in l.nodes
    ensures l.head.None? ==> r.1.None? && r.0 == l
    ensures l.head.Some? ==>
      && r.1 == Some(l.nodes[l.head.value].data)
      && r.0.length == l.length - 1
      && r.0.head == l.nodes[l.head.value].next
      && (r.0.head.None? ==> r.0.tail.None?)
      && (r.0.head.Some? ==> r.0.tail == l.tail)
      && r.0.nodes.Keys == l.nodes.Keys - {l.head.value}
    ensures r.0.head.Some? && r.0.head.value in r.0.nodes ==> r.0.nodes[r.0.head.value].prev.None?
  {
    match l.head
    case None => (l, None)
    case Some(h) =>
      var node := l.nodes[h];
      match node.next
      case Some(succ) =>
        var nodes := l.nodes[succ := l.nodes[succ].(prev := None)] - {h};
        (List(l.length - 1, Some(succ), l.tail, nodes, l.nextHandle), Some(node.data))
      case None =>
        (List(l.length - 1, None, None, l.nodes - {h}, l.nextHandle), Some(node.data))
  }

  /** `Append` keeps every old node and changes no node's data or `prev`. */
  lemma AppendKeeps<T>(l: List<T>, x: T)
    requires l.tail.Some? ==> l.tail.value in l.nodes
    requires l.nextHandle !in l.nodes
    ensures forall k | k in l.nodes ::
              && k in Append(l, x).nodes
              && Append(l, x).nodes[k].data == l.nodes[k].data
              && Append(l, x).nodes[k].prev == l.nodes[k].prev
  {
  }

  /** `Append` changes no old node but the old tail. */
  lemma AppendKeepsOthers<T>(l: List<T>, x: T)
    requires l.tail.Some? ==> l.tail.value in l.nodes
    requires l.nextHandle !in l.nodes
    ensures forall k | k in l.nodes && l.tail != Some(k) :: k in Append(l, x).nodes && Append(l, x).nodes[k] == l.nodes[k]
  {
  }

  /** After `Append`, the spine runs on to the fresh node. */
  lemma {:induction false} AppendSpine<T>(l: List<T>, x: T)
    requires Shape(l)
    ensures Spine(Append(l, x)) == Spine(l) + [l.nextHandle]
  {
    var r := Append(l, x);
    var sp := Spine(l);
    var k := l.nextHandle;
    if l.length == 0 {
      assert Spine(r) == [k];
    } else {
      var n := l.length;
      UniqueByCount(sp, l.nodes.Keys, n - 1);
      AppendKeepsOthers(l, x);
      forall i | 0 <= i < n
        ensures sp[i] in r.nodes && (i < n - 1 ==> r.nodes[sp[i]] == l.nodes[sp[i]])
      {
        if i < n - 1 {
          assert sp[i] != sp[n - 1];
        }
      }
      WalkFrame(l.nodes, r.nodes, l.head, n);
      WalkExtend(r.nodes, l.head, n);
    }
  }

  /** Appending keeps the forward half of the invariant. */
  lemma AppendShape<T>(l: List<T>, x: T)
    requires Shape(l)
    ensures Shape(Append(l, x))
  {
    AppendSpine(l, x);
  }

  /** Along the old spine, `Append` changes no back link. */
  lemma AppendSamePrev<T>(l: List<T>, x: T)
    requires Shape(l)
    ensures SamePrev(l.nodes, Append(l, x).nodes, Spine(l), 0)
  {
    AppendKeeps(l, x);
  }

  /** Appending keeps the back links: the fresh node points back to the old
      tail and no other node's `prev` changes. */
  lemma AppendBackward<T>(l: List<T>, x: T)
    requires Valid(l)
    ensures Backward(Append(l, x))
  {
    var r := Append(l, x);
    var sp := Spine(l);
    var k := l.nextHandle;
    AppendSpine(l, x);
    AppendSamePrev(l, x);
    assert r.nodes[k].prev == l.tail;
    if sp != [] {
      assert l.tail == Some(sp[|sp| - 1]);
    }
    BackLinkedSnoc(l.nodes, r.nodes, sp, k);
    assert Spine(r) == sp + [k];
  }

  /** Appending reads the old nodes' data unchanged, then `x` at the fresh node. */
  lemma AppendData<T>(l: List<T>, x: T)
    requires Shape(l)
    ensures Datas(Append(l, x).nodes, Spine(l) + [l.nextHandle]) == Datas(l.nodes, Spine(l)) + [x]
  {
    var r := Append(l, x);
    var sp := Spine(l);
    AppendKeeps(l, x);
    assert SameData(l.nodes, r.nodes, sp);
    DatasSnoc(l.nodes, r.nodes, sp, l.nextHandle);
  }

  /** Appending to a valid list keeps it valid and adds `x` at the end. */
  lemma {:induction false} AppendRefines<T>(l: List<T>, x: T)
    requires Valid(l)
    ensures Valid(Append(l, x))
    ensures Elements(Append(l, x)) == Elements(l) + [x]
  {
    var r := Append(l, x);
    AppendShape(l, x);
    AppendBackward(l, x);
    AppendSpine(l, x);
    AppendData(l, x);
    assert Elements(r) == Datas(r.nodes, Spine(l) + [l.nextHandle]);
  }

  /** `Prepend` keeps every old node, changes no node's data or `next`, and
      changes no `prev` but the old head's. */
  lemma PrependKeeps<T>(l: List<T>, x: T)
    requires l.head.Some? ==> l.head.value in l.nodes
    requires l.nextHandle !in l.nodes
    ensures forall k | k in l.nodes ::
              && k in Prepend(l, x).nodes
              && Prepend(l, x).nodes[k].data == l.nodes[k].data
              && Prepend(l, x).nodes[k].next == l.nodes[k].next
              && (l.head != Some(k) ==> Prepend(l, x).nodes[k].prev == l.nodes[k].prev)
  {
  }

  /** After `Prepend`, the spine starts at the fresh node. */
  lemma {:induction false} PrependSpine<T>(l: List<T>, x: T)
    requires Shape(l)
    ensures Spine(Prepend(l, x)) == [l.nextHandle] + Spine(l)
  {
    var r := Prepend(l, x);
    var sp := Spine(l);
    PrependKeeps(l, x);
    assert forall i | 0 <= i < |sp| :: sp[i] in r.nodes && r.nodes[sp[i]].next == l.nodes[sp[i]].next;
    WalkFrame(l.nodes, r.nodes, l.head, l.length);
    assert r.nodes[l.nextHandle].next == l.head;
    assert Spine(r) == [l.nextHandle] + Walk(r.nodes, l.head, l.length);
  }

  /** Prepending keeps the forward half of the invariant. */
  lemma PrependShape<T>(l: List<T>, x: T)
    requires Shape(l)
    ensures Shape(Prepend(l, x))
  {
    PrependSpine(l, x);
  }

  /** Prepending keeps the back links: the old head points back to the fresh
      node, which has no predecessor, and no other node's `prev` changes. */
  lemma PrependBackward<T>(l: List<T>, x: T)
    requires Valid(l)
    ensures Backward(Prepend(l, x))
  {
    var r := Prepend(l, x);
    var sp := Spine(l);
    var k := l.nextHandle;
    PrependSpine(l, x);
    PrependKeeps(l, x);
    if sp != [] {
      UniqueByCount(sp, l.nodes.Keys, 0);
      assert l.head == Some(sp[0]) && r.nodes[sp[0]].prev == Some(k);
    }
    forall i | 1 <= i < |sp|
      ensures sp[i] in l.nodes && sp[i] in r.nodes && r.nodes[sp[i]].prev == l.nodes[sp[i]].prev
    {
      assert sp[i] != sp[0];
    }
    assert r.nodes[k].prev.None?;
    BackLinkedCons(l.nodes, r.nodes, sp, k);
    assert Spine(r) == [k] + sp;
  }

  /** Prepending reads `x` at the fresh node, then the old nodes' data unchanged. */
  lemma PrependData<T>(l: List<T>, x: T)
    requires Shape(l)
    ensures Datas(Prepend(l, x).nodes, [l.nextHandle] + Spine(l)) == [x] + Datas(l.nodes, Spine(l))
  {
    var r := Prepend(l, x);
    var sp := Spine(l);
    PrependKeeps(l, x);
    assert SameData(l.nodes, r.nodes, sp);
    DatasCons(l.nodes, r.nodes, sp, l.nextHandle);
  }

  /** Prepending to a valid list keeps it valid and adds `x` at the front. */
  lemma {:induction false} PrependRefines<T>(l: List<T>, x: T)
    requires Valid(l)
    ensures Valid(Prepend(l, x))
    ensures Elements(Prepend(l, x)) == [x] + Elements(l)
  {
    var r := Prepend(l, x);
    PrependShape(l, x);
    PrependBackward(l, x);
    PrependSpine(l, x);
    PrependData(l, x);
    assert Elements(r) == Datas(r.nodes, [l.nextHandle] + Spine(l));
  }

  /** The nodes `Pop` keeps are old nodes with the same data and `next`; only
      the new head's `prev` changes. */
  lemma PopKeeps<T>(l: List<T>)
    requires l.head.Some? && l.head.value in l.nodes
    requires l.nodes[l.head.value].next.Some? ==> l.nodes[l.head.value].next.value in l.nodes
    ensures forall k | k in Pop(l).0.nodes ::
              && k in l.nodes
              && Pop(l).0.nodes[k].data == l.nodes[k].data
              && Pop(l).0.nodes[k].next == l.nodes[k].next
              && (Pop(l).0.head != Some(k) ==> Pop(l).0.nodes[k].prev == l.nodes[k].prev)
  {
  }

  /** After `Pop` of a non-empty list, the spine loses its first handle, which
      occurs nowhere else. */
  lemma {:induction false} PopSpine<T>(l: List<T>)
    requires Shape(l) && l.length > 0
    ensures Spine(Pop(l).0) == Spine(l)[1..]
    ensures Spine(l)[0] !in Spine(Pop(l).0)
  {
    var r := Pop(l).0;
    var sp := Spine(l);
    var h := l.head.value;
    var rest := Walk(l.nodes, l.nodes[h].next, l.length - 1);
    assert sp == [h] + rest;
    UniqueByCount(sp, l.nodes.Keys, 0);
    PopKeeps(l);
    forall i | 0 <= i < |rest|
      ensures rest[i] in r.nodes && r.nodes[rest[i]].next == l.nodes[rest[i]].next
    {
      assert rest[i] == sp[i + 1] != h;
    }
    WalkFrame(l.nodes, r.nodes, l.nodes[h].next, l.length - 1);
    assert r.head == l.nodes[h].next && r.length == l.length - 1;
    assert Spine(r) == rest == sp[1..];
  }

  /** Popping a non-empty list keeps the forward half of the invariant. */
  lemma PopShape<T>(l: List<T>)
    requires Shape(l) && l.length > 0
    ensures Shape(Pop(l).0)
  {
    var r := Pop(l).0;
    PopSpine(l);
    assert r.nodes.Keys == l.nodes.Keys - {Spine(l)[0]};
    assert |r.nodes| == l.length - 1;
  }

  /** Popping a non-empty list keeps the back links: the new head loses its
      back link and no other node's `prev` changes. */
  lemma PopBackward<T>(l: List<T>)
    requires Valid(l) && l.length > 0
    ensures Backward(Pop(l).0)
  {
    var r := Pop(l).0;
    var sp := Spine(l);
    PopSpine(l);
    PopKeeps(l);
    if |sp| > 1 {
      UniqueByCount(sp, l.nodes.Keys, 1);
      assert sp[1] == Spine(r)[0] && r.head == Some(sp[1]);
      assert r.nodes[sp[1]].prev.None?;
    }
    forall i | 2 <= i < |sp|
      ensures sp[i] in l.nodes && sp[i] in r.nodes && r.nodes[sp[i]].prev == l.nodes[sp[i]].prev
    {
      assert sp[i] == Spine(r)[i - 1] && sp[i] != sp[1];
    }
    BackLinkedDrop(l.nodes, r.nodes, sp);
    assert Spine(r) == sp[1..];
  }

  /** Popping a non-empty list leaves the data of the remaining nodes unchanged. */
  lemma PopData<T>(l: List<T>)
    requires Shape(l) && l.length > 0
    ensures Datas(Pop(l).0.nodes, Spine(Pop(l).0)) == Datas(l.nodes, Spine(l))[1..]
  {
    var r := Pop(l).0;
    var sp := Spine(l);
    PopSpine(l);
    var sp' := sp[1..];
    PopKeeps(l);
    assert Spine(r) == sp';
    assert SameData(l.nodes, r.nodes, sp');
    DatasDrop(l.nodes, r.nodes, sp);
  }

  /** Popping a valid list keeps it valid; on an empty list it returns nothing
      and changes nothing, otherwise it returns the first element and leaves
      the rest, clearing both ends when that was the last element. */
  lemma {:induction false} PopRefines<T>(l: List<T>)
    requires Valid(l)
    ensures Valid(Pop(l).0)
    ensures Elements(l) == [] ==> Pop(l).1.None? && Pop(l).0 == l
    ensures Elements(l) != [] ==>
      Pop(l).1 == Some(Elements(l)[0]) && Elements(Pop(l).0) == Elements(l)[1..]
    ensures |Elements(l)| == 1 ==> Pop(l).0.head.None? && Pop(l).0.tail.None?
  {
    if l.length > 0 {
      var r := Pop(l).0;
      PopShape(l);
      PopBackward(l);
      PopSpine(l);
      PopData(l);
    }
  }

  /** `DoubleLinkIterator`: a cursor on a node of the list, or on nothing. */
  datatype Cursor = Cursor(current: Option<Handle>)

  /** `DoubleLinkIterator::new`: a cursor on the given node. */
  function NewCursor(link: Option<Handle>): (c: Cursor)
    ensures c.current == link
  {
    Cursor(link)
  }

  /** `Weak::upgrade`: a back link yields its node while that node is still
      in the arena. */
  function Upgrade<T>(l: List<T>, w: Option<Handle>): Option<Handle> {
    if w.Some? && w.value in l.nodes then w else None
  }

  /** `Iterator::next`: returns the data of the cursor's node and moves the
      cursor to the node's successor; a cursor on nothing returns nothing and
      stays there. A cursor on a node that has left the arena reads as one on
      nothing. */
  function Next<T>(l: List<T>, c: Cursor): (r: (Cursor, Option<T>))
    ensures c.current.None? ==> r.0.current.None? && r.1.None?
    ensures r.1.None? ==> r.0.current.None?
    ensures r.1.Some? <==> c.current.Some? && c.current.value in l.nodes
  {
    match c.current
    case None => (Cursor(None), None)
    case Some(h) =>
      if h in l.nodes then (Cursor(l.nodes[h].next), Some(l.nodes[h].data))
      else (Cursor(None), None)
  }

  /** `BackIterator::prev`: returns the data of the cursor's node and moves the
      cursor to the node its back link still reaches; a cursor on nothing
      returns nothing and stays there. */
  function Prev<T>(l: List<T>, c: Cursor): (r: (Cursor, Option<T>))
    ensures c.current.None? ==> r.0.current.None? && r.1.None?
    ensures r.1.None? ==> r.0.current.None?
    ensures r.1.Some? <==> c.current.Some? && c.current.value in l.nodes
    ensures r.0.current.Some? ==> r.0.current.value in l.nodes
  {
    match c.current
    case None => (Cursor(None), None)
    case Some(h) =>
      if h in l.nodes then (Cursor(Upgrade(l, l.nodes[h].prev)), Some(l.nodes[h].data))
      else (Cursor(None), None)
  }

  /** The cursor on position `i` of the list; every position outside the
      list is the cursor on nothing. */
  function At<T>(l: List<T>, i: int): (c: Cursor)
    ensures Valid(l) ==> (c.current.Some? <==> 0 <= i < |Elements(l)|)
  {
    if 0 <= i < l.length && i < |Spine(l)| then Cursor(Some(Spine(l)[i])) else Cursor(None)
  }

  /** A fresh cursor from `head` is on the first position, one from `tail` on
      the last. */
  lemma EndsAt<T>(l: List<T>)
    requires Valid(l)
    ensures NewCursor(l.head) == At(l, 0)
    ensures NewCursor(l.tail) == At(l, |Elements(l)| - 1)
  {
  }

  /** `next` on position `i` returns the element there, or nothing outside the
      list, and moves to position `i + 1`. */
  lemma NextAt<T>(l: List<T>, i: int)
    requires Valid(l) && i >= 0
    ensures Next(l, At(l, i)).0 == At(l, i + 1)
    ensures Next(l, At(l, i)).1 == Deque.Read(Elements(l), i)
  {
    var sp := Spine(l);
    var e := Elements(l);
    if i < l.length {
      assert At(l, i) == Cursor(Some(sp[i]));
      assert e[i] == l.nodes[sp[i]].data;
      assert Deque.Read(e, i) == Some(l.nodes[sp[i]].data);
      if i < l.length - 1 {
        WalkNext(l.nodes, l.head, l.length, i);
        assert At(l, i + 1) == Cursor(Some(sp[i + 1]));
      } else {
        assert l.nodes[sp[i]].next.None?;
        assert At(l, i + 1) == Cursor(None);
      }
    } else {
      assert At(l, i) == Cursor(None) && At(l, i + 1) == Cursor(None);
      assert Deque.Read(e, i) == None;
    }
  }

  /** `prev` on position `i` returns the element there, or nothing outside the
      list, and moves to position `i - 1`: past the head that is the cursor on
      nothing. */
  lemma PrevAt<T>(l: List<T>, i: int)
    requires Valid(l) && i < |Elements(l)|
    ensures Prev(l, At(l, i)).0 == At(l, i - 1)
    ensures Prev(l, At(l, i)).1 == Deque.Read(Elements(l), i)
  {
    if 0 <= i {
      var sp := Spine(l);
      assert l.nodes[sp[i]].prev == (if i == 0 then None else Some(sp[i - 1]));
    }
  }

  /** Stepping forward and then back returns the cursor to where it was, as
      long as there is a next node; the two calls return the element there and
      the one after it. */
  lemma NextThenPrev<T>(l: List<T>, i: int)
    requires Valid(l) && 0 <= i && i + 1 < |Elements(l)|
    ensures var (c, v) := Next(l, At(l, i));
      var (c', v') := Prev(l, c);
      c' == At(l, i) && v == Some(Elements(l)[i]) && v' == Some(Elements(l)[i + 1])
  {
    NextAt(l, i);
    PrevAt(l, i + 1);
  }

  /** Stepping back and then forward returns the cursor to where it was, as
      long as there is a previous node. */
  lemma PrevThenNext<T>(l: List<T>, i: int)
    requires Valid(l) && 0 < i < |Elements(l)|
    ensures var (c, v) := Prev(l, At(l, i));
      var (c', v') := Next(l, c);
      c' == At(l, i) && v == Some(Elements(l)[i]) && v' == Some(Elements(l)[i - 1])
  {
    PrevAt(l, i);
    NextAt(l, i - 1);
  }

  /** `k` calls of `next`, collecting what they return. */
  function NextN<T>(l: List<T>, c: Cursor, k: nat): (r: (Cursor, seq<Option<T>>))
    ensures |r.1| == k
    decreases k
  {
    if k == 0 then (c, [])
    else
      var first := Next(l, c);
      var rest := NextN(l, first.0, k - 1);
      (rest.0, [first.1] + rest.1)
  }

  /** `k` calls of `prev`, collecting what they return. */
  function PrevN<T>(l: List<T>, c: Cursor, k: nat): (r: (Cursor, seq<Option<T>>))
    ensures |r.1| == k
    decreases k
  {
    if k == 0 then (c, [])
    else
      var first := Prev(l, c);
      var rest := PrevN(l, first.0, k - 1);
      (rest.0, [first.1] + rest.1)
  }

  /** When every `next` from position `i` on reads `e` at that position and
      moves one position on, `k` calls read `k` positions of `e` forward. */
  lemma {:induction false} NextSteps<T>(l: List<T>, e: seq<T>, i: int, k: nat)
    requires forall j {:trigger Next(l, At(l, j))} :: i <= j ==> Next(l, At(l, j)) == (At(l, j + 1), Deque.Read(e, j))
    ensures NextN(l, At(l, i), k).1 == Deque.Forward(e, i, k)
    decreases k
  {
    if k > 0 {
      assert Next(l, At(l, i)) == (At(l, i + 1), Deque.Read(e, i));
      NextSteps(l, e, i + 1, k - 1);
    }
  }

  /** When every `prev` from position `i` down reads `e` at that position and
      moves one position back, `k` calls read `k` positions of `e` backward. */
  lemma {:induction false} PrevSteps<T>(l: List<T>, e: seq<T>, i: int, k: nat)
    requires forall j {:trigger Prev(l, At(l, j))} :: j <= i ==> Prev(l, At(l, j)) == (At(l, j - 1), Deque.Read(e, j))
    ensures PrevN(l, At(l, i), k).1 == Deque.Backward(e, i, k)
    decreases k
  {
    if k > 0 {
      assert Prev(l, At(l, i)) == (At(l, i - 1), Deque.Read(e, i));
      PrevSteps(l, e, i - 1, k - 1);
    }
  }

  /** Repeated `next` from position `i` returns the elements from `i` on, in
      order, and nothing once past the end. */
  lemma NextFrom<T>(l: List<T>, i: int, k: nat)
    requires Valid(l) && i >= 0
    ensures NextN(l, At(l, i), k).1 == Deque.Forward(Elements(l), i, k)
  {
    forall j | i <= j
      ensures Next(l, At(l, j)) == (At(l, j + 1), Deque.Read(Elements(l), j))
    {
      NextAt(l, j);
    }
    NextSteps(l, Elements(l), i, k);
  }

  /** Repeated `prev` from position `i` returns the elements from `i` down to
      the head, and nothing once past the head. */
  lemma PrevFrom<T>(l: List<T>, i: int, k: nat)
    requires Valid(l) && i < |Elements(l)|
    ensures PrevN(l, At(l, i), k).1 == Deque.Backward(Elements(l), i, k)
  {
    forall j | j <= i
      ensures Prev(l, At(l, j)) == (At(l, j - 1), Deque.Read(Elements(l), j))
    {
      PrevAt(l, j);
    }
    PrevSteps(l, Elements(l), i, k);
  }

  /** A cursor from `head` reads the list forward from its first position:
      the elements in order and then nothing, however often `next` is called
      (`Deque.ForwardReads`). */
  lemma ForwardTraversal<T>(l: List<T>, k: nat)
    requires Valid(l)
    ensures NextN(l, NewCursor(l.head), k).1 == Deque.Forward(Elements(l), 0, k)
  {
    EndsAt(l);
    NextFrom(l, 0, k);
  }

  /** A cursor from `tail` reads the list backward from its last position:
      the elements in reverse order and then nothing (`Deque.BackwardReads`). */
  lemma BackwardTraversal<T>(l: List<T>, k: nat)
    requires Valid(l)
    ensures PrevN(l, NewCursor(l.tail), k).1 == Deque.Backward(Elements(l), |Elements(l)| - 1, k)
  {
    EndsAt(l);
    PrevFrom(l, |Elements(l)| - 1, k);
  }

  /** Performs one call on the list: what `append`, `prepend` or `pop`
      does, and the value it returns, as the reference deque describes it. */
  function Exec<T>(l: List<T>, op: Deque.Op<T>): (r: (List<T>, seq<Option<T>>))
    requires Valid(l)
    ensures Valid(r.0)
    ensures Elements(r.0) == Deque.Step(Elements(l), op).0
    ensures r.1 == Deque.Step(Elements(l), op).1
  {
    match op
    case Append(x) => AppendRefines(l, x); (Append(l, x), [])
    case Prepend(x) => PrependRefines(l, x); (Prepend(l, x), [])
    case Pop => PopRefines(l); var (l', v) := Pop(l); (l', [v])
  }

  /** Performs a script of calls, collecting the values the pops return. */
  function Run<T>(l: List<T>, ops: seq<Deque.Op<T>>): (r: (List<T>, seq<Option<T>>))
    requires Valid(l)
    ensures Valid(r.0)
    decreases |ops|
  {
    if ops == [] then (l, [])
    else
      var first := Exec(l, ops[0]);
      var rest := Run(first.0, ops[1..]);
      (rest.0, first.1 + rest.1)
  }

  /** Any script run on the linked list leaves the sequence, and returns the
      values, that the same script gives on the reference deque. */
  lemma {:induction false} RunRefines<T>(l: List<T>, ops: seq<Deque.Op<T>>)
    requires Valid(l)
    ensures Elements(Run(l, ops).0) == Deque.Run(Elements(l), ops).0
    ensures Run(l, ops).1 == Deque.Run(Elements(l), ops).1
    decreases |ops|
  {
    if ops != [] {
      RunRefines(Exec(l, ops[0]).0, ops[1..]);
    }
  }

  /** FIFO: popping as many times as items were appended to an empty list
      returns them in the order they were appended and empties the list. */
  lemma AppendThenPopIsFifo<T>(xs: seq<T>)
    ensures var r := Run(New(), Deque.Appends(xs) + Deque.Pops(|xs|));
      r.0.length == 0 && r.1 == Deque.Present(xs)
  {
    RunRefines(New<T>(), Deque.Appends(xs) + Deque.Pops(|xs|));
    Deque.FirstInFirstOut(xs);
  }

  /** LIFO: popping as many times as items were prepended to an empty list
      returns them most recent first and empties the list. */
  lemma PrependThenPopIsLifo<T>(xs: seq<T>)
    ensures var r := Run(New(), Deque.Prepends(xs) + Deque.Pops(|xs|));
      r.0.length == 0 && r.1 == Deque.Present(Deque.Reverse(xs))
  {
    RunRefines(New<T>(), Deque.Prepends(xs) + Deque.Pops(|xs|));
    Deque.LastInFirstOut(xs);
  }

  /** The demonstration in `main`: append 2, append 3, prepend 1, pop; then a
      cursor from the head steps forward twice, back once and forward again. */
  lemma MainScenario()
    ensures var r := Run(New(), [Deque.Append(2), Deque.Append(3), Deque.Prepend(1), Deque.Pop]);
      && r.1 == [Some(1)] && r.0.length == 2 && Elements(r.0) == [2, 3]
      && var c0 := NewCursor(r.0.head);
         var (c1, v1) := Next(r.0, c0);
         var (c2, v2) := Next(r.0, c1);
         var (c3, v3) := Prev(r.0, c2);
         var (c4, v4) := Next(r.0, c3);
         [v1, v2, v3, v4] == [Some(2), Some(3), None, None]
  {
    var ops := [Deque.Append(2), Deque.Append(3), Deque.Prepend(1), Deque.Pop];
    RunRefines(New<int>(), ops);
    Deque.DoublyMainScript();
    var l := Run(New<int>(), ops).0;
    assert NewCursor(l.head) == At(l, 0);
    NextAt(l, 0);
    NextAt(l, 1);
    assert At(l, 2) == Cursor(None);
  }
}
