/**
  The singly-linked list of single-link-list/src/main.rs.

  Nodes live in an arena indexed by handles; the list keeps a length counter and
  optional `head` and `tail` handles. `Valid` is the representation invariant and
  `Elements` the abstract sequence the list stands for.
 */
module SinglyLinkedList {
  import opened Options
  import opened Chain
  import Deque

  datatype Node<T> = Node(data: T, next: Option<Handle>)

  /** `nextHandle` is the arena's allocation counter: the handle the next new
      node receives. */
  datatype List<T> = List(
    length: int,
    head: Option<Handle>,
    tail: Option<Handle>,
    nodes: map<Handle, Node<T>>,
    nextHandle: Handle)

  /** A fresh node with no successor. */
  function NewNode<T>(data: T): Node<T> {
    Node(data, None)
  }

  /** The handles met by following at most `n` links from `h`; the walk stops
      early at an absent link or at a handle that is not in the arena. */
  function Walk<T>(nodes: map<Handle, Node<T>>, h: Option<Handle>, n: nat): (sp: seq<Handle>)
    ensures |sp| <= n
    ensures forall i :: 0 <= i < |sp| ==> sp[i] in nodes
    ensures |sp| > 0 ==> h == Some(sp[0])
    decreases n
  {
    if n == 0 || h.None? || h.value !in nodes then []
    else [h.value] + Walk(nodes, nodes[h.value].next, n - 1)
  }

  lemma {:induction false} WalkFrame<T>(m: map<Handle, Node<T>>, m': map<Handle, Node<T>>, h: Option<Handle>, n: nat)
    requires |Walk(m, h, n)| == n
    requires forall i :: 0 <= i < n ==> Walk(m, h, n)[i] in m'
    requires forall i :: 0 <= i < n - 1 ==> m'[Walk(m, h, n)[i]].next == m[Walk(m, h, n)[i]].next
    ensures Walk(m', h, n) == Walk(m, h, n)
    decreases n
  {
    if n > 0 {
      var sp := Walk(m, h, n);
      var k := h.value;
      var rest := Walk(m, m[k].next, n - 1);
      assert sp == [k] + rest;
      assert sp[0] == k;
      forall i | 0 <= i < n - 1
        ensures rest[i] in m' && (i < n - 2 ==> m'[rest[i]].next == m[rest[i]].next)
      {
        assert rest[i] == sp[i + 1];
      }
      WalkFrame(m, m', m[k].next, n - 1);
      if n > 1 {
        assert m'[sp[0]].next == m[sp[0]].next;
      }
    }
  }

  lemma {:induction false} WalkExtend<T>(m: map<Handle, Node<T>>, h: Option<Handle>, n: nat)
    requires |Walk(m, h, n)| == n > 0
    requires m[Walk(m, h, n)[n - 1]].next.Some?
    requires m[Walk(m, h, n)[n - 1]].next.value in m
    ensures Walk(m, h, n + 1) == Walk(m, h, n) + [m[Walk(m, h, n)[n - 1]].next.value]
    decreases n
  {
    var k := h.value;
    var sp := Walk(m, h, n);
    assert sp == [k] + Walk(m, m[k].next, n - 1);
    if n > 1 {
      WalkExtend(m, m[k].next, n - 1);
    }
  }

  /** The handles reached from `head` in `length` steps. */
  function Spine<T>(l: List<T>): seq<Handle>
    requires l.length >= 0
  {
    Walk(l.nodes, l.head, l.length)
  }

  /** The representation invariant: `length` nodes are reachable from `head`,
      the last of them has no successor and is `tail`, `head` is absent exactly
      when the list is empty, the arena holds exactly the reachable nodes (so
      the chain has no cycle, see `SpineDistinct`), and every handle in use is
      below the allocation counter. */
  predicate Valid<T>(l: List<T>) {
    && l.length >= 0
    && |Spine(l)| == l.length
    && |l.nodes| == l.length
    && (l.length == 0 <==> l.head.None?)
    && (l.length == 0 ==> l.tail.None?)
    && (l.length > 0 ==> l.tail == Some(Spine(l)[l.length - 1]))
    && (l.length > 0 ==> l.nodes[Spine(l)[l.length - 1]].next.None?)
    && (forall k | k in l.nodes :: k in Spine(l))
    && (forall k | k in l.nodes :: k < l.nextHandle)
  }

  /** Following `next` from `head` never revisits a node. */
  lemma SpineDistinct<T>(l: List<T>)
    requires Valid(l)
    ensures Distinct(Spine(l))
  {
    DistinctByCount(Spine(l), l.nodes.Keys);
  }

  /** The abstract sequence: the data of the spine's nodes, head first. */
  function Elements<T>(l: List<T>): (s: seq<T>)
    requires Valid(l)
    ensures |s| == l.length
  {
    var sp := Spine(l);
    seq(|sp|, i requires 0 <= i < |sp| => l.nodes[sp[i]].data)
  }

  /** `LinkedList::new`: the empty list. */
  function New<T>(): (l: List<T>)
    ensures l.length == 0 && l.head.None? && l.tail.None?
    ensures Valid(l) && Elements(l) == []
  {
    List(0, None, None, map[], 0)
  }

  /** `LinkedList::append`: a fresh node becomes the tail, linked from the old
      tail, or becomes the head too when the list was empty. */
  function Append<T>(l: List<T>, x: T): (r: List<T>)
    requires l.tail.Some? ==> l.tail.value in l.nodes
    requires l.nextHandle !in l.nodes
    ensures r.length == l.length + 1
    ensures r.tail == Some(l.nextHandle) && l.nextHandle in r.nodes
    ensures r.nodes[l.nextHandle] == Node(x, None)
    ensures l.tail.None? ==> r.head == r.tail
    ensures l.tail.Some? ==> r.head == l.head && l.tail.value in r.nodes && r.nodes[l.tail.value].next == r.tail
  {
    var k := l.nextHandle;
    match l.tail
    case Some(prior) =>
      List(l.length + 1, l.head, Some(k), l.nodes[prior := l.nodes[prior].(next := Some(k))][k := NewNode(x)], k + 1)
    case None =>
      List(l.length + 1, Some(k), Some(k), l.nodes[k := NewNode(x)], k + 1)
  }

  /** `LinkedList::prepend`: a fresh node whose successor is the old head
      becomes the head, and the tail too when the list was empty. */
  function Prepend<T>(l: List<T>, x: T): (r: List<T>)
    requires l.nextHandle !in l.nodes
    ensures r.length == l.length + 1
    ensures r.head == Some(l.nextHandle) && l.nextHandle in r.nodes
    ensures r.nodes[l.nextHandle] == Node(x, l.head)
    ensures l.head.None? ==> r.tail == r.head
    ensures l.head.Some? ==> r.tail == l.tail
  {
    var k := l.nextHandle;
    match l.head
    case Some(prior) =>
      List(l.length + 1, Some(k), l.tail, l.nodes[k := NewNode(x).(next := Some(prior))], k + 1)
    case None =>
      List(l.length + 1, Some(k), Some(k), l.nodes[k := NewNode(x)], k + 1)
  }

  /** `LinkedList::pop`: removes the head node from the arena and returns its
      data; the successor becomes the head, or both ends are cleared when there
      is none. An empty list is returned unchanged with no value. */
  function Pop<T>(l: List<T>): (r: (List<T>, Option<T>))
    requires l.head.Some? ==> l.head.value in l.nodes
    ensures l.head.None? ==> r.1.None? && r.0 == l
    ensures l.head.Some? ==>
      && r.1 == Some(l.nodes[l.head.value].data)
      && r.0.length == l.length - 1
      && r.0.head == l.nodes[l.head.value].next
      && (r.0.head.None? ==> r.0.tail.None?)
      && (r.0.head.Some? ==> r.0.tail == l.tail)
      && r.0.nodes.Keys == l.nodes.Keys - {l.head.value}
  {
    match l.head
    case None => (l, None)
    case Some(h) =>
      var node := l.nodes[h];
      var nodes := l.nodes - {h};
      match node.next
      case Some(succ) => (List(l.length - 1, Some(succ), l.tail, nodes, l.nextHandle), Some(node.data))
      case None => (List(l.length - 1, None, None, nodes, l.nextHandle), Some(node.data))
  }

  /** After `Append`, the spine runs on to the fresh node. */
  lemma {:induction false} AppendSpine<T>(l: List<T>, x: T)
    requires Valid(l)
    ensures Spine(Append(l, x)) == Spine(l) + [l.nextHandle]
  {
    var r := Append(l, x);
    var sp := Spine(l);
    var k := l.nextHandle;
    if l.length == 0 {
      assert Spine(r) == [k];
    } else {
      var n := l.length;
      UniqueByCount(sp, l.nodes.Keys, n - 1);
      forall i | 0 <= i < n
        ensures sp[i] in r.nodes && (i < n - 1 ==> r.nodes[sp[i]] == l.nodes[sp[i]])
      {
        assert sp[i] != k;
        if i < n - 1 {
          assert sp[i] != sp[n - 1];
        }
      }
      WalkFrame(l.nodes, r.nodes, l.head, n);
      WalkExtend(r.nodes, l.head, n);
    }
  }

  /** Appending to a valid list keeps it valid and adds `x` at the end. */
  lemma {:induction false} AppendRefines<T>(l: List<T>, x: T)
    requires Valid(l)
    ensures Valid(Append(l, x))
    ensures Elements(Append(l, x)) == Elements(l) + [x]
  {
    var r := Append(l, x);
    AppendSpine(l, x);
    assert l.nextHandle !in Spine(l);
    assert Elements(r) == Elements(l) + [x];
  }

  /** After `Prepend`, the spine starts at the fresh node. */
  lemma {:induction false} PrependSpine<T>(l: List<T>, x: T)
    requires Valid(l)
    ensures Spine(Prepend(l, x)) == [l.nextHandle] + Spine(l)
  {
    var r := Prepend(l, x);
    var sp := Spine(l);
    forall i | 0 <= i < |sp|
      ensures sp[i] in r.nodes && r.nodes[sp[i]].next == l.nodes[sp[i]].next
    {
      assert sp[i] != l.nextHandle;
    }
    WalkFrame(l.nodes, r.nodes, l.head, l.length);
    assert r.nodes[l.nextHandle].next == l.head;
    assert Spine(r) == [l.nextHandle] + Walk(r.nodes, l.head, l.length);
  }

  /** Prepending to a valid list keeps it valid and adds `x` at the front. */
  lemma {:induction false} PrependRefines<T>(l: List<T>, x: T)
    requires Valid(l)
    ensures Valid(Prepend(l, x))
    ensures Elements(Prepend(l, x)) == [x] + Elements(l)
  {
    var r := Prepend(l, x);
    PrependSpine(l, x);
    assert l.nextHandle !in Spine(l);
    assert Elements(r) == [x] + Elements(l);
  }

  /** After `Pop` of a non-empty list, the spine loses its first handle, which
      occurs nowhere else. */
  lemma {:induction false} PopSpine<T>(l: List<T>)
    requires Valid(l) && l.length > 0
    ensures Spine(Pop(l).0) == Spine(l)[1..]
    ensures Spine(l)[0] !in Spine(Pop(l).0)
  {
    var r := Pop(l).0;
    var sp := Spine(l);
    var h := l.head.value;
    var rest := Walk(l.nodes, l.nodes[h].next, l.length - 1);
    assert sp == [h] + rest;
    UniqueByCount(sp, l.nodes.Keys, 0);
    forall i | 0 <= i < |rest|
      ensures rest[i] in r.nodes && r.nodes[rest[i]].next == l.nodes[rest[i]].next
    {
      assert rest[i] == sp[i + 1] != h;
    }
    WalkFrame(l.nodes, r.nodes, l.nodes[h].next, l.length - 1);
    assert r.head == l.nodes[h].next && r.length == l.length - 1;
    assert Spine(r) == rest == sp[1..];
  }

  /** Popping a non-empty valid list keeps it valid. */
  lemma PopValid<T>(l: List<T>)
    requires Valid(l) && l.length > 0
    ensures Valid(Pop(l).0)
  {
    var r := Pop(l).0;
    PopSpine(l);
    assert r.nodes.Keys == l.nodes.Keys - {Spine(l)[0]};
    assert |r.nodes| == l.length - 1;
  }

  /** Popping a valid list keeps it valid; on an empty list it returns nothing
      and changes nothing, otherwise it returns the first element and leaves
      the rest, clearing both ends when that was the last element. */
  lemma {:induction false} PopRefines<T>(l: List<T>)
    requires Valid(l)
    ensures Valid(Pop(l).0)
    ensures Elements(l) == [] ==> Pop(l).1.None? && Pop(l).0 == l
    ensures Elements(l) != [] ==>
      Pop(l).1 == Some(Elements(l)[0]) && Elements(Pop(l).0) == Elements(l)[1..]
    ensures |Elements(l)| == 1 ==> Pop(l).0.head.None? && Pop(l).0.tail.None?
  {
    if l.length > 0 {
      var r := Pop(l).0;
      var sp := Spine(l);
      PopValid(l);
      PopSpine(l);
      var e := Elements(r);
      forall i | 0 <= i < |e|
        ensures e[i] == Elements(l)[i + 1]
      {
        assert Spine(r)[i] == sp[i + 1] != sp[0];
      }
      assert e == Elements(l)[1..];
    }
  }

  /** Performs one call on the list: what `append`, `prepend` or `pop`
      does, and the value it returns, as the reference deque describes it. */
  function Exec<T>(l: List<T>, op: Deque.Op<T>): (r: (List<T>, seq<Option<T>>))
    requires Valid(l)
    ensures Valid(r.0)
    ensures Elements(r.0) == Deque.Step(Elements(l), op).0
    ensures r.1 == Deque.Step(Elements(l), op).1
  {
    match op
    case Append(x) => AppendRefines(l, x); (Append(l, x), [])
    case Prepend(x) => PrependRefines(l, x); (Prepend(l, x), [])
    case Pop => PopRefines(l); var (l', v) := Pop(l); (l', [v])
  }

  /** Performs a script of calls, collecting the values the pops return. */
  function Run<T>(l: List<T>, ops: seq<Deque.Op<T>>): (r: (List<T>, seq<Option<T>>))
    requires Valid(l)
    ensures Valid(r.0)
    decreases |ops|
  {
    if ops == [] then (l, [])
    else
      var first := Exec(l, ops[0]);
      var rest := Run(first.0, ops[1..]);
      (rest.0, first.1 + rest.1)
  }

  /** Any script run on the linked list leaves the sequence, and returns the
      values, that the same script gives on the reference deque. */
  lemma {:induction false} RunRefines<T>(l: List<T>, ops: seq<Deque.Op<T>>)
    requires Valid(l)
    ensures Elements(Run(l, ops).0) == Deque.Run(Elements(l), ops).0
    ensures Run(l, ops).1 == Deque.Run(Elements(l), ops).1
    decreases |ops|
  {
    if ops != [] {
      RunRefines(Exec(l, ops[0]).0, ops[1..]);
    }
  }

  /** FIFO: popping as many times as items were appended to an empty list
      returns them in the order they were appended and empties the list. */
  lemma AppendThenPopIsFifo<T>(xs: seq<T>)
    ensures var r := Run(New(), Deque.Appends(xs) + Deque.Pops(|xs|));
      r.0.length == 0 && r.1 == Deque.Present(xs)
  {
    RunRefines(New<T>(), Deque.Appends(xs) + Deque.Pops(|xs|));
    Deque.FirstInFirstOut(xs);
  }

  /** LIFO: popping as many times as items were prepended to an empty list
      returns them most recent first and empties the list. */
  lemma PrependThenPopIsLifo<T>(xs: seq<T>)
    ensures var r := Run(New(), Deque.Prepends(xs) + Deque.Pops(|xs|));
      r.0.length == 0 && r.1 == Deque.Present(Deque.Reverse(xs))
  {
    RunRefines(New<T>(), Deque.Prepends(xs) + Deque.Pops(|xs|));
    Deque.LastInFirstOut(xs);
  }

  /** The demonstration in `main`: append 3, prepend 2, prepend 1, pop. */
  lemma {:induction false} MainScenario()
    ensures var r := Run(New(), [Deque.Append(3), Deque.Prepend(2), Deque.Prepend(1), Deque.Pop]);
      r.1 == [Some(1)] && r.0.length == 2 && Elements(r.0) == [2, 3]
  {
    var ops := [Deque.Append(3), Deque.Prepend(2), Deque.Prepend(1), Deque.Pop];
    RunRefines(New<int>(), ops);
    Deque.SinglyMainScript();
  }
}
