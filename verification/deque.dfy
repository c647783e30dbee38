/**
  The abstract behaviour both lists implement: a sequence with `append` at the
  back, `prepend` at the front and `pop` from the front. Each list module proves
  that running a script of operations on the linked representation gives the
  sequence and the popped values that this reference model gives.
 */
module Deque {
  import opened Options

  /** One call on a list. */
  datatype Op<T> = Append(x: T) | Prepend(x: T) | Pop

  /** The effect of one call on the sequence, and what the call returns:
      nothing for `append` and `prepend`, one optional value for `pop`. */
  function Step<T>(s: seq<T>, op: Op<T>): (seq<T>, seq<Option<T>>) {
    match op
    case Append(x) => (s + [x], [])
    case Prepend(x) => ([x] + s, [])
    case Pop => if s == [] then ([], [None]) else (s[1..], [Some(s[0])])
  }

  /** Runs a script, collecting the values the pops return. */
  function Run<T>(s: seq<T>, ops: seq<Op<T>>): (seq<T>, seq<Option<T>>)
    decreases |ops|
  {
    if ops == [] then (s, [])
    else
      var first := Step(s, ops[0]);
      var rest := Run(first.0, ops[1..]);
      (rest.0, first.1 + rest.1)
  }

  function Appends<T>(xs: seq<T>): (ops: seq<Op<T>>)
    ensures |ops| == |xs|
    ensures forall i :: 0 <= i < |xs| ==> ops[i] == Append(xs[i])
  {
    seq(|xs|, i requires 0 <= i < |xs| => Append(xs[i]))
  }

  function Prepends<T>(xs: seq<T>): (ops: seq<Op<T>>)
    ensures |ops| == |xs|
    ensures forall i :: 0 <= i < |xs| ==> ops[i] == Prepend(xs[i])
  {
    seq(|xs|, i requires 0 <= i < |xs| => Prepend(xs[i]))
  }

  function Pops<T>(n: nat): (ops: seq<Op<T>>)
    ensures |ops| == n
    ensures forall i :: 0 <= i < n ==> ops[i] == Pop
  {
    seq(n, i => Pop)
  }

  /** Every element of `xs`, present. */
  function Present<T>(xs: seq<T>): (r: seq<Option<T>>)
    ensures |r| == |xs|
    ensures forall i :: 0 <= i < |xs| ==> r[i] == Some(xs[i])
  {
    seq(|xs|, i requires 0 <= i < |xs| => Some(xs[i]))
  }

  function Reverse<T>(xs: seq<T>): (r: seq<T>)
    ensures |r| == |xs|
    ensures forall i :: 0 <= i < |xs| ==> r[i] == xs[|xs| - 1 - i]
  {
    if xs == [] then [] else Reverse(xs[1..]) + [xs[0]]
  }

  /** Reading position `i` of `s`: the element there, or nothing outside `s`. */
  function Read<T>(s: seq<T>, i: int): Option<T> {
    if 0 <= i < |s| then Some(s[i]) else None
  }

  /** What `k` steps forward from position `i` of `s` read. */
  function Forward<T>(s: seq<T>, i: int, k: nat): (r: seq<Option<T>>)
    ensures |r| == k
    decreases k
  {
    if k == 0 then [] else [Read(s, i)] + Forward(s, i + 1, k - 1)
  }

  /** What `k` steps backward from position `i` of `s` read. */
  function Backward<T>(s: seq<T>, i: int, k: nat): (r: seq<Option<T>>)
    ensures |r| == k
    decreases k
  {
    if k == 0 then [] else [Read(s, i)] + Backward(s, i - 1, k - 1)
  }

  /** Step `j` forward from `i` reads position `i + j`. */
  lemma {:induction false} ForwardReads<T>(s: seq<T>, i: int, k: nat)
    ensures forall j :: 0 <= j < k ==> Forward(s, i, k)[j] == Read(s, i + j)
    decreases k
  {
    if k > 0 {
      var r := Forward(s, i, k);
      ForwardReads(s, i + 1, k - 1);
      forall j | 0 < j < k
        ensures r[j] == Read(s, i + j)
      {
        assert r[j] == Forward(s, i + 1, k - 1)[j - 1];
      }
    }
  }

  /** Step `j` backward from `i` reads position `i - j`. */
  lemma {:induction false} BackwardReads<T>(s: seq<T>, i: int, k: nat)
    ensures forall j :: 0 <= j < k ==> Backward(s, i, k)[j] == Read(s, i - j)
    decreases k
  {
    if k > 0 {
      var r := Backward(s, i, k);
      BackwardReads(s, i - 1, k - 1);
      forall j | 0 < j < k
        ensures r[j] == Read(s, i - j)
      {
        assert r[j] == Backward(s, i - 1, k - 1)[j - 1];
      }
    }
  }

  /** Running two scripts one after the other is running their concatenation. */
  lemma {:induction false} RunConcat<T>(s: seq<T>, a: seq<Op<T>>, b: seq<Op<T>>)
    ensures Run(s, a + b).0 == Run(Run(s, a).0, b).0
    ensures Run(s, a + b).1 == Run(s, a).1 + Run(Run(s, a).0, b).1
    decreases |a|
  {
    if a != [] {
      assert (a + b)[0] == a[0];
      assert (a + b)[1..] == a[1..] + b;
      RunConcat(Step(s, a[0]).0, a[1..], b);
    } else {
      assert a + b == b;
    }
  }

  /** Appending `xs` puts them after the current contents, returning nothing. */
  lemma {:induction false} RunAppends<T>(s: seq<T>, xs: seq<T>)
    ensures Run(s, Appends(xs)) == (s + xs, [])
    decreases |xs|
  {
    if xs != [] {
      var ops := Appends(xs);
      assert ops[0] == Append(xs[0]);
      assert ops[1..] == Appends(xs[1..]);
      RunAppends(s + [xs[0]], xs[1..]);
      assert (s + [xs[0]]) + xs[1..] == s + xs;
      assert Run(s, ops).1 == [] + [];
    } else {
      assert s + xs == s;
    }
  }

  /** Prepending `xs` puts them, last first, before the current contents. */
  lemma {:induction false} RunPrepends<T>(s: seq<T>, xs: seq<T>)
    ensures Run(s, Prepends(xs)) == (Reverse(xs) + s, [])
    decreases |xs|
  {
    if xs != [] {
      var ops := Prepends(xs);
      assert ops[0] == Prepend(xs[0]);
      assert ops[1..] == Prepends(xs[1..]);
      RunPrepends([xs[0]] + s, xs[1..]);
      assert Reverse(xs[1..]) + ([xs[0]] + s) == Reverse(xs) + s;
      assert Run(s, ops).1 == [] + [];
    } else {
      assert Reverse(xs) + s == s;
    }
  }

  /** Popping as often as there are elements returns all of them, front first,
      and leaves the sequence empty. */
  lemma {:induction false} RunPops<T>(s: seq<T>)
    ensures Run(s, Pops(|s|)) == ([], Present(s))
    decreases |s|
  {
    if s != [] {
      assert Pops<T>(|s|)[1..] == Pops(|s[1..]|);
      RunPops(s[1..]);
      assert [Some(s[0])] + Present(s[1..]) == Present(s);
    }
  }

  /** FIFO: appending `xs` to an empty sequence and popping `|xs|` times
      returns `xs` in order and leaves the sequence empty. */
  lemma FirstInFirstOut<T>(xs: seq<T>)
    ensures Run([], Appends(xs) + Pops(|xs|)) == ([], Present(xs))
  {
    RunConcat([], Appends(xs), Pops(|xs|));
    RunAppends([], xs);
    assert [] + xs == xs;
    RunPops(xs);
    assert [] + Present(xs) == Present(xs);
  }

  /** LIFO: prepending `xs` to an empty sequence and popping `|xs|` times
      returns `xs` most recent first and leaves the sequence empty. */
  lemma LastInFirstOut<T>(xs: seq<T>)
    ensures Run([], Prepends(xs) + Pops(|xs|)) == ([], Present(Reverse(xs)))
  {
    var r := Reverse(xs);
    RunConcat([], Prepends(xs), Pops(|r|));
    RunPrepends([], xs);
    assert r + [] == r;
    RunPops(r);
    assert [] + Present(r) == Present(r);
  }

  /** Running a script that starts with `op` is one step, then the rest. */
  lemma RunCons<T>(s: seq<T>, op: Op<T>, ops: seq<Op<T>>)
    ensures Run(s, [op] + ops).0 == Run(Step(s, op).0, ops).0
    ensures Run(s, [op] + ops).1 == Step(s, op).1 + Run(Step(s, op).0, ops).1
  {
    assert ([op] + ops)[0] == op && ([op] + ops)[1..] == ops;
  }

  /** The script of the singly-linked program's `main`: `append 3`,
      `prepend 2`, `prepend 1`, `pop`. */
  lemma SinglyMainScript()
    ensures Run([], [Append(3), Prepend(2), Prepend(1), Pop]) == ([2, 3], [Some(1)])
  {
    var out: seq<Option<int>> := [Some(1)];
    var last: seq<Op<int>> := [Pop];
    assert last == [Pop] + [] && out == out + [] && out == [] + out;
    RunCons([1, 2, 3], Pop, []);
    assert Run([1, 2, 3], last) == ([2, 3], out);
    assert [Prepend(1), Pop] == [Prepend(1)] + last && [1] + [2, 3] == [1, 2, 3];
    RunCons([2, 3], Prepend(1), last);
    assert [Prepend(2), Prepend(1), Pop] == [Prepend(2)] + [Prepend(1), Pop] && [2] + [3] == [2, 3];
    RunCons([3], Prepend(2), [Prepend(1), Pop]);
    assert [Append(3), Prepend(2), Prepend(1), Pop] == [Append(3)] + [Prepend(2), Prepend(1), Pop] && [] + [3] == [3];
    RunCons([], Append(3), [Prepend(2), Prepend(1), Pop]);
  }

  /** The script of the doubly-linked program's `main`: `append 2`,
      `append 3`, `prepend 1`, `pop`. */
  lemma DoublyMainScript()
    ensures Run([], [Append(2), Append(3), Prepend(1), Pop]) == ([2, 3], [Some(1)])
  {
    var out: seq<Option<int>> := [Some(1)];
    var last: seq<Op<int>> := [Pop];
    assert last == [Pop] + [] && out == out + [] && out == [] + out;
    RunCons([1, 2, 3], Pop, []);
    assert Run([1, 2, 3], last) == ([2, 3], out);
    assert [Prepend(1), Pop] == [Prepend(1)] + last && [1] + [2, 3] == [1, 2, 3];
    RunCons([2, 3], Prepend(1), last);
    assert [Append(3), Prepend(1), Pop] == [Append(3)] + [Prepend(1), Pop] && [2] + [3] == [2, 3];
    RunCons([2], Append(3), [Prepend(1), Pop]);
    assert [Append(2), Append(3), Prepend(1), Pop] == [Append(2)] + [Append(3), Prepend(1), Pop] && [] + [2] == [2];
    RunCons([], Append(2), [Append(3), Prepend(1), Pop]);
  }
}
