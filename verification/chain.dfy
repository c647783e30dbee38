/** The `Option` type used for every nullable link and every optional result. */
module Options {

  datatype Option<+T> = None | Some(value: T)
}

/**
  Handles into a node arena, and facts about sequences of handles.

  Both lists store their nodes in a map from handles to nodes; the handles met
  by following `next` links from the head form the list's spine. A list's
  invariant says that the arena holds exactly as many nodes as the spine is
  long and that every node of the arena is on the spine; `DistinctByCount`
  shows that this already rules out a repeated handle, that is, a cycle.
 */
module Chain {

  /** A stable name for a node of the arena; it stands in for an `Rc` pointer. */
  type Handle = nat

  /** No handle occurs twice. */
  predicate Distinct(sp: seq<Handle>) {
    forall i, j :: 0 <= i < j < |sp| ==> sp[i] != sp[j]
  }

  /** The handles occurring in `sp`. */
  function Members(sp: seq<Handle>): set<Handle> {
    set k | k in sp
  }

  /** A sequence has at most as many distinct members as it has entries. */
  lemma {:induction false} MembersBound(sp: seq<Handle>)
    ensures |Members(sp)| <= |sp|
    decreases |sp|
  {
    if sp != [] {
      assert Members(sp) == {sp[0]} + Members(sp[1..]);
      MembersBound(sp[1..]);
    }
  }

  lemma SubsetBound(a: set<Handle>, b: set<Handle>)
    requires a <= b
    ensures |a| <= |b|
  {
    assert b == a + (b - a);
    assert a * (b - a) == {};
  }

  /** A sequence whose members include `keys`, and which is no longer than
      `keys` is large, repeats no handle. */
  lemma {:induction false} DistinctByCount(sp: seq<Handle>, keys: set<Handle>)
    requires forall k | k in keys :: k in sp
    requires |keys| == |sp|
    ensures Distinct(sp)
  {
    if !Distinct(sp) {
      var i, j :| 0 <= i < j < |sp| && sp[i] == sp[j];
      var t := sp[..j] + sp[j + 1..];
      forall k | k in keys
        ensures k in Members(t)
      {
        var p :| 0 <= p < |sp| && sp[p] == k;
        if p < j {
          assert t[p] == k;
        } else if p == j {
          assert t[i] == k;
        } else {
          assert t[p - 1] == k;
        }
      }
      MembersBound(t);
      SubsetBound(keys, Members(t));
      assert false;
    }
  }

  /** Under the same premises, the handle at position `i` occurs nowhere else. */
  lemma UniqueByCount(sp: seq<Handle>, keys: set<Handle>, i: nat)
    requires forall k | k in keys :: k in sp
    requires |keys| == |sp|
    requires i < |sp|
    ensures forall j :: 0 <= j < |sp| && j != i ==> sp[j] != sp[i]
  {
    DistinctByCount(sp, keys);
  }
}
