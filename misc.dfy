// Small helpers of `sil::misc`: equality folds, the domain membership test
// over the dimensions an element shares with a domain, and removal of one
// element of a tuple. The Option and Result wrappers carry error paths.
module Misc {

  datatype Option<T> = None | Some(value: T)

  datatype Result<T> = Failure(error: string) | Success(value: T)

  /** Every value equals the first (the meaning of both `are_all_equal` forms and of the `all_of` tests). */
  predicate AllEqual(s: seq<int>)
  {
    forall k :: 0 <= k < |s| ==> s[k] == s[0]
  }

  /** Variadic `are_all_equal(head, tail...)`: the fold of head == t_i with &&, true for no tail. */
  function AreAllEqualVariadic(head: int, tail: seq<int>): (b: bool)
    ensures b <==> forall i :: 0 <= i < |tail| ==> tail[i] == head
    decreases |tail|
  {
    if tail == [] then true
    else
      var rest := AreAllEqualVariadic(head, tail[1..]);
      assert forall i :: 1 <= i < |tail| ==> tail[i] == tail[1..][i - 1];
      head == tail[0] && rest
  }

  /** Vector `are_all_equal(t)`: `all_of` comparing with the first element, true for an empty vector. */
  function AreAllEqual(t: seq<int>): (b: bool)
    ensures b <==> AllEqual(t)
    ensures t != [] ==> (b <==> AreAllEqualVariadic(t[0], t[1..]))
  {
    if t == [] then true
    else
      assert forall i :: 1 <= i < |t| ==> t[i] == t[1..][i - 1];
      AreAllEqualVariadic(t[0], t[1..])
  }

  /** One dimension of a domain: its tag and the uids of its first and last elements. */
  datatype Extent = Extent(dim: nat, front: int, back: int)

  /**
   * `domain_contains(dom, elem)`: for each dimension of the domain that the
   * element also has, front <= uid and uid <= back. Dimensions of the
   * element that the domain lacks play no part, and with no shared
   * dimension the empty folds are true.
   */
  function DomainContains(dom: seq<Extent>, elem: map<nat, int>): (b: bool)
    ensures b <==> forall k :: 0 <= k < |dom| && dom[k].dim in elem ==>
      dom[k].front <= elem[dom[k].dim] <= dom[k].back
    decreases |dom|
  {
    if dom == [] then true
    else
      var e := dom[0];
      var rest := DomainContains(dom[1..], elem);
      assert forall k :: 1 <= k < |dom| ==> dom[k] == dom[1..][k - 1];
      (e.dim !in elem || (e.front <= elem[e.dim] && elem[e.dim] <= e.back)) && rest
  }

  /** Dimensions the domain does not have can take any value. */
  lemma DomainContainsIgnoresOthers(dom: seq<Extent>, elem: map<nat, int>, d: nat, v: int)
    requires forall k :: 0 <= k < |dom| ==> dom[k].dim != d
    ensures DomainContains(dom, elem[d := v]) == DomainContains(dom, elem)
  {
    assert forall k :: 0 <= k < |dom| ==> (dom[k].dim in elem[d := v] <==> dom[k].dim in elem);
    assert forall k :: 0 <= k < |dom| && dom[k].dim in elem ==> elem[d := v][dom[k].dim] == elem[dom[k].dim];
  }

  /** `remove_impl`: slot i of the result is t[i] before N and t[i + 1] from N on. */
  function RemoveImpl<T>(t: seq<T>, n: nat): (r: seq<T>)
    requires n < |t|
    ensures |r| == |t| - 1
  {
    seq(|t| - 1, i requires 0 <= i < |t| - 1 => if i < n then t[i] else t[i + 1])
  }

  /** `remove(t, N)`: out_of_range when N is not a position of t, otherwise t without its N-th element. */
  function Remove<T>(t: seq<T>, n: nat): (r: Result<seq<T>>)
    ensures r.Failure? <==> n >= |t|
  {
    if n >= |t| then Failure("Index N is out of bounds") else Success(RemoveImpl(t, n))
  }

  /** Removing the N-th element leaves the elements before and after it, in order. */
  lemma RemoveSplits<T>(t: seq<T>, n: nat)
    requires n < |t|
    ensures Remove(t, n) == Success(t[..n] + t[n + 1..])
  {
    assert RemoveImpl(t, n) == t[..n] + t[n + 1..];
  }

  /** Putting the removed element back at position N restores the tuple. */
  lemma RemoveInsert<T>(t: seq<T>, n: nat)
    requires n < |t|
    ensures Remove(t, n).Success? && Remove(t, n).value[..n] + [t[n]] + Remove(t, n).value[n..] == t
  {
    RemoveSplits(t, n);
    var r := t[..n] + t[n + 1..];
    assert r[..n] == t[..n] && r[n..] == t[n + 1..];
    assert t[..n] + [t[n]] + t[n + 1..] == t;
  }
}
