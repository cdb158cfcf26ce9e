/**
 * The intrusive nodes of the cache: each node sits in two circular doubly linked lists at once, one
 * in order of use (`next`, `prev`) and one in order of age (`nextByAge`, `prevByAge`).
 */
module LruNodes {
  import opened Sequences
  import opened LruModel

  function Succ(i: nat, n: nat): (j: nat)
    requires i < n
    ensures j < n
  {
    if i + 1 == n then 0 else i + 1
  }

  function Pred(i: nat, n: nat): (j: nat)
    requires i < n
    ensures j < n && Succ(j, n) == i
  {
    if i == 0 then n - 1 else i - 1
  }

  function Cut<T>(s: seq<T>, k: nat): seq<T>
    requires k < |s|
  {
    s[..k] + s[k + 1..]
  }

  lemma CutMembers<T>(s: seq<T>, k: nat)
    requires k < |s| && Distinct(s)
    ensures forall x | x in Cut(s, k) :: x in s && x != s[k]
    ensures forall x | x in s && x != s[k] :: x in Cut(s, k)
  {
    forall x | x in s && x != s[k]
      ensures x in Cut(s, k)
    {
      var i :| 0 <= i < |s| && s[i] == x;
      assert x == Cut(s, k)[if i < k then i else i - 1];
    }
  }

  lemma CutDistinct<T>(s: seq<T>, k: nat)
    requires k < |s| && Distinct(s)
    ensures Distinct(Cut(s, k))
    ensures s[k] !in Cut(s, k)
  {
  }

  class Node<K(0), V(0)> {
    var next: Node<K, V>
    var prev: Node<K, V>
    var nextByAge: Node<K, V>
    var prevByAge: Node<K, V>
    var expiration: Expiry
    const key: K
    const value: V

    constructor (k: K, v: V)
      ensures next == prev == nextByAge == prevByAge == this && expiration == Never
      ensures key == k && value == v
    {
      next, prev, nextByAge, prevByAge := this, this, this, this;
      expiration := Never;
      key, value := k, v;
    }

    /** `base_node::unlink`: leave the order of use. */
    method UnlinkUse(ghost s: seq<Node<K, V>>, ghost k: nat)
      requires Ring(s) && 0 < k < |s| && s[k] == this
      modifies s`next, s`prev
      ensures Ring(Cut(s, k))
    {
      assert prev == s[k - 1] && next == s[Succ(k, |s|)];
      prev.next := next;
      next.prev := prev;
      CutNexts(s, k);
      CutPrevs(s, k);
      CutDistinct(s, k);
    }

    /** `base_node::link` on the end node: join the order of use as the most recent. */
    method LinkUse(node: Node<K, V>, ghost s: seq<Node<K, V>>)
      requires Ring(s) && s[0] == this && node !in s
      modifies s`next, s`prev, node`next, node`prev
      ensures Ring(s + [node])
    {
      assert prev == s[|s| - 1];
      node.prev := prev;
      node.next := this;
      prev.next := node;
      prev := node;
      SnocNexts(s, node);
      SnocPrevs(s, node);
    }

    /** The age half of `aging_base_node::unlink`. */
    method UnlinkAge(ghost s: seq<Node<K, V>>, ghost k: nat)
      requires AgeRing(s) && 0 < k < |s| && s[k] == this
      modifies s`nextByAge, s`prevByAge
      ensures AgeRing(Cut(s, k))
    {
      assert prevByAge == s[k - 1] && nextByAge == s[Succ(k, |s|)];
      prevByAge.nextByAge := nextByAge;
      nextByAge.prevByAge := prevByAge;
      CutNextsByAge(s, k);
      CutPrevsByAge(s, k);
      CutDistinct(s, k);
    }

    /** The age half of `aging_base_node::link` on the end node. */
    method LinkAge(node: Node<K, V>, ghost s: seq<Node<K, V>>)
      requires AgeRing(s) && s[0] == this && node !in s
      modifies s`nextByAge, s`prevByAge, node`nextByAge, node`prevByAge
      ensures AgeRing(s + [node])
    {
      assert prevByAge == s[|s| - 1];
      node.prevByAge := prevByAge;
      node.nextByAge := this;
      prevByAge.nextByAge := node;
      prevByAge := node;
      SnocNextsByAge(s, node);
      SnocPrevsByAge(s, node);
    }
  }

  // ----- the order of use

  ghost predicate Nexts<K(0), V(0)>(s: seq<Node<K, V>>)
    reads s`next
  {
    forall i :: 0 <= i < |s| ==> s[i].next == s[Succ(i, |s|)]
  }

  ghost predicate Prevs<K(0), V(0)>(s: seq<Node<K, V>>)
    reads s`prev
  {
    forall i :: 0 <= i < |s| ==> s[i].prev == s[Pred(i, |s|)]
  }

  /** `s` is exactly the circular list in order of use that starts at `s[0]`. */
  ghost predicate Ring<K(0), V(0)>(s: seq<Node<K, V>>)
    reads s`next, s`prev
  {
    s != [] && Distinct(s) && Nexts(s) && Prevs(s)
  }

  lemma CutNexts<K(0), V(0)>(s: seq<Node<K, V>>, k: nat)
    requires 0 < k < |s| && s[k - 1].next == s[Succ(k, |s|)]
    requires forall i :: 0 <= i < |s| && i != k - 1 ==> s[i].next == s[Succ(i, |s|)]
    ensures Nexts(Cut(s, k))
  {
  }

  lemma CutPrevs<K(0), V(0)>(s: seq<Node<K, V>>, k: nat)
    requires 0 < k < |s| && s[Succ(k, |s|)].prev == s[k - 1]
    requires forall i :: 0 <= i < |s| && i != Succ(k, |s|) ==> s[i].prev == s[Pred(i, |s|)]
    ensures Prevs(Cut(s, k))
  {
  }

  lemma SnocNexts<K(0), V(0)>(s: seq<Node<K, V>>, n: Node<K, V>)
    requires s != [] && s[|s| - 1].next == n && n.next == s[0]
    requires forall i :: 0 <= i < |s| - 1 ==> s[i].next == s[Succ(i, |s|)]
    ensures Nexts(s + [n])
  {
  }

  lemma SnocPrevs<K(0), V(0)>(s: seq<Node<K, V>>, n: Node<K, V>)
    requires s != [] && s[0].prev == n && n.prev == s[|s| - 1]
    requires forall i :: 1 <= i < |s| ==> s[i].prev == s[Pred(i, |s|)]
    ensures Prevs(s + [n])
  {
  }

  // ----- the order of age

  ghost predicate NextsByAge<K(0), V(0)>(s: seq<Node<K, V>>)
    reads s`nextByAge
  {
    forall i :: 0 <= i < |s| ==> s[i].nextByAge == s[Succ(i, |s|)]
  }

  ghost predicate PrevsByAge<K(0), V(0)>(s: seq<Node<K, V>>)
    reads s`prevByAge
  {
    forall i :: 0 <= i < |s| ==> s[i].prevByAge == s[Pred(i, |s|)]
  }

  /** `s` is exactly the circular list in order of age that starts at `s[0]`. */
  ghost predicate AgeRing<K(0), V(0)>(s: seq<Node<K, V>>)
    reads s`nextByAge, s`prevByAge
  {
    s != [] && Distinct(s) && NextsByAge(s) && PrevsByAge(s)
  }

  lemma CutNextsByAge<K(0), V(0)>(s: seq<Node<K, V>>, k: nat)
    requires 0 < k < |s| && s[k - 1].nextByAge == s[Succ(k, |s|)]
    requires forall i :: 0 <= i < |s| && i != k - 1 ==> s[i].nextByAge == s[Succ(i, |s|)]
    ensures NextsByAge(Cut(s, k))
  {
  }

  lemma CutPrevsByAge<K(0), V(0)>(s: seq<Node<K, V>>, k: nat)
    requires 0 < k < |s| && s[Succ(k, |s|)].prevByAge == s[k - 1]
    requires forall i :: 0 <= i < |s| && i != Succ(k, |s|) ==> s[i].prevByAge == s[Pred(i, |s|)]
    ensures PrevsByAge(Cut(s, k))
  {
  }

  lemma SnocNextsByAge<K(0), V(0)>(s: seq<Node<K, V>>, n: Node<K, V>)
    requires s != [] && s[|s| - 1].nextByAge == n && n.nextByAge == s[0]
    requires forall i :: 0 <= i < |s| - 1 ==> s[i].nextByAge == s[Succ(i, |s|)]
    ensures NextsByAge(s + [n])
  {
  }

  lemma SnocPrevsByAge<K(0), V(0)>(s: seq<Node<K, V>>, n: Node<K, V>)
    requires s != [] && s[0].prevByAge == n && n.prevByAge == s[|s| - 1]
    requires forall i :: 1 <= i < |s| ==> s[i].prevByAge == s[Pred(i, |s|)]
    ensures PrevsByAge(s + [n])
  {
  }
}
