/**
 * The cache: a hash table of nodes, an end node, and the two orders kept by relinking nodes in place
 * (least recently used first, oldest first). `View` is the cache as a value, and every operation is
 * proved to do to it what the operation of the same kind in `LruModel` does.
 * Clock readings are parameters, in the order in which the code samples the clock.
 */
module Lru {
  import opened Sequences
  import opened Wrappers
  import opened LruNodes
  import opened LruKeys
  import opened LruModel
  import opened LruRuns
  import opened LruLists

  class Lru<K(==, 0, !new), V(0)> {
    const limit: Option<nat>  // None: no limit on the size
    const maxAge: nat         // 0: entries do not expire by themselves
    const end: Node<K, V>
    var table: map<K, Node<K, V>>
    ghost var ring: seq<Node<K, V>>     // the end node, then the entries in order of use
    ghost var ageRing: seq<Node<K, V>>  // the end node, then the entries in order of age

    ghost predicate Shape()
      reads this, end, ring, ageRing
    {
      && Ring(ring) && AgeRing(ageRing)
      && ring[0] == end && ageRing[0] == end
      && Same(ring, ageRing)
      && end.expiration == Never
    }

    /** Both lists are well formed and hold exactly the nodes of the table, once. */
    ghost predicate Valid()
      reads this, end, ring, ageRing
    {
      Shape() && Indexed(table, ring, end)
    }

    constructor (maxSize: nat, maxAge: nat, k: K, v: V)
      ensures Valid() && table == map[] && ring == [end] && ageRing == [end]
      ensures View() == Cache([], [])
      ensures this.maxAge == maxAge && limit == (if maxSize == 0 then None else Some(maxSize))
      ensures fresh(end)
    {
      limit := if maxSize == 0 then None else Some(maxSize);
      this.maxAge := maxAge;
      end := new Node(k, v);
      table, ring, ageRing := map[], [end], [end];
    }

    /** `node->unlink()`: leave both lists. */
    method Detach(node: Node<K, V>) returns (ghost i: nat, ghost j: nat)
      requires Shape() && node in ring && node != end
      modifies this`ring, this`ageRing, ring`next, ring`prev, ageRing`nextByAge, ageRing`prevByAge
      ensures Shape()
      ensures 0 < i < |old(ring)| && old(ring)[i] == node && ring == Cut(old(ring), i)
      ensures 0 < j < |old(ageRing)| && old(ageRing)[j] == node && ageRing == Cut(old(ageRing), j)
      ensures node !in ring
    {
      hide Ring, AgeRing, Same, Cut, Distinct;
      RingDistinct(ring);
      AgeRingDistinct(ageRing);
      SameIn(ring, ageRing, node);
      i := IndexOf(ring, node);
      j := IndexOf(ageRing, node);
      SameCut(ring, ageRing, i, j);
      CutHead(ring, i);
      CutHead(ageRing, j);
      node.UnlinkUse(ring, i);
      assert Ring(Cut(ring, i));
      node.UnlinkAge(ageRing, j);
      assert Ring(Cut(ring, i)) && AgeRing(Cut(ageRing, j));
      ring := Cut(ring, i);
      ageRing := Cut(ageRing, j);
    }

    /** `_end.link(node, timeout)`: join both lists as the newest. */
    method Attach(node: Node<K, V>, timeout: nat, now: int)
      requires Shape() && node !in ring
      modifies this`ring, this`ageRing, ring`next, ring`prev, ageRing`nextByAge, ageRing`prevByAge, node
      ensures Shape()
      ensures ring == old(ring) + [node] && ageRing == old(ageRing) + [node]
      ensures node.expiration == ExpiryAfter(timeout, now)
    {
      hide Ring, AgeRing, Same;
      RingDistinct(ring);
      AgeRingDistinct(ageRing);
      SameIn(ring, ageRing, node);
      SameSnoc(ring, ageRing, node);
      node.expiration := if timeout == 0 then Never else At(now + timeout);
      end.LinkUse(node, ring);
      end.LinkAge(node, ageRing);
      ring := ring + [node];
      ageRing := ageRing + [node];
    }

    /** `_end.renew(node)`: most recently used again; the age list and the expiration stay. */
    method DoRenew(node: Node<K, V>) returns (ghost i: nat)
      requires Shape() && node in ring && node != end
      modifies this`ring, ring`next, ring`prev
      ensures Shape()
      ensures 0 < i < |old(ring)| && old(ring)[i] == node && ring == Cut(old(ring), i) + [node]
    {
      hide Ring, AgeRing, Same, Cut, Distinct;
      RingDistinct(ring);
      i := IndexOf(ring, node);
      SameMove(ring, ageRing, i);
      CutHead(ring, i);
      CutSubset(ring, i);
      node.UnlinkUse(ring, i);
      end.LinkUse(node, Cut(ring, i));
      ring := Cut(ring, i) + [node];
    }

    /** Unlink a node and erase it from the table. */
    method Drop(node: Node<K, V>) returns (ghost i: nat, ghost j: nat)
      requires Valid() && node in ring && node != end
      modifies this`table, this`ring, this`ageRing, ring`next, ring`prev, ageRing`nextByAge, ageRing`prevByAge
      ensures Valid()
      ensures 0 < i < |old(ring)| && old(ring)[i] == node && ring == Cut(old(ring), i)
      ensures 0 < j < |old(ageRing)| && old(ageRing)[j] == node && ageRing == Cut(old(ageRing), j)
      ensures table == old(table) - {node.key} && |table| + 1 == |old(table)|
    {
      hide Ring, AgeRing, Same, Indexed, Distinct, Cut;
      ghost var r := ring;
      RingDistinct(ring);
      i, j := Detach(node);
      IndexedCut(table, r, end, i);
      table := table - {node.key};
    }

    /** `_end.renew(node)` on an entry: only the order of use changes. */
    method RenewEntry(node: Node<K, V>) returns (ghost i: nat)
      requires Valid() && node in ring && node != end
      modifies this`ring, ring`next, ring`prev
      ensures Valid()
      ensures 0 < i < |old(ring)| && old(ring)[i] == node && ring == Cut(old(ring), i) + [node]
    {
      hide Ring, AgeRing, Same, Indexed, Distinct, Cut;
      ghost var r := ring;
      RingDistinct(ring);
      i := DoRenew(node);
      IndexedMove(table, r, end, i);
    }

    /** A new entry: into the table, and into both lists as the newest. */
    method Insert(k: K, v: V, now: int) returns (node: Node<K, V>)
      requires Valid() && k !in table
      modifies this`table, this`ring, this`ageRing, ring`next, ring`prev, ageRing`nextByAge, ageRing`prevByAge
      ensures Valid()
      ensures fresh(node) && node.key == k && node.value == v && node.expiration == ExpiryAfter(maxAge, now)
      ensures ring == old(ring) + [node] && ageRing == old(ageRing) + [node] && table == old(table)[k := node]
    {
      hide Ring, AgeRing, Same, Indexed, Distinct;
      node := new Node(k, v);
      IndexedSnoc(table, ring, end, node);
      table := table[k := node];
      Attach(node, maxAge, now);
    }

    /** `clear` */
    method Clear()
      requires Valid()
      modifies this`table, this`ring, this`ageRing, end
      ensures Valid() && table == map[] && ring == [end] && ageRing == [end]
      ensures View() == Cache([], [])
    {
      end.prev := end;
      end.next := end;
      end.prevByAge := end;
      end.nextByAge := end;
      table := map[];
      ring, ageRing := [end], [end];
    }

    // ----- the cache as a value

    /** The entries in order of use and in order of age. */
    ghost function View(): Cache<K, V>
      reads this, ring`expiration, ageRing`expiration
    {
      Cache(Entries(ring), Entries(ageRing))
    }

    lemma ViewNow()
      requires Valid()
      ensures Coherent(View()) && |table| == |View().uses| == |View().ages|
      ensures Distinct(KeysIn(Entries(ring))) && Distinct(KeysIn(Entries(ageRing))) && ring != [] && ageRing != []
    {
      hide Ring, AgeRing, Distinct, Indexed, Same, Entries;
      RingDistinct(ring);
      AgeRingDistinct(ageRing);
      IndexedSame(table, ring, ageRing, end);
      EntriesHeld(table, ring, end);
      EntriesHeld(table, ageRing, end);
      EntriesSame(ring, ageRing);
      SameBack(ring, ageRing);
      EntriesSame(ageRing, ring);
    }

    lemma ViewDistinct()
      requires Valid()
      ensures Distinct(KeysIn(View().uses)) && |table| == |View().uses|
    {
      hide Valid, Coherent, Distinct;
      ViewNow();
    }

    /** The table holds what the lists hold. */
    lemma Held(k: K)
      requires Valid()
      ensures Seek(View().uses, k) == if k in table then Some(EntryOf(table[k])) else None
      ensures k in table ==> table[k] in ring && table[k] != end && table[k].key == k
      ensures k in table <==> k in KeysIn(View().uses)
    {
      hide Ring, AgeRing, Distinct, Same, Entries, Seek;
      RingDistinct(ring);
      SeekHeld(table, ring, end, k);
      SeekMeans(View().uses, k);
    }

    predicate Over(size: nat) {
      limit.Some? && size > limit.value
    }

    /** `next` of the order of use: the first following node that has not expired. */
    method NextAlive(node: Node<K, V>, now: int, ghost j: nat) returns (r: Node<K, V>, ghost j': nat)
      requires Shape() && j < |ring| && ring[j] == node
      ensures j < j' <= |ring| && r == (if j' == |ring| then end else ring[j'])
      ensures forall i :: j < i < j' ==> Expired(ring[i].expiration, now)
      ensures j' < |ring| ==> !Expired(ring[j'].expiration, now)
    {
      hide AgeRing, Same, Distinct;
      r, j' := node.next, j + 1;
      while Expired(r.expiration, now)
        invariant j < j' <= |ring| && r == (if j' == |ring| then end else ring[j'])
        invariant forall i :: j < i < j' ==> Expired(ring[i].expiration, now)
        decreases |ring| - j'
      {
        r, j' := r.next, j' + 1;
      }
    }

    /** What is left after the `d` oldest entries of `a` have gone. */
    ghost predicate Without(r: seq<Node<K, V>>, a: seq<Node<K, V>>, d: nat)
      reads this
    {
      && d < |a| && a[0] == end && Distinct(r)
      && ageRing == [end] + a[d + 1..]
      && ring == Minus(r, a[1..d + 1])
    }

    /** Evict the oldest entry. */
    method DropOldest(node: Node<K, V>, ghost r: seq<Node<K, V>>, ghost a: seq<Node<K, V>>, ghost d: nat)
      requires Valid() && Without(r, a, d) && d + 1 < |a| && a[d + 1] == node
      modifies this`table, this`ring, this`ageRing, ring`next, ring`prev, ageRing`nextByAge, ageRing`prevByAge
      ensures Valid() && Without(r, a, d + 1)
      ensures |table| + 1 == |old(table)|
    {
      hide Ring, AgeRing, Same, Indexed, Distinct, Cut, Minus;
      ghost var g := ageRing;
      AgeRingDistinct(g);
      SecondOnce(g);
      SameIn(ring, g, node);
      ghost var i, j := Drop(node);
      CutSecond(g);
      MinusMore(r, a[1..d + 1], i);
      assert a[1..d + 2] == a[1..d + 1] + [a[d + 1]];
      assert g[2..] == a[d + 2..];
    }

    lemma WithoutNone()
      requires Valid()
      ensures Without(ring, ageRing, 0) && |table| + 1 == |ageRing|
      ensures end.nextByAge == (if 1 == |ageRing| then end else ageRing[1])
      ensures forall i :: 1 <= i < |ageRing| ==> ageRing[i] != end
    {
      hide Ring, AgeRing, Same, Indexed, Distinct, Minus;
      RingDistinct(ring);
      MinusNothing(ring);
      AgeRingDistinct(ageRing);
      AgeNext(ageRing, 0);
      EndOnce(ageRing);
      SizeOf(table, ring, ageRing, end);
      assert ageRing[1..1] == [] && [end] + ageRing[1..] == ageRing;
    }

    lemma WithoutNext(r: seq<Node<K, V>>, a: seq<Node<K, V>>, d: nat)
      requires Valid() && Without(r, a, d)
      ensures d + 1 < |a| ==> a[d + 1].nextByAge == (if d + 2 == |a| then end else a[d + 2])
      ensures forall i :: 0 <= i < |ring| ==> ring[i] in r
      ensures forall i :: 0 <= i < |ageRing| ==> ageRing[i] in a
    {
      hide Ring, AgeRing, Same, Indexed, Distinct, Minus;
      MinusSubset(r, a[1..d + 1]);
      if d + 1 < |a| { AgeNext(ageRing, 1); }
    }

    /** The age phase of `trim_and` with the default policy. */
    method TrimByAge(now: int) returns (ghost d: nat)
      requires Valid()
      modifies this`table, this`ring, this`ageRing, ring`next, ring`prev, ageRing`nextByAge, ageRing`prevByAge
      ensures Valid() && Without(old(ring), old(ageRing), d)
      ensures d == old(Drops(Entries(ageRing), limit, now))
    {
      hide Valid, Shape, Without, Drops, Items;
      ValidShape();
      ghost var r, a, stopped := ring, ageRing, false;
      ghost var count := Drops(Items(a[1..]), limit, now);
      WithoutNone();
      var size := |table|;
      var it := end.nextByAge;
      d := 0;
      while it != end
        invariant Valid() && Without(r, a, d) && d < |a| && size == |table| == |a| - 1 - d
        invariant !stopped ==> it == (if d + 1 == |a| then end else a[d + 1])
        invariant !stopped ==> d + Drops(Items(a[d + 1..]), limit, now) == count
        invariant stopped ==> it == end && d == count
        decreases |a| - d, !stopped
      {
        var current := it;
        WithoutNext(r, a, d);
        it := it.nextByAge;
        DropsHead(a[d + 1..], limit, now);
        if Over(size) || Expired(current.expiration, now) {
          DropOldest(current, r, a, d);
          assert a[d + 1..][1..] == a[d + 2..];
          size := size - 1;
          d := d + 1;
        } else {
          stopped := true;
          it := end;
        }
      }
      if d + 1 == |a| { assert a[d + 1..] == []; DropsNothing<K, V>(limit, now); }
    }

    /** What is left of both lists once the entries `e` have gone. */
    ghost predicate Left(r: seq<Node<K, V>>, a: seq<Node<K, V>>, e: seq<Node<K, V>>)
      reads this
    {
      Distinct(r) && Distinct(a) && ring == Minus(r, e) && ageRing == Minus(a, e)
    }

    lemma LeftAll()
      requires Valid()
      ensures Left(ring, ageRing, [])
    {
      hide Ring, AgeRing, Same, Indexed, Distinct, Minus;
      RingDistinct(ring);
      AgeRingDistinct(ageRing);
      MinusNothing(ring);
      MinusNothing(ageRing);
    }

    lemma LeftSubset(r: seq<Node<K, V>>, a: seq<Node<K, V>>, e: seq<Node<K, V>>)
      requires Valid() && Left(r, a, e)
      ensures forall i :: 0 <= i < |ring| ==> ring[i] in r
      ensures forall i :: 0 <= i < |ageRing| ==> ageRing[i] in a
      ensures forall i :: 1 <= i < |ring| ==> ring[i] != end
    {
      hide AgeRing, Same, Indexed, Minus;
      MinusSubset(r, e);
      MinusSubset(a, e);
    }

    /** With the entries `e` gone and the iterator at place `j`, the entries of `goal` will go. */
    ghost predicate Pending(j: nat, excess: int, now: int, e: seq<Node<K, V>>, goal: seq<Node<K, V>>)
      reads this, ring
    {
      && 0 < j <= |ring|
      && (j < |ring| ==> !Expired(ring[j].expiration, now))
      && e + Evicted(ring[j..], excess, now) == goal
    }

    /** Evict the entry at place `j` of the order of use; `j'` is the next place with a live one. */
    method DropAt(node: Node<K, V>, ghost j: nat, ghost j': nat, ghost excess: int, now: int,
                  ghost r: seq<Node<K, V>>, ghost a: seq<Node<K, V>>, ghost e: seq<Node<K, V>>, ghost goal: seq<Node<K, V>>)
      requires Valid() && Left(r, a, e) && Pending(j, excess, now, e, goal) && excess > 0
      requires j < j' <= |ring| && ring[j] == node && (j' < |ring| ==> !Expired(ring[j'].expiration, now))
      requires forall k :: j < k < j' ==> Expired(ring[k].expiration, now)
      modifies this`table, this`ring, this`ageRing, ring`next, ring`prev, ageRing`nextByAge, ageRing`prevByAge
      ensures Valid() && Left(r, a, e + [node]) && Pending(j' - 1, excess - 1, now, e + [node], goal)
      ensures |ring| + 1 == |old(ring)| && |table| + 1 == |old(table)|
      ensures j' < |old(ring)| ==> ring[j' - 1] == old(ring)[j']
    {
      hide Ring, AgeRing, Same, Indexed, Distinct, Cut, Minus, Evicted;
      ghost var g := ring;
      RingDistinct(g);
      PlaceOnce(g, j);
      EvictedNext(g, j, j', excess, now);
      ghost var rest := Evicted(g[j'..], excess - 1, now);
      ghost var i, k := Drop(node);
      MinusMore(r, e, i);
      MinusMore(a, e, k);
      CutShift(g, j, j');
      assert rest == Evicted(ring[j' - 1..], excess - 1, now);
      if j' < |g| { assert ring[j' - 1..][0] == g[j'..][0]; }
    }

    /** One turn of the recency phase: evict `current` and go on, or stop. */
    method TrimNext(current: Node<K, V>, size0: nat, now: int, now1: int, ghost j: nat, ghost r: seq<Node<K, V>>,
                    ghost a: seq<Node<K, V>>, ghost e0: seq<Node<K, V>>, ghost goal: seq<Node<K, V>>)
      returns (it: Node<K, V>, size: nat, ghost j': nat, ghost e: seq<Node<K, V>>, stopped: bool)
      requires Valid() && Left(r, a, e0) && limit.Some? && now <= now1 && size0 == |table|
      requires Pending(j, size0 - limit.value, now1, e0, goal) && 0 < j < |ring| && current == ring[j] != end
      modifies this`table, this`ring, this`ageRing, ring`next, ring`prev, ageRing`nextByAge, ageRing`prevByAge
      ensures Valid() && Left(r, a, e) && size == |table| && |table| + |e| == |old(table)| + |e0|
      ensures stopped ==> it == end && e == goal
      ensures !stopped ==>
                && Pending(j', size - limit.value, now1, e, goal)
                && 0 < j' <= |ring| && it == (if j' == |ring| then end else ring[j'])
                && |ring| - j' < old(|ring|) - j
    {
      hide Valid, Shape, Left, Evicted, Pending, Expired;
      ValidShape();
      it, j' := NextAlive(current, now1, j);
      size, e := size0, e0;
      PendingEnd(j, size - limit.value, now1, e, goal);
      NotYet(current.expiration, now, now1);
      if Over(size) || Expired(current.expiration, now) {
        DropAt(current, j, j', size - limit.value, now1, r, a, e, goal);
        e := e + [current];
        size := size - 1;
        j' := j' - 1;
        stopped := false;
      } else {
        it := end;
        stopped := true;
      }
    }

    /** The recency phase of `trim_and` with the default policy. */
    method TrimByRecency(now: int, now1: int) returns (ghost e: seq<Node<K, V>>)
      requires Valid() && limit.Some? && now <= now1
      modifies this`table, this`ring, this`ageRing, ring`next, ring`prev, ageRing`nextByAge, ageRing`prevByAge
      ensures Valid() && Left(old(ring), old(ageRing), e)
      ensures e == old(Evicted(ring[1..], |table| - limit.value, now1)) && |table| + |e| == |old(table)|
    {
      hide Valid, Shape, Left, Evicted, Pending, Expired;
      ValidShape();
      ghost var r, a, goal := ring, ageRing, Evicted(ring[1..], |table| - limit.value, now1);
      var size, stopped := |table|, false;
      LeftAll();
      ghost var j: nat;
      var it;
      it, j := NextAlive(end, now1, 0);
      e := [];
      PendingStart(j, size - limit.value, now1);
      while it != end
        invariant Valid() && Left(r, a, e) && size == |table| && |table| + |e| == |old(table)|
        invariant !stopped ==> Pending(j, size - limit.value, now1, e, goal)
        invariant !stopped ==> 0 < j <= |ring| && it == (if j == |ring| then end else ring[j])
        invariant stopped ==> it == end && e == goal
        decreases !stopped, |ring| - j
      {
        LeftSubset(r, a, e);
        it, size, j, e, stopped := TrimNext(it, size, now, now1, j, r, a, e, goal);
      }
      if !stopped {
        LeftSubset(r, a, e);
        PendingEnd(j, size - limit.value, now1, e, goal);
      }
    }

    lemma NotYet(e: Expiry, now: int, now1: int)
      requires now <= now1
      ensures Expired(e, now) ==> Expired(e, now1)
    {
    }

    lemma PendingStart(j: nat, excess: int, now: int)
      requires 0 < j <= |ring| && (j < |ring| ==> !Expired(ring[j].expiration, now))
      requires forall k :: 1 <= k < j ==> Expired(ring[k].expiration, now)
      ensures Pending(j, excess, now, [], Evicted(ring[1..], excess, now))
    {
      hide Evicted;
      EvictedBetween(ring, 1, j, excess, now);
    }

    lemma PendingEnd(j: nat, excess: int, now: int, e: seq<Node<K, V>>, goal: seq<Node<K, V>>)
      requires Pending(j, excess, now, e, goal)
      ensures excess <= 0 || j == |ring| ==> e == goal
      ensures j < |ring| ==> !Expired(ring[j].expiration, now)
    {
      hide Evicted;
      EvictedStep(ring[j..], excess, now);
      assert e + [] == e;
    }

    lemma ValidDistinct()
      requires Valid()
      ensures Distinct(ring)
    {
      hide AgeRing, Same, Indexed, Distinct;
      RingDistinct(ring);
    }

    lemma ValidShape()
      requires Valid()
      ensures Shape() && ring != [] && ring[0] == end && ageRing != []
    {
    }

    // ----- trimming

    lemma LeftNone(r: seq<Node<K, V>>, a: seq<Node<K, V>>)
      requires Left(r, a, [])
      ensures ring == r && ageRing == a
    {
      MinusNothing(r);
      MinusNothing(a);
    }

    /** The phase by age leaves nothing for the phase by use to evict. */
    lemma AfterAge(r: seq<Node<K, V>>, a: seq<Node<K, V>>, d: nat, now: int, now1: int)
      requires Valid() && Without(r, a, d) && d == Drops(Entries(a), limit, now)
      ensures ring != [] && (limit.Some? ==> Evicted(ring[1..], |table| - limit.value, now1) == [])
      ensures forall i :: 0 <= i < |ring| ==> ring[i] in r
      ensures forall i :: 0 <= i < |ageRing| ==> ageRing[i] in a
    {
      hide Valid, Shape, Drops, Evicted, Entries, Distinct, Minus;
      ViewNow();
      DropsEnough(Entries(a), limit, now);
      WithoutNext(r, a, d);
      EvictedStep(ring[1..], if limit.None? then 0 else |table| - limit.value, now1);
    }

    /** What is left without the `d` oldest entries, as a value. */
    lemma ViewWithout(r: seq<Node<K, V>>, a: seq<Node<K, V>>, d: nat)
      requires Without(r, a, d) && r != [] && r[0] == end && Same(r, a) && Distinct(a)
      requires Distinct(KeysIn(Entries(r)))
      ensures View() == Cache(ErasedAll(Entries(r), KeysIn(Entries(a)[..d])), Entries(a)[d..])
    {
      hide Minus, ErasedAll, Same, Entries, Items;
      var e := a[1..d + 1];
      forall i | 0 <= i < |e|
        ensures e[i] in r && e[i] != r[0]
      {
        SameIn(r, a, a[i + 1]);
      }
      EntriesMinus(r, e);
      assert Items(e) == Entries(a)[..d];
      assert Entries([end] + a[d + 1..]) == Entries(a)[d..];
    }

    /** What is left without the evicted entries, as a value. */
    lemma ViewLeft(r: seq<Node<K, V>>, a: seq<Node<K, V>>, excess: int, now: int)
      requires r != [] && a != [] && r[0] == a[0] && Same(r, a)
      requires Left(r, a, Evicted(r[1..], excess, now))
      requires Distinct(KeysIn(Entries(r))) && Distinct(KeysIn(Entries(a)))
      ensures var ks := Victims(Entries(r), excess, now);
              View() == Cache(ErasedAll(Entries(r), ks), ErasedAll(Entries(a), ks))
    {
      hide Minus, ErasedAll, Same, Items, Evicted, Victims;
      var e := Evicted(r[1..], excess, now);
      EvictedKeys(r[1..], excess, now);
      forall i | 0 <= i < |e|
        ensures e[i] in r && e[i] != r[0] && e[i] in a
      {
        var j :| 0 <= j < |r[1..]| && r[1..][j] == e[i];
        assert r[j + 1] == e[i];
        SameIn(r, a, e[i]);
      }
      hide Distinct;
      EntriesMinus(r, e);
      EntriesMinus(a, e);
    }

    lemma ValidLists()
      requires Valid()
      ensures ring != [] && ageRing != [] && ring[0] == ageRing[0] == end && Same(ring, ageRing)
      ensures Distinct(ring) && Distinct(ageRing)
    {
    }

    /** `trim_and` with the default policy: the phase by age, then the phase by use. */
    method TrimPhases(now: int, now1: int)
      requires Valid() && now <= now1
      modifies this`table, this`ring, this`ageRing, ring`next, ring`prev, ageRing`nextByAge, ageRing`prevByAge
      ensures Valid() && View() == Trimmed(old(View()), limit, maxAge, now, now1)
      ensures forall i :: 0 <= i < |ring| ==> ring[i] in old(ring)
      ensures forall i :: 0 <= i < |ageRing| ==> ageRing[i] in old(ageRing)
    {
      hide Valid, Shape, Without, Left, Drops, Evicted, Minus, Distinct, Entries, Same, ErasedAll, Victims;
      ghost var r, a := ring, ageRing;
      ViewNow();
      ValidLists();
      if maxAge != 0 {
        ghost var d := TrimByAge(now);
        ViewWithout(r, a, d);
        AfterAge(r, a, d, now, now1);
        if limit.Some? {
          ghost var r', a' := ring, ageRing;
          ghost var e := TrimByRecency(now, now1);
          LeftNone(r', a');
        }
      } else if limit.Some? {
        ghost var excess := |table| - limit.value;
        ghost var e := TrimByRecency(now, now1);
        ViewLeft(r, a, excess, now1);
        LeftSubset(r, a, e);
      } else {
        NothingOver(View(), now, now1);
      }
    }

    lemma NothingOver(c: Cache<K, V>, now: int, now1: int)
      requires limit.None? && maxAge == 0
      ensures Trimmed(c, limit, maxAge, now, now1) == c
    {
      ErasedNone(c.uses, []);
      ErasedNone(c.ages, []);
    }

    // ----- readings of the cache

    /** The keys, least recently used first. */
    ghost function Keys(): seq<K>
      reads this, ring`expiration, ageRing`expiration
    {
      KeysIn(View().uses)
    }

    /** No entry ever expires. */
    ghost predicate Timeless()
      reads this, ring`expiration, ageRing`expiration
    {
      maxAge == 0 && AllNever(View().uses)
    }

    /** Every entry expires `maxAge` after some time up to `clock`, the older ones no later. */
    ghost predicate Ordered(clock: int)
      reads this, ring`expiration, ageRing`expiration
    {
      maxAge > 0 && Sorted(View().ages, clock + maxAge)
    }

    /** No entry has expired at the given time. */
    ghost predicate Alive(now: int)
      reads this, ring`expiration, ageRing`expiration
    {
      NoneExpired(View().ages, now)
    }

    /** The entries that iteration by use still sees are at least as many as exceed the limit. */
    ghost predicate EnoughLive(now: int)
      reads this, ring`expiration, ageRing`expiration
    {
      limit.Some? ==> LiveCount(View().uses, now) >= |table| - limit.value
    }

    /**
     * The default `trim`. It leaves the cache within its limit exactly if entries have a maximum age or
     * enough of them are live; without a maximum age, expired entries are passed over and stay.
     */
    method Trim(now: int, now1: int, ghost clock: int)
      requires Valid() && now <= now1
      modifies this`table, this`ring, this`ageRing, ring`next, ring`prev, ageRing`nextByAge, ageRing`prevByAge
      ensures Valid() && View() == Trimmed(old(View()), limit, maxAge, now, now1)
      ensures old(Timeless()) ==> Timeless() && Keys() == TrimKeys(old(Keys()), limit)
      ensures old(Ordered(clock)) ==> Ordered(clock) && Alive(now)
      ensures limit.Some? ==> (|table| <= limit.value <==> maxAge > 0 || old(EnoughLive(now1)))
      ensures forall i :: 0 <= i < |ring| ==> ring[i] in old(ring)
      ensures forall i :: 0 <= i < |ageRing| ==> ageRing[i] in old(ageRing)
    {
      hide Valid, Shape, View, Sorted, AllNever, LiveCount, Trimmed, Coherent, NoneExpired, Distinct, TrimKeys;
      ghost var c := View();
      ViewNow();
      AgesDistinct(c);
      TrimPhases(now, now1);
      ViewNow();
      TrimmedSize(c, limit, maxAge, now, now1);
      if maxAge == 0 && AllNever(c.uses) { NeverTrimmed(c, limit, now, now1); }
      if maxAge > 0 && Sorted(c.ages, clock + maxAge) {
        SortedTrimmed(c, limit, maxAge, now, now1, clock + maxAge);
        TrimmedAlive(c, limit, maxAge, now, now1, clock + maxAge);
      }
    }

    // ----- entries coming and going

    /** A new entry. */
    method Create(k: K, v: V, now: int) returns (node: Node<K, V>)
      requires Valid() && k !in table
      modifies this`table, this`ring, this`ageRing, ring`next, ring`prev, ageRing`nextByAge, ageRing`prevByAge
      ensures Valid() && table == old(table)[k := node]
      ensures fresh(node) && node.key == k && node.value == v && node.expiration == ExpiryAfter(maxAge, now)
      ensures View() == Added(old(View()), Entry(k, v, ExpiryAfter(maxAge, now)))
      ensures forall i :: 0 <= i < |ring| ==> ring[i] in old(ring) || fresh(ring[i])
      ensures forall i :: 0 <= i < |ageRing| ==> ageRing[i] in old(ageRing) || fresh(ageRing[i])
    {
      hide Valid, Shape, Distinct, Entries;
      ghost var r, a := ring, ageRing;
      ViewNow();
      node := Insert(k, v, now);
      EntriesSnoc(r, node);
      EntriesSnoc(a, node);
    }

    /** Erase an entry. */
    method Remove(node: Node<K, V>)
      requires Valid() && node in ring && node != end
      modifies this`table, this`ring, this`ageRing, ring`next, ring`prev, ageRing`nextByAge, ageRing`prevByAge
      ensures Valid() && table == old(table) - {node.key}
      ensures View() == Removed(old(View()), node.key)
      ensures forall i :: 0 <= i < |ring| ==> ring[i] in old(ring)
      ensures forall i :: 0 <= i < |ageRing| ==> ageRing[i] in old(ageRing)
    {
      hide Valid, Shape, Distinct, Cut, Entries, Erased;
      ghost var r, a := ring, ageRing;
      ViewNow();
      ghost var i, j := Drop(node);
      EntriesCut(r, i);
      EntriesCut(a, j);
      CutSubset(r, i);
      CutSubset(a, j);
    }

    /** Make an entry the most recently used; neither its lifetime nor the order of age changes. */
    method Touch(node: Node<K, V>)
      requires Valid() && node in ring && node != end
      modifies this`ring, ring`next, ring`prev
      ensures Valid() && View() == Touched(old(View()), node.key)
      ensures forall i :: 0 <= i < |ring| ==> ring[i] in old(ring)
    {
      hide Valid, Shape, Distinct, Cut, Entries, Erased, Seek;
      ghost var r := ring;
      ViewNow();
      ghost var i := RenewEntry(node);
      SeekNode(r, i);
      CutSubset(r, i);
      EntriesCut(r, i);
      CutHead(r, i);
      EntriesSnoc(Cut(r, i), node);
    }

    lemma SeekNode(r: seq<Node<K, V>>, i: nat)
      requires 0 < i < |r| && Distinct(KeysIn(Entries(r)))
      ensures Seek(Entries(r), r[i].key) == Some(EntryOf(r[i]))
    {
      hide Distinct, Entries, Seek;
      SeekAt(Entries(r), i - 1);
    }

    /** `iterator::relink`: as new again, with a timeout of its own or, if that is 0, the usual one. */
    method Refresh(node: Node<K, V>, timeout: nat, now: int)
      requires Valid() && node in ring && node != end
      modifies this`ring, this`ageRing, ring`next, ring`prev, ageRing`nextByAge, ageRing`prevByAge, node
      ensures Valid()
      ensures View() == Relinked(old(View()), node.key, ExpiryAfter(if timeout == 0 then maxAge else timeout, now))
      ensures node.expiration == ExpiryAfter(if timeout == 0 then maxAge else timeout, now)
      ensures forall i :: 0 <= i < |ring| ==> ring[i] in old(ring)
      ensures forall i :: 0 <= i < |ageRing| ==> ageRing[i] in old(ageRing)
    {
      hide Shape, Indexed, Distinct, Cut, Entries, Erased, Seek;
      ghost var r, a := ring, ageRing;
      ViewNow();
      ValidDistinct();
      ghost var i, j := Detach(node);
      SeekNode(r, i);
      EntriesCut(r, i);
      EntriesCut(a, j);
      CutSubset(r, i);
      CutSubset(a, j);
      Join(node, if timeout == 0 then maxAge else timeout, now);
      IndexedMove(table, r, end, i);
    }

    /** `_end.link(node, timeout)`, as a value. */
    method Join(node: Node<K, V>, timeout: nat, now: int)
      requires Shape() && node !in ring
      modifies this`ring, this`ageRing, ring`next, ring`prev, ageRing`nextByAge, ageRing`prevByAge, node
      ensures Shape()
      ensures ring == old(ring) + [node] && ageRing == old(ageRing) + [node]
      ensures node.expiration == ExpiryAfter(timeout, now)
      ensures View() == Added(old(View()), Entry(node.key, node.value, ExpiryAfter(timeout, now)))
    {
      hide Ring, AgeRing, Same, Entries;
      SameIn(ring, ageRing, node);
      AgeRingDistinct(ageRing);
      RingDistinct(ring);
      ghost var r, a := ring, ageRing;
      Attach(node, timeout, now);
      EntriesSnoc(r, node);
      EntriesSnoc(a, node);
    }

    // ----- the operations

    /**
     * `emplace`, with the clock sampled by `trim` (`t0`), by its iterator (`t1`), by `expired` (`t2`)
     * and by `link` (`t3`). The cache is trimmed before the entry goes in, so it may end one over the
     * limit. The entry is created if the trim left none with its key or that one has expired.
     */
    method Emplace(k: K, v: V, t0: int, t1: int, t2: int, t3: int, ghost clock: int)
      returns (node: Node<K, V>, created: bool)
      requires Valid() && t0 <= t1 <= t2 <= t3
      modifies this`table, this`ring, this`ageRing, ring`next, ring`prev, ageRing`nextByAge, ageRing`prevByAge
      ensures Valid() && k in table && table[k] == node && node.key == k
      ensures created <==> Missing(Trimmed(old(View()), limit, maxAge, t0, t1), k, t2)
      ensures View() == Placed(Trimmed(old(View()), limit, maxAge, t0, t1), maxAge, k, v, t2, t3)
      ensures var left := Trimmed(old(View()), limit, maxAge, t0, t1);
              Erased(View().uses, k) == Erased(left.uses, k) && Erased(View().ages, k) == Erased(left.ages, k)
      ensures created ==> fresh(node) && node.value == v && node.expiration == ExpiryAfter(maxAge, t3)
      ensures !created ==>
                && old(k in table && table[k] == node) && node.expiration == old(table[k].expiration)
                && !Expired(node.expiration, t2)
      ensures limit.Some? && (maxAge > 0 || old(EnoughLive(t1))) ==> |table| <= limit.value + 1
      ensures old(Timeless()) ==> Timeless() && Keys() == EmplaceKeys(old(Keys()), limit, k)
      ensures old(Ordered(clock)) && clock <= t3 ==> Ordered(t3) && Alive(t0)
      ensures forall i :: 0 <= i < |ring| ==> ring[i] in old(ring) || fresh(ring[i])
      ensures forall i :: 0 <= i < |ageRing| ==> ageRing[i] in old(ageRing) || fresh(ageRing[i])
    {
      hide Valid, Shape, View, Indexed, Missing, Placed, Trimmed, LiveCount, AllNever, Sorted, NoneExpired, TrimKeys, TouchKey,
           Distinct, Coherent, Entries, Erased;
      ghost var r, before := ring, table;
      ValidIndexed();
      Trim(t0, t1, clock);
      ghost var c := View();
      ViewDistinct();
      node, created := Place(k, v, t2, t3);
      ViewDistinct();
      if !created { IndexedHas(before, r, end, node); }
      PlacedReadings(c, k, v, t0, t2, t3, clock);
    }

    /** What the part of `emplace` after the trim does to the readings. */
    lemma PlacedReadings(c: Cache<K, V>, k: K, v: V, t0: int, t2: int, t3: int, clock: int)
      requires t0 <= t2 <= t3
      ensures var c' := Placed(c, maxAge, k, v, t2, t3);
              && Erased(c'.uses, k) == Erased(c.uses, k) && Erased(c'.ages, k) == Erased(c.ages, k)
              && |c'.uses| <= |c.uses| + 1
              && (maxAge == 0 && AllNever(c.uses) && Distinct(KeysIn(c.uses)) ==>
                    AllNever(c'.uses) && KeysIn(c'.uses) == TouchKey(KeysIn(c.uses), k))
              && (maxAge > 0 && Sorted(c.ages, clock + maxAge) && clock <= t3 ==> Sorted(c'.ages, t3 + maxAge))
              && (NoneExpired(c.ages, t0) ==> NoneExpired(c'.ages, t0))
    {
      hide Distinct, AllNever, Sorted, NoneExpired, Erased, Seek, TouchKey, Placed;
      PlacedStays(c, maxAge, k, v, t2, t3);
      if maxAge == 0 && AllNever(c.uses) && Distinct(KeysIn(c.uses)) { NeverPlaced(c, k, v, t2, t3); }
      if maxAge > 0 && Sorted(c.ages, clock + maxAge) && clock <= t3 { SortedPlaced(c, maxAge, k, v, t2, t3, clock); }
      if NoneExpired(c.ages, t0) { PlacedAlive(c, maxAge, k, v, t0, t2, t3); }
    }

    /** The part of `emplace` after the trim. */
    method Place(k: K, v: V, t2: int, t3: int) returns (node: Node<K, V>, created: bool)
      requires Valid()
      modifies this`table, this`ring, this`ageRing, ring`next, ring`prev, ageRing`nextByAge, ageRing`prevByAge
      ensures Valid() && k in table && table[k] == node && node.key == k
      ensures created <==> Missing(old(View()), k, t2)
      ensures View() == Placed(old(View()), maxAge, k, v, t2, t3)
      ensures created ==> fresh(node) && node.value == v && node.expiration == ExpiryAfter(maxAge, t3)
      ensures !created ==> node in old(ring) && node != end && !Expired(node.expiration, t2)
      ensures forall i :: 0 <= i < |ring| ==> ring[i] in old(ring) || fresh(ring[i])
      ensures forall i :: 0 <= i < |ageRing| ==> ageRing[i] in old(ageRing) || fresh(ageRing[i])
    {
      hide Valid, Shape, View, Removed, Added, Touched, Seek, Distinct;
      Held(k);
      if k !in table {
        Absent(k);
        node := Create(k, v, t3);
        created := true;
      } else {
        node := table[k];
        if Expired(node.expiration, t2) {
          Remove(node);
          node := Create(k, v, t3);
          created := true;
        } else {
          Touch(node);
          created := false;
        }
      }
    }

    lemma Absent(k: K)
      requires Valid() && k !in table
      ensures Removed(View(), k) == View()
    {
      hide Valid, Coherent, View, Removed;
      ViewNow();
      Held(k);
      SameKeys(View());
      RemovedAbsent(View(), k);
    }

    lemma Unheld(k: K, expiry: Expiry)
      requires Valid()
      ensures k !in table ==> Touched(View(), k) == View() && Relinked(View(), k, expiry) == View()
    {
      hide Valid, View;
      Held(k);
    }

    lemma RingEnd()
      requires Valid()
      ensures end in ring && ring != [] && ageRing != [] && ring[0] == end && ageRing[0] == end
    {
    }

    lemma ValidIndexed()
      requires Valid()
      ensures Indexed(table, ring, end)
    {
    }

    /**
     * `find_and`: the callback decides what happens to the entry found. `now` is the clock sampled by
     * `expired`, `t` the one sampled by `link` when the entry is relinked.
     */
    method FindAnd(onGet: (K, V, bool, bool) -> GetAction, k: K, now: int, t: int) returns (r: Node?<K, V>)
      requires Valid()
      modifies this`table, this`ring, this`ageRing, ring`next, ring`prev, ageRing`nextByAge, ageRing`prevByAge
      modifies if k in table then {table[k]} else {}
      ensures Valid()
      ensures k !in old(table) ==> r == null && table == old(table) && View() == old(View())
      ensures k in old(table) ==>
                var n := old(table[k]);
                var action := onGet(n.key, n.value, Over(|old(table)|), Expired(old(n.expiration), now));
                && View() == Got(old(View()), action, maxAge, k, t)
                && (if action.Evict? then r == null && table == old(table) - {k} else r == n && table == old(table))
                && (action.Leave? || action.Renew? ==> n.expiration == old(n.expiration))
                && (action.Relink? ==> n.expiration == ExpiryAfter(maxAge, t))
      ensures forall i :: 0 <= i < |ring| ==> ring[i] in old(ring)
      ensures forall i :: 0 <= i < |ageRing| ==> ageRing[i] in old(ageRing)
    {
      hide Valid, Shape, View, Touched, Relinked, Removed;
      if k !in table {
        return null;
      }
      Held(k);
      var node := table[k];
      match onGet(node.key, node.value, Over(|table|), Expired(node.expiration, now)) {
        case Leave =>
        case Renew => Touch(node);
        case Relink => Refresh(node, 0, t);
        case Evict =>
          Remove(node);
          return null;
      }
      r := node;
    }

    /** `find`: an expired entry is evicted, any other becomes the most recently used. */
    method Find(k: K, now: int) returns (r: Node?<K, V>)
      requires Valid()
      modifies this`table, this`ring, this`ageRing, ring`next, ring`prev, ageRing`nextByAge, ageRing`prevByAge
      modifies if k in table then {table[k]} else {}
      ensures Valid() && View() == Found(old(View()), k, now)
      ensures r != null <==> !Missing(old(View()), k, now)
      ensures r != null <==> k in old(table) && !Expired(old(table[k].expiration), now)
      ensures r != null ==>
                && r == old(table[k]) && k in table && table[k] == r
                && r.expiration == old(r.expiration) && !Expired(r.expiration, now)
      ensures r == null ==> k !in table
      ensures forall i :: 0 <= i < |ring| ==> ring[i] in old(ring)
      ensures forall i :: 0 <= i < |ageRing| ==> ageRing[i] in old(ageRing)
    {
      hide Valid, Shape, View, Touched, Relinked, Removed, Seek;
      Held(k);
      if k !in table { Absent(k); }
      r := FindAnd((key, value, over, expired) => if expired then Evict else Renew, k, now, now);
    }

    /** `erase` by key. */
    method EraseKey(k: K, now: int)
      requires Valid()
      modifies this`table, this`ring, this`ageRing, ring`next, ring`prev, ageRing`nextByAge, ageRing`prevByAge
      modifies if k in table then {table[k]} else {}
      ensures Valid() && k !in table && View() == Removed(old(View()), k)
      ensures forall i :: 0 <= i < |ring| ==> ring[i] in old(ring)
      ensures forall i :: 0 <= i < |ageRing| ==> ageRing[i] in old(ageRing)
    {
      hide Valid, Shape, View, Touched, Removed, Missing;
      RemovedTouched(View(), k);
      var r := Find(k, now);
      if r != null {
        Held(k);
        Remove(r);
      }
    }
  }

  /** One operation of a run. */
  method RunOp<K(==, 0, !new), V(0)>(c: Lru<K, V>, op: Op<K, V>, ghost clock: int)
    requires c.Valid() && Timely(op, clock)
    modifies c, c.ring, c.ageRing
    ensures c.Valid() && c.View() == Applied(old(c.View()), c.limit, c.maxAge, op)
    ensures forall i :: 0 <= i < |c.ring| ==> c.ring[i] in old(c.ring) || fresh(c.ring[i])
    ensures forall i :: 0 <= i < |c.ageRing| ==> c.ageRing[i] in old(c.ageRing) || fresh(c.ageRing[i])
  {
    hide Lru.Valid, Lru.View, Placed, Trimmed, Found, Touched, Relinked, Removed, Seek;
    c.RingEnd();
    match op {
      case DoEmplace(k, v, t0, t1, t2, t3) =>
        var _, _ := c.Emplace(k, v, t0, t1, t2, t3, clock);
      case DoFind(k, t0) =>
        c.Held(k);
        var _ := c.Find(k, t0);
      case DoRenew(k, t0) =>
        c.Held(k);
        c.Unheld(k, Never);
        var _ := c.FindAnd((key, value, over, expired) => Renew, k, t0, t0);
      case DoRelink(k, t0, t1) =>
        c.Held(k);
        c.Unheld(k, ExpiryAfter(c.maxAge, t1));
        var _ := c.FindAnd((key, value, over, expired) => Relink, k, t0, t1);
      case DoRelinkFor(k, timeout, t0) =>
        c.Held(k);
        c.Unheld(k, ExpiryAfter(if timeout == 0 then c.maxAge else timeout, t0));
        if k in c.table { c.Refresh(c.table[k], timeout, t0); }
      case DoErase(k, t0) =>
        c.Held(k);
        c.EraseKey(k, t0);
      case DoTrim(t0, t1) =>
        c.Trim(t0, t1, clock);
      case DoClear =>
        c.Clear();
    }
  }

  /**
   * Any run of operations on a new cache: the lists and the table stay exact, and they hold what the
   * reference run holds, in both orders, with every value and expiration.
   */
  method RunCache<K(==, 0, !new), V(0)>(maxSize: nat, maxAge: nat, ops: seq<Op<K, V>>, k: K, v: V, ghost start: int)
    returns (c: Lru<K, V>)
    requires Steady(ops, start)
    ensures fresh(c) && c.Valid() && c.maxAge == maxAge && c.limit == (if maxSize == 0 then None else Some(maxSize))
    ensures c.View() == RunModel(c.limit, maxAge, ops)
    ensures maxAge == 0 && (forall i :: 0 <= i < |ops| ==> Uniform(ops[i], maxAge)) ==>
              c.Timeless() && c.Keys() == RunOps(c.limit, ops)
    ensures maxAge > 0 && (forall i :: 0 <= i < |ops| ==> Uniform(ops[i], maxAge)) ==>
              c.Ordered(RunClock(ops, start))
  {
    hide Lru.Valid, Lru.View, Applied, AllNever, Sorted, Timely, ClockAfter, Uniform;
    c := new Lru(maxSize, maxAge, k, v);
    assert ops[..|ops|] == ops;
    for n := 0 to |ops|
      invariant fresh(c) && c.Valid() && c.maxAge == maxAge && c.limit == (if maxSize == 0 then None else Some(maxSize))
      invariant forall i :: 0 <= i < |c.ring| ==> fresh(c.ring[i])
      invariant forall i :: 0 <= i < |c.ageRing| ==> fresh(c.ageRing[i])
      invariant c.View() == RunModel(c.limit, maxAge, ops[..n])
    {
      assert ops[..n + 1][..n] == ops[..n];
      SteadyAt(ops, start, n);
      RunOp(c, ops[n], RunClock(ops[..n], start));
    }
    if forall i :: 0 <= i < |ops| ==> Uniform(ops[i], maxAge) {
      if maxAge == 0 { RunNever(c.limit, ops); } else { RunSorted(c.limit, maxAge, ops, start); }
    }
  }

  lemma {:induction false} SteadyAt<K, V>(ops: seq<Op<K, V>>, start: int, n: nat)
    requires Steady(ops, start) && n < |ops|
    ensures Timely(ops[n], RunClock(ops[..n], start))
  {
    hide Timely, RunClock;
    if n < |ops| - 1 {
      SteadyAt(ops[..|ops| - 1], start, n);
      assert ops[..|ops| - 1][..n] == ops[..n];
    }
  }
}
