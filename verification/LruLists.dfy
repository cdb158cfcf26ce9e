/**
 * Facts about the two lists as sequences of nodes: what cutting, moving and appending a node does to
 * them, to the table and to the entries they hold, and which nodes a trim removes.
 */
module LruLists {
  import opened Sequences
  import opened Wrappers
  import opened LruNodes
  import opened LruModel

  /** The same nodes in two orders. */
  ghost predicate Same<T>(r: seq<T>, a: seq<T>) {
    && |r| == |a|
    && (forall n | n in r :: n in a)
    && (forall n | n in a :: n in r)
  }

  /** The table holds exactly the nodes of `s` other than the end node, each under its own key. */
  ghost predicate Indexed<K(0), V(0)>(table: map<K, Node<K, V>>, s: seq<Node<K, V>>, end: Node<K, V>) {
    && |table| + 1 == |s|
    && (forall n | n in s && n != end :: n.key in table && table[n.key] == n)
    && (forall k | k in table :: table[k] in s && table[k] != end && table[k].key == k)
  }

  lemma IndexOf<T>(s: seq<T>, x: T) returns (i: nat)
    requires x in s
    ensures i < |s| && s[i] == x
  {
    i :| 0 <= i < |s| && s[i] == x;
  }

  lemma RingDistinct<K(0), V(0)>(s: seq<Node<K, V>>)
    requires Ring(s)
    ensures Distinct(s) && s != []
  {
  }

  lemma AgeRingDistinct<K(0), V(0)>(s: seq<Node<K, V>>)
    requires AgeRing(s)
    ensures Distinct(s) && s != []
  {
  }

  lemma SameIn<T>(r: seq<T>, a: seq<T>, x: T)
    requires Same(r, a)
    ensures x in r <==> x in a
  {
  }

  lemma SameBack<T>(r: seq<T>, a: seq<T>)
    requires Same(r, a)
    ensures Same(a, r)
  {
  }

  lemma SameSnoc<T>(r: seq<T>, a: seq<T>, x: T)
    requires Same(r, a)
    ensures Same(r + [x], a + [x])
  {
  }

  lemma SecondOnce<T>(s: seq<T>)
    requires Distinct(s) && 1 < |s|
    ensures s[1] != s[0] && forall i :: 0 <= i < |s| && s[i] == s[1] ==> i == 1
  {
  }

  lemma CutSecond<T>(s: seq<T>)
    requires 1 < |s|
    ensures Cut(s, 1) == [s[0]] + s[2..]
  {
  }

  lemma PlaceOnce<T>(s: seq<T>, j: nat)
    requires Distinct(s) && 0 < j < |s|
    ensures s[j] != s[0] && forall i :: 0 <= i < |s| && s[i] == s[j] ==> i == j
  {
  }

  lemma CutShift<T>(s: seq<T>, j: nat, j': nat)
    requires j < j' <= |s|
    ensures |Cut(s, j)| == |s| - 1 && Cut(s, j)[j' - 1..] == s[j'..]
  {
  }

  lemma CutHead<T>(s: seq<T>, k: nat)
    requires 0 < k < |s|
    ensures Cut(s, k) != [] && Cut(s, k)[0] == s[0]
  {
  }

  lemma CutSubset<T>(s: seq<T>, k: nat)
    requires k < |s|
    ensures forall i :: 0 <= i < |Cut(s, k)| ==> Cut(s, k)[i] in s
  {
  }

  lemma SameCut<T>(r: seq<T>, a: seq<T>, i: nat, j: nat)
    requires Same(r, a) && Distinct(r) && Distinct(a) && i < |r| && j < |a| && r[i] == a[j]
    ensures Same(Cut(r, i), Cut(a, j)) && r[i] !in Cut(r, i)
  {
    CutMembers(r, i);
    CutMembers(a, j);
  }

  lemma SameMove<T>(r: seq<T>, a: seq<T>, i: nat)
    requires Same(r, a) && Distinct(r) && i < |r|
    ensures Same(Cut(r, i) + [r[i]], a) && r[i] !in Cut(r, i)
  {
    CutMembers(r, i);
  }

  lemma IndexedCut<K(0), V(0)>(table: map<K, Node<K, V>>, s: seq<Node<K, V>>, end: Node<K, V>, i: nat)
    requires Indexed(table, s, end) && Distinct(s) && i < |s| && s[i] != end
    ensures Indexed(table - {s[i].key}, Cut(s, i), end)
    ensures |table - {s[i].key}| + 1 == |table|
  {
    CutMembers(s, i);
    var t := table - {s[i].key};
    assert t.Keys == table.Keys - {s[i].key};
    assert |t.Keys| == |table.Keys| - 1;
  }

  lemma IndexedSnoc<K(0), V(0)>(table: map<K, Node<K, V>>, s: seq<Node<K, V>>, end: Node<K, V>, n: Node<K, V>)
    requires Indexed(table, s, end) && n !in s && n != end && n.key !in table
    ensures Indexed(table[n.key := n], s + [n], end)
  {
    var t := table[n.key := n];
    assert t.Keys == table.Keys + {n.key};
    assert |t.Keys| == |table.Keys| + 1;
  }

  lemma IndexedSame<K(0), V(0)>(table: map<K, Node<K, V>>, r: seq<Node<K, V>>, a: seq<Node<K, V>>, end: Node<K, V>)
    requires Indexed(table, r, end) && Same(r, a)
    ensures Indexed(table, a, end)
  {
  }

  lemma IndexedHas<K(0), V(0)>(table: map<K, Node<K, V>>, s: seq<Node<K, V>>, end: Node<K, V>, n: Node<K, V>)
    requires Indexed(table, s, end) && n in s && n != end
    ensures n.key in table && table[n.key] == n
  {
  }

  lemma IndexedMove<K(0), V(0)>(table: map<K, Node<K, V>>, s: seq<Node<K, V>>, end: Node<K, V>, i: nat)
    requires Indexed(table, s, end) && Distinct(s) && i < |s|
    ensures Indexed(table, Cut(s, i) + [s[i]], end)
  {
    CutMembers(s, i);
  }

  // ----- trimming

  /** `s` without the elements of `xs`, in the same order. */
  function Minus<T(==)>(s: seq<T>, xs: seq<T>): (r: seq<T>)
    ensures |r| <= |s|
    ensures forall x | x in r :: x in s && x !in xs
    ensures forall x | x in s && x !in xs :: x in r
  {
    if s == [] then [] else if s[0] in xs then Minus(s[1..], xs) else [s[0]] + Minus(s[1..], xs)
  }

  lemma {:induction false} MinusNothing<T>(s: seq<T>)
    ensures Minus(s, []) == s
  {
    if s != [] { MinusNothing(s[1..]); }
  }

  lemma {:induction false} MinusAbsent<T>(s: seq<T>, xs: seq<T>, x: T)
    requires x !in s
    ensures Minus(s, xs + [x]) == Minus(s, xs)
  {
    if s != [] { MinusAbsent(s[1..], xs, x); }
  }

  /** Cutting one more element out. */
  lemma {:induction false} MinusMore<T>(s: seq<T>, xs: seq<T>, i: nat)
    requires Distinct(s) && i < |Minus(s, xs)|
    ensures Cut(Minus(s, xs), i) == Minus(s, xs + [Minus(s, xs)[i]])
  {
    var m, x := Minus(s, xs), Minus(s, xs)[i];
    assert Distinct(s[1..]);
    if s[0] in xs {
      MinusMore(s[1..], xs, i);
    } else if i == 0 {
      assert s[0] !in s[1..];
      MinusAbsent(s[1..], xs, x);
    } else {
      MinusMore(s[1..], xs, i - 1);
      assert s[0] != x;
      assert Cut(m, i) == [s[0]] + Cut(m[1..], i - 1);
    }
  }

  lemma {:induction false} MinusSubset<T>(s: seq<T>, xs: seq<T>)
    ensures forall i :: 0 <= i < |Minus(s, xs)| ==> Minus(s, xs)[i] in s
  {
    if s != [] { MinusSubset(s[1..], xs); }
  }

  lemma EndOnce<K(0), V(0)>(s: seq<Node<K, V>>)
    requires AgeRing(s)
    ensures forall i :: 1 <= i < |s| ==> s[i] != s[0]
  {
  }

  lemma SizeOf<K(0), V(0)>(table: map<K, Node<K, V>>, r: seq<Node<K, V>>, a: seq<Node<K, V>>, end: Node<K, V>)
    requires Indexed(table, r, end) && Same(r, a)
    ensures |table| + 1 == |r| == |a|
  {
  }

  lemma AgeNext<K(0), V(0)>(s: seq<Node<K, V>>, i: nat)
    requires AgeRing(s) && i < |s|
    ensures s[i].nextByAge == s[Succ(i, |s|)]
  {
  }

  /** The least recently used entries not yet expired, as many as exceed the limit. */
  ghost function Evicted<K(0), V(0)>(s: seq<Node<K, V>>, excess: int, now: int): (e: seq<Node<K, V>>)
    reads s`expiration
  {
    if s == [] || excess <= 0 then []
    else if Expired(s[0].expiration, now) then Evicted(s[1..], excess, now)
    else [s[0]] + Evicted(s[1..], excess - 1, now)
  }

  lemma {:induction false} EvictedSkip<K(0), V(0)>(s: seq<Node<K, V>>, k: nat, excess: int, now: int)
    requires k <= |s| && forall i :: 0 <= i < k ==> Expired(s[i].expiration, now)
    ensures Evicted(s, excess, now) == Evicted(s[k..], excess, now)
  {
    if k == 0 {
      assert s[0..] == s;
    } else {
      EvictedSkip(s[1..], k - 1, excess, now);
      assert s[1..][k - 1..] == s[k..];
    }
  }

  /** Nodes that have expired between the places `i` and `j` are passed over. */
  lemma EvictedBetween<K(0), V(0)>(s: seq<Node<K, V>>, i: nat, j: nat, excess: int, now: int)
    requires i <= j <= |s| && forall k :: i <= k < j ==> Expired(s[k].expiration, now)
    ensures Evicted(s[i..], excess, now) == Evicted(s[j..], excess, now)
  {
    EvictedSkip(s[i..], j - i, excess, now);
    assert s[i..][j - i..] == s[j..];
  }

  lemma EvictedNext<K(0), V(0)>(s: seq<Node<K, V>>, j: nat, j': nat, excess: int, now: int)
    requires j < j' <= |s| && !Expired(s[j].expiration, now)
    requires forall k :: j < k < j' ==> Expired(s[k].expiration, now)
    ensures excess > 0 ==> Evicted(s[j..], excess, now) == [s[j]] + Evicted(s[j'..], excess - 1, now)
    ensures excess <= 0 ==> Evicted(s[j..], excess, now) == []
  {
    hide Evicted;
    EvictedStep(s[j..], excess, now);
    assert s[j..][1..] == s[j + 1..];
    EvictedBetween(s, j + 1, j', excess - 1, now);
  }

  lemma EvictedStep<K(0), V(0)>(s: seq<Node<K, V>>, excess: int, now: int)
    ensures s == [] || excess <= 0 ==> Evicted(s, excess, now) == []
    ensures s != [] && excess > 0 && !Expired(s[0].expiration, now) ==>
              Evicted(s, excess, now) == [s[0]] + Evicted(s[1..], excess - 1, now)
  {
  }

  // ----- the entries of a list

  ghost function EntryOf<K(0), V(0)>(n: Node<K, V>): Entry<K, V>
    reads n`expiration
  {
    Entry(n.key, n.value, n.expiration)
  }

  ghost function Items<K(0), V(0)>(s: seq<Node<K, V>>): (es: seq<Entry<K, V>>)
    reads s`expiration
    ensures |es| == |s| && forall i :: 0 <= i < |s| ==> es[i] == EntryOf(s[i])
  {
    if s == [] then [] else [EntryOf(s[0])] + Items(s[1..])
  }

  /** The entries of a list after the end node. */
  ghost function Entries<K(0), V(0)>(s: seq<Node<K, V>>): (es: seq<Entry<K, V>>)
    reads s`expiration
    ensures |es| == if s == [] then 0 else |s| - 1
    ensures forall i :: 0 <= i < |es| ==> es[i] == EntryOf(s[i + 1])
  {
    if s == [] then [] else Items(s[1..])
  }

  lemma EntriesSnoc<K(0), V(0)>(s: seq<Node<K, V>>, n: Node<K, V>)
    requires s != []
    ensures Entries(s + [n]) == Entries(s) + [EntryOf(n)]
  {
    hide Items;
  }

  lemma EntriesCut<K(0), V(0)>(s: seq<Node<K, V>>, i: nat)
    requires 0 < i < |s| && Distinct(KeysIn(Entries(s)))
    ensures Entries(Cut(s, i)) == Erased(Entries(s), s[i].key)
  {
    hide Items, Entries, Erased, Distinct;
    var es := Entries(s);
    ErasedAt(es, i - 1);
    assert Entries(Cut(s, i)) == es[..i - 1] + es[i..];
  }

  /** The entries are those of the table, each key once. */
  lemma EntriesHeld<K(0), V(0)>(table: map<K, Node<K, V>>, s: seq<Node<K, V>>, end: Node<K, V>)
    requires Indexed(table, s, end) && Distinct(s) && s != [] && s[0] == end
    ensures Distinct(KeysIn(Entries(s))) && |Entries(s)| == |table|
    ensures forall i :: 0 <= i < |KeysIn(Entries(s))| ==> KeysIn(Entries(s))[i] in table
  {
    hide Entries, Items;
    var ks := KeysIn(Entries(s));
    forall i, j | 0 <= i < j < |ks|
      ensures ks[i] != ks[j]
    {
      assert s[i + 1] in s && s[j + 1] in s && s[i + 1] != s[0] && s[j + 1] != s[0];
    }
    forall i | 0 <= i < |ks|
      ensures ks[i] in table
    {
      assert s[i + 1] in s && s[i + 1] != s[0];
    }
  }

  lemma SeekHeld<K(0), V(0)>(table: map<K, Node<K, V>>, s: seq<Node<K, V>>, end: Node<K, V>, k: K)
    requires Indexed(table, s, end) && Distinct(s) && s != [] && s[0] == end
    ensures Seek(Entries(s), k) == if k in table then Some(EntryOf(table[k])) else None
  {
    hide Entries, Items, Distinct, Seek;
    EntriesHeld(table, s, end);
    SeekMeans(Entries(s), k);
    if k in table {
      var i :| 0 <= i < |s| && s[i] == table[k];
      SeekAt(Entries(s), i - 1);
    }
  }

  lemma EntriesSame<K(0), V(0)>(r: seq<Node<K, V>>, a: seq<Node<K, V>>)
    requires Same(r, a) && Distinct(r) && r != [] && a != [] && r[0] == a[0]
    ensures forall i :: 0 <= i < |Entries(r)| ==> Entries(r)[i] in Entries(a)
  {
    hide Entries, Items;
    forall i | 0 <= i < |Entries(r)|
      ensures Entries(r)[i] in Entries(a)
    {
      assert r[i + 1] in r && r[i + 1] != r[0];
      var j :| 0 <= j < |a| && a[j] == r[i + 1];
      assert Entries(a)[j - 1] == Entries(r)[i];
    }
  }

  lemma {:induction false} ItemsMinus<K(0), V(0)>(s: seq<Node<K, V>>, e: seq<Node<K, V>>, ks: seq<K>)
    requires forall i :: 0 <= i < |s| ==> (s[i] in e <==> s[i].key in ks)
    ensures Items(Minus(s, e)) == ErasedAll(Items(s), ks)
  {
    if s != [] { ItemsMinus(s[1..], e, ks); }
  }

  lemma EntriesMinus<K(0), V(0)>(s: seq<Node<K, V>>, e: seq<Node<K, V>>)
    requires s != [] && Distinct(s) && Distinct(KeysIn(Entries(s)))
    requires forall i :: 0 <= i < |e| ==> e[i] in s && e[i] != s[0]
    ensures Entries(Minus(s, e)) == ErasedAll(Entries(s), KeysIn(Items(e)))
  {
    hide Items, ErasedAll, Distinct;
    var t, ks := s[1..], KeysIn(Items(e));
    assert Minus(s, e) == [s[0]] + Minus(t, e);
    assert ([s[0]] + Minus(t, e))[1..] == Minus(t, e);
    forall i | 0 <= i < |t|
      ensures t[i] in e <==> t[i].key in ks
    {
      KeyedIn(s, e, i + 1);
    }
    ItemsMinus(t, e, ks);
  }

  lemma KeyedIn<K(0), V(0)>(s: seq<Node<K, V>>, e: seq<Node<K, V>>, i: nat)
    requires 0 < i < |s| && Distinct(KeysIn(Entries(s)))
    requires forall i :: 0 <= i < |e| ==> e[i] in s && e[i] != s[0]
    ensures s[i] in e <==> s[i].key in KeysIn(Items(e))
  {
    hide Items, Entries;
    var ks, all := KeysIn(Items(e)), KeysIn(Entries(s));
    if s[i] in e {
      var j :| 0 <= j < |e| && e[j] == s[i];
      assert ks[j] == s[i].key;
    }
    if s[i].key in ks {
      var j :| 0 <= j < |ks| && ks[j] == s[i].key;
      var m :| 0 <= m < |s| && s[m] == e[j];
      assert all[m - 1] == all[i - 1];
    }
  }

  // ----- which entries a trim removes

  lemma DropsHead<K(0), V(0)>(s: seq<Node<K, V>>, limit: Option<nat>, now: int)
    requires s != []
    ensures Drops(Items(s), limit, now) ==
            if (limit.Some? && |s| > limit.value) || Expired(s[0].expiration, now) then 1 + Drops(Items(s[1..]), limit, now)
            else 0
  {
    assert Items(s)[1..] == Items(s[1..]);
  }

  lemma DropsNothing<K(0), V(0)>(limit: Option<nat>, now: int)
    ensures var none: seq<Node<K, V>> := []; Drops(Items(none), limit, now) == 0
  {
  }

  lemma {:induction false} EvictedKeys<K(0), V(0)>(s: seq<Node<K, V>>, excess: int, now: int)
    ensures KeysIn(Items(Evicted(s, excess, now))) == Victims(Items(s), excess, now)
    ensures forall i :: 0 <= i < |Evicted(s, excess, now)| ==> Evicted(s, excess, now)[i] in s
  {
    if s != [] && excess > 0 {
      assert Items(s)[1..] == Items(s[1..]);
      if Expired(s[0].expiration, now) {
        EvictedKeys(s[1..], excess, now);
      } else {
        EvictedKeys(s[1..], excess - 1, now);
        var e := Evicted(s[1..], excess - 1, now);
        assert KeysIn(Items([s[0]] + e)) == [s[0].key] + KeysIn(Items(e));
      }
    }
  }
}
