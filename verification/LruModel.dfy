/**
 * The cache as a value: its entries in order of use and in order of age. Every operation is given as a
 * function on this value, for every maximum age, and what the operations promise is proved here.
 */
module LruModel {
  import opened Sequences
  import opened Wrappers
  import opened LruKeys

  // The time an entry expires; `Never` is the largest time point.
  datatype Expiry = Never | At(time: int)

  predicate Expired(e: Expiry, now: int) {
    e.At? && now > e.time
  }

  predicate NoLater(a: Expiry, b: Expiry) {
    b.Never? || (a.At? && a.time <= b.time)
  }

  function ExpiryAfter(timeout: nat, now: int): Expiry {
    if timeout == 0 then Never else At(now + timeout)
  }

  datatype Entry<K, V> = Entry(key: K, value: V, expiry: Expiry)

  /** Least recently used first, and oldest first. */
  datatype Cache<K, V> = Cache(uses: seq<Entry<K, V>>, ages: seq<Entry<K, V>>)

  // ----- entries by key

  function KeysIn<K, V>(es: seq<Entry<K, V>>): (ks: seq<K>)
    ensures |ks| == |es|
    ensures forall i :: 0 <= i < |es| ==> ks[i] == es[i].key
  {
    seq(|es|, i requires 0 <= i < |es| => es[i].key)
  }

  function Seek<K(==), V>(es: seq<Entry<K, V>>, k: K): Option<Entry<K, V>> {
    if es == [] then None else if es[0].key == k then Some(es[0]) else Seek(es[1..], k)
  }

  /** The entries with other keys, in order. */
  function ErasedAll<K(==), V>(es: seq<Entry<K, V>>, ks: seq<K>): seq<Entry<K, V>> {
    if es == [] then [] else (if es[0].key in ks then [] else [es[0]]) + ErasedAll(es[1..], ks)
  }

  function Erased<K(==), V>(es: seq<Entry<K, V>>, k: K): seq<Entry<K, V>> {
    ErasedAll(es, [k])
  }

  // ----- the operations

  function Removed<K(==), V>(c: Cache<K, V>, k: K): Cache<K, V> {
    Cache(Erased(c.uses, k), Erased(c.ages, k))
  }

  function Added<K, V>(c: Cache<K, V>, e: Entry<K, V>): Cache<K, V> {
    Cache(c.uses + [e], c.ages + [e])
  }

  /** The most recently used again; the order of age and the expiration stay. */
  function Touched<K(==), V>(c: Cache<K, V>, k: K): Cache<K, V> {
    match Seek(c.uses, k)
    case None => c
    case Some(e) => c.(uses := Erased(c.uses, k) + [e])
  }

  /** As new again. */
  function Relinked<K(==), V>(c: Cache<K, V>, k: K, expiry: Expiry): Cache<K, V> {
    match Seek(c.uses, k)
    case None => c
    case Some(e) => Added(Removed(c, k), e.(expiry := expiry))
  }

  /** How many of the oldest entries go: while over the limit, and while expired. */
  function Drops<K, V>(ages: seq<Entry<K, V>>, limit: Option<nat>, now: int): (d: nat)
    ensures d <= |ages|
  {
    if ages == [] then 0
    else if (limit.Some? && |ages| > limit.value) || Expired(ages[0].expiry, now) then 1 + Drops(ages[1..], limit, now)
    else 0
  }

  /** The keys of the least recently used entries not yet expired, as many as exceed the limit. */
  function Victims<K, V>(uses: seq<Entry<K, V>>, excess: int, now: int): seq<K> {
    if uses == [] || excess <= 0 then []
    else if Expired(uses[0].expiry, now) then Victims(uses[1..], excess, now)
    else [uses[0].key] + Victims(uses[1..], excess - 1, now)
  }

  function Excess(size: nat, limit: Option<nat>): int {
    if limit.None? then 0 else size - limit.value
  }

  /** The default trim: by age if entries have a maximum age, by use if they have none. */
  function Trimmed<K(==), V>(c: Cache<K, V>, limit: Option<nat>, maxAge: nat, now: int, now1: int): Cache<K, V> {
    if maxAge > 0 then
      var d := Drops(c.ages, limit, now);
      Cache(ErasedAll(c.uses, KeysIn(c.ages[..d])), c.ages[d..])
    else
      var ks := Victims(c.uses, Excess(|c.uses|, limit), now1);
      Cache(ErasedAll(c.uses, ks), ErasedAll(c.ages, ks))
  }

  /** Not held, or expired. */
  predicate Missing<K(==), V>(c: Cache<K, V>, k: K, now: int) {
    var e := Seek(c.uses, k);
    e.None? || Expired(e.value.expiry, now)
  }

  /** `emplace` after its trim. */
  function Placed<K(==), V>(c: Cache<K, V>, maxAge: nat, k: K, v: V, t2: int, t3: int): Cache<K, V> {
    if Missing(c, k, t2) then Added(Removed(c, k), Entry(k, v, ExpiryAfter(maxAge, t3))) else Touched(c, k)
  }

  function Found<K(==), V>(c: Cache<K, V>, k: K, now: int): Cache<K, V> {
    if Missing(c, k, now) then Removed(c, k) else Touched(c, k)
  }

  // What the callback of `find_and` asks for.
  datatype GetAction = Leave | Renew | Relink | Evict

  /** `find_and` on an entry that is held. */
  function Got<K(==), V>(c: Cache<K, V>, action: GetAction, maxAge: nat, k: K, t: int): Cache<K, V> {
    match action
    case Leave => c
    case Renew => Touched(c, k)
    case Relink => Relinked(c, k, ExpiryAfter(maxAge, t))
    case Evict => Removed(c, k)
  }

  function Applied<K(==), V>(c: Cache<K, V>, limit: Option<nat>, maxAge: nat, op: Op<K, V>): Cache<K, V> {
    match op
    case DoEmplace(k, v, t0, t1, t2, t3) => Placed(Trimmed(c, limit, maxAge, t0, t1), maxAge, k, v, t2, t3)
    case DoFind(k, t0) => Found(c, k, t0)
    case DoRenew(k, _) => Touched(c, k)
    case DoRelink(k, _, t1) => Relinked(c, k, ExpiryAfter(maxAge, t1))
    case DoRelinkFor(k, timeout, t0) => Relinked(c, k, ExpiryAfter(if timeout == 0 then maxAge else timeout, t0))
    case DoErase(k, _) => Removed(c, k)
    case DoTrim(t0, t1) => Trimmed(c, limit, maxAge, t0, t1)
    case DoClear => Cache([], [])
  }

  function RunModel<K(==), V>(limit: Option<nat>, maxAge: nat, ops: seq<Op<K, V>>): Cache<K, V> {
    if ops == [] then Cache([], []) else
      Applied(RunModel(limit, maxAge, ops[..|ops| - 1]), limit, maxAge, ops[|ops| - 1])
  }

  // ----- erasing

  lemma {:induction false} ErasedConcat<K, V>(a: seq<Entry<K, V>>, b: seq<Entry<K, V>>, ks: seq<K>)
    ensures ErasedAll(a + b, ks) == ErasedAll(a, ks) + ErasedAll(b, ks)
  {
    if a == [] {
      assert a + b == b;
    } else {
      assert (a + b)[1..] == a[1..] + b;
      ErasedConcat(a[1..], b, ks);
    }
  }

  lemma {:induction false} ErasedNone<K, V>(es: seq<Entry<K, V>>, ks: seq<K>)
    requires forall i :: 0 <= i < |es| ==> es[i].key !in ks
    ensures ErasedAll(es, ks) == es
  {
    if es != [] { ErasedNone(es[1..], ks); }
  }

  /** What is left is what was there, in the same order, and nothing with a key erased. */
  lemma {:induction false} ErasedMembers<K, V>(es: seq<Entry<K, V>>, ks: seq<K>)
    ensures var r := ErasedAll(es, ks);
            && |r| <= |es|
            && (forall i :: 0 <= i < |r| ==> r[i] in es && r[i].key !in ks)
            && (forall e :: e in es && e.key !in ks ==> e in r)
  {
    if es != [] { ErasedMembers(es[1..], ks); }
  }

  lemma {:induction false} ErasedDistinct<K, V>(es: seq<Entry<K, V>>, ks: seq<K>)
    requires Distinct(KeysIn(es))
    ensures Distinct(KeysIn(ErasedAll(es, ks)))
  {
    if es != [] {
      var rest := es[1..];
      assert KeysIn(rest) == KeysIn(es)[1..];
      ErasedDistinct(rest, ks);
      ErasedMembers(rest, ks);
      var r := ErasedAll(rest, ks);
      forall i | 0 <= i < |r| ensures r[i].key != es[0].key {
        var j :| 0 <= j < |rest| && rest[j] == r[i];
        assert KeysIn(es)[j + 1] == r[i].key && KeysIn(es)[0] == es[0].key;
      }
      if es[0].key !in ks {
        assert KeysIn(ErasedAll(es, ks)) == [es[0].key] + KeysIn(r);
      } else {
        assert ErasedAll(es, ks) == r;
      }
    }
  }

  lemma {:induction false} SeekAt<K, V>(es: seq<Entry<K, V>>, i: nat)
    requires Distinct(KeysIn(es)) && i < |es|
    ensures Seek(es, es[i].key) == Some(es[i])
  {
    if i > 0 {
      assert KeysIn(es)[0] != KeysIn(es)[i];
      assert KeysIn(es[1..]) == KeysIn(es)[1..];
      SeekAt(es[1..], i - 1);
    }
  }

  lemma {:induction false} SeekMeans<K, V>(es: seq<Entry<K, V>>, k: K)
    ensures Seek(es, k).Some? <==> k in KeysIn(es)
    ensures Seek(es, k).Some? ==> Seek(es, k).value in es && Seek(es, k).value.key == k
  {
    if es != [] {
      SeekMeans(es[1..], k);
      assert KeysIn(es) == [es[0].key] + KeysIn(es[1..]);
    }
  }

  lemma {:induction false} ErasedAt<K, V>(es: seq<Entry<K, V>>, i: nat)
    requires Distinct(KeysIn(es)) && i < |es|
    ensures Erased(es, es[i].key) == es[..i] + es[i + 1..]
  {
    var rest, k := es[1..], es[i].key;
    assert KeysIn(rest) == KeysIn(es)[1..];
    if i == 0 {
      OthersAfter(es);
      ErasedNone(rest, [k]);
    } else {
      assert KeysIn(es)[0] != KeysIn(es)[i];
      ErasedAt(rest, i - 1);
      assert es[..i] + es[i + 1..] == [es[0]] + (rest[..i - 1] + rest[i..]);
    }
  }

  lemma OthersAfter<K, V>(es: seq<Entry<K, V>>)
    requires Distinct(KeysIn(es)) && es != []
    ensures forall j :: 0 <= j < |es| - 1 ==> es[1..][j].key != es[0].key
  {
    forall j | 0 <= j < |es| - 1 ensures es[1..][j].key != es[0].key {
      assert KeysIn(es)[j + 1] != KeysIn(es)[0];
    }
  }

  lemma ErasedKeys<K, V>(es: seq<Entry<K, V>>, k: K)
    requires Distinct(KeysIn(es))
    ensures KeysIn(Erased(es, k)) == Without(KeysIn(es), k)
  {
    hide Distinct, Without, ErasedAll;
    var ks := KeysIn(es);
    if k in ks {
      var i :| 0 <= i < |ks| && ks[i] == k;
      ErasedAt(es, i);
      WithoutAt(ks, i);
      assert KeysIn(es[..i] + es[i + 1..]) == ks[..i] + ks[i + 1..];
    } else {
      assert forall i :: 0 <= i < |es| ==> ks[i] != k;
      ErasedNone(es, [k]);
    }
  }

  lemma ErasedTwice<K, V>(es: seq<Entry<K, V>>, e: Entry<K, V>)
    ensures Erased(Erased(es, e.key) + [e], e.key) == Erased(es, e.key)
  {
    var r := Erased(es, e.key);
    ErasedConcat(r, [e], [e.key]);
    ErasedMembers(es, [e.key]);
    ErasedNone(r, [e.key]);
  }

  lemma RemovedAbsent<K, V>(c: Cache<K, V>, k: K)
    requires k !in KeysIn(c.uses) && k !in KeysIn(c.ages)
    ensures Removed(c, k) == c
  {
    forall i | 0 <= i < |c.uses| ensures c.uses[i].key != k { assert KeysIn(c.uses)[i] != k; }
    forall i | 0 <= i < |c.ages| ensures c.ages[i].key != k { assert KeysIn(c.ages)[i] != k; }
    ErasedNone(c.uses, [k]);
    ErasedNone(c.ages, [k]);
  }

  /** Looking a key up before removing it makes no difference. */
  lemma RemovedTouched<K, V>(c: Cache<K, V>, k: K)
    ensures Removed(Touched(c, k), k) == Removed(c, k)
  {
    hide ErasedAll;
    SeekMeans(c.uses, k);
    if Seek(c.uses, k).Some? { ErasedTwice(c.uses, Seek(c.uses, k).value); }
  }

  // ----- the two orders hold the same entries

  predicate Coherent<K(==), V(==)>(c: Cache<K, V>) {
    && Distinct(KeysIn(c.uses)) && Distinct(KeysIn(c.ages))
    && (forall i :: 0 <= i < |c.uses| ==> c.uses[i] in c.ages)
    && (forall i :: 0 <= i < |c.ages| ==> c.ages[i] in c.uses)
  }

  lemma KeyIn<K, V>(es: seq<Entry<K, V>>, e: Entry<K, V>)
    requires e in es
    ensures e.key in KeysIn(es)
  {
    var i :| 0 <= i < |es| && es[i] == e;
    assert KeysIn(es)[i] == e.key;
  }

  lemma SameKeys<K, V>(c: Cache<K, V>)
    requires Coherent(c)
    ensures |c.uses| == |c.ages|
    ensures forall k :: k in KeysIn(c.uses) <==> k in KeysIn(c.ages)
  {
    hide Distinct;
    var a, b := KeysIn(c.uses), KeysIn(c.ages);
    forall i | 0 <= i < |a| ensures a[i] in b { KeyIn(c.ages, c.uses[i]); }
    forall i | 0 <= i < |b| ensures b[i] in a { KeyIn(c.uses, c.ages[i]); }
    SameLength(a, b);
  }

  lemma CoherentErased<K, V>(c: Cache<K, V>, ks: seq<K>)
    requires Coherent(c)
    ensures Coherent(Cache(ErasedAll(c.uses, ks), ErasedAll(c.ages, ks)))
  {
    hide Distinct;
    ErasedDistinct(c.uses, ks);
    ErasedDistinct(c.ages, ks);
    ErasedMembers(c.uses, ks);
    ErasedMembers(c.ages, ks);
  }

  lemma CoherentAdded<K, V>(c: Cache<K, V>, e: Entry<K, V>)
    requires Coherent(c) && e.key !in KeysIn(c.uses)
    ensures Coherent(Added(c, e))
  {
    SameKeys(c);
    assert KeysIn(c.uses + [e]) == KeysIn(c.uses) + [e.key];
    assert KeysIn(c.ages + [e]) == KeysIn(c.ages) + [e.key];
  }

  lemma NotIn<K, V>(es: seq<Entry<K, V>>, k: K)
    ensures k !in KeysIn(Erased(es, k))
  {
    ErasedMembers(es, [k]);
  }

  lemma ErasedFront<K, V>(es: seq<Entry<K, V>>, d: nat)
    requires Distinct(KeysIn(es)) && d <= |es|
    ensures ErasedAll(es, KeysIn(es[..d])) == es[d..]
  {
    hide ErasedAll, Distinct;
    assert es == es[..d] + es[d..];
    ErasedLeft(es[..d], es[d..]);
  }

  lemma ErasedLeft<K, V>(a: seq<Entry<K, V>>, b: seq<Entry<K, V>>)
    requires Distinct(KeysIn(a + b))
    ensures ErasedAll(a + b, KeysIn(a)) == b
  {
    hide ErasedAll;
    ErasedConcat(a, b, KeysIn(a));
    forall i | 0 <= i < |b| ensures b[i].key !in KeysIn(a) { NotInFront(a, b, i); }
    ErasedNone(b, KeysIn(a));
    forall i | 0 <= i < |a| ensures a[i].key in KeysIn(a) { assert KeysIn(a)[i] == a[i].key; }
    ErasedEvery(a, KeysIn(a));
  }

  lemma NotInFront<K, V>(a: seq<Entry<K, V>>, b: seq<Entry<K, V>>, i: nat)
    requires Distinct(KeysIn(a + b)) && i < |b|
    ensures b[i].key !in KeysIn(a)
  {
    forall j | 0 <= j < |a| ensures KeysIn(a)[j] != b[i].key {
      assert KeysIn(a + b)[j] != KeysIn(a + b)[|a| + i];
    }
  }

  lemma {:induction false} ErasedEvery<K, V>(es: seq<Entry<K, V>>, ks: seq<K>)
    requires forall i :: 0 <= i < |es| ==> es[i].key in ks
    ensures ErasedAll(es, ks) == []
  {
    if es != [] { ErasedEvery(es[1..], ks); }
  }

  lemma CoherentTrimmed<K, V>(c: Cache<K, V>, limit: Option<nat>, maxAge: nat, now: int, now1: int)
    requires Coherent(c)
    ensures Coherent(Trimmed(c, limit, maxAge, now, now1))
  {
    hide Coherent, ErasedAll, Victims, Drops;
    if maxAge > 0 {
      var d := Drops(c.ages, limit, now);
      CoherentErased(c, KeysIn(c.ages[..d]));
      assert Distinct(KeysIn(c.ages)) by { AgesDistinct(c); }
      ErasedFront(c.ages, d);
    } else {
      CoherentErased(c, Victims(c.uses, Excess(|c.uses|, limit), now1));
    }
  }

  lemma AgesDistinct<K, V>(c: Cache<K, V>)
    requires Coherent(c)
    ensures Distinct(KeysIn(c.ages)) && Distinct(KeysIn(c.uses))
  {
  }

  lemma CoherentTouched<K, V>(c: Cache<K, V>, k: K)
    requires Coherent(c)
    ensures Coherent(Touched(c, k))
  {
    hide Coherent, Distinct, Seek, ErasedAll;
    SeekMeans(c.uses, k);
    if Seek(c.uses, k).Some? {
      var i :| 0 <= i < |c.uses| && c.uses[i] == Seek(c.uses, k).value;
      AgesDistinct(c);
      ErasedAt(c.uses, i);
      CoherentMoved(c, i);
    }
  }

  lemma CoherentMoved<K, V>(c: Cache<K, V>, i: nat)
    requires Coherent(c) && i < |c.uses|
    ensures Coherent(c.(uses := c.uses[..i] + c.uses[i + 1..] + [c.uses[i]]))
  {
    hide Distinct;
    var r := c.uses[..i] + c.uses[i + 1..] + [c.uses[i]];
    MovedDistinct(c.uses, i);
    MovedMembers(c.uses, i);
    forall j | 0 <= j < |r| ensures r[j] in c.ages { var m :| 0 <= m < |c.uses| && c.uses[m] == r[j]; }
    forall j | 0 <= j < |c.ages| ensures c.ages[j] in r { var m :| 0 <= m < |c.uses| && c.uses[m] == c.ages[j]; }
  }

  lemma MovedMembers<T>(s: seq<T>, i: nat)
    requires i < |s|
    ensures var r := s[..i] + s[i + 1..] + [s[i]];
            (forall j :: 0 <= j < |s| ==> s[j] in r) && forall j :: 0 <= j < |r| ==> r[j] in s
  {
    var r := s[..i] + s[i + 1..] + [s[i]];
    forall j | 0 <= j < |s| ensures s[j] in r {
      assert s[j] == r[if j < i then j else if j == i then |r| - 1 else j - 1];
    }
  }

  lemma MovedDistinct<K, V>(es: seq<Entry<K, V>>, i: nat)
    requires Distinct(KeysIn(es)) && i < |es|
    ensures Distinct(KeysIn(es[..i] + es[i + 1..] + [es[i]]))
  {
    var ks := KeysIn(es);
    var r := KeysIn(es[..i] + es[i + 1..] + [es[i]]);
    assert r == ks[..i] + ks[i + 1..] + [ks[i]];
  }

  lemma CoherentReplaced<K, V>(c: Cache<K, V>, e: Entry<K, V>)
    requires Coherent(c)
    ensures Coherent(Added(Removed(c, e.key), e))
  {
    hide Coherent, ErasedAll, Added;
    CoherentErased(c, [e.key]);
    NotIn(c.uses, e.key);
    CoherentAdded(Removed(c, e.key), e);
  }

  lemma CoherentApplied<K, V>(c: Cache<K, V>, limit: Option<nat>, maxAge: nat, op: Op<K, V>)
    requires Coherent(c)
    ensures Coherent(Applied(c, limit, maxAge, op))
  {
    hide Coherent, Erased, Added, Trimmed, Touched, Seek;
    match op
    case DoEmplace(k, v, t0, t1, t2, t3) =>
      CoherentTrimmed(c, limit, maxAge, t0, t1);
      var c' := Trimmed(c, limit, maxAge, t0, t1);
      CoherentTouched(c', k);
      CoherentReplaced(c', Entry(k, v, ExpiryAfter(maxAge, t3)));
    case DoFind(k, t0) =>
      CoherentTouched(c, k);
      CoherentRemoved(c, k);
    case DoRenew(k, _) => CoherentTouched(c, k);
    case DoRelink(k, _, t1) => CoherentRelinked(c, k, ExpiryAfter(maxAge, t1));
    case DoRelinkFor(k, timeout, t0) => CoherentRelinked(c, k, ExpiryAfter(if timeout == 0 then maxAge else timeout, t0));
    case DoErase(k, _) => CoherentRemoved(c, k);
    case DoTrim(t0, t1) => CoherentTrimmed(c, limit, maxAge, t0, t1);
    case DoClear => CoherentEmpty<K, V>();
  }

  lemma CoherentRemoved<K, V>(c: Cache<K, V>, k: K)
    requires Coherent(c)
    ensures Coherent(Removed(c, k))
  {
    CoherentErased(c, [k]);
  }

  lemma CoherentRelinked<K, V>(c: Cache<K, V>, k: K, expiry: Expiry)
    requires Coherent(c)
    ensures Coherent(Relinked(c, k, expiry))
  {
    hide Coherent, Erased, Added, Seek;
    SeekMeans(c.uses, k);
    if Seek(c.uses, k).Some? { CoherentReplaced(c, Seek(c.uses, k).value.(expiry := expiry)); }
  }

  lemma CoherentEmpty<K, V>()
    ensures Coherent<K, V>(Cache([], []))
  {
  }

  /** In every run the two orders hold the same entries, each key once. */
  lemma {:induction false} RunCoherent<K, V>(limit: Option<nat>, maxAge: nat, ops: seq<Op<K, V>>)
    ensures Coherent(RunModel(limit, maxAge, ops))
  {
    hide Coherent, Applied;
    if ops == [] {
      CoherentEmpty<K, V>();
    } else {
      RunCoherent(limit, maxAge, ops[..|ops| - 1]);
      CoherentApplied(RunModel(limit, maxAge, ops[..|ops| - 1]), limit, maxAge, ops[|ops| - 1]);
    }
  }
}
