/**
 * What the operations of the cache promise, on the cache as a value: what a trim leaves, what an
 * emplacement leaves alone, and what whole runs amount to without and with a maximum age.
 */
module LruRuns {
  import opened Sequences
  import opened Wrappers
  import opened LruKeys
  import opened LruModel

  predicate AllNever<K, V>(es: seq<Entry<K, V>>) {
    forall i :: 0 <= i < |es| ==> es[i].expiry == Never
  }

  predicate NoneExpired<K, V>(es: seq<Entry<K, V>>, now: int) {
    forall i :: 0 <= i < |es| ==> !Expired(es[i].expiry, now)
  }

  /** Every entry expires, no later than `bound`, and earlier entries no later. */
  predicate Sorted<K, V>(es: seq<Entry<K, V>>, bound: int) {
    && (forall i :: 0 <= i < |es| ==> es[i].expiry.At? && es[i].expiry.time <= bound)
    && Rising(es)
  }

  predicate Rising<K, V>(es: seq<Entry<K, V>>) {
    forall i, j :: 0 <= i < j < |es| ==> NoLater(es[i].expiry, es[j].expiry)
  }

  function LiveCount<K, V>(es: seq<Entry<K, V>>, now: int): (n: nat)
    ensures n <= |es|
  {
    if es == [] then 0 else (if Expired(es[0].expiry, now) then 0 else 1) + LiveCount(es[1..], now)
  }

  /** The operation gives every entry the same lifetime. */
  predicate Uniform<K, V>(op: Op<K, V>, maxAge: nat) {
    op.DoRelinkFor? ==> op.timeout == 0 || op.timeout == maxAge
  }

  // ----- what a trim leaves

  /**
   * Each entry dropped was, at its turn, over the limit or expired; the rest is within the limit and its
   * oldest entry has not expired.
   */
  lemma {:induction false} DropsEnough<K, V>(ages: seq<Entry<K, V>>, limit: Option<nat>, now: int)
    ensures var d := Drops(ages, limit, now);
            && (forall i :: 0 <= i < d ==> (limit.Some? && |ages| - i > limit.value) || Expired(ages[i].expiry, now))
            && (limit.Some? ==> |ages| - d <= limit.value)
            && (d < |ages| ==> !Expired(ages[d].expiry, now))
  {
    if ages != [] {
      var rest := ages[1..];
      DropsEnough(rest, limit, now);
      assert forall i :: 1 <= i < |ages| ==> ages[i] == rest[i - 1];
    }
  }

  lemma {:induction false} VictimsSize<K, V>(uses: seq<Entry<K, V>>, excess: int, now: int)
    ensures |Victims(uses, excess, now)| ==
            if excess <= 0 then 0 else if excess <= LiveCount(uses, now) then excess else LiveCount(uses, now)
  {
    if uses != [] && excess > 0 {
      VictimsSize(uses[1..], if Expired(uses[0].expiry, now) then excess else excess - 1, now);
    }
  }

  ghost predicate HoldsLive<K, V>(es: seq<Entry<K, V>>, k: K, now: int) {
    exists i :: 0 <= i < |es| && es[i].key == k && !Expired(es[i].expiry, now)
  }

  lemma HoldsLiveMore<K, V>(es: seq<Entry<K, V>>, k: K, now: int)
    requires es != [] && HoldsLive(es[1..], k, now) && Distinct(KeysIn(es))
    ensures HoldsLive(es, k, now) && k != es[0].key
  {
    OthersAfter(es);
    var i :| 0 <= i < |es| - 1 && es[1..][i].key == k && !Expired(es[1..][i].expiry, now);
    assert es[i + 1] == es[1..][i];
  }

  /** Every victim is the key of a live entry, each once. */
  lemma {:induction false} VictimsLive<K, V>(uses: seq<Entry<K, V>>, excess: int, now: int)
    requires Distinct(KeysIn(uses))
    ensures var ks := Victims(uses, excess, now);
            Distinct(ks) && forall j :: 0 <= j < |ks| ==> HoldsLive(uses, ks[j], now)
  {
    if uses != [] && excess > 0 {
      var rest, x := uses[1..], if Expired(uses[0].expiry, now) then excess else excess - 1;
      assert KeysIn(rest) == KeysIn(uses)[1..];
      VictimsLive(rest, x, now);
      var ks := Victims(rest, x, now);
      forall j | 0 <= j < |ks| ensures HoldsLive(uses, ks[j], now) && ks[j] != uses[0].key {
        HoldsLiveMore(uses, ks[j], now);
      }
    }
  }

  lemma {:induction false} ErasedSize<K, V>(es: seq<Entry<K, V>>, ks: seq<K>)
    requires Distinct(KeysIn(es)) && Distinct(ks) && forall j :: 0 <= j < |ks| ==> ks[j] in KeysIn(es)
    ensures |ErasedAll(es, ks)| + |ks| == |es|
  {
    hide Distinct;
    var r := ErasedAll(es, ks);
    ErasedDistinct(es, ks);
    ErasedMembers(es, ks);
    var a, b := KeysIn(r) + ks, KeysIn(es);
    assert Distinct(a) by { JoinDistinct(KeysIn(r), ks); }
    forall i | 0 <= i < |a| ensures a[i] in b {
      if i < |r| { KeyIn(es, r[i]); }
    }
    forall i | 0 <= i < |b| ensures b[i] in a {
      if b[i] in ks {
        var j :| 0 <= j < |ks| && ks[j] == b[i];
        assert a[|r| + j] == b[i];
      } else {
        KeyIn(r, es[i]);
        var j :| 0 <= j < |r| && KeysIn(r)[j] == b[i];
        assert a[j] == b[i];
      }
    }
    SameLength(a, b);
  }

  lemma JoinDistinct<T>(a: seq<T>, b: seq<T>)
    requires Distinct(a) && Distinct(b) && forall i :: 0 <= i < |a| ==> a[i] !in b
    ensures Distinct(a + b)
  {
  }

  /**
   * A trim leaves the cache within its limit exactly if entries have a maximum age or enough of them
   * are live; without a maximum age, expired entries are passed over and stay.
   */
  lemma TrimmedSize<K, V>(c: Cache<K, V>, limit: Option<nat>, maxAge: nat, now: int, now1: int)
    requires Coherent(c)
    ensures var n := |Trimmed(c, limit, maxAge, now, now1).uses|;
            && n <= |c.uses|
            && (limit.Some? ==>
                  (n <= limit.value <==> maxAge > 0 || LiveCount(c.uses, now1) >= |c.uses| - limit.value))
  {
    hide Coherent, Distinct, ErasedAll, Drops, Victims, LiveCount;
    CoherentTrimmed(c, limit, maxAge, now, now1);
    SameKeys(Trimmed(c, limit, maxAge, now, now1));
    SameKeys(c);
    if maxAge > 0 {
      DropsEnough(c.ages, limit, now);
    } else {
      var excess := Excess(|c.uses|, limit);
      AgesDistinct(c);
      VictimsSize(c.uses, excess, now1);
      VictimsHeld(c.uses, excess, now1);
      ErasedSize(c.uses, Victims(c.uses, excess, now1));
    }
  }

  lemma VictimsHeld<K, V>(uses: seq<Entry<K, V>>, excess: int, now: int)
    requires Distinct(KeysIn(uses))
    ensures var ks := Victims(uses, excess, now);
            Distinct(ks) && forall j :: 0 <= j < |ks| ==> ks[j] in KeysIn(uses)
  {
    hide Distinct, Victims;
    VictimsLive(uses, excess, now);
    var ks := Victims(uses, excess, now);
    forall j | 0 <= j < |ks| ensures ks[j] in KeysIn(uses) {
      var i :| 0 <= i < |uses| && uses[i].key == ks[j] && !Expired(uses[i].expiry, now);
      KeyIn(uses, uses[i]);
    }
  }

  /** If the oldest entry has not expired, none has: a trim by age leaves no expired entry. */
  lemma TrimmedAlive<K, V>(c: Cache<K, V>, limit: Option<nat>, maxAge: nat, now: int, now1: int, bound: int)
    requires maxAge > 0 && Sorted(c.ages, bound)
    ensures NoneExpired(Trimmed(c, limit, maxAge, now, now1).ages, now)
  {
    hide ErasedAll, Drops;
    DropsEnough(c.ages, limit, now);
    var d := Drops(c.ages, limit, now);
    forall i | d <= i < |c.ages| ensures !Expired(c.ages[i].expiry, now) {
      if i > d { assert NoLater(c.ages[d].expiry, c.ages[i].expiry); }
    }
  }

  lemma KeyOnce<K, V>(es: seq<Entry<K, V>>, i: nat, j: nat)
    requires Distinct(KeysIn(es)) && i < |es| && j < |es| && es[i].key == es[j].key
    ensures i == j
  {
    assert KeysIn(es)[i] == KeysIn(es)[j];
  }

  lemma ErasedSame<K, V>(es: seq<Entry<K, V>>, ks: seq<K>, d: nat)
    requires Distinct(KeysIn(es)) && d <= |es| && |ks| <= d
    requires forall i :: 0 <= i < d ==> es[i].key in ks
    ensures ErasedAll(es, ks) == es[d..]
  {
    hide Distinct;
    var front := KeysIn(es[..d]);
    assert Distinct(front) by { FrontDistinct(es, d); }
    Exhausts(front, ks);
    ErasedFront(es, d);
    ErasedSameKeys(es, ks, front);
  }

  lemma FrontDistinct<K, V>(es: seq<Entry<K, V>>, d: nat)
    requires Distinct(KeysIn(es)) && d <= |es|
    ensures Distinct(KeysIn(es[..d]))
  {
    assert KeysIn(es[..d]) == KeysIn(es)[..d];
  }

  lemma {:induction false} ErasedSameKeys<K, V>(es: seq<Entry<K, V>>, ks: seq<K>, ks': seq<K>)
    requires forall i :: 0 <= i < |ks| ==> ks[i] in ks'
    requires forall i :: 0 <= i < |ks'| ==> ks'[i] in ks
    ensures ErasedAll(es, ks) == ErasedAll(es, ks')
  {
    if es != [] { ErasedSameKeys(es[1..], ks, ks'); }
  }

  /**
   * With a maximum age, a trim keeps the most recently used entries exactly if the entries it drops, the
   * oldest ones, are the least recently used ones.
   */
  lemma TrimmedMostRecent<K, V>(c: Cache<K, V>, limit: Option<nat>, maxAge: nat, now: int, now1: int)
    requires Coherent(c) && maxAge > 0
    ensures var d := Drops(c.ages, limit, now);
            && d <= |c.uses|
            && (Trimmed(c, limit, maxAge, now, now1).uses == c.uses[d..]
                <==> forall i :: 0 <= i < d ==> c.ages[i] in c.uses[..d])
  {
    hide Distinct, ErasedAll, Drops;
    var d := Drops(c.ages, limit, now);
    var ks := KeysIn(c.ages[..d]);
    SameKeys(c);
    if ErasedAll(c.uses, ks) == c.uses[d..] {
      ErasedMembers(c.uses, ks);
      forall i | 0 <= i < d ensures c.ages[i] in c.uses[..d] {
        var j :| 0 <= j < |c.uses| && c.uses[j] == c.ages[i];
        assert ks[i] == c.uses[j].key;
        assert c.uses[..d][j] == c.ages[i];
      }
    }
    if forall i :: 0 <= i < d ==> c.ages[i] in c.uses[..d] {
      OldestAreLeast(c, d);
      ErasedSame(c.uses, ks, d);
    }
  }

  lemma OldestAreLeast<K, V>(c: Cache<K, V>, d: nat)
    requires Coherent(c) && d <= |c.ages| && d <= |c.uses| && forall i :: 0 <= i < d ==> c.ages[i] in c.uses[..d]
    ensures forall i :: 0 <= i < d ==> c.uses[i].key in KeysIn(c.ages[..d])
  {
    hide Distinct;
    var a, b := KeysIn(c.ages[..d]), KeysIn(c.uses[..d]);
    FrontDistinct(c.ages, d);
    forall i | 0 <= i < |a| ensures a[i] in b { KeyIn(c.uses[..d], c.ages[i]); }
    Exhausts(a, b);
    forall i | 0 <= i < d ensures c.uses[i].key in a { assert b[i] == c.uses[i].key; }
  }

  lemma {:induction false} VictimsFront<K, V>(uses: seq<Entry<K, V>>, x: nat, now: int)
    requires x <= |uses| && forall i :: 0 <= i < x ==> !Expired(uses[i].expiry, now)
    ensures Victims(uses, x, now) == KeysIn(uses[..x])
  {
    if x > 0 {
      VictimsFront(uses[1..], x - 1, now);
      assert KeysIn(uses[..x]) == [uses[0].key] + KeysIn(uses[1..][..x - 1]);
    } else {
      assert KeysIn(uses[..x]) == [];
    }
  }

  /**
   * Without a maximum age, a trim keeps the most recently used entries, as many as the limit admits,
   * exactly if none of the others has expired.
   */
  lemma TrimmedByUse<K, V>(c: Cache<K, V>, limit: Option<nat>, now: int, now1: int)
    requires Distinct(KeysIn(c.uses))
    ensures var x := if Excess(|c.uses|, limit) <= 0 then 0 else Excess(|c.uses|, limit);
            Trimmed(c, limit, 0, now, now1).uses == c.uses[x..]
            <==> forall i :: 0 <= i < x ==> !Expired(c.uses[i].expiry, now1)
  {
    hide Distinct, ErasedAll, Victims;
    var x := if Excess(|c.uses|, limit) <= 0 then 0 else Excess(|c.uses|, limit);
    var ks := Victims(c.uses, Excess(|c.uses|, limit), now1);
    VictimsNone(c.uses, Excess(|c.uses|, limit), now1);
    if forall i :: 0 <= i < x ==> !Expired(c.uses[i].expiry, now1) {
      VictimsFront(c.uses, x, now1);
      ErasedFront(c.uses, x);
    }
    if ErasedAll(c.uses, ks) == c.uses[x..] {
      forall i | 0 <= i < x ensures !Expired(c.uses[i].expiry, now1) {
        if Expired(c.uses[i].expiry, now1) {
          ExpiredStays(c.uses, Excess(|c.uses|, limit), now1, i);
          var j :| 0 <= j < |c.uses[x..]| && c.uses[x..][j] == c.uses[i];
          KeyOnce(c.uses, i, x + j);
        }
      }
    }
  }

  lemma VictimsNone<K, V>(uses: seq<Entry<K, V>>, excess: int, now: int)
    ensures excess <= 0 ==> Victims(uses, excess, now) == Victims(uses, 0, now)
  {
  }

  lemma ExpiredStays<K, V>(uses: seq<Entry<K, V>>, excess: int, now: int, i: nat)
    requires Distinct(KeysIn(uses)) && i < |uses| && Expired(uses[i].expiry, now)
    ensures uses[i] in ErasedAll(uses, Victims(uses, excess, now))
  {
    hide Distinct, ErasedAll, Victims;
    var ks := Victims(uses, excess, now);
    VictimsLive(uses, excess, now);
    if uses[i].key in ks {
      var j :| 0 <= j < |ks| && ks[j] == uses[i].key;
      var m :| 0 <= m < |uses| && uses[m].key == ks[j] && !Expired(uses[m].expiry, now);
      KeyOnce(uses, i, m);
    }
    ErasedMembers(uses, ks);
  }

  // ----- what an emplacement does, and what it leaves alone

  /**
   * Every other entry stays, with its place in both orders and its expiration. The key is in the last
   * place of the order of use: with its own value, expiration and place in the order of age if it was
   * held and live, and otherwise as a new entry.
   */
  lemma PlacedStays<K, V>(c: Cache<K, V>, maxAge: nat, k: K, v: V, t2: int, t3: int)
    ensures var c', e := Placed(c, maxAge, k, v, t2, t3), Entry(k, v, ExpiryAfter(maxAge, t3));
            && Erased(c'.uses, k) == Erased(c.uses, k) && Erased(c'.ages, k) == Erased(c.ages, k)
            && |c'.uses| <= |c.uses| + 1
            && (Missing(c, k, t2) ==> c'.uses == Erased(c.uses, k) + [e] && c'.ages == Erased(c.ages, k) + [e])
            && (!Missing(c, k, t2) ==> c'.uses == Erased(c.uses, k) + [Seek(c.uses, k).value] && c'.ages == c.ages)
  {
    hide ErasedAll, Seek;
    ErasedMembers(c.uses, [k]);
    SeekMeans(c.uses, k);
    if Missing(c, k, t2) {
      var e := Entry(k, v, ExpiryAfter(maxAge, t3));
      ErasedTwice(c.uses, e);
      ErasedTwice(c.ages, e);
    } else {
      ErasedTwice(c.uses, Seek(c.uses, k).value);
    }
  }

  lemma {:induction false} SeekLast<K, V>(es: seq<Entry<K, V>>, e: Entry<K, V>)
    requires forall i :: 0 <= i < |es| ==> es[i].key != e.key
    ensures Seek(es + [e], e.key) == Some(e)
  {
    if es == [] {
      assert es + [e] == [e];
    } else {
      assert (es + [e])[1..] == es[1..] + [e];
      SeekLast(es[1..], e);
    }
  }

  lemma SeekMoved<K, V>(es: seq<Entry<K, V>>, e: Entry<K, V>)
    ensures Seek(Erased(es, e.key) + [e], e.key) == Some(e)
  {
    hide Seek, ErasedAll;
    ErasedMembers(es, [e.key]);
    SeekLast(Erased(es, e.key), e);
  }

  /**
   * The life of an entry: created at `t3` it is found up to and including `t3 + maxAge` and not after, or
   * always if there is no maximum age; relinked, it lives up to its new time.
   */
  lemma Lifetime<K, V>(c: Cache<K, V>, maxAge: nat, k: K, v: V, t2: int, t3: int, until: int, now: int)
    ensures Missing(c, k, t2) ==>
              (Missing(Placed(c, maxAge, k, v, t2, t3), k, now) <==> maxAge > 0 && now > t3 + maxAge)
    ensures Seek(c.uses, k).Some? ==> (Missing(Relinked(c, k, At(until)), k, now) <==> now > until)
    ensures Missing(Touched(c, k), k, now) <==> Missing(c, k, now)
  {
    hide Seek, ErasedAll;
    SeekMoved(c.uses, Entry(k, v, ExpiryAfter(maxAge, t3)));
    SeekMeans(c.uses, k);
    if Seek(c.uses, k).Some? {
      SeekMoved(c.uses, Seek(c.uses, k).value);
      SeekMoved(c.uses, Seek(c.uses, k).value.(expiry := At(until)));
    }
  }

  lemma ErasedAlive<K, V>(es: seq<Entry<K, V>>, ks: seq<K>, now: int)
    requires NoneExpired(es, now)
    ensures NoneExpired(ErasedAll(es, ks), now)
  {
    ErasedMembers(es, ks);
    var r := ErasedAll(es, ks);
    forall i | 0 <= i < |r| ensures !Expired(r[i].expiry, now) {
      var j :| 0 <= j < |es| && es[j] == r[i];
    }
  }

  /** A new entry outlives the time at which the cache was trimmed. */
  lemma PlacedAlive<K, V>(c: Cache<K, V>, maxAge: nat, k: K, v: V, now: int, t2: int, t3: int)
    requires NoneExpired(c.ages, now) && now <= t3
    ensures NoneExpired(Placed(c, maxAge, k, v, t2, t3).ages, now)
  {
    hide ErasedAll, Seek;
    ErasedAlive(c.ages, [k], now);
  }

  // ----- runs without expiration

  lemma NeverErased<K, V>(es: seq<Entry<K, V>>, ks: seq<K>)
    requires AllNever(es)
    ensures AllNever(ErasedAll(es, ks))
  {
    ErasedMembers(es, ks);
    var r := ErasedAll(es, ks);
    forall i | 0 <= i < |r| ensures r[i].expiry == Never {
      var j :| 0 <= j < |es| && es[j] == r[i];
    }
  }

  /** Entries that never expire are all live, so a trim of them always meets the limit. */
  lemma {:induction false} NeverLive<K, V>(es: seq<Entry<K, V>>, now: int)
    requires AllNever(es)
    ensures LiveCount(es, now) == |es|
  {
    if es != [] { NeverLive(es[1..], now); }
  }

  lemma SeekNever<K, V>(es: seq<Entry<K, V>>, k: K)
    requires AllNever(es)
    ensures Seek(es, k).Some? ==> Seek(es, k).value.expiry == Never
  {
    SeekMeans(es, k);
    if Seek(es, k).Some? { var j :| 0 <= j < |es| && es[j] == Seek(es, k).value; }
  }

  /** The key goes to the last place. */
  lemma MovedKeys<K, V>(es: seq<Entry<K, V>>, e: Entry<K, V>)
    requires Distinct(KeysIn(es))
    ensures KeysIn(Erased(es, e.key) + [e]) == TouchKey(KeysIn(es), e.key)
    ensures AllNever(es) && e.expiry == Never ==> AllNever(Erased(es, e.key) + [e])
  {
    hide Without, ErasedAll, Distinct;
    ErasedKeys(es, e.key);
    if AllNever(es) { NeverErased(es, [e.key]); }
    assert KeysIn(Erased(es, e.key) + [e]) == KeysIn(Erased(es, e.key)) + [e.key];
  }

  lemma NeverTrimmed<K, V>(c: Cache<K, V>, limit: Option<nat>, now: int, now1: int)
    requires Distinct(KeysIn(c.uses)) && AllNever(c.uses)
    ensures var t := Trimmed(c, limit, 0, now, now1).uses;
            AllNever(t) && KeysIn(t) == TrimKeys(KeysIn(c.uses), limit) && Distinct(KeysIn(t))
  {
    hide ErasedAll, Victims;
    TrimmedByUse(c, limit, now, now1);
  }

  lemma NeverApplied<K, V>(c: Cache<K, V>, limit: Option<nat>, op: Op<K, V>)
    requires Distinct(KeysIn(c.uses)) && AllNever(c.uses) && Uniform(op, 0)
    ensures var c' := Applied(c, limit, 0, op);
            AllNever(c'.uses) && KeysIn(c'.uses) == ApplyKeys(KeysIn(c.uses), limit, op)
  {
    hide Distinct, ErasedAll, Seek, Trimmed, TouchKey, TrimKeys, AllNever, Without;
    match op
    case DoEmplace(k, v, t0, t1, t2, t3) =>
      NeverTrimmed(c, limit, t0, t1);
      NeverPlaced(Trimmed(c, limit, 0, t0, t1), k, v, t2, t3);
    case DoFind(k, t0) => NeverFound(c, k, t0);
    case DoRenew(k, _) => NeverTouched(c, k);
    case DoRelink(k, _, t1) => NeverRelinked(c, k);
    case DoRelinkFor(k, timeout, t0) => NeverRelinked(c, k);
    case DoErase(k, _) => ErasedKeys(c.uses, k); NeverErased(c.uses, [k]);
    case DoTrim(t0, t1) => NeverTrimmed(c, limit, t0, t1);
    case DoClear => NeverEmpty<K, V>();
  }

  lemma NeverEmpty<K, V>()
    ensures AllNever<K, V>([]) && KeysIn<K, V>([]) == []
  {
  }

  lemma NeverTouched<K, V>(c: Cache<K, V>, k: K)
    requires Distinct(KeysIn(c.uses)) && AllNever(c.uses)
    ensures AllNever(Touched(c, k).uses)
    ensures KeysIn(Touched(c, k).uses) == if k in KeysIn(c.uses) then TouchKey(KeysIn(c.uses), k) else KeysIn(c.uses)
  {
    hide Distinct, ErasedAll, Seek, TouchKey, AllNever;
    SeekMeans(c.uses, k);
    SeekNever(c.uses, k);
    if Seek(c.uses, k).Some? { MovedKeys(c.uses, Seek(c.uses, k).value); }
  }

  lemma NeverFound<K, V>(c: Cache<K, V>, k: K, now: int)
    requires Distinct(KeysIn(c.uses)) && AllNever(c.uses)
    ensures AllNever(Found(c, k, now).uses)
    ensures KeysIn(Found(c, k, now).uses) == if k in KeysIn(c.uses) then TouchKey(KeysIn(c.uses), k) else KeysIn(c.uses)
  {
    hide Distinct, ErasedAll, Seek, TouchKey, AllNever, Touched;
    SeekMeans(c.uses, k);
    SeekNever(c.uses, k);
    NeverTouched(c, k);
    NeverErased(c.uses, [k]);
    ErasedKeys(c.uses, k);
  }

  lemma NeverRelinked<K, V>(c: Cache<K, V>, k: K)
    requires Distinct(KeysIn(c.uses)) && AllNever(c.uses)
    ensures var r := Relinked(c, k, Never).uses;
            && AllNever(r)
            && KeysIn(r) == if k in KeysIn(c.uses) then TouchKey(KeysIn(c.uses), k) else KeysIn(c.uses)
  {
    hide Distinct, ErasedAll, Seek, TouchKey, AllNever;
    SeekMeans(c.uses, k);
    if Seek(c.uses, k).Some? { MovedKeys(c.uses, Seek(c.uses, k).value.(expiry := Never)); }
  }

  lemma NeverPlaced<K, V>(c: Cache<K, V>, k: K, v: V, t2: int, t3: int)
    requires Distinct(KeysIn(c.uses)) && AllNever(c.uses)
    ensures var r := Placed(c, 0, k, v, t2, t3).uses;
            AllNever(r) && KeysIn(r) == TouchKey(KeysIn(c.uses), k)
  {
    hide Distinct, ErasedAll, Seek, TouchKey, AllNever;
    SeekMeans(c.uses, k);
    SeekNever(c.uses, k);
    MovedKeys(c.uses, Entry(k, v, Never));
    if Seek(c.uses, k).Some? { MovedKeys(c.uses, Seek(c.uses, k).value); }
  }

  /** Without expiration the keys of a run, in order of use, are those of the reference run. */
  lemma {:induction false} RunNever<K, V>(limit: Option<nat>, ops: seq<Op<K, V>>)
    requires forall i :: 0 <= i < |ops| ==> Uniform(ops[i], 0)
    ensures AllNever(RunModel(limit, 0, ops).uses) && KeysIn(RunModel(limit, 0, ops).uses) == RunOps(limit, ops)
  {
    hide AllNever, Applied, ApplyKeys, Coherent, Distinct;
    if ops == [] {
      NeverEmpty<K, V>();
    } else {
      var before := ops[..|ops| - 1];
      RunNever(limit, before);
      RunCoherent(limit, 0, before);
      AgesDistinct(RunModel(limit, 0, before));
      NeverApplied(RunModel(limit, 0, before), limit, ops[|ops| - 1]);
    }
  }

  // ----- runs with a maximum age

  lemma {:induction false} SortedErased<K, V>(es: seq<Entry<K, V>>, ks: seq<K>, bound: int)
    requires Sorted(es, bound)
    ensures Sorted(ErasedAll(es, ks), bound)
  {
    hide Sorted, NoLater;
    if es == [] {
      assert ErasedAll(es, ks) == es;
    } else {
      var rest := es[1..];
      SortedTail(es, bound);
      SortedErased(rest, ks, bound);
      ErasedMembers(rest, ks);
      var r := ErasedAll(rest, ks);
      forall i | 0 <= i < |r| ensures NoLater(es[0].expiry, r[i].expiry) {
        var j :| 0 <= j < |rest| && rest[j] == r[i];
      }
      SortedHead(es[0], r, bound);
    }
  }

  lemma SortedHead<K, V>(e: Entry<K, V>, r: seq<Entry<K, V>>, bound: int)
    requires Sorted(r, bound) && e.expiry.At? && e.expiry.time <= bound
    requires forall i :: 0 <= i < |r| ==> NoLater(e.expiry, r[i].expiry)
    ensures Sorted([e] + r, bound) && Sorted([] + r, bound)
  {
    hide Rising, NoLater;
    assert [] + r == r;
    RisingHead(e, r);
  }

  lemma RisingHead<K, V>(e: Entry<K, V>, r: seq<Entry<K, V>>)
    requires Rising(r) && forall i :: 0 <= i < |r| ==> NoLater(e.expiry, r[i].expiry)
    ensures Rising([e] + r)
  {
    hide NoLater;
  }

  lemma SortedTail<K, V>(es: seq<Entry<K, V>>, bound: int)
    requires Sorted(es, bound) && es != []
    ensures Sorted(es[1..], bound) && es[0].expiry.At? && es[0].expiry.time <= bound
    ensures forall i :: 0 <= i < |es| - 1 ==> NoLater(es[0].expiry, es[1..][i].expiry)
  {
  }

  lemma SortedMoved<K, V>(es: seq<Entry<K, V>>, e: Entry<K, V>, bound: int, bound': int)
    requires Sorted(es, bound) && bound <= bound' && e.expiry == At(bound')
    ensures Sorted(Erased(es, e.key) + [e], bound')
  {
    SortedErased(es, [e.key], bound);
  }

  lemma SortedLater<K, V>(es: seq<Entry<K, V>>, bound: int, bound': int)
    requires Sorted(es, bound) && bound <= bound'
    ensures Sorted(es, bound')
  {
  }

  lemma SortedRemoved<K, V>(es: seq<Entry<K, V>>, k: K, bound: int, bound': int)
    requires Sorted(es, bound) && bound <= bound'
    ensures Sorted(Erased(es, k), bound')
  {
    hide Sorted;
    SortedErased(es, [k], bound);
    SortedLater(Erased(es, k), bound, bound');
  }

  lemma SortedTrimmed<K, V>(c: Cache<K, V>, limit: Option<nat>, maxAge: nat, now: int, now1: int, bound: int)
    requires Sorted(c.ages, bound) && maxAge > 0
    ensures Sorted(Trimmed(c, limit, maxAge, now, now1).ages, bound)
  {
  }

  lemma SortedPlaced<K, V>(c: Cache<K, V>, maxAge: nat, k: K, v: V, t2: int, t3: int, clock: int)
    requires maxAge > 0 && Sorted(c.ages, clock + maxAge) && clock <= t3
    ensures Sorted(Placed(c, maxAge, k, v, t2, t3).ages, t3 + maxAge)
  {
    hide Sorted, Seek, ErasedAll;
    SortedMoved(c.ages, Entry(k, v, At(t3 + maxAge)), clock + maxAge, t3 + maxAge);
    SortedLater(c.ages, clock + maxAge, t3 + maxAge);
  }

  lemma SortedRelinked<K, V>(c: Cache<K, V>, maxAge: nat, k: K, now: int, clock: int)
    requires maxAge > 0 && Sorted(c.ages, clock + maxAge) && clock <= now
    ensures Sorted(Relinked(c, k, At(now + maxAge)).ages, now + maxAge)
  {
    hide Sorted, Seek, ErasedAll;
    SeekMeans(c.uses, k);
    SortedLater(c.ages, clock + maxAge, now + maxAge);
    if Seek(c.uses, k).Some? {
      SortedMoved(c.ages, Seek(c.uses, k).value.(expiry := At(now + maxAge)), clock + maxAge, now + maxAge);
    }
  }

  lemma SortedEmpty<K, V>(bound: int)
    ensures Sorted<K, V>([], bound)
  {
  }

  lemma SortedApplied<K, V>(c: Cache<K, V>, limit: Option<nat>, maxAge: nat, op: Op<K, V>, clock: int)
    requires maxAge > 0 && Sorted(c.ages, clock + maxAge) && Timely(op, clock) && Uniform(op, maxAge)
    ensures Sorted(Applied(c, limit, maxAge, op).ages, ClockAfter(op, clock) + maxAge)
  {
    hide Sorted, Erased, Seek, Trimmed, Placed, Relinked;
    match op
    case DoEmplace(k, v, t0, t1, t2, t3) =>
      SortedTrimmed(c, limit, maxAge, t0, t1, clock + maxAge);
      SortedPlaced(Trimmed(c, limit, maxAge, t0, t1), maxAge, k, v, t2, t3, clock);
    case DoFind(k, t0) =>
      SortedLater(c.ages, clock + maxAge, t0 + maxAge);
      SortedRemoved(c.ages, k, clock + maxAge, t0 + maxAge);
    case DoRenew(k, t0) => SortedLater(c.ages, clock + maxAge, t0 + maxAge);
    case DoRelink(k, _, t1) => SortedRelinked(c, maxAge, k, t1, clock);
    case DoRelinkFor(k, timeout, t0) => SortedRelinked(c, maxAge, k, t0, clock);
    case DoErase(k, t0) => SortedRemoved(c.ages, k, clock + maxAge, t0 + maxAge);
    case DoTrim(t0, t1) =>
      SortedLater(c.ages, clock + maxAge, t1 + maxAge);
      SortedTrimmed(c, limit, maxAge, t0, t1, t1 + maxAge);
    case DoClear => SortedEmpty<K, V>(clock + maxAge);
  }

  /** With a maximum age the order of age stays the order of expiration. */
  lemma {:induction false} RunSorted<K, V>(limit: Option<nat>, maxAge: nat, ops: seq<Op<K, V>>, start: int)
    requires maxAge > 0 && Steady(ops, start) && forall i :: 0 <= i < |ops| ==> Uniform(ops[i], maxAge)
    ensures Sorted(RunModel(limit, maxAge, ops).ages, RunClock(ops, start) + maxAge)
  {
    hide Sorted, Applied, Timely, ClockAfter;
    if ops == [] {
      SortedEmpty<K, V>(start + maxAge);
    } else {
      var before := ops[..|ops| - 1];
      RunSorted(limit, maxAge, before, start);
      SortedApplied(RunModel(limit, maxAge, before), limit, maxAge, ops[|ops| - 1], RunClock(before, start));
    }
  }

  // ----- two runs in which the trim does less than it might

  lemma RunMore<K, V>(limit: Option<nat>, maxAge: nat, ops: seq<Op<K, V>>, op: Op<K, V>, start: int)
    ensures RunModel(limit, maxAge, ops + [op]) == Applied(RunModel(limit, maxAge, ops), limit, maxAge, op)
    ensures RunClock(ops + [op], start) == ClockAfter(op, RunClock(ops, start))
    ensures Steady(ops, start) && Timely(op, RunClock(ops, start)) ==> Steady(ops + [op], start)
  {
    assert (ops + [op])[..|ops|] == ops;
  }

  lemma EmplaceInto<K, V>(uses: seq<Entry<K, V>>, limit: Option<nat>, maxAge: nat, k: K, v: V, t: int)
    requires |uses| <= 1 && limit == Some(1) && forall i :: 0 <= i < |uses| ==> uses[i].key != k && !Expired(uses[i].expiry, t)
    ensures var es := uses + [Entry(k, v, ExpiryAfter(maxAge, t))];
            Applied(Cache(uses, uses), limit, maxAge, DoEmplace(k, v, t, t, t, t)) == Cache(es, es)
  {
    assert uses[0..] == uses && KeysIn(uses[..0]) == [];
    ErasedNone(uses, []);
    assert Drops(uses, limit, t) == 0 && Victims(uses, Excess(|uses|, limit), t) == [];
    assert Trimmed(Cache(uses, uses), limit, maxAge, t, t) == Cache(uses, uses);
    ErasedNone(uses, [k]);
    SeekMeans(uses, k);
  }

  lemma RelinkLast<K, V>(front: seq<Entry<K, V>>, e: Entry<K, V>, expiry: Expiry)
    requires |front| <= 1 && forall i :: 0 <= i < |front| ==> front[i].key != e.key
    ensures var es, es' := front + [e], front + [e.(expiry := expiry)];
            Relinked(Cache(es, es), e.key, expiry) == Cache(es', es')
  {
    var es := front + [e];
    assert es[1..] == if front == [] then [] else [e];
    ErasedConcat(front, [e], [e.key]);
    ErasedNone(front, [e.key]);
    assert Erased([e], e.key) == [] && front + [] == front;
    assert Seek(es, e.key) == Some(e) by { SeekAt(es, |front|); }
  }

  /** Two entries relinked for a short time: once both have expired, a trim passes them over. */
  lemma StaysOverLimit()
    ensures var ops: seq<Op<int, int>> :=
              [DoEmplace(1, 0, 0, 0, 0, 0)] + [DoRelinkFor(1, 5, 0)] + [DoEmplace(2, 0, 0, 0, 0, 0)] + [DoRelinkFor(2, 5, 0)];
            && Steady(ops + [DoTrim(10, 10)], 0)
            && RunModel(Some(1), 0, ops + [DoTrim(10, 10)]).uses == [Entry(1, 0, At(5)), Entry(2, 0, At(5))]
  {
    hide RunModel, Steady, RunClock, Relinked, Placed, Trimmed;
    var limit: Option<nat> := Some(1);
    var none: seq<Op<int, int>> := [];
    var one := [DoEmplace(1, 0, 0, 0, 0, 0)];
    var two := one + [DoRelinkFor(1, 5, 0)];
    var three := two + [DoEmplace(2, 0, 0, 0, 0, 0)];
    var four := three + [DoRelinkFor(2, 5, 0)];
    assert none + one == one;
    RunNothing<int, int>(limit, 0, 0);
    RunMore(limit, 0, none, DoEmplace(1, 0, 0, 0, 0, 0), 0);
    EmplaceInto<int, int>([], limit, 0, 1, 0, 0);
    RunMore(limit, 0, one, DoRelinkFor(1, 5, 0), 0);
    RelinkLast([], Entry(1, 0, Never), At(5));
    assert [] + [Entry(1, 0, Never)] == [Entry(1, 0, Never)];
    assert [] + [Entry(1, 0, At(5))] == [Entry(1, 0, At(5))];
    RunMore(limit, 0, two, DoEmplace(2, 0, 0, 0, 0, 0), 0);
    EmplaceInto([Entry(1, 0, At(5))], limit, 0, 2, 0, 0);
    RunMore(limit, 0, three, DoRelinkFor(2, 5, 0), 0);
    RelinkLast([Entry(1, 0, At(5))], Entry(2, 0, Never), At(5));
    RunMore(limit, 0, four, DoTrim(10, 10), 0);
    BothExpired([Entry(1, 0, At(5))] + [Entry(2, 0, At(5))], limit, 10);
  }

  lemma RunNothing<K, V>(limit: Option<nat>, maxAge: nat, start: int)
    ensures RunModel<K, V>(limit, maxAge, []) == Cache([], []) && RunClock<K, V>([], start) == start && Steady<K, V>([], start)
  {
  }

  lemma BothExpired<K, V>(es: seq<Entry<K, V>>, limit: Option<nat>, now: int)
    requires forall i :: 0 <= i < |es| ==> Expired(es[i].expiry, now)
    ensures Trimmed(Cache(es, es), limit, 0, now, now) == Cache(es, es)
  {
    NoVictims(es, Excess(|es|, limit), now);
    ErasedNone(es, []);
  }

  lemma {:induction false} NoVictims<K, V>(es: seq<Entry<K, V>>, excess: int, now: int)
    requires forall i :: 0 <= i < |es| ==> Expired(es[i].expiry, now)
    ensures Victims(es, excess, now) == []
  {
    if es != [] { NoVictims(es[1..], excess, now); }
  }

  /** The older entry is the one used last: the trim drops it and keeps the one not used since. */
  lemma DropsMostRecent()
    ensures var ops: seq<Op<int, int>> := [DoEmplace(1, 0, 0, 0, 0, 0)] + [DoEmplace(2, 0, 1, 1, 1, 1)] + [DoFind(1, 2)];
            && Steady(ops + [DoTrim(3, 3)], 0)
            && KeysIn(RunModel(Some(1), 10, ops).uses) == [2, 1]
            && KeysIn(RunModel(Some(1), 10, ops + [DoTrim(3, 3)]).uses) == [2]
  {
    hide RunModel, Steady, RunClock, Placed, Found, Trimmed;
    var limit: Option<nat> := Some(1);
    var none: seq<Op<int, int>> := [];
    var one := [DoEmplace(1, 0, 0, 0, 0, 0)];
    var two := one + [DoEmplace(2, 0, 1, 1, 1, 1)];
    var three := two + [DoFind(1, 2)];
    assert none + one == one;
    var a, b := Entry(1, 0, At(10)), Entry(2, 0, At(11));
    RunNothing<int, int>(limit, 10, 0);
    RunMore(limit, 10, none, DoEmplace(1, 0, 0, 0, 0, 0), 0);
    EmplaceInto<int, int>([], limit, 10, 1, 0, 0);
    assert [] + [a] == [a];
    RunMore(limit, 10, one, DoEmplace(2, 0, 1, 1, 1, 1), 0);
    EmplaceInto([a], limit, 10, 2, 0, 1);
    RunMore(limit, 10, two, DoFind(1, 2), 0);
    FindFirst(a, b, 2);
    RunMore(limit, 10, three, DoTrim(3, 3), 0);
    TrimFirst(a, b, 10, 3);
  }

  lemma FindFirst<K, V>(a: Entry<K, V>, b: Entry<K, V>, now: int)
    requires a.key != b.key && !Expired(a.expiry, now)
    ensures Found(Cache([a] + [b], [a] + [b]), a.key, now) == Cache([b] + [a], [a] + [b])
  {
    ErasedConcat([a], [b], [a.key]);
  }

  lemma TrimFirst<K, V>(a: Entry<K, V>, b: Entry<K, V>, maxAge: nat, now: int)
    requires a.key != b.key && !Expired(b.expiry, now) && maxAge > 0
    ensures Trimmed(Cache([b] + [a], [a] + [b]), Some(1), maxAge, now, now) == Cache([b], [b])
  {
    ErasedConcat([b], [a], [a.key]);
    assert Drops([a] + [b], Some(1), now) == 1 && ([a] + [b])[..1] == [a];
    assert KeysIn([a]) == [a.key];
  }
}
