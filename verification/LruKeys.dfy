/**
 * What a cache without expiration does to the sequence of its keys, least recently used first, and
 * what that amounts to over whole runs.
 */
module LruKeys {
  import opened Sequences
  import opened Wrappers

  function Without<K(==)>(ks: seq<K>, k: K): (r: seq<K>)
    ensures k !in ks ==> r == ks
  {
    if ks == [] then [] else if ks[0] == k then ks[1..] else [ks[0]] + Without(ks[1..], k)
  }

  /** The default trim: the least recently used go until the limit is met. */
  function TrimKeys<K>(ks: seq<K>, limit: Option<nat>): seq<K> {
    if limit.Some? && |ks| > limit.value then ks[|ks| - limit.value..] else ks
  }

  function TouchKey<K(==)>(ks: seq<K>, k: K): seq<K> {
    Without(ks, k) + [k]
  }

  /** `emplace`: trimming precedes insertion; a key that is still there becomes the most recent. */
  function EmplaceKeys<K(==)>(ks: seq<K>, limit: Option<nat>, k: K): seq<K> {
    TouchKey(TrimKeys(ks, limit), k)
  }

  function RunKeys<K(==)>(limit: Option<nat>, trace: seq<K>): seq<K> {
    if trace == [] then [] else EmplaceKeys(RunKeys(limit, trace[..|trace| - 1]), limit, trace[|trace| - 1])
  }

  /** The operations of a cache, each with the clock readings it takes, in order. */
  datatype Op<K, V> =
    | DoEmplace(k: K, v: V, t0: int, t1: int, t2: int, t3: int)
    | DoFind(k: K, t0: int)
    | DoRenew(k: K, t0: int)
    | DoRelink(k: K, t0: int, t1: int)
    | DoRelinkFor(k: K, timeout: nat, t0: int)  // a timeout of its own, or 0 for the usual one
    | DoErase(k: K, t0: int)
    | DoTrim(t0: int, t1: int)
    | DoClear

  /** The readings of an operation that begins at `clock` do not go back. */
  predicate Timely<K, V>(op: Op<K, V>, clock: int) {
    match op
    case DoEmplace(_, _, t0, t1, t2, t3) => clock <= t0 <= t1 <= t2 <= t3
    case DoFind(_, t0) => clock <= t0
    case DoRenew(_, t0) => clock <= t0
    case DoRelink(_, t0, t1) => clock <= t0 <= t1
    case DoRelinkFor(_, _, t0) => clock <= t0
    case DoErase(_, t0) => clock <= t0
    case DoTrim(t0, t1) => clock <= t0 <= t1
    case DoClear => true
  }

  /** The last reading. */
  function ClockAfter<K, V>(op: Op<K, V>, clock: int): int {
    match op
    case DoEmplace(_, _, _, _, _, t3) => t3
    case DoFind(_, t0) => t0
    case DoRenew(_, t0) => t0
    case DoRelink(_, _, t1) => t1
    case DoRelinkFor(_, _, t0) => t0
    case DoErase(_, t0) => t0
    case DoTrim(_, t1) => t1
    case DoClear => clock
  }

  function RunClock<K, V>(ops: seq<Op<K, V>>, clock: int): int {
    if ops == [] then clock else ClockAfter(ops[|ops| - 1], RunClock(ops[..|ops| - 1], clock))
  }

  ghost predicate Steady<K, V>(ops: seq<Op<K, V>>, clock: int) {
    ops != [] ==>
      Steady(ops[..|ops| - 1], clock) && Timely(ops[|ops| - 1], RunClock(ops[..|ops| - 1], clock))
  }

  function ApplyKeys<K(==), V>(ks: seq<K>, limit: Option<nat>, op: Op<K, V>): seq<K> {
    match op
    case DoEmplace(k, _, _, _, _, _) => EmplaceKeys(ks, limit, k)
    case DoFind(k, _) => if k in ks then TouchKey(ks, k) else ks
    case DoRenew(k, _) => if k in ks then TouchKey(ks, k) else ks
    case DoRelink(k, _, _) => if k in ks then TouchKey(ks, k) else ks
    case DoRelinkFor(k, _, _) => if k in ks then TouchKey(ks, k) else ks
    case DoErase(k, _) => Without(ks, k)
    case DoTrim(_, _) => TrimKeys(ks, limit)
    case DoClear => []
  }

  function RunOps<K(==), V>(limit: Option<nat>, ops: seq<Op<K, V>>): seq<K> {
    if ops == [] then [] else ApplyKeys(RunOps(limit, ops[..|ops| - 1]), limit, ops[|ops| - 1])
  }

  /** All keys ever used, in order of last use. */
  function Recent<K(==)>(trace: seq<K>): seq<K> {
    if trace == [] then [] else TouchKey(Recent(trace[..|trace| - 1]), trace[|trace| - 1])
  }

  // ----- removing a key

  lemma {:induction false} WithoutAt<K>(ks: seq<K>, i: nat)
    requires i < |ks| && Distinct(ks)
    ensures Without(ks, ks[i]) == ks[..i] + ks[i + 1..]
  {
    if i > 0 {
      WithoutAt(ks[1..], i - 1);
      assert ks[1..][..i - 1] == ks[1..i] && ks[1..][i..] == ks[i + 1..];
    }
  }

  lemma {:induction false} WithoutRight<K>(a: seq<K>, b: seq<K>, k: K)
    requires k !in a
    ensures Without(a + b, k) == a + Without(b, k)
  {
    if a == [] {
      assert a + b == b;
    } else {
      assert (a + b)[1..] == a[1..] + b;
      WithoutRight(a[1..], b, k);
    }
  }

  lemma {:induction false} WithoutLeft<K>(a: seq<K>, b: seq<K>, k: K)
    requires k in a
    ensures Without(a + b, k) == Without(a, k) + b && |Without(a, k)| == |a| - 1
  {
    assert (a + b)[1..] == a[1..] + b;
    if a[0] != k { WithoutLeft(a[1..], b, k); }
  }

  lemma WithoutMembers<K>(ks: seq<K>, k: K)
    requires Distinct(ks)
    ensures Distinct(Without(ks, k)) && k !in Without(ks, k)
    ensures forall x | x in Without(ks, k) :: x in ks
    ensures forall x | x in ks && x != k :: x in Without(ks, k)
  {
    if k in ks {
      var i :| 0 <= i < |ks| && ks[i] == k;
      WithoutAt(ks, i);
      forall x | x in ks && x != k
        ensures x in ks[..i] + ks[i + 1..]
      {
        var j :| 0 <= j < |ks| && ks[j] == x;
        assert x == (ks[..i] + ks[i + 1..])[if j < i then j else j - 1];
      }
    }
  }

  lemma TouchDistinct<K>(ks: seq<K>, k: K)
    requires Distinct(ks)
    ensures Distinct(TouchKey(ks, k))
  {
    WithoutMembers(ks, k);
  }

  lemma {:induction false} RecentDistinct<K>(trace: seq<K>)
    ensures Distinct(Recent(trace))
  {
    if trace != [] {
      RecentDistinct(trace[..|trace| - 1]);
      TouchDistinct(Recent(trace[..|trace| - 1]), trace[|trace| - 1]);
    }
  }

  // ----- the meaning of the order

  function LastUse<K(==)>(trace: seq<K>, k: K): (i: nat)
    requires k in trace
    ensures i < |trace| && trace[i] == k && k !in trace[i + 1..]
  {
    if trace[|trace| - 1] == k then |trace| - 1
    else
      assert trace == trace[..|trace| - 1] + [trace[|trace| - 1]];
      var i := LastUse(trace[..|trace| - 1], k);
      assert trace[i + 1..] == trace[..|trace| - 1][i + 1..] + [trace[|trace| - 1]];
      i
  }

  ghost predicate ByLastUse<K>(s: seq<K>, trace: seq<K>) {
    && (forall i :: 0 <= i < |s| ==> s[i] in trace)
    && (forall k | k in trace :: k in s)
    && (forall i, j :: 0 <= i < j < |s| ==> LastUse(trace, s[i]) < LastUse(trace, s[j]))
  }

  /** `Recent` is what it says: exactly the keys of the trace, ordered by where they were last used. */
  lemma {:induction false} RecentMeans<K>(trace: seq<K>)
    ensures ByLastUse(Recent(trace), trace)
  {
    if trace != [] {
      var before, k := trace[..|trace| - 1], trace[|trace| - 1];
      RecentMeans(before);
      RecentDistinct(before);
      WithoutMembers(Recent(before), k);
      TouchOrder(Recent(before), before, k);
      assert trace == before + [k];
    }
  }

  lemma WithoutOrder<K>(s: seq<K>, k: K, i: nat, j: nat)
    requires Distinct(s) && i < j < |Without(s, k)|
    ensures exists i', j' :: 0 <= i' < j' < |s| && s[i'] == Without(s, k)[i] && s[j'] == Without(s, k)[j]
  {
    if k in s {
      var at :| 0 <= at < |s| && s[at] == k;
      WithoutAt(s, at);
      var i', j' := if i < at then i else i + 1, if j < at then j else j + 1;
      assert s[i'] == Without(s, k)[i] && s[j'] == Without(s, k)[j];
    } else {
      assert s[i] == Without(s, k)[i] && s[j] == Without(s, k)[j];
    }
  }

  lemma TouchOrder<K>(s: seq<K>, before: seq<K>, k: K)
    requires ByLastUse(s, before) && Distinct(s)
    ensures ByLastUse(TouchKey(s, k), before + [k])
  {
    WithoutMembers(s, k);
    var w, t, trace := Without(s, k), TouchKey(s, k), before + [k];
    assert trace[..|trace| - 1] == before;
    forall i | 0 <= i < |t|
      ensures t[i] in trace
    {
      if i < |w| { assert w[i] in s; }
    }
    forall x | x in trace
      ensures x in t
    {
      if x != k { assert x in before && x in w; }
    }
    forall i, j | 0 <= i < j < |t|
      ensures LastUse(trace, t[i]) < LastUse(trace, t[j])
    {
      assert t[i] == w[i] && w[i] != k;
      assert w[i] in before;
      assert LastUse(trace, t[i]) == LastUse(before, t[i]);
      if j < |w| {
        assert w[j] != k && w[j] in before;
        WithoutOrder(s, k, i, j);
      }
    }
  }

  // ----- what a limited cache holds

  /** `s` is the end of `d`, at least the last `m` of it, and at most one more. */
  ghost predicate EndOf<K>(s: seq<K>, d: seq<K>, m: nat) {
    && |s| <= |d| && s == d[|d| - |s|..]
    && |s| <= m + 1
    && (|s| >= m || s == d)
  }

  lemma EndOfIntro<K>(p: seq<K>, s: seq<K>, m: nat)
    requires |s| <= m + 1 && (|s| >= m || p == [])
    ensures EndOf(s, p + s, m)
  {
    assert (p + s)[|p|..] == s;
  }

  lemma TouchSize<K>(t: seq<K>, k: K)
    ensures |TouchKey(t, k)| == if k in t then |t| else |t| + 1
  {
    if k in t { WithoutLeft(t, [], k); }
  }

  lemma TrimEndOf<K>(s: seq<K>, d: seq<K>, m: nat) returns (front: seq<K>)
    requires EndOf(s, d, m)
    ensures var t := TrimKeys(s, Some(m));
            d == front + t && |t| <= m && (|t| == m || front == [])
  {
    var t := TrimKeys(s, Some(m));
    front := d[..|d| - |t|];
    assert t == d[|d| - |t|..];
  }

  lemma DistinctParts<K>(a: seq<K>, b: seq<K>, k: K)
    requires Distinct(a + b) && k in a
    ensures k !in b
  {
    var i :| 0 <= i < |a| && a[i] == k;
    assert (a + b)[i] == k;
    forall j | 0 <= j < |b|
      ensures b[j] != k
    {
      assert (a + b)[|a| + j] == b[j];
    }
  }

  lemma EmplaceEndOf<K>(s: seq<K>, d: seq<K>, m: nat, k: K)
    requires Distinct(d) && EndOf(s, d, m)
    ensures EndOf(EmplaceKeys(s, Some(m), k), TouchKey(d, k), m)
  {
    hide Without, EndOf, Distinct, TrimKeys;
    var t := TrimKeys(s, Some(m));
    var front := TrimEndOf(s, d, m);
    TouchSize(t, k);
    var s' := TouchKey(t, k);
    if k in front {
      DistinctParts(front, t, k);
      WithoutLeft(front, t, k);
      assert TouchKey(d, k) == Without(front, k) + s';
      EndOfIntro(Without(front, k), s', m);
    } else {
      WithoutRight(front, t, k);
      assert TouchKey(d, k) == front + s';
      EndOfIntro(front, s', m);
    }
  }

  /**
   * After any run of emplacements a cache of limit `m` holds the keys used most recently: all of the
   * last `m` distinct ones, and at most one more.
   */
  lemma {:induction false} CacheHoldsMostRecent<K>(trace: seq<K>, m: nat)
    ensures EndOf(RunKeys(Some(m), trace), Recent(trace), m)
  {
    if trace != [] {
      var before, k := trace[..|trace| - 1], trace[|trace| - 1];
      CacheHoldsMostRecent(before, m);
      RecentDistinct(before);
      EmplaceEndOf(RunKeys(Some(m), before), Recent(before), m, k);
    }
  }

  /** On a run of emplacements alone the two readings of a run agree. */
  lemma {:induction false} EmplaceOps<K, V>(limit: Option<nat>, ops: seq<Op<K, V>>)
    requires forall i :: 0 <= i < |ops| ==> ops[i].DoEmplace?
    ensures RunOps(limit, ops) == RunKeys(limit, seq(|ops|, i requires 0 <= i < |ops| => ops[i].k))
  {
    hide EmplaceKeys;
    if ops != [] {
      var ops' := ops[..|ops| - 1];
      EmplaceOps(limit, ops');
      var ks := seq(|ops|, i requires 0 <= i < |ops| => ops[i].k);
      var ks' := seq(|ops'|, i requires 0 <= i < |ops'| => ops'[i].k);
      assert ks[..|ks| - 1] == ks';
    }
  }

  // ----- runs of all operations

  /** A key is used when it is emplaced, or looked up while it is among the keys `ks`. */
  function NextUses<K(==), V>(ks: seq<K>, uses: seq<K>, op: Op<K, V>): seq<K> {
    match op
    case DoEmplace(k, _, _, _, _, _) => uses + [k]
    case DoFind(k, _) => if k in ks then uses + [k] else uses
    case DoRenew(k, _) => if k in ks then uses + [k] else uses
    case DoRelink(k, _, _) => if k in ks then uses + [k] else uses
    case DoRelinkFor(k, _, _) => if k in ks then uses + [k] else uses
    case _ => uses
  }

  function Uses<K(==), V>(limit: Option<nat>, ops: seq<Op<K, V>>): seq<K> {
    if ops == [] then [] else
      var before := ops[..|ops| - 1];
      NextUses(RunOps(limit, before), Uses(limit, before), ops[|ops| - 1])
  }

  lemma FindEndOf<K>(s: seq<K>, d: seq<K>, m: nat, k: K)
    requires Distinct(d) && EndOf(s, d, m) && k in s
    ensures EndOf(TouchKey(s, k), TouchKey(d, k), m)
  {
    hide Without, Distinct;
    var front := d[..|d| - |s|];
    assert d == front + s;
    if k in front { DistinctParts(front, s, k); }
    WithoutRight(front, s, k);
    TouchSize(s, k);
    assert TouchKey(d, k) == front + TouchKey(s, k);
    EndOfIntro(front, TouchKey(s, k), m);
  }

  lemma RecentSnoc<K>(trace: seq<K>, k: K)
    ensures Recent(trace + [k]) == TouchKey(Recent(trace), k)
  {
    assert (trace + [k])[..|trace|] == trace;
  }

  lemma TrimStaysEndOf<K>(s: seq<K>, d: seq<K>, m: nat)
    requires EndOf(s, d, m)
    ensures EndOf(TrimKeys(s, Some(m)), d, m)
  {
    var front := TrimEndOf(s, d, m);
    EndOfIntro(front, TrimKeys(s, Some(m)), m);
  }

  /**
   * After any run of emplacements, lookups, renewals, relinks and trims a cache of limit `m` holds the
   * keys used most recently: all of the last `m` distinct ones, and at most one more.
   */
  lemma {:induction false} RunHoldsMostRecent<K, V>(ops: seq<Op<K, V>>, m: nat)
    requires forall i :: 0 <= i < |ops| ==> !ops[i].DoErase? && !ops[i].DoClear?
    ensures EndOf(RunOps(Some(m), ops), Recent(Uses(Some(m), ops)), m)
  {
    hide EndOf, ApplyKeys, NextUses, Recent;
    if ops == [] {
      NoneUsed<K>(m);
    } else {
      var before, op := ops[..|ops| - 1], ops[|ops| - 1];
      RunHoldsMostRecent(before, m);
      UseStep(RunOps(Some(m), before), Uses(Some(m), before), op, m);
    }
  }

  lemma NoneUsed<K>(m: nat)
    ensures EndOf<K>([], Recent([]), m)
  {
  }

  lemma UseStep<K, V>(s: seq<K>, uses: seq<K>, op: Op<K, V>, m: nat)
    requires EndOf(s, Recent(uses), m) && !op.DoErase? && !op.DoClear?
    ensures EndOf(ApplyKeys(s, Some(m), op), Recent(NextUses(s, uses, op)), m)
  {
    hide EndOf, TouchKey, EmplaceKeys, TrimKeys, Recent;
    RecentDistinct(uses);
    if op.DoTrim? {
      TrimStaysEndOf(s, Recent(uses), m);
    } else {
      RecentSnoc(uses, op.k);
      if op.DoEmplace? {
        EmplaceEndOf(s, Recent(uses), m, op.k);
      } else if op.k in s {
        FindEndOf(s, Recent(uses), m, op.k);
      }
    }
  }

  // ----- a smaller cache inside a larger one

  /** `s` is what is left of `l` when some of its elements are taken out. */
  ghost predicate Within<K>(s: seq<K>, l: seq<K>) {
    if s == [] then true
    else if l == [] then false
    else if s[|s| - 1] == l[|l| - 1] then Within(s[..|s| - 1], l[..|l| - 1])
    else Within(s, l[..|l| - 1])
  }

  lemma {:induction false} WithinSize<K>(s: seq<K>, l: seq<K>)
    requires Within(s, l)
    ensures |s| <= |l| && forall i :: 0 <= i < |s| ==> s[i] in l
  {
    if s != [] {
      if s[|s| - 1] == l[|l| - 1] { WithinSize(s[..|s| - 1], l[..|l| - 1]); } else { WithinSize(s, l[..|l| - 1]); }
    }
  }

  lemma {:induction false} WithinMore<K>(s: seq<K>, l: seq<K>, k: K)
    requires Within(s, l) && k !in s
    ensures Within(s, l + [k])
  {
    assert (l + [k])[..|l|] == l;
  }

  lemma WithinBoth<K>(s: seq<K>, l: seq<K>, k: K)
    requires Within(s, l)
    ensures Within(s + [k], l + [k])
  {
    assert (l + [k])[..|l|] == l && (s + [k])[..|s|] == s;
  }

  /** The last `a` of `s` are within the last `b` of `l` if `l` has no more to spare than `b - a`. */
  lemma {:induction false} WithinEnds<K>(s: seq<K>, l: seq<K>, a: nat, b: nat)
    requires Within(s, l) && a <= |s| && b <= |l| && b - a >= |l| - |s|
    ensures Within(s[|s| - a..], l[|l| - b..])
    decreases |l|
  {
    WithinSize(s, l);
    var e, f := s[|s| - a..], l[|l| - b..];
    if a > 0 {
      var s', l' := s[..|s| - 1], l[..|l| - 1];
      assert f[..|f| - 1] == l'[|l'| - (b - 1)..] && f[|f| - 1] == l[|l| - 1] && e[|e| - 1] == s[|s| - 1];
      if s[|s| - 1] == l[|l| - 1] {
        WithinEnds(s', l', a - 1, b - 1);
        assert e[..|e| - 1] == s'[|s'| - (a - 1)..];
      } else {
        WithinSize(s, l');
        WithinEnds(s, l', a, b - 1);
      }
    }
  }

  lemma WithoutSnoc<K>(s: seq<K>, x: K, k: K)
    ensures Without(s + [x], k) == if k in s then Without(s, k) + [x] else if x == k then s else s + [x]
  {
    if k in s {
      WithoutLeft(s, [x], k);
    } else {
      WithoutRight(s, [x], k);
    }
  }

  lemma {:induction false} WithinWithout<K>(s: seq<K>, l: seq<K>, k: K)
    requires Within(s, l) && Distinct(s) && Distinct(l)
    ensures Within(Without(s, k), Without(l, k))
    decreases |l|
  {
    hide Without, Within, Distinct;
    WithinParts(s, l);
    if s == [] {
      WithoutAbsent(s, k);
      WithinNothing(s, Without(l, k));
    } else {
      var s', x, l', y := s[..|s| - 1], s[|s| - 1], l[..|l| - 1], l[|l| - 1];
      assert s == s' + [x] && l == l' + [y];
      DistinctInit(s);
      DistinctInit(l);
      if x == y {
        WithinWithout(s', l', k);
        SkipLast(s', l', x, k);
      } else {
        WithinWithout(s, l', k);
        SkipOne(s, l', y, k);
      }
    }
  }

  lemma WithinParts<K>(s: seq<K>, l: seq<K>)
    requires Within(s, l)
    ensures s != [] ==> l != []
    ensures s != [] ==>
              if s[|s| - 1] == l[|l| - 1] then Within(s[..|s| - 1], l[..|l| - 1]) else Within(s, l[..|l| - 1])
  {
  }

  lemma WithinNothing<K>(s: seq<K>, l: seq<K>)
    requires s == []
    ensures Within(s, l)
  {
  }

  lemma DistinctInit<K>(s: seq<K>)
    requires s != [] && Distinct(s)
    ensures Distinct(s[..|s| - 1]) && s[|s| - 1] !in s[..|s| - 1]
  {
  }

  lemma SkipLast<K>(s: seq<K>, l: seq<K>, x: K, k: K)
    requires Within(s, l) && Within(Without(s, k), Without(l, k)) && x !in s && x !in l && Distinct(l)
    ensures Within(Without(s + [x], k), Without(l + [x], k))
  {
    hide Without, Distinct;
    WithoutSnoc(s, x, k);
    WithoutSnoc(l, x, k);
    if k == x {
    } else if k in s {
      WithinSize(s, l);
      WithinBoth(Without(s, k), Without(l, k), x);
    } else if k in l {
      WithoutAbsent(s, k);
      WithinBoth(s, Without(l, k), x);
    } else {
      WithinBoth(s, l, x);
    }
  }

  lemma WithoutAbsent<K>(s: seq<K>, k: K)
    requires k !in s
    ensures Without(s, k) == s
  {
  }

  lemma SkipOne<K>(s: seq<K>, l: seq<K>, y: K, k: K)
    requires Within(s, l) && Within(Without(s, k), Without(l, k)) && y !in l
    ensures Within(Without(s, k), Without(l + [y], k))
  {
    hide Without;
    WithinSize(s, l);
    WithoutSnoc(l, y, k);
    if k in l {
      WithinSize(Without(s, k), Without(l, k));
      if y in Without(s, k) { WithoutIn(s, k, y); }
      WithinMore(Without(s, k), Without(l, k), y);
    } else {
      WithoutAbsent(s, k);
      WithoutAbsent(l, k);
      if y != k { WithinMore(s, l, y); }
    }
  }

  lemma {:induction false} WithoutIn<K>(s: seq<K>, k: K, y: K)
    requires y in Without(s, k)
    ensures y in s
  {
    if s != [] && s[0] != k && y != s[0] { WithoutIn(s[1..], k, y); }
  }

  /** The smaller cache is within the larger one, which has no more entries to spare than the limits. */
  ghost predicate Nested<K>(s: seq<K>, l: seq<K>, m: nat, n: nat) {
    Within(s, l) && Distinct(s) && Distinct(l) && |l| - |s| <= n - m
  }

  lemma NestedTrim<K>(s: seq<K>, l: seq<K>, m: nat, n: nat)
    requires Nested(s, l, m, n) && m <= n
    ensures Nested(TrimKeys(s, Some(m)), TrimKeys(l, Some(n)), m, n)
  {
    hide Within, Distinct, TrimKeys;
    WithinSize(s, l);
    var a, b := if |s| > m then m else |s|, if |l| > n then n else |l|;
    WithinEnds(s, l, a, b);
    TrimIsEnd(s, m);
    TrimIsEnd(l, n);
  }

  lemma TrimIsEnd<K>(s: seq<K>, m: nat)
    ensures TrimKeys(s, Some(m)) == s[|s| - (if |s| > m then m else |s|)..]
    ensures Distinct(s) ==> Distinct(TrimKeys(s, Some(m)))
  {
    assert s[0..] == s;
  }

  lemma NestedTouch<K>(s: seq<K>, l: seq<K>, m: nat, n: nat, k: K)
    requires Nested(s, l, m, n)
    ensures Nested(TouchKey(s, k), TouchKey(l, k), m, n)
    ensures k !in s && k in l ==> Nested(s, TouchKey(l, k), m, n)
  {
    hide Without, Within, Distinct;
    WithinSize(s, l);
    WithinWithout(s, l, k);
    WithinBoth(Without(s, k), Without(l, k), k);
    TouchDistinct(s, k);
    TouchDistinct(l, k);
    TouchSize(s, k);
    TouchSize(l, k);
    if k !in s {
      WithoutAbsent(s, k);
      WithinMore(s, Without(l, k), k);
    }
  }

  lemma NestedWithout<K>(s: seq<K>, l: seq<K>, m: nat, n: nat, k: K)
    requires Nested(s, l, m, n)
    ensures Nested(Without(s, k), Without(l, k), m, n)
  {
    hide Without, Within, Distinct;
    WithinSize(s, l);
    WithinWithout(s, l, k);
    WithoutMembers(s, k);
    WithoutMembers(l, k);
    TouchSize(s, k);
    TouchSize(l, k);
  }

  lemma NestedFind<K>(s: seq<K>, l: seq<K>, m: nat, n: nat, k: K)
    requires Nested(s, l, m, n)
    ensures Nested(if k in s then TouchKey(s, k) else s, if k in l then TouchKey(l, k) else l, m, n)
  {
    hide TouchKey;
    WithinSize(s, l);
    NestedTouch(s, l, m, n, k);
  }

  lemma {:induction false} RunsNested<K, V>(ops: seq<Op<K, V>>, m: nat, n: nat)
    requires m <= n
    ensures Nested(RunOps(Some(m), ops), RunOps(Some(n), ops), m, n)
  {
    if ops == [] {
      assert Nested<K>([], [], m, n);
    } else {
      hide TouchKey, Without, TrimKeys, Nested;
      var before, op := ops[..|ops| - 1], ops[|ops| - 1];
      RunsNested(before, m, n);
      var s, l := RunOps(Some(m), before), RunOps(Some(n), before);
      match op
      case DoEmplace(k, _, _, _, _, _) =>
        NestedTrim(s, l, m, n);
        NestedTouch(TrimKeys(s, Some(m)), TrimKeys(l, Some(n)), m, n, k);
      case DoFind(k, _) => NestedFind(s, l, m, n, k);
      case DoRenew(k, _) => NestedFind(s, l, m, n, k);
      case DoRelink(k, _, _) => NestedFind(s, l, m, n, k);
      case DoRelinkFor(k, _, _) => NestedFind(s, l, m, n, k);
      case DoErase(k, _) => NestedWithout(s, l, m, n, k);
      case DoTrim(_, _) => NestedTrim(s, l, m, n);
      case DoClear => NestedNone<K>(m, n);
    }
  }

  lemma NestedNone<K>(m: nat, n: nat)
    requires m <= n
    ensures Nested<K>([], [], m, n)
  {
  }

  /** A larger cache holds everything a smaller one holds, on every run of all the operations. */
  lemma Inclusion<K, V>(ops: seq<Op<K, V>>, m: nat, n: nat)
    requires m <= n
    ensures forall i :: 0 <= i < |RunOps(Some(m), ops)| ==> RunOps(Some(m), ops)[i] in RunOps(Some(n), ops)
  {
    RunsNested(ops, m, n);
    WithinSize(RunOps(Some(m), ops), RunOps(Some(n), ops));
  }
}
