/**
 * Jump consistent hash. Double arithmetic enters only through `round`, which may be any monotone
 * rounding that keeps the integers a double represents exactly; so nothing here depends on the
 * rounding mode.
 */
module JumpHash {
  import opened Arith

  const TWO31 := 0x8000_0000
  const TWO33 := 0x2_0000_0000
  const TWO53 := 0x20_0000_0000_0000
  const TWO62 := 0x4000_0000_0000_0000
  const TWO64 := 0x1_0000_0000_0000_0000

  ghost predicate IsRounding(round: real -> real) {
    && (forall x: real, y: real :: x <= y ==> round(x) <= round(y))
    && (forall n: nat :: n <= TWO53 || n == TWO62 ==> round(Real(n)) == Real(n))
  }

  function Real(n: nat): real { n as real }

  function NextKey(key: nat): (r: nat)
    ensures r < TWO64
  {
    (key * 2862933555777941757 + 1) % TWO64
  }

  function Quotient(round: real -> real, key: nat): real
    requires key < TWO64
  {
    round(Real(TWO31) / Real(key / TWO33 + 1))
  }

  /** Where the walk goes from bucket `b`; `key` is the key after its update. */
  function Leap(round: real -> real, key: nat, b: nat): int
    requires key < TWO64
  {
    round(Real(b + 1) * Quotient(round, key)).Floor
  }

  lemma RoundBetween(round: real -> real, lo: nat, x: real, hi: nat)
    requires IsRounding(round) && lo <= TWO53 && (hi <= TWO53 || hi == TWO62)
    requires Real(lo) <= x <= Real(hi)
    ensures Real(lo) <= round(x) <= Real(hi)
  {
    assert round(Real(lo)) <= round(x) <= round(Real(hi));
  }

  lemma TimesMono(a: real, b: real, c: real)
    requires a >= 0.0 && b <= c
    ensures a * b <= a * c
  {
  }

  lemma Ratio(x: real, y: real, c: real)
    requires 1.0 <= x <= c && x * y == c
    ensures 1.0 <= y <= c
  {
    if y < 1.0 {
      TimesMono(x, y, 1.0);
    } else {
      TimesMono(y, 1.0, x);
    }
  }

  lemma QuotientBounds(round: real -> real, key: nat)
    requires IsRounding(round) && key < TWO64
    ensures Real(1) <= Quotient(round, key) <= Real(TWO31)
  {
    hide IsRounding;
    var k := key / TWO33 + 1;
    Ratio(Real(k), Real(TWO31) / Real(k), Real(TWO31));
    RoundBetween(round, 1, Real(TWO31) / Real(k), TWO31);
  }

  lemma Product(c: real, q: real)
    requires 1.0 <= c <= Real(TWO31) && 1.0 <= q <= Real(TWO31)
    ensures c <= c * q <= Real(TWO62)
  {
    TimesMono(c, 1.0, q);
    TimesMono(c, q, Real(TWO31));
    TimesMono(Real(TWO31), c, Real(TWO31));
  }

  lemma FloorBetween(lo: nat, x: real, hi: nat)
    requires Real(lo) <= x <= Real(hi)
    ensures lo <= x.Floor <= hi
  {
  }

  /** Every leap goes forward, and fits a 64-bit integer while the walk is within 2^31 buckets. */
  lemma LeapForward(round: real -> real, key: nat, b: nat)
    requires IsRounding(round) && key < TWO64 && b < TWO31
    ensures b < Leap(round, key, b) <= TWO62
  {
    hide IsRounding, Quotient;
    QuotientBounds(round, key);
    Product(Real(b + 1), Quotient(round, key));
    RoundBetween(round, b + 1, Real(b + 1) * Quotient(round, key), TWO62);
    FloorBetween(b + 1, round(Real(b + 1) * Quotient(round, key)), TWO62);
  }

  // ----- how far a leap goes

  /** The upper 31 bits of a key. */
  function Top(key: nat): (r: nat)
    requires key < TWO64
    ensures r < TWO31
  {
    key / TWO33
  }

  /** The walk leaves bucket `b` for one past the first `n`, by the upper bits `r` of the key. */
  predicate Leaves(r: nat, b: nat, n: nat) {
    (r + 1) * n <= (b + 1) * TWO31
  }

  lemma RealTimes(a: nat, b: nat)
    ensures Real(a) * Real(b) == Real(a * b)
  {
  }

  lemma FloorReaches(x: real, n: nat)
    ensures x.Floor >= n <==> x >= Real(n)
  {
  }

  /** A quotient reaches `n` exactly if the dividend reaches `n` divisors. */
  lemma QuotientReaches(c: real, t: real, k: real, n: real)
    requires k > 0.0
    ensures c * (t / k) >= n <==> c * t >= n * k
    ensures k * (c * (t / k)) == c * t
  {
    var q := t / k;
    assert q * k == t;
    assert k * (c * q) == c * (q * k);
    if c * q >= n { TimesMono(k, n, c * q); }
    if c * q < n { TimesLess(k, c * q, n); }
  }

  lemma TimesLess(a: real, b: real, c: real)
    requires a > 0.0 && b < c
    ensures a * b < a * c
  {
  }

  /** In exact arithmetic a leap passes `n` exactly if `r + 1` is at most the share `(b + 1) / n` of 2^31. */
  lemma ExactLeap(round: real -> real, key: nat, b: nat, n: nat)
    requires key < TWO64 && forall x :: round(x) == x
    ensures Leap(round, key, b) >= n <==> Leaves(Top(key), b, n)
  {
    var k := Top(key) + 1;
    FloorReaches(Real(b + 1) * (Real(TWO31) / Real(k)), n);
    QuotientReaches(Real(b + 1), Real(TWO31), Real(k), Real(n));
    RealTimes(b + 1, TWO31);
    RealTimes(n, k);
    assert k * n == n * k;
  }

  /** `y` is `x` rounded once: off by less than one unit in the last of 53 bits. */
  predicate Near(x: real, y: real) {
    x - x / 4503599627370496.0 <= y <= x + x / 4503599627370496.0
  }

  /** A rounding with the precision of a double. */
  ghost predicate IsPrecise(round: real -> real) {
    forall x: real :: 1.0 <= x ==> Near(x, round(x))
  }

  function Below(x: real): real { x - x / 2251799813685248.0 }

  function Above(x: real): real { x + x / 2251799813685248.0 + x / 4503599627370496.0 / 4503599627370496.0 }

  lemma TwoRoundings(x: real, p: real, y: real)
    requires 0.0 <= x && Near(x, p) && Near(p, y)
    ensures Below(x) <= y <= Above(x)
  {
  }

  lemma NearTimes(c: real, x: real, y: real)
    requires 0.0 <= c && Near(x, y)
    ensures Near(c * x, c * y)
  {
    TimesMono(c, x - x / 4503599627370496.0, y);
    TimesMono(c, y, x + x / 4503599627370496.0);
  }

  lemma BoundsTimes(k: real, x: real)
    ensures k * Below(x) == Below(k * x) && k * Above(x) == Above(k * x)
  {
  }

  lemma AtLeastOne(c: real, x: real)
    requires 1.0 <= c && 1.0 <= x
    ensures 1.0 <= c * x
  {
    TimesMono(c, 1.0, x);
  }

  lemma RoundedTwice(round: real -> real, c: real, e: real, q: real, x: real, p: real, y: real)
    requires IsPrecise(round) && 1.0 <= c && 1.0 <= e && 1.0 <= q
    requires q == round(e) && x == c * e && p == c * q && y == round(p)
    ensures Below(x) <= y <= Above(x)
  {
    hide Near, Below, Above;
    NearTimes(c, e, q);
    AtLeastOne(c, e);
    AtLeastOne(c, q);
    TwoRoundings(x, p, y);
  }

  /**
   * In double arithmetic the same holds up to the rounding error: the two sides of the comparison are
   * integers up to 2^62, and a difference of at least 2^11 decides it.
   */
  lemma NearLeap(round: real -> real, key: nat, b: nat, n: nat)
    requires IsRounding(round) && IsPrecise(round) && key < TWO64 && b < TWO31
    ensures (Top(key) + 1) * n + 2048 <= (b + 1) * TWO31 ==> Leap(round, key, b) >= n
    ensures Leap(round, key, b) >= n ==> (Top(key) + 1) * n <= (b + 1) * TWO31 + 2048
  {
    hide IsRounding, IsPrecise, Below, Above, Leap;
    var k := Top(key) + 1;
    var c, e, q := Real(b + 1), Real(TWO31) / Real(k), Quotient(round, key);
    var x, p := c * e, c * q;
    var y := round(p);
    Ratio(Real(k), e, Real(TWO31));
    QuotientBounds(round, key);
    RoundedTwice(round, c, e, q, x, p, y);
    LeapIs(round, key, b, p, y);
    NearReach(b + 1, e, x, k, n, y);
  }

  lemma LeapIs(round: real -> real, key: nat, b: nat, p: real, y: real)
    requires key < TWO64 && p == Real(b + 1) * Quotient(round, key) && y == round(p)
    ensures Leap(round, key, b) == y.Floor
  {
  }

  lemma NearReach(c: nat, e: real, x: real, k: nat, n: nat, y: real)
    requires k > 0 && c <= TWO31 && Real(k) * e == Real(TWO31) && x == Real(c) * e && Below(x) <= y <= Above(x)
    ensures k * n + 2048 <= c * TWO31 ==> y.Floor >= n
    ensures y.Floor >= n ==> k * n <= c * TWO31 + 2048
  {
    hide Below, Above;
    FloorReaches(y, n);
    RealTimes(c, TWO31);
    RealTimes(k, n);
    assert Real(k) * (Real(c) * e) == Real(c) * (Real(k) * e);
    Margin(Real(k), x, y, Real(n), c * TWO31, k * n);
  }

  lemma Margin(k: real, x: real, y: real, n: real, d: nat, m: nat)
    requires k > 0.0 && k * x == Real(d) && k * n == Real(m) && d <= TWO62
    requires Below(x) <= y <= Above(x)
    ensures m + 2048 <= d ==> y >= n
    ensures y >= n ==> m <= d + 2048
  {
    hide Below, Above;
    TimesMono(k, Below(x), y);
    TimesMono(k, y, Above(x));
    BoundsTimes(k, x);
    Slack(d);
    if y < n { TimesLess(k, y, n); } else { TimesMono(k, n, y); }
  }

  lemma Slack(d: nat)
    requires d <= TWO62
    ensures Below(Real(d)) >= Real(d) - 2048.0 && Above(Real(d)) < Real(d) + 2049.0
  {
  }

  /**
   * The share of the keys that leave: of the 2^31 values of the upper bits it is the `(b + 1) / n`-th part
   * that takes a key from bucket `b` past `n` buckets, and the others keep it there.
   */
  lemma LeavingShare(b: nat, n: nat)
    requires b < n
    ensures var d := (b + 1) * TWO31 / n;
            && d <= TWO31 && (forall r: nat :: Leaves(r, b, n) <==> r < d)
            && |set r: nat | r in UpTo(TWO31) && Leaves(r, b, n)| == d
  {
    hide UpTo;
    var all := (b + 1) * TWO31;
    var d := all / n;
    assert d <= TWO31 by {
      MulMono(TWO31, b + 1, n);
      AtMostQuotient(TWO31 + 1, n, all);
    }
    forall r: nat ensures Leaves(r, b, n) <==> r < d { AtMostQuotient(r + 1, n, all); }
    SameSet(b, n, d);
  }

  lemma SameSet(b: nat, n: nat, d: nat)
    requires d <= TWO31 && forall r: nat :: Leaves(r, b, n) <==> r < d
    ensures |set r: nat | r in UpTo(TWO31) && Leaves(r, b, n)| == d
  {
    hide UpTo, Leaves;
    assert (set r: nat | r in UpTo(TWO31) && Leaves(r, b, n)) == UpTo(d);
  }

  /** The numbers below `d`. */
  ghost function UpTo(d: nat): (s: set<nat>)
    ensures |s| == d && forall r: nat :: r in s <==> r < d
  {
    if d == 0 then {} else UpTo(d - 1) + {d - 1}
  }

  lemma AtMostQuotient(x: nat, n: nat, all: nat)
    requires n > 0
    ensures x * n <= all <==> x <= all / n
  {
    var q, r := all / n, all % n;
    assert all == n * q + r;
    if x <= q { MulMono(n, x, q); } else { MulMono(n, q + 1, x); MulDist(n, q, 1); }
  }

  // ----- the keys of a walk

  const INVERSE := 16133697096952638549

  function PreviousKey(key: nat): (r: nat)
    ensures r < TWO64
  {
    (key - 1) * INVERSE % TWO64
  }

  /** The update of a key loses nothing: it is a bijection of the 64-bit keys. */
  lemma KeysOneToOne(key: nat)
    requires key < TWO64
    ensures PreviousKey(NextKey(key)) == key && NextKey(PreviousKey(key)) == key
  {
    var q := (key * 2862933555777941757 + 1) / TWO64;
    assert NextKey(key) == key * 2862933555777941757 + 1 - TWO64 * q;
    FloorUnique((NextKey(key) - 1) * INVERSE, TWO64, key * 2503948805982125087 - q * INVERSE, key);
    var p := (key - 1) * INVERSE / TWO64;
    assert PreviousKey(key) == (key - 1) * INVERSE - TWO64 * p;
    FloorUnique(PreviousKey(key) * 2862933555777941757 + 1, TWO64,
                (key - 1) * 2503948805982125087 - p * 2862933555777941757, key);
  }

  /** The key and the bucket after `i` leaps; buckets past the 31-bit range are not walked on. */
  ghost function Walk(round: real -> real, key: nat, i: nat): (r: (nat, nat))
    requires IsRounding(round) && key < TWO64
    ensures r.0 < TWO64
  {
    if i == 0 then (key, 0) else
      var (k, b) := Walk(round, key, i - 1);
      if b >= TWO31 then (k, b + 1) else
        LeapForward(round, NextKey(k), b);
        (NextKey(k), Leap(round, NextKey(k), b))
  }

  ghost function Point(round: real -> real, key: nat, i: nat): nat
    requires IsRounding(round) && key < TWO64
  {
    Walk(round, key, i).1
  }

  lemma PointStep(round: real -> real, key: nat, i: nat)
    requires IsRounding(round) && key < TWO64
    ensures Point(round, key, i) < Point(round, key, i + 1)
  {
    var (k, b) := Walk(round, key, i);
    if b < TWO31 {
      LeapForward(round, NextKey(k), b);
    }
  }

  lemma {:induction false} PointsIncrease(round: real -> real, key: nat, i: nat, j: nat)
    requires IsRounding(round) && key < TWO64 && i < j
    ensures Point(round, key, i) < Point(round, key, j)
    decreases j
  {
    hide Walk, IsRounding;
    PointStep(round, key, j - 1);
    if i < j - 1 {
      PointsIncrease(round, key, i, j - 1);
    }
  }

  /** Bucket `b` is the last bucket below `n` that the walk of `key` visits. */
  ghost predicate IsBucket(round: real -> real, key: nat, n: nat, b: nat)
    requires IsRounding(round) && key < TWO64
  {
    exists i: nat :: Point(round, key, i) == b && b < n <= Point(round, key, i + 1)
  }

  /** In exact arithmetic, a key that has come to bucket `b` stays there among `n` buckets unless it leaves. */
  lemma StaysOrLeaves(round: real -> real, key: nat, i: nat, n: nat)
    requires IsRounding(round) && key < TWO64 && (forall x :: round(x) == x) && Point(round, key, i) < n <= TWO31
    ensures var b, next := Point(round, key, i), Walk(round, key, i + 1).0;
            && next == NextKey(Walk(round, key, i).0)
            && (Leaves(Top(next), b, n) <==> Point(round, key, i + 1) >= n)
            && (Leaves(Top(next), b, n) ==> IsBucket(round, key, n, b))
  {
    hide IsRounding, Leap, Leaves;
    var (k, b) := Walk(round, key, i);
    ExactLeap(round, NextKey(k), b, n);
  }

  lemma Ordered(round: real -> real, key: nat, i: nat, j: nat)
    requires IsRounding(round) && key < TWO64
    ensures i < j ==> Point(round, key, i + 1) <= Point(round, key, j)
    ensures j < i ==> Point(round, key, j + 1) <= Point(round, key, i)
  {
    hide Walk, IsRounding;
    if i + 1 < j {
      PointsIncrease(round, key, i + 1, j);
    } else if j + 1 < i {
      PointsIncrease(round, key, j + 1, i);
    }
  }

  /** When buckets are added, a key stays where it is or moves to one of the new buckets. */
  lemma MinimalMovement(round: real -> real, key: nat, n: nat, b: nat, m: nat, b': nat)
    requires IsRounding(round) && key < TWO64 && n <= m
    requires IsBucket(round, key, n, b) && IsBucket(round, key, m, b')
    ensures b' == b || n <= b' < m
    ensures m == n + 1 ==> b' == b || b' == n
  {
    hide Walk, IsRounding;
    var i: nat :| Point(round, key, i) == b && b < n <= Point(round, key, i + 1);
    var j: nat :| Point(round, key, j) == b' && b' < m <= Point(round, key, j + 1);
    Ordered(round, key, i, j);
  }

  method JumpConsistentHash(round: real -> real, key: nat, numBuckets: nat) returns (b: nat)
    requires IsRounding(round) && key < TWO64 && 0 < numBuckets < TWO31
    ensures b < numBuckets
    ensures IsBucket(round, key, numBuckets, b)
  {
    hide IsRounding, Leap;
    var last, j, k := -1, 0, key;
    ghost var i: nat := 0;
    while j < numBuckets
      invariant k < TWO64 && 0 <= j
      invariant j < numBuckets ==> (k, j) == Walk(round, key, i)
      invariant numBuckets <= j ==> i > 0 && (k, j) == Walk(round, key, i) && last == Point(round, key, i - 1) < numBuckets
      decreases numBuckets - j
    {
      last := j;
      k := NextKey(k);
      LeapForward(round, k, last);
      j := Leap(round, k, last);
      i := i + 1;
    }
    b := last;
    assert Point(round, key, i - 1) == b && b < numBuckets <= Point(round, key, i - 1 + 1);
  }

  // ----- paths

  const SLASH: Octet := 0x2f
  const OFFSET: nat := 14695981039346656037
  const PRIME: nat := 0x100000001b3

  /** Exclusive or, of the lower `n` bits. */
  function Xor(a: nat, b: nat, n: nat): nat {
    if n == 0 then 0 else 2 * Xor(a / 2, b / 2, n - 1) + if a % 2 == b % 2 then 0 else 1
  }

  /** A number with its lower byte combined with `c` by exclusive or. */
  function XorByte(h: nat, c: Octet): nat {
    h / 256 * 256 + Xor(h % 256, c, 8)
  }

  function Mix(h: nat, c: Octet): (r: nat)
    ensures r < TWO64
  {
    XorByte(h, c) * PRIME % TWO64
  }

  function Hash(path: seq<Octet>): (h: nat)
    ensures h < TWO64
  {
    if path == [] then OFFSET else
      var h, c := Hash(path[..|path| - 1]), path[|path| - 1];
      if c != SLASH then Mix(h, c) else h
  }

  function WithoutSlashes(path: seq<Octet>): seq<Octet> {
    if path == [] then [] else
      var s, c := WithoutSlashes(path[..|path| - 1]), path[|path| - 1];
      if c != SLASH then s + [c] else s
  }

  lemma {:induction false} HashSkipsSlashes(path: seq<Octet>)
    ensures Hash(path) == Hash(WithoutSlashes(path))
  {
    hide Mix;
    if path != [] {
      HashSkipsSlashes(path[..|path| - 1]);
      var s := WithoutSlashes(path[..|path| - 1]);
      assert (s + [path[|path| - 1]])[..|s|] == s;
    }
  }

  /** Paths that differ only in slashes have the same hash, and so the same bucket. */
  lemma SlashesDoNotMatter(a: seq<Octet>, b: seq<Octet>)
    requires WithoutSlashes(a) == WithoutSlashes(b)
    ensures Hash(a) == Hash(b)
  {
    HashSkipsSlashes(a);
    HashSkipsSlashes(b);
  }

  lemma ScaleBack(x: nat)
    requires x < TWO64
    ensures x * PRIME % TWO64 * 14886173955864302971 % TWO64 == x
  {
    var q := x * PRIME / TWO64;
    assert x * PRIME % TWO64 == x * PRIME - TWO64 * q;
    FloorUnique(x * PRIME % TWO64 * 14886173955864302971, TWO64, x * 887285111055 - q * 14886173955864302971, x);
  }

  lemma {:induction false} XorOneToOne(a: nat, b: nat, a': nat, b': nat, n: nat)
    requires a < Pow(2, n) && b < Pow(2, n) && a' < Pow(2, n) && b' < Pow(2, n) && Xor(a, b, n) == Xor(a', b', n)
    ensures a == a' <==> b == b'
  {
    if n > 0 { XorOneToOne(a / 2, b / 2, a' / 2, b' / 2, n - 1); }
  }

  lemma {:induction false} XorRange(a: nat, b: nat, n: nat)
    ensures Xor(a, b, n) < Pow(2, n)
  {
    if n > 0 { XorRange(a / 2, b / 2, n - 1); }
  }

  lemma PowEight()
    ensures Pow(2, 8) == 256
  {
    assert Pow(2, 4) == 16;
  }

  lemma XorByteParts(h: nat, c: Octet)
    ensures XorByte(h, c) / 256 == h / 256 && XorByte(h, c) % 256 == Xor(h % 256, c, 8) && (h < TWO64 ==> XorByte(h, c) < TWO64)
  {
    hide Xor, Pow;
    PowEight();
    XorRange(h % 256, c, 8);
  }

  lemma XorByteOneToOne(h: nat, c: Octet, h': nat, c': Octet)
    requires XorByte(h, c) == XorByte(h', c')
    ensures c == c' <==> h == h'
  {
    hide Xor, XorByte, Pow;
    PowEight();
    XorByteParts(h, c);
    XorByteParts(h', c');
    XorOneToOne(h % 256, c, h' % 256, c', 8);
    assert h == h / 256 * 256 + h % 256 && h' == h' / 256 * 256 + h' % 256;
  }

  /** Mixing in a byte loses nothing, neither of the byte nor of the hash before it. */
  lemma MixOneToOne(h: nat, c: Octet, h': nat, c': Octet)
    requires h < TWO64 && h' < TWO64 && Mix(h, c) == Mix(h', c')
    ensures c == c' <==> h == h'
  {
    hide XorByte;
    XorByteParts(h, c);
    XorByteParts(h', c');
    ScaleBack(XorByte(h, c));
    ScaleBack(XorByte(h', c'));
    XorByteOneToOne(h, c, h', c');
  }

  lemma {:induction false} HashAfter(a: seq<Octet>, b: seq<Octet>, rest: seq<Octet>)
    ensures Hash(a + rest) == Hash(b + rest) <==> Hash(a) == Hash(b)
  {
    hide Mix;
    if rest == [] {
      assert a + rest == a && b + rest == b;
    } else {
      var init, c := rest[..|rest| - 1], rest[|rest| - 1];
      HashAfter(a, b, init);
      assert (a + rest)[..|a + rest| - 1] == a + init && (b + rest)[..|b + rest| - 1] == b + init;
      var h, h' := Hash(a + init), Hash(b + init);
      if c != SLASH && Mix(h, c) == Mix(h', c) { MixOneToOne(h, c, h', c); }
    }
  }

  /** Paths that differ in one character other than a slash have different hashes. */
  lemma OneByteMatters(front: seq<Octet>, c: Octet, c': Octet, rest: seq<Octet>)
    requires c != c' && c != SLASH && c' != SLASH
    ensures Hash(front + [c] + rest) != Hash(front + [c'] + rest)
  {
    hide Mix;
    HashAfter(front + [c], front + [c'], rest);
    assert (front + [c])[..|front|] == front && (front + [c'])[..|front|] == front;
    var h := Hash(front);
    if Mix(h, c) == Mix(h, c') { MixOneToOne(h, c, h, c'); }
  }

  /** The published value of FNV-1a in 64 bits for "a". */
  lemma HashOfA()
    ensures Hash([0x61]) == 0xaf63dc4c8601ec8c
  {
    hide Xor;
    XorOfA();
    var a: seq<Octet> := [0x61];
    assert a[..0] == [] && Hash([]) == OFFSET;
  }

  lemma XorOfA()
    ensures Xor(0x25, 0x61, 8) == 0x44
  {
    assert Xor(0x2, 0x6, 4) == 0x4;
    assert Xor(0x9, 0x18, 6) == 0x11;
  }

  method HashPath(path: seq<Octet>) returns (h: nat)
    ensures h == Hash(path)
  {
    hide Mix;
    h := OFFSET;
    for i := 0 to |path|
      invariant h == Hash(path[..i])
    {
      assert path[..i + 1][..i] == path[..i];
      if path[i] != SLASH {
        h := Mix(h, path[i]);
      }
    }
    assert path[..|path|] == path;
  }

  method JumpConsistentHashPath(round: real -> real, path: seq<Octet>, numBuckets: nat) returns (b: nat)
    requires IsRounding(round) && 0 < numBuckets < TWO31
    ensures b < numBuckets
    ensures IsBucket(round, Hash(path), numBuckets, b)
    ensures forall other :: WithoutSlashes(other) == WithoutSlashes(path) ==>
              IsBucket(round, Hash(other), numBuckets, b)
  {
    hide IsRounding, IsBucket, Hash;
    var h := HashPath(path);
    b := JumpConsistentHash(round, h, numBuckets);
    forall other | WithoutSlashes(other) == WithoutSlashes(path) ensures Hash(other) == Hash(path) {
      SlashesDoNotMatter(other, path);
    }
  }

  /** The bucket is a function of the key and the number of buckets. */
  lemma BucketUnique(round: real -> real, key: nat, n: nat, b: nat, b': nat)
    requires IsRounding(round) && key < TWO64 && IsBucket(round, key, n, b) && IsBucket(round, key, n, b')
    ensures b == b'
  {
    MinimalMovement(round, key, n, b, n, b');
  }
}
