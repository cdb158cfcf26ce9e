/** Division, powers and positional notation. */
module Arith {
  type Octet = x: int | 0 <= x < 256

  lemma MulAssoc(a: int, b: int, c: int)
    ensures a * (b * c) == a * b * c
  {
  }

  lemma MulDist(a: int, b: int, c: int)
    ensures a * (b + c) == a * b + a * c
  {
  }

  lemma MulMono(a: nat, b: int, c: int)
    requires b <= c
    ensures a * b <= a * c
  {
  }

  lemma OnlyZeroBetween(d: nat, x: int)
    requires 0 - d < d * x < d
    ensures x == 0
  {
    if x > 0 { MulMono(d, 1, x); } else if x < 0 { MulMono(d, x, -1); }
  }

  lemma DivUnique(a: nat, d: nat, q: nat, r: nat)
    requires d > 0 && a == d * q + r && r < d
    ensures a / d == q && a % d == r
  {
    var q', r' := a / d, a % d;
    assert a == d * q' + r';
    MulDist(d, q, -q');
    OnlyZeroBetween(d, q - q');
  }

  lemma FloorUnique(a: int, n: nat, q: int, r: int)
    requires n > 0 && a == n * q + r && 0 <= r < n
    ensures a / n == q && a % n == r
  {
    var q', r' := a / n, a % n;
    assert n * (q - q') == r' - r by { MulDist(n, q, 0 - q'); MulDist(n, q', 0 - 1); }
    OnlyZeroBetween(n, q - q');
  }

  /** Equal remainders are a divisible difference. */
  lemma SameMod(a: int, b: int, n: nat)
    requires n > 0
    ensures a % n == b % n <==> (a - b) % n == 0
  {
    var p, q, r := a / n, b / n, b % n;
    if a % n == r {
      MulDist(n, p, 0 - q);
      FloorUnique(a - b, n, p - q, 0);
    } else if (a - b) % n == 0 {
      var t := (a - b) / n;
      MulDist(n, t, q);
      FloorUnique(a, n, t + q, r);
    }
  }

  lemma DivDivParts(a: nat, b: nat, c: nat, q: nat, r: nat, q2: nat, r2: nat)
    requires a == b * q + r && r < b && q == c * q2 + r2 && r2 < c
    ensures a == b * c * q2 + (b * r2 + r) && b * r2 + r < b * c
  {
    MulDist(b, c * q2, r2);
    MulAssoc(b, c, q2);
    MulMono(b, r2, c - 1);
    MulDist(b, c, -1);
  }

  /** Dividing twice is dividing by the product. */
  lemma DivDiv(a: nat, b: nat, c: nat)
    requires b > 0 && c > 0
    ensures b * c > 0 && (a / b) / c == a / (b * c)
  {
    var q, r := a / b, a % b;
    var q2, r2 := q / c, q % c;
    DivDivParts(a, b, c, q, r, q2, r2);
    DivUnique(a, b * c, q2, b * r2 + r);
  }

  lemma DivLess(n: nat, d: nat)
    requires n > 0 && d > 1
    ensures n / d < n
  {
    var q := n / d;
    assert n == d * q + n % d;
    MulMono(q, 2, d);
  }

  function Pow(b: nat, e: nat): (p: nat)
    requires b > 0
    ensures p > 0
  {
    if e == 0 then 1 else b * Pow(b, e - 1)
  }

  lemma {:induction false} PowAdd(b: nat, x: nat, y: nat)
    requires b > 0
    ensures Pow(b, x + y) == Pow(b, x) * Pow(b, y)
  {
    if x > 0 {
      PowAdd(b, x - 1, y);
      assert b * (Pow(b, x - 1) * Pow(b, y)) == (b * Pow(b, x - 1)) * Pow(b, y);
    }
  }

  lemma {:induction false} PowMul(b: nat, x: nat, y: nat)
    requires b > 0
    ensures Pow(Pow(b, x), y) == Pow(b, x * y)
  {
    if y > 0 {
      PowMul(b, x, y - 1);
      assert x * y == x + x * (y - 1);
      PowAdd(b, x, x * (y - 1));
    } else {
      assert x * y == 0;
    }
  }

  /** What lies above the digit being read, a multiple of `s * b`, does not disturb it. */
  lemma LowDigits(v: nat, s: nat, b: nat, x: nat)
    requires s > 0 && b > 0
    ensures (v + s * (b * x)) / s % b == v / s % b
  {
    DivShift(v, s, b * x);
    DivShift(v / s, b, x);
  }

  lemma DivShift(v: nat, s: nat, x: nat)
    requires s > 0
    ensures (v + s * x) / s == v / s + x && (v + s * x) % s == v % s
  {
    MulDist(s, v / s, x);
    DivUnique(v + s * x, s, v / s + x, v % s);
  }

  // ----- positional notation, least significant digit first

  predicate AllBelow(ds: seq<nat>, base: nat) {
    forall i :: 0 <= i < |ds| ==> ds[i] < base
  }

  function Value(ds: seq<nat>, base: nat): nat {
    if ds == [] then 0 else ds[0] + base * Value(ds[1..], base)
  }

  function Digits(n: nat, base: nat): (ds: seq<nat>)
    requires base > 1
    ensures AllBelow(ds, base)
    ensures ds != [] ==> ds[|ds| - 1] != 0
    ensures ds == [] <==> n == 0
    decreases n
  {
    if n == 0 then [] else
      DivLess(n, base);
      [n % base] + Digits(n / base, base)
  }

  lemma ValueCons(d: nat, ds: seq<nat>, base: nat)
    ensures Value([d] + ds, base) == d + base * Value(ds, base)
  {
    assert ([d] + ds)[1..] == ds;
  }

  lemma DigitsCons(n: nat, base: nat)
    requires base > 1 && n > 0
    ensures Digits(n, base) == [n % base] + Digits(n / base, base)
  {
  }

  lemma DivMod(n: nat, d: nat)
    requires d > 0
    ensures n == d * (n / d) + n % d
  {
  }

  lemma {:induction false} ValueDigits(n: nat, base: nat)
    requires base > 1
    ensures Value(Digits(n, base), base) == n
    decreases n
  {
    hide Digits, Value;
    if n > 0 {
      var q, r := n / base, n % base;
      DigitsCons(n, base);
      DivLess(n, base);
      DivMod(n, base);
      ValueDigits(q, base);
      ValueCons(r, Digits(q, base), base);
    } else {
      ValueNone(base);
    }
  }

  lemma ValueNone(base: nat)
    requires base > 1
    ensures Digits(0, base) == [] && Value([], base) == 0
  {
  }

  /** A number has only one notation without a leading zero. */
  lemma {:induction false} DigitsUnique(ds: seq<nat>, base: nat)
    requires base > 1 && AllBelow(ds, base) && (ds != [] ==> ds[|ds| - 1] != 0)
    ensures Digits(Value(ds, base), base) == ds
  {
    if ds != [] {
      var t := ds[1..];
      DigitsUnique(t, base);
      DivUnique(Value(ds, base), base, Value(t, base), ds[0]);
      MulMono(base, 0, Value(t, base));
      if Value(t, base) > 0 { MulMono(base, 1, Value(t, base)); }
    }
  }

  lemma {:induction false} ValueSnoc(ds: seq<nat>, d: nat, base: nat)
    requires base > 0
    ensures Value(ds + [d], base) == Value(ds, base) + Pow(base, |ds|) * d
  {
    if ds != [] {
      assert (ds + [d])[1..] == ds[1..] + [d];
      ValueSnoc(ds[1..], d, base);
      var p, v := Pow(base, |ds| - 1), Value(ds[1..], base);
      assert base * (v + p * d) == base * v + base * p * d;
    } else {
      assert Value([d], base) == d + base * Value([], base);
    }
  }

  /** Dropping low digits divides by a power of the base. */
  lemma {:induction false} ValueDrop(ds: seq<nat>, k: nat, base: nat)
    requires base > 0 && AllBelow(ds, base) && k <= |ds|
    ensures Value(ds, base) / Pow(base, k) == Value(ds[k..], base)
  {
    if k == 0 {
      assert ds[0..] == ds;
    } else {
      ValueDrop(ds[1..], k - 1, base);
      DivUnique(Value(ds, base), base, Value(ds[1..], base), ds[0]);
      DivDiv(Value(ds, base), base, Pow(base, k - 1));
      assert ds[1..][k - 1..] == ds[k..];
    }
  }

  function Strip(ds: seq<nat>): (r: seq<nat>)
    ensures |r| <= |ds| && r == ds[..|r|]
    ensures r != [] ==> r[|r| - 1] != 0
  {
    if ds == [] || ds[|ds| - 1] != 0 then ds else Strip(ds[..|ds| - 1])
  }

  lemma {:induction false} ValueStrip(ds: seq<nat>, base: nat)
    requires base > 0
    ensures Value(Strip(ds), base) == Value(ds, base)
  {
    if ds != [] && ds[|ds| - 1] == 0 {
      var init := ds[..|ds| - 1];
      ValueStrip(init, base);
      ValueSnoc(init, 0, base);
      assert ds == init + [0];
    }
  }

  function Reverse<T>(s: seq<T>): (r: seq<T>)
    ensures |r| == |s|
    ensures forall i :: 0 <= i < |s| ==> r[i] == s[|s| - 1 - i]
  {
    if s == [] then [] else Reverse(s[1..]) + [s[0]]
  }

  /** The same digits read from the most significant end, as a decoder does. */
  function ReadValue(ds: seq<nat>, base: nat): nat {
    if ds == [] then 0 else ReadValue(ds[..|ds| - 1], base) * base + ds[|ds| - 1]
  }

  lemma {:induction false} ReadReverse(ds: seq<nat>, base: nat)
    ensures ReadValue(Reverse(ds), base) == Value(ds, base)
  {
    if ds != [] {
      ReadReverse(ds[1..], base);
      assert Reverse(ds)[..|ds| - 1] == Reverse(ds[1..]);
    }
  }

  function Sum(ds: seq<nat>): nat {
    if ds == [] then 0 else Sum(ds[..|ds| - 1]) + ds[|ds| - 1]
  }

  lemma {:induction false} SumConcat(a: seq<nat>, b: seq<nat>)
    ensures Sum(a + b) == Sum(a) + Sum(b)
  {
    if b == [] {
      assert a + b == a;
    } else {
      assert (a + b)[..|a + b| - 1] == a + b[..|b| - 1];
      SumConcat(a, b[..|b| - 1]);
    }
  }

  lemma {:induction false} SumReverse(ds: seq<nat>)
    ensures Sum(Reverse(ds)) == Sum(ds)
  {
    if ds != [] {
      SumReverse(ds[1..]);
      assert ds == [ds[0]] + ds[1..];
      SumConcat([ds[0]], ds[1..]);
      SumConcat(Reverse(ds[1..]), [ds[0]]);
    }
  }

  lemma {:induction false} SumStrip(ds: seq<nat>)
    ensures Sum(Strip(ds)) == Sum(ds)
  {
    if ds != [] && ds[|ds| - 1] == 0 { SumStrip(ds[..|ds| - 1]); }
  }
}
