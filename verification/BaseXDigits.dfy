/**
 * The digits of a number made of 32-bit half digits, read through a 64-bit window that moves along
 * them (bases that are powers of two), and by repeated division (all other bases).
 */
module BaseXDigits {
  import opened Arith

  const HALF: nat := 0x1_0000_0000

  function ShiftRight(v: nat, s: nat): nat {
    v / Pow(2, s)
  }

  function LowBits(v: nat, base: nat): (r: nat)
    requires base > 0
    ensures r < base
  {
    v % base
  }

  /** The bit at which digit `k` starts. */
  function BitAt(bits: nat, k: nat): nat {
    bits * k
  }

  /** A number as the big-integer type keeps it: an even number of half digits, none too many. */
  predicate HalfDigits(h: seq<nat>) {
    && AllBelow(h, HALF) && |h| % 2 == 0
    && (h != [] ==> h[|h| - 1] != 0 || h[|h| - 2] != 0)
  }

  lemma HalfIsPow()
    ensures Pow(2, 32) == HALF && Pow(2, 64) == HALF * HALF
  {
    assert Pow(2, 8) == 256;
    PowAdd(2, 8, 8);
    PowAdd(2, 16, 16);
    PowAdd(2, 32, 32);
  }

  lemma HalfPow(j: nat)
    ensures Pow(HALF, j) == Pow(2, 32 * j)
  {
    HalfIsPow();
    PowMul(2, 32, j);
  }

  /** A number with half digits is zero only when it has none. */
  lemma {:induction false} NonZero(h: seq<nat>)
    requires h != [] && (h[|h| - 1] != 0 || (|h| > 1 && h[|h| - 2] != 0))
    ensures Value(h, HALF) > 0
  {
    if h[0] == 0 { NonZero(h[1..]); }
  }

  /** `ds` are the low digits of `n`, and the rest of `n` lies above them. */
  ghost predicate LowPart(n: nat, base: nat, ds: seq<nat>)
    requires base > 0
  {
    AllBelow(ds, base) && n == Value(ds, base) + Pow(base, |ds|) * (n / Pow(base, |ds|))
  }

  lemma LowPartNone(n: nat, base: nat)
    requires base > 0
    ensures LowPart(n, base, [])
  {
  }

  lemma LowPartSnoc(n: nat, base: nat, ds: seq<nat>, d: nat)
    requires base > 0 && LowPart(n, base, ds) && d == n / Pow(base, |ds|) % base
    ensures LowPart(n, base, ds + [d])
    ensures n / Pow(base, |ds| + 1) == n / Pow(base, |ds|) / base
  {
    var p := Pow(base, |ds|);
    var q := n / p;
    PowAdd(base, |ds|, 1);
    assert Pow(base, 1) == base * Pow(base, 0) == base;
    DivDiv(n, p, base);
    ValueSnoc(ds, d, base);
    Split(q, base, d, p);
  }

  lemma Split(q: nat, base: nat, d: nat, p: nat)
    requires base > 0 && d == q % base
    ensures p * q == p * d + p * base * (q / base)
  {
    var k := q / base;
    assert q == base * k + d;
    MulDist(p, base * k, d);
    MulAssoc(p, base, k);
  }

  lemma LowPartAll(n: nat, base: nat, ds: seq<nat>)
    requires base > 0 && LowPart(n, base, ds) && n / Pow(base, |ds|) == 0
    ensures Value(ds, base) == n
  {
  }

  lemma WindowValue(h: seq<nat>, j: nat)
    requires 1 <= j < |h|
    ensures Value(h[j - 1..], HALF) == h[j - 1] + h[j] * HALF + HALF * HALF * Value(h[j + 1..], HALF)
  {
    var t := h[j - 1..];
    assert t[1..] == h[j..] && h[j..][1..] == h[j + 1..];
    MulDist(HALF, h[j], HALF * Value(h[j + 1..], HALF));
  }

  /** The digit at bit `32 (j - 1) + shift` of the number is in the window over half digits j - 1 and j. */
  lemma WindowDigit(h: seq<nat>, j: nat, shift: nat, bits: nat)
    requires AllBelow(h, HALF) && 1 <= j < |h| && shift + bits <= 64
    ensures Value(h, HALF) / Pow(2, 32 * (j - 1) + shift) % Pow(2, bits)
         == (h[j - 1] + h[j] * HALF) / Pow(2, shift) % Pow(2, bits)
  {
    hide Pow, Value;
    var v, x := h[j - 1] + h[j] * HALF, Value(h[j + 1..], HALF);
    var s, b, c := Pow(2, shift), Pow(2, bits), Pow(2, 64 - shift - bits) * x;
    WindowAt(h, j, shift);
    WindowValue(h, j);
    TopOfWindow(shift, bits, x);
    LowDigits(v, s, b, c);
  }

  lemma WindowAt(h: seq<nat>, j: nat, shift: nat)
    requires AllBelow(h, HALF) && 1 <= j < |h|
    ensures Value(h, HALF) / Pow(2, 32 * (j - 1) + shift) == Value(h[j - 1..], HALF) / Pow(2, shift)
  {
    hide Pow, Value;
    HalfPow(j - 1);
    ValueDrop(h, j - 1, HALF);
    PowAdd(2, 32 * (j - 1), shift);
    DivDiv(Value(h, HALF), Pow(2, 32 * (j - 1)), Pow(2, shift));
  }

  lemma WindowBits(h: seq<nat>, j: nat, shift: nat, bits: nat)
    requires AllBelow(h, HALF) && 1 <= j < |h| && shift + bits <= 64
    ensures LowBits(ShiftRight(Value(h, HALF), 32 * (j - 1) + shift), Pow(2, bits))
         == LowBits(ShiftRight(h[j - 1] + h[j] * HALF, shift), Pow(2, bits))
  {
    hide Pow, Value;
    WindowDigit(h, j, shift, bits);
  }

  lemma TopOfWindow(shift: nat, bits: nat, x: nat)
    requires shift + bits <= 64
    ensures HALF * HALF * x == Pow(2, shift) * (Pow(2, bits) * (Pow(2, 64 - shift - bits) * x))
  {
    var a, b, c := Pow(2, shift), Pow(2, bits), Pow(2, 64 - shift - bits);
    HalfIsPow();
    PowAdd(2, shift, bits);
    PowAdd(2, shift + bits, 64 - shift - bits);
    MulAssoc(a, b, c * x);
    MulAssoc(a * b, c, x);
  }

  /** Past the last full step, the window shifted down is what is left of the number. */
  lemma WindowRest(h: seq<nat>, shift: nat)
    requires AllBelow(h, HALF) && 2 <= |h|
    ensures ShiftRight(Value(h, HALF), 32 * (|h| - 2) + shift) == ShiftRight(h[|h| - 2] + h[|h| - 1] * HALF, shift)
  {
    WindowAt(h, |h| - 1, shift);
    WindowValue(h, |h| - 1);
    assert h[|h|..] == [];
  }

  /** One more digit in a base that is a power of two. */
  lemma NextDigit(n: nat, bits: nat, ds: seq<nat>, d: nat)
    requires bits > 0 && LowPart(n, Pow(2, bits), ds)
    requires d == LowBits(ShiftRight(n, BitAt(bits, |ds|)), Pow(2, bits))
    ensures LowPart(n, Pow(2, bits), ds + [d])
    ensures BitAt(bits, |ds| + 1) == BitAt(bits, |ds|) + bits
    ensures ShiftRight(n, BitAt(bits, |ds| + 1)) == ShiftRight(n, BitAt(bits, |ds|)) / Pow(2, bits)
  {
    hide Pow, LowPart;
    PowMul(2, bits, |ds|);
    PowMul(2, bits, |ds| + 1);
    MulDist(bits, |ds|, 1);
    LowPartSnoc(n, Pow(2, bits), ds, d);
  }

  lemma DigitsEnd(n: nat, bits: nat, ds: seq<nat>)
    requires LowPart(n, Pow(2, bits), ds) && ShiftRight(n, BitAt(bits, |ds|)) == 0
    ensures Value(ds, Pow(2, bits)) == n
  {
    hide Pow;
    PowMul(2, bits, |ds|);
    LowPartAll(n, Pow(2, bits), ds);
  }

  lemma BitAtNone(bits: nat)
    ensures BitAt(bits, 0) == 0
  {
  }
}
