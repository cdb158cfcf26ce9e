/**
 * What the decoder accepts, read off the string, and so which damage it notices: by the checksum
 * digit, and by the check digit.
 */
module BaseXDamage {
  import opened Arith
  import opened BaseXCodec

  // ----- characters count only by their ordinal

  predicate SameReading(c: Codec, s: seq<Octet>, t: seq<Octet>)
    requires |c.ord| == 256
  {
    |s| == |t| && forall i :: 0 <= i < |s| ==> c.ord[s[i]] == c.ord[t[i]] && (s[i] == PADDING <==> t[i] == PADDING)
  }

  lemma {:induction false} ScanSame(c: Codec, s: seq<Octet>, t: seq<Octet>, value: nat, sum: nat, count: nat)
    requires |c.ord| == 256 && SameReading(c, s, t)
    ensures var a, b := ScanDigits(c, s, value, sum, count), ScanDigits(c, t, value, sum, count);
            || (a.Bad? && b.Bad?)
            || (a.Scanned? && b.Scanned? && b == a.(rest := b.rest) && SameReading(c, a.rest, b.rest))
  {
    if s != [] && s[0] != PADDING {
      var d := c.ord[s[0]];
      if d < 0 {
        ScanSame(c, s[1..], t[1..], value, sum, count);
      } else if d < c.base {
        ScanSame(c, s[1..], t[1..], value * c.base + d, sum + d, count + 1);
      }
    }
  }

  lemma {:induction false} SkipSame(c: Codec, s: seq<Octet>, t: seq<Octet>)
    requires |c.ord| == 256 && SameReading(c, s, t)
    ensures SameReading(c, SkipPadding(s), SkipPadding(t))
  {
    if s != [] && s[0] == PADDING { SkipSame(c, s[1..], t[1..]); }
  }

  /**
   * Two strings whose characters have the same ordinals decode alike: letters in either case where case
   * is ignored, translated characters, and, as a check digit, any unknown character for the first
   * character of the extension.
   */
  lemma DecodeByOrdinal(c: Codec, s: seq<Octet>, t: seq<Octet>)
    requires |c.ord| == 256 && c.size > 0 && |s| >= Checks(c) && SameReading(c, s, t)
    ensures Decode(c, s) == Decode(c, t)
  {
    hide ScanDigits, SkipPadding, Spread;
    var k := |s| - Checks(c);
    ScanSame(c, s[..k], t[..k], 0, 0, 0);
    var a, b := ScanDigits(c, s[..k], 0, 0, 0), ScanDigits(c, t[..k], 0, 0, 0);
    if a.Scanned? { SkipSame(c, a.rest, b.rest); }
  }

  // ----- what a string holds

  predicate IsDigit(c: Codec, ch: Octet)
    requires |c.ord| == 256
  {
    c.ord[ch] >= 0
  }

  function OrdSum(c: Codec, s: seq<Octet>): nat
    requires |c.ord| == 256
  {
    if s == [] then 0 else OrdSum(c, s[..|s| - 1]) + if IsDigit(c, s[|s| - 1]) then c.ord[s[|s| - 1]] else 0
  }

  function OrdCount(c: Codec, s: seq<Octet>): nat
    requires |c.ord| == 256
  {
    if s == [] then 0 else OrdCount(c, s[..|s| - 1]) + if IsDigit(c, s[|s| - 1]) then 1 else 0
  }

  function OrdValue(c: Codec, s: seq<Octet>): nat
    requires |c.ord| == 256
  {
    if s == [] then 0 else
      var value, d := OrdValue(c, s[..|s| - 1]), c.ord[s[|s| - 1]];
      if d >= 0 then Appended(value, c.base, d) else value
  }

  predicate AllReadable(c: Codec, s: seq<Octet>)
    requires |c.ord| == 256
  {
    forall i :: 0 <= i < |s| ==> s[i] != PADDING && c.ord[s[i]] < c.base
  }

  lemma {:induction false} ScanReadable(c: Codec, s: seq<Octet>)
    requires |c.ord| == 256 && PADDING !in s
    ensures ScanDigits(c, s, 0, 0, 0) ==
            if AllReadable(c, s) then Scanned([], OrdValue(c, s), OrdSum(c, s), OrdCount(c, s)) else Bad
  {
    hide Appended;
    if s != [] {
      var init, ch := s[..|s| - 1], s[|s| - 1];
      assert s == init + [ch];
      ScanReadable(c, init);
      if AllReadable(c, init) {
        ScanSnoc(c, init, ch, 0, 0, 0);
        assert [ch][1..] == [];
      } else {
        ScanBad(c, init, [ch], 0, 0, 0);
      }
    }
  }

  lemma {:induction false} ScanBad(c: Codec, s: seq<Octet>, t: seq<Octet>, value: nat, sum: nat, count: nat)
    requires |c.ord| == 256 && ScanDigits(c, s, value, sum, count).Bad?
    ensures ScanDigits(c, s + t, value, sum, count).Bad?
  {
    assert (s + t)[1..] == s[1..] + t;
    var d := c.ord[s[0]];
    if d < 0 {
      ScanBad(c, s[1..], t, value, sum, count);
    } else if d < c.base {
      ScanBad(c, s[1..], t, value * c.base + d, sum + d, count + 1);
    }
  }

  // ----- what the decoder accepts

  /** The data characters of a string: all but the check characters. */
  function Data(c: Codec, s: seq<Octet>): seq<Octet>
    requires |s| >= Checks(c)
  {
    s[..|s| - Checks(c)]
  }

  predicate Whole(c: Codec, s: seq<Octet>) {
    Wf(c) && |s| >= Checks(c) && PADDING !in s
  }

  predicate CheckFits(c: Codec, data: seq<Octet>, ch: Octet)
    requires |c.ord| == 256 && c.size > 0
  {
    0 <= c.ord[ch] < c.size && c.ord[ch] == OrdValue(c, data) % c.size
  }

  /** All characters but the last, the check character included, and the last one. */
  predicate SumFits(c: Codec, s: seq<Octet>, last: Octet)
    requires |c.ord| == 256 && c.size > 0
  {
    && 0 <= c.ord[last] < c.size
    && (OrdSum(c, s) + c.ord[last] + Spread(c.size, OrdCount(c, s))) % c.size == 0
  }

  predicate Fits(c: Codec, s: seq<Octet>)
    requires Whole(c, s)
  {
    && AllReadable(c, Data(c, s))
    && (c.check ==> CheckFits(c, Data(c, s), s[|s| - Checks(c)]))
    && (c.checksum ==> SumFits(c, s[..|s| - 1], s[|s| - 1]))
  }

  lemma OrdSnoc(c: Codec, s: seq<Octet>, ch: Octet)
    requires |c.ord| == 256 && c.ord[ch] >= 0
    ensures OrdSum(c, s + [ch]) == OrdSum(c, s) + c.ord[ch] && OrdCount(c, s + [ch]) == OrdCount(c, s) + 1
  {
    assert (s + [ch])[..|s|] == s;
  }

  /** The decoder, without its loops: what it accepts, and the number it then returns. */
  lemma DecodeFits(c: Codec, s: seq<Octet>)
    requires Whole(c, s)
    ensures Decode(c, s) == if Fits(c, s) then Ok(OrdValue(c, Data(c, s))) else Err
  {
    hide ScanDigits, OrdSum, OrdCount, OrdValue, Spread, AllReadable;
    var k, data := |s| - Checks(c), Data(c, s);
    ScanReadable(c, data);
    assert SkipPadding([]) + s[k..] == s[k..];
    if c.check && c.checksum {
      assert s[..|s| - 1] == data + [s[k]];
      if c.ord[s[k]] >= 0 { OrdSnoc(c, data, s[k]); }
    } else if c.checksum {
      assert s[..|s| - 1] == data;
    }
  }

  // ----- one character replaced, or inserted

  lemma {:induction false} OrdConcat(c: Codec, a: seq<Octet>, b: seq<Octet>)
    requires |c.ord| == 256
    ensures OrdSum(c, a + b) == OrdSum(c, a) + OrdSum(c, b)
    ensures OrdCount(c, a + b) == OrdCount(c, a) + OrdCount(c, b)
  {
    if b == [] {
      assert a + b == a;
    } else {
      assert (a + b)[..|a + b| - 1] == a + b[..|b| - 1];
      OrdConcat(c, a, b[..|b| - 1]);
    }
  }

  lemma {:induction false} ValueConcat(c: Codec, a: seq<Octet>, b: seq<Octet>)
    requires |c.ord| == 256 && c.base > 0
    ensures OrdValue(c, a + b) == OrdValue(c, a) * Pow(c.base, OrdCount(c, b)) + OrdValue(c, b)
  {
    hide Appended;
    if b == [] {
      assert a + b == a && Pow(c.base, 0) == 1;
    } else {
      var init, ch := b[..|b| - 1], b[|b| - 1];
      assert (a + b)[..|a + b| - 1] == a + init;
      ValueConcat(c, a, init);
      if c.ord[ch] >= 0 {
        HornerStep(OrdValue(c, a), Pow(c.base, OrdCount(c, init)), OrdValue(c, init), c.base, c.ord[ch]);
      }
    }
  }

  lemma HornerStep(a: nat, p: nat, v: nat, base: nat, d: nat)
    ensures Appended(a * p + v, base, d) == a * (base * p) + Appended(v, base, d)
  {
  }

  lemma OrdOne(c: Codec, ch: Octet)
    requires |c.ord| == 256 && c.ord[ch] >= 0
    ensures OrdSum(c, [ch]) == c.ord[ch] && OrdCount(c, [ch]) == 1 && OrdValue(c, [ch]) == c.ord[ch]
  {
    assert [ch][..0] == [];
  }

  lemma OrdReplace(c: Codec, s: seq<Octet>, p: nat, ch: Octet)
    requires |c.ord| == 256 && p < |s| && c.ord[s[p]] >= 0 && c.ord[ch] >= 0
    ensures OrdSum(c, s[p := ch]) + c.ord[s[p]] == OrdSum(c, s) + c.ord[ch]
    ensures OrdCount(c, s[p := ch]) == OrdCount(c, s)
  {
    hide OrdSum, OrdCount;
    var a, b := s[..p], s[p + 1..];
    assert s == a + [s[p]] + b && s[p := ch] == a + [ch] + b;
    OrdConcat(c, a + [s[p]], b);
    OrdConcat(c, a, [s[p]]);
    OrdConcat(c, a + [ch], b);
    OrdConcat(c, a, [ch]);
    OrdOne(c, s[p]);
    OrdOne(c, ch);
  }

  /** The weight of the digit at position `p`. */
  function WeightAt(c: Codec, s: seq<Octet>, p: nat): nat
    requires |c.ord| == 256 && c.base > 0 && p < |s|
  {
    Pow(c.base, OrdCount(c, s[p + 1..]))
  }

  lemma ValueReplace(c: Codec, s: seq<Octet>, p: nat, ch: Octet)
    requires |c.ord| == 256 && c.base > 0 && p < |s| && c.ord[s[p]] >= 0 && c.ord[ch] >= 0
    ensures OrdValue(c, s[p := ch]) - OrdValue(c, s) == (c.ord[ch] - c.ord[s[p]]) * WeightAt(c, s, p)
  {
    hide OrdValue, OrdCount, Pow;
    var a, b := s[..p], s[p + 1..];
    assert s == a + [s[p]] + b && s[p := ch] == a + [ch] + b;
    ValueConcat(c, a + [s[p]], b);
    ValueConcat(c, a + [ch], b);
    ValueSnocOrd(c, a, s[p]);
    ValueSnocOrd(c, a, ch);
    Difference(OrdValue(c, a) * c.base, c.ord[ch], c.ord[s[p]], WeightAt(c, s, p));
  }

  lemma ValueSnocOrd(c: Codec, a: seq<Octet>, ch: Octet)
    requires |c.ord| == 256 && c.ord[ch] >= 0
    ensures OrdValue(c, a + [ch]) == OrdValue(c, a) * c.base + c.ord[ch]
  {
    assert (a + [ch])[..|a|] == a;
  }

  lemma Difference(v: int, x: int, y: int, w: int)
    ensures (v + x) * w - (v + y) * w == (x - y) * w
  {
  }

  /** Two sums that both close to zero cannot differ by less than the modulus. */
  lemma BothClose(x: nat, y: nat, size: nat)
    requires size > 0 && x % size == 0 && y % size == 0 && 0 - size < x - y < size
    ensures x == y
  {
    var p, q := x / size, y / size;
    assert x == size * p && y == size * q;
    MulDist(size, p, -q);
    OnlyZeroBetween(size, p - q);
  }

  /**
   * Under a checksum, replacing one character that counts by one of another ordinal is always noticed,
   * wherever it stands and whether or not there is a check digit too.
   */
  lemma SubstitutionDetected(c: Codec, s: seq<Octet>, p: nat, ch: Octet)
    requires Whole(c, s) && c.checksum && Decode(c, s).Ok? && p < |s| && ch != PADDING
    requires 0 <= c.ord[s[p]] != c.ord[ch] && 0 <= c.ord[ch]
    ensures Decode(c, s[p := ch]) == Err
  {
    hide Decode, OrdSum, OrdCount, OrdValue, Spread, AllReadable, CheckFits;
    var t := s[p := ch];
    DecodeFits(c, s);
    DecodeFits(c, t);
    if Fits(c, t) {
      var n := |s| - 1;
      var x := OrdSum(c, s[..n]) + c.ord[s[n]] + Spread(c.size, OrdCount(c, s[..n]));
      var y := OrdSum(c, t[..n]) + c.ord[t[n]] + Spread(c.size, OrdCount(c, t[..n]));
      if p < n {
        assert t[..n] == s[..n][p := ch] && s[..n][p] == s[p];
        OrdReplace(c, s[..n], p, ch);
        CountedBelow(c, s, p);
        CountedBelow(c, t, p);
      } else {
        assert t[..n] == s[..n];
      }
      BothClose(x, y, c.size);
    }
  }

  /** A character that counts has an ordinal within the size. */
  lemma CountedBelow(c: Codec, s: seq<Octet>, p: nat)
    requires Whole(c, s) && Fits(c, s) && p < |s| && c.ord[s[p]] >= 0
    ensures c.ord[s[p]] < c.size
  {
    hide OrdSum, OrdCount, OrdValue, Spread;
    var k := |s| - Checks(c);
    if p < k {
      assert s[p] == Data(c, s)[p];
    }
  }

  // ----- a zero digit inserted before the checksum

  lemma SpreadStep(size: nat, count: nat)
    requires size > 0
    ensures (count + 1) / size == count / size + if (count + 1) % size == 0 then 1 else 0
  {
    var q, r := count / size, count % size;
    assert count == size * q + r;
    MulDist(size, q, 1);
    if r + 1 == size { DivUnique(count + 1, size, q + 1, 0); } else { DivUnique(count + 1, size, q, r + 1); }
  }

  lemma ModAbsorbs(a: nat, b: nat, n: nat)
    requires n > 0
    ensures (a + b % n) % n == (a + b) % n
  {
    var q, r := b / n, b % n;
    assert b == n * q + r;
    var q', r' := (a + r) / n, (a + r) % n;
    assert a + r == n * q' + r';
    MulDist(n, q, q');
    DivUnique(a + b, n, q + q', r');
  }

  /** How the checksum condition moves when one more zero digit is counted. */
  lemma SpreadShift(sum: nat, size: nat, count: nat)
    requires size > 0 && (sum + Spread(size, count)) % size == 0
    ensures (sum + Spread(size, count + 1)) % size == (if (count + 1) % size == 0 then 2 else 1) % size
  {
    var m, delta := count + count / size, if (count + 1) % size == 0 then 2 else 1;
    SpreadStep(size, count);
    ModAbsorbs(sum, m, size);
    ModAbsorbs(sum, m + delta, size);
    ModAbsorbs(delta, sum + m, size);
  }

  lemma OrdInsert(c: Codec, s: seq<Octet>, p: nat, z: Octet)
    requires |c.ord| == 256 && p <= |s| && c.ord[z] == 0
    ensures OrdSum(c, s[..p] + [z] + s[p..]) == OrdSum(c, s)
    ensures OrdCount(c, s[..p] + [z] + s[p..]) == OrdCount(c, s) + 1
  {
    hide OrdSum, OrdCount;
    var a, b := s[..p], s[p..];
    assert s == a + b;
    OrdConcat(c, a, b);
    OrdConcat(c, a + [z], b);
    OrdConcat(c, a, [z]);
    OrdOne(c, z);
  }

  /** The parity of a number is that of its last digit, so a zero shows in it only as the last digit. */
  lemma ParityInsert(c: Codec, s: seq<Octet>, p: nat, z: Octet)
    requires |c.ord| == 256 && c.base == 2 && p <= |s| && c.ord[z] == 0
    ensures OrdValue(c, s[..p] + [z] + s[p..]) % 2 == if OrdCount(c, s[p..]) > 0 then OrdValue(c, s) % 2 else 0
  {
    hide OrdValue, OrdCount, Pow;
    var a, b := s[..p], s[p..];
    assert s == a + b;
    ValueConcat(c, a, b);
    ValueConcat(c, a + [z], b);
    ValueSnocOrd(c, a, z);
    var n := OrdCount(c, b);
    if n > 0 {
      EvenPart(OrdValue(c, a), n, OrdValue(c, b));
      EvenPart(OrdValue(c, a + [z]), n, OrdValue(c, b));
    } else {
      PowNone();
      NoValue(c, b);
    }
  }

  lemma PowNone()
    ensures Pow(2, 0) == 1
  {
  }

  lemma EvenPart(a: nat, n: nat, v: nat)
    requires n > 0
    ensures (a * Pow(2, n) + v) % 2 == v % 2
  {
    var h := Pow(2, n - 1);
    assert a * Pow(2, n) == 2 * (a * h);
  }

  lemma {:induction false} NoValue(c: Codec, s: seq<Octet>)
    requires |c.ord| == 256 && OrdCount(c, s) == 0
    ensures OrdValue(c, s) == 0
  {
    if s != [] { NoValue(c, s[..|s| - 1]); }
  }

  /** Where the check digit, if there is one, does not notice the zero either. */
  predicate CheckUnmoved(c: Codec, s: seq<Octet>, p: nat)
    requires Whole(c, s) && p < |s|
  {
    var k := |s| - Checks(c);
    !c.check || (p < k && OrdCount(c, s[p..k]) > 0) || c.ord[s[k]] == 0
  }

  /**
   * A zero digit inserted before the checksum digit goes unnoticed exactly for a size of 2, an odd
   * number of digits and, under a check digit, if the number keeps its parity; never for a size of 3
   * or more.
   */
  lemma ZeroInsertion(c: Codec, s: seq<Octet>, p: nat, z: Octet)
    requires Whole(c, s) && c.checksum && Decode(c, s).Ok? && p < |s| && z != PADDING && c.ord[z] == 0
    ensures var t := s[..p] + [z] + s[p..];
            && (Decode(c, t).Ok? <==> c.size == 2 && OrdCount(c, s[..|s| - 1]) % 2 == 1 && CheckUnmoved(c, s, p))
            && (c.size >= 3 ==> Decode(c, t) == Err)
  {
    hide Decode, OrdSum, OrdCount, OrdValue, Spread, CheckFits, AllReadable, CheckUnmoved;
    var t, n := s[..p] + [z] + s[p..], |s| - 1;
    var body, last := s[..n], s[n];
    assert t[..n + 1] == body[..p] + [z] + body[p..] && t[n + 1] == last;
    DecodeFits(c, s);
    DecodeFits(c, t);
    OrdInsert(c, body, p, z);
    SpreadShift(OrdSum(c, body) + c.ord[last], c.size, OrdCount(c, body));
    SmallMod(c.size, OrdCount(c, body));
    if c.size == 2 {
      RestFits(c, s, p, z);
    }
  }

  lemma RestFits(c: Codec, s: seq<Octet>, p: nat, z: Octet)
    requires Whole(c, s) && c.checksum && Fits(c, s) && p < |s| && z != PADDING && c.ord[z] == 0 && c.size == 2
    ensures var t := s[..p] + [z] + s[p..];
            && Whole(c, t)
            && (AllReadable(c, Data(c, t)) && (c.check ==> CheckFits(c, Data(c, t), t[|t| - Checks(c)]))
                <==> CheckUnmoved(c, s, p))
  {
    hide OrdSum, OrdCount, OrdValue, SumFits;
    var t, k, data := s[..p] + [z] + s[p..], |s| - Checks(c), Data(c, s);
    if p <= k {
      assert Data(c, t) == data[..p] + [z] + data[p..] && t[k + 1] == s[k];
      assert data[p..] == s[p..k];
      ParityInsert(c, data, p, z);
      assert p == k ==> OrdCount(c, data[p..]) == 0 by { CountNone(c); }
    } else {
      assert Data(c, t) == data + [s[k]] && t[k + 1] == z;
      ValueSnocOrd(c, data, s[k]);
    }
  }

  lemma CountNone(c: Codec)
    requires |c.ord| == 256
    ensures OrdCount(c, []) == 0
  {
  }

  lemma SmallMod(size: nat, count: nat)
    requires size >= 2
    ensures (if (count + 1) % size == 0 then 2 else 1) % size == 0 <==> size == 2 && count % 2 == 1
  {
  }

  // ----- damage noticed by the check digit alone

  lemma ReadableReplace(c: Codec, s: seq<Octet>, p: nat, ch: Octet)
    requires |c.ord| == 256 && p < |s| && ch != PADDING && AllReadable(c, s)
    ensures AllReadable(c, s[p := ch]) <==> c.ord[ch] < c.base
  {
    assert s[p := ch][p] == ch;
  }

  /**
   * Without a checksum, a replaced digit goes unnoticed exactly when the size divides the change of the
   * number: the difference of the ordinals times the weight of the place.
   */
  lemma CheckSubstitution(c: Codec, s: seq<Octet>, p: nat, ch: Octet)
    requires Whole(c, s) && c.check && !c.checksum && Decode(c, s).Ok? && p < |s| - 1 && ch != PADDING
    requires 0 <= c.ord[s[p]] && 0 <= c.ord[ch]
    ensures Decode(c, s[p := ch]).Ok? <==>
            c.ord[ch] < c.base && (c.ord[ch] - c.ord[s[p]]) * WeightAt(c, Data(c, s), p) % c.size == 0
  {
    hide Decode, OrdSum, OrdCount, OrdValue, WeightAt, AllReadable;
    var t, data := s[p := ch], Data(c, s);
    DecodeFits(c, s);
    DecodeFits(c, t);
    assert Data(c, t) == data[p := ch] && data[p] == s[p];
    ReadableReplace(c, data, p, ch);
    ValueReplace(c, data, p, ch);
    SameMod(OrdValue(c, data[p := ch]), OrdValue(c, data), c.size);
  }

  /** The check digit itself cannot be replaced unnoticed. */
  lemma CheckDigitReplaced(c: Codec, s: seq<Octet>, ch: Octet)
    requires Whole(c, s) && c.check && !c.checksum && Decode(c, s).Ok? && ch != PADDING
    requires c.ord[ch] != c.ord[s[|s| - 1]]
    ensures Decode(c, s[|s| - 1 := ch]) == Err
  {
    hide Decode, OrdSum, OrdCount, OrdValue;
    var t := s[|s| - 1 := ch];
    DecodeFits(c, s);
    DecodeFits(c, t);
    assert Data(c, t) == Data(c, s);
  }

  lemma Cancel(x: int, base: nat, size: nat, inverse: nat)
    requires size > 1 && base * inverse % size == 1 && x * base % size == 0
    ensures x % size == 0
  {
    var q, m := base * inverse / size, x * base / size;
    assert base * inverse == size * q + 1 && x * base == size * m;
    assert x * base * inverse == size * m * inverse;
    Regroup(x, base, inverse, size, q, m);
    FloorUnique(x, size, m * inverse - x * q, 0);
  }

  lemma Regroup(x: int, base: nat, inverse: nat, size: nat, q: int, m: int)
    requires base * inverse == size * q + 1 && x * base == size * m
    ensures x == size * (m * inverse - x * q) + 0
  {
    calc {
      size * m * inverse;
      x * base * inverse;
      { MulAssoc(x, base, inverse); }
      x * (size * q + 1);
      x * (size * q) + x;
    }
  }

  lemma {:induction false} CancelPower(x: int, base: nat, k: nat, size: nat, inverse: nat)
    requires size > 1 && base > 0 && base * inverse % size == 1 && x * Pow(base, k) % size == 0
    ensures x % size == 0
  {
    if k > 0 {
      var p := Pow(base, k - 1);
      assert x * Pow(base, k) == x * p * base;
      Cancel(x * p, base, size, inverse);
      CancelPower(x, base, k - 1, size, inverse);
    }
  }

  /**
   * When the base has an inverse modulo the size (the two are coprime), the check digit alone notices
   * every replaced digit.
   */
  lemma CheckDetectsAll(c: Codec, s: seq<Octet>, p: nat, ch: Octet, inverse: nat)
    requires Whole(c, s) && c.check && !c.checksum && Decode(c, s).Ok? && p < |s| - 1 && ch != PADDING
    requires 0 <= c.ord[s[p]] != c.ord[ch] && 0 <= c.ord[ch] && c.base * inverse % c.size == 1
    ensures Decode(c, s[p := ch]) == Err
  {
    hide Decode, OrdSum, OrdCount, OrdValue;
    CheckSubstitution(c, s, p, ch);
    DecodeFits(c, s);
    var x := c.ord[ch] - c.ord[s[p]];
    if Decode(c, s[p := ch]).Ok? {
      assert Data(c, s)[p] == s[p];
      CancelPower(x, c.base, OrdCount(c, Data(c, s)[p + 1..]), c.size, inverse);
      assert x == c.size * (x / c.size);
      OnlyZeroBetween(c.size, x / c.size);
    }
  }
}
