/**
 * The textual encodings of numbers: digits in some base over some alphabet, an optional check digit,
 * an optional checksum digit. What the encoder writes the decoder reads back, and which damage the
 * checksum notices.
 */
module BaseXCodec {
  import opened Arith

  // The tables and parameters of an encoder without block padding and without a padding string; the
  // padding character is then the null character.
  datatype Codec = Codec(chr: seq<Octet>, ord: seq<int>, base: nat, size: nat, check: bool, checksum: bool)

  const PADDING: Octet := 0

  /** The tables belong together: `ord` finds the ordinal of every alphabet character. */
  predicate Wf(c: Codec) {
    && |c.chr| == 256 && |c.ord| == 256 && 2 <= c.base <= c.size <= 256
    && forall i :: 0 <= i < c.size ==> c.chr[i] != PADDING && c.ord[c.chr[i]] == i
  }

  // ----- encoding

  function Chars(c: Codec, ds: seq<nat>): (s: seq<Octet>)
    requires Wf(c) && AllBelow(ds, c.size)
    ensures |s| == |ds|
    ensures forall i :: 0 <= i < |ds| ==> s[i] == c.chr[ds[i]]
  {
    seq(|ds|, i requires 0 <= i < |ds| => c.chr[ds[i]])
  }

  /** What the number of digits adds to the checksum. */
  function Spread(size: nat, count: nat): (r: nat)
    requires size > 0
    ensures r < size
  {
    (count + count / size) % size
  }

  /** The digit that completes a sum to a multiple of the size. */
  function Complement(size: nat, s: nat): (r: nat)
    requires size > 0
    ensures r < size
  {
    (size - s % size) % size
  }

  function Checksum(size: nat, ds: seq<nat>): (r: nat)
    requires size > 0
    ensures r < size
  {
    Complement(size, Sum(ds) + Spread(size, |ds|))
  }

  /** A sequence followed by its checksum digit sums to a multiple of the size. */
  lemma ChecksumSumsUp(size: nat, ds: seq<nat>)
    requires size > 0
    ensures (Sum(ds) + Checksum(size, ds) + Spread(size, |ds|)) % size == 0
  {
    ChecksumCloses(Sum(ds) + Spread(size, |ds|), size);
  }

  lemma ChecksumCloses(s: nat, size: nat)
    requires size > 0
    ensures (s + (size - s % size) % size) % size == 0
  {
    var q, r := s / size, s % size;
    assert s == size * q + r;
    MulDist(size, q, 1);
    if r == 0 {
      DivUnique(size, size, 1, 0);
    } else {
      DivUnique(size - r, size, 0, size - r);
      DivUnique(s + (size - r), size, q + 1, 0);
    }
  }

  function Body(c: Codec, n: nat): (ds: seq<nat>)
    requires Wf(c)
    ensures AllBelow(ds, c.size)
  {
    Reverse(Digits(n, c.base)) + if c.check then [n % c.size] else []
  }

  function EncodeDigits(c: Codec, n: nat): (ds: seq<nat>)
    requires Wf(c)
    ensures AllBelow(ds, c.size)
  {
    if n == 0 then [0]
    else Body(c, n) + if c.checksum then [Checksum(c.size, Body(c, n))] else []
  }

  function Encode(c: Codec, n: nat): seq<Octet>
    requires Wf(c)
  {
    Chars(c, EncodeDigits(c, n))
  }

  // ----- decoding

  datatype Result = Ok(value: nat) | Err

  datatype Scan = Bad | Scanned(rest: seq<Octet>, value: nat, sum: nat, count: nat)

  function Appended(value: nat, base: nat, d: nat): nat {
    value * base + d
  }

  /** The digits up to the end or to a padding character; ignored characters have a negative ordinal. */
  function ScanDigits(c: Codec, s: seq<Octet>, value: nat, sum: nat, count: nat): Scan
    requires |c.ord| == 256
  {
    if s == [] || s[0] == PADDING then Scanned(s, value, sum, count)
    else
      var d := c.ord[s[0]];
      if d < 0 then ScanDigits(c, s[1..], value, sum, count)
      else if d >= c.base then Bad
      else ScanDigits(c, s[1..], Appended(value, c.base, d), sum + d, count + 1)
  }

  function SkipPadding(s: seq<Octet>): (r: seq<Octet>)
    ensures |r| <= |s|
  {
    if s != [] && s[0] == PADDING then SkipPadding(s[1..]) else s
  }

  function Checks(c: Codec): nat {
    (if c.check then 1 else 0) + (if c.checksum then 1 else 0)
  }

  function Decode(c: Codec, s: seq<Octet>): Result
    requires |c.ord| == 256 && c.size > 0 && |s| >= Checks(c)
  {
    match ScanDigits(c, s[..|s| - Checks(c)], 0, 0, 0)
    case Bad => Err
    case Scanned(rest, value, sum, count) =>
      Verify(c, SkipPadding(rest) + s[|s| - Checks(c)..], value, sum, count)
  }

  /** The check digit and the checksum digit, where the encoder has them. */
  function Verify(c: Codec, tail: seq<Octet>, value: nat, sum: nat, count: nat): Result
    requires |c.ord| == 256 && c.size > 0 && |tail| >= Checks(c)
  {
    if c.check then
      var d := c.ord[tail[0]];
      if d < 0 || d >= c.size || d != value % c.size then Err
      else if c.checksum then VerifySum(c, tail[1], value, sum + d, count + 1)
      else Ok(value)
    else if c.checksum then VerifySum(c, tail[0], value, sum, count)
    else Ok(value)
  }

  function VerifySum(c: Codec, ch: Octet, value: nat, sum: nat, count: nat): Result
    requires |c.ord| == 256 && c.size > 0
  {
    var d := c.ord[ch];
    if d < 0 || d >= c.size then Err
    else if (sum + d + Spread(c.size, count)) % c.size != 0 then Err
    else Ok(value)
  }

  // ----- round trip

  lemma {:induction false} ScanSnoc(c: Codec, s: seq<Octet>, ch: Octet, value: nat, sum: nat, count: nat)
    requires |c.ord| == 256
    ensures var a := ScanDigits(c, s, value, sum, count);
            a.Scanned? && a.rest == [] ==>
              ScanDigits(c, s + [ch], value, sum, count) == ScanDigits(c, [ch], a.value, a.sum, a.count)
  {
    if s != [] && s[0] != PADDING {
      assert (s + [ch])[1..] == s[1..] + [ch];
      var d := c.ord[s[0]];
      if d < 0 {
        ScanSnoc(c, s[1..], ch, value, sum, count);
      } else if d < c.base {
        ScanSnoc(c, s[1..], ch, value * c.base + d, sum + d, count + 1);
      }
    } else if s == [] {
      assert s + [ch] == [ch];
    }
  }

  lemma {:induction false} ScanChars(c: Codec, ds: seq<nat>)
    requires Wf(c) && AllBelow(ds, c.base)
    ensures ScanDigits(c, Chars(c, ds), 0, 0, 0) == Scanned([], ReadValue(ds, c.base), Sum(ds), |ds|)
  {
    if ds != [] {
      var init, d := ds[..|ds| - 1], ds[|ds| - 1];
      ScanChars(c, init);
      assert Chars(c, ds) == Chars(c, init) + [c.chr[d]];
      ScanSnoc(c, Chars(c, init), c.chr[d], 0, 0, 0);
      ScanOne(c, d, ReadValue(init, c.base), Sum(init), |init|);
    }
  }

  lemma ScanOne(c: Codec, d: nat, value: nat, sum: nat, count: nat)
    requires Wf(c) && d < c.base
    ensures ScanDigits(c, [c.chr[d]], value, sum, count) == Scanned([], value * c.base + d, sum + d, count + 1)
  {
    assert [c.chr[d]][1..] == [];
    assert ScanDigits(c, [], value * c.base + d, sum + d, count + 1) == Scanned([], value * c.base + d, sum + d, count + 1);
  }

  lemma DigitsRead(n: nat, base: nat)
    requires base > 1
    ensures AllBelow(Reverse(Digits(n, base)), base)
    ensures ReadValue(Reverse(Digits(n, base)), base) == n
  {
    ReadReverse(Digits(n, base), base);
    ValueDigits(n, base);
  }

  lemma RoundTripZero(c: Codec)
    requires Wf(c) && !(c.check && c.checksum)
    ensures Decode(c, Encode(c, 0)) == Ok(0)
  {
    hide Body, Checksum;
    var s := Encode(c, 0);
    assert s == [c.chr[0]];
    if c.check || c.checksum {
      assert s[..0] == [] && s[0..] == s && SkipPadding([]) + s == s;
      assert ScanDigits(c, [], 0, 0, 0) == Scanned([], 0, 0, 0);
      assert Spread(c.size, 0) == 0;
    } else {
      assert s[..1] == s && s[1..] == [];
      ScanOne(c, 0, 0, 0, 0);
    }
  }

  /** The characters of an encoding: the digits, then the check digit, then the checksum digit. */
  lemma EncodeParts(c: Codec, n: nat)
    requires Wf(c) && n > 0
    ensures var ds := Reverse(Digits(n, c.base));
            var s := Encode(c, n);
            && AllBelow(ds, c.base) && |s| == |ds| + Checks(c)
            && s[..|ds|] == Chars(c, ds)
            && (c.check ==> s[|ds|] == c.chr[n % c.size])
            && (c.checksum ==> s[|s| - 1] == c.chr[Checksum(c.size, Body(c, n))])
  {
    hide Checksum, Digits, Reverse, Body, Chars;
    var ds, body, s := Reverse(Digits(n, c.base)), Body(c, n), Encode(c, n);
    DigitsRead(n, c.base);
    BodyParts(c, n);
    var all := EncodeDigits(c, n);
    assert all == body + if c.checksum then [Checksum(c.size, body)] else [];
    assert s[..|ds|] == Chars(c, ds) by {
      forall i | 0 <= i < |ds| ensures s[i] == Chars(c, ds)[i] {
        assert all[i] == body[i] == ds[i];
      }
    }
    assert c.check ==> all[|ds|] == body[|ds|];
  }

  lemma BodyParts(c: Codec, n: nat)
    requires Wf(c)
    ensures var ds, body := Reverse(Digits(n, c.base)), Body(c, n);
            && |body| == |ds| + (if c.check then 1 else 0)
            && (forall i :: 0 <= i < |ds| ==> body[i] == ds[i])
            && (c.check ==> body[|ds|] == n % c.size)
  {
    hide Digits, Reverse;
  }

  lemma BodySum(c: Codec, n: nat)
    requires Wf(c)
    ensures var ds := Reverse(Digits(n, c.base));
            && |Body(c, n)| == |ds| + (if c.check then 1 else 0)
            && Sum(Body(c, n)) == Sum(ds) + (if c.check then n % c.size else 0)
  {
    hide Digits, Reverse;
    var ds := Reverse(Digits(n, c.base));
    if c.check {
      var d := n % c.size;
      assert Body(c, n) == ds + [d];
      SumConcat(ds, [d]);
      assert [d][..0] == [] && Sum([d]) == Sum([]) + d;
    } else {
      assert Body(c, n) == ds;
    }
  }

  lemma VerifyEncoded(c: Codec, n: nat, tail: seq<Octet>)
    requires Wf(c) && |tail| == Checks(c)
    requires c.check ==> tail[0] == c.chr[n % c.size]
    requires c.checksum ==> tail[|tail| - 1] == c.chr[Checksum(c.size, Body(c, n))]
    ensures var ds := Reverse(Digits(n, c.base));
            Verify(c, tail, n, Sum(ds), |ds|) == Ok(n)
  {
    hide Digits, Reverse, Checksum, Sum, Body, Spread;
    BodySum(c, n);
    ChecksumSumsUp(c.size, Body(c, n));
  }

  lemma RoundTripPositive(c: Codec, n: nat)
    requires Wf(c) && n > 0
    ensures |Encode(c, n)| >= Checks(c) && Decode(c, Encode(c, n)) == Ok(n)
  {
    hide Digits, Reverse, Checksum, Sum, Body, Encode, Verify, Chars, ScanDigits;
    var ds, s := Reverse(Digits(n, c.base)), Encode(c, n);
    EncodeParts(c, n);
    DigitsRead(n, c.base);
    ScanChars(c, ds);
    var tail := s[|ds|..];
    assert SkipPadding([]) + tail == tail;
    VerifyEncoded(c, n, tail);
  }

  /**
   * Decoding undoes encoding for every number, zero included, and every encoder of this kind; only a
   * zero under both checks is excluded, since its encoding is one character short for the decoder.
   */
  lemma RoundTrip(c: Codec, n: nat)
    requires Wf(c)
    ensures |Encode(c, n)| >= Checks(c) <==> !(c.check && c.checksum && n == 0)
    ensures |Encode(c, n)| >= Checks(c) ==> Decode(c, Encode(c, n)) == Ok(n)
  {
    hide Encode, Decode;
    if n > 0 {
      RoundTripPositive(c, n);
    } else {
      EncodeZero(c);
      if !(c.check && c.checksum) { RoundTripZero(c); }
    }
  }

  lemma EncodeZero(c: Codec)
    requires Wf(c)
    ensures |Encode(c, 0)| == 1
  {
  }
}
