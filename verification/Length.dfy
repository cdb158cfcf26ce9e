/**
 * The self-delimiting code for lengths and strings, in memory. Lengths are 64-bit: the decoder drops
 * the bits that its shift pushes out and wraps the final addition.
 */
module Length {
  import opened Arith
  import opened Wrappers

  const TWO63 := 0x8000_0000_0000_0000
  const TWO64 := 0x1_0000_0000_0000_0000

  /** A decoded value and the number of bytes it took, or a thrown error. */
  datatype Parsed<T> = Bad | Good(value: T, size: nat)

  // ----- lengths

  /** Seven bits a byte, lowest first; the last byte has its high bit set. */
  function Groups(n: nat): (r: seq<Octet>)
    ensures r != []
  {
    if n < 128 then [n + 128] else [n % 128] + Groups(n / 128)
  }

  function EncodeLength(len: nat): (r: seq<Octet>)
    ensures r != []
  {
    if len < 255 then [len] else [255] + Groups(len - 255)
  }

  /** `v << shift`, in 64 bits. */
  function ShiftLeft(v: nat, shift: nat): nat {
    v * Pow(2, shift) % TWO64
  }

  /**
   * The loop of `unserialise_length` at its group `i`, with `acc` read so far. The bits joined are
   * disjoint, so joining them is adding.
   */
  function DecodeGroups(s: seq<Octet>, i: nat, acc: nat): (r: Parsed<nat>)
    ensures r.Good? ==> 1 <= r.size <= |s|
  {
    if s == [] || i > 9 then Bad else
      var acc' := acc + ShiftLeft(s[0] % 128, 7 * i);
      if s[0] >= 128 then Good(acc', 1) else
        match DecodeGroups(s[1..], i + 1, acc')
        case Bad => Bad
        case Good(v, n) => Good(v, n + 1)
  }

  function DecodeLength(s: seq<Octet>): (r: Parsed<nat>)
    ensures r.Good? ==> 1 <= r.size <= |s|
  {
    if s == [] then Bad
    else if s[0] < 255 then Good(s[0], 1)
    else
      match DecodeGroups(s[1..], 0, 0)
      case Bad => Bad
      case Good(v, n) => Good((v + 255) % TWO64, n + 1)
  }

  /** The lower seven bits of each byte. */
  function SevenBits(r: seq<Octet>): (ds: seq<nat>)
    ensures |ds| == |r| && forall i :: 0 <= i < |r| ==> ds[i] == r[i] % 128
  {
    seq(|r|, i requires 0 <= i < |r| => r[i] % 128)
  }

  /** Groups of which the last, and no other, has its high bit set. */
  predicate Delimited(g: seq<Octet>) {
    g != [] && forall j :: 0 <= j < |g| ==> (g[j] >= 128 <==> j == |g| - 1)
  }

  /** Groups that are delimited, the last of them not zero if there are others. */
  predicate Minimal(r: seq<Octet>) {
    Delimited(r) && (|r| > 1 ==> r[|r| - 1] > 128)
  }

  lemma {:induction false} GroupsMinimal(n: nat)
    ensures Minimal(Groups(n)) && (n > 0 ==> Groups(n)[|Groups(n)| - 1] > 128)
  {
    if n >= 128 {
      var q, r := Groups(n / 128), Groups(n);
      GroupsMinimal(n / 128);
      assert forall i :: 1 <= i < |r| ==> r[i] == q[i - 1];
    }
  }

  lemma {:induction false} GroupsValue(n: nat)
    ensures Value(SevenBits(Groups(n)), 128) == n
  {
    hide Value;
    var r := Groups(n);
    if n < 128 {
      assert SevenBits(r) == [n];
      ValueOne(n);
    } else {
      GroupsValue(n / 128);
      var q := Groups(n / 128);
      assert SevenBits(r) == [n % 128] + SevenBits(q);
      ValueCons(n % 128, SevenBits(q), 128);
    }
  }

  lemma ValueOne(n: nat)
    ensures Value([n], 128) == n
  {
    ValueNone(128);
    ValueCons(n, [], 128);
    assert [n] + [] == [n];
  }

  /**
   * The format: a length below 255 is its own byte; any other is the byte 255 and then, in groups of
   * seven bits with the lowest first, the length less 255, with the high bit set in the last group alone
   * and no group of zeros at the end.
   */
  lemma LengthFormat(len: nat)
    ensures len < 255 ==> EncodeLength(len) == [len]
    ensures len >= 255 ==>
              var r := EncodeLength(len);
              r[0] == 255 && Minimal(r[1..]) && Value(SevenBits(r[1..]), 128) == len - 255
  {
    if len >= 255 {
      hide Groups, Value;
      GroupsMinimal(len - 255);
      GroupsValue(len - 255);
      assert EncodeLength(len)[1..] == Groups(len - 255);
    }
  }

  /** The weight of group `i`. */
  function Weight(i: nat): (r: nat)
    ensures r >= 1
  {
    Pow(2, 7 * i)
  }

  lemma WeightStep(i: nat)
    ensures Weight(i + 1) == Weight(i) * 128
  {
    assert 7 * (i + 1) == 7 * i + 7;
    PowAdd(2, 7 * i, 7);
    assert Pow(2, 7) == 128;
  }

  lemma Scaled(r: nat, n: nat, w: nat)
    requires r <= n
    ensures r * w <= n * w
  {
    MulMono(w, r, n);
  }

  lemma NextGroup(n: nat, i: nat, acc: nat)
    requires acc + n * Weight(i) < TWO64
    ensures ShiftLeft(n % 128, 7 * i) == n % 128 * Weight(i)
    ensures n / 128 * Weight(i + 1) + n % 128 * Weight(i) == n * Weight(i)
  {
    Scaled(n % 128, n, Weight(i));
    WeightStep(i);
    Split(Weight(i), n / 128, n % 128, n);
  }

  lemma Split(w: nat, q: nat, r: nat, n: nat)
    requires n == 128 * q + r
    ensures q * (w * 128) + r * w == n * w
  {
  }

  lemma {:induction false} GroupsRoundTrip(n: nat, i: nat, acc: nat, rest: seq<Octet>)
    requires i <= 9 && acc + n * Weight(i) < TWO64
    ensures DecodeGroups(Groups(n) + rest, i, acc) == Good(acc + n * Weight(i), |Groups(n)|)
    decreases n
  {
    hide Weight, ShiftLeft;
    NextGroup(n, i, acc);
    var s := Groups(n) + rest;
    if n < 128 {
      assert n / 128 == 0 && n % 128 == n && s[0] == n + 128;
    } else {
      assert s[1..] == Groups(n / 128) + rest;
      MoreGroups(n / 128, i + 1);
      GroupsRoundTrip(n / 128, i + 1, acc + ShiftLeft(n % 128, 7 * i), rest);
    }
  }

  // ----- what any bytes decode to

  lemma {:induction false} WeightUpTo(i: nat)
    requires i <= 9
    ensures Weight(i) <= TWO63 && (i == 9 ==> Weight(i) == TWO63) && (i < 9 ==> 128 * Weight(i) <= TWO63)
    decreases 9 - i
  {
    hide Weight;
    WeightStep(i);
    if i < 9 { WeightUpTo(i + 1); } else { WeightNine(); }
  }

  /** The bits of the tenth group that do not fit are dropped; before it, nothing is. */
  lemma JoinGroup(x: nat, i: nat, acc: nat)
    requires x < 128 && i <= 9 && acc < Weight(i)
    ensures acc + ShiftLeft(x, 7 * i) == (acc + x * Weight(i)) % TWO64
    ensures i < 9 ==> ShiftLeft(x, 7 * i) == x * Weight(i) && acc + x * Weight(i) < Weight(i + 1)
  {
    hide Weight, ShiftLeft;
    WeightUpTo(i);
    WeightStep(i);
    ShiftIs(x, i);
    if i == 9 { JoinLast(x, acc); } else { JoinSmall(x, Weight(i), acc); }
  }

  lemma ShiftIs(x: nat, i: nat)
    ensures ShiftLeft(x, 7 * i) == x * Weight(i) % TWO64
  {
  }

  lemma JoinSmall(x: nat, w: nat, acc: nat)
    requires x < 128 && acc < w && 128 * w <= TWO63
    ensures x * w % TWO64 == x * w && acc + x * w < w * 128 && (acc + x * w) % TWO64 == acc + x * w
  {
    MulMono(w, x + 1, 128);
    MulDist(w, x, 1);
    assert x * w == w * x;
  }

  lemma JoinLast(x: nat, acc: nat)
    requires acc < TWO63
    ensures acc + x * TWO63 % TWO64 == (acc + x * TWO63) % TWO64
  {
    FloorUnique(x * TWO63, TWO64, x / 2, x % 2 * TWO63);
    FloorUnique(acc + x * TWO63, TWO64, x / 2, acc + x % 2 * TWO63);
  }

  lemma {:induction false} DecodeDelimited(g: seq<Octet>, i: nat, acc: nat, rest: seq<Octet>)
    requires Delimited(g) && i + |g| <= 10 && acc < Weight(i)
    ensures DecodeGroups(g + rest, i, acc) == Good((acc + Value(SevenBits(g), 128) * Weight(i)) % TWO64, |g|)
    decreases |g|
  {
    hide Weight, ShiftLeft, Value;
    var s, x := g + rest, g[0] % 128;
    JoinGroup(x, i, acc);
    if |g| == 1 {
      assert SevenBits(g) == [x];
      ValueOne(x);
    } else {
      var t := g[1..];
      assert s[1..] == t + rest;
      assert SevenBits(g) == [x] + SevenBits(t);
      ValueCons(x, SevenBits(t), 128);
      DecodeDelimited(t, i + 1, acc + x * Weight(i), rest);
      WeightStep(i);
      Regroup(acc, x, Value(SevenBits(t), 128), Weight(i));
    }
  }

  lemma Regroup(acc: nat, x: nat, v: nat, w: nat)
    ensures acc + x * w + v * (w * 128) == acc + (x + 128 * v) * w
  {
  }

  lemma {:induction false} DecodeUndelimited(s: seq<Octet>, i: nat, acc: nat)
    requires forall j :: 0 <= j < |s| && j < 10 - i ==> s[j] < 128
    ensures DecodeGroups(s, i, acc) == Bad
    decreases |s|
  {
    hide ShiftLeft;
    if s != [] && i <= 9 { DecodeUndelimited(s[1..], i + 1, acc + ShiftLeft(s[0] % 128, 7 * i)); }
  }

  /**
   * Any bytes at all: after the byte 255 the groups up to the first with its high bit set are read, in
   * 64 bits, if there is one among the next ten bytes, and otherwise the bytes are refused.
   */
  lemma DecodeMeans(g: seq<Octet>, rest: seq<Octet>)
    ensures Delimited(g) && |g| <= 10 ==>
              DecodeLength([255] + g + rest) == Good((Value(SevenBits(g), 128) + 255) % TWO64, |g| + 1)
    ensures (forall j :: 0 <= j < |g| && j < 10 ==> g[j] < 128) && (|g| >= 10 || rest == []) ==>
              DecodeLength([255] + g + rest) == Bad
  {
    hide Weight, DecodeGroups;
    var s := [255] + g + rest;
    assert s[1..] == g + rest;
    WeightZero();
    if Delimited(g) && |g| <= 10 {
      DecodeDelimited(g, 0, 0, rest);
      WrapTwice(Value(SevenBits(g), 128));
    }
    if (forall j :: 0 <= j < |g| && j < 10 ==> g[j] < 128) && (|g| >= 10 || rest == []) {
      DecodeUndelimited(g + rest, 0, 0);
    }
  }

  lemma WrapTwice(v: nat)
    ensures (v % TWO64 + 255) % TWO64 == (v + 255) % TWO64
  {
    SameMod(v % TWO64 + 255, v + 255, TWO64);
    FloorUnique(v % TWO64 - v, TWO64, -(v / TWO64), 0);
  }

  lemma MoreGroups(n: nat, i: nat)
    requires n >= 1 && n * Weight(i) < TWO64
    ensures i <= 9
  {
    hide Weight;
    Scaled(1, n, Weight(i));
    if i > 9 {
      WeightGrows(i);
    }
  }

  lemma {:induction false} WeightGrows(i: nat)
    requires i >= 10
    ensures Weight(i) >= TWO64
  {
    hide Weight;
    WeightStep(i - 1);
    if i == 10 {
      WeightNine();
    } else {
      WeightGrows(i - 1);
    }
  }

  lemma WeightNine()
    ensures Weight(9) == 0x8000_0000_0000_0000
  {
    hide Weight;
    WeightZero();
    WeightStep(0);
    WeightStep(1);
    WeightStep(2);
    WeightStep(3);
    WeightStep(4);
    WeightStep(5);
    WeightStep(6);
    WeightStep(7);
    WeightStep(8);
  }

  lemma WeightZero()
    ensures Weight(0) == 1
  {
  }

  /** Every length comes back, whatever follows it, and exactly its bytes are consumed. */
  lemma LengthRoundTrip(len: nat, rest: seq<Octet>)
    requires len < TWO64
    ensures DecodeLength(EncodeLength(len) + rest) == Good(len, |EncodeLength(len)|)
  {
    hide Weight, Groups, DecodeGroups;
    if len >= 255 {
      WeightZero();
      GroupsRoundTrip(len - 255, 0, 0, rest);
      assert (EncodeLength(len) + rest)[1..] == Groups(len - 255) + rest;
    }
  }

  method SerialiseLength(len: nat) returns (result: seq<Octet>)
    requires len < TWO64
    ensures result == EncodeLength(len)
  {
    if len < 255 {
      return [len];
    }
    result := [255];
    var n: nat := len - 255;
    while true
      invariant result + Groups(n) == EncodeLength(len)
      decreases n
    {
      var b := n % 128;
      ghost var n0: nat := n;
      n := n / 128;
      if n == 0 {
        result := result + [b + 128];
        break;
      }
      assert Groups(n0) == [b] + Groups(n);
      result := result + [b];
    }
  }

  /** What is left to decode of the groups of a length whose first `i` groups gave `len`. */
  function Remaining(s: seq<Octet>, q: nat, i: nat, len: nat): Parsed<nat>
    requires q <= |s|
  {
    match DecodeGroups(s[q..], i, len)
    case Bad => Bad
    case Good(v, n) => Good((v + 255) % TWO64, i + 1 + n)
  }

  lemma RemainingStep(s: seq<Octet>, q: nat, i: nat, len: nat)
    requires q <= |s|
    ensures Remaining(s, q, i, len) ==
            if q == |s| || i > 9 then Bad
            else
              var len' := len + ShiftLeft(s[q] % 128, 7 * i);
              if s[q] >= 128 then Good((len' + 255) % TWO64, i + 2) else Remaining(s, q + 1, i + 1, len')
  {
    hide ShiftLeft;
    if q < |s| {
      assert s[q..][1..] == s[q + 1..];
    }
  }

  lemma RemainingStart(s: seq<Octet>, p: nat)
    requires p < |s|
    ensures DecodeLength(s[p..]) == if s[p] < 255 then Good(s[p], 1) else Remaining(s, p + 1, 0, 0)
  {
    hide DecodeGroups;
    assert s[p..][1..] == s[p + 1..];
  }

  /** None where the source throws; the position then has no meaning. */
  method UnserialiseLength(s: seq<Octet>, p: nat) returns (r: Option<nat>, q: nat)
    requires p <= |s|
    ensures match DecodeLength(s[p..]) case Bad => r.None? case Good(v, n) => r == Some(v) && q == p + n <= |s|
  {
    q := p;
    if q == |s| {
      return None, q;
    }
    hide ShiftLeft, DecodeLength, Remaining;
    RemainingStart(s, p);
    var len := s[q];
    q := q + 1;
    if len == 255 {
      len := 0;
      var shift, done := 0, false;
      ghost var i: nat := 0;
      while !done
        invariant p + 1 + i == q <= |s| && shift == 7 * i && i <= 10 && len >= 0
        invariant DecodeLength(s[p..]) == if done then Good((len + 255) % TWO64, i + 1) else Remaining(s, q, i, len)
        decreases !done, |s| - q
      {
        RemainingStep(s, q, i, len);
        if q == |s| || shift > 63 {
          return None, q;
        }
        var ch := s[q];
        q := q + 1;
        len := len + ShiftLeft(ch % 128, shift);
        shift := shift + 7;
        i := i + 1;
        done := ch >= 128;
      }
      len := (len + 255) % TWO64;
    }
    r := Some(len);
  }

  // ----- strings

  function EncodeString(x: seq<Octet>): seq<Octet> {
    EncodeLength(|x|) + x
  }

  function DecodeString(s: seq<Octet>): (r: Parsed<seq<Octet>>)
    ensures r.Good? ==> 1 <= r.size <= |s|
  {
    match DecodeLength(s)
    case Bad => Bad
    case Good(len, n) => if len > |s| - n then Bad else Good(s[n..n + len], n + len)
  }

  function EncodeStrings(xs: seq<seq<Octet>>): seq<Octet> {
    if xs == [] then [] else EncodeString(xs[0]) + EncodeStrings(xs[1..])
  }

  predicate Sized(xs: seq<seq<Octet>>, bound: nat) {
    forall i :: 0 <= i < |xs| ==> |xs[i]| < bound
  }

  lemma StringRoundTrip(x: seq<Octet>, rest: seq<Octet>)
    requires |x| < TWO64
    ensures DecodeString(EncodeString(x) + rest) == Good(x, |EncodeString(x)|)
    ensures (EncodeString(x) + rest)[|EncodeString(x)|..] == rest
  {
    hide EncodeLength, DecodeLength;
    assert EncodeString(x) + rest == EncodeLength(|x|) + (x + rest);
    LengthRoundTrip(|x|, x + rest);
  }

  /** The same result, `n` bytes further on; size 0 marks a string that was not there. */
  function Further(r: Parsed<seq<Octet>>, n: nat): Parsed<seq<Octet>> {
    match r
    case Bad => Bad
    case Good(x, m) => Good(x, if m == 0 then 0 else n + m)
  }

  /** `unserialise_string_at`: skip `at` strings, read one; past the end the empty string, in place. */
  function StringAt(s: seq<Octet>, at: nat): (r: Parsed<seq<Octet>>)
    ensures r.Good? ==> r.size <= |s|
    decreases |s|
  {
    if s == [] then Good([], 0) else
      match DecodeString(s)
      case Bad => Bad
      case Good(x, n) => if at == 0 then Good(x, n) else Further(StringAt(s[n..], at - 1), n)
  }

  lemma {:induction false} StringAtRoundTrip(xs: seq<seq<Octet>>, at: nat)
    requires Sized(xs, TWO64)
    ensures StringAt(EncodeStrings(xs), at) ==
            if at < |xs| then Good(xs[at], |EncodeStrings(xs[..at + 1])|) else Good([], 0)
    decreases |xs|
  {
    hide EncodeString, DecodeString;
    if xs != [] {
      StringRoundTrip(xs[0], EncodeStrings(xs[1..]));
      assert EncodeStrings(xs) != [] by { StringNotEmpty(xs[0]); }
      if at == 0 {
        assert xs[..1] == [xs[0]];
      } else {
        StringAtRoundTrip(xs[1..], at - 1);
        if at < |xs| {
          assert xs[..at + 1][1..] == xs[1..][..at];
          assert EncodeStrings(xs[1..][..at]) != [] by { StringNotEmpty(xs[1]); }
        }
      }
    }
  }

  lemma StringNotEmpty(x: seq<Octet>)
    ensures EncodeString(x) != []
  {
  }

  method SerialiseString(x: seq<Octet>) returns (output: seq<Octet>)
    requires |x| < TWO64
    ensures output == EncodeString(x)
  {
    output := SerialiseLength(|x|);
    output := output + x;
  }

  method SerialiseStrings(xs: seq<seq<Octet>>) returns (output: seq<Octet>)
    requires Sized(xs, TWO64)
    ensures output == EncodeStrings(xs)
  {
    hide EncodeString;
    output := [];
    for i := 0 to |xs|
      invariant output + EncodeStrings(xs[i..]) == EncodeStrings(xs)
    {
      assert xs[i..][1..] == xs[i + 1..];
      var x := SerialiseString(xs[i]);
      output := output + x;
    }
  }

  lemma FurtherNothing(r: Parsed<seq<Octet>>)
    ensures Further(r, 0) == r
  {
  }

  lemma FurtherTwice(r: Parsed<seq<Octet>>, a: nat, b: nat)
    ensures Further(Further(r, a), b) == Further(r, a + b)
  {
  }

  lemma StringAtStep(s: seq<Octet>, p: nat, at: nat)
    requires p <= |s|
    ensures StringAt(s[p..], at) ==
            if p == |s| then Good([], 0) else
            match DecodeLength(s[p..])
            case Bad => Bad
            case Good(len, n) =>
              if len > |s| - p - n then Bad
              else if at == 0 then Good(s[p + n..p + n + len], n + len)
              else Further(StringAt(s[p + n + len..], at - 1), n + len)
  {
    hide DecodeLength;
    match DecodeLength(s[p..])
    case Bad =>
    case Good(len, n) =>
      if len <= |s| - p - n {
        assert s[p..][n..n + len] == s[p + n..p + n + len];
        assert s[p..][n + len..] == s[p + n + len..];
      }
  }

  method UnserialiseStringAt(at: nat, s: seq<Octet>, p: nat) returns (r: Option<seq<Octet>>, q: nat)
    requires p <= |s|
    ensures match StringAt(s[p..], at) case Bad => r.None? case Good(x, n) => r == Some(x) && q == p + n <= |s|
  {
    hide DecodeLength, StringAt;
    var ptr: nat, length: nat, left: nat := p, 0, at + 1;
    FurtherNothing(StringAt(s[p..], at));
    while true
      invariant p <= ptr && ptr + length <= |s| && 1 <= left
      invariant StringAt(s[p..], at) == Further(StringAt(s[ptr + length..], left - 1), ptr + length - p)
      decreases |s| - ptr - length
    {
      ptr := ptr + length;
      StringAtStep(s, ptr, left - 1);
      if ptr >= |s| {
        break;
      }
      var len, next := UnserialiseLength(s, ptr);
      if len.None? || len.value > |s| - next {
        return None, p;
      }
      FurtherTwice(StringAt(s[next + len.value..], if left == 1 then 0 else left - 2), next + len.value - ptr, ptr - p);
      ptr, length := next, len.value;
      left := left - 1;
      if left == 0 {
        return Some(s[ptr..ptr + length]), ptr + length;
      }
    }
    return Some([]), p;
  }
}
