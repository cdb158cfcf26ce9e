/** The encoder object: its constructor fills the tables, `Encode` and `Decode` run over them. */
module BaseX {
  import opened Arith
  import opened BaseXDigits
  import opened BaseXCodec
  import opened BaseXTables

  /** The number of bits of a base that is a power of two, 0 for any other base. */
  function BaseBits(base: nat): (bits: nat)
    ensures bits <= 8 && (bits > 0 ==> base == Pow(2, bits))
  {
    if base == 2 then 1 else if base == 4 then 2 else if base == 8 then 3 else if base == 16 then 4
    else if base == 32 then 5 else if base == 64 then 6 else if base == 128 then 7 else if base == 256 then 8
    else 0
  }

  /** Enter an ordinal, for both cases of a letter if case is ignored. */
  method EnterOrd(ord: array<int>, ch: Octet, cp: int, ignoreCase: bool)
    requires ord.Length == 256
    modifies ord
    ensures ord[..] == SetOrd(old(ord[..]), ch, cp, ignoreCase)
  {
    ord[ch] := cp;
    if ignoreCase {
      if IsUpper(ch) {
        ord[ch - 'A' as int + 'a' as int] := cp;
      } else if IsLower(ch) {
        ord[ch - 'a' as int + 'A' as int] := cp;
      }
    }
  }

  /** The digits emitted so far, with their characters and their sum. */
  ghost predicate Emitted(c: Codec, n: nat, ds: seq<nat>, result: seq<Octet>, sum: nat) {
    && Wf(c) && LowPart(n, c.base, ds)
    && AllBelow(ds, c.size) && result == Chars(c, ds) && sum == Sum(ds)
  }

  lemma StartDigits(c: Codec, n: nat)
    requires Wf(c)
    ensures Emitted(c, n, [], [], 0)
  {
    LowPartNone(n, c.base);
  }

  lemma EmitDigit(c: Codec, n: nat, bits: nat, ds: seq<nat>, d: nat, result: seq<Octet>, sum: nat)
    requires Emitted(c, n, ds, result, sum) && bits > 0 && c.base == Pow(2, bits)
    requires d == LowBits(ShiftRight(n, BitAt(bits, |ds|)), c.base)
    ensures d < |c.chr| && Emitted(c, n, ds + [d], result + [c.chr[d]], sum + d)
    ensures BitAt(bits, |ds| + 1) == BitAt(bits, |ds|) + bits
    ensures ShiftRight(n, BitAt(bits, |ds| + 1)) == ShiftRight(n, BitAt(bits, |ds|)) / c.base
  {
    hide Pow, LowPart, Sum, ShiftRight, BitAt, LowBits;
    NextDigit(n, bits, ds, d);
    assert Chars(c, ds + [d]) == Chars(c, ds) + [c.chr[d]];
    SumSnoc(ds, d);
  }

  lemma SumSnoc(ds: seq<nat>, d: nat)
    ensures Sum(ds + [d]) == Sum(ds) + d
  {
    assert (ds + [d])[..|ds|] == ds;
  }

  lemma FinishDigits(c: Codec, n: nat, bits: nat, ds: seq<nat>, result: seq<Octet>, sum: nat)
    requires Emitted(c, n, ds, result, sum) && bits > 0 && c.base == Pow(2, bits)
    requires ShiftRight(n, BitAt(bits, |ds|)) == 0
    ensures AllBelow(ds, c.base) && Value(ds, c.base) == n
    ensures result == Chars(c, ds) && sum == Sum(ds)
  {
    hide Pow, Sum;
    DigitsEnd(n, bits, ds);
  }

  /** Digits written out, with their sum. */
  ghost predicate Written(c: Codec, ds: seq<nat>, result: seq<Octet>, sum: nat) {
    Wf(c) && AllBelow(ds, c.size) && result == Chars(c, ds) && sum == Sum(ds)
  }

  lemma ShrinkStep(c: Codec, ds: seq<nat>)
    requires Wf(c) && AllBelow(ds, c.size)
    ensures |Chars(c, ds)| == |ds|
    ensures ds != [] ==>
              var n, cs := |ds| - 1, Chars(c, ds);
              AllBelow(ds[..n], c.size) && Chars(c, ds[..n]) == cs[..n] && (cs[n] == c.chr[0] <==> ds[n] == 0)
  {
    OrdinalsDiffer(c);
  }

  lemma WrittenNone(c: Codec)
    requires Wf(c)
    ensures Written(c, [], [], 0)
  {
  }

  lemma WriteDigit(c: Codec, ds: seq<nat>, d: nat, result: seq<Octet>, sum: nat)
    requires Written(c, ds, result, sum) && d < c.size
    ensures d < |c.chr| && Written(c, ds + [d], result + [c.chr[d]], sum + d)
  {
    hide Sum;
    assert Chars(c, ds + [d]) == Chars(c, ds) + [c.chr[d]];
    SumSnoc(ds, d);
  }

  /** The checksum digit as the encoder computes it, from the running sum and the length written. */
  lemma ChecksumIs(c: Codec, ds: seq<nat>, result: seq<Octet>, sum: nat)
    requires Written(c, ds, result, sum)
    ensures sum == Sum(ds) && c.size > 0
    ensures Complement(c.size, sum + Spread(c.size, |result|)) == Checksum(c.size, ds)
  {
    hide Complement, Spread;
  }

  lemma EncodeIs(c: Codec, n: nat, result: seq<Octet>, total: nat)
    requires Wf(c) && n > 0
    requires Written(c, if c.checksum then Body(c, n) + [Checksum(c.size, Body(c, n))] else Body(c, n), result, total)
    ensures result == Encode(c, n)
  {
    hide Body, Checksum;
    assert Body(c, n) + [] == Body(c, n);
  }

  lemma BodyIs(c: Codec, n: nat)
    requires Wf(c)
    ensures Body(c, n) == if c.check then Leading(c, n) + [LowBits(n, c.size)] else Leading(c, n)
  {
  }

  /** The digits of a number, most significant first. */
  function Leading(c: Codec, n: nat): seq<nat>
    requires c.base > 1
  {
    Reverse(Digits(n, c.base))
  }

  lemma EncodeZeroIs(c: Codec)
    requires Wf(c)
    ensures Encode(c, 0) == [c.chr[0]]
  {
  }

  lemma ReverseWritten(c: Codec, ds: seq<nat>, result: seq<Octet>, sum: nat)
    requires Written(c, ds, result, sum)
    ensures Written(c, Reverse(ds), Reverse(result), sum)
  {
    hide Sum;
    SumReverse(ds);
  }

  /** Without leading zeros, the digits of the shift register are the digits by division. */
  lemma ShrunkDigits(c: Codec, ds: seq<nat>, n: nat, result: seq<Octet>, sum: nat)
    requires Wf(c) && AllBelow(ds, c.base) && Value(ds, c.base) == n && sum == Sum(ds)
    requires AllBelow(Strip(ds), c.size) && result == Chars(c, Strip(ds))
    ensures Strip(ds) == Digits(n, c.base) && Written(c, Digits(n, c.base), result, sum)
  {
    hide Sum, Value, Digits;
    ValueStrip(ds, c.base);
    SumStrip(ds);
    DigitsUnique(Strip(ds), c.base);
  }

  /** No other ordinal has the character of zero. */
  lemma OrdinalsDiffer(c: Codec)
    requires Wf(c)
    ensures forall d :: 0 < d < c.size ==> c.chr[d] != c.chr[0]
  {
    forall d | 0 < d < c.size
      ensures c.chr[d] != c.chr[0]
    {
      assert c.ord[c.chr[d]] == d && c.ord[c.chr[0]] == 0;
    }
  }

  lemma StripStep(ds: seq<nat>)
    ensures ds == [] || ds[|ds| - 1] != 0 ==> Strip(ds) == ds
    ensures ds != [] && ds[|ds| - 1] == 0 ==> Strip(ds) == Strip(ds[..|ds| - 1])
  {
  }

  lemma ScanStep(c: Codec, data: seq<Octet>, pos: nat, value: nat, sum: nat, count: nat)
    requires |c.ord| == 256 && pos < |data|
    ensures var d := c.ord[data[pos]];
            ScanDigits(c, data[pos..], value, sum, count) ==
            if data[pos] == PADDING then Scanned(data[pos..], value, sum, count)
            else if d < 0 then ScanDigits(c, data[pos + 1..], value, sum, count)
            else if d >= c.base then Bad
            else ScanDigits(c, data[pos + 1..], Appended(value, c.base, d), sum + d, count + 1)
  {
    hide Appended;
    assert data[pos..][0] == data[pos] && data[pos..][1..] == data[pos + 1..];
  }

  lemma ScanEnd(c: Codec, value: nat, sum: nat, count: nat)
    requires |c.ord| == 256
    ensures ScanDigits(c, [], value, sum, count) == Scanned([], value, sum, count)
  {
  }

  lemma DigitsStep(n: nat, base: nat)
    requires base > 1
    ensures n > 0 ==>
              Digits(n, base) == [LowBits(n, base)] + Digits(Quotient(n, base), base) && Quotient(n, base) < n
    ensures Digits(0, base) == []
  {
    if n > 0 { DivLess(n, base); }
  }

  function Quotient(v: nat, base: nat): nat
    requires base > 0
  {
    v / base
  }

  class BaseX {
    const chr: array<Octet>
    const ord: array<int>
    const base: nat
    const size: nat
    const bits: nat
    const check: bool
    const checksum: bool

    ghost function View(): Codec
      reads chr, ord
    {
      Codec(chr[..], ord[..], base, size, check, checksum)
    }

    ghost predicate Valid()
      reads chr, ord
    {
      Wf(View()) && bits == BaseBits(base)
    }

    constructor (alphabet: seq<Octet>, extended: seq<Octet>, translate: seq<Octet>, ignoreCase: bool,
                 check: bool, checksum: bool)
      requires |alphabet| + |extended| <= 256
      ensures fresh(chr) && fresh(ord) && chr.Length == 256
      ensures Accepted(alphabet, extended, translate, ignoreCase) ==>
                Valid() && Built(View(), alphabet, extended, translate, ignoreCase)
      ensures base == |alphabet| && size == |alphabet| + |extended|
      ensures this.check == check && this.checksum == checksum
      ensures chr[..size] == alphabet + extended
      ensures ord[..] == OrdTable(alphabet, extended, translate, ignoreCase)
    {
      base, size, bits := |alphabet|, |alphabet| + |extended|, BaseBits(|alphabet|);
      this.check, this.checksum := check, checksum;
      chr := new Octet[256];
      ord := new int[256];
      new;
      FillChr(alphabet, extended);
      FillOrd(alphabet, extended, translate, ignoreCase);
      ghost var s := alphabet + extended;
      if Accepted(alphabet, extended, translate, ignoreCase) {
        forall i | 0 <= i < size
          ensures chr[i] != PADDING && ord[chr[i]] == i
        {
          assert chr[i] == chr[..size][i] == s[i];
          OrdFinds(alphabet, extended, translate, ignoreCase, i, s[i]);
        }
      }
    }

    lemma Facts()
      requires Valid()
      ensures Wf(View()) && View().base == base && View().size == size && View().check == check && View().checksum == checksum
      ensures 2 <= base <= size <= 256 && chr.Length == 256 && ord.Length == 256
      ensures View().chr == chr[..] && View().ord == ord[..]
      ensures bits > 0 ==> base == Pow(2, bits) && bits <= 8
    {
    }

    method FillChr(alphabet: seq<Octet>, extended: seq<Octet>)
      requires chr.Length == 256 && |alphabet| + |extended| == size <= 256 && base == |alphabet|
      modifies chr
      ensures chr[..size] == alphabet + extended
    {
      for c := 0 to 256 {
        chr[c] := 0;
      }
      for cp := 0 to base
        invariant chr[..cp] == alphabet[..cp]
      {
        chr[cp] := alphabet[cp];
      }
      for i := 0 to |extended|
        invariant chr[..base + i] == alphabet + extended[..i]
      {
        chr[base + i] := extended[i];
      }
    }

    method FillOrd(alphabet: seq<Octet>, extended: seq<Octet>, translate: seq<Octet>, ignoreCase: bool)
      requires ord.Length == 256 && base == |alphabet|
      modifies ord
      ensures ord[..] == OrdTable(alphabet, extended, translate, ignoreCase)
    {
      hide SetOrd;
      ghost var blank: Table := seq(256, i => base);
      for c := 0 to 256
        invariant forall i :: 0 <= i < c ==> ord[i] == base
      {
        ord[c] := base;
      }
      assert ord[..] == blank && alphabet[..0] == [];
      for cp := 0 to base
        invariant ord[..] == PlaceAll(blank, alphabet[..cp], 0, ignoreCase)
      {
        assert alphabet[..cp + 1][..cp] == alphabet[..cp];
        EnterOrd(ord, alphabet[cp], cp, ignoreCase);
      }
      assert alphabet[..base] == alphabet && extended[..0] == [];
      ghost var first: Table := ord[..];
      for i := 0 to |extended|
        invariant ord[..] == PlaceAll(first, extended[..i], base, ignoreCase)
      {
        assert extended[..i + 1][..i] == extended[..i];
        EnterOrd(ord, extended[i], base + i, ignoreCase);
      }
      assert extended[..|extended|] == extended && translate[..0] == [];
      ghost var placed: Table := ord[..];
      var cp := -1;
      for i := 0 to |translate|
        invariant Translation(ord[..], cp) == Translate(placed, translate[..i], base, ignoreCase)
      {
        assert translate[..i + 1][..i] == translate[..i];
        var ncp := ord[translate[i]];
        if ncp >= base {
          EnterOrd(ord, translate[i], cp, ignoreCase);
        } else {
          cp := ncp;
        }
      }
      assert translate[..|translate|] == translate;
    }

    /** The digits that start within the lower half digit of the window `v`, or right after it. */
    method ReadWindow(v: nat, shift0: nat, result0: seq<Octet>, sum0: nat, ghost h: seq<nat>, ghost j: nat, ghost ds0: seq<nat>)
      returns (shift: nat, result: seq<Octet>, sum: nat, ghost ds: seq<nat>)
      requires Valid() && bits > 0 && AllBelow(h, HALF) && 1 <= j < |h| && v == h[j - 1] + h[j] * HALF
      requires shift0 <= 8 && 32 * (j - 1) + shift0 == BitAt(bits, |ds0|)
      requires Emitted(View(), Value(h, HALF), ds0, result0, sum0)
      ensures 32 < shift <= 40 && 32 * (j - 1) + shift == BitAt(bits, |ds|)
      ensures Emitted(View(), Value(h, HALF), ds, result, sum)
    {
      hide Pow, Value, Emitted, Wf, BaseBits, LowBits, ShiftRight, BitAt;
      ghost var c, n := View(), Value(h, HALF);
      shift, result, sum, ds := shift0, result0, sum0, ds0;
      var more := true;
      while more
        invariant shift <= 40 && (more ==> shift <= 32) && (!more ==> shift > 32)
        invariant 32 * (j - 1) + shift == BitAt(bits, |ds|)
        invariant Emitted(c, n, ds, result, sum)
        decreases 40 - shift
      {
        var d := LowBits(ShiftRight(v, shift), base);
        WindowBits(h, j, shift, bits);
        EmitDigit(c, n, bits, ds, d, result, sum);
        result := result + [chr[d]];
        ds := ds + [d];
        shift := shift + bits;
        sum := sum + d;
        more := shift <= 32;
      }
    }

    /** The digits left once the window has reached the end. */
    method ReadRest(v0: nat, result0: seq<Octet>, sum0: nat, ghost n: nat, ghost ds0: seq<nat>)
      returns (result: seq<Octet>, sum: nat, ghost ds: seq<nat>)
      requires Valid() && bits > 0 && v0 == ShiftRight(n, BitAt(bits, |ds0|))
      requires Emitted(View(), n, ds0, result0, sum0)
      ensures AllBelow(ds, base) && Value(ds, base) == n
      ensures result == Chars(View(), ds) && sum == Sum(ds)
    {
      hide Valid, View, Pow, Value, Emitted, Wf, BaseBits, Chars, Sum, LowBits, ShiftRight, BitAt;
      Facts();
      ghost var c := View();
      var v := v0;
      result, sum, ds := result0, sum0, ds0;
      while v != 0
        invariant v == ShiftRight(n, BitAt(bits, |ds|))
        invariant Emitted(c, n, ds, result, sum)
        decreases v
      {
        var d := LowBits(v, base);
        EmitDigit(c, n, bits, ds, d, result, sum);
        result := result + [chr[d]];
        ds := ds + [d];
        DivLess(v, base);
        v := v / base;
        sum := sum + d;
      }
      FinishDigits(c, n, bits, ds, result, sum);
    }

    /** The shift-register path: every digit is cut out of a 64-bit window over two half digits. */
    method ShiftDigits(h: seq<nat>) returns (result: seq<Octet>, sum: nat, ghost ds: seq<nat>)
      requires Valid() && bits > 0 && AllBelow(h, HALF) && |h| >= 2
      ensures AllBelow(ds, base) && Value(ds, base) == Value(h, HALF)
      ensures result == Chars(View(), ds) && sum == Sum(ds)
    {
      hide Pow, Value, Emitted, Wf, BaseBits, Chars, Sum, LowBits, ShiftRight, BitAt;
      ghost var n := Value(h, HALF);
      result, sum, ds := [], 0, [];
      StartDigits(View(), n);
      BitAtNone(bits);
      var shift: nat, j: nat := 0, 1;
      var v: nat := h[0] * HALF;
      while j < |h|
        invariant 1 <= j <= |h| && v / HALF == h[j - 1] && shift <= 8
        invariant 32 * (j - 1) + shift == BitAt(bits, |ds|)
        invariant j == |h| ==> v == h[j - 2] + h[j - 1] * HALF
        invariant Emitted(View(), n, ds, result, sum)
      {
        v := v / HALF + h[j] * HALF;
        shift, result, sum, ds := ReadWindow(v, shift, result, sum, h, j, ds);
        shift := shift - 32;
        j := j + 1;
      }
      WindowRest(h, shift + 32);
      v := ShiftRight(v, shift + 32);
      result, sum, ds := ReadRest(v, result, sum, n, ds);
    }

    /** The division path, for a base that is not a power of two. */
    method DivideDigits(n: nat) returns (result: seq<Octet>, sum: nat, ghost ds: seq<nat>)
      requires Valid() && n > 0
      ensures ds == Digits(n, base) && Written(View(), ds, result, sum)
    {
      hide Valid, View, Written, Wf, Digits, LowBits, Quotient;
      Facts();
      WrittenNone(View());
      ghost var c := View();
      result, sum, ds := [], 0, [];
      var quotient: nat, more := n, true;
      while more
        invariant more <==> quotient != 0
        invariant Written(c, ds, result, sum)
        invariant Digits(n, base) == ds + Digits(quotient, base)
        decreases quotient
      {
        var d := LowBits(quotient, base);
        DigitsStep(quotient, base);
        WriteDigit(c, ds, d, result, sum);
        result := result + [chr[d]];
        ds := ds + [d];
        quotient := Quotient(quotient, base);
        sum := sum + d;
        more := quotient != 0;
      }
      DigitsStep(0, base);
    }

    /** Drop the leading zeros, which are still at the end. */
    method Shrink(result0: seq<Octet>, ghost ds: seq<nat>) returns (result: seq<Octet>)
      requires Valid() && AllBelow(ds, size) && result0 == Chars(View(), ds)
      ensures AllBelow(Strip(ds), size) && result == Chars(View(), Strip(ds))
    {
      hide Valid, View, Wf, Strip, Chars, AllBelow;
      Facts();
      ghost var c := View();
      result := result0;
      ghost var left := ds;
      ShrinkStep(c, left);
      while result != [] && result[|result| - 1] == chr[0]
        invariant AllBelow(left, size) && result == Chars(c, left) && |left| == |result| && Strip(left) == Strip(ds)
        invariant left != [] ==> (result[|result| - 1] == chr[0] <==> left[|left| - 1] == 0)
        decreases |result|
      {
        ShrinkStep(c, left);
        StripStep(left);
        result := result[..|result| - 1];
        left := left[..|left| - 1];
        ShrinkStep(c, left);
      }
      StripStep(left);
    }

    /** Write one more digit. */
    method Push(d: nat, result0: seq<Octet>, sum0: nat, ghost ds: seq<nat>) returns (result: seq<Octet>, sum: nat)
      requires Valid() && d < size && Written(View(), ds, result0, sum0)
      ensures Written(View(), ds + [d], result, sum) && sum == sum0 + d
    {
      hide Written;
      WriteDigit(View(), ds, d, result0, sum0);
      result, sum := result0 + [chr[d]], sum0 + d;
    }

    /** The check digit, where the encoder has one. */
    method AddCheck(n: nat, result0: seq<Octet>, sum0: nat) returns (result: seq<Octet>, sum: nat)
      requires Valid() && Written(View(), Leading(View(), n), result0, sum0)
      ensures Written(View(), Body(View(), n), result, sum)
    {
      hide Valid, Written, Leading, LowBits, Wf, Body, View;
      Facts();
      ghost var c := View();
      BodyIs(c, n);
      result, sum := result0, sum0;
      if check {
        result, sum := Push(LowBits(n, size), result, sum, Leading(c, n));
      }
    }

    /** The checksum digit, where the encoder has one. */
    method AddChecksum(result0: seq<Octet>, sum0: nat, ghost ds: seq<nat>) returns (result: seq<Octet>, ghost total: nat)
      requires Valid() && Written(View(), ds, result0, sum0)
      ensures Written(View(), if checksum then ds + [Checksum(size, ds)] else ds, result, total)
    {
      hide Valid, Written, Wf, Complement, Spread, Checksum, View, Sum;
      Facts();
      ghost var c := View();
      result, total := result0, sum0;
      if checksum {
        ChecksumIs(c, ds, result, sum0);
        var sum := sum0 + Spread(size, |result|);
        sum := Complement(size, sum);
        result, sum := Push(sum, result, sum0, ds);
        total := sum;
      }
    }

    /** `encode` */
    method Encode(h: seq<nat>) returns (result: seq<Octet>)
      requires Valid() && HalfDigits(h)
      ensures result == BaseXCodec.Encode(View(), Value(h, HALF))
    {
      hide Valid, View, Chars, Sum, Written, Reverse, Digits, Strip, Body, BaseXCodec.Encode, Checksum, Wf;
      Facts();
      var n := Value(h, HALF);
      if h == [] {
        result := [chr[0]];
        EncodeZeroIs(View());
        return;
      }
      NonZero(h);
      var sum: nat;
      ghost var ds;
      if bits > 0 {
        result, sum, ds := ShiftDigits(h);
        result := Shrink(result, ds);
        ShrunkDigits(View(), ds, n, result, sum);
      } else {
        result, sum, ds := DivideDigits(n);
      }
      ReverseWritten(View(), Digits(n, base), result, sum);
      result := Reverse(result);
      result, sum := AddCheck(n, result, sum);
      ghost var total;
      result, total := AddChecksum(result, sum, Body(View(), n));
      EncodeIs(View(), n, result, total);
    }

    /** Read the digits of `s[..n]`, up to its end or a padding character. */
    method ReadDigits(s: seq<Octet>, n: nat) returns (ok: bool, pos: nat, value: nat, sum: nat, count: nat)
      requires Valid() && n <= |s|
      ensures pos <= n
      ensures ScanDigits(View(), s[..n], 0, 0, 0) == if ok then Scanned(s[pos..n], value, sum, count) else Bad
    {
      hide Valid, Wf, View, ScanDigits, Appended;
      Facts();
      ghost var c, data := View(), s[..n];
      ok, pos, value, sum, count := true, 0, 0, 0, 0;
      assert data[0..] == data;
      while pos < n
        invariant pos <= n && ScanDigits(c, data, 0, 0, 0) == ScanDigits(c, data[pos..], value, sum, count)
      {
        var ch := s[pos];
        ScanStep(c, data, pos, value, sum, count);
        if ch == PADDING {
          assert data[pos..] == s[pos..n];
          return;
        }
        var d := ord[ch];
        if d >= 0 {
          if d >= base {
            ok := false;
            return;
          }
          sum := sum + d;
          count := count + 1;
          value := Appended(value, base, d);
        }
        pos := pos + 1;
      }
      ScanEnd(c, value, sum, count);
      assert data[pos..] == [] && s[pos..n] == [];
    }

    method SkipPad(s: seq<Octet>, pos0: nat, n: nat) returns (pos: nat)
      requires pos0 <= n <= |s|
      ensures pos <= n && s[pos..n] == SkipPadding(s[pos0..n])
    {
      pos := pos0;
      while pos < n && s[pos] == PADDING
        invariant pos <= n && SkipPadding(s[pos0..n]) == SkipPadding(s[pos..n])
      {
        assert s[pos..n][1..] == s[pos + 1..n];
        pos := pos + 1;
      }
      assert pos < n ==> s[pos..n][0] == s[pos];
    }

    /** `decode` */
    method Decode(s: seq<Octet>) returns (r: Result)
      requires Valid() && |s| >= Checks(View())
      ensures r == BaseXCodec.Decode(View(), s)
    {
      hide Valid, View, Wf, Verify, ScanDigits, SkipPadding;
      Facts();
      var n := |s| - (if check then 1 else 0) - (if checksum then 1 else 0);
      var ok, pos, value, sum, count := ReadDigits(s, n);
      if !ok {
        return Err;
      }
      pos := SkipPad(s, pos, n);
      assert s[pos..n] + s[n..] == s[pos..];
      r := VerifyTail(s, pos, value, sum, count);
    }

    method VerifyTail(s: seq<Octet>, pos0: nat, value: nat, sum0: nat, count0: nat) returns (r: Result)
      requires Valid() && pos0 + Checks(View()) <= |s|
      ensures r == Verify(View(), s[pos0..], value, sum0, count0)
    {
      var pos, sum, count := pos0, sum0, count0;
      if check {
        var d := ord[s[pos]];
        if d < 0 || d >= size {
          return Err;
        }
        var chk := value % size;
        if d != chk {
          return Err;
        }
        sum := sum + chk;
        count := count + 1;
        pos := pos + 1;
      }
      if checksum {
        var d := ord[s[pos]];
        if d < 0 || d >= size {
          return Err;
        }
        sum := sum + d;
        sum := sum + (count + count / size) % size;
        if sum % size != 0 {
          return Err;
        }
      }
      r := Ok(value);
    }
  }
}
