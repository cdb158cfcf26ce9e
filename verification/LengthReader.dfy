/**
 * The readers that take strings from a file through a buffer: `buffer`, the offset `off` in it, and
 * the count `acc` of bytes taken from the file. `rest` is what the file still holds; a read returns
 * fewer bytes than asked for only at the end of the file.
 */
module LengthReader {
  import opened Arith
  import opened Length
  import opened Wrappers


  // ----- a header is complete in its first ten bytes, unless it takes eleven

  lemma {:induction false} GroupsPrefix(s: seq<Octet>, n: nat, i: nat, acc: nat)
    requires n <= |s|
    ensures DecodeGroups(s, i, acc).Good? && DecodeGroups(s, i, acc).size <= n ==>
              DecodeGroups(s[..n], i, acc) == DecodeGroups(s, i, acc)
    ensures DecodeGroups(s[..n], i, acc).Good? ==> DecodeGroups(s[..n], i, acc) == DecodeGroups(s, i, acc)
    decreases n
  {
    hide ShiftLeft;
    if n > 0 && i <= 9 && s[0] < 128 {
      assert s[..n][1..] == s[1..][..n - 1];
      GroupsPrefix(s[1..], n - 1, i + 1, acc + ShiftLeft(s[0] % 128, 7 * i));
    }
  }

  lemma {:induction false} GroupsAtMost(s: seq<Octet>, i: nat, acc: nat)
    requires i <= 10
    ensures DecodeGroups(s, i, acc).Good? ==> DecodeGroups(s, i, acc).size <= 10 - i
    decreases 10 - i
  {
    hide ShiftLeft;
    if s != [] && i <= 9 && s[0] < 128 {
      GroupsAtMost(s[1..], i + 1, acc + ShiftLeft(s[0] % 128, 7 * i));
    }
  }

  /** A header has at most eleven bytes; a prefix decodes alike exactly when it holds the header. */
  lemma HeaderInPrefix(s: seq<Octet>, n: nat)
    requires n <= |s|
    ensures DecodeLength(s).Good? ==> DecodeLength(s).size <= 11
    ensures DecodeLength(s[..n]) == if DecodeLength(s).Good? && DecodeLength(s).size <= n then DecodeLength(s) else Bad
  {
    hide DecodeGroups;
    if s != [] {
      GroupsAtMost(s[1..], 0, 0);
      if n > 0 {
        assert s[..n][1..] == s[1..][..n - 1];
        GroupsPrefix(s[1..], n - 1, 0, 0);
      }
    }
  }

  lemma {:induction false} GroupsSize(n: nat, k: nat)
    requires n < Weight(k) && k >= 1
    ensures |Groups(n)| <= k
    decreases k
  {
    hide Weight;
    WeightStep(k - 1);
    if n >= 128 {
      if k == 1 {
        WeightZero();
        assert false;
      }
      GroupsSize(n / 128, k - 1);
    }
  }

  /** The header of a string shorter than 2^63 has at most ten bytes. */
  lemma HeaderSize(len: nat)
    requires len < TWO63
    ensures |EncodeLength(len)| <= 10
  {
    hide Weight, Groups;
    WeightNine();
    if len >= 255 {
      GroupsSize(len - 255, 9);
    }
  }

  /** Exactly the lengths from 2^63 + 255 on have a header of eleven bytes. */
  lemma ElevenBytes(len: nat)
    requires len < TWO64
    ensures |EncodeLength(len)| == 11 <==> len >= TWO63 + 255
  {
    hide Weight, Groups;
    WeightNine();
    WeightStep(9);
    if len >= TWO63 + 255 {
      GroupsCount(len - 255, 9);
    } else if len >= 255 {
      GroupsSize(len - 255, 9);
    }
  }

  lemma {:induction false} GroupsCount(n: nat, k: nat)
    requires Weight(k) <= n < Weight(k + 1)
    ensures |Groups(n)| == k + 1
  {
    hide Weight;
    WeightStep(k);
    WeightZero();
    if k > 0 {
      WeightStep(k - 1);
      WeightMore(k);
      GroupsCount(n / 128, k - 1);
    }
  }

  lemma WeightMore(k: nat)
    requires k > 0
    ensures Weight(k) >= 128
  {
    hide Weight;
    WeightStep(k - 1);
  }

  class Reader {
    var rest: seq<Octet>
    var buffer: seq<Octet>
    var off: nat
    var acc: nat

    ghost predicate Valid()
      reads this
    {
      off <= |buffer|
    }

    /** What has not been given to the caller: the tail of the buffer, then the file. */
    ghost function Unread(): seq<Octet>
      requires Valid()
      reads this
    {
      buffer[off..] + rest
    }

    constructor (file: seq<Octet>, buffer: seq<Octet>)
      ensures Valid() && Unread() == buffer + file && acc == 0 && rest == file
    {
      rest, this.buffer, off, acc := file, buffer, 0, 0;
    }

    /** `io::read`, with the count kept by its callers. */
    method Take(n: nat) returns (bytes: seq<Octet>)
      modifies this`rest, this`acc
      ensures old(rest) == bytes + rest && |bytes| <= n && (|bytes| < n ==> rest == [])
      ensures acc == old(acc) + |bytes|
    {
      var k := if n <= |rest| then n else |rest|;
      bytes, rest, acc := rest[..k], rest[k..], acc + k;
    }

    method Refill()
      requires Valid()
      modifies this`rest, this`acc, this`buffer
      ensures Valid() && Unread() == old(Unread()) && acc + |rest| == old(acc + |rest|)
      ensures old(|buffer| - off) != 10 ==> |buffer| - off > 10 || rest == []
      ensures old(|buffer| - off) == 10 ==> buffer == old(buffer)
    {
      if |buffer| - off < 10 {
        var bytes := Take(1024);
        buffer := buffer + bytes;
      }
    }

    /**
     * The length at the head of what is unread, as the in-memory decoder finds it. The one exception
     * is an eleven-byte header of which exactly ten bytes are buffered: that one is refused.
     */
    method ReadLength() returns (r: Option<nat>)
      requires Valid()
      modifies this
      ensures Valid() && acc + |rest| == old(acc + |rest|)
      ensures var d := DecodeLength(old(Unread()));
              if d.Good? && !(d.size == 11 && old(|buffer| - off) == 10)
              then r == Some(d.value) && Unread() == old(Unread())[d.size..]
              else r == None && Unread() == old(Unread())
    {
      hide DecodeLength;
      Refill();
      ghost var n := |buffer| - off;
      HeaderInPrefix(Unread(), n);
      assert Unread()[..n] == buffer[off..];
      var pos;
      r, pos := UnserialiseLength(buffer, off);
      if r.Some? {
        off := pos;
      }
    }

    /** The length found, and the rest of the string: from the buffer, or from both. */
    method ReadBytes(length: nat) returns (r: Option<seq<Octet>>)
      requires Valid()
      modifies this
      ensures Valid() && acc + |rest| == old(acc + |rest|)
      ensures r.Some? <==> length <= |old(Unread())|
      ensures r.Some? ==> r.value == old(Unread())[..length] && Unread() == old(Unread())[length..]
    {
      var available := |buffer| - off;
      if available >= length {
        r := Some(buffer[off..off + length]);
        buffer := buffer[off + length..];
        off := 0;
      } else {
        var str := buffer[off..];
        var bytes := Take(length - available);
        if |bytes| != length - available {
          return None;
        }
        r := Some(str + bytes);
        buffer, off := [], 0;
      }
    }

    /**
     * The string at the head of what is unread, as the in-memory decoder finds it, for lengths that a
     * signed 64-bit integer holds; `r` is None where the source throws.
     */
    method ReadString() returns (r: Option<seq<Octet>>)
      requires Valid()
      modifies this
      ensures Valid() && acc + |rest| == old(acc + |rest|)
      ensures var d, s := DecodeLength(old(Unread())), DecodeString(old(Unread()));
              (d.Good? ==> d.value < TWO63 && !(d.size == 11 && old(|buffer| - off) == 10)) ==>
              match s case Bad => r == None case Good(x, n) => r == Some(x) && Unread() == old(Unread())[n..]
    {
      hide DecodeLength;
      ghost var u, d := Unread(), DecodeLength(Unread());
      var length := ReadLength();
      if length.None? || length.value >= TWO63 {
        return None;
      }
      assert length.value <= |u[d.size..]| ==>
          u[d.size..][..length.value] == u[d.size..d.size + length.value] &&
          u[d.size..][length.value..] == u[d.size + length.value..];
      r := ReadBytes(length.value);
    }
  }

  /** One call returns the first of the strings, whatever is buffered, and leaves the others unread. */
  method ReadFirst(reader: Reader, ghost x: seq<Octet>, ghost others: seq<Octet>) returns (r: Option<seq<Octet>>)
    requires reader.Valid() && |x| < TWO63 && reader.Unread() == EncodeString(x) + others
    modifies reader
    ensures reader.Valid() && r == Some(x) && reader.Unread() == others
  {
    hide EncodeLength, DecodeLength;
    HeaderSize(|x|);
    StringRoundTrip(x, others);
    LengthRoundTrip(|x|, x + others);
    assert EncodeString(x) + others == EncodeLength(|x|) + (x + others);
    r := reader.ReadString();
  }

  /**
   * Reading as many strings as were written gives those strings in order, however they are spread
   * over the buffer and the file, and leaves what follows them.
   */
  method ReadStrings(reader: Reader, ghost xs: seq<seq<Octet>>, count: nat, ghost tail: seq<Octet>)
    returns (ys: seq<seq<Octet>>)
    requires reader.Valid() && Sized(xs, TWO63) && count == |xs|
    requires reader.Unread() == EncodeStrings(xs) + tail
    modifies reader
    ensures reader.Valid() && ys == xs && reader.Unread() == tail
  {
    hide EncodeString;
    ys := [];
    while |ys| < count
      invariant |ys| <= count && ys == xs[..|ys|] && reader.Valid()
      invariant reader.Unread() == EncodeStrings(xs[|ys|..]) + tail
    {
      ghost var i := |ys|;
      assert xs[i..][1..] == xs[i + 1..];
      assert EncodeStrings(xs[i..]) + tail == EncodeString(xs[i]) + (EncodeStrings(xs[i + 1..]) + tail);
      var r := ReadFirst(reader, xs[i], EncodeStrings(xs[i + 1..]) + tail);
      ys := ys + [r.value];
    }
  }
}
