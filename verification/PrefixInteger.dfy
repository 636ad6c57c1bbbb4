/**
 Integers with an N-bit prefix (section 5.1 of RFC 7541), as written and read by
 the QPACK codec.
 */
module PrefixInteger {
  import opened Bytes

  function Mask(n: nat): (m: nat)
    requires 1 <= n <= 8
    ensures 1 <= m <= 255 && 256 % (m + 1) == 0
  {
    if n == 1 then 1 else if n == 2 then 3 else if n == 3 then 7 else if n == 4 then 15
    else if n == 5 then 31 else if n == 6 then 63 else if n == 7 then 127 else 255
  }

  function Pow2(n: nat): (p: nat)
    ensures p >= 1
  {
    if n == 0 then 1 else 2 * Pow2(n - 1)
  }

  /** Flag bits sit above the prefix. */
  predicate IsFlags(flags: Byte, n: nat)
    requires 1 <= n <= 8
  {
    flags % (Mask(n) + 1) == 0
  }

  /** The continuation bytes: seven bits each, least significant group first. */
  function Tail(v: nat): (bs: seq<Byte>)
    ensures 1 <= |bs|
  {
    if v < 128 then [v] else [v % 128 + 128] + Tail(v / 128)
  }

  function Encode(v: nat, n: nat, flags: Byte): (bs: seq<Byte>)
    requires 1 <= n <= 8 && IsFlags(flags, n)
    ensures 1 <= |bs|
    ensures bs[0] == flags + Min(v, Mask(n))
  {
    FlagsLeaveRoom(flags, n);
    if v < Mask(n) then [flags + v] else [flags + Mask(n)] + Tail(v - Mask(n))
  }

  lemma FlagsLeaveRoom(flags: Byte, n: nat)
    requires 1 <= n <= 8 && IsFlags(flags, n)
    ensures flags + Mask(n) < 256
  {
  }

  function DecodeTail(acc: nat, bs: seq<Byte>, shift: nat): (r: Read<nat>)
    ensures r.Got? ==> |r.rest| < |bs| && r.value < U64
    decreases |bs|
  {
    if bs == [] then Raised
    else
      var v := acc + bs[0] % 128 * Pow2(shift) % U64;
      if v >= U64 then Raised
      else if bs[0] < 128 then Got(v, bs[1..])
      else DecodeTail(v, bs[1..], shift + 7)
  }

  /** Reads an integer whose first byte `first` has already been taken off the stream. */
  function Decode(first: Byte, n: nat, bs: seq<Byte>): (r: Read<nat>)
    requires 1 <= n <= 8
    ensures r.Got? ==> |r.rest| <= |bs| && r.value < U64
  {
    var v := first % (Mask(n) + 1);
    if v < Mask(n) then Got(v, bs) else DecodeTail(v, bs, 0)
  }

  lemma {:induction false} Pow2Step7(m: nat)
    ensures Pow2(m + 7) == 128 * Pow2(m)
  {
    assert Pow2(m + 7) == 2 * Pow2(m + 6) == 4 * Pow2(m + 5);
    assert Pow2(m + 5) == 2 * Pow2(m + 4) == 4 * Pow2(m + 3);
    assert Pow2(m + 3) == 2 * Pow2(m + 2) == 4 * Pow2(m + 1);
  }

  lemma SplitGroup(v: nat, p: nat)
    requires v * p < U64
    ensures v * p == v % 128 * p + v / 128 * (128 * p)
    ensures 0 <= v % 128 * p < U64 && 0 <= v / 128 * (128 * p)
    ensures v % 128 * p % U64 == v % 128 * p
  {
    var lo, hi := v % 128, v / 128;
    assert (lo + 128 * hi) * p == lo * p + 128 * hi * p;
    assert 128 * hi * p == hi * (128 * p);
    assert 0 <= lo * p && 0 <= hi * (128 * p);
  }

  lemma {:induction false} TailRoundTrip(acc: nat, v: nat, shift: nat, rest: seq<Byte>)
    requires acc + v * Pow2(shift) < U64
    ensures DecodeTail(acc, Tail(v) + rest, shift) == Got(acc + v * Pow2(shift), rest)
    decreases v
  {
    var p := Pow2(shift);
    var bs := Tail(v) + rest;
    if v < 128 {
      SplitGroup(v, p);
      assert bs[1..] == rest;
      assert bs[0] % 128 == v;
    } else {
      var lo, hi := v % 128, v / 128;
      assert bs[1..] == Tail(hi) + rest;
      SplitGroup(v, p);
      Pow2Step7(shift);
      assert bs[0] % 128 == lo;
      TailRoundTrip(acc + lo * p, hi, shift + 7, rest);
    }
  }

  /** Reading back what was written gives the value, for every 64-bit value and every prefix. */
  lemma EncodeDecode(v: nat, n: nat, flags: Byte, rest: seq<Byte>)
    requires 1 <= n <= 8 && IsFlags(flags, n) && v < U64
    ensures var bs := Encode(v, n, flags) + rest;
            Decode(bs[0], n, bs[1..]) == Got(v, rest)
  {
    hide Pow2, DecodeTail;
    var w := Mask(n) + 1;
    var bs := Encode(v, n, flags) + rest;
    FlagsLeaveRoom(flags, n);
    PrefixBits(flags, Min(v, Mask(n)), w);
    if v < Mask(n) {
      assert bs[1..] == rest;
    } else {
      assert bs[1..] == Tail(v - Mask(n)) + rest;
      Pow2OfZero();
      TailRoundTrip(Mask(n), v - Mask(n), 0, rest);
    }
  }

  lemma PrefixBits(flags: nat, v: nat, w: nat)
    requires 0 < w && flags % w == 0 && v < w
    ensures (flags + v) % w == v
  {
    var q := flags / w;
    assert flags == q * w;
    assert flags + v == q * w + v;
    ModUnique(flags + v, w, q, v);
  }

  lemma ModUnique(x: int, w: nat, q: int, r: nat)
    requires 0 < w && x == q * w + r && r < w
    ensures x % w == r && x / w == q
  {
    var d := x / w - q;
    assert x == x / w * w + x % w;
    assert d * w == r - x % w by {
      assert d * w == x / w * w - q * w;
    }
    assert d >= 1 ==> d * w >= w;
    assert d <= -1 ==> d * w <= -1 * w;
  }

  /** A prefix of `n` bits holds the values below its all-ones pattern. */
  lemma MaskIsAllOnes(n: nat)
    requires 1 <= n <= 8
    ensures Mask(n) == Pow2(n) - 1
  {
    assert Pow2(1) == 2 && Pow2(2) == 4 && Pow2(3) == 8 && Pow2(4) == 16;
    assert Pow2(5) == 32 && Pow2(6) == 64 && Pow2(7) == 128 && Pow2(8) == 256;
  }

  /** The three examples of appendix C.1 of RFC 7541. */
  lemma PublishedExamples()
    ensures Encode(10, 5, 0) == [10] && Encode(1337, 5, 0) == [31, 154, 10] && Encode(42, 8, 0) == [42]
  {
    assert Tail(1306) == [154] + Tail(10);
  }

  /** The writer's loop: continuation bytes are produced while the value is at least 128. */
  method Write(value: nat, n: nat, flags: Byte) returns (out: seq<Byte>)
    requires 1 <= n <= 8 && IsFlags(flags, n)
    ensures out == Encode(value, n, flags)
  {
    FlagsLeaveRoom(flags, n);
    var mask := Mask(n);
    if value < mask {
      return [flags + value];
    }
    out := [flags + mask];
    var v := value - mask;
    while v >= 128
      invariant 0 <= v
      invariant out + Tail(v) == [flags + mask] + Tail(value - mask)
    {
      ghost var before, t := out, Tail(v / 128);
      out := out + [v % 128 + 128];
      assert out + t == before + ([v % 128 + 128] + t);
      v := v / 128;
    }
    out := out + [v];
  }

  /** The reader's loop over a buffer cursor. */
  method ReadAt(first: Byte, n: nat, buf: seq<Byte>, pos: nat) returns (value: Option<nat>, next: nat)
    requires 1 <= n <= 8 && pos <= |buf|
    ensures pos <= next <= |buf|
    ensures value.None? ==> Decode(first, n, buf[pos..]) == Raised
    ensures value.Some? ==> Decode(first, n, buf[pos..]) == Got(value.value, buf[next..])
  {
    var v, m := first % (Mask(n) + 1), 0;
    next := pos;
    if v < Mask(n) {
      return Some(v), next;
    }
    while true
      invariant pos <= next <= |buf| && 0 <= v < U64
      invariant DecodeTail(v, buf[next..], m) == Decode(first, n, buf[pos..])
      decreases |buf| - next
    {
      if next == |buf| {
        return None, next;
      }
      var b := buf[next];
      var sum := v + b % 128 * Pow2(m) % U64;
      assert buf[next..][1..] == buf[next + 1..];
      if sum >= U64 {
        return None, next;
      }
      v, m, next := sum, m + 7, next + 1;
      if b < 128 {
        return Some(v), next;
      }
    }
  }

  /** A sum beyond 64 bits raises, at whichever group it gets there. */
  lemma {:induction false} TailOverflow(acc: nat, v: nat, shift: nat, rest: seq<Byte>)
    requires acc < U64 && v * Pow2(shift) < U64 <= acc + v * Pow2(shift)
    ensures DecodeTail(acc, Tail(v) + rest, shift) == Raised
    decreases v
  {
    var p := Pow2(shift);
    var bs := Tail(v) + rest;
    SplitGroup(v, p);
    if v < 128 {
      assert bs[0] % 128 == v;
    } else {
      var lo, hi := v % 128, v / 128;
      assert bs[1..] == Tail(hi) + rest;
      assert bs[0] % 128 == lo;
      Pow2Step7(shift);
      if acc + lo * p < U64 {
        TailOverflow(acc + lo * p, hi, shift + 7, rest);
      }
    }
  }

  /** A value that needs more than 64 bits only because of the prefix raises. */
  lemma TooLargeRaises(v: nat, n: nat, flags: Byte, rest: seq<Byte>)
    requires 1 <= n <= 8 && IsFlags(flags, n) && U64 <= v < U64 + Mask(n)
    ensures var bs := Encode(v, n, flags) + rest; Decode(bs[0], n, bs[1..]) == Raised
  {
    var bs := Encode(v, n, flags) + rest;
    FlagsLeaveRoom(flags, n);
    PrefixBits(flags, Mask(n), Mask(n) + 1);
    assert bs[1..] == Tail(v - Mask(n)) + rest;
    assert Pow2(0) == 1;
    TailOverflow(Mask(n), v - Mask(n), 0, rest);
  }

  function Zeros(n: nat): seq<Byte> { if n == 0 then [] else [128] + Zeros(n - 1) }

  /**
   Larger ones do not all raise: bits shifted out of the 64 are lost, so this eleven-byte integer
   of 2^64 + 31 is read as 31.
   */
  lemma HighBitsLost(rest: seq<Byte>)
    ensures |Zeros(9)| == 9 && Decode(31, 5, Zeros(9) + ([2] + rest)) == Got(31, rest)
  {
    hide Pow2;
    ZeroGroups(31, 9, 0, [2] + rest);
    Pow2Of63();
    assert ([2] + rest)[1..] == rest && ([2] + rest)[0] == 2;
  }

  lemma Pow2Of63()
    ensures Pow2(63) == 0x8000_0000_0000_0000
  {
    hide Pow2;
    assert Pow2(0) == 1 by {
      Pow2OfZero();
    }
    Pow2Step7(0);
    Pow2Step7(7);
    Pow2Step7(14);
    Pow2Step7(21);
    Pow2Step7(28);
    Pow2Step7(35);
    Pow2Step7(42);
    Pow2Step7(49);
    Pow2Step7(56);
  }

  lemma Pow2OfZero()
    ensures Pow2(0) == 1
  {
  }

  lemma {:induction false} ZeroGroups(acc: nat, n: nat, shift: nat, rest: seq<Byte>)
    requires acc < U64
    ensures |Zeros(n)| == n
    ensures DecodeTail(acc, Zeros(n) + rest, shift) == DecodeTail(acc, rest, shift + 7 * n)
    decreases n
  {
    hide Pow2;
    var bs := Zeros(n) + rest;
    if n == 0 {
      assert bs == rest;
    } else {
      assert bs[0] == 128 && bs[1..] == Zeros(n - 1) + rest;
      ZeroGroups(acc, n - 1, shift + 7, rest);
      assert 128 % 128 * Pow2(shift) % U64 == 0;
    }
  }
}
