/**
 The Required Insert Count travels modulo twice MaxEntries (section 4.5.1.1 of RFC 9204).
 The encoder of this code base always wraps at 256; its decoder derives the modulus from
 the capacity of its table.
 */
module RequiredInsertCounts {
  import opened Bytes
  import opened PrefixInteger

  function MaxEntries(capacity: nat): nat {
    if capacity > 0 then capacity / 32 else 128
  }

  /** The decoder's reconstruction; `None` where its checked 64-bit arithmetic raises. */
  function Reconstruct(capacity: nat, total: nat, encoded: nat): Option<nat> {
    if encoded == 0 then Some(0)
    else
      var m := MaxEntries(capacity);
      var full := 2 * m;
      if full == 0 || total + m >= U64 then None
      else
        var maxValue := total + m;
        var wrapped := maxValue / full * full;
        if wrapped + encoded >= U64 then None
        else
          var v := wrapped + encoded - 1;
          if v <= maxValue then Some(v)
          else if v < full then None
          else Some(v - full)
  }

  /** A multiple of `full` in the half-open window of that length below `top` is unique. */
  lemma WrapIsUnique(top: int, full: nat, a: int, b: int, q: int)
    requires 0 < full && a - b == q * full
    requires top - full < a <= top && top - full < b <= top
    ensures a == b
  {
    assert q >= 1 ==> q * full >= full;
    assert q <= -1 ==> q * full <= -1 * full;
  }

  lemma DivBounds(x: nat, d: nat)
    requires 0 < d
    ensures x / d * d <= x < x / d * d + d && 0 <= x / d * d
    ensures x % d == x - x / d * d
  {
  }

  /**
   Section 4.5.1.1 of RFC 9204: any count less than MaxEntries below, or up to MaxEntries
   above, the decoder's insert count is recovered, and no step under- or overflows.
   */
  lemma ReconstructRecovers(capacity: nat, total: nat, r: nat)
    requires MaxEntries(capacity) > 0 && r > 0
    requires total - MaxEntries(capacity) < r <= total + MaxEntries(capacity)
    requires total + 3 * MaxEntries(capacity) < U64
    ensures Reconstruct(capacity, total, r % (2 * MaxEntries(capacity)) + 1) == Some(r)
  {
    var m := MaxEntries(capacity);
    var full := 2 * m;
    var top := total + m;
    var wrapped := top / full * full;
    DivBounds(top, full);
    DivBounds(r, full);
    var v := wrapped + r % full;
    var q := top / full - r / full;
    assert v - r == q * full by {
      assert (top / full - r / full) * full == top / full * full - r / full * full;
    }
    if v <= top {
      assert v > top - full;
      WrapIsUnique(top, full, v, r, q);
    } else {
      assert v - full - r == (q - 1) * full;
      WrapIsUnique(top, full, v - full, r, q - 1);
    }
  }

  /**
   The encoder sends `t % 256 + 1`; this is exactly when a decoder that has processed the
   same `t` insertions, with a table of the given capacity, reads `t` back.
   */
  lemma Modulus256Exact(capacity: nat, t: nat)
    requires MaxEntries(capacity) > 0 && t > 0
    requires t + 3 * MaxEntries(capacity) + 256 < U64
    ensures var full := 2 * MaxEntries(capacity);
            Reconstruct(capacity, t, t % 256 + 1) == Some(t)
            <==> t % 256 == t % full || (t % full < MaxEntries(capacity) && t % 256 == t % full + full)
  {
    WrapStart(MaxEntries(capacity), t);
  }

  /** Where the window that ends MaxEntries above `t` starts. */
  lemma WrapStart(m: nat, t: nat)
    requires m > 0
    ensures var full := 2 * m;
            && (t + m) / full * full == t - t % full + (if t % full < m then 0 else full)
            && t % full < full
  {
    var full := 2 * m;
    var q := t / full;
    DivBounds(t, full);
    if t % full < m {
      ModUnique(t + m, full, q, t % full + m);
    } else {
      assert (q + 1) * full == q * full + full;
      ModUnique(t + m, full, q + 1, t % full - m);
    }
  }

  ghost predicate AlwaysRecovers(capacity: nat) {
    forall t: nat {:trigger Reconstruct(capacity, t, t % 256 + 1)} ::
      0 < t && t + 3 * MaxEntries(capacity) + 256 < U64 ==> Reconstruct(capacity, t, t % 256 + 1) == Some(t)
  }

  /** Hard-coding 256 is right for every insert count exactly when MaxEntries is 128. */
  lemma Modulus256RightIff128(capacity: nat)
    requires 0 < MaxEntries(capacity) && 6 * MaxEntries(capacity) + 1000 < U64
    ensures AlwaysRecovers(capacity) <==> MaxEntries(capacity) == 128
  {
    var m := MaxEntries(capacity);
    if m == 128 {
      forall t: nat | 0 < t && t + 3 * m + 256 < U64
        ensures Reconstruct(capacity, t, t % 256 + 1) == Some(t)
      {
        Modulus256Exact(capacity, t);
      }
    } else {
      var t := if m < 128 then 3 * m else 256;
      Modulus256Exact(capacity, t);
      if m < 128 {
        ModUnique(t, 2 * m, 1, m);
      } else {
        ModUnique(t, 2 * m, 0, 256);
      }
      assert Reconstruct(capacity, t, t % 256 + 1) != Some(t);
    }
  }

  /** Before the first wrap, a count above what the window allows raises instead of going below zero. */
  lemma CountTooHighRaises(capacity: nat, total: nat, encoded: nat)
    requires total < MaxEntries(capacity) && total + MaxEntries(capacity) + 1 < encoded <= 2 * MaxEntries(capacity)
    requires 3 * MaxEntries(capacity) < U64
    ensures Reconstruct(capacity, total, encoded) == None
  {
    var m := MaxEntries(capacity);
    ModUnique(total + m, 2 * m, 0, total + m);
  }

  /** A quarter of a kilobyte holds eight entries, and no capacity stands for one of 4096 bytes. */
  lemma MaxEntriesIs(capacity: nat)
    ensures MaxEntries(0) == 128 && MaxEntries(4096) == 128 && MaxEntries(256) == 8
    ensures capacity > 0 ==> 32 * MaxEntries(capacity) <= capacity < 32 * MaxEntries(capacity) + 32
  {
  }
}
