/**
 Recovering a full packet number from its low bits (appendix A.3 of RFC 9000).
 */
module PacketNumbers {
  import opened Bytes
  import opened PrefixInteger

  /** The window: the number of values a packet number of `bytes` bytes can take. */
  function Window(bytes: nat): (w: nat)
    requires 1 <= bytes <= 4
    ensures w > 0 && w % 2 == 0
  {
    if bytes == 1 then 0x100 else if bytes == 2 then 0x1_0000 else if bytes == 3 then 0x100_0000 else 0x1_0000_0000
  }

  function Cleared(n: nat, w: nat): (c: nat)
    requires w > 0
    ensures c <= n
  {
    n / w * w
  }

  /** Clearing the low bits of the expected number and putting in the truncated ones. */
  function DecodePacketNumber(largest: nat, truncated: nat, w: nat): nat
    requires w > 0 && w % 2 == 0 && truncated < w
  {
    var expected := largest + 1;
    var candidate := Cleared(expected, w) + truncated;
    if candidate + w / 2 <= expected then candidate + w
    else if candidate > expected + w / 2 && candidate >= w then candidate - w
    else candidate
  }

  predicate InWindow(largest: nat, pn: nat, w: nat) {
    largest + 1 - w / 2 < pn <= largest + 1 + w / 2
  }

  /** Numbers that agree in their low bits differ by a multiple of the window. */
  lemma SameLowBits(a: nat, b: nat, w: nat)
    requires w > 0 && a % w == b % w
    ensures a - b == (a / w - b / w) * w
  {
    assert a == a / w * w + a % w && b == b / w * w + b % w;
    assert (a / w - b / w) * w == a / w * w - b / w * w;
  }

  lemma Multiple(q: int, w: nat)
    ensures q >= 1 ==> q * w >= w
    ensures q <= -1 ==> q * w + w <= 0
  {
  }

  /** Within one window the low bits determine the number. */
  lemma UniqueInWindow(largest: nat, a: nat, b: nat, w: nat)
    requires w > 0 && w % 2 == 0 && a % w == b % w
    requires InWindow(largest, a, w) && InWindow(largest, b, w)
    ensures a == b
  {
    SameLowBits(a, b, w);
    Multiple(a / w - b / w, w);
  }

  /** Whatever arrives, the result has the truncated value as its low bits. */
  lemma KeepsLowBits(largest: nat, truncated: nat, w: nat)
    requires w > 0 && w % 2 == 0 && truncated < w
    ensures DecodePacketNumber(largest, truncated, w) % w == truncated
  {
    var q := (largest + 1) / w;
    var r := DecodePacketNumber(largest, truncated, w);
    assert (q + 1) * w == q * w + w && (q - 1) * w == q * w - w;
    if r == q * w + truncated {
      ModUnique(r, w, q, truncated);
    } else if r == q * w + truncated + w {
      ModUnique(r, w, q + 1, truncated);
    } else {
      ModUnique(r, w, q - 1, truncated);
    }
  }

  /**
   Appendix A.3 of RFC 9000 for every window: a number within half a window of the expected
   one is recovered, and it is the only number there with those low bits.
   */
  lemma RecoversInWindow(largest: nat, pn: nat, w: nat)
    requires w > 0 && w % 2 == 0 && InWindow(largest, pn, w)
    ensures DecodePacketNumber(largest, pn % w, w) == pn
    ensures forall other: nat {:trigger other % w} :: other % w == pn % w && InWindow(largest, other, w) ==> other == pn
  {
    var r := DecodePacketNumber(largest, pn % w, w);
    KeepsLowBits(largest, pn % w, w);
    NearExpected(largest, pn % w, w);
    ModAtMost(pn, w);
    UniqueInWindow(largest, r, pn, w);
    forall other: nat | other % w == pn % w && InWindow(largest, other, w) ensures other == pn {
      UniqueInWindow(largest, other, pn, w);
    }
  }

  lemma ClearedNear(n: nat, w: nat)
    requires w > 0
    ensures Cleared(n, w) <= n < Cleared(n, w) + w
    ensures n < w ==> Cleared(n, w) == 0
    ensures n >= w ==> Cleared(n, w) >= w
  {
    var q := n / w;
    assert n == q * w + n % w;
    if n < w {
      LowOnly(n, w);
    } else {
      assert q >= 1;
      Multiple(q, w);
    }
  }

  /** The result is in the window, unless stepping down would go below zero. */
  lemma NearExpected(largest: nat, truncated: nat, w: nat)
    requires w > 0 && w % 2 == 0 && truncated < w
    ensures var r := DecodePacketNumber(largest, truncated, w);
            InWindow(largest, r, w) || (r == truncated && largest + 1 + w / 2 < r < w && largest + 1 < w)
  {
    hide Cleared;
    ClearedNear(largest + 1, w);
  }

  lemma ModAtMost(x: nat, w: nat)
    requires w > 0
    ensures x % w <= x
  {
    assert x == x / w * w + x % w;
    assert x / w * w >= 0;
  }

  lemma LowOnly(x: nat, w: nat)
    requires x < w
    ensures x / w == 0 && x % w == x
  {
    ModUnique(x, w, 0, x);
  }

  /**
   Exactly which numbers are recovered: those in the window, and, near the start of a
   connection, those above it that fit in one window, because the code never steps below zero.
   */
  lemma RecoveredIff(largest: nat, pn: nat, w: nat)
    requires w > 0 && w % 2 == 0
    ensures DecodePacketNumber(largest, pn % w, w) == pn
       <==> InWindow(largest, pn, w) || (largest + 1 + w / 2 < pn < w)
  {
    NearExpected(largest, pn % w, w);
    if InWindow(largest, pn, w) {
      RecoversInWindow(largest, pn, w);
    } else if largest + 1 + w / 2 < pn < w {
      LowOnly(pn, w);
      LowOnly(largest + 1, w);
    }
  }

  /** The four widths on the wire, at the true value a peer truncated. */
  lemma RecoversOnTheWire(bytes: nat, largest: nat, pn: nat)
    requires 1 <= bytes <= 4 && InWindow(largest, pn, Window(bytes))
    ensures DecodePacketNumber(largest, pn % Window(bytes), Window(bytes)) == pn
  {
    RecoversInWindow(largest, pn, Window(bytes));
  }
}
