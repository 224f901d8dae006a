/**
 Fixed-width numbers and the sequence-number arithmetic of ARDP: the comparison macros
 SEQ32_LT and SEQ32_LET, the window test IN_RANGE, and the ring index `seq % UDP_SEGMAX`.
 */
module Seq32 {

  const TWO16: int := 0x1_0000
  const TWO31: int := 0x8000_0000
  const TWO32: int := 0x1_0000_0000

  type Byte = x: int | 0 <= x < 256
  type U16 = x: int | 0 <= x < 0x1_0000
  type U32 = x: int | 0 <= x < 0x1_0000_0000

  // Number of slots in the send ring and in the receive ring: (AJ_TX_DATA_SIZE + UDP_SEGBMAX - 1) / UDP_SEGBMAX
  // for a 3000-byte transmit buffer and 1472-byte segments.
  const UDP_SEGMAX: int := 3

  function RingIndex(s: int): nat { s % 3 }

  function Wrap32(x: int): U32 { x % 0x1_0000_0000 }

  function Wrap16(x: int): U16 { x % 0x1_0000 }

  function Add32(a: U32, b: U32): U32 { Wrap32(a + b) }

  function Sub32(a: U32, b: U32): U32 { Wrap32(a - b) }

  // (int32_t)(a - b) < 0
  predicate SeqLt(a: U32, b: U32) { Sub32(a, b) >= TWO31 }

  predicate SeqLet(a: U32, b: U32) { SeqLt(a, b) || a == b }

  // The IN_RANGE macro, disjunct by disjunct.
  predicate InRange(beg: U32, sz: U32, p: U32) {
    var end := Add32(beg, sz);
    || (end > beg && p >= beg && p < end)
    || (end < beg && !(p < beg && p >= end))
  }

  /** The window test is exactly "the modular distance from `beg` is less than `sz`", on all inputs. */
  lemma InRangeIsModularDistance(beg: U32, sz: U32, p: U32)
    ensures InRange(beg, sz, p) <==> Sub32(p, beg) < sz
  {
    if beg + sz < TWO32 {
      assert Add32(beg, sz) == beg + sz;
    } else {
      assert Add32(beg, sz) == beg + sz - TWO32;
    }
    if p >= beg {
      assert Sub32(p, beg) == p - beg;
    } else {
      assert Sub32(p, beg) == p - beg + TWO32;
    }
  }

  /** Subtraction of wrapped numbers is the wrapped difference. */
  lemma SubOfWrapped(x: int, y: int)
    ensures Sub32(Wrap32(x), Wrap32(y)) == Wrap32(x - y)
  {
    var q, r := x / TWO32 - y / TWO32, Wrap32(x) - Wrap32(y);
    assert x - y == q * TWO32 + r;
    if r >= 0 {
      assert Wrap32(x - y) == r;
    } else {
      assert x - y == (q - 1) * TWO32 + (r + TWO32);
      assert Wrap32(x - y) == r + TWO32;
    }
  }

  /** On unbounded counters at most half the range apart, SEQ32_LT is their true order, also across the wrap. */
  lemma SeqLtIsTrueOrder(x: int, y: int)
    requires -TWO31 <= x - y < TWO31
    ensures SeqLt(Wrap32(x), Wrap32(y)) <==> x < y
    ensures SeqLet(Wrap32(x), Wrap32(y)) <==> x <= y
  {
    SubOfWrapped(x, y);
    if x < y {
      assert Wrap32(x - y) == x - y + TWO32;
    } else {
      assert Wrap32(x - y) == x - y;
    }
  }

  /** Outside that distance the test always gives the wrong answer, so the bound above is exact (up to one turn). */
  lemma SeqLtIsWrongBeyondHalfRange(x: int, y: int)
    requires TWO31 <= x - y < TWO32 || -TWO32 < x - y < -TWO31
    ensures SeqLt(Wrap32(x), Wrap32(y)) <==> !(x < y)
  {
    SubOfWrapped(x, y);
    if x < y {
      assert Wrap32(x - y) == x - y + TWO32;
    } else {
      assert Wrap32(x - y) == x - y;
    }
  }

  // The slot that the `next` pointer of slot i leads to.
  function NextSlot(i: nat, n: nat): nat
    requires 0 < n
  { (i + 1) % n }

  lemma ModStep(s: nat, n: nat)
    requires 0 < n
    ensures (s + 1) % n == NextSlot(s % n, n)
  {
    var q, r := s / n, s % n;
    assert s == q * n + r;
    if r + 1 < n {
      ModUnique(s + 1, n, q, r + 1);
      ModUnique(r + 1, n, 0, r + 1);
    } else {
      ModUnique(s + 1, n, q + 1, 0);
      ModUnique(r + 1, n, 1, 0);
    }
  }

  lemma ModUnique(x: nat, n: nat, q: nat, r: nat)
    requires r < n && x == q * n + r
    ensures x % n == r && x / n == q
  {
    assert x == (x / n) * n + x % n;
    MulSign(x / n - q, n);
    assert (x / n - q) * n == r - x % n;
  }

  lemma MulSign(d: int, n: nat)
    ensures d >= 1 ==> d * n >= n
    ensures d <= -1 ==> d * n + n <= 0
  {
    if d >= 1 {
      assert (d - 1) * n >= 0;
    } else if d <= -1 {
      assert (-1 - d) * n >= 0;
    }
  }

  /**
   For a ring of any size n, `seq % n` follows the `next` pointers from a sequence number to its successor
   exactly when that step does not wrap, or n divides 2^32.
   */
  lemma RingFollowsNext(s: U32, n: nat)
    requires 0 < n <= TWO32
    ensures Add32(s, 1) % n == NextSlot(s % n, n) <==> s + 1 < TWO32 || TWO32 % n == 0
  {
    ModStep(s, n);
    if s + 1 == TWO32 {
      assert Add32(s, 1) == 0;
      ModUnique(0, n, 0, 0);
    }
  }

  // The ring index of the k-th sequence number from `beg`.
  function RingSlot(beg: U32, k: nat): nat { RingIndex(Wrap32(beg + k)) }

  lemma RingSlotIs(beg: U32, k: nat)
    requires k < UDP_SEGMAX
    ensures RingSlot(beg, k) == RingIndex(if beg as int + k < TWO32 then beg as int + k else beg as int + k - TWO32)
  {
  }

  lemma IndexDiffers(x: nat, i: nat, j: nat)
    requires i < j < UDP_SEGMAX
    ensures RingIndex(x + i) != RingIndex(x + j)
  {
  }

  /**
   UDP_SEGMAX is 3: the ring indices of the window [beg, beg + 3) are pairwise distinct exactly when the
   window does not straddle 2^32.
   */
  lemma RingInjectiveOnWindow(beg: U32)
    ensures (forall i, j | 0 <= i < j < UDP_SEGMAX :: RingSlot(beg, i) != RingSlot(beg, j))
            <==> beg + UDP_SEGMAX <= TWO32
  {
    RingSlotIs(beg, 0);
    RingSlotIs(beg, 1);
    RingSlotIs(beg, 2);
    if beg + UDP_SEGMAX <= TWO32 {
      forall i, j | 0 <= i < j < UDP_SEGMAX
        ensures RingSlot(beg, i) != RingSlot(beg, j)
      {
        RingSlotIs(beg, i);
        RingSlotIs(beg, j);
        IndexDiffers(beg, i, j);
      }
    } else if beg == TWO32 - 1 {
      assert RingSlot(beg, 0) == RingSlot(beg, 1);
    } else {
      assert beg == TWO32 - 2;
      assert RingSlot(beg, 1) == RingSlot(beg, 2);
    }
  }
}
