/**
 The congestion window (network/kcp/kcp.go:658-687, 855-881). `incr` is the
 window in bytes; all arithmetic is on uint32.
 */
module Congestion {
  import opened Serial

  const THRESH_INIT: u32 := 2
  const THRESH_MIN: u32 := 2

  datatype Window = Window(ssthresh: u32, cwnd: u32, incr: u32, rmtWnd: u32)

  lemma MulMono(a: int, b: int, m: nat)
    requires a <= b
    ensures a * m <= b * m
  {
  }

  lemma QuotientRange(x: nat, d: nat)
    requires d > 0
    ensures 0 <= x / d <= x && (x / d) * d <= x < (x / d) * d + d
  {
    var q := x / d;
    assert x == q * d + x % d;
    if q < 0 {
      MulMono(q, -1, d);
    } else {
      MulMono(1, d, q);
    }
  }

  /** Unsigned division. */
  function Quotient(x: u32, d: u32): (q: u32)
    requires d > 0
    ensures q * d <= x < q * d + d
  {
    QuotientRange(x, d);
    x / d
  }

  /** `incr`: additive growth above the threshold. */
  function Increase(w: Window, mss: u32): Window
    requires mss > 0
  {
    var base := if w.incr < mss then mss else w.incr;
    var bytes := Wrap(base + Wrap(Quotient(Wrap(mss * mss), base) + mss / 16));
    if Wrap(Wrap(w.cwnd + 1) * mss) <= bytes
    then w.(incr := bytes, cwnd := Quotient(Wrap(bytes + mss - 1), mss))
    else w.(incr := bytes)
  }

  /** `nocwnd`: what one acknowledging `Input` does to the window. */
  function Grow(w: Window, mss: u32): Window
    requires mss > 0
  {
    var g :=
      if w.cwnd < w.ssthresh then w.(cwnd := Wrap(w.cwnd + 1), incr := Wrap(w.incr + mss))
      else Increase(w, mss);
    if g.cwnd > g.rmtWnd then g.(cwnd := g.rmtWnd, incr := Wrap(g.rmtWnd * mss)) else g
  }

  /** `noc` with congestion control on: what one flush does to the window. */
  function Shrink(w: Window, lost: nat, change: nat, cwnd: u32, resent: u32, inflight: u32, mss: u32): Window {
    var a := if (lost > 0 || change > 0) && w.ssthresh < THRESH_MIN then w.(ssthresh := THRESH_MIN) else w;
    var b := if lost > 0 then a.(ssthresh := cwnd / 2, cwnd := 1, incr := mss) else a;
    var c :=
      if change > 0 then
        var half: u32 := inflight / 2;
        b.(ssthresh := half, cwnd := Wrap(half + resent), incr := Wrap(Wrap(half + resent) * mss))
      else b;
    if c.cwnd < 1 then c.(cwnd := 1, incr := mss) else c
  }

  /** Segments and bytes agree to within one segment. */
  ghost predicate Matched(w: Window, mss: u32) {
    (w.cwnd - 1) * mss < w.incr < (w.cwnd + 1) * mss
  }

  /** `cap` windows of `mss` bytes leave headroom below 2^32. */
  ghost predicate Headroom(cap: nat, mss: u32) {
    mss > 0 && (cap + 4) * mss < FULL && mss * mss < FULL
  }

  /** The quotient of `m * m` by at least `m` is at most `m`. */
  lemma QuotientSmall(q: nat, d: nat, m: nat)
    requires d >= m > 0 && q * d <= m * m
    ensures q <= m
  {
  }

  /** The rounded-up quotient brackets the bytes. */
  lemma RoundUp(bytes: int, m: int, k: int)
    requires m > 0 && k * m <= bytes + m - 1 < k * m + m
    ensures (k - 1) * m < bytes < (k + 1) * m
  {
  }

  /** The bounds of one additive step, over the integers. */
  lemma StepBounds(c: nat, incr: nat, m: nat, q: nat, cap: nat)
    requires m > 0 && c <= cap && (c - 1) * m < incr < (c + 1) * m
    requires var base := if incr < m then m else incr; q * base <= m * m
    ensures var base := if incr < m then m else incr;
      && q + m / 16 < 2 * m
      && incr <= base + (q + m / 16) < (c + 3) * m
    ensures (c + 3) * m + m == (c + 4) * m <= (cap + 4) * m
    ensures c + 4 <= (c + 4) * m && (c + 1) * m <= (c + 4) * m && 2 * m <= (c + 4) * m
  {
    var base := if incr < m then m else incr;
    QuotientSmall(q, base, m);
    MulMono(c + 4, cap + 4, m);
    MulMono(1, m, c + 4);
    MulMono(c + 1, c + 4, m);
    MulMono(2, c + 4, m);
    MulMono(3, c + 3, m);
    assert (c + 3) * m == (c + 1) * m + 2 * m;
  }

  /** None of the numbers of one additive step reaches 2^32. */
  lemma StepSmall(w: Window, mss: u32, cap: nat, base: nat, q: nat)
    requires Headroom(cap, mss) && Matched(w, mss) && w.cwnd <= cap
    requires base == Max(w.incr, mss) && q * base <= mss * mss
    ensures w.incr <= base + (q + mss / 16) < (w.cwnd + 3) * mss
    ensures q + mss / 16 < FULL && base + (q + mss / 16) + mss < FULL
    ensures w.cwnd + 1 < FULL && (w.cwnd + 1) * mss < FULL
  {
    StepBounds(w.cwnd, w.incr, mss, q, cap);
  }

  /** Additive growth, with its 32-bit operations shown to be exact: `bytes` and `k` are computed without any wrap. */
  lemma IncreaseExact(w: Window, mss: u32, cap: nat) returns (bytes: u32, k: u32)
    requires Headroom(cap, mss) && Matched(w, mss) && w.cwnd <= cap
    ensures Increase(w, mss) ==
      if (w.cwnd + 1) * mss <= bytes then w.(incr := bytes, cwnd := k) else w.(incr := bytes)
    ensures w.incr <= bytes < (w.cwnd + 3) * mss
    ensures k * mss <= bytes + mss - 1 < k * mss + mss
    ensures bytes == Max(w.incr, mss) + mss * mss / Max(w.incr, mss) + mss / 16 && k == (bytes + mss - 1) / mss
  {
    var base: u32 := if w.incr < mss then mss else w.incr;
    WrapId(mss * mss);
    var q := Quotient(mss * mss, base);
    StepSmall(w, mss, cap, base, q);
    WrapId(q + mss / 16);
    WrapId(base + (q + mss / 16));
    WrapId(w.cwnd + 1);
    WrapId((w.cwnd + 1) * mss);
    bytes := base + (q + mss / 16);
    WrapId(bytes + mss - 1);
    k := Quotient(bytes + mss - 1, mss);
  }

  /** Additive growth without wrap-around: still matched, and at most three segments more. */
  lemma IncreaseMatched(w: Window, mss: u32, cap: nat)
    requires Headroom(cap, mss) && Matched(w, mss) && w.cwnd <= cap
    ensures Matched(Increase(w, mss), mss)
    ensures Increase(w, mss).cwnd <= w.cwnd + 3
  {
    var bytes, k := IncreaseExact(w, mss, cap);
    RoundUp(bytes, mss, k);
    if k > w.cwnd + 3 {
      MulMono(w.cwnd + 3, k - 1, mss);
    }
  }

  /** Opening the window by one segment below the threshold. */
  lemma StepMatched(w: Window, mss: u32, cap: nat)
    requires Headroom(cap, mss) && Matched(w, mss) && w.cwnd <= cap
    ensures Matched(w.(cwnd := Wrap(w.cwnd + 1), incr := Wrap(w.incr + mss)), mss)
    ensures Wrap(w.cwnd + 1) == w.cwnd + 1
  {
    var c: int, m: int := w.cwnd, mss;
    MulMono(c + 4, cap + 4, m);
    MulMono(1, m, c + 4);
    MulMono(c + 2, c + 4, m);
    WrapId(c + 1);
    assert (c + 2) * m == (c + 1) * m + m;
    WrapId(w.incr + m);
    assert (c + 1 - 1) * m == (c - 1) * m + m;
  }

  /** A window of exactly `c` segments. */
  lemma ExactMatched(c: u32, mss: u32, cap: nat)
    requires Headroom(cap, mss) && c <= cap
    ensures Wrap(c * mss) == c * mss
    ensures (c - 1) * mss < c * mss < (c + 1) * mss
  {
  }

  /**
   The growth step alone, on a matched window: no 32-bit operation wraps, the
   window stays matched, ends within the peer's, and grows by at most three
   segments. (The flush that may follow can change it further: InputLaws.CwndRise.)
   */
  lemma GrowMatched(w: Window, mss: u32, cap: nat)
    requires Headroom(cap, mss) && Matched(w, mss) && w.cwnd <= cap && w.rmtWnd <= cap
    ensures var g := Grow(w, mss);
      && Matched(g, mss)
      && g.cwnd <= w.cwnd + 3
      && g.cwnd <= w.rmtWnd
      && g.ssthresh == w.ssthresh && g.rmtWnd == w.rmtWnd
  {
    if w.cwnd < w.ssthresh {
      StepMatched(w, mss, cap);
    } else {
      IncreaseMatched(w, mss, cap);
    }
    ExactMatched(w.rmtWnd, mss, cap);
  }

  /** The window cut to the peer's. */
  function Cut(w: Window, cwnd: int, incr: int, mss: u32): (int, int) {
    if cwnd > w.rmtWnd then (w.rmtWnd, w.rmtWnd * mss) else (cwnd, incr)
  }

  /** Below the threshold the window grows by one segment. */
  lemma SlowStart(w: Window, mss: u32, cap: nat)
    requires Headroom(cap, mss) && Matched(w, mss) && w.cwnd <= cap && w.rmtWnd <= cap && w.cwnd < w.ssthresh
    ensures (Grow(w, mss).cwnd, Grow(w, mss).incr) == Cut(w, w.cwnd + 1, w.incr + mss, mss)
  {
    var c: int, m: int := w.cwnd, mss;
    MulMono(c + 4, cap + 4, m);
    MulMono(1, m, c + 4);
    MulMono(c + 2, c + 4, m);
    WrapId(c + 1);
    assert (c + 2) * m == (c + 1) * m + m;
    WrapId(w.incr + m);
    ExactMatched(w.rmtWnd, mss, cap);
  }

  /**
   At the threshold and above it grows by about `mss * mss / incr` bytes, over
   unbounded integers, and by segments only once the bytes make one segment more.
   */
  lemma Avoidance(w: Window, mss: u32, cap: nat)
    requires Headroom(cap, mss) && Matched(w, mss) && w.cwnd <= cap && w.rmtWnd <= cap && w.cwnd >= w.ssthresh
    ensures var base: int := Max(w.incr, mss);
      var bytes := base + mss * mss / base + mss / 16;
      (Grow(w, mss).cwnd, Grow(w, mss).incr)
      == Cut(w, if (w.cwnd + 1) * mss <= bytes then (bytes + mss - 1) / mss else w.cwnd, bytes, mss)
  {
    var bytes, k := IncreaseExact(w, mss, cap);
    ExactMatched(w.rmtWnd, mss, cap);
  }

  lemma QuotientIs(x: u32, d: u32, q: nat)
    requires d > 0 && q * d <= x < q * d + d
    ensures Quotient(x, d) == q
  {
    var r := Quotient(x, d);
    if r < q {
      MulMono(r + 1, q, d);
    } else if q < r {
      MulMono(q + 1, r, d);
    }
  }

  /** Three is attained: the first acknowledgement of a window that was never opened. */
  lemma GrowByThree()
    ensures Grow(Window(0, 0, 0, 32), 1376).cwnd == 3
  {
    WrapId(1376 * 1376);
    QuotientIs(1376 * 1376, 1376, 1376);
    WrapId(1376 + 1376 / 16);
    WrapId(1376 + 1462);
    WrapId(0 + 1);
    WrapId(1 * 1376);
    WrapId(2838 + 1376 - 1);
    QuotientIs(4213, 1376, 3);
    assert Increase(Window(0, 0, 0, 32), 1376) == Window(0, 3, 2838, 32);
  }

  /** `Ssthresh + resent` is small, also when `resent` is all ones. */
  lemma SmallSum(half: u32, resent: u32, cap: nat)
    requires 1 <= half <= 0x7fff <= cap < FULL && 1 <= resent
    requires resent == 0xffff_ffff || 0x7fff + resent <= cap
    ensures Wrap(half + resent) == if resent == 0xffff_ffff then half - 1 else half + resent
  {
  }

  /**
   One flush on a matched window. When fast retransmission happened at least
   two segments were in flight, so that even the all-ones `resent` of a
   disabled fast resend gives a small window.
   */
  lemma ShrinkMatched(w: Window, lost: nat, change: nat, cwnd: u32, resent: u32, inflight: u32, mss: u32, cap: nat)
    requires Headroom(cap, mss) && Matched(w, mss) && w.cwnd <= cap
    requires change > 0 ==> 2 <= inflight <= 0xffff
    requires 1 <= resent && (resent == 0xffff_ffff || 0x7fff + resent <= cap) && 0x7fff <= cap
    ensures var s := Shrink(w, lost, change, cwnd, resent, inflight, mss);
      && Matched(s, mss)
      && 1 <= s.cwnd <= cap
      && s.rmtWnd == w.rmtWnd
      && (change > 0 ==> s.ssthresh == inflight / 2)
      && (change > 0 && resent == 0xffff_ffff ==> s.cwnd == Max(inflight / 2 - 1, 1))
      && (change > 0 && resent != 0xffff_ffff ==> s.cwnd == inflight / 2 + resent)
      && (change == 0 && lost > 0 ==> s.cwnd == 1)
  {
    ExactMatched(1, mss, cap);
    if change > 0 {
      var half: u32 := inflight / 2;
      SmallSum(half, resent, cap);
      MulMono(1, mss, cap + 4);
      ExactMatched(Wrap(half + resent), mss, cap);
    }
  }

  /** The floor on the threshold does not survive the halving: one segment in flight lost leaves 0. */
  lemma ThresholdBelowFloor()
    ensures Shrink(Window(2, 1, 1376, 32), 1, 0, 1, 0xffff_ffff, 1, 1376).ssthresh == 0 < THRESH_MIN
  {
  }

  /** The threshold a flush leaves, in terms of the windows it saw: at least the floor only if they were. */
  lemma ThresholdAfterFlush(w: Window, lost: nat, change: nat, cwnd: u32, resent: u32, inflight: u32, mss: u32)
    requires lost > 0 || change > 0
    ensures Shrink(w, lost, change, cwnd, resent, inflight, mss).ssthresh >= THRESH_MIN <==>
      if change > 0 then inflight >= 4 else cwnd >= 4
  {
  }
}
