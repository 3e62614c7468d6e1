/**
 `Update` and `Check` (network/kcp/kcp.go:966-1039) and the flushes of a session
 (network/kcp/udp.go:541-556), said by the clock, the flush time and the resend
 times.
 */
module ClockLaws {
  import opened Serial
  import opened Segments
  import opened KcpSpec
  import opened KcpInvariant
  import KcpLaws

  // ----- Update -----

  /** The flush time is set and no more than ten seconds off. */
  predicate OnTime(k: Kcp, now: u32) {
    k.updated && -10000 <= Diff(now, k.tsFlush) < 10000
  }

  lemma FlushIgnoresClock(k: Kcp, now: u32, t: u32)
    ensures var l := k.(updated := true, tsFlush := t);
      && Flush(l, false, now).k == Flush(k, false, now).k.(updated := true, tsFlush := t)
      && Flush(l, false, now).out == Flush(k, false, now).out
      && Flush(l, false, now).delay == Flush(k, false, now).delay
  {
    var l := k.(updated := true, tsFlush := t);
    assert Admitted(l) == Admitted(k) && PassOf(l, now) == PassOf(k, now) && SendLimit(l) == SendLimit(k);
    assert AckEmissions(l) == AckEmissions(k);
  }

  /** When `Update` comes to flush next, if it flushes. */
  function NextOnGrid(k: Kcp, now: u32): u32 {
    if OnTime(k, now) && Diff(now, k.tsFlush) < k.cfg.interval then Wrap(k.tsFlush + k.cfg.interval)
    else Wrap(now + k.cfg.interval)
  }

  lemma GridIs(k: Kcp, now: u32)
    requires 0 < k.cfg.interval <= 5000
    ensures Due(k, now) <==> !OnTime(k, now) || Diff(now, k.tsFlush) >= 0
    ensures Due(k, now) ==> NextFlushTime(k, now) == NextOnGrid(k, now)
    ensures !Due(k, now) ==> FlushTime(k, now) == k.tsFlush
  {
    DiffSign(now, now);
    WrapSmall(0);
    if Due(k, now) {
      KcpLaws.LateBy(k, now);
      KcpLaws.NextPlaces(FlushTime(k, now), Diff(now, FlushTime(k, now)), k.cfg.interval);
    }
  }

  /**
   `Update` flushes on its first call, when the flush time is more than ten
   seconds off, and when it has come; the next time is one interval after the
   last one, or after now if that has passed as well. Otherwise it does nothing.
   */
  lemma UpdateKeepsGrid(k: Kcp, now: u32)
    requires 0 < k.cfg.interval <= 5000
    ensures var u, f := Update(k, now), Flush(k, false, now);
      if !OnTime(k, now) || Diff(now, k.tsFlush) >= 0
      then u.out == f.out && u.k == f.k.(updated := true, tsFlush := NextOnGrid(k, now))
      else u.out == [] && u.k == k
  {
    GridIs(k, now);
    FlushIgnoresClock(k, now, NextOnGrid(k, now));
  }

  // ----- Check -----

  /** The nearest resend time is that of some segment, unless all are far off. */
  lemma {:induction false} NearestIs(buf: seq<Segment>, now: u32)
    ensures forall e :: e in buf ==> Nearest(buf, now) <= Diff(e.resendts, now)
    ensures Nearest(buf, now) <= 0x7fff_ffff
    ensures Nearest(buf, now) == 0x7fff_ffff || exists e :: e in buf && Nearest(buf, now) == Diff(e.resendts, now)
  {
    if buf != [] {
      var n := |buf| - 1;
      NearestIs(buf[..n], now);
      assert buf == buf[..n] + [buf[n]];
      if Nearest(buf, now) == Diff(buf[n].resendts, now) {
        assert buf[n] in buf;
      }
    }
  }

  /** Nothing to wait for: the flush time or some resend time has come. */
  predicate SomethingDue(k: Kcp, now: u32) {
    !OnTime(k, now) || Diff(now, k.tsFlush) >= 0 || exists e :: e in k.snd.buf && Diff(e.resendts, now) <= 0
  }

  lemma AnyDueIs(buf: seq<Segment>, now: u32)
    ensures AnyDue(buf, now) <==> exists e :: e in buf && Diff(e.resendts, now) <= 0
  {
  }

  /** `Check` says now when something is due. */
  lemma ChecksNow(k: Kcp, now: u32)
    requires 0 < k.cfg.interval <= 5000 && SomethingDue(k, now)
    ensures Check(k, now) == now
  {
    GridIs(k, now);
    AnyDueIs(k.snd.buf, now);
  }

  /**
   Otherwise it says exactly the first of: the flush time, the resend times of
   what is in flight, and one interval from now.
   */
  lemma ChecksFirst(k: Kcp, now: u32)
    requires 0 < k.cfg.interval <= 5000 && !SomethingDue(k, now)
    ensures var d := Diff(Check(k, now), now);
      && 0 < d <= k.cfg.interval && d <= Diff(k.tsFlush, now)
      && (forall e :: e in k.snd.buf ==> d <= Diff(e.resendts, now))
      && (d == k.cfg.interval || d == Diff(k.tsFlush, now)
          || exists e :: e in k.snd.buf && d == Diff(e.resendts, now))
  {
    GridIs(k, now);
    AnyDueIs(k.snd.buf, now);
    KcpLaws.NearestPositive(k.snd.buf, now);
    KcpLaws.FlushAhead(k, now);
    NearestIs(k.snd.buf, now);
    var d := Min(Min(Nearest(k.snd.buf, now), Diff(k.tsFlush, now)), k.cfg.interval);
    WrapId(now);
    DiffPlaces(now, d, 0);
  }

  // ----- the flushes of a session -----

  lemma StillAhead(now: u32, t: u32, j: nat)
    requires j < Diff(t, now)
    ensures Diff(Wrap(now + j), t) < 0
  {
    DiffSign(t, now);
    DiffFrom(t, now, 0);
    DiffPlaces(now, j, Diff(t, now));
  }

  /**
   A session that flushes again after the delay the last flush returned is never
   late: until then no segment awaiting an acknowledgement comes due, given what
   makes resend times comparable at all (KcpLaws.FlushSchedulesIff).
   */
  lemma NothingDueBetween(k: Kcp, now: u32, j: nat)
    requires Inv(k) && KcpLaws.Timed(k) && k.cfg.interval > 0 && j < Flush(k, false, now).delay
    requires forall e :: e in k.snd.buf && !e.acked ==> KcpLaws.Sound(e, PassOf(k, now))
    ensures forall e :: e in Flush(k, false, now).k.snd.buf && !e.acked ==> Diff(Wrap(now + j), e.resendts) < 0
  {
    var f := Flush(k, false, now);
    KcpLaws.FlushSchedulesIff(k, now);
    KcpLaws.FlushDelay(k, false, now);
    forall e | e in f.k.snd.buf && !e.acked ensures Diff(Wrap(now + j), e.resendts) < 0 {
      StillAhead(now, e.resendts, j);
    }
  }
}
