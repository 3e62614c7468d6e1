/**
 The slow-start threshold after a whole flush, and two flushes of a single
 segment in flight that show what the code does not keep (network/kcp/kcp.go:793-963).
 */
module FlushLaws {
  import opened Serial
  import opened Wire
  import opened Segments
  import opened KcpSpec
  import opened KcpInvariant
  import opened InputLaws
  import KcpLaws
  import Retransmit
  import Congestion

  /**
   After a full flush the threshold is half of what was in flight, when an entry
   went fast or early; half of the window, when one was lost; else as before. So
   it is at its floor or above exactly when that was at least four.
   */
  lemma FlushThreshold(o: Kcp, now: u32)
    requires Inv(o) && o.cfg.nocwnd == 0
    ensures var t := Flush(o, false, now).k.win.ssthresh;
      if Change(o, now) > 0 then
        t == |Admitted(o).buf| / 2 && (t >= Congestion.THRESH_MIN <==> |Admitted(o).buf| >= 4)
      else if Losses(o, now) > 0 then
        t == SendLimit(o) / 2 && (t >= Congestion.THRESH_MIN <==> SendLimit(o) >= 4)
      else t == o.win.ssthresh
  {
    AdmittedSized(o);
    var p := NextProbe(o.probe, o.win.rmtWnd, now);
    var mid := o.(acks := [], probe := p.(ask := false, tell := false));
    assert Flush(o, false, now).k == PushFlush(mid, now);
    assert Admitted(mid) == Admitted(o) && PassOf(mid, now) == PassOf(o, now) && SendLimit(mid) == SendLimit(o);
  }

  /** One byte, sent once, is in flight; it is to be sent again at `resendts`. */
  function Entry(resendts: u32): Segment {
    Fresh(0, [0]).(cmd := CMD_PUSH, xmit := 1, rto := 200, resendts := resendts)
  }

  function Lone(resendts: u32): Kcp {
    New(0).(snd := Sender(0, 1, [], [Entry(resendts)]), win := Congestion.Window(2, 1, 1376, 32))
  }

  lemma LoneOk(resendts: u32)
    ensures Inv(Lone(resendts)) && KcpLaws.Timed(Lone(resendts))
  {
    WrapId(1);
    WrapId(0);
  }

  lemma LonePass(resendts: u32, now: u32)
    ensures var k := Lone(resendts);
      Admitted(k).buf == [Entry(resendts)] && SendLimit(k) == 1
  {
  }

  lemma LoneKind(resendts: u32, now: u32)
    ensures Retransmit.Classify(Entry(resendts), PassOf(Lone(resendts), now))
            == if Diff(now, resendts) >= 0 then Retransmit.Lost else Retransmit.Waiting
  {
  }

  /** When it is lost, the flush leaves the threshold at 0. */
  lemma LossLeavesNoThreshold(resendts: u32, now: u32)
    requires Diff(now, resendts) >= 0
    ensures Inv(Lone(resendts)) && Flush(Lone(resendts), false, now).k.win.ssthresh == 0 < Congestion.THRESH_MIN
  {
    var k := Lone(resendts);
    LoneOk(resendts);
    LonePass(resendts, now);
    LoneKind(resendts, now);
    var buf := Admitted(k).buf;
    assert buf[0] == Entry(resendts);
    Retransmit.CountPositive(buf, PassOf(k, now), Retransmit.Lost);
    Retransmit.CountPositive(buf, PassOf(k, now), Retransmit.Fast);
    Retransmit.CountPositive(buf, PassOf(k, now), Retransmit.Early);
    FlushThreshold(k, now);
  }

  lemma HalfAhead(now: u32)
    ensures Diff(now, Wrap(now + HALF)) < 0 && Wrap(Wrap(now + HALF) - now) == HALF
  {
    OffsetWrap(now + HALF, now);
    WrapId(now);
    WrapId(HALF);
    DiffExact(now, now + HALF);
    OffsetWrap(now, now + HALF);
  }

  lemma OneSpoils(k: Kcp, now: u32, e: Segment)
    requires Inv(k) && KcpLaws.Timed(k) && k.cfg.interval > 0
    requires e in k.snd.buf && !e.acked && !KcpLaws.Sound(e, PassOf(k, now))
    ensures !KcpLaws.Scheduled(Flush(k, false, now), now)
  {
    KcpLaws.FlushSchedulesIff(k, now);
  }

  /** Half a circle before its resend time the flush neither sends it nor leaves it due in the future. */
  lemma HalfCircleIsUnscheduled(now: u32)
    ensures var k := Lone(Wrap(now + HALF));
      Inv(k) && KcpLaws.Timed(k) && k.cfg.interval > 0 && !KcpLaws.Scheduled(Flush(k, false, now), now)
  {
    var resendts := Wrap(now + HALF);
    var k := Lone(resendts);
    LoneOk(resendts);
    LoneKind(resendts, now);
    HalfAhead(now);
    OneSpoils(k, now, Entry(resendts));
  }
}
