/**
 Laws of a whole endpoint that hold over every run: the congestion window never
 wraps, retransmission timing, and the schedule of `Update` and `Check`
 (network/kcp/kcp.go:658-687, 793-1039).
 */
module KcpLaws {
  import opened Serial
  import opened Wire
  import opened Segments
  import opened KcpSpec
  import opened KcpInvariant
  import AckCompression
  import ReceiveWindow
  import SendWindow
  import Retransmit
  import RoundTrip
  import Congestion

  // ----- the congestion window -----

  /** The parameters leave headroom below 2^32 for windows of up to `cap` segments. */
  ghost predicate Roomy(cfg: Config, cap: nat) {
    && Congestion.Headroom(cap, cfg.mss)
    && SendWindow.LIMIT <= cap
    && (cfg.fastresend <= 0 || 0x7fff + cfg.fastresend <= cap)
  }

  /** Segments and bytes of the window agree, and the window is at most `cap`. */
  ghost predicate Congested(w: Congestion.Window, cfg: Config, cap: nat) {
    Congestion.Matched(w, cfg.mss) && w.cwnd <= cap
  }

  lemma NewCongested(conv: u32)
    ensures Roomy(New(conv).cfg, SendWindow.LIMIT)
    ensures Congested(New(conv).win, New(conv).cfg, SendWindow.LIMIT)
  {
  }

  lemma {:induction false} ProcessAllWindow(f: Feed, ws: seq<WireSegment>, regular: bool)
    ensures var g := ProcessAll(f, ws, regular);
      g.k.cfg == f.k.cfg && g.k.win == f.k.win.(rmtWnd := g.k.win.rmtWnd)
    decreases |ws|
  {
    if ws != [] {
      ProcessAllWindow(Process(f, ws[0], regular), ws[1..], regular);
    }
  }

  /**
   The growth step of `Input`, by itself, opens the window by at most three
   segments and leaves it matched. What a whole `Input` does, with the flush it
   may answer with, is InputLaws.CwndRise.
   */
  lemma OpenCongested(k: Kcp, una: u32, cap: nat)
    requires k.win.rmtWnd <= SendWindow.LIMIT && k.cfg.mss > 0 && Roomy(k.cfg, cap) && Congested(k.win, k.cfg, cap)
    ensures Congested(OpenWindow(k, una).win, k.cfg, cap)
    ensures OpenWindow(k, una).win.cwnd <= k.win.cwnd + 3
  {
    Congestion.GrowMatched(k.win, k.cfg.mss, cap);
  }

  /** Fast or early retransmission means at least two segments in flight. */
  lemma ChangeInFlight(k: Kcp, now: u32)
    requires Inv(k)
    ensures var s, p := Admitted(k), PassOf(k, now);
      && Offset(s.nxt, s.una) == |s.buf| <= SendWindow.LIMIT
      && (Retransmit.Count(s.buf, p, Retransmit.Fast) + Retransmit.Count(s.buf, p, Retransmit.Early) > 0
          ==> |s.buf| >= 2)
  {
    var s, p := Admitted(k), PassOf(k, now);
    AdmittedSized(k);
    if Retransmit.Count(s.buf, p, Retransmit.Fast) + Retransmit.Count(s.buf, p, Retransmit.Early) > 0 {
      Retransmit.ChangeNeedsTwo(s.buf, p);
    }
  }

  lemma {:induction false} WindowAfterCongested(w: Congestion.Window, cfg: Config, buf: seq<Segment>,
                                                p: Retransmit.Pass, limit: u32, cap: nat)
    requires Roomy(cfg, cap) && Congested(w, cfg, cap) && |buf| <= SendWindow.LIMIT
    requires Retransmit.Count(buf, p, Retransmit.Fast) + Retransmit.Count(buf, p, Retransmit.Early) > 0 ==> |buf| >= 2
    ensures Congested(WindowAfter(w, cfg, buf, p, limit, |buf|), cfg, cap)
    ensures cfg.nocwnd == 0 ==> WindowAfter(w, cfg, buf, p, limit, |buf|).cwnd >= 1
  {
    var lost := Retransmit.Count(buf, p, Retransmit.Lost);
    var change := Retransmit.Count(buf, p, Retransmit.Fast) + Retransmit.Count(buf, p, Retransmit.Early);
    Congestion.ShrinkMatched(w, lost, change, limit, Resent(cfg), |buf|, cfg.mss, cap);
  }

  /**
   One flush. Fast or early retransmission implies two segments in flight, so
   `Ssthresh + resent` is small even though a disabled fast resend is all ones.
   */
  lemma PushCongested(k: Kcp, now: u32, cap: nat)
    requires Inv(k) && Roomy(k.cfg, cap) && Congested(k.win, k.cfg, cap)
    ensures Congested(PushFlush(k, now).win, k.cfg, cap)
    ensures k.cfg.nocwnd == 0 ==> PushFlush(k, now).win.cwnd >= 1
  {
    ChangeInFlight(k, now);
    WindowAfterCongested(k.win, k.cfg, Admitted(k).buf, PassOf(k, now), SendLimit(k), cap);
  }

  lemma FlushCongested(k: Kcp, ackOnly: bool, now: u32, cap: nat)
    requires Inv(k) && Roomy(k.cfg, cap) && Congested(k.win, k.cfg, cap)
    ensures Flush(k, ackOnly, now).k.cfg == k.cfg && Congested(Flush(k, ackOnly, now).k.win, k.cfg, cap)
  {
    if !ackOnly {
      var p := NextProbe(k.probe, k.win.rmtWnd, now);
      var mid := k.(acks := [], probe := p.(ask := false, tell := false));
      KcpInvariant.SameQueues(k, mid);
      PushCongested(mid, now, cap);
    }
  }

  lemma RespondCongested(k: Kcp, slides: bool, ackNoDelay: bool, now: u32, cap: nat)
    requires Inv(k) && Roomy(k.cfg, cap) && Congested(k.win, k.cfg, cap)
    ensures Congested(Respond(k, slides, ackNoDelay, now).k.win, k.cfg, cap)
  {
    FlushCongested(k, false, now, cap);
    FlushCongested(k, true, now, cap);
  }

  /** The loop of `Input` leaves the window alone but for the remote's size. */
  lemma {:induction false} ArrivedCongested(k: Kcp, data: seq<byte>, regular: bool, cap: nat)
    requires Inv(k) && Congested(k.win, k.cfg, cap)
    ensures Inv(Arrived(k, data, regular).k) && Congested(Arrived(k, data, regular).k.win, k.cfg, cap)
  {
    ProcessAllWindow(Feed(k, false, 0, false), Parse(data, k.cfg.conv).segs, regular);
    ArrivedInv(k, data, regular);
  }

  lemma OpenedCongested(k: Kcp, data: seq<byte>, regular: bool, now: u32, cap: nat)
    requires Inv(k) && Roomy(k.cfg, cap) && Congested(k.win, k.cfg, cap)
    ensures Inv(Opened(k, data, regular, now)) && Congested(Opened(k, data, regular, now).win, k.cfg, cap)
  {
    ArrivedCongested(k, data, regular, cap);
    OpenedInv(k, data, regular, now);
    OpenCongested(Sample(Arrived(k, data, regular), regular, now), k.snd.una, cap);
  }

  lemma SettleCongested(f: Feed, w: WireSegment, regular: bool, cap: nat)
    requires Congested(f.k.win, f.k.cfg, cap)
    ensures Congested(Settle(f, w, regular).k.win, f.k.cfg, cap)
  {
  }

  /** No datagram, honest or not, makes the congestion arithmetic wrap. */
  lemma InputCongested(k: Kcp, data: seq<byte>, regular: bool, ackNoDelay: bool, now: u32, cap: nat)
    requires Inv(k) && Roomy(k.cfg, cap) && Congested(k.win, k.cfg, cap)
    ensures Congested(Input(k, data, regular, ackNoDelay, now).k.win, k.cfg, cap)
  {
    var f := Arrived(k, data, regular);
    var w := InputEnds(k, data, regular, ackNoDelay, now);
    if UsedUp(k, data) {
      OpenedCongested(k, data, regular, now, cap);
      RespondCongested(Opened(k, data, regular, now), f.slides, ackNoDelay, now, cap);
    } else {
      ArrivedCongested(k, data, regular, cap);
      SettleCongested(f, w, regular, cap);
    }
  }

  lemma UpdateCongested(k: Kcp, now: u32, cap: nat)
    requires Inv(k) && Roomy(k.cfg, cap) && Congested(k.win, k.cfg, cap)
    ensures Congested(Update(k, now).k.win, k.cfg, cap)
  {
    var ticked := k.(updated := true, tsFlush := NextFlushTime(k, now));
    KcpInvariant.SameQueues(k, ticked);
    FlushCongested(ticked, false, now, cap);
  }

  // ----- the advertised window and the probe timer -----

  /** The window a segment advertises is the free room exactly when that fits 16 bits. */
  lemma AdvertisedWindow(r: Receiver)
    requires ReceiveWindow.Valid(r)
    ensures WndUnused(r) == r.wnd - |r.queue| <==> r.wnd - |r.queue| < 0x1_0000
    ensures WndUnused(r) <= r.wnd - |r.queue|
  {
  }

  /** A receiver with 65536 free places advertises a closed window. */
  lemma FullSizeLooksClosed()
    ensures WndUnused(Receiver(0, 0x1_0000, [], [])) == 0
  {
  }

  /** The probe interval is unset or between 7 s and 120 s. */
  ghost predicate ProbeOk(p: Probe) {
    p.wait == 0 || PROBE_INIT <= p.wait <= PROBE_LIMIT
  }

  /**
   The probe timer while the remote window is closed: the first flush only sets
   it; each expiry asks once, half as much again later, up to two minutes; an
   open window switches it off.
   */
  lemma ProbeBacksOff(p: Probe, rmtWnd: u32, now: u32)
    requires ProbeOk(p)
    ensures var q := NextProbe(p, rmtWnd, now);
      && ProbeOk(q) && q.tell == p.tell && (q.wait == 0 <==> rmtWnd != 0)
      && (q.ask <==> p.ask || (rmtWnd == 0 && p.wait != 0 && Diff(now, p.ts) >= 0))
      && (q.ask && !p.ask ==> q.wait == Min(p.wait + p.wait / 2, PROBE_LIMIT))
      && (rmtWnd == 0 && (p.wait == 0 || Diff(now, p.ts) >= 0) ==> Diff(q.ts, now) == q.wait)
      && (rmtWnd == 0 && p.wait != 0 && Diff(now, p.ts) < 0 ==> q == p)
  {
  }

  // ----- which datagrams make the window slide -----

  /** Only the last segment of a datagram decides whether `Input` answers with a flush. */
  lemma {:induction false} LastSegmentDecides(f: Feed, ws: seq<WireSegment>, w: WireSegment, regular: bool)
    ensures ProcessAll(f, ws + [w], regular).slides
      <==> SendWindow.Covered(ProcessAll(f, ws, regular).k.snd, w.una) > 0
  {
    ProcessAllConcat(f, ws, [w], regular);
    var g := ProcessAll(f, ws, regular);
    assert ProcessAll(g, [w], regular) == ProcessAll(Process(g, w, regular), [], regular);
  }

  /** Marking and skipping leave `SndUna` and the length of the buffer alone. */
  lemma CoveredAfterDispatch(f: Feed, w: WireSegment, una: u32)
    ensures SendWindow.Covered(Dispatch(f, w).k.snd, una) == SendWindow.Covered(f.k.snd, una)
  {
  }

  /**
   Two segments with the same cumulative acknowledgement, as in every datagram
   of one flush, never make the window slide: the second undoes the signal of
   the first, however much was acknowledged.
   */
  lemma {:induction false} SameUnaNeverSlides(f: Feed, ws: seq<WireSegment>, v: WireSegment, w: WireSegment,
                                              regular: bool)
    requires Inv(f.k) && v.una == w.una
    ensures !ProcessAll(f, ws + [v] + [w], regular).slides
  {
    var g := ProcessAll(f, ws, regular);
    ProcessAllInv(f, ws, regular);
    LastSegmentDecides(f, ws + [v], w, regular);
    ProcessAllConcat(f, ws, [v], regular);
    assert ProcessAll(g, [v], regular) == ProcessAll(Process(g, v, regular), [], regular);
    AckCompression.AdvanceSettles(g.k.snd, w.una);
    CoveredAfterDispatch(Settle(g, v, regular), v, w.una);
  }

  // ----- retransmission timing -----

  /** The timeout parameters are in range, and no entry's timeout outgrew its transmissions. */
  ghost predicate Timed(k: Kcp) {
    && RoundTrip.RTO_NDL <= k.cfg.rxMinrto <= RoundTrip.RTO_MAX
    && RoundTrip.RTO_NDL <= k.rtt.rto <= RoundTrip.RTO_MAX
    && (forall e :: e in k.snd.queue ==> e.rto == 0)
    && forall e :: e in k.snd.buf ==> Retransmit.RtoWithin(e)
  }

  /** No entry has been sent 2^32 - 1 times. */
  ghost predicate Countable(k: Kcp) {
    forall e :: e in k.snd.buf ==> e.xmit + 1 < FULL
  }

  /** An entry of the filled window is an old one, or was queued: not sent yet, with no timeout. */
  lemma AdmittedAt(k: Kcp, i: nat)
    requires Inv(k) && (forall e :: e in k.snd.queue ==> e.rto == 0) && i < |Admitted(k).buf|
    ensures i < |k.snd.buf| ==> Admitted(k).buf[i] == k.snd.buf[i]
    ensures i >= |k.snd.buf| ==> Admitted(k).buf[i].rto == 0 == Admitted(k).buf[i].xmit
  {
    if i >= |k.snd.buf| {
      assert k.snd.queue[i - |k.snd.buf|] in k.snd.queue;
    }
  }

  lemma AdmittedTimed(k: Kcp)
    requires Inv(k) && Timed(k)
    ensures forall e :: e in Admitted(k).buf ==> Retransmit.RtoWithin(e) && (e in k.snd.buf || e.xmit == 0)
  {
    var buf := Admitted(k).buf;
    forall e | e in buf ensures Retransmit.RtoWithin(e) && (e in k.snd.buf || e.xmit == 0) {
      var i :| 0 <= i < |buf| && buf[i] == e;
      AdmittedAt(k, i);
    }
  }

  /** Over any run, a timeout is at most 60 s for each transmission made. */
  lemma PushTimed(k: Kcp, now: u32)
    requires Inv(k) && Timed(k) && Countable(k)
    ensures Timed(PushFlush(k, now))
  {
    AdmittedTimed(k);
    var s, p := Admitted(k), PassOf(k, now);
    var t := Retransmit.Touched(s.buf, p);
    forall e | e in t ensures Retransmit.RtoWithin(e) {
      var i :| 0 <= i < |t| && t[i] == e;
      assert s.buf[i] in s.buf;
      Retransmit.TouchRtoWithin(s.buf[i], p);
    }
    forall e | e in s.queue ensures e.rto == 0 {
    }
  }

  /** Acknowledgements do not touch timeouts or transmission counts. */
  lemma SettleTimed(f: Feed, w: WireSegment, regular: bool)
    requires Timed(f.k) && Countable(f.k)
    ensures Timed(Settle(f, w, regular).k) && Countable(Settle(f, w, regular).k)
  {
  }

  lemma TimedPointwise(k: Kcp, l: Kcp)
    requires Timed(k) && Countable(k) && l.cfg == k.cfg && l.rtt == k.rtt && l.snd.queue == k.snd.queue
    requires |l.snd.buf| == |k.snd.buf|
    requires forall i :: 0 <= i < |l.snd.buf| ==>
      l.snd.buf[i].rto == k.snd.buf[i].rto && l.snd.buf[i].xmit == k.snd.buf[i].xmit
    ensures Timed(l) && Countable(l)
  {
    forall e | e in l.snd.buf ensures Retransmit.RtoWithin(e) && e.xmit + 1 < FULL {
      var i :| 0 <= i < |l.snd.buf| && l.snd.buf[i] == e;
      assert k.snd.buf[i] in k.snd.buf;
    }
  }

  lemma DispatchTimed(f: Feed, w: WireSegment)
    requires Timed(f.k) && Countable(f.k)
    ensures Timed(Dispatch(f, w).k) && Countable(Dispatch(f, w).k)
  {
    TimedPointwise(f.k, Dispatch(f, w).k);
  }

  lemma {:induction false} ProcessAllTimed(f: Feed, ws: seq<WireSegment>, regular: bool)
    requires Timed(f.k) && Countable(f.k)
    ensures Timed(ProcessAll(f, ws, regular).k) && Countable(ProcessAll(f, ws, regular).k)
    decreases |ws|
  {
    if ws != [] {
      SettleTimed(f, ws[0], regular);
      DispatchTimed(Settle(f, ws[0], regular), ws[0]);
      ProcessAllTimed(Process(f, ws[0], regular), ws[1..], regular);
    }
  }

  lemma FlushTimed(k: Kcp, ackOnly: bool, now: u32)
    requires Inv(k) && Timed(k) && Countable(k)
    ensures Timed(Flush(k, ackOnly, now).k)
  {
    if !ackOnly {
      var p := NextProbe(k.probe, k.win.rmtWnd, now);
      var mid := k.(acks := [], probe := p.(ask := false, tell := false));
      KcpInvariant.SameQueues(k, mid);
      PushTimed(mid, now);
    }
  }

  lemma OpenedTimed(k: Kcp, data: seq<byte>, regular: bool, now: u32)
    requires k.cfg.mss > 0 && Timed(Arrived(k, data, regular).k) && Countable(Arrived(k, data, regular).k)
    ensures Timed(Opened(k, data, regular, now)) && Countable(Opened(k, data, regular, now))
  {
  }

  lemma InputTimed(k: Kcp, data: seq<byte>, regular: bool, ackNoDelay: bool, now: u32)
    requires Inv(k) && Timed(k) && Countable(k)
    ensures Timed(Input(k, data, regular, ackNoDelay, now).k)
  {
    ProcessAllTimed(Feed(k, false, 0, false), Parse(data, k.cfg.conv).segs, regular);
    var w := InputEnds(k, data, regular, ackNoDelay, now);
    SettleTimed(Arrived(k, data, regular), w, regular);
    OpenedInv(k, data, regular, now);
    OpenedTimed(k, data, regular, now);
    FlushTimed(Opened(k, data, regular, now), false, now);
    FlushTimed(Opened(k, data, regular, now), true, now);
  }

  /** Only a timeout that has grown, or a clock reading half a circle off, can spoil an entry's schedule. */
  ghost predicate Sound(e: Segment, p: Retransmit.Pass) {
    match Retransmit.Classify(e, p)
    case Lost => 0 < Retransmit.NextRto(e, p) < HALF
    case Waiting => Retransmit.Comparable(e, p)
    case _ => true
  }

  /** What was just admitted goes out for the first time, with a timeout in range. */
  lemma AdmittedEntry(k: Kcp, now: u32, i: nat)
    requires Inv(k) && i < |Admitted(k).buf|
    ensures i < |k.snd.buf| ==> Admitted(k).buf[i] == k.snd.buf[i]
    ensures i >= |k.snd.buf| ==>
      Retransmit.Classify(Admitted(k).buf[i], PassOf(k, now)) == Retransmit.First && Admitted(k).buf[i].xmit == 0
  {
    if i >= |k.snd.buf| {
      assert SendWindow.Unsent(k.snd.queue[i - |k.snd.buf|]);
    }
  }

  lemma SoundIsSchedulable(e: Segment, p: Retransmit.Pass)
    requires !e.acked && RoundTrip.RTO_NDL <= p.rxRto <= RoundTrip.RTO_MAX
    ensures Sound(e, p) <==> Retransmit.Schedulable(e, p)
  {
  }

  /** The entry at place `i` after a flush, and when it is due. */
  lemma FlushedEntry(k: Kcp, now: u32, i: nat)
    requires Inv(k) && Timed(k) && k.cfg.interval > 0 && i < |Flush(k, false, now).k.snd.buf|
    ensures var f, e := Flush(k, false, now), Admitted(k).buf[i];
      && |f.k.snd.buf| == |Admitted(k).buf| && f.k.snd.buf[i].acked == e.acked
      && (!e.acked ==> (Diff(f.k.snd.buf[i].resendts, now) >= f.delay <==> Sound(e, PassOf(k, now))))
      && f.k.snd.buf[i] == Retransmit.Touch(e, PassOf(k, now))
  {
    var s, p := Admitted(k), PassOf(k, now);
    Retransmit.TouchKeeps(s.buf[i], p);
    if !s.buf[i].acked {
      Retransmit.AfterPass(s.buf, p, i);
      SoundIsSchedulable(s.buf[i], p);
    }
  }

  /** After a full flush every entry awaiting an acknowledgement is due no earlier than the delay it returned. */
  ghost predicate Scheduled(f: Flushed, now: u32) {
    forall e :: e in f.k.snd.buf && !e.acked ==> Diff(e.resendts, now) >= f.delay
  }

  /** The delay is always positive and at most the interval. */
  lemma FlushDelay(k: Kcp, ackOnly: bool, now: u32)
    requires k.cfg.interval > 0
    ensures 0 < Flush(k, ackOnly, now).delay <= k.cfg.interval
  {
    Retransmit.SoonestRange(Admitted(k).buf, PassOf(k, now));
  }

  /**
   Exactly when a full flush leaves every entry awaiting an acknowledgement due
   no earlier than the delay it returned: every entry it declared lost got a
   timeout below half a clock circle, and no entry it left waiting is exactly
   half a circle from its resend time. What it sends for the first time, fast or
   early never spoils it.
   */
  lemma FlushSchedulesIff(k: Kcp, now: u32)
    requires Inv(k) && Timed(k) && k.cfg.interval > 0
    ensures Scheduled(Flush(k, false, now), now) <==>
      forall e :: e in k.snd.buf && !e.acked ==> Sound(e, PassOf(k, now))
  {
    var p, t := PassOf(k, now), Flush(k, false, now).k.snd.buf;
    if Scheduled(Flush(k, false, now), now) {
      forall e | e in k.snd.buf && !e.acked ensures Sound(e, p) {
        var i :| 0 <= i < |k.snd.buf| && k.snd.buf[i] == e;
        AdmittedEntry(k, now, i);
        FlushedEntry(k, now, i);
        assert t[i] in t;
      }
    }
    if forall e :: e in k.snd.buf && !e.acked ==> Sound(e, p) {
      forall e | e in t && !e.acked ensures Diff(e.resendts, now) >= Flush(k, false, now).delay {
        var i :| 0 <= i < |t| && t[i] == e;
        FlushedEntry(k, now, i);
        AdmittedEntry(k, now, i);
        if i < |k.snd.buf| {
          assert k.snd.buf[i] in k.snd.buf;
        }
      }
    }
  }

  /** A pass leaves nothing unsent, as long as the counter does not wrap. */
  lemma TouchSends(e: Segment, p: Retransmit.Pass)
    requires !e.acked && e.xmit + 1 < FULL
    ensures Retransmit.Touch(e, p).xmit >= 1
  {
    WrapId(e.xmit + 1);
  }

  /** After a full flush every entry awaiting an acknowledgement has been sent. */
  lemma FlushSends(k: Kcp, now: u32)
    requires Inv(k) && Timed(k) && Countable(k) && k.cfg.interval > 0
    ensures forall e :: e in Flush(k, false, now).k.snd.buf && !e.acked ==> e.xmit >= 1
  {
    var p, t := PassOf(k, now), Flush(k, false, now).k.snd.buf;
    forall e | e in t && !e.acked ensures e.xmit >= 1 {
      var i :| 0 <= i < |t| && t[i] == e;
      FlushedEntry(k, now, i);
      AdmittedEntry(k, now, i);
      if i < |k.snd.buf| {
        assert k.snd.buf[i] in k.snd.buf;
      }
      TouchSends(Admitted(k).buf[i], p);
    }
  }

  /**
   Up to 35790 transmissions only the clock can be in the way: every entry
   awaiting an acknowledgement is due no earlier than the delay, unless one left
   waiting is exactly half a clock circle off.
   */
  lemma FlushSchedules(k: Kcp, now: u32)
    requires Inv(k) && Timed(k) && k.cfg.interval > 0
    requires forall e :: e in k.snd.buf && !e.acked ==> e.xmit <= Retransmit.XMIT_LIMIT
    ensures Scheduled(Flush(k, false, now), now) <==>
      forall e :: e in k.snd.buf && Retransmit.Classify(e, PassOf(k, now)) == Retransmit.Waiting ==>
        Retransmit.Comparable(e, PassOf(k, now))
  {
    FlushSchedulesIff(k, now);
    forall e | e in k.snd.buf && !e.acked
      ensures Sound(e, PassOf(k, now)) <==>
        (Retransmit.Classify(e, PassOf(k, now)) == Retransmit.Waiting ==> Retransmit.Comparable(e, PassOf(k, now)))
    {
      Retransmit.NextRtoRange(e, PassOf(k, now));
    }
  }

  lemma DistinctPlaces(base: u32, i: nat, j: nat)
    requires i < HALF && j < HALF && i != j
    ensures Wrap(base + i) != Wrap(base + j)
  {
  }

  lemma OutgoingOther(k: Kcp, now: u32, i: nat, w: WireSegment)
    requires Inv(k) && i < |k.snd.buf| && k.snd.buf[i].acked
    requires w in Retransmit.Outgoing(Admitted(k).buf, PassOf(k, now))
    ensures w.sn != Wrap(k.snd.una + i)
  {
    AdmittedSized(k);
    var j := OutgoingEntry(k, now, w);
    assert Admitted(k).buf[i] == k.snd.buf[i];
    DistinctPlaces(k.snd.una, i, j);
  }

  /** One flush never writes an acknowledged entry again (over whole runs: AckedRuns.AckedStays). */
  lemma AckedNeverResent(k: Kcp, now: u32, i: nat)
    requires Inv(k) && i < |k.snd.buf| && k.snd.buf[i].acked
    ensures Flush(k, false, now).k.snd.buf[i] == k.snd.buf[i]
    ensures forall w :: w in Retransmit.Outgoing(Admitted(k).buf, PassOf(k, now)) ==> w.sn != k.snd.buf[i].sn
  {
    var s, p := Admitted(k), PassOf(k, now);
    AdmittedSized(k);
    assert s.buf[i] == k.snd.buf[i];
    forall w | w in Retransmit.Outgoing(s.buf, p) ensures w.sn != k.snd.buf[i].sn {
      OutgoingOther(k, now, i, w);
    }
  }

  /** A flush declares the link dead just when one of its transmissions is the `deadLink`-th of its segment or later. */
  lemma {:induction false} DeadLinkIs(buf: seq<Segment>, p: Retransmit.Pass, deadLink: u32)
    ensures GoesDead(buf, p, deadLink) <==>
      exists i :: 0 <= i < |buf| && Retransmit.Goes(Retransmit.Classify(buf[i], p))
                  && Retransmit.Touch(buf[i], p).xmit >= deadLink
  {
    if buf != [] {
      var k := |buf| - 1;
      DeadLinkIs(buf[..k], p, deadLink);
      assert forall i :: 0 <= i < k ==> buf[..k][i] == buf[i];
    }
  }

  // ----- Update and Check -----

  /** How late `Update` is. */
  lemma LateBy(k: Kcp, now: u32)
    requires Due(k, now)
    ensures var t := FlushTime(k, now); 0 <= Diff(now, t) < SLAP && now == Wrap(t + Diff(now, t))
  {
    var t := FlushTime(k, now);
    DiffSign(now, t);
    DiffFrom(now, t, 0);
    DiffSign(now, now);
    WrapSmall(0);
  }

  /** The candidates for the next flush, by their distance from the last one, `d` ago. */
  lemma NextPlaces(t: u32, d: nat, i: nat)
    requires d < SLAP && i <= 5000
    ensures var now := Wrap(t + d);
      && Diff(now, Wrap(t + i)) == d - i && Diff(Wrap(t + i), now) == i - d && Diff(Wrap(now + i), now) == i
  {
    DiffPlaces(t, d, i);
    DiffPlaces(t, i, d);
    DiffPlaces(Wrap(t + d), i, 0);
    WrapId(Wrap(t + d));
  }

  /** After `Update` flushes, the next flush is due later than now and within one interval. */
  lemma UpdateSchedules(k: Kcp, now: u32)
    requires Due(k, now) && 0 < k.cfg.interval <= 5000
    ensures 0 < Diff(Update(k, now).k.tsFlush, now) <= k.cfg.interval
  {
    LateBy(k, now);
    NextPlaces(FlushTime(k, now), Diff(now, FlushTime(k, now)), k.cfg.interval);
  }

  lemma {:induction false} NearestPositive(buf: seq<Segment>, now: u32)
    requires !AnyDue(buf, now)
    ensures Nearest(buf, now) > 0
  {
    if buf != [] {
      var k := |buf| - 1;
      forall i | 0 <= i < k ensures Diff(buf[..k][i].resendts, now) > 0 {
        assert buf[..k][i] == buf[i];
      }
      NearestPositive(buf[..k], now);
    }
  }

  lemma FlushAhead(k: Kcp, now: u32)
    requires k.updated && !Due(k, now)
    ensures 1 <= Diff(k.tsFlush, now) <= SLAP
    ensures k.tsFlush == Wrap(now + Diff(k.tsFlush, now))
  {
  }

  /** What `Check` returns when nothing is due now. */
  lemma CheckDelay(k: Kcp, now: u32)
    requires k.updated && !Due(k, now) && !AnyDue(k.snd.buf, now) && 0 < k.cfg.interval <= 5000
    ensures 0 < Diff(Check(k, now), now) <= k.cfg.interval
    ensures Diff(Check(k, now), now) <= Diff(k.tsFlush, now)
  {
    NearestPositive(k.snd.buf, now);
    FlushAhead(k, now);
    var delay := Min(Min(Nearest(k.snd.buf, now), Diff(k.tsFlush, now)), k.cfg.interval);
    WrapId(now);
    DiffPlaces(now, delay, 0);
  }

  /**
   `Check` never oversleeps: the time it returns is between now and one interval
   from now, and at no moment before it would `Update` flush.
   */
  lemma CheckNeverOversleeps(k: Kcp, now: u32, d: nat)
    requires k.updated && 0 < k.cfg.interval <= 5000
    ensures 0 <= Diff(Check(k, now), now) <= k.cfg.interval
    ensures d < Diff(Check(k, now), now) ==> !Due(k, Wrap(now + d))
  {
    WrapId(now);
    DiffPlaces(now, 0, 0);
    if !(Due(k, now) || AnyDue(k.snd.buf, now)) {
      CheckDelay(k, now);
      FlushAhead(k, now);
      if d < Diff(Check(k, now), now) {
        DiffPlaces(now, d, Diff(k.tsFlush, now));
      }
    }
  }

  // ----- every run -----

  /** One call on an endpoint, with everything it depends on. */
  datatype Call =
    | SendCall(data: seq<byte>)
    | RecvCall(capacity: nat)
    | InputCall(datagram: seq<byte>, regular: bool, ackNoDelay: bool, at: u32)
    | FlushCall(ackOnly: bool, at: u32)
    | UpdateCall(at: u32)

  ghost function Apply(k: Kcp, c: Call): Kcp
    requires k.cfg.mss > 0
  {
    match c
    case SendCall(data) => Send(k, data).1
    case RecvCall(capacity) => Recv(k, capacity).1
    case InputCall(datagram, regular, ackNoDelay, at) => Input(k, datagram, regular, ackNoDelay, at).k
    case FlushCall(ackOnly, at) => Flush(k, ackOnly, at).k
    case UpdateCall(at) => Update(k, at).k
  }

  lemma InputConfig(k: Kcp, data: seq<byte>, regular: bool, ackNoDelay: bool, now: u32)
    requires k.cfg.mss > 0
    ensures Input(k, data, regular, ackNoDelay, now).k.cfg == k.cfg
  {
    var w := InputEnds(k, data, regular, ackNoDelay, now);
  }

  lemma ApplyKeeps(k: Kcp, c: Call, cap: nat)
    requires Inv(k) && Roomy(k.cfg, cap) && Congested(k.win, k.cfg, cap)
    ensures Inv(Apply(k, c)) && Apply(k, c).cfg == k.cfg && Congested(Apply(k, c).win, k.cfg, cap)
  {
    match c
    case SendCall(data) =>
      SendInv(k, data);
    case RecvCall(capacity) =>
      RecvInv(k, capacity);
    case InputCall(datagram, regular, ackNoDelay, at) =>
      InputInv(k, datagram, regular, ackNoDelay, at);
      InputCongested(k, datagram, regular, ackNoDelay, at, cap);
      InputConfig(k, datagram, regular, ackNoDelay, at);
    case FlushCall(ackOnly, at) =>
      FlushInv(k, ackOnly, at);
      FlushCongested(k, ackOnly, at, cap);
    case UpdateCall(at) =>
      UpdateInv(k, at);
      UpdateCongested(k, at, cap);
  }

  ghost predicate IsRun(states: seq<Kcp>, calls: seq<Call>) {
    && |states| == |calls| + 1
    && forall i :: 0 <= i < |calls| ==> states[i].cfg.mss > 0 && states[i + 1] == Apply(states[i], calls[i])
  }

  ghost predicate Kept(k: Kcp, cfg: Config, cap: nat) {
    Inv(k) && k.cfg == cfg && Congested(k.win, cfg, cap)
  }

  lemma KeptOn(k: Kcp, c: Call, l: Kcp, cfg: Config, cap: nat)
    requires Kept(k, cfg, cap) && Roomy(cfg, cap) && l == Apply(k, c)
    ensures Kept(l, cfg, cap)
  {
    ApplyKeeps(k, c, cap);
  }

  /**
   In every state of every run of a fresh endpoint, with any datagram contents
   and any clock, the queues satisfy their invariant and the congestion window
   has not wrapped.
   */
  lemma {:induction false} RunKeeps(states: seq<Kcp>, calls: seq<Call>, i: nat, cap: nat)
    requires IsRun(states, calls) && i < |states|
    requires Inv(states[0]) && Roomy(states[0].cfg, cap) && Congested(states[0].win, states[0].cfg, cap)
    ensures Inv(states[i]) && states[i].cfg == states[0].cfg && Congested(states[i].win, states[0].cfg, cap)
  {
    var cfg := states[0].cfg;
    for j := 0 to i
      invariant Kept(states[j], cfg, cap)
    {
      KeptOn(states[j], calls[j], states[j + 1], cfg, cap);
    }
  }

  // ----- timeouts over every run -----

  lemma SendTimed(k: Kcp, data: seq<byte>)
    requires Timed(k) && k.cfg.mss > 0
    ensures Timed(Send(k, data).1)
  {
  }

  lemma UpdateTimed(k: Kcp, now: u32)
    requires Inv(k) && Timed(k) && Countable(k)
    ensures Timed(Update(k, now).k)
  {
    var ticked := k.(updated := true, tsFlush := NextFlushTime(k, now));
    KcpInvariant.SameQueues(k, ticked);
    FlushTimed(ticked, false, now);
  }

  lemma ApplyTimed(k: Kcp, c: Call)
    requires Inv(k) && Timed(k) && Countable(k)
    ensures Timed(Apply(k, c))
  {
    match c
    case SendCall(data) => SendTimed(k, data);
    case RecvCall(capacity) =>
    case InputCall(datagram, regular, ackNoDelay, at) => InputTimed(k, datagram, regular, ackNoDelay, at);
    case FlushCall(ackOnly, at) => FlushTimed(k, ackOnly, at);
    case UpdateCall(at) => UpdateTimed(k, at);
  }

  lemma ApplyInv(k: Kcp, c: Call)
    requires Inv(k)
    ensures Inv(Apply(k, c))
  {
    match c
    case SendCall(data) => SendInv(k, data);
    case RecvCall(capacity) => RecvInv(k, capacity);
    case InputCall(datagram, regular, ackNoDelay, at) => InputInv(k, datagram, regular, ackNoDelay, at);
    case FlushCall(ackOnly, at) => FlushInv(k, ackOnly, at);
    case UpdateCall(at) => UpdateInv(k, at);
  }

  /** In every state of every run no timeout has outgrown 60 s for each transmission of its segment. */
  lemma {:induction false} RunTimed(states: seq<Kcp>, calls: seq<Call>, i: nat)
    requires IsRun(states, calls) && i < |states| && Inv(states[0]) && Timed(states[0])
    requires forall j :: 0 <= j < i ==> Countable(states[j])
    ensures Inv(states[i]) && Timed(states[i])
  {
    for j := 0 to i
      invariant Inv(states[j]) && Timed(states[j])
    {
      ApplyInv(states[j], calls[j]);
      ApplyTimed(states[j], calls[j]);
    }
  }
}
