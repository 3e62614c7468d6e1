/**
 What `Input` makes of a datagram, said by its segments and the state before
 (network/kcp/kcp.go:394-436, 537-687): the round-trip sample, the peer's window,
 the request to tell the window, the acknowledgements owed, the marks on what is
 in flight, and the growth of the congestion window.
 */
module InputEffects {
  import opened Serial
  import opened Wire
  import opened Packing
  import opened Segments
  import opened KcpSpec
  import opened KcpInvariant
  import opened InputLaws
  import FlushEffects
  import KcpLaws
  import ReceiveWindow
  import SendWindow
  import RoundTrip
  import Congestion

  // ----- what the loop notes -----

  /** The last acknowledgement of a datagram is its segment `i`. */
  ghost predicate LastAckAt(ws: seq<WireSegment>, i: int) {
    && 0 <= i < |ws| && ws[i].cmd == CMD_ACK
    && forall j :: i < j < |ws| ==> ws[j].cmd != CMD_ACK
  }

  ghost predicate Holds(ws: seq<WireSegment>, cmd: byte) {
    exists i :: 0 <= i < |ws| && ws[i].cmd == cmd
  }

  lemma {:induction false} ProcessLast(f: Feed, ws: seq<WireSegment>, regular: bool)
    requires ws != []
    ensures ProcessAll(f, ws, regular)
            == Process(ProcessAll(f, ws[..|ws| - 1], regular), ws[|ws| - 1], regular)
  {
    var n := |ws| - 1;
    assert ws == ws[..n] + [ws[n]];
    ProcessAllConcat(f, ws[..n], [ws[n]], regular);
    ProcessOne(ProcessAll(f, ws[..n], regular), ws[n], regular);
  }

  lemma HoldsLast(ws: seq<WireSegment>, cmd: byte)
    requires ws != []
    ensures Holds(ws, cmd) <==> Holds(ws[..|ws| - 1], cmd) || ws[|ws| - 1].cmd == cmd
  {
    var n := |ws| - 1;
    assert forall i :: 0 <= i < n ==> ws[..n][i] == ws[i];
  }

  lemma LastAckBefore(ws: seq<WireSegment>, i: int)
    requires LastAckAt(ws, i) && i < |ws| - 1
    ensures LastAckAt(ws[..|ws| - 1], i) && ws[|ws| - 1].cmd != CMD_ACK
  {
  }

  /** What one segment leaves in the notes. */
  lemma ProcessNotes(f: Feed, w: WireSegment, regular: bool)
    ensures var g := Process(f, w, regular);
      && (g.acked <==> f.acked || w.cmd == CMD_ACK) && g.latest == (if w.cmd == CMD_ACK then w.ts else f.latest)
      && g.k.rtt == f.k.rtt && g.k.cfg == f.k.cfg
      && g.k.probe == f.k.probe.(tell := f.k.probe.tell || w.cmd == CMD_WASK)
      && g.k.win == f.k.win.(rmtWnd := if regular then w.wnd else f.k.win.rmtWnd)
  {
  }

  /** The flag and the time of the last acknowledgement. */
  lemma {:induction false} LoopNotesAcks(f: Feed, ws: seq<WireSegment>, regular: bool)
    ensures var g := ProcessAll(f, ws, regular);
      && (g.acked <==> f.acked || Holds(ws, CMD_ACK))
      && (forall i :: LastAckAt(ws, i) ==> g.latest == ws[i].ts)
      && g.k.rtt == f.k.rtt && g.k.cfg == f.k.cfg
    decreases |ws|
  {
    if ws != [] {
      var n := |ws| - 1;
      LoopNotesAcks(f, ws[..n], regular);
      ProcessLast(f, ws, regular);
      ProcessNotes(ProcessAll(f, ws[..n], regular), ws[n], regular);
      HoldsLast(ws, CMD_ACK);
      forall i | LastAckAt(ws, i) ensures ProcessAll(f, ws, regular).latest == ws[i].ts {
        if i < n {
          LastAckBefore(ws, i);
        }
      }
    }
  }

  /** The request to tell the window, and the peer's window. */
  lemma {:induction false} LoopNotesWindow(f: Feed, ws: seq<WireSegment>, regular: bool)
    ensures var g := ProcessAll(f, ws, regular).k;
      && g.probe == f.k.probe.(tell := f.k.probe.tell || Holds(ws, CMD_WASK))
      && g.win == f.k.win.(rmtWnd := if regular && ws != [] then ws[|ws| - 1].wnd else f.k.win.rmtWnd)
    decreases |ws|
  {
    if ws != [] {
      var n := |ws| - 1;
      LoopNotesWindow(f, ws[..n], regular);
      ProcessLast(f, ws, regular);
      ProcessNotes(ProcessAll(f, ws[..n], regular), ws[n], regular);
      HoldsLast(ws, CMD_WASK);
    }
  }

  // ----- the round-trip sample -----

  /** `|s - srtt|`, negating in 32 bits. */
  ghost function Apart(srtt: int, s: int): int {
    if Signed(s - srtt) < 0 then Signed(-(Signed(s - srtt) as int)) else Signed(s - srtt)
  }

  ghost predicate MeanSampled(r: RoundTrip.Rtt, s: int, t: RoundTrip.Rtt) {
    t.srtt == if r.srtt == 0 then s else Signed(r.srtt + Signed(s - r.srtt) / 8)
  }

  ghost predicate VariationSampled(r: RoundTrip.Rtt, s: int, t: RoundTrip.Rtt) {
    t.rttvar ==
      if r.srtt == 0 then s / 2
      else if s < Signed(t.srtt - r.rttvar) then Signed(r.rttvar + Signed(Apart(r.srtt, s) - r.rttvar) / 32)
      else Signed(r.rttvar + Signed(Apart(r.srtt, s) - r.rttvar) / 4)
  }

  ghost predicate TimeoutSampled(t: RoundTrip.Rtt, interval: u32, minrto: u32) {
    t.rto == Min(Max(minrto, Wrap(Wrap(t.srtt) + Max(interval, Wrap(4 * Wrap(t.rttvar))))), 60000)
  }

  /** Sample `s`, smoothed into `r`, with every operation in 32 bits. */
  ghost predicate Sampled(r: RoundTrip.Rtt, s: int, t: RoundTrip.Rtt, interval: u32, minrto: u32) {
    MeanSampled(r, s, t) && VariationSampled(r, s, t) && TimeoutSampled(t, interval, minrto)
  }

  lemma EstimateMean(r: RoundTrip.Rtt, s: i32, interval: u32, minrto: u32)
    ensures MeanSampled(r, s, RoundTrip.UpdateAck(r, s, interval, minrto))
  {
  }

  lemma EstimateVariation(r: RoundTrip.Rtt, s: i32, interval: u32, minrto: u32)
    ensures VariationSampled(r, s, RoundTrip.UpdateAck(r, s, interval, minrto))
  {
  }

  lemma EstimateTimeout(r: RoundTrip.Rtt, s: i32, interval: u32, minrto: u32)
    ensures TimeoutSampled(RoundTrip.UpdateAck(r, s, interval, minrto), interval, minrto)
  {
  }

  lemma EstimateSampled(r: RoundTrip.Rtt, s: i32, interval: u32, minrto: u32)
    ensures Sampled(r, s, RoundTrip.UpdateAck(r, s, interval, minrto), interval, minrto)
  {
    EstimateMean(r, s, interval, minrto);
    EstimateVariation(r, s, interval, minrto);
    EstimateTimeout(r, s, interval, minrto);
  }

  /** The end of `Input` takes the sample `s`. */
  lemma TakesSample(f: Feed, now: u32, s: i32)
    requires f.acked && s == Diff(now, f.latest)
    ensures var t := KcpSpec.Sample(f, true, now).rtt;
      if s >= 0 then Sampled(f.k.rtt, s, t, f.k.cfg.interval, f.k.cfg.rxMinrto) else t == f.k.rtt
  {
    EstimateSampled(f.k.rtt, s, f.k.cfg.interval, f.k.cfg.rxMinrto);
  }

  lemma FlushKeepsRtt(k: Kcp, ackOnly: bool, now: u32)
    ensures Flush(k, ackOnly, now).k.rtt == k.rtt && Flush(k, ackOnly, now).k.cfg == k.cfg
  {
  }

  lemma RespondKeepsRtt(k: Kcp, slides: bool, ackNoDelay: bool, now: u32)
    ensures Respond(k, slides, ackNoDelay, now).k.rtt == k.rtt
  {
    FlushKeepsRtt(k, false, now);
    FlushKeepsRtt(k, true, now);
  }

  /** Nothing but the sample at its end changes the estimate in `Input`. */
  lemma RttOfInput(k: Kcp, data: seq<byte>, regular: bool, ackNoDelay: bool, now: u32)
    requires k.cfg.mss > 0
    ensures Input(k, data, regular, ackNoDelay, now).k.rtt
            == if UsedUp(k, data) then KcpSpec.Sample(Arrived(k, data, regular), regular, now).rtt else k.rtt
  {
    LoopNotesAcks(Feed(k, false, 0, false), Parse(data, k.cfg.conv).segs, regular);
    var w := InputEnds(k, data, regular, ackNoDelay, now);
    if UsedUp(k, data) {
      RespondKeepsRtt(Opened(k, data, regular, now), Arrived(k, data, regular).slides, ackNoDelay, now);
    }
  }

  /**
   A datagram that is used up, is not a recovered one and holds an acknowledgement
   that is not from the future gives one sample: the age of its last
   acknowledgement.
   */
  lemma {:induction false} InputSamples(k: Kcp, data: seq<byte>, ackNoDelay: bool, now: u32, i: int)
    requires k.cfg.mss > 0 && UsedUp(k, data) && LastAckAt(Parse(data, k.cfg.conv).segs, i)
    ensures var s, r := Diff(now, Parse(data, k.cfg.conv).segs[i].ts), Input(k, data, true, ackNoDelay, now).k.rtt;
      if s >= 0 then Sampled(k.rtt, s, r, k.cfg.interval, k.cfg.rxMinrto) else r == k.rtt
  {
    var segs := Parse(data, k.cfg.conv).segs;
    LoopNotesAcks(Feed(k, false, 0, false), segs, true);
    assert Holds(segs, CMD_ACK);
    RttOfInput(k, data, true, ackNoDelay, now);
    TakesSample(Arrived(k, data, true), now, Diff(now, segs[i].ts));
  }

  /** In every other case the estimate stays. */
  lemma {:induction false} InputSamplesNothing(k: Kcp, data: seq<byte>, regular: bool, ackNoDelay: bool, now: u32)
    requires k.cfg.mss > 0
    requires !UsedUp(k, data) || !regular || !Holds(Parse(data, k.cfg.conv).segs, CMD_ACK)
    ensures Input(k, data, regular, ackNoDelay, now).k.rtt == k.rtt
  {
    LoopNotesAcks(Feed(k, false, 0, false), Parse(data, k.cfg.conv).segs, regular);
    RttOfInput(k, data, regular, ackNoDelay, now);
  }

  lemma OneSample(r: RoundTrip.Rtt, s: i32, t: RoundTrip.Rtt, interval: u32, minrto: u32)
    requires Sampled(r, s, t, interval, minrto)
    ensures t == RoundTrip.UpdateAck(r, s, interval, minrto)
  {
    EstimateSampled(r, s, interval, minrto);
  }

  /** On samples up to 2^29 no operation wraps: the smoothing over unbounded integers. */
  lemma SampledExactly(r: RoundTrip.Rtt, s: i32, t: RoundTrip.Rtt, interval: u32, minrto: u32, lo: int, hi: int)
    requires Sampled(r, s, t, interval, minrto) && interval <= HALF
    requires 0 <= lo <= s <= hi <= RoundTrip.SAMPLE_LIMIT && RoundTrip.Within(r.srtt, r.rttvar, lo, hi)
    ensures var deviation := if s < r.srtt then r.srtt - s else s - r.srtt;
      && t.srtt == (if r.srtt == 0 then s else r.srtt + (s - r.srtt) / 8)
      && t.rttvar == (if r.srtt == 0 then s / 2
                      else r.rttvar + (deviation - r.rttvar) / if s < t.srtt - r.rttvar then 32 else 4)
      && t.rto == Min(Max(minrto, t.srtt + Max(interval, 4 * t.rttvar)), 60000)
  {
    OneSample(r, s, t, interval, minrto);
    RoundTrip.NoOverflow(r, s, lo, hi, interval, minrto);
  }

  // ----- the peer's window and the request to tell ours -----

  lemma FlushKeepsPeer(k: Kcp, ackOnly: bool, now: u32)
    ensures Flush(k, ackOnly, now).k.win.rmtWnd == k.win.rmtWnd
    ensures ackOnly ==> Flush(k, ackOnly, now).k.probe == k.probe && Flush(k, ackOnly, now).k.win == k.win
  {
  }

  /** The end of `Input`, apart from a flush, leaves the queues, the probe and the peer's window alone. */
  lemma OpenedKeeps(k: Kcp, data: seq<byte>, regular: bool, now: u32)
    requires k.cfg.mss > 0
    ensures var f, o := Arrived(k, data, regular).k, Opened(k, data, regular, now);
      o.probe == f.probe && o.acks == f.acks && o.rcv == f.rcv && o.win.rmtWnd == f.win.rmtWnd
  {
  }

  /** A datagram that is used up, and is not a recovered one, sets the peer's window to that of its last segment. */
  lemma {:induction false} PeerWindow(k: Kcp, data: seq<byte>, regular: bool, ackNoDelay: bool, now: u32)
    requires k.cfg.mss > 0 && UsedUp(k, data)
    ensures var segs := Parse(data, k.cfg.conv).segs;
      && segs != []
      && Input(k, data, regular, ackNoDelay, now).k.win.rmtWnd
         == if regular then segs[|segs| - 1].wnd else k.win.rmtWnd
  {
    var o := Opened(k, data, regular, now);
    SomethingParsed(data, k.cfg.conv);
    LoopNotesWindow(Feed(k, false, 0, false), Parse(data, k.cfg.conv).segs, regular);
    OpenedKeeps(k, data, regular, now);
    FlushKeepsPeer(o, false, now);
    FlushKeepsPeer(o, true, now);
  }

  /** Stopping early keeps what the loop has noted. */
  lemma EarlyProbe(k: Kcp, data: seq<byte>, regular: bool, ackNoDelay: bool, now: u32)
    requires k.cfg.mss > 0 && |data| >= OVERHEAD && !UsedUp(k, data)
    ensures Input(k, data, regular, ackNoDelay, now).k.probe == Arrived(k, data, regular).k.probe
  {
  }

  lemma RespondProbe(o: Kcp, ackNoDelay: bool, now: u32)
    ensures Respond(o, false, ackNoDelay, now).k.probe == o.probe
  {
    FlushKeepsPeer(o, true, now);
  }

  /** A question for the window is remembered until a full flush answers it; nothing else in a datagram asks. */
  lemma {:induction false} QuestionNoted(k: Kcp, data: seq<byte>, regular: bool, ackNoDelay: bool, now: u32)
    requires k.cfg.mss > 0 && |data| >= OVERHEAD
    ensures var asked := k.probe.tell || Holds(Parse(data, k.cfg.conv).segs, CMD_WASK);
      && (!Slid(k, data, regular) ==> Input(k, data, regular, ackNoDelay, now).k.probe == k.probe.(tell := asked))
      && (Slid(k, data, regular) ==> Opened(k, data, regular, now).probe == k.probe.(tell := asked))
  {
    LoopNotesWindow(Feed(k, false, 0, false), Parse(data, k.cfg.conv).segs, regular);
    OpenedKeeps(k, data, regular, now);
    RespondProbe(Opened(k, data, regular, now), ackNoDelay, now);
    if !UsedUp(k, data) {
      EarlyProbe(k, data, regular, ackNoDelay, now);
    } else if !Arrived(k, data, regular).slides {
      var w := InputEnds(k, data, regular, ackNoDelay, now);
    }
  }

  // ----- marks on what is in flight -----

  /**
   One acknowledgement of number `sn`, sent at `ts`: the entry with that number is
   marked and gives its data back; entries before it that were not sent after
   `ts` count one skip; all others are as before. A number that is not in flight
   does nothing.
   */
  lemma AckTouches(f: Feed, w: WireSegment, i: nat)
    requires SendWindow.Valid(f.k.snd) && w.cmd == CMD_ACK && i < |f.k.snd.buf|
    ensures var s, t, e := f.k.snd, Dispatch(f, w).k.snd, f.k.snd.buf[i];
      && |t.buf| == |s.buf| && t.una == s.una && t.nxt == s.nxt && t.queue == s.queue
      && t.buf[i] ==
         if Diff(w.sn, s.una) < 0 || Diff(w.sn, s.nxt) >= 0 then e
         else if w.sn == e.sn then e.(acked := true, data := [])
         else if Diff(w.sn, e.sn) > 0 && Diff(e.ts, w.ts) <= 0 then e.(fastack := Wrap(e.fastack + 1))
         else e
  {
    SendWindow.OutstandingTest(f.k.snd, w.sn);
    if Offset(w.sn, f.k.snd.una) < |f.k.snd.buf| {
      SendWindow.PlaceInWindow(f.k.snd, w.sn, i);
    }
  }

  /** No other command touches what is in flight. */
  lemma OthersTouchNothing(f: Feed, w: WireSegment)
    requires w.cmd != CMD_ACK
    ensures Dispatch(f, w).k.snd == f.k.snd
  {
  }

  // ----- the data kept -----

  /** A data segment with a new number is kept, in whatever order it comes; any other leaves the receiver alone. */
  lemma PushIsKept(f: Feed, w: WireSegment) returns (at: nat)
    requires ReceiveWindow.Valid(f.k.rcv) && w.cmd == CMD_PUSH
    ensures var r, t := f.k.rcv, Dispatch(f, w).k.rcv;
      && ReceiveWindow.Valid(t) && at <= |r.buf|
      && if ReceiveWindow.IsNew(r, w.sn)
         then ReceiveWindow.HandsOver(r, r.buf[..at] + [FromWire(w)] + r.buf[at..], t) else t == r
  {
    at := ReceiveWindow.ParseDataKeeps(f.k.rcv, FromWire(w));
  }

  lemma OthersKeepNothing(f: Feed, w: WireSegment)
    requires w.cmd != CMD_PUSH
    ensures Dispatch(f, w).k.rcv == f.k.rcv
  {
  }

  // ----- the acknowledgements owed -----

  lemma ProcessOwes(f: Feed, w: WireSegment, regular: bool)
    ensures Process(f, w, regular).k.acks ==
      if w.cmd == CMD_PUSH && Diff(w.sn, Wrap(f.k.rcv.nxt + f.k.rcv.wnd)) < 0
      then f.k.acks + [AckItem(w.sn, w.ts)] else f.k.acks
  {
  }

  /** The list only grows, by the number and time of data segments. */
  lemma {:induction false} LoopOwes(f: Feed, ws: seq<WireSegment>, regular: bool, a: AckItem)
    requires a in ProcessAll(f, ws, regular).k.acks
    ensures a in f.k.acks
            || exists i :: 0 <= i < |ws| && ws[i].cmd == CMD_PUSH && a == AckItem(ws[i].sn, ws[i].ts)
    decreases |ws|
  {
    if ws != [] {
      var n := |ws| - 1;
      ProcessLast(f, ws, regular);
      ProcessOwes(ProcessAll(f, ws[..n], regular), ws[n], regular);
      if a in ProcessAll(f, ws[..n], regular).k.acks {
        LoopOwes(f, ws[..n], regular, a);
        if a !in f.k.acks {
          var i :| 0 <= i < n && ws[..n][i].cmd == CMD_PUSH && a == AckItem(ws[..n][i].sn, ws[..n][i].ts);
          assert ws[i] == ws[..n][i];
        }
      } else {
        assert ws[n].cmd == CMD_PUSH && a == AckItem(ws[n].sn, ws[n].ts);
      }
    }
  }

  lemma {:induction false} OwedStays(f: Feed, ws: seq<WireSegment>, regular: bool, a: AckItem)
    requires a in f.k.acks
    ensures a in ProcessAll(f, ws, regular).k.acks
    decreases |ws|
  {
    if ws != [] {
      var n := |ws| - 1;
      OwedStays(f, ws[..n], regular, a);
      ProcessLast(f, ws, regular);
      ProcessOwes(ProcessAll(f, ws[..n], regular), ws[n], regular);
    }
  }

  /** A data segment that, when its turn comes, is before the end of the window is owed an acknowledgement. */
  lemma {:induction false} DataIsOwed(f: Feed, before: seq<WireSegment>, w: WireSegment, after: seq<WireSegment>,
                                      regular: bool)
    requires w.cmd == CMD_PUSH
    ensures var r := ProcessAll(f, before, regular).k.rcv;
      Diff(w.sn, Wrap(r.nxt + r.wnd)) < 0 ==>
        AckItem(w.sn, w.ts) in ProcessAll(f, before + ([w] + after), regular).k.acks
  {
    var g := ProcessAll(f, before, regular);
    ProcessAllConcat(f, before, [w] + after, regular);
    ProcessAllConcat(g, [w], after, regular);
    ProcessOne(g, w, regular);
    ProcessOwes(g, w, regular);
    if Diff(w.sn, Wrap(g.k.rcv.nxt + g.k.rcv.wnd)) < 0 {
      OwedStays(Process(g, w, regular), after, regular, AckItem(w.sn, w.ts));
    }
  }

  // ----- the growth of the window -----

  /** One step of growth, where nothing wraps: one segment more below the threshold, else by bytes. */
  ghost predicate Grown(w: Congestion.Window, v: Congestion.Window, mss: u32)
    requires mss > 0
  {
    var base: int := Max(w.incr, mss);
    var bytes := base + mss * mss / base + mss / 16;
    && v.ssthresh == w.ssthresh && v.rmtWnd == w.rmtWnd
    && if w.cwnd < w.ssthresh then
         if w.cwnd + 1 <= w.rmtWnd then v.cwnd == w.cwnd + 1 && v.incr == w.incr + mss
         else v.cwnd == w.rmtWnd && v.incr == w.rmtWnd * mss
       else
         var more := if (w.cwnd + 1) * mss <= bytes then (bytes + mss - 1) / mss else w.cwnd;
         if more <= w.rmtWnd then v.cwnd == more && v.incr == bytes
         else v.cwnd == w.rmtWnd && v.incr == w.rmtWnd * mss
  }

  lemma GrowIsGrown(w: Congestion.Window, mss: u32, cap: nat)
    requires Congestion.Headroom(cap, mss) && Congestion.Matched(w, mss) && w.cwnd <= cap && w.rmtWnd <= cap
    ensures Grown(w, Congestion.Grow(w, mss), mss)
  {
    Congestion.GrowMatched(w, mss, cap);
    if w.cwnd < w.ssthresh {
      Congestion.SlowStart(w, mss, cap);
    } else {
      Congestion.Avoidance(w, mss, cap);
    }
  }

  /** The window `Input` grows from: the old one, with the peer's window of its segments. */
  ghost function Starting(k: Kcp, data: seq<byte>, regular: bool): Congestion.Window {
    var segs := Parse(data, k.cfg.conv).segs;
    k.win.(rmtWnd := if regular && segs != [] then segs[|segs| - 1].wnd else k.win.rmtWnd)
  }

  lemma OpenedGrows(k: Kcp, data: seq<byte>, regular: bool, now: u32)
    requires k.cfg.mss > 0 && UsedUp(k, data)
    ensures Opened(k, data, regular, now).win ==
      if k.cfg.nocwnd == 0 && Advanced(k, data, regular)
      then Congestion.Grow(Arrived(k, data, regular).k.win, k.cfg.mss)
      else Arrived(k, data, regular).k.win
  {
  }

  /**
   An `Input` that draws no full flush: when `SndUna` moved on and congestion
   control is on, the window has grown by exactly one step; otherwise it is as
   before.
   */
  lemma InputGrows(k: Kcp, data: seq<byte>, regular: bool, ackNoDelay: bool, now: u32, cap: nat)
    requires Inv(k) && KcpLaws.Roomy(k.cfg, cap) && KcpLaws.Congested(k.win, k.cfg, cap)
    requires UsedUp(k, data) && !Slid(k, data, regular)
    ensures var v := Input(k, data, regular, ackNoDelay, now).k.win;
      if k.cfg.nocwnd == 0 && Advanced(k, data, regular) then Grown(Starting(k, data, regular), v, k.cfg.mss)
      else v == Starting(k, data, regular)
  {
    LoopNotesWindow(Feed(k, false, 0, false), Parse(data, k.cfg.conv).segs, regular);
    KcpLaws.ArrivedCongested(k, data, regular, cap);
    InputWindow(k, data, regular, ackNoDelay, now);
    OpenedGrows(k, data, regular, now);
    GrowIsGrown(Starting(k, data, regular), k.cfg.mss, cap);
  }

  /**
   An `Input` that draws a full flush: the window has grown by one step before it,
   and is as the growth left it if the flush found nothing lost or skipped.
   */
  lemma InputGrowsAndFlushes(k: Kcp, data: seq<byte>, regular: bool, ackNoDelay: bool, now: u32, cap: nat)
    requires Inv(k) && KcpLaws.Roomy(k.cfg, cap) && KcpLaws.Congested(k.win, k.cfg, cap)
    requires Slid(k, data, regular) && k.cfg.nocwnd == 0
    ensures var o, v := Opened(k, data, regular, now), Input(k, data, regular, ackNoDelay, now).k.win;
      && Grown(Starting(k, data, regular), o.win, k.cfg.mss)
      && (Change(o, now) == 0 && Losses(o, now) == 0 ==>
            v == if o.win.cwnd < 1 then o.win.(cwnd := 1, incr := k.cfg.mss) else o.win)
  {
    LoopNotesWindow(Feed(k, false, 0, false), Parse(data, k.cfg.conv).segs, regular);
    KcpLaws.ArrivedCongested(k, data, regular, cap);
    SlidAdvances(k, data, regular);
    InputWindow(k, data, regular, ackNoDelay, now);
    OpenedGrows(k, data, regular, now);
    GrowIsGrown(Starting(k, data, regular), k.cfg.mss, cap);
    OpenedInv(k, data, regular, now);
    FlushEffects.WindowAfterFlush(Opened(k, data, regular, now), now);
  }
}
