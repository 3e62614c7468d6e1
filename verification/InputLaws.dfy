/**
 What one whole `Input` does to the send side (network/kcp/kcp.go:537-648): the
 loop over the segments, then the growth of the window, then the flush it may
 answer with. The growth alone is small (Congestion.GrowMatched); the answering
 flush can set the window to anything that half the segments in flight allow.
 */
module InputLaws {
  import opened Serial
  import opened Wire
  import opened Segments
  import opened KcpSpec
  import opened KcpInvariant
  import opened KcpLaws
  import AckCompression
  import SendWindow
  import Retransmit
  import Congestion

  // ----- the loop -----

  /** `g` is `s` without its first `n` entries; marks are only ever added. */
  ghost predicate Shifted(s: Sender, g: Sender, n: nat) {
    && n <= |s.buf| && |g.buf| == |s.buf| - n
    && g.una == Wrap(s.una + n) && g.nxt == s.nxt && g.queue == s.queue
    && forall j :: 0 <= j < |g.buf| && s.buf[n + j].acked ==> g.buf[j].acked
  }

  lemma SettleShifts(f: Feed, w: WireSegment, regular: bool)
    ensures Shifted(f.k.snd, Settle(f, w, regular).k.snd, SendWindow.Covered(f.k.snd, w.una))
  {
  }

  lemma DispatchShifts(f: Feed, w: WireSegment)
    ensures Shifted(f.k.snd, Dispatch(f, w).k.snd, 0)
  {
  }

  lemma ShiftedTwice(r: Sender, s: Sender, t: Sender, m: nat, n: nat)
    requires Shifted(r, s, m) && Shifted(s, t, n)
    ensures Shifted(r, t, m + n)
  {
    WrapPlus(r.una + m, n);
    forall j | 0 <= j < |t.buf| && r.buf[m + n + j].acked ensures t.buf[j].acked {
      assert s.buf[n + j].acked;
    }
  }

  lemma ProcessShifts(f: Feed, w: WireSegment, regular: bool)
    ensures Shifted(f.k.snd, Process(f, w, regular).k.snd, SendWindow.Covered(f.k.snd, w.una))
    ensures Process(f, w, regular).slides <==> SendWindow.Covered(f.k.snd, w.una) > 0
  {
    var g := Settle(f, w, regular);
    SettleShifts(f, w, regular);
    DispatchShifts(g, w);
    ShiftedTwice(f.k.snd, g.k.snd, Dispatch(g, w).k.snd, SendWindow.Covered(f.k.snd, w.una), 0);
  }

  lemma NotShifted(s: Sender)
    ensures Shifted(s, s, 0)
  {
  }

  /** The loop of `Input` drops a prefix of the send buffer; it slides only if that prefix is not empty. */
  lemma {:induction false} LoopShifts(f: Feed, ws: seq<WireSegment>, regular: bool) returns (n: nat)
    ensures Shifted(f.k.snd, ProcessAll(f, ws, regular).k.snd, n)
    ensures ProcessAll(f, ws, regular).slides ==> n > 0 || (ws == [] && f.slides)
    decreases |ws|
  {
    n := 0;
    if ws == [] {
      NotShifted(f.k.snd);
    } else {
      var g, c := Process(f, ws[0], regular), SendWindow.Covered(f.k.snd, ws[0].una);
      ProcessShifts(f, ws[0], regular);
      n := LoopShifts(g, ws[1..], regular);
      ShiftedTwice(f.k.snd, g.k.snd, ProcessAll(g, ws[1..], regular).k.snd, c, n);
      n := c + n;
    }
  }

  // ----- one `Input`, step by step -----

  /** `Input` answers with a full flush. */
  ghost predicate Slid(k: Kcp, data: seq<byte>, regular: bool) {
    UsedUp(k, data) && Arrived(k, data, regular).slides
  }

  lemma {:induction false} SomethingParsed(data: seq<byte>, conv: u32)
    requires |data| >= OVERHEAD && Parse(data, conv).ending == Exhausted
    ensures Parse(data, conv).segs != []
  {
  }

  /** `SndUna` moved on, so that the window grew. */
  ghost predicate Advanced(k: Kcp, data: seq<byte>, regular: bool) {
    UsedUp(k, data) && Diff(Arrived(k, data, regular).k.snd.una, k.snd.una) > 0
  }

  lemma ShiftIsProgress(una: u32, n: nat)
    requires n < HALF
    ensures Diff(Wrap(una + n), una) == n
  {
    DiffPlaces(una, n, 0);
    WrapId(una);
  }

  /** An answer means progress; the converse fails (see TwinsDrawNoFlush). */
  lemma SlidAdvances(k: Kcp, data: seq<byte>, regular: bool)
    requires Inv(k) && Slid(k, data, regular)
    ensures Advanced(k, data, regular)
  {
    SomethingParsed(data, k.cfg.conv);
    var n := LoopShifts(Feed(k, false, 0, false), Parse(data, k.cfg.conv).segs, regular);
    ShiftIsProgress(k.snd.una, n);
  }

  /** How many entries the answering pass sends early or fast. */
  ghost function Change(o: Kcp, now: u32): nat {
    Retransmit.Count(Admitted(o).buf, PassOf(o, now), Retransmit.Fast)
    + Retransmit.Count(Admitted(o).buf, PassOf(o, now), Retransmit.Early)
  }

  ghost function Losses(o: Kcp, now: u32): nat {
    Retransmit.Count(Admitted(o).buf, PassOf(o, now), Retransmit.Lost)
  }

  /** `inflight/2 + resent`, as `noc` computes it. */
  ghost function Halved(o: Kcp): u32 {
    Wrap(|Admitted(o).buf| / 2 + Resent(o.cfg))
  }

  lemma ShrinkCwnd(w: Congestion.Window, lost: nat, change: nat, cwnd: u32, resent: u32, inflight: u32, mss: u32)
    ensures Congestion.Shrink(w, lost, change, cwnd, resent, inflight, mss).cwnd
      == if change > 0 then Max(Wrap(inflight / 2 + resent), 1) else if lost > 0 then 1 else Max(w.cwnd, 1)
    ensures Congestion.Shrink(w, lost, change, cwnd, resent, inflight, mss).rmtWnd == w.rmtWnd
  {
  }

  /** The window after a full flush. */
  lemma FlushWindow(o: Kcp, now: u32)
    requires Inv(o)
    ensures var w := Flush(o, false, now).k.win;
      && w.rmtWnd == o.win.rmtWnd
      && w.cwnd == if o.cfg.nocwnd != 0 then o.win.cwnd
                   else if Change(o, now) > 0 then Max(Halved(o), 1)
                   else if Losses(o, now) > 0 then 1 else Max(o.win.cwnd, 1)
  {
    AdmittedSized(o);
    var p := NextProbe(o.probe, o.win.rmtWnd, now);
    var mid := o.(acks := [], probe := p.(ask := false, tell := false));
    assert Flush(o, false, now).k == PushFlush(mid, now);
    assert Admitted(mid) == Admitted(o) && PassOf(mid, now) == PassOf(o, now) && SendLimit(mid) == SendLimit(o);
    ShrinkCwnd(o.win, Losses(o, now), Change(o, now), SendLimit(o), Resent(o.cfg), |Admitted(o).buf|, o.cfg.mss);
  }

  lemma InputWindow(k: Kcp, data: seq<byte>, regular: bool, ackNoDelay: bool, now: u32)
    requires k.cfg.mss > 0
    ensures var w := Input(k, data, regular, ackNoDelay, now).k.win;
      && (!UsedUp(k, data) ==> w.cwnd == k.win.cwnd)
      && (Slid(k, data, regular) ==> w == Flush(Opened(k, data, regular, now), false, now).k.win)
      && (UsedUp(k, data) && !Slid(k, data, regular) ==> w == Opened(k, data, regular, now).win)
  {
    if |data| >= OVERHEAD {
      ProcessAllWindow(Feed(k, false, 0, false), Parse(data, k.cfg.conv).segs, regular);
    }
  }

  /** The growth step of `Input`, by itself: at most three more, and within the peer's window. */
  lemma OpenedWindow(k: Kcp, data: seq<byte>, regular: bool, now: u32, cap: nat)
    requires Inv(k) && Roomy(k.cfg, cap) && Congested(k.win, k.cfg, cap)
    ensures var o := Opened(k, data, regular, now);
      && Inv(o) && o.win.cwnd <= k.win.cwnd + 3
      && (if k.cfg.nocwnd == 0 && Diff(Arrived(k, data, regular).k.snd.una, k.snd.una) > 0
          then o.win.cwnd <= o.win.rmtWnd else o.win.cwnd == k.win.cwnd)
  {
    var start, segs := Feed(k, false, 0, false), Parse(data, k.cfg.conv).segs;
    var f := Arrived(k, data, regular);
    ArrivedCongested(k, data, regular, cap);
    ProcessAllWindow(start, segs, regular);
    SampleOpenInv(f, regular, now, k.snd.una);
    Congestion.GrowMatched(f.k.win, k.cfg.mss, cap);
  }

  /**
   One `Input` raises the window by at most three segments exactly unless it
   answers with a flush that retransmits something fast or early and sets the
   window, from the number in flight, beyond that.
   */
  lemma CwndRise(k: Kcp, data: seq<byte>, regular: bool, ackNoDelay: bool, now: u32, cap: nat)
    requires Inv(k) && Roomy(k.cfg, cap) && Congested(k.win, k.cfg, cap)
    ensures var o := Opened(k, data, regular, now);
      Input(k, data, regular, ackNoDelay, now).k.win.cwnd <= k.win.cwnd + 3 <==>
      !(Slid(k, data, regular) && k.cfg.nocwnd == 0 && Change(o, now) > 0 && Halved(o) > k.win.cwnd + 3)
  {
    InputWindow(k, data, regular, ackNoDelay, now);
    OpenedWindow(k, data, regular, now, cap);
    FlushWindow(Opened(k, data, regular, now), now);
  }

  /**
   After one `Input` the window is within the peer's exactly when: if it answered
   with a flush, the peer's window is open and what a fast or early
   retransmission set is within it; otherwise, the growth ran, which cuts the
   window to the peer's, or the old window was within it.
   */
  lemma CwndWithinPeer(k: Kcp, data: seq<byte>, regular: bool, ackNoDelay: bool, now: u32, cap: nat)
    requires Inv(k) && Roomy(k.cfg, cap) && Congested(k.win, k.cfg, cap)
    ensures var o, w := Opened(k, data, regular, now), Input(k, data, regular, ackNoDelay, now).k.win;
      w.cwnd <= w.rmtWnd <==>
      if k.cfg.nocwnd == 0 && Slid(k, data, regular)
      then w.rmtWnd >= 1 && (Change(o, now) > 0 ==> Halved(o) <= w.rmtWnd)
      else (k.cfg.nocwnd == 0 && Advanced(k, data, regular)) || k.win.cwnd <= w.rmtWnd
  {
    InputWindow(k, data, regular, ackNoDelay, now);
    OpenedWindow(k, data, regular, now, cap);
    FlushWindow(Opened(k, data, regular, now), now);
    if Slid(k, data, regular) {
      SlidAdvances(k, data, regular);
    }
  }

  // ----- which datagrams draw an answer -----

  /** The state after all segments of a datagram but the last. */
  ghost function AllButLast(k: Kcp, data: seq<byte>, regular: bool): Feed
    requires Parse(data, k.cfg.conv).segs != []
  {
    var segs := Parse(data, k.cfg.conv).segs;
    ProcessAll(Feed(k, false, 0, false), segs[..|segs| - 1], regular)
  }

  /** `SndUna` after one more segment differs exactly when that segment covers something. */
  lemma LastMoves(f: Feed, w: WireSegment, regular: bool)
    requires SendWindow.Valid(f.k.snd)
    ensures Process(f, w, regular).slides <==> Process(f, w, regular).k.snd.una != f.k.snd.una
  {
    var n := SendWindow.Covered(f.k.snd, w.una);
    ProcessShifts(f, w, regular);
    ShiftIsProgress(f.k.snd.una, n);
    ShiftIsProgress(f.k.snd.una, 0);
    WrapId(f.k.snd.una);
  }

  lemma {:induction false} ProcessOne(f: Feed, w: WireSegment, regular: bool)
    ensures ProcessAll(f, [w], regular) == Process(f, w, regular)
  {
    assert ProcessAll(Process(f, w, regular), [w][1..], regular) == Process(f, w, regular);
  }

  lemma {:induction false} ArrivedIs(k: Kcp, data: seq<byte>, regular: bool)
    requires Parse(data, k.cfg.conv).segs != []
    ensures var segs := Parse(data, k.cfg.conv).segs;
      Arrived(k, data, regular) == Process(AllButLast(k, data, regular), segs[|segs| - 1], regular)
  {
    var segs := Parse(data, k.cfg.conv).segs;
    var rest, w := segs[..|segs| - 1], segs[|segs| - 1];
    assert segs == rest + [w];
    ProcessAllConcat(Feed(k, false, 0, false), rest, [w], regular);
    ProcessOne(AllButLast(k, data, regular), w, regular);
  }

  lemma {:induction false} SlidIffLast(k: Kcp, data: seq<byte>, regular: bool)
    requires Inv(k) && Parse(data, k.cfg.conv).segs != []
    ensures Arrived(k, data, regular).slides
      <==> Arrived(k, data, regular).k.snd.una != AllButLast(k, data, regular).k.snd.una
  {
    var segs := Parse(data, k.cfg.conv).segs;
    ProcessAllInv(Feed(k, false, 0, false), segs[..|segs| - 1], regular);
    ArrivedIs(k, data, regular);
    LastMoves(AllButLast(k, data, regular), segs[|segs| - 1], regular);
  }

  /**
   When acknowledged data draws the answering flush: `Input` flushes exactly when
   the last segment of the datagram moves `SndUna`. Progress made by earlier
   segments alone draws nothing but, on request, pending acknowledgements.
   */
  lemma {:induction false} AnswersToTheLast(k: Kcp, data: seq<byte>, regular: bool, ackNoDelay: bool, now: u32)
    requires Inv(k) && UsedUp(k, data)
    ensures Parse(data, k.cfg.conv).segs != []
    ensures var o := Opened(k, data, regular, now);
      Input(k, data, regular, ackNoDelay, now) ==
        if Arrived(k, data, regular).k.snd.una != AllButLast(k, data, regular).k.snd.una
        then InputResult(0, Flush(o, false, now).k, Flush(o, false, now).out)
        else if ackNoDelay && o.acks != [] then InputResult(0, Flush(o, true, now).k, Flush(o, true, now).out)
        else InputResult(0, o, [])
  {
    SomethingParsed(data, k.cfg.conv);
    SlidIffLast(k, data, regular);
  }

  /** A segment that only acknowledges everything below `una`. */
  function Acking(conv: u32, una: u32): WireSegment {
    WireSegment(conv, CMD_WINS, 0, 32, 0, 0, una, [])
  }

  lemma {:induction false} ParseOne(w: WireSegment, conv: u32)
    requires Sendable(w, conv)
    ensures |Encoded(w)| >= OVERHEAD && Parse(Encoded(w), conv) == Parsed([w], Exhausted)
  {
    ParseStep(w, [], conv);
    assert Encoded(w) + [] == Encoded(w);
    assert Parse([], conv) == Parsed([], Exhausted);
    assert [w] + Parse([], conv).segs == [w];
  }

  /** The state after acknowledging everything below `una`, with a remote window of 32. */
  function Acknowledged(k: Kcp, una: u32): Kcp {
    k.(snd := SendWindow.AdvanceUna(k.snd, una), win := k.win.(rmtWnd := 32))
  }

  /** A datagram of one segment that only acknowledges. */
  lemma AckingArrives(k: Kcp, una: u32)
    ensures UsedUp(k, Encoded(Acking(k.cfg.conv, una)))
    ensures Arrived(k, Encoded(Acking(k.cfg.conv, una)), true)
            == Feed(Acknowledged(k, una), false, 0, SendWindow.Covered(k.snd, una) > 0)
  {
    ParseOne(Acking(k.cfg.conv, una), k.cfg.conv);
    ProcessOne(Feed(k, false, 0, false), Acking(k.cfg.conv, una), true);
  }

  lemma {:induction false} ParseTwo(w: WireSegment, conv: u32)
    requires Sendable(w, conv)
    ensures Parse(Encoded(w) + Encoded(w), conv) == Parsed([w] + [w], Exhausted)
  {
    ParseOne(w, conv);
    ParseStep(w, Encoded(w), conv);
  }

  lemma AckingTwice(f: Feed, una: u32)
    requires SendWindow.Valid(f.k.snd)
    ensures var w := Acking(f.k.cfg.conv, una);
      Process(Process(f, w, true), w, true) == Feed(Acknowledged(f.k, una), f.acked, f.latest, false)
  {
    var s := SendWindow.AdvanceUna(f.k.snd, una);
    AckCompression.AdvanceSettles(f.k.snd, una);
    WrapId(s.una);
    assert SendWindow.AdvanceUna(s, una) == s;
  }

  /** The same segment twice in one datagram. */
  lemma TwinsArrive(k: Kcp, una: u32)
    requires Inv(k)
    ensures var w := Acking(k.cfg.conv, una);
      && UsedUp(k, Encoded(w) + Encoded(w))
      && Arrived(k, Encoded(w) + Encoded(w), true) == Feed(Acknowledged(k, una), false, 0, false)
  {
    var w := Acking(k.cfg.conv, una);
    var start := Feed(k, false, 0, false);
    ParseOne(w, k.cfg.conv);
    ParseTwo(w, k.cfg.conv);
    ProcessAllConcat(start, [w], [w], true);
    ProcessOne(start, w, true);
    ProcessOne(Process(start, w, true), w, true);
    AckingTwice(start, una);
  }

  /** However much the twins acknowledge, `Input` sends nothing. */
  lemma TwinsDrawNoFlush(k: Kcp, una: u32, now: u32)
    requires Inv(k)
    ensures var w := Acking(k.cfg.conv, una);
      var r := Input(k, Encoded(w) + Encoded(w), true, false, now);
      r.code == 0 && r.out == [] && r.k.snd == SendWindow.AdvanceUna(k.snd, una)
  {
    TwinsArrive(k, una);
  }

  // ----- a rise by more than three -----

  /** The 21 segments in flight; the second has been skipped once. */
  function CrowdedEntry(i: nat): Segment
    requires i < 21
  {
    Fresh(0, []).(cmd := CMD_PUSH, sn := i, xmit := 1, fastack := if i == 1 then 1 else 0)
  }

  function CrowdedBuffer(): (buf: seq<Segment>)
    ensures |buf| == 21
  {
    seq(21, i requires 0 <= i < 21 => CrowdedEntry(i))
  }

  function CrowdedSender(): Sender {
    Sender(0, 21, [], CrowdedBuffer())
  }

  /** Default settings and nothing queued. */
  function Crowded(): Kcp {
    New(0).(snd := CrowdedSender(), win := Congestion.Window(2, 1, 1376, 32))
  }

  lemma CrowdedOk()
    ensures Inv(Crowded()) && Roomy(Crowded().cfg, SendWindow.LIMIT)
    ensures Congested(Crowded().win, Crowded().cfg, SendWindow.LIMIT)
  {
    var buf := CrowdedBuffer();
    forall e | e in buf ensures SendWindow.Sent(e) && e.data == [] && e.conv == 0 {
      var i :| 0 <= i < 21 && buf[i] == e;
    }
  }

  /** The pass that answers: the skipped segment is now the oldest, and nothing new was admitted. */
  lemma CrowdedPass(o: Kcp, now: u32)
    requires o.cfg == New(0).cfg && o.snd == Sender(1, 21, [], CrowdedBuffer()[1..])
    ensures Change(o, now) > 0 && Halved(o) == 9
  {
    var buf := Admitted(o).buf;
    assert buf == CrowdedBuffer()[1..];
    assert buf[0] == CrowdedEntry(1);
    assert Retransmit.Classify(buf[0], PassOf(o, now)) == Retransmit.Early;
    Retransmit.CountPositive(buf, PassOf(o, now), Retransmit.Early);
  }

  lemma CrowdedAdvances()
    ensures SendWindow.Covered(CrowdedSender(), 1) == 1
    ensures SendWindow.AdvanceUna(CrowdedSender(), 1) == Sender(1, 21, [], CrowdedBuffer()[1..])
  {
    SignedId(1);
    WrapId(1);
  }

  lemma CrowdedOpens(now: u32)
    ensures Slid(Crowded(), Encoded(Acking(0, 1)), true)
    ensures var o := Opened(Crowded(), Encoded(Acking(0, 1)), true, now);
      o.cfg == New(0).cfg && o.snd == Sender(1, 21, [], CrowdedBuffer()[1..])
  {
    CrowdedAdvances();
    AckingArrives(Crowded(), 1);
  }

  /** One acknowledgement of one segment takes the window from 1 to 9. */
  lemma RiseToNine(now: u32)
    ensures Crowded().win.cwnd == 1
    ensures Input(Crowded(), Encoded(Acking(0, 1)), true, false, now).k.win.cwnd == 9
  {
    var k, data := Crowded(), Encoded(Acking(0, 1));
    CrowdedOk();
    CrowdedOpens(now);
    InputWindow(k, data, true, false, now);
    OpenedWindow(k, data, true, now, SendWindow.LIMIT);
    CrowdedPass(Opened(k, data, true, now), now);
    FlushWindow(Opened(k, data, true, now), now);
  }

  // ----- an acknowledgement that draws no flush -----

  lemma CrowdedTwins(now: u32)
    ensures var r := Input(Crowded(), Encoded(Acking(0, 1)) + Encoded(Acking(0, 1)), true, false, now);
      r.out == [] && r.k.snd.una == 1
  {
    CrowdedOk();
    CrowdedAdvances();
    TwinsDrawNoFlush(Crowded(), 1, now);
  }

  lemma CrowdedAnswer(o: Kcp, now: u32)
    requires o.cfg == New(0).cfg && o.snd == Sender(1, 21, [], CrowdedBuffer()[1..])
    ensures Flush(o, false, now).out != [] && Flush(o, false, now).k.snd.una == 1
  {
    var buf := Admitted(o).buf;
    assert buf == CrowdedBuffer()[1..];
    assert buf[0] == CrowdedEntry(1);
    assert Retransmit.Classify(buf[0], PassOf(o, now)) == Retransmit.Early;
    Retransmit.OutgoingComplete(buf, PassOf(o, now), 0);
  }

  /**
   The same progress, drawn from one segment or from two: the one retransmits
   the skipped entry at once, the two leave it until the next tick.
   */
  lemma ProgressWithoutAnswer(now: u32)
    ensures var one := Encoded(Acking(0, 1));
      var r, s := Input(Crowded(), one, true, false, now), Input(Crowded(), one + one, true, false, now);
      && Crowded().snd.una == 0 && r.k.snd.una == s.k.snd.una == 1
      && r.out != [] && s.out == []
  {
    var k, one := Crowded(), Encoded(Acking(0, 1));
    CrowdedOk();
    CrowdedOpens(now);
    CrowdedTwins(now);
    var o := Opened(k, one, true, now);
    CrowdedPass(o, now);
    CrowdedAnswer(o, now);
  }
}
