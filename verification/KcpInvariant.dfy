/**
 What every entry point keeps, for arbitrary datagram contents, and what one
 flush puts on the wire.
 */
module KcpInvariant {
  import opened Serial
  import opened Wire
  import opened Packing
  import opened Segments
  import opened KcpSpec
  import SendWindow
  import ReceiveWindow
  import Fragmentation
  import Retransmit

  /** Every payload waiting or in flight fits one datagram of this connection. */
  ghost predicate Sized(cfg: Config, s: Sender) {
    && (forall e :: e in s.queue ==> |e.data| <= cfg.mss)
    && forall e :: e in s.buf ==> |e.data| <= cfg.mss && e.conv == cfg.conv
  }

  /** A full segment fits a datagram, and a pooled buffer. */
  ghost predicate Configured(cfg: Config) {
    0 < cfg.mss <= MTU_LIMIT && cfg.reserved + OVERHEAD + cfg.mss == cfg.mtu
  }

  /** Holds between any two calls, whatever datagrams have arrived. */
  ghost predicate Inv(k: Kcp) {
    && Configured(k.cfg)
    && SendWindow.Valid(k.snd)
    && ReceiveWindow.Valid(k.rcv)
    && k.win.rmtWnd <= SendWindow.LIMIT
    && Sized(k.cfg, k.snd)
  }

  lemma NewInv(conv: u32)
    ensures Inv(New(conv))
  {
  }

  // ----- Send and Recv -----

  lemma SendInv(k: Kcp, data: seq<byte>)
    requires Inv(k)
    ensures Inv(Send(k, data).1)
  {
    var mss, stream := k.cfg.mss, k.cfg.stream != 0;
    var queue := k.snd.queue;
    if data != [] {
      var n := Fragmentation.TopUp(queue, data, mss, stream);
      var topped := Fragmentation.Extend(queue, data[..n]);
      forall e | e in topped ensures SendWindow.Unsent(e) && |e.data| <= mss {
        var i :| 0 <= i < |topped| && topped[i] == e;
        assert queue[i] in queue;
      }
      var fs := Fragmentation.Fragments(data[n..], mss, stream);
      Fragmentation.FragmentsSized(data[n..], mss, stream);
      var more := Fragmentation.Queued(fs);
      forall e | e in more ensures SendWindow.Unsent(e) && |e.data| <= mss {
        var i :| 0 <= i < |more| && more[i] == e;
        assert fs[i] in fs;
      }
    }
  }

  lemma RecvInv(k: Kcp, capacity: nat)
    requires Inv(k)
    ensures Inv(Recv(k, capacity).1)
  {
    ReceiveWindow.RecvValid(k.rcv, capacity);
  }

  // ----- Input -----

  lemma SettleInv(f: Feed, w: WireSegment, regular: bool)
    requires Inv(f.k)
    ensures Inv(Settle(f, w, regular).k)
  {
    SendWindow.AdvanceUnaValid(f.k.snd, w.una);
  }

  lemma AckSized(cfg: Config, s: Sender, sn: u32)
    requires Sized(cfg, s)
    ensures Sized(cfg, SendWindow.ParseAck(s, sn))
  {
  }

  lemma FastackSized(cfg: Config, s: Sender, sn: u32, ts: u32)
    requires Sized(cfg, s)
    ensures Sized(cfg, SendWindow.ParseFastack(s, sn, ts))
  {
  }

  lemma TakeAckInv(f: Feed, w: WireSegment)
    requires Inv(f.k)
    ensures Inv(TakeAck(f, w).k)
  {
    var s := f.k.snd;
    var a := SendWindow.ParseAck(s, w.sn);
    SendWindow.ParseAckValid(s, w.sn);
    SendWindow.ParseFastackValid(a, w.sn, w.ts);
    AckSized(f.k.cfg, s, w.sn);
    FastackSized(f.k.cfg, a, w.sn, w.ts);
  }

  lemma SizedPointwise(cfg: Config, was: seq<Segment>, buf: seq<Segment>)
    requires |was| == |buf| && forall e :: e in was ==> |e.data| <= cfg.mss && e.conv == cfg.conv
    requires forall i :: 0 <= i < |buf| ==> |buf[i].data| <= |was[i].data| && buf[i].conv == was[i].conv
    ensures forall e :: e in buf ==> |e.data| <= cfg.mss && e.conv == cfg.conv
  {
  }

  lemma ProcessInv(f: Feed, w: WireSegment, regular: bool)
    requires Inv(f.k)
    ensures Inv(Process(f, w, regular).k)
  {
    SettleInv(f, w, regular);
    var g := Settle(f, w, regular);
    if w.cmd == CMD_ACK {
      TakeAckInv(g, w);
    } else if w.cmd == CMD_PUSH {
      ReceiveWindow.ParseDataValid(g.k.rcv, FromWire(w));
    }
  }

  lemma {:induction false} ProcessAllInv(f: Feed, ws: seq<WireSegment>, regular: bool)
    requires Inv(f.k)
    ensures Inv(ProcessAll(f, ws, regular).k)
    decreases |ws|
  {
    if ws != [] {
      ProcessInv(f, ws[0], regular);
      ProcessAllInv(Process(f, ws[0], regular), ws[1..], regular);
    }
  }

  lemma ArrivedInv(k: Kcp, data: seq<byte>, regular: bool)
    requires Inv(k)
    ensures Inv(Arrived(k, data, regular).k)
  {
    ProcessAllInv(Feed(k, false, 0, false), Parse(data, k.cfg.conv).segs, regular);
  }

  lemma SampleOpenInv(f: Feed, regular: bool, now: u32, una: u32)
    requires Inv(f.k)
    ensures Inv(OpenWindow(Sample(f, regular, now), una))
  {
  }

  lemma OpenedInv(k: Kcp, data: seq<byte>, regular: bool, now: u32)
    requires Inv(k)
    ensures Inv(Opened(k, data, regular, now))
  {
    ArrivedInv(k, data, regular);
    SampleOpenInv(Arrived(k, data, regular), regular, now, k.snd.una);
  }

  lemma SendLimitSmall(k: Kcp)
    requires k.win.rmtWnd <= SendWindow.LIMIT
    ensures SendLimit(k) <= SendWindow.LIMIT
  {
  }

  lemma AdmittedSizes(k: Kcp)
    requires Sized(k.cfg, k.snd)
    ensures Sized(k.cfg, Admitted(k))
  {
  }

  lemma InFlight(s: Sender)
    requires SendWindow.Valid(s)
    ensures Offset(s.nxt, s.una) == |s.buf|
  {
  }

  lemma AdmittedSized(k: Kcp)
    requires Inv(k)
    ensures SendWindow.Valid(Admitted(k)) && Sized(k.cfg, Admitted(k))
    ensures Admitted(k).una == k.snd.una
    ensures Offset(Admitted(k).nxt, Admitted(k).una) == |Admitted(k).buf|
  {
    SendLimitSmall(k);
    SendWindow.AdmitValid(k.snd, SendLimit(k), k.cfg.conv);
    AdmittedSizes(k);
    InFlight(Admitted(k));
  }

  lemma TouchedSender(cfg: Config, s: Sender, p: Retransmit.Pass)
    requires SendWindow.Valid(s) && Sized(cfg, s)
    ensures SendWindow.Valid(s.(buf := Retransmit.Touched(s.buf, p)))
    ensures Sized(cfg, s.(buf := Retransmit.Touched(s.buf, p)))
  {
    Retransmit.TouchedValid(s, p);
    SizedPointwise(cfg, s.buf, Retransmit.Touched(s.buf, p));
  }

  lemma PushFlushInv(k: Kcp, now: u32)
    requires Inv(k)
    ensures Inv(PushFlush(k, now))
  {
    AdmittedSized(k);
    TouchedSender(k.cfg, Admitted(k), PassOf(k, now));
  }

  lemma FlushInv(k: Kcp, ackOnly: bool, now: u32)
    requires Inv(k)
    ensures Inv(Flush(k, ackOnly, now).k)
  {
    if !ackOnly {
      var p := NextProbe(k.probe, k.win.rmtWnd, now);
      PushFlushInv(k.(acks := [], probe := p.(ask := false, tell := false)), now);
    }
  }

  lemma RespondInv(k: Kcp, slides: bool, ackNoDelay: bool, now: u32)
    requires Inv(k)
    ensures Inv(Respond(k, slides, ackNoDelay, now).k)
  {
    FlushInv(k, false, now);
    FlushInv(k, true, now);
  }

  /**
   Whatever bytes arrive, `Input` keeps the send buffer consecutive, the receive
   buffer ordered inside its window, and the newest entry unskipped.
   */
  lemma InputInv(k: Kcp, data: seq<byte>, regular: bool, ackNoDelay: bool, now: u32)
    requires Inv(k)
    ensures Inv(Input(k, data, regular, ackNoDelay, now).k)
  {
    ArrivedInv(k, data, regular);
    OpenedInv(k, data, regular, now);
    var w := InputEnds(k, data, regular, ackNoDelay, now);
    if UsedUp(k, data) {
      RespondInv(Opened(k, data, regular, now), Arrived(k, data, regular).slides, ackNoDelay, now);
    } else {
      SettleInv(Arrived(k, data, regular), w, regular);
    }
  }

  /** The invariant does not depend on clocks, counters and flags. */
  lemma SameQueues(k: Kcp, l: Kcp)
    requires Inv(k) && l.snd == k.snd && l.rcv == k.rcv && l.cfg == k.cfg && l.win.rmtWnd == k.win.rmtWnd
    ensures Inv(l)
  {
  }

  // ----- flush -----

  lemma UpdateInv(k: Kcp, now: u32)
    requires Inv(k)
    ensures Inv(Update(k, now).k)
  {
    FlushInv(k.(updated := true, tsFlush := NextFlushTime(k, now)), false, now);
  }

  // ----- what a flush emits -----

  /** The acknowledgements that survive the filter of `flush`. */
  function Filtered(acks: seq<AckItem>, nxt: u32): seq<AckItem> {
    if acks == [] then []
    else if Diff(acks[0].sn, nxt) >= 0 || |acks| == 1 then [acks[0]] + Filtered(acks[1..], nxt)
    else Filtered(acks[1..], nxt)
  }

  function AckWires(k: Kcp, acks: seq<AckItem>): (ws: seq<WireSegment>)
    ensures |ws| == |acks|
  {
    seq(|acks|, i requires 0 <= i < |acks| => Control(k, CMD_ACK, acks[i]))
  }

  function ProbeWires(k: Kcp, p: Probe): seq<WireSegment> {
    (if p.ask then [Control(k, CMD_WASK, LastAck(k.acks))] else [])
    + (if p.tell then [Control(k, CMD_WINS, LastAck(k.acks))] else [])
  }

  /** Acknowledgements, then probes, then new and resent segments. */
  function FlushWires(k: Kcp, ackOnly: bool, now: u32): seq<WireSegment> {
    AckWires(k, Filtered(k.acks, k.rcv.nxt))
    + if ackOnly then []
      else ProbeWires(k, NextProbe(k.probe, k.win.rmtWnd, now))
           + Retransmit.Outgoing(Admitted(k).buf, PassOf(k, now))
  }

  lemma {:induction false} EmittedAcks(k: Kcp, i: nat)
    requires i <= |k.acks|
    ensures Emitted(AckEmissions(k)[i..]) == AckWires(k, Filtered(k.acks[i..], k.rcv.nxt))
    decreases |k.acks| - i
  {
    if i < |k.acks| {
      EmittedAcks(k, i + 1);
      assert AckEmissions(k)[i..] == [AckEmission(k, i)] + AckEmissions(k)[i + 1..];
      assert k.acks[i..][1..] == k.acks[i + 1..];
      assert k.acks[i..][0] == k.acks[i];
    }
  }

  lemma {:induction false} EmittedPushes(ws: seq<WireSegment>)
    ensures Emitted(PushEmissions(ws)) == ws
  {
    if ws != [] {
      assert PushEmissions(ws)[1..] == PushEmissions(ws[1..]);
      EmittedPushes(ws[1..]);
    }
  }

  lemma EmittedOne(w: WireSegment)
    ensures Emitted([Emission(OVERHEAD, Some(w))]) == [w]
  {
  }

  lemma EmittedProbes(k: Kcp, p: Probe)
    ensures Emitted(ProbeEmissions(k, p)) == ProbeWires(k, p)
  {
    var a := if p.ask then [Emission(OVERHEAD, Some(Control(k, CMD_WASK, LastAck(k.acks))))] else [];
    var b := if p.tell then [Emission(OVERHEAD, Some(Control(k, CMD_WINS, LastAck(k.acks))))] else [];
    EmittedConcat(a, b);
    EmittedOne(Control(k, CMD_WASK, LastAck(k.acks)));
    EmittedOne(Control(k, CMD_WINS, LastAck(k.acks)));
  }

  lemma FlushEmits(k: Kcp, ackOnly: bool, now: u32)
    ensures Emitted(Flush(k, ackOnly, now).out) == FlushWires(k, ackOnly, now)
  {
    EmittedAcks(k, 0);
    assert AckEmissions(k)[0..] == AckEmissions(k) && k.acks[0..] == k.acks;
    if !ackOnly {
      var p := NextProbe(k.probe, k.win.rmtWnd, now);
      var pushes := PushEmissions(Retransmit.Outgoing(Admitted(k).buf, PassOf(k, now)));
      EmittedProbes(k, p);
      EmittedPushes(Retransmit.Outgoing(Admitted(k).buf, PassOf(k, now)));
      EmittedConcat(AckEmissions(k) + ProbeEmissions(k, p), pushes);
      EmittedConcat(AckEmissions(k), ProbeEmissions(k, p));
    }
  }

  lemma EntryOnWire(s: Sender, p: Retransmit.Pass, cfg: Config, i: nat)
    requires SendWindow.Valid(s) && Sized(cfg, s) && i < |s.buf|
    ensures var w := OnWire(Retransmit.Touch(s.buf[i], p));
      w.cmd == CMD_PUSH && w.conv == cfg.conv && |w.data| <= cfg.mss && w.sn == Wrap(s.una + i)
  {
    assert s.buf[i] in s.buf;
    Retransmit.TouchKeeps(s.buf[i], p);
    assert SendWindow.Sent(s.buf[i]);
  }

  lemma OutgoingFrom(s: Sender, p: Retransmit.Pass, cfg: Config, w: WireSegment) returns (i: nat)
    requires SendWindow.Valid(s) && Sized(cfg, s) && w in Retransmit.Outgoing(s.buf, p)
    ensures i < |s.buf| && !s.buf[i].acked && w == OnWire(Retransmit.Touch(s.buf[i], p))
    ensures w.cmd == CMD_PUSH && w.conv == cfg.conv && |w.data| <= cfg.mss && w.una == p.una
    ensures w.sn == Wrap(s.una + i)
  {
    Retransmit.OutgoingSound(s.buf, p, w);
    i :| 0 <= i < |s.buf| && !s.buf[i].acked && w == OnWire(Retransmit.Touched(s.buf, p)[i]);
    EntryOnWire(s, p, cfg, i);
  }

  /** An outgoing data segment carries one unacknowledged entry of the filled window. */
  lemma OutgoingEntry(k: Kcp, now: u32, w: WireSegment) returns (i: nat)
    requires Inv(k) && w in Retransmit.Outgoing(Admitted(k).buf, PassOf(k, now))
    ensures i < |Admitted(k).buf| && !Admitted(k).buf[i].acked
    ensures w == OnWire(Retransmit.Touch(Admitted(k).buf[i], PassOf(k, now)))
    ensures w.cmd == CMD_PUSH && w.conv == k.cfg.conv && |w.data| <= k.cfg.mss && w.una == k.rcv.nxt
    ensures w.sn == Wrap(k.snd.una + i)
  {
    AdmittedSized(k);
    i := OutgoingFrom(Admitted(k), PassOf(k, now), k.cfg, w);
  }

  ghost predicate RoomFor(e: Emission, cfg: Config) {
    && 0 < e.space && cfg.reserved + e.space <= cfg.mtu
    && (e.seg.Some? ==> |Encoded(e.seg.value)| <= e.space && Sendable(e.seg.value, cfg.conv))
  }

  lemma ControlRoom(k: Kcp, cmd: byte, a: AckItem)
    requires Configured(k.cfg) && Known(cmd)
    ensures RoomFor(Emission(OVERHEAD, Some(Control(k, cmd, a))), k.cfg)
  {
  }

  lemma PushRoom(k: Kcp, now: u32, e: Emission)
    requires Inv(k) && e in PushEmissions(Retransmit.Outgoing(Admitted(k).buf, PassOf(k, now)))
    ensures RoomFor(e, k.cfg)
  {
    var pushes := Retransmit.Outgoing(Admitted(k).buf, PassOf(k, now));
    var j :| 0 <= j < |pushes| && PushEmissions(pushes)[j] == e;
    assert pushes[j] in pushes;
    var i := OutgoingEntry(k, now, pushes[j]);
  }

  lemma AckRoom(k: Kcp, e: Emission)
    requires Configured(k.cfg) && e in AckEmissions(k)
    ensures RoomFor(e, k.cfg)
  {
  }

  lemma {:induction false} EmittedSendable(es: seq<Emission>, conv: u32)
    requires forall e :: e in es && e.seg.Some? ==> Sendable(e.seg.value, conv)
    ensures AllSendable(Emitted(es), conv)
  {
    if es != [] {
      EmittedSendable(es[1..], conv);
    }
  }

  lemma FlushFits(k: Kcp, ackOnly: bool, now: u32)
    requires Inv(k)
    ensures Fits(Flush(k, ackOnly, now).out, k.cfg.mtu, k.cfg.reserved)
    ensures AllSendable(Emitted(Flush(k, ackOnly, now).out), k.cfg.conv)
  {
    var out := Flush(k, ackOnly, now).out;
    forall e | e in out ensures RoomFor(e, k.cfg) {
      if e in AckEmissions(k) {
        AckRoom(k, e);
      } else if e in PushEmissions(Retransmit.Outgoing(Admitted(k).buf, PassOf(k, now))) {
        PushRoom(k, now, e);
      } else {
        ControlRoom(k, CMD_WASK, LastAck(k.acks));
        ControlRoom(k, CMD_WINS, LastAck(k.acks));
      }
    }
    EmittedSendable(out, k.cfg.conv);
  }

  /**
   Packing and parsing undo each other: every datagram of one flush is within
   the MTU and parses completely, and parsing them in turn yields exactly the
   filtered acknowledgements, then the probes, then the new and resent segments.
   */
  lemma FlushRoundTrip(k: Kcp, ackOnly: bool, now: u32)
    requires Inv(k)
    ensures var ds := Datagrams(Flush(k, ackOnly, now).out, k.cfg.mtu, k.cfg.reserved);
      && (forall d :: d in ds ==>
           k.cfg.reserved + |Bytes(d)| <= k.cfg.mtu && Parse(Bytes(d), k.cfg.conv) == Parsed(d, Exhausted))
      && Reassembled(BytesOfAll(ds), k.cfg.conv) == FlushWires(k, ackOnly, now)
  {
    FlushFits(k, ackOnly, now);
    FlushEmits(k, ackOnly, now);
    ParsingInvertsPacking(Flush(k, ackOnly, now).out, k.cfg.mtu, k.cfg.reserved, k.cfg.conv);
  }
}
