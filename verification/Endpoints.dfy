/**
 One endpoint of a connection together with its history: the unbounded values
 of `SndUna` and `RcvNxt`, every fragment queued and made readable, every
 message written and read. Each call of KcpSpec is followed step by step on
 the two links it takes part in (network/kcp/kcp.go:233-357, 537-818).
 */
module Endpoints {
  import opened Serial
  import opened Wire
  import opened Packing
  import opened Segments
  import opened KcpSpec
  import opened KcpInvariant
  import opened Delivery
  import opened DeliverySteps
  import SendWindow
  import Fragmentation
  import Retransmit

  /** `flushed` is `nxt` as of the last flush. */
  datatype Endpoint = Endpoint(
    k: Kcp, una: nat, nxt: nat, flushed: nat, sent: seq<Fragment>, got: seq<Fragment>,
    written: seq<seq<byte>>, read: seq<seq<byte>>)

  /** A datagram under way (without the reserved header), with its sender's counters when it left. */
  datatype Packet = Packet(data: seq<byte>, una: nat, nxt: nat)

  function SndOf(e: Endpoint): SendSide {
    SendSide(e.k.snd, e.una, e.sent)
  }

  function RcvOf(e: Endpoint): ReceiveSide {
    ReceiveSide(e.k.rcv, e.k.acks, e.nxt, e.flushed, e.got)
  }

  /** Everything readable that has not been read is in the receive queue. */
  ghost predicate Readable(r: ReceiveSide, base: seq<Fragment>) {
    r.log == base + Fragmentation.FragmentsOf(r.rcv.queue)
  }

  // ----- what a flush emits -----

  ghost function Packets(k: Kcp, una: nat, nxt: nat, ackOnly: bool, now: u32): set<Packet> {
    set d | d in Datagrams(Flush(k, ackOnly, now).out, k.cfg.mtu, k.cfg.reserved) :: Packet(Bytes(d), una, nxt)
  }

  /** Every segment of `p` is true of the sender of the packet. */
  ghost predicate Carried(e: Endpoint, p: Packet) {
    var parsed := Parse(p.data, e.k.cfg.conv);
    && parsed.ending == Exhausted
    && forall w :: w in parsed.segs ==> PushSound(SndOf(e), p.una, w) && AckSound(RcvOf(e), p.nxt, w)
  }

  lemma {:induction false} FilteredSome(acks: seq<AckItem>, nxt: u32, a: AckItem)
    requires a in Filtered(acks, nxt)
    ensures a in acks
  {
    if acks != [] && a in Filtered(acks[1..], nxt) {
      FilteredSome(acks[1..], nxt, a);
    }
  }

  lemma AckWire(k: Kcp, w: WireSegment) returns (a: AckItem)
    requires w in AckWires(k, Filtered(k.acks, k.rcv.nxt))
    ensures a in k.acks && a.sn == w.sn && w.una == k.rcv.nxt && w.cmd == CMD_ACK
  {
    var kept := Filtered(k.acks, k.rcv.nxt);
    var i :| 0 <= i < |kept| && AckWires(k, kept)[i] == w;
    a := kept[i];
    FilteredSome(k.acks, k.rcv.nxt, a);
  }

  lemma ProbeWire(k: Kcp, p: Probe, w: WireSegment)
    requires w in ProbeWires(k, p)
    ensures w.una == k.rcv.nxt && w.cmd != CMD_ACK && w.cmd != CMD_PUSH
  {
  }

  /** The endpoint after a flush made in state `k0`, which differs from `e.k` in clocks and counters only. */
  function Flushing(e: Endpoint, k0: Kcp, ackOnly: bool, now: u32): Endpoint {
    e.(k := Flush(k0, ackOnly, now).k, flushed := e.nxt)
  }

  ghost predicate SameBuffers(e: Endpoint, k0: Kcp) {
    Inv(k0) && k0.snd == e.k.snd && k0.rcv == e.k.rcv && k0.acks == e.k.acks && k0.cfg == e.k.cfg
  }

  lemma FlushingSides(e: Endpoint, k0: Kcp, ackOnly: bool, now: u32)
    requires SameBuffers(e, k0)
    ensures var f := Flushing(e, k0, ackOnly, now);
      && RcvOf(f) == Reported(RcvOf(e)) && f.k.cfg == e.k.cfg
      && SndOf(f) == if ackOnly then SndOf(e)
                     else Passed(Topped(SndOf(e), SendLimit(k0), k0.cfg.conv), PassOf(k0, now))
  {
  }

  lemma FlushingSender(s: SendSide, r: ReceiveSide, k0: Kcp, now: u32)
    requires Link(s, r) && k0.win.rmtWnd <= SendWindow.LIMIT
    ensures var t := Passed(Topped(s, SendLimit(k0), k0.cfg.conv), PassOf(k0, now));
      Link(t, r) && SenderGrows(s, t)
  {
    SendLimitSmall(k0);
    FillKeepsLink(s, r, SendLimit(k0), k0.cfg.conv);
    PassKeepsLink(Topped(s, SendLimit(k0), k0.cfg.conv), r, PassOf(k0, now));
  }

  /** A flush keeps both links of the endpoint; `s` and `r` are the peer's sides. */
  lemma FlushingLinks(e: Endpoint, k0: Kcp, ackOnly: bool, now: u32, s: SendSide, r: ReceiveSide)
    requires SameBuffers(e, k0) && Link(SndOf(e), r) && Link(s, RcvOf(e))
    ensures var f := Flushing(e, k0, ackOnly, now);
      && Link(SndOf(f), r) && SenderGrows(SndOf(e), SndOf(f))
      && Link(s, RcvOf(f)) && ReceiverGrows(RcvOf(e), RcvOf(f))
  {
    FlushingSides(e, k0, ackOnly, now);
    FlushingSender(SndOf(e), r, k0, now);
    ReportKeepsLink(s, RcvOf(e));
  }

  /** An outgoing data segment is the logged fragment of its number. */
  lemma PushWireSound(e: Endpoint, k0: Kcp, now: u32, r: ReceiveSide, w: WireSegment)
    requires SameBuffers(e, k0) && Link(SndOf(e), r)
    requires w in Retransmit.Outgoing(Admitted(k0).buf, PassOf(k0, now))
    ensures PushSound(SndOf(Flushing(e, k0, false, now)), e.una, w) && w.una == k0.rcv.nxt && w.cmd == CMD_PUSH
  {
    var i := OutgoingEntry(k0, now, w);
    FlushingSides(e, k0, false, now);
    FlushingSender(SndOf(e), r, k0, now);
    var t := SndOf(Flushing(e, k0, false, now));
    var x := Admitted(k0).buf[i];
    assert t.snd.buf[i] == Retransmit.Touch(x, PassOf(k0, now));
    Retransmit.TouchKeeps(x, PassOf(k0, now));
    PushEmitted(t, i, w);
  }

  /** Every segment a flush puts on the wire is true of the endpoint after it. */
  lemma WireSound(e: Endpoint, k0: Kcp, ackOnly: bool, now: u32, s: SendSide, r: ReceiveSide, w: WireSegment)
    requires SameBuffers(e, k0) && Link(SndOf(e), r) && Link(s, RcvOf(e))
    requires w in FlushWires(k0, ackOnly, now)
    ensures var f := Flushing(e, k0, ackOnly, now);
      PushSound(SndOf(f), e.una, w) && AckSound(RcvOf(f), e.nxt, w)
  {
    FlushingSides(e, k0, ackOnly, now);
    if w in AckWires(k0, Filtered(k0.acks, k0.rcv.nxt)) {
      var a := AckWire(k0, w);
    } else if !ackOnly && w in Retransmit.Outgoing(Admitted(k0).buf, PassOf(k0, now)) {
      PushWireSound(e, k0, now, r, w);
    } else {
      ProbeWire(k0, NextProbe(k0.probe, k0.win.rmtWnd, now), w);
    }
    AckEmitted(s, RcvOf(e), w);
  }

  /** Every packet of a flush parses completely into segments that are true of the endpoint. */
  lemma FlushingCarried(e: Endpoint, k0: Kcp, ackOnly: bool, now: u32, s: SendSide, r: ReceiveSide, p: Packet)
    requires SameBuffers(e, k0) && Link(SndOf(e), r) && Link(s, RcvOf(e))
    requires p in Packets(k0, e.una, e.nxt, ackOnly, now)
    ensures Carried(Flushing(e, k0, ackOnly, now), p)
  {
    var ds := Datagrams(Flush(k0, ackOnly, now).out, k0.cfg.mtu, k0.cfg.reserved);
    var d :| d in ds && p == Packet(Bytes(d), e.una, e.nxt);
    FlushRoundTrip(k0, ackOnly, now);
    FlushFits(k0, ackOnly, now);
    FlushEmits(k0, ackOnly, now);
    DatagramsCarryEmissions(Flush(k0, ackOnly, now).out, k0.cfg.mtu, k0.cfg.reserved);
    FlushingSides(e, k0, ackOnly, now);
    forall w | w in d
      ensures PushSound(SndOf(Flushing(e, k0, ackOnly, now)), e.una, w)
      ensures AckSound(RcvOf(Flushing(e, k0, ackOnly, now)), e.nxt, w)
    {
      FlattenMembers(ds, d, w);
      WireSound(e, k0, ackOnly, now, s, r, w);
    }
  }

  /** What is under way stays true when the endpoint moves on. */
  lemma CarriedGrows(e: Endpoint, f: Endpoint, p: Packet)
    requires Carried(e, p) && f.k.cfg.conv == e.k.cfg.conv
    requires SenderGrows(SndOf(e), SndOf(f)) && ReceiverGrows(RcvOf(e), RcvOf(f))
    ensures Carried(f, p)
  {
    forall w | w in Parse(p.data, e.k.cfg.conv).segs
      ensures PushSound(SndOf(f), p.una, w) && AckSound(RcvOf(f), p.nxt, w)
    {
      PushSoundGrows(SndOf(e), SndOf(f), p.una, w);
      AckSoundGrows(RcvOf(e), RcvOf(f), p.nxt, w);
    }
  }

  // ----- a datagram arrives -----

  /** The loop of `Input` on an endpoint with its history. */
  datatype Walk = Walk(e: Endpoint, acked: bool, latest: u32, slides: bool)

  function FeedOf(x: Walk): Feed {
    Feed(x.e.k, x.acked, x.latest, x.slides)
  }

  function ReceiverAfter(r: ReceiveSide, w: WireSegment): ReceiveSide {
    if w.cmd == CMD_PUSH then Taken(r, w) else r
  }

  function SenderAfter(s: SendSide, w: WireSegment): SendSide {
    var t := Advanced(s, w.una);
    if w.cmd == CMD_ACK then Marked(t, w.sn, w.ts) else t
  }

  /** One round of the loop: `Process`, and the counters and logs moved along. */
  function Step(x: Walk, w: WireSegment, regular: bool): Walk {
    var g := Process(FeedOf(x), w, regular);
    var s, r := SenderAfter(SndOf(x.e), w), ReceiverAfter(RcvOf(x.e), w);
    Walk(x.e.(k := g.k, una := s.una, nxt := r.nxt, got := r.log), g.acked, g.latest, g.slides)
  }

  function StepAll(x: Walk, ws: seq<WireSegment>, regular: bool): Walk
    decreases |ws|
  {
    if ws == [] then x else StepAll(Step(x, ws[0], regular), ws[1..], regular)
  }

  lemma StepSides(x: Walk, w: WireSegment, regular: bool)
    ensures var y := Step(x, w, regular);
      && FeedOf(y) == Process(FeedOf(x), w, regular)
      && SndOf(y.e) == SenderAfter(SndOf(x.e), w)
      && RcvOf(y.e) == ReceiverAfter(RcvOf(x.e), w)
      && y.e.k.cfg == x.e.k.cfg
  {
  }

  /** The history follows the loop of `Input` exactly. */
  lemma {:induction false} StepAllFollows(x: Walk, ws: seq<WireSegment>, regular: bool)
    ensures FeedOf(StepAll(x, ws, regular)) == ProcessAll(FeedOf(x), ws, regular)
    decreases |ws|
  {
    if ws != [] {
      StepSides(x, ws[0], regular);
      StepAllFollows(Step(x, ws[0], regular), ws[1..], regular);
    }
  }

  /** The packet is not older than AGE for either of the two links. */
  ghost predicate Timely(e: Endpoint, una: nat, nxt: nat) {
    e.flushed - una <= AGE && e.una - nxt <= AGE
  }

  lemma SenderSteps(s: SendSide, r: ReceiveSide, nxt: nat, w: WireSegment)
    requires Link(s, r) && AckSound(r, nxt, w) && s.una - nxt <= AGE
    ensures Link(SenderAfter(s, w), r) && SenderGrows(s, SenderAfter(s, w)) && SenderAfter(s, w).una - nxt <= AGE
  {
    UnaArrives(s, r, nxt);
    if w.cmd == CMD_ACK {
      AckArrives(Advanced(s, w.una), r, nxt, w);
    }
  }

  /** One segment that is true of the peer keeps both links. */
  lemma StepLinks(x: Walk, w: WireSegment, regular: bool, s: SendSide, r: ReceiveSide, una: nat, nxt: nat)
    requires Link(SndOf(x.e), r) && Link(s, RcvOf(x.e)) && Timely(x.e, una, nxt)
    requires PushSound(s, una, w) && AckSound(r, nxt, w)
    ensures var y := Step(x, w, regular);
      && Link(SndOf(y.e), r) && SenderGrows(SndOf(x.e), SndOf(y.e))
      && Link(s, RcvOf(y.e)) && ReceiverGrows(RcvOf(x.e), RcvOf(y.e))
      && Timely(y.e, una, nxt)
  {
    StepSides(x, w, regular);
    SenderSteps(SndOf(x.e), r, nxt, w);
    if w.cmd == CMD_PUSH {
      PushArrives(s, RcvOf(x.e), una, w);
    }
  }

  /** Everything readable stays accounted for as more becomes readable. */
  lemma TakenReadable(r: ReceiveSide, w: WireSegment, base: seq<Fragment>)
    requires Readable(r, base)
    ensures Readable(Taken(r, w), base)
  {
  }

  lemma {:induction false} StepAllReadable(x: Walk, ws: seq<WireSegment>, regular: bool, base: seq<Fragment>)
    requires Readable(RcvOf(x.e), base)
    ensures Readable(RcvOf(StepAll(x, ws, regular).e), base)
    decreases |ws|
  {
    if ws != [] {
      StepSides(x, ws[0], regular);
      TakenReadable(RcvOf(x.e), ws[0], base);
      StepAllReadable(Step(x, ws[0], regular), ws[1..], regular, base);
    }
  }

  /** The loop touches nothing but the engine, the counters and the log of what arrived. */
  lemma {:induction false} StepAllOnly(x: Walk, ws: seq<WireSegment>, regular: bool)
    ensures var y := StepAll(x, ws, regular);
      && y.e == x.e.(k := y.e.k, una := y.e.una, nxt := y.e.nxt, got := y.e.got) && y.e.k.cfg == x.e.k.cfg
    decreases |ws|
  {
    if ws != [] {
      StepSides(x, ws[0], regular);
      StepAllOnly(Step(x, ws[0], regular), ws[1..], regular);
    }
  }

  /** The whole loop of `Input` on a packet of the peer keeps both links. */
  lemma {:induction false} StepAllLinks(x: Walk, ws: seq<WireSegment>, regular: bool, s: SendSide, r: ReceiveSide,
                                        una: nat, nxt: nat)
    requires Link(SndOf(x.e), r) && Link(s, RcvOf(x.e)) && Timely(x.e, una, nxt)
    requires forall w :: w in ws ==> PushSound(s, una, w) && AckSound(r, nxt, w)
    ensures var y := StepAll(x, ws, regular);
      && Link(SndOf(y.e), r) && SenderGrows(SndOf(x.e), SndOf(y.e))
      && Link(s, RcvOf(y.e)) && ReceiverGrows(RcvOf(x.e), RcvOf(y.e))
    decreases |ws|
  {
    if ws != [] {
      var w := ws[0];
      assert w in ws && forall v :: v in ws[1..] ==> v in ws;
      StepLinks(x, w, regular, s, r, una, nxt);
      StepAllLinks(Step(x, w, regular), ws[1..], regular, s, r, una, nxt);
    }
  }
}
