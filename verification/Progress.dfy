/**
 The guarantees of Network are not empty promises: over a network that loses
 nothing, a message that fits one segment gets through in one flush, one
 delivery and one read (network/kcp/kcp.go:233-357, 537-648, 793-964).
 */
module Progress {
  import opened Serial
  import opened Wire
  import opened Packing
  import opened Segments
  import opened KcpSpec
  import opened KcpInvariant
  import opened Delivery
  import opened Endpoints
  import opened Network
  import SendWindow
  import Fragmentation
  import Retransmit

  lemma {:induction false} FlattenSource<T>(xs: seq<seq<T>>, e: T) returns (x: seq<T>)
    requires e in Flatten(xs)
    ensures x in xs && e in x
  {
    if e in xs[0] {
      x := xs[0];
    } else {
      x := FlattenSource(xs[1..], e);
    }
  }

  /** Whatever a flush emits is in one of its packets. */
  lemma WireInPacket(k: Kcp, una: nat, nxt: nat, now: u32, w: WireSegment) returns (p: Packet)
    requires Inv(k) && w in FlushWires(k, false, now)
    ensures p in Packets(k, una, nxt, false, now) && p.una == una && p.nxt == nxt
    ensures Parse(p.data, k.cfg.conv).ending == Exhausted && w in Parse(p.data, k.cfg.conv).segs
  {
    var out := Flush(k, false, now).out;
    FlushRoundTrip(k, false, now);
    FlushFits(k, false, now);
    FlushEmits(k, false, now);
    DatagramsCarryEmissions(out, k.cfg.mtu, k.cfg.reserved);
    var d := FlattenSource(Datagrams(out, k.cfg.mtu, k.cfg.reserved), w);
    p := Packet(Bytes(d), una, nxt);
  }

  /** A fresh endpoint that has written `m`. */
  lemma FirstWrite(a: Endpoint, m: seq<byte>)
    requires Begins(a) && m != [] && |m| <= a.k.cfg.mss
    ensures Write(a, m) ==
      a.(k := a.k.(snd := Sender(0, 0, [Fresh(0, m)], [])), sent := [Fragment(0, m)], written := [m])
  {
    assert m[0..] == m;
    assert Fragmentation.Fragments(m, a.k.cfg.mss, false) == [Fragment(0, m)];
    assert Fragmentation.Queued([Fragment(0, m)]) == [Fresh(0, m)];
  }

  lemma {:induction false} OutgoingOne(e: Segment, p: Retransmit.Pass)
    requires Retransmit.Goes(Retransmit.Classify(e, p))
    ensures Retransmit.Outgoing([e], p) == [OnWire(Retransmit.Touch(e, p))]
  {
    assert [e][..0] == [];
    assert Retransmit.Outgoing([], p) == [];
  }

  /** With an open window the one queued segment is admitted as number 0 and written. */
  lemma FirstFlushSends(k: Kcp, m: seq<byte>, now: u32) returns (w: WireSegment)
    requires k.snd == Sender(0, 0, [Fresh(0, m)], []) && SendLimit(k) >= 1
    ensures |Admitted(k).buf| == 1 && w in FlushWires(k, false, now)
    ensures w.cmd == CMD_PUSH && w.sn == 0 && Fragment(w.frg, w.data) == Fragment(0, m)
  {
    var e := SendWindow.Number(Fresh(0, m), k.cfg.conv, 0);
    assert Admitted(k).buf == [e];
    w := OnWire(Retransmit.Touch(e, PassOf(k, now)));
    OutgoingOne(e, PassOf(k, now));
  }

  lemma FirstIsTaken(s: SendSide, r: ReceiveSide, una: nat, w: WireSegment)
    requires Link(s, r) && Readable(r, []) && r.flushed - una <= AGE
    requires w.cmd == CMD_PUSH && PushFor(s, una, w, 0)
    ensures Taken(r, w).nxt > 0
  {
    if r.nxt == 0 {
      assert |r.log| == |Fragmentation.FragmentsOf(r.rcv.queue)| == 0;
      NextNumberAdvances(s, r, una, w);
    } else {
      PushArrives(s, r, una, w);
    }
  }

  /** Somewhere in the datagram is segment 0: after the loop of `Input` it has been made readable. */
  lemma {:induction false} LoopTakesFirst(x: Walk, ws: seq<WireSegment>, regular: bool, s: SendSide, r: ReceiveSide,
                                          una: nat, nxt: nat, w: WireSegment)
    requires Link(SndOf(x.e), r) && Link(s, RcvOf(x.e)) && Timely(x.e, una, nxt) && Readable(RcvOf(x.e), [])
    requires forall v :: v in ws ==> PushSound(s, una, v) && AckSound(r, nxt, v)
    requires w in ws && w.cmd == CMD_PUSH && PushFor(s, una, w, 0)
    ensures StepAll(x, ws, regular).e.nxt > 0
    decreases |ws|
  {
    var v, y := ws[0], Step(x, ws[0], regular);
    assert v in ws && forall u :: u in ws[1..] ==> u in ws;
    StepLinks(x, v, regular, s, r, una, nxt);
    StepSides(x, v, regular);
    if v == w {
      FirstIsTaken(s, RcvOf(x.e), una, w);
      StepAllLinks(y, ws[1..], regular, s, r, una, nxt);
    } else {
      if v.cmd == CMD_PUSH {
        TakenReadable(RcvOf(x.e), v, []);
      }
      LoopTakesFirst(y, ws[1..], regular, s, r, una, nxt, w);
    }
  }

  /** With the first fragment readable, the message it is can be read. */
  lemma FirstIsRead(a: Endpoint, b: Endpoint, m: seq<byte>)
    requires Joined(a, b) && a.written == [m] && |m| <= a.k.cfg.mss && b.read == [] && b.nxt > 0
    ensures Read(b, |m|).read == [m]
  {
    var mss := a.k.cfg.mss;
    UnreadQueue(a, b);
    assert a.written[0..] == [m];
    Fragmentation.NextMessage(b.k.rcv.queue, [m], mss);
    assert |b.got| == b.nxt && b.got == [] + Fragmentation.FragmentsOf(b.k.rcv.queue);
    ReadTakes(a, b, |m|);
  }

  /** The packet with segment 0 is delivered to an endpoint that has received nothing. */
  ghost predicate FirstUnderWay(a: Endpoint, b: Endpoint, p: Packet, w: WireSegment) {
    && Joined(b, a) && b.read == [] && Readable(RcvOf(b), [])
    && Carried(a, p) && Timely(b, p.una, p.nxt) && w in Parse(p.data, b.k.cfg.conv).segs
    && w.cmd == CMD_PUSH && PushFor(SndOf(a), p.una, w, 0)
  }

  lemma {:induction false} NotTooShort(data: seq<byte>, conv: u32)
    requires Parse(data, conv).segs != []
    ensures |data| >= OVERHEAD
  {
  }

  lemma DeliverTakesFirst(a: Endpoint, b: Endpoint, p: Packet, w: WireSegment, ackNoDelay: bool, now: u32)
    requires FirstUnderWay(a, b, p, w)
    ensures Deliver(b, p, true, ackNoDelay, now).e.nxt > 0
  {
    var ws := Parse(p.data, b.k.cfg.conv).segs;
    LoopTakesFirst(Walk(b, false, 0, false), ws, true, SndOf(a), RcvOf(a), p.una, p.nxt, w);
    NotTooShort(p.data, b.k.cfg.conv);
  }

  lemma JoinedAfter(b: Endpoint, d: Moved, a: Endpoint)
    requires Joined(b, a) && Moves(b, d, a) && Quiet(b, d) && Inv(d.e.k)
    ensures Joined(a, d.e)
  {
    QuietMessages(b, d, a);
  }

  lemma DeliveredFirst(a: Endpoint, b: Endpoint, p: Packet, w: WireSegment, m: seq<byte>, ackNoDelay: bool, now: u32)
    requires FirstUnderWay(a, b, p, w) && a.written == [m] && |m| <= a.k.cfg.mss
    ensures Read(Deliver(b, p, true, ackNoDelay, now).e, |m|).read == [m]
  {
    var d := Deliver(b, p, true, ackNoDelay, now);
    DeliverMoves(b, p, true, ackNoDelay, now, a);
    DeliverFollowsInput(b, p, true, ackNoDelay, now);
    InputInv(b.k, p.data, true, ackNoDelay, now);
    DeliverTakesFirst(a, b, p, w, ackNoDelay, now);
    JoinedAfter(b, d, a);
    FirstIsRead(a, d.e, m);
  }

  /** After the first flush the packet with the message is under way. */
  lemma FlushedFirst(a: Endpoint, b: Endpoint, m: seq<byte>, now: u32) returns (p: Packet, w: WireSegment)
    requires Joined(a, b) && a.k.snd == Sender(0, 0, [Fresh(0, m)], []) && SendLimit(a.k) >= 1
    requires a.una == a.nxt == 0 && a.sent == [Fragment(0, m)]
    requires b.una == b.flushed == 0 && b.read == [] && Readable(RcvOf(b), [])
    ensures var f := Network.Flushed(a, a.k, false, now);
      p in f.out && FirstUnderWay(f.e, b, p, w) && f.e.written == a.written
  {
    w := FirstFlushSends(a.k, m, now);
    p := WireInPacket(a.k, 0, 0, now, w);
    var f := Network.Flushed(a, a.k, false, now);
    FlushedMoves(a, a.k, false, now, b);
    FlushInv(a.k, false, now);
    JoinedAfter(a, f, b);
    FlushingSides(a, a.k, false, now);
    assert PushFor(SndOf(f.e), 0, w, 0);
  }

  /**
   From two fresh endpoints: write, flush, deliver the right one of the packets
   that come out, and read. The message is there.
   */
  lemma OneMessageGetsThrough(a: Endpoint, b: Endpoint, m: seq<byte>, ackNoDelay: bool, now: u32, later: u32)
    returns (p: Packet)
    requires Begins(a) && Begins(b) && a.k.cfg.conv == b.k.cfg.conv
    requires m != [] && |m| <= a.k.cfg.mss && SendLimit(a.k) >= 1
    ensures var f := Network.Flushed(Write(a, m), Write(a, m).k, false, now);
      && p in f.out && Timely(b, p.una, p.nxt)
      && Read(Deliver(b, p, true, ackNoDelay, later).e, |m|).read == [m]
  {
    InitialOk(System(a, b, {}, {}));
    FirstWrite(a, m);
    WriteGoes(a, m, b);
    SendInv(a.k, m);
    var w;
    p, w := FlushedFirst(Write(a, m), b, m, now);
    DeliveredFirst(Network.Flushed(Write(a, m), Write(a, m).k, false, now).e, b, p, w, m, ackNoDelay, later);
  }

  // ----- the endpoint as NewKCP builds it -----

  /** An endpoint whose congestion window has never been opened, between open windows. */
  ghost predicate Unopened(k: Kcp) {
    k.cfg.nocwnd == 0 && k.win.cwnd == 0 && k.cfg.sndWnd >= 1 && k.win.rmtWnd >= 1
  }

  /** Its first flush sends no data, but opens the window. */
  lemma FirstFlushOpens(k: Kcp, m: seq<byte>, now: u32)
    requires Unopened(k) && k.snd == Sender(0, 0, [Fresh(0, m)], [])
    ensures SendLimit(k) == 0
    ensures Flush(k, false, now).k.snd == k.snd && SendLimit(Flush(k, false, now).k) >= 1
  {
    assert Admitted(k).buf == [] && Admitted(k).queue == k.snd.queue;
    var t := Retransmit.Touched([], PassOf(k, now));
    assert t == [];
  }

  lemma OpeningFlush(a: Endpoint, b: Endpoint, m: seq<byte>, now: u32)
    requires Joined(a, b) && Unopened(a.k) && a.k.snd == Sender(0, 0, [Fresh(0, m)], [])
    requires a.una == a.nxt == 0
    ensures var f := Network.Flushed(a, a.k, false, now).e;
      && Joined(f, b) && f.k.snd == a.k.snd && SendLimit(f.k) >= 1 && f.k.cfg == a.k.cfg
      && f.una == f.nxt == 0 && f.sent == a.sent && f.written == a.written
  {
    var f := Network.Flushed(a, a.k, false, now);
    FlushedMoves(a, a.k, false, now, b);
    FlushInv(a.k, false, now);
    JoinedAfter(a, f, b);
    FirstFlushOpens(a.k, m, now);
  }

  /**
   An endpoint whose window is still 0 needs one flush more: write, flush twice,
   deliver the right packet, and read.
   */
  lemma UnopenedGetsThrough(a: Endpoint, b: Endpoint, m: seq<byte>, ackNoDelay: bool, now: u32, again: u32, later: u32)
    returns (p: Packet)
    requires Begins(a) && Begins(b) && a.k.cfg.conv == b.k.cfg.conv && Unopened(a.k)
    requires m != [] && |m| <= a.k.cfg.mss
    ensures var e := Network.Flushed(Write(a, m), Write(a, m).k, false, now).e;
      && p in Network.Flushed(e, e.k, false, again).out && Timely(b, p.una, p.nxt)
      && Read(Deliver(b, p, true, ackNoDelay, later).e, |m|).read == [m]
  {
    InitialOk(System(a, b, {}, {}));
    FirstWrite(a, m);
    WriteGoes(a, m, b);
    SendInv(a.k, m);
    OpeningFlush(Write(a, m), b, m, now);
    var e := Network.Flushed(Write(a, m), Write(a, m).k, false, now).e;
    var w;
    p, w := FlushedFirst(e, b, m, again);
    DeliveredFirst(Network.Flushed(e, e.k, false, again).e, b, p, w, m, ackNoDelay, later);
  }

  /** What `NewKCP` returns, with an empty history. */
  function NewEndpoint(conv: u32): Endpoint {
    Endpoint(New(conv), 0, 0, 0, [], [], [], [])
  }

  /** The same of two endpoints as they are first built. */
  lemma NewGetsThrough(conv: u32, m: seq<byte>, ackNoDelay: bool, now: u32, again: u32, later: u32)
    returns (p: Packet)
    requires 0 < |m| <= New(conv).cfg.mss
    ensures var a := Write(NewEndpoint(conv), m);
      var e := Network.Flushed(a, a.k, false, now).e;
      && p in Network.Flushed(e, e.k, false, again).out && Timely(NewEndpoint(conv), p.una, p.nxt)
      && Read(Deliver(NewEndpoint(conv), p, true, ackNoDelay, later).e, |m|).read == [m]
  {
    NewInv(conv);
    p := UnopenedGetsThrough(NewEndpoint(conv), NewEndpoint(conv), m, ackNoDelay, now, again, later);
  }
}
