/**
 Stream mode from write to read (network/kcp/kcp.go:295-357, 462-521;
 network/kcp/udp.go:152-251): two writes that share a segment leave an empty
 segment behind, it travels like any other, and once it is at the head of the
 receive queue nothing is ever read again.
 */
module EmptyMessages {
  import opened Serial
  import opened Wire
  import opened Packing
  import opened Segments
  import opened KcpSpec
  import opened KcpInvariant
  import Fragmentation
  import ReceiveWindow
  import Retransmit
  import SendWindow
  import Streams

  /** A new endpoint in stream mode, with congestion control off. */
  function StreamEndpoint(conv: u32): Kcp {
    New(conv).(cfg := New(conv).cfg.(stream := 1, nocwnd := 1))
  }

  lemma {:induction false} SendTwice(k: Kcp, x: seq<byte>, y: seq<byte>)
    requires k.cfg.mss > 0
    ensures Send(k, x).1.cfg == k.cfg
    ensures Streams.SendAll(k, [x] + [y]) == Send(Send(k, x).1, y).1
  {
    assert ([x] + [y])[1..] == [y] && [y][1..] == [];
    var l := Send(k, x).1;
    assert Streams.SendAll(l, [y]) == Streams.SendAll(Send(l, y).1, []);
  }

  lemma FirstPiece(x: seq<byte>, mss: nat)
    requires x != [] && |x| <= mss
    ensures Fragmentation.Send([], x, mss, true) == Fragmentation.SendResult(0, [Fresh(0, x)])
  {
    assert x[0..] == x;
    assert Fragmentation.Queued(Fragmentation.Fragments(x, mss, true)) == [Fresh(0, x)];
  }

  lemma SecondPiece(x: seq<byte>, y: seq<byte>, mss: nat)
    requires x != [] && y != [] && |x| + |y| <= mss
    ensures Fragmentation.Send([Fresh(0, x)], y, mss, true)
      == Fragmentation.SendResult(0, [Fresh(0, x + y), Fresh(0, [])])
  {
    assert y[..|y|] == y && y[|y|..] == [];
    assert Fragmentation.Queued(Fragmentation.Fragments([], mss, true)) == [Fresh(0, [])];
    assert Fragmentation.Extend([Fresh(0, x)], y) == [Fresh(0, x + y)];
  }

  /** The second write tops up the segment of the first, and queues an empty one. */
  lemma TwoWrites(conv: u32, x: seq<byte>, y: seq<byte>)
    requires x != [] && y != [] && |x| + |y| <= New(conv).cfg.mss
    ensures Streams.SendAll(StreamEndpoint(conv), [x] + [y])
      == StreamEndpoint(conv).(snd := Sender(0, 0, [Fresh(0, x + y), Fresh(0, [])], []))
  {
    var k := StreamEndpoint(conv);
    FirstPiece(x, k.cfg.mss);
    SecondPiece(x, y, k.cfg.mss);
    SendTwice(k, x, y);
  }

  /** The data segment numbered `sn` of the first flush. */
  function Pushed(conv: u32, sn: u32, data: seq<byte>, now: u32): WireSegment {
    WireSegment(conv, CMD_PUSH, 0, 32, now, sn, 0, data)
  }

  lemma {:induction false} OutgoingTwo(e: Segment, f: Segment, p: Retransmit.Pass)
    requires Retransmit.Goes(Retransmit.Classify(e, p)) && Retransmit.Goes(Retransmit.Classify(f, p))
    ensures Retransmit.Outgoing([e, f], p) == [OnWire(Retransmit.Touch(e, p)), OnWire(Retransmit.Touch(f, p))]
  {
    assert [e, f][..1] == [e] && [e][..0] == [];
    assert Retransmit.Outgoing([], p) == [];
    assert Retransmit.Outgoing([e], p) == [OnWire(Retransmit.Touch(e, p))];
  }

  /** Both segments go out. */
  lemma BothAdmitted(k: Kcp, conv: u32, xy: seq<byte>, now: u32)
    requires k == StreamEndpoint(conv).(snd := Sender(0, 0, [Fresh(0, xy), Fresh(0, [])], []))
    ensures Flush(k, false, now).out
      == PushEmissions([Pushed(conv, 0, xy, now), Pushed(conv, 1, [], now)])
  {
    var e := SendWindow.Number(Fresh(0, xy), conv, 0);
    var f := SendWindow.Number(Fresh(0, []), conv, 1);
    assert Admitted(k).buf == [e, f];
    OutgoingTwo(e, f, PassOf(k, now));
    assert NextProbe(k.probe, k.win.rmtWnd, now) == k.probe;
    assert AckEmissions(k) == [] && ProbeEmissions(k, k.probe) == [];
  }

  /** Two segments that fit one datagram are one. */
  lemma {:induction false} OneDatagram(v: WireSegment, w: WireSegment, mtu: nat)
    requires 2 * OVERHEAD + |v.data| + |w.data| <= mtu
    ensures Datagrams(PushEmissions([v, w]), mtu, 0) == [[v] + [w]]
  {
    var es := PushEmissions([v, w]);
    var e, f := Emission(OVERHEAD + |v.data|, Some(v)), Emission(OVERHEAD + |w.data|, Some(w));
    assert es == [e, f] && es[1..] == [f] && [f][1..] == [];
    var start := Packer([], []);
    assert [] + [v] == [v];
    assert Emit(start, e, mtu, 0) == Packer([], [v]);
    assert Bytes([v]) == Encoded(v) + Bytes([]);
    assert Emit(Packer([], [v]), f, mtu, 0) == Packer([], [v] + [w]);
    assert Pack(start, es, mtu, 0) == Pack(Packer([], [v]), [f], mtu, 0) == Pack(Packer([], [v] + [w]), [], mtu, 0);
    BytesEmpty([v] + [w]);
  }

  /** The expected segment, with nothing stored and room in the queue, becomes readable at once. */
  lemma {:induction false} ExpectedIsReadable(r: Receiver, e: Segment)
    requires ReceiveWindow.Valid(r) && r.buf == [] && e.sn == r.nxt && |r.queue| < r.wnd
    ensures ReceiveWindow.ParseData(r, e) == Receiver(Wrap(r.nxt + 1), r.wnd, r.queue + [e], [])
  {
    var s := r.(buf := ReceiveWindow.Insert(r.buf, r.nxt, e));
    assert s.buf == [e];
    assert ReceiveWindow.Run([e][1..], Wrap(r.nxt + 1), r.wnd - |r.queue| - 1) == 0;
    assert ReceiveWindow.Run([e], r.nxt, r.wnd - |r.queue|) == 1;
  }

  /** What the first flush of the stream endpoint does to a new peer, segment by segment. */
  lemma PushTaken(f: Feed, w: WireSegment)
    requires Inv(f.k) && f.k.snd.buf == [] && f.k.rcv.buf == [] && |f.k.rcv.queue| < f.k.rcv.wnd
    requires w.cmd == CMD_PUSH && w.sn == f.k.rcv.nxt
    ensures var g := Process(f, w, true);
      && !g.slides && g.acked == f.acked && Inv(g.k) && g.k.snd.buf == [] && g.k.cfg == f.k.cfg
      && g.k.rcv == Receiver(Wrap(f.k.rcv.nxt + 1), f.k.rcv.wnd, f.k.rcv.queue + [FromWire(w)], [])
  {
    ExpectedIsReadable(f.k.rcv, FromWire(w));
    ProcessInv(f, w, true);
  }

  lemma BothTaken(conv: u32, v: WireSegment, w: WireSegment)
    requires v.cmd == w.cmd == CMD_PUSH && v.sn == 0 && w.sn == 1
    ensures var f := ProcessAll(Feed(New(conv), false, 0, false), [v] + [w], true);
      && !f.slides && !f.acked && f.k.rcv == Receiver(2, WND_RCV, [FromWire(v), FromWire(w)], [])
  {
    var start := Feed(New(conv), false, 0, false);
    NewInv(conv);
    PushTaken(start, v);
    PushTaken(Process(start, v, true), w);
    assert ([v] + [w])[1..] == [w] && [w][1..] == [];
    var g := Process(Process(start, v, true), w, true);
    assert ProcessAll(Process(start, v, true), [w], true) == ProcessAll(g, [], true);
    assert [] + [FromWire(v)] == [FromWire(v)];
  }

  /** The datagram on a new peer. */
  lemma DatagramArrives(conv: u32, xy: seq<byte>, now: u32, later: u32)
    requires |xy| <= New(conv).cfg.mss
    ensures var v, w := Pushed(conv, 0, xy, now), Pushed(conv, 1, [], now);
      Input(New(conv), Bytes([v] + [w]), true, false, later).k.rcv
      == Receiver(2, WND_RCV, [FromWire(v), FromWire(w)], [])
  {
    var v, w := Pushed(conv, 0, xy, now), Pushed(conv, 1, [], now);
    ParseInvertsBytes([v] + [w], conv, []);
    assert Bytes([v] + [w]) + [] == Bytes([v] + [w]);
    BytesEmpty([v] + [w]);
    BothTaken(conv, v, w);
  }

  /** Reading takes the first message and leaves the empty one at the head. */
  lemma {:induction false} ReadLeavesEmpty(k: Kcp, e: Segment, f: Segment)
    requires k.rcv.queue == [e, f] && k.rcv.buf == [] && e.frg == f.frg == 0 && f.data == [] && e.data != []
    ensures var r := Streams.Read(k, [], |e.data|);
      r.data == e.data && r.left == [] && r.k.rcv.queue == [f] && ReceiveWindow.PeekSize(r.k.rcv.queue) == 0
  {
    assert k.rcv.queue[1..] == [f] && k.rcv.queue[..1] == [e];
    assert [e][1..] == [];
    assert ReceiveWindow.Payload([e]) == e.data + ReceiveWindow.Payload([]);
    assert e.data + [] == e.data && e.data[..|e.data|] == e.data && e.data[|e.data|..] == [];
    assert [f] + [] == [f];
  }

  /** Nothing that arrives later changes what is at the head. */
  lemma EmptyHeadStays(queue: seq<Segment>, more: seq<Segment>)
    requires queue != [] && queue[0].frg == 0 && queue[0].data == []
    ensures ReceiveWindow.PeekSize(queue + more) == 0
  {
  }

  /**
   Two writes that share a segment, flushed and delivered: the reader gets both
   in one message, and from then on every read blocks, whatever follows them.
   */
  lemma {:induction false} MergedWritesBlock(conv: u32, x: seq<byte>, y: seq<byte>, now: u32, later: u32,
                                             capacities: seq<nat>)
    requires x != [] && y != [] && |x| + |y| + OVERHEAD <= New(conv).cfg.mss
    ensures var s := Streams.SendAll(StreamEndpoint(conv), [x] + [y]);
      var ds := Datagrams(Flush(s, false, now).out, s.cfg.mtu, s.cfg.reserved);
      && |ds| == 1
      && var r := Streams.Read(Input(New(conv), Bytes(ds[0]), true, false, later).k, [], |x + y|);
         && r.data == x + y && ReceiveWindow.PeekSize(r.k.rcv.queue) == 0
         && Streams.ReadAll(r.k, r.left, capacities) == ([], r.k, [])
         && forall more :: ReceiveWindow.PeekSize(r.k.rcv.queue + more) == 0
  {
    TwoWrites(conv, x, y);
    var s := Streams.SendAll(StreamEndpoint(conv), [x] + [y]);
    BothAdmitted(s, conv, x + y, now);
    var v, w := Pushed(conv, 0, x + y, now), Pushed(conv, 1, [], now);
    OneDatagram(v, w, s.cfg.mtu);
    DatagramArrives(conv, x + y, now, later);
    var k := Input(New(conv), Bytes([v] + [w]), true, false, later).k;
    ReadLeavesEmpty(k, FromWire(v), FromWire(w));
    var l := Streams.Read(k, [], |x + y|).k;
    Streams.EmptyMessageBlocks(l, capacities);
    forall more ensures ReceiveWindow.PeekSize(l.rcv.queue + more) == 0 {
      EmptyHeadStays(l.rcv.queue, more);
    }
  }
}
