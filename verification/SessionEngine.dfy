/**
 The session layer in the source's own form (network/kcp/udp.go:152-251,
 403-412, 616-660): an object around one engine, with a receive buffer part of
 which may still be waiting to be read, and a decoder. Blocking, deadlines and
 locks are not modelled: where the source would wait, `Read` reports that it is
 blocked.
 */
module SessionEngine {
  import opened Serial
  import opened Wire
  import opened Packing
  import opened KcpSpec
  import opened KcpEngine
  import KcpInvariant
  import ReceiveWindow
  import Streams
  import KcpLaws
  import FecPackets
  import FecCodec
  import FecDecoding
  import FecDecoderEngine
  import FecDelivery
  import AutoTuning
  import FecTuning
  import Fragmentation

  /** What `Output` is handed for the emissions of one call: its datagrams behind the reserved bytes. */
  ghost function Handed(cfg: Config, header: seq<byte>, out: seq<Emission>): seq<seq<byte>> {
    Framed(header, Datagrams(out, cfg.mtu, cfg.reserved))
  }

  datatype Driven = Driven(k: Kcp, outs: seq<seq<byte>>)

  /** The engine after `Input` on each of `xs` in turn, and all that `Output` was handed. */
  ghost function InputAll(k: Kcp, header: seq<byte>, xs: seq<seq<byte>>, regular: bool, ackNoDelay: bool, now: u32)
    : (d: Driven)
    requires k.cfg.mss > 0
    ensures d.k.cfg == k.cfg
    decreases |xs|
  {
    if xs == [] then Driven(k, [])
    else
      KcpLaws.InputConfig(k, xs[0], regular, ackNoDelay, now);
      var r := Input(k, xs[0], regular, ackNoDelay, now);
      var rest := InputAll(r.k, header, xs[1..], regular, ackNoDelay, now);
      Driven(rest.k, Handed(k.cfg, header, r.out) + rest.outs)
  }

  lemma {:induction false} StrippedStep(k: Kcp, header: seq<byte>, rs: seq<FecCodec.Shard>, ackNoDelay: bool, now: u32)
    requires k.cfg.mss > 0 && rs != []
    ensures var first := FecPackets.Ranger(rs[0]);
      var all := InputAll(k, header, FecDelivery.Stripped(rs), false, ackNoDelay, now);
      if first.None? then all == InputAll(k, header, FecDelivery.Stripped(rs[1..]), false, ackNoDelay, now)
      else
        var r := Input(k, first.value, false, ackNoDelay, now);
        && r.k.cfg == k.cfg
        && var rest := InputAll(r.k, header, FecDelivery.Stripped(rs[1..]), false, ackNoDelay, now);
           all == Driven(rest.k, Handed(k.cfg, header, r.out) + rest.outs)
  {
    var first := FecPackets.Ranger(rs[0]);
    if first.Some? {
      KcpLaws.InputConfig(k, first.value, false, ackNoDelay, now);
      assert FecDelivery.Stripped(rs)[1..] == FecDelivery.Stripped(rs[1..]);
    } else {
      assert FecDelivery.Stripped(rs) == FecDelivery.Stripped(rs[1..]);
    }
  }

  lemma Regroup(a: seq<seq<byte>>, b: seq<seq<byte>>, c: seq<seq<byte>>)
    ensures a + (b + c) == (a + b) + c
  {
  }

  /** What is left to come after one more shard. */
  lemma {:induction false} DrivenOn(k: Kcp, header: seq<byte>, rs: seq<FecCodec.Shard>, ackNoDelay: bool, now: u32,
                 goal: Driven, before: seq<seq<byte>>, sent: seq<seq<byte>>)
    requires k.cfg.mss > 0 && rs != []
    requires var a := InputAll(k, header, FecDelivery.Stripped(rs), false, ackNoDelay, now);
      goal.k == a.k && before + goal.outs == sent + a.outs
    ensures var first := FecPackets.Ranger(rs[0]);
      if first.None? then
        var rest := InputAll(k, header, FecDelivery.Stripped(rs[1..]), false, ackNoDelay, now);
        goal.k == rest.k && before + goal.outs == sent + rest.outs
      else
        var r := Input(k, first.value, false, ackNoDelay, now);
        && r.k.cfg == k.cfg
        && var rest := InputAll(r.k, header, FecDelivery.Stripped(rs[1..]), false, ackNoDelay, now);
           goal.k == rest.k && before + goal.outs == (sent + Handed(k.cfg, header, r.out)) + rest.outs
  {
    StrippedStep(k, header, rs, ackNoDelay, now);
    if FecPackets.Ranger(rs[0]).Some? {
      var r := Input(k, FecPackets.Ranger(rs[0]).value, false, ackNoDelay, now);
      var rest := InputAll(r.k, header, FecDelivery.Stripped(rs[1..]), false, ackNoDelay, now);
      Regroup(sent, Handed(k.cfg, header, r.out), rest.outs);
    }
  }

  /** What a packet hands to the engine by itself. */
  function DirectOf(data: FecDecoding.Packet): seq<seq<byte>>
    requires |data| >= FecPackets.HEADER + 2
  {
    if FecPackets.Flag(data) == FecPackets.TYPE_DATA then [data[FecPackets.HEADER + 2..]] else []
  }

  lemma {:induction false} InputOne(k: Kcp, header: seq<byte>, x: seq<byte>, regular: bool, ackNoDelay: bool, now: u32)
    requires k.cfg.mss > 0
    ensures var r := Input(k, x, regular, ackNoDelay, now);
      InputAll(k, header, [x], regular, ackNoDelay, now) == Driven(r.k, Handed(k.cfg, header, r.out))
  {
    KcpLaws.InputConfig(k, x, regular, ackNoDelay, now);
    var r := Input(k, x, regular, ackNoDelay, now);
    assert [x][1..] == [];
    assert InputAll(r.k, header, [], regular, ackNoDelay, now) == Driven(r.k, []);
    assert Handed(k.cfg, header, r.out) + [] == Handed(k.cfg, header, r.out);
  }

  class UDPSession {
    const kcp: KCP

    var fecDecoder: FecDecoderEngine.FecDecoder?
    var recvbuf: array<byte>
    var from: nat, till: nat
    var writeDelay: bool

    const make: FecTuning.Maker

    /** The leftover of the last message: a stretch of `recvbuf`. */
    ghost function Bufptr(): seq<byte>
      reads this, recvbuf
      requires from <= till <= recvbuf.Length
    {
      recvbuf[from..till]
    }

    ghost predicate Valid()
      reads this, recvbuf, kcp
    {
      from <= till <= recvbuf.Length && kcp.Valid() && recvbuf != kcp.buffer
    }

    constructor (k: KCP, dec: FecDecoderEngine.FecDecoder?, make: FecTuning.Maker, limit: nat, delay: bool)
      requires k.Valid()
      ensures Valid() && kcp == k && fecDecoder == dec && this.make == make
      ensures Bufptr() == [] && writeDelay == delay && fresh(recvbuf)
    {
      kcp, fecDecoder, this.make := k, dec, make;
      recvbuf := new byte[limit](_ => 0);
      from, till, writeDelay := 0, 0, delay;
    }

    /** Fills `b` from the leftover. */
    method TakeLeftover(b: array<byte>) returns (n: nat)
      requires from <= till <= recvbuf.Length && b != recvbuf
      modifies `from, b
      ensures from <= till && n == Min(b.Length, |old(Bufptr())|)
      ensures b[..] == old(Bufptr())[..n] + old(b[..])[n..] && Bufptr() == old(Bufptr())[n..]
    {
      n := Min(b.Length, till - from);
      CopyInto(b, 0, recvbuf[from..from + n]);
      from := from + n;
    }

    /** Puts a message into `recvbuf`, which is replaced when it is too small. */
    method Stash(data: seq<byte>)
      modifies `recvbuf, `from, `till, recvbuf
      ensures from <= till <= recvbuf.Length && Bufptr() == data && (recvbuf == old(recvbuf) || fresh(recvbuf))
    {
      if recvbuf.Length < |data| {
        recvbuf := new byte[|data|](_ => 0);
      }
      from, till := 0, |data|;
      CopyInto(recvbuf, 0, data);
    }

    /** Takes the next message, of `size` bytes, out of the engine. */
    method Receive(capacity: nat, size: nat) returns (data: seq<byte>)
      requires capacity >= size == ReceiveWindow.PeekSize(kcp.rcvQueue)
      modifies kcp`rcvNxt, kcp`rcvQueue, kcp`rcvBuf, kcp`probe
      ensures |data| == size
      ensures data == KcpSpec.Recv(old(kcp.View()), capacity).0.data
      ensures kcp.View() == KcpSpec.Recv(old(kcp.View()), capacity).1
    {
      PeekIsPayload(kcp.rcvQueue);
      var n;
      n, data := kcp.Recv(capacity);
    }

    /** The next message fits `b`. */
    method ReceiveInto(b: array<byte>, size: nat)
      requires b != kcp.buffer && b.Length >= size == ReceiveWindow.PeekSize(kcp.rcvQueue)
      modifies b, kcp`rcvNxt, kcp`rcvQueue, kcp`rcvBuf, kcp`probe
      ensures |KcpSpec.Recv(old(kcp.View()), b.Length).0.data| == size
      ensures b[..] == KcpSpec.Recv(old(kcp.View()), b.Length).0.data + old(b[..])[size..]
      ensures kcp.View() == KcpSpec.Recv(old(kcp.View()), b.Length).1
    {
      var data := Receive(b.Length, size);
      CopyInto(b, 0, data);
    }

    /** The next message does not fit `b`: it goes into `recvbuf`, and `b` gets what fits. */
    method ReceiveAside(b: array<byte>, size: nat)
      requires b != recvbuf && b != kcp.buffer && recvbuf != kcp.buffer
      requires b.Length < size == ReceiveWindow.PeekSize(kcp.rcvQueue)
      modifies `recvbuf, `from, `till, recvbuf, b, kcp`rcvNxt, kcp`rcvQueue, kcp`rcvBuf, kcp`probe
      ensures from <= till <= recvbuf.Length && (recvbuf == old(recvbuf) || fresh(recvbuf))
      ensures |KcpSpec.Recv(old(kcp.View()), size).0.data| == size
      ensures b[..] == KcpSpec.Recv(old(kcp.View()), size).0.data[..b.Length]
      ensures Bufptr() == KcpSpec.Recv(old(kcp.View()), size).0.data[b.Length..]
      ensures kcp.View() == KcpSpec.Recv(old(kcp.View()), size).1
    {
      var data := Receive(size, size);
      Stash(data);
      var _ := TakeLeftover(b);
    }

    /** `Read`: fills `b` from the leftover, or from the next message. */
    method Read(b: array<byte>) returns (blocked: bool, n: nat)
      requires Valid() && b != recvbuf && b != kcp.buffer
      modifies `recvbuf, `from, `till, recvbuf, b, kcp`rcvNxt, kcp`rcvQueue, kcp`rcvBuf, kcp`probe
      ensures Valid() && (recvbuf == old(recvbuf) || fresh(recvbuf))
      ensures var r := Streams.Read(old(kcp.View()), old(Bufptr()), b.Length);
        && blocked == r.blocked && n == |r.data|
        && b[..] == r.data + old(b[..])[n..]
        && kcp.View() == r.k && Bufptr() == r.left
    {
      Streams.ReadInv(kcp.View(), Bufptr(), b.Length);
      if till - from > 0 {
        n := TakeLeftover(b);
        return false, n;
      }
      var size := kcp.PeekSize();
      if size <= 0 {
        return true, 0;
      }
      blocked := false;
      if b.Length >= size {
        ReceiveInto(b, size);
        n := size;
      } else {
        ReceiveAside(b, size);
        n := b.Length;
      }
    }

    /** The inner loop of `WaitSnd` for one buffer. */
    method SendPieces(buf: seq<byte>)
      requires 0 < kcp.cfg.mss <= MTU_LIMIT
      modifies kcp`sndQueue
      ensures kcp.View() == Streams.SendAll(old(kcp.View()), Streams.Split(buf, kcp.cfg.mss))
    {
      ghost var k, mss := kcp.View(), kcp.cfg.mss;
      Fragmentation.AlwaysAllocatable(mss, kcp.cfg.stream != 0);
      var b := buf;
      while |b| > kcp.cfg.mss
        invariant kcp.cfg == k.cfg
        invariant Streams.SendAll(k, Streams.Split(buf, mss)) == Streams.SendAll(kcp.View(), Streams.Split(b, mss))
        decreases |b|
      {
        assert Streams.Split(b, mss)[1..] == Streams.Split(b[mss..], mss);
        var _ := kcp.Send(b[..kcp.cfg.mss]);
        b := b[kcp.cfg.mss..];
      }
      assert Streams.Split(b, mss)[1..] == [];
      var _ := kcp.Send(b);
    }

    /** The loop of `WaitSnd` over all buffers. */
    method SendBuffers(v: seq<seq<byte>>) returns (n: nat)
      requires 0 < kcp.cfg.mss <= MTU_LIMIT
      modifies kcp`sndQueue
      ensures kcp.View() == Streams.SendAll(old(kcp.View()), Streams.SplitAll(v, kcp.cfg.mss))
      ensures n == |Flatten(v)|
    {
      ghost var k, mss := kcp.View(), kcp.cfg.mss;
      n := 0;
      assert v[0..] == v;
      for i := 0 to |v|
        invariant kcp.cfg == k.cfg
        invariant Streams.SendAll(k, Streams.SplitAll(v, mss))
                  == Streams.SendAll(kcp.View(), Streams.SplitAll(v[i..], mss))
        invariant n + |Flatten(v[i..])| == |Flatten(v)|
      {
        assert v[i..][1..] == v[i + 1..];
        Streams.SendAllConcat(kcp.View(), Streams.Split(v[i], mss), Streams.SplitAll(v[i + 1..], mss));
        n := n + |v[i]|;
        SendPieces(v[i]);
      }
    }

    /** `WaitSnd`: queues the write and flushes when a window is full or writes are not delayed. */
    method WaitSnd(v: seq<seq<byte>>, now: u32) returns (n: nat)
      requires Valid()
      modifies kcp, kcp.buffer
      ensures Valid() && n == |Flatten(v)|
      ensures var k := Streams.SendAll(old(kcp.View()), Streams.SplitAll(v, old(kcp.cfg.mss)));
        var waiting := |k.snd.buf| + |k.snd.queue|;
        var flushes := waiting >= k.cfg.sndWnd || waiting >= k.win.rmtWnd || !writeDelay;
        && kcp.View() == (if flushes then Flush(k, false, now).k else k)
        && kcp.outputs == old(kcp.outputs)
           + (if flushes then Handed(k.cfg, old(kcp.buffer[..kcp.cfg.reserved]), Flush(k, false, now).out) else [])
    {
      n := SendBuffers(v);
      var waitsnd := |kcp.sndBuf| + |kcp.sndQueue|;
      Streams.SendAllInv(old(kcp.View()), Streams.SplitAll(v, kcp.cfg.mss));
      KcpInvariant.FlushInv(kcp.View(), false, now);
      if waitsnd >= kcp.cfg.sndWnd || waitsnd >= kcp.win.rmtWnd || !writeDelay {
        var _ := kcp.Flush(false, now);
      }
    }

    /** `ranger`: hands a recovered shard to the engine, unless its size field is impossible. */
    method Ranger(r: FecCodec.Shard, ackNoDelay: bool, now: u32) returns (handed: bool)
      requires kcp.Valid() && |r| <= MTU_LIMIT
      modifies kcp, kcp.buffer
      ensures kcp.Valid() && kcp.buffer == old(kcp.buffer) && kcp.cfg == old(kcp.cfg)
      ensures kcp.buffer[..kcp.cfg.reserved] == old(kcp.buffer[..kcp.cfg.reserved])
      ensures handed <==> FecPackets.Ranger(r).Some?
      ensures !handed ==> kcp.View() == old(kcp.View()) && kcp.outputs == old(kcp.outputs)
      ensures handed ==>
        var a := Input(old(kcp.View()), FecPackets.Ranger(r).value, false, ackNoDelay, now);
        && kcp.View() == a.k
        && kcp.outputs == old(kcp.outputs) + Handed(kcp.cfg, old(kcp.buffer[..kcp.cfg.reserved]), a.out)
    {
      handed := false;
      if |r| >= 2 {
        var sz := Decode16u(r);
        if sz <= |r| && sz >= 2 {
          ShortIsHeld(Feed(kcp.View(), false, 0, false), r[2..sz], false);
          KcpInvariant.InputInv(kcp.View(), r[2..sz], false, ackNoDelay, now);
          KcpLaws.InputConfig(kcp.View(), r[2..sz], false, ackNoDelay, now);
          var _ := kcp.Input(r[2..sz], false, ackNoDelay, now);
          handed := true;
        }
      }
    }

    /** Where `biggerThan` stands in driving the engine with what was recovered: `rest` is to come. */
    ghost predicate Driving(goal: Driven, before: seq<seq<byte>>, header: seq<byte>, rest: seq<FecCodec.Shard>,
                            ackNoDelay: bool, now: u32)
      reads kcp, kcp.buffer
    {
      && kcp.Valid() && kcp.buffer[..kcp.cfg.reserved] == header
      && var a := InputAll(kcp.View(), header, FecDelivery.Stripped(rest), false, ackNoDelay, now);
         goal.k == a.k && before + goal.outs == kcp.outputs + a.outs
    }

    method RangeOne(r: FecCodec.Shard, ackNoDelay: bool, now: u32, ghost goal: Driven, ghost before: seq<seq<byte>>,
                    ghost header: seq<byte>, ghost rest: seq<FecCodec.Shard>)
      requires rest != [] && rest[0] == r && Driving(goal, before, header, rest, ackNoDelay, now)
      requires |r| <= MTU_LIMIT
      modifies kcp, kcp.buffer
      ensures Driving(goal, before, header, rest[1..], ackNoDelay, now)
      ensures kcp.buffer == old(kcp.buffer) && kcp.cfg == old(kcp.cfg)
    {
      DrivenOn(kcp.View(), header, rest, ackNoDelay, now, goal, before, kcp.outputs);
      var _ := Ranger(r, ackNoDelay, now);
    }

    /** The part of `biggerThan` that drives the engine with what was recovered. */
    method RangeAll(recovers: seq<FecCodec.Shard>, ackNoDelay: bool, now: u32)
      requires kcp.Valid() && forall r :: r in recovers ==> |r| <= MTU_LIMIT
      modifies kcp, kcp.buffer
      ensures kcp.Valid() && kcp.buffer == old(kcp.buffer) && kcp.cfg == old(kcp.cfg)
      ensures var a := InputAll(
          old(kcp.View()), old(kcp.buffer[..kcp.cfg.reserved]), FecDelivery.Stripped(recovers), false, ackNoDelay, now);
        kcp.View() == a.k && kcp.outputs == old(kcp.outputs) + a.outs
    {
      ghost var header, before := kcp.buffer[..kcp.cfg.reserved], kcp.outputs;
      ghost var goal := InputAll(kcp.View(), header, FecDelivery.Stripped(recovers), false, ackNoDelay, now);
      assert recovers[0..] == recovers;
      for i := 0 to |recovers|
        invariant kcp.buffer == old(kcp.buffer) && kcp.cfg == old(kcp.cfg)
        invariant Driving(goal, before, header, recovers[i..], ackNoDelay, now)
      {
        assert recovers[i..][1..] == recovers[i + 1..];
        RangeOne(recovers[i], ackNoDelay, now, goal, before, header, recovers[i..]);
      }
    }

    /** The direct bytes of a data packet. */
    method FeedDirect(data: FecDecoding.Packet, ackNoDelay: bool, now: u32)
      requires kcp.Valid() && FecPackets.HEADER + 2 <= |data| <= MTU_LIMIT
      modifies kcp, kcp.buffer
      ensures kcp.Valid() && kcp.buffer == old(kcp.buffer) && kcp.cfg == old(kcp.cfg)
      ensures kcp.buffer[..kcp.cfg.reserved] == old(kcp.buffer[..kcp.cfg.reserved])
      ensures var a := InputAll(
          old(kcp.View()), old(kcp.buffer[..kcp.cfg.reserved]), DirectOf(data), true, ackNoDelay, now);
        kcp.View() == a.k && kcp.outputs == old(kcp.outputs) + a.outs
    {
      var direct := data[FecPackets.HEADER + 2..];
      ShortIsHeld(Feed(kcp.View(), false, 0, false), direct, true);
      KcpInvariant.InputInv(kcp.View(), direct, true, ackNoDelay, now);
      KcpLaws.InputConfig(kcp.View(), direct, true, ackNoDelay, now);
      if FecPackets.Flag(data) == FecPackets.TYPE_DATA {
        InputOne(kcp.View(), kcp.buffer[..kcp.cfg.reserved], direct, true, ackNoDelay, now);
        var _ := kcp.Input(direct, true, ackNoDelay, now);
      }
    }

    /** Codes of one and one can be made, and no code makes shards longer. */
    ghost predicate Coding()
      reads this, fecDecoder
    {
      && make(1, 1).Some? && FecTuning.AllConserve(FecTuning.Sizes(1, 1, make(1, 1).value), make)
      && (fecDecoder != null ==>
            fecDecoder.Valid() && fecDecoder.make == make && FecCodec.Conserves(fecDecoder.codec))
    }

    /** The decoder, or the one that is made for the first packet. */
    ghost function Decoding(): FecTuning.Decoder
      requires Coding()
      reads this, fecDecoder, if fecDecoder == null then {} else {fecDecoder.autoTune.pulses}
    {
      if fecDecoder == null
      then FecTuning.Decoder(FecTuning.Sizes(1, 1, make(1, 1).value), AutoTuning.Silent(), [])
      else fecDecoder.View()
    }

    /** The part of `biggerThan` that the decoder does. */
    method DecodePacket(data: FecDecoding.Packet, now: u32) returns (recovers: seq<FecCodec.Shard>)
      requires Coding() && |data| <= MTU_LIMIT
      modifies `fecDecoder, fecDecoder, if fecDecoder == null then {} else {fecDecoder.autoTune.pulses}
      ensures Coding() && (recovers, Decoding()) == FecTuning.TunedDecode(old(Decoding()), make, data, now)
      ensures forall r :: r in recovers ==> |r| <= MTU_LIMIT
    {
      FecTuning.RecoveredFits(Decoding(), make, data, now);
      var dec := fecDecoder;
      if dec == null {
        dec := new FecDecoderEngine.FecDecoder(1, 1, make(1, 1).value, make);
        fecDecoder := dec;
      }
      recovers := dec.Decode(data, now);
    }

    /** The part of `biggerThan` that the engine does, in state `k`. */
    method FeedAll(data: FecDecoding.Packet, recovers: seq<FecCodec.Shard>, ackNoDelay: bool, now: u32, ghost k: Kcp,
                   ghost header: seq<byte>, ghost before: seq<seq<byte>>)
      requires kcp.Valid() && FecPackets.HEADER + 2 <= |data| <= MTU_LIMIT
      requires forall r :: r in recovers ==> |r| <= MTU_LIMIT
      requires k == kcp.View() && header == kcp.buffer[..kcp.cfg.reserved] && before == kcp.outputs
      modifies kcp, kcp.buffer
      ensures kcp.Valid()
      ensures var direct := InputAll(k, header, DirectOf(data), true, ackNoDelay, now);
        var rest := InputAll(direct.k, header, FecDelivery.Stripped(recovers), false, ackNoDelay, now);
        kcp.View() == rest.k && kcp.outputs == before + direct.outs + rest.outs
    {
      FeedDirect(data, ackNoDelay, now);
      RangeAll(recovers, ackNoDelay, now);
    }

    /**
     `biggerThan`: the packet goes through the decoder; a data packet's own bytes
     reach the engine first, then whatever was recovered. A read from the socket
     is at most MTU_LIMIT long.
     */
    method BiggerThan(data: FecDecoding.Packet, ackNoDelay: bool, now: u32)
      requires kcp.Valid() && Coding() && FecPackets.HEADER + 2 <= |data| <= MTU_LIMIT
      modifies `fecDecoder, fecDecoder, if fecDecoder == null then {} else {fecDecoder.autoTune.pulses}
      modifies kcp, kcp.buffer
      ensures kcp.Valid() && Coding()
      ensures var (recovers, dec) := FecTuning.TunedDecode(old(Decoding()), make, data, now);
        var header := old(kcp.buffer[..kcp.cfg.reserved]);
        var direct := InputAll(old(kcp.View()), header, DirectOf(data), true, ackNoDelay, now);
        && Decoding() == dec
        && var rest := InputAll(direct.k, header, FecDelivery.Stripped(recovers), false, ackNoDelay, now);
           kcp.View() == rest.k && kcp.outputs == old(kcp.outputs) + direct.outs + rest.outs
    {
      ghost var k, header, before := kcp.View(), kcp.buffer[..kcp.cfg.reserved], kcp.outputs;
      var recovers := DecodePacket(data, now);
      FeedAll(data, recovers, ackNoDelay, now, k, header, before);
    }

    /** `update`: the flush it makes, and after how long it is to run again. */
    method Update(now: u32) returns (interval: u32)
      requires Valid()
      modifies kcp, kcp.buffer
      ensures Valid() && interval == Flush(old(kcp.View()), false, now).delay
      ensures kcp.View() == Flush(old(kcp.View()), false, now).k
      ensures kcp.outputs == old(kcp.outputs) + Handed(kcp.cfg, old(kcp.buffer[..kcp.cfg.reserved]),
                                                       Flush(old(kcp.View()), false, now).out)
    {
      ghost var k := kcp.View();
      interval := kcp.Flush(false, now);
      assert KcpInvariant.Inv(kcp.View()) by { KcpInvariant.FlushInv(k, false, now); }
    }

    /** `SetMtu` of the session: refuses what is longer than a pooled buffer, and does not ask what the engine did. */
    method SetMtu(mtu: int) returns (ok: bool)
      modifies kcp`cfg, kcp`buffer
      ensures ok <==> mtu <= MTU_LIMIT
      ensures kcp.cfg == if ok then MtuSet(old(kcp.cfg), mtu).1 else old(kcp.cfg)
    {
      if mtu > MTU_LIMIT {
        return false;
      }
      var _ := kcp.SetMtu(mtu);
      return true;
    }
  }
}
