/**
 The protocol engine in the source's own form (network/kcp/kcp.go:131-1039): a
 class whose methods scan and update the four queues and write datagrams into
 one shared buffer. Each method is proved to compute the function that KcpSpec
 gives for it, without ever leaving the buffer. `outputs` collects what is
 handed to the `Output` callback; the clock is an argument.
 */
module KcpEngine {
  import opened Serial
  import opened Wire
  import opened Packing
  import opened Segments
  import opened KcpSpec
  import opened KcpInvariant
  import SendWindow
  import ReceiveWindow
  import Fragmentation
  import Retransmit
  import RoundTrip
  import Congestion

  /** Datagrams as handed to `Output`: the reserved header bytes, then the segments. */
  ghost function Framed(header: seq<byte>, ds: seq<seq<WireSegment>>): (r: seq<seq<byte>>)
    ensures |r| == |ds|
  {
    seq(|ds|, i requires 0 <= i < |ds| => header + Bytes(ds[i]))
  }

  /** Where a flush writes: what `Output` has already got, and the reserved header bytes. */
  datatype Sink = Sink(before: seq<seq<byte>>, header: seq<byte>)

  lemma Shift(done: seq<Segment>, todo: seq<Segment>)
    requires todo != []
    ensures done + todo == (done + [todo[0]]) + todo[1..]
  {
  }

  /** What `PeekSize` reports is the size of the message `Recv` takes. */
  lemma {:induction false} PeekIsPayload(queue: seq<Segment>)
    requires ReceiveWindow.PeekSize(queue) >= 0
    ensures ReceiveWindow.PeekSize(queue) == |ReceiveWindow.Payload(queue[..ReceiveWindow.MessageLength(queue)])|
  {
  }

  lemma {:induction false} BeforeIs(buf: seq<Segment>, nxt: u32, off: nat, at: nat)
    requires at <= |buf|
    requires forall j :: 0 <= j < at ==> Offset(buf[j].sn, nxt) < off
    requires forall j :: at <= j < |buf| ==> Offset(buf[j].sn, nxt) >= off
    ensures ReceiveWindow.Before(buf, nxt, off) == at
  {
    if at > 0 {
      BeforeIs(buf[1..], nxt, off, at - 1);
    }
  }

  /** An insertion point found from the right is the one `Insert` uses. */
  lemma NotStored(r: Receiver, sn: u32, at: nat)
    requires ReceiveWindow.Valid(r) && at <= |r.buf|
    requires forall j :: at <= j < |r.buf| ==> Offset(sn, r.nxt) < Offset(r.buf[j].sn, r.nxt)
    requires at > 0 ==> Offset(r.buf[at - 1].sn, r.nxt) < Offset(sn, r.nxt)
    ensures at == ReceiveWindow.Before(r.buf, r.nxt, Offset(sn, r.nxt))
    ensures !ReceiveWindow.Stored(r.buf, sn)
  {
    forall j | 0 <= j < at ensures Offset(r.buf[j].sn, r.nxt) < Offset(sn, r.nxt) {
    }
    BeforeIs(r.buf, r.nxt, Offset(sn, r.nxt), at);
  }

  lemma {:induction false} FramedAppend(header: seq<byte>, ds: seq<seq<WireSegment>>, d: seq<WireSegment>)
    ensures Framed(header, ds + [d]) == Framed(header, ds) + [header + Bytes(d)]
  {
  }

  /** Writing behind the filled part extends it and keeps the header. */
  lemma SpliceGrows(was: seq<byte>, reserved: nat, at: nat, chunk: seq<byte>)
    requires reserved <= at && at + |chunk| <= |was|
    ensures var now := Splice(was, at, chunk);
      now[..reserved] == was[..reserved] && now[reserved..at + |chunk|] == was[reserved..at] + chunk
  {
  }

  lemma {:induction false} PackProbes(k: Kcp, p: Probe, w: Packer, mtu: nat, reserved: nat)
    ensures Pack(w, ProbeEmissions(k, p), mtu, reserved) ==
      var ask := Emission(OVERHEAD, Some(Control(k, CMD_WASK, LastAck(k.acks))));
      var tell := Emission(OVERHEAD, Some(Control(k, CMD_WINS, LastAck(k.acks))));
      var v := if p.ask then Emit(w, ask, mtu, reserved) else w;
      if p.tell then Emit(v, tell, mtu, reserved) else v
  {
    var ask := Emission(OVERHEAD, Some(Control(k, CMD_WASK, LastAck(k.acks))));
    var tell := Emission(OVERHEAD, Some(Control(k, CMD_WINS, LastAck(k.acks))));
    PackAppend(w, [], ask, mtu, reserved);
    PackAppend(w, [], tell, mtu, reserved);
    PackAppend(w, [ask], tell, mtu, reserved);
    assert [] + [ask] == [ask] && [] + [tell] == [tell];
  }

  /** What a pass has counted after `k` entries. */
  ghost predicate Tallied(buf: seq<Segment>, k: nat, p: Retransmit.Pass, minrto: u32, change: nat, lostSegs: nat)
    requires k <= |buf|
  {
    && minrto == Retransmit.Soonest(buf[..k], p)
    && lostSegs == Retransmit.Count(buf[..k], p, Retransmit.Lost)
    && change == Retransmit.Count(buf[..k], p, Retransmit.Fast) + Retransmit.Count(buf[..k], p, Retransmit.Early)
  }

  lemma {:induction false} CountStep(buf: seq<Segment>, p: Retransmit.Pass, k: nat, kind: Retransmit.Kind)
    requires k < |buf|
    ensures Retransmit.Count(buf[..k + 1], p, kind)
      == Retransmit.Count(buf[..k], p, kind) + if Retransmit.Classify(buf[k], p) == kind then 1 else 0
  {
    assert buf[..k + 1][..k] == buf[..k] && buf[..k + 1][k] == buf[k];
  }

  lemma {:induction false} SoonestStep(buf: seq<Segment>, p: Retransmit.Pass, k: nat)
    requires k < |buf|
    ensures var e, sooner := Retransmit.Touch(buf[k], p), Retransmit.Soonest(buf[..k], p);
      Retransmit.Soonest(buf[..k + 1], p)
      == if !e.acked && 0 < Diff(e.resendts, p.now) < sooner then Diff(e.resendts, p.now) else sooner
  {
    assert buf[..k + 1][..k] == buf[..k] && buf[..k + 1][k] == buf[k];
  }

  /** What one entry adds to what a pass counts. */
  lemma {:induction false} TallyStep(buf: seq<Segment>, p: Retransmit.Pass, k: nat, minrto: u32, change: nat,
                                     lostSegs: nat)
    requires k < |buf| && Tallied(buf, k, p, minrto, change, lostSegs)
    ensures var e, kind := Retransmit.Touch(buf[k], p), Retransmit.Classify(buf[k], p);
      var wait := Diff(e.resendts, p.now);
      Tallied(buf, k + 1, p, if kind != Retransmit.Done && 0 < wait < minrto then wait else minrto,
              if kind == Retransmit.Fast || kind == Retransmit.Early then change + 1 else change,
              if kind == Retransmit.Lost then lostSegs + 1 else lostSegs)
  {
    SoonestStep(buf, p, k);
    CountStep(buf, p, k, Retransmit.Lost);
    CountStep(buf, p, k, Retransmit.Fast);
    CountStep(buf, p, k, Retransmit.Early);
  }

  /** Whether one entry makes the link dead. */
  lemma {:induction false} PassStep(buf: seq<Segment>, p: Retransmit.Pass, k: nat, deadLink: u32)
    requires k < |buf|
    ensures GoesDead(buf[..k + 1], p, deadLink)
      <==> GoesDead(buf[..k], p, deadLink)
           || (Retransmit.Goes(Retransmit.Classify(buf[k], p)) && Retransmit.Touch(buf[k], p).xmit >= deadLink)
  {
    assert buf[..k + 1][..k] == buf[..k] && buf[..k + 1][k] == buf[k];
  }

  /** One more entry of the buffer has been touched. */
  lemma PassedOne(buf: seq<Segment>, was: seq<Segment>, k: nat, p: Retransmit.Pass)
    requires k < |buf| == |was| && was[k..] == buf[k..]
    requires forall i :: 0 <= i < k ==> was[i] == Retransmit.Touch(buf[i], p)
    ensures was[k] == buf[k]
    ensures var now := was[k := Retransmit.Touch(buf[k], p)];
      now[k + 1..] == buf[k + 1..] && forall i :: 0 <= i < k + 1 ==> now[i] == Retransmit.Touch(buf[i], p)
  {
    assert was[k] == was[k..][0] == buf[k..][0];
    assert was[k + 1..] == was[k..][1..] == buf[k..][1..] == buf[k + 1..];
  }

  /** What one entry adds to what a pass writes. */
  lemma {:induction false} PackStep(buf: seq<Segment>, p: Retransmit.Pass, k: nat, w: Packer, mtu: nat, reserved: nat)
    requires k < |buf|
    ensures var e := Retransmit.Touch(buf[k], p);
      var before := Pack(w, PushEmissions(Retransmit.Outgoing(buf[..k], p)), mtu, reserved);
      Pack(w, PushEmissions(Retransmit.Outgoing(buf[..k + 1], p)), mtu, reserved)
      == if Retransmit.Goes(Retransmit.Classify(buf[k], p))
         then Emit(before, Emission(OVERHEAD + |e.data|, Some(OnWire(e))), mtu, reserved)
         else before
  {
    var more := buf[..k + 1];
    assert more[..k] == buf[..k] && more[k] == buf[k];
    var e := Retransmit.Touch(buf[k], p);
    var before := Retransmit.Outgoing(buf[..k], p);
    if Retransmit.Goes(Retransmit.Classify(buf[k], p)) {
      assert PushEmissions(before + [OnWire(e)])
             == PushEmissions(before) + [Emission(OVERHEAD + |e.data|, Some(OnWire(e)))];
      PackAppend(w, PushEmissions(before), Emission(OVERHEAD + |e.data|, Some(OnWire(e))), mtu, reserved);
    } else {
      assert before + [] == before;
    }
  }

  /** The state between the probes of `flush` and its data segments. */
  function AfterProbes(k: Kcp, now: u32): Kcp {
    k.(acks := [], probe := NextProbe(k.probe, k.win.rmtWnd, now).(ask := false, tell := false))
  }

  lemma FlushFields(k: Kcp, now: u32)
    ensures var f, mid, p := KcpSpec.Flush(k, false, now), AfterProbes(k, now), NextProbe(k.probe, k.win.rmtWnd, now);
      && f.k == PushFlush(mid, now)
      && Admitted(mid) == Admitted(k) && PassOf(mid, now) == PassOf(k, now) && SendLimit(mid) == SendLimit(k)
      && f.delay == Retransmit.Soonest(Admitted(k).buf, PassOf(k, now))
      && f.out == AckEmissions(k) + ProbeEmissions(k, p)
                  + PushEmissions(Retransmit.Outgoing(Admitted(k).buf, PassOf(k, now)))
  {
  }

  /** The filled window is fit for the pass. */
  lemma AdmittedForPass(k: Kcp)
    requires Inv(k)
    ensures SendLimit(k) <= SendWindow.LIMIT
    ensures forall e :: e in Admitted(k).buf ==> |e.data| <= k.cfg.mss && e.conv == k.cfg.conv && e.cmd == CMD_PUSH
  {
  }

  /** After the acknowledged prefix is dropped, the head of the buffer is the new `SndUna`. */
  lemma HeadOfBuffer(s: Sender, n: nat)
    requires SendWindow.Valid(s) && n <= |s.buf|
    ensures Wrap(s.una + n) == if n == |s.buf| then s.nxt else s.buf[n].sn
  {
  }

  lemma NothingSent(header: seq<byte>, mtu: nat, reserved: nat)
    ensures Framed(header, Datagrams([], mtu, reserved)) == []
    ensures forall outs: seq<seq<byte>> :: outs + [] == outs
  {
  }

  /** What the loop of `Input` makes of a datagram: its return code so far, and the state it leaves. */
  ghost function Consumed(f: Feed, data: seq<byte>, regular: bool): (int, Feed)
    decreases |data|
  {
    if |data| < OVERHEAD then (0, f)
    else
      var head, length, body := HeaderOf(data), LengthOf(data), data[OVERHEAD..];
      if head.conv != f.k.cfg.conv then (-1, f)
      else if |body| < length then (-2, f)
      else
        var w := head.(data := body[..length]);
        if !Known(w.cmd) then (-3, Settle(f, w, regular))
        else Consumed(Process(f, w, regular), body[length..], regular)
  }

  lemma {:induction false} ProcessHead(f: Feed, w: WireSegment, more: seq<WireSegment>, regular: bool)
    ensures ProcessAll(f, [w] + more, regular) == ProcessAll(Process(f, w, regular), more, regular)
  {
  }

  /** Taking segments off the front one at a time is parsing first and processing then. */
  lemma {:induction false} ConsumedIs(f: Feed, data: seq<byte>, regular: bool)
    ensures var parsed := Parse(data, f.k.cfg.conv);
      var g := ProcessAll(f, parsed.segs, regular);
      Consumed(f, data, regular) ==
        match parsed.ending
        case Foreign => (-1, g)
        case Truncated => (-2, g)
        case Unknown(w) => (-3, Settle(g, w, regular))
        case Exhausted => (0, g)
    decreases |data|
  {
    if |data| >= OVERHEAD {
      var head, length, body := HeaderOf(data), LengthOf(data), data[OVERHEAD..];
      if head.conv == f.k.cfg.conv && |body| >= length {
        var w := head.(data := body[..length]);
        if Known(w.cmd) {
          ConsumedIs(Process(f, w, regular), body[length..], regular);
          ProcessHead(f, w, Parse(body[length..], f.k.cfg.conv).segs, regular);
        }
      }
    }
  }

  lemma {:induction false} ConsumedInv(f: Feed, data: seq<byte>, regular: bool)
    requires Inv(f.k)
    ensures Inv(Consumed(f, data, regular).1.k)
    decreases |data|
  {
    ConsumedIs(f, data, regular);
    var parsed := Parse(data, f.k.cfg.conv);
    ProcessAllInv(f, parsed.segs, regular);
    match parsed.ending
    case Unknown(w) => SettleInv(ProcessAll(f, parsed.segs, regular), w, regular);
    case _ =>
  }

  /** `Input` is its loop and, when that used up the datagram, the conclusion. */
  lemma {:induction false} InputIs(k: Kcp, data: seq<byte>, regular: bool, ackNoDelay: bool, now: u32)
    requires k.cfg.mss > 0 && |data| >= OVERHEAD
    ensures var (code, f) := Consumed(Feed(k, false, 0, false), data, regular);
      && f.k.cfg == k.cfg
      && KcpSpec.Input(k, data, regular, ackNoDelay, now) ==
        if code != 0 then InputResult(code, f.k, [])
        else
          var r := Respond(KcpSpec.OpenWindow(Sample(f, regular, now), k.snd.una), f.slides, ackNoDelay, now);
          InputResult(0, r.k, r.out)
  {
    ConsumedIs(Feed(k, false, 0, false), data, regular);
    ProcessAllConfig(Feed(k, false, 0, false), Parse(data, k.cfg.conv).segs, regular);
  }

  /** The data of a segment that is stored fits a pooled buffer. */
  predicate Holds(k: Kcp, w: WireSegment) {
    w.cmd == CMD_PUSH && ReceiveWindow.Stores(k.rcv, w.sn) ==> |w.data| <= MTU_LIMIT
  }

  /** So does all the loop of `Input` comes to store; otherwise it panics. */
  ghost predicate Held(f: Feed, data: seq<byte>, regular: bool)
    decreases |data|
  {
    |data| >= OVERHEAD && HeaderOf(data).conv == f.k.cfg.conv && |data| - OVERHEAD >= LengthOf(data) ==>
      var w, rest := HeaderOf(data).(data := data[OVERHEAD..][..LengthOf(data)]), data[OVERHEAD..][LengthOf(data)..];
      Known(w.cmd) ==> Holds(f.k, w) && Held(Process(f, w, regular), rest, regular)
  }

  lemma ProcessFields(f: Feed, w: WireSegment, regular: bool)
    ensures var g := Feed(f.k, false, 0, false);
      Process(f, w, regular) == Feed(
        Process(g, w, regular).k, f.acked || w.cmd == CMD_ACK, if w.cmd == CMD_ACK then w.ts else f.latest,
        Settle(g, w, regular).slides)
  {
  }

  /** One segment off the front. */
  lemma {:induction false} HeldStep(f: Feed, data: seq<byte>, w: WireSegment, rest: seq<byte>, regular: bool)
    requires |data| >= OVERHEAD && HeaderOf(data).conv == f.k.cfg.conv && |data| - OVERHEAD >= LengthOf(data)
    requires w == HeaderOf(data).(data := data[OVERHEAD..][..LengthOf(data)])
    requires rest == data[OVERHEAD..][LengthOf(data)..] && Held(f, data, regular)
    ensures !Known(w.cmd) ==> Holds(f.k, w) && Consumed(f, data, regular) == (-3, Settle(f, w, regular))
    ensures Known(w.cmd) ==> Holds(f.k, w) && Held(Process(f, w, regular), rest, regular)
                             && Consumed(f, data, regular) == Consumed(Process(f, w, regular), rest, regular)
  {
  }

  /** What a read from the socket can hold is never too long. */
  lemma {:induction false} ShortIsHeld(f: Feed, data: seq<byte>, regular: bool)
    requires |data| <= MTU_LIMIT + OVERHEAD
    ensures Held(f, data, regular)
    decreases |data|
  {
    if |data| >= OVERHEAD && HeaderOf(data).conv == f.k.cfg.conv && |data| - OVERHEAD >= LengthOf(data) {
      var w, rest := HeaderOf(data).(data := data[OVERHEAD..][..LengthOf(data)]), data[OVERHEAD..][LengthOf(data)..];
      ShortIsHeld(Process(f, w, regular), rest, regular);
    }
  }

  /** A segment that is expected, and longer than a pooled buffer, is not. */
  lemma {:induction false} LongIsNot(k: Kcp, w: WireSegment, regular: bool)
    requires w.conv == k.cfg.conv && w.cmd == CMD_PUSH && w.sn == k.rcv.nxt && k.rcv.wnd > 0
    requires MTU_LIMIT < |w.data| < FULL && !ReceiveWindow.Stored(k.rcv.buf, w.sn)
    ensures !Held(Feed(k, false, 0, false), Encoded(w), regular)
  {
    HeaderRoundTrip(w, []);
    assert Encoded(w) + [] == Encoded(w);
    WrapId(0);
  }

  class KCP {
    var cfg: Config
    var sndUna: u32, sndNxt: u32, rcvNxt: u32, rcvWnd: u32
    var sndQueue: seq<Segment>
    var rcvQueue: seq<Segment>
    var sndBuf: seq<Segment>
    var rcvBuf: seq<Segment>
    var acklist: seq<AckItem>
    var win: Congestion.Window
    var rtt: RoundTrip.Rtt
    var probe: Probe
    var state: u32, tsFlush: u32
    var updated: bool
    var buffer: array<byte>
    var outputs: seq<seq<byte>>

    ghost function Snd(): Sender
      reads this
    {
      Sender(sndUna, sndNxt, sndQueue, sndBuf)
    }

    ghost function Rcv(): Receiver
      reads this
    {
      Receiver(rcvNxt, rcvWnd, rcvQueue, rcvBuf)
    }

    ghost function View(): Kcp
      reads this
    {
      Kcp(cfg, Snd(), Rcv(), win, rtt, acklist, probe, state, updated, tsFlush)
    }

    ghost predicate Valid()
      reads this
    {
      Inv(View()) && buffer.Length == cfg.mtu
    }

    constructor (conv: u32)
      ensures Valid() && View() == New(conv) && outputs == [] && fresh(buffer)
    {
      cfg := Config(conv, MTU_DEF, MTU_DEF - OVERHEAD, 0, WND_SND, INTERVAL_DEF, 0, 0, 0, 0, DEADLINK,
                    RoundTrip.RTO_MIN);
      win := Congestion.Window(Congestion.THRESH_INIT, 0, 0, WND_RCV);
      rtt := RoundTrip.Rtt(0, 0, RoundTrip.RTO_DEF);
      probe := Probe(false, false, 0, 0);
      buffer := new byte[MTU_DEF](_ => 0);
      sndUna, sndNxt, rcvNxt, rcvWnd := 0, 0, 0, WND_RCV;
      sndQueue, rcvQueue, sndBuf, rcvBuf, acklist := [], [], [], [], [];
      state, tsFlush, updated, outputs := 0, INTERVAL_DEF, false, [];
      new;
      NewInv(conv);
    }

    // ----- configuration -----

    /** Reserves header room; meant for a connection that has sent nothing yet. */
    method ReserveBytes(n: int) returns (ok: bool)
      modifies `cfg
      ensures (ok, cfg) == BytesReserved(old(cfg), n)
      ensures old(Valid()) ==> (ok <==> 0 <= n < old(cfg).mtu - OVERHEAD)
      ensures old(Valid()) && sndQueue == [] && sndBuf == [] ==>
        (Valid() <==> !ok || old(cfg.mtu) - OVERHEAD - n <= MTU_LIMIT)
    {
      if n >= Wrap(cfg.mtu - OVERHEAD) || n < 0 {
        return false;
      }
      cfg := cfg.(reserved := n, mss := Wrap(cfg.mtu - OVERHEAD - n));
      return true;
    }

    /** `SetMtu`. What it leaves behind is the subject of module Settings. */
    method SetMtu(mtu: int) returns (code: int)
      modifies `cfg, `buffer
      ensures (code, cfg) == MtuSet(old(cfg), mtu)
      ensures if code == 0 then fresh(buffer) && buffer.Length == mtu else buffer == old(buffer)
      ensures old(Valid()) && sndQueue == [] && sndBuf == [] && Configured(cfg) && mtu < FULL ==> Valid()
    {
      if mtu < 50 || mtu < OVERHEAD {
        return -1;
      }
      if cfg.reserved >= Wrap(cfg.mtu - OVERHEAD) {
        return -1;
      }
      buffer := new byte[mtu](_ => 0);
      cfg := cfg.(mtu := Wrap(mtu), mss := Wrap(mtu - OVERHEAD - cfg.reserved));
      return 0;
    }

    method NoDelay(nodelay: i32, interval: i32, resend: i32, nc: i32)
      modifies `cfg
      ensures cfg == old(cfg).(nodelay := cfg.nodelay, rxMinrto := cfg.rxMinrto, interval := cfg.interval,
                               fastresend := cfg.fastresend, nocwnd := cfg.nocwnd)
      ensures cfg.nodelay == if nodelay >= 0 then nodelay else old(cfg.nodelay)
      ensures cfg.rxMinrto == if nodelay < 0 then old(cfg.rxMinrto)
                              else if nodelay != 0 then RoundTrip.RTO_NDL else RoundTrip.RTO_MIN
      ensures cfg.interval == if interval >= 0 then Min(Max(interval, 10), 5000) else old(cfg.interval)
      ensures cfg.fastresend == (if resend >= 0 then resend else old(cfg.fastresend))
              && cfg.nocwnd == if nc >= 0 then nc else old(cfg.nocwnd)
    {
      if nodelay >= 0 {
        cfg := cfg.(nodelay := nodelay, rxMinrto := if nodelay != 0 then RoundTrip.RTO_NDL else RoundTrip.RTO_MIN);
      }
      if interval >= 0 {
        cfg := cfg.(interval := if interval > 5000 then 5000 else if interval < 10 then 10 else interval);
      }
      if resend >= 0 {
        cfg := cfg.(fastresend := resend);
      }
      if nc >= 0 {
        cfg := cfg.(nocwnd := nc);
      }
    }

    // ----- Send, PeekSize, Recv -----

    /** The loop of `Send`: cuts `data` up and appends the pieces. */
    method AppendPieces(data: seq<byte>, count: nat)
      requires cfg.mss > 0 && count == Fragmentation.Pieces(|data|, cfg.mss) <= 255
      requires Min(cfg.mss, |data|) <= MTU_LIMIT
      modifies `sndQueue
      ensures sndQueue == old(sndQueue) + Fragmentation.Queued(Fragmentation.Fragments(data, cfg.mss, cfg.stream != 0))
    {
      var mss, streaming := cfg.mss, cfg.stream != 0;
      var rest := data;
      ghost var todo := Fragmentation.Queued(Fragmentation.Fragments(data, mss, streaming));
      ghost var goal := sndQueue + todo;
      Fragmentation.QueuedStep(data, mss, streaming);
      for i := 0 to count
        invariant i < count ==> todo == Fragmentation.Queued(Fragmentation.Fragments(rest, mss, streaming))
        invariant i < count ==> Fragmentation.Pieces(|rest|, mss) <= 255
        invariant |todo| == count - i && goal == sndQueue + todo && |rest| <= |data|
      {
        var size := if |rest| > mss then mss else |rest|;
        var seg := Fresh(if !streaming then count - i - 1 else 0, Copied(rest[..size]));
        Fragmentation.QueuedStep(rest, mss, streaming);
        Shift(sndQueue, todo);
        sndQueue := sndQueue + [seg];
        rest := rest[size..];
        todo := todo[1..];
      }
      assert todo == [] && sndQueue + [] == sndQueue;
    }

    /** The part of `Send` that tops up the last queued segment in stream mode. */
    method TopUp(data: seq<byte>) returns (rest: seq<byte>)
      requires cfg.mss > 0 && data != []
      requires Fragmentation.Allocatable(sndQueue, data, cfg.mss, cfg.stream != 0)
      modifies `sndQueue
      ensures var n := Fragmentation.TopUp(old(sndQueue), data, cfg.mss, cfg.stream != 0);
        rest == data[n..] && sndQueue == Fragmentation.Extend(old(sndQueue), data[..n])
    {
      rest := data;
      if cfg.stream != 0 && |sndQueue| > 0 && |sndQueue[|sndQueue| - 1].data| < cfg.mss {
        var last := sndQueue[|sndQueue| - 1];
        var capacity := cfg.mss - |last.data|;
        var extend := capacity;
        if |rest| < capacity {
          extend := |rest|;
        }
        sndQueue := sndQueue[|sndQueue| - 1 := last.(data := Copied(last.data + rest[..extend]))];
        rest := rest[extend..];
      }
    }

    /** `Send`. The slices it takes of pooled buffers must not be too long; with usable settings none is. */
    method Send(data: seq<byte>) returns (code: int)
      requires cfg.mss > 0 && Fragmentation.Allocatable(sndQueue, data, cfg.mss, cfg.stream != 0)
      modifies `sndQueue
      ensures var r := Fragmentation.Send(old(sndQueue), data, cfg.mss, cfg.stream != 0);
        code == r.code && sndQueue == r.queue
    {
      if |data| == 0 {
        return -1;
      }
      var rest := TopUp(data);
      var count := if |rest| <= cfg.mss then 1 else (|rest| + cfg.mss - 1) / cfg.mss;
      if count > 255 {
        return -2;
      }
      AppendPieces(rest, count);
      return 0;
    }

    method PeekSize() returns (length: int)
      ensures length == ReceiveWindow.PeekSize(rcvQueue)
    {
      if |rcvQueue| == 0 {
        return -1;
      }
      if rcvQueue[0].frg == 0 {
        return |rcvQueue[0].data|;
      }
      if |rcvQueue| < (rcvQueue[0].frg + 1) % 256 {
        return -1;
      }
      length := 0;
      var k := 0;
      while k < |rcvQueue|
        invariant k <= |rcvQueue|
        invariant ReceiveWindow.MessageLength(rcvQueue) == k + ReceiveWindow.MessageLength(rcvQueue[k..])
        invariant length == |ReceiveWindow.Payload(rcvQueue[..k])|
      {
        var seg := rcvQueue[k];
        length := length + |seg.data|;
        assert rcvQueue[..k + 1] == rcvQueue[..k] + [seg];
        Fragmentation.PayloadConcat(rcvQueue[..k], [seg]);
        assert ReceiveWindow.Payload([seg]) == seg.data + ReceiveWindow.Payload([]);
        assert rcvQueue[k..][1..] == rcvQueue[k + 1..];
        k := k + 1;
        if seg.frg == 0 {
          assert ReceiveWindow.MessageLength(rcvQueue) == k;
          return;
        }
      }
      assert rcvQueue[..k] == rcvQueue;
    }

    /** The loop shared by `Recv` and `parseData`: how many stored segments have become readable. */
    method CountReadable() returns (count: nat)
      ensures count == ReceiveWindow.Run(rcvBuf, rcvNxt, Max(rcvWnd - |rcvQueue|, 0))
    {
      var buf, next := rcvBuf, rcvNxt;
      var room := Max(rcvWnd - |rcvQueue|, 0);
      count := 0;
      assert buf[0..] == buf;
      while count < |buf|
        invariant count <= |buf| && count <= room
        invariant ReceiveWindow.Run(buf, rcvNxt, room)
                  == count + ReceiveWindow.Run(buf[count..], next, room - count)
      {
        ReceiveWindow.RunFrom(buf, next, room - count, count);
        if buf[count].sn == next && |rcvQueue| + count < rcvWnd {
          next := Wrap(next as int + 1);
          count := count + 1;
        } else {
          break;
        }
      }
    }

    /** Moves the readable run to the receive queue. */
    method MoveReadable()
      modifies `rcvNxt, `rcvQueue, `rcvBuf
      ensures Rcv() == ReceiveWindow.Drain(old(Rcv()))
    {
      var count := CountReadable();
      rcvNxt := Wrap(rcvNxt + count);
      rcvQueue := rcvQueue + rcvBuf[..count];
      rcvBuf := rcvBuf[count..];
    }

    /** The loop of `Recv`: takes the first message off the receive queue. */
    method TakeMessage() returns (data: seq<byte>)
      requires |rcvQueue| > 0
      modifies `rcvQueue
      ensures var n := ReceiveWindow.MessageLength(old(rcvQueue));
        data == ReceiveWindow.Payload(old(rcvQueue)[..n]) && rcvQueue == old(rcvQueue)[n..]
    {
      ghost var queue := rcvQueue;
      data := [];
      var count := 0;
      assert queue[0..] == queue;
      while count < |rcvQueue|
        invariant count <= |rcvQueue| && rcvQueue == queue
        invariant ReceiveWindow.MessageLength(queue) == count + ReceiveWindow.MessageLength(queue[count..])
        invariant data == ReceiveWindow.Payload(queue[..count])
      {
        var seg := rcvQueue[count];
        data := data + seg.data;
        assert queue[..count + 1] == queue[..count] + [seg];
        Fragmentation.PayloadConcat(queue[..count], [seg]);
        assert ReceiveWindow.Payload([seg]) == seg.data + ReceiveWindow.Payload([]);
        assert queue[count..][1..] == queue[count + 1..];
        count := count + 1;
        if seg.frg == 0 {
          break;
        }
      }
      assert count == ReceiveWindow.MessageLength(queue);
      rcvQueue := rcvQueue[count..];
    }

    /** `Recv` into a buffer of `capacity` bytes; `data` is what was copied out. */
    method Recv(capacity: nat) returns (n: int, data: seq<byte>)
      modifies `rcvNxt, `rcvQueue, `rcvBuf, `probe
      ensures var r := ReceiveWindow.Recv(old(Rcv()), capacity);
        n == r.code && data == r.data && Rcv() == r.rest && probe == old(probe).(tell := old(probe.tell) || r.tell)
    {
      data := [];
      var peeksize := PeekSize();
      if peeksize < 0 {
        return -1, [];
      }
      if peeksize > capacity {
        return -2, [];
      }
      var fastRecover := |rcvQueue| >= rcvWnd;
      PeekIsPayload(rcvQueue);
      data := TakeMessage();
      n := |data|;
      MoveReadable();
      if |rcvQueue| < rcvWnd && fastRecover {
        probe := probe.(tell := true);
      }
    }

    // ----- acknowledgements -----

    method UpdateAck(sample: i32)
      modifies `rtt
      ensures rtt == RoundTrip.UpdateAck(old(rtt), sample, cfg.interval, cfg.rxMinrto)
    {
      var srtt, rttvar := rtt.srtt, rtt.rttvar;
      if srtt == 0 {
        srtt := sample;
        rttvar := sample / 2;
      } else {
        var size := RoundTrip.Deviation(srtt, sample);
        srtt := Signed(srtt + Signed(sample - srtt) / 8);
        if sample < Signed(srtt - rttvar) {
          rttvar := Signed(rttvar + Signed(size - rttvar) / 32);
        } else {
          rttvar := Signed(rttvar + Signed(size - rttvar) / 4);
        }
      }
      assert srtt == RoundTrip.NextMean(rtt.srtt, sample) && rttvar == RoundTrip.NextVariation(rtt, sample, srtt);
      var rto := RoundTrip.Timeout(srtt, rttvar, cfg.interval);
      rtt := RoundTrip.Rtt(srtt, rttvar, RoundTrip.Bound(cfg.rxMinrto, rto, RoundTrip.RTO_MAX));
    }

    method ShrinkBuf()
      modifies `sndUna
      ensures sndUna == if sndBuf == [] then sndNxt else sndBuf[0].sn
    {
      if |sndBuf| > 0 {
        sndUna := sndBuf[0].sn;
      } else {
        sndUna := sndNxt;
      }
    }

    method ParseAck(sn: u32)
      requires SendWindow.Valid(Snd())
      modifies `sndBuf
      ensures Snd() == SendWindow.ParseAck(old(Snd()), sn)
    {
      ghost var s := Snd();
      SendWindow.OutstandingTest(s, sn);
      if Diff(sn, sndUna) < 0 || Diff(sn, sndNxt) >= 0 {
        return;
      }
      for k := 0 to |sndBuf|
        invariant Snd() == s && k <= Offset(sn, s.una)
      {
        SendWindow.PlaceInWindow(s, sn, k);
        if sn == sndBuf[k].sn {
          sndBuf := sndBuf[k := sndBuf[k].(acked := true, data := [])];
          break;
        }
        if Diff(sn, sndBuf[k].sn) < 0 {
          break;
        }
      }
    }

    method ParseFastack(sn: u32, ts: u32)
      requires SendWindow.Valid(Snd())
      modifies `sndBuf
      ensures Snd() == SendWindow.ParseFastack(old(Snd()), sn, ts)
    {
      ghost var s := Snd();
      ghost var t := SendWindow.ParseFastack(s, sn, ts).buf;
      SendWindow.OutstandingTest(s, sn);
      if Diff(sn, sndUna) < 0 || Diff(sn, sndNxt) >= 0 {
        return;
      }
      ghost var off := Offset(sn, s.una);
      for k := 0 to |sndBuf|
        invariant |sndBuf| == |s.buf| == |t| && k <= off + 1
        invariant forall i :: 0 <= i < k ==> sndBuf[i] == t[i]
        invariant forall i :: k <= i < |sndBuf| ==> sndBuf[i] == s.buf[i]
      {
        SendWindow.PlaceInWindow(s, sn, k);
        if Diff(sn, sndBuf[k].sn) < 0 {
          break;
        } else if sn != sndBuf[k].sn && Diff(sndBuf[k].ts, ts) <= 0 {
          sndBuf := sndBuf[k := sndBuf[k].(fastack := Wrap(sndBuf[k].fastack + 1))];
        }
      }
      assert sndBuf == t;
    }

    /** Drops the acknowledged prefix; `shrinkBuf` must follow. */
    method ParseUna(una: u32) returns (count: nat)
      requires SendWindow.Valid(Snd())
      modifies `sndBuf
      ensures count == SendWindow.Covered(old(Snd()), una)
      ensures sndBuf == old(sndBuf)[count..]
    {
      ghost var s := Snd();
      count := 0;
      while count < |sndBuf|
        invariant count <= SendWindow.Covered(s, una) <= |sndBuf| && Snd() == s
      {
        SendWindow.CoveredByUna(s, una, count);
        if Diff(una, sndBuf[count].sn) > 0 {
          count := count + 1;
        } else {
          break;
        }
      }
      if count > 0 {
        sndBuf := sndBuf[count..];
      }
    }

    method AckPush(sn: u32, ts: u32)
      modifies `acklist
      ensures acklist == old(acklist) + [AckItem(sn, ts)]
    {
      acklist := acklist + [AckItem(sn, ts)];
    }

    // ----- arriving data -----

    /** `parseData`. The data is copied into a pooled buffer if it is stored. */
    method ParseData(newseg: Segment) returns (repeated: bool)
      requires ReceiveWindow.Valid(Rcv())
      requires ReceiveWindow.Stores(Rcv(), newseg.sn) ==> |newseg.data| <= MTU_LIMIT
      modifies `rcvNxt, `rcvQueue, `rcvBuf
      ensures Rcv() == ReceiveWindow.ParseData(old(Rcv()), newseg)
      ensures repeated <==> !ReceiveWindow.Acceptable(old(Rcv()), newseg.sn)
                            || ReceiveWindow.Stored(old(rcvBuf), newseg.sn)
    {
      ghost var r := Rcv();
      var sn := newseg.sn;
      ReceiveWindow.AcceptanceTest(r, sn);
      if Diff(sn, Wrap(rcvNxt + rcvWnd)) >= 0 || Diff(sn, rcvNxt) < 0 {
        return true;
      }
      var insertIdx := 0;
      repeated := false;
      for i := |rcvBuf| downto 0
        invariant Rcv() == r && !repeated && insertIdx == 0
        invariant forall j :: i <= j < |rcvBuf| ==> Offset(sn, r.nxt) < Offset(rcvBuf[j].sn, r.nxt)
      {
        ReceiveWindow.PlacesCompare(r.nxt, r.wnd, sn, rcvBuf[i].sn);
        if rcvBuf[i].sn == sn {
          repeated := true;
          break;
        }
        if Diff(sn, rcvBuf[i].sn) > 0 {
          insertIdx := i + 1;
          break;
        }
      }
      if !repeated {
        NotStored(r, sn, insertIdx);
        rcvBuf := rcvBuf[..insertIdx] + [newseg.(data := Copied(newseg.data))] + rcvBuf[insertIdx..];
      }
      MoveReadable();
    }

    // ----- the congestion window -----

    method Increase()
      requires cfg.mss > 0
      modifies `win
      ensures win == Congestion.Increase(old(win), cfg.mss)
    {
      var mss, incr := cfg.mss, win.incr;
      if incr < mss {
        incr := mss;
      }
      incr := Wrap(incr + Wrap(Congestion.Quotient(Wrap(mss * mss), incr) + mss / 16));
      if Wrap(Wrap(win.cwnd + 1) * mss) <= incr {
        win := win.(incr := incr, cwnd := Congestion.Quotient(Wrap(incr + mss - 1), mss));
      } else {
        win := win.(incr := incr);
      }
    }

    method OpenWindow()
      requires cfg.mss > 0
      modifies `win
      ensures win == Congestion.Grow(old(win), cfg.mss)
    {
      if win.cwnd < win.ssthresh {
        win := win.(cwnd := Wrap(win.cwnd + 1), incr := Wrap(win.incr + cfg.mss));
      } else {
        Increase();
      }
      if win.cwnd > win.rmtWnd {
        win := win.(cwnd := win.rmtWnd, incr := Wrap(win.rmtWnd * cfg.mss));
      }
    }

    method Noc(lostSegs: nat, change: nat, cwnd: u32, resent: u32)
      modifies `win
      ensures win ==
        if cfg.nocwnd != 0 then old(win)
        else Congestion.Shrink(old(win), lostSegs, change, cwnd, resent, Offset(sndNxt, sndUna), cfg.mss)
    {
      if cfg.nocwnd == 0 && lostSegs > 0 && win.ssthresh < Congestion.THRESH_MIN {
        win := win.(ssthresh := Congestion.THRESH_MIN);
      }
      if cfg.nocwnd == 0 && change > 0 && win.ssthresh < Congestion.THRESH_MIN {
        win := win.(ssthresh := Congestion.THRESH_MIN);
      }
      if cfg.nocwnd == 0 && lostSegs > 0 {
        win := win.(ssthresh := cwnd / 2, cwnd := 1, incr := cfg.mss);
      }
      if cfg.nocwnd == 0 && change > 0 {
        var inflight := Wrap(sndNxt - sndUna);
        win := win.(ssthresh := inflight / 2);
        win := win.(cwnd := Wrap(win.ssthresh + resent));
        win := win.(incr := Wrap(win.cwnd * cfg.mss));
      }
      if cfg.nocwnd == 0 && win.cwnd < 1 {
        win := win.(cwnd := 1, incr := cfg.mss);
      }
    }

    // ----- writing datagrams -----

    /**
     The shared buffer holds the segments of `w.cur` after the cfg.reserved header,
     `at` is the write position, and everything in `w.sent` went out after `o.before`.
     */
    ghost predicate Writing(w: Packer, at: nat, o: Sink)
      reads this, buffer
    {
      && buffer.Length == cfg.mtu && cfg.reserved <= at <= cfg.mtu
      && buffer[cfg.reserved..at] == Bytes(w.cur)
      && buffer[..cfg.reserved] == o.header
      && outputs == o.before + Framed(o.header, w.sent)
    }

    method MakeSpace(space: nat, at: nat, ghost w: Packer, ghost o: Sink) returns (next: nat)
      requires Writing(w, at, o)
      modifies `outputs
      ensures Writing(Packing.MakeSpace(w, space, cfg.mtu, cfg.reserved), next, o)
      ensures next + space <= cfg.mtu || next == cfg.reserved
    {
      if at + space > cfg.mtu {
        FramedAppend(o.header, w.sent, w.cur);
        assert buffer[..at] == buffer[..cfg.reserved] + buffer[cfg.reserved..at];
        outputs := outputs + [buffer[..at]];
        return cfg.reserved;
      }
      return at;
    }

    method FlushBuffer(at: nat, ghost w: Packer, ghost o: Sink)
      requires Writing(w, at, o)
      modifies `outputs
      ensures outputs == o.before + Framed(o.header, Close(w, cfg.reserved))
    {
      if at > cfg.reserved {
        FramedAppend(o.header, w.sent, w.cur);
        assert buffer[..at] == buffer[..cfg.reserved] + buffer[cfg.reserved..at];
        outputs := outputs + [buffer[..at]];
      }
    }

    /** `encode`, then `copy` of the payload. */
    method Write(s: WireSegment, at: nat, ghost w: Packer, ghost o: Sink) returns (next: nat)
      requires Writing(w, at, o) && at + OVERHEAD + |s.data| <= cfg.mtu
      modifies buffer
      ensures Writing(w.(cur := w.cur + [s]), next, o)
    {
      ghost var was := buffer[..];
      next := EncodeHeader(s, buffer, at);
      CopyInto(buffer, next, s.data);
      next := next + |s.data|;
      SpliceTwice(was, at, Header(s), s.data);
      SpliceGrows(was, cfg.reserved, at, Encoded(s));
      BytesAppend(w.cur, s);
      assert buffer[..cfg.reserved] == buffer[..][..cfg.reserved];
      assert buffer[cfg.reserved..next] == buffer[..][cfg.reserved..next];
    }

    /** One step of packing: room for the segment, then the segment if there is one. */
    method Put(e: Emission, at: nat, ghost w: Packer, ghost o: Sink) returns (next: nat)
      requires Writing(w, at, o) && RoomFor(e, cfg)
      modifies `outputs, buffer
      ensures Writing(Emit(w, e, cfg.mtu, cfg.reserved), next, o)
    {
      next := MakeSpace(e.space, at, w, o);
      if e.seg.Some? {
        next := Write(e.seg.value, next, Packing.MakeSpace(w, e.space, cfg.mtu, cfg.reserved), o);
      }
    }

    method WndUnused() returns (wnd: u16)
      ensures wnd == KcpSpec.WndUnused(Rcv())
    {
      if |rcvQueue| < rcvWnd {
        return (rcvWnd - |rcvQueue|) % 0x1_0000;
      }
      return 0;
    }

    /** One round of the acknowledgement loop: room in any case, the segment if it is kept. */
    method PutAck(i: nat, wnd: u16, at: nat, ghost k: Kcp, ghost w: Packer, ghost o: Sink)
      returns (next: nat)
      requires k == View() && wnd == KcpSpec.WndUnused(Rcv()) && Configured(cfg) && i < |acklist|
      requires Writing(w, at, o)
      modifies `outputs, buffer
      ensures Writing(Emit(w, AckEmission(k, i), cfg.mtu, cfg.reserved), next, o)
    {
      var ack := acklist[i];
      var seg := None;
      if Diff(ack.sn, rcvNxt) >= 0 || |acklist| - 1 == i {
        seg := Some(WireSegment(cfg.conv, CMD_ACK, 0, wnd, ack.ts, ack.sn, rcvNxt, []));
      }
      next := Put(Emission(OVERHEAD, seg), at, w, o);
    }

    /** The acknowledgement loop of `flush`. */
    method PutAcks(wnd: u16, ghost k: Kcp, ghost o: Sink) returns (at: nat)
      requires k == View() && wnd == KcpSpec.WndUnused(Rcv()) && Configured(cfg)
      requires buffer.Length == cfg.mtu && o == Sink(outputs, buffer[..cfg.reserved])
      modifies `outputs, buffer
      ensures Writing(Pack(Packer([], []), AckEmissions(k), cfg.mtu, cfg.reserved), at, o)
    {
      at := cfg.reserved;
      ghost var es := AckEmissions(k);
      ghost var empty := Packer([], []);
      assert buffer[cfg.reserved..at] == Bytes([]) && Framed(buffer[..cfg.reserved], []) == [];
      for i := 0 to |acklist|
        invariant Writing(Pack(empty, es[..i], cfg.mtu, cfg.reserved), at, o)
      {
        at := PutAck(i, wnd, at, k, Pack(empty, es[..i], cfg.mtu, cfg.reserved), o);
        PackAppend(empty, es[..i], es[i], cfg.mtu, cfg.reserved);
        assert es[..i] + [es[i]] == es[..i + 1];
      }
      assert es[..|acklist|] == es;
    }

    /** The two probe segments. */
    method PutProbes(wnd: u16, start: nat, last: AckItem, ghost k: Kcp, ghost w: Packer, ghost o: Sink)
      returns (at: nat)
      requires k.cfg == cfg && k.rcv == Rcv() && wnd == KcpSpec.WndUnused(Rcv()) && Configured(cfg)
      requires Writing(w, start, o) && last == LastAck(k.acks)
      modifies `outputs, buffer
      ensures Writing(Pack(w, ProbeEmissions(k, probe), cfg.mtu, cfg.reserved), at, o)
    {
      at := start;
      ghost var v := w;
      if probe.ask {
        var seg := WireSegment(cfg.conv, CMD_WASK, 0, wnd, last.ts, last.sn, rcvNxt, []);
        at := Put(Emission(OVERHEAD, Some(seg)), at, v, o);
        v := Emit(v, Emission(OVERHEAD, Some(seg)), cfg.mtu, cfg.reserved);
      }
      if probe.tell {
        var seg := WireSegment(cfg.conv, CMD_WINS, 0, wnd, last.ts, last.sn, rcvNxt, []);
        at := Put(Emission(OVERHEAD, Some(seg)), at, v, o);
        v := Emit(v, Emission(OVERHEAD, Some(seg)), cfg.mtu, cfg.reserved);
      }
      PackProbes(k, probe, w, cfg.mtu, cfg.reserved);
    }

    /** The probe timer of `flush`. */
    method ProbeTimer(now: u32)
      modifies `probe
      ensures probe == NextProbe(old(probe), win.rmtWnd, now)
    {
      if win.rmtWnd != 0 {
        probe := probe.(ts := 0, wait := 0);
      }
      if win.rmtWnd == 0 && probe.wait == 0 {
        probe := probe.(wait := PROBE_INIT, ts := Wrap(now + PROBE_INIT));
      } else if win.rmtWnd == 0 && Diff(now, probe.ts) >= 0 {
        if probe.wait < PROBE_INIT {
          probe := probe.(wait := PROBE_INIT);
        }
        probe := probe.(wait := Wrap(probe.wait + probe.wait / 2));
        if probe.wait > PROBE_LIMIT {
          probe := probe.(wait := PROBE_LIMIT);
        }
        probe := probe.(ts := Wrap(now + probe.wait), ask := true);
      }
    }

    /** The admission loop of `segs`. */
    method Admit(cwnd: u32) returns (newSegs: nat)
      requires SendWindow.Valid(Snd()) && cwnd <= SendWindow.LIMIT
      modifies `sndQueue, `sndBuf, `sndNxt
      ensures newSegs == SendWindow.Room(old(Snd()), cwnd)
      ensures Snd() == SendWindow.Admit(old(Snd()), cwnd, cfg.conv)
    {
      ghost var s := Snd();
      newSegs := 0;
      while newSegs < |sndQueue|
        invariant newSegs <= SendWindow.Room(s, cwnd) && sndQueue == s.queue
        invariant sndNxt == Wrap(s.nxt + newSegs)
        invariant sndBuf == s.buf + SendWindow.Numbered(s, newSegs, cfg.conv)
      {
        SendWindow.RoomTest(s, cwnd, newSegs);
        if Diff(sndNxt, Wrap(sndUna + cwnd)) >= 0 {
          break;
        }
        sndBuf := sndBuf + [SendWindow.Number(sndQueue[newSegs], cfg.conv, sndNxt)];
        WrapPlus(s.nxt + newSegs, 1);
        sndNxt := Wrap(sndNxt + 1);
        newSegs := newSegs + 1;
      }
      sndQueue := sndQueue[newSegs..];
    }

    /** The switch of `rangeRef` on one entry. */
    method Reschedule(e: Segment, p: Retransmit.Pass) returns (f: Segment, kind: Retransmit.Kind)
      ensures f == Retransmit.Touch(e, p) && kind == Retransmit.Classify(e, p)
    {
      f := e;
      if e.acked {
        return e, Retransmit.Done;
      }
      if e.xmit == 0 {
        kind := Retransmit.First;
        f := f.(rto := p.rxRto);
      } else if e.fastack >= p.resent {
        kind := Retransmit.Fast;
        f := f.(fastack := 0, rto := p.rxRto);
      } else if e.fastack > 0 && p.admitted == 0 {
        kind := Retransmit.Early;
        f := f.(fastack := 0, rto := p.rxRto);
      } else if Diff(p.now, e.resendts) >= 0 {
        kind := Retransmit.Lost;
        f := f.(fastack := 0, rto := Wrap(e.rto + (if p.nodelay == 0 then p.rxRto else p.rxRto / 2)));
      } else {
        return e, Retransmit.Waiting;
      }
      f := f.(resendts := Wrap(p.now + f.rto), xmit := Wrap(e.xmit + 1), ts := p.now, wnd := p.wnd, una := p.una);
    }

    /** The body of `rangeRef` for entry `k`: reschedule it, and write it out if it goes. */
    method Retransmission(k: nat, p: Retransmit.Pass, start: nat, ghost w: Packer, ghost o: Sink)
      returns (kind: Retransmit.Kind, at: nat)
      requires k < |sndBuf| && |sndBuf[k].data| <= cfg.mss && sndBuf[k].conv == cfg.conv && sndBuf[k].cmd == CMD_PUSH
      requires Writing(w, start, o) && Configured(cfg)
      modifies `sndBuf, `state, `outputs, buffer
      ensures kind == Retransmit.Classify(old(sndBuf[k]), p)
      ensures var e := Retransmit.Touch(old(sndBuf[k]), p);
        && sndBuf == old(sndBuf)[k := e]
        && state == (if Retransmit.Goes(kind) && e.xmit >= cfg.deadLink then ALL_ONES else old(state))
        && Writing(if Retransmit.Goes(kind)
                   then Emit(w, Emission(OVERHEAD + |e.data|, Some(OnWire(e))), cfg.mtu, cfg.reserved)
                   else w, at, o)
    {
      var segment;
      segment, kind := Reschedule(sndBuf[k], p);
      sndBuf := sndBuf[k := segment];
      at := start;
      if Retransmit.Goes(kind) {
        at := Put(Emission(OVERHEAD + |segment.data|, Some(OnWire(segment))), at, w, o);
        if segment.xmit >= cfg.deadLink {
          state := ALL_ONES;
        }
      }
    }

    /** Where `rangeRef` stands after `k` entries of `buf`. */
    ghost predicate Passed(buf: seq<Segment>, k: nat, p: Retransmit.Pass, state0: u32, w: Packer,
                           o: Sink, minrto: u32, change: nat, lostSegs: nat, at: nat)
      reads this, buffer
    {
      && k <= |buf| == |sndBuf| && sndBuf[k..] == buf[k..]
      && (forall i :: 0 <= i < k ==> sndBuf[i] == Retransmit.Touch(buf[i], p))
      && Tallied(buf, k, p, minrto, change, lostSegs)
      && state == (if GoesDead(buf[..k], p, cfg.deadLink) then ALL_ONES else state0)
      && Writing(Pack(w, PushEmissions(Retransmit.Outgoing(buf[..k], p)), cfg.mtu, cfg.reserved), at, o)
    }

    /** One round of the loop of `rangeRef`. */
    method RangeStep(k: nat, p: Retransmit.Pass, minrto: u32, change: nat, lostSegs: nat, at: nat,
                     ghost buf: seq<Segment>, ghost state0: u32, ghost w: Packer, ghost o: Sink)
      returns (minrto': u32, change': nat, lostSegs': nat, at': nat)
      requires Passed(buf, k, p, state0, w, o, minrto, change, lostSegs, at) && Configured(cfg)
      requires k < |buf| && |buf[k].data| <= cfg.mss && buf[k].conv == cfg.conv && buf[k].cmd == CMD_PUSH
      modifies `sndBuf, `state, `outputs, buffer
      ensures Passed(buf, k + 1, p, state0, w, o, minrto', change', lostSegs', at')
    {
      PassStep(buf, p, k, cfg.deadLink);
      TallyStep(buf, p, k, minrto, change, lostSegs);
      PackStep(buf, p, k, w, cfg.mtu, cfg.reserved);
      PassedOne(buf, sndBuf, k, p);
      minrto', change', lostSegs' := minrto, change, lostSegs;
      var kind;
      kind, at' := Retransmission(
        k, p, at, Pack(w, PushEmissions(Retransmit.Outgoing(buf[..k], p)), cfg.mtu, cfg.reserved), o);
      var segment := sndBuf[k];
      if kind == Retransmit.Fast || kind == Retransmit.Early {
        change' := change' + 1;
      } else if kind == Retransmit.Lost {
        lostSegs' := lostSegs' + 1;
      }
      var rto := Diff(segment.resendts, p.now);
      if kind != Retransmit.Done && rto > 0 && rto < minrto {
        minrto' := rto;
      }
    }

    /** `rangeRef`: one pass over the send buffer. */
    method RangeRef(p: Retransmit.Pass, start: nat, ghost w: Packer, ghost o: Sink)
      returns (minrto: u32, change: nat, lostSegs: nat, at: nat)
      requires Writing(w, start, o) && Configured(cfg)
      requires forall e :: e in sndBuf ==> |e.data| <= cfg.mss && e.conv == cfg.conv && e.cmd == CMD_PUSH
      modifies `sndBuf, `state, `outputs, buffer
      ensures sndBuf == Retransmit.Touched(old(sndBuf), p)
      ensures minrto == Retransmit.Soonest(old(sndBuf), p)
      ensures lostSegs == Retransmit.Count(old(sndBuf), p, Retransmit.Lost)
      ensures change == Retransmit.Count(old(sndBuf), p, Retransmit.Fast)
                        + Retransmit.Count(old(sndBuf), p, Retransmit.Early)
      ensures state == if GoesDead(old(sndBuf), p, cfg.deadLink) then ALL_ONES else old(state)
      ensures Writing(Pack(w, PushEmissions(Retransmit.Outgoing(old(sndBuf), p)), cfg.mtu, cfg.reserved), at, o)
    {
      ghost var buf, state0 := sndBuf, state;
      at := start;
      minrto, change, lostSegs := p.interval, 0, 0;
      for k := 0 to |sndBuf|
        invariant Passed(buf, k, p, state0, w, o, minrto, change, lostSegs, at)
      {
        assert buf[k] in buf;
        minrto, change, lostSegs, at := RangeStep(k, p, minrto, change, lostSegs, at, buf, state0, w, o);
      }
      assert buf[..|buf|] == buf;
    }

    /** After the pass: the last datagram and the congestion window. */
    method EndPass(at: nat, lostSegs: nat, change: nat, limit: u32, resent: u32, ghost buf: seq<Segment>,
                   ghost p: Retransmit.Pass, ghost w: Packer, ghost o: Sink)
      requires Writing(w, at, o) && resent == Resent(cfg)
      requires lostSegs == Retransmit.Count(buf, p, Retransmit.Lost)
      requires change == Retransmit.Count(buf, p, Retransmit.Fast) + Retransmit.Count(buf, p, Retransmit.Early)
      modifies `win, `outputs
      ensures win == WindowAfter(old(win), cfg, buf, p, limit, Offset(sndNxt, sndUna))
      ensures outputs == o.before + Framed(o.header, Close(w, cfg.reserved))
      ensures buffer.Length == cfg.mtu && buffer[..cfg.reserved] == o.header
    {
      FlushBuffer(at, w, o);
      Noc(lostSegs, change, limit, resent);
    }

    /** The rest of `segs` once the window is filled: the pass, the last datagram, the congestion window. */
    method SegsPass(limit: u32, newSegs: nat, wnd: u16, now: u32, start: nat,
                    ghost w: Packer, ghost o: Sink)
      returns (minrto: u32, p: Retransmit.Pass)
      requires Configured(cfg) && Writing(w, start, o)
      requires forall e :: e in sndBuf ==> |e.data| <= cfg.mss && e.conv == cfg.conv && e.cmd == CMD_PUSH
      modifies `sndBuf, `state, `win, `outputs, buffer
      ensures p == Retransmit.Pass(now, Resent(cfg), newSegs, rtt.rto, cfg.nodelay, cfg.interval, wnd, rcvNxt)
      ensures sndBuf == Retransmit.Touched(old(sndBuf), p)
      ensures state == if GoesDead(old(sndBuf), p, cfg.deadLink) then ALL_ONES else old(state)
      ensures win == WindowAfter(old(win), cfg, old(sndBuf), p, limit, Offset(sndNxt, sndUna))
      ensures minrto == Retransmit.Soonest(old(sndBuf), p)
      ensures outputs == o.before + Framed(o.header,
        Close(Pack(w, PushEmissions(Retransmit.Outgoing(old(sndBuf), p)), cfg.mtu, cfg.reserved), cfg.reserved))
      ensures buffer.Length == cfg.mtu && buffer[..cfg.reserved] == o.header
    {
      var resent := if cfg.fastresend <= 0 then ALL_ONES else cfg.fastresend;
      p := Retransmit.Pass(now, resent, newSegs, rtt.rto, cfg.nodelay, cfg.interval, wnd, rcvNxt);
      ghost var buf := sndBuf;
      var change, lostSegs, at;
      minrto, change, lostSegs, at := RangeRef(p, start, w, o);
      EndPass(at, lostSegs, change, limit, resent, buf, p,
              Pack(w, PushEmissions(Retransmit.Outgoing(buf, p)), cfg.mtu, cfg.reserved), o);
    }

    /** The first half of `segs`: how far the window reaches, and filling it. */
    method FillWindow() returns (limit: u32, newSegs: nat)
      requires SendWindow.Valid(Snd()) && SendLimit(View()) <= SendWindow.LIMIT
      modifies `sndQueue, `sndBuf, `sndNxt
      ensures limit == old(SendLimit(View())) && newSegs == old(SendWindow.Room(Snd(), limit))
      ensures Snd() == old(Admitted(View()))
    {
      limit := Min(cfg.sndWnd, win.rmtWnd);
      if cfg.nocwnd == 0 {
        limit := Min(win.cwnd, limit);
      }
      newSegs := Admit(limit);
    }

    /** `segs` from the filled window on. */
    method SegsFilled(limit: u32, newSegs: nat, wnd: u16, now: u32, start: nat,
                      ghost k: Kcp, ghost w: Packer, ghost o: Sink)
      returns (minrto: u32)
      requires View() == k.(snd := Admitted(k)) && limit == SendLimit(k) && newSegs == SendWindow.Room(k.snd, limit)
      requires forall e :: e in sndBuf ==> |e.data| <= cfg.mss && e.conv == cfg.conv && e.cmd == CMD_PUSH
      requires Configured(cfg) && wnd == KcpSpec.WndUnused(Rcv()) && Writing(w, start, o)
      modifies `sndBuf, `state, `win, `outputs, buffer
      ensures View() == PushFlush(k, now)
      ensures minrto == Retransmit.Soonest(Admitted(k).buf, PassOf(k, now))
      ensures outputs == o.before + Framed(o.header, Close(
        Pack(w, PushEmissions(Retransmit.Outgoing(Admitted(k).buf, PassOf(k, now))), cfg.mtu, cfg.reserved),
        cfg.reserved))
      ensures buffer.Length == cfg.mtu && buffer[..cfg.reserved] == o.header
    {
      var pass;
      minrto, pass := SegsPass(limit, newSegs, wnd, now, start, w, o);
      assert pass == PassOf(k, now);
    }

    /** `segs`. */
    method Segs(wnd: u16, now: u32, start: nat, ghost k: Kcp, ghost w: Packer, ghost o: Sink)
      returns (minrto: u32)
      requires k == View() && SendWindow.Valid(k.snd) && SendLimit(k) <= SendWindow.LIMIT && Configured(cfg)
      requires forall e :: e in Admitted(k).buf ==> |e.data| <= cfg.mss && e.conv == cfg.conv && e.cmd == CMD_PUSH
      requires wnd == KcpSpec.WndUnused(Rcv()) && Writing(w, start, o)
      modifies `sndQueue, `sndBuf, `sndNxt, `state, `win, `outputs, buffer
      ensures View() == PushFlush(k, now)
      ensures minrto == Retransmit.Soonest(Admitted(k).buf, PassOf(k, now))
      ensures outputs == o.before + Framed(o.header, Close(
        Pack(w, PushEmissions(Retransmit.Outgoing(Admitted(k).buf, PassOf(k, now))), cfg.mtu, cfg.reserved),
        cfg.reserved))
      ensures buffer.Length == cfg.mtu && buffer[..cfg.reserved] == o.header
    {
      var limit, newSegs := FillWindow();
      minrto := SegsFilled(limit, newSegs, wnd, now, start, k, w, o);
    }

    /** The probes of `flush`; `k` is the state before the acknowledgements. */
    method Probes(wnd: u16, now: u32, start: nat, last: AckItem, ghost k: Kcp, ghost o: Sink) returns (at: nat)
      requires View() == k.(acks := []) && last == LastAck(k.acks) && wnd == KcpSpec.WndUnused(Rcv())
      requires Configured(cfg) && Writing(Pack(Packer([], []), AckEmissions(k), cfg.mtu, cfg.reserved), start, o)
      modifies `outputs, buffer, `probe
      ensures View() == AfterProbes(k, now)
      ensures Writing(
        Pack(Packer([], []), AckEmissions(k) + ProbeEmissions(k, NextProbe(k.probe, k.win.rmtWnd, now)), cfg.mtu,
             cfg.reserved), at, o)
    {
      ProbeTimer(now);
      at := PutProbes(wnd, start, last, k, Pack(Packer([], []), AckEmissions(k), cfg.mtu, cfg.reserved), o);
      PackConcat(Packer([], []), AckEmissions(k), ProbeEmissions(k, probe), cfg.mtu, cfg.reserved);
      probe := probe.(ask := false, tell := false);
    }

    /** The part of `flush` after the acknowledgements; `k` is the state before them. */
    method FlushRest(wnd: u16, now: u32, start: nat, last: AckItem, ghost k: Kcp, ghost o: Sink)
      returns (delay: u32)
      requires SendWindow.Valid(k.snd) && SendLimit(k) <= SendWindow.LIMIT && Configured(k.cfg)
      requires forall e :: e in Admitted(k).buf ==> |e.data| <= cfg.mss && e.conv == cfg.conv && e.cmd == CMD_PUSH
      requires View() == k.(acks := []) && last == LastAck(k.acks) && wnd == KcpSpec.WndUnused(Rcv())
      requires Writing(Pack(Packer([], []), AckEmissions(k), cfg.mtu, cfg.reserved), start, o)
      modifies `sndQueue, `sndBuf, `sndNxt, `state, `win, `outputs, buffer,
        `probe
      ensures View() == KcpSpec.Flush(k, false, now).k && delay == KcpSpec.Flush(k, false, now).delay
      ensures outputs == o.before + Framed(o.header,
        Datagrams(KcpSpec.Flush(k, false, now).out, cfg.mtu, cfg.reserved))
      ensures buffer.Length == cfg.mtu && buffer[..cfg.reserved] == o.header
    {
      ghost var es := AckEmissions(k) + ProbeEmissions(k, NextProbe(k.probe, k.win.rmtWnd, now));
      var at := Probes(wnd, now, start, last, k, o);
      FlushFields(k, now);
      delay := Segs(wnd, now, at, AfterProbes(k, now), Pack(Packer([], []), es, cfg.mtu, cfg.reserved), o);
      PackConcat(Packer([], []), es, PushEmissions(Retransmit.Outgoing(Admitted(k).buf, PassOf(k, now))), cfg.mtu,
                 cfg.reserved);
    }

    method Flush(ackOnly: bool, now: u32) returns (delay: u32)
      requires Valid()
      modifies `sndQueue, `sndBuf, `sndNxt, `state, `win, `outputs, buffer,
        `acklist, `probe
      ensures View() == KcpSpec.Flush(old(View()), ackOnly, now).k
      ensures delay == KcpSpec.Flush(old(View()), ackOnly, now).delay
      ensures outputs == old(outputs) + Framed(old(buffer[..cfg.reserved]),
        Datagrams(KcpSpec.Flush(old(View()), ackOnly, now).out, cfg.mtu, cfg.reserved))
      ensures buffer[..cfg.reserved] == old(buffer[..cfg.reserved])
    {
      ghost var k, o := View(), Sink(outputs, buffer[..cfg.reserved]);
      AdmittedForPass(k);
      var wnd := WndUnused();
      var last := if |acklist| == 0 then AckItem(0, 0) else acklist[|acklist| - 1];
      var at := PutAcks(wnd, k, o);
      acklist := [];
      if ackOnly {
        FlushBuffer(at, Pack(Packer([], []), AckEmissions(k), cfg.mtu, cfg.reserved), o);
        return cfg.interval;
      }
      delay := FlushRest(wnd, now, at, last, k, o);
    }

    // ----- Input -----

    /** `settings` and `shrinkBuf`. */
    method Settings(regular: bool, una: u32, wnd: u16) returns (slides: bool)
      requires SendWindow.Valid(Snd())
      modifies `win, `sndBuf, `sndUna
      ensures Snd() == SendWindow.AdvanceUna(old(Snd()), una)
      ensures win == if regular then old(win).(rmtWnd := wnd) else old(win)
      ensures slides <==> SendWindow.Covered(old(Snd()), una) > 0
    {
      ghost var s := Snd();
      if regular {
        win := win.(rmtWnd := wnd);
      }
      var count := ParseUna(una);
      ShrinkBuf();
      HeadOfBuffer(s, count);
      return count > 0;
    }

    method TakePush(w: WireSegment)
      requires ReceiveWindow.Valid(Rcv())
      requires ReceiveWindow.Stores(Rcv(), w.sn) ==> |w.data| <= MTU_LIMIT
      modifies `acklist, `rcvNxt, `rcvQueue, `rcvBuf
      ensures Rcv() == ReceiveWindow.ParseData(old(Rcv()), FromWire(w))
      ensures acklist == if Diff(w.sn, Wrap(old(rcvNxt) + rcvWnd)) < 0
                         then old(acklist) + [AckItem(w.sn, w.ts)] else old(acklist)
    {
      ReceiveWindow.AcceptanceTest(Rcv(), w.sn);
      if Diff(w.sn, Wrap(rcvNxt + rcvWnd)) < 0 {
        AckPush(w.sn, w.ts);
        if Diff(w.sn, rcvNxt) >= 0 {
          var repeated := ParseData(FromWire(w));
        }
      }
    }

    /** The switch on the command in `Input`. */
    method Dispatch(w: WireSegment) returns (known: bool)
      requires SendWindow.Valid(Snd()) && ReceiveWindow.Valid(Rcv()) && Holds(View(), w)
      modifies `sndBuf, `acklist, `rcvNxt, `rcvQueue, `rcvBuf, `probe
      ensures known <==> Known(w.cmd)
      ensures View() == KcpSpec.Dispatch(Feed(old(View()), false, 0, false), w).k
    {
      if w.cmd == CMD_ACK {
        SendWindow.ParseAckValid(Snd(), w.sn);
        ParseAck(w.sn);
        ParseFastack(w.sn, w.ts);
      } else if w.cmd == CMD_PUSH {
        TakePush(w);
      } else if w.cmd == CMD_WASK {
        probe := probe.(tell := true);
      }
      return w.cmd == CMD_ACK || w.cmd == CMD_PUSH || w.cmd == CMD_WASK || w.cmd == CMD_WINS;
    }

    /** One round of the loop of `Input`, for a segment that parsed. */
    method ProcessSegment(w: WireSegment, regular: bool, ghost k: Kcp) returns (known: bool, slides: bool)
      requires k == View() && Inv(k) && Holds(k, w)
      modifies `win, `sndBuf, `sndUna, `acklist, `rcvNxt, `rcvQueue, `rcvBuf, `probe
      ensures known <==> Known(w.cmd)
      ensures var f := Feed(k, false, 0, false);
        slides == Settle(f, w, regular).slides && View() == Process(f, w, regular).k
    {
      SendWindow.AdvanceUnaValid(Snd(), w.una);
      slides := Settings(regular, w.una, w.wnd);
      known := Dispatch(w);
    }

    /** `current`: the round-trip sample at the end of `Input`. */
    method TakeSample(acked: bool, latest: u32, regular: bool, now: u32)
      modifies `rtt
      ensures forall slides :: View() == Sample(Feed(old(View()), acked, latest, slides), regular, now)
    {
      if acked && regular {
        if Diff(now, latest) >= 0 {
          UpdateAck(Diff(now, latest));
        }
      }
    }

    /** The growth at the end of `Input`. */
    method GrowWindow(una: u32)
      requires cfg.mss > 0
      modifies `win
      ensures View() == KcpSpec.OpenWindow(old(View()), una)
    {
      if cfg.nocwnd == 0 && Diff(sndUna, una) > 0 {
        this.OpenWindow();
      }
    }

    /** The answering flush of `Input`. */
    method Answer(slides: bool, ackNoDelay: bool, now: u32)
      requires Valid()
      modifies `win, `sndQueue, `sndBuf, `sndNxt, `state, `outputs, buffer, `acklist, `probe
      ensures var r := Respond(old(View()), slides, ackNoDelay, now);
        && View() == r.k
        && outputs == old(outputs) + Framed(old(buffer[..cfg.reserved]), Datagrams(r.out, cfg.mtu, cfg.reserved))
      ensures buffer[..cfg.reserved] == old(buffer[..cfg.reserved])
    {
      if slides {
        var _ := Flush(false, now);
      } else if ackNoDelay && |acklist| > 0 {
        var _ := Flush(true, now);
      } else {
        NothingSent(buffer[..cfg.reserved], cfg.mtu, cfg.reserved);
      }
    }

    /** The end of `Input`: the round-trip sample, the window, and the answering flush. */
    method Conclude(acked: bool, latest: u32, slides: bool, una: u32, regular: bool, ackNoDelay: bool, now: u32)
      requires Valid()
      modifies `rtt, `win, `sndQueue, `sndBuf, `sndNxt, `state, `outputs, buffer, `acklist, `probe
      ensures var r := Respond(KcpSpec.OpenWindow(Sample(Feed(old(View()), acked, latest, slides), regular, now), una),
                               slides, ackNoDelay, now);
        && View() == r.k
        && outputs == old(outputs) + Framed(old(buffer[..cfg.reserved]), Datagrams(r.out, cfg.mtu, cfg.reserved))
      ensures buffer[..cfg.reserved] == old(buffer[..cfg.reserved])
    {
      SampleOpenInv(Feed(View(), acked, latest, slides), regular, now, una);
      TakeSample(acked, latest, regular, now);
      GrowWindow(una);
      Answer(slides, ackNoDelay, now);
    }

    /** One round of the loop of `Input`. Code 0 means that the loop goes on with `next`. */
    method ConsumeOne(data: seq<byte>, regular: bool, acked: bool, latest: u32, slides: bool)
      returns (code: int, next: seq<byte>, acked': bool, latest': u32, slides': bool)
      requires Inv(View()) && |data| >= OVERHEAD && Held(Feed(View(), acked, latest, slides), data, regular)
      modifies `win, `sndBuf, `sndUna, `acklist, `rcvNxt, `rcvQueue, `rcvBuf, `probe
      ensures var f, g := Feed(old(View()), acked, latest, slides), Feed(View(), acked', latest', slides');
        if code == 0 then
          && |next| < |data| && Inv(View()) && Held(g, next, regular)
          && Consumed(f, data, regular) == Consumed(g, next, regular)
        else Consumed(f, data, regular) == (code, g)
    {
      ghost var f := Feed(View(), acked, latest, slides);
      acked', latest', slides' := acked, latest, slides;
      var head, length, body := HeaderOf(data), LengthOf(data), data[OVERHEAD..];
      if head.conv != cfg.conv {
        return -1, data, acked', latest', slides';
      }
      if |body| < length {
        return -2, data, acked', latest', slides';
      }
      var w := head.(data := body[..length]);
      HeldStep(f, data, w, body[length..], regular);
      ProcessInv(f, w, regular);
      ProcessFields(f, w, regular);
      var known;
      known, slides' := ProcessSegment(w, regular, f.k);
      if !known {
        return -3, data, acked', latest', slides';
      }
      if w.cmd == CMD_ACK {
        acked', latest' := true, w.ts;
      }
      code, next := 0, body[length..];
      assert Feed(View(), acked', latest', slides') == Process(f, w, regular);
    }

    /** The loop of `Input`. Code 0 means the datagram was used up. */
    method Consume(data: seq<byte>, regular: bool) returns (code: int, acked: bool, latest: u32, slides: bool)
      requires Inv(View()) && Held(Feed(View(), false, 0, false), data, regular)
      modifies `win, `sndBuf, `sndUna, `acklist, `rcvNxt, `rcvQueue, `rcvBuf, `probe
      ensures (code, Feed(View(), acked, latest, slides))
        == Consumed(Feed(old(View()), false, 0, false), data, regular)
    {
      ghost var goal := Consumed(Feed(View(), false, 0, false), data, regular);
      var rest := data;
      code, acked, latest, slides := 0, false, 0, false;
      while |rest| >= OVERHEAD
        invariant code == 0 && Inv(View()) && Held(Feed(View(), acked, latest, slides), rest, regular)
        invariant goal == Consumed(Feed(View(), acked, latest, slides), rest, regular)
        decreases |rest|
      {
        code, rest, acked, latest, slides := ConsumeOne(rest, regular, acked, latest, slides);
        if code != 0 {
          break;
        }
      }
    }

    /** `Input` on a datagram that has a header; `goal` is what comes of it. */
    method Digest(data: seq<byte>, regular: bool, ackNoDelay: bool, now: u32, ghost goal: InputResult)
      returns (code: int)
      requires Valid() && |data| >= OVERHEAD && Held(Feed(View(), false, 0, false), data, regular)
      requires goal == KcpSpec.Input(View(), data, regular, ackNoDelay, now)
      modifies `win, `sndBuf, `sndUna, `acklist, `rcvNxt, `rcvQueue, `rcvBuf, `probe,
        `rtt, `sndQueue, `sndNxt, `state, `outputs, buffer
      ensures code == goal.code && View() == goal.k
      ensures outputs == old(outputs) + Framed(old(buffer[..cfg.reserved]), Datagrams(goal.out, cfg.mtu, cfg.reserved))
      ensures buffer[..cfg.reserved] == old(buffer[..cfg.reserved])
    {
      var una := sndUna;
      NothingSent(buffer[..cfg.reserved], cfg.mtu, cfg.reserved);
      ConsumedInv(Feed(View(), false, 0, false), data, regular);
      InputIs(View(), data, regular, ackNoDelay, now);
      var acked, latest, slides;
      code, acked, latest, slides := Consume(data, regular);
      if code == 0 {
        Conclude(acked, latest, slides, una, regular, ackNoDelay, now);
      }
    }

    /** `Input`. What it stores must fit pooled buffers. */
    method Input(data: seq<byte>, regular: bool, ackNoDelay: bool, now: u32) returns (code: int)
      requires Valid() && Held(Feed(View(), false, 0, false), data, regular)
      modifies `win, `sndBuf, `sndUna, `acklist, `rcvNxt, `rcvQueue, `rcvBuf, `probe,
        `rtt, `sndQueue, `sndNxt, `state, `outputs, buffer
      ensures var r := KcpSpec.Input(old(View()), data, regular, ackNoDelay, now);
        && code == r.code && View() == r.k
        && outputs == old(outputs) + Framed(old(buffer[..cfg.reserved]), Datagrams(r.out, cfg.mtu, cfg.reserved))
      ensures buffer[..cfg.reserved] == old(buffer[..cfg.reserved])
    {
      if |data| < OVERHEAD {
        NothingSent(buffer[..cfg.reserved], cfg.mtu, cfg.reserved);
        return -1;
      }
      code := Digest(data, regular, ackNoDelay, now, KcpSpec.Input(View(), data, regular, ackNoDelay, now));
    }

    // ----- Update and Check -----

    /** The clock part of `Update`. */
    method Tick(now: u32) returns (due: bool)
      modifies `updated, `tsFlush
      ensures updated && due == Due(old(View()), now)
      ensures tsFlush == if due then NextFlushTime(old(View()), now) else FlushTime(old(View()), now)
    {
      if !updated {
        updated := true;
        tsFlush := now;
      }
      var slap := Diff(now, tsFlush);
      if slap >= SLAP || slap < -SLAP {
        tsFlush := now;
        slap := 0;
      }
      if slap >= 0 {
        tsFlush := Wrap(tsFlush + cfg.interval);
        if Diff(now, tsFlush) >= 0 {
          tsFlush := Wrap(now + cfg.interval);
        }
      }
      return slap >= 0;
    }

    method Update(now: u32)
      requires Valid()
      modifies `updated, `tsFlush, `sndQueue, `sndBuf, `sndNxt, `state, `win, `outputs, buffer, `acklist, `probe
      ensures var r := KcpSpec.Update(old(View()), now);
        && View() == r.k
        && outputs == old(outputs) + Framed(old(buffer[..cfg.reserved]), Datagrams(r.out, cfg.mtu, cfg.reserved))
      ensures buffer[..cfg.reserved] == old(buffer[..cfg.reserved])
    {
      ghost var k := View();
      var due := Tick(now);
      NothingSent(buffer[..cfg.reserved], cfg.mtu, cfg.reserved);
      SameQueues(k, View());
      if due {
        var _ := Flush(false, now);
      }
    }

    /** The loop of `Check`. */
    method NearestResend(now: u32) returns (due: bool, tmPacket: int)
      ensures due <==> AnyDue(sndBuf, now)
      ensures !due ==> tmPacket == Nearest(sndBuf, now)
    {
      due, tmPacket := false, 0x7fff_ffff;
      for k := 0 to |sndBuf|
        invariant !due && forall i :: 0 <= i < k ==> Diff(sndBuf[i].resendts, now) > 0
        invariant tmPacket == Nearest(sndBuf[..k], now)
      {
        var diff := Diff(sndBuf[k].resendts, now);
        assert sndBuf[..k + 1][..k] == sndBuf[..k];
        if diff <= 0 {
          return true, tmPacket;
        }
        if diff < tmPacket {
          tmPacket := diff;
        }
      }
      assert sndBuf[..|sndBuf|] == sndBuf;
    }

    method Check(now: u32) returns (at: u32)
      ensures at == KcpSpec.Check(View(), now)
    {
      if !updated {
        return now;
      }
      var flush := tsFlush;
      if Diff(now, flush) >= SLAP || Diff(now, flush) < -SLAP {
        flush := now;
      }
      if Diff(now, flush) >= 0 {
        return now;
      }
      var tmFlush := Diff(flush, now);
      var due, tmPacket := NearestResend(now);
      if due {
        return now;
      }
      var minimal := if tmPacket >= tmFlush then tmFlush else tmPacket;
      if minimal >= cfg.interval {
        minimal := cfg.interval;
      }
      return Wrap(now + minimal);
    }
  }
}
