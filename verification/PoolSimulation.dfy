/**
 Every call of the engine, and every packet given to the decoder, is a sequence
 of the buffer operations of BufferPool (network/kcp/kcp.go:233-456, 462-521,
 793-818; network/kcp/fec.go:69-267). So over every run each live segment owns a
 buffer that nobody else has, and an acknowledged one owns none.
 */
module PoolSimulation {
  import opened Serial
  import opened Wire
  import opened Segments
  import opened KcpSpec
  import opened KcpInvariant
  import opened BufferPool
  import KcpLaws
  import SendWindow
  import ReceiveWindow
  import Retransmit
  import FecPackets
  import FecCodec
  import FecDecoding
  import FecTuning

  type Element = FecDecoding.Element

  // ----- paths -----

  /**
   Which buffer every call of `Get` hands out: any that it may. As the calls are
   counted, the choice can depend on all that went before (EveryHistoryIsPicked).
   */
  type Pick = pick: Pooled -> Buffer | forall s: Pooled :: Gettable(s, pick(s)) witness (s: Pooled) => s.made

  predicate Takes(op: Op) {
    op.SendPiece? || op.StoreData? || op.StorePacket? || op.TakeShard?
  }

  /** The operation takes the buffer that is picked, if it takes one. */
  predicate Follows(pick: Pick, s: Pooled, op: Op) {
    Takes(op) ==> op.b == pick(s)
  }

  ghost predicate IsPath(pick: Pick, path: seq<Pooled>, ops: seq<Op>, s: Pooled, t: Pooled) {
    && |path| == |ops| + 1 && path[0] == s && path[|ops|] == t
    && forall i :: 0 <= i < |ops| ==> Next(path[i], ops[i], path[i + 1]) && Follows(pick, path[i], ops[i])
  }

  /** A sequence of operations leads from `s` to `t`. */
  ghost predicate Reach(pick: Pick, s: Pooled, t: Pooled) {
    exists path, ops :: IsPath(pick, path, ops, s, t)
  }

  lemma ReachSelf(pick: Pick, s: Pooled)
    ensures Reach(pick, s, s)
  {
    assert IsPath(pick, [s], [], s, s);
  }

  lemma ReachNext(pick: Pick, s: Pooled, m: Pooled, op: Op, t: Pooled)
    requires Reach(pick, s, m) && Next(m, op, t) && Follows(pick, m, op)
    ensures Reach(pick, s, t)
  {
    var path, ops :| IsPath(pick, path, ops, s, m);
    var longer, more := path + [t], ops + [op];
    forall i | 0 <= i < |more|
      ensures Next(longer[i], more[i], longer[i + 1]) && Follows(pick, longer[i], more[i])
    {
      if i < |ops| {
        assert Next(path[i], ops[i], path[i + 1]);
      }
    }
    assert IsPath(pick, longer, more, s, t);
  }

  lemma {:induction false} ReachOwns(pick: Pick, s: Pooled, t: Pooled)
    requires Reach(pick, s, t) && OneOwner(s)
    ensures OneOwner(t)
  {
    var path, ops :| IsPath(pick, path, ops, s, t);
    for i := 0 to |ops|
      invariant OneOwner(path[i])
    {
      NextOwns(path[i], ops[i], path[i + 1]);
    }
  }

  lemma EmptyOwns()
    ensures OneOwner(EMPTY)
  {
    forall b: Buffer ensures Counted(EMPTY, b) {
    }
  }

  // ----- the engine and the pool -----

  ghost predicate AllOwn(q: seq<Option<Buffer>>) {
    forall i :: 0 <= i < |q| ==> q[i].Some?
  }

  /** Sent segments own a buffer until they are acknowledged. */
  ghost predicate OwnUntilAcked(q: seq<Option<Buffer>>, buf: seq<Segment>) {
    |q| == |buf| && forall i :: 0 <= i < |q| ==> (q[i].None? <==> buf[i].acked)
  }

  ghost predicate TracksSender(s: Sender, p: Pooled) {
    |p.sndQueue| == |s.queue| && AllOwn(p.sndQueue) && OwnUntilAcked(p.sndBuf, s.buf)
  }

  ghost predicate TracksReceiver(r: Receiver, p: Pooled) {
    |p.rcvQueue| == |r.queue| && AllOwn(p.rcvQueue) && |p.rcvBuf| == |r.buf| && AllOwn(p.rcvBuf)
  }

  /** The decoder's packets and shards are not touched. */
  ghost predicate SameDecoder(s: Pooled, t: Pooled) {
    t.packets == s.packets && t.shards == s.shards
  }

  /** Queued and received segments own a buffer each; sent ones until they are acknowledged. */
  ghost predicate Tracks(k: Kcp, p: Pooled) {
    TracksSender(k.snd, p) && TracksReceiver(k.rcv, p)
  }

  // ----- Send and Recv -----

  /** `n` new pieces. */
  lemma {:induction false} SendPieces(pick: Pick, s: Pooled, n: nat) returns (t: Pooled)
    requires AllOwn(s.sndQueue)
    ensures Reach(pick, s, t) && |t.sndQueue| == |s.sndQueue| + n && AllOwn(t.sndQueue)
    ensures t == s.(free := t.free, made := t.made, gets := t.gets, sndQueue := t.sndQueue)
  {
    t := s;
    ReachSelf(pick, s);
    for i := 0 to n
      invariant Reach(pick, s, t) && |t.sndQueue| == |s.sndQueue| + i && AllOwn(t.sndQueue)
      invariant t == s.(free := t.free, made := t.made, gets := t.gets, sndQueue := t.sndQueue)
    {
      var b := pick(t);
      var u := Got(t, b).(sndQueue := t.sndQueue + [Some(b)]);
      assert Next(t, SendPiece(b), u);
      ReachNext(pick, s, t, SendPiece(b), u);
      t := u;
    }
  }

  lemma SendGrows(k: Kcp, data: seq<byte>)
    requires k.cfg.mss > 0
    ensures var l := Send(k, data).1;
      |l.snd.queue| >= |k.snd.queue| && l.snd.buf == k.snd.buf && l.rcv == k.rcv
  {
  }

  lemma SendSimulated(pick: Pick, k: Kcp, data: seq<byte>, s: Pooled) returns (t: Pooled)
    requires k.cfg.mss > 0 && Tracks(k, s)
    ensures Reach(pick, s, t) && SameDecoder(s, t) && Tracks(Send(k, data).1, t)
  {
    SendGrows(k, data);
    t := SendPieces(pick, s, |Send(k, data).1.snd.queue| - |k.snd.queue|);
  }

  /** The run that has become readable moves on. */
  lemma DrainSimulated(pick: Pick, r: Receiver, snd: Sender, s: Pooled) returns (t: Pooled)
    requires TracksSender(snd, s) && TracksReceiver(r, s)
    ensures Reach(pick, s, t) && SameDecoder(s, t) && TracksSender(snd, t) && TracksReceiver(ReceiveWindow.Drain(r), t)
  {
    var n := ReceiveWindow.Run(r.buf, r.nxt, Max(r.wnd - |r.queue|, 0));
    t := s.(rcvQueue := s.rcvQueue + s.rcvBuf[..n], rcvBuf := s.rcvBuf[n..]);
    ReachSelf(pick, s);
    assert Next(s, MoveReadable(n), t);
    ReachNext(pick, s, s, MoveReadable(n), t);
  }

  lemma ReachThen(pick: Pick, s: Pooled, m: Pooled, t: Pooled)
    requires Reach(pick, s, m) && Reach(pick, m, t)
    ensures Reach(pick, s, t)
  {
    var path, ops :| IsPath(pick, path, ops, m, t);
    for i := 0 to |ops|
      invariant Reach(pick, s, path[i])
    {
      ReachNext(pick, s, path[i], ops[i], path[i + 1]);
    }
  }

  lemma RecvSimulated(pick: Pick, k: Kcp, capacity: nat, s: Pooled) returns (t: Pooled)
    requires Tracks(k, s)
    ensures Reach(pick, s, t) && SameDecoder(s, t) && Tracks(Recv(k, capacity).1, t)
  {
    var size := ReceiveWindow.PeekSize(k.rcv.queue);
    if size < 0 || size > capacity {
      t := s;
      ReachSelf(pick, s);
    } else {
      var n := ReceiveWindow.MessageLength(k.rcv.queue);
      var m := s.(free := s.free + Owned(s.rcvQueue[..n]), rcvQueue := s.rcvQueue[n..]);
      ReachSelf(pick, s);
      assert Next(s, ReadMessage(n), m);
      ReachNext(pick, s, s, ReadMessage(n), m);
      t := DrainSimulated(pick, k.rcv.(queue := k.rcv.queue[n..]), k.snd, m);
      ReachThen(pick, s, m, t);
    }
  }

  // ----- Input -----

  lemma SettleSimulated(pick: Pick, f: Feed, w: WireSegment, regular: bool, s: Pooled) returns (t: Pooled)
    requires Tracks(f.k, s)
    ensures Reach(pick, s, t) && SameDecoder(s, t) && Tracks(Settle(f, w, regular).k, t)
  {
    var n := SendWindow.Covered(f.k.snd, w.una);
    t := s.(free := s.free + Owned(s.sndBuf[..n]), sndBuf := s.sndBuf[n..]);
    ReachSelf(pick, s);
    assert Next(s, UnaPrefix(n), t);
    ReachNext(pick, s, s, UnaPrefix(n), t);
  }

  /** Which entries are acknowledged after an acknowledgement. */
  lemma AckedAfter(s: Sender, w: WireSegment)
    ensures var t := SendWindow.ParseFastack(SendWindow.ParseAck(s, w.sn), w.sn, w.ts);
      && |t.buf| == |s.buf| && t.queue == s.queue
      && forall i :: 0 <= i < |s.buf| ==> (t.buf[i].acked <==> s.buf[i].acked || i == Offset(w.sn, s.una))
  {
  }

  lemma TakeAckSimulated(pick: Pick, f: Feed, w: WireSegment, s: Pooled) returns (t: Pooled)
    requires Tracks(f.k, s)
    ensures Reach(pick, s, t) && SameDecoder(s, t) && Tracks(TakeAck(f, w).k, t)
  {
    ReachSelf(pick, s);
    t := s;
    var off := Offset(w.sn, f.k.snd.una);
    if off < |s.sndBuf| && s.sndBuf[off].Some? {
      t := s.(free := s.free + multiset{s.sndBuf[off].value}, sndBuf := s.sndBuf[off := None]);
      assert Next(s, AckEntry(off), t);
      ReachNext(pick, s, s, AckEntry(off), t);
    }
    AckedAfter(f.k.snd, w);
  }

  /** A segment that is not stored yet is copied into a buffer of its own. */
  lemma StoreSimulated(pick: Pick, r: Receiver, e: Segment, snd: Sender, s: Pooled) returns (t: Pooled)
    requires TracksSender(snd, s) && TracksReceiver(r, s)
    ensures Reach(pick, s, t) && SameDecoder(s, t) && TracksSender(snd, t)
    ensures TracksReceiver(r.(buf := ReceiveWindow.Insert(r.buf, r.nxt, e)), t)
  {
    var b, at := pick(s), ReceiveWindow.Before(r.buf, r.nxt, Offset(e.sn, r.nxt));
    t := Got(s, b).(rcvBuf := s.rcvBuf[..at] + [Some(b)] + s.rcvBuf[at..]);
    ReachSelf(pick, s);
    assert Next(s, StoreData(at, b), t);
    ReachNext(pick, s, s, StoreData(at, b), t);
  }

  lemma ParseDataSimulated(pick: Pick, r: Receiver, e: Segment, snd: Sender, s: Pooled) returns (t: Pooled)
    requires TracksSender(snd, s) && TracksReceiver(r, s)
    ensures Reach(pick, s, t) && SameDecoder(s, t) && TracksSender(snd, t)
    ensures TracksReceiver(ReceiveWindow.ParseData(r, e), t)
  {
    if !ReceiveWindow.Acceptable(r, e.sn) {
      t := s;
      ReachSelf(pick, s);
    } else if ReceiveWindow.Stored(r.buf, e.sn) {
      t := DrainSimulated(pick, r, snd, s);
    } else {
      var m := StoreSimulated(pick, r, e, snd, s);
      t := DrainSimulated(pick, r.(buf := ReceiveWindow.Insert(r.buf, r.nxt, e)), snd, m);
      ReachThen(pick, s, m, t);
    }
  }

  lemma DispatchSimulated(pick: Pick, f: Feed, w: WireSegment, s: Pooled) returns (t: Pooled)
    requires Tracks(f.k, s)
    ensures Reach(pick, s, t) && SameDecoder(s, t) && Tracks(Dispatch(f, w).k, t)
  {
    if w.cmd == CMD_ACK {
      t := TakeAckSimulated(pick, f, w, s);
    } else if w.cmd == CMD_PUSH {
      t := ParseDataSimulated(pick, f.k.rcv, FromWire(w), f.k.snd, s);
    } else {
      t := s;
      ReachSelf(pick, s);
    }
  }

  lemma {:induction false} ProcessAllSimulated(pick: Pick, f: Feed, ws: seq<WireSegment>, regular: bool, s: Pooled)
    returns (t: Pooled)
    requires Tracks(f.k, s)
    ensures Reach(pick, s, t) && SameDecoder(s, t) && Tracks(ProcessAll(f, ws, regular).k, t)
    decreases |ws|
  {
    if ws == [] {
      t := s;
      ReachSelf(pick, s);
    } else {
      var m := SettleSimulated(pick, f, ws[0], regular, s);
      var n := DispatchSimulated(pick, Settle(f, ws[0], regular), ws[0], m);
      ReachThen(pick, s, m, n);
      t := ProcessAllSimulated(pick, Process(f, ws[0], regular), ws[1..], regular, n);
      ReachThen(pick, s, n, t);
    }
  }

  // ----- flush -----

  lemma AdmittedMark(k: Kcp, i: nat)
    requires Inv(k) && i < |Admitted(k).buf|
    ensures Admitted(k).buf[i].acked <==> i < |k.snd.buf| && k.snd.buf[i].acked
  {
    if i >= |k.snd.buf| {
      assert SendWindow.Unsent(k.snd.queue[i - |k.snd.buf|]);
    }
  }

  /** Which entries are acknowledged after a flush: those that were. */
  lemma FlushedSender(k: Kcp, now: u32)
    requires Inv(k)
    ensures var t, n := Flush(k, false, now).k.snd, SendWindow.Room(k.snd, SendLimit(k));
      && |t.buf| == |k.snd.buf| + n && t.queue == k.snd.queue[n..] && Flush(k, false, now).k.rcv == k.rcv
      && forall i :: 0 <= i < |t.buf| ==> (t.buf[i].acked <==> i < |k.snd.buf| && k.snd.buf[i].acked)
  {
    var t := Flush(k, false, now).k.snd;
    forall i | 0 <= i < |t.buf| ensures t.buf[i].acked <==> i < |k.snd.buf| && k.snd.buf[i].acked {
      Retransmit.TouchKeeps(Admitted(k).buf[i], PassOf(k, now));
      AdmittedMark(k, i);
    }
  }

  lemma FlushSimulated(pick: Pick, k: Kcp, ackOnly: bool, now: u32, s: Pooled) returns (t: Pooled)
    requires Inv(k) && Tracks(k, s)
    ensures Reach(pick, s, t) && SameDecoder(s, t) && Tracks(Flush(k, ackOnly, now).k, t)
  {
    ReachSelf(pick, s);
    if ackOnly {
      t := s;
    } else {
      var n := SendWindow.Room(k.snd, SendLimit(k));
      t := s.(sndBuf := s.sndBuf + s.sndQueue[..n], sndQueue := s.sndQueue[n..]);
      assert Next(s, AdmitSegments(n), t);
      ReachNext(pick, s, s, AdmitSegments(n), t);
      FlushedSender(k, now);
    }
  }

  lemma RespondSimulated(pick: Pick, o: Kcp, slides: bool, ackNoDelay: bool, now: u32, s: Pooled) returns (t: Pooled)
    requires Inv(o) && Tracks(o, s)
    ensures Reach(pick, s, t) && SameDecoder(s, t) && Tracks(Respond(o, slides, ackNoDelay, now).k, t)
  {
    if slides {
      t := FlushSimulated(pick, o, false, now, s);
    } else if ackNoDelay && o.acks != [] {
      t := FlushSimulated(pick, o, true, now, s);
    } else {
      t := s;
      ReachSelf(pick, s);
    }
  }

  lemma InputSimulated(pick: Pick, k: Kcp, data: seq<byte>, regular: bool, ackNoDelay: bool, now: u32, s: Pooled)
    returns (t: Pooled)
    requires Inv(k) && Tracks(k, s)
    ensures Reach(pick, s, t) && SameDecoder(s, t) && Tracks(Input(k, data, regular, ackNoDelay, now).k, t)
  {
    var w := InputEnds(k, data, regular, ackNoDelay, now);
    var f := Arrived(k, data, regular);
    var m := ProcessAllSimulated(pick, Feed(k, false, 0, false), Parse(data, k.cfg.conv).segs, regular, s);
    OpenedInv(k, data, regular, now);
    if UsedUp(k, data) {
      t := RespondSimulated(pick, Opened(k, data, regular, now), f.slides, ackNoDelay, now, m);
      ReachThen(pick, s, m, t);
    } else if Input(k, data, regular, ackNoDelay, now).k == k {
      t := s;
      ReachSelf(pick, s);
    } else if Input(k, data, regular, ackNoDelay, now).k == f.k {
      t := m;
    } else {
      t := SettleSimulated(pick, f, w, regular, m);
      ReachThen(pick, s, m, t);
    }
  }

  // ----- every call -----

  /** Every call of the engine is a sequence of buffer operations. */
  lemma CallSimulated(pick: Pick, k: Kcp, c: KcpLaws.Call, s: Pooled) returns (t: Pooled)
    requires Inv(k) && Tracks(k, s)
    ensures Reach(pick, s, t) && SameDecoder(s, t) && Tracks(KcpLaws.Apply(k, c), t)
  {
    match c
    case SendCall(data) => t := SendSimulated(pick, k, data, s);
    case RecvCall(capacity) => t := RecvSimulated(pick, k, capacity, s);
    case InputCall(datagram, regular, ackNoDelay, at) =>
      t := InputSimulated(pick, k, datagram, regular, ackNoDelay, at, s);
    case FlushCall(ackOnly, at) => t := FlushSimulated(pick, k, ackOnly, at, s);
    case UpdateCall(at) =>
      if Due(k, at) {
        var ticked := k.(updated := true, tsFlush := NextFlushTime(k, at));
        KcpInvariant.SameQueues(k, ticked);
        t := FlushSimulated(pick, ticked, false, at, s);
      } else {
        t := s;
        ReachSelf(pick, s);
      }
  }

  /**
   Over every run of an endpoint that starts with empty queues, and whatever
   buffers the pool hands out, the pool can be followed along: every queued or
   received segment and every unacknowledged one in flight owns a buffer, an
   acknowledged one owns none, and every buffer is in exactly one place.
   */
  lemma {:induction false} RunSimulated(pick: Pick, states: seq<Kcp>, calls: seq<KcpLaws.Call>, i: nat)
    returns (p: Pooled)
    requires KcpLaws.IsRun(states, calls) && i < |states| && Inv(states[0]) && Tracks(states[0], EMPTY)
    ensures Reach(pick, EMPTY, p) && Tracks(states[i], p) && OneOwner(p)
  {
    p := EMPTY;
    ReachSelf(pick, p);
    for j := 0 to i
      invariant Inv(states[j]) && Reach(pick, EMPTY, p) && Tracks(states[j], p)
    {
      KcpLaws.ApplyInv(states[j], calls[j]);
      var t := CallSimulated(pick, states[j], calls[j], p);
      ReachThen(pick, EMPTY, p, t);
      p := t;
    }
    EmptyOwns();
    ReachOwns(pick, EMPTY, p);
  }

  // ----- the decoder -----

  ghost predicate TracksDecoder(rx: seq<Element>, recovered: nat, p: Pooled) {
    |p.packets| == |rx| && AllOwn(p.packets) && |p.shards| == recovered && AllOwn(p.shards)
  }

  /** The queues of the engine are not touched. */
  ghost predicate SameEngine(s: Pooled, t: Pooled) {
    t.sndQueue == s.sndQueue && t.sndBuf == s.sndBuf && t.rcvQueue == s.rcvQueue && t.rcvBuf == s.rcvBuf
  }

  /** How many data shards of a group are missing; each gets a buffer to be recovered into. */
  function MissingData(slots: seq<Option<FecCodec.Shard>>, n: nat): nat
    requires n <= |slots|
  {
    if n == 0 then 0 else MissingData(slots, n - 1) + (if slots[n - 1].None? then 1 else 0)
  }

  lemma {:induction false} GapsCount(slots: seq<Option<FecCodec.Shard>>, data: seq<FecCodec.Shard>, n: nat)
    requires n <= |slots| && n <= |data|
    ensures |FecDecoding.Gaps(slots, data, n)| == MissingData(slots, n)
  {
    if n > 0 {
      GapsCount(slots, data, n - 1);
    }
  }

  lemma {:induction false} RecoveredCount(ms: seq<Element>, ds: nat, ss: nat, c: FecCodec.Codec)
    requires 0 < ds <= ss
    ensures var r := FecDecoding.Recovered(ms, ds, ss, c);
      r == [] || |r| == MissingData(FecDecoding.Slots(ms, ss), ds)
  {
    var slots := FecDecoding.Slots(ms, ss);
    match c.reconstruct(FecDecoding.PadSlots(slots, FecDecoding.MaxLength(ms)))
    case None =>
    case Some(data) =>
      if |data| == ds {
        GapsCount(slots, data, ds);
      }
  }

  lemma StorePacketSimulated(pick: Pick, s: Pooled, at: nat) returns (t: Pooled)
    requires at <= |s.packets| && AllOwn(s.packets)
    ensures Reach(pick, s, t) && SameEngine(s, t) && t.shards == s.shards
    ensures |t.packets| == |s.packets| + 1 && AllOwn(t.packets)
  {
    var b := pick(s);
    t := Got(s, b).(packets := s.packets[..at] + [Some(b)] + s.packets[at..]);
    ReachSelf(pick, s);
    assert Next(s, StorePacket(at, b), t);
    ReachNext(pick, s, s, StorePacket(at, b), t);
  }

  lemma FreedOwn(q: seq<Option<Buffer>>, first: nat, n: nat)
    requires first + n <= |q| && AllOwn(q)
    ensures AllOwn(q[..first] + q[first + n..])
  {
  }

  lemma FreeSimulated(pick: Pick, s: Pooled, first: nat, n: nat) returns (t: Pooled)
    requires first + n <= |s.packets| && AllOwn(s.packets)
    ensures Reach(pick, s, t) && SameEngine(s, t) && t.shards == s.shards
    ensures |t.packets| == |s.packets| - n && AllOwn(t.packets)
  {
    t := s.(free := s.free + Owned(s.packets[first..first + n]),
            packets := s.packets[..first] + s.packets[first + n..]);
    FreedOwn(s.packets, first, n);
    ReachSelf(pick, s);
    assert Next(s, FreePackets(first, n), t);
    ReachNext(pick, s, s, FreePackets(first, n), t);
  }

  /** Buffers for the missing shards; when recovering fails they are left behind. */
  lemma {:induction false} ShardsSimulated(pick: Pick, s: Pooled, n: nat, succeeds: bool) returns (t: Pooled)
    requires s.shards == []
    ensures Reach(pick, s, t) && SameEngine(s, t) && t.packets == s.packets
    ensures |t.shards| == (if succeeds then n else 0) && AllOwn(t.shards)
  {
    t := s;
    ReachSelf(pick, s);
    for i := 0 to n
      invariant Reach(pick, s, t) && SameEngine(s, t) && t.packets == s.packets && |t.shards| == i && AllOwn(t.shards)
    {
      var b := pick(t);
      var u := Got(t, b).(shards := t.shards + [Some(b)]);
      assert Next(t, TakeShard(b), u);
      ReachNext(pick, s, t, TakeShard(b), u);
      t := u;
    }
    if !succeeds {
      var u := t.(lost := t.lost + Owned(t.shards), shards := []);
      assert Next(t, LoseShards, u);
      ReachNext(pick, s, t, LoseShards, u);
      t := u;
    }
  }

  /** `fecNestif`: what was collected goes back to the pool, once the missing shards have buffers. */
  lemma OutcomeSimulated(pick: Pick, rx: seq<Element>, ms: seq<Element>, first: nat, ds: nat, ss: nat,
                         c: FecCodec.Codec, s: Pooled)
    returns (t: Pooled)
    requires 0 < ds <= ss && first + |ms| <= |rx| && TracksDecoder(rx, 0, s)
    ensures Reach(pick, s, t) && SameEngine(s, t)
    ensures var (recovered, kept) := FecDecoding.Outcome(rx, ms, rx[..first] + rx[first + |ms|..], ds, ss, c);
      TracksDecoder(kept, |recovered|, t)
  {
    if FecDecoding.DataCount(ms) == ds {
      t := FreeSimulated(pick, s, first, |ms|);
    } else if |ms| >= ds {
      var recovered := FecDecoding.Recovered(ms, ds, ss, c);
      RecoveredCount(ms, ds, ss, c);
      var m := ShardsSimulated(pick, s, MissingData(FecDecoding.Slots(ms, ss), ds), recovered != []);
      t := FreeSimulated(pick, m, first, |ms|);
      ReachThen(pick, s, m, t);
    } else {
      t := s;
      ReachSelf(pick, s);
    }
  }

  lemma SearchSimulated(pick: Pick, rx: seq<Element>, begin: u32, from: nat, ds: nat, ss: nat, c: FecCodec.Codec,
                        s: Pooled)
    returns (t: Pooled)
    requires 0 < ds <= ss && from <= |rx| && TracksDecoder(rx, 0, s)
    ensures Reach(pick, s, t) && SameEngine(s, t)
    ensures var (recovered, kept) := FecDecoding.Searched(rx, begin, from, ds, ss, c);
      TracksDecoder(kept, |recovered|, t)
  {
    var till := Min(from + ss, |rx|);
    if till - from >= ds {
      var w, end := rx[from..till], FecDecoding.End(begin, ss);
      t := OutcomeSimulated(pick, 
        rx, FecDecoding.Gathered(w, begin, end), from + FecDecoding.FirstOf(w, begin, end), ds, ss, c, s);
    } else {
      t := s;
      ReachSelf(pick, s);
    }
  }

  lemma TrimSimulated(pick: Pick, rx: seq<Element>, recovered: nat, ss: nat, now: u32, s: Pooled) returns (t: Pooled)
    requires TracksDecoder(rx, recovered, s)
    ensures Reach(pick, s, t) && SameEngine(s, t) && TracksDecoder(FecDecoding.Trimmed(rx, ss, now), recovered, t)
  {
    var rest := FecDecoding.Evict(rx, FecDecoding.MULTIPLE * ss);
    var m := FreeSimulated(pick, s, 0, |rx| - |rest|);
    t := FreeSimulated(pick, m, 0, FecDecoding.Expired(rest, now));
    ReachThen(pick, s, m, t);
  }

  /** Storing a packet, searching for its group, and trimming the queue. */
  lemma WindowSimulated(pick: Pick, rx: seq<Element>, ds: nat, ss: nat, c: FecCodec.Codec, pkt: FecDecoding.Packet,
                        now: u32, s: Pooled)
    returns (t: Pooled)
    requires 0 < ds <= ss && TracksDecoder(rx, 0, s)
    ensures Reach(pick, s, t) && SameEngine(s, t)
    ensures var (recovered, rest) := FecDecoding.WindowDecode(rx, ds, ss, c, pkt, now);
      TracksDecoder(rest, |recovered|, t)
  {
    var id := FecPackets.SeqId(pkt);
    match FecDecoding.Scan(rx, id)
    case None =>
      t := s;
      ReachSelf(pick, s);
    case Some(at) =>
      var q := rx[..at] + [FecDecoding.Element(pkt, now)] + rx[at..];
      var begin, from := FecDecoding.Begin(id, ss), FecDecoding.SearchBegin(at, id, ss);
      var m := StorePacketSimulated(pick, s, at);
      var n := SearchSimulated(pick, q, begin, from, ds, ss, c, m);
      var (recovered, kept) := FecDecoding.Searched(q, begin, from, ds, ss, c);
      t := TrimSimulated(pick, kept, |recovered|, ss, now, n);
      ReachThen(pick, s, m, n);
      ReachThen(pick, s, n, t);
  }

  /** Every packet given to the decoder is a sequence of buffer operations, also when it changes its sizes. */
  lemma DecodeSimulated(pick: Pick, d: FecTuning.Decoder, make: FecTuning.Maker, pkt: FecDecoding.Packet, now: u32,
                        s: Pooled)
    returns (t: Pooled)
    requires FecTuning.Usable(d.sizes) && TracksDecoder(d.rx, 0, s)
    ensures Reach(pick, s, t) && SameEngine(s, t)
    ensures var (recovered, e) := FecTuning.TunedDecode(d, make, pkt, now); TracksDecoder(e.rx, |recovered|, t)
  {
    match FecTuning.Tuned(d.sizes, FecTuning.SampledPacket(d.pulses, pkt), make, pkt)
    case None =>
      t := s;
      ReachSelf(pick, s);
    case Some(z) =>
      t := WindowSimulated(pick, d.rx, z.ds, FecTuning.Width(z), z.codec, pkt, now, s);
  }

  // ----- every run of a session -----

  /** An engine and a decoder on one pool; `recovered` shards have not been given back yet. */
  datatype Session = Session(k: Kcp, dec: FecTuning.Decoder, recovered: nat)

  datatype SessionCall =
    | EngineCall(c: KcpLaws.Call)
    | DecodeCall(pkt: FecDecoding.Packet, now: u32)
    | ReturnCall

  ghost predicate SessionStep(make: FecTuning.Maker, s: Session, call: SessionCall, t: Session) {
    && s.k.cfg.mss > 0 && FecTuning.Usable(s.dec.sizes)
    && match call
       case EngineCall(e) => t == s.(k := KcpLaws.Apply(s.k, e))
       case DecodeCall(pkt, now) =>
         && s.recovered == 0
         && var (recovered, dec) := FecTuning.TunedDecode(s.dec, make, pkt, now);
            t == s.(dec := dec, recovered := |recovered|)
       case ReturnCall => t == s.(recovered := 0)
  }

  ghost predicate TracksSession(s: Session, p: Pooled) {
    Tracks(s.k, p) && TracksDecoder(s.dec.rx, s.recovered, p)
  }

  lemma StepSimulated(pick: Pick, make: FecTuning.Maker, s: Session, call: SessionCall, t: Session, p: Pooled)
    returns (q: Pooled)
    requires SessionStep(make, s, call, t) && Inv(s.k) && TracksSession(s, p)
    ensures Reach(pick, p, q) && TracksSession(t, q) && Inv(t.k)
  {
    match call
    case EngineCall(e) =>
      KcpLaws.ApplyInv(s.k, e);
      q := CallSimulated(pick, s.k, e, p);
    case DecodeCall(pkt, now) =>
      q := DecodeSimulated(pick, s.dec, make, pkt, now, p);
    case ReturnCall =>
      q := p.(free := p.free + Owned(p.shards), shards := []);
      ReachSelf(pick, p);
      assert Next(p, ReturnShards, q);
      ReachNext(pick, p, p, ReturnShards, q);
  }

  ghost predicate IsSession(make: FecTuning.Maker, run: seq<Session>, calls: seq<SessionCall>) {
    && |run| == |calls| + 1
    && forall i :: 0 <= i < |calls| ==> SessionStep(make, run[i], calls[i], run[i + 1])
  }

  /**
   Over every run of a session that starts empty, and whatever buffers the pool
   hands out, the pool can be followed along: every queued or received segment,
   every unacknowledged one in flight, every stored packet and every shard being
   handed over owns a buffer, an acknowledged segment owns none, and every buffer
   is in exactly one place.
   */
  lemma {:induction false} SessionSimulated(pick: Pick, make: FecTuning.Maker, run: seq<Session>,
                                            calls: seq<SessionCall>, i: nat)
    returns (p: Pooled)
    requires IsSession(make, run, calls) && i < |run| && Inv(run[0].k) && TracksSession(run[0], EMPTY)
    ensures Reach(pick, EMPTY, p) && TracksSession(run[i], p) && OneOwner(p)
  {
    p := EMPTY;
    ReachSelf(pick, p);
    for j := 0 to i
      invariant Inv(run[j].k) && Reach(pick, EMPTY, p) && TracksSession(run[j], p)
    {
      var q := StepSimulated(pick, make, run[j], calls[j], run[j + 1], p);
      ReachThen(pick, EMPTY, p, q);
      p := q;
    }
    EmptyOwns();
    ReachOwns(pick, EMPTY, p);
  }

  // ----- every history of the pool -----

  lemma {:induction false} GetsGrow(run: seq<Pooled>, ops: seq<Op>, i: nat, j: nat)
    requires BufferPool.IsRun(run, ops) && i <= j <= |ops|
    ensures run[i].gets <= run[j].gets
  {
    for n := i to j
      invariant run[i].gets <= run[n].gets
    {
      assert Next(run[n], ops[n], run[n + 1]);
    }
  }

  /** A state in which a buffer is taken does not come again. */
  lemma TakesOnce(run: seq<Pooled>, ops: seq<Op>, i: nat, j: nat)
    requires BufferPool.IsRun(run, ops) && i < |ops| && j < |ops| && Takes(ops[i]) && Takes(ops[j]) && run[i] == run[j]
    ensures i == j
  {
    assert Next(run[i], ops[i], run[i + 1]) && Next(run[j], ops[j], run[j + 1]);
    if i < j {
      GetsGrow(run, ops, i + 1, j);
    } else if j < i {
      GetsGrow(run, ops, j + 1, i);
    }
  }

  /** The buffer a history takes in state `s`, if it comes there. */
  ghost function TakenIn(run: seq<Pooled>, ops: seq<Op>, s: Pooled): (b: Buffer)
    requires |run| == |ops| + 1
    ensures Gettable(s, b)
  {
    if i :| 0 <= i < |ops| && run[i] == s && Takes(ops[i]) && Gettable(s, ops[i].b) then ops[i].b else s.made
  }

  /** Every history of the pool is the work of some pick; so the results above leave none out. */
  lemma EveryHistoryIsPicked(run: seq<Pooled>, ops: seq<Op>) returns (pick: Pick)
    requires BufferPool.IsRun(run, ops)
    ensures IsPath(pick, run, ops, EMPTY, run[|ops|])
  {
    pick := (s: Pooled) => TakenIn(run, ops, s);
    forall i | 0 <= i < |ops| ensures Next(run[i], ops[i], run[i + 1]) && Follows(pick, run[i], ops[i]) {
      assert Next(run[i], ops[i], run[i + 1]);
      if Takes(ops[i]) {
        var s := run[i];
        var j :| && 0 <= j < |ops| && run[j] == s && Takes(ops[j]) && Gettable(s, ops[j].b)
                 && ops[j].b == TakenIn(run, ops, s);
        TakesOnce(run, ops, i, j);
      }
    }
  }
}
