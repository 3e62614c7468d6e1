/**
 Two endpoints and a network between them that drops, duplicates, reorders and
 delays datagrams. In every reachable state each side has read exactly a prefix
 of the messages the other side wrote, and nothing is given up before it has
 arrived (network/kcp/kcp.go:233-357, 462-521, 537-648, 793-818).

 A packet once sent stays in the set for ever: never delivering it is loss,
 delivering it again is duplication, delivering it later is delay. A delivery
 is subject only to `Timely`: fewer than AGE sequence numbers went by meanwhile.
 */
module Network {
  import opened Serial
  import opened Wire
  import opened Segments
  import opened KcpSpec
  import opened KcpInvariant
  import opened Delivery
  import opened DeliverySteps
  import opened Endpoints
  import ReceiveWindow
  import Fragmentation
  import KcpLaws

  datatype Event =
    | WriteEvent(data: seq<byte>)
    | ReadEvent(capacity: nat)
    | FlushEvent(ackOnly: bool, now: u32)
    | UpdateEvent(now: u32)
    | DeliverEvent(p: Packet, regular: bool, ackNoDelay: bool, now: u32)

  datatype Moved = Moved(e: Endpoint, out: set<Packet>)

  datatype System = System(a: Endpoint, b: Endpoint, ab: set<Packet>, ba: set<Packet>)

  // ----- what one event does to an endpoint -----

  function Write(e: Endpoint, data: seq<byte>): Endpoint
    requires e.k.cfg.mss > 0
  {
    var r := Send(e.k, data);
    if r.0 == 0
    then e.(k := r.1, sent := e.sent + Fragmentation.Fragments(data, e.k.cfg.mss, false), written := e.written + [data])
    else e.(k := r.1)
  }

  function Read(e: Endpoint, capacity: nat): Endpoint {
    var (r, k) := Recv(e.k, capacity);
    if r.code < 0 then e.(k := k)
    else
      var q := Popped(RcvOf(e), ReceiveWindow.MessageLength(e.k.rcv.queue));
      e.(k := k, nxt := q.nxt, got := q.log, read := e.read + [r.data])
  }

  ghost function Flushed(e: Endpoint, k0: Kcp, ackOnly: bool, now: u32): Moved {
    Moved(Flushing(e, k0, ackOnly, now), Packets(k0, e.una, e.nxt, ackOnly, now))
  }

  function Ticked(k: Kcp, now: u32): Kcp {
    k.(updated := true, tsFlush := if Due(k, now) then NextFlushTime(k, now) else FlushTime(k, now))
  }

  /** The end of `Input`, in the state its loop leaves. */
  ghost function Answer(x: Walk, k0: Kcp, ackNoDelay: bool, now: u32): Moved {
    if x.slides then Flushed(x.e, k0, false, now)
    else if ackNoDelay && k0.acks != [] then Flushed(x.e, k0, true, now)
    else Moved(x.e.(k := k0), {})
  }

  ghost function Deliver(e: Endpoint, p: Packet, regular: bool, ackNoDelay: bool, now: u32): Moved
    requires e.k.cfg.mss > 0
  {
    if |p.data| < OVERHEAD then Moved(e, {})
    else
      var parsed := Parse(p.data, e.k.cfg.conv);
      var x := StepAll(Walk(e, false, 0, false), parsed.segs, regular);
      StepAllFollows(Walk(e, false, 0, false), parsed.segs, regular);
      ProcessAllConfig(Feed(e.k, false, 0, false), parsed.segs, regular);
      match parsed.ending
      case Foreign => Moved(x.e, {})
      case Truncated => Moved(x.e, {})
      case Unknown(w) => Moved(Step(x, w, regular).e, {})
      case Exhausted => Answer(x, OpenWindow(Sample(FeedOf(x), regular, now), e.k.snd.una), ackNoDelay, now)
  }

  ghost function Local(e: Endpoint, ev: Event): Moved
    requires e.k.cfg.mss > 0
  {
    match ev
    case WriteEvent(data) => Moved(Write(e, data), {})
    case ReadEvent(capacity) => Moved(Read(e, capacity), {})
    case FlushEvent(ackOnly, now) => Flushed(e, e.k, ackOnly, now)
    case UpdateEvent(now) =>
      if Due(e.k, now) then Flushed(e, Ticked(e.k, now), false, now) else Moved(e.(k := Ticked(e.k, now)), {})
    case DeliverEvent(p, regular, ackNoDelay, now) => Deliver(e, p, regular, ackNoDelay, now)
  }

  /** The call of KcpSpec an event stands for. */
  function CallOf(ev: Event): KcpLaws.Call {
    match ev
    case WriteEvent(data) => KcpLaws.SendCall(data)
    case ReadEvent(capacity) => KcpLaws.RecvCall(capacity)
    case FlushEvent(ackOnly, now) => KcpLaws.FlushCall(ackOnly, now)
    case UpdateEvent(now) => KcpLaws.UpdateCall(now)
    case DeliverEvent(p, regular, ackNoDelay, now) => KcpLaws.InputCall(p.data, regular, ackNoDelay, now)
  }

  lemma {:induction false} UnknownOnlySettles(data: seq<byte>, conv: u32, w: WireSegment)
    requires Parse(data, conv).ending == Unknown(w)
    ensures !Known(w.cmd)
    decreases |data|
  {
    var length, rest := LengthOf(data), data[OVERHEAD..];
    if Known(HeaderOf(data).cmd) {
      UnknownOnlySettles(rest[length..], conv, w);
    }
  }

  lemma DeliverFollowsInput(e: Endpoint, p: Packet, regular: bool, ackNoDelay: bool, now: u32)
    requires e.k.cfg.mss > 0
    ensures Deliver(e, p, regular, ackNoDelay, now).e.k == Input(e.k, p.data, regular, ackNoDelay, now).k
  {
    if |p.data| >= OVERHEAD {
      var parsed := Parse(p.data, e.k.cfg.conv);
      var start := Walk(e, false, 0, false);
      var x := StepAll(start, parsed.segs, regular);
      StepAllFollows(start, parsed.segs, regular);
      ProcessAllConfig(FeedOf(start), parsed.segs, regular);
      match parsed.ending
      case Unknown(w) =>
        UnknownOnlySettles(p.data, e.k.cfg.conv, w);
      case _ =>
    }
  }

  /** The history never disturbs the engine: every event is exactly the call it stands for. */
  lemma LocalFollowsSpec(e: Endpoint, ev: Event)
    requires e.k.cfg.mss > 0
    ensures Local(e, ev).e.k == KcpLaws.Apply(e.k, CallOf(ev))
  {
    match ev
    case DeliverEvent(p, regular, ackNoDelay, now) =>
      DeliverFollowsInput(e, p, regular, ackNoDelay, now);
    case _ =>
  }

  // ----- the system -----

  function Swap(s: System): System {
    System(s.b, s.a, s.ba, s.ab)
  }

  ghost predicate NextAtA(s: System, ev: Event, t: System) {
    && s.a.k.cfg.mss > 0
    && (ev.DeliverEvent? ==> ev.p in s.ba && Timely(s.a, ev.p.una, ev.p.nxt))
    && var m := Local(s.a, ev); t == System(m.e, s.b, s.ab + m.out, s.ba)
  }

  /** Which endpoint an event happens at. */
  datatype Turn = Turn(atA: bool, ev: Event)

  ghost predicate Next(s: System, turn: Turn, t: System) {
    if turn.atA then NextAtA(s, turn.ev, t) else NextAtA(Swap(s), turn.ev, Swap(t))
  }

  /** A fresh message-mode endpoint with any configuration `Inv` allows. */
  ghost predicate Begins(e: Endpoint) {
    && Inv(e.k) && e.k.cfg.stream == 0
    && e.k.snd == Sender(0, 0, [], []) && e.k.rcv == Receiver(0, e.k.rcv.wnd, [], []) && e.k.acks == []
    && e == Endpoint(e.k, 0, 0, 0, [], [], [], [])
  }

  ghost predicate Initial(s: System) {
    Begins(s.a) && Begins(s.b) && s.a.k.cfg.conv == s.b.k.cfg.conv && s.ab == {} && s.ba == {}
  }

  ghost predicate IsRun(run: seq<System>, turns: seq<Turn>) {
    && |run| == |turns| + 1 && Initial(run[0])
    && forall i :: 0 <= i < |turns| ==> Next(run[i], turns[i], run[i + 1])
  }

  // ----- the invariant -----

  ghost predicate Fit(e: Endpoint) {
    Inv(e.k) && e.k.cfg.stream == 0
  }

  /** The messages written by `a` and read by `b`. */
  ghost predicate Messages(a: Endpoint, b: Endpoint) {
    && a.k.cfg.mss > 0
    && Fragmentation.Transportable(a.written, a.k.cfg.mss)
    && a.sent == Fragmentation.AllFragments(a.written, a.k.cfg.mss)
    && b.read <= a.written
    && Readable(RcvOf(b), Fragmentation.AllFragments(b.read, a.k.cfg.mss))
  }

  /** The direction from `a` to `b`, and everything `a` has put on the wire. */
  ghost predicate Half(a: Endpoint, b: Endpoint, ab: set<Packet>) {
    && Link(SndOf(a), RcvOf(b)) && Messages(a, b)
    && forall p :: p in ab ==> Carried(a, p)
  }

  ghost predicate Ok(s: System) {
    && Fit(s.a) && Fit(s.b) && s.a.k.cfg.conv == s.b.k.cfg.conv
    && Half(s.a, s.b, s.ab) && Half(s.b, s.a, s.ba)
  }

  lemma InitialOk(s: System)
    requires Initial(s)
    ensures Ok(s)
  {
  }

  /** What a step at `a` must establish: both links, growth, and the truth of what it emits. */
  ghost predicate Moves(a: Endpoint, m: Moved, b: Endpoint) {
    && Link(SndOf(m.e), RcvOf(b)) && SenderGrows(SndOf(a), SndOf(m.e))
    && Link(SndOf(b), RcvOf(m.e)) && ReceiverGrows(RcvOf(a), RcvOf(m.e))
    && m.e.k.cfg == a.k.cfg
    && forall p :: p in m.out ==> Carried(m.e, p)
  }

  /** Messages are untouched by a step that neither writes nor reads. */
  ghost predicate Quiet(a: Endpoint, m: Moved) {
    && m.e.sent == a.sent && m.e.written == a.written && m.e.read == a.read
    && forall base :: Readable(RcvOf(a), base) ==> Readable(RcvOf(m.e), base)
  }

  // ----- flushes -----

  lemma FlushedMoves(a: Endpoint, k0: Kcp, ackOnly: bool, now: u32, b: Endpoint)
    requires SameBuffers(a, k0) && Link(SndOf(a), RcvOf(b)) && Link(SndOf(b), RcvOf(a))
    ensures Moves(a, Flushed(a, k0, ackOnly, now), b) && Quiet(a, Flushed(a, k0, ackOnly, now))
  {
    var m := Flushed(a, k0, ackOnly, now);
    FlushingSides(a, k0, ackOnly, now);
    FlushingLinks(a, k0, ackOnly, now, SndOf(b), RcvOf(b));
    forall p | p in m.out ensures Carried(m.e, p) {
      FlushingCarried(a, k0, ackOnly, now, SndOf(b), RcvOf(b), p);
    }
  }

  lemma UpdateMoves(a: Endpoint, now: u32, b: Endpoint)
    requires Fit(a) && Link(SndOf(a), RcvOf(b)) && Link(SndOf(b), RcvOf(a))
    ensures Moves(a, Local(a, UpdateEvent(now)), b) && Quiet(a, Local(a, UpdateEvent(now)))
  {
    SameQueues(a.k, Ticked(a.k, now));
    FlushedMoves(a, Ticked(a.k, now), false, now, b);
  }

  // ----- a packet arrives -----

  lemma MovesThen(a: Endpoint, c: Endpoint, m: Moved, b: Endpoint)
    requires Moves(c, m, b) && Quiet(c, m) && c.k.cfg == a.k.cfg
    requires SenderGrows(SndOf(a), SndOf(c)) && ReceiverGrows(RcvOf(a), RcvOf(c)) && Quiet(a, Moved(c, {}))
    ensures Moves(a, m, b) && Quiet(a, m)
  {
  }

  lemma AnswerMoves(x: Walk, k0: Kcp, ackNoDelay: bool, now: u32, b: Endpoint)
    requires SameBuffers(x.e, k0) && Link(SndOf(x.e), RcvOf(b)) && Link(SndOf(b), RcvOf(x.e))
    ensures Moves(x.e, Answer(x, k0, ackNoDelay, now), b) && Quiet(x.e, Answer(x, k0, ackNoDelay, now))
  {
    FlushedMoves(x.e, k0, false, now, b);
    FlushedMoves(x.e, k0, true, now, b);
  }

  /** The loop of `Input` on a timely packet of the peer. */
  lemma {:induction false} WalkMoves(a: Endpoint, p: Packet, regular: bool, b: Endpoint)
    requires Fit(a) && Link(SndOf(a), RcvOf(b)) && Link(SndOf(b), RcvOf(a))
    requires Carried(b, p) && b.k.cfg.conv == a.k.cfg.conv && Timely(a, p.una, p.nxt)
    ensures var x := StepAll(Walk(a, false, 0, false), Parse(p.data, a.k.cfg.conv).segs, regular);
      && Moves(a, Moved(x.e, {}), b) && Quiet(a, Moved(x.e, {})) && Inv(x.e.k)
  {
    var ws := Parse(p.data, a.k.cfg.conv).segs;
    var start := Walk(a, false, 0, false);
    var x := StepAll(start, ws, regular);
    StepAllFollows(start, ws, regular);
    ProcessAllInv(FeedOf(start), ws, regular);
    StepAllOnly(start, ws, regular);
    StepAllLinks(start, ws, regular, SndOf(b), RcvOf(b), p.una, p.nxt);
    forall base | Readable(RcvOf(a), base) ensures Readable(RcvOf(x.e), base) {
      StepAllReadable(start, ws, regular, base);
    }
  }

  /** Where the loop and the answer of `Input` have led. */
  lemma AnsweredMoves(a: Endpoint, x: Walk, regular: bool, ackNoDelay: bool, now: u32, b: Endpoint, m: Moved)
    requires Moves(a, Moved(x.e, {}), b) && Quiet(a, Moved(x.e, {})) && Inv(x.e.k) && a.k.cfg.mss > 0
    requires m == Answer(x, OpenWindow(Sample(FeedOf(x), regular, now), a.k.snd.una), ackNoDelay, now)
    ensures Moves(a, m, b) && Quiet(a, m)
  {
    var k0 := OpenWindow(Sample(FeedOf(x), regular, now), a.k.snd.una);
    SampleOpenInv(FeedOf(x), regular, now, a.k.snd.una);
    AnswerMoves(x, k0, ackNoDelay, now, b);
    MovesThen(a, x.e, m, b);
  }

  lemma {:induction false} DeliverIs(a: Endpoint, p: Packet, regular: bool, ackNoDelay: bool, now: u32)
    requires a.k.cfg.mss > 0 && |p.data| >= OVERHEAD && Parse(p.data, a.k.cfg.conv).ending == Exhausted
    ensures var x := StepAll(Walk(a, false, 0, false), Parse(p.data, a.k.cfg.conv).segs, regular);
      && x.e.k.cfg == a.k.cfg
      && Deliver(a, p, regular, ackNoDelay, now)
         == Answer(x, OpenWindow(Sample(FeedOf(x), regular, now), a.k.snd.una), ackNoDelay, now)
  {
    StepAllFollows(Walk(a, false, 0, false), Parse(p.data, a.k.cfg.conv).segs, regular);
    ProcessAllConfig(Feed(a.k, false, 0, false), Parse(p.data, a.k.cfg.conv).segs, regular);
  }

  /** A timely packet of the peer, whatever it carries, keeps both directions. */
  lemma DeliverMoves(a: Endpoint, p: Packet, regular: bool, ackNoDelay: bool, now: u32, b: Endpoint)
    requires Fit(a) && Link(SndOf(a), RcvOf(b)) && Link(SndOf(b), RcvOf(a))
    requires Carried(b, p) && b.k.cfg.conv == a.k.cfg.conv && Timely(a, p.una, p.nxt)
    ensures Moves(a, Deliver(a, p, regular, ackNoDelay, now), b)
    ensures Quiet(a, Deliver(a, p, regular, ackNoDelay, now))
  {
    if |p.data| >= OVERHEAD {
      var ws := Parse(p.data, a.k.cfg.conv).segs;
      var x := StepAll(Walk(a, false, 0, false), ws, regular);
      WalkMoves(a, p, regular, b);
      DeliverIs(a, p, regular, ackNoDelay, now);
      AnsweredMoves(a, x, regular, ackNoDelay, now, b, Deliver(a, p, regular, ackNoDelay, now));
    }
  }

  // ----- writing -----

  lemma WriteMoves(a: Endpoint, data: seq<byte>, b: Endpoint)
    requires Fit(a) && Link(SndOf(a), RcvOf(b)) && Link(SndOf(b), RcvOf(a))
    ensures Moves(a, Moved(Write(a, data), {}), b)
    ensures Write(a, data).read == a.read && RcvOf(Write(a, data)) == RcvOf(a)
  {
    var mss := a.k.cfg.mss;
    if Send(a.k, data).0 == 0 {
      assert data[0..] == data;
      assert SndOf(Write(a, data)) == Extended(SndOf(a), data, mss);
      SendKeepsLink(SndOf(a), RcvOf(b), data, mss);
    }
  }

  lemma WriteMessages(a: Endpoint, data: seq<byte>, b: Endpoint)
    requires Fit(a) && Messages(a, b)
    ensures Messages(Write(a, data), b)
  {
    var mss := a.k.cfg.mss;
    if Send(a.k, data).0 == 0 {
      Fragmentation.AllFragmentsAppend(a.written, data, mss);
    }
  }

  // ----- reading -----

  /** Taking `n` segments off the queue moves their fragments from the readable to the read. */
  lemma PoppedReadable(r: ReceiveSide, n: nat, base: seq<Fragment>)
    requires Readable(r, base) && n <= |r.rcv.queue|
    ensures Readable(Popped(r, n), base + Fragmentation.FragmentsOf(r.rcv.queue[..n]))
  {
  }

  lemma PrefixCancels<T>(base: seq<T>, xs: seq<T>, ys: seq<T>)
    requires base + xs <= base + ys
    ensures xs <= ys
  {
    assert (base + xs)[|base|..] == xs && (base + ys)[|base|..] == ys;
    forall i | 0 <= i < |xs| ensures xs[i] == ys[i] {
      assert (base + xs)[|base| + i] == (base + ys)[|base| + i];
    }
  }

  /** The unread queue is a prefix of the fragments of the unread messages. */
  lemma UnreadQueue(b: Endpoint, a: Endpoint)
    requires Messages(b, a) && ReceiverLogged(SndOf(b), RcvOf(a))
    ensures Fragmentation.FragmentsOf(a.k.rcv.queue)
      <= Fragmentation.AllFragments(b.written[|a.read|..], b.k.cfg.mss)
  {
    var mss := b.k.cfg.mss;
    var rest := b.written[|a.read|..];
    assert b.written == a.read + rest;
    Fragmentation.AllFragmentsConcat(a.read, rest, mss);
    var base, fs := Fragmentation.AllFragments(a.read, mss), Fragmentation.FragmentsOf(a.k.rcv.queue);
    assert base + fs <= base + Fragmentation.AllFragments(rest, mss);
    PrefixCancels(base, fs, Fragmentation.AllFragments(rest, mss));
  }

  lemma {:induction false} HeadIsMessage(queue: seq<Segment>, msgs: seq<seq<byte>>, mss: nat)
    requires mss > 0 && msgs != [] && Fragmentation.Transportable(msgs, mss)
    requires Fragmentation.FragmentsOf(queue) <= Fragmentation.AllFragments(msgs, mss)
    requires Fragmentation.Pieces(|msgs[0]|, mss) <= |queue|
    ensures Fragmentation.FragmentsOf(queue[..Fragmentation.Pieces(|msgs[0]|, mss)])
      == Fragmentation.Fragments(msgs[0], mss, false)
  {
    Fragmentation.HeadFragments(queue, msgs, mss);
  }

  /** What `Recv` returns is the next unread message, and it takes exactly the message's fragments. */
  lemma ReadTakes(b: Endpoint, a: Endpoint, capacity: nat)
    requires Messages(b, a) && ReceiverLogged(SndOf(b), RcvOf(a)) && Recv(a.k, capacity).0.code >= 0
    ensures var rest, n := b.written[|a.read|..], ReceiveWindow.MessageLength(a.k.rcv.queue);
      && rest != [] && Recv(a.k, capacity).0.data == rest[0]
      && Fragmentation.FragmentsOf(a.k.rcv.queue[..n]) == Fragmentation.Fragments(rest[0], b.k.cfg.mss, false)
  {
    var rest := b.written[|a.read|..];
    UnreadQueue(b, a);
    assert Fragmentation.Transportable(rest, b.k.cfg.mss);
    Fragmentation.NextMessage(a.k.rcv.queue, rest, b.k.cfg.mss);
    HeadIsMessage(a.k.rcv.queue, rest, b.k.cfg.mss);
  }

  lemma PrefixExtends<T>(xs: seq<T>, ys: seq<T>)
    requires xs <= ys && |xs| < |ys|
    ensures ys[|xs|..][0] == ys[|xs|] && xs + [ys[|xs|]] <= ys
  {
  }

  /** Reading keeps what was read a prefix of what was written, and the rest accounted for. */
  lemma ReadMessages(b: Endpoint, a: Endpoint, capacity: nat)
    requires Messages(b, a) && ReceiverLogged(SndOf(b), RcvOf(a))
    ensures Messages(b, Read(a, capacity))
  {
    var mss := b.k.cfg.mss;
    if Recv(a.k, capacity).0.code >= 0 {
      ReadTakes(b, a, capacity);
      var m := b.written[|a.read|..][0];
      PrefixExtends(a.read, b.written);
      PoppedReadable(
        RcvOf(a), ReceiveWindow.MessageLength(a.k.rcv.queue), Fragmentation.AllFragments(a.read, mss));
      Fragmentation.AllFragmentsAppend(a.read, m, mss);
      assert Read(a, capacity).read == a.read + [m];
    }
  }

  lemma ReadMoves(a: Endpoint, capacity: nat, b: Endpoint)
    requires Link(SndOf(a), RcvOf(b)) && Link(SndOf(b), RcvOf(a))
    ensures Moves(a, Moved(Read(a, capacity), {}), b) && SndOf(Read(a, capacity)) == SndOf(a)
    ensures Read(a, capacity).written == a.written
  {
    if Recv(a.k, capacity).0.code >= 0 {
      var n := ReceiveWindow.MessageLength(a.k.rcv.queue);
      assert RcvOf(Read(a, capacity)) == Popped(RcvOf(a), n);
      RecvKeepsLink(SndOf(b), RcvOf(a), n);
    }
  }

  // ----- every event -----

  lemma QuietMessages(a: Endpoint, m: Moved, b: Endpoint)
    requires Messages(a, b) && Messages(b, a)
    requires Quiet(a, m) && m.e.k.cfg == a.k.cfg
    ensures Messages(m.e, b) && Messages(b, m.e)
  {
  }

  /** What every event at `a` needs of the two directions. */
  ghost predicate Joined(a: Endpoint, b: Endpoint) {
    && Fit(a) && Fit(b) && b.k.cfg.conv == a.k.cfg.conv
    && Link(SndOf(a), RcvOf(b)) && Link(SndOf(b), RcvOf(a))
    && Messages(a, b) && Messages(b, a)
  }

  ghost predicate Goes(a: Endpoint, m: Moved, b: Endpoint) {
    Moves(a, m, b) && Messages(m.e, b) && Messages(b, m.e)
  }

  lemma QuietGoes(a: Endpoint, m: Moved, b: Endpoint)
    requires Joined(a, b) && Moves(a, m, b) && Quiet(a, m)
    ensures Goes(a, m, b)
  {
    QuietMessages(a, m, b);
  }

  lemma WriteGoes(a: Endpoint, data: seq<byte>, b: Endpoint)
    requires Joined(a, b)
    ensures Goes(a, Moved(Write(a, data), {}), b)
  {
    WriteMoves(a, data, b);
    WriteMessages(a, data, b);
  }

  lemma ReadGoes(a: Endpoint, capacity: nat, b: Endpoint)
    requires Joined(a, b)
    ensures Goes(a, Moved(Read(a, capacity), {}), b)
  {
    ReadMoves(a, capacity, b);
    ReadMessages(b, a, capacity);
  }

  lemma FlushGoes(a: Endpoint, ackOnly: bool, now: u32, m: Moved, b: Endpoint)
    requires Joined(a, b) && m == Flushed(a, a.k, ackOnly, now)
    ensures Goes(a, m, b)
  {
    FlushedMoves(a, a.k, ackOnly, now, b);
    QuietGoes(a, m, b);
  }

  lemma UpdateGoes(a: Endpoint, now: u32, m: Moved, b: Endpoint)
    requires Joined(a, b) && m == Local(a, UpdateEvent(now))
    ensures Goes(a, m, b)
  {
    UpdateMoves(a, now, b);
    QuietGoes(a, m, b);
  }

  lemma DeliverGoes(a: Endpoint, p: Packet, regular: bool, ackNoDelay: bool, now: u32, m: Moved, b: Endpoint)
    requires Joined(a, b) && Carried(b, p) && Timely(a, p.una, p.nxt)
    requires m == Deliver(a, p, regular, ackNoDelay, now)
    ensures Goes(a, m, b)
  {
    DeliverMoves(a, p, regular, ackNoDelay, now, b);
    QuietGoes(a, m, b);
  }

  lemma LocalMoves(a: Endpoint, ev: Event, m: Moved, b: Endpoint)
    requires Joined(a, b) && m == Local(a, ev)
    requires ev.DeliverEvent? ==> Carried(b, ev.p) && Timely(a, ev.p.una, ev.p.nxt)
    ensures Goes(a, m, b)
  {
    match ev
    case WriteEvent(data) => WriteGoes(a, data, b);
    case ReadEvent(capacity) => ReadGoes(a, capacity, b);
    case FlushEvent(ackOnly, now) => FlushGoes(a, ackOnly, now, m, b);
    case UpdateEvent(now) => UpdateGoes(a, now, m, b);
    case DeliverEvent(p, regular, ackNoDelay, now) => DeliverGoes(a, p, regular, ackNoDelay, now, m, b);
  }

  lemma LocalInv(a: Endpoint, ev: Event)
    requires Inv(a.k)
    ensures Inv(Local(a, ev).e.k)
  {
    LocalFollowsSpec(a, ev);
    match ev
    case WriteEvent(data) => SendInv(a.k, data);
    case ReadEvent(capacity) => RecvInv(a.k, capacity);
    case FlushEvent(ackOnly, now) => FlushInv(a.k, ackOnly, now);
    case UpdateEvent(now) => UpdateInv(a.k, now);
    case DeliverEvent(p, regular, ackNoDelay, now) => InputInv(a.k, p.data, regular, ackNoDelay, now);
  }

  lemma NextAtAKeeps(s: System, ev: Event, t: System)
    requires Ok(s) && NextAtA(s, ev, t)
    ensures Ok(t) && t.a.k.cfg == s.a.k.cfg && t.b == s.b
  {
    LocalMoves(s.a, ev, Local(s.a, ev), s.b);
    LocalInv(s.a, ev);
    forall p | p in t.ab ensures Carried(t.a, p) {
      if p in s.ab {
        CarriedGrows(s.a, t.a, p);
      }
    }
  }

  lemma NextKeeps(s: System, turn: Turn, t: System)
    requires Ok(s) && Next(s, turn, t)
    ensures Ok(t) && t.a.k.cfg == s.a.k.cfg && t.b.k.cfg == s.b.k.cfg
  {
    if turn.atA {
      NextAtAKeeps(s, turn.ev, t);
    } else {
      assert Ok(Swap(s));
      NextAtAKeeps(Swap(s), turn.ev, Swap(t));
    }
  }

  lemma RunNext(run: seq<System>, turns: seq<Turn>, i: nat)
    requires IsRun(run, turns) && i < |turns| && Ok(run[i])
    ensures Ok(run[i + 1])
  {
    NextKeeps(run[i], turns[i], run[i + 1]);
  }

  lemma {:induction false} RunOk(run: seq<System>, turns: seq<Turn>, i: nat)
    requires IsRun(run, turns) && i < |run|
    ensures Ok(run[i])
  {
    InitialOk(run[0]);
    for j := 0 to i
      invariant Ok(run[j])
    {
      RunNext(run, turns, j);
    }
  }

  // ----- the guarantees -----

  /** What one direction promises: from the writer `a` to the reader `b`. */
  ghost predicate Delivers(a: Endpoint, b: Endpoint) {
    && b.read <= a.written
    && b.nxt <= |a.sent| && b.got == a.sent[..b.nxt]
    && a.una <= b.nxt
    && forall i :: 0 <= i < |a.k.snd.buf| && a.k.snd.buf[i].acked ==> Has(RcvOf(b), a.una + i)
  }

  lemma HalfDelivers(a: Endpoint, b: Endpoint, ab: set<Packet>)
    requires Half(a, b, ab)
    ensures Delivers(a, b)
  {
  }

  /**
   Exactly-once, in-order delivery in both directions. In every state of every
   run, whatever was dropped, repeated, reordered or delayed: the messages read
   are a prefix of the messages written; the fragments ever made readable are
   the first `RcvNxt` fragments queued, each once and in order; and a fragment
   leaves the send buffer or is marked acknowledged only after it has arrived.
   */
  lemma ExactlyOnceInOrder(run: seq<System>, turns: seq<Turn>, i: nat)
    requires IsRun(run, turns) && i < |run|
    ensures Delivers(run[i].a, run[i].b) && Delivers(run[i].b, run[i].a)
  {
    RunOk(run, turns, i);
    HalfDelivers(run[i].a, run[i].b, run[i].ab);
    HalfDelivers(run[i].b, run[i].a, run[i].ba);
  }
}
