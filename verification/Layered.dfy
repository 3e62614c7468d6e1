/**
 The whole stack: two endpoints whose datagrams travel inside the packets of
 the correction layer (network/kcp/udp.go:515-541, 610-715; network/kcp/fec.go:69-391).
 Each side feeds emitted datagrams to its encoder; packets of the encoder arrive
 at the other side in any order, repeated or not at all; what arrives directly or
 is recovered goes to `Input`. Exactly-once in-order delivery holds of it, as it
 does of the bare network.
 */
module Layered {
  import opened Serial
  import opened Wire
  import opened Delivery
  import opened Endpoints
  import opened Network
  import KcpLaws
  import SendWindow
  import FecPackets
  import FecCodec
  import FecEncoding
  import FecDecoding
  import FecRecovery
  import FecDelivery
  import FecStream
  import FecTuning

  /** The settings both sides of the correction layer use. */
  datatype Layer = Layer(ds: nat, ps: nat, c: FecCodec.Codec)

  ghost predicate LayerOk(l: Layer) {
    0 < l.ds && 0 < l.ps && l.ds + l.ps <= 256 && FecCodec.Lawful(l.c, l.ds, l.ps)
  }

  /** An endpoint, the datagrams fed to its encoder so far, and its decoder. */
  datatype Side = Side(e: Endpoint, fed: seq<Packet>, dec: FecDelivery.Receiver)

  /** `ab` and `ba` are the datagrams the two engines have emitted. */
  datatype Stack = Stack(a: Side, b: Side, ab: set<Packet>, ba: set<Packet>)

  /** The engines alone, with a network between them. */
  function Engines(s: Stack): System {
    System(s.a.e, s.b.e, s.ab, s.ba)
  }

  function SwapSides(s: Stack): Stack {
    Stack(s.b, s.a, s.ba, s.ab)
  }

  // ----- what one encoder has made -----

  function Contents(fed: seq<Packet>): (xs: seq<seq<byte>>)
    ensures |xs| == |fed|
  {
    seq(|fed|, i requires 0 <= i < |fed| => fed[i].data)
  }

  function Book(l: Layer, fed: seq<Packet>): FecRecovery.Book
    requires 0 < l.ds && 0 < l.ps && l.ds + l.ps <= 256
  {
    FecStream.BookOf(l.ds, l.ps, l.c, 0, Contents(fed))
  }

  /** The packets the encoder has put on the wire. */
  function OnTheWire(l: Layer, fed: seq<Packet>): seq<seq<byte>>
    requires 0 < l.ds && 0 < l.ps && l.ds + l.ps <= 256
  {
    FecStream.EncodeAll(FecEncoding.Encoder(l.ds, l.ps, 0, []), l.c, Contents(fed)).0
  }

  // ----- the steps -----

  /** The datagram left recently enough, with room for what one arrival can move. */
  ghost predicate InTime(e: Endpoint, p: Packet) {
    e.flushed - p.una <= AGE - SendWindow.LIMIT && e.una - p.nxt <= AGE - SendWindow.LIMIT
  }

  ghost predicate FedTo(fed: seq<Packet>, x: seq<byte>) {
    exists p :: p in fed && p.data == x
  }

  /** What an arriving packet hands to the engine; `b` is the book of the peer's encoder. */
  function Handed(b: FecRecovery.Book, dec: FecDelivery.Receiver, pkt: FecDecoding.Packet, now: u32): seq<seq<byte>>
    requires 0 < b.ds
  {
    if |pkt| < OVERHEAD then []
    else if !FecDelivery.IsFec(pkt) then [pkt]
    else FecDelivery.Fed(pkt, FecDecoding.WindowDecode(dec.rx, b.ds, FecRecovery.Shards(b), b.c, pkt, now).0)
  }

  /** The decoder afterwards. */
  function Decoded(b: FecRecovery.Book, dec: FecDelivery.Receiver, pkt: FecDecoding.Packet, now: u32)
    : FecDelivery.Receiver
    requires 0 < b.ds
  {
    FecDelivery.Arrive(b.ds, FecRecovery.Shards(b), b.c, dec, pkt, now)
  }

  /**
   `carriers` are the datagrams behind the byte strings handed over: if the peer
   fed such a datagram to its encoder at all, it is one of those, and in time.
   */
  ghost predicate Carries(fed: seq<Packet>, e: Endpoint, handed: seq<seq<byte>>, carriers: seq<Packet>) {
    && |carriers| == |handed|
    && forall i :: 0 <= i < |handed| ==>
         carriers[i].data == handed[i] && (FedTo(fed, handed[i]) ==> carriers[i] in fed && InTime(e, carriers[i]))
  }

  /** `Input` on one datagram. */
  ghost function Fed(e: Endpoint, p: Packet, regular: bool, ackNoDelay: bool, now: u32): Moved
    requires e.k.cfg.mss > 0
  {
    Local(e, DeliverEvent(p, regular, ackNoDelay, now))
  }

  lemma DeliverConfig(e: Endpoint, p: Packet, regular: bool, ackNoDelay: bool, now: u32)
    requires e.k.cfg.mss > 0
    ensures Fed(e, p, regular, ackNoDelay, now).e.k.cfg == e.k.cfg
  {
    DeliverFollowsInput(e, p, regular, ackNoDelay, now);
    KcpLaws.InputConfig(e.k, p.data, regular, ackNoDelay, now);
  }

  /** `Input` on one datagram after the other; only the first can be regular. */
  ghost function DeliverAll(e: Endpoint, ps: seq<Packet>, regular: bool, ackNoDelay: bool, now: u32): Moved
    requires e.k.cfg.mss > 0
    decreases |ps|
  {
    if ps == [] then Moved(e, {})
    else
      DeliverConfig(e, ps[0], regular, ackNoDelay, now);
      var m := Fed(e, ps[0], regular, ackNoDelay, now);
      var rest := DeliverAll(m.e, ps[1..], false, ackNoDelay, now);
      Moved(rest.e, m.out + rest.out)
  }

  /**
   A call on an engine; an emitted datagram fed to the encoder; or a packet of
   the peer's encoder arriving, all numbers in play being within SPAN of `low`.
   */
  datatype Move =
    | EngineMove(ev: Event)
    | FeedMove(p: Packet)
    | ArriveMove(pkt: FecDecoding.Packet, low: nat, ackNoDelay: bool, now: u32, carriers: seq<Packet>)

  ghost predicate Arrives(l: Layer, s: Stack, mv: Move)
    requires mv.ArriveMove? && LayerOk(l)
  {
    var b := Book(l, s.b.fed);
    && mv.pkt in OnTheWire(l, s.b.fed)
    && FecDelivery.AllFresh(b, mv.low, s.a.dec.rx) && FecRecovery.Fresh(b, mv.low, mv.pkt)
    && Carries(s.b.fed, s.a.e, Handed(b, s.a.dec, mv.pkt, mv.now), mv.carriers)
  }

  ghost function AfterArrival(l: Layer, s: Stack, mv: Move): Stack
    requires mv.ArriveMove? && LayerOk(l) && s.a.e.k.cfg.mss > 0
  {
    var regular := FecPackets.Flag(mv.pkt) == FecPackets.TYPE_DATA;
    var m := DeliverAll(s.a.e, mv.carriers, regular, mv.ackNoDelay, mv.now);
    s.(a := Side(m.e, s.a.fed, Decoded(Book(l, s.b.fed), s.a.dec, mv.pkt, mv.now)), ab := s.ab + m.out)
  }

  ghost predicate MoveAtA(l: Layer, s: Stack, mv: Move, t: Stack)
    requires LayerOk(l)
  {
    && s.a.e.k.cfg.mss > 0
    && match mv
       case EngineMove(ev) =>
         !ev.DeliverEvent? && var m := Local(s.a.e, ev); t == s.(a := s.a.(e := m.e), ab := s.ab + m.out)
       case FeedMove(p) =>
         p in s.ab && 2 + |p.data| < 0x1_0000 && t == s.(a := s.a.(fed := s.a.fed + [p]))
       case ArriveMove(_, _, _, _, _) =>
         Arrives(l, s, mv) && t == AfterArrival(l, s, mv)
  }

  /** Which side a move is made at. */
  datatype SidedMove = SidedMove(atA: bool, mv: Move)

  ghost predicate NextStack(l: Layer, s: Stack, sm: SidedMove, t: Stack)
    requires LayerOk(l)
  {
    if sm.atA then MoveAtA(l, s, sm.mv, t) else MoveAtA(l, SwapSides(s), sm.mv, SwapSides(t))
  }

  ghost predicate Fresh(x: Side) {
    x.fed == [] && x.dec == FecDelivery.Receiver([], [])
  }

  ghost predicate IsStackRun(l: Layer, run: seq<Stack>, moves: seq<SidedMove>) {
    && LayerOk(l) && |run| == |moves| + 1
    && Initial(Engines(run[0])) && Fresh(run[0].a) && Fresh(run[0].b)
    && forall i :: 0 <= i < |moves| ==> NextStack(l, run[i], moves[i], run[i + 1])
  }

  // ----- the book of what was fed -----

  ghost predicate InGroups(gs: map<nat, seq<seq<byte>>>, x: seq<byte>) {
    exists g :: g in gs && x in gs[g]
  }

  /** The groups hold exactly the contents. */
  lemma {:induction false} GroupsHold(base: nat, ds: nat, ss: nat, xs: seq<seq<byte>>, x: seq<byte>)
    requires 0 < ds <= ss <= 256 && FecStream.Starts(base, ss) && forall y :: y in xs ==> 2 + |y| < 0x1_0000
    ensures x in xs <==> InGroups(FecStream.Groups(base, ds, ss, xs), x)
    decreases |xs|
  {
    if xs != [] {
      var n, next := Min(ds, |xs|), FecStream.NextBase(base, ss);
      var gs, rest := FecStream.Groups(base, ds, ss, xs), FecStream.Groups(next, ds, ss, xs[n..]);
      FecStream.NextStarts(base, ss);
      FecStream.GroupsSane(next, ds, ss, xs[n..]);
      GroupsHold(next, ds, ss, xs[n..], x);
      assert xs == xs[..n] + xs[n..];
      assert gs == rest[base := xs[..n]];
      if x in xs[..n] {
        assert base in gs && x in gs[base];
      } else if x in xs[n..] {
        var g :| g in rest && x in rest[g];
        assert g in gs && gs[g] == rest[g];
      }
    }
  }

  lemma ZeroStarts(ss: nat)
    requires 0 < ss <= 256
    ensures FecStream.Starts(0, ss)
  {
    WrapId(0);
  }

  ghost predicate Small(fed: seq<Packet>) {
    forall p :: p in fed ==> 2 + |p.data| < 0x1_0000
  }

  lemma SmallContents(fed: seq<Packet>)
    requires Small(fed)
    ensures forall y :: y in Contents(fed) ==> 2 + |y| < 0x1_0000
  {
    forall y | y in Contents(fed) ensures 2 + |y| < 0x1_0000 {
      var i :| 0 <= i < |fed| && Contents(fed)[i] == y;
      assert fed[i] in fed;
    }
  }

  lemma FedIsContents(fed: seq<Packet>, x: seq<byte>)
    ensures x in Contents(fed) <==> FedTo(fed, x)
  {
    if FedTo(fed, x) {
      var p :| p in fed && p.data == x;
      var i :| 0 <= i < |fed| && fed[i] == p;
      assert Contents(fed)[i] == x;
    }
    if x in Contents(fed) {
      var i :| 0 <= i < |fed| && Contents(fed)[i] == x;
      assert fed[i] in fed && fed[i].data == x;
    }
  }

  lemma BookMembers(b: FecRecovery.Book, x: seq<byte>)
    ensures FecDelivery.IsContent(b, x) <==> InGroups(b.groups, x)
  {
    if g :| g in b.groups && x in b.groups[g] {
      var k :| 0 <= k < |b.groups[g]| && b.groups[g][k] == x;
      assert FecDelivery.IsContent(b, x);
    }
  }

  lemma ContentOfBook(l: Layer, fed: seq<Packet>, x: seq<byte>)
    requires LayerOk(l) && Small(fed)
    ensures FecDelivery.IsContent(Book(l, fed), x) <==> FedTo(fed, x)
  {
    ZeroStarts(l.ds + l.ps);
    SmallContents(fed);
    GroupsHold(0, l.ds, l.ds + l.ps, Contents(fed), x);
    FedIsContents(fed, x);
    BookMembers(Book(l, fed), x);
  }

  // ----- the invariant -----

  /** What was fed was emitted and can be framed; the peer's decoder holds and has handed over only that. */
  ghost predicate HalfOk(l: Layer, a: Side, b: Side, ab: set<Packet>)
    requires LayerOk(l)
  {
    && Small(a.fed) && (forall p :: p in a.fed ==> p in ab)
    && FecDelivery.Good(Book(l, a.fed), b.dec)
  }

  ghost predicate StackOk(l: Layer, s: Stack)
    requires LayerOk(l)
  {
    Ok(Engines(s)) && HalfOk(l, s.a, s.b, s.ab) && HalfOk(l, s.b, s.a, s.ba)
  }

  lemma BookIsSane(l: Layer, fed: seq<Packet>)
    requires LayerOk(l) && Small(fed)
    ensures FecRecovery.Sane(Book(l, fed))
  {
    ZeroStarts(l.ds + l.ps);
    SmallContents(fed);
    FecStream.BookSane(l.ds, l.ps, l.c, 0, Contents(fed));
  }

  /** Feeding one more datagram keeps what was handed over among the contents. */
  lemma FeedKeeps(l: Layer, fed: seq<Packet>, p: Packet, dec: FecDelivery.Receiver)
    requires LayerOk(l) && FecDelivery.Good(Book(l, fed), dec)
    requires Small(fed + [p])
    ensures FecDelivery.Good(Book(l, fed + [p]), dec)
  {
    assert Small(fed) by {
      assert forall q :: q in fed ==> q in fed + [p];
    }
    forall x | x in dec.inputs ensures FecDelivery.IsContent(Book(l, fed + [p]), x) {
      ContentOfBook(l, fed, x);
      ContentOfBook(l, fed + [p], x);
      var q :| q in fed && q.data == x;
      assert q in fed + [p];
    }
  }

  // ----- an arrival -----

  /** While only `a` moves, its counters can pass what the peer knew of by at most one window. */
  lemma CountersBounded(s: System, e: Endpoint, ab: set<Packet>)
    requires Ok(s) && Ok(System(e, s.b, ab, s.ba))
    ensures e.flushed <= s.a.flushed + SendWindow.LIMIT && e.una <= s.a.una + SendWindow.LIMIT
  {
  }

  lemma StillTimely(s: System, e: Endpoint, ab: set<Packet>, p: Packet)
    requires Ok(s) && Ok(System(e, s.b, ab, s.ba)) && InTime(s.a, p)
    ensures Timely(e, p.una, p.nxt)
  {
    CountersBounded(s, e, ab);
  }

  lemma DeliveryKeeps(s: System, p: Packet, regular: bool, ackNoDelay: bool, now: u32)
    requires Ok(s) && p in s.ba && Timely(s.a, p.una, p.nxt)
    ensures var m := Fed(s.a, p, regular, ackNoDelay, now); Ok(System(m.e, s.b, s.ab + m.out, s.ba))
  {
    var ev := DeliverEvent(p, regular, ackNoDelay, now);
    var m := Local(s.a, ev);
    NextAtAKeeps(s, ev, System(m.e, s.b, s.ab + m.out, s.ba));
  }

  lemma OneDelivery(s0: System, s: System, p: Packet, regular: bool, ackNoDelay: bool, now: u32)
    requires Ok(s0) && Ok(s) && s.b == s0.b && s.ba == s0.ba && p in s.ba && InTime(s0.a, p)
    ensures var m := Fed(s.a, p, regular, ackNoDelay, now); Ok(System(m.e, s.b, s.ab + m.out, s.ba))
  {
    assert s == System(s.a, s0.b, s.ab, s0.ba);
    StillTimely(s0, s.a, s.ab, p);
    DeliveryKeeps(s, p, regular, ackNoDelay, now);
  }

  lemma {:induction false} DeliverAllStep(e: Endpoint, ps: seq<Packet>, regular: bool, ackNoDelay: bool, now: u32,
                                          ab: set<Packet>)
    requires e.k.cfg.mss > 0 && ps != []
    ensures var m := Fed(e, ps[0], regular, ackNoDelay, now);
      && m.e.k.cfg == e.k.cfg
      && var rest, all := DeliverAll(m.e, ps[1..], false, ackNoDelay, now),
                          DeliverAll(e, ps, regular, ackNoDelay, now);
         all.e == rest.e && ab + all.out == (ab + m.out) + rest.out
  {
    DeliverConfig(e, ps[0], regular, ackNoDelay, now);
    var m := Fed(e, ps[0], regular, ackNoDelay, now);
    var rest := DeliverAll(m.e, ps[1..], false, ackNoDelay, now);
    assert ab + (m.out + rest.out) == (ab + m.out) + rest.out;
  }

  lemma {:induction false} DeliverAllKeeps(s0: System, s: System, ps: seq<Packet>, regular: bool, ackNoDelay: bool,
                                           now: u32)
    requires Ok(s0) && Ok(s) && s.b == s0.b && s.ba == s0.ba
    requires forall p :: p in ps ==> p in s.ba && InTime(s0.a, p)
    ensures var m := DeliverAll(s.a, ps, regular, ackNoDelay, now); Ok(System(m.e, s.b, s.ab + m.out, s.ba))
    decreases |ps|
  {
    if ps == [] {
      assert s.ab + {} == s.ab;
    } else {
      OneDelivery(s0, s, ps[0], regular, ackNoDelay, now);
      DeliverAllStep(s.a, ps, regular, ackNoDelay, now, s.ab);
      var m := Fed(s.a, ps[0], regular, ackNoDelay, now);
      DeliverAllKeeps(s0, System(m.e, s.b, s.ab + m.out, s.ba), ps[1..], false, ackNoDelay, now);
    }
  }

  lemma ArriveHands(b: FecRecovery.Book, dec: FecDelivery.Receiver, pkt: FecDecoding.Packet, now: u32)
    requires 0 < b.ds
    ensures Decoded(b, dec, pkt, now).inputs == dec.inputs + Handed(b, dec, pkt, now)
  {
  }

  /** What a good decoder hands over are contents of the peer's groups. */
  lemma HandedAreContents(b: FecRecovery.Book, dec: FecDelivery.Receiver, pkt: FecDecoding.Packet, now: u32,
                          x: seq<byte>)
    requires 0 < b.ds && FecDelivery.OnlyContents(b, Decoded(b, dec, pkt, now).inputs)
    requires x in Handed(b, dec, pkt, now)
    ensures FecDelivery.IsContent(b, x)
  {
    ArriveHands(b, dec, pkt, now);
    assert x in dec.inputs + Handed(b, dec, pkt, now);
  }

  /** The decoder stays good. */
  lemma ArrivalGood(b: FecRecovery.Book, dec: FecDelivery.Receiver, low: nat, pkt: FecDecoding.Packet, now: u32)
    requires FecRecovery.Sane(b) && FecDelivery.Good(b, dec)
    requires FecDelivery.AllFresh(b, low, dec.rx) && FecRecovery.Fresh(b, low, pkt)
    ensures FecDelivery.Good(b, Decoded(b, dec, pkt, now))
  {
    FecDelivery.ArriveGood(b, dec, low, pkt, now);
  }

  /** So the datagrams behind what is handed over were emitted, and are in time. */
  lemma CarriersInTime(fed: seq<Packet>, e: Endpoint, handed: seq<seq<byte>>, carriers: seq<Packet>)
    requires Carries(fed, e, handed, carriers) && forall x :: x in handed ==> FedTo(fed, x)
    ensures forall p :: p in carriers ==> p in fed && InTime(e, p)
  {
    forall p | p in carriers ensures p in fed && InTime(e, p) {
      var i :| 0 <= i < |carriers| && carriers[i] == p;
      assert handed[i] in handed;
    }
  }

  lemma EnginesAfter(l: Layer, s: Stack, mv: Move)
    requires LayerOk(l) && Ok(Engines(s)) && mv.ArriveMove?
    requires forall p :: p in mv.carriers ==> p in s.ba && InTime(s.a.e, p)
    ensures Ok(Engines(AfterArrival(l, s, mv)))
  {
    var regular := FecPackets.Flag(mv.pkt) == FecPackets.TYPE_DATA;
    DeliverAllKeeps(Engines(s), Engines(s), mv.carriers, regular, mv.ackNoDelay, mv.now);
  }

  /** What an arrival does to the decoder. */
  lemma ArrivalFacts(l: Layer, s: Stack, mv: Move)
    requires LayerOk(l) && HalfOk(l, s.b, s.a, s.ba) && mv.ArriveMove? && Arrives(l, s, mv)
    ensures FecDelivery.Good(Book(l, s.b.fed), Decoded(Book(l, s.b.fed), s.a.dec, mv.pkt, mv.now))
  {
    BookIsSane(l, s.b.fed);
    ArrivalGood(Book(l, s.b.fed), s.a.dec, mv.low, mv.pkt, mv.now);
  }

  /** A decoder that tunes itself, set as the layer is, does the same and keeps its sizes, whatever it has heard. */
  lemma ArrivalStaysTuned(l: Layer, s: Stack, mv: Move, make: FecTuning.Maker, r: FecDelivery.TunedReceiver)
    requires LayerOk(l) && HalfOk(l, s.b, s.a, s.ba) && mv.ArriveMove? && Arrives(l, s, mv)
    requires r.dec.sizes == FecTuning.Sizes(l.ds, l.ps, l.c)
    requires FecDelivery.Receiver(r.dec.rx, r.inputs) == s.a.dec
    ensures var t := FecDelivery.ArriveTuned(make, r, mv.pkt, mv.now);
      && t.dec.sizes == r.dec.sizes
      && FecDelivery.Receiver(t.dec.rx, t.inputs) == Decoded(Book(l, s.b.fed), s.a.dec, mv.pkt, mv.now)
  {
    BookIsSane(l, s.b.fed);
    FecDelivery.ArriveStaysTuned(Book(l, s.b.fed), r, mv.low, mv.pkt, mv.now, make);
  }

  /** The datagrams behind what it hands over. */
  lemma ArrivalCarriers(l: Layer, s: Stack, mv: Move)
    requires LayerOk(l) && HalfOk(l, s.b, s.a, s.ba) && mv.ArriveMove? && Arrives(l, s, mv)
    ensures forall p :: p in mv.carriers ==> p in s.ba && InTime(s.a.e, p)
  {
    var b := Book(l, s.b.fed);
    ArrivalFacts(l, s, mv);
    forall x | x in Handed(b, s.a.dec, mv.pkt, mv.now) ensures FedTo(s.b.fed, x) {
      HandedAreContents(b, s.a.dec, mv.pkt, mv.now, x);
      ContentOfBook(l, s.b.fed, x);
    }
    CarriersInTime(s.b.fed, s.a.e, Handed(b, s.a.dec, mv.pkt, mv.now), mv.carriers);
  }

  lemma ArriveKeeps(l: Layer, s: Stack, mv: Move, t: Stack)
    requires LayerOk(l) && HalfOk(l, s.a, s.b, s.ab) && HalfOk(l, s.b, s.a, s.ba)
    requires t.a.fed == s.a.fed && t.b == s.b && t.ba == s.ba && s.ab <= t.ab
    requires FecDelivery.Good(Book(l, s.b.fed), t.a.dec)
    ensures HalfOk(l, t.a, t.b, t.ab) && HalfOk(l, t.b, t.a, t.ba)
  {
  }

  lemma ArrivalShape(l: Layer, s: Stack, mv: Move)
    requires mv.ArriveMove? && LayerOk(l) && s.a.e.k.cfg.mss > 0
    ensures var t := AfterArrival(l, s, mv);
      && t.a.fed == s.a.fed && t.b == s.b && t.ba == s.ba && s.ab <= t.ab
      && t.a.dec == Decoded(Book(l, s.b.fed), s.a.dec, mv.pkt, mv.now)
  {
  }

  // ----- every move -----

  lemma EngineKeeps(l: Layer, s: Stack, ev: Event, t: Stack)
    requires LayerOk(l) && StackOk(l, s) && MoveAtA(l, s, EngineMove(ev), t)
    ensures StackOk(l, t)
  {
    assert NextAtA(Engines(s), ev, Engines(t));
    NextAtAKeeps(Engines(s), ev, Engines(t));
  }

  lemma MoveAtAKeeps(l: Layer, s: Stack, mv: Move, t: Stack)
    requires LayerOk(l) && StackOk(l, s) && MoveAtA(l, s, mv, t)
    ensures StackOk(l, t)
  {
    match mv
    case EngineMove(ev) => EngineKeeps(l, s, ev, t);
    case FeedMove(p) => FeedKeeps(l, s.a.fed, p, s.b.dec);
    case ArriveMove(_, _, _, _, _) =>
      ArrivalFacts(l, s, mv);
      ArrivalCarriers(l, s, mv);
      ArrivalShape(l, s, mv);
      EnginesAfter(l, s, mv);
      ArriveKeeps(l, s, mv, t);
  }

  lemma SwapKeeps(l: Layer, s: Stack)
    requires LayerOk(l) && StackOk(l, s)
    ensures StackOk(l, SwapSides(s))
  {
  }

  lemma NextStackKeeps(l: Layer, s: Stack, sm: SidedMove, t: Stack)
    requires LayerOk(l) && StackOk(l, s) && NextStack(l, s, sm, t)
    ensures StackOk(l, t)
  {
    if sm.atA {
      MoveAtAKeeps(l, s, sm.mv, t);
    } else {
      SwapKeeps(l, s);
      MoveAtAKeeps(l, SwapSides(s), sm.mv, SwapSides(t));
      SwapKeeps(l, SwapSides(t));
    }
  }

  lemma EmptyGood(l: Layer, fed: seq<Packet>)
    requires LayerOk(l)
    ensures FecDelivery.Good(Book(l, fed), FecDelivery.Receiver([], []))
  {
  }

  lemma {:induction false} StackRunOk(l: Layer, run: seq<Stack>, moves: seq<SidedMove>, i: nat)
    requires IsStackRun(l, run, moves) && i < |run|
    ensures StackOk(l, run[i])
  {
    InitialOk(Engines(run[0]));
    EmptyGood(l, []);
    for j := 0 to i
      invariant StackOk(l, run[j])
    {
      NextStackKeeps(l, run[j], moves[j], run[j + 1]);
    }
  }

  /**
   Exactly-once, in-order delivery through the correction layer, in both
   directions and in every state of every run, whatever happens to its packets:
   a datagram may reach the engine directly, recovered, both, or not at all.
   */
  lemma ExactlyOnceThroughTheLayer(l: Layer, run: seq<Stack>, moves: seq<SidedMove>, i: nat)
    requires IsStackRun(l, run, moves) && i < |run|
    ensures Delivers(run[i].a.e, run[i].b.e) && Delivers(run[i].b.e, run[i].a.e)
  {
    StackRunOk(l, run, moves, i);
    HalfDelivers(run[i].a.e, run[i].b.e, run[i].ab);
    HalfDelivers(run[i].b.e, run[i].a.e, run[i].ba);
  }

  // ----- freshness is a matter of numbers -----

  /** The groups of `gs` are those of `was`, some of them longer; a complete one is the same. */
  ghost predicate GrownTo(was: map<nat, seq<seq<byte>>>, gs: map<nat, seq<seq<byte>>>, ds: nat) {
    forall g :: g in was ==> g in gs && was[g] <= gs[g] && (|was[g]| == ds ==> gs[g] == was[g])
  }

  lemma {:induction false} ShortGroup(base: nat, ds: nat, ss: nat, xs: seq<seq<byte>>)
    requires 0 < ds <= ss <= 256 && 0 < |xs| <= ds
    ensures FecStream.Groups(base, ds, ss, xs) == map[base := xs]
  {
    assert xs[..|xs|] == xs && xs[|xs|..] == [];
    assert FecStream.Groups(FecStream.NextBase(base, ss), ds, ss, []) == map[];
  }

  lemma {:induction false} LongGroup(base: nat, ds: nat, ss: nat, xs: seq<seq<byte>>)
    requires 0 < ds <= ss <= 256 && ds <= |xs|
    ensures FecStream.Groups(base, ds, ss, xs)
      == FecStream.Groups(FecStream.NextBase(base, ss), ds, ss, xs[ds..])[base := xs[..ds]]
  {
  }

  /** The groups only grow, and a complete one no longer changes. */
  lemma {:induction false} GroupsGrow(base: nat, ds: nat, ss: nat, xs: seq<seq<byte>>, y: seq<byte>)
    requires 0 < ds <= ss <= 256
    ensures GrownTo(FecStream.Groups(base, ds, ss, xs), FecStream.Groups(base, ds, ss, xs + [y]), ds)
    decreases |xs|
  {
    if xs == [] {
    } else if |xs| < ds {
      ShortGroup(base, ds, ss, xs);
      ShortGroup(base, ds, ss, xs + [y]);
    } else {
      assert (xs + [y])[..ds] == xs[..ds] && (xs + [y])[ds..] == xs[ds..] + [y];
      LongGroup(base, ds, ss, xs);
      LongGroup(base, ds, ss, xs + [y]);
      GroupsGrow(FecStream.NextBase(base, ss), ds, ss, xs[ds..], y);
    }
  }

  lemma FromGrows(b: FecRecovery.Book, d: FecRecovery.Book, pkt: FecDecoding.Packet, o: FecRecovery.Origin)
    requires FecRecovery.From(b, pkt, o) && d == b.(groups := d.groups) && GrownTo(b.groups, d.groups, b.ds)
    ensures FecRecovery.From(d, pkt, o)
  {
    if o.slot < b.ds {
      assert d.groups[o.base][o.slot] == b.groups[o.base][o.slot];
    }
  }

  /** A packet that is fresh stays fresh as the sender moves on, as long as the numbers in play do. */
  lemma FreshGrows(l: Layer, fed: seq<Packet>, p: Packet, low: nat, pkt: FecDecoding.Packet)
    requires LayerOk(l) && FecRecovery.Fresh(Book(l, fed), low, pkt)
    ensures FecRecovery.Fresh(Book(l, fed + [p]), low, pkt)
  {
    var b, d := Book(l, fed), Book(l, fed + [p]);
    assert Contents(fed + [p]) == Contents(fed) + [p.data];
    GroupsGrow(0, l.ds, l.ds + l.ps, Contents(fed), p.data);
    var o :| FecRecovery.From(b, pkt, o) && low <= o.base + o.slot < low + FecRecovery.SPAN;
    FromGrows(b, d, pkt, o);
  }
}
