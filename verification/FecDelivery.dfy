/**
 The receiving session over a whole run (network/kcp/udp.go:610-715): which
 byte strings reach `kcp.Input`, directly or recovered, as packets arrive in any
 order, repeated, interleaved with other groups, or not at all.
 */
module FecDelivery {
  import opened Serial
  import opened Wire
  import opened FecPackets
  import opened FecCodec
  import opened FecDecoding
  import opened FecRecovery
  import AutoTuning
  import FecTuning
  import Endpoints

  /** The decoder's queue, and everything handed to `kcp.Input` so far. */
  datatype Receiver = Receiver(rx: seq<Element>, inputs: seq<seq<byte>>)

  /** What the recovered shards hand over. */
  function Stripped(rs: seq<Shard>): seq<seq<byte>> {
    if rs == [] then []
    else (match Ranger(rs[0]) case Some(x) => [x] case None => []) + Stripped(rs[1..])
  }

  predicate IsFec(pkt: Packet) {
    Flag(pkt) == TYPE_DATA || Flag(pkt) == TYPE_PARITY
  }

  /** `biggerThan`: the direct bytes of a data packet, then what was recovered. */
  function Fed(pkt: Packet, recovered: seq<Shard>): seq<seq<byte>>
    requires |pkt| >= HEADER + 2
  {
    (if Flag(pkt) == TYPE_DATA then [pkt[HEADER + 2..]] else []) + Stripped(recovered)
  }

  /** `packetInput`. */
  function Arrive(ds: nat, ss: nat, c: Codec, r: Receiver, pkt: Packet, now: u32): Receiver
    requires 0 < ds <= ss
  {
    if |pkt| < OVERHEAD then r
    else if !IsFec(pkt) then r.(inputs := r.inputs + [pkt])
    else
      var (recovered, rx) := WindowDecode(r.rx, ds, ss, c, pkt, now);
      Receiver(rx, r.inputs + Fed(pkt, recovered))
  }

  lemma {:induction false} StrippedAre(rs: seq<Shard>)
    ensures forall x :: x in Stripped(rs) <==> exists r :: r in rs && Ranger(r) == Some(x)
  {
    if rs != [] {
      StrippedAre(rs[1..]);
      forall x ensures x in Stripped(rs) <==> exists r :: r in rs && Ranger(r) == Some(x) {
        if x in Stripped(rs[1..]) {
          var r :| r in rs[1..] && Ranger(r) == Some(x);
          assert r in rs;
        }
        if Ranger(rs[0]) == Some(x) {
          assert rs[0] in rs;
        }
        forall r | r in rs && Ranger(r) == Some(x) ensures x in Stripped(rs) {
          if r != rs[0] {
            assert r in rs[1..];
          }
        }
      }
    }
  }

  // ----- order without a base -----

  /** The queue is strictly increasing in the decoder's own comparison. */
  ghost predicate Ordered(rx: seq<Element>) {
    forall i, j :: 0 <= i < j < |rx| ==> Diff(Id(rx[j]), Id(rx[i])) > 0
  }

  ghost predicate AllFresh(b: Book, low: nat, rx: seq<Element>) {
    forall e :: e in rx ==> Fresh(b, low, e.pkt)
  }

  function BaseOf(b: Book, low: nat): u32 {
    Wrap(low - Shards(b))
  }

  lemma AllNear(b: Book, low: nat, rx: seq<Element>)
    requires Sane(b) && AllFresh(b, low, rx)
    ensures forall i :: 0 <= i < |rx| ==> Near(Id(rx[i]), BaseOf(b, low), Shards(b))
  {
    forall i | 0 <= i < |rx| ensures Near(Id(rx[i]), BaseOf(b, low), Shards(b)) {
      assert rx[i] in rx;
      FreshNear(b, low, rx[i].pkt);
    }
  }

  lemma OrderedSorted(rx: seq<Element>, base: u32, ss: nat)
    requires forall i :: 0 <= i < |rx| ==> Near(Id(rx[i]), base, ss)
    ensures Ordered(rx) <==> Sorted(rx, base, ss)
  {
    forall i, j | 0 <= i < j < |rx|
      ensures Diff(Id(rx[j]), Id(rx[i])) > 0 <==> Offset(Id(rx[i]), base) < Offset(Id(rx[j]), base)
    {
      NearCompare(Id(rx[j]), Id(rx[i]), base, ss);
    }
  }

  // ----- what the queue holds -----

  ghost predicate IsContent(b: Book, x: seq<byte>) {
    exists g, k :: g in b.groups && 0 <= k < |b.groups[g]| && b.groups[g][k] == x
  }

  ghost predicate OnlyContents(b: Book, inputs: seq<seq<byte>>) {
    forall x :: x in inputs ==> IsContent(b, x)
  }

  lemma InsertedAre(rx: seq<Element>, e: Element)
    ensures forall x :: x in Inserted(rx, e) <==> x in rx || x == e
  {
  }

  /** Nothing enters the queue but the arriving packet. */
  lemma DecodeOnlyAdds(rx: seq<Element>, ds: nat, ss: nat, c: Codec, pkt: Packet, now: u32)
    requires 0 < ds <= ss
    ensures forall e :: e in Decode(rx, ds, ss, c, pkt, now).1 ==> e in rx || e == Element(pkt, now)
  {
    if !Stored(rx, SeqId(pkt)) {
      var q := Inserted(rx, Element(pkt, now));
      InsertedAre(rx, Element(pkt, now));
      OthersAre(q, Begin(SeqId(pkt), ss), ss);
      var kept := Settle(q, Begin(SeqId(pkt), ss), ds, ss, c).1;
      assert forall e :: e in kept ==> e in q;
      assert forall e :: e in Trimmed(kept, ss, now) ==> e in kept;
    }
  }

  lemma GroupIsStretch(rx: seq<Element>, base: u32, ss: nat, id: u32) returns (lo: nat, hi: nat)
    requires Sorted(rx, base, ss) && 0 < ss <= 256 && Near(id, base, ss)
    ensures Splits(rx, Begin(id, ss), ss, lo, hi) && Members(rx, Begin(id, ss), ss) == rx[lo..hi]
  {
    GroupStretch(rx, base, ss, id);
    var low := Offset(id, base) - id % ss;
    lo, hi := Below(rx, base, low), Below(rx, base, low + ss);
    SplitMembers(rx, Begin(id, ss), ss, lo, hi);
  }

  lemma MemberFrom(b: Book, low: nat, pkt: Packet, o: Origin, e: Element)
    requires Sane(b) && Fresh(b, low, e.pkt)
    requires From(b, pkt, o) && low <= o.base + o.slot < low + SPAN
    requires InGroup(e, Begin(SeqId(pkt), Shards(b)), Shards(b))
    ensures From(b, e.pkt, Origin(o.base, Id(e) % Shards(b))) && Id(e) == Wrap(o.base) + Id(e) % Shards(b)
    ensures Flag(e.pkt) == TYPE_DATA <==> Id(e) % Shards(b) < b.ds
  {
    var p :| From(b, e.pkt, p) && low <= p.base + p.slot < low + SPAN;
    SameGroup(b, low, pkt, o, e, p);
    OriginFields(b, e.pkt, p);
    assert p == Origin(o.base, Id(e) % Shards(b));
  }

  lemma OrderedDistinct(rx: seq<Element>, lo: nat, hi: nat)
    requires Ordered(rx) && lo <= hi <= |rx|
    ensures forall i, j :: 0 <= i < j < hi - lo ==> Id(rx[lo..hi][i]) != Id(rx[lo..hi][j])
  {
    forall i, j | 0 <= i < j < hi - lo ensures Id(rx[lo..hi][i]) != Id(rx[lo..hi][j]) {
      assert Diff(Id(rx[lo + j]), Id(rx[lo + i])) > 0;
      DiffSign(Id(rx[lo + j]), Id(rx[lo + j]));
      WrapSmall(0);
    }
  }

  lemma StretchOneGroup(b: Book, low: nat, rx: seq<Element>, pkt: Packet, o: Origin, lo: nat, hi: nat)
    requires Sane(b) && Ordered(rx) && AllFresh(b, low, rx)
    requires From(b, pkt, o) && low <= o.base + o.slot < low + SPAN
    requires Splits(rx, Begin(SeqId(pkt), Shards(b)), Shards(b), lo, hi)
    ensures AllFrom(b, o.base, rx[lo..hi]) && OneGroup(rx[lo..hi], b.ds, Shards(b))
  {
    var ms := rx[lo..hi];
    forall i | 0 <= i < |ms|
      ensures From(b, ms[i].pkt, Origin(o.base, Id(ms[i]) % Shards(b)))
      ensures Id(ms[i]) == Wrap(o.base) + Id(ms[i]) % Shards(b)
      ensures Flag(ms[i].pkt) == TYPE_DATA <==> Id(ms[i]) % Shards(b) < b.ds
    {
      assert ms[i] == rx[lo + i] && rx[lo + i] in rx;
      MemberFrom(b, low, pkt, o, ms[i]);
    }
    OrderedDistinct(rx, lo, hi);
  }

  /** The members of the arriving packet's group are packets of one group, each in its own place. */
  lemma {:induction false} MembersOneGroup(b: Book, low: nat, rx: seq<Element>, pkt: Packet, o: Origin)
    requires Sane(b) && Ordered(rx) && AllFresh(b, low, rx)
    requires From(b, pkt, o) && low <= o.base + o.slot < low + SPAN
    ensures var ms := Members(rx, Begin(SeqId(pkt), Shards(b)), Shards(b));
      AllFrom(b, o.base, ms) && OneGroup(ms, b.ds, Shards(b)) && forall e :: e in ms ==> e in rx
  {
    AllNear(b, low, rx);
    OrderedSorted(rx, BaseOf(b, low), Shards(b));
    FreshNear(b, low, pkt);
    var lo, hi := GroupIsStretch(rx, BaseOf(b, low), Shards(b), SeqId(pkt));
    StretchOneGroup(b, low, rx, pkt, o, lo, hi);
  }

  // ----- one arrival -----

  /** A data packet's direct bytes are the content of its place. */
  lemma DirectIsContent(b: Book, pkt: Packet, o: Origin)
    requires Sane(b) && From(b, pkt, o) && o.slot < b.ds
    ensures |pkt| >= HEADER + 2 && pkt[HEADER + 2..] == b.groups[o.base][o.slot]
  {
    OriginFields(b, pkt, o);
    assert pkt[HEADER..][2..] == pkt[HEADER + 2..];
  }

  /** Every data packet of `ms` was handed over when it arrived. */
  ghost predicate DataHeld(ms: seq<Element>, inputs: seq<seq<byte>>) {
    forall e :: e in ms && Flag(e.pkt) == TYPE_DATA ==> |e.pkt| >= HEADER + 2 && e.pkt[HEADER + 2..] in inputs
  }

  lemma {:induction false} StoredHanded(b: Book, base: nat, ms: seq<Element>, inputs: seq<seq<byte>>, k: nat)
    requires AllFrom(b, base, ms) && OneGroup(ms, b.ds, Shards(b)) && k < b.ds
    requires Slots(ms, Shards(b))[k].Some? && DataHeld(ms, inputs)
    ensures base in b.groups && k < |b.groups[base]| && b.groups[base][k] in inputs
  {
    var i := SlotSource(ms, Shards(b), k);
    assert ms[i] in ms;
    OriginFields(b, ms[i].pkt, Origin(base, k));
    DirectIsContent(b, ms[i].pkt, Origin(base, k));
  }

  lemma {:induction false} DataPlaceFilled(ms: seq<Element>, ds: nat, ss: nat, k: nat)
    requires 0 < ds <= ss && OneGroup(ms, ds, ss) && DataCount(ms) == ds && k < ds
    ensures Slots(ms, ss)[k].Some?
  {
    SlotsCount(ms, ds, ss);
    PresentAll(Slots(ms, ss)[..ds]);
    assert Slots(ms, ss)[..ds][k].Some?;
  }

  /** With all data shards stored nothing needs recovery: each of them was handed over when it arrived. */
  lemma {:induction false} AllDataHanded(b: Book, base: nat, ms: seq<Element>, inputs: seq<seq<byte>>)
    requires AllFrom(b, base, ms) && OneGroup(ms, b.ds, Shards(b)) && DataCount(ms) == b.ds
    requires DataHeld(ms, inputs)
    ensures base in b.groups && |b.groups[base]| == b.ds
    ensures forall k :: 0 <= k < b.ds ==> b.groups[base][k] in inputs
  {
    DataPlaceFilled(ms, b.ds, Shards(b), b.ds - 1);
    StoredHanded(b, base, ms, inputs, b.ds - 1);
    forall k | 0 <= k < b.ds ensures b.groups[base][k] in inputs {
      DataPlaceFilled(ms, b.ds, Shards(b), k);
      StoredHanded(b, base, ms, inputs, k);
    }
  }

  /** With a data shard missing, what is stored was handed over and the rest is recovered. */
  lemma {:induction false} MissingHanded(b: Book, base: nat, ms: seq<Element>, inputs: seq<seq<byte>>)
    requires AllFrom(b, base, ms) && OneGroup(ms, b.ds, Shards(b)) && DataCount(ms) < b.ds <= |ms|
    requires DataHeld(ms, inputs)
    ensures base in b.groups && |b.groups[base]| == b.ds
    ensures forall k :: 0 <= k < b.ds ==>
      b.groups[base][k] in inputs || b.groups[base][k] in Stripped(Recovered(ms, b.ds, Shards(b), b.c))
  {
    var rs := Recovered(ms, b.ds, Shards(b), b.c);
    GroupRecovers(b, base, ms);
    StrippedAre(rs);
    forall k | 0 <= k < b.ds ensures b.groups[base][k] in inputs || b.groups[base][k] in Stripped(rs) {
      if Slots(ms, Shards(b))[k].Some? {
        StoredHanded(b, base, ms, inputs, k);
      }
    }
  }

  /** Nothing but contents of the group is recovered. */
  lemma {:induction false} RecoveredAreContents(b: Book, base: nat, ms: seq<Element>)
    requires AllFrom(b, base, ms) && OneGroup(ms, b.ds, Shards(b)) && DataCount(ms) < b.ds <= |ms|
    ensures OnlyContents(b, Stripped(Recovered(ms, b.ds, Shards(b), b.c)))
  {
    var rs := Recovered(ms, b.ds, Shards(b), b.c);
    GroupRecovers(b, base, ms);
    StrippedAre(rs);
    forall x | x in Stripped(rs) ensures IsContent(b, x) {
      var r :| r in rs && Ranger(r) == Some(x);
      var k :| 0 <= k < b.ds && Slots(ms, Shards(b))[k].None? && Ranger(r) == Some(b.groups[base][k]);
      assert b.groups[base][k] == x;
    }
  }

  // ----- one arrival at the receiver -----

  /** What holds between arrivals. */
  ghost predicate Good(b: Book, r: Receiver) {
    Ordered(r.rx) && |r.rx| <= MULTIPLE * Shards(b) && DataHeld(r.rx, r.inputs) && OnlyContents(b, r.inputs)
  }

  /** The queue after a packet has been put into its place. */
  function Queue(r: Receiver, pkt: Packet, now: u32): seq<Element> {
    Inserted(r.rx, Element(pkt, now))
  }

  lemma InsertOrdered(rx: seq<Element>, base: u32, ss: nat, e: Element)
    requires Ordered(rx) && !Stored(rx, Id(e)) && Near(Id(e), base, ss)
    requires forall i :: 0 <= i < |rx| ==> Near(Id(rx[i]), base, ss)
    ensures Ordered(Inserted(rx, e))
  {
    OrderedSorted(rx, base, ss);
    InsertSorted(rx, base, ss, e);
    OrderedSorted(Inserted(rx, e), base, ss);
  }

  lemma QueueOrdered(b: Book, rx: seq<Element>, low: nat, e: Element)
    requires Sane(b) && Ordered(rx) && AllFresh(b, low, rx) && Fresh(b, low, e.pkt) && !Stored(rx, Id(e))
    ensures Ordered(Inserted(rx, e))
  {
    AllNear(b, low, rx);
    FreshNear(b, low, e.pkt);
    InsertOrdered(rx, BaseOf(b, low), Shards(b), e);
  }

  lemma QueueGood(b: Book, r: Receiver, low: nat, pkt: Packet, now: u32)
    requires Sane(b) && Good(b, r) && AllFresh(b, low, r.rx) && Fresh(b, low, pkt) && !Stored(r.rx, SeqId(pkt))
    ensures Ordered(Queue(r, pkt, now)) && AllFresh(b, low, Queue(r, pkt, now))
  {
    QueueOrdered(b, r.rx, low, Element(pkt, now));
    InsertedAre(r.rx, Element(pkt, now));
  }

  /** What a fresh packet itself hands over. */
  lemma DirectGood(b: Book, low: nat, pkt: Packet)
    requires Sane(b) && Fresh(b, low, pkt)
    ensures IsFec(pkt)
    ensures Flag(pkt) == TYPE_DATA ==> |pkt| >= HEADER + 2 && IsContent(b, pkt[HEADER + 2..])
  {
    var o :| From(b, pkt, o) && low <= o.base + o.slot < low + SPAN;
    FramedFields(Wrap(o.base + o.slot), if o.slot < b.ds then TYPE_DATA else TYPE_PARITY, BodyOf(b, o));
    if Flag(pkt) == TYPE_DATA {
      OriginFields(b, pkt, o);
      DirectIsContent(b, pkt, o);
    }
  }

  /** What is recovered from members of one group. */
  lemma OutcomeGood(b: Book, base: nat, rx: seq<Element>, ms: seq<Element>, rest: seq<Element>)
    requires Sane(b) && AllFrom(b, base, ms) && OneGroup(ms, b.ds, Shards(b))
    ensures OnlyContents(b, Stripped(Outcome(rx, ms, rest, b.ds, Shards(b), b.c).0))
  {
    if DataCount(ms) != b.ds && |ms| >= b.ds {
      SlotsCount(ms, b.ds, Shards(b));
      PresentAll(Slots(ms, Shards(b))[..b.ds]);
      RecoveredAreContents(b, base, ms);
    }
  }

  /** What `Settle` recovers for the group of the arriving packet. */
  lemma SettleGood(b: Book, r: Receiver, low: nat, pkt: Packet, now: u32)
    requires Sane(b) && Good(b, r) && AllFresh(b, low, r.rx) && Fresh(b, low, pkt) && !Stored(r.rx, SeqId(pkt))
    ensures OnlyContents(b, Stripped(
      Settle(Queue(r, pkt, now), Begin(SeqId(pkt), Shards(b)), b.ds, Shards(b), b.c).0))
  {
    var q, ss := Queue(r, pkt, now), Shards(b);
    var o :| From(b, pkt, o) && low <= o.base + o.slot < low + SPAN;
    QueueGood(b, r, low, pkt, now);
    MembersOneGroup(b, low, q, pkt, o);
    var begin := Begin(SeqId(pkt), ss);
    OutcomeGood(b, o.base, q, Members(q, begin, ss), Others(q, begin, ss));
  }

  lemma DecodeOrdered(rx: seq<Element>, ds: nat, ss: nat, c: Codec, pkt: Packet, now: u32, base: u32)
    requires 0 < ds <= ss && Ordered(rx) && |rx| <= MULTIPLE * ss && Near(SeqId(pkt), base, ss)
    requires forall i :: 0 <= i < |rx| ==> Near(Id(rx[i]), base, ss)
    ensures var rest := Decode(rx, ds, ss, c, pkt, now).1; Ordered(rest) && |rest| <= MULTIPLE * ss
  {
    OrderedSorted(rx, base, ss);
    DecodeKeepsOrder(rx, ds, ss, c, pkt, now, base);
    OrderedSorted(Decode(rx, ds, ss, c, pkt, now).1, base, ss);
  }

  lemma FreshOrdered(b: Book, rx: seq<Element>, low: nat, pkt: Packet, now: u32)
    requires Sane(b) && Ordered(rx) && |rx| <= MULTIPLE * Shards(b) && AllFresh(b, low, rx) && Fresh(b, low, pkt)
    ensures var rest := Decode(rx, b.ds, Shards(b), b.c, pkt, now).1;
      Ordered(rest) && |rest| <= MULTIPLE * Shards(b)
  {
    AllNear(b, low, rx);
    FreshNear(b, low, pkt);
    DecodeOrdered(rx, b.ds, Shards(b), b.c, pkt, now, BaseOf(b, low));
  }

  lemma DecodeGood(b: Book, r: Receiver, low: nat, pkt: Packet, now: u32)
    requires Sane(b) && Good(b, r) && AllFresh(b, low, r.rx) && Fresh(b, low, pkt)
    ensures var (recovered, rx) := Decode(r.rx, b.ds, Shards(b), b.c, pkt, now);
      Ordered(rx) && |rx| <= MULTIPLE * Shards(b) && OnlyContents(b, Stripped(recovered))
  {
    FreshOrdered(b, r.rx, low, pkt, now);
    if !Stored(r.rx, SeqId(pkt)) {
      SettleGood(b, r, low, pkt, now);
    }
  }

  /** On fresh packets the window search of the source does what is meant. */
  lemma FreshDecodes(b: Book, rx: seq<Element>, low: nat, pkt: Packet, now: u32)
    requires Sane(b) && Ordered(rx) && AllFresh(b, low, rx) && Fresh(b, low, pkt)
    ensures WindowDecode(rx, b.ds, Shards(b), b.c, pkt, now) == Decode(rx, b.ds, Shards(b), b.c, pkt, now)
  {
    AllNear(b, low, rx);
    OrderedSorted(rx, BaseOf(b, low), Shards(b));
    FreshNear(b, low, pkt);
    WindowDecodeIsDecode(rx, BaseOf(b, low), b.ds, Shards(b), b.c, pkt, now);
  }

  lemma {:induction false} FedGood(b: Book, low: nat, pkt: Packet, recovered: seq<Shard>)
    requires Sane(b) && Fresh(b, low, pkt) && |pkt| >= HEADER + 2 && OnlyContents(b, Stripped(recovered))
    ensures OnlyContents(b, Fed(pkt, recovered))
    ensures Flag(pkt) == TYPE_DATA ==> pkt[HEADER + 2..] in Fed(pkt, recovered)
  {
    DirectGood(b, low, pkt);
  }

  lemma HeldMore(rx: seq<Element>, inputs: seq<seq<byte>>, e: Element, more: seq<seq<byte>>, q: seq<Element>)
    requires DataHeld(rx, inputs) && forall x :: x in q ==> x in rx || x == e
    requires Flag(e.pkt) == TYPE_DATA ==> |e.pkt| >= HEADER + 2 && e.pkt[HEADER + 2..] in more
    ensures DataHeld(q, inputs + more)
  {
  }

  /** Every arrival keeps the queue ordered and bounded, and hands over only contents. */
  lemma ArriveGood(b: Book, r: Receiver, low: nat, pkt: Packet, now: u32)
    requires Sane(b) && Good(b, r) && AllFresh(b, low, r.rx) && Fresh(b, low, pkt)
    ensures Good(b, Arrive(b.ds, Shards(b), b.c, r, pkt, now))
  {
    if |pkt| >= OVERHEAD {
      var (recovered, rx) := Decode(r.rx, b.ds, Shards(b), b.c, pkt, now);
      DirectGood(b, low, pkt);
      FreshDecodes(b, r.rx, low, pkt, now);
      DecodeGood(b, r, low, pkt, now);
      FedGood(b, low, pkt, recovered);
      DecodeOnlyAdds(r.rx, b.ds, Shards(b), b.c, pkt, now);
      HeldMore(r.rx, r.inputs, Element(pkt, now), Fed(pkt, recovered), rx);
    }
  }

  /** How many shards of the arriving packet's group are stored once it has been put into its place. */
  function GroupSize(b: Book, r: Receiver, pkt: Packet, now: u32): nat
    requires Shards(b) > 0
  {
    |Members(Queue(r, pkt, now), Begin(SeqId(pkt), Shards(b)), Shards(b))|
  }

  /** Everything handed over once the arriving packet's own bytes are. */
  function Direct(r: Receiver, pkt: Packet): seq<seq<byte>>
    requires Flag(pkt) == TYPE_DATA ==> |pkt| >= HEADER + 2
  {
    r.inputs + (if Flag(pkt) == TYPE_DATA then [pkt[HEADER + 2..]] else [])
  }

  lemma DirectHolds(b: Book, r: Receiver, pkt: Packet, now: u32, ms: seq<Element>)
    requires DataHeld(r.rx, r.inputs) && (Flag(pkt) == TYPE_DATA ==> |pkt| >= HEADER + 2)
    requires forall e :: e in ms ==> e in Queue(r, pkt, now)
    ensures DataHeld(ms, Direct(r, pkt))
  {
  }

  lemma {:induction false} SettleRecovers(rx: seq<Element>, begin: u32, ds: nat, ss: nat, c: Codec)
    requires 0 < ds <= ss && |Members(rx, begin, ss)| >= ds
    ensures var ms := Members(rx, begin, ss);
      Settle(rx, begin, ds, ss, c).0 == if DataCount(ms) == ds then [] else Recovered(ms, ds, ss, c)
  {
  }

  /** What an arriving packet recovers when its group has enough shards. */
  lemma {:induction false} DecodeRecovers(rx: seq<Element>, ds: nat, ss: nat, c: Codec, pkt: Packet, now: u32)
    requires 0 < ds <= ss && !Stored(rx, SeqId(pkt))
    ensures var ms := Members(Inserted(rx, Element(pkt, now)), Begin(SeqId(pkt), ss), ss);
      |ms| >= ds ==>
        Decode(rx, ds, ss, c, pkt, now).0 == if DataCount(ms) == ds then [] else Recovered(ms, ds, ss, c)
  {
    var q := Inserted(rx, Element(pkt, now));
    if |Members(q, Begin(SeqId(pkt), ss), ss)| >= ds {
      SettleRecovers(q, Begin(SeqId(pkt), ss), ds, ss, c);
    }
  }

  lemma ArriveFeeds(ds: nat, ss: nat, c: Codec, r: Receiver, pkt: Packet, now: u32)
    requires 0 < ds <= ss && IsFec(pkt) && |pkt| >= OVERHEAD
    ensures Arrive(ds, ss, c, r, pkt, now).inputs
      == Direct(r, pkt) + Stripped(WindowDecode(r.rx, ds, ss, c, pkt, now).0)
  {
  }

  lemma {:induction false} ArriveInputs(ds: nat, ss: nat, c: Codec, r: Receiver, pkt: Packet, now: u32)
    requires 0 < ds <= ss && IsFec(pkt) && |pkt| >= OVERHEAD && !Stored(r.rx, SeqId(pkt))
    requires WindowDecode(r.rx, ds, ss, c, pkt, now) == Decode(r.rx, ds, ss, c, pkt, now)
    ensures var ms := Members(Queue(r, pkt, now), Begin(SeqId(pkt), ss), ss);
      |ms| >= ds ==> Arrive(ds, ss, c, r, pkt, now).inputs
                     == Direct(r, pkt) + Stripped(if DataCount(ms) == ds then [] else Recovered(ms, ds, ss, c))
  {
    ArriveFeeds(ds, ss, c, r, pkt, now);
    DecodeRecovers(r.rx, ds, ss, c, pkt, now);
  }

  lemma {:induction false} HandedTo(b: Book, base: nat, ms: seq<Element>, inputs: seq<seq<byte>>)
    requires AllFrom(b, base, ms) && OneGroup(ms, b.ds, Shards(b)) && |ms| >= b.ds && DataHeld(ms, inputs)
    ensures base in b.groups && |b.groups[base]| == b.ds
    ensures forall k :: 0 <= k < b.ds ==>
      b.groups[base][k] in inputs
      || (DataCount(ms) != b.ds && b.groups[base][k] in Stripped(Recovered(ms, b.ds, Shards(b), b.c)))
  {
    SlotsCount(ms, b.ds, Shards(b));
    PresentAll(Slots(ms, Shards(b))[..b.ds]);
    if DataCount(ms) == b.ds {
      AllDataHanded(b, base, ms, inputs);
    } else {
      MissingHanded(b, base, ms, inputs);
    }
  }

  /**
   As soon as `ds` distinct shards of a group are stored, every data packet of
   the group has been handed over in full.
   */
  lemma ArriveHandsGroup(b: Book, r: Receiver, low: nat, pkt: Packet, now: u32, o: Origin)
    requires Sane(b) && Good(b, r) && AllFresh(b, low, r.rx)
    requires From(b, pkt, o) && low <= o.base + o.slot < low + SPAN
    requires |pkt| >= OVERHEAD && !Stored(r.rx, SeqId(pkt)) && GroupSize(b, r, pkt, now) >= b.ds
    ensures |b.groups[o.base]| == b.ds
    ensures forall k :: 0 <= k < b.ds ==>
      b.groups[o.base][k] in Arrive(b.ds, Shards(b), b.c, r, pkt, now).inputs
  {
    var ms := Members(Queue(r, pkt, now), Begin(SeqId(pkt), Shards(b)), Shards(b));
    DirectGood(b, low, pkt);
    QueueGood(b, r, low, pkt, now);
    MembersOneGroup(b, low, Queue(r, pkt, now), pkt, o);
    DirectHolds(b, r, pkt, now, ms);
    HandedTo(b, o.base, ms, Direct(r, pkt));
    FreshDecodes(b, r.rx, low, pkt, now);
    ArriveInputs(b.ds, Shards(b), b.c, r, pkt, now);
  }

  // ----- what is freed -----

  lemma TrimmedIsSuffix(rx: seq<Element>, ss: nat, now: u32)
    ensures var t := Trimmed(rx, ss, now); |t| <= |rx| && t == rx[|rx| - |t|..]
  {
  }

  /** What is left of queue `q` once the group of the new packet has been settled. */
  function Freed(q: seq<Element>, begin: u32, ds: nat, ss: nat): seq<Element> {
    if |Members(q, begin, ss)| >= ds then Others(q, begin, ss) else q
  }

  lemma SettleFrees(q: seq<Element>, begin: u32, ds: nat, ss: nat, c: Codec)
    requires 0 < ds <= ss
    ensures Settle(q, begin, ds, ss, c).1 == Freed(q, begin, ds, ss)
  {
  }

  /** With enough members the group is gone, and nothing else; otherwise nothing is. */
  lemma {:induction false} FreedIs(q: seq<Element>, begin: u32, ds: nat, ss: nat)
    ensures if |Members(q, begin, ss)| >= ds
            then forall e :: e in Freed(q, begin, ds, ss) <==> e in q && !InGroup(e, begin, ss)
            else Freed(q, begin, ds, ss) == q
  {
    OthersAre(q, begin, ss);
  }

  /** What the limit and the age take is taken from the front. */
  ghost predicate IsSuffix(rest: seq<Element>, kept: seq<Element>) {
    |rest| <= |kept| && rest == kept[|kept| - |rest|..]
  }

  lemma DecodeFrees(rx: seq<Element>, ds: nat, ss: nat, c: Codec, pkt: Packet, now: u32)
    requires 0 < ds <= ss && !Stored(rx, SeqId(pkt))
    ensures IsSuffix(Decode(rx, ds, ss, c, pkt, now).1,
                     Freed(Inserted(rx, Element(pkt, now)), Begin(SeqId(pkt), ss), ds, ss))
  {
    var q, begin := Inserted(rx, Element(pkt, now)), Begin(SeqId(pkt), ss);
    SettleFrees(q, begin, ds, ss, c);
    TrimmedIsSuffix(Freed(q, begin, ds, ss), ss, now);
  }

  lemma ArriveQueue(ds: nat, ss: nat, c: Codec, r: Receiver, pkt: Packet, now: u32)
    requires 0 < ds <= ss && IsFec(pkt) && |pkt| >= OVERHEAD
    ensures Arrive(ds, ss, c, r, pkt, now).rx == WindowDecode(r.rx, ds, ss, c, pkt, now).1
  {
  }

  /**
   A new packet that completes its group frees the whole group (FreedIs), and
   besides that only the front of the queue is ever cut.
   */
  lemma ArrivalFrees(b: Book, r: Receiver, low: nat, pkt: Packet, now: u32)
    requires Sane(b) && Good(b, r) && AllFresh(b, low, r.rx) && Fresh(b, low, pkt)
    requires |pkt| >= OVERHEAD && !Stored(r.rx, SeqId(pkt))
    ensures IsSuffix(Arrive(b.ds, Shards(b), b.c, r, pkt, now).rx,
                     Freed(Queue(r, pkt, now), Begin(SeqId(pkt), Shards(b)), b.ds, Shards(b)))
  {
    DirectGood(b, low, pkt);
    FreshDecodes(b, r.rx, low, pkt, now);
    ArriveQueue(b.ds, Shards(b), b.c, r, pkt, now);
    DecodeFrees(r.rx, b.ds, Shards(b), b.c, pkt, now);
  }

  // ----- every run -----

  /** An arriving packet, the time, and a number from which all that is stored or arriving is less than SPAN ahead. */
  datatype Arrival = Arrival(pkt: Packet, now: u32, low: nat)

  ghost predicate Arrives(b: Book, r: Receiver, a: Arrival, next: Receiver)
    requires Sane(b)
  {
    && AllFresh(b, a.low, r.rx) && Fresh(b, a.low, a.pkt)
    && next == Arrive(b.ds, Shards(b), b.c, r, a.pkt, a.now)
  }

  ghost predicate IsReception(b: Book, states: seq<Receiver>, arrivals: seq<Arrival>) {
    && Sane(b) && |states| == |arrivals| + 1 && states[0] == Receiver([], [])
    && forall i :: 0 <= i < |arrivals| ==> Arrives(b, states[i], arrivals[i], states[i + 1])
  }

  lemma ReceptionNext(b: Book, states: seq<Receiver>, arrivals: seq<Arrival>, i: nat)
    requires IsReception(b, states, arrivals) && i < |arrivals| && Good(b, states[i])
    ensures Good(b, states[i + 1])
  {
    var a := arrivals[i];
    assert Arrives(b, states[i], a, states[i + 1]);
    ArriveGood(b, states[i], a.low, a.pkt, a.now);
  }

  lemma {:induction false} ReceptionGood(b: Book, states: seq<Receiver>, arrivals: seq<Arrival>, i: nat)
    requires IsReception(b, states, arrivals) && i < |states|
    ensures Good(b, states[i])
  {
    for j := 0 to i
      invariant Good(b, states[j])
    {
      ReceptionNext(b, states, arrivals, j);
    }
  }

  /**
   In every run: the queue stays strictly increasing and bounded; nothing but
   contents the sender put into its groups ever reaches `kcp.Input`; and once
   the i-th packet brings the stored shards of its group to `ds`, every content
   of that group has.
   */
  lemma EveryGroupRecovers(b: Book, states: seq<Receiver>, arrivals: seq<Arrival>, i: nat)
    requires IsReception(b, states, arrivals) && i < |arrivals|
    ensures Ordered(states[i].rx) && |states[i].rx| <= MULTIPLE * Shards(b)
    ensures OnlyContents(b, states[i].inputs)
    ensures var a := arrivals[i];
      |a.pkt| >= OVERHEAD && !Stored(states[i].rx, SeqId(a.pkt)) && GroupSize(b, states[i], a.pkt, a.now) >= b.ds ==>
        forall o :: From(b, a.pkt, o) && a.low <= o.base + o.slot < a.low + SPAN ==>
          |b.groups[o.base]| == b.ds && forall k :: 0 <= k < b.ds ==> b.groups[o.base][k] in states[i + 1].inputs
  {
    ReceptionGood(b, states, arrivals, i);
    var a, r := arrivals[i], states[i];
    assert Arrives(b, r, a, states[i + 1]);
    if |a.pkt| >= OVERHEAD && !Stored(r.rx, SeqId(a.pkt)) && GroupSize(b, r, a.pkt, a.now) >= b.ds {
      forall o | From(b, a.pkt, o) && a.low <= o.base + o.slot < a.low + SPAN
        ensures |b.groups[o.base]| == b.ds
        ensures forall k :: 0 <= k < b.ds ==> b.groups[o.base][k] in states[i + 1].inputs
      {
        ArriveHandsGroup(b, r, a.low, a.pkt, a.now, o);
      }
    }
  }

  /**
   What reaches `kcp.Input` through the correction layer is among the datagrams
   the peer's engine emitted, when those are what the sender put into its
   groups: to the engine the layer is one more network that drops, repeats,
   reorders and delays.
   */
  lemma LayerIsANetwork(b: Book, states: seq<Receiver>, arrivals: seq<Arrival>, i: nat, emitted: set<Endpoints.Packet>)
    requires IsReception(b, states, arrivals) && i < |states|
    requires forall g, x :: g in b.groups && x in b.groups[g] ==> exists p :: p in emitted && p.data == x
    ensures forall x :: x in states[i].inputs ==> exists p :: p in emitted && p.data == x
  {
    ReceptionGood(b, states, arrivals, i);
    forall x | x in states[i].inputs ensures exists p :: p in emitted && p.data == x {
      assert IsContent(b, x);
      var g, k :| g in b.groups && 0 <= k < |b.groups[g]| && b.groups[g][k] == x;
      assert x in b.groups[g];
    }
  }

  // ----- the decoder stays in tune -----

  function SizesOf(b: Book): FecTuning.Sizes {
    FecTuning.Sizes(b.ds, b.ps, b.c)
  }

  /** The whole decoder, and everything handed to `kcp.Input` so far. */
  datatype TunedReceiver = TunedReceiver(dec: FecTuning.Decoder, inputs: seq<seq<byte>>)

  /** `packetInput`, with the decoder that follows the packet types. */
  function ArriveTuned(make: FecTuning.Maker, r: TunedReceiver, pkt: Packet, now: u32): TunedReceiver
    requires FecTuning.Usable(r.dec.sizes)
  {
    if |pkt| < OVERHEAD then r
    else if !IsFec(pkt) then r.(inputs := r.inputs + [pkt])
    else
      var (recovered, dec) := FecTuning.TunedDecode(r.dec, make, pkt, now);
      TunedReceiver(dec, r.inputs + Fed(pkt, recovered))
  }

  lemma OriginFlag(b: Book, pkt: Packet, o: Origin)
    requires From(b, pkt, o)
    ensures Flag(pkt) == if o.slot < b.ds then TYPE_DATA else TYPE_PARITY
  {
    FramedFields(Wrap(o.base + o.slot), if o.slot < b.ds then TYPE_DATA else TYPE_PARITY, BodyOf(b, o));
  }

  lemma OriginAgrees(b: Book, low: nat, pkt: Packet)
    requires Sane(b) && Fresh(b, low, pkt)
    ensures FecTuning.Agrees(SizesOf(b), pkt)
  {
    var o :| From(b, pkt, o) && low <= o.base + o.slot < low + SPAN;
    OriginFlag(b, pkt, o);
    OriginFields(b, pkt, o);
  }

  lemma AgreeingArrive(z: FecTuning.Sizes, r: TunedReceiver, pkt: Packet, now: u32, make: FecTuning.Maker)
    requires FecTuning.Usable(z) && r.dec.sizes == z && FecTuning.Agrees(z, pkt)
    ensures var t := ArriveTuned(make, r, pkt, now);
      && t.dec.sizes == z
      && Receiver(t.dec.rx, t.inputs)
         == Arrive(z.ds, FecTuning.Width(z), z.codec, Receiver(r.dec.rx, r.inputs), pkt, now)
  {
    FecTuning.AgreeingKeepSizes(r.dec, make, pkt, now);
  }

  /** A decoder with the sender's sizes does with the sender's packets what it does with fixed sizes, and keeps them. */
  lemma ArriveStaysTuned(b: Book, r: TunedReceiver, low: nat, pkt: Packet, now: u32, make: FecTuning.Maker)
    requires Sane(b) && Fresh(b, low, pkt) && r.dec.sizes == SizesOf(b)
    ensures var t := ArriveTuned(make, r, pkt, now);
      && t.dec.sizes == SizesOf(b)
      && Receiver(t.dec.rx, t.inputs) == Arrive(b.ds, Shards(b), b.c, Receiver(r.dec.rx, r.inputs), pkt, now)
  {
    OriginAgrees(b, low, pkt);
    AgreeingArrive(SizesOf(b), r, pkt, now, make);
    assert FecTuning.Width(SizesOf(b)) == Shards(b);
  }

  ghost predicate ArrivesTuned(make: FecTuning.Maker, r: TunedReceiver, a: Arrival, t: TunedReceiver) {
    FecTuning.Usable(r.dec.sizes) && t == ArriveTuned(make, r, a.pkt, a.now)
  }

  /**
   So every guarantee above is one of the decoder that tunes itself: fed with
   the sender's packets it goes through the same states.
   */
  lemma {:induction false} ReceptionStaysTuned(b: Book, states: seq<Receiver>, arrivals: seq<Arrival>,
                                               make: FecTuning.Maker, tuned: seq<TunedReceiver>, i: nat)
    requires IsReception(b, states, arrivals) && |tuned| == |states| && i < |states|
    requires tuned[0] == TunedReceiver(FecTuning.Decoder(SizesOf(b), AutoTuning.Silent(), []), [])
    requires forall j :: 0 <= j < |arrivals| ==> ArrivesTuned(make, tuned[j], arrivals[j], tuned[j + 1])
    ensures tuned[i].dec.sizes == SizesOf(b) && Receiver(tuned[i].dec.rx, tuned[i].inputs) == states[i]
  {
    for j := 0 to i
      invariant tuned[j].dec.sizes == SizesOf(b) && Receiver(tuned[j].dec.rx, tuned[j].inputs) == states[j]
    {
      assert Arrives(b, states[j], arrivals[j], states[j + 1]);
      assert ArrivesTuned(make, tuned[j], arrivals[j], tuned[j + 1]);
      ArriveStaysTuned(b, tuned[j], arrivals[j].low, arrivals[j].pkt, arrivals[j].now, make);
    }
  }
}
