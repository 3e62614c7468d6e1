/**
 What the two ends of the forward error correction layer guarantee together
 (network/kcp/fec.go:69-132, 170-253, 337-391, network/kcp/udp.go:616-660): as
 soon as enough shards of a group are stored, the receiving engine has been
 handed the original bytes of every data packet of the group, directly or
 recovered, and it is never handed anything else.

 A number on the circle of 32-bit packet numbers is unwound: group `base` is
 `lap * 2^32` plus the number of its first packet.
 */
module FecRecovery {
  import opened Serial
  import opened Wire
  import opened FecPackets
  import opened FecCodec
  import opened FecEncoding
  import opened FecDecoding

  /** How far apart the numbers of the stored and the arriving packets may be. */
  const SPAN: int := HALF - 0x200

  /** The parameters both ends share, and what the sender put into every group it began. */
  datatype Book = Book(ds: nat, ps: nat, c: Codec, groups: map<nat, seq<seq<byte>>>)

  /** The packet in place `slot` of group `base`. */
  datatype Origin = Origin(base: nat, slot: nat)

  function Shards(b: Book): nat {
    b.ds + b.ps
  }

  /** Group numbers are unwound from aligned starts and do not overlap. */
  ghost predicate Sane(b: Book) {
    && 0 < b.ds && 0 < b.ps && Shards(b) <= 256 && Lawful(b.c, b.ds, b.ps)
    && (forall g :: g in b.groups ==>
         && Wrap(g) % Shards(b) == 0 && Wrap(g) + Shards(b) < FULL
         && |b.groups[g]| <= b.ds
         && forall x :: x in b.groups[g] ==> 2 + |x| < 0x1_0000)
    && forall g, h :: g in b.groups && h in b.groups && g < h ==> g + Shards(b) <= h
  }

  function SizedAll(contents: seq<seq<byte>>): (g: seq<Shard>)
    ensures |g| == |contents|
  {
    seq(|contents|, k requires 0 <= k < |contents| => Sized(contents[k]))
  }

  /** The data shards of a group, as given to the erasure code. */
  function DataShards(contents: seq<seq<byte>>): (g: seq<Shard>)
    ensures |g| == |contents|
  {
    Stretched(SizedAll(contents))
  }

  ghost predicate Sent(b: Book, o: Origin) {
    && o.base in b.groups && o.slot < Shards(b)
    && (o.slot < b.ds ==> o.slot < |b.groups[o.base]|)
    && (o.slot >= b.ds ==> |b.groups[o.base]| == b.ds && b.c.encode(DataShards(b.groups[o.base])).Some?
                           && |b.c.encode(DataShards(b.groups[o.base])).value| == b.ps)
  }

  function BodyOf(b: Book, o: Origin): seq<byte>
    requires Sent(b, o)
  {
    if o.slot < b.ds then Sized(b.groups[o.base][o.slot])
    else b.c.encode(DataShards(b.groups[o.base])).value[o.slot - b.ds]
  }

  function PacketOf(b: Book, o: Origin): Packet
    requires Sent(b, o)
  {
    Framed(Wrap(o.base + o.slot), if o.slot < b.ds then TYPE_DATA else TYPE_PARITY, BodyOf(b, o))
  }

  ghost predicate From(b: Book, pkt: Packet, o: Origin) {
    Sent(b, o) && pkt == PacketOf(b, o)
  }

  /** The packet is one of the sender's, and its number is within SPAN of `low`. */
  ghost predicate Fresh(b: Book, low: nat, pkt: Packet) {
    exists o :: From(b, pkt, o) && low <= o.base + o.slot < low + SPAN
  }

  // ----- numbers -----

  lemma GroupNumber(base: nat, slot: nat, ss: nat)
    requires 0 < ss && Wrap(base) % ss == 0 && slot < ss && Wrap(base) + ss < FULL
    ensures Wrap(base + slot) == Wrap(base) + slot
    ensures Wrap(base + slot) % ss == slot && Begin(Wrap(base + slot), ss) == Wrap(base)
  {
    WrapPlus(base, slot);
    WrapId(Wrap(base) + slot);
    PlaceOf(Wrap(base), slot, ss);
  }

  /** What a packet's own bytes say about its origin. */
  lemma OriginFields(b: Book, pkt: Packet, o: Origin)
    requires Sane(b) && From(b, pkt, o)
    ensures SeqId(pkt) == Wrap(o.base + o.slot) == Wrap(o.base) + o.slot
    ensures SeqId(pkt) % Shards(b) == o.slot && Begin(SeqId(pkt), Shards(b)) == Wrap(o.base)
    ensures (Flag(pkt) == TYPE_DATA <==> o.slot < b.ds) && Body(pkt) == BodyOf(b, o)
  {
    FramedFields(Wrap(o.base + o.slot), if o.slot < b.ds then TYPE_DATA else TYPE_PARITY, BodyOf(b, o));
    GroupNumber(o.base, o.slot, Shards(b));
  }

  lemma NumberNear(n: nat, low: nat, ss: nat)
    requires low <= n < low + SPAN && ss <= 256
    ensures Near(Wrap(n), Wrap(low - ss), ss)
  {
    OffsetIs(n, low - ss);
  }

  lemma OriginNear(b: Book, low: nat, pkt: Packet, o: Origin)
    requires Sane(b) && From(b, pkt, o) && low <= o.base + o.slot < low + SPAN
    ensures Near(SeqId(pkt), Wrap(low - Shards(b)), Shards(b))
  {
    OriginFields(b, pkt, o);
    NumberNear(o.base + o.slot, low, Shards(b));
  }

  /** Fresh packets lie near a common base, so the queue can be ordered by number. */
  lemma FreshNear(b: Book, low: nat, pkt: Packet)
    requires Sane(b) && Fresh(b, low, pkt)
    ensures Near(SeqId(pkt), Wrap(low - Shards(b)), Shards(b))
  {
    var o :| From(b, pkt, o) && low <= o.base + o.slot < low + SPAN;
    OriginNear(b, low, pkt, o);
  }

  /** How far one packet's number is from the beginning of another's group. */
  lemma OffsetFromGroup(b: Book, pkt: Packet, o: Origin, e: Element, p: Origin)
    requires Sane(b) && From(b, pkt, o) && From(b, e.pkt, p)
    ensures Offset(Id(e), Begin(SeqId(pkt), Shards(b))) == Wrap(p.base + p.slot - o.base)
  {
    OriginFields(b, pkt, o);
    OriginFields(b, e.pkt, p);
    OffsetWrap(p.base + p.slot, o.base);
  }

  /** Less than half a circle apart, different groups do not overlap in 32 bits either. */
  lemma GroupsApart(g: nat, h: nat, slot: nat, ss: nat)
    requires slot < ss <= 256 && -HALF <= h + slot - g < HALF
    requires g == h || g + ss <= h || h + ss <= g
    ensures Wrap(h + slot - g) < ss <==> g == h
  {
    WrapSmall(h + slot - g);
  }

  /** Two fresh packets are in the same 32-bit group just when they are in the same group. */
  lemma SameGroup(b: Book, low: nat, pkt: Packet, o: Origin, e: Element, p: Origin)
    requires Sane(b) && From(b, pkt, o) && From(b, e.pkt, p)
    requires low <= o.base + o.slot < low + SPAN && low <= p.base + p.slot < low + SPAN
    ensures InGroup(e, Begin(SeqId(pkt), Shards(b)), Shards(b)) <==> p.base == o.base
  {
    OffsetFromGroup(b, pkt, o, e, p);
    GroupsApart(o.base, p.base, p.slot, Shards(b));
  }

  // ----- the shards of one group -----

  /** Members of one group: each in its own place, data exactly in the first `ds` places. */
  ghost predicate OneGroup(ms: seq<Element>, ds: nat, ss: nat)
    requires ss > 0
  {
    && (forall i, j :: 0 <= i < j < |ms| ==> Id(ms[i]) % ss != Id(ms[j]) % ss)
    && forall i :: 0 <= i < |ms| ==> (Flag(ms[i].pkt) == TYPE_DATA <==> Id(ms[i]) % ss < ds)
  }

  lemma {:induction false} PresentUpdate(shards: seq<Option<Shard>>, k: nat, x: Shard)
    requires k < |shards| && shards[k].None?
    ensures Present(shards[k := Some(x)]) == Present(shards) + 1
  {
    if k == 0 {
      assert shards[0 := Some(x)][1..] == shards[1..];
    } else {
      assert shards[k := Some(x)][1..] == shards[1..][k - 1 := Some(x)];
      PresentUpdate(shards[1..], k - 1, x);
    }
  }

  lemma {:induction false} PresentNone(n: nat)
    ensures Present(seq(n, _ => None)) == 0
  {
    if n > 0 {
      assert seq<Option<Shard>>(n, _ => None)[1..] == seq<Option<Shard>>(n - 1, _ => None);
      PresentNone(n - 1);
    }
  }

  /** A filled place comes from a member with that place. */
  lemma {:induction false} SlotSource(ms: seq<Element>, ss: nat, k: nat) returns (i: nat)
    requires ss > 0 && k < ss && Slots(ms, ss)[k].Some?
    ensures i < |ms| && Id(ms[i]) % ss == k && Slots(ms, ss)[k].value == Body(ms[i].pkt)
  {
    var n := |ms| - 1;
    if Id(ms[n]) % ss == k {
      i := n;
    } else {
      i := SlotSource(ms[..n], ss, k);
    }
  }

  lemma {:induction false} SlotEmpty(ms: seq<Element>, ss: nat, k: nat)
    requires ss > 0 && k < ss && forall i :: 0 <= i < |ms| ==> Id(ms[i]) % ss != k
    ensures Slots(ms, ss)[k].None?
  {
    if ms != [] {
      SlotEmpty(ms[..|ms| - 1], ss, k);
    }
  }

  /** Filling an empty place, counted over the whole table and over its first `ds` places. */
  lemma {:induction false} PresentAfter(slots: seq<Option<Shard>>, ds: nat, k: nat, x: Shard)
    requires ds <= |slots| && k < |slots| && slots[k].None?
    ensures Present(slots[k := Some(x)]) == Present(slots) + 1
    ensures Present(slots[k := Some(x)][..ds]) == Present(slots[..ds]) + if k < ds then 1 else 0
  {
    PresentUpdate(slots, k, x);
    if k < ds {
      PresentUpdate(slots[..ds], k, x);
      assert slots[k := Some(x)][..ds] == slots[..ds][k := Some(x)];
    } else {
      assert slots[k := Some(x)][..ds] == slots[..ds];
    }
  }

  /** The table holds every member once: as many places are filled as there are members, and likewise of data. */
  lemma {:induction false} SlotsCount(ms: seq<Element>, ds: nat, ss: nat)
    requires 0 < ds <= ss && OneGroup(ms, ds, ss)
    ensures Present(Slots(ms, ss)) == |ms|
    ensures Present(Slots(ms, ss)[..ds]) == DataCount(ms)
  {
    if ms == [] {
      PresentNone(ss);
      PresentNone(ds);
      assert Slots(ms, ss)[..ds] == seq<Option<Shard>>(ds, _ => None);
    } else {
      var n := |ms| - 1;
      var before, k := Slots(ms[..n], ss), Id(ms[n]) % ss;
      SlotsCount(ms[..n], ds, ss);
      SlotEmpty(ms[..n], ss, k);
      PresentAfter(before, ds, k, Body(ms[n].pkt));
    }
  }

  lemma {:induction false} NotAllData(ms: seq<Element>) returns (i: nat)
    requires DataCount(ms) < |ms|
    ensures i < |ms| && Flag(ms[i].pkt) != TYPE_DATA
  {
    var n := |ms| - 1;
    if Flag(ms[n].pkt) != TYPE_DATA {
      i := n;
    } else {
      i := NotAllData(ms[..n]);
    }
  }

  lemma {:induction false} MaxLengthAtMost(ms: seq<Element>, n: nat)
    requires forall j :: 0 <= j < |ms| ==> |Body(ms[j].pkt)| <= n
    ensures MaxLength(ms) <= n
  {
    if ms != [] {
      MaxLengthAtMost(ms[..|ms| - 1], n);
    }
  }

  lemma {:induction false} MaxLengthIs(ms: seq<Element>, n: nat, i: nat)
    requires i < |ms| && |Body(ms[i].pkt)| == n
    requires forall j :: 0 <= j < |ms| ==> |Body(ms[j].pkt)| <= n
    ensures MaxLength(ms) == n
  {
    var k := |ms| - 1;
    MaxLengthAtMost(ms[..k], n);
    if i < k {
      MaxLengthIs(ms[..k], n, i);
    }
  }

  /** Every member of `ms` is a packet of group `base`. */
  ghost predicate AllFrom(b: Book, base: nat, ms: seq<Element>) {
    Sane(b) && forall i :: 0 <= i < |ms| ==> From(b, ms[i].pkt, Origin(base, Id(ms[i]) % Shards(b)))
  }

  lemma GroupLength(contents: seq<seq<byte>>, k: nat)
    requires k < |contents|
    ensures EqualLengths(DataShards(contents), Longest(SizedAll(contents)))
    ensures 2 + |contents[k]| <= Longest(SizedAll(contents))
  {
    StretchedEqual(SizedAll(contents));
    LongestBounds(SizedAll(contents));
    assert SizedAll(contents)[k] in SizedAll(contents);
  }

  lemma ParityShape(b: Book, base: nat)
    requires Sane(b) && base in b.groups && |b.groups[base]| == b.ds
    ensures var n := Longest(SizedAll(b.groups[base]));
      && n > 0 && b.c.encode(DataShards(b.groups[base])).Some?
      && |b.c.encode(DataShards(b.groups[base])).value| == b.ps
      && EqualLengths(b.c.encode(DataShards(b.groups[base])).value, n)
  {
    GroupLength(b.groups[base], 0);
  }

  /** The body of a packet is at most as long as the group's shards, and a parity packet's exactly as long. */
  lemma BodyLength(b: Book, o: Origin)
    requires Sane(b) && Sent(b, o)
    ensures var n := Longest(SizedAll(b.groups[o.base]));
      |BodyOf(b, o)| <= n && (o.slot >= b.ds ==> |BodyOf(b, o)| == n)
  {
    if o.slot < b.ds {
      GroupLength(b.groups[o.base], o.slot);
    } else {
      ParityShape(b, o.base);
      assert BodyOf(b, o) in b.c.encode(DataShards(b.groups[o.base])).value;
    }
  }

  /**
   The padding is right: a group that lacks a data shard but has enough shards
   holds a parity shard, so the longest stored shard is as long as the encoder's.
   */
  lemma {:induction false} PaddingIsRight(b: Book, base: nat, ms: seq<Element>)
    requires AllFrom(b, base, ms) && DataCount(ms) < b.ds <= |ms|
    ensures base in b.groups && |b.groups[base]| == b.ds
    ensures MaxLength(ms) == Longest(SizedAll(b.groups[base]))
  {
    var i := NotAllData(ms);
    var o := Origin(base, Id(ms[i]) % Shards(b));
    OriginFields(b, ms[i].pkt, o);
    BodyLength(b, o);
    forall j | 0 <= j < |ms| ensures |Body(ms[j].pkt)| <= Longest(SizedAll(b.groups[base])) {
      var p := Origin(base, Id(ms[j]) % Shards(b));
      OriginFields(b, ms[j].pkt, p);
      BodyLength(b, p);
    }
    MaxLengthIs(ms, Longest(SizedAll(b.groups[base])), i);
  }

  lemma PaddedSized(contents: seq<seq<byte>>, k: nat)
    requires k < |contents|
    ensures Pad(Sized(contents[k]), Longest(SizedAll(contents))) == DataShards(contents)[k]
  {
  }

  /** A packet's body, padded, is the encoder's shard of its place. */
  lemma BodyIsShard(b: Book, o: Origin)
    requires Sane(b) && Sent(b, o) && |b.groups[o.base]| == b.ds
    ensures b.c.encode(DataShards(b.groups[o.base])).Some?
    ensures |b.c.encode(DataShards(b.groups[o.base])).value| == b.ps
    ensures Pad(BodyOf(b, o), Longest(SizedAll(b.groups[o.base])))
      == (DataShards(b.groups[o.base]) + b.c.encode(DataShards(b.groups[o.base])).value)[o.slot]
  {
    BodyLength(b, o);
    ParityShape(b, o.base);
    if o.slot < b.ds {
      PaddedSized(b.groups[o.base], o.slot);
    }
  }

  /** A stored shard, padded, is the encoder's shard of its place. */
  lemma {:induction false} SlotIsShard(b: Book, base: nat, ms: seq<Element>, k: nat)
    requires AllFrom(b, base, ms) && k < Shards(b) && Slots(ms, Shards(b))[k].Some?
    requires base in b.groups && |b.groups[base]| == b.ds
    ensures b.c.encode(DataShards(b.groups[base])).Some? && |b.c.encode(DataShards(b.groups[base])).value| == b.ps
    ensures Pad(Slots(ms, Shards(b))[k].value, Longest(SizedAll(b.groups[base])))
      == (DataShards(b.groups[base]) + b.c.encode(DataShards(b.groups[base])).value)[k]
  {
    var i := SlotSource(ms, Shards(b), k);
    OriginFields(b, ms[i].pkt, Origin(base, k));
    BodyIsShard(b, Origin(base, k));
  }

  /** The padded table is the encoder's group with some shards missing. */
  lemma {:induction false} TableIsErased(b: Book, base: nat, ms: seq<Element>)
    requires AllFrom(b, base, ms) && base in b.groups && |b.groups[base]| == b.ds
    requires MaxLength(ms) == Longest(SizedAll(b.groups[base]))
    ensures b.c.encode(DataShards(b.groups[base])).Some?
    ensures var data := DataShards(b.groups[base]);
      Erased(PadSlots(Slots(ms, Shards(b)), MaxLength(ms)), data + b.c.encode(data).value)
  {
    ParityShape(b, base);
    var slots := Slots(ms, Shards(b));
    forall k | 0 <= k < Shards(b) && slots[k].Some?
      ensures Pad(slots[k].value, MaxLength(ms))
        == (DataShards(b.groups[base]) + b.c.encode(DataShards(b.groups[base])).value)[k]
    {
      SlotIsShard(b, base, ms, k);
    }
  }

  lemma {:induction false} PadSlotsPresent(slots: seq<Option<Shard>>, n: nat)
    ensures Present(PadSlots(slots, n)) == Present(slots)
  {
    if slots != [] {
      assert PadSlots(slots, n)[1..] == PadSlots(slots[1..], n);
      PadSlotsPresent(slots[1..], n);
    }
  }

  /** The erasure code gives back the data shards. */
  lemma {:induction false} GroupReconstructs(b: Book, base: nat, ms: seq<Element>)
    requires AllFrom(b, base, ms) && OneGroup(ms, b.ds, Shards(b)) && DataCount(ms) < b.ds <= |ms|
    ensures base in b.groups && |b.groups[base]| == b.ds
    ensures b.c.reconstruct(PadSlots(Slots(ms, Shards(b)), MaxLength(ms))) == Some(DataShards(b.groups[base]))
  {
    var ss := Shards(b);
    PaddingIsRight(b, base, ms);
    TableIsErased(b, base, ms);
    var data, shards := DataShards(b.groups[base]), PadSlots(Slots(ms, ss), MaxLength(ms));
    ParityShape(b, base);
    GroupLength(b.groups[base], 0);
    SlotsCount(ms, b.ds, ss);
    PadSlotsPresent(Slots(ms, ss), MaxLength(ms));
    assert Recovers(b.c, data, shards);
  }

  lemma {:induction false} GapsAre(slots: seq<Option<Shard>>, data: seq<Shard>, n: nat)
    requires n <= |slots| && n <= |data|
    ensures forall k :: 0 <= k < n && slots[k].None? ==> data[k] in Gaps(slots, data, n)
    ensures forall r :: r in Gaps(slots, data, n) ==> exists k :: 0 <= k < n && slots[k].None? && data[k] == r
  {
    if n > 0 {
      GapsAre(slots, data, n - 1);
    }
  }

  /** What `ranger` makes of a reconstructed data shard. */
  lemma ShardIsContent(contents: seq<seq<byte>>, k: nat)
    requires k < |contents| && 2 + |contents[k]| < 0x1_0000
    ensures Ranger(DataShards(contents)[k]) == Some(contents[k])
  {
    RangerInverts(contents[k], Longest(SizedAll(contents)));
  }

  lemma ContentsAre(b: Book, base: nat)
    requires Sane(b) && base in b.groups && |b.groups[base]| == b.ds
    ensures forall k :: 0 <= k < b.ds ==> Ranger(DataShards(b.groups[base])[k]) == Some(b.groups[base][k])
  {
    forall k | 0 <= k < b.ds ensures Ranger(DataShards(b.groups[base])[k]) == Some(b.groups[base][k]) {
      assert b.groups[base][k] in b.groups[base];
      ShardIsContent(b.groups[base], k);
    }
  }

  lemma {:induction false} RecoveredAre(b: Book, base: nat, ms: seq<Element>)
    requires AllFrom(b, base, ms) && OneGroup(ms, b.ds, Shards(b)) && DataCount(ms) < b.ds <= |ms|
    ensures base in b.groups && |b.groups[base]| == b.ds
    ensures Recovered(ms, b.ds, Shards(b), b.c)
      == Gaps(Slots(ms, Shards(b)), DataShards(b.groups[base]), b.ds)
  {
    GroupReconstructs(b, base, ms);
  }

  /**
   Recovery of one group from any `ds` of its shards: what is recovered, with the
   padding stripped, is exactly the contents of the data packets not stored.
   */
  lemma {:induction false} GroupRecovers(b: Book, base: nat, ms: seq<Element>)
    requires AllFrom(b, base, ms) && OneGroup(ms, b.ds, Shards(b)) && DataCount(ms) < b.ds <= |ms|
    ensures base in b.groups && |b.groups[base]| == b.ds
    ensures forall k :: 0 <= k < b.ds && Slots(ms, Shards(b))[k].None? ==>
      exists r :: r in Recovered(ms, b.ds, Shards(b), b.c) && Ranger(r) == Some(b.groups[base][k])
    ensures forall r :: r in Recovered(ms, b.ds, Shards(b), b.c) ==>
      exists k :: 0 <= k < b.ds && Slots(ms, Shards(b))[k].None? && Ranger(r) == Some(b.groups[base][k])
  {
    RecoveredAre(b, base, ms);
    ContentsAre(b, base);
    GapsAre(Slots(ms, Shards(b)), DataShards(b.groups[base]), b.ds);
  }
}
