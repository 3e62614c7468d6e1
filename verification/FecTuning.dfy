/**
 The whole decoder on values (network/kcp/fec.go:134-253): every packet is
 sampled; one whose type does not suit its place in the group makes the decoder
 look for other group sizes, and is dropped when there are none; then
 FecDecoding.WindowDecode does the rest with the sizes of the moment.
 */
module FecTuning {
  import opened Serial
  import opened Wire
  import opened AutoTuning
  import opened FecPackets
  import opened FecCodec
  import opened FecDecoding

  /** `reedsolomon.New`. */
  type Maker = (int, int) -> Option<Codec>

  datatype Sizes = Sizes(ds: nat, ps: nat, codec: Codec)

  function Width(z: Sizes): nat {
    z.ds + z.ps
  }

  predicate Usable(z: Sizes) {
    0 < z.ds && 0 < z.ps
  }

  datatype Decoder = Decoder(sizes: Sizes, pulses: Pulses, rx: seq<Element>)

  /** The number is in the data part of its group. */
  predicate IsData(n: nat, ds: nat, ss: nat)
    requires ss > 0
  {
    n % ss < ds
  }

  /** The packet's type suits its place. */
  predicate Agrees(z: Sizes, pkt: Packet)
    requires Usable(z)
  {
    if IsData(SeqId(pkt), z.ds, Width(z)) then Flag(pkt) == TYPE_DATA else Flag(pkt) == TYPE_PARITY
  }

  /** The sizes the table suggests: none when there is no code for them, the old ones when they are no better. */
  function Suggested(z: Sizes, ps: Pulses, make: Maker): (r: Option<Sizes>)
    requires Usable(z)
    ensures r.Some? ==> Usable(r.value)
  {
    var autoDS, autoPS := Period(ps, true), Period(ps, false);
    match make(autoDS, autoPS)
    case None => None
    case Some(codec) =>
      if 0 < autoDS < 256 && 0 < autoPS < 256 && (autoDS != z.ds || autoPS != z.ps)
      then Some(Sizes(autoDS, autoPS, codec)) else Some(z)
  }

  /** `shoulTune`: the sizes to go on with, unless the packet is to be dropped. */
  function Tuned(z: Sizes, ps: Pulses, make: Maker, pkt: Packet): (r: Option<Sizes>)
    requires Usable(z)
    ensures r.Some? ==> Usable(r.value)
  {
    if Agrees(z, pkt) then Some(z) else Suggested(z, ps, make)
  }

  function SampledPacket(ps: Pulses, pkt: Packet): Pulses {
    Sampled(ps, Flag(pkt) == TYPE_DATA, SeqId(pkt))
  }

  /** `decode`: what is recovered, and the decoder afterwards. */
  function TunedDecode(d: Decoder, make: Maker, pkt: Packet, now: u32): (r: (seq<Shard>, Decoder))
    requires Usable(d.sizes)
    ensures Usable(r.1.sizes)
  {
    var ps := SampledPacket(d.pulses, pkt);
    match Tuned(d.sizes, ps, make, pkt)
    case None => ([], d.(pulses := ps))
    case Some(z) =>
      var (recovered, rx) := WindowDecode(d.rx, z.ds, Width(z), z.codec, pkt, now);
      (recovered, Decoder(z, ps, rx))
  }

  lemma TunedDecodeTakes(d: Decoder, make: Maker, pkt: Packet, now: u32, z: Sizes, recovered: seq<Shard>,
                         rx: seq<Element>)
    requires Usable(d.sizes) && Usable(z) && Tuned(d.sizes, SampledPacket(d.pulses, pkt), make, pkt) == Some(z)
    requires WindowDecode(d.rx, z.ds, Width(z), z.codec, pkt, now) == (recovered, rx)
    ensures TunedDecode(d, make, pkt, now) == (recovered, Decoder(z, SampledPacket(d.pulses, pkt), rx))
  {
  }

  /** The packet is copied into the queue. */
  predicate TakesIn(d: Decoder, make: Maker, pkt: Packet)
    requires Usable(d.sizes)
  {
    Tuned(d.sizes, SampledPacket(d.pulses, pkt), make, pkt).Some? && Scan(d.rx, SeqId(pkt)).Some?
  }

  /** On packets that suit their places the sizes stay, and the table does not matter. */
  lemma AgreeingKeepSizes(d: Decoder, make: Maker, pkt: Packet, now: u32)
    requires Usable(d.sizes) && Agrees(d.sizes, pkt)
    ensures var (recovered, rx) := WindowDecode(d.rx, d.sizes.ds, Width(d.sizes), d.sizes.codec, pkt, now);
      TunedDecode(d, make, pkt, now) == (recovered, Decoder(d.sizes, SampledPacket(d.pulses, pkt), rx))
  {
  }

  /**
   The sizes after a packet: the table's, when the packet does not suit its place,
   there is a code for them, both are from 1 to 255 and they are not the old ones;
   else as before.
   */
  lemma SizesAfter(d: Decoder, make: Maker, pkt: Packet, now: u32)
    requires Usable(d.sizes)
    ensures var ps, z := SampledPacket(d.pulses, pkt), d.sizes;
      var d', p' := Period(ps, true), Period(ps, false);
      TunedDecode(d, make, pkt, now).1.sizes ==
        if !Agrees(z, pkt) && make(d', p').Some? && 1 <= d' <= 255 && 1 <= p' <= 255 && !(d' == z.ds && p' == z.ps)
        then Sizes(d', p', make(d', p').value) else z
  {
  }

  /** A packet that does not suit its place, when there is no code for the table's sizes, changes the table only. */
  lemma DroppedPacket(d: Decoder, make: Maker, pkt: Packet, now: u32)
    requires Usable(d.sizes) && !Agrees(d.sizes, pkt)
    requires make(Period(SampledPacket(d.pulses, pkt), true), Period(SampledPacket(d.pulses, pkt), false)).None?
    ensures TunedDecode(d, make, pkt, now) == ([], d.(pulses := SampledPacket(d.pulses, pkt)))
  {
  }

  // ----- the length of what is recovered -----

  ghost predicate AllShort(rx: seq<Element>, n: nat) {
    forall e :: e in rx ==> |e.pkt| <= n
  }

  lemma {:induction false} ShortMembers(ms: seq<Element>, ss: nat, n: nat)
    requires ss > 0 && AllShort(ms, HEADER + n)
    ensures AllWithin(Slots(ms, ss), n) && MaxLength(ms) <= n
  {
    if ms != [] {
      var last, before := ms[|ms| - 1], ms[..|ms| - 1];
      assert last in ms;
      assert forall e :: e in before ==> e in ms;
      ShortMembers(before, ss, n);
    }
  }

  lemma {:induction false} GapsAre(slots: seq<Option<Shard>>, data: seq<Shard>, n: nat)
    requires n <= |slots| && n <= |data|
    ensures forall r :: r in Gaps(slots, data, n) ==> r in data
  {
    if n > 0 {
      GapsAre(slots, data, n - 1);
    }
  }

  lemma RecoveredShort(ms: seq<Element>, ds: nat, ss: nat, c: Codec, n: nat)
    requires 0 < ds <= ss && AllShort(ms, HEADER + n) && Conserves(c)
    ensures forall r :: r in Recovered(ms, ds, ss, c) ==> |r| <= n
  {
    ShortMembers(ms, ss, n);
    var padded := PadSlots(Slots(ms, ss), MaxLength(ms));
    assert AllWithin(padded, n);
    match c.reconstruct(padded)
    case None =>
    case Some(data) =>
      if |data| == ds {
        GapsAre(Slots(ms, ss), data, ds);
      }
  }

  lemma {:induction false} GatheredAre(w: seq<Element>, begin: u32, end: u32)
    ensures forall e :: e in Gathered(w, begin, end) ==> e in w
  {
    if w != [] && Diff(Id(w[0]), end) <= 0 {
      GatheredAre(w[1..], begin, end);
    }
  }

  lemma SearchedShort(q: seq<Element>, begin: u32, from: nat, ds: nat, ss: nat, c: Codec, n: nat)
    requires 0 < ds <= ss && from <= |q| && AllShort(q, HEADER + n) && Conserves(c)
    ensures forall r :: r in Searched(q, begin, from, ds, ss, c).0 ==> |r| <= n
  {
    var w := q[from..Min(from + ss, |q|)];
    GatheredAre(w, begin, End(begin, ss));
    assert forall e :: e in w ==> e in q;
    RecoveredShort(Gathered(w, begin, End(begin, ss)), ds, ss, c, n);
  }

  /** No code of the decoder, and none it can change to, makes shards longer. */
  ghost predicate AllConserve(z: Sizes, make: Maker) {
    Conserves(z.codec) && forall d, p :: make(d, p).Some? ==> Conserves(make(d, p).value)
  }

  lemma WindowDecodeShort(rx: seq<Element>, ds: nat, ss: nat, c: Codec, pkt: Packet, now: u32, n: nat)
    requires 0 < ds <= ss && AllShort(rx, HEADER + n) && |pkt| <= HEADER + n && Conserves(c)
    ensures forall r :: r in WindowDecode(rx, ds, ss, c, pkt, now).0 ==> |r| <= n
  {
    var id := SeqId(pkt);
    match Scan(rx, id)
    case None =>
    case Some(at) =>
      var q := rx[..at] + [Element(pkt, now)] + rx[at..];
      assert forall e :: e in q ==> e in rx || e == Element(pkt, now);
      WindowDecodeIs(rx, ds, ss, c, pkt, now, at, q);
      SearchedShort(q, Begin(id, ss), SearchBegin(at, id, ss), ds, ss, c, n);
  }

  /** What is recovered is no longer than the packets' bodies; so pooled buffers hold it. */
  lemma RecoveredFits(d: Decoder, make: Maker, pkt: Packet, now: u32)
    requires Usable(d.sizes) && AllConserve(d.sizes, make) && AllShort(d.rx, MTU_LIMIT) && |pkt| <= MTU_LIMIT
    ensures forall r :: r in TunedDecode(d, make, pkt, now).0 ==> |r| <= MTU_LIMIT - HEADER
    ensures AllConserve(TunedDecode(d, make, pkt, now).1.sizes, make)
  {
    match Tuned(d.sizes, SampledPacket(d.pulses, pkt), make, pkt)
    case None =>
    case Some(z) => WindowDecodeShort(d.rx, z.ds, Width(z), z.codec, pkt, now, MTU_LIMIT - HEADER);
  }

  // ----- what leaves the queue -----

  /** `rest` is what is left of `m` without its head of packets stored more than a minute ago, and only those. */
  ghost predicate WithoutOld(m: seq<Element>, rest: seq<Element>, now: u32) {
    && |rest| <= |m| && rest == m[|m| - |rest|..]
    && (forall i :: 0 <= i < |m| - |rest| ==> Diff(now, m[i].ts) > 60000)
    && (rest != [] ==> Diff(now, rest[0].ts) <= 60000)
  }

  lemma {:induction false} ExpiredIsOld(m: seq<Element>, now: u32)
    ensures WithoutOld(m, m[Expired(m, now)..], now)
  {
    if m != [] && Diff(now, m[0].ts) > EXPIRE {
      ExpiredIsOld(m[1..], now);
      var n := Expired(m[1..], now);
      assert m[1..][n..] == m[n + 1..];
      forall i | 0 <= i < n + 1 ensures Diff(now, m[i].ts) > 60000 {
        if i > 0 {
          assert m[i] == m[1..][i - 1];
        }
      }
    }
  }

  /** Beyond three groups' worth one packet is dropped, the first of the queue. */
  function WithinLimit(m: seq<Element>, z: Sizes): seq<Element> {
    if |m| > 3 * (z.ds + z.ps) then m[1..] else m
  }

  /**
   The queue after a packet that was stored: what the search for its group left,
   less the first packet if that is beyond the limit, less what is too old at the
   front.
   */
  lemma QueueAfter(d: Decoder, make: Maker, pkt: Packet, now: u32, z: Sizes, at: nat)
    requires Usable(d.sizes) && Tuned(d.sizes, SampledPacket(d.pulses, pkt), make, pkt) == Some(z)
    requires Scan(d.rx, SeqId(pkt)) == Some(at)
    ensures Usable(z) && at <= |d.rx|
    ensures var q := d.rx[..at] + [Element(pkt, now)] + d.rx[at..];
      var kept := Searched(q, Begin(SeqId(pkt), Width(z)), SearchBegin(at, SeqId(pkt), Width(z)), z.ds, Width(z),
                           z.codec).1;
      WithoutOld(WithinLimit(kept, z), TunedDecode(d, make, pkt, now).1.rx, now)
  {
    var q := d.rx[..at] + [Element(pkt, now)] + d.rx[at..];
    var kept := Searched(q, Begin(SeqId(pkt), Width(z)), SearchBegin(at, SeqId(pkt), Width(z)), z.ds, Width(z),
                         z.codec).1;
    WindowDecodeIs(d.rx, z.ds, Width(z), z.codec, pkt, now, at, q);
    ExpiredIsOld(WithinLimit(kept, z), now);
  }

  /** A packet that is not stored changes nothing in the queue. */
  lemma QueueKept(d: Decoder, make: Maker, pkt: Packet, now: u32)
    requires Usable(d.sizes) && !TakesIn(d, make, pkt)
    ensures TunedDecode(d, make, pkt, now).1.rx == d.rx && TunedDecode(d, make, pkt, now).0 == []
  {
  }

  // ----- tuning to a sender -----

  /** The packet is one that a sender of `ds` data packets in groups of `ss` makes. */
  predicate SentBy(pkt: Packet, ds: nat, ss: nat)
    requires ss > 0
  {
    SeqId(pkt) < 0xffff_ffff && Flag(pkt) == if IsData(SeqId(pkt), ds, ss) then TYPE_DATA else TYPE_PARITY
  }

  /** A sender's packets keep the table truthful, also when they are dropped. */
  lemma TableStaysTruthful(d: Decoder, make: Maker, pkt: Packet, now: u32, ds: nat, ss: nat)
    requires Usable(d.sizes) && ss > 0 && Truthful(d.pulses, ds, ss) && SentBy(pkt, ds, ss)
    ensures Truthful(TunedDecode(d, make, pkt, now).1.pulses, ds, ss)
  {
    SampledTruthful(d.pulses, ds, ss, SeqId(pkt));
  }

  /** A decoder that changes its sizes on a sender's packets takes the sender's, exactly unless it was misled. */
  lemma ChangesToSender(d: Decoder, make: Maker, pkt: Packet, now: u32, ds: nat, ss: nat)
    requires Usable(d.sizes) && 0 < ds < ss && Truthful(d.pulses, ds, ss) && SentBy(pkt, ds, ss)
    requires TunedDecode(d, make, pkt, now).1.sizes != d.sizes
    ensures var z := TunedDecode(d, make, pkt, now).1.sizes;
      && z.ps == ss - ds && (z.ds == ds <==> !Misled(SampledPacket(d.pulses, pkt)))
      && make(z.ds, z.ps) == Some(z.codec)
  {
    SampledTruthful(d.pulses, ds, ss, SeqId(pkt));
    PeriodsAre(SampledPacket(d.pulses, pkt), ds, ss);
  }

  /** Once two groups' worth of numbers at the start of a lap were heard, the first packet out of place tunes it. */
  lemma {:induction false} TunesToSender(d: Decoder, make: Maker, pkt: Packet, now: u32, was: Pulses, ids: seq<u32>,
                                         base: nat, ds: nat, ss: nat, c: Codec)
    requires Usable(d.sizes) && 0 < ds < ss && 2 * ss <= SAMPLES && make(ds, ss - ds) == Some(c)
    requires SampledPacket(d.pulses, pkt) == SampledAll(was, ds, ss, ids)
    requires OneLap(ids, base) && base + 2 * ss <= FULL && forall n: u32 :: base <= n < base + 2 * ss ==> n in ids
    requires d.sizes.ds != ds || d.sizes.ps != ss - ds
    ensures TunedDecode(d, make, pkt, now).1.sizes == if Agrees(d.sizes, pkt) then d.sizes else Sizes(ds, ss - ds, c)
  {
    PeriodsFound(was, ds, ss, ids, base);
  }

  lemma FirstGroup(n: nat, ds: nat, ss: nat)
    requires 0 < ds < ss && n <= ss
    ensures IsData(n, ds, ss) <==> n < ds || n == ss
  {
    if n < ss {
      assert n % ss == n;
    } else {
      assert n % ss == 0;
    }
  }

  /** Two ways to divide numbers into data and parity are the same if they agree where the parts of the groups end. */
  lemma PatternsDiffer(ds: nat, ss: nat, d: nat, w: nat)
    requires 0 < ds < ss && 0 < d < w
    requires IsData(Min(ds, d), ds, ss) <==> IsData(Min(ds, d), d, w)
    requires IsData(Min(ss, w), ds, ss) <==> IsData(Min(ss, w), d, w)
    ensures ds == d && ss == w
  {
    FirstGroup(Min(ds, d), ds, ss);
    FirstGroup(Min(ds, d), d, w);
    FirstGroup(Min(ss, w), ds, ss);
    FirstGroup(Min(ss, w), d, w);
  }

  lemma PacketUnder(n: u32, ds: nat, ss: nat) returns (pkt: Packet)
    requires 0 < ds < ss && n < 0xffff_ffff
    ensures SentBy(pkt, ds, ss) && SeqId(pkt) == n && Flag(pkt) == if IsData(n, ds, ss) then TYPE_DATA else TYPE_PARITY
  {
    var flag := if IsData(n, ds, ss) then TYPE_DATA else TYPE_PARITY;
    pkt := Framed(n, flag, []);
    FramedFields(n, flag, []);
  }

  /** All packets of a sender suit their places exactly when the decoder has the sender's sizes. */
  lemma OnlyItsSizesAgree(z: Sizes, ds: nat, ss: nat)
    requires Usable(z) && 0 < ds < ss < 0xffff_ffff && Width(z) < 0xffff_ffff
    ensures (forall pkt: Packet :: SentBy(pkt, ds, ss) ==> Agrees(z, pkt)) <==> z.ds == ds && Width(z) == ss
  {
    if forall pkt: Packet :: SentBy(pkt, ds, ss) ==> Agrees(z, pkt) {
      var first := PacketUnder(Min(ds, z.ds), ds, ss);
      var second := PacketUnder(Min(ss, Width(z)), ds, ss);
      PatternsDiffer(ds, ss, z.ds, Width(z));
    }
  }

  /** With packet 0 lost a decoder out of tune takes four and three for five and three. */
  lemma LostFirstMistunes(z: Sizes, ps: Pulses, make: Maker, c: Codec)
    requires Usable(z) && (z.ds != 4 || z.ps != 3) && make(4, 3) == Some(c) && WithoutFirst(ps)
    ensures Suggested(z, ps, make) == Some(Sizes(4, 3, c))
  {
    FirstPacketLost(ps);
  }

  // ----- the length of the queue -----

  /** The queue never grows beyond the limit for the sizes of the moment, but it may have been beyond it before. */
  lemma TunedBounded(d: Decoder, make: Maker, pkt: Packet, now: u32)
    requires Usable(d.sizes)
    ensures var e := TunedDecode(d, make, pkt, now).1;
      |e.rx| <= Max(|d.rx|, MULTIPLE * Width(e.sizes))
  {
  }

  /** With the new packet at `at` of the queue `q` no group is complete, and nothing is too old. */
  ghost predicate OnlyStores(q: seq<Element>, at: nat, z: Sizes, now: u32)
    requires Usable(z) && at < |q|
  {
    && Searched(q, Begin(Id(q[at]), Width(z)), SearchBegin(at, Id(q[at]), Width(z)), z.ds, Width(z), z.codec).1 == q
    && Expired(Evict(q, MULTIPLE * Width(z)), now) == 0
  }

  /** Then the queue takes the packet up to the limit, and stays as long as it is beyond it. */
  lemma {:induction false} StoresOne(rx: seq<Element>, z: Sizes, pkt: Packet, now: u32, at: nat)
    requires Usable(z) && Scan(rx, SeqId(pkt)) == Some(at) && at <= |rx|
    requires OnlyStores(rx[..at] + [Element(pkt, now)] + rx[at..], at, z, now)
    ensures var n := |WindowDecode(rx, z.ds, Width(z), z.codec, pkt, now).1|;
      && n == (if |rx| < MULTIPLE * Width(z) then |rx| + 1 else |rx|)
      && (n <= MULTIPLE * Width(z) <==> |rx| <= MULTIPLE * Width(z))
  {
  }

  ghost predicate Steps(d: Decoder, make: Maker, pkt: Packet, now: u32, e: Decoder) {
    Usable(d.sizes) && e == TunedDecode(d, make, pkt, now).1
  }

  ghost predicate IsRun(make: Maker, run: seq<Decoder>, pkts: seq<Packet>, times: seq<u32>) {
    && |run| == |pkts| + 1 && |times| == |pkts| && run[0].rx == []
    && forall i :: 0 <= i < |pkts| ==> Steps(run[i], make, pkts[i], times[i], run[i + 1])
  }

  /** Over every run the queue is bounded by the limit for the largest group size so far. */
  lemma {:induction false} RunBounded(make: Maker, run: seq<Decoder>, pkts: seq<Packet>, times: seq<u32>, i: nat,
                                      widest: nat)
    requires IsRun(make, run, pkts, times) && i < |run|
    requires forall j :: 0 <= j <= i ==> Width(run[j].sizes) <= widest
    ensures |run[i].rx| <= MULTIPLE * widest
  {
    for j := 0 to i
      invariant |run[j].rx| <= MULTIPLE * widest
    {
      assert Steps(run[j], make, pkts[j], times[j], run[j + 1]);
      TunedBounded(run[j], make, pkts[j], times[j]);
    }
  }

  // ----- a run that goes beyond the limit -----

  /** The numbers 0, 2, 8, 16, 24, ..., 56. */
  function Num(i: nat): u32
    requires i < 9
  {
    if i == 0 then 0 else if i == 1 then 2 else 8 * (i - 1)
  }

  function Plain(id: u32, flag: u16): Packet {
    Framed(id, flag, Zeros(18))
  }

  /** The queue after the first `n` of them. */
  function Spread(n: nat): (rx: seq<Element>)
    requires n <= 9
    ensures |rx| == n
  {
    seq(n, i requires 0 <= i < n => Element(Plain(Num(i), TYPE_DATA), 0))
  }

  lemma SpreadIds(n: nat)
    requires n <= 9
    ensures forall i :: 0 <= i < n ==> Id(Spread(n)[i]) == Num(i)
  {
    forall i | 0 <= i < n ensures Id(Spread(n)[i]) == Num(i) {
      FramedFields(Num(i), TYPE_DATA, Zeros(18));
    }
  }

  lemma SpreadScan(n: nat)
    requires n < 9
    ensures Scan(Spread(n), Num(n)) == Some(n)
  {
    SpreadIds(n);
    if n > 0 {
      SignedId(Num(n) - Num(n - 1));
    }
  }

  lemma SpreadSparse(n: nat)
    requires n < 9
    ensures n + 1 - SearchBegin(n, Num(n), 8) < 5
  {
  }

  /** With groups of five and three each of them is stored at the end. */
  lemma SpreadGrows(n: nat, c: Codec)
    requires n < 9
    ensures WindowDecode(Spread(n), 5, 8, c, Plain(Num(n), TYPE_DATA), 0) == ([], Spread(n + 1))
  {
    FramedFields(Num(n), TYPE_DATA, Zeros(18));
    SpreadScan(n);
    SpreadSparse(n);
    StoredAtEnd(Spread(n), 5, 8, c, Plain(Num(n), TYPE_DATA), 0);
    assert Spread(n) + [Element(Plain(Num(n), TYPE_DATA), 0)] == Spread(n + 1);
  }

  function FiveAndThree(c: Codec): Sizes {
    Sizes(5, 3, c)
  }

  /** What the table says of the first four numbers. */
  ghost predicate Prepared(ps: Pulses, n: nat) {
    && ps[1] == UNHEARD && ps[3] == UNHEARD
    && (n > 0 ==> ps[0] == Pulse(true, 0)) && (n > 1 ==> ps[2] == Pulse(true, 2))
  }

  lemma NumPlace(n: nat)
    requires n < 9
    ensures Num(n) % SAMPLES == Num(n) && IsData(Num(n), 5, 8)
  {
  }

  lemma SpreadStep(ps: Pulses, n: nat, make: Maker, c: Codec) returns (next: Pulses)
    requires n < 9 && Prepared(ps, n)
    ensures Prepared(next, n + 1)
    ensures Steps(Decoder(FiveAndThree(c), ps, Spread(n)), make, Plain(Num(n), TYPE_DATA), 0,
                  Decoder(FiveAndThree(c), next, Spread(n + 1)))
  {
    var pkt := Plain(Num(n), TYPE_DATA);
    FramedFields(Num(n), TYPE_DATA, Zeros(18));
    next := SampledPacket(ps, pkt);
    NumPlace(n);
    SpreadGrows(n, c);
    AgreeingKeepSizes(Decoder(FiveAndThree(c), ps, Spread(n)), make, pkt, 0);
  }

  lemma RunOn(make: Maker, run: seq<Decoder>, pkts: seq<Packet>, times: seq<u32>, pkt: Packet, now: u32, e: Decoder)
    requires IsRun(make, run, pkts, times) && Steps(run[|pkts|], make, pkt, now, e)
    ensures IsRun(make, run + [e], pkts + [pkt], times + [now])
  {
    forall i | 0 <= i < |pkts| + 1
      ensures Steps((run + [e])[i], make, (pkts + [pkt])[i], (times + [now])[i], (run + [e])[i + 1])
    {
      if i < |pkts| {
        assert Steps(run[i], make, pkts[i], times[i], run[i + 1]);
      }
    }
  }

  lemma {:induction false} SpreadRun(make: Maker, c: Codec)
    returns (run: seq<Decoder>, pkts: seq<Packet>, times: seq<u32>, ps: Pulses)
    ensures IsRun(make, run, pkts, times) && run[0] == Decoder(FiveAndThree(c), Silent(), [])
    ensures |pkts| == 9 && run[9] == Decoder(FiveAndThree(c), ps, Spread(9)) && Prepared(ps, 9)
  {
    run, pkts, times, ps := [Decoder(FiveAndThree(c), Silent(), [])], [], [], Silent();
    for n := 0 to 9
      invariant IsRun(make, run, pkts, times) && run[0] == Decoder(FiveAndThree(c), Silent(), [])
      invariant |pkts| == n && run[n] == Decoder(FiveAndThree(c), ps, Spread(n)) && Prepared(ps, n)
    {
      var next := SpreadStep(ps, n, make, c);
      var e := Decoder(FiveAndThree(c), next, Spread(n + 1));
      RunOn(make, run, pkts, times, Plain(Num(n), TYPE_DATA), 0, e);
      run, pkts, times, ps := run + [e], pkts + [Plain(Num(n), TYPE_DATA)], times + [0], next;
    }
  }

  /** No code has a negative number of shards. */
  ghost predicate Refuses(make: Maker) {
    forall d, p :: d < 0 || p < 0 ==> make(d, p) == None
  }

  /** Packet 1 comes as parity: no sizes are found, and it is dropped. */
  lemma FirstAttempt(ps: Pulses, make: Maker, c: Codec) returns (next: Pulses)
    requires Prepared(ps, 9) && Refuses(make)
    ensures next[0] == Pulse(true, 0) && next[1] == Pulse(false, 1) && next[2] == Pulse(true, 2) && next[3] == UNHEARD
    ensures Steps(Decoder(FiveAndThree(c), ps, Spread(9)), make, Plain(1, TYPE_PARITY), 0,
                  Decoder(FiveAndThree(c), next, Spread(9)))
  {
    FramedFields(1, TYPE_PARITY, Zeros(18));
    next := SampledPacket(ps, Plain(1, TYPE_PARITY));
    assert Wrap(2 + 1) == 3 && Wrap(1 + 1) == 2;
    assert Edge(next, true, 2);
    assert LeftEdge(next, true, 1) == 2;
    assert Period(next, true) == -1;
  }

  /** Packet 3 comes as parity too: one and one fit. */
  lemma SecondAttempt(ps: Pulses)
    requires ps[0] == Pulse(true, 0) && ps[1] == Pulse(false, 1) && ps[2] == Pulse(true, 2) && ps[3] == Pulse(false, 3)
    ensures Period(ps, true) == 1 && Period(ps, false) == 1
  {
    assert Wrap(0 + 1) == 1 && Wrap(1 + 1) == 2 && Wrap(2 + 1) == 3;
    assert Edge(ps, false, 1) && Edge(ps, true, 2) && Edge(ps, false, 3);
    assert LeftEdge(ps, true, 1) == 2 && LeftEdge(ps, false, 1) == 1;
  }

  lemma {:induction false} ThreeGoesThird(n: nat)
    requires 2 <= n <= 9
    ensures Scan(Spread(n), 3) == Some(2)
  {
    SpreadIds(n);
    SignedId(3 - Num(n - 1));
    if n > 2 {
      assert Spread(n)[..n - 1] == Spread(n - 1);
      ThreeGoesThird(n - 1);
    }
  }

  /** With groups of one and one, packets 2 and 3 are a group that is complete. */
  lemma PairSettles(q: seq<Element>, c: Codec)
    requires |q| == 10 && Id(q[1]) == 2 && Id(q[2]) == 3
    requires Flag(q[1].pkt) == TYPE_DATA && Flag(q[2].pkt) == TYPE_PARITY
    ensures Searched(q, 2, 1, 1, 2, c) == ([], q[..1] + q[3..])
  {
    var w := q[1..3];
    assert w[0] == q[1] && w[1] == q[2];
    assert End(2, 2) == 3 && Diff(2, 3) == -1 && Diff(3, 3) == 0 && Diff(2, 2) == 0 && Diff(3, 2) == 1;
    GatheredIs(w, 2, 3, 0, 2);
    assert w[0..2] == w && w[..1] == [q[1]];
    assert DataCount(w) == 1;
  }

  /** The queue with packet 3 in its place. */
  function WithThree(): (q: seq<Element>)
    ensures |q| == 10
  {
    Spread(9)[..2] + [Element(Plain(3, TYPE_PARITY), 0)] + Spread(9)[2..]
  }

  lemma WithThreeFields()
    ensures var q := WithThree();
      && Id(q[1]) == 2 && Id(q[2]) == 3 && Flag(q[1].pkt) == TYPE_DATA && Flag(q[2].pkt) == TYPE_PARITY
      && forall i :: 0 <= i < 10 ==> q[i].ts == 0
  {
    FramedFields(3, TYPE_PARITY, Zeros(18));
    FramedFields(2, TYPE_DATA, Zeros(18));
    assert WithThree()[1] == Spread(9)[1];
  }

  lemma OneEvicted(kept: seq<Element>)
    requires |kept| == 8 && kept[1].ts == 0
    ensures |Trimmed(kept, 2, 0)| == 7
  {
    assert Evict(kept, MULTIPLE * 2) == kept[1..];
    SignedId(0);
  }

  lemma QueueShrinksByOne(c: Codec)
    ensures |WindowDecode(Spread(9), 1, 2, c, Plain(3, TYPE_PARITY), 0).1| == 7
  {
    var q := WithThree();
    FramedFields(3, TYPE_PARITY, Zeros(18));
    ThreeGoesThird(9);
    WithThreeFields();
    WindowDecodeIs(Spread(9), 1, 2, c, Plain(3, TYPE_PARITY), 0, 2, q);
    PairSettles(q, c);
    assert (q[..1] + q[3..])[1] == q[3];
    OneEvicted(q[..1] + q[3..]);
  }

  /**
   A decoder can hold more than three groups' worth of packets: eleven packets to
   a new one of five and three leave seven in it when it has changed to one and one.
   */
  lemma RunBeyondTheLimit(make: Maker, c: Codec, one: Codec)
    returns (run: seq<Decoder>, pkts: seq<Packet>, times: seq<u32>)
    requires Refuses(make) && make(1, 1) == Some(one)
    ensures IsRun(make, run, pkts, times) && run[0] == Decoder(FiveAndThree(c), Silent(), []) && |pkts| == 11
    ensures run[11].sizes == Sizes(1, 1, one) && |run[11].rx| == 7 > MULTIPLE * Width(run[11].sizes)
  {
    var ps;
    run, pkts, times, ps := SpreadRun(make, c);
    var next := FirstAttempt(ps, make, c);
    var d := Decoder(FiveAndThree(c), next, Spread(9));
    RunOn(make, run, pkts, times, Plain(1, TYPE_PARITY), 0, d);
    run, pkts, times := run + [d], pkts + [Plain(1, TYPE_PARITY)], times + [0];
    var pkt := Plain(3, TYPE_PARITY);
    FramedFields(3, TYPE_PARITY, Zeros(18));
    SecondAttempt(SampledPacket(next, pkt));
    QueueShrinksByOne(one);
    var e := TunedDecode(d, make, pkt, 0).1;
    assert Steps(d, make, pkt, 0, e);
    RunOn(make, run, pkts, times, pkt, 0, e);
    run, pkts, times := run + [e], pkts + [pkt], times + [0];
  }

  // ----- a number stored twice -----

  /** The queue after `n` packets, the fourth of which is the first once more. */
  function Repeated(n: nat): seq<Element>
    requires n <= 4
  {
    if n < 4 then Thirds(n) else Thirds(3) + [Element(Third(0), 0)]
  }

  lemma RepeatedNext(n: nat)
    requires n < 4
    ensures Repeated(n) == Thirds(Min(n, 3)) && Thirds(Min(n, 3)) + [Element(Third(n % 3), 0)] == Repeated(n + 1)
  {
  }

  lemma RepeatedGrows(n: nat, c: Codec)
    requires n < 4
    ensures WindowDecode(Repeated(n), 5, 8, c, Third(n % 3), 0) == ([], Repeated(n + 1))
  {
    RepeatedNext(n);
    ThirdArrives(n, c);
  }

  lemma ThirdStep(d: Decoder, n: nat, make: Maker, c: Codec) returns (e: Decoder)
    requires n < 4 && d.sizes == FiveAndThree(c) && d.rx == Repeated(n)
    ensures Steps(d, make, Third(n % 3), 0, e) && e.sizes == FiveAndThree(c) && e.rx == Repeated(n + 1)
  {
    ThirdFields(n % 3);
    RepeatedGrows(n, c);
    AgreeingKeepSizes(d, make, Third(n % 3), 0);
    e := TunedDecode(d, make, Third(n % 3), 0).1;
  }

  /**
   Beyond half a circle a decoder can hold a number twice: three data packets a
   third of the circle apart, each in its place, and the first again.
   */
  lemma {:induction false} StoredTwice(make: Maker, c: Codec)
    returns (run: seq<Decoder>, pkts: seq<Packet>, times: seq<u32>)
    ensures IsRun(make, run, pkts, times) && run[0] == Decoder(FiveAndThree(c), Silent(), [])
    ensures |pkts| == 4 && forall i :: 0 <= i < 4 ==> |pkts[i]| == 24
    ensures |run[4].rx| == 4 && run[4].rx[0] == run[4].rx[3]
  {
    run, pkts, times := [Decoder(FiveAndThree(c), Silent(), [])], [], [];
    for n := 0 to 4
      invariant IsRun(make, run, pkts, times) && run[0] == Decoder(FiveAndThree(c), Silent(), [])
      invariant |pkts| == n && run[n].sizes == FiveAndThree(c) && run[n].rx == Repeated(n)
      invariant forall i :: 0 <= i < n ==> |pkts[i]| == 24
    {
      var e := ThirdStep(run[n], n, make, c);
      RunOn(make, run, pkts, times, Third(n % 3), 0, e);
      run, pkts, times := run + [e], pkts + [Third(n % 3)], times + [0];
    }
    assert Repeated(4)[0] == Thirds(3)[0];
  }
}
