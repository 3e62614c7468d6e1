/**
 The decoder with fixed group sizes on values (network/kcp/fec.go:69-132,
 181-267), twice. `WindowDecode` does what the source does for any numbers: it
 scans the queue from its end for a place and searches a bounded window around
 it. `Decode` says what is meant: the queue is ordered by number and the whole
 group of the new packet is taken out of it. They agree while the numbers stay
 within half a circle of each other (WindowDecodeIsDecode), and not beyond
 (RepeatedRoundTheCircle).
 */
module FecDecoding {
  import opened Serial
  import opened Wire
  import opened FecPackets
  import opened FecCodec

  const EXPIRE: int := 60000
  const MULTIPLE: nat := 3
  type Packet = p: seq<byte> | |p| >= HEADER witness [0, 0, 0, 0, 0, 0]

  /** A stored packet and the time it arrived. */
  datatype Element = Element(pkt: Packet, ts: u32)

  function Id(e: Element): u32 {
    SeqId(e.pkt)
  }

  predicate Stored(rx: seq<Element>, id: u32) {
    exists i :: 0 <= i < |rx| && Id(rx[i]) == id
  }

  /** Behind the last stored packet that is older. */
  function Place(rx: seq<Element>, id: u32): (at: nat)
    ensures at <= |rx|
  {
    if rx == [] then 0
    else if Diff(id, Id(rx[|rx| - 1])) > 0 then |rx|
    else Place(rx[..|rx| - 1], id)
  }

  function Inserted(rx: seq<Element>, e: Element): (r: seq<Element>)
    ensures |r| == |rx| + 1
  {
    var at := Place(rx, Id(e));
    rx[..at] + [e] + rx[at..]
  }

  /** The first number of the group of `id`. */
  function Begin(id: u32, ss: nat): u32
    requires ss > 0
  {
    id - id % ss
  }

  predicate InGroup(e: Element, begin: u32, ss: nat) {
    Offset(Id(e), begin) < ss
  }

  function Members(rx: seq<Element>, begin: u32, ss: nat): seq<Element> {
    if rx == [] then []
    else (if InGroup(rx[0], begin, ss) then [rx[0]] else []) + Members(rx[1..], begin, ss)
  }

  function Others(rx: seq<Element>, begin: u32, ss: nat): seq<Element> {
    if rx == [] then []
    else (if InGroup(rx[0], begin, ss) then [] else [rx[0]]) + Others(rx[1..], begin, ss)
  }

  /** The shards of a group, each in its place. */
  function Slots(ms: seq<Element>, ss: nat): (slots: seq<Option<Shard>>)
    requires ss > 0
    ensures |slots| == ss
  {
    if ms == [] then seq(ss, _ => None)
    else
      var last := ms[|ms| - 1];
      Slots(ms[..|ms| - 1], ss)[Id(last) % ss := Some(Body(last.pkt))]
  }

  function DataCount(ms: seq<Element>): (n: nat)
    ensures n <= |ms|
  {
    if ms == [] then 0
    else DataCount(ms[..|ms| - 1]) + (if Flag(ms[|ms| - 1].pkt) == TYPE_DATA then 1 else 0)
  }

  function MaxLength(ms: seq<Element>): nat {
    if ms == [] then 0 else Max(MaxLength(ms[..|ms| - 1]), |Body(ms[|ms| - 1].pkt)|)
  }

  function PadSlots(slots: seq<Option<Shard>>, n: nat): (p: seq<Option<Shard>>)
    ensures |p| == |slots|
  {
    seq(|slots|, k requires 0 <= k < |slots| =>
      if slots[k].Some? then Some(Pad(slots[k].value, n)) else None)
  }

  /** The reconstructed shards whose places were empty, among the first `n`. */
  function Gaps(slots: seq<Option<Shard>>, data: seq<Shard>, n: nat): seq<Shard>
    requires n <= |slots| && n <= |data|
  {
    if n == 0 then []
    else Gaps(slots, data, n - 1) + (if slots[n - 1].None? then [data[n - 1]] else [])
  }

  /** What the erasure code makes of the stored shards of a group. */
  function Recovered(ms: seq<Element>, ds: nat, ss: nat, c: Codec): seq<Shard>
    requires 0 < ds <= ss
  {
    var slots := Slots(ms, ss);
    match c.reconstruct(PadSlots(slots, MaxLength(ms)))
    case None => []
    case Some(data) => if |data| == ds then Gaps(slots, data, ds) else []
  }

  /** What is made of the collected members: a group with enough shards is used up, after recovering what is missing. */
  function Outcome(rx: seq<Element>, ms: seq<Element>, rest: seq<Element>, ds: nat, ss: nat, c: Codec)
    : (r: (seq<Shard>, seq<Element>))
    requires 0 < ds <= ss
    ensures r.1 == rx || r.1 == rest
  {
    if DataCount(ms) == ds then ([], rest)
    else if |ms| >= ds then (Recovered(ms, ds, ss, c), rest)
    else ([], rx)
  }

  function Settle(rx: seq<Element>, begin: u32, ds: nat, ss: nat, c: Codec): (seq<Shard>, seq<Element>)
    requires 0 < ds <= ss
  {
    Outcome(rx, Members(rx, begin, ss), Others(rx, begin, ss), ds, ss, c)
  }

  function Evict(rx: seq<Element>, limit: nat): seq<Element> {
    if |rx| > limit then rx[1..] else rx
  }

  /** How many packets at the head have been stored too long. */
  function Expired(rx: seq<Element>, now: u32): (n: nat)
    ensures n <= |rx|
  {
    if rx == [] || Diff(now, rx[0].ts) <= EXPIRE then 0 else 1 + Expired(rx[1..], now)
  }

  /** The end of `decode`: the limit and the expiry. */
  function Trimmed(rx: seq<Element>, ss: nat, now: u32): (r: seq<Element>)
    ensures |rx| <= MULTIPLE * ss + 1 ==> |r| <= MULTIPLE * ss
  {
    var rest := Evict(rx, MULTIPLE * ss);
    rest[Expired(rest, now)..]
  }

  /** `decode` with fixed parameters, as it is meant: what is recovered, and the queue afterwards. */
  function Decode(rx: seq<Element>, ds: nat, ss: nat, c: Codec, pkt: Packet, now: u32): (seq<Shard>, seq<Element>)
    requires 0 < ds <= ss
  {
    if Stored(rx, SeqId(pkt)) then ([], rx)
    else
      var (recovered, kept) := Settle(Inserted(rx, Element(pkt, now)), Begin(SeqId(pkt), ss), ds, ss, c);
      (recovered, Trimmed(kept, ss, now))
  }

  // ----- the scan and the window of the source -----

  /** The scan from the end: no place when a packet with the same number is met first. */
  function Scan(rx: seq<Element>, id: u32): (at: Option<nat>)
    ensures at.Some? ==> at.value <= |rx|
  {
    if rx == [] then Some(0)
    else
      var last := Id(rx[|rx| - 1]);
      if id == last then None
      else if Diff(id, last) > 0 then Some(|rx|)
      else Scan(rx[..|rx| - 1], id)
  }

  /** The last number of a group, in 32 bits. */
  function End(begin: u32, ss: nat): u32 {
    Wrap(begin + ss - 1)
  }

  /** What the search loop collects from a window: it skips what is before the group and stops after it. */
  function Gathered(w: seq<Element>, begin: u32, end: u32): (ms: seq<Element>)
    ensures |ms| <= |w|
  {
    if w == [] || Diff(Id(w[0]), end) > 0 then []
    else (if Diff(Id(w[0]), begin) >= 0 then [w[0]] else []) + Gathered(w[1..], begin, end)
  }

  /** Where in the window the first of them is. */
  function FirstOf(w: seq<Element>, begin: u32, end: u32): (n: nat)
    ensures n + |Gathered(w, begin, end)| <= |w|
  {
    if Gathered(w, begin, end) == [] || Diff(Id(w[0]), begin) >= 0 then 0
    else 1 + FirstOf(w[1..], begin, end)
  }

  /** `fecNestif` on the window from `from` to `till`: as many packets leave as were collected, from the first on. */
  function WindowSettle(rx: seq<Element>, begin: u32, from: nat, till: nat, ds: nat, ss: nat, c: Codec)
    : (r: (seq<Shard>, seq<Element>))
    requires 0 < ds <= ss && from <= till <= |rx|
    ensures |r.1| <= |rx|
  {
    var w := rx[from..till];
    var ms, first := Gathered(w, begin, End(begin, ss)), from + FirstOf(w, begin, End(begin, ss));
    Outcome(rx, ms, rx[..first] + rx[first + |ms|..], ds, ss, c)
  }

  /** The first index of the window `decode` searches around position `at`. */
  function SearchBegin(at: nat, id: u32, ss: nat): (begin: nat)
    requires ss > 0
    ensures begin <= at
  {
    Max(at - id % ss, 0)
  }

  /** The part of `decode` that looks for the group that begins at number `begin`, in the window from `from`. */
  function Searched(rx: seq<Element>, begin: u32, from: nat, ds: nat, ss: nat, c: Codec)
    : (r: (seq<Shard>, seq<Element>))
    requires 0 < ds <= ss && from <= |rx|
    ensures |r.1| <= |rx|
  {
    var till := Min(from + ss, |rx|);
    if till - from >= ds then WindowSettle(rx, begin, from, till, ds, ss, c) else ([], rx)
  }

  /** `decode` with fixed parameters, exactly as the source computes it, for any numbers. */
  function WindowDecode(rx: seq<Element>, ds: nat, ss: nat, c: Codec, pkt: Packet, now: u32)
    : (seq<Shard>, seq<Element>)
    requires 0 < ds <= ss
  {
    match Scan(rx, SeqId(pkt))
    case None => ([], rx)
    case Some(at) =>
      var q, id := rx[..at] + [Element(pkt, now)] + rx[at..], SeqId(pkt);
      var (recovered, kept) := Searched(q, Begin(id, ss), SearchBegin(at, id, ss), ds, ss, c);
      (recovered, Trimmed(kept, ss, now))
  }

  /** Whatever the numbers, with fixed group sizes the queue stays bounded. */
  lemma WindowDecodeBounded(rx: seq<Element>, ds: nat, ss: nat, c: Codec, pkt: Packet, now: u32)
    requires 0 < ds <= ss && |rx| <= MULTIPLE * ss
    ensures |WindowDecode(rx, ds, ss, c, pkt, now).1| <= MULTIPLE * ss
  {
  }

  lemma NothingTrimmed(rx: seq<Element>, ss: nat, now: u32)
    requires |rx| <= MULTIPLE * ss && forall e :: e in rx ==> e.ts == now
    ensures Trimmed(rx, ss, now) == rx
  {
    if rx != [] {
      assert rx[0] in rx;
    }
  }

  lemma TooFew(rx: seq<Element>, begin: u32, from: nat, ds: nat, ss: nat, c: Codec)
    requires 0 < ds <= ss && from <= |rx| && |rx| - from < ds
    ensures Searched(rx, begin, from, ds, ss, c) == ([], rx)
  {
  }

  /** A new packet is put into its place, its group is searched for, and the queue is trimmed. */
  lemma {:induction false} WindowDecodeIs(rx: seq<Element>, ds: nat, ss: nat, c: Codec, pkt: Packet, now: u32,
                                          at: nat, q: seq<Element>)
    requires 0 < ds <= ss && Scan(rx, SeqId(pkt)) == Some(at) && q == rx[..at] + [Element(pkt, now)] + rx[at..]
    ensures var (recovered, kept) := Searched(q, Begin(SeqId(pkt), ss), SearchBegin(at, SeqId(pkt), ss), ds, ss, c);
      WindowDecode(rx, ds, ss, c, pkt, now) == (recovered, Trimmed(kept, ss, now))
  {
  }

  lemma {:induction false} WindowDecodeFrom(rx: seq<Element>, ds: nat, ss: nat, c: Codec, pkt: Packet, now: u32,
                                            at: nat, q: seq<Element>, begin: u32, from: nat)
    requires 0 < ds <= ss && Scan(rx, SeqId(pkt)) == Some(at) && q == rx[..at] + [Element(pkt, now)] + rx[at..]
    requires begin == Begin(SeqId(pkt), ss) && from == SearchBegin(at, SeqId(pkt), ss)
    ensures from <= |q|
    ensures var (recovered, kept) := Searched(q, begin, from, ds, ss, c);
      WindowDecode(rx, ds, ss, c, pkt, now) == (recovered, Trimmed(kept, ss, now))
  {
    WindowDecodeIs(rx, ds, ss, c, pkt, now, at, q);
  }

  lemma {:induction false} NothingFound(rx: seq<Element>, ds: nat, ss: nat, c: Codec, pkt: Packet, now: u32, at: nat,
                                        q: seq<Element>)
    requires 0 < ds <= ss && Scan(rx, SeqId(pkt)) == Some(at) && q == rx[..at] + [Element(pkt, now)] + rx[at..]
    requires |q| - SearchBegin(at, SeqId(pkt), ss) < ds && Trimmed(q, ss, now) == q
    ensures WindowDecode(rx, ds, ss, c, pkt, now) == ([], q)
  {
    WindowDecodeIs(rx, ds, ss, c, pkt, now, at, q);
    TooFew(q, Begin(SeqId(pkt), ss), SearchBegin(at, SeqId(pkt), ss), ds, ss, c);
  }

  /** A packet behind all others, too few to search: it is stored at the end. */
  lemma {:induction false} StoredAtEnd(rx: seq<Element>, ds: nat, ss: nat, c: Codec, pkt: Packet, now: u32)
    requires 0 < ds <= ss && |rx| < MULTIPLE * ss && Scan(rx, SeqId(pkt)) == Some(|rx|)
    requires |rx| + 1 - SearchBegin(|rx|, SeqId(pkt), ss) < ds
    requires forall e :: e in rx ==> e.ts == now
    ensures WindowDecode(rx, ds, ss, c, pkt, now) == ([], rx + [Element(pkt, now)])
  {
    var q := rx + [Element(pkt, now)];
    assert rx[..|rx|] + [Element(pkt, now)] + rx[|rx|..] == q;
    NothingTrimmed(q, ss, now);
    NothingFound(rx, ds, ss, c, pkt, now, |rx|, q);
  }

  lemma CutKeeps(q: seq<Element>, first: nat, n: nat)
    requires first + n <= |q|
    ensures forall e :: e in q[..first] + q[first + n..] ==> e in q
  {
  }

  lemma SearchedKeeps(q: seq<Element>, begin: u32, from: nat, ds: nat, ss: nat, c: Codec)
    requires 0 < ds <= ss && from <= |q|
    ensures forall e :: e in Searched(q, begin, from, ds, ss, c).1 ==> e in q
  {
    var till, end := Min(from + ss, |q|), End(begin, ss);
    var w := q[from..till];
    CutKeeps(q, from + FirstOf(w, begin, end), |Gathered(w, begin, end)|);
  }

  /** Nothing enters the queue but the arriving packet. */
  lemma WindowDecodeAdds(rx: seq<Element>, ds: nat, ss: nat, c: Codec, pkt: Packet, now: u32)
    requires 0 < ds <= ss
    ensures forall e :: e in WindowDecode(rx, ds, ss, c, pkt, now).1 ==> e in rx || e == Element(pkt, now)
  {
    var id := SeqId(pkt);
    match Scan(rx, id)
    case None =>
    case Some(at) =>
      var q := rx[..at] + [Element(pkt, now)] + rx[at..];
      assert forall e :: e in q ==> e in rx || e == Element(pkt, now);
      WindowDecodeIs(rx, ds, ss, c, pkt, now, at, q);
      SearchedKeeps(q, Begin(id, ss), SearchBegin(at, id, ss), ds, ss, c);
  }

  /** Position `i` holds the number, and nothing behind it stops the scan. */
  ghost predicate InSight(rx: seq<Element>, i: nat, id: u32) {
    && i < |rx| && Id(rx[i]) == id
    && forall j :: i < j < |rx| ==> Id(rx[j]) != id && Diff(id, Id(rx[j])) <= 0
  }

  lemma InSightBefore(rx: seq<Element>, i: nat, id: u32)
    requires rx != [] && i < |rx| - 1 && id != Id(rx[|rx| - 1])
    ensures InSight(rx, i, id) <==> InSight(rx[..|rx| - 1], i, id) && Diff(id, Id(rx[|rx| - 1])) <= 0
  {
    var n := |rx| - 1;
    assert forall j :: 0 <= j < n ==> rx[..n][j] == rx[j];
  }

  /** A stored number is recognised exactly when nothing behind its last copy counts as older than it. */
  lemma {:induction false} ScanFinds(rx: seq<Element>, id: u32)
    ensures Scan(rx, id).None? <==> exists i :: InSight(rx, i, id)
  {
    if rx != [] {
      var n := |rx| - 1;
      if id == Id(rx[n]) {
        assert InSight(rx, n, id);
      } else {
        ScanFinds(rx[..n], id);
        forall i | 0 <= i < n ensures InSight(rx, i, id) <==> InSight(rx[..n], i, id) && Diff(id, Id(rx[n])) <= 0 {
          InSightBefore(rx, i, id);
        }
      }
    }
  }

  // ----- order -----

  ghost predicate Near(id: u32, base: u32, ss: nat) {
    ss <= Offset(id, base) < HALF - ss
  }

  /** The numbers in the queue, ahead of `base`, increase strictly and stay away from half the circle. */
  ghost predicate Sorted(rx: seq<Element>, base: u32, ss: nat) {
    && (forall i :: 0 <= i < |rx| ==> Near(Id(rx[i]), base, ss))
    && forall i, j :: 0 <= i < j < |rx| ==> Offset(Id(rx[i]), base) < Offset(Id(rx[j]), base)
  }

  /** Numbers near a common base compare like their distances from it. */
  lemma NearCompare(a: u32, b: u32, base: u32, ss: nat)
    requires Near(a, base, ss) && Near(b, base, ss)
    ensures Diff(a, b) == Offset(a, base) - Offset(b, base)
    ensures a == b <==> Offset(a, base) == Offset(b, base)
  {
  }

  lemma {:induction false} PlaceSplits(rx: seq<Element>, base: u32, ss: nat, id: u32)
    requires Sorted(rx, base, ss) && Near(id, base, ss)
    ensures forall i :: 0 <= i < Place(rx, id) ==> Offset(Id(rx[i]), base) < Offset(id, base)
    ensures forall i :: Place(rx, id) <= i < |rx| ==> Offset(Id(rx[i]), base) >= Offset(id, base)
  {
    if rx != [] {
      var n := |rx| - 1;
      NearCompare(id, Id(rx[n]), base, ss);
      if Diff(id, Id(rx[n])) <= 0 {
        PlaceSplits(rx[..n], base, ss, id);
      }
    }
  }

  lemma {:induction false} InsertedAt(rx: seq<Element>, e: Element, i: nat)
    requires i <= |rx|
    ensures var at := Place(rx, Id(e));
      Inserted(rx, e)[i] == if i < at then rx[i] else if i == at then e else rx[i - 1]
  {
  }

  /** A new number goes to its place: the queue stays strictly increasing, so without repetition. */
  lemma InsertSorted(rx: seq<Element>, base: u32, ss: nat, e: Element)
    requires Sorted(rx, base, ss) && Near(Id(e), base, ss) && !Stored(rx, Id(e))
    ensures Sorted(Inserted(rx, e), base, ss)
  {
    var at, r := Place(rx, Id(e)), Inserted(rx, e);
    PlaceSplits(rx, base, ss, Id(e));
    forall i | 0 <= i < |rx| ensures Offset(Id(rx[i]), base) != Offset(Id(e), base) {
      NearCompare(Id(rx[i]), Id(e), base, ss);
    }
    forall i | 0 <= i < |r| ensures r[i] == if i < at then rx[i] else if i == at then e else rx[i - 1] {
      InsertedAt(rx, e, i);
    }
  }

  lemma {:induction false} OthersAre(rx: seq<Element>, begin: u32, ss: nat)
    ensures forall e :: e in Others(rx, begin, ss) <==> e in rx && !InGroup(e, begin, ss)
  {
    if rx != [] {
      OthersAre(rx[1..], begin, ss);
    }
  }

  lemma SortedCons(x: Element, rest: seq<Element>, base: u32, ss: nat)
    requires Sorted(rest, base, ss) && Near(Id(x), base, ss)
    requires forall e :: e in rest ==> Offset(Id(x), base) < Offset(Id(e), base)
    ensures Sorted([x] + rest, base, ss)
  {
  }

  lemma TailSorted(rx: seq<Element>, base: u32, ss: nat)
    requires rx != [] && Sorted(rx, base, ss)
    ensures Sorted(rx[1..], base, ss)
  {
  }

  lemma {:induction false} OthersStep(rx: seq<Element>, begin: u32, ss: nat)
    requires rx != []
    ensures Others(rx, begin, ss)
      == if InGroup(rx[0], begin, ss) then Others(rx[1..], begin, ss) else [rx[0]] + Others(rx[1..], begin, ss)
  {
    assert [] + Others(rx[1..], begin, ss) == Others(rx[1..], begin, ss);
  }

  lemma {:induction false} OthersSorted(rx: seq<Element>, base: u32, ss: nat, begin: u32)
    requires Sorted(rx, base, ss)
    ensures Sorted(Others(rx, begin, ss), base, ss)
  {
    if rx != [] {
      TailSorted(rx, base, ss);
      OthersSorted(rx[1..], base, ss, begin);
      OthersAre(rx[1..], begin, ss);
      OthersStep(rx, begin, ss);
      forall e | e in rx[1..] ensures Offset(Id(rx[0]), base) < Offset(Id(e), base) {
        var k :| 0 <= k < |rx[1..]| && rx[1..][k] == e;
        assert rx[k + 1] == e;
      }
      SortedCons(rx[0], Others(rx[1..], begin, ss), base, ss);
    }
  }

  lemma {:induction false} OthersFewer(rx: seq<Element>, begin: u32, ss: nat)
    ensures |Others(rx, begin, ss)| + |Members(rx, begin, ss)| == |rx|
  {
    if rx != [] {
      OthersFewer(rx[1..], begin, ss);
    }
  }

  lemma SettleKeepsOrder(rx: seq<Element>, begin: u32, ds: nat, ss: nat, c: Codec, base: u32)
    requires 0 < ds <= ss && Sorted(rx, base, ss)
    ensures Sorted(Settle(rx, begin, ds, ss, c).1, base, ss) && |Settle(rx, begin, ds, ss, c).1| <= |rx|
  {
    OthersSorted(rx, base, ss, begin);
    OthersFewer(rx, begin, ss);
  }

  lemma SuffixSorted(rx: seq<Element>, base: u32, ss: nat, n: nat)
    requires Sorted(rx, base, ss) && n <= |rx|
    ensures Sorted(rx[n..], base, ss)
  {
  }

  /** The queue stays ordered and bounded through every call. */
  lemma DecodeKeepsOrder(rx: seq<Element>, ds: nat, ss: nat, c: Codec, pkt: Packet, now: u32, base: u32)
    requires 0 < ds <= ss && Sorted(rx, base, ss) && |rx| <= MULTIPLE * ss
    requires Near(SeqId(pkt), base, ss)
    ensures var rest := Decode(rx, ds, ss, c, pkt, now).1;
      Sorted(rest, base, ss) && |rest| <= MULTIPLE * ss
  {
    if !Stored(rx, SeqId(pkt)) {
      var e := Element(pkt, now);
      InsertSorted(rx, base, ss, e);
      SettleKeepsOrder(Inserted(rx, e), Begin(SeqId(pkt), ss), ds, ss, c, base);
      var kept := Settle(Inserted(rx, e), Begin(SeqId(pkt), ss), ds, ss, c).1;
      var rest := Evict(kept, MULTIPLE * ss);
      assert Decode(rx, ds, ss, c, pkt, now).1 == rest[Expired(rest, now)..];
      if |kept| > MULTIPLE * ss {
        SuffixSorted(kept, base, ss, 1);
      }
      SuffixSorted(rest, base, ss, Expired(rest, now));
    }
  }

  // ----- the search window -----

  /** The group of `id` begins `id % ss` before it, also as seen from the base. */
  lemma BeginPlace(base: u32, ss: nat, id: u32)
    requires 0 < ss && Near(id, base, ss)
    ensures Begin(id, ss) == Wrap(base + (Offset(id, base) - id % ss))
  {
  }

  lemma PlacesFrom(base: u32, low: nat, ss: nat, x: u32)
    requires 0 < ss <= 256 && low + ss < HALF && Offset(x, base) < HALF
    ensures var begin := Wrap(base + low);
      && (Diff(x, Wrap(begin + ss - 1)) > 0 <==> Offset(x, base) >= low + ss)
      && (Diff(x, begin) >= 0 <==> Offset(x, base) >= low)
      && (Offset(x, begin) < ss <==> low <= Offset(x, base) < low + ss)
  {
    var begin := Wrap(base + low);
    DiffPlace(x, base, low);
    WrapPlus(base + low, ss - 1);
    DiffPlace(x, base, low + ss - 1);
    DiffSign(x, begin);
  }

  /** Where a group begins and ends, as distances from the base. */
  lemma GroupBounds(base: u32, ss: nat, id: u32, x: u32)
    requires 0 < ss <= 256 && Near(id, base, ss) && Near(x, base, ss)
    ensures var low := Offset(id, base) - id % ss;
      && (Diff(x, Wrap(Begin(id, ss) + ss - 1)) > 0 <==> Offset(x, base) >= low + ss)
      && (Diff(x, Begin(id, ss)) >= 0 <==> Offset(x, base) >= low)
      && (Offset(x, Begin(id, ss)) < ss <==> low <= Offset(x, base) < low + ss)
  {
    BeginPlace(base, ss, id);
    PlacesFrom(base, Offset(id, base) - id % ss, ss, x);
  }

  /** Strictly increasing distances grow at least as fast as the index. */
  lemma {:induction false} SpreadOut(rx: seq<Element>, base: u32, ss: nat, i: nat, j: nat)
    requires Sorted(rx, base, ss) && i <= j < |rx|
    ensures Offset(Id(rx[j]), base) - Offset(Id(rx[i]), base) >= j - i
    decreases j - i
  {
    if i < j {
      SpreadOut(rx, base, ss, i, j - 1);
      assert Offset(Id(rx[j - 1]), base) < Offset(Id(rx[j]), base);
    }
  }

  /** The bounded window refines the whole queue: every member of the group lies in it, even when it is cut off at 0. */
  lemma WindowHoldsGroup(rx: seq<Element>, base: u32, ss: nat, at: nat, i: nat)
    requires Sorted(rx, base, ss) && 0 < ss <= 256 && at < |rx| && i < |rx|
    requires InGroup(rx[i], Begin(Id(rx[at]), ss), ss)
    ensures var begin := SearchBegin(at, Id(rx[at]), ss); begin <= i < begin + ss
  {
    var id := Id(rx[at]);
    GroupBounds(base, ss, id, Id(rx[i]));
    if i < at {
      SpreadOut(rx, base, ss, i, at);
    } else {
      SpreadOut(rx, base, ss, at, i);
    }
  }

  // ----- members are a stretch of the queue -----

  /** The queue falls into what is before the group, the group, and what is after it. */
  ghost predicate Splits(rx: seq<Element>, begin: u32, ss: nat, lo: nat, hi: nat) {
    && lo <= hi <= |rx|
    && forall i :: 0 <= i < |rx| ==> (InGroup(rx[i], begin, ss) <==> lo <= i < hi)
  }

  lemma SplitTail(rx: seq<Element>, begin: u32, ss: nat, lo: nat, hi: nat)
    requires rx != [] && Splits(rx, begin, ss, lo, hi)
    ensures Splits(rx[1..], begin, ss, Max(lo - 1, 0), Max(hi - 1, 0))
  {
  }

  lemma {:induction false} MembersSplit(rx: seq<Element>, begin: u32, ss: nat, lo: nat, hi: nat)
    requires Splits(rx, begin, ss, lo, hi)
    ensures Members(rx, begin, ss) == rx[lo..hi]
  {
    if rx != [] {
      SplitTail(rx, begin, ss, lo, hi);
      MembersSplit(rx[1..], begin, ss, Max(lo - 1, 0), Max(hi - 1, 0));
      assert InGroup(rx[0], begin, ss) <==> lo <= 0 < hi;
      if lo > 0 {
        assert rx[1..][lo - 1..hi - 1] == rx[lo..hi];
      } else if hi > 0 {
        assert [rx[0]] + rx[1..][0..hi - 1] == rx[0..hi];
      }
    }
  }

  /** Cutting `lo..hi` out of a sequence and out of its tail. */
  lemma CutTail<T>(xs: seq<T>, lo: nat, hi: nat)
    requires xs != [] && lo <= hi <= |xs|
    ensures var rest := xs[1..];
      var tail := rest[..Max(lo - 1, 0)] + rest[Max(hi - 1, 0)..];
      xs[..lo] + xs[hi..] == if lo <= 0 < hi then tail else [xs[0]] + tail
  {
    var rest := xs[1..];
    if hi > 0 {
      assert rest[hi - 1..] == xs[hi..];
    }
    if lo > 0 {
      assert [xs[0]] + rest[..lo - 1] == xs[..lo];
      assert [xs[0]] + (rest[..lo - 1] + xs[hi..]) == ([xs[0]] + rest[..lo - 1]) + xs[hi..];
    }
  }

  lemma {:induction false} OthersSplit(rx: seq<Element>, begin: u32, ss: nat, lo: nat, hi: nat)
    requires Splits(rx, begin, ss, lo, hi)
    ensures Others(rx, begin, ss) == rx[..lo] + rx[hi..]
  {
    if rx != [] {
      SplitTail(rx, begin, ss, lo, hi);
      OthersSplit(rx[1..], begin, ss, Max(lo - 1, 0), Max(hi - 1, 0));
      OthersStep(rx, begin, ss);
      CutTail(rx, lo, hi);
    }
  }

  lemma {:induction false} SplitMembers(rx: seq<Element>, begin: u32, ss: nat, lo: nat, hi: nat)
    requires Splits(rx, begin, ss, lo, hi)
    ensures Members(rx, begin, ss) == rx[lo..hi]
    ensures Others(rx, begin, ss) == rx[..lo] + rx[hi..]
  {
    MembersSplit(rx, begin, ss, lo, hi);
    OthersSplit(rx, begin, ss, lo, hi);
  }

  /** How many stored numbers lie before distance `low`. */
  function Below(rx: seq<Element>, base: u32, low: int): (n: nat)
    ensures n <= |rx|
  {
    if rx == [] || Offset(Id(rx[0]), base) >= low then 0 else 1 + Below(rx[1..], base, low)
  }

  lemma {:induction false} BelowSplits(rx: seq<Element>, base: u32, ss: nat, low: int)
    requires Sorted(rx, base, ss)
    ensures forall i :: 0 <= i < |rx| ==> (i < Below(rx, base, low) <==> Offset(Id(rx[i]), base) < low)
  {
    if rx != [] && Offset(Id(rx[0]), base) < low {
      BelowSplits(rx[1..], base, ss, low);
      forall i | 0 <= i < |rx| ensures i < Below(rx, base, low) <==> Offset(Id(rx[i]), base) < low {
        if i > 0 {
          assert rx[i] == rx[1..][i - 1];
        }
      }
    }
  }

  lemma {:induction false} BelowGrows(rx: seq<Element>, base: u32, low: int, high: int)
    requires low <= high
    ensures Below(rx, base, low) <= Below(rx, base, high)
  {
    if rx != [] {
      BelowGrows(rx[1..], base, low, high);
    }
  }

  /** The group of `id` occupies one stretch of an ordered queue. */
  lemma {:induction false} GroupStretch(rx: seq<Element>, base: u32, ss: nat, id: u32)
    requires Sorted(rx, base, ss) && 0 < ss <= 256 && Near(id, base, ss)
    ensures var low := Offset(id, base) - id % ss;
      Splits(rx, Begin(id, ss), ss, Below(rx, base, low), Below(rx, base, low + ss))
  {
    var low := Offset(id, base) - id % ss;
    var lo, hi := Below(rx, base, low), Below(rx, base, low + ss);
    BelowSplits(rx, base, ss, low);
    BelowSplits(rx, base, ss, low + ss);
    forall i | 0 <= i < |rx| ensures InGroup(rx[i], Begin(id, ss), ss) <==> lo <= i < hi {
      GroupBounds(base, ss, id, Id(rx[i]));
    }
    BelowGrows(rx, base, low, low + ss);
  }

  // ----- the window refines the whole queue -----

  /** In an ordered queue the scan finds a repetition, or the place. */
  lemma {:induction false} ScanIsPlace(rx: seq<Element>, base: u32, ss: nat, id: u32)
    requires Sorted(rx, base, ss) && Near(id, base, ss)
    ensures Scan(rx, id) == if Stored(rx, id) then None else Some(Place(rx, id))
  {
    if rx != [] {
      var n := |rx| - 1;
      NearCompare(id, Id(rx[n]), base, ss);
      assert Stored(rx, id) <==> id == Id(rx[n]) || Stored(rx[..n], id) by {
        assert forall i :: 0 <= i < n ==> rx[..n][i] == rx[i];
      }
      if Offset(id, base) > Offset(Id(rx[n]), base) {
        forall i | 0 <= i < n ensures Id(rx[i]) != id {
          NearCompare(id, Id(rx[i]), base, ss);
        }
      } else if id != Id(rx[n]) {
        ScanIsPlace(rx[..n], base, ss, id);
      }
    }
  }

  /** What the two comparisons of the search loop say of a queue: the group is at `lo` to `hi`. */
  ghost predicate Stretch(rx: seq<Element>, begin: u32, end: u32, lo: nat, hi: nat) {
    forall i :: 0 <= i < |rx| ==>
      (Diff(Id(rx[i]), end) > 0 <==> i >= hi) && (Diff(Id(rx[i]), begin) >= 0 <==> i >= lo)
  }

  lemma GroupStretches(rx: seq<Element>, base: u32, ss: nat, id: u32, low: int)
    requires Sorted(rx, base, ss) && 0 < ss <= 256 && Near(id, base, ss) && low == Offset(id, base) - id % ss
    ensures Stretch(rx, Begin(id, ss), End(Begin(id, ss), ss), Below(rx, base, low), Below(rx, base, low + ss))
  {
    BelowSplits(rx, base, ss, low);
    BelowSplits(rx, base, ss, low + ss);
    forall i | 0 <= i < |rx|
      ensures Diff(Id(rx[i]), End(Begin(id, ss), ss)) > 0 <==> i >= Below(rx, base, low + ss)
      ensures Diff(Id(rx[i]), Begin(id, ss)) >= 0 <==> i >= Below(rx, base, low)
    {
      GroupBounds(base, ss, id, Id(rx[i]));
    }
  }

  lemma SplitsInWindow(rx: seq<Element>, base: u32, ss: nat, at: nat, lo: nat, hi: nat)
    requires Sorted(rx, base, ss) && 0 < ss <= 256 && at < |rx|
    requires Splits(rx, Begin(Id(rx[at]), ss), ss, lo, hi)
    ensures var begin := SearchBegin(at, Id(rx[at]), ss); begin <= lo < hi <= begin + ss
  {
    GroupBounds(base, ss, Id(rx[at]), Id(rx[at]));
    assert InGroup(rx[at], Begin(Id(rx[at]), ss), ss);
    assert lo <= at < hi;
    WindowHoldsGroup(rx, base, ss, at, lo);
    WindowHoldsGroup(rx, base, ss, at, hi - 1);
  }

  /** The whole group lies in the window. */
  lemma GroupInWindow(rx: seq<Element>, base: u32, ss: nat, at: nat) returns (lo: nat, hi: nat)
    requires Sorted(rx, base, ss) && 0 < ss <= 256 && at < |rx|
    ensures var id := Id(rx[at]);
      && Stretch(rx, Begin(id, ss), End(Begin(id, ss), ss), lo, hi)
      && SearchBegin(at, id, ss) <= lo < hi <= SearchBegin(at, id, ss) + ss && hi <= |rx|
      && Members(rx, Begin(id, ss), ss) == rx[lo..hi]
      && Others(rx, Begin(id, ss), ss) == rx[..lo] + rx[hi..]
  {
    var id := Id(rx[at]);
    var low := Offset(id, base) - id % ss;
    lo, hi := Below(rx, base, low), Below(rx, base, low + ss);
    GroupStretch(rx, base, ss, id);
    SplitMembers(rx, Begin(id, ss), ss, lo, hi);
    GroupStretches(rx, base, ss, id, low);
    SplitsInWindow(rx, base, ss, at, lo, hi);
  }

  lemma StretchTail(w: seq<Element>, begin: u32, end: u32, lo: nat, hi: nat)
    requires w != [] && 0 < hi && Stretch(w, begin, end, lo, hi)
    ensures Stretch(w[1..], begin, end, Max(lo - 1, 0), hi - 1)
    ensures Diff(Id(w[0]), end) <= 0 && (Diff(Id(w[0]), begin) >= 0 <==> lo == 0)
  {
    assert forall i :: 0 <= i < |w[1..]| ==> w[1..][i] == w[i + 1];
  }

  lemma {:induction false} GatheredSkips(w: seq<Element>, begin: u32, end: u32, lo: nat, hi: nat)
    requires 0 < lo <= hi <= |w| && Diff(Id(w[0]), end) <= 0 && Diff(Id(w[0]), begin) < 0
    requires Gathered(w[1..], begin, end) == w[1..][lo - 1..hi - 1]
    requires lo < hi ==> FirstOf(w[1..], begin, end) == lo - 1
    ensures Gathered(w, begin, end) == w[lo..hi]
    ensures lo < hi ==> FirstOf(w, begin, end) == lo
  {
    assert w[1..][lo - 1..hi - 1] == w[lo..hi];
  }

  lemma {:induction false} GatheredTakes(w: seq<Element>, begin: u32, end: u32, hi: nat)
    requires 0 < hi <= |w| && Diff(Id(w[0]), end) <= 0 && Diff(Id(w[0]), begin) >= 0
    requires Gathered(w[1..], begin, end) == w[1..][0..hi - 1]
    ensures Gathered(w, begin, end) == w[0..hi] && FirstOf(w, begin, end) == 0
  {
    assert [w[0]] + w[1..][0..hi - 1] == w[0..hi];
  }

  /** A window in which the group is one stretch: exactly that stretch is collected. */
  lemma {:induction false} GatheredIs(w: seq<Element>, begin: u32, end: u32, lo: nat, hi: nat)
    requires lo <= hi <= |w| && Stretch(w, begin, end, lo, hi)
    ensures Gathered(w, begin, end) == w[lo..hi]
    ensures lo < hi ==> FirstOf(w, begin, end) == lo
  {
    if w == [] {
    } else if hi == 0 {
      assert Diff(Id(w[0]), end) > 0;
    } else {
      StretchTail(w, begin, end, lo, hi);
      GatheredIs(w[1..], begin, end, Max(lo - 1, 0), hi - 1);
      if lo == 0 {
        GatheredTakes(w, begin, end, hi);
      } else {
        GatheredSkips(w, begin, end, lo, hi);
      }
    }
  }

  lemma StretchSlice(rx: seq<Element>, begin: u32, end: u32, lo: nat, hi: nat, from: nat, till: nat)
    requires Stretch(rx, begin, end, lo, hi) && from <= lo <= hi <= till <= |rx|
    ensures Stretch(rx[from..till], begin, end, lo - from, hi - from)
  {
  }

  lemma SliceOfSlice(rx: seq<Element>, from: nat, till: nat, lo: nat, hi: nat)
    requires from <= lo <= hi <= till <= |rx|
    ensures rx[from..till][lo - from..hi - from] == rx[lo..hi]
  {
    forall i | 0 <= i < hi - lo ensures rx[from..till][lo - from..hi - from][i] == rx[lo..hi][i] {
      assert rx[from..till][lo - from + i] == rx[lo + i];
    }
  }

  /** The group, wherever the window around `at` begins and ends. */
  lemma {:induction false} WindowGathers(rx: seq<Element>, begin: u32, end: u32, lo: nat, hi: nat, from: nat, till: nat)
    requires Stretch(rx, begin, end, lo, hi) && from <= lo < hi <= till <= |rx|
    ensures Gathered(rx[from..till], begin, end) == rx[lo..hi]
    ensures from + FirstOf(rx[from..till], begin, end) == lo
  {
    var w := rx[from..till];
    StretchSlice(rx, begin, end, lo, hi, from, till);
    GatheredIs(w, begin, end, lo - from, hi - from);
    SliceOfSlice(rx, from, till, lo, hi);
  }

  lemma {:induction false} SettleIs(rx: seq<Element>, begin: u32, ms: seq<Element>, rest: seq<Element>, ds: nat,
                                    ss: nat, c: Codec)
    requires 0 < ds <= ss && Members(rx, begin, ss) == ms && Others(rx, begin, ss) == rest
    ensures Settle(rx, begin, ds, ss, c) == Outcome(rx, ms, rest, ds, ss, c)
  {
  }

  lemma {:induction false} WindowSettleIs(rx: seq<Element>, begin: u32, ms: seq<Element>, lo: nat, from: nat, till: nat,
                       ds: nat, ss: nat, c: Codec)
    requires 0 < ds <= ss && from <= till <= |rx| && lo + |ms| <= |rx|
    requires Gathered(rx[from..till], begin, End(begin, ss)) == ms
    requires from + FirstOf(rx[from..till], begin, End(begin, ss)) == lo
    ensures WindowSettle(rx, begin, from, till, ds, ss, c)
            == Outcome(rx, ms, rx[..lo] + rx[lo + |ms|..], ds, ss, c)
  {
  }

  lemma {:induction false} SettleSmall(rx: seq<Element>, begin: u32, ds: nat, ss: nat, c: Codec)
    requires 0 < ds <= ss && |Members(rx, begin, ss)| < ds
    ensures Settle(rx, begin, ds, ss, c) == ([], rx)
  {
  }

  lemma WindowSettled(rx: seq<Element>, begin: u32, lo: nat, hi: nat, from: nat, till: nat,
                      ds: nat, ss: nat, c: Codec)
    requires 0 < ds <= ss && from <= lo < hi <= till <= |rx| && Stretch(rx, begin, End(begin, ss), lo, hi)
    ensures WindowSettle(rx, begin, from, till, ds, ss, c)
            == Outcome(rx, rx[lo..hi], rx[..lo] + rx[hi..], ds, ss, c)
  {
    WindowGathers(rx, begin, End(begin, ss), lo, hi, from, till);
    WindowSettleIs(rx, begin, rx[lo..hi], lo, from, till, ds, ss, c);
  }

  lemma SearchedWide(rx: seq<Element>, begin: u32, from: nat, ds: nat, ss: nat, c: Codec)
    requires 0 < ds <= ss && from <= |rx|
    ensures var till := Min(from + ss, |rx|);
      Searched(rx, begin, from, ds, ss, c)
      == if till - from >= ds then WindowSettle(rx, begin, from, till, ds, ss, c) else ([], rx)
  {
  }

  /** The bounded search and the search of the whole queue agree. */
  lemma {:induction false} SearchedIsSettled(rx: seq<Element>, begin: u32, lo: nat, hi: nat, from: nat, ds: nat,
                                             ss: nat, c: Codec)
    requires 0 < ds <= ss && from <= lo < hi <= from + ss && hi <= |rx|
    requires Stretch(rx, begin, End(begin, ss), lo, hi)
    requires Members(rx, begin, ss) == rx[lo..hi] && Others(rx, begin, ss) == rx[..lo] + rx[hi..]
    ensures Searched(rx, begin, from, ds, ss, c) == Settle(rx, begin, ds, ss, c)
  {
    SearchedWide(rx, begin, from, ds, ss, c);
    if Min(from + ss, |rx|) - from >= ds {
      WindowSettled(rx, begin, lo, hi, from, Min(from + ss, |rx|), ds, ss, c);
      SettleIs(rx, begin, rx[lo..hi], rx[..lo] + rx[hi..], ds, ss, c);
    } else {
      SettleSmall(rx, begin, ds, ss, c);
    }
  }

  /** While all numbers are within half a circle, `decode` does what is meant. */
  lemma WindowDecodeIsDecode(rx: seq<Element>, base: u32, ds: nat, ss: nat, c: Codec, pkt: Packet, now: u32)
    requires 0 < ds <= ss <= 256 && Sorted(rx, base, ss) && Near(SeqId(pkt), base, ss)
    ensures WindowDecode(rx, ds, ss, c, pkt, now) == Decode(rx, ds, ss, c, pkt, now)
  {
    var e, id := Element(pkt, now), SeqId(pkt);
    ScanIsPlace(rx, base, ss, id);
    if !Stored(rx, id) {
      var q, at := Inserted(rx, e), Place(rx, id);
      InsertSorted(rx, base, ss, e);
      var lo, hi := GroupInWindow(q, base, ss, at);
      SearchedIsSettled(q, Begin(id, ss), lo, hi, SearchBegin(at, id, ss), ds, ss, c);
    }
  }

  // ----- beyond half a circle -----

  /** Three data packets of 24 bytes, a third of the circle apart, each after the one before it all the way round. */
  function Third(k: nat): Packet
    requires k < 3
  {
    Framed(k * 0x5000_0000, TYPE_DATA, Zeros(18))
  }

  /** With groups of five and three each is a data packet in a data place. */
  lemma ThirdFields(k: nat)
    requires k < 3
    ensures SeqId(Third(k)) == k * 0x5000_0000 && Flag(Third(k)) == TYPE_DATA && SeqId(Third(k)) % 8 == 0
  {
    FramedFields(k * 0x5000_0000, TYPE_DATA, Zeros(18));
  }

  /** The queue after they have arrived in turn. */
  function Thirds(n: nat): (rx: seq<Element>)
    requires n <= 3
    ensures |rx| == n
  {
    seq(n, k requires 0 <= k < n => Element(Third(k), 0))
  }

  /** Each number is ahead of the one before it, and the first of the last. */
  lemma ThirdsAhead(n: nat)
    requires 1 <= n <= 3
    ensures Diff(n % 3 * 0x5000_0000, (n - 1) * 0x5000_0000) > 0
  {
    WrapSmall((n % 3 - (n - 1)) * 0x5000_0000);
  }

  lemma LastThird(n: nat)
    requires 1 <= n <= 3
    ensures Id(Thirds(n)[n - 1]) == (n - 1) * 0x5000_0000
  {
    ThirdFields(n - 1);
  }

  lemma ThirdsNext(n: nat)
    requires n <= 3
    ensures Scan(Thirds(n), SeqId(Third(n % 3))) == Some(n)
  {
    ThirdFields(n % 3);
    if n > 0 {
      LastThird(n);
      ThirdsAhead(n);
    }
  }

  /** Each of them, and then the first once more, is put at the end of the queue. */
  lemma ThirdArrives(n: nat, c: Codec)
    requires n <= 3
    ensures WindowDecode(Thirds(n), 5, 8, c, Third(n % 3), 0) == ([], Thirds(n) + [Element(Third(n % 3), 0)])
  {
    ThirdsNext(n);
    ThirdFields(n % 3);
    StoredAtEnd(Thirds(n), 5, 8, c, Third(n % 3), 0);
  }

  lemma ThirdsGrow(n: nat)
    requires n < 3
    ensures Thirds(n) + [Element(Third(n), 0)] == Thirds(n + 1)
  {
  }

  /** The whole-queue function recognises the number. */
  lemma ThirdIsStored(c: Codec)
    ensures Decode(Thirds(3), 5, 8, c, Third(0), 0) == ([], Thirds(3))
  {
    assert Id(Thirds(3)[0]) == SeqId(Third(0));
  }

  lemma ThirdStored(n: nat, c: Codec)
    requires n < 3
    ensures WindowDecode(Thirds(n), 5, 8, c, Third(n), 0) == ([], Thirds(n + 1))
  {
    ThirdsGrow(n);
    assert n % 3 == n;
    ThirdArrives(n, c);
  }

  /**
   Beyond half a circle the queue can hold a number twice: of three packets a
   third of the circle apart, the first is stored again when it is repeated.
   */
  lemma RepeatedRoundTheCircle(c: Codec)
    ensures WindowDecode(Thirds(0), 5, 8, c, Third(0), 0) == ([], Thirds(1))
    ensures WindowDecode(Thirds(1), 5, 8, c, Third(1), 0) == ([], Thirds(2))
    ensures WindowDecode(Thirds(2), 5, 8, c, Third(2), 0) == ([], Thirds(3))
    ensures WindowDecode(Thirds(3), 5, 8, c, Third(0), 0) == ([], Thirds(3) + [Thirds(3)[0]])
    ensures Decode(Thirds(3), 5, 8, c, Third(0), 0) == ([], Thirds(3))
  {
    ThirdStored(0, c);
    ThirdStored(1, c);
    ThirdStored(2, c);
    ThirdArrives(3, c);
    ThirdIsStored(c);
  }
}
