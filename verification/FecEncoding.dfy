/**
 The encoder (network/kcp/fec.go:275-391): it numbers packets so that a group
 of `dataShards` data packets and `parityShards` parity packets always starts at
 a multiple of the group size, and wraps at a multiple of it.
 */
module FecEncoding {
  import opened Arithmetic
  import opened Serial
  import opened Wire
  import opened FecPackets
  import opened FecCodec

  const ALL_ONES: int := 0xffff_ffff

  /** The wrap-around point: the largest multiple of the group size that a uint32 holds. */
  function Paws(ss: nat): (p: u32)
    requires 0 < ss <= 256
    ensures p % ss == 0 && ALL_ONES - ss < p <= ALL_ONES
  {
    assert ALL_ONES == ALL_ONES / ss * ss + ALL_ONES % ss;
    MultipleOf(ALL_ONES / ss, ss);
    ALL_ONES / ss * ss
  }

  /** The encoder as a value: `group` holds the sized payloads of the unfinished group. */
  datatype Encoder = Encoder(ds: nat, ps: nat, next: u32, group: seq<Shard>)

  function Size(e: Encoder): nat {
    e.ds + e.ps
  }

  function Longest(group: seq<Shard>): nat {
    if group == [] then 0 else Max(Longest(group[..|group| - 1]), |group[|group| - 1]|)
  }

  /** The group stretched to the length of its longest shard. */
  function Stretched(group: seq<Shard>): (g: seq<Shard>)
    ensures |g| == |group|
  {
    seq(|group|, k requires 0 <= k < |group| => Pad(group[k], Longest(group)))
  }

  /** The number given to the k-th packet after `start` by `markParity`. */
  function ParityId(start: u32, k: nat, paws: u32): u32
    requires paws > 0
  {
    if k == 0 then start else Wrap(ParityId(start, k - 1, paws) + 1) % paws
  }

  function ParityPackets(start: u32, shards: seq<Shard>, paws: u32): (ps: seq<seq<byte>>)
    requires paws > 0
    ensures |ps| == |shards|
  {
    seq(|shards|, k requires 0 <= k < |shards| => Framed(ParityId(start, k, paws), TYPE_PARITY, shards[k]))
  }

  datatype Encoded = Encoded(enc: Encoder, data: seq<byte>, parity: seq<seq<byte>>)

  /** `encode` on a packet that carries `content`. */
  function Encode(e: Encoder, c: Codec, content: seq<byte>): Encoded
    requires 0 < Size(e) <= 256
  {
    var data := Framed(e.next, TYPE_DATA, Sized(content));
    var group, next := e.group + [Sized(content)], Wrap(e.next + 1);
    if |group| < e.ds then Encoded(e.(next := next, group := group), data, [])
    else
      match c.encode(Stretched(group))
      case None => Encoded(e.(next := next, group := []), data, [])
      case Some(shards) =>
        var paws := Paws(Size(e));
        Encoded(e.(next := ParityId(next, |shards|, paws), group := []), data, ParityPackets(next, shards, paws))
  }

  // ----- alignment -----

  /** What holds before every call: the place in the group is the place in the numbering. */
  ghost predicate Aligned(e: Encoder) {
    && 0 < e.ds && 0 < e.ps && Size(e) <= 256
    && e.next < Paws(Size(e)) && e.next % Size(e) == |e.group| < e.ds
  }

  lemma {:induction false} LongestBounds(group: seq<Shard>)
    ensures forall s :: s in group ==> |s| <= Longest(group)
  {
    if group != [] {
      LongestBounds(group[..|group| - 1]);
      assert group == group[..|group| - 1] + [group[|group| - 1]];
    }
  }

  lemma {:induction false} StretchedEqual(group: seq<Shard>)
    ensures EqualLengths(Stretched(group), Longest(group))
  {
    LongestBounds(group);
    forall s | s in Stretched(group) ensures |s| == Longest(group) {
      var k :| 0 <= k < |group| && Stretched(group)[k] == s;
      assert group[k] in group;
    }
  }

  /** Below the next multiple of the group size, counting on only changes the place. */
  lemma PlaceOf(next: u32, k: nat, ss: nat)
    requires 0 < ss && next % ss + k < ss
    ensures (next + k) % ss == next % ss + k
  {
    DivUnique(next + k, ss, next / ss, next % ss + k);
  }

  /** A group that starts below the wrap-around point also ends below it. */
  lemma GroupBelowPaws(next: u32, ss: nat)
    requires 0 < ss <= 256 && next < Paws(ss)
    ensures next - next % ss + ss <= Paws(ss)
  {
    var p := Paws(ss);
    var begin := next - next % ss;
    assert begin == next / ss * ss && p == p / ss * ss;
    if p - begin < ss {
      MultiplesApart(next / ss, p / ss, ss);
    }
  }

  lemma RollOver(x: nat, paws: nat)
    requires 0 < paws && x <= paws
    ensures x % paws == if x == paws then 0 else x
  {
  }

  /** Parity numbers run on from the data numbers, and only the last step can wrap. */
  lemma {:induction false} ParityIds(start: u32, k: nat, paws: u32)
    requires start + k <= paws && start < paws
    ensures ParityId(start, k, paws) == if start + k == paws then 0 else start + k
  {
    if k > 0 {
      ParityIds(start, k - 1, paws);
      WrapId(start + k);
      RollOver(start + k, paws);
    }
  }

  lemma EncodesGroup(e: Encoder, c: Codec, content: seq<byte>)
    requires Regular(c, e.ds, e.ps) && |e.group| + 1 == e.ds
    ensures var group := e.group + [Sized(content)];
      && Longest(group) >= 2 && EqualLengths(Stretched(group), Longest(group))
      && (Shaped(c, e.ds, e.ps) ==> c.encode(Stretched(group)).Some?)
      && (c.encode(Stretched(group)).Some? ==>
           |c.encode(Stretched(group)).value| == e.ps
           && EqualLengths(c.encode(Stretched(group)).value, Longest(group)))
  {
    var group := e.group + [Sized(content)];
    StretchedEqual(group);
    LongestBounds(group);
    assert Sized(content) in group;
  }

  /**
   With an aligned encoder every data packet has a number in the data part of
   its group, and parity packets come only with the last of them.
   */
  lemma EncodeData(e: Encoder, c: Codec, content: seq<byte>)
    requires Aligned(e) && Shaped(c, e.ds, e.ps)
    ensures var r := Encode(e, c, content);
      && r.data == Framed(e.next, TYPE_DATA, Sized(content)) && e.next % Size(e) < e.ds
      && |r.parity| == (if |e.group| + 1 < e.ds then 0 else e.ps)
  {
    if |e.group| + 1 == e.ds {
      EncodesGroup(e, c, content);
    }
  }

  /** Where the k-th parity packet of the group lies. */
  lemma ParityPlace(e: Encoder, k: nat)
    requires Aligned(e) && |e.group| + 1 == e.ds && k < e.ps
    ensures e.next + 1 + k < Paws(Size(e)) && (e.next + 1 + k) % Size(e) == e.ds + k
    ensures Wrap(e.next + 1) == e.next + 1
  {
    GroupBelowPaws(e.next, Size(e));
    WrapId(e.next + 1);
    PlaceOf(e.next, 1 + k, Size(e));
  }

  /** What the packet that completes a group yields. */
  lemma EncodedParity(e: Encoder, c: Codec, content: seq<byte>, shards: seq<Shard>)
    requires 0 < Size(e) <= 256 && |e.group| + 1 == e.ds
    requires c.encode(Stretched(e.group + [Sized(content)])) == Some(shards)
    ensures Encode(e, c, content).parity == ParityPackets(Wrap(e.next + 1), shards, Paws(Size(e)))
  {
  }

  lemma {:induction false} ParityBody(e: Encoder, c: Codec, content: seq<byte>, k: nat)
    requires 0 < Size(e) <= 256 && Shaped(c, e.ds, e.ps) && |e.group| + 1 == e.ds && k < e.ps
    ensures var r, shards := Encode(e, c, content), c.encode(Stretched(e.group + [Sized(content)]));
      && shards.Some? && |r.parity| == |shards.value| == e.ps
      && r.parity[k] == Framed(ParityId(Wrap(e.next + 1), k, Paws(Size(e))), TYPE_PARITY, shards.value[k])
  {
    EncodesGroup(e, c, content);
    EncodedParity(e, c, content, c.encode(Stretched(e.group + [Sized(content)])).value);
  }

  /** The parity packets have consecutive numbers in the parity part, below the wrap-around point. */
  lemma EncodeParity(e: Encoder, c: Codec, content: seq<byte>, k: nat)
    requires Aligned(e) && Shaped(c, e.ds, e.ps) && |e.group| + 1 == e.ds && k < e.ps
    ensures e.next + 1 + k < Paws(Size(e)) && (e.next + 1 + k) % Size(e) == e.ds + k
    ensures var r, shards := Encode(e, c, content), c.encode(Stretched(e.group + [Sized(content)]));
      && shards.Some? && |r.parity| == |shards.value| == e.ps
      && r.parity[k] == Framed(e.next + 1 + k, TYPE_PARITY, shards.value[k])
  {
    ParityPlace(e, k);
    ParityBody(e, c, content, k);
    ParityIds(e.next + 1, k, Paws(Size(e)));
  }

  lemma NextGroup(next: nat, ss: nat)
    requires ss > 0
    ensures (next - next % ss + ss) % ss == 0
  {
    MultipleOf(next / ss + 1, ss);
    assert (next / ss + 1) * ss == next - next % ss + ss;
  }

  /** The next group starts at a multiple of the group size, at most at the wrap-around point. */
  lemma NextStart(next: u32, ss: nat)
    requires 0 < ss <= 256 && next < Paws(ss)
    ensures next - next % ss + ss <= Paws(ss) && (next - next % ss + ss) % ss == 0 == 0 % ss
  {
    GroupBelowPaws(next, ss);
    NextGroup(next, ss);
  }

  /** The step of the numbering when a group is completed. */
  lemma {:induction false} GroupEnds(e: Encoder, shards: seq<Shard>)
    requires Aligned(e) && |e.group| + 1 == e.ds && |shards| == e.ps
    ensures var next := ParityId(Wrap(e.next + 1), |shards|, Paws(Size(e)));
      && next == (if e.next - |e.group| + Size(e) == Paws(Size(e)) then 0 else e.next - |e.group| + Size(e))
      && next < Paws(Size(e)) && next % Size(e) == 0
  {
    var end := e.next - |e.group| + Size(e);
    NextStart(e.next, Size(e));
    assert end <= Paws(Size(e)) && end % Size(e) == 0 && e.next + 1 + e.ps == end;
    WrapId(e.next + 1);
    ParityIds(e.next + 1, e.ps, Paws(Size(e)));
  }

  lemma AlignedWithin(e: Encoder, x: Shard)
    requires Aligned(e) && |e.group| + 1 < e.ds
    ensures Aligned(e.(next := Wrap(e.next + 1), group := e.group + [x]))
  {
    GroupBelowPaws(e.next, Size(e));
    WrapId(e.next + 1);
    PlaceOf(e.next, 1, Size(e));
  }

  lemma LeftAtParity(e: Encoder)
    requires Aligned(e) && |e.group| + 1 == e.ds
    ensures !Aligned(e.(next := Wrap(e.next + 1), group := []))
  {
    GroupBelowPaws(e.next, Size(e));
    WrapId(e.next + 1);
    PlaceOf(e.next, 1, Size(e));
  }

  /**
   Alignment is kept exactly when the erasure code succeeds: a failure at the
   end of a group leaves the numbering at the parity part of a group whose
   parity packets were never sent.
   */
  lemma EncodeKeepsAlignment(e: Encoder, c: Codec, content: seq<byte>)
    requires Aligned(e) && Regular(c, e.ds, e.ps)
    ensures Aligned(Encode(e, c, content).enc) <==>
      |e.group| + 1 < e.ds || c.encode(Stretched(e.group + [Sized(content)])).Some?
  {
    var group := e.group + [Sized(content)];
    if |group| < e.ds {
      AlignedWithin(e, Sized(content));
    } else {
      match c.encode(Stretched(group))
      case None =>
        LeftAtParity(e);
      case Some(shards) =>
        EncodesGroup(e, c, content);
        GroupEnds(e, shards);
    }
  }
}
