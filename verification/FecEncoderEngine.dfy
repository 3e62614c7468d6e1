/**
 The encoder in the source's own form (network/kcp/fec.go:275-391): rows of a
 shard cache that are filled, padded and marked in place. `encode` is proved to
 compute FecEncoding.Encode.
 */
module FecEncoderEngine {
  import opened Serial
  import opened Wire
  import opened FecPackets
  import opened FecCodec
  import opened FecEncoding

  ghost predicate RowHolds(row: seq<byte>, len: nat, off: nat, shard: Shard) {
    off < len <= MTU_LIMIT == |row| && row[off..len] == shard
  }

  /** Row `k` holds `group[k]` behind the first `off` bytes, cut to length `lens[k]`. */
  ghost predicate Holding(rows: seq<seq<byte>>, lens: seq<nat>, off: nat, group: seq<Shard>) {
    && |group| <= |rows| == |lens|
    && forall k :: 0 <= k < |group| ==> RowHolds(rows[k], lens[k], off, group[k])
  }

  /** Each of `ps` is a packet of `parity` behind the first `off` bytes, from the first on. */
  ghost predicate BehindFirst(ps: seq<seq<byte>>, off: nat, parity: seq<seq<byte>>) {
    |ps| <= |parity| && forall k :: 0 <= k < |ps| ==> off <= |ps[k]| && ps[k][off..] == parity[k]
  }

  /** All of them. */
  ghost predicate Behind(ps: seq<seq<byte>>, off: nat, parity: seq<seq<byte>>) {
    |ps| == |parity| && BehindFirst(ps, off, parity)
  }

  /** `was` with the header and the size field of data packet `id` written behind `at` bytes. */
  ghost function Marked(was: seq<byte>, at: nat, id: u32): seq<byte>
    requires at + HEADER + 2 <= |was|
  {
    was[..at] + Framed(id, TYPE_DATA, Sized(was[at + HEADER + 2..]))
  }

  lemma MarkedIs(was: seq<byte>, at: nat, id: u32)
    requires at + HEADER + 2 <= |was|
    ensures Splice(was, at, LE32(id) + LE16(TYPE_DATA) + LE16((|was| - at - HEADER) % 0x1_0000)) == Marked(was, at, id)
  {
  }

  lemma {:induction false} LongestGrows(group: seq<Shard>, s: Shard)
    ensures Longest(group + [s]) == Max(Longest(group), |s|)
  {
  }

  lemma PaddedRow(row: seq<byte>, len: nat, off: nat, shard: Shard, m: nat)
    requires RowHolds(row, len, off, shard) && len <= m <= MTU_LIMIT
    ensures var r := row[..len] + Zeros(m - len) + row[m..];
      |r| == MTU_LIMIT && r[off..m] == Pad(shard, m - off)
  {
  }

  lemma {:induction false} LongestIsOne(group: seq<Shard>)
    requires group != []
    ensures exists k :: 0 <= k < |group| && |group[k]| == Longest(group)
  {
    var n := |group| - 1;
    if Longest(group[..n]) <= |group[n]| {
      assert |group[n]| == Longest(group);
    } else {
      LongestIsOne(group[..n]);
      var k :| 0 <= k < n && |group[..n][k]| == Longest(group[..n]);
      assert |group[k]| == Longest(group);
    }
  }

  lemma {:induction false} RowsWithin(rows: seq<seq<byte>>, lens: seq<nat>, off: nat, group: seq<Shard>, m: nat)
    requires Holding(rows, lens, off, group) && group != [] && m == off + Longest(group)
    ensures m <= MTU_LIMIT && forall k :: 0 <= k < |group| ==> lens[k] <= m
  {
    LongestBounds(group);
    LongestIsOne(group);
    forall k | 0 <= k < |group| ensures lens[k] <= m {
      assert group[k] in group && RowHolds(rows[k], lens[k], off, group[k]);
    }
    var k :| 0 <= k < |group| && |group[k]| == Longest(group);
    assert RowHolds(rows[k], lens[k], off, group[k]);
  }

  lemma {:induction false} GroupLength(rows: seq<seq<byte>>, lens: seq<nat>, off: nat, group: seq<Shard>)
    requires group != [] && Holding(rows, lens, off, group)
    ensures Longest(group) > 0
  {
  }

  lemma {:induction false} ParityShards(c: Codec, group: seq<Shard>, ps: nat)
    requires Regular(c, |group|, ps) && Longest(group) > 0 && c.encode(Stretched(group)).Some?
    ensures |c.encode(Stretched(group)).value| == ps
    ensures forall k :: 0 <= k < ps ==> |c.encode(Stretched(group)).value[k]| == Longest(group)
  {
    StretchedEqual(group);
    var shards := c.encode(Stretched(group)).value;
    assert EqualLengths(shards, Longest(group));
    forall k | 0 <= k < |shards| ensures |shards[k]| == Longest(group) {
      assert shards[k] in shards;
    }
  }

  lemma MarkedParts(was: seq<byte>, at: nat, id: u32)
    requires at + HEADER + 2 <= |was|
    ensures var m := Marked(was, at, id); |m| == |was| && m[at + HEADER..] == Sized(was[at + HEADER + 2..])
  {
  }

  class FecEncoder {
    const dataShards: nat
    const parityShards: nat
    const shardSize: nat
    const paws: u32
    const headerOffset: nat
    const payloadOffset: nat

    const codec: Codec
    var next: u32
    var shardCount: nat
    var maxSize: nat
    /** Rows of MTU_LIMIT bytes, and the length each row is cut to. */
    var shardCache: seq<seq<byte>>
    var shardLen: seq<nat>
    /** The sized payloads of the unfinished group. */
    ghost var group: seq<Shard>

    ghost predicate Shape()
      reads this
    {
      && 0 < dataShards && 0 < parityShards && dataShards + parityShards == shardSize <= 256
      && paws == Paws(shardSize) && payloadOffset == headerOffset + HEADER
      && |shardCache| == |shardLen| == shardSize
      && (forall k :: 0 <= k < shardSize ==> |shardCache[k]| == MTU_LIMIT)
      && Regular(codec, dataShards, parityShards)
    }

    /** The rows hold `group`, and `maxSize` is the size of its longest packet. */
    ghost predicate Filled()
      reads this
    {
      && shardCount == |group| <= dataShards
      && Holding(shardCache, shardLen, payloadOffset, group)
      && maxSize == if group == [] then 0 else payloadOffset + Longest(group)
    }

    ghost predicate Valid()
      reads this
    {
      Shape() && Filled() && shardCount < dataShards
    }

    ghost function View(): Encoder
      reads this
    {
      Encoder(dataShards, parityShards, next, group)
    }

    constructor (ds: nat, ps: nat, offset: nat, c: Codec)
      requires 0 < ds && 0 < ps && ds + ps <= 256 && Regular(c, ds, ps)
      ensures Valid() && View() == Encoder(ds, ps, 0, []) && Aligned(View())
      ensures headerOffset == offset && codec == c
    {
      dataShards, parityShards, shardSize := ds, ps, ds + ps;
      paws := Paws(ds + ps);
      headerOffset, payloadOffset := offset, offset + HEADER;
      codec := c;
      next, shardCount, maxSize, group := 0, 0, 0, [];
      shardCache := seq(ds + ps, _ => Zeros(MTU_LIMIT));
      shardLen := seq(ds + ps, _ => MTU_LIMIT);
    }

    /** `newFECEncoder`: nothing when a count is not positive or the code refuses the sizes. */
    static method New(ds: int, ps: int, offset: nat, c: Option<Codec>) returns (enc: FecEncoder?)
      requires c.Some? ==> ds + ps <= 256 && (ds > 0 && ps > 0 ==> Regular(c.value, ds, ps))
      ensures enc == null <==> ds <= 0 || ps <= 0 || c.None?
      ensures enc != null ==> fresh(enc) && enc.Valid() && enc.View() == Encoder(ds, ps, 0, [])
    {
      if ds <= 0 || ps <= 0 {
        return null;
      }
      if c.None? {
        return null;
      }
      enc := new FecEncoder(ds, ps, offset, c.value);
    }

    /** `markData` and the size field: turns `b` into the next data packet. */
    method MarkData(b: array<byte>)
      requires payloadOffset == headerOffset + HEADER && payloadOffset + 2 <= b.Length
      modifies `next, b
      ensures next == Wrap(old(next) + 1)
      ensures b[..] == Marked(old(b[..]), headerOffset, old(next))
    {
      ghost var was := b[..];
      var at := Encode32u(b, headerOffset, next);
      at := Encode16u(b, at, TYPE_DATA);
      SpliceTwice(was, headerOffset, LE32(next), LE16(TYPE_DATA));
      at := Encode16u(b, at, (b.Length - payloadOffset) % 0x1_0000);
      SpliceTwice(was, headerOffset, LE32(next) + LE16(TYPE_DATA), LE16((b.Length - payloadOffset) % 0x1_0000));
      next := Wrap(next + 1);
      MarkedIs(was, headerOffset, old(next));
    }

    /** Puts the payload of `b` into the next row. */
    method Store(b: array<byte>)
      requires Filled() && shardCount < dataShards <= |shardCache| && |shardCache[shardCount]| == MTU_LIMIT
      requires payloadOffset < b.Length <= MTU_LIMIT
      modifies `shardCache, `shardLen, `shardCount, `maxSize, `group
      ensures Filled() && group == old(group) + [b[payloadOffset..]]
      ensures |shardCache| == old(|shardCache|)
      ensures forall k :: 0 <= k < |shardCache| ==> |shardCache[k]| == old(|shardCache[k]|)
    {
      var sz := b.Length;
      var row := shardCache[shardCount];
      LongestGrows(group, b[payloadOffset..]);
      shardLen := shardLen[shardCount := sz];
      shardCache := shardCache[shardCount := row[..payloadOffset] + b[payloadOffset..] + row[sz..]];
      group := group + [b[payloadOffset..]];
      shardCount := shardCount + 1;
      if sz > maxSize {
        maxSize := sz;
      }
    }

    /** Pads row `i` of a complete group in place and hands its payload out. */
    method PadRow(i: nat, ghost shard: Shard) returns (payload: Shard)
      requires i < |shardCache| == |shardLen| && RowHolds(shardCache[i], shardLen[i], payloadOffset, shard)
      requires shardLen[i] <= maxSize <= MTU_LIMIT
      modifies `shardCache
      ensures payload == Pad(shard, maxSize - payloadOffset)
      ensures |shardCache| == old(|shardCache|) && |shardCache[i]| == MTU_LIMIT
      ensures forall k :: 0 <= k < |shardCache| && k != i ==> shardCache[k] == old(shardCache[k])
    {
      var row, slen := shardCache[i], shardLen[i];
      PaddedRow(row, slen, payloadOffset, shard, maxSize);
      row := row[..slen] + Zeros(maxSize - slen) + row[maxSize..];
      shardCache := shardCache[i := row];
      payload := row[payloadOffset..maxSize];
    }

    /** Pads the rows of a complete group and hands their payloads out. */
    method PadRows() returns (cache: seq<Shard>)
      requires Shape() && Filled() && shardCount == dataShards
      modifies `shardCache
      ensures Shape() && cache == Stretched(group)
    {
      ghost var goal := Stretched(group);
      RowsWithin(shardCache, shardLen, payloadOffset, group, maxSize);
      cache := [];
      for i := 0 to dataShards
        invariant |shardCache| == shardSize
        invariant forall k :: 0 <= k < shardSize ==> |shardCache[k]| == MTU_LIMIT
        invariant forall k :: i <= k < dataShards ==> shardCache[k] == old(shardCache[k])
        invariant cache == goal[..i]
      {
        assert RowHolds(shardCache[i], shardLen[i], payloadOffset, group[i]);
        var payload := PadRow(i, group[i]);
        assert payload == goal[i];
        cache := cache + [payload];
      }
    }

    /** Writes a parity payload into row `i` and marks it (`markParity`). */
    method MarkRow(i: nat, shard: Shard) returns (p: seq<byte>)
      requires Shape() && i < shardSize && payloadOffset <= maxSize <= MTU_LIMIT && |shard| == maxSize - payloadOffset
      modifies `shardCache, `shardLen, `next
      ensures Shape() && next == Wrap(old(next) + 1) % paws
      ensures headerOffset <= |p| && p[headerOffset..] == Framed(old(next), TYPE_PARITY, shard)
    {
      var row := shardCache[i];
      row := row[..headerOffset] + Framed(next, TYPE_PARITY, shard) + row[maxSize..];
      shardCache := shardCache[i := row];
      shardLen := shardLen[i := maxSize];
      next := Wrap(next + 1) % paws;
      return row[..maxSize];
    }

    /** One round of the loop of `encode` over the parity shards. */
    method MarkNext(ps: seq<seq<byte>>, shard: Shard, ghost start: u32, ghost goal: seq<seq<byte>>)
      returns (more: seq<seq<byte>>)
      requires Shape() && |ps| < parityShards == |goal| && next == ParityId(start, |ps|, paws)
      requires payloadOffset <= maxSize <= MTU_LIMIT && |shard| == maxSize - payloadOffset
      requires BehindFirst(ps, headerOffset, goal) && goal[|ps|] == Framed(next, TYPE_PARITY, shard)
      modifies `shardCache, `shardLen, `next
      ensures Shape() && next == ParityId(start, |ps| + 1, paws)
      ensures |more| == |ps| + 1 && BehindFirst(more, headerOffset, goal)
    {
      var p := MarkRow(dataShards + |ps|, shard);
      more := ps + [p];
    }

    /** Writes the parity payloads into their rows and marks them. */
    method MarkParity(shards: seq<Shard>) returns (ps: seq<seq<byte>>)
      requires Shape() && |shards| == parityShards && payloadOffset <= maxSize <= MTU_LIMIT
      requires forall k :: 0 <= k < |shards| ==> |shards[k]| == maxSize - payloadOffset
      modifies `shardCache, `shardLen, `next
      ensures Shape() && next == ParityId(old(next), |shards|, paws)
      ensures Behind(ps, headerOffset, ParityPackets(old(next), shards, paws))
    {
      ghost var goal := ParityPackets(next, shards, paws);
      ps := [];
      for k := 0 to parityShards
        invariant Shape() && next == ParityId(old(next), k, paws)
        invariant |ps| == k && BehindFirst(ps, headerOffset, goal)
      {
        ps := MarkNext(ps, shards[k], old(next), goal);
      }
    }

    /** The end of a group: pad, encode, mark, and start over. */
    method Finish() returns (ps: seq<seq<byte>>)
      requires Shape() && Filled() && shardCount == dataShards
      modifies `shardCache, `shardLen, `shardCount, `maxSize, `group, `next
      ensures Valid() && group == []
      ensures match codec.encode(Stretched(old(group)))
        case None => ps == [] && next == old(next)
        case Some(shards) =>
          && next == ParityId(old(next), |shards|, paws)
          && Behind(ps, headerOffset, ParityPackets(old(next), shards, paws))
    {
      ps := [];
      GroupLength(shardCache, shardLen, payloadOffset, group);
      RowsWithin(shardCache, shardLen, payloadOffset, group, maxSize);
      var cache := PadRows();
      match codec.encode(cache) {
        case Some(shards) =>
          ParityShards(codec, group, parityShards);
          ps := MarkParity(shards);
        case None =>
      }
      shardCount, maxSize, group := 0, 0, [];
    }

    /** The first half of `encode`: marks the packet and puts its payload into the next row. */
    method Accept(b: array<byte>)
      requires Shape() && Filled() && shardCount < dataShards && payloadOffset + 2 <= b.Length <= MTU_LIMIT
      modifies `next, `shardCache, `shardLen, `shardCount, `maxSize, `group, b
      ensures Shape() && Filled() && next == Wrap(old(next) + 1)
      ensures group == old(group) + [Sized(old(b[payloadOffset + 2..]))]
      ensures b[..] == old(b[..headerOffset]) + Framed(old(next), TYPE_DATA, Sized(old(b[payloadOffset + 2..])))
    {
      MarkedParts(b[..], headerOffset, next);
      assert b[payloadOffset + 2..] == b[..][payloadOffset + 2..] && b[..headerOffset] == b[..][..headerOffset];
      MarkData(b);
      Store(b);
      assert b[payloadOffset..] == b[..][payloadOffset..];
    }

    /** `encode`: `b` becomes a data packet; the packet that completes a group also yields its parity packets. */
    method Encode(b: array<byte>) returns (ps: seq<seq<byte>>)
      requires Valid() && payloadOffset + 2 <= b.Length <= MTU_LIMIT
      modifies this, b
      ensures Valid()
      ensures var r := FecEncoding.Encode(old(View()), codec, old(b[payloadOffset + 2..]));
        && View() == r.enc
        && b[..] == old(b[..headerOffset]) + r.data
        && Behind(ps, headerOffset, r.parity)
    {
      Accept(b);
      ps := [];
      if shardCount == dataShards {
        ps := Finish();
      }
    }
  }
}
