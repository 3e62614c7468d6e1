/**
 The decoder in the source's own form (network/kcp/fec.go:69-267): the table of
 packet types, group sizes that follow it, a queue kept in order by scanning from
 its end, a bounded window searched for the group of the new packet, and two
 scratch tables of shards. `decode` is proved to compute FecTuning.TunedDecode,
 for any packets.
 */
module FecDecoderEngine {
  import opened Serial
  import opened Wire
  import opened FecPackets
  import opened FecCodec
  import opened FecDecoding
  import opened AutoTuning
  import opened FecTuning

  /** The table of shards and the counts for the members collected so far. */
  ghost predicate Tabled(ms: seq<Element>, ss: nat, shards: seq<Option<Shard>>, data: nat, longest: nat)
    requires ss > 0
  {
    shards == Slots(ms, ss) && data == DataCount(ms) && longest == MaxLength(ms)
  }

  lemma {:induction false} MembersGrow(ms: seq<Element>, e: Element, ss: nat)
    requires ss > 0
    ensures var more := ms + [e];
      && Slots(more, ss) == Slots(ms, ss)[Id(e) % ss := Some(Body(e.pkt))]
      && DataCount(more) == DataCount(ms) + (if Flag(e.pkt) == TYPE_DATA then 1 else 0)
      && MaxLength(more) == Max(MaxLength(ms), |Body(e.pkt)|)
  {
    var more := ms + [e];
    assert more[..|more| - 1] == ms && more[|more| - 1] == e;
  }

  /** Where the search loop stands: `rest` of the window is to come, `ms` is found, the first of it at `first`. */
  ghost predicate Found(w: seq<Element>, begin: u32, end: u32, rest: seq<Element>, i: nat, first: int,
                        ms: seq<Element>)
  {
    && ms + Gathered(rest, begin, end) == Gathered(w, begin, end)
    && if ms != [] then first == FirstOf(w, begin, end)
       else Gathered(rest, begin, end) != [] ==> FirstOf(w, begin, end) == i + FirstOf(rest, begin, end)
  }

  lemma FoundStart(w: seq<Element>, begin: u32, end: u32)
    ensures forall first :: Found(w, begin, end, w, 0, first, [])
  {
    var all := Gathered(w, begin, end);
    assert [] + all == all;
  }

  lemma FoundNext(w: seq<Element>, begin: u32, end: u32, rest: seq<Element>, i: nat, first: int, ms: seq<Element>)
    requires rest != [] && Found(w, begin, end, rest, i, first, ms)
    ensures Diff(Id(rest[0]), end) <= 0 && Diff(Id(rest[0]), begin) < 0 ==>
      Found(w, begin, end, rest[1..], i + 1, first, ms)
    ensures Diff(Id(rest[0]), end) <= 0 && Diff(Id(rest[0]), begin) >= 0 ==>
      Found(w, begin, end, rest[1..], i + 1, if ms == [] then i else first, ms + [rest[0]])
  {
    var x, more := [rest[0]], Gathered(rest[1..], begin, end);
    assert (ms + x) + more == ms + (x + more);
  }

  lemma {:induction false} FoundEnd(w: seq<Element>, begin: u32, end: u32, rest: seq<Element>, i: nat, first: int,
                                    ms: seq<Element>)
    requires Found(w, begin, end, rest, i, first, ms) && (rest == [] || Diff(Id(rest[0]), end) > 0)
    ensures ms == Gathered(w, begin, end) && (ms != [] ==> first == FirstOf(w, begin, end))
  {
    assert ms + [] == ms;
  }

  class FecDecoder {
    var rxlimit: nat
    var dataShards: nat
    var parityShards: nat
    var shardSize: nat
    var codec: Codec
    var rx: seq<Element>

    const autoTune: AutoTune
    const make: Maker

    ghost function GroupSizes(): Sizes
      reads this
    {
      Sizes(dataShards, parityShards, codec)
    }

    ghost function View(): Decoder
      requires autoTune.Valid()
      reads this, autoTune.pulses
    {
      Decoder(GroupSizes(), autoTune.pulses[..], rx)
    }

    ghost predicate WellSized()
      reads this
    {
      && 0 < dataShards && 0 < parityShards && shardSize == dataShards + parityShards
      && rxlimit == MULTIPLE * shardSize && autoTune.Valid()
    }

    /** Every stored packet lies in a pooled buffer. */
    ghost predicate Valid()
      reads this
    {
      WellSized() && AllShort(rx, MTU_LIMIT)
    }

    constructor (ds: nat, ps: nat, c: Codec, make: Maker)
      requires 0 < ds && 0 < ps
      ensures Valid() && View() == Decoder(Sizes(ds, ps, c), Silent(), []) && this.make == make
      ensures fresh(autoTune.pulses)
    {
      dataShards, parityShards, shardSize := ds, ps, ds + ps;
      rxlimit := MULTIPLE * (ds + ps);
      codec, this.make := c, make;
      rx := [];
      autoTune := new AutoTune();
    }

    /** Scans from the end for the packet's place; stops at a packet with the same number. */
    method FindPlace(id: u32) returns (repeated: bool, insertIdx: nat)
      ensures Scan(rx, id) == if repeated then None else Some(insertIdx)
    {
      repeated, insertIdx := false, 0;
      assert rx[..|rx|] == rx;
      for i := |rx| downto 0
        invariant !repeated && insertIdx == 0 && Scan(rx, id) == Scan(rx[..i], id)
      {
        assert rx[..i + 1][..i] == rx[..i];
        if id == Id(rx[i]) {
          repeated := true;
          break;
        } else if Diff(id, Id(rx[i])) > 0 {
          insertIdx := i + 1;
          break;
        }
      }
    }

    /** `freeRange`: takes `n` packets out of the queue. */
    method FreeRange(first: nat, n: nat)
      requires first + n <= |rx|
      modifies `rx
      ensures rx == old(rx)[..first] + old(rx)[first + n..]
    {
      if first == 0 {
        rx := rx[n..];
      } else {
        rx := rx[..first] + rx[first + n..];
      }
    }

    /** The body of the search loop for a member of the group: its place in the table, and the counts. */
    method TakeMember(e: Element, table: seq<Option<Shard>>, data: nat, longest: nat, ghost ms: seq<Element>)
      returns (shards: seq<Option<Shard>>, numDataShard: nat, maxlen: nat)
      requires WellSized() && Tabled(ms, shardSize, table, data, longest)
      ensures Tabled(ms + [e], shardSize, shards, numDataShard, maxlen)
    {
      MembersGrow(ms, e, shardSize);
      shards, numDataShard, maxlen := table[Id(e) % shardSize := Some(Body(e.pkt))], data, longest;
      if Flag(e.pkt) == TYPE_DATA {
        numDataShard := numDataShard + 1;
      }
      if |Body(e.pkt)| > maxlen {
        maxlen := |Body(e.pkt)|;
      }
    }

    /** The search loop of `fecNestif`: collects what belongs to the group from the window. */
    method Gather(searchBegin: nat, searchEnd: int, shardEnd: u32, shardBegin: u32)
      returns (shards: seq<Option<Shard>>, numshard: nat, numDataShard: nat, first: nat, maxlen: nat)
      requires WellSized() && searchBegin <= searchEnd + 1 <= |rx|
      ensures var w := rx[searchBegin..searchEnd + 1];
        var ms := Gathered(w, shardBegin, shardEnd);
        && Tabled(ms, shardSize, shards, numDataShard, maxlen) && numshard == |ms|
        && (ms != [] ==> first == searchBegin + FirstOf(w, shardBegin, shardEnd))
    {
      shards, numshard, numDataShard, first, maxlen := seq(shardSize, _ => None), 0, 0, 0, 0;
      ghost var till := searchEnd + 1;
      ghost var w, ms := rx[searchBegin..till], [];
      var i := searchBegin;
      FoundStart(w, shardBegin, shardEnd);
      assert rx[i..till] == w;
      while i <= searchEnd
        invariant searchBegin <= i <= till && numshard == |ms|
        invariant Tabled(ms, shardSize, shards, numDataShard, maxlen)
        invariant Found(w, shardBegin, shardEnd, rx[i..till], i - searchBegin, first - searchBegin, ms)
        decreases searchEnd - i
      {
        var seqid := Id(rx[i]);
        assert rx[i..till][1..] == rx[i + 1..till];
        FoundNext(w, shardBegin, shardEnd, rx[i..till], i - searchBegin, first - searchBegin, ms);
        if Diff(seqid, shardEnd) > 0 {
          break;
        } else if Diff(seqid, shardBegin) >= 0 {
          shards, numDataShard, maxlen := TakeMember(rx[i], shards, numDataShard, maxlen, ms);
          ms := ms + [rx[i]];
          numshard := numshard + 1;
          if numshard == 1 {
            first := i;
          }
        }
        i := i + 1;
      }
      FoundEnd(w, shardBegin, shardEnd, rx[i..till], i - searchBegin, first - searchBegin, ms);
    }

    /** The recovery of `fecNestif`: pads, reconstructs, and picks out what was missing. */
    method Reconstruct(slots: seq<Option<Shard>>, maxlen: nat) returns (recovered: seq<Shard>)
      requires WellSized() && |slots| == shardSize
      ensures recovered == match codec.reconstruct(PadSlots(slots, maxlen))
        case None => []
        case Some(data) => if |data| == dataShards then Gaps(slots, data, dataShards) else []
    {
      var shards := slots;
      for k := 0 to shardSize
        invariant |shards| == shardSize
        invariant forall j :: 0 <= j < k ==> shards[j] == PadSlots(slots, maxlen)[j]
        invariant forall j :: k <= j < shardSize ==> shards[j] == slots[j]
      {
        if shards[k].Some? {
          shards := shards[k := Some(Pad(shards[k].value, maxlen))];
        }
      }
      assert shards == PadSlots(slots, maxlen);
      recovered := [];
      var result := codec.reconstruct(shards);
      if result.Some? && |result.value| == dataShards {
        for k := 0 to dataShards
          invariant recovered == Gaps(slots, result.value, k)
        {
          if slots[k].None? {
            recovered := recovered + [result.value[k]];
          }
        }
      }
    }

    /** `fecNestif`. */
    method FecNestif(searchBegin: nat, searchEnd: int, shardEnd: u32, shardBegin: u32, ghost was: seq<Element>,
                     ghost z: Sizes)
      returns (recovered: seq<Shard>)
      requires WellSized() && was == rx && z == GroupSizes()
      requires searchBegin <= searchEnd + 1 <= |rx| && shardEnd == End(shardBegin, shardSize)
      modifies `rx
      ensures WindowSettle(was, shardBegin, searchBegin, searchEnd + 1, z.ds, Width(z), z.codec) == (recovered, rx)
    {
      var shards, numshard, numDataShard, first, maxlen := Gather(searchBegin, searchEnd, shardEnd, shardBegin);
      ghost var w := was[searchBegin..searchEnd + 1];
      WindowSettleIs(was, shardBegin, Gathered(w, shardBegin, shardEnd), searchBegin + FirstOf(w, shardBegin, shardEnd),
                     searchBegin, searchEnd + 1, z.ds, Width(z), z.codec);
      recovered := [];
      if numDataShard == dataShards {
        FreeRange(first, numshard);
      } else if numshard >= dataShards {
        recovered := Reconstruct(shards, maxlen);
        FreeRange(first, numshard);
      }
    }

    /** The part of `decode` that looks for the group that begins at `shardBegin`, from `searchBegin` on. */
    method Search(shardBegin: u32, searchBegin: nat, ghost was: seq<Element>, ghost z: Sizes)
      returns (recovered: seq<Shard>)
      requires WellSized() && searchBegin <= |rx| && was == rx && z == GroupSizes()
      modifies `rx
      ensures Searched(was, shardBegin, searchBegin, z.ds, Width(z), z.codec) == (recovered, rx)
    {
      SearchedWide(was, shardBegin, searchBegin, z.ds, Width(z), z.codec);
      var shardEnd := Wrap(shardBegin + shardSize - 1);
      var searchEnd := searchBegin + shardSize - 1;
      if searchEnd >= |rx| {
        searchEnd := |rx| - 1;
      }
      recovered := [];
      if searchEnd - searchBegin + 1 >= dataShards {
        recovered := FecNestif(searchBegin, searchEnd, shardEnd, shardBegin, was, z);
      }
    }

    /** Drops the packets at the head that have been stored too long. */
    method Expire(now: u32)
      modifies `rx
      ensures rx == old(rx)[Expired(old(rx), now)..]
    {
      var numExpired := 0;
      assert rx[0..] == rx;
      while numExpired < |rx|
        invariant numExpired <= |rx| && Expired(rx, now) == numExpired + Expired(rx[numExpired..], now)
      {
        assert rx[numExpired..][1..] == rx[numExpired + 1..];
        if Diff(now, rx[numExpired].ts) > EXPIRE {
          numExpired := numExpired + 1;
          continue;
        }
        break;
      }
      if numExpired > 0 {
        FreeRange(0, numExpired);
      }
    }

    /** The end of `decode`: the limit and the expiry. */
    method Trim(now: u32, ghost z: Sizes)
      requires WellSized() && z == GroupSizes()
      modifies `rx
      ensures rx == Trimmed(old(rx), Width(z), now)
    {
      if |rx| > rxlimit {
        FreeRange(0, 1);
      }
      assert rx == Evict(old(rx), MULTIPLE * shardSize);
      Expire(now);
    }

    /** The part of `shoulTune` that looks for other group sizes. */
    method Retune() returns (ok: bool)
      requires Valid()
      modifies `rxlimit, `dataShards, `parityShards, `shardSize, `codec
      ensures Valid()
      ensures Suggested(old(GroupSizes()), autoTune.pulses[..], make) == if ok then Some(GroupSizes()) else None
      ensures !ok ==> GroupSizes() == old(GroupSizes())
    {
      var autoDS := autoTune.FindPeriod(true);
      var autoPS := autoTune.FindPeriod(false);
      var made := make(autoDS, autoPS);
      if made.None? {
        return false;
      }
      if autoDS > 0 && autoPS > 0 && autoDS < 256 && autoPS < 256
         && (autoDS != dataShards || autoPS != parityShards) {
        dataShards, parityShards, shardSize := autoDS, autoPS, autoDS + autoPS;
        rxlimit := MULTIPLE * shardSize;
        codec := made.value;
      }
      return true;
    }

    /** `shoulTune`: sizes are looked for when the packet's type does not suit its place. */
    method ShoulTune(pkt: Packet) returns (ok: bool)
      requires Valid()
      modifies `rxlimit, `dataShards, `parityShards, `shardSize, `codec
      ensures Valid()
      ensures Tuned(old(GroupSizes()), autoTune.pulses[..], make, pkt) == if ok then Some(GroupSizes()) else None
      ensures !ok ==> GroupSizes() == old(GroupSizes())
    {
      var shouldTune := false;
      if SeqId(pkt) % shardSize < dataShards {
        if Flag(pkt) != TYPE_DATA {
          shouldTune := true;
        }
      } else {
        if Flag(pkt) != TYPE_PARITY {
          shouldTune := true;
        }
      }
      ok := true;
      if shouldTune {
        ok := Retune();
      }
    }

    /** The search and the trimming, once the packet is in the queue. */
    method SearchAndTrim(shardBegin: u32, searchBegin: nat, now: u32, ghost q: seq<Element>, ghost z: Sizes)
      returns (recovered: seq<Shard>)
      requires WellSized() && searchBegin <= |rx| && q == rx && z == GroupSizes()
      modifies `rx
      ensures var (found, kept) := Searched(q, shardBegin, searchBegin, z.ds, Width(z), z.codec);
        recovered == found && rx == Trimmed(kept, Width(z), now)
    {
      recovered := Search(shardBegin, searchBegin, q, z);
      Trim(now, z);
    }

    /** Where the group of `id` begins, and the window around `insertIdx`. */
    method StartOf(id: u32, insertIdx: nat, ghost z: Sizes) returns (shardBegin: u32, searchBegin: nat)
      requires WellSized() && z == GroupSizes()
      ensures shardBegin == Begin(id, Width(z)) && searchBegin == SearchBegin(insertIdx, id, Width(z))
    {
      var place := id % shardSize;
      shardBegin := id - place;
      searchBegin := if insertIdx >= place then insertIdx - place else 0;
      assert Begin(id, shardSize) == shardBegin && SearchBegin(insertIdx, id, shardSize) == searchBegin;
      assert shardSize == Width(z);
    }

    /** The part of `decode` after the sizes are settled. */
    method Take(pkt: Packet, now: u32, ghost was: seq<Element>, ghost z: Sizes) returns (recovered: seq<Shard>)
      requires Valid() && was == rx && z == GroupSizes()
      requires Scan(rx, SeqId(pkt)).Some? ==> |pkt| <= MTU_LIMIT
      modifies `rx
      ensures Valid() && WindowDecode(was, z.ds, Width(z), z.codec, pkt, now) == (recovered, rx)
    {
      recovered := [];
      WindowDecodeAdds(was, z.ds, Width(z), z.codec, pkt, now);
      var repeated, insertIdx := FindPlace(SeqId(pkt));
      if !repeated {
        rx := rx[..insertIdx] + [Element(Copied(pkt), now)] + rx[insertIdx..];
        var shardBegin, searchBegin := StartOf(SeqId(pkt), insertIdx, z);
        WindowDecodeFrom(was, z.ds, Width(z), z.codec, pkt, now, insertIdx, rx, shardBegin, searchBegin);
        recovered := SearchAndTrim(shardBegin, searchBegin, now, rx, z);
      }
    }

    /** `decode`. A packet that is kept must fit a pooled buffer. */
    method Decode(pkt: Packet, now: u32) returns (recovered: seq<Shard>)
      requires Valid() && (TakesIn(View(), make, pkt) ==> |pkt| <= MTU_LIMIT)
      modifies this, autoTune.pulses
      ensures Valid() && (recovered, View()) == TunedDecode(old(View()), make, pkt, now)
    {
      recovered := [];
      ghost var d := View();
      autoTune.Sample(Flag(pkt) == TYPE_DATA, SeqId(pkt));
      var ok := ShoulTune(pkt);
      if ok {
        ghost var z := GroupSizes();
        recovered := Take(pkt, now, d.rx, z);
        TunedDecodeTakes(d, make, pkt, now, z, recovered, rx);
      }
    }
  }
}
