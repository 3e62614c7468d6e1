/**
 The byte stream on top of messages: how `WaitSnd` cuts a write into messages
 and how `Read` hands out messages through a leftover buffer
 (network/kcp/udp.go:152-251). The loops themselves are in SessionEngine.
 */
module Streams {
  import opened Serial
  import opened Wire
  import opened Segments
  import opened KcpSpec
  import Packing
  import ReceiveWindow
  import Fragmentation
  import KcpInvariant

  // ----- writing -----

  /** The messages one buffer becomes. */
  function Split(b: seq<byte>, mss: nat): (ms: seq<seq<byte>>)
    requires mss > 0
    decreases |b|
  {
    if |b| <= mss then [b] else [b[..mss]] + Split(b[mss..], mss)
  }

  /** The messages of a whole write. */
  ghost function SplitAll(v: seq<seq<byte>>, mss: nat): seq<seq<byte>>
    requires mss > 0
  {
    if v == [] then [] else Split(v[0], mss) + SplitAll(v[1..], mss)
  }

  function Accepted(k: Kcp, m: seq<byte>): Kcp
    requires k.cfg.mss > 0
  {
    Send(k, m).1
  }

  /** The engine after sending `ms` one after the other. */
  function SendAll(k: Kcp, ms: seq<seq<byte>>): (l: Kcp)
    requires k.cfg.mss > 0
    ensures l.cfg == k.cfg
    decreases |ms|
  {
    if ms == [] then k else SendAll(Accepted(k, ms[0]), ms[1..])
  }

  lemma {:induction false} SendAllInv(k: Kcp, ms: seq<seq<byte>>)
    requires KcpInvariant.Inv(k)
    ensures KcpInvariant.Inv(SendAll(k, ms))
    decreases |ms|
  {
    if ms != [] {
      KcpInvariant.SendInv(k, ms[0]);
      SendAllInv(Accepted(k, ms[0]), ms[1..]);
    }
  }

  lemma {:induction false} SendAllConcat(k: Kcp, xs: seq<seq<byte>>, ys: seq<seq<byte>>)
    requires k.cfg.mss > 0
    ensures SendAll(k, xs + ys) == SendAll(SendAll(k, xs), ys)
    decreases |xs|
  {
    if xs == [] {
      assert xs + ys == ys;
    } else {
      assert (xs + ys)[1..] == xs[1..] + ys;
      SendAllConcat(Accepted(k, xs[0]), xs[1..], ys);
    }
  }

  lemma {:induction false} FlattenFirst(x: seq<byte>, xs: seq<seq<byte>>)
    ensures Packing.Flatten([x] + xs) == x + Packing.Flatten(xs)
  {
  }

  /** The messages of a buffer add up to it. */
  lemma {:induction false} SplitFlattens(b: seq<byte>, mss: nat)
    requires mss > 0
    ensures Packing.Flatten(Split(b, mss)) == b
    decreases |b|
  {
    if |b| <= mss {
      assert Packing.Flatten([b]) == b + Packing.Flatten<byte>([]);
    } else {
      SplitFlattens(b[mss..], mss);
      FlattenFirst(b[..mss], Split(b[mss..], mss));
      assert b == b[..mss] + b[mss..];
    }
  }

  /** Every message but the last fills one segment, no message more, and only an empty write makes an empty message. */
  lemma {:induction false} SplitPieces(b: seq<byte>, mss: nat)
    requires mss > 0
    ensures forall m :: m in Split(b, mss) ==> |m| <= mss && (b != [] ==> m != [])
    ensures forall i :: 0 <= i < |Split(b, mss)| - 1 ==> |Split(b, mss)[i]| == mss
    decreases |b|
  {
    if |b| > mss {
      SplitPieces(b[mss..], mss);
      assert forall i :: 0 < i < |Split(b, mss)| ==> Split(b, mss)[i] == Split(b[mss..], mss)[i - 1];
    }
  }

  lemma {:induction false} SplitAllPieces(v: seq<seq<byte>>, mss: nat)
    requires mss > 0
    ensures Packing.Flatten(SplitAll(v, mss)) == Packing.Flatten(v)
    ensures forall m :: m in SplitAll(v, mss) ==> |m| <= mss
  {
    if v != [] {
      SplitFlattens(v[0], mss);
      SplitPieces(v[0], mss);
      SplitAllPieces(v[1..], mss);
      Packing.FlattenConcat(Split(v[0], mss), SplitAll(v[1..], mss));
    }
  }

  /** A message of at most one segment is refused only when it is empty, and then it carries nothing. */
  lemma ShortMessageAccepted(k: Kcp, m: seq<byte>)
    requires k.cfg.mss > 0 && |m| <= k.cfg.mss
    ensures Send(k, m).0 == (if m == [] then -1 else 0)
    ensures m == [] ==> Send(k, m).1 == k
  {
  }

  // ----- reading -----

  datatype ReadResult = ReadResult(blocked: bool, data: seq<byte>, k: Kcp, left: seq<byte>)

  /** One attempt of `Read` into a buffer of `capacity` bytes, with `left` over from an earlier message. */
  function Read(k: Kcp, left: seq<byte>, capacity: nat): ReadResult {
    if left != [] then
      var n := Min(capacity, |left|);
      ReadResult(false, left[..n], k, left[n..])
    else
      var size := ReceiveWindow.PeekSize(k.rcv.queue);
      if size <= 0 then ReadResult(true, [], k, [])
      else
        var (r, l) := Recv(k, Max(capacity, size));
        var n := Min(capacity, |r.data|);
        ReadResult(false, r.data[..n], l, r.data[n..])
  }

  /** What `Read` takes from the engine: nothing, or one whole message. */
  function Taken(k: Kcp, left: seq<byte>): seq<seq<byte>> {
    if left != [] || ReceiveWindow.PeekSize(k.rcv.queue) <= 0 then []
    else [ReceiveWindow.Payload(k.rcv.queue[..ReceiveWindow.MessageLength(k.rcv.queue)])]
  }

  lemma ReadInv(k: Kcp, left: seq<byte>, capacity: nat)
    requires KcpInvariant.Inv(k)
    ensures KcpInvariant.Inv(Read(k, left, capacity).k)
  {
    if left == [] && ReceiveWindow.PeekSize(k.rcv.queue) > 0 {
      KcpInvariant.RecvInv(k, Max(capacity, ReceiveWindow.PeekSize(k.rcv.queue)));
    }
  }

  /** What was left over and taken is returned, as far as the buffer goes, and the rest left over. */
  lemma ReadConserves(k: Kcp, left: seq<byte>, capacity: nat)
    ensures var r := Read(k, left, capacity);
      && left + Packing.Flatten(Taken(k, left)) == r.data + r.left
      && |r.data| == Min(capacity, |left + Packing.Flatten(Taken(k, left))|)
      && (r.blocked <==> left == [] && ReceiveWindow.PeekSize(k.rcv.queue) <= 0)
      && (r.blocked ==> r.data == [] && r.k == k && r.left == left == [])
  {
  }

  /** `Read` returns bytes exactly when some are left over or the head message is complete and not empty. */
  lemma ReadProgress(k: Kcp, left: seq<byte>, capacity: nat)
    requires capacity > 0
    ensures Read(k, left, capacity).data != [] <==> left != [] || ReceiveWindow.PeekSize(k.rcv.queue) > 0
  {
  }

  /** The engine after `Read` has been tried with each of `capacities` in turn, and all it returned. */
  function ReadAll(k: Kcp, left: seq<byte>, capacities: seq<nat>): (seq<byte>, Kcp, seq<byte>)
    decreases |capacities|
  {
    if capacities == [] then ([], k, left)
    else
      var r := Read(k, left, capacities[0]);
      var (data, l, rest) := ReadAll(r.k, r.left, capacities[1..]);
      (r.data + data, l, rest)
  }

  /** A message of no bytes at the head, which stream mode can produce, is never taken off. */
  lemma {:induction false} EmptyMessageBlocks(k: Kcp, capacities: seq<nat>)
    requires ReceiveWindow.PeekSize(k.rcv.queue) == 0
    ensures ReadAll(k, [], capacities) == ([], k, [])
    decreases |capacities|
  {
    if capacities != [] {
      EmptyMessageBlocks(k, capacities[1..]);
      assert Read(k, [], capacities[0]) == ReadResult(true, [], k, []);
      assert ReadAll(k, [], capacities).0 == [] + [];
    }
  }

  /** In stream mode a write that fits into the last queued segment still queues an empty one. */
  lemma MergedWriteQueuesEmpty(queue: seq<Segment>, data: seq<byte>, mss: nat)
    requires mss > 0 && queue != [] && data != [] && |queue[|queue| - 1].data| + |data| <= mss
    ensures var r := Fragmentation.Send(queue, data, mss, true);
      r.code == 0 && |r.queue| == |queue| + 1 && r.queue[|queue|] == Fresh(0, [])
  {
  }
}
