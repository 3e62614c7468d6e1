/**
 Splitting a message into segments (`Send`, network/kcp/kcp.go:295-357) and
 finding it again at the head of the receive queue (`PeekSize` and `Recv`,
 network/kcp/kcp.go:207-264).
 */
module Fragmentation {
  import opened Arithmetic
  import opened Serial
  import opened Wire
  import opened Segments
  import opened ReceiveWindow

  const MAX_PIECES: nat := 255

  /** How many segments `Send` cuts `len` bytes into. */
  function Pieces(len: nat, mss: nat): (n: nat)
    requires mss > 0
    ensures n >= 1
  {
    if len <= mss then 1 else (len + mss - 1) / mss
  }

  /** The pieces, numbered down to 0 in message mode and all 0 in stream mode. */
  function Fragments(data: seq<byte>, mss: nat, stream: bool): (fs: seq<Fragment>)
    requires mss > 0
    decreases |data|
  {
    var frg := if stream then 0 else (Pieces(|data|, mss) - 1) % 256;
    if |data| <= mss then [Fragment(frg, data)]
    else [Fragment(frg, data[..mss])] + Fragments(data[mss..], mss, stream)
  }

  function Queued(fs: seq<Fragment>): (q: seq<Segment>)
    ensures |q| == |fs|
  {
    seq(|fs|, i requires 0 <= i < |fs| => Fresh(fs[i].frg, fs[i].data))
  }

  function FragmentsOf(q: seq<Segment>): (fs: seq<Fragment>)
    ensures |fs| == |q|
  {
    seq(|q|, i requires 0 <= i < |q| => FragmentOf(q[i]))
  }

  datatype SendResult = SendResult(code: int, queue: seq<Segment>)

  /** Whether stream mode tops up the last queued segment, and by how much. */
  function TopUp(queue: seq<Segment>, data: seq<byte>, mss: nat, stream: bool): (n: nat)
    ensures n <= |data|
  {
    if stream && queue != [] && |queue[|queue| - 1].data| < mss
    then Min(mss - |queue[|queue| - 1].data|, |data|)
    else 0
  }

  function Extend(queue: seq<Segment>, extra: seq<byte>): seq<Segment> {
    if extra == [] || queue == [] then queue
    else
      var last := queue[|queue| - 1];
      queue[|queue| - 1 := last.(data := last.data + extra)]
  }

  /** `Send`: the return code and the new send queue. */
  function Send(queue: seq<Segment>, data: seq<byte>, mss: nat, stream: bool): SendResult
    requires mss > 0
  {
    if data == [] then SendResult(-1, queue)
    else
      var n := TopUp(queue, data, mss, stream);
      var topped := Extend(queue, data[..n]);
      if Pieces(|data| - n, mss) > MAX_PIECES then SendResult(-2, topped)
      else SendResult(0, topped + Queued(Fragments(data[n..], mss, stream)))
  }

  /** No slice that `Send` takes of a pooled buffer is too long: neither a topped-up segment nor the first piece. */
  predicate Allocatable(queue: seq<Segment>, data: seq<byte>, mss: nat, stream: bool)
    requires mss > 0
  {
    data == [] ||
    var n := TopUp(queue, data, mss, stream);
    && (n > 0 ==> |queue[|queue| - 1].data| + n <= MTU_LIMIT)
    && (Pieces(|data| - n, mss) <= MAX_PIECES ==> Min(mss, |data| - n) <= MTU_LIMIT)
  }

  /** `Send` can take every message, whatever is queued, exactly when a full segment fits a pooled buffer. */
  lemma AlwaysAllocatable(mss: nat, stream: bool)
    requires mss > 0
    ensures mss <= MTU_LIMIT <==> forall queue, data :: Allocatable(queue, data, mss, stream)
  {
    if mss > MTU_LIMIT {
      var long: seq<byte> := seq(MTU_LIMIT + 1, _ => 0);
      assert Pieces(|long|, mss) == 1;
      assert !Allocatable([], long, mss, stream);
    }
  }

  // ----- the pieces -----

  lemma PiecesStep(len: nat, mss: nat)
    requires mss > 0 && len > mss
    ensures Pieces(len, mss) == 1 + Pieces(len - mss, mss)
  {
    assert (len + mss - 1) / mss == 1 + (len - 1) / mss by {
      DivPlusOne(len - 1, mss);
    }
    if len - mss <= mss {
      assert (len - 1) / mss == 1 by {
        DivPlusOne(len - mss - 1, mss);
        DivSmall(len - mss - 1, mss);
      }
    }
  }

  lemma {:induction false} FragmentsCount(data: seq<byte>, mss: nat, stream: bool)
    requires mss > 0
    ensures |Fragments(data, mss, stream)| == Pieces(|data|, mss)
    decreases |data|
  {
    if |data| > mss {
      PiecesStep(|data|, mss);
      FragmentsCount(data[mss..], mss, stream);
    }
  }

  lemma {:induction false} FragmentsSized(data: seq<byte>, mss: nat, stream: bool)
    requires mss > 0
    ensures var fs := Fragments(data, mss, stream);
      && (forall f :: f in fs ==> |f.data| <= mss && (data != [] ==> f.data != []))
      && forall i :: 0 <= i < |fs| - 1 ==> |fs[i].data| == mss
    decreases |data|
  {
    if |data| > mss {
      FragmentsSized(data[mss..], mss, stream);
      var fs, rest := Fragments(data, mss, stream), Fragments(data[mss..], mss, stream);
      assert forall i :: 0 < i < |fs| ==> fs[i] == rest[i - 1];
    }
  }

  /** In message mode the pieces count down to 0. */
  lemma {:induction false} FragmentsCountDown(data: seq<byte>, mss: nat, i: nat)
    requires mss > 0 && Pieces(|data|, mss) <= MAX_PIECES && i < |Fragments(data, mss, false)|
    ensures Fragments(data, mss, false)[i].frg == |Fragments(data, mss, false)| - 1 - i
    decreases |data|
  {
    FragmentsCount(data, mss, false);
    if |data| > mss {
      PiecesStep(|data|, mss);
      if i > 0 {
        FragmentsCountDown(data[mss..], mss, i - 1);
      }
    }
  }

  /** Together the pieces are the message. */
  lemma {:induction false} FragmentsPayload(data: seq<byte>, mss: nat, stream: bool)
    requires mss > 0
    ensures Payload(Queued(Fragments(data, mss, stream))) == data
    decreases |data|
  {
    var fs := Fragments(data, mss, stream);
    if |data| <= mss {
      assert Queued(fs)[1..] == [];
    } else {
      FragmentsPayload(data[mss..], mss, stream);
      assert fs[1..] == Fragments(data[mss..], mss, stream);
      assert Queued(fs)[1..] == Queued(fs[1..]);
    }
  }

  /** The queued pieces, one at a time: the head is the next chunk and carries the number of pieces after it. */
  lemma {:induction false} QueuedStep(data: seq<byte>, mss: nat, stream: bool)
    requires mss > 0 && Pieces(|data|, mss) <= MAX_PIECES
    ensures var q := Queued(Fragments(data, mss, stream));
      && |q| == Pieces(|data|, mss)
      && q[0] == Fresh(if stream then 0 else |q| - 1, data[..Min(mss, |data|)])
      && (|data| <= mss ==> |q| == 1)
      && (|data| > mss ==> |q| > 1 && q[1..] == Queued(Fragments(data[mss..], mss, stream)))
      && (|data| > mss ==> Pieces(|data| - mss, mss) <= MAX_PIECES)
  {
    FragmentsCount(data, mss, stream);
    assert data[..|data|] == data;
    if |data| > mss {
      PiecesStep(|data|, mss);
    }
  }

  lemma {:induction false} PayloadConcat(xs: seq<Segment>, ys: seq<Segment>)
    ensures Payload(xs + ys) == Payload(xs) + Payload(ys)
  {
    if xs == [] {
      assert xs + ys == ys;
    } else {
      assert (xs + ys)[1..] == xs[1..] + ys;
      PayloadConcat(xs[1..], ys);
    }
  }

  lemma {:induction false} ExtendPayload(queue: seq<Segment>, extra: seq<byte>)
    requires extra == [] || queue != []
    ensures Payload(Extend(queue, extra)) == Payload(queue) + extra
  {
    if extra != [] {
      var k := |queue| - 1;
      var last := queue[k];
      var more := last.(data := last.data + extra);
      assert queue == queue[..k] + [last];
      assert Extend(queue, extra) == queue[..k] + [more];
      PayloadConcat(queue[..k], [last]);
      PayloadConcat(queue[..k], [more]);
      assert Payload([last]) == last.data + Payload([]);
      assert Payload([more]) == more.data + Payload([]);
    }
  }

  /** In either mode an accepted `Send` adds exactly its bytes to the queue. */
  lemma {:induction false} SendConservesBytes(queue: seq<Segment>, data: seq<byte>, mss: nat, stream: bool)
    requires mss > 0
    ensures var r := Send(queue, data, mss, stream);
            r.code == 0 ==> Payload(r.queue) == Payload(queue) + data
    ensures var r := Send(queue, data, mss, stream);
            r.code == -2 ==> Payload(r.queue) == Payload(queue) + data[..TopUp(queue, data, mss, stream)]
  {
    if data != [] {
      var n := TopUp(queue, data, mss, stream);
      var topped, more := Extend(queue, data[..n]), Queued(Fragments(data[n..], mss, stream));
      ExtendPayload(queue, data[..n]);
      FragmentsPayload(data[n..], mss, stream);
      PayloadConcat(topped, more);
      assert (Payload(queue) + data[..n]) + data[n..] == Payload(queue) + data;
    }
  }

  /**
   A rejected `Send` leaves the queue as it was, except that in stream mode an
   oversized write has already topped up the last segment.
   */
  lemma RejectedSend(queue: seq<Segment>, data: seq<byte>, mss: nat, stream: bool)
    requires mss > 0 && Send(queue, data, mss, stream).code != 0
    ensures Send(queue, data, mss, stream).queue == queue <==>
      data == [] || !stream || queue == [] || |queue[|queue| - 1].data| >= mss
  {
  }

  /** The rejection that leaves a partial write: a stream of 1-byte segments with one byte free. */
  lemma RejectedStreamSendWrites()
    ensures exists queue: seq<Segment>, data: seq<byte> ::
      Send(queue, data, 2, true).code == -2 && Send(queue, data, 2, true).queue != queue
  {
    var queue := [Fresh(0, [7])];
    var data: seq<byte> := seq(600, _ => 0);
    assert Pieces(|data| - TopUp(queue, data, 2, true), 2) == 300;
    RejectedSend(queue, data, 2, true);
    assert Send(queue, data, 2, true).code == -2 && Send(queue, data, 2, true).queue != queue;
  }

  // ----- reading a message back -----

  /** What a receive queue holds after whole sends of `msgs`: their fragments, one message after the other. */
  function AllFragments(msgs: seq<seq<byte>>, mss: nat): seq<Fragment>
    requires mss > 0
  {
    if msgs == [] then [] else Fragments(msgs[0], mss, false) + AllFragments(msgs[1..], mss)
  }

  ghost predicate Transportable(msgs: seq<seq<byte>>, mss: nat)
    requires mss > 0
  {
    forall m :: m in msgs ==> m != [] && Pieces(|m|, mss) <= MAX_PIECES
  }

  lemma {:induction false} MessageLengthIs(queue: seq<Segment>, n: nat)
    requires 1 <= n <= |queue| && queue[n - 1].frg == 0
    requires forall i :: 0 <= i < n - 1 ==> queue[i].frg != 0
    ensures MessageLength(queue) == n
  {
    if n > 1 {
      MessageLengthIs(queue[1..], n - 1);
    }
  }

  lemma {:induction false} PayloadByFragments(xs: seq<Segment>, ys: seq<Segment>)
    requires FragmentsOf(xs) == FragmentsOf(ys)
    ensures Payload(xs) == Payload(ys)
    decreases |xs|
  {
    if xs != [] {
      assert FragmentsOf(xs)[0] == FragmentsOf(ys)[0];
      assert FragmentsOf(xs[1..]) == FragmentsOf(xs)[1..] == FragmentsOf(ys[1..]);
      PayloadByFragments(xs[1..], ys[1..]);
    }
  }

  /** The queue starts with the fragments of the first message, as far as it reaches. */
  lemma {:induction false} HeadFragments(queue: seq<Segment>, msgs: seq<seq<byte>>, mss: nat)
    requires mss > 0 && msgs != [] && Transportable(msgs, mss)
    requires FragmentsOf(queue) <= AllFragments(msgs, mss)
    ensures var fs := Fragments(msgs[0], mss, false);
      && |fs| == Pieces(|msgs[0]|, mss) <= MAX_PIECES
      && AllFragments(msgs, mss)[|fs|..] == AllFragments(msgs[1..], mss)
      && (forall i :: 0 <= i < |queue| && i < |fs| ==> FragmentOf(queue[i]) == fs[i])
      && forall i :: 0 <= i < |queue| && i < |fs| ==> queue[i].frg == |fs| - 1 - i
  {
    var fs := Fragments(msgs[0], mss, false);
    assert msgs[0] in msgs;
    FragmentsCount(msgs[0], mss, false);
    forall i | 0 <= i < |queue| && i < |fs|
      ensures FragmentOf(queue[i]) == fs[i] && queue[i].frg == |fs| - 1 - i
    {
      assert FragmentsOf(queue)[i] == AllFragments(msgs, mss)[i];
      FragmentsCountDown(msgs[0], mss, i);
    }
  }

  lemma {:induction false} CompleteMessage(queue: seq<Segment>, m: seq<byte>, mss: nat)
    requires mss > 0 && |Fragments(m, mss, false)| <= |queue|
    requires var fs := Fragments(m, mss, false);
      && |fs| == Pieces(|m|, mss) <= MAX_PIECES
      && (forall i :: 0 <= i < |fs| ==> FragmentOf(queue[i]) == fs[i])
      && forall i :: 0 <= i < |fs| ==> queue[i].frg == |fs| - 1 - i
    ensures MessageLength(queue) == Pieces(|m|, mss)
    ensures Payload(queue[..MessageLength(queue)]) == m
    ensures PeekSize(queue) == |m|
  {
    var fs := Fragments(m, mss, false);
    var n := |fs|;
    MessageLengthIs(queue, n);
    assert FragmentsOf(queue[..n]) == fs == FragmentsOf(Queued(fs));
    FragmentsPayload(m, mss, false);
    PayloadByFragments(queue[..n], Queued(fs));
    if n == 1 {
      assert queue[..1][1..] == [];
    }
  }

  lemma PrefixBehind<T>(xs: seq<T>, head: seq<T>, rest: seq<T>)
    requires xs <= head + rest && |head| <= |xs|
    ensures xs[|head|..] <= rest
  {
    assert (head + rest)[|head|..] == rest;
    assert xs == (head + rest)[..|xs|];
  }

  lemma {:induction false} RestFragments(queue: seq<Segment>, msgs: seq<seq<byte>>, mss: nat)
    requires mss > 0 && msgs != [] && FragmentsOf(queue) <= AllFragments(msgs, mss)
    requires |Fragments(msgs[0], mss, false)| <= |queue|
    ensures FragmentsOf(queue[|Fragments(msgs[0], mss, false)|..]) <= AllFragments(msgs[1..], mss)
  {
    var fs, rest := Fragments(msgs[0], mss, false), AllFragments(msgs[1..], mss);
    assert AllFragments(msgs, mss) == fs + rest;
    assert FragmentsOf(queue[|fs|..]) == FragmentsOf(queue)[|fs|..];
    PrefixBehind(FragmentsOf(queue), fs, rest);
  }

  lemma {:induction false} IncompleteMessage(queue: seq<Segment>, m: seq<byte>, mss: nat)
    requires mss > 0 && |queue| < |Fragments(m, mss, false)| <= MAX_PIECES
    requires queue != [] ==> queue[0].frg == |Fragments(m, mss, false)| - 1
    ensures PeekSize(queue) == -1
  {
  }

  /**
   Fragmentation round trip. When the queue holds a prefix of the fragments of
   `msgs`, the head message is readable exactly when all of its fragments are
   there, and reading then takes exactly that message.
   */
  lemma {:induction false} NextMessage(queue: seq<Segment>, msgs: seq<seq<byte>>, mss: nat)
    requires mss > 0 && Transportable(msgs, mss)
    requires FragmentsOf(queue) <= AllFragments(msgs, mss)
    ensures PeekSize(queue) == -1 <==> msgs == [] || |queue| < Pieces(|msgs[0]|, mss)
    ensures PeekSize(queue) != -1 ==>
      && PeekSize(queue) == |msgs[0]|
      && MessageLength(queue) == Pieces(|msgs[0]|, mss)
      && Payload(queue[..MessageLength(queue)]) == msgs[0]
      && FragmentsOf(queue[MessageLength(queue)..]) <= AllFragments(msgs[1..], mss)
  {
    if msgs != [] {
      HeadFragments(queue, msgs, mss);
      var n := Pieces(|msgs[0]|, mss);
      if |queue| >= n {
        CompleteMessage(queue, msgs[0], mss);
        RestFragments(queue, msgs, mss);
      } else {
        IncompleteMessage(queue, msgs[0], mss);
      }
    }
  }

  lemma {:induction false} AllFragmentsAppend(msgs: seq<seq<byte>>, m: seq<byte>, mss: nat)
    requires mss > 0
    ensures AllFragments(msgs + [m], mss) == AllFragments(msgs, mss) + Fragments(m, mss, false)
  {
    if msgs == [] {
      assert AllFragments([m], mss) == Fragments(m, mss, false) + AllFragments([], mss);
    } else {
      assert (msgs + [m])[1..] == msgs[1..] + [m];
      AllFragmentsAppend(msgs[1..], m, mss);
    }
  }

  lemma {:induction false} AllFragmentsConcat(xs: seq<seq<byte>>, ys: seq<seq<byte>>, mss: nat)
    requires mss > 0
    ensures AllFragments(xs + ys, mss) == AllFragments(xs, mss) + AllFragments(ys, mss)
  {
    if xs == [] {
      assert xs + ys == ys;
    } else {
      assert (xs + ys)[1..] == xs[1..] + ys;
      AllFragmentsConcat(xs[1..], ys, mss);
    }
  }
}
