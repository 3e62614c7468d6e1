/**
 The receive window (network/kcp/kcp.go:207-293, 462-521): where an arriving
 segment is stored, when stored segments become readable, and what one `Recv`
 takes. All places are distances ahead of `RcvNxt`, so wrap-around is invisible.
 */
module ReceiveWindow {
  import opened Serial
  import opened Wire
  import opened Segments

  /** The stored segments, in order, all inside the window. */
  ghost predicate Ordered(nxt: u32, wnd: nat, buf: seq<Segment>) {
    && (forall i :: 0 <= i < |buf| ==> Offset(buf[i].sn, nxt) < wnd)
    && forall i, j :: 0 <= i < j < |buf| ==> Offset(buf[i].sn, nxt) < Offset(buf[j].sn, nxt)
  }

  /** The next number is stored only while there is no room to hand it over. */
  ghost predicate Drained(r: Receiver) {
    r.buf != [] && r.buf[0].sn == r.nxt ==> |r.queue| == r.wnd
  }

  ghost predicate Valid(r: Receiver) {
    1 <= r.wnd < HALF && |r.queue| <= r.wnd && Ordered(r.nxt, r.wnd, r.buf) && Drained(r)
  }

  /** How many stored numbers lie before distance `off`. */
  function Before(buf: seq<Segment>, nxt: u32, off: nat): (n: nat)
    ensures n <= |buf|
  {
    if buf == [] || Offset(buf[0].sn, nxt) >= off then 0 else 1 + Before(buf[1..], nxt, off)
  }

  predicate Stored(buf: seq<Segment>, sn: u32) {
    exists i :: 0 <= i < |buf| && buf[i].sn == sn
  }

  /** The buffer with `e` put in its place. */
  function Insert(buf: seq<Segment>, nxt: u32, e: Segment): seq<Segment> {
    var at := Before(buf, nxt, Offset(e.sn, nxt));
    buf[..at] + [e] + buf[at..]
  }

  /** The longest run of consecutive numbers from `nxt`, at most `room` long. */
  function Run(buf: seq<Segment>, nxt: u32, room: nat): (n: nat)
    ensures n <= |buf| && n <= room
  {
    if buf == [] || room == 0 || buf[0].sn != nxt then 0
    else 1 + Run(buf[1..], Wrap(nxt + 1), room - 1)
  }

  /** Moves the readable run from the buffer to the queue. */
  function Drain(r: Receiver): Receiver {
    var n := Run(r.buf, r.nxt, Max(r.wnd - |r.queue|, 0));
    Receiver(Wrap(r.nxt + n), r.wnd, r.queue + r.buf[..n], r.buf[n..])
  }

  predicate Acceptable(r: Receiver, sn: u32) {
    Offset(sn, r.nxt) < r.wnd
  }

  /** `parseData` keeps a copy of a segment with this number. */
  predicate Stores(r: Receiver, sn: u32) {
    Acceptable(r, sn) && !Stored(r.buf, sn)
  }

  /** `parseData`. */
  function ParseData(r: Receiver, e: Segment): Receiver {
    if !Acceptable(r, e.sn) then r
    else if Stored(r.buf, e.sn) then Drain(r)
    else Drain(r.(buf := Insert(r.buf, r.nxt, e)))
  }

  // ----- reading -----

  /** The segments of the first message: up to and including the first with `frg == 0`. */
  function MessageLength(queue: seq<Segment>): (n: nat)
    ensures n <= |queue|
  {
    if queue == [] then 0 else if queue[0].frg == 0 then 1 else 1 + MessageLength(queue[1..])
  }

  function Payload(segs: seq<Segment>): seq<byte> {
    if segs == [] then [] else segs[0].data + Payload(segs[1..])
  }

  /** `PeekSize`; the fragment count is computed in 8 bits, as in the source. */
  function PeekSize(queue: seq<Segment>): int {
    if queue == [] then -1
    else if queue[0].frg == 0 then |queue[0].data|
    else if |queue| < (queue[0].frg + 1) % 256 then -1
    else |Payload(queue[..MessageLength(queue)])|
  }

  datatype Received = Received(code: int, data: seq<byte>, rest: Receiver, tell: bool)

  /** `Recv` into a buffer of `capacity` bytes. */
  function Recv(r: Receiver, capacity: nat): Received {
    var size := PeekSize(r.queue);
    if size < 0 then Received(-1, [], r, false)
    else if size > capacity then Received(-2, [], r, false)
    else
      var n := MessageLength(r.queue);
      var after := Drain(r.(queue := r.queue[n..]));
      Received(size, Payload(r.queue[..n]), after, |r.queue| >= r.wnd && |after.queue| < r.wnd)
  }

  // ----- the invariant -----

  /** `parseData` accepts exactly the numbers inside the window. */
  lemma AcceptanceTest(r: Receiver, sn: u32)
    requires 1 <= r.wnd < HALF
    ensures !(Diff(sn, Wrap(r.nxt + r.wnd)) >= 0 || Diff(sn, r.nxt) < 0) <==> Acceptable(r, sn)
  {
    DiffSign(sn, r.nxt);
    if Offset(sn, r.nxt) < HALF {
      DiffPlace(sn, r.nxt, r.wnd);
    }
  }

  /** Comparing two numbers inside the window compares their places. */
  lemma PlacesCompare(nxt: u32, wnd: nat, a: u32, b: u32)
    requires wnd < HALF && Offset(a, nxt) < wnd && Offset(b, nxt) < wnd
    ensures Diff(a, b) == Offset(a, nxt) - Offset(b, nxt)
    ensures a == b <==> Offset(a, nxt) == Offset(b, nxt)
  {
  }

  lemma {:induction false} BeforeSplits(buf: seq<Segment>, nxt: u32, wnd: nat, off: nat)
    requires Ordered(nxt, wnd, buf)
    ensures forall i :: 0 <= i < Before(buf, nxt, off) ==> Offset(buf[i].sn, nxt) < off
    ensures forall i :: Before(buf, nxt, off) <= i < |buf| ==> Offset(buf[i].sn, nxt) >= off
  {
    if buf != [] && Offset(buf[0].sn, nxt) < off {
      BeforeSplits(buf[1..], nxt, wnd, off);
      forall i | Before(buf, nxt, off) <= i < |buf| ensures Offset(buf[i].sn, nxt) >= off {
        assert buf[i] == buf[1..][i - 1];
      }
      forall i | 0 <= i < Before(buf, nxt, off) ensures Offset(buf[i].sn, nxt) < off {
        if i > 0 {
          assert buf[i] == buf[1..][i - 1];
        }
      }
    }
  }

  lemma InsertPlaces(r: Receiver, e: Segment)
    ensures var b, at := Insert(r.buf, r.nxt, e), Before(r.buf, r.nxt, Offset(e.sn, r.nxt));
      && |b| == |r.buf| + 1
      && forall i :: 0 <= i < |b| ==> b[i] == if i < at then r.buf[i] else if i == at then e else r.buf[i - 1]
  {
  }

  lemma InsertOrdered(r: Receiver, e: Segment)
    requires 1 <= r.wnd < HALF && Ordered(r.nxt, r.wnd, r.buf)
    requires Acceptable(r, e.sn) && !Stored(r.buf, e.sn)
    ensures Ordered(r.nxt, r.wnd, Insert(r.buf, r.nxt, e))
  {
    var off := Offset(e.sn, r.nxt);
    var at := Before(r.buf, r.nxt, off);
    BeforeSplits(r.buf, r.nxt, r.wnd, off);
    forall i | 0 <= i < |r.buf| ensures Offset(r.buf[i].sn, r.nxt) != off {
      PlacesCompare(r.nxt, r.wnd, r.buf[i].sn, e.sn);
    }
    InsertPlaces(r, e);
  }

  /** The run is exactly the entries at distances 0, 1, 2, ..., and it stops for a reason. */
  lemma {:induction false} RunIsMaximal(buf: seq<Segment>, nxt: u32, room: nat)
    ensures forall i :: 0 <= i < Run(buf, nxt, room) ==> buf[i].sn == Wrap(nxt + i)
    ensures var n := Run(buf, nxt, room);
            n == |buf| || n == room || buf[n].sn != Wrap(nxt + n)
  {
    if buf != [] && room != 0 && buf[0].sn == nxt {
      RunIsMaximal(buf[1..], Wrap(nxt + 1), room - 1);
      var n := Run(buf, nxt, room);
      forall i | 0 <= i < n ensures buf[i].sn == Wrap(nxt + i) {
        if i > 0 {
          assert buf[i] == buf[1..][i - 1];
          OffsetWrap(nxt + 1, i - 1);
        }
      }
      OffsetWrap(nxt + 1, n - 1);
      if n < |buf| {
        assert buf[n] == buf[1..][n - 1];
      }
    } else if buf == [] || room == 0 {
    } else {
      assert Wrap(nxt + 0) == nxt;
    }
  }

  /** One step of the run, from place `count` on. */
  lemma {:induction false} RunFrom(buf: seq<Segment>, at: u32, room: nat, count: nat)
    requires count < |buf|
    ensures Run(buf[count..], at, room)
      == if room > 0 && buf[count].sn == at then 1 + Run(buf[count + 1..], Wrap(at + 1), room - 1) else 0
  {
  }

  /** Moving `RcvNxt` on by `n` shortens every remaining distance by `n`. */
  lemma OffsetAdvance(x: u32, nxt: u32, n: nat)
    requires n <= Offset(x, nxt)
    ensures Offset(x, Wrap(nxt + n)) == Offset(x, nxt) - n
  {
  }

  lemma PlaceOf(nxt: u32, i: nat)
    requires i < FULL
    ensures Offset(Wrap(nxt + i), nxt) == i
  {
  }

  /** The first `n` places of an ordered buffer that starts with a run of `n` are that run. */
  lemma RunPlaces(r: Receiver, n: nat, i: nat)
    requires 1 <= r.wnd < HALF && Ordered(r.nxt, r.wnd, r.buf)
    requires n == Run(r.buf, r.nxt, Max(r.wnd - |r.queue|, 0)) && i < |r.buf|
    ensures i < n ==> Offset(r.buf[i].sn, r.nxt) == i
    ensures i >= n ==> Offset(r.buf[i].sn, r.nxt) >= n
  {
    RunIsMaximal(r.buf, r.nxt, Max(r.wnd - |r.queue|, 0));
    if i < n {
      PlaceOf(r.nxt, i);
    } else if n > 0 {
      PlaceOf(r.nxt, n - 1);
      assert r.buf[n - 1].sn == Wrap(r.nxt + (n - 1));
    }
  }

  lemma DrainPlace(r: Receiver, i: nat)
    requires 1 <= r.wnd < HALF && Ordered(r.nxt, r.wnd, r.buf) && i < |Drain(r).buf|
    ensures var n := Run(r.buf, r.nxt, Max(r.wnd - |r.queue|, 0));
            Drain(r).buf[i] == r.buf[n + i]
            && Offset(Drain(r).buf[i].sn, Drain(r).nxt) == Offset(r.buf[n + i].sn, r.nxt) - n
  {
    var n := Run(r.buf, r.nxt, Max(r.wnd - |r.queue|, 0));
    RunPlaces(r, n, n + i);
    OffsetAdvance(r.buf[n + i].sn, r.nxt, n);
  }

  lemma DrainOrdered(r: Receiver)
    requires 1 <= r.wnd < HALF && Ordered(r.nxt, r.wnd, r.buf)
    ensures Ordered(Drain(r).nxt, r.wnd, Drain(r).buf)
  {
    var d := Drain(r);
    forall i | 0 <= i < |d.buf| ensures Offset(d.buf[i].sn, d.nxt) < r.wnd {
      DrainPlace(r, i);
    }
    forall i, j | 0 <= i < j < |d.buf| ensures Offset(d.buf[i].sn, d.nxt) < Offset(d.buf[j].sn, d.nxt) {
      DrainPlace(r, i);
      DrainPlace(r, j);
    }
  }

  /** Draining re-establishes the whole invariant. */
  lemma DrainValid(r: Receiver)
    requires 1 <= r.wnd < HALF && Ordered(r.nxt, r.wnd, r.buf) && |r.queue| <= r.wnd
    ensures Valid(Drain(r))
  {
    DrainOrdered(r);
    RunIsMaximal(r.buf, r.nxt, Max(r.wnd - |r.queue|, 0));
  }

  lemma ParseDataValid(r: Receiver, e: Segment)
    requires Valid(r)
    ensures Valid(ParseData(r, e))
  {
    if Acceptable(r, e.sn) {
      if Stored(r.buf, e.sn) {
        DrainValid(r);
      } else {
        InsertOrdered(r, e);
        DrainValid(r.(buf := Insert(r.buf, r.nxt, e)));
      }
    }
  }

  lemma RecvValid(r: Receiver, capacity: nat)
    requires Valid(r)
    ensures Valid(Recv(r, capacity).rest)
  {
    DrainValid(r.(queue := r.queue[MessageLength(r.queue)..]));
  }

  /** A message ends with the first segment of fragment count 0, or with the queue. */
  lemma {:induction false} MessageEnds(queue: seq<Segment>)
    ensures var n := MessageLength(queue);
      && (forall i :: 0 <= i < n - 1 ==> queue[i].frg != 0)
      && (n == |queue| || (n > 0 && queue[n - 1].frg == 0))
  {
    if queue != [] && queue[0].frg != 0 {
      MessageEnds(queue[1..]);
      var n := MessageLength(queue);
      forall i | 0 <= i < n - 1 ensures queue[i].frg != 0 {
        if i > 0 {
          assert queue[i] == queue[1..][i - 1];
        }
      }
      assert n > 1 ==> queue[n - 1] == queue[1..][n - 2];
    }
  }

  /** A size that is reported is that of what `Recv` takes. */
  lemma {:induction false} PeekSizeIs(queue: seq<Segment>)
    ensures PeekSize(queue) >= 0 ==> PeekSize(queue) == |Payload(queue[..MessageLength(queue)])|
  {
    if queue != [] && queue[0].frg == 0 {
      assert queue[..1] == [queue[0]];
      assert Payload([queue[0]]) == queue[0].data + Payload([]);
    }
  }

  /** A repeated number changes nothing at all: there was nothing left to hand over. */
  lemma RepeatChangesNothing(r: Receiver, e: Segment)
    requires Valid(r) && Stored(r.buf, e.sn)
    ensures ParseData(r, e) == r
  {
  }

  // ----- what the receiver holds -----

  /**
   `t` is `r` with `stored` in its buffer and the segments that follow on moved to
   the queue. Where `t` is valid as well, these are as many as there are room and
   consecutive numbers for.
   */
  ghost predicate HandsOver(r: Receiver, stored: seq<Segment>, t: Receiver) {
    && t.wnd == r.wnd && |r.queue| <= |t.queue| && t.queue + t.buf == r.queue + stored
    && t.nxt == Wrap(r.nxt + (|t.queue| - |r.queue|))
    && forall i :: |r.queue| <= i < |t.queue| ==> t.queue[i].sn == Wrap(r.nxt + (i - |r.queue|))
  }

  lemma DrainHandsOver(r: Receiver)
    ensures HandsOver(r, r.buf, Drain(r))
  {
    var room := Max(r.wnd - |r.queue|, 0);
    RunIsMaximal(r.buf, r.nxt, room);
    var n := Run(r.buf, r.nxt, room);
    assert r.buf == r.buf[..n] + r.buf[n..];
  }

  lemma InsertHandsOver(r: Receiver, e: Segment, at: nat)
    requires Stores(r, e.sn) && at == Before(r.buf, r.nxt, Offset(e.sn, r.nxt))
    ensures HandsOver(r, r.buf[..at] + [e] + r.buf[at..], ParseData(r, e))
  {
    var q := r.(buf := r.buf[..at] + [e] + r.buf[at..]);
    assert ParseData(r, e) == Drain(q);
    DrainHandsOver(q);
  }

  lemma ParseDataStores(r: Receiver, e: Segment) returns (at: nat)
    requires Valid(r)
    ensures at <= |r.buf|
    ensures if Stores(r, e.sn) then HandsOver(r, r.buf[..at] + [e] + r.buf[at..], ParseData(r, e))
            else ParseData(r, e) == r
  {
    at := Before(r.buf, r.nxt, Offset(e.sn, r.nxt));
    if Stores(r, e.sn) {
      InsertHandsOver(r, e, at);
    } else if Stored(r.buf, e.sn) {
      RepeatChangesNothing(r, e);
    }
  }

  /** The number is in the window and not stored yet, in the words of the source. */
  ghost predicate IsNew(r: Receiver, sn: u32) {
    && Diff(sn, r.nxt) >= 0 && Diff(sn, Wrap(r.nxt + r.wnd)) < 0
    && forall i :: 0 <= i < |r.buf| ==> r.buf[i].sn != sn
  }

  lemma NewIsStored(r: Receiver, sn: u32)
    requires 1 <= r.wnd < HALF
    ensures IsNew(r, sn) <==> Stores(r, sn)
  {
    AcceptanceTest(r, sn);
  }

  /**
   A segment whose number is new is kept, whatever the order of arrival, and
   whatever then follows on becomes readable; any other changes nothing.
   */
  lemma ParseDataKeeps(r: Receiver, e: Segment) returns (at: nat)
    requires Valid(r)
    ensures Valid(ParseData(r, e)) && at <= |r.buf|
    ensures if IsNew(r, e.sn) then HandsOver(r, r.buf[..at] + [e] + r.buf[at..], ParseData(r, e))
            else ParseData(r, e) == r
  {
    ParseDataValid(r, e);
    NewIsStored(r, e.sn);
    at := ParseDataStores(r, e);
  }

  /** `Recv` takes the first message off the queue, and hands over what then has room. */
  lemma RecvHandsOver(r: Receiver, capacity: nat) returns (n: nat)
    requires Valid(r)
    ensures var t := Recv(r, capacity);
      && Valid(t.rest) && n <= |r.queue|
      && if t.code < 0 then t.rest == r && t.data == []
         else t.code == |t.data| && t.data == Payload(r.queue[..n])
              && HandsOver(r.(queue := r.queue[n..]), r.buf, t.rest)
              && (forall i :: 0 <= i < n - 1 ==> r.queue[i].frg != 0)
              && (n == |r.queue| || (n > 0 && r.queue[n - 1].frg == 0))
  {
    RecvValid(r, capacity);
    n := MessageLength(r.queue);
    DrainHandsOver(r.(queue := r.queue[n..]));
    MessageEnds(r.queue);
    PeekSizeIs(r.queue);
  }

  // ----- incomplete messages -----

  /** The queue ends before the message at its head does. */
  ghost predicate Incomplete(queue: seq<Segment>) {
    forall i :: 0 <= i < |queue| ==> queue[i].frg != 0
  }

  lemma {:induction false} IncompleteLength(queue: seq<Segment>)
    requires Incomplete(queue)
    ensures MessageLength(queue) == |queue|
  {
    if queue != [] {
      assert Incomplete(queue[1..]) by {
        assert forall i :: 0 <= i < |queue[1..]| ==> queue[1..][i] == queue[i + 1];
      }
      IncompleteLength(queue[1..]);
    }
  }

  /**
   When `PeekSize` takes an incomplete head for a whole message: when the
   fragment count of its first segment, taken in 8 bits, is already there. A peer
   can bring that about with a first segment numbered 255, whose count is 0, or by
   never sending a segment numbered 0.
   */
  lemma {:induction false} IncompleteIsReported(queue: seq<Segment>)
    requires queue != [] && Incomplete(queue)
    ensures PeekSize(queue) >= 0 <==> queue[0].frg == 255 || |queue| > queue[0].frg as int
    ensures PeekSize(queue) >= 0 ==> PeekSize(queue) == |Payload(queue)|
  {
    IncompleteLength(queue);
    assert queue[..|queue|] == queue;
  }

  /** One byte of a message announced in 256 pieces is read as a message of one byte. */
  lemma LoneFragmentIsRead(x: byte)
    ensures var queue := [Fresh(255, [x])]; Incomplete(queue) && PeekSize(queue) == 1
  {
    var queue := [Fresh(255, [x])];
    IncompleteIsReported(queue);
    assert queue[1..] == [];
    assert Payload(queue) == [x] + Payload([]);
  }
}
