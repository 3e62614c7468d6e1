/**
 One direction of a connection with unbounded sequence numbers beside the
 32-bit ones: what a sender's queues and a receiver's queues have to do with
 each other, whatever the network drops, duplicates, reorders or delays
 (network/kcp/kcp.go:394-521, 793-818). Serial numbers are shown to be
 unambiguous for datagrams that are not older than AGE segments.
 */
module Delivery {
  import opened Serial
  import opened Wire
  import opened Segments
  import SendWindow
  import ReceiveWindow
  import Fragmentation

  /** How far a counter may move on while a datagram is under way. */
  const AGE: int := HALF - 0x2_0000

  /** A sender, its `SndUna` without wrap-around, and every fragment ever queued. */
  datatype SendSide = SendSide(snd: Sender, una: nat, log: seq<Fragment>)

  /**
   A receiver, its `RcvNxt` without wrap-around, the `RcvNxt` of its last flush,
   and every fragment ever made readable.
   */
  datatype ReceiveSide = ReceiveSide(rcv: Receiver, acks: seq<AckItem>, nxt: nat, flushed: nat, log: seq<Fragment>)

  /** The next number the sender will assign. */
  function Sent(s: SendSide): nat {
    s.una + |s.snd.buf|
  }

  /** The unbounded number of the i-th stored segment. */
  function StoredNumber(r: ReceiveSide, i: nat): nat
    requires i < |r.rcv.buf|
  {
    r.nxt + Offset(r.rcv.buf[i].sn, r.rcv.nxt)
  }

  /** Segment `m` has arrived: it was made readable, or it is stored. */
  ghost predicate Has(r: ReceiveSide, m: int) {
    m < r.nxt || exists i :: 0 <= i < |r.rcv.buf| && StoredNumber(r, i) == m
  }

  // ----- the invariant of one direction -----

  ghost predicate SenderLogged(s: SendSide) {
    && SendWindow.Valid(s.snd) && s.snd.una == Wrap(s.una)
    && |s.log| == Sent(s) + |s.snd.queue|
    && (forall i :: 0 <= i < |s.snd.buf| && !s.snd.buf[i].acked ==> FragmentOf(s.snd.buf[i]) == s.log[s.una + i])
    && forall i :: 0 <= i < |s.snd.queue| ==> FragmentOf(s.snd.queue[i]) == s.log[Sent(s) + i]
  }

  ghost predicate StoredLogged(s: SendSide, r: ReceiveSide) {
    forall i :: 0 <= i < |r.rcv.buf| ==>
      StoredNumber(r, i) < Sent(s) <= |s.log| && FragmentOf(r.rcv.buf[i]) == s.log[StoredNumber(r, i)]
  }

  ghost predicate ReceiverLogged(s: SendSide, r: ReceiveSide) {
    && ReceiveWindow.Valid(r.rcv) && r.rcv.nxt == Wrap(r.nxt)
    && r.nxt <= Sent(s) <= |s.log|
    && r.log == s.log[..r.nxt]
    && StoredLogged(s, r)
  }

  /** The acknowledgement `a` is of a segment that has arrived and is not too old. */
  ghost predicate AckFor(r: ReceiveSide, a: AckItem, m: int) {
    Wrap(m) == a.sn && Has(r, m) && m >= r.flushed - AGE
  }

  ghost predicate AcksSound(r: ReceiveSide) {
    forall a :: a in r.acks ==> exists m :: AckFor(r, a, m)
  }

  /** The sender gives up only what has arrived. */
  ghost predicate NothingLost(s: SendSide, r: ReceiveSide) {
    && s.una <= r.flushed <= r.nxt
    && forall i :: 0 <= i < |s.snd.buf| && s.snd.buf[i].acked ==> Has(r, s.una + i)
  }

  ghost predicate Link(s: SendSide, r: ReceiveSide) {
    SenderLogged(s) && ReceiverLogged(s, r) && AcksSound(r) && NothingLost(s, r)
  }

  // ----- what is true of segments under way -----

  /** `w` is the data segment numbered `n`, sent when `SndUna` was `una`. */
  ghost predicate PushFor(s: SendSide, una: nat, w: WireSegment, n: nat) {
    una <= n < Sent(s) && n < |s.log| && Wrap(n) == w.sn && Fragment(w.frg, w.data) == s.log[n]
  }

  ghost predicate PushSound(s: SendSide, una: nat, w: WireSegment) {
    w.cmd == CMD_PUSH ==> exists n :: PushFor(s, una, w, n)
  }

  /** `w` acknowledges `m`, sent when `RcvNxt` was `nxt`. */
  ghost predicate AckedBy(r: ReceiveSide, nxt: nat, w: WireSegment, m: int) {
    Wrap(m) == w.sn && Has(r, m) && m >= nxt - AGE - SendWindow.LIMIT
  }

  ghost predicate AckSound(r: ReceiveSide, nxt: nat, w: WireSegment) {
    && nxt <= r.flushed && w.una == Wrap(nxt)
    && (w.cmd == CMD_ACK ==> exists m :: AckedBy(r, nxt, w, m))
  }

  // ----- growth: what was true of segments under way stays true -----

  ghost predicate SenderGrows(s: SendSide, t: SendSide) {
    s.log <= t.log && s.una <= t.una && Sent(s) <= Sent(t)
  }

  ghost predicate ReceiverGrows(r: ReceiveSide, q: ReceiveSide) {
    r.nxt <= q.nxt && r.flushed <= q.flushed && forall m :: Has(r, m) ==> Has(q, m)
  }

  lemma PushSoundGrows(s: SendSide, t: SendSide, una: nat, w: WireSegment)
    requires PushSound(s, una, w) && SenderGrows(s, t)
    ensures PushSound(t, una, w)
  {
    if w.cmd == CMD_PUSH {
      var n :| PushFor(s, una, w, n);
      assert PushFor(t, una, w, n);
    }
  }

  lemma AckSoundGrows(r: ReceiveSide, q: ReceiveSide, nxt: nat, w: WireSegment)
    requires AckSound(r, nxt, w) && ReceiverGrows(r, q)
    ensures AckSound(q, nxt, w)
  {
    if w.cmd == CMD_ACK {
      var m :| AckedBy(r, nxt, w, m);
      assert AckedBy(q, nxt, w, m);
    }
  }

  // ----- serial numbers against unbounded numbers -----

  /** A number at most half a circle behind the next expected one is inside the 32-bit window just when it really is. */
  lemma WindowExact(nxt: nat, wnd: nat, n: nat)
    requires -HALF <= n - nxt < HALF && 1 <= wnd < HALF
    ensures Offset(Wrap(n), Wrap(nxt)) < wnd <==> nxt <= n < nxt + wnd
    ensures nxt <= n ==> Offset(Wrap(n), Wrap(nxt)) == n - nxt
  {
  }

  /** A cumulative number at most AGE behind `SndUna` compares as it should. */
  lemma UnaExact(una: nat, u: nat)
    requires una - u <= AGE && u - una < HALF
    ensures Diff(Wrap(u), Wrap(una)) == u - una
  {
  }

  /** An acknowledged number is found in the window just where it really is. */
  lemma AckExact(una: nat, m: int)
    requires una - m <= 2 * AGE + SendWindow.LIMIT && m - una <= SendWindow.LIMIT
    ensures Offset(Wrap(m), Wrap(una)) <= SendWindow.LIMIT ==> m == una + Offset(Wrap(m), Wrap(una))
  {
  }

  /** A number beyond the window is never acknowledged. */
  lemma BeyondExact(nxt: nat, wnd: nat, n: nat)
    requires 1 <= wnd < HALF && nxt + wnd <= n <= nxt + SendWindow.LIMIT
    ensures Diff(Wrap(n), Wrap(Wrap(nxt) + wnd)) >= 0
  {
  }

  // ----- why the age is bounded -----

  /** A cumulative acknowledgement just over half a circle old drops everything that is in flight. */
  lemma StaleUnaDropsEverything(s: Sender, una: nat, u: nat)
    requires SendWindow.Valid(s) && s.una == Wrap(una) && una - u == HALF + 1
    ensures SendWindow.Covered(s, Wrap(u)) == |s.buf|
  {
  }

  /** A data segment a full circle old is taken for the next expected one. */
  lemma StalePushIsAccepted(r: Receiver, nxt: nat, n: nat)
    requires ReceiveWindow.Valid(r) && r.nxt == Wrap(nxt) && nxt - n == FULL
    ensures Wrap(n) == r.nxt && ReceiveWindow.Acceptable(r, Wrap(n))
  {
  }

  // ----- the receiver takes a data segment -----

  /** The receive queue held `kept` segments and has been refilled from the buffer. */
  function MovedTo(r: ReceiveSide, after: Receiver, kept: nat): ReceiveSide {
    if kept <= |after.queue| then
      r.(rcv := after, nxt := r.nxt + (|after.queue| - kept),
         log := r.log + Fragmentation.FragmentsOf(after.queue[kept..]))
    else r.(rcv := after)
  }

  function AcksAfter(r: ReceiveSide, w: WireSegment): seq<AckItem> {
    if Diff(w.sn, Wrap(r.rcv.nxt + r.rcv.wnd)) < 0 then r.acks + [AckItem(w.sn, w.ts)] else r.acks
  }

  function Taken(r: ReceiveSide, w: WireSegment): ReceiveSide {
    var after := ReceiveWindow.ParseData(r.rcv, FromWire(w));
    MovedTo(r.(acks := AcksAfter(r, w)), after, |r.rcv.queue|)
  }

  /** What `Drain` does to the buffers of `q`, in unbounded numbers. */
  ghost predicate DrainedTo(q: ReceiveSide, d: ReceiveSide, n: nat) {
    && 1 <= q.rcv.wnd < HALF && ReceiveWindow.Ordered(q.rcv.nxt, q.rcv.wnd, q.rcv.buf)
    && |q.rcv.queue| <= q.rcv.wnd
    && n == ReceiveWindow.Run(q.rcv.buf, q.rcv.nxt, q.rcv.wnd - |q.rcv.queue|)
    && d.rcv == ReceiveWindow.Drain(q.rcv) && d.nxt == q.nxt + n
  }

  lemma DrainMoves(r: ReceiveSide, rcv: Receiver, n: nat)
    requires |rcv.queue| <= rcv.wnd && n == ReceiveWindow.Run(rcv.buf, rcv.nxt, rcv.wnd - |rcv.queue|)
    ensures var d := MovedTo(r, ReceiveWindow.Drain(rcv), |rcv.queue|);
      && d == r.(rcv := ReceiveWindow.Drain(rcv), nxt := r.nxt + n,
                 log := r.log + Fragmentation.FragmentsOf(rcv.buf[..n]))
      && d.rcv.nxt == Wrap(rcv.nxt + n) && d.rcv.wnd == rcv.wnd
  {
  }

  lemma DrainNumber(q: ReceiveSide, d: ReceiveSide, n: nat, i: nat)
    requires DrainedTo(q, d, n) && i < |d.rcv.buf|
    ensures |q.rcv.buf| == n + |d.rcv.buf| && d.rcv.buf[i] == q.rcv.buf[n + i]
    ensures StoredNumber(d, i) == StoredNumber(q, n + i)
  {
    assert n == ReceiveWindow.Run(q.rcv.buf, q.rcv.nxt, Max(q.rcv.wnd - |q.rcv.queue|, 0));
    ReceiveWindow.DrainPlace(q.rcv, i);
  }

  lemma DrainStored(s: SendSide, q: ReceiveSide, d: ReceiveSide, n: nat)
    requires DrainedTo(q, d, n) && StoredLogged(s, q)
    ensures StoredLogged(s, d)
  {
    forall i | 0 <= i < |d.rcv.buf|
      ensures StoredNumber(d, i) < Sent(s) <= |s.log| && FragmentOf(d.rcv.buf[i]) == s.log[StoredNumber(d, i)]
    {
      DrainNumber(q, d, n, i);
    }
  }

  /** The run at the head of the buffer is the next stretch of the log. */
  lemma RunLogged(s: SendSide, q: ReceiveSide, n: nat)
    requires 1 <= q.rcv.wnd < HALF && ReceiveWindow.Ordered(q.rcv.nxt, q.rcv.wnd, q.rcv.buf)
    requires |q.rcv.queue| <= q.rcv.wnd
    requires n == ReceiveWindow.Run(q.rcv.buf, q.rcv.nxt, q.rcv.wnd - |q.rcv.queue|)
    requires StoredLogged(s, q) && q.nxt <= Sent(s) <= |s.log| && q.log == s.log[..q.nxt]
    ensures q.nxt + n <= Sent(s)
    ensures q.log + Fragmentation.FragmentsOf(q.rcv.buf[..n]) == s.log[..q.nxt + n]
  {
    forall i | 0 <= i < n ensures StoredNumber(q, i) == q.nxt + i {
      ReceiveWindow.RunPlaces(q.rcv, n, i);
    }
    if n > 0 {
      assert StoredNumber(q, n - 1) == q.nxt + (n - 1);
    }
    var fs := Fragmentation.FragmentsOf(q.rcv.buf[..n]);
    forall i | 0 <= i < n ensures fs[i] == s.log[q.nxt + i] {
      assert StoredNumber(q, i) == q.nxt + i;
    }
  }

  lemma DrainNumbers(s: SendSide, q: ReceiveSide, d: ReceiveSide, n: nat)
    requires DrainedTo(q, d, n) && StoredLogged(s, q) && q.rcv.nxt == Wrap(q.nxt)
    requires q.nxt <= Sent(s) <= |s.log| && q.log == s.log[..q.nxt]
    ensures ReceiveWindow.Valid(d.rcv) && d.rcv.nxt == Wrap(d.nxt) && d.nxt <= Sent(s)
    ensures q.log + Fragmentation.FragmentsOf(q.rcv.buf[..n]) == s.log[..d.nxt]
  {
    ReceiveWindow.DrainValid(q.rcv);
    WrapPlus(q.nxt, n);
    RunLogged(s, q, n);
  }

  lemma RunBelow(q: ReceiveSide, d: ReceiveSide, n: nat, i: nat)
    requires DrainedTo(q, d, n) && i < |q.rcv.buf| && StoredNumber(q, i) >= d.nxt
    ensures n <= i && i - n < |d.rcv.buf|
  {
    assert n == ReceiveWindow.Run(q.rcv.buf, q.rcv.nxt, Max(q.rcv.wnd - |q.rcv.queue|, 0));
    ReceiveWindow.RunPlaces(q.rcv, n, i);
  }

  lemma DrainHas(q: ReceiveSide, d: ReceiveSide, n: nat, m: int)
    requires DrainedTo(q, d, n) && Has(q, m)
    ensures Has(d, m)
  {
    if m >= d.nxt {
      var i :| 0 <= i < |q.rcv.buf| && StoredNumber(q, i) == m;
      RunBelow(q, d, n, i);
      DrainNumber(q, d, n, i - n);
    }
  }

  /** Draining makes the logged fragments readable and keeps everything else. */
  lemma DrainLogged(s: SendSide, r: ReceiveSide, rcv: Receiver)
    requires r.nxt <= Sent(s) <= |s.log| && r.log == s.log[..r.nxt] && rcv.nxt == Wrap(r.nxt)
    requires 1 <= rcv.wnd < HALF && |rcv.queue| <= rcv.wnd
    requires ReceiveWindow.Ordered(rcv.nxt, rcv.wnd, rcv.buf) && StoredLogged(s, r.(rcv := rcv))
    ensures var d := MovedTo(r, ReceiveWindow.Drain(rcv), |rcv.queue|);
      && ReceiverLogged(s, d)
      && r.nxt <= d.nxt && d.flushed == r.flushed && d.acks == r.acks
      && forall m :: Has(r.(rcv := rcv), m) ==> Has(d, m)
  {
    var n := ReceiveWindow.Run(rcv.buf, rcv.nxt, rcv.wnd - |rcv.queue|);
    var d := MovedTo(r, ReceiveWindow.Drain(rcv), |rcv.queue|);
    var q := r.(rcv := rcv);
    DrainMoves(r, rcv, n);
    assert DrainedTo(q, d, n);
    DrainNumbers(s, q, d, n);
    DrainStored(s, q, d, n);
    forall m | Has(q, m) ensures Has(d, m) {
      DrainHas(q, d, n, m);
    }
  }

  /** The receive buffer with an arriving segment put in its place. */
  function Inserted(r: ReceiveSide, w: WireSegment): ReceiveSide {
    r.(rcv := r.rcv.(buf := ReceiveWindow.Insert(r.rcv.buf, r.rcv.nxt, FromWire(w))))
  }

  lemma InsertedAt(r: ReceiveSide, w: WireSegment, i: nat)
    requires i <= |r.rcv.buf|
    ensures var at := ReceiveWindow.Before(r.rcv.buf, r.rcv.nxt, Offset(w.sn, r.rcv.nxt));
      Inserted(r, w).rcv.buf[i] ==
        if i < at then r.rcv.buf[i] else if i == at then FromWire(w) else r.rcv.buf[i - 1]
  {
  }

  /** Storing the segment numbered `n` keeps every stored fragment the logged one. */
  lemma InsertLogged(s: SendSide, r: ReceiveSide, una: nat, w: WireSegment, n: nat)
    requires StoredLogged(s, r) && Sent(s) <= |s.log|
    requires PushFor(s, una, w, n) && n == r.nxt + Offset(w.sn, r.rcv.nxt)
    ensures StoredLogged(s, Inserted(r, w))
  {
  }

  lemma InsertHas(r: ReceiveSide, w: WireSegment, m: int)
    requires Has(r, m) || m == r.nxt + Offset(w.sn, r.rcv.nxt)
    ensures Has(Inserted(r, w), m)
  {
    var q := Inserted(r, w);
    var at := ReceiveWindow.Before(r.rcv.buf, r.rcv.nxt, Offset(w.sn, r.rcv.nxt));
    if m >= r.nxt {
      if Has(r, m) {
        var i :| 0 <= i < |r.rcv.buf| && StoredNumber(r, i) == m;
        var j := if i < at then i else i + 1;
        InsertedAt(r, w, j);
        assert StoredNumber(q, j) == m;
      } else {
        InsertedAt(r, w, at);
        assert StoredNumber(q, at) == m;
      }
    }
  }

  lemma SameBuffersLogged(s: SendSide, r: ReceiveSide, t: ReceiveSide)
    requires t.rcv == r.rcv && t.nxt == r.nxt && t.log == r.log
    ensures ReceiverLogged(s, r) ==> ReceiverLogged(s, t)
    ensures forall m :: Has(r, m) <==> Has(t, m)
  {
    if ReceiverLogged(s, r) {
      assert forall i :: 0 <= i < |r.rcv.buf| ==> StoredNumber(r, i) == StoredNumber(t, i);
    }
    forall m ensures Has(r, m) <==> Has(t, m) {
      assert forall i :: 0 <= i < |r.rcv.buf| ==> StoredNumber(r, i) == StoredNumber(t, i);
    }
  }

  /** A number already stored changes only the acknowledgement list. */
  lemma RepeatArrives(s: SendSide, r: ReceiveSide, w: WireSegment)
    requires ReceiverLogged(s, r) && ReceiveWindow.Acceptable(r.rcv, w.sn) && ReceiveWindow.Stored(r.rcv.buf, w.sn)
    ensures ReceiverLogged(s, Taken(r, w)) && r.nxt <= Taken(r, w).nxt
    ensures Has(Taken(r, w), r.nxt + Offset(w.sn, r.rcv.nxt)) && forall m :: Has(r, m) ==> Has(Taken(r, w), m)
  {
    ReceiveWindow.RepeatChangesNothing(r.rcv, FromWire(w));
    assert Fragmentation.FragmentsOf(r.rcv.queue[|r.rcv.queue|..]) == [];
    SameBuffersLogged(s, r, Taken(r, w));
    var i :| 0 <= i < |r.rcv.buf| && r.rcv.buf[i].sn == w.sn;
    assert StoredNumber(r, i) == r.nxt + Offset(w.sn, r.rcv.nxt);
  }

  lemma TakenInserts(r: ReceiveSide, w: WireSegment)
    requires ReceiveWindow.Acceptable(r.rcv, w.sn) && !ReceiveWindow.Stored(r.rcv.buf, w.sn)
    ensures Taken(r, w) == MovedTo(r, ReceiveWindow.Drain(Inserted(r, w).rcv), |r.rcv.queue|).(acks := AcksAfter(r, w))
  {
  }

  /** A new number inside the window is stored, and what has become readable is the next stretch of the log. */
  lemma NewArrives(s: SendSide, r: ReceiveSide, una: nat, w: WireSegment, n: nat)
    requires ReceiverLogged(s, r) && PushFor(s, una, w, n) && n == r.nxt + Offset(w.sn, r.rcv.nxt)
    requires ReceiveWindow.Acceptable(r.rcv, w.sn) && !ReceiveWindow.Stored(r.rcv.buf, w.sn)
    ensures ReceiverLogged(s, Taken(r, w)) && r.nxt <= Taken(r, w).nxt
    ensures Has(Taken(r, w), n) && forall m :: Has(r, m) ==> Has(Taken(r, w), m)
  {
    var t := Taken(r, w);
    var q := Inserted(r, w);
    InsertLogged(s, r, una, w, n);
    ReceiveWindow.InsertOrdered(r.rcv, FromWire(w));
    TakenInserts(r, w);
    var d := MovedTo(r, ReceiveWindow.Drain(q.rcv), |q.rcv.queue|);
    DrainLogged(s, r, q.rcv);
    SameBuffersLogged(s, d, t);
    forall m | Has(r, m) || m == n ensures Has(t, m) {
      InsertHas(r, w, m);
      assert Has(d, m);
    }
  }

  /** What happens to the buffers when the segment is inside the window. */
  lemma AcceptedArrives(s: SendSide, r: ReceiveSide, una: nat, w: WireSegment, n: nat)
    requires ReceiverLogged(s, r) && PushFor(s, una, w, n)
    requires ReceiveWindow.Acceptable(r.rcv, w.sn) && n == r.nxt + Offset(w.sn, r.rcv.nxt)
    ensures ReceiverLogged(s, Taken(r, w)) && r.nxt <= Taken(r, w).nxt
    ensures Has(Taken(r, w), n) && forall m :: Has(r, m) ==> Has(Taken(r, w), m)
  {
    if ReceiveWindow.Stored(r.rcv.buf, w.sn) {
      RepeatArrives(s, r, w);
    } else {
      NewArrives(s, r, una, w, n);
    }
  }

  /** Outside the window nothing but the acknowledgement list changes. */
  lemma RefusedArrives(s: SendSide, r: ReceiveSide, w: WireSegment)
    requires ReceiverLogged(s, r) && !ReceiveWindow.Acceptable(r.rcv, w.sn)
    ensures Taken(r, w) == r.(acks := AcksAfter(r, w))
    ensures ReceiverLogged(s, Taken(r, w)) && forall m :: Has(r, m) ==> Has(Taken(r, w), m)
  {
    assert Fragmentation.FragmentsOf(r.rcv.queue[|r.rcv.queue|..]) == [];
    SameBuffersLogged(s, r, Taken(r, w));
  }

  /** How far the sender and the receiver of a link can be apart. */
  lemma LinkDistances(s: SendSide, r: ReceiveSide)
    requires Link(s, r)
    ensures s.una <= r.flushed <= r.nxt <= Sent(s) <= s.una + SendWindow.LIMIT
    ensures r.nxt <= r.flushed + SendWindow.LIMIT
  {
  }

  lemma PushArrivesBuffers(s: SendSide, r: ReceiveSide, una: nat, w: WireSegment, n: nat)
    requires Link(s, r) && PushFor(s, una, w, n) && r.flushed - una <= AGE
    ensures ReceiverLogged(s, Taken(r, w)) && ReceiverGrows(r, Taken(r, w))
    ensures Diff(w.sn, Wrap(r.rcv.nxt + r.rcv.wnd)) < 0 ==> Has(Taken(r, w), n)
  {
    LinkDistances(s, r);
    WindowExact(r.nxt, r.rcv.wnd, n);
    if ReceiveWindow.Acceptable(r.rcv, w.sn) {
      AcceptedArrives(s, r, una, w, n);
    } else {
      RefusedArrives(s, r, w);
      if n >= r.nxt {
        BeyondExact(r.nxt, r.rcv.wnd, n);
      }
    }
  }

  lemma NothingLostGrows(s: SendSide, r: ReceiveSide, t: ReceiveSide)
    requires NothingLost(s, r) && ReceiverGrows(r, t) && t.flushed == r.flushed
    ensures NothingLost(s, t)
  {
  }

  /** The new acknowledgement, if there is one, is of a segment the receiver now has. */
  lemma AcksGrow(r: ReceiveSide, t: ReceiveSide, w: WireSegment, n: nat)
    requires AcksSound(r) && ReceiverGrows(r, t) && t.flushed == r.flushed && t.acks == AcksAfter(r, w)
    requires Wrap(n) == w.sn && n >= r.flushed - AGE
    requires Diff(w.sn, Wrap(r.rcv.nxt + r.rcv.wnd)) < 0 ==> Has(t, n)
    ensures AcksSound(t)
  {
    forall a | a in t.acks ensures exists m :: AckFor(t, a, m) {
      if a in r.acks {
        var m :| AckFor(r, a, m);
        assert AckFor(t, a, m);
      } else {
        assert AckFor(t, a, n);
      }
    }
  }

  /** An arriving data segment, at whatever time and however often, keeps the link. */
  lemma PushArrives(s: SendSide, r: ReceiveSide, una: nat, w: WireSegment)
    requires Link(s, r) && w.cmd == CMD_PUSH && PushSound(s, una, w) && r.flushed - una <= AGE
    ensures Link(s, Taken(r, w)) && ReceiverGrows(r, Taken(r, w)) && Taken(r, w).flushed == r.flushed
  {
    var n :| PushFor(s, una, w, n);
    PushArrivesBuffers(s, r, una, w, n);
    AcksGrow(r, Taken(r, w), w, n);
    NothingLostGrows(s, r, Taken(r, w));
  }

  /** Progress of one step: with room in the receive queue, the next expected segment is made readable at once. */
  lemma NextNumberAdvances(s: SendSide, r: ReceiveSide, una: nat, w: WireSegment)
    requires Link(s, r) && w.cmd == CMD_PUSH && PushFor(s, una, w, r.nxt) && r.flushed - una <= AGE
    requires |r.rcv.queue| < r.rcv.wnd
    ensures Taken(r, w).nxt > r.nxt
  {
  }
}
