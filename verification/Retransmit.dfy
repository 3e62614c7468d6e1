/**
 The pass of `flush` over the send buffer (`rangeRef`, network/kcp/kcp.go:883-964):
 which entries go out and why, how they are rescheduled, and when the next
 flush is due.
 */
module Retransmit {
  import opened Serial
  import opened Wire
  import opened Segments
  import SendWindow
  import RoundTrip

  /** What is fixed during one pass. The clock does not move within it. */
  datatype Pass = Pass(
    now: u32, resent: u32, admitted: nat, rxRto: u32, nodelay: u32, interval: u32, wnd: u16, una: u32)

  datatype Kind = Done | Waiting | First | Fast | Early | Lost

  function Classify(e: Segment, p: Pass): Kind {
    if e.acked then Done
    else if e.xmit == 0 then First
    else if e.fastack >= p.resent then Fast
    else if e.fastack > 0 && p.admitted == 0 then Early
    else if Diff(p.now, e.resendts) >= 0 then Lost
    else Waiting
  }

  predicate Goes(k: Kind) {
    k != Done && k != Waiting
  }

  /** The timeout an entry gets: reset on a first or fast transmission, backed off on a loss. */
  function NextRto(e: Segment, p: Pass): u32 {
    if Classify(e, p) == Lost
    then Wrap(e.rto + (if p.nodelay == 0 then p.rxRto else p.rxRto / 2))
    else p.rxRto
  }

  function Touch(e: Segment, p: Pass): Segment {
    if !Goes(Classify(e, p)) then e
    else
      e.(rto := NextRto(e, p), resendts := Wrap(p.now + NextRto(e, p)),
         fastack := if Classify(e, p) == First then e.fastack else 0,
         xmit := Wrap(e.xmit + 1), ts := p.now, wnd := p.wnd, una := p.una)
  }

  function Touched(buf: seq<Segment>, p: Pass): (t: seq<Segment>)
    ensures |t| == |buf|
  {
    seq(|buf|, i requires 0 <= i < |buf| => Touch(buf[i], p))
  }

  /** The segments a pass puts on the wire, in order. */
  function Outgoing(buf: seq<Segment>, p: Pass): seq<WireSegment> {
    if buf == [] then []
    else
      Outgoing(buf[..|buf| - 1], p)
      + (if Goes(Classify(buf[|buf| - 1], p)) then [OnWire(Touch(buf[|buf| - 1], p))] else [])
  }

  function Count(buf: seq<Segment>, p: Pass, k: Kind): nat {
    if buf == [] then 0
    else Count(buf[..|buf| - 1], p, k) + (if Classify(buf[|buf| - 1], p) == k then 1 else 0)
  }

  /** The delay until the next flush: the nearest resend time, and at most the interval. */
  function Soonest(buf: seq<Segment>, p: Pass): u32 {
    if buf == [] then p.interval
    else
      var before, e := Soonest(buf[..|buf| - 1], p), Touch(buf[|buf| - 1], p);
      var wait := Diff(e.resendts, p.now);
      if !e.acked && 0 < wait < before then wait else before
  }

  // ----- the window invariant -----

  lemma TouchKeeps(e: Segment, p: Pass)
    ensures Touch(e, p).sn == e.sn && FragmentOf(Touch(e, p)) == FragmentOf(e)
    ensures Touch(e, p).acked == e.acked && Touch(e, p).cmd == e.cmd && Touch(e, p).conv == e.conv
    ensures e.fastack == 0 ==> Touch(e, p).fastack == 0
  {
  }

  lemma TouchedValid(s: Sender, p: Pass)
    requires SendWindow.Valid(s)
    ensures SendWindow.Valid(s.(buf := Touched(s.buf, p)))
  {
    var t := Touched(s.buf, p);
    forall e | e in t ensures SendWindow.Sent(e) {
      var i :| 0 <= i < |t| && t[i] == e;
      assert s.buf[i] in s.buf;
    }
  }

  /** Everything on the wire is an entry that is not acknowledged, stamped with this pass. */
  lemma {:induction false} OutgoingSound(buf: seq<Segment>, p: Pass, w: WireSegment)
    requires w in Outgoing(buf, p)
    ensures exists i :: 0 <= i < |buf| && !buf[i].acked && w == OnWire(Touched(buf, p)[i])
    ensures w.una == p.una && w.wnd == p.wnd && w.ts == p.now
  {
    var k := |buf| - 1;
    if w in Outgoing(buf[..k], p) {
      OutgoingSound(buf[..k], p, w);
      var i :| 0 <= i < k && !buf[..k][i].acked && w == OnWire(Touched(buf[..k], p)[i]);
      assert Touched(buf, p)[i] == Touch(buf[i], p);
      assert !buf[i].acked && w == OnWire(Touched(buf, p)[i]);
    } else {
      assert !buf[k].acked && w == OnWire(Touched(buf, p)[k]);
    }
  }

  /** Every entry that goes is on the wire. */
  lemma {:induction false} OutgoingComplete(buf: seq<Segment>, p: Pass, i: nat)
    requires i < |buf| && Goes(Classify(buf[i], p))
    ensures OnWire(Touched(buf, p)[i]) in Outgoing(buf, p)
  {
    var k := |buf| - 1;
    if i < k {
      OutgoingComplete(buf[..k], p, i);
      assert Touched(buf[..k], p)[i] == Touched(buf, p)[i];
    }
  }

  // ----- congestion signals -----

  /** A pass counts an entry of a kind exactly when there is one. */
  lemma {:induction false} CountPositive(buf: seq<Segment>, p: Pass, k: Kind)
    ensures Count(buf, p, k) > 0 <==> exists i :: 0 <= i < |buf| && Classify(buf[i], p) == k
  {
    if buf != [] {
      var n := |buf| - 1;
      CountPositive(buf[..n], p, k);
      assert forall i :: 0 <= i < n ==> buf[..n][i] == buf[i];
    }
  }

  /**
   A fast or early retransmission is of an entry that is not the newest, as the
   newest is never skipped; so at least two segments are in flight.
   */
  lemma {:induction false} ChangeNeedsTwo(buf: seq<Segment>, p: Pass)
    requires SendWindow.Entries(buf) && p.resent >= 1
    requires Count(buf, p, Fast) + Count(buf, p, Early) > 0
    ensures |buf| >= 2
    ensures exists i :: 0 <= i < |buf| - 1 && (Classify(buf[i], p) == Fast || Classify(buf[i], p) == Early)
  {
    CountPositive(buf, p, Fast);
    CountPositive(buf, p, Early);
    var i :| 0 <= i < |buf| && (Classify(buf[i], p) == Fast || Classify(buf[i], p) == Early);
    assert i != |buf| - 1;
  }

  // ----- timing -----

  /** The timeout of an entry never outgrows its number of transmissions. */
  ghost predicate RtoWithin(e: Segment) {
    e.rto <= RoundTrip.RTO_MAX * e.xmit
  }

  lemma TouchRtoWithin(e: Segment, p: Pass)
    requires RtoWithin(e) && p.rxRto <= RoundTrip.RTO_MAX && e.xmit + 1 < FULL
    ensures RtoWithin(Touch(e, p))
  {
  }

  /** Up to 35790 transmissions no timeout reaches half the clock circle. */
  const XMIT_LIMIT: u32 := 35790

  /** The clock reading is not exactly half a circle before the entry's resend time. */
  ghost predicate Comparable(e: Segment, p: Pass) {
    Wrap(e.resendts - p.now) != HALF
  }

  /** The pass leaves the entry a resend time that reads as being in the future. */
  ghost predicate Schedulable(e: Segment, p: Pass) {
    if Goes(Classify(e, p)) then 0 < NextRto(e, p) < HALF else Comparable(e, p)
  }

  lemma NextRtoRange(e: Segment, p: Pass)
    requires e.xmit <= XMIT_LIMIT && RtoWithin(e)
    requires RoundTrip.RTO_NDL <= p.rxRto <= RoundTrip.RTO_MAX
    ensures 0 < NextRto(e, p) < HALF
  {
  }

  lemma PlusSign(now: u32, rto: u32)
    ensures Diff(Wrap(now + rto), now) > 0 <==> 0 < rto < HALF
  {
    OffsetWrap(now + rto, now);
    WrapId(now);
    WrapSmall(rto);
  }

  lemma WaitSign(now: u32, resendts: u32)
    requires Diff(now, resendts) < 0
    ensures Diff(resendts, now) > 0 <==> Wrap(resendts - now) != HALF
  {
    DiffSign(resendts, now);
    DiffSign(now, resendts);
    DiffFrom(resendts, now, 0);
  }

  /**
   Exactly when a pass leaves an unacknowledged entry due in the future: a new
   timeout below half a clock circle, or for an entry that was left waiting, a
   clock not exactly half a circle before its resend time.
   */
  lemma DueLaterIff(e: Segment, p: Pass)
    requires !e.acked
    ensures Diff(Touch(e, p).resendts, p.now) > 0 <==> Schedulable(e, p)
  {
    if Goes(Classify(e, p)) {
      PlusSign(p.now, NextRto(e, p));
    } else {
      WaitSign(p.now, e.resendts);
    }
  }

  /** Whatever the entries, the delay a pass returns is positive and at most the interval. */
  lemma {:induction false} SoonestRange(buf: seq<Segment>, p: Pass)
    requires p.interval > 0
    ensures 0 < Soonest(buf, p) <= p.interval
  {
    if buf != [] {
      SoonestRange(buf[..|buf| - 1], p);
    }
  }

  /** No entry that reads as being in the future is due before the delay. */
  lemma {:induction false} SoonestCovers(buf: seq<Segment>, p: Pass, i: nat)
    requires i < |buf| && !buf[i].acked && Diff(Touch(buf[i], p).resendts, p.now) > 0
    ensures Soonest(buf, p) <= Diff(Touch(buf[i], p).resendts, p.now)
  {
    var k := |buf| - 1;
    if i < k {
      SoonestCovers(buf[..k], p, i);
    } else {
      TouchKeeps(buf[k], p);
    }
  }

  /**
   An entry awaiting an acknowledgement is due no earlier than the delay the
   pass returns exactly when it is schedulable.
   */
  lemma {:induction false} AfterPass(buf: seq<Segment>, p: Pass, i: nat)
    requires i < |buf| && !buf[i].acked && p.interval > 0
    ensures Diff(Touched(buf, p)[i].resendts, p.now) >= Soonest(buf, p) <==> Schedulable(buf[i], p)
  {
    SoonestRange(buf, p);
    DueLaterIff(buf[i], p);
    if Schedulable(buf[i], p) {
      SoonestCovers(buf, p, i);
    }
  }

  /** The delay is the interval or exactly the time to some entry's resend. */
  lemma {:induction false} SoonestAttained(buf: seq<Segment>, p: Pass)
    ensures Soonest(buf, p) == p.interval
      || exists i :: 0 <= i < |buf| && !buf[i].acked && Soonest(buf, p) == Diff(Touched(buf, p)[i].resendts, p.now)
  {
    if buf != [] {
      var k := |buf| - 1;
      SoonestAttained(buf[..k], p);
      if Soonest(buf, p) == Soonest(buf[..k], p) {
        if Soonest(buf[..k], p) != p.interval {
          var i :| 0 <= i < k && !buf[..k][i].acked
                   && Soonest(buf[..k], p) == Diff(Touched(buf[..k], p)[i].resendts, p.now);
          assert Touched(buf[..k], p)[i] == Touched(buf, p)[i] && !buf[i].acked;
        }
      } else {
        assert !buf[k].acked && Soonest(buf, p) == Diff(Touched(buf, p)[k].resendts, p.now);
      }
    }
  }

  /** Read exactly half a circle before its resend time, an entry is neither due nor in the future. */
  lemma HalfCircleIsNotComparable(e: Segment, p: Pass)
    requires !e.acked && e.xmit > 0 && e.fastack == 0 && p.resent > 0 && !Comparable(e, p)
    ensures Classify(e, p) == Waiting && Diff(Touch(e, p).resendts, p.now) < 0
  {
  }
}
