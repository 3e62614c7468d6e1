/**
 The send window: what the acknowledgement loops of network/kcp/kcp.go:394-456
 and the admission loop of network/kcp/kcp.go:793-818 do to it, said in terms of
 distances from `SndUna` rather than by scanning. The scanning loops themselves
 are in KcpEngine and are proved to compute these functions.
 */
module SendWindow {
  import opened Serial
  import opened Wire
  import opened Segments

  const LIMIT: nat := 0xffff

  /** A segment still waiting in `SndQueue`. */
  ghost predicate Unsent(s: Segment) {
    s.xmit == 0 && s.fastack == 0 && !s.acked
  }

  /** The buffer holds consecutive numbers that end just before `SndNxt`. */
  ghost predicate Consecutive(una: u32, nxt: u32, buf: seq<Segment>) {
    && |buf| <= LIMIT
    && nxt == Wrap(una + |buf|)
    && forall i :: 0 <= i < |buf| ==> buf[i].sn == Wrap(una + i)
  }

  /** A sent segment that is acknowledged has given its payload back. */
  ghost predicate Sent(e: Segment) {
    e.cmd == CMD_PUSH && (e.acked ==> e.data == [])
  }

  /** Nothing sent later can make the newest entry look skipped. */
  ghost predicate Entries(buf: seq<Segment>) {
    && (forall e :: e in buf ==> Sent(e))
    && (buf != [] ==> buf[|buf| - 1].fastack == 0)
  }

  /** Holds between any two calls, whatever datagrams have arrived. */
  ghost predicate Valid(s: Sender) {
    && Consecutive(s.una, s.nxt, s.buf)
    && Entries(s.buf)
    && forall e :: e in s.queue ==> Unsent(e)
  }

  function Acked(e: Segment): Segment {
    e.(acked := true, data := [])
  }

  /** `parseAck`: at most the one entry numbered `sn` is marked. */
  function ParseAck(s: Sender, sn: u32): Sender {
    var off := Offset(sn, s.una);
    if off < |s.buf| then s.(buf := s.buf[off := Acked(s.buf[off])]) else s
  }

  /** How many entries a cumulative acknowledgement covers. */
  function Covered(s: Sender, una: u32): (n: nat)
    ensures n <= |s.buf|
  {
    Min(Max(Diff(una, s.una), 0), |s.buf|)
  }

  /** `parseUna` followed by `shrinkBuf`. */
  function AdvanceUna(s: Sender, una: u32): Sender {
    var n := Covered(s, una);
    s.(una := Wrap(s.una + n), buf := s.buf[n..])
  }

  function Skipped(e: Segment, ts: u32): Segment {
    if Diff(e.ts, ts) <= 0 then e.(fastack := Wrap(e.fastack + 1)) else e
  }

  /** `parseFastack`: entries before the acknowledged one and not younger than it count a skip. */
  function ParseFastack(s: Sender, sn: u32, ts: u32): Sender {
    var off := Offset(sn, s.una);
    if off < |s.buf| then
      s.(buf := seq(|s.buf|, i requires 0 <= i < |s.buf| =>
                      if i < off then Skipped(s.buf[i], ts) else s.buf[i]))
    else s
  }

  function Number(e: Segment, conv: u32, sn: u32): Segment {
    e.(conv := conv, cmd := CMD_PUSH, sn := sn)
  }

  /** How many queued segments the window takes. */
  function Room(s: Sender, cwnd: u32): (n: nat)
    ensures n <= |s.queue|
  {
    Min(Max(cwnd - |s.buf|, 0), |s.queue|)
  }

  function Numbered(s: Sender, n: nat, conv: u32): seq<Segment>
    requires n <= |s.queue|
  {
    seq(n, i requires 0 <= i < n => Number(s.queue[i], conv, Wrap(s.nxt + i)))
  }

  /** The admission loop of `segs`. */
  function Admit(s: Sender, cwnd: u32, conv: u32): Sender {
    var n := Room(s, cwnd);
    Sender(s.una, Wrap(s.nxt + n), s.queue[n..],
           s.buf + Numbered(s, n, conv))
  }

  // ----- the invariant -----

  lemma EntriesPointwise(buf: seq<Segment>, was: seq<Segment>)
    requires Entries(was) && |buf| == |was|
    requires forall i :: 0 <= i < |buf| ==> Sent(was[i]) ==> Sent(buf[i])
    requires buf != [] ==> buf[|buf| - 1].fastack == was[|buf| - 1].fastack
    ensures Entries(buf)
  {
  }

  lemma ParseAckValid(s: Sender, sn: u32)
    requires Valid(s)
    ensures Valid(ParseAck(s, sn))
  {
    EntriesPointwise(ParseAck(s, sn).buf, s.buf);
  }

  lemma ParseFastackValid(s: Sender, sn: u32, ts: u32)
    requires Valid(s)
    ensures Valid(ParseFastack(s, sn, ts))
  {
    EntriesPointwise(ParseFastack(s, sn, ts).buf, s.buf);
  }

  lemma ConsecutiveDrop(una: u32, nxt: u32, buf: seq<Segment>, n: nat)
    requires Consecutive(una, nxt, buf) && n <= |buf|
    ensures Consecutive(Wrap(una + n), nxt, buf[n..])
  {
    var rest := buf[n..];
    forall i | 0 <= i < |rest| ensures rest[i].sn == Wrap(Wrap(una + n) + i) {
      assert rest[i] == buf[n + i];
      OffsetWrap(una + n, i);
    }
    OffsetWrap(una + n, |rest|);
  }

  lemma AdvanceUnaValid(s: Sender, una: u32)
    requires Valid(s)
    ensures Valid(AdvanceUna(s, una))
  {
    ConsecutiveDrop(s.una, s.nxt, s.buf, Covered(s, una));
  }

  lemma ConsecutiveAppend(una: u32, nxt: u32, buf: seq<Segment>, more: seq<Segment>)
    requires Consecutive(una, nxt, buf) && |buf| + |more| <= LIMIT
    requires forall i :: 0 <= i < |more| ==> more[i].sn == Wrap(nxt + i)
    ensures Consecutive(una, Wrap(nxt + |more|), buf + more)
  {
    var m := |buf|;
    OffsetWrap(una + m, |more|);
    forall i | m <= i < m + |more| ensures (buf + more)[i].sn == Wrap(una + i) {
      assert (buf + more)[i] == more[i - m];
      OffsetWrap(una + m, i - m);
    }
  }

  lemma NumberedSent(s: Sender, n: nat, conv: u32)
    requires n <= |s.queue| && forall e :: e in s.queue ==> Unsent(e)
    ensures forall e :: e in Numbered(s, n, conv) ==> Sent(e) && e.fastack == 0
  {
    forall e | e in Numbered(s, n, conv) ensures Sent(e) && e.fastack == 0 {
      var i :| 0 <= i < n && e == Numbered(s, n, conv)[i];
      assert s.queue[i] in s.queue;
    }
  }

  lemma AdmitValid(s: Sender, cwnd: u32, conv: u32)
    requires Valid(s) && cwnd <= LIMIT
    ensures Valid(Admit(s, cwnd, conv))
  {
    var n := Room(s, cwnd);
    var more := Numbered(s, n, conv);
    ConsecutiveAppend(s.una, s.nxt, s.buf, more);
    NumberedSent(s, n, conv);
  }

  // ----- what the window functions mean -----

  /** The acceptance test of `parseAck` and `parseFastack` picks out exactly the outstanding numbers. */
  lemma OutstandingTest(s: Sender, sn: u32)
    requires Valid(s)
    ensures !(Diff(sn, s.una) < 0 || Diff(sn, s.nxt) >= 0) <==> Offset(sn, s.una) < |s.buf|
  {
    DiffSign(sn, s.una);
    if Offset(sn, s.una) < HALF {
      DiffPlace(sn, s.una, |s.buf|);
    }
  }

  /** Comparing `sn` with the i-th outstanding number compares their places in the window. */
  lemma PlaceInWindow(s: Sender, sn: u32, i: nat)
    requires Valid(s) && i < |s.buf| && Offset(sn, s.una) < |s.buf|
    ensures sn == s.buf[i].sn <==> Offset(sn, s.una) == i
    ensures Diff(sn, s.buf[i].sn) == Offset(sn, s.una) - i
  {
    DiffPlace(sn, s.una, i);
  }

  /** A cumulative acknowledgement lies beyond the i-th entry just when it covers more than i entries. */
  lemma CoveredByUna(s: Sender, una: u32, i: nat)
    requires Valid(s) && i < |s.buf| && i <= Covered(s, una)
    ensures Diff(una, s.buf[i].sn) > 0 <==> i < Covered(s, una)
  {
    DiffSign(una, s.una);
    if Offset(una, s.una) < HALF {
      DiffPlace(una, s.una, i);
    } else {
      assert i == 0 && Wrap(s.una + 0) == s.una;
    }
  }

  /** The window test of the admission loop, after `n` segments have been admitted. */
  lemma RoomTest(s: Sender, cwnd: u32, n: nat)
    requires Valid(s) && cwnd <= LIMIT && n <= Room(s, cwnd) && n < |s.queue|
    ensures Diff(Wrap(s.nxt + n), Wrap(s.una + cwnd)) >= 0 <==> n == Room(s, cwnd)
  {
    WrapPlus(s.una + |s.buf|, n);
    DiffPlaces(s.una, |s.buf| + n, cwnd);
    assert s.una + |s.buf| + n == s.una + (|s.buf| + n);
  }
}
