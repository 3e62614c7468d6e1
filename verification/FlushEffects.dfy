/**
 What a flush makes of an endpoint, said by its fields before and after
 (network/kcp/kcp.go:689-695, 718-964): what becomes of every segment in flight
 and in the queue, what is written, and what is left of the rest.
 */
module FlushEffects {
  import opened Serial
  import opened Wire
  import opened Packing
  import opened Segments
  import opened KcpSpec
  import opened KcpInvariant
  import opened InputLaws
  import KcpLaws
  import ReceiveWindow
  import SendWindow
  import Retransmit
  import Congestion

  /** The free places of the receive queue, as a header carries them. */
  function FreePlaces(r: Receiver): u16 {
    Max(r.wnd - |r.queue|, 0) % 0x1_0000
  }

  /** How many segments may be in flight: the smallest of the windows that count. */
  function Allowed(k: Kcp): u32 {
    if k.cfg.nocwnd == 0 then Min(Min(k.cfg.sndWnd, k.win.rmtWnd), k.win.cwnd) else Min(k.cfg.sndWnd, k.win.rmtWnd)
  }

  // ----- what is in flight -----

  lemma PassFields(k: Kcp, now: u32)
    ensures var p := PassOf(k, now);
      && p.now == now && p.rxRto == k.rtt.rto && p.nodelay == k.cfg.nodelay && p.una == k.rcv.nxt
      && p.wnd == FreePlaces(k.rcv)
      && p.resent == (if k.cfg.fastresend <= 0 then 0xffff_ffff else k.cfg.fastresend)
      && p.admitted == Min(Max(Allowed(k) - |k.snd.buf|, 0), |k.snd.queue|)
  {
  }

  lemma AdmittedIs(k: Kcp)
    requires Inv(k)
    ensures var s, t := k.snd, Admitted(k);
      var n := Min(Max(Allowed(k) - |s.buf|, 0), |s.queue|);
      && |t.buf| == |s.buf| + n && t.queue == s.queue[n..] && t.nxt == Wrap(s.nxt + n) && t.una == s.una
      && t.buf[..|s.buf|] == s.buf
  {
  }

  /** The pass changes segments in flight in place. */
  lemma PassInPlace(k: Kcp, now: u32)
    ensures var s, t := Admitted(k), Flush(k, false, now).k.snd;
      |t.buf| == |s.buf| && t.queue == s.queue && t.nxt == s.nxt && t.una == s.una
  {
  }

  /** A full flush moves queued segments into flight while the windows allow, and only then. */
  lemma FlushAdmits(k: Kcp, now: u32)
    requires Inv(k)
    ensures var s, t := k.snd, Flush(k, false, now).k.snd;
      var n := Min(Max(Allowed(k) - |s.buf|, 0), |s.queue|);
      && |t.buf| == |s.buf| + n && t.queue == s.queue[n..] && t.nxt == Wrap(s.nxt + n) && t.una == s.una
  {
    AdmittedIs(k);
    PassInPlace(k, now);
  }

  lemma FlushedIs(k: Kcp, now: u32, i: nat)
    requires Inv(k) && i < |Flush(k, false, now).k.snd.buf|
    ensures i < |Admitted(k).buf|
    ensures Flush(k, false, now).k.snd.buf[i] == Retransmit.Touch(Admitted(k).buf[i], PassOf(k, now))
  {
  }

  /** One more transmission of `e`, stamped with the flush. */
  function Stamped(e: Segment, k: Kcp, now: u32): Segment {
    e.(xmit := Wrap(e.xmit + 1), ts := now, wnd := FreePlaces(k.rcv), una := k.rcv.nxt)
  }

  function Timed(e: Segment, rto: u32, now: u32): Segment {
    e.(rto := rto, resendts := Wrap(now + rto))
  }

  /**
   The fate of a segment in flight, when `quiet` says that nothing new was sent.
   It goes out for the first time, or because it was skipped often enough, or
   skipped at all while nothing new was sent, with the estimated timeout; or
   because its time has come, with its own timeout prolonged by the estimated one,
   or by half of it in no-delay mode. Otherwise it stays as it is.
   */
  function Fate(e: Segment, k: Kcp, now: u32, quiet: bool): Segment {
    var enough := if k.cfg.fastresend <= 0 then 0xffff_ffff else k.cfg.fastresend;
    var rto := k.rtt.rto;
    if e.acked then e
    else if e.xmit == 0 then Timed(Stamped(e, k, now), rto, now)
    else if e.fastack >= enough || (e.fastack > 0 && quiet) then Timed(Stamped(e, k, now), rto, now).(fastack := 0)
    else if Diff(now, e.resendts) >= 0
    then Timed(Stamped(e, k, now), Wrap(e.rto + if k.cfg.nodelay == 0 then rto else rto / 2), now).(fastack := 0)
    else e
  }

  lemma TouchIsFate(e: Segment, k: Kcp, now: u32)
    ensures Retransmit.Touch(e, PassOf(k, now)) == Fate(e, k, now, PassOf(k, now).admitted == 0)
  {
    PassFields(k, now);
  }

  /** Every segment in flight meets its fate in a full flush. */
  lemma EntryAfterFlush(k: Kcp, now: u32, i: nat)
    requires Inv(k) && i < |k.snd.buf|
    ensures var f := Flush(k, false, now).k.snd.buf;
      i < |f| && f[i] == Fate(k.snd.buf[i], k, now, |f| == |k.snd.buf|)
  {
    FlushAdmits(k, now);
    FlushedIs(k, now, i);
    PassFields(k, now);
    TouchIsFate(k.snd.buf[i], k, now);
    assert Admitted(k).buf[i] == k.snd.buf[i];
  }

  lemma AdmittedNew(k: Kcp, j: nat)
    requires Inv(k) && |k.snd.buf| + j < |Admitted(k).buf|
    ensures j < |k.snd.queue| && SendWindow.Unsent(k.snd.queue[j])
    ensures Admitted(k).buf[|k.snd.buf| + j] == SendWindow.Number(k.snd.queue[j], k.cfg.conv, Wrap(k.snd.nxt + j))
  {
    assert k.snd.queue[j] in k.snd.queue;
  }

  lemma NewIsTouched(e: Segment, sn: u32, k: Kcp, now: u32)
    requires SendWindow.Unsent(e)
    ensures Retransmit.Touch(SendWindow.Number(e, k.cfg.conv, sn), PassOf(k, now))
            == Timed(Stamped(e, k, now), k.rtt.rto, now).(conv := k.cfg.conv, cmd := CMD_PUSH, sn := sn, xmit := 1)
  {
    TouchIsFate(SendWindow.Number(e, k.cfg.conv, sn), k, now);
    WrapId(1);
  }

  /** What it makes of a segment it takes from the queue. */
  lemma NewEntryAfterFlush(k: Kcp, now: u32, i: nat)
    requires Inv(k) && |k.snd.buf| <= i < |Flush(k, false, now).k.snd.buf|
    ensures var j := i - |k.snd.buf|;
      && j < |k.snd.queue|
      && Flush(k, false, now).k.snd.buf[i]
         == Timed(Stamped(k.snd.queue[j], k, now), k.rtt.rto, now).(
              conv := k.cfg.conv, cmd := CMD_PUSH, sn := Wrap(k.snd.nxt + j), xmit := 1)
  {
    var j := i - |k.snd.buf|;
    FlushAdmits(k, now);
    FlushedIs(k, now, i);
    PassFields(k, now);
    AdmittedNew(k, j);
    NewIsTouched(k.snd.queue[j], Wrap(k.snd.nxt + j), k, now);
  }

  /** Segment `i` after the flush was written by it: it is new in flight, or was transmitted once more. */
  predicate WentOut(was: seq<Segment>, t: seq<Segment>, i: nat)
    requires i < |t|
  {
    i >= |was| || t[i].xmit != was[i].xmit
  }

  /** Some segment goes out for as often as makes a dead link. */
  ghost predicate ReachesDeadLink(k: Kcp, t: seq<Segment>) {
    exists i :: 0 <= i < |t| && WentOut(k.snd.buf, t, i) && t[i].xmit >= k.cfg.deadLink
  }

  /** The rest of an endpoint after a flush. */
  lemma FlushLeaves(k: Kcp, ackOnly: bool, now: u32)
    ensures var l := Flush(k, ackOnly, now).k;
      && l.acks == [] && l.rcv == k.rcv && l.rtt == k.rtt && l.cfg == k.cfg
      && l.updated == k.updated && l.tsFlush == k.tsFlush
      && (ackOnly ==> l == k.(acks := []) && Flush(k, ackOnly, now).delay == k.cfg.interval)
      && (!ackOnly ==> !l.probe.ask && !l.probe.tell)
  {
  }

  // ----- what is written -----

  /** The segments among the first `n` that were written, in order. */
  function Written(was: seq<Segment>, t: seq<Segment>, n: nat): seq<WireSegment>
    requires n <= |t|
  {
    if n == 0 then []
    else Written(was, t, n - 1) + (if WentOut(was, t, n - 1) then [OnWire(t[n - 1])] else [])
  }

  /** A header-only segment of a flush. */
  function Bare(k: Kcp, cmd: byte, a: AckItem): WireSegment {
    WireSegment(k.cfg.conv, cmd, 0, FreePlaces(k.rcv), a.ts, a.sn, k.rcv.nxt, [])
  }

  /** The acknowledgements for the first `n` items: one that lies before RcvNxt only if it is the last of the list. */
  function Owed(k: Kcp, n: nat): seq<WireSegment>
    requires n <= |k.acks|
  {
    if n == 0 then []
    else
      var a := k.acks[n - 1];
      Owed(k, n - 1) + (if Diff(a.sn, k.rcv.nxt) >= 0 || n == |k.acks| then [Bare(k, CMD_ACK, a)] else [])
  }

  /** The flush asks for the peer's window: it was to, or the window is closed and the probe timer runs out. */
  predicate Asks(k: Kcp, now: u32) {
    k.probe.ask || (k.win.rmtWnd == 0 && k.probe.wait != 0 && Diff(now, k.probe.ts) >= 0)
  }

  /** Questions and answers carry the number and time of the last acknowledgement, as the segment is reused. */
  function Probing(k: Kcp, now: u32): seq<WireSegment> {
    var last := if k.acks == [] then AckItem(0, 0) else k.acks[|k.acks| - 1];
    (if Asks(k, now) then [Bare(k, CMD_WASK, last)] else []) + (if k.probe.tell then [Bare(k, CMD_WINS, last)] else [])
  }

  lemma {:induction false} EmittedOwed(k: Kcp, n: nat)
    requires n <= |k.acks|
    ensures Emitted(AckEmissions(k)[..n]) == Owed(k, n)
  {
    if n > 0 {
      EmittedOwed(k, n - 1);
      var es := AckEmissions(k);
      assert es[..n] == es[..n - 1] + [es[n - 1]];
      EmittedConcat(es[..n - 1], [es[n - 1]]);
      assert Emitted([es[n - 1]]) == if es[n - 1].seg.Some? then [es[n - 1].seg.value] else [];
    }
  }

  /** What goes is exactly what has one transmission more. */
  lemma GoesIsWentOut(k: Kcp, now: u32, i: nat)
    requires Inv(k) && i < |Admitted(k).buf|
    ensures i < |Flush(k, false, now).k.snd.buf|
    ensures Retransmit.Goes(Retransmit.Classify(Admitted(k).buf[i], PassOf(k, now)))
            <==> WentOut(k.snd.buf, Flush(k, false, now).k.snd.buf, i)
  {
    FlushedIs(k, now, i);
    KcpLaws.AdmittedEntry(k, now, i);
  }

  lemma {:induction false} OutgoingTake(buf: seq<Segment>, p: Retransmit.Pass, n: nat)
    requires 0 < n <= |buf|
    ensures Retransmit.Outgoing(buf[..n], p) ==
      Retransmit.Outgoing(buf[..n - 1], p)
      + if Retransmit.Goes(Retransmit.Classify(buf[n - 1], p)) then [OnWire(Retransmit.Touch(buf[n - 1], p))] else []
  {
    assert buf[..n][..n - 1] == buf[..n - 1] && buf[..n][n - 1] == buf[n - 1];
  }

  lemma {:induction false} OutgoingIsWritten(k: Kcp, now: u32, n: nat)
    requires Inv(k) && n <= |Admitted(k).buf|
    ensures |Flush(k, false, now).k.snd.buf| == |Admitted(k).buf|
    ensures Retransmit.Outgoing(Admitted(k).buf[..n], PassOf(k, now))
            == Written(k.snd.buf, Flush(k, false, now).k.snd.buf, n)
  {
    PassInPlace(k, now);
    if n > 0 {
      OutgoingIsWritten(k, now, n - 1);
      OutgoingTake(Admitted(k).buf, PassOf(k, now), n);
      GoesIsWentOut(k, now, n - 1);
      FlushedIs(k, now, n - 1);
    }
  }

  lemma ProbesAreProbing(k: Kcp, now: u32)
    ensures ProbeWires(k, NextProbe(k.probe, k.win.rmtWnd, now)) == Probing(k, now)
  {
  }

  lemma {:induction false} AcksAreOwed(k: Kcp)
    ensures AckWires(k, Filtered(k.acks, k.rcv.nxt)) == Owed(k, |k.acks|)
  {
    EmittedAcks(k, 0);
    EmittedOwed(k, |k.acks|);
    assert AckEmissions(k)[0..] == AckEmissions(k)[..|k.acks|] && k.acks[0..] == k.acks;
  }

  lemma OutgoingAreWritten(k: Kcp, now: u32)
    requires Inv(k)
    ensures var t := Flush(k, false, now).k.snd.buf;
      Retransmit.Outgoing(Admitted(k).buf, PassOf(k, now)) == Written(k.snd.buf, t, |t|)
  {
    var buf := Admitted(k).buf;
    OutgoingIsWritten(k, now, |buf|);
    assert buf[..|buf|] == buf;
  }

  /**
   All a flush writes, in order: the acknowledgements owed; and, unless it is for
   acknowledgements only, the question for the peer's window, the answer about
   ours, and every segment that is sent for the first time or again.
   */
  lemma {:induction false} FlushWrites(k: Kcp, ackOnly: bool, now: u32)
    requires Inv(k)
    ensures Emitted(Flush(k, ackOnly, now).out) ==
      Owed(k, |k.acks|)
      + if ackOnly then []
        else
          var t := Flush(k, false, now).k.snd.buf;
          Probing(k, now) + Written(k.snd.buf, t, |t|)
  {
    FlushEmits(k, ackOnly, now);
    AcksAreOwed(k);
    if !ackOnly {
      ProbesAreProbing(k, now);
      OutgoingAreWritten(k, now);
    }
  }

  /** A flush hands out no datagram that could have taken the next segment as well. */
  lemma FlushPacksTightly(k: Kcp, ackOnly: bool, now: u32)
    requires Inv(k)
    ensures Tight(Datagrams(Flush(k, ackOnly, now).out, k.cfg.mtu, k.cfg.reserved), k.cfg.mtu, k.cfg.reserved)
  {
    FlushFits(k, ackOnly, now);
    DatagramsTight(Flush(k, ackOnly, now).out, k.cfg.mtu, k.cfg.reserved);
  }

  // ----- the rest -----

  /** Some transmission of the flush is one that makes the link dead. */
  lemma FlushDeclaresDead(k: Kcp, now: u32)
    requires Inv(k)
    ensures var l := Flush(k, false, now).k;
      l.state == if ReachesDeadLink(k, l.snd.buf) then 0xffff_ffff else k.state
  {
    var t := Flush(k, false, now).k.snd.buf;
    KcpLaws.DeadLinkIs(Admitted(k).buf, PassOf(k, now), k.cfg.deadLink);
    forall i | 0 <= i < |Admitted(k).buf|
      ensures i < |t| && t[i] == Retransmit.Touch(Admitted(k).buf[i], PassOf(k, now))
      ensures Retransmit.Goes(Retransmit.Classify(Admitted(k).buf[i], PassOf(k, now))) <==> WentOut(k.snd.buf, t, i)
    {
      GoesIsWentOut(k, now, i);
      FlushedIs(k, now, i);
    }
  }

  /** The probe timer after a full flush. */
  lemma FlushSetsTimer(k: Kcp, now: u32)
    ensures var p, q := k.probe, Flush(k, false, now).k.probe;
      if k.win.rmtWnd != 0 then q.wait == 0 && q.ts == 0
      else if p.wait == 0 then q.wait == 7000 && q.ts == Wrap(now + 7000)
      else if Diff(now, p.ts) >= 0 then
        && q.wait == Min(Wrap(Max(p.wait, 7000) + Max(p.wait, 7000) / 2), 120000)
        && q.ts == Wrap(now + q.wait)
      else q.wait == p.wait && q.ts == p.ts
  {
  }

  /** The congestion window after a full flush: set by what was skipped, else closed by a loss, else at least 1. */
  lemma WindowAfterFlush(k: Kcp, now: u32)
    requires Inv(k)
    ensures var w, v, n := k.win, Flush(k, false, now).k.win, |Flush(k, false, now).k.snd.buf|;
      var target := Wrap(n / 2 + if k.cfg.fastresend <= 0 then 0xffff_ffff else k.cfg.fastresend);
      if k.cfg.nocwnd != 0 then v == w
      else if Change(k, now) > 0 then
        v == Congestion.Window(n / 2, Max(target, 1), if target == 0 then k.cfg.mss else Wrap(target * k.cfg.mss),
                               w.rmtWnd)
      else if Losses(k, now) > 0 then v == Congestion.Window(Allowed(k) / 2, 1, k.cfg.mss, w.rmtWnd)
      else v == if w.cwnd < 1 then w.(cwnd := 1, incr := k.cfg.mss) else w
  {
    AdmittedSized(k);
    var p := NextProbe(k.probe, k.win.rmtWnd, now);
    var mid := k.(acks := [], probe := p.(ask := false, tell := false));
    assert Flush(k, false, now).k == PushFlush(mid, now);
    assert Admitted(mid) == Admitted(k) && PassOf(mid, now) == PassOf(k, now) && SendLimit(mid) == SendLimit(k);
  }

  // ----- telling the window -----

  ghost predicate Tells(ws: seq<WireSegment>) {
    exists i :: 0 <= i < |ws| && ws[i].cmd == CMD_WINS
  }

  lemma TellsConcat(xs: seq<WireSegment>, ys: seq<WireSegment>)
    ensures Tells(xs + ys) <==> Tells(xs) || Tells(ys)
  {
    if i :| 0 <= i < |xs| && xs[i].cmd == CMD_WINS {
      assert (xs + ys)[i].cmd == CMD_WINS;
    }
    if i :| 0 <= i < |ys| && ys[i].cmd == CMD_WINS {
      assert (xs + ys)[|xs| + i].cmd == CMD_WINS;
    }
  }

  lemma {:induction false} OwedTellsNothing(k: Kcp, n: nat)
    requires n <= |k.acks|
    ensures !Tells(Owed(k, n))
  {
    if n > 0 {
      OwedTellsNothing(k, n - 1);
      var a := k.acks[n - 1];
      TellsConcat(Owed(k, n - 1),
                  if Diff(a.sn, k.rcv.nxt) >= 0 || n == |k.acks| then [Bare(k, CMD_ACK, a)] else []);
    }
  }

  lemma {:induction false} WrittenTellsNothing(was: seq<Segment>, t: seq<Segment>, n: nat)
    requires n <= |t| && SendWindow.Entries(t)
    ensures !Tells(Written(was, t, n))
  {
    if n > 0 {
      WrittenTellsNothing(was, t, n - 1);
      assert SendWindow.Sent(t[n - 1]);
      TellsConcat(Written(was, t, n - 1), if WentOut(was, t, n - 1) then [OnWire(t[n - 1])] else []);
    }
  }

  lemma ProbingTells(k: Kcp, now: u32)
    ensures Tells(Probing(k, now)) <==> k.probe.tell
  {
    var p := Probing(k, now);
    if k.probe.tell {
      assert p[|p| - 1].cmd == CMD_WINS;
    }
  }

  /** A full flush tells the window exactly when it was asked to. */
  lemma FlushTells(k: Kcp, now: u32)
    requires Inv(k)
    ensures Tells(Emitted(Flush(k, false, now).out)) <==> k.probe.tell
  {
    var t := Flush(k, false, now).k.snd.buf;
    FlushWrites(k, false, now);
    FlushInv(k, false, now);
    OwedTellsNothing(k, |k.acks|);
    WrittenTellsNothing(k.snd.buf, t, |t|);
    ProbingTells(k, now);
    TellsConcat(Probing(k, now), Written(k.snd.buf, t, |t|));
    TellsConcat(Owed(k, |k.acks|), Probing(k, now) + Written(k.snd.buf, t, |t|));
  }

  /**
   The flush after a `Recv` tells the window exactly when that was asked before,
   or the `Recv` took a message out of a full queue and left room in it.
   */
  lemma RecvAnnounces(k: Kcp, capacity: nat, now: u32)
    requires Inv(k)
    ensures var (r, l) := Recv(k, capacity);
      Tells(Emitted(Flush(l, false, now).out)) <==>
      k.probe.tell || (r.code >= 0 && |k.rcv.queue| >= k.rcv.wnd && |l.rcv.queue| < k.rcv.wnd)
  {
    RecvInv(k, capacity);
    FlushTells(Recv(k, capacity).1, now);
  }

  /** A message is taken exactly when there is one and it fits; nothing changes otherwise, and the window never does. */
  lemma RecvTakes(k: Kcp, capacity: nat)
    ensures var (r, l) := Recv(k, capacity);
      && (r.code >= 0 <==> 0 <= ReceiveWindow.PeekSize(k.rcv.queue) <= capacity)
      && (r.code < 0 ==> l == k && r.data == []
                         && r.code == if ReceiveWindow.PeekSize(k.rcv.queue) < 0 then -1 else -2)
      && l.rcv.wnd == k.rcv.wnd
  {
  }
}
