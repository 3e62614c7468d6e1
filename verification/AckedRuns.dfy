/**
 Selective acknowledgement over whole runs (network/kcp/kcp.go:403-421,
 883-964): once an entry is marked it stays marked while it is in the send
 buffer, and no call of any kind writes its number again.
 */
module AckedRuns {
  import opened Serial
  import opened Wire
  import opened Packing
  import opened Segments
  import opened KcpSpec
  import opened KcpInvariant
  import opened KcpLaws
  import InputLaws
  import SendWindow
  import Retransmit

  /** The segments a call puts on the wire. */
  ghost function Wires(k: Kcp, c: Call): seq<WireSegment>
    requires k.cfg.mss > 0
  {
    match c
    case SendCall(_) => []
    case RecvCall(_) => []
    case InputCall(datagram, regular, ackNoDelay, at) => Emitted(Input(k, datagram, regular, ackNoDelay, at).out)
    case FlushCall(ackOnly, at) => Emitted(Flush(k, ackOnly, at).out)
    case UpdateCall(at) => Emitted(Update(k, at).out)
  }

  /** The number is in the send buffer. */
  ghost predicate Held(s: Sender, sn: u32) {
    Offset(sn, s.una) < |s.buf|
  }

  /** It is there and acknowledged. */
  ghost predicate Marked(s: Sender, sn: u32) {
    Held(s, sn) && s.buf[Offset(sn, s.una)].acked
  }

  /** It is acknowledged, or the window has moved past it. */
  ghost predicate Finished(s: Sender, sn: u32) {
    Marked(s, sn) || Offset(sn, s.una) >= FULL - SendWindow.LIMIT
  }

  /** No data segment carries the number. */
  ghost predicate Silent(ws: seq<WireSegment>, sn: u32) {
    forall w :: w in ws && w.cmd == CMD_PUSH ==> w.sn != sn
  }

  lemma OffsetBehind(sn: u32, una: u32, n: nat)
    requires n < HALF
    ensures Offset(sn, Wrap(una + n)) ==
      if Offset(sn, una) >= n then Offset(sn, una) - n else Offset(sn, una) - n + FULL
  {
  }

  lemma ShiftFinishes(s: Sender, g: Sender, n: nat, sn: u32)
    requires SendWindow.Valid(s) && InputLaws.Shifted(s, g, n) && Marked(s, sn)
    ensures Finished(g, sn)
  {
    OffsetBehind(sn, s.una, n);
    var i := Offset(sn, s.una);
    if i >= n {
      assert s.buf[n + (i - n)].acked;
    }
  }

  // ----- a flush -----

  lemma OutgoingPlace(k: Kcp, now: u32, w: WireSegment)
    requires Inv(k) && w in Retransmit.Outgoing(Admitted(k).buf, PassOf(k, now))
    ensures Offset(w.sn, k.snd.una) < |Admitted(k).buf| <= SendWindow.LIMIT
    ensures !Admitted(k).buf[Offset(w.sn, k.snd.una)].acked
  {
    AdmittedSized(k);
    var i := OutgoingEntry(k, now, w);
    OffsetIs(k.snd.una + i, k.snd.una);
    WrapId(k.snd.una);
  }

  lemma OutgoingSilent(k: Kcp, now: u32, sn: u32)
    requires Inv(k) && Finished(k.snd, sn)
    ensures Silent(Retransmit.Outgoing(Admitted(k).buf, PassOf(k, now)), sn)
  {
    forall w | w in Retransmit.Outgoing(Admitted(k).buf, PassOf(k, now)) ensures w.sn != sn {
      OutgoingPlace(k, now, w);
      if Marked(k.snd, sn) {
        assert Admitted(k).buf[Offset(sn, k.snd.una)] == k.snd.buf[Offset(sn, k.snd.una)];
      }
    }
  }

  lemma ControlSilent(k: Kcp, now: u32, ackOnly: bool, sn: u32, w: WireSegment)
    requires w in FlushWires(k, ackOnly, now) && w.cmd == CMD_PUSH
    ensures !ackOnly && w in Retransmit.Outgoing(Admitted(k).buf, PassOf(k, now))
  {
  }

  lemma FlushSilent(k: Kcp, ackOnly: bool, now: u32, sn: u32)
    requires Inv(k) && Finished(k.snd, sn)
    ensures Silent(Emitted(Flush(k, ackOnly, now).out), sn)
  {
    FlushEmits(k, ackOnly, now);
    forall w | w in FlushWires(k, ackOnly, now) && w.cmd == CMD_PUSH ensures w.sn != sn {
      ControlSilent(k, now, ackOnly, sn, w);
      OutgoingSilent(k, now, sn);
    }
  }

  /** A flush leaves `SndUna` and every acknowledged entry where they are. */
  lemma FlushKeeps(k: Kcp, ackOnly: bool, now: u32, i: nat)
    requires Inv(k)
    ensures var s := Flush(k, ackOnly, now).k.snd;
      && s.una == k.snd.una && |k.snd.buf| <= |s.buf|
      && (i < |k.snd.buf| && k.snd.buf[i].acked ==> s.buf[i].acked)
  {
    if !ackOnly && i < |k.snd.buf| {
      Retransmit.TouchKeeps(k.snd.buf[i], PassOf(k, now));
      assert Admitted(k).buf[i] == k.snd.buf[i];
    }
  }

  lemma FlushFinished(k: Kcp, ackOnly: bool, now: u32, sn: u32)
    requires Inv(k) && Finished(k.snd, sn)
    ensures Finished(Flush(k, ackOnly, now).k.snd, sn)
  {
    FlushKeeps(k, ackOnly, now, Offset(sn, k.snd.una));
  }

  // ----- the other calls -----

  lemma SettledFinished(s: Sender, f: Feed, n: nat, w: WireSegment, regular: bool, sn: u32)
    requires SendWindow.Valid(s) && InputLaws.Shifted(s, f.k.snd, n) && Marked(s, sn)
    ensures Finished(Settle(f, w, regular).k.snd, sn)
  {
    var c := SendWindow.Covered(f.k.snd, w.una);
    InputLaws.SettleShifts(f, w, regular);
    InputLaws.ShiftedTwice(s, f.k.snd, Settle(f, w, regular).k.snd, n, c);
    ShiftFinishes(s, Settle(f, w, regular).k.snd, n + c, sn);
  }

  lemma ArrivedFinished(k: Kcp, data: seq<byte>, regular: bool, sn: u32)
    requires Inv(k) && Marked(k.snd, sn)
    ensures var f := Arrived(k, data, regular);
      && Finished(f.k.snd, sn)
      && forall w :: Finished(Settle(f, w, regular).k.snd, sn)
  {
    var f := Arrived(k, data, regular);
    var n := InputLaws.LoopShifts(Feed(k, false, 0, false), Parse(data, k.cfg.conv).segs, regular);
    ShiftFinishes(k.snd, f.k.snd, n, sn);
    forall w ensures Finished(Settle(f, w, regular).k.snd, sn) {
      SettledFinished(k.snd, f, n, w, regular, sn);
    }
  }

  lemma RespondFinished(o: Kcp, slides: bool, ackNoDelay: bool, now: u32, sn: u32)
    requires Inv(o) && Finished(o.snd, sn)
    ensures var r := Respond(o, slides, ackNoDelay, now);
      Finished(r.k.snd, sn) && Silent(Emitted(r.out), sn)
  {
    FlushSilent(o, false, now, sn);
    FlushSilent(o, true, now, sn);
    FlushFinished(o, false, now, sn);
    FlushFinished(o, true, now, sn);
  }

  lemma InputFinished(k: Kcp, data: seq<byte>, regular: bool, ackNoDelay: bool, now: u32, sn: u32)
    requires Inv(k) && Marked(k.snd, sn)
    ensures var r := Input(k, data, regular, ackNoDelay, now);
      Finished(r.k.snd, sn) && Silent(Emitted(r.out), sn)
  {
    ArrivedFinished(k, data, regular, sn);
    OpenedInv(k, data, regular, now);
    var w := InputEnds(k, data, regular, ackNoDelay, now);
    if UsedUp(k, data) {
      var o, f := Opened(k, data, regular, now), Arrived(k, data, regular);
      RespondFinished(o, f.slides, ackNoDelay, now, sn);
    }
  }

  /** One call, whatever it is and whatever arrives, keeps a marked number finished and does not write it. */
  lemma CallFinished(k: Kcp, c: Call, sn: u32)
    requires Inv(k) && Marked(k.snd, sn)
    ensures Finished(Apply(k, c).snd, sn) && Silent(Wires(k, c), sn)
  {
    match c
    case SendCall(data) =>
    case RecvCall(capacity) =>
    case InputCall(datagram, regular, ackNoDelay, at) => InputFinished(k, datagram, regular, ackNoDelay, at, sn);
    case FlushCall(ackOnly, at) =>
      FlushSilent(k, ackOnly, at, sn);
      FlushFinished(k, ackOnly, at, sn);
    case UpdateCall(at) =>
      var ticked := k.(updated := true, tsFlush := NextFlushTime(k, at));
      KcpInvariant.SameQueues(k, ticked);
      FlushSilent(ticked, false, at, sn);
      FlushFinished(ticked, false, at, sn);
  }

  // ----- every run -----

  lemma InBuffer(s: Sender, sn: u32)
    requires SendWindow.Valid(s) && Held(s, sn) && Finished(s, sn)
    ensures Marked(s, sn)
  {
  }

  /**
   In every run, from the moment a number is acknowledged and for as long as it
   stays in the send buffer, it stays acknowledged, and no call writes it.
   */
  lemma {:induction false} AckedStays(states: seq<Kcp>, calls: seq<Call>, i: nat, j: nat, sn: u32)
    requires IsRun(states, calls) && i <= j < |states| && Inv(states[0])
    requires Marked(states[i].snd, sn)
    requires forall m :: i <= m <= j ==> Held(states[m].snd, sn)
    ensures Marked(states[j].snd, sn)
    ensures j < |calls| ==> Silent(Wires(states[j], calls[j]), sn)
  {
    for m := 0 to i
      invariant Inv(states[m])
    {
      ApplyInv(states[m], calls[m]);
    }
    for m := i to j
      invariant Inv(states[m]) && Marked(states[m].snd, sn)
    {
      ApplyInv(states[m], calls[m]);
      CallFinished(states[m], calls[m], sn);
      assert Held(states[m + 1].snd, sn);
      InBuffer(states[m + 1].snd, sn);
    }
    if j < |calls| {
      CallFinished(states[j], calls[j], sn);
    }
  }
}
