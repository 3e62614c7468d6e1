/**
 The other steps of a link (see Delivery): acknowledgements reaching the
 sender, new data, filling the window, reading, and what a flush puts on the
 wire (network/kcp/kcp.go:233-357, 394-456, 718-818).
 */
module DeliverySteps {
  import opened Serial
  import opened Wire
  import opened Segments
  import opened Delivery
  import SendWindow
  import ReceiveWindow
  import Fragmentation
  import Retransmit

  // ----- growth of one side keeps the other -----

  lemma ReceiverLoggedGrows(s: SendSide, t: SendSide, r: ReceiveSide)
    requires ReceiverLogged(s, r) && SenderGrows(s, t) && Sent(t) <= |t.log|
    ensures ReceiverLogged(t, r)
  {
  }

  lemma ReceiverChanges(s: SendSide, r: ReceiveSide, t: ReceiveSide)
    requires Link(s, r) && ReceiverLogged(s, t) && ReceiverGrows(r, t)
    requires t.flushed == r.flushed && t.acks == r.acks
    ensures Link(s, t)
  {
    NothingLostGrows(s, r, t);
    forall a | a in t.acks ensures exists m :: AckFor(t, a, m) {
      var m :| AckFor(r, a, m);
      assert AckFor(t, a, m);
    }
  }

  // ----- acknowledgements reach the sender -----

  /** The sender after the cumulative acknowledgement `una`. */
  function Advanced(s: SendSide, una: u32): SendSide {
    s.(snd := SendWindow.AdvanceUna(s.snd, una), una := s.una + SendWindow.Covered(s.snd, una))
  }

  lemma CoveredExact(s: SendSide, u: nat)
    requires s.snd.una == Wrap(s.una) && u <= Sent(s) && s.una - u <= AGE && |s.snd.buf| <= SendWindow.LIMIT
    ensures s.una + SendWindow.Covered(s.snd, Wrap(u)) == Max(s.una, u)
  {
    UnaExact(s.una, u);
  }

  lemma AdvancedLogged(s: SendSide, una: u32)
    requires SenderLogged(s)
    ensures SenderLogged(Advanced(s, una)) && Sent(Advanced(s, una)) == Sent(s)
    ensures SenderGrows(s, Advanced(s, una))
  {
    SendWindow.AdvanceUnaValid(s.snd, una);
    WrapPlus(s.una, SendWindow.Covered(s.snd, una));
  }

  /** A cumulative acknowledgement drops only what the receiver had made readable by its last flush. */
  lemma UnaArrives(s: SendSide, r: ReceiveSide, u: nat)
    requires Link(s, r) && u <= r.flushed && s.una - u <= AGE
    ensures Link(Advanced(s, Wrap(u)), r) && SenderGrows(s, Advanced(s, Wrap(u)))
    ensures Advanced(s, Wrap(u)).una == Max(s.una, u)
  {
    var t := Advanced(s, Wrap(u));
    LinkDistances(s, r);
    CoveredExact(s, u);
    AdvancedLogged(s, Wrap(u));
    ReceiverLoggedGrows(s, t, r);
    var n := SendWindow.Covered(s.snd, Wrap(u));
    forall i | 0 <= i < |t.snd.buf| && t.snd.buf[i].acked ensures Has(r, t.una + i) {
      assert t.snd.buf[i] == s.snd.buf[n + i];
      assert Has(r, s.una + (n + i));
    }
  }

  /** The sender after the selective acknowledgement of `sn`. */
  function Marked(s: SendSide, sn: u32, ts: u32): SendSide {
    s.(snd := SendWindow.ParseFastack(SendWindow.ParseAck(s.snd, sn), sn, ts))
  }

  lemma MarkedEntries(s: SendSide, sn: u32, ts: u32, i: nat)
    requires i < |s.snd.buf|
    ensures var t := Marked(s, sn, ts);
      && |t.snd.buf| == |s.snd.buf| && t.snd.queue == s.snd.queue && t.snd.una == s.snd.una && t.snd.nxt == s.snd.nxt
      && t.snd.buf[i].acked == (s.snd.buf[i].acked || i == Offset(sn, s.snd.una))
      && (!t.snd.buf[i].acked ==> FragmentOf(t.snd.buf[i]) == FragmentOf(s.snd.buf[i]))
  {
  }

  lemma MarkedShape(s: SendSide, sn: u32, ts: u32)
    ensures var t := Marked(s, sn, ts);
      |t.snd.buf| == |s.snd.buf| && t.snd.queue == s.snd.queue && t.snd.una == s.snd.una && t.snd.nxt == s.snd.nxt
  {
  }

  lemma MarkedLogged(s: SendSide, sn: u32, ts: u32)
    requires SenderLogged(s)
    ensures SenderLogged(Marked(s, sn, ts)) && SenderGrows(s, Marked(s, sn, ts))
  {
    SendWindow.ParseAckValid(s.snd, sn);
    SendWindow.ParseFastackValid(SendWindow.ParseAck(s.snd, sn), sn, ts);
    MarkedShape(s, sn, ts);
    var t := Marked(s, sn, ts);
    forall i | 0 <= i < |t.snd.buf| && !t.snd.buf[i].acked ensures FragmentOf(t.snd.buf[i]) == t.log[t.una + i] {
      MarkedEntries(s, sn, ts, i);
    }
  }

  lemma HasSent(s: SendSide, r: ReceiveSide, m: int)
    requires ReceiverLogged(s, r) && Has(r, m)
    ensures m < Sent(s)
  {
  }

  /** A selective acknowledgement marks only a segment the receiver has. */
  lemma AckArrives(s: SendSide, r: ReceiveSide, nxt: nat, w: WireSegment)
    requires Link(s, r) && w.cmd == CMD_ACK && AckSound(r, nxt, w) && s.una - nxt <= AGE
    ensures Link(Marked(s, w.sn, w.ts), r) && SenderGrows(s, Marked(s, w.sn, w.ts))
  {
    var m :| AckedBy(r, nxt, w, m);
    var t := Marked(s, w.sn, w.ts);
    MarkedLogged(s, w.sn, w.ts);
    ReceiverLoggedGrows(s, t, r);
    LinkDistances(s, r);
    HasSent(s, r, m);
    AckExact(s.una, m);
    forall i | 0 <= i < |t.snd.buf| && t.snd.buf[i].acked ensures Has(r, t.una + i) {
      MarkedShape(s, w.sn, w.ts);
      MarkedEntries(s, w.sn, w.ts, i);
      if i == Offset(w.sn, s.snd.una) {
        assert m == s.una + i;
      }
    }
  }

  // ----- steps of the sender alone -----

  lemma SenderChanges(s: SendSide, t: SendSide, r: ReceiveSide)
    requires Link(s, r) && SenderLogged(t) && SenderGrows(s, t) && t.una == s.una
    requires forall i :: 0 <= i < |t.snd.buf| && t.snd.buf[i].acked ==> i < |s.snd.buf| && s.snd.buf[i].acked
    ensures Link(t, r)
  {
  }

  /** An accepted message-mode `Send` extends the log by the message's fragments. */
  function Extended(s: SendSide, data: seq<byte>, mss: u32): SendSide
    requires mss > 0
  {
    s.(snd := s.snd.(queue := s.snd.queue + Fragmentation.Queued(Fragmentation.Fragments(data, mss, false))),
       log := s.log + Fragmentation.Fragments(data, mss, false))
  }

  lemma SendKeepsLink(s: SendSide, r: ReceiveSide, data: seq<byte>, mss: u32)
    requires Link(s, r) && mss > 0
    ensures Link(Extended(s, data, mss), r) && SenderGrows(s, Extended(s, data, mss))
  {
    var t := Extended(s, data, mss);
    var fs := Fragmentation.Fragments(data, mss, false);
    forall e | e in t.snd.queue ensures SendWindow.Unsent(e) {
      var i :| 0 <= i < |t.snd.queue| && t.snd.queue[i] == e;
      if i < |s.snd.queue| {
        assert s.snd.queue[i] in s.snd.queue;
      }
    }
    SenderChanges(s, t, r);
  }

  /** The sender after the admission loop. */
  function Topped(s: SendSide, cwnd: u32, conv: u32): SendSide {
    s.(snd := SendWindow.Admit(s.snd, cwnd, conv))
  }

  lemma ToppedEntries(s: SendSide, cwnd: u32, conv: u32, i: nat)
    requires SenderLogged(s) && i < |Topped(s, cwnd, conv).snd.buf|
    ensures var e := Topped(s, cwnd, conv).snd.buf[i];
      && (!e.acked ==> FragmentOf(e) == s.log[s.una + i])
      && (e.acked ==> i < |s.snd.buf| && s.snd.buf[i].acked)
  {
    if i >= |s.snd.buf| {
      var j := i - |s.snd.buf|;
      assert s.snd.queue[j] in s.snd.queue;
      assert FragmentOf(s.snd.queue[j]) == s.log[Sent(s) + j];
    }
  }

  lemma ToppedLogged(s: SendSide, cwnd: u32, conv: u32)
    requires SenderLogged(s) && cwnd <= SendWindow.LIMIT
    ensures SenderLogged(Topped(s, cwnd, conv)) && SenderGrows(s, Topped(s, cwnd, conv))
  {
    var t := Topped(s, cwnd, conv);
    var n := SendWindow.Room(s.snd, cwnd);
    SendWindow.AdmitValid(s.snd, cwnd, conv);
    assert Sent(t) == Sent(s) + n;
    forall i | 0 <= i < |t.snd.buf| && !t.snd.buf[i].acked ensures FragmentOf(t.snd.buf[i]) == t.log[t.una + i] {
      ToppedEntries(s, cwnd, conv, i);
    }
    forall i | 0 <= i < |t.snd.queue| ensures FragmentOf(t.snd.queue[i]) == t.log[Sent(t) + i] {
      assert t.snd.queue[i] == s.snd.queue[n + i];
      assert FragmentOf(s.snd.queue[n + i]) == s.log[Sent(s) + (n + i)];
    }
  }

  lemma FillKeepsLink(s: SendSide, r: ReceiveSide, cwnd: u32, conv: u32)
    requires Link(s, r) && cwnd <= SendWindow.LIMIT
    ensures Link(Topped(s, cwnd, conv), r) && SenderGrows(s, Topped(s, cwnd, conv))
  {
    ToppedLogged(s, cwnd, conv);
    var t := Topped(s, cwnd, conv);
    forall i | 0 <= i < |t.snd.buf| && t.snd.buf[i].acked ensures i < |s.snd.buf| && s.snd.buf[i].acked {
      ToppedEntries(s, cwnd, conv, i);
    }
    SenderChanges(s, t, r);
  }

  /** The sender after a pass over the send buffer. */
  function Passed(s: SendSide, p: Retransmit.Pass): SendSide {
    s.(snd := s.snd.(buf := Retransmit.Touched(s.snd.buf, p)))
  }

  lemma PassKeepsLink(s: SendSide, r: ReceiveSide, p: Retransmit.Pass)
    requires Link(s, r)
    ensures Link(Passed(s, p), r) && SenderGrows(s, Passed(s, p))
  {
    var t := Passed(s, p);
    Retransmit.TouchedValid(s.snd, p);
    forall i | 0 <= i < |t.snd.buf| ensures t.snd.buf[i].acked == s.snd.buf[i].acked
                                    ensures FragmentOf(t.snd.buf[i]) == FragmentOf(s.snd.buf[i]) {
      Retransmit.TouchKeeps(s.snd.buf[i], p);
    }
    SenderChanges(s, t, r);
  }

  // ----- steps of the receiver alone -----

  /** The receiver after `n` segments have been read off its queue. */
  function Popped(r: ReceiveSide, n: nat): ReceiveSide
    requires n <= |r.rcv.queue|
  {
    MovedTo(r, ReceiveWindow.Drain(r.rcv.(queue := r.rcv.queue[n..])), |r.rcv.queue| - n)
  }

  lemma SameNumbers(s: SendSide, r: ReceiveSide, q: ReceiveSide)
    requires StoredLogged(s, r) && q.rcv.buf == r.rcv.buf && q.rcv.nxt == r.rcv.nxt && q.nxt == r.nxt
    ensures StoredLogged(s, q) && forall m :: Has(r, m) ==> Has(q, m)
  {
  }

  /** Reading frees room, and what becomes readable is the next stretch of the log. */
  lemma RecvKeepsLink(s: SendSide, r: ReceiveSide, n: nat)
    requires Link(s, r) && n <= |r.rcv.queue|
    ensures Link(s, Popped(r, n)) && ReceiverGrows(r, Popped(r, n))
    ensures Popped(r, n).flushed == r.flushed
  {
    var rcv := r.rcv.(queue := r.rcv.queue[n..]);
    var q := r.(rcv := rcv);
    SameNumbers(s, r, q);
    DrainLogged(s, r, rcv);
    ReceiverChanges(s, r, Popped(r, n));
  }

  /** The receiver after a flush: its list is on the wire, and so is its `RcvNxt`. */
  function Reported(r: ReceiveSide): ReceiveSide {
    r.(acks := [], flushed := r.nxt)
  }

  lemma ReportKeepsLink(s: SendSide, r: ReceiveSide)
    requires Link(s, r)
    ensures Link(s, Reported(r)) && ReceiverGrows(r, Reported(r))
  {
  }

  // ----- what goes on the wire -----

  /** Every acknowledgement a flush emits is of a segment that has arrived, and recent enough. */
  lemma AckEmitted(s: SendSide, r: ReceiveSide, w: WireSegment)
    requires Link(s, r) && w.una == r.rcv.nxt
    requires w.cmd == CMD_ACK ==> exists a :: a in r.acks && a.sn == w.sn
    ensures AckSound(Reported(r), r.nxt, w)
  {
    var q := Reported(r);
    SameBuffersLogged(s, r, q);
    LinkDistances(s, r);
    if w.cmd == CMD_ACK {
      var a :| a in r.acks && a.sn == w.sn;
      var m :| AckFor(r, a, m);
      assert AckedBy(q, r.nxt, w, m);
    }
  }

  /** Every data segment a flush emits is the logged fragment of its number. */
  lemma PushEmitted(s: SendSide, i: nat, w: WireSegment)
    requires SenderLogged(s) && i < |s.snd.buf| && !s.snd.buf[i].acked
    requires w.sn == s.snd.buf[i].sn && Fragment(w.frg, w.data) == FragmentOf(s.snd.buf[i])
    ensures PushSound(s, s.una, w)
  {
    WrapPlus(s.una, i);
    assert PushFor(s, s.una, w, s.una + i);
  }
}
