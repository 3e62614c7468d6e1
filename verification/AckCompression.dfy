/**
 `flush` drops acknowledgements of numbers already covered by the cumulative
 one, except the last of its list (network/kcp/kcp.go:721-738). The sender
 learns exactly as much as from the whole list (network/kcp/kcp.go:403-456).
 */
module AckCompression {
  import opened Serial
  import opened Wire
  import opened Segments
  import opened SendWindow
  import KcpInvariant

  /** What one acknowledgement segment does to the sender. */
  function Take(s: Sender, una: u32, a: AckItem): Sender {
    ParseFastack(ParseAck(AdvanceUna(s, una), a.sn), a.sn, a.ts)
  }

  function TakeAll(s: Sender, una: u32, acks: seq<AckItem>): Sender
    decreases |acks|
  {
    if acks == [] then s else TakeAll(Take(s, una, acks[0]), una, acks[1..])
  }

  /** The numbers still to be acknowledged. */
  ghost function Outstanding(s: Sender): set<u32> {
    set i | 0 <= i < |s.buf| && !s.buf[i].acked :: s.buf[i].sn
  }

  lemma TakeValid(s: Sender, una: u32, a: AckItem)
    requires Valid(s)
    ensures Valid(Take(s, una, a))
  {
    AdvanceUnaValid(s, una);
    ParseAckValid(AdvanceUna(s, una), a.sn);
    ParseFastackValid(ParseAck(AdvanceUna(s, una), a.sn), a.sn, a.ts);
  }

  /** The cumulative part of a second acknowledgement does nothing more. */
  lemma AdvanceSettles(s: Sender, una: u32)
    requires Valid(s)
    ensures var t := AdvanceUna(s, una); Covered(t, una) == 0 && AdvanceUna(t, una) == t
  {
    var d := Diff(una, s.una);
    var n := Covered(s, una);
    var t := AdvanceUna(s, una);
    DiffSign(una, s.una);
    WrapId(s.una);
    WrapId(t.una);
    if n > 0 {
      DiffPlace(una, s.una, n);
    }
    assert t.buf[0..] == t.buf;
  }

  /** A dropped acknowledgement is old, but not so old that it wraps into the window. */
  ghost predicate Recent(a: AckItem, nxt: u32) {
    Diff(a.sn, nxt) >= -(HALF - LIMIT)
  }

  /** Going back from `base` to `mid` and from `mid` to `x` goes back the sum. */
  lemma DistancesAdd(x: u32, mid: u32, base: u32)
    requires Diff(mid, base) <= 0 && -(HALF - LIMIT) <= Diff(x, mid) < 0
    ensures Offset(x, base) >= LIMIT
  {
  }

  /** After the cumulative part, an old number lies outside the window. */
  lemma OldOutside(s: Sender, una: u32, a: AckItem)
    requires Valid(s) && Diff(a.sn, una) < 0 && Recent(a, una)
    ensures var t := AdvanceUna(s, una); Offset(a.sn, t.una) >= |t.buf|
  {
    var t := AdvanceUna(s, una);
    if t.buf != [] {
      DiffSign(una, s.una);
      DiffSign(a.sn, una);
      if Diff(una, s.una) > 0 {
        DiffFrom(una, s.una, 0);
        assert t.una == una;
      } else {
        WrapId(s.una);
        DistancesAdd(a.sn, una, s.una);
      }
    }
  }

  /** A dropped acknowledgement would only have repeated the cumulative one. */
  lemma OldTakesNothing(s: Sender, una: u32, a: AckItem)
    requires Valid(s) && Diff(a.sn, una) < 0 && Recent(a, una)
    ensures Take(s, una, a) == AdvanceUna(s, una)
  {
    OldOutside(s, una, a);
  }

  /** A cumulative acknowledgement taken earlier makes no difference to a later one. */
  lemma {:induction false} AdvanceAbsorbed(s: Sender, una: u32, acks: seq<AckItem>)
    requires Valid(s) && acks != []
    ensures TakeAll(AdvanceUna(s, una), una, acks) == TakeAll(s, una, acks)
  {
    AdvanceSettles(s, una);
  }

  lemma {:induction false} FilteredNonEmpty(acks: seq<AckItem>, una: u32)
    requires acks != []
    ensures KcpInvariant.Filtered(acks, una) != []
  {
    if |acks| > 1 {
      FilteredNonEmpty(acks[1..], una);
    }
  }

  /**
   The filtered acknowledgements of one flush leave the sender in the same
   state, and so with the same unacknowledged segments, as the whole list.
   */
  lemma {:induction false} FilterLosesNothing(s: Sender, una: u32, acks: seq<AckItem>)
    requires Valid(s)
    requires forall a :: a in acks ==> Recent(a, una)
    ensures TakeAll(s, una, KcpInvariant.Filtered(acks, una)) == TakeAll(s, una, acks)
    ensures Outstanding(TakeAll(s, una, KcpInvariant.Filtered(acks, una))) == Outstanding(TakeAll(s, una, acks))
    decreases |acks|
  {
    if acks != [] {
      var a, rest := acks[0], acks[1..];
      var kept := KcpInvariant.Filtered(rest, una);
      assert a in acks && forall b :: b in rest ==> b in acks;
      TakeValid(s, una, a);
      FilterLosesNothing(Take(s, una, a), una, rest);
      if Diff(a.sn, una) >= 0 || |acks| == 1 {
        assert ([a] + kept)[1..] == kept;
      } else {
        OldTakesNothing(s, una, a);
        FilteredNonEmpty(rest, una);
        AdvanceAbsorbed(s, una, kept);
      }
    }
  }

  // ----- the age limit is exact -----

  function InFlight(base: u32, n: nat): (buf: seq<Segment>)
    ensures |buf| == n
    ensures forall i :: 0 <= i < n ==> buf[i].sn == Wrap(base + i) && !buf[i].acked
    ensures forall e :: e in buf ==> Sent(e) && e.fastack == 0
  {
    if n == 0 then []
    else InFlight(base, n - 1) + [Fresh(0, [1]).(cmd := CMD_PUSH, sn := Wrap(base + (n - 1)))]
  }

  /** A sender half a circle ahead of `una`, with `n` segments in flight. */
  function Ahead(una: u32, n: nat): Sender {
    var base := Wrap(una + HALF);
    Sender(base, Wrap(base + n), [], InFlight(base, n))
  }

  lemma AheadValid(una: u32, n: nat)
    requires n <= LIMIT
    ensures Valid(Ahead(una, n))
  {
  }

  /** To a sender exactly half a circle ahead `una` looks old. */
  lemma AheadStays(una: u32, n: nat)
    ensures AdvanceUna(Ahead(una, n), una) == Ahead(una, n)
  {
    var s := Ahead(una, n);
    OffsetWrap(una, una + HALF);
    WrapId(una);
    WrapId(s.una);
    assert s.buf[0..] == s.buf;
  }

  lemma StalePlace(una: u32, sn: u32, y: int)
    requires Diff(sn, una) == -y && 0 < y <= HALF
    ensures Offset(sn, Wrap(una + HALF)) == HALF - y
  {
    DiffSign(sn, una);
    DiffFrom(sn, una, 0);
    assert sn == Wrap(una + (FULL - y));
    OffsetIs(una + (FULL - y), una + HALF);
  }

  /** Any older acknowledgement marks an entry of some sender. */
  lemma StaleMarks(una: u32, a: AckItem) returns (s: Sender)
    requires Diff(a.sn, una) < 0 && !Recent(a, una)
    ensures Valid(s) && Take(s, una, a) != AdvanceUna(s, una)
  {
    var y: int := -(Diff(a.sn, una) as int);
    var place := HALF - y;
    s := Ahead(una, place + 1);
    AheadValid(una, place + 1);
    AheadStays(una, place + 1);
    StalePlace(una, a.sn, y);
    assert ParseAck(s, a.sn).buf[place].acked && !s.buf[place].acked;
  }

  /** Dropping an old acknowledgement is harmless to every sender exactly when it is recent. */
  lemma DroppingIsHarmless(una: u32, a: AckItem)
    requires Diff(a.sn, una) < 0
    ensures Recent(a, una) <==> forall s :: Valid(s) ==> Take(s, una, a) == AdvanceUna(s, una)
  {
    if Recent(a, una) {
      forall s | Valid(s) ensures Take(s, una, a) == AdvanceUna(s, una) {
        OldTakesNothing(s, una, a);
      }
    } else {
      var s := StaleMarks(una, a);
    }
  }

  /**
   The age limit is needed: an acknowledgement half a circle behind a cumulative
   one that is itself half a circle behind the sender marks the oldest entry,
   and the filter drops it.
   */
  lemma TooOldIsLost()
    ensures exists s: Sender, acks: seq<AckItem> ::
      Valid(s) && Outstanding(TakeAll(s, 0x8000_0000, KcpInvariant.Filtered(acks, 0x8000_0000)))
                  != Outstanding(TakeAll(s, 0x8000_0000, acks))
  {
    var e := Fresh(0, [1]).(cmd := CMD_PUSH);
    var s := Sender(0, 1, [], [e]);
    var una: u32 := 0x8000_0000;
    var stale, other := AckItem(0, 0), AckItem(una, 0);
    var acks := [stale, other];
    assert Consecutive(0, 1, [e]);
    assert Valid(s);
    assert acks[1..] == [other];
    assert KcpInvariant.Filtered([other], una) == [other] + KcpInvariant.Filtered([], una);
    assert KcpInvariant.Filtered(acks, una) == [other];
    assert Covered(s, una) == 0 && AdvanceUna(s, una) == s;
    var t := Take(s, una, stale);
    assert t.buf == [Acked(e)];
    assert AdvanceUna(t, una) == t;
    assert Take(s, una, other) == s && Take(t, una, other) == t;
    assert [other][1..] == [];
    assert TakeAll(s, una, [other]) == s;
    assert TakeAll(s, una, acks) == TakeAll(t, una, [other]) == t;
    assert 0 in Outstanding(s) by {
      assert !s.buf[0].acked && s.buf[0].sn == 0;
    }
    assert 0 !in Outstanding(t);
  }
}
