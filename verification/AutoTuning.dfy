/**
 How the decoder guesses the group sizes of its peer (network/kcp/aototune.go):
 a table of the packet types seen under the last numbers, and a search for the
 length of a run of one type in it. A guess is the sender's size, except that
 the table's initial value passes for packet 0: when that one was lost and the
 next was heard, the run of data is found one too short (PeriodsAre).
 */
module AutoTuning {
  import opened Arithmetic
  import opened Serial
  import opened Wire

  const SAMPLES: nat := 258

  /** The type seen under a number: `bit` is set for a data packet. */
  datatype Pulse = Pulse(bit: bool, id: u32)

  const UNHEARD: Pulse := Pulse(false, 0)
  type Pulses = ps: seq<Pulse> | |ps| == SAMPLES witness seq(SAMPLES, _ => UNHEARD)

  /** The table of a new decoder. */
  function Silent(): Pulses {
    seq(SAMPLES, _ => UNHEARD)
  }

  function Sampled(ps: Pulses, bit: bool, id: u32): Pulses {
    ps[id % SAMPLES := Pulse(bit, id)]
  }

  /** Entry `i` has the number after the one before it. */
  predicate Follows(ps: Pulses, i: nat)
    requires 0 < i < SAMPLES
  {
    Wrap(ps[i - 1].id + 1) == ps[i].id
  }

  /** A run of `bit` begins at entry `i`. */
  predicate Edge(ps: Pulses, bit: bool, i: nat)
    requires 0 < i < SAMPLES
  {
    ps[i - 1].bit != bit && ps[i].bit == bit && Follows(ps, i)
  }

  /** The first edge from entry `i` on, or 0. */
  function LeftEdge(ps: Pulses, bit: bool, i: nat): (left: nat)
    requires 0 < i <= SAMPLES
    ensures left < SAMPLES
    decreases SAMPLES - i
  {
    if i == SAMPLES then 0 else if Edge(ps, bit, i) then i else LeftEdge(ps, bit, i + 1)
  }

  /** Where a run of `bit` ends from entry `i` on, or 0; nothing when a number is missing before. */
  function RightEdge(ps: Pulses, bit: bool, i: nat): Option<nat>
    requires 0 < i <= SAMPLES
    decreases SAMPLES - i
  {
    if i == SAMPLES then Some(0)
    else if !Follows(ps, i) then None
    else if Edge(ps, !bit, i) then Some(i)
    else RightEdge(ps, bit, i + 1)
  }

  function Period(ps: Pulses, bit: bool): int {
    var left := LeftEdge(ps, bit, 1);
    match RightEdge(ps, bit, left + 1)
    case None => -1
    case Some(right) => right - left
  }

  class AutoTune {
    const pulses: array<Pulse>

    ghost predicate Valid() {
      pulses.Length == SAMPLES
    }

    constructor ()
      ensures Valid() && fresh(pulses) && pulses[..] == Silent()
    {
      pulses := new Pulse[SAMPLES](_ => UNHEARD);
    }

    method Sample(bit: bool, id: u32)
      requires Valid()
      modifies pulses
      ensures pulses[..] == Sampled(old(pulses[..]), bit, id)
    {
      pulses[id % SAMPLES] := Pulse(bit, id);
    }

    method FindPeriod(bit: bool) returns (period: int)
      requires Valid()
      ensures period == Period(pulses[..], bit)
    {
      ghost var ps := pulses[..];
      var lastPulse, idx, leftEdge := pulses[0], 1, 0;
      while idx < pulses.Length
        invariant 1 <= idx <= SAMPLES && leftEdge == 0 && lastPulse == pulses[idx - 1]
        invariant LeftEdge(ps, bit, 1) == LeftEdge(ps, bit, idx)
      {
        if lastPulse.bit != bit && pulses[idx].bit == bit {
          if Wrap(lastPulse.id + 1) == pulses[idx].id {
            leftEdge := idx;
            break;
          }
        }
        lastPulse := pulses[idx];
        idx := idx + 1;
      }
      var rightEdge := 0;
      lastPulse, idx := pulses[leftEdge], leftEdge + 1;
      while idx < pulses.Length
        invariant leftEdge < idx <= SAMPLES && rightEdge == 0 && lastPulse == pulses[idx - 1]
        invariant RightEdge(ps, bit, leftEdge + 1) == RightEdge(ps, bit, idx)
      {
        if Wrap(lastPulse.id + 1) == pulses[idx].id {
          if lastPulse.bit == bit && pulses[idx].bit != bit {
            rightEdge := idx;
            break;
          }
        } else {
          return -1;
        }
        lastPulse := pulses[idx];
        idx := idx + 1;
      }
      return rightEdge - leftEdge;
    }
  }

  // ----- what a period is -----

  /** `n` entries of `bit` under consecutive numbers from entry `l` on, and no more. */
  ghost predicate Run(ps: Pulses, bit: bool, l: nat, n: nat) {
    && 0 < n && l + n < SAMPLES
    && (forall i :: l <= i < l + n ==> ps[i].bit == bit) && ps[l + n].bit != bit
    && forall i :: l < i <= l + n ==> Follows(ps, i)
  }

  /** Where the search begins: at the first edge, or at entry 0 when there is none. */
  ghost predicate Starts(ps: Pulses, bit: bool, l: nat) {
    && (forall i :: 0 < i < (if l == 0 then SAMPLES else Min(l, SAMPLES)) ==> !Edge(ps, bit, i))
    && (l != 0 ==> l < SAMPLES && Edge(ps, bit, l))
  }

  lemma {:induction false} LeftEdgeFrom(ps: Pulses, bit: bool, i: nat)
    requires 0 < i <= SAMPLES && forall j :: 0 < j < i ==> !Edge(ps, bit, j)
    ensures Starts(ps, bit, LeftEdge(ps, bit, i))
    decreases SAMPLES - i
  {
    if i < SAMPLES && !Edge(ps, bit, i) {
      LeftEdgeFrom(ps, bit, i + 1);
    }
  }

  lemma {:induction false} RightEdgeOfRun(ps: Pulses, bit: bool, l: nat, n: nat, i: nat)
    requires l < i <= SAMPLES && n > 0
    requires (forall j :: l <= j < i ==> ps[j].bit == bit) && forall j :: l < j < i ==> Follows(ps, j)
    ensures RightEdge(ps, bit, i) == Some(l + n) <==> Run(ps, bit, l, n)
    decreases SAMPLES - i
  {
    if i < SAMPLES && Follows(ps, i) && !Edge(ps, !bit, i) {
      RightEdgeOfRun(ps, bit, l, n, i + 1);
    }
  }

  lemma {:induction false} NoRightEdge(ps: Pulses, bit: bool, i: nat)
    requires 0 < i <= SAMPLES && Starts(ps, bit, 0) && ps[i - 1].bit != bit
    ensures RightEdge(ps, bit, i) == None || RightEdge(ps, bit, i) == Some(0)
    decreases SAMPLES - i
  {
    if i < SAMPLES && Follows(ps, i) {
      assert !Edge(ps, bit, i);
      NoRightEdge(ps, bit, i + 1);
    }
  }

  /** A positive period is the length of the run at the first edge; other than that there is none. */
  lemma PeriodIsRun(ps: Pulses, bit: bool, l: nat, n: nat)
    requires Starts(ps, bit, l) && n > 0
    ensures Period(ps, bit) == n <==> Run(ps, bit, l, n)
  {
    LeftEdgeFrom(ps, bit, 1);
    var left := LeftEdge(ps, bit, 1);
    assert left == l;
    if ps[l].bit == bit {
      RightEdgeOfRun(ps, bit, l, n, l + 1);
    } else {
      NoRightEdge(ps, bit, 1);
    }
  }

  // ----- the pulses of a sender -----

  /** Entry `i` is what a sender of `ds` data packets in groups of `ss` says under its number. */
  predicate Told(ps: Pulses, ds: nat, ss: nat, i: nat)
    requires i < SAMPLES && ss > 0
  {
    ps[i].id % SAMPLES == i && ps[i].id < 0xffff_ffff && (ps[i].bit <==> ps[i].id % ss < ds)
  }

  /** Whatever was heard came from that sender. */
  ghost predicate Truthful(ps: Pulses, ds: nat, ss: nat)
    requires ss > 0
  {
    forall i :: 0 <= i < SAMPLES && ps[i] != UNHEARD ==> Told(ps, ds, ss, i)
  }

  /** Packet 0 was not heard, and packet 1 was, with data. */
  predicate Misled(ps: Pulses) {
    ps[0] == UNHEARD && ps[1] == Pulse(true, 1)
  }

  lemma SampledTruthful(ps: Pulses, ds: nat, ss: nat, id: u32)
    requires ss > 0 && Truthful(ps, ds, ss) && id < 0xffff_ffff
    ensures Truthful(Sampled(ps, id % ss < ds, id), ds, ss)
  {
    var next := Sampled(ps, id % ss < ds, id);
    forall i | 0 <= i < SAMPLES && next[i] != UNHEARD ensures Told(next, ds, ss, i) {
      if i != id % SAMPLES {
        assert next[i] == ps[i] && Told(ps, ds, ss, i);
      }
    }
  }

  lemma TellsOn(ps: Pulses, ds: nat, ss: nat, i: nat)
    requires 0 < i < SAMPLES && ss > 0 && Truthful(ps, ds, ss) && Told(ps, ds, ss, i - 1) && Follows(ps, i)
    ensures Told(ps, ds, ss, i) && ps[i].id == ps[i - 1].id + 1
  {
    WrapId(ps[i - 1].id + 1);
  }

  lemma {:induction false} RunTells(ps: Pulses, ds: nat, ss: nat, bit: bool, l: nat, n: nat, j: nat)
    requires ss > 0 && Truthful(ps, ds, ss) && Run(ps, bit, l, n) && Told(ps, ds, ss, l) && j <= n
    ensures Told(ps, ds, ss, l + j) && ps[l + j].id == ps[l].id + j
  {
    if j > 0 {
      RunTells(ps, ds, ss, bit, l, n, j - 1);
      TellsOn(ps, ds, ss, l + j);
    }
  }

  lemma PlaceAfter(id: nat, j: nat, ss: nat)
    requires ss > 0 && id % ss + j <= ss
    ensures (id + j) % ss == if id % ss + j == ss then 0 else id % ss + j
  {
    if id % ss + j == ss {
      assert id + j == (id / ss + 1) * ss;
      DivUnique(id + j, ss, id / ss + 1, 0);
    } else {
      DivUnique(id + j, ss, id / ss, id % ss + j);
    }
  }

  /** A run that begins at a sender's number lasts to the end of that part of the group. */
  lemma RunLength(ps: Pulses, ds: nat, ss: nat, bit: bool, l: nat, n: nat)
    requires 0 < ds < ss && Truthful(ps, ds, ss) && Run(ps, bit, l, n) && Told(ps, ds, ss, l)
    ensures ps[l].id % ss + n == if bit then ds else ss
  {
    var p, last := ps[l].id % ss, if bit then ds else ss;
    if p + n > last {
      RunTells(ps, ds, ss, bit, l, n, last - p);
      PlaceAfter(ps[l].id, last - p, ss);
    } else if p + n < last {
      RunTells(ps, ds, ss, bit, l, n, n);
      PlaceAfter(ps[l].id, n, ss);
    }
  }

  /** An edge is where a sender's data or parity part begins, or it is behind packet 0 that was not heard. */
  lemma EdgePlace(ps: Pulses, ds: nat, ss: nat, bit: bool, l: nat)
    requires 0 < ds < ss && Truthful(ps, ds, ss) && 0 < l < SAMPLES && Edge(ps, bit, l)
    ensures Told(ps, ds, ss, l)
    ensures if bit && l == 1 && Misled(ps) then ps[l].id == 1
            else ps[l].id % ss == if bit then 0 else ds
  {
    if ps[l - 1] == UNHEARD {
      WrapId(1);
      assert Told(ps, ds, ss, l);
    } else {
      TellsOn(ps, ds, ss, l);
      PlaceAfter(ps[l - 1].id, 1, ss);
    }
  }

  /** With both periods found, either search began at an edge. */
  lemma BothHaveEdges(ps: Pulses, bit: bool)
    requires Period(ps, bit) > 0 && Period(ps, !bit) > 0
    ensures var l := LeftEdge(ps, bit, 1); l > 0 && Edge(ps, bit, l) && Run(ps, bit, l, Period(ps, bit))
  {
    var l, other := LeftEdge(ps, bit, 1), LeftEdge(ps, !bit, 1);
    LeftEdgeFrom(ps, bit, 1);
    LeftEdgeFrom(ps, !bit, 1);
    PeriodIsRun(ps, bit, l, Period(ps, bit));
    PeriodIsRun(ps, !bit, other, Period(ps, !bit));
    assert Edge(ps, bit, other + Period(ps, !bit));
  }

  lemma MisledPlace(ds: nat, ss: nat)
    requires 0 < ds < ss && 1 % ss < ds
    ensures 1 % ss == 1 && ds > 1
  {
  }

  /**
   Whenever both searches succeed on what one sender said, they find its sizes:
   the parity run always, and the data run exactly unless packet 0 was not heard
   before packet 1, when it is one too short.
   */
  lemma PeriodsAre(ps: Pulses, ds: nat, ss: nat)
    requires 0 < ds < ss && Truthful(ps, ds, ss) && Period(ps, true) > 0 && Period(ps, false) > 0
    ensures Period(ps, false) == ss - ds
    ensures Period(ps, true) == if Misled(ps) then ds - 1 else ds
  {
    var l, m := LeftEdge(ps, true, 1), LeftEdge(ps, false, 1);
    BothHaveEdges(ps, true);
    BothHaveEdges(ps, false);
    EdgePlace(ps, ds, ss, true, l);
    EdgePlace(ps, ds, ss, false, m);
    RunLength(ps, ds, ss, true, l, Period(ps, true));
    RunLength(ps, ds, ss, false, m, Period(ps, false));
    if Misled(ps) {
      WrapId(1);
      assert Edge(ps, true, 1);
      MisledPlace(ds, ss);
    }
  }

  // ----- when they are found -----

  lemma PlaceWithin(first: nat, i: nat, ss: nat)
    requires ss > 0 && i < 2 * ss
    ensures var n := first % ss + i;
      (first + i) % ss == if n < ss then n else if n < 2 * ss then n - ss else n - 2 * ss
  {
    var q, n := first / ss, first % ss + i;
    if n < ss {
      DivUnique(first + i, ss, q, n);
    } else if n < 2 * ss {
      assert first + i == (q + 1) * ss + (n - ss);
      DivUnique(first + i, ss, q + 1, n - ss);
    } else {
      assert first + i == (q + 2) * ss + (n - 2 * ss);
      DivUnique(first + i, ss, q + 2, n - 2 * ss);
    }
  }

  /** The first two groups' worth of entries hold a sender's consecutive numbers from `first` on. */
  ghost predicate Heard(ps: Pulses, ds: nat, ss: nat, first: nat) {
    && 0 < ds < ss && 2 * ss <= SAMPLES && first + 2 * ss <= FULL
    && forall i :: 0 <= i < 2 * ss ==> ps[i] == Pulse((first + i) % ss < ds, first + i)
  }

  /** The same by places: the first entry is in place `r`. */
  ghost predicate Pattern(ps: Pulses, ds: nat, ss: nat, r: nat) {
    && 0 < ds < ss && 2 * ss <= SAMPLES && r < ss
    && (forall i :: 0 < i < 2 * ss ==> Follows(ps, i))
    && forall i :: 0 <= i < 2 * ss ==>
         (ps[i].bit <==> r + i < ds || ss <= r + i < ss + ds || 2 * ss <= r + i < 2 * ss + ds)
  }

  lemma HeardAt(ps: Pulses, ds: nat, ss: nat, first: nat, i: nat)
    requires Heard(ps, ds, ss, first) && i < 2 * ss
    ensures var n := first % ss + i;
      ps[i].bit <==> n < ds || ss <= n < ss + ds || 2 * ss <= n < 2 * ss + ds
    ensures i > 0 ==> Follows(ps, i)
  {
    PlaceWithin(first, i, ss);
    if i > 0 {
      assert ps[i - 1].id == first + i - 1 && ps[i].id == first + i;
      WrapId(first + i);
    }
  }

  lemma HeardPattern(ps: Pulses, ds: nat, ss: nat, first: nat)
    requires Heard(ps, ds, ss, first)
    ensures Pattern(ps, ds, ss, first % ss)
  {
    forall i | 0 <= i < 2 * ss
      ensures var n := first % ss + i;
        ps[i].bit <==> n < ds || ss <= n < ss + ds || 2 * ss <= n < 2 * ss + ds
      ensures i > 0 ==> Follows(ps, i)
    {
      HeardAt(ps, ds, ss, first, i);
    }
  }

  lemma PatternData(ps: Pulses, ds: nat, ss: nat, r: nat)
    requires Pattern(ps, ds, ss, r)
    ensures Period(ps, true) == ds
  {
    PeriodIsRun(ps, true, ss - r, ds);
  }

  lemma PatternParity(ps: Pulses, ds: nat, ss: nat, r: nat)
    requires Pattern(ps, ds, ss, r)
    ensures Period(ps, false) == ss - ds
  {
    PeriodIsRun(ps, false, if r < ds then ds - r else ss - r + ds, ss - ds);
  }

  /** The table after a sender's packets with these numbers, in turn. */
  function SampledAll(ps: Pulses, ds: nat, ss: nat, ids: seq<u32>): Pulses
    requires ss > 0
  {
    if ids == [] then ps
    else
      var id := ids[|ids| - 1];
      Sampled(SampledAll(ps, ds, ss, ids[..|ids| - 1]), id % ss < ds, id)
  }

  lemma EntryOf(base: nat, i: nat)
    requires base % SAMPLES == 0 && i < SAMPLES
    ensures (base + i) % SAMPLES == i
  {
  }

  /** All numbers are of one lap of the table. */
  ghost predicate OneLap(ids: seq<u32>, base: nat) {
    base % SAMPLES == 0 && forall id :: id in ids ==> base <= id < base + SAMPLES
  }

  lemma OneLapBefore(ids: seq<u32>, base: nat)
    requires ids != [] && OneLap(ids, base)
    ensures var last, before := ids[|ids| - 1], ids[..|ids| - 1];
      ids == before + [last] && OneLap(before, base) && base <= last && last % SAMPLES == last - base
  {
    var last, before := ids[|ids| - 1], ids[..|ids| - 1];
    assert ids == before + [last] && last in ids;
    EntryOf(base, last - base);
    forall id | id in before ensures id in ids {
    }
  }

  lemma {:induction false} SampledHolds(ps: Pulses, ds: nat, ss: nat, ids: seq<u32>, base: nat, n: u32)
    requires ss > 0 && OneLap(ids, base) && n in ids
    ensures n - base < SAMPLES && SampledAll(ps, ds, ss, ids)[n - base] == Pulse(n % ss < ds, n)
  {
    OneLapBefore(ids, base);
    if n != ids[|ids| - 1] {
      SampledHolds(ps, ds, ss, ids[..|ids| - 1], base, n);
    }
  }

  /**
   Two groups' worth of packets under the first numbers of a lap of the table are
   enough, in any order and whatever was heard before.
   */
  lemma {:induction false} PeriodsFound(ps: Pulses, ds: nat, ss: nat, ids: seq<u32>, base: nat)
    requires 0 < ds < ss && 2 * ss <= SAMPLES && OneLap(ids, base) && base + 2 * ss <= FULL
    requires forall n: u32 :: base <= n < base + 2 * ss ==> n in ids
    ensures Period(SampledAll(ps, ds, ss, ids), true) == ds
    ensures Period(SampledAll(ps, ds, ss, ids), false) == ss - ds
  {
    var after := SampledAll(ps, ds, ss, ids);
    forall i | 0 <= i < 2 * ss ensures after[i] == Pulse((base + i) % ss < ds, base + i) {
      SampledHolds(ps, ds, ss, ids, base, base + i);
    }
    HeardPattern(after, ds, ss, base);
    PatternData(after, ds, ss, base % ss);
    PatternParity(after, ds, ss, base % ss);
  }

  lemma {:induction false} SampledElsewhere(ps: Pulses, ds: nat, ss: nat, ids: seq<u32>, i: nat)
    requires ss > 0 && i < SAMPLES && forall id :: id in ids ==> id % SAMPLES != i
    ensures SampledAll(ps, ds, ss, ids)[i] == ps[i]
  {
    if ids != [] {
      var last, before := ids[|ids| - 1], ids[..|ids| - 1];
      assert last in ids;
      forall id | id in before ensures id in ids {
      }
      SampledElsewhere(ps, ds, ss, before, i);
    }
  }

  /** The next eight packets of groups of five and three were heard, in any order, but not packet 0. */
  ghost predicate WithoutFirst(ps: Pulses) {
    exists ids :: ps == SampledAll(Silent(), 5, 8, ids) && forall n :: n in ids <==> 1 <= n <= 8
  }

  lemma WithoutFirstAt(ps: Pulses, n: u32)
    requires WithoutFirst(ps) && 1 <= n <= 8
    ensures ps[n] == Pulse(n < 5 || n == 8, n) && ps[0] == UNHEARD
  {
    var ids :| ps == SampledAll(Silent(), 5, 8, ids) && forall n :: n in ids <==> 1 <= n <= 8;
    SampledHolds(Silent(), 5, 8, ids, 0, n);
    SampledElsewhere(Silent(), 5, 8, ids, 0);
  }

  /** Then the search finds four and three. */
  lemma FirstPacketLost(ps: Pulses)
    requires WithoutFirst(ps)
    ensures Misled(ps) && Period(ps, true) == 4 && Period(ps, false) == 3
  {
    forall n: u32 | 1 <= n <= 8 ensures ps[n] == Pulse(n < 5 || n == 8, n) && ps[0] == UNHEARD {
      WithoutFirstAt(ps, n);
    }
    assert ps[1] == Pulse(true, 1);
    forall i | 0 < i <= 8 ensures Follows(ps, i) {
      WrapId(i);
    }
    assert Edge(ps, true, 1) && Edge(ps, false, 5);
    PeriodIsRun(ps, true, 1, 4);
    PeriodIsRun(ps, false, 5, 3);
  }
}
