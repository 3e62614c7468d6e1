/**
 How `flush` fills datagrams (network/kcp/kcp.go:697-716): before each segment
 it asks for room, and a datagram that could not take the segment within the
 MTU goes out first. Packing and the parsing loop of `Input` undo each other.
 */
module Packing {
  import opened Serial
  import opened Wire

  /** One step of `flush`: `makeSpace(space)`, then possibly one encoded segment. */
  datatype Emission = Emission(space: nat, seg: Option<WireSegment>)

  /** Datagrams already handed to `Output`, and the segments in the one being filled. */
  datatype Packer = Packer(sent: seq<seq<WireSegment>>, cur: seq<WireSegment>)

  ghost function Filled(p: Packer, reserved: nat): nat {
    reserved + |Bytes(p.cur)|
  }

  /** `makeSpace`. */
  ghost function MakeSpace(p: Packer, space: nat, mtu: nat, reserved: nat): Packer {
    if Filled(p, reserved) + space > mtu then Packer(p.sent + [p.cur], []) else p
  }

  ghost function Emit(p: Packer, e: Emission, mtu: nat, reserved: nat): Packer {
    var q := MakeSpace(p, e.space, mtu, reserved);
    if e.seg.Some? then q.(cur := q.cur + [e.seg.value]) else q
  }

  ghost function Pack(p: Packer, es: seq<Emission>, mtu: nat, reserved: nat): Packer
    decreases |es|
  {
    if es == [] then p else Pack(Emit(p, es[0], mtu, reserved), es[1..], mtu, reserved)
  }

  /** `flushBuffer`. */
  ghost function Close(p: Packer, reserved: nat): seq<seq<WireSegment>> {
    if Filled(p, reserved) > reserved then p.sent + [p.cur] else p.sent
  }

  /** All datagrams of one flush. */
  ghost function Datagrams(es: seq<Emission>, mtu: nat, reserved: nat): seq<seq<WireSegment>> {
    Close(Pack(Packer([], []), es, mtu, reserved), reserved)
  }

  ghost function Flatten<T>(xs: seq<seq<T>>): seq<T> {
    if xs == [] then [] else xs[0] + Flatten(xs[1..])
  }

  /** The segments a run of emissions writes, in order. */
  ghost function Emitted(es: seq<Emission>): seq<WireSegment> {
    if es == [] then []
    else (if es[0].seg.Some? then [es[0].seg.value] else []) + Emitted(es[1..])
  }

  /** Each emission asks for the room its segment needs, and a single one fits an empty datagram. */
  ghost predicate Fits(es: seq<Emission>, mtu: nat, reserved: nat) {
    forall e :: e in es ==>
      && 0 < e.space && reserved + e.space <= mtu
      && (e.seg.Some? ==> |Encoded(e.seg.value)| <= e.space)
  }

  ghost predicate Within(p: Packer, mtu: nat, reserved: nat) {
    && Filled(p, reserved) <= mtu
    && forall d :: d in p.sent ==> d != [] && reserved + |Bytes(d)| <= mtu
  }

  lemma {:induction false} FlattenConcat<T>(xs: seq<seq<T>>, ys: seq<seq<T>>)
    ensures Flatten(xs + ys) == Flatten(xs) + Flatten(ys)
  {
    if xs == [] {
      assert xs + ys == ys;
    } else {
      assert (xs + ys)[1..] == xs[1..] + ys;
      FlattenConcat(xs[1..], ys);
    }
  }

  lemma {:induction false} FlattenAppend<T>(xs: seq<seq<T>>, y: seq<T>)
    ensures Flatten(xs + [y]) == Flatten(xs) + y
  {
    FlattenConcat(xs, [y]);
    assert Flatten([y]) == y + Flatten<T>([]);
  }

  lemma {:induction false} EmittedConcat(xs: seq<Emission>, ys: seq<Emission>)
    ensures Emitted(xs + ys) == Emitted(xs) + Emitted(ys)
  {
    if xs == [] {
      assert xs + ys == ys;
    } else {
      assert (xs + ys)[1..] == xs[1..] + ys;
      EmittedConcat(xs[1..], ys);
    }
  }

  lemma {:induction false} PackConcat(p: Packer, xs: seq<Emission>, ys: seq<Emission>, mtu: nat, reserved: nat)
    ensures Pack(p, xs + ys, mtu, reserved) == Pack(Pack(p, xs, mtu, reserved), ys, mtu, reserved)
    decreases |xs|
  {
    if xs == [] {
      assert xs + ys == ys;
    } else {
      assert (xs + ys)[1..] == xs[1..] + ys;
      PackConcat(Emit(p, xs[0], mtu, reserved), xs[1..], ys, mtu, reserved);
    }
  }

  lemma {:induction false} PackAppend(p: Packer, xs: seq<Emission>, e: Emission, mtu: nat, reserved: nat)
    ensures Pack(p, xs + [e], mtu, reserved) == Emit(Pack(p, xs, mtu, reserved), e, mtu, reserved)
  {
    PackConcat(p, xs, [e], mtu, reserved);
    assert Pack(Pack(p, xs, mtu, reserved), [e], mtu, reserved)
           == Pack(Emit(Pack(p, xs, mtu, reserved), e, mtu, reserved), [], mtu, reserved);
  }

  /** One emission keeps every datagram within the MTU and loses nothing. */
  lemma EmitKeeps(p: Packer, e: Emission, mtu: nat, reserved: nat)
    requires Fits([e], mtu, reserved) && Within(p, mtu, reserved)
    ensures Within(Emit(p, e, mtu, reserved), mtu, reserved)
    ensures var q := Emit(p, e, mtu, reserved);
            Flatten(q.sent) + q.cur == Flatten(p.sent) + p.cur + Emitted([e])
  {
    var m := MakeSpace(p, e.space, mtu, reserved);
    assert e in [e];
    FlattenAppend(p.sent, p.cur);
    assert Flatten(m.sent) + m.cur == Flatten(p.sent) + p.cur;
    assert Emitted([e]) == (if e.seg.Some? then [e.seg.value] else []) + Emitted([]);
    if e.seg.Some? {
      BytesAppend(m.cur, e.seg.value);
    }
  }

  lemma {:induction false} EmittedHead(es: seq<Emission>)
    requires es != []
    ensures Emitted(es) == Emitted([es[0]]) + Emitted(es[1..])
  {
    assert es == [es[0]] + es[1..];
    EmittedConcat([es[0]], es[1..]);
  }

  lemma {:induction false} PackKeeps(p: Packer, es: seq<Emission>, mtu: nat, reserved: nat)
    requires Fits(es, mtu, reserved) && Within(p, mtu, reserved)
    ensures Within(Pack(p, es, mtu, reserved), mtu, reserved)
    ensures var q := Pack(p, es, mtu, reserved);
            Flatten(q.sent) + q.cur == Flatten(p.sent) + p.cur + Emitted(es)
    decreases |es|
  {
    if es != [] {
      assert es[0] in es;
      EmitKeeps(p, es[0], mtu, reserved);
      PackKeeps(Emit(p, es[0], mtu, reserved), es[1..], mtu, reserved);
      EmittedHead(es);
    }
  }

  /** Every datagram of a flush is non-empty and within the MTU; together they carry what was emitted. */
  lemma {:induction false} DatagramsCarryEmissions(es: seq<Emission>, mtu: nat, reserved: nat)
    requires Fits(es, mtu, reserved) && reserved <= mtu
    ensures forall d :: d in Datagrams(es, mtu, reserved) ==> d != [] && reserved + |Bytes(d)| <= mtu
    ensures Flatten(Datagrams(es, mtu, reserved)) == Emitted(es)
  {
    var empty := Packer([], []);
    PackKeeps(empty, es, mtu, reserved);
    var q := Pack(empty, es, mtu, reserved);
    assert Flatten(empty.sent) + empty.cur + Emitted(es) == Emitted(es);
    if Filled(q, reserved) > reserved {
      FlattenAppend(q.sent, q.cur);
    } else {
      BytesEmpty(q.cur);
    }
  }

  // ----- no datagram goes out early -----

  /** Each emission asks for exactly its segment, or for a header. */
  ghost predicate Exact(es: seq<Emission>) {
    forall e :: e in es ==> e.space == if e.seg.Some? then |Encoded(e.seg.value)| else OVERHEAD
  }

  /** The first segment of `next` would not have fitted into `d`. */
  ghost predicate NoRoom(d: seq<WireSegment>, next: seq<WireSegment>, mtu: nat, reserved: nat) {
    next != [] && reserved + |Bytes(d)| + |Encoded(next[0])| > mtu
  }

  ghost predicate Tight(ds: seq<seq<WireSegment>>, mtu: nat, reserved: nat) {
    forall i :: 0 <= i < |ds| - 1 ==> NoRoom(ds[i], ds[i + 1], mtu, reserved)
  }

  ghost predicate TightSoFar(p: Packer, mtu: nat, reserved: nat) {
    && Tight(p.sent, mtu, reserved)
    && (p.sent != [] ==>
          var last := p.sent[|p.sent| - 1];
          if p.cur == [] then reserved + |Bytes(last)| + OVERHEAD > mtu else NoRoom(last, p.cur, mtu, reserved))
  }

  lemma EmitTight(p: Packer, e: Emission, mtu: nat, reserved: nat)
    requires Exact([e]) && TightSoFar(p, mtu, reserved) && reserved + e.space <= mtu
    ensures TightSoFar(Emit(p, e, mtu, reserved), mtu, reserved)
  {
    assert e in [e];
    BytesEmpty(p.cur);
  }

  lemma {:induction false} PackTight(p: Packer, es: seq<Emission>, mtu: nat, reserved: nat)
    requires Exact(es) && Fits(es, mtu, reserved) && TightSoFar(p, mtu, reserved)
    ensures TightSoFar(Pack(p, es, mtu, reserved), mtu, reserved)
    decreases |es|
  {
    if es != [] {
      assert es[0] in es;
      EmitTight(p, es[0], mtu, reserved);
      PackTight(Emit(p, es[0], mtu, reserved), es[1..], mtu, reserved);
    }
  }

  /** A datagram goes out only when the next segment does not fit, or there is none. */
  lemma DatagramsTight(es: seq<Emission>, mtu: nat, reserved: nat)
    requires Exact(es) && Fits(es, mtu, reserved)
    ensures Tight(Datagrams(es, mtu, reserved), mtu, reserved)
  {
    PackTight(Packer([], []), es, mtu, reserved);
    BytesEmpty(Pack(Packer([], []), es, mtu, reserved).cur);
  }

  /** What a receiver that parses every datagram in turn gets. */
  ghost function Reassembled(datagrams: seq<seq<byte>>, conv: u32): seq<WireSegment> {
    if datagrams == [] then [] else Parse(datagrams[0], conv).segs + Reassembled(datagrams[1..], conv)
  }

  ghost function BytesOfAll(ds: seq<seq<WireSegment>>): (r: seq<seq<byte>>)
    ensures |r| == |ds| && forall i :: 0 <= i < |ds| ==> r[i] == Bytes(ds[i])
  {
    seq(|ds|, i requires 0 <= i < |ds| => Bytes(ds[i]))
  }

  lemma {:induction false} ReassembleDatagrams(ds: seq<seq<WireSegment>>, conv: u32)
    requires forall d :: d in ds ==> AllSendable(d, conv)
    ensures Reassembled(BytesOfAll(ds), conv) == Flatten(ds)
  {
    if ds != [] {
      assert ds[0] in ds;
      ParseInvertsBytes(ds[0], conv, []);
      assert Bytes(ds[0]) + [] == Bytes(ds[0]);
      assert BytesOfAll(ds)[1..] == BytesOfAll(ds[1..]);
      ReassembleDatagrams(ds[1..], conv);
    }
  }

  lemma {:induction false} FlattenMembers<T>(xs: seq<seq<T>>, x: seq<T>, e: T)
    requires x in xs && e in x
    ensures e in Flatten(xs)
  {
    if x != xs[0] {
      FlattenMembers(xs[1..], x, e);
    }
  }

  /**
   Packing and parsing undo each other: the datagrams of one flush, parsed one
   after the other, yield exactly the emitted segments, in order.
   */
  lemma {:induction false} ParsingInvertsPacking(es: seq<Emission>, mtu: nat, reserved: nat, conv: u32)
    requires Fits(es, mtu, reserved) && reserved <= mtu && AllSendable(Emitted(es), conv)
    ensures forall d :: d in Datagrams(es, mtu, reserved) ==>
      reserved + |Bytes(d)| <= mtu && Parse(Bytes(d), conv) == Parsed(d, Exhausted)
    ensures Reassembled(BytesOfAll(Datagrams(es, mtu, reserved)), conv) == Emitted(es)
  {
    var ds := Datagrams(es, mtu, reserved);
    DatagramsCarryEmissions(es, mtu, reserved);
    forall d | d in ds
      ensures AllSendable(d, conv)
      ensures Parse(Bytes(d), conv) == Parsed(d, Exhausted)
    {
      forall s | s in d ensures s in Emitted(es) {
        FlattenMembers(ds, d, s);
      }
      ParseInvertsBytes(d, conv, []);
      assert Bytes(d) + [] == Bytes(d);
    }
    ReassembleDatagrams(ds, conv);
  }
}
