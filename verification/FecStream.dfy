/**
 Everything an encoder ever emits (network/kcp/fec.go:337-391), over unbounded
 runs and across the wrap-around of the packet numbers: group after group, each
 the data packets of the next contents followed by their parity packets. The
 groups make a book in the sense of FecRecovery, so its guarantees apply.
 */
module FecStream {
  import opened Serial
  import opened Wire
  import opened FecPackets
  import opened FecCodec
  import opened FecEncoding
  import opened FecRecovery
  import FecTuning

  /** All packets of a run of `encode`, and the encoder after it. */
  function EncodeAll(e: Encoder, c: Codec, contents: seq<seq<byte>>): (seq<seq<byte>>, Encoder)
    requires 0 < Size(e) <= 256
    decreases |contents|
  {
    if contents == [] then ([], e)
    else
      var r := Encode(e, c, contents[0]);
      var (more, last) := EncodeAll(r.enc, c, contents[1..]);
      ([r.data] + r.parity + more, last)
  }

  // ----- alignment over any run -----

  /** As the decoder checks: the type says which part of the group the number is in, and groups end before the wrap. */
  ghost predicate Placed(p: seq<byte>, ds: nat, ss: nat) {
    && 0 < ss <= 256 && |p| >= HEADER
    && SeqId(p) - SeqId(p) % ss + ss <= Paws(ss)
    && (Flag(p) == TYPE_DATA <==> SeqId(p) % ss < ds)
    && (Flag(p) == TYPE_PARITY <==> SeqId(p) % ss >= ds)
  }

  lemma ShapedRegular(c: Codec, ds: nat, ps: nat)
    requires Shaped(c, ds, ps)
    ensures Regular(c, ds, ps)
  {
  }

  lemma EncodesGroup0(e: Encoder, c: Codec, content: seq<byte>)
    requires Aligned(e) && Shaped(c, e.ds, e.ps)
    ensures |e.group| + 1 < e.ds || c.encode(Stretched(e.group + [Sized(content)])).Some?
  {
    if |e.group| + 1 == e.ds {
      ShapedRegular(c, e.ds, e.ps);
      EncodesGroup(e, c, content);
    }
  }

  lemma FramedPlaced(id: u32, flag: u16, body: seq<byte>, ds: nat, ss: nat)
    requires 0 < ss <= 256 && id < Paws(ss)
    requires flag == if id % ss < ds then TYPE_DATA else TYPE_PARITY
    ensures Placed(Framed(id, flag, body), ds, ss)
  {
    FramedFields(id, flag, body);
    GroupBelowPaws(id, ss);
  }

  lemma EncodePlaced(e: Encoder, c: Codec, content: seq<byte>)
    requires Aligned(e) && Shaped(c, e.ds, e.ps)
    ensures var r := Encode(e, c, content);
      Placed(r.data, e.ds, Size(e)) && forall p :: p in r.parity ==> Placed(p, e.ds, Size(e))
  {
    var r := Encode(e, c, content);
    FramedPlaced(e.next, TYPE_DATA, Sized(content), e.ds, Size(e));
    ShapedRegular(c, e.ds, e.ps);
    EncodeData(e, c, content);
    forall p | p in r.parity ensures Placed(p, e.ds, Size(e)) {
      var k :| 0 <= k < |r.parity| && r.parity[k] == p;
      EncodeParity(e, c, content, k);
      FramedPlaced(
        e.next + 1 + k, TYPE_PARITY, c.encode(Stretched(e.group + [Sized(content)])).value[k], e.ds, Size(e));
    }
  }

  ghost predicate AllPlaced(ps: seq<seq<byte>>, ds: nat, ss: nat) {
    forall p :: p in ps ==> Placed(p, ds, ss)
  }

  lemma JoinPlaced(p: seq<byte>, parity: seq<seq<byte>>, more: seq<seq<byte>>, ds: nat, ss: nat)
    requires Placed(p, ds, ss) && AllPlaced(parity, ds, ss) && AllPlaced(more, ds, ss)
    ensures AllPlaced([p] + parity + more, ds, ss)
  {
  }

  /** One more content. */
  lemma StepStaysAligned(e: Encoder, c: Codec, content: seq<byte>)
    requires Aligned(e) && Shaped(c, e.ds, e.ps)
    ensures var r := Encode(e, c, content);
      && Aligned(r.enc) && r.enc.ds == e.ds && r.enc.ps == e.ps && Size(r.enc) == Size(e)
      && Placed(r.data, e.ds, Size(e)) && AllPlaced(r.parity, e.ds, Size(e))
  {
    ShapedRegular(c, e.ds, e.ps);
    EncodesGroup0(e, c, content);
    EncodeKeepsAlignment(e, c, content);
    EncodePlaced(e, c, content);
  }

  lemma {:induction false} RunStaysAligned(e: Encoder, c: Codec, contents: seq<seq<byte>>)
    requires Aligned(e) && Shaped(c, e.ds, e.ps)
    ensures Aligned(EncodeAll(e, c, contents).1)
    ensures AllPlaced(EncodeAll(e, c, contents).0, e.ds, Size(e))
    decreases |contents|
  {
    if contents != [] {
      var r := Encode(e, c, contents[0]);
      StepStaysAligned(e, c, contents[0]);
      RunStaysAligned(r.enc, c, contents[1..]);
      JoinPlaced(r.data, r.parity, EncodeAll(r.enc, c, contents[1..]).0, e.ds, Size(e));
    }
  }

  /** So a decoder that tunes itself can take its word (FecTuning.ChangesToSender). */
  lemma PlacedIsSent(p: seq<byte>, ds: nat, ss: nat)
    requires Placed(p, ds, ss)
    ensures FecTuning.SentBy(p, ds, ss)
  {
  }

  // ----- the groups of a run -----

  /** Where the next group begins. */
  function NextBase(base: nat, ss: nat): nat
    requires 0 < ss <= 256
  {
    if Wrap(base) + ss == Paws(ss) then base - Wrap(base) + FULL else base + ss
  }

  /** The contents of a run cut into groups, each under its unwound number. */
  function Groups(base: nat, ds: nat, ss: nat, contents: seq<seq<byte>>): map<nat, seq<seq<byte>>>
    requires 0 < ds <= ss <= 256
    decreases |contents|
  {
    if contents == [] then map[]
    else
      var n := Min(ds, |contents|);
      Groups(NextBase(base, ss), ds, ss, contents[n..])[base := contents[..n]]
  }

  /** The book has the contents, group after group, from `base` on. */
  ghost predicate Written(b: Book, base: nat, contents: seq<seq<byte>>)
    requires 0 < b.ds && 0 < b.ps && Shards(b) <= 256
    decreases |contents|
  {
    contents != [] ==>
      var n := Min(b.ds, |contents|);
      && base in b.groups && b.groups[base] == contents[..n]
      && Written(b, NextBase(base, Shards(b)), contents[n..])
  }

  /** A group number from which counting on by groups stays aligned. */
  ghost predicate Starts(base: nat, ss: nat)
    requires 0 < ss <= 256
  {
    Wrap(base) % ss == 0 && Wrap(base) < Paws(ss)
  }

  lemma NextLap(base: nat)
    ensures Wrap(base - Wrap(base) + FULL) == 0
  {
  }

  lemma NextStarts(base: nat, ss: nat)
    requires 0 < ss <= 256 && Starts(base, ss)
    ensures Starts(NextBase(base, ss), ss) && NextBase(base, ss) >= base + ss && Wrap(base) + ss <= Paws(ss)
    ensures Wrap(NextBase(base, ss)) == if Wrap(base) + ss == Paws(ss) then 0 else Wrap(base) + ss
  {
    GroupBelowPaws(Wrap(base), ss);
    NextGroup(Wrap(base), ss);
    if Wrap(base) + ss == Paws(ss) {
      NextLap(base);
    } else {
      WrapPlus(base, ss);
      WrapId(Wrap(base) + ss);
    }
  }

  /** The groups of a run start aligned, end before the wrap, and do not overlap. */
  lemma {:induction false} GroupsSane(base: nat, ds: nat, ss: nat, contents: seq<seq<byte>>)
    requires 0 < ds <= ss <= 256 && Starts(base, ss)
    requires forall x :: x in contents ==> 2 + |x| < 0x1_0000
    ensures var gs := Groups(base, ds, ss, contents);
      && (forall g :: g in gs ==> g >= base && Starts(g, ss) && |gs[g]| <= ds)
      && (forall g, x :: g in gs && x in gs[g] ==> 2 + |x| < 0x1_0000)
      && (forall g, h :: g in gs && h in gs && g < h ==> g + ss <= h)
    decreases |contents|
  {
    if contents != [] {
      var n := Min(ds, |contents|);
      NextStarts(base, ss);
      GroupsSane(NextBase(base, ss), ds, ss, contents[n..]);
    }
  }

  /** A book of the groups of a run. */
  function BookOf(ds: nat, ps: nat, c: Codec, base: nat, contents: seq<seq<byte>>): Book
    requires 0 < ds && 0 < ps && ds + ps <= 256
  {
    Book(ds, ps, c, Groups(base, ds, ds + ps, contents))
  }

  lemma BookSane(ds: nat, ps: nat, c: Codec, base: nat, contents: seq<seq<byte>>)
    requires 0 < ds && 0 < ps && ds + ps <= 256 && Lawful(c, ds, ps) && Starts(base, ds + ps)
    requires forall x :: x in contents ==> 2 + |x| < 0x1_0000
    ensures Sane(BookOf(ds, ps, c, base, contents))
  {
    GroupsSane(base, ds, ds + ps, contents);
    var b := BookOf(ds, ps, c, base, contents);
    forall g | g in b.groups ensures Wrap(g) % Shards(b) == 0 && Wrap(g) + Shards(b) < FULL {
      NextStarts(g, ds + ps);
    }
  }

  /** Groups before the ones a run needs do not matter. */
  lemma {:induction false} WrittenAbove(b: Book, d: Book, low: nat, base: nat, contents: seq<seq<byte>>)
    requires 0 < b.ds && 0 < b.ps && Shards(b) <= 256 && d == b.(groups := d.groups)
    requires Written(b, base, contents) && low <= base && Starts(base, Shards(b))
    requires forall g :: g in b.groups && g >= low ==> g in d.groups && d.groups[g] == b.groups[g]
    ensures Written(d, base, contents)
    decreases |contents|
  {
    if contents != [] {
      var n := Min(b.ds, |contents|);
      NextStarts(base, Shards(b));
      WrittenAbove(b, d, low, NextBase(base, Shards(b)), contents[n..]);
    }
  }

  lemma {:induction false} BookWritten(ds: nat, ps: nat, c: Codec, base: nat, contents: seq<seq<byte>>)
    requires 0 < ds && 0 < ps && ds + ps <= 256 && Starts(base, ds + ps)
    ensures Written(BookOf(ds, ps, c, base, contents), base, contents)
    decreases |contents|
  {
    if contents != [] {
      var n, next := Min(ds, |contents|), NextBase(base, ds + ps);
      NextStarts(base, ds + ps);
      BookWritten(ds, ps, c, next, contents[n..]);
      WrittenAbove(
        BookOf(ds, ps, c, next, contents[n..]), BookOf(ds, ps, c, base, contents), next, next, contents[n..]);
    }
  }

  // ----- the encoder fills the book -----

  /** The encoder stands behind `done`, the first contents of group `base`. */
  ghost predicate Standing(e: Encoder, b: Book, base: nat, done: seq<seq<byte>>) {
    && Aligned(e) && e.ds == b.ds && e.ps == b.ps && Starts(base, Shards(b))
    && e.group == SizedAll(done) && e.next == Wrap(base) + |done|
  }

  /** The data packet for the next content is the book's. */
  lemma DataFromBook(e: Encoder, b: Book, base: nat, done: seq<seq<byte>>, x: seq<byte>)
    requires Standing(e, b, base, done) && Sane(b)
    requires base in b.groups && |done| < |b.groups[base]| && b.groups[base][|done|] == x
    ensures From(b, Encode(e, b.c, x).data, Origin(base, |done|))
  {
    GroupNumber(base, |done|, Shards(b));
    ShapedRegular(b.c, e.ds, e.ps);
    EncodeData(e, b.c, x);
  }

  /** The book has every parity packet of a completed group. */
  lemma ParitySent(b: Book, base: nat, k: nat)
    requires Shaped(b.c, b.ds, b.ps) && base in b.groups && 0 < |b.groups[base]| == b.ds && k < b.ps
    ensures b.c.encode(DataShards(b.groups[base])).Some?
    ensures Sent(b, Origin(base, b.ds + k))
    ensures BodyOf(b, Origin(base, b.ds + k)) == b.c.encode(DataShards(b.groups[base])).value[k]
  {
    GroupLength(b.groups[base], 0);
  }

  /** The parity packets of a completed group are the book's. */
  lemma ParityFromBook(e: Encoder, b: Book, base: nat, done: seq<seq<byte>>, x: seq<byte>, k: nat)
    requires Standing(e, b, base, done) && Shaped(b.c, b.ds, b.ps) && |done| + 1 == b.ds && k < b.ps
    requires base in b.groups && b.groups[base] == done + [x]
    ensures |Encode(e, b.c, x).parity| == b.ps && From(b, Encode(e, b.c, x).parity[k], Origin(base, b.ds + k))
  {
    assert SizedAll(b.groups[base]) == e.group + [Sized(x)];
    EncodeParity(e, b.c, x, k);
    NextStarts(base, Shards(b));
    GroupNumber(base, b.ds + k, Shards(b));
    ParitySent(b, base, k);
  }

  /** Where the encoder stands after one more content of an unfinished group. */
  lemma StandsWithin(e: Encoder, b: Book, base: nat, done: seq<seq<byte>>, x: seq<byte>)
    requires Standing(e, b, base, done) && |done| + 1 < b.ds
    ensures Standing(Encode(e, b.c, x).enc, b, base, done + [x])
  {
    GroupBelowPaws(e.next, Size(e));
    PlaceOf(e.next, 1, Size(e));
    WrapId(e.next + 1);
    assert SizedAll(done + [x]) == e.group + [Sized(x)];
  }

  /** The encoder after the last content of a group. */
  lemma LastEncodes(e: Encoder, c: Codec, x: seq<byte>) returns (shards: seq<Shard>)
    requires Aligned(e) && Shaped(c, e.ds, e.ps) && |e.group| + 1 == e.ds
    ensures |shards| == e.ps
    ensures Encode(e, c, x).enc == e.(next := ParityId(Wrap(e.next + 1), |shards|, Paws(Size(e))), group := [])
  {
    EncodesGroup0(e, c, x);
    ShapedRegular(c, e.ds, e.ps);
    EncodesGroup(e, c, x);
    shards := c.encode(Stretched(e.group + [Sized(x)])).value;
  }

  /** Where the encoder stands after the last content of a group. */
  lemma StandsNext(e: Encoder, b: Book, base: nat, done: seq<seq<byte>>, x: seq<byte>)
    requires Standing(e, b, base, done) && Shaped(b.c, b.ds, b.ps) && |done| + 1 == b.ds
    ensures Standing(Encode(e, b.c, x).enc, b, NextBase(base, Shards(b)), [])
  {
    var shards := LastEncodes(e, b.c, x);
    NextStarts(base, Shards(b));
    GroupEnds(e, shards);
    assert SizedAll([]) == [];
  }

  ghost predicate AllFromBook(b: Book, ps: seq<seq<byte>>) {
    forall p :: p in ps ==> exists o :: |p| >= HEADER && From(b, p, o)
  }

  lemma JoinFromBook(b: Book, xs: seq<seq<byte>>, ys: seq<seq<byte>>)
    requires AllFromBook(b, xs) && AllFromBook(b, ys)
    ensures AllFromBook(b, xs + ys)
  {
  }

  lemma LoneFromBook(b: Book, p: seq<byte>, o: Origin)
    requires |p| >= HEADER && From(b, p, o)
    ensures AllFromBook(b, [p])
  {
  }

  lemma {:induction false} ParitiesFromBook(e: Encoder, b: Book, base: nat, done: seq<seq<byte>>, x: seq<byte>)
    requires Standing(e, b, base, done) && Shaped(b.c, b.ds, b.ps) && |done| + 1 == b.ds
    requires base in b.groups && b.groups[base] == done + [x]
    ensures AllFromBook(b, Encode(e, b.c, x).parity)
  {
    var ps := Encode(e, b.c, x).parity;
    ParityFromBook(e, b, base, done, x, 0);
    forall p | p in ps ensures exists o :: |p| >= HEADER && From(b, p, o) {
      var k :| 0 <= k < |ps| && ps[k] == p;
      ParityFromBook(e, b, base, done, x, k);
    }
  }

  lemma {:induction false} HeadWritten(b: Book, base: nat, done: seq<seq<byte>>, todo: seq<seq<byte>>)
    requires 0 < b.ds && 0 < b.ps && Shards(b) <= 256 && Written(b, base, done + todo) && todo != [] && |done| < b.ds
    ensures base in b.groups && |done| < |b.groups[base]| && b.groups[base][|done|] == todo[0]
    ensures |done| + 1 == b.ds ==> b.groups[base] == done + [todo[0]]
  {
    var all := done + todo;
    assert all[|done|] == todo[0];
    if |done| + 1 == b.ds {
      assert all[..b.ds] == done + [todo[0]];
    }
  }

  lemma {:induction false} OneFromBook(e: Encoder, b: Book, base: nat, done: seq<seq<byte>>, x: seq<byte>)
    requires Sane(b) && Standing(e, b, base, done)
    requires base in b.groups && |done| < |b.groups[base]| && b.groups[base][|done|] == x
    requires |done| + 1 == b.ds ==> b.groups[base] == done + [x]
    ensures AllFromBook(b, [Encode(e, b.c, x).data] + Encode(e, b.c, x).parity)
  {
    var r := Encode(e, b.c, x);
    DataFromBook(e, b, base, done, x);
    LoneFromBook(b, r.data, Origin(base, |done|));
    ShapedRegular(b.c, e.ds, e.ps);
    EncodeData(e, b.c, x);
    if |done| + 1 == b.ds {
      ParitiesFromBook(e, b, base, done, x);
    }
    JoinFromBook(b, [r.data], r.parity);
  }

  lemma StandsOn(e: Encoder, b: Book, base: nat, done: seq<seq<byte>>, todo: seq<seq<byte>>)
    returns (base': nat, done': seq<seq<byte>>)
    requires Standing(e, b, base, done) && Shaped(b.c, b.ds, b.ps) && todo != [] && Written(b, base, done + todo)
    ensures Standing(Encode(e, b.c, todo[0]).enc, b, base', done') && Written(b, base', done' + todo[1..])
  {
    if |done| + 1 < b.ds {
      StandsWithin(e, b, base, done, todo[0]);
      assert done + todo == (done + [todo[0]]) + todo[1..];
      base', done' := base, done + [todo[0]];
    } else {
      StandsNext(e, b, base, done, todo[0]);
      assert (done + todo)[b.ds..] == [] + todo[1..];
      base', done' := NextBase(base, Shards(b)), [];
    }
  }

  /** Every packet of every run is the packet its number names in the book. */
  lemma {:induction false} RunFromBook(e: Encoder, b: Book, base: nat, done: seq<seq<byte>>, todo: seq<seq<byte>>)
    requires Sane(b) && Standing(e, b, base, done) && Written(b, base, done + todo)
    ensures AllFromBook(b, EncodeAll(e, b.c, todo).0)
    decreases |todo|
  {
    if todo != [] {
      var r := Encode(e, b.c, todo[0]);
      HeadWritten(b, base, done, todo);
      OneFromBook(e, b, base, done, todo[0]);
      var base', done' := StandsOn(e, b, base, done, todo);
      RunFromBook(r.enc, b, base', done', todo[1..]);
      JoinFromBook(b, [r.data] + r.parity, EncodeAll(r.enc, b.c, todo[1..]).0);
    }
  }

  /**
   A new encoder, given any contents, emits only packets of a sane book; so
   whatever subset of them arrives, FecDelivery.EveryGroupRecovers applies.
   */
  lemma {:induction false} EncoderFillsBook(ds: nat, ps: nat, c: Codec, contents: seq<seq<byte>>)
    requires 0 < ds && 0 < ps && ds + ps <= 256 && Lawful(c, ds, ps)
    requires forall x :: x in contents ==> 2 + |x| < 0x1_0000
    ensures var b := BookOf(ds, ps, c, 0, contents);
      Sane(b) && AllFromBook(b, EncodeAll(Encoder(ds, ps, 0, []), c, contents).0)
  {
    WrapId(0);
    BookSane(ds, ps, c, 0, contents);
    BookWritten(ds, ps, c, 0, contents);
    assert [] + contents == contents;
    RunFromBook(Encoder(ds, ps, 0, []), BookOf(ds, ps, c, 0, contents), 0, [], contents);
  }
}
