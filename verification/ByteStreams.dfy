/**
 End to end: two sessions over the network of Network. Whatever the network
 does, the bytes that `Read` has returned on one side are a prefix of the bytes
 given to `WriteBuffers` on the other (network/kcp/udp.go:152-251).
 */
module ByteStreams {
  import opened Serial
  import opened Wire
  import opened Endpoints
  import opened Network
  import Packing
  import ReceiveWindow
  import Streams

  /** An endpoint, what is left over of the last message, and all bytes returned and accepted so far. */
  datatype Session = Session(e: Endpoint, left: seq<byte>, out: seq<byte>, accepted: seq<byte>)

  datatype Pair = Pair(a: Session, b: Session, ab: set<Packet>, ba: set<Packet>)

  datatype Act = WriteAct(v: seq<seq<byte>>) | ReadAct(capacity: nat) | WireAct(ev: Event)

  // ----- what a session does -----

  function WriteAll(e: Endpoint, ms: seq<seq<byte>>): (f: Endpoint)
    requires e.k.cfg.mss > 0
    ensures f.k.cfg == e.k.cfg
    decreases |ms|
  {
    if ms == [] then e else WriteAll(Write(e, ms[0]), ms[1..])
  }

  ghost function WriteBytes(x: Session, v: seq<seq<byte>>): Session
    requires x.e.k.cfg.mss > 0
  {
    x.(e := WriteAll(x.e, Streams.SplitAll(v, x.e.k.cfg.mss)), accepted := x.accepted + Packing.Flatten(v))
  }

  /** The endpoint after `Read`: unchanged, or one message shorter. */
  function Drawn(e: Endpoint, left: seq<byte>, capacity: nat): Endpoint {
    if Streams.Taken(e.k, left) == [] then e
    else Network.Read(e, Max(capacity, ReceiveWindow.PeekSize(e.k.rcv.queue)))
  }

  function ReadBytes(x: Session, capacity: nat): Session {
    var r := Streams.Read(x.e.k, x.left, capacity);
    Session(Drawn(x.e, x.left, capacity), r.left, x.out + r.data, x.accepted)
  }

  /** The engine below sees exactly the calls the session makes. */
  lemma {:induction false} WriteAllFollows(e: Endpoint, ms: seq<seq<byte>>)
    requires e.k.cfg.mss > 0
    ensures WriteAll(e, ms).k == Streams.SendAll(e.k, ms)
    decreases |ms|
  {
    if ms != [] {
      WriteAllFollows(Write(e, ms[0]), ms[1..]);
    }
  }

  lemma ReadFollows(x: Session, capacity: nat)
    ensures ReadBytes(x, capacity).e.k == Streams.Read(x.e.k, x.left, capacity).k
  {
  }

  // ----- the pair -----

  function Under(s: Pair): System {
    System(s.a.e, s.b.e, s.ab, s.ba)
  }

  function Turned(s: Pair): Pair {
    Pair(s.b, s.a, s.ba, s.ab)
  }

  ghost predicate ActsAtA(s: Pair, act: Act, t: Pair) {
    && s.a.e.k.cfg.mss > 0
    && match act
       case WriteAct(v) => t == s.(a := WriteBytes(s.a, v))
       case ReadAct(capacity) => t == s.(a := ReadBytes(s.a, capacity))
       case WireAct(ev) =>
         && !ev.WriteEvent? && !ev.ReadEvent? && NextAtA(Under(s), ev, Under(t))
         && t.a == s.a.(e := t.a.e) && t.b == s.b
  }

  ghost predicate Acts(s: Pair, atA: bool, act: Act, t: Pair) {
    if atA then ActsAtA(s, act, t) else ActsAtA(Turned(s), act, Turned(t))
  }

  datatype Move = Move(atA: bool, act: Act)

  ghost predicate Starts(s: Pair) {
    && Initial(Under(s))
    && s.a == Session(s.a.e, [], [], []) && s.b == Session(s.b.e, [], [], [])
  }

  ghost predicate IsHistory(run: seq<Pair>, moves: seq<Move>) {
    && |run| == |moves| + 1 && Starts(run[0])
    && forall i :: 0 <= i < |moves| ==> Acts(run[i], moves[i].atA, moves[i].act, run[i + 1])
  }

  // ----- the invariant -----

  /** Bytes and messages agree: accepted with written, returned and left over with read. */
  ghost predicate Streamed(x: Session) {
    && Packing.Flatten(x.e.written) == x.accepted
    && Packing.Flatten(x.e.read) == x.out + x.left
  }

  ghost predicate Sound(s: Pair) {
    Ok(Under(s)) && Streamed(s.a) && Streamed(s.b)
  }

  lemma {:induction false} WriteAllKeeps(s: System, ms: seq<seq<byte>>)
    requires Ok(s)
    ensures Ok(s.(a := WriteAll(s.a, ms)))
    decreases |ms|
  {
    if ms != [] {
      var t := s.(a := Write(s.a, ms[0]));
      assert s.ab + {} == s.ab;
      NextAtAKeeps(s, WriteEvent(ms[0]), t);
      WriteAllKeeps(t, ms[1..]);
    }
  }

  lemma WriteOne(e: Endpoint, m: seq<byte>)
    requires e.k.cfg.mss > 0 && |m| <= e.k.cfg.mss
    ensures Packing.Flatten(Write(e, m).written) == Packing.Flatten(e.written) + m && Write(e, m).read == e.read
  {
    Streams.ShortMessageAccepted(e.k, m);
    Packing.FlattenAppend(e.written, m);
  }

  lemma Regroup(a: seq<byte>, b: seq<byte>, c: seq<byte>)
    ensures (a + b) + c == a + (b + c)
  {
  }

  lemma {:induction false} WriteAllBytes(e: Endpoint, ms: seq<seq<byte>>)
    requires e.k.cfg.mss > 0 && e.k.cfg.stream == 0 && forall m :: m in ms ==> |m| <= e.k.cfg.mss
    ensures var f := WriteAll(e, ms);
      && Packing.Flatten(f.written) == Packing.Flatten(e.written) + Packing.Flatten(ms)
      && f.read == e.read
    decreases |ms|
  {
    if ms != [] {
      var f := Write(e, ms[0]);
      assert ms[0] in ms && forall m :: m in ms[1..] ==> m in ms;
      WriteOne(e, ms[0]);
      WriteAllBytes(f, ms[1..]);
      Regroup(Packing.Flatten(e.written), ms[0], Packing.Flatten(ms[1..]));
    }
  }

  lemma WriteSound(s: Pair, v: seq<seq<byte>>)
    requires Sound(s)
    ensures Sound(s.(a := WriteBytes(s.a, v)))
  {
    var ms := Streams.SplitAll(v, s.a.e.k.cfg.mss);
    Streams.SplitAllPieces(v, s.a.e.k.cfg.mss);
    WriteAllKeeps(Under(s), ms);
    WriteAllBytes(s.a.e, ms);
  }

  lemma ReadKeeps(s: System, left: seq<byte>, capacity: nat)
    requires Ok(s)
    ensures Ok(s.(a := Drawn(s.a, left, capacity)))
  {
    var t := s.(a := Drawn(s.a, left, capacity));
    if t.a != s.a {
      assert s.ab + {} == s.ab;
      NextAtAKeeps(s, ReadEvent(Max(capacity, ReceiveWindow.PeekSize(s.a.k.rcv.queue))), t);
    }
  }

  lemma DrawnReads(e: Endpoint, left: seq<byte>, capacity: nat)
    ensures Drawn(e, left, capacity).read == e.read + Streams.Taken(e.k, left)
    ensures Drawn(e, left, capacity).written == e.written
  {
  }

  lemma ConservesBytes(out: seq<byte>, left: seq<byte>, taken: seq<byte>, data: seq<byte>, rest: seq<byte>)
    requires left + taken == data + rest
    ensures (out + left) + taken == (out + data) + rest
  {
    Regroup(out, left, taken);
    Regroup(out, data, rest);
  }

  lemma ReadStreamed(x: Session, capacity: nat)
    requires Streamed(x)
    ensures Streamed(ReadBytes(x, capacity))
  {
    var y := ReadBytes(x, capacity);
    var taken, r := Streams.Taken(x.e.k, x.left), Streams.Read(x.e.k, x.left, capacity);
    DrawnReads(x.e, x.left, capacity);
    Packing.FlattenConcat(x.e.read, taken);
    ConservesBytes(x.out, x.left, Packing.Flatten(taken), r.data, r.left) by {
      Streams.ReadConserves(x.e.k, x.left, capacity);
    }
  }

  /** Wire events touch neither what was written nor what was read. */
  lemma WireQuiet(e: Endpoint, ev: Event)
    requires e.k.cfg.mss > 0 && !ev.WriteEvent? && !ev.ReadEvent?
    ensures Local(e, ev).e.written == e.written && Local(e, ev).e.read == e.read
  {
    if ev.DeliverEvent? && |ev.p.data| >= OVERHEAD {
      var ws := Parse(ev.p.data, e.k.cfg.conv).segs;
      StepAllOnly(Walk(e, false, 0, false), ws, ev.regular);
    }
  }

  lemma ActsAtAKeeps(s: Pair, act: Act, t: Pair)
    requires Sound(s) && ActsAtA(s, act, t)
    ensures Sound(t)
  {
    match act
    case WriteAct(v) =>
      WriteSound(s, v);
    case ReadAct(capacity) =>
      ReadKeeps(Under(s), s.a.left, capacity);
      ReadStreamed(s.a, capacity);
    case WireAct(ev) =>
      NextAtAKeeps(Under(s), ev, Under(t));
      WireQuiet(s.a.e, ev);
  }

  lemma TurnedSound(s: Pair)
    requires Sound(s)
    ensures Sound(Turned(s))
  {
  }

  lemma ActsKeeps(s: Pair, move: Move, t: Pair)
    requires Sound(s) && Acts(s, move.atA, move.act, t)
    ensures Sound(t)
  {
    if move.atA {
      ActsAtAKeeps(s, move.act, t);
    } else {
      TurnedSound(s);
      ActsAtAKeeps(Turned(s), move.act, Turned(t));
      TurnedSound(Turned(t));
    }
  }

  lemma HistoryNext(run: seq<Pair>, moves: seq<Move>, i: nat)
    requires IsHistory(run, moves) && i < |moves| && Sound(run[i])
    ensures Sound(run[i + 1])
  {
    ActsKeeps(run[i], moves[i], run[i + 1]);
  }

  lemma StartsSound(s: Pair)
    requires Starts(s)
    ensures Sound(s)
  {
  }

  lemma {:induction false} HistorySound(run: seq<Pair>, moves: seq<Move>, i: nat)
    requires IsHistory(run, moves) && i < |run|
    ensures Sound(run[i])
  {
    StartsSound(run[0]);
    for j := 0 to i
      invariant Sound(run[j])
    {
      HistoryNext(run, moves, j);
    }
  }

  // ----- the guarantee -----

  lemma {:induction false} FlattenPrefix<T>(xs: seq<seq<T>>, ys: seq<seq<T>>)
    requires xs <= ys
    ensures Packing.Flatten(xs) <= Packing.Flatten(ys)
  {
    assert ys == xs + ys[|xs|..];
    Packing.FlattenConcat(xs, ys[|xs|..]);
  }

  lemma SoundStreams(a: Session, b: Session)
    requires Streamed(a) && Streamed(b) && b.e.read <= a.e.written
    ensures b.out + b.left <= a.accepted
  {
    FlattenPrefix(b.e.read, a.e.written);
  }

  /**
   In every state of every history, with writes of any shape and reads of any
   size on both sides: the bytes returned by `Read`, followed by the bytes still
   in its leftover buffer, are a prefix of the bytes the other side accepted.
   */
  lemma BytesArriveInOrder(run: seq<Pair>, moves: seq<Move>, i: nat)
    requires IsHistory(run, moves) && i < |run|
    ensures run[i].b.out + run[i].b.left <= run[i].a.accepted
    ensures run[i].a.out + run[i].a.left <= run[i].b.accepted
  {
    HistorySound(run, moves, i);
    SoundStreams(run[i].a, run[i].b);
    SoundStreams(run[i].b, run[i].a);
  }
}
