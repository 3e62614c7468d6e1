/**
 Who owns the pooled buffers (network/kcp/kcp.go:183-194, 251-286, 403-456,
 488-518, 802-818, 1110-1135; network/kcp/fec.go:103-128, 194-267;
 network/kcp/udp.go:650-660). A segment in one of the four queues owns the
 buffer behind its `Data`, or none once `delSegment` has given it back; so does
 a packet in the decoder's queue, and a shard being recovered. Which segments an
 operation touches is left open here; PoolSimulation shows that every call of
 the engine and of the decoder is a sequence of these operations.
 */
module BufferPool {
  import opened Wire

  /** The name of a buffer; the pool makes a new one when it has none to give. */
  type Buffer = nat

  /**
   The pool, how many buffers were ever made, how often `Get` was called, the
   `Data` of every segment, `None` for nil, the packets the decoder stores, the
   shards it is recovering, and the buffers left to the garbage collector when
   recovering fails.
   */
  datatype Pooled = Pooled(
    free: multiset<Buffer>, made: nat, gets: nat, sndQueue: seq<Option<Buffer>>, sndBuf: seq<Option<Buffer>>,
    rcvQueue: seq<Option<Buffer>>, rcvBuf: seq<Option<Buffer>>,
    packets: seq<Option<Buffer>>, shards: seq<Option<Buffer>>, lost: multiset<Buffer>)

  const EMPTY: Pooled := Pooled(multiset{}, 0, 0, [], [], [], [], [], [], multiset{})

  function Owned(q: seq<Option<Buffer>>): multiset<Buffer> {
    if q == [] then multiset{}
    else (if q[0].Some? then multiset{q[0].value} else multiset{}) + Owned(q[1..])
  }

  // ----- what the operations do -----

  datatype Op =
    | SendPiece(b: Buffer)
    | AckEntry(i: nat)
    | UnaPrefix(n: nat)
    | StoreData(at: nat, b: Buffer)
    | MoveReadable(n: nat)
    | ReadMessage(n: nat)
    | AdmitSegments(n: nat)
    | ReleaseTX
    | StorePacket(at: nat, b: Buffer)
    | FreePackets(first: nat, n: nat)
    | TakeShard(b: Buffer)
    | ReturnShards
    | LoseShards

  /** `Get` may hand out `b`. */
  predicate Gettable(s: Pooled, b: Buffer) {
    b in s.free || b == s.made
  }

  function Got(s: Pooled, b: Buffer): Pooled {
    if b in s.free then s.(free := s.free - multiset{b}, gets := s.gets + 1)
    else s.(made := s.made + 1, gets := s.gets + 1)
  }

  /** One operation, on the segments it happens to concern. */
  ghost predicate Next(s: Pooled, op: Op, t: Pooled) {
    match op
    case SendPiece(b) => Gettable(s, b) && t == Got(s, b).(sndQueue := s.sndQueue + [Some(b)])
    case AckEntry(i) =>
      && i < |s.sndBuf|
      && t == if s.sndBuf[i].Some?
              then s.(free := s.free + multiset{s.sndBuf[i].value}, sndBuf := s.sndBuf[i := None]) else s
    case UnaPrefix(n) =>
      n <= |s.sndBuf| && t == s.(free := s.free + Owned(s.sndBuf[..n]), sndBuf := s.sndBuf[n..])
    case StoreData(at, b) =>
      && at <= |s.rcvBuf| && Gettable(s, b)
      && t == Got(s, b).(rcvBuf := s.rcvBuf[..at] + [Some(b)] + s.rcvBuf[at..])
    case MoveReadable(n) =>
      n <= |s.rcvBuf| && t == s.(rcvQueue := s.rcvQueue + s.rcvBuf[..n], rcvBuf := s.rcvBuf[n..])
    case ReadMessage(n) =>
      n <= |s.rcvQueue| && t == s.(free := s.free + Owned(s.rcvQueue[..n]), rcvQueue := s.rcvQueue[n..])
    case AdmitSegments(n) =>
      n <= |s.sndQueue| && t == s.(sndBuf := s.sndBuf + s.sndQueue[..n], sndQueue := s.sndQueue[n..])
    case ReleaseTX =>
      t == s.(free := s.free + Owned(s.sndQueue) + Owned(s.sndBuf), sndQueue := [], sndBuf := [])
    case StorePacket(at, b) =>
      && at <= |s.packets| && Gettable(s, b)
      && t == Got(s, b).(packets := s.packets[..at] + [Some(b)] + s.packets[at..])
    case FreePackets(first, n) =>
      && first + n <= |s.packets|
      && t == s.(free := s.free + Owned(s.packets[first..first + n]),
                 packets := s.packets[..first] + s.packets[first + n..])
    case TakeShard(b) => Gettable(s, b) && t == Got(s, b).(shards := s.shards + [Some(b)])
    case ReturnShards => t == s.(free := s.free + Owned(s.shards), shards := [])
    case LoseShards => t == s.(lost := s.lost + Owned(s.shards), shards := [])
  }

  // ----- one owner -----

  /** How many segments and packets own buffer `b`. */
  function Owners(s: Pooled, b: Buffer): nat {
    Owned(s.sndQueue)[b] + Owned(s.sndBuf)[b] + Owned(s.rcvQueue)[b] + Owned(s.rcvBuf)[b]
    + Owned(s.packets)[b] + Owned(s.shards)[b]
  }

  /** In how many places it is: in the pool, owned, or left behind. */
  function Places(s: Pooled, b: Buffer): nat {
    s.free[b] + Owners(s, b) + s.lost[b]
  }

  ghost predicate Counted(s: Pooled, b: Buffer) {
    Places(s, b) == if b < s.made then 1 else 0
  }

  /** Every buffer ever made is in exactly one place. */
  ghost predicate OneOwner(s: Pooled) {
    forall b: Buffer :: Counted(s, b)
  }

  lemma {:induction false} OwnedConcat(xs: seq<Option<Buffer>>, ys: seq<Option<Buffer>>)
    ensures Owned(xs + ys) == Owned(xs) + Owned(ys)
  {
    if xs == [] {
      assert xs + ys == ys;
    } else {
      assert (xs + ys)[1..] == xs[1..] + ys;
      OwnedConcat(xs[1..], ys);
    }
  }

  lemma {:induction false} OwnedSplit(q: seq<Option<Buffer>>, n: nat, b: Buffer)
    requires n <= |q|
    ensures Owned(q)[b] == Owned(q[..n])[b] + Owned(q[n..])[b]
  {
    assert q == q[..n] + q[n..];
    OwnedConcat(q[..n], q[n..]);
  }

  lemma {:induction false} OwnedJoin(xs: seq<Option<Buffer>>, ys: seq<Option<Buffer>>, b: Buffer)
    ensures Owned(xs + ys)[b] == Owned(xs)[b] + Owned(ys)[b]
  {
    OwnedConcat(xs, ys);
  }

  lemma OwnedOne(x: Option<Buffer>, b: Buffer)
    ensures Owned([x])[b] == if x == Some(b) then 1 else 0
  {
  }

  lemma {:induction false} OwnedInsert(q: seq<Option<Buffer>>, at: nat, x: Option<Buffer>, b: Buffer)
    requires at <= |q|
    ensures Owned(q[..at] + [x] + q[at..])[b] == Owned(q)[b] + if x == Some(b) then 1 else 0
  {
    OwnedJoin(q[..at] + [x], q[at..], b);
    OwnedJoin(q[..at], [x], b);
    OwnedOne(x, b);
    OwnedSplit(q, at, b);
  }

  lemma {:induction false} OwnedMiddle(q: seq<Option<Buffer>>, first: nat, n: nat, b: Buffer)
    requires first + n <= |q|
    ensures Owned(q)[b] == Owned(q[first..first + n])[b] + Owned(q[..first] + q[first + n..])[b]
  {
    var head := q[..first + n];
    OwnedSplit(q, first + n, b);
    OwnedSplit(head, first, b);
    assert head[..first] == q[..first] && head[first..] == q[first..first + n];
    OwnedJoin(q[..first], q[first + n..], b);
  }

  lemma OwnedClear(q: seq<Option<Buffer>>, i: nat, b: Buffer)
    requires i < |q|
    ensures Owned(q)[b] == Owned(q[i := None])[b] + if q[i] == Some(b) then 1 else 0
  {
    var rest := q[..i] + q[i + 1..];
    assert q == rest[..i] + [q[i]] + rest[i..];
    assert q[i := None] == rest[..i] + [None] + rest[i..];
    OwnedInsert(rest, i, q[i], b);
    OwnedInsert(rest, i, None, b);
  }

  /** Taking a buffer out of the pool, or making one, leaves it in no place yet. */
  lemma GotPlaces(s: Pooled, c: Buffer, b: Buffer)
    requires OneOwner(s) && Gettable(s, c)
    ensures Got(s, c).made >= s.made && c < Got(s, c).made
    ensures Places(Got(s, c), b) + (if b == c then 1 else 0) == if b < Got(s, c).made then 1 else 0
  {
    assert Counted(s, b) && Counted(s, c);
  }

  lemma PacketPlaces(s: Pooled, at: nat, c: Buffer, t: Pooled, b: Buffer)
    requires OneOwner(s) && Next(s, StorePacket(at, c), t)
    ensures Places(t, b) == if b < t.made then 1 else 0
  {
    GotPlaces(s, c, b);
    OwnedInsert(s.packets, at, Some(c), b);
  }

  lemma ShardPlaces(s: Pooled, c: Buffer, t: Pooled, b: Buffer)
    requires OneOwner(s) && Next(s, TakeShard(c), t)
    ensures Places(t, b) == if b < t.made then 1 else 0
  {
    GotPlaces(s, c, b);
    OwnedJoin(s.shards, [Some(c)], b);
    OwnedOne(Some(c), b);
  }

  lemma FreePlaces(s: Pooled, first: nat, n: nat, t: Pooled, b: Buffer)
    requires Next(s, FreePackets(first, n), t)
    ensures Places(t, b) == Places(s, b)
  {
    OwnedMiddle(s.packets, first, n, b);
  }

  lemma SendPlaces(s: Pooled, c: Buffer, t: Pooled, b: Buffer)
    requires OneOwner(s) && Next(s, SendPiece(c), t)
    ensures Places(t, b) == if b < t.made then 1 else 0
  {
    GotPlaces(s, c, b);
    OwnedJoin(s.sndQueue, [Some(c)], b);
    OwnedOne(Some(c), b);
  }

  lemma StorePlaces(s: Pooled, at: nat, c: Buffer, t: Pooled, b: Buffer)
    requires OneOwner(s) && Next(s, StoreData(at, c), t)
    ensures Places(t, b) == if b < t.made then 1 else 0
  {
    GotPlaces(s, c, b);
    OwnedInsert(s.rcvBuf, at, Some(c), b);
  }

  lemma AckPlaces(s: Pooled, i: nat, t: Pooled, b: Buffer)
    requires Next(s, AckEntry(i), t)
    ensures Places(t, b) == Places(s, b)
  {
    OwnedClear(s.sndBuf, i, b);
  }

  /** Giving buffers back, or moving segments on, changes no count. */
  lemma MovePlaces(s: Pooled, op: Op, t: Pooled, b: Buffer)
    requires Next(s, op, t) && (op.MoveReadable? || op.AdmitSegments?)
    ensures Places(t, b) == Places(s, b)
  {
    if op.MoveReadable? {
      OwnedSplit(s.rcvBuf, op.n, b);
      OwnedJoin(s.rcvQueue, s.rcvBuf[..op.n], b);
    } else {
      OwnedSplit(s.sndQueue, op.n, b);
      OwnedJoin(s.sndBuf, s.sndQueue[..op.n], b);
    }
  }

  lemma ReturnPlaces(s: Pooled, op: Op, t: Pooled, b: Buffer)
    requires Next(s, op, t) && (op.UnaPrefix? || op.ReadMessage? || op.ReleaseTX? || op.ReturnShards? || op.LoseShards?)
    ensures Places(t, b) == Places(s, b)
  {
    if op.UnaPrefix? {
      OwnedSplit(s.sndBuf, op.n, b);
    } else if op.ReadMessage? {
      OwnedSplit(s.rcvQueue, op.n, b);
    }
  }

  lemma NextPlaces(s: Pooled, op: Op, t: Pooled, b: Buffer)
    requires OneOwner(s) && Next(s, op, t)
    ensures Places(t, b) == if b < t.made then 1 else 0
  {
    assert Counted(s, b);
    match op
    case SendPiece(c) => SendPlaces(s, c, t, b);
    case StoreData(at, c) => StorePlaces(s, at, c, t, b);
    case AckEntry(i) => AckPlaces(s, i, t, b);
    case MoveReadable(n) => MovePlaces(s, op, t, b);
    case AdmitSegments(n) => MovePlaces(s, op, t, b);
    case StorePacket(at, c) => PacketPlaces(s, at, c, t, b);
    case TakeShard(c) => ShardPlaces(s, c, t, b);
    case FreePackets(first, n) => FreePlaces(s, first, n, t, b);
    case _ => ReturnPlaces(s, op, t, b);
  }

  lemma NextOwns(s: Pooled, op: Op, t: Pooled)
    requires OneOwner(s) && Next(s, op, t)
    ensures OneOwner(t)
  {
    forall b: Buffer ensures Counted(t, b) {
      NextPlaces(s, op, t, b);
    }
  }

  ghost predicate IsRun(run: seq<Pooled>, ops: seq<Op>) {
    && |run| == |ops| + 1 && run[0] == EMPTY
    && forall i :: 0 <= i < |ops| ==> Next(run[i], ops[i], run[i + 1])
  }

  lemma {:induction false} RunOwns(run: seq<Pooled>, ops: seq<Op>, i: nat)
    requires IsRun(run, ops) && i < |run|
    ensures OneOwner(run[i])
  {
    for j := 0 to i
      invariant OneOwner(run[j])
    {
      NextOwns(run[j], ops[j], run[j + 1]);
    }
  }

  /**
   In every state of every run each buffer is either in the pool, once, or owned
   by exactly one live segment, packet or shard, or was left behind; so no
   operation ever gives a buffer back twice or hands one out that is in use.
   */
  lemma BuffersHaveOneOwner(run: seq<Pooled>, ops: seq<Op>, i: nat, b: Buffer)
    requires IsRun(run, ops) && i < |run| && b < run[i].made
    ensures var s := run[i];
      && s.free[b] <= 1 && Owners(s, b) <= 1 && s.lost[b] <= 1
      && s.free[b] + Owners(s, b) + s.lost[b] == 1
  {
    RunOwns(run, ops, i);
    assert Counted(run[i], b);
  }

  // ----- the slices behind the queues -----

  /** Go's `copy(q[at+1:], q[at:])`: overlapping, back to front; `end` is the last place written. */
  method MoveUp<T>(a: array<T>, at: nat, end: nat)
    requires at <= end < a.Length
    modifies a
    ensures a[..at] == old(a[..at]) && a[at + 1..end + 1] == old(a[at..end])
  {
    for i := end downto at
      invariant forall k :: 0 <= k < a.Length ==> a[k] == if i < k <= end then old(a[k - 1]) else old(a[k])
    {
      a[i + 1] := a[i];
    }
  }

  lemma ButLast<T>(mid: seq<T>, lo: nat, was: seq<T>, x: T)
    requires lo + |was| + 1 <= |mid| && mid[lo..lo + |was| + 1] == was + [x]
    ensures mid[lo..lo + |was|] == was
  {
    assert mid[lo..lo + |was|] == mid[lo..lo + |was| + 1][..|was|] == (was + [x])[..|was|];
  }

  /** The stretch from `lo` on, with everything from place `at` moved up by one and `x` put there. */
  lemma MovedUp<T>(mid: seq<T>, now: seq<T>, was: seq<T>, lo: nat, at: nat, x: T)
    requires at <= |was| && lo + |was| + 1 <= |mid| == |now| && mid[lo..lo + |was|] == was
    requires now[lo..lo + at] == mid[lo..lo + at] && now[lo + at] == x
    requires now[lo + at + 1..lo + |was| + 1] == mid[lo + at..lo + |was|]
    ensures now[lo..lo + |was| + 1] == was[..at] + [x] + was[at..]
  {
    var n := now[lo..lo + |was| + 1];
    assert n == now[lo..lo + at] + [now[lo + at]] + now[lo + at + 1..lo + |was| + 1];
    assert mid[lo..lo + at] == was[..at] && mid[lo + at..lo + |was|] == was[at..];
  }

  /** Go's `copy(q, q[n:])` on a slice of `len` elements from `lo` on: overlapping, front to back. */
  method MoveDown<T>(a: array<T>, lo: nat, len: nat, n: nat)
    requires lo + len <= a.Length && n <= len
    modifies a
    ensures a[lo..lo + (len - n)] == old(a[lo + n..lo + len])
  {
    ghost var was := a[..];
    for i := 0 to len - n
      invariant forall k :: lo <= k < lo + i ==> a[k] == was[k + n]
      invariant forall k :: lo + i <= k < lo + len ==> a[k] == was[k]
    {
      a[lo + i] := a[lo + n + i];
    }
  }

  /** A Go slice: `len` elements of a backing array from `lo` on; its capacity reaches to the end of the array. */
  class Slice<T(0)> {
    var back: array<T>
    var lo: nat
    var len: nat

    ghost predicate Valid()
      reads this
    {
      lo + len <= back.Length
    }

    ghost function Contents(): seq<T>
      reads this, back
      requires Valid()
    {
      back[lo..lo + len]
    }

    constructor ()
      ensures Valid() && Contents() == [] && fresh(back)
    {
      back := new T[0];
      lo, len := 0, 0;
    }

    /** Copies the elements to a larger array. */
    method Grow()
      requires Valid()
      modifies this
      ensures Valid() && Contents() == old(Contents()) && fresh(back) && lo + len < back.Length
    {
      var was, start, n := back, lo, len;
      var grown := new T[2 * n + 1];
      for i := 0 to n
        invariant grown[..i] == was[start..start + i]
      {
        grown[i] := was[start + i];
      }
      back, lo, len := grown, 0, n;
    }

    /** `append`: in place while there is capacity, else into a larger array. */
    method Append(x: T)
      requires Valid()
      modifies this, back
      ensures Valid() && Contents() == old(Contents()) + [x] && (back == old(back) || fresh(back))
    {
      if lo + len == back.Length {
        Grow();
      }
      back[lo + len] := x;
      len := len + 1;
    }

    /** The overlapping copy of an insertion, and the element itself. */
    method ShiftUp(at: nat, x: T)
      requires Valid() && at < len
      modifies back
      ensures back[..][lo..lo + at] == old(back[..])[lo..lo + at] && back[..][lo + at] == x
      ensures back[..][lo + at + 1..lo + len] == old(back[..])[lo + at..lo + len - 1]
    {
      MoveUp(back, lo + at, lo + len - 1);
      back[lo + at] := x;
      assert back[..][lo..lo + at] == back[..lo + at][lo..];
      assert back[..][lo + at + 1..lo + len] == back[lo + at + 1..lo + len];
    }

    /** Insertion in the middle: `append` of anything, an overlapping copy one place up, and the element. */
    method Insert(at: nat, x: T)
      requires Valid() && at <= len
      modifies this, back
      ensures Valid() && Contents() == old(Contents())[..at] + [x] + old(Contents())[at..]
      ensures back == old(back) || fresh(back)
    {
      ghost var was := Contents();
      Append(x);
      ghost var mid := back[..];
      ButLast(mid, lo, was, x);
      ShiftUp(at, x);
      MovedUp(mid, back[..], was, lo, at, x);
      assert Contents() == back[..][lo..lo + len];
    }

    /** `removeFront`: moves the rest down in place, or just moves the start up. */
    method RemoveFront(n: nat)
      requires Valid() && n <= len
      modifies this, back
      ensures Valid() && Contents() == old(Contents())[n..] && back == old(back)
    {
      if n > (back.Length - lo) / 2 {
        MoveDown(back, lo, len, n);
        len := len - n;
      } else {
        lo, len := lo + n, len - n;
      }
    }
  }
}
