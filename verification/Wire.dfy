/**
 The wire format: the 24-byte little-endian header, the in-place encoders that
 write it into the shared send buffer (network/kcp/kcp.go:40-129), the loop of
 `Input` that takes a datagram apart (network/kcp/kcp.go:552-570), and the way
 `flush` packs segments into datagrams (network/kcp/kcp.go:697-716).
 */
module Wire {
  import opened Serial

  type byte = x: int | 0 <= x < 256
  const OVERHEAD: nat := 24
  const CMD_PUSH: byte := 81
  const CMD_ACK: byte := 82
  const CMD_WASK: byte := 83
  const CMD_WINS: byte := 84

  datatype Option<+T> = None | Some(value: T)

  /** The length of every pooled buffer; a longer slice of one is a panic. */
  const MTU_LIMIT: nat := 1500

  /** A copy of `data` in a slice of a pooled buffer. */
  function Copied(data: seq<byte>): (copy: seq<byte>)
    requires |data| <= MTU_LIMIT
    ensures copy == data
  {
    data
  }

  /** What of a segment travels; the length field is the length of `data`. */
  datatype WireSegment = WireSegment(
    conv: u32, cmd: byte, frg: byte, wnd: u16, ts: u32, sn: u32, una: u32, data: seq<byte>)

  // ----- little-endian integers -----

  function LE16(w: u16): (r: seq<byte>)
    ensures |r| == 2
  {
    [w % 256, w / 256]
  }

  function LE32(l: u32): (r: seq<byte>)
    ensures |r| == 4
  {
    [l % 256, l / 0x100 % 256, l / 0x1_0000 % 256, l / 0x100_0000]
  }

  function Decode16u(p: seq<byte>): u16
    requires |p| >= 2
  {
    p[0] as int + 0x100 * p[1] as int
  }

  function Decode32u(p: seq<byte>): u32
    requires |p| >= 4
  {
    p[0] as int + 0x100 * p[1] as int + 0x1_0000 * p[2] as int + 0x100_0000 * p[3] as int
  }

  lemma Int16RoundTrip(w: u16, rest: seq<byte>)
    ensures Decode16u(LE16(w) + rest) == w
  {
  }

  lemma Int32RoundTrip(l: u32, rest: seq<byte>)
    ensures Decode32u(LE32(l) + rest) == l
  {
    var p := LE32(l) + rest;
    assert p[0] == l % 256 && p[1] == l / 0x100 % 256 && p[2] == l / 0x1_0000 % 256 && p[3] == l / 0x100_0000;
    assert l / 0x100 / 0x100 == l / 0x1_0000;
    assert l / 0x1_0000 / 0x100 == l / 0x100_0000;
  }

  // ----- one segment -----

  /** The header written by `segment.encode`. */
  function Header(s: WireSegment): (h: seq<byte>)
    ensures |h| == OVERHEAD
  {
    LE32(s.conv) + [s.cmd, s.frg] + LE16(s.wnd) + LE32(s.ts) + LE32(s.sn) + LE32(s.una) + LE32(Wrap(|s.data|))
  }

  function Encoded(s: WireSegment): (b: seq<byte>)
    ensures |b| == OVERHEAD + |s.data|
  {
    Header(s) + s.data
  }

  /** The number in the four bytes of `p` from `at` on, the least significant first. */
  function Little(p: seq<byte>, at: nat): int
    requires at + 4 <= |p|
  {
    p[at] as int + 256 * p[at + 1] as int + 65536 * p[at + 2] as int + 16777216 * p[at + 3] as int
  }

  lemma LittleOf(p: seq<byte>, at: nat, l: u32)
    requires at + 4 <= |p| && p[at..at + 4] == LE32(l)
    ensures Little(p, at) == l
  {
    Int32RoundTrip(l, []);
    assert LE32(l) + [] == LE32(l);
    assert p[at] == LE32(l)[0] && p[at + 1] == LE32(l)[1] && p[at + 2] == LE32(l)[2] && p[at + 3] == LE32(l)[3];
  }

  /** Where each field stands in the header, byte by byte. */
  lemma HeaderLayout(s: WireSegment)
    ensures var h := Header(s);
      && Little(h, 0) == s.conv && h[4] == s.cmd && h[5] == s.frg && h[6] as int + 256 * h[7] as int == s.wnd
      && Little(h, 8) == s.ts && Little(h, 12) == s.sn && Little(h, 16) == s.una
      && Little(h, 20) == |s.data| % 0x1_0000_0000
  {
    var h := Header(s);
    LittleOf(h, 0, s.conv);
    LittleOf(h, 8, s.ts);
    LittleOf(h, 12, s.sn);
    LittleOf(h, 16, s.una);
    LittleOf(h, 20, Wrap(|s.data|));
  }

  /** `p` with `chunk` written over it from index `at` on, everything else kept. */
  ghost function Splice(p: seq<byte>, at: nat, chunk: seq<byte>): (r: seq<byte>)
    requires at + |chunk| <= |p|
    ensures |r| == |p|
  {
    p[..at] + chunk + p[at + |chunk|..]
  }

  lemma SpliceTwice(p: seq<byte>, at: nat, x: seq<byte>, y: seq<byte>)
    requires at + |x| + |y| <= |p|
    ensures Splice(Splice(p, at, x), at + |x|, y) == Splice(p, at, x + y)
  {
  }

  method Encode8u(p: array<byte>, at: nat, c: byte) returns (next: nat)
    requires at + 1 <= p.Length
    modifies p
    ensures next == at + 1 && p[..] == Splice(old(p[..]), at, [c])
  {
    p[at] := c;
    next := at + 1;
  }

  method Encode16u(p: array<byte>, at: nat, w: u16) returns (next: nat)
    requires at + 2 <= p.Length
    modifies p
    ensures next == at + 2 && p[..] == Splice(old(p[..]), at, LE16(w))
  {
    p[at], p[at + 1] := w % 256, w / 256;
    next := at + 2;
  }

  method Encode32u(p: array<byte>, at: nat, l: u32) returns (next: nat)
    requires at + 4 <= p.Length
    modifies p
    ensures next == at + 4 && p[..] == Splice(old(p[..]), at, LE32(l))
  {
    p[at], p[at + 1] := l % 256, l / 0x100 % 256;
    p[at + 2], p[at + 3] := l / 0x1_0000 % 256, l / 0x100_0000;
    next := at + 4;
  }

  /** `segment.encode`: writes the header at `at` and nothing else. */
  method EncodeHeader(s: WireSegment, p: array<byte>, at: nat) returns (next: nat)
    requires at + OVERHEAD <= p.Length
    modifies p
    ensures next == at + OVERHEAD && p[..] == Splice(old(p[..]), at, Header(s))
  {
    ghost var was := p[..];
    next := Encode32u(p, at, s.conv);
    ghost var h := LE32(s.conv);
    next := Encode8u(p, next, s.cmd);
    SpliceTwice(was, at, h, [s.cmd]);
    next := Encode8u(p, next, s.frg);
    h := h + [s.cmd];
    SpliceTwice(was, at, h, [s.frg]);
    next := Encode16u(p, next, s.wnd);
    h := h + [s.frg];
    SpliceTwice(was, at, h, LE16(s.wnd));
    next := Encode32u(p, next, s.ts);
    h := h + LE16(s.wnd);
    SpliceTwice(was, at, h, LE32(s.ts));
    next := Encode32u(p, next, s.sn);
    h := h + LE32(s.ts);
    SpliceTwice(was, at, h, LE32(s.sn));
    next := Encode32u(p, next, s.una);
    h := h + LE32(s.sn);
    SpliceTwice(was, at, h, LE32(s.una));
    next := Encode32u(p, next, Wrap(|s.data|));
    h := h + LE32(s.una);
    SpliceTwice(was, at, h, LE32(Wrap(|s.data|)));
    assert h + LE32(Wrap(|s.data|)) == Header(s);
  }

  lemma SpliceEnds(was: seq<byte>, at: nat, data: seq<byte>)
    requires at + |data| <= |was|
    ensures Splice(was, at, data[..0]) == was && data[..|data|] == data
  {
  }

  lemma SpliceNext(was: seq<byte>, at: nat, data: seq<byte>, i: nat)
    requires at + |data| <= |was| && i < |data|
    ensures Splice(Splice(was, at, data[..i]), at + i, [data[i]]) == Splice(was, at, data[..i + 1])
  {
    SpliceTwice(was, at, data[..i], [data[i]]);
    assert data[..i + 1] == data[..i] + [data[i]];
  }

  /** Go's `copy(ptr, data)` into the space that `makeSpace` reserved. */
  method CopyInto(p: array<byte>, at: nat, data: seq<byte>)
    requires at + |data| <= p.Length
    modifies p
    ensures p[..] == Splice(old(p[..]), at, data)
  {
    ghost var was := p[..];
    SpliceEnds(was, at, data);
    for i := 0 to |data|
      invariant p[..] == Splice(was, at, data[..i])
    {
      SpliceNext(was, at, data, i);
      var _ := Encode8u(p, at + i, data[i]);
    }
  }

  // ----- a run of segments and how `Input` parses it -----

  ghost predicate Known(cmd: byte) {
    cmd == CMD_PUSH || cmd == CMD_ACK || cmd == CMD_WASK || cmd == CMD_WINS
  }

  ghost predicate Sendable(s: WireSegment, conv: u32) {
    s.conv == conv && Known(s.cmd) && |s.data| < FULL
  }

  ghost predicate AllSendable(segs: seq<WireSegment>, conv: u32) {
    forall s :: s in segs ==> Sendable(s, conv)
  }

  ghost function Bytes(segs: seq<WireSegment>): seq<byte>
  {
    if segs == [] then [] else Encoded(segs[0]) + Bytes(segs[1..])
  }

  /** Why the parsing loop of `Input` stops. */
  datatype Ending = Exhausted | Foreign | Truncated | Unknown(seg: WireSegment)

  datatype Parsed = Parsed(segs: seq<WireSegment>, ending: Ending)

  function HeaderOf(data: seq<byte>): (s: WireSegment)
    requires |data| >= OVERHEAD
  {
    WireSegment(
      Decode32u(data), data[4], data[5], Decode16u(data[6..]), Decode32u(data[8..]),
      Decode32u(data[12..]), Decode32u(data[16..]), [])
  }

  function LengthOf(data: seq<byte>): u32
    requires |data| >= OVERHEAD
  {
    Decode32u(data[20..])
  }

  /** Every segment `Input` processes, and the reason it stops. */
  ghost function Parse(data: seq<byte>, conv: u32): Parsed {
    if |data| < OVERHEAD then Parsed([], Exhausted)
    else
      var head, length, rest := HeaderOf(data), LengthOf(data), data[OVERHEAD..];
      if head.conv != conv then Parsed([], Foreign)
      else if |rest| < length then Parsed([], Truncated)
      else
        var seg := head.(data := rest[..length]);
        if !Known(seg.cmd) then Parsed([], Unknown(seg))
        else
          var more := Parse(rest[length..], conv);
          Parsed([seg] + more.segs, more.ending)
  }

  /** Where the fields of a header lie. */
  lemma HeaderSlices(s: WireSegment, rest: seq<byte>)
    ensures var d := Header(s) + rest;
      && |d| >= OVERHEAD && d[OVERHEAD..] == rest
      && d == LE32(s.conv) + d[4..] && d[4] == s.cmd && d[5] == s.frg
      && d[6..] == LE16(s.wnd) + d[8..] && d[8..] == LE32(s.ts) + d[12..]
  {
  }

  lemma HeaderSlicesEnd(s: WireSegment, rest: seq<byte>)
    ensures var d := Header(s) + rest;
      && |d| >= OVERHEAD && d[12..] == LE32(s.sn) + d[16..]
      && d[16..] == LE32(s.una) + d[20..] && d[20..] == LE32(Wrap(|s.data|)) + d[24..]
  {
  }

  lemma HeaderRoundTrip(s: WireSegment, rest: seq<byte>)
    requires |s.data| < FULL
    ensures HeaderOf(Header(s) + rest) == s.(data := []) && LengthOf(Header(s) + rest) == |s.data|
  {
    var d := Header(s) + rest;
    HeaderSlices(s, rest);
    HeaderSlicesEnd(s, rest);
    Int32RoundTrip(s.conv, d[4..]);
    Int16RoundTrip(s.wnd, d[8..]);
    Int32RoundTrip(s.ts, d[12..]);
    Int32RoundTrip(s.sn, d[16..]);
    Int32RoundTrip(s.una, d[20..]);
    Int32RoundTrip(Wrap(|s.data|), d[24..]);
    WrapId(|s.data|);
  }

  /** One segment at the front parses as itself. */
  lemma {:induction false} ParseStep(s: WireSegment, rest: seq<byte>, conv: u32)
    requires Sendable(s, conv)
    ensures Parse(Encoded(s) + rest, conv)
            == Parsed([s] + Parse(rest, conv).segs, Parse(rest, conv).ending)
  {
    var all := Encoded(s) + rest;
    var after := s.data + rest;
    assert all == Header(s) + after;
    HeaderRoundTrip(s, after);
    assert all[OVERHEAD..] == after;
    assert after[..|s.data|] == s.data && after[|s.data|..] == rest;
    assert s.(data := []).(data := s.data) == s;
  }

  /** Parsing what was written yields the segments, none split, lost or repeated. */
  lemma {:induction false} ParseInvertsBytes(segs: seq<WireSegment>, conv: u32, tail: seq<byte>)
    requires AllSendable(segs, conv) && |tail| < OVERHEAD
    ensures Parse(Bytes(segs) + tail, conv) == Parsed(segs, Exhausted)
  {
    if segs == [] {
      assert Bytes(segs) + tail == tail;
    } else {
      assert Sendable(segs[0], conv);
      assert Bytes(segs) + tail == Encoded(segs[0]) + (Bytes(segs[1..]) + tail);
      ParseStep(segs[0], Bytes(segs[1..]) + tail, conv);
      assert AllSendable(segs[1..], conv) by {
        assert forall x :: x in segs[1..] ==> x in segs;
      }
      ParseInvertsBytes(segs[1..], conv, tail);
      assert [segs[0]] + segs[1..] == segs;
    }
  }

  /** The four digits of a number in base 256. */
  lemma Digits(a: byte, b: byte, c: byte, d: byte)
    ensures var l := a as int + 0x100 * b as int + 0x1_0000 * c as int + 0x100_0000 * d as int;
      l % 256 == a && l / 0x100 % 256 == b && l / 0x1_0000 % 256 == c && l / 0x100_0000 == d
  {
    var l := a as int + 0x100 * b as int + 0x1_0000 * c as int + 0x100_0000 * d as int;
    assert l / 0x100 == b as int + 0x100 * c as int + 0x1_0000 * d as int;
    assert l / 0x1_0000 == c as int + 0x100 * d as int;
  }

  lemma Int32Inverse(p: seq<byte>)
    requires |p| >= 4
    ensures LE32(Decode32u(p)) == p[..4]
  {
    Digits(p[0], p[1], p[2], p[3]);
  }

  lemma Int16Inverse(p: seq<byte>)
    requires |p| >= 2
    ensures LE16(Decode16u(p)) == p[..2]
  {
    var w := Decode16u(p);
    assert w % 256 == p[0] && w / 256 == p[1];
  }

  /** The header is its fields put together. */
  lemma SlicesJoin(data: seq<byte>)
    requires |data| >= OVERHEAD
    ensures data[..OVERHEAD] == data[..4] + [data[4]] + [data[5]] + data[6..][..2] + data[8..][..4] + data[12..][..4]
                                + data[16..][..4] + data[20..][..4]
  {
  }

  lemma HeaderInverse(data: seq<byte>, body: seq<byte>)
    requires |data| >= OVERHEAD && |body| == LengthOf(data)
    ensures Header(HeaderOf(data).(data := body)) == data[..OVERHEAD]
  {
    var s := HeaderOf(data).(data := body);
    Int32Inverse(data);
    Int16Inverse(data[6..]);
    Int32Inverse(data[8..]);
    Int32Inverse(data[12..]);
    Int32Inverse(data[16..]);
    Int32Inverse(data[20..]);
    WrapId(|body|);
    SlicesJoin(data);
  }

  /** Conversely, a fully parsed datagram is its segments re-encoded, plus less than one header. */
  lemma {:induction false} BytesInvertsParse(data: seq<byte>, conv: u32) returns (tail: seq<byte>)
    requires Parse(data, conv).ending == Exhausted
    ensures AllSendable(Parse(data, conv).segs, conv)
    ensures |tail| < OVERHEAD && data == Bytes(Parse(data, conv).segs) + tail
    decreases |data|
  {
    if |data| < OVERHEAD {
      tail := data;
    } else {
      var length, rest := LengthOf(data), data[OVERHEAD..];
      var seg := HeaderOf(data).(data := rest[..length]);
      tail := BytesInvertsParse(rest[length..], conv);
      var segs := Parse(data, conv).segs;
      assert segs[1..] == Parse(rest[length..], conv).segs;
      HeaderInverse(data, rest[..length]);
      assert data == data[..OVERHEAD] + rest[..length] + rest[length..];
    }
  }

  lemma {:induction false} BytesAppend(segs: seq<WireSegment>, s: WireSegment)
    ensures Bytes(segs + [s]) == Bytes(segs) + Encoded(s)
  {
    if segs == [] {
      assert Bytes([s]) == Encoded(s) + Bytes([]);
    } else {
      assert (segs + [s])[1..] == segs[1..] + [s];
      BytesAppend(segs[1..], s);
    }
  }

  lemma {:induction false} BytesEmpty(segs: seq<WireSegment>)
    ensures |Bytes(segs)| >= OVERHEAD * |segs|
  {
    if segs != [] {
      BytesEmpty(segs[1..]);
    }
  }
}
