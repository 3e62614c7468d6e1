/**
 The packets of the forward error correction layer (network/kcp/fec.go:11-24,
 379-391) and how a recovered shard is turned back into a datagram
 (`ranger`, network/kcp/udp.go:616-630).
 */
module FecPackets {
  import opened Serial
  import opened Wire

  const HEADER: nat := 6
  const TYPE_DATA: u16 := 0xf1
  const TYPE_PARITY: u16 := 0xf2

  function SeqId(p: seq<byte>): u32
    requires |p| >= HEADER
  {
    Decode32u(p)
  }

  function Flag(p: seq<byte>): u16
    requires |p| >= HEADER
  {
    Decode16u(p[4..])
  }

  function Body(p: seq<byte>): seq<byte>
    requires |p| >= HEADER
  {
    p[HEADER..]
  }

  function Framed(id: u32, flag: u16, body: seq<byte>): (p: seq<byte>)
    ensures |p| == HEADER + |body|
  {
    LE32(id) + LE16(flag) + body
  }

  lemma FramedFields(id: u32, flag: u16, body: seq<byte>)
    ensures var p := Framed(id, flag, body); SeqId(p) == id && Flag(p) == flag && Body(p) == body
  {
    var p := Framed(id, flag, body);
    assert p == LE32(id) + (LE16(flag) + body);
    Int32RoundTrip(id, LE16(flag) + body);
    assert p[4..] == LE16(flag) + body;
    Int16RoundTrip(flag, body);
  }

  /** A payload behind its size field; the size counts the field itself. */
  function Sized(content: seq<byte>): (s: seq<byte>)
    ensures |s| == 2 + |content|
  {
    LE16((2 + |content|) % 0x1_0000) + content
  }

  /** Where the fields of a packet stand, and the size field of a payload, byte by byte. */
  lemma PacketLayout(id: u32, flag: u16, content: seq<byte>)
    ensures var p := Framed(id, flag, Sized(content));
      && Little(p, 0) == id && p[4] as int + 256 * p[5] as int == flag
      && p[6] as int + 256 * p[7] as int == (2 + |content|) % 65536
      && p[8..] == content
  {
    var p := Framed(id, flag, Sized(content));
    LittleOf(p, 0, id);
    assert p[4..6] == LE16(flag) && p[6..8] == LE16((2 + |content|) % 0x1_0000);
  }

  function Zeros(n: nat): (z: seq<byte>)
    ensures |z| == n
  {
    seq(n, _ => 0)
  }

  /** Shards are stretched with zeros to a common length. */
  function Pad(s: seq<byte>, n: nat): (p: seq<byte>)
    ensures |p| == Max(n, |s|)
  {
    if |s| < n then s + Zeros(n - |s|) else s
  }

  /** `ranger`: the bytes a recovered shard hands to `Input`, unless its size field is impossible. */
  function Ranger(r: seq<byte>): Option<seq<byte>> {
    if |r| < 2 then None
    else
      var sz := Decode16u(r);
      if 2 <= sz <= |r| then Some(r[2..sz]) else None
  }

  /** Padding is stripped exactly. */
  lemma RangerInverts(content: seq<byte>, n: nat)
    requires 2 + |content| < 0x1_0000
    ensures Ranger(Pad(Sized(content), n)) == Some(content)
  {
    var p := Pad(Sized(content), n);
    var tail := if |Sized(content)| < n then Zeros(n - |Sized(content)|) else [];
    assert p == LE16(2 + |content|) + (content + tail);
    Int16RoundTrip(2 + |content|, content + tail);
    assert p[2..2 + |content|] == content;
  }
}
