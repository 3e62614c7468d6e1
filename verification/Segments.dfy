/** The segment record and the two halves of a connection's queues (network/kcp/kcp.go:100-161). */
module Segments {
  import opened Serial
  import opened Wire

  datatype Segment = Segment(
    conv: u32, cmd: byte, frg: byte, wnd: u16, ts: u32, sn: u32, una: u32,
    rto: u32, xmit: u32, resendts: u32, fastack: u32, acked: bool, data: seq<byte>)

  datatype AckItem = AckItem(sn: u32, ts: u32)

  /** What is waiting to be sent, and what is sent but not yet acknowledged. */
  datatype Sender = Sender(una: u32, nxt: u32, queue: seq<Segment>, buf: seq<Segment>)

  /** What has arrived out of order, and what is ready to be read. */
  datatype Receiver = Receiver(nxt: u32, wnd: u32, queue: seq<Segment>, buf: seq<Segment>)

  /** What identifies a fragment end to end. */
  datatype Fragment = Fragment(frg: byte, data: seq<byte>)

  function Fresh(frg: byte, data: seq<byte>): Segment {
    Segment(0, 0, frg, 0, 0, 0, 0, 0, 0, 0, 0, false, data)
  }

  function FragmentOf(s: Segment): Fragment {
    Fragment(s.frg, s.data)
  }

  function OnWire(s: Segment): WireSegment {
    WireSegment(s.conv, s.cmd, s.frg, s.wnd, s.ts, s.sn, s.una, s.data)
  }

  /** The record `Input` builds from a parsed push segment. */
  function FromWire(w: WireSegment): Segment {
    Segment(w.conv, w.cmd, w.frg, w.wnd, w.ts, w.sn, w.una, 0, 0, 0, 0, false, w.data)
  }
}
