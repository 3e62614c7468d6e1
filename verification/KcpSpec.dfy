/**
 A whole protocol endpoint as a value, and what each entry point of
 network/kcp/kcp.go does to it. The class in KcpEngine is proved to compute
 exactly these functions.
 */
module KcpSpec {
  import opened Serial
  import opened Wire
  import opened Packing
  import opened Segments
  import SendWindow
  import ReceiveWindow
  import Fragmentation
  import Retransmit
  import RoundTrip
  import Congestion

  const WND_SND: u32 := 32
  const WND_RCV: u32 := 32
  const MTU_DEF: u32 := 1400
  const INTERVAL_DEF: u32 := 100
  const DEADLINK: u32 := 20
  const PROBE_INIT: u32 := 7000
  const PROBE_LIMIT: u32 := 120000
  const ALL_ONES: u32 := 0xffff_ffff

  datatype Config = Config(
    conv: u32, mtu: u32, mss: u32, reserved: nat, sndWnd: u32, interval: u32, nodelay: u32,
    fastresend: i32, nocwnd: i32, stream: i32, deadLink: u32, rxMinrto: u32)

  /** The two probe flags and the timer for asking about a closed window. */
  datatype Probe = Probe(ask: bool, tell: bool, ts: u32, wait: u32)

  datatype Kcp = Kcp(
    cfg: Config, snd: Sender, rcv: Receiver, win: Congestion.Window, rtt: RoundTrip.Rtt,
    acks: seq<AckItem>, probe: Probe, state: u32, updated: bool, tsFlush: u32)

  /** `NewKCP`. */
  function New(conv: u32): Kcp {
    Kcp(Config(conv, MTU_DEF, MTU_DEF - OVERHEAD, 0, WND_SND, INTERVAL_DEF, 0, 0, 0, 0, DEADLINK, RoundTrip.RTO_MIN),
        Sender(0, 0, [], []), Receiver(0, WND_RCV, [], []),
        Congestion.Window(Congestion.THRESH_INIT, 0, 0, WND_RCV),
        RoundTrip.Rtt(0, 0, RoundTrip.RTO_DEF), [], Probe(false, false, 0, 0), 0, false, INTERVAL_DEF)
  }

  // ----- settings -----

  /** `ReserveBytes`: whether it is accepted, and the settings afterwards. */
  function BytesReserved(cfg: Config, n: int): (bool, Config) {
    if n >= Wrap(cfg.mtu - OVERHEAD) || n < 0 then (false, cfg)
    else (true, cfg.(reserved := n, mss := Wrap(cfg.mtu - OVERHEAD - n)))
  }

  /** `SetMtu`: the return code, and the settings afterwards. The reserved bytes are checked against the old MTU. */
  function MtuSet(cfg: Config, mtu: int): (int, Config) {
    if mtu < 50 || mtu < OVERHEAD then (-1, cfg)
    else if cfg.reserved >= Wrap(cfg.mtu - OVERHEAD) then (-1, cfg)
    else (0, cfg.(mtu := Wrap(mtu), mss := Wrap(mtu - OVERHEAD - cfg.reserved)))
  }

  // ----- Send and Recv -----

  function Send(k: Kcp, data: seq<byte>): (int, Kcp)
    requires k.cfg.mss > 0
  {
    var r := Fragmentation.Send(k.snd.queue, data, k.cfg.mss, k.cfg.stream != 0);
    (r.code, k.(snd := k.snd.(queue := r.queue)))
  }

  function Recv(k: Kcp, capacity: nat): (ReceiveWindow.Received, Kcp) {
    var r := ReceiveWindow.Recv(k.rcv, capacity);
    (r, k.(rcv := r.rest, probe := k.probe.(tell := k.probe.tell || r.tell)))
  }

  // ----- flush -----

  /** `wndUnused`, cut to 16 bits. */
  function WndUnused(r: Receiver): u16 {
    if |r.queue| < r.wnd then (r.wnd - |r.queue|) % 0x1_0000 else 0
  }

  /** The control segment `flush` reuses; `a` supplies its number and time. */
  function Control(k: Kcp, cmd: byte, a: AckItem): WireSegment {
    WireSegment(k.cfg.conv, cmd, 0, WndUnused(k.rcv), a.ts, a.sn, k.rcv.nxt, [])
  }

  /** Old acknowledgements are dropped, except the last of the list. */
  predicate Keeps(acks: seq<AckItem>, i: nat, nxt: u32)
    requires i < |acks|
  {
    Diff(acks[i].sn, nxt) >= 0 || i == |acks| - 1
  }

  function AckEmission(k: Kcp, i: nat): Emission
    requires i < |k.acks|
  {
    Emission(OVERHEAD, if Keeps(k.acks, i, k.rcv.nxt) then Some(Control(k, CMD_ACK, k.acks[i])) else None)
  }

  function AckEmissions(k: Kcp): (es: seq<Emission>)
    ensures |es| == |k.acks|
  {
    seq(|k.acks|, i requires 0 <= i < |k.acks| => AckEmission(k, i))
  }

  function LastAck(acks: seq<AckItem>): AckItem {
    if acks == [] then AckItem(0, 0) else acks[|acks| - 1]
  }

  /** The probe timer of a closed remote window. */
  function NextProbe(p: Probe, rmtWnd: u32, now: u32): Probe {
    if rmtWnd != 0 then p.(ts := 0, wait := 0)
    else if p.wait == 0 then p.(wait := PROBE_INIT, ts := Wrap(now + PROBE_INIT))
    else if Diff(now, p.ts) >= 0 then
      var base := Max(p.wait, PROBE_INIT);
      var wait := Min(Wrap(base + base / 2), PROBE_LIMIT);
      p.(wait := wait, ts := Wrap(now + wait), ask := true)
    else p
  }

  function ProbeEmissions(k: Kcp, p: Probe): seq<Emission> {
    (if p.ask then [Emission(OVERHEAD, Some(Control(k, CMD_WASK, LastAck(k.acks))))] else [])
    + (if p.tell then [Emission(OVERHEAD, Some(Control(k, CMD_WINS, LastAck(k.acks))))] else [])
  }

  function PushEmissions(ws: seq<WireSegment>): (es: seq<Emission>)
    ensures |es| == |ws|
  {
    seq(|ws|, i requires 0 <= i < |ws| => Emission(OVERHEAD + |ws[i].data|, Some(ws[i])))
  }

  /** The window a flush may fill. */
  function SendLimit(k: Kcp): u32 {
    var w := Min(k.cfg.sndWnd, k.win.rmtWnd);
    if k.cfg.nocwnd == 0 then Min(k.win.cwnd, w) else w
  }

  function Resent(cfg: Config): u32 {
    if cfg.fastresend <= 0 then ALL_ONES else cfg.fastresend
  }

  /** The send side with the window filled up. */
  function Admitted(k: Kcp): Sender {
    SendWindow.Admit(k.snd, SendLimit(k), k.cfg.conv)
  }

  function PassOf(k: Kcp, now: u32): Retransmit.Pass {
    Retransmit.Pass(now, Resent(k.cfg), SendWindow.Room(k.snd, SendLimit(k)), k.rtt.rto, k.cfg.nodelay,
                    k.cfg.interval, WndUnused(k.rcv), k.rcv.nxt)
  }

  /** Some transmission of the pass reaches the dead-link count. */
  predicate GoesDead(buf: seq<Segment>, p: Retransmit.Pass, deadLink: u32) {
    buf != []
    && (GoesDead(buf[..|buf| - 1], p, deadLink)
        || (Retransmit.Goes(Retransmit.Classify(buf[|buf| - 1], p))
            && Retransmit.Touch(buf[|buf| - 1], p).xmit >= deadLink))
  }

  /** The congestion window after a pass over `buf`. */
  function WindowAfter(w: Congestion.Window, cfg: Config, buf: seq<Segment>, p: Retransmit.Pass, limit: u32,
                       inflight: u32): Congestion.Window
  {
    if cfg.nocwnd != 0 then w
    else
      Congestion.Shrink(
        w, Retransmit.Count(buf, p, Retransmit.Lost),
        Retransmit.Count(buf, p, Retransmit.Fast) + Retransmit.Count(buf, p, Retransmit.Early),
        limit, Resent(cfg), inflight, cfg.mss)
  }

  /** `segs`: fill the window, pass over the buffer, adjust the congestion window. */
  function PushFlush(k: Kcp, now: u32): Kcp {
    var s := Admitted(k);
    var p := PassOf(k, now);
    k.(snd := s.(buf := Retransmit.Touched(s.buf, p)),
       win := WindowAfter(k.win, k.cfg, s.buf, p, SendLimit(k), Offset(s.nxt, s.una)),
       state := if GoesDead(s.buf, p, k.cfg.deadLink) then ALL_ONES else k.state)
  }

  datatype Flushed = Flushed(k: Kcp, out: seq<Emission>, delay: u32)

  /** `flush(ackOnly)` at time `now`. */
  function Flush(k: Kcp, ackOnly: bool, now: u32): Flushed {
    if ackOnly then Flushed(k.(acks := []), AckEmissions(k), k.cfg.interval)
    else
      var p := NextProbe(k.probe, k.win.rmtWnd, now);
      var after := PushFlush(k.(acks := [], probe := p.(ask := false, tell := false)), now);
      Flushed(after,
              AckEmissions(k) + ProbeEmissions(k, p)
              + PushEmissions(Retransmit.Outgoing(Admitted(k).buf, PassOf(k, now))),
              Retransmit.Soonest(Admitted(k).buf, PassOf(k, now)))
  }

  // ----- Input -----

  /** The state of the loop of `Input`. */
  datatype Feed = Feed(k: Kcp, acked: bool, latest: u32, slides: bool)

  /** What every segment does before its command is looked at: `settings` and `shrinkBuf`. */
  function Settle(f: Feed, w: WireSegment, regular: bool): Feed {
    f.(slides := SendWindow.Covered(f.k.snd, w.una) > 0,
       k := f.k.(snd := SendWindow.AdvanceUna(f.k.snd, w.una),
                 win := if regular then f.k.win.(rmtWnd := w.wnd) else f.k.win))
  }

  function TakeAck(f: Feed, w: WireSegment): Feed {
    f.(acked := true, latest := w.ts,
       k := f.k.(snd := SendWindow.ParseFastack(SendWindow.ParseAck(f.k.snd, w.sn), w.sn, w.ts)))
  }

  /** A segment not beyond the window is acknowledged; one inside the window is also stored. */
  function TakePush(k: Kcp, w: WireSegment): Kcp {
    k.(acks := if Diff(w.sn, Wrap(k.rcv.nxt + k.rcv.wnd)) < 0 then k.acks + [AckItem(w.sn, w.ts)] else k.acks,
       rcv := ReceiveWindow.ParseData(k.rcv, FromWire(w)))
  }

  /** The switch on the command. */
  function Dispatch(f: Feed, w: WireSegment): Feed {
    if w.cmd == CMD_ACK then TakeAck(f, w)
    else if w.cmd == CMD_PUSH then f.(k := TakePush(f.k, w))
    else if w.cmd == CMD_WASK then f.(k := f.k.(probe := f.k.probe.(tell := true)))
    else f
  }

  function Process(f: Feed, w: WireSegment, regular: bool): Feed {
    Dispatch(Settle(f, w, regular), w)
  }

  function ProcessAll(f: Feed, ws: seq<WireSegment>, regular: bool): Feed
    decreases |ws|
  {
    if ws == [] then f else ProcessAll(Process(f, ws[0], regular), ws[1..], regular)
  }

  /** The round-trip sample of the last acknowledgement in the datagram. */
  function Sample(f: Feed, regular: bool, now: u32): Kcp {
    if f.acked && regular && Diff(now, f.latest) >= 0
    then f.k.(rtt := RoundTrip.UpdateAck(f.k.rtt, Diff(now, f.latest), f.k.cfg.interval, f.k.cfg.rxMinrto))
    else f.k
  }

  function OpenWindow(k: Kcp, una: u32): Kcp
    requires k.cfg.mss > 0
  {
    if k.cfg.nocwnd == 0 && Diff(k.snd.una, una) > 0 then k.(win := Congestion.Grow(k.win, k.cfg.mss)) else k
  }

  /** The flush at the end of `Input`; only the last segment decides whether the window slid. */
  function Respond(k: Kcp, slides: bool, ackNoDelay: bool, now: u32): Flushed {
    if slides then Flush(k, false, now)
    else if ackNoDelay && k.acks != [] then Flush(k, true, now)
    else Flushed(k, [], 0)
  }

  lemma {:induction false} ProcessAllConfig(f: Feed, ws: seq<WireSegment>, regular: bool)
    ensures ProcessAll(f, ws, regular).k.cfg == f.k.cfg
    decreases |ws|
  {
    if ws != [] {
      ProcessAllConfig(Process(f, ws[0], regular), ws[1..], regular);
    }
  }

  /** The state after the loop over a datagram's segments. */
  ghost function Arrived(k: Kcp, data: seq<byte>, regular: bool): (f: Feed)
    ensures f.k.cfg == k.cfg
  {
    ProcessAllConfig(Feed(k, false, 0, false), Parse(data, k.cfg.conv).segs, regular);
    ProcessAll(Feed(k, false, 0, false), Parse(data, k.cfg.conv).segs, regular)
  }

  /** The datagram is used up, so that `Input` gets beyond its loop. */
  ghost predicate UsedUp(k: Kcp, data: seq<byte>) {
    |data| >= OVERHEAD && Parse(data, k.cfg.conv).ending == Exhausted
  }

  /** The state the answering flush starts from: sampled, and with the window grown. */
  ghost function Opened(k: Kcp, data: seq<byte>, regular: bool, now: u32): (o: Kcp)
    requires k.cfg.mss > 0
    ensures o.cfg == k.cfg && o.snd == Arrived(k, data, regular).k.snd
  {
    OpenWindow(Sample(Arrived(k, data, regular), regular, now), k.snd.una)
  }

  datatype InputResult = InputResult(code: int, k: Kcp, out: seq<Emission>)

  ghost function Input(k: Kcp, data: seq<byte>, regular: bool, ackNoDelay: bool, now: u32): InputResult
    requires k.cfg.mss > 0
  {
    if |data| < OVERHEAD then InputResult(-1, k, [])
    else
      var f := Arrived(k, data, regular);
      match Parse(data, k.cfg.conv).ending
      case Foreign => InputResult(-1, f.k, [])
      case Truncated => InputResult(-2, f.k, [])
      case Unknown(w) => InputResult(-3, Settle(f, w, regular).k, [])
      case Exhausted =>
        var r := Respond(Opened(k, data, regular, now), f.slides, ackNoDelay, now);
        InputResult(0, r.k, r.out)
  }

  /** The two ways `Input` ends: it concludes, or it stops early and sends nothing. */
  lemma InputEnds(k: Kcp, data: seq<byte>, regular: bool, ackNoDelay: bool, now: u32) returns (w: WireSegment)
    requires k.cfg.mss > 0
    ensures var r, f := Input(k, data, regular, ackNoDelay, now), Arrived(k, data, regular);
      if UsedUp(k, data) then
        var a := Respond(Opened(k, data, regular, now), f.slides, ackNoDelay, now);
        r.code == 0 && r.k == a.k && r.out == a.out
      else r.code < 0 && r.out == [] && (r.k == k || r.k == f.k || r.k == Settle(f, w, regular).k)
  {
    match Parse(data, k.cfg.conv).ending
    case Unknown(v) => w := v;
    case _ => w := WireSegment(0, 0, 0, 0, 0, 0, 0, []);
  }

  lemma {:induction false} ProcessAllConcat(f: Feed, xs: seq<WireSegment>, ys: seq<WireSegment>, regular: bool)
    ensures ProcessAll(f, xs + ys, regular) == ProcessAll(ProcessAll(f, xs, regular), ys, regular)
    decreases |xs|
  {
    if xs == [] {
      assert xs + ys == ys;
    } else {
      assert (xs + ys)[1..] == xs[1..] + ys;
      ProcessAllConcat(Process(f, xs[0], regular), xs[1..], ys, regular);
    }
  }

  // ----- Update and Check -----

  const SLAP: int := 10000

  /** The flush time `Update` works with: reset on the first call and when far off. */
  function FlushTime(k: Kcp, now: u32): u32 {
    if !k.updated || Diff(now, k.tsFlush) >= SLAP || Diff(now, k.tsFlush) < -SLAP then now else k.tsFlush
  }

  /** Whether `Update` at `now` flushes. */
  predicate Due(k: Kcp, now: u32) {
    Diff(now, FlushTime(k, now)) >= 0
  }

  function NextFlushTime(k: Kcp, now: u32): u32 {
    var t := Wrap(FlushTime(k, now) + k.cfg.interval);
    if Diff(now, t) >= 0 then Wrap(now + k.cfg.interval) else t
  }

  function Update(k: Kcp, now: u32): Flushed {
    if Due(k, now)
    then Flush(k.(updated := true, tsFlush := NextFlushTime(k, now)), false, now)
    else Flushed(k.(updated := true, tsFlush := FlushTime(k, now)), [], 0)
  }

  /** Some entry's resend time has come. */
  predicate AnyDue(buf: seq<Segment>, now: u32) {
    exists i :: 0 <= i < |buf| && Diff(buf[i].resendts, now) <= 0
  }

  /** The nearest resend time, at most `0x7fffffff` ahead. */
  function Nearest(buf: seq<Segment>, now: u32): int {
    if buf == [] then 0x7fff_ffff
    else Min(Nearest(buf[..|buf| - 1], now), Diff(buf[|buf| - 1].resendts, now))
  }

  function Check(k: Kcp, now: u32): u32 {
    if !k.updated || Due(k, now) || AnyDue(k.snd.buf, now) then now
    else Wrap(now + Min(Min(Nearest(k.snd.buf, now), Diff(k.tsFlush, now)), k.cfg.interval))
  }
}
