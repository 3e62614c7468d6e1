/**
 What `ReserveBytes` and `SetMtu` leave behind (network/kcp/kcp.go:183-205,
 1041-1061). `SetMtu` checks the reserved bytes against the MTU it is about to
 replace, so it can accept an MTU without room for them; from then on it refuses
 every other. Nor does it know how long the pooled buffers are: with an MTU that
 leaves more room than they have, a long `Send` slices one beyond its end.
 */
module Settings {
  import opened Serial
  import opened Wire
  import opened KcpSpec
  import opened KcpInvariant
  import Fragmentation

  /**
   A new MTU leaves usable settings exactly when it has room for the header and
   the reserved bytes, and no more besides than a pooled buffer has.
   */
  lemma MtuUsable(cfg: Config, mtu: u32)
    requires MtuSet(cfg, mtu).0 == 0
    ensures Configured(MtuSet(cfg, mtu).1) <==> cfg.reserved + OVERHEAD < mtu <= cfg.reserved + OVERHEAD + MTU_LIMIT
  {
    var d := mtu - OVERHEAD - cfg.reserved;
    WrapSmall(d);
    if Configured(MtuSet(cfg, mtu).1) {
      assert Wrap(d) == d;
    }
  }

  /** The reserved bytes leave no room under the current MTU. */
  ghost predicate Locked(cfg: Config) {
    cfg.reserved >= Wrap(cfg.mtu - OVERHEAD)
  }

  /** An accepted MTU locks itself exactly when it has no room. */
  lemma LocksItself(cfg: Config, mtu: u32)
    requires MtuSet(cfg, mtu).0 == 0
    ensures Locked(MtuSet(cfg, mtu).1) <==> mtu <= cfg.reserved + OVERHEAD
  {
    WrapId(mtu - OVERHEAD);
  }

  /** The new settings are usable exactly when there is room and every `Send` can be given its buffers. */
  lemma SendsAllocate(cfg: Config, mtu: u32, stream: bool)
    requires MtuSet(cfg, mtu).0 == 0
    ensures cfg.reserved + OVERHEAD < mtu ==> MtuSet(cfg, mtu).1.mss > 0
    ensures Configured(MtuSet(cfg, mtu).1) <==>
      && cfg.reserved + OVERHEAD < mtu
      && forall queue, data :: Fragmentation.Allocatable(queue, data, MtuSet(cfg, mtu).1.mss, stream)
  {
    MtuUsable(cfg, mtu);
    if cfg.reserved + OVERHEAD < mtu {
      WrapId(mtu - OVERHEAD - cfg.reserved);
      Fragmentation.AlwaysAllocatable(MtuSet(cfg, mtu).1.mss, stream);
    }
  }

  /** The settings after `SetMtu` has been tried with each of `mtus` in turn, and whether any was accepted. */
  function MtusSet(cfg: Config, mtus: seq<int>): (bool, Config)
    decreases |mtus|
  {
    if mtus == [] then (false, cfg)
    else
      var (code, next) := MtuSet(cfg, mtus[0]);
      var (accepted, last) := MtusSet(next, mtus[1..]);
      (accepted || code == 0, last)
  }

  /** Once locked, every later MTU is refused, however large; and only then is every one refused. */
  lemma {:induction false} LockedForGood(cfg: Config, mtus: seq<int>)
    ensures Locked(cfg) ==> MtusSet(cfg, mtus) == (false, cfg)
    ensures !Locked(cfg) ==> MtuSet(cfg, 50).0 == 0
    decreases |mtus|
  {
    if mtus != [] && Locked(cfg) {
      LockedForGood(cfg, mtus[1..]);
      assert MtuSet(cfg, mtus[0]) == (-1, cfg);
    }
  }

  /** With 100 bytes reserved an MTU of 60 is accepted; segments then have 2^32 - 64 bytes, and 1400 is refused. */
  lemma SixtyIsAccepted(conv: u32)
    ensures var (ok, cfg) := BytesReserved(New(conv).cfg, 100);
      var (code, small) := MtuSet(cfg, 60);
      && ok && Configured(cfg) && code == 0
      && small.mss == FULL - 64 && !Configured(small)
      && MtuSet(small, 1400) == (-1, small)
  {
    WrapId(1376);
    WrapSmall(-64);
  }

  /** With nothing reserved 3000 is accepted; 2000 bytes then make one piece, longer than a pooled buffer. */
  lemma ThreeThousandIsAccepted(conv: u32, data: seq<byte>, stream: bool)
    requires |data| == 2000
    ensures var (code, large) := MtuSet(New(conv).cfg, 3000);
      && code == 0 && large.mss == 2976 && !Configured(large)
      && !Fragmentation.Allocatable([], data, large.mss, stream)
      && |Fragmentation.Fragments(data, large.mss, stream)| == 1
      && Fragmentation.Fragments(data, large.mss, stream)[0].data == data
  {
    WrapId(2976);
    WrapId(1376);
    WrapId(3000);
  }
}
