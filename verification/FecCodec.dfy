/**
 The erasure code behind the encoder and the decoder (network/kcp/fec.go:43,
 120, 294, 364) as two functions and the law they must satisfy: any
 `dataShards` of the shards of a group determine its data shards. A code with
 one parity shard and any number of data shards, and one with any number of
 parity shards for one data shard, show that the law can be met.
 */
module FecCodec {
  import opened Wire
  import opened FecPackets

  type Shard = seq<byte>

  /** `Encode` yields the parity shards; `ReconstructData` yields the data shards. */
  datatype Codec = Codec(
    encode: seq<Shard> -> Option<seq<Shard>>, reconstruct: seq<Option<Shard>> -> Option<seq<Shard>>)

  predicate EqualLengths(shards: seq<Shard>, n: nat) {
    forall s :: s in shards ==> |s| == n
  }

  function Present(shards: seq<Option<Shard>>): nat {
    if shards == [] then 0 else (if shards[0].Some? then 1 else 0) + Present(shards[1..])
  }

  /** `shards` holds some shards of the group `all`, each in its place. */
  ghost predicate Erased(shards: seq<Option<Shard>>, all: seq<Shard>) {
    |shards| == |all| && forall k :: 0 <= k < |all| && shards[k].Some? ==> shards[k].value == all[k]
  }

  /** What encoding yields, if anything, has the right shape. */
  ghost predicate Regular(c: Codec, ds: nat, ps: nat) {
    forall data: seq<Shard>, n: nat :: |data| == ds && n > 0 && EqualLengths(data, n) && c.encode(data).Some? ==>
      |c.encode(data).value| == ps && EqualLengths(c.encode(data).value, n)
  }

  /** Encoding never fails and keeps the length. */
  ghost predicate Shaped(c: Codec, ds: nat, ps: nat) {
    forall data: seq<Shard>, n: nat :: |data| == ds && n > 0 && EqualLengths(data, n) ==>
      c.encode(data).Some? && |c.encode(data).value| == ps && EqualLengths(c.encode(data).value, n)
  }

  ghost predicate Recovers(c: Codec, data: seq<Shard>, shards: seq<Option<Shard>>) {
    c.encode(data).Some? && Erased(shards, data + c.encode(data).value) && Present(shards) >= |data|
    ==> c.reconstruct(shards) == Some(data)
  }

  /** Any `ds` shards of a group are enough. */
  ghost predicate Lawful(c: Codec, ds: nat, ps: nat) {
    && Shaped(c, ds, ps)
    && forall data: seq<Shard>, shards: seq<Option<Shard>>, n: nat ::
         |data| == ds && n > 0 && EqualLengths(data, n) ==> Recovers(c, data, shards)
  }

  ghost predicate AllWithin(shards: seq<Option<Shard>>, n: nat) {
    forall k :: 0 <= k < |shards| && shards[k].Some? ==> |shards[k].value| <= n
  }

  /** Nothing longer than the shards given comes out of reconstruction. */
  ghost predicate Conserves(c: Codec) {
    forall shards: seq<Option<Shard>>, n: nat :: AllWithin(shards, n) && c.reconstruct(shards).Some? ==>
      forall s :: s in c.reconstruct(shards).value ==> |s| <= n
  }

  // ----- a lawful code: one parity shard, the sum of the data shards -----

  /** The sum of byte `i` over all shards. */
  function Column(shards: seq<Shard>, i: nat): nat
    requires forall k :: 0 <= k < |shards| ==> i < |shards[k]|
  {
    if shards == [] then 0 else shards[0][i] as int + Column(shards[1..], i)
  }

  function Sum(shards: seq<Shard>, n: nat): (s: Shard)
    requires EqualLengths(shards, n)
    ensures |s| == n
  {
    seq(n, i requires 0 <= i < n => Column(shards, i) % 256)
  }

  /** The first missing shard, or the number of shards. */
  function Missing(shards: seq<Option<Shard>>): (k: nat)
    ensures k <= |shards| && (k < |shards| ==> shards[k].None?)
    ensures forall j :: 0 <= j < k ==> shards[j].Some?
  {
    if shards == [] || shards[0].None? then 0 else 1 + Missing(shards[1..])
  }

  function Values(shards: seq<Option<Shard>>, blank: Shard): (vs: seq<Shard>)
    ensures |vs| == |shards|
  {
    seq(|shards|, k requires 0 <= k < |shards| => if shards[k].Some? then shards[k].value else blank)
  }

  function Difference(x: Shard, y: Shard): (d: Shard)
    requires |x| == |y|
    ensures |d| == |x|
  {
    seq(|x|, i requires 0 <= i < |x| => (x[i] as int - y[i] as int) % 256)
  }

  function SumEncode(data: seq<Shard>): Option<seq<Shard>> {
    if data != [] && EqualLengths(data, |data[0]|) then Some([Sum(data, |data[0]|)]) else None
  }

  function SumReconstruct(shards: seq<Option<Shard>>): Option<seq<Shard>> {
    if shards == [] then None
    else
      var ds := |shards| - 1;
      var gap := Missing(shards[..ds]);
      if gap == ds then Some(Values(shards[..ds], []))
      else if shards[ds].None? then None
      else
        var n := |shards[ds].value|;
        var known := Values(shards[..ds], Zeros(n));
        if EqualLengths(known, n) then Some(known[gap := Difference(shards[ds].value, Sum(known, n))]) else None
  }

  const SUM_CODEC: Codec := Codec(SumEncode, SumReconstruct)

  lemma {:induction false} PresentAll(shards: seq<Option<Shard>>)
    ensures Present(shards) <= |shards|
    ensures Present(shards) == |shards| ==> forall k :: 0 <= k < |shards| ==> shards[k].Some?
  {
    if shards != [] {
      PresentAll(shards[1..]);
    }
  }

  /** When all but one are present, two missing ones are the same one. */
  lemma {:induction false} OneMissing(shards: seq<Option<Shard>>, i: nat, j: nat)
    requires Present(shards) >= |shards| - 1 && i < j < |shards|
    ensures shards[i].Some? || shards[j].Some?
  {
    if i == 0 {
      PresentAll(shards[1..]);
      assert shards[j] == shards[1..][j - 1];
    } else {
      PresentAll(shards[1..]);
      if shards[0].Some? {
        OneMissing(shards[1..], i - 1, j - 1);
      }
    }
  }

  lemma {:induction false} ColumnUpdate(data: seq<Shard>, k: nat, z: Shard, i: nat)
    requires k < |data| && i < |z| && forall j :: 0 <= j < |data| ==> i < |data[j]|
    ensures Column(data[k := z], i) == Column(data, i) - data[k][i] as int + z[i] as int
  {
    if k == 0 {
      assert data[k := z][1..] == data[1..];
    } else {
      assert data[k := z][1..] == data[1..][k - 1 := z];
      ColumnUpdate(data[1..], k - 1, z, i);
    }
  }

  lemma BytesCancel(total: int, x: byte)
    ensures (total % 256 - (total - x) % 256) % 256 == x
  {
  }

  /** The missing shard is the sum minus the sum of the others. */
  lemma SumWithout(data: seq<Shard>, k: nat, n: nat)
    requires EqualLengths(data, n) && k < |data|
    ensures EqualLengths(data[k := Zeros(n)], n)
    ensures Difference(Sum(data, n), Sum(data[k := Zeros(n)], n)) == data[k]
  {
    var others := data[k := Zeros(n)];
    forall s | s in others ensures |s| == n {
      var j :| 0 <= j < |others| && others[j] == s;
    }
    var d := Difference(Sum(data, n), Sum(others, n));
    assert |data[k]| == n;
    forall i | 0 <= i < n ensures d[i] == data[k][i] {
      ColumnUpdate(data, k, Zeros(n), i);
      BytesCancel(Column(data, i), data[k][i]);
    }
  }

  lemma SumShaped(ds: nat)
    requires ds > 0
    ensures Shaped(SUM_CODEC, ds, 1)
  {
  }

  /** With one data shard missing the parity shard gives it back. */
  lemma {:induction false} SumFillsGap(data: seq<Shard>, shards: seq<Option<Shard>>, n: nat)
    requires data != [] && n > 0 && EqualLengths(data, n)
    requires Erased(shards, data + [Sum(data, n)]) && Present(shards) >= |data|
    requires Missing(shards[..|data|]) < |data|
    ensures SumReconstruct(shards) == Some(data)
  {
    var ds, gap := |data|, Missing(shards[..|data|]);
    assert shards[gap].None?;
    OneMissing(shards, gap, ds);
    var known := Values(shards[..ds], Zeros(n));
    forall k | 0 <= k < ds ensures known[k] == data[gap := Zeros(n)][k] {
      if k < gap {
        OneMissing(shards, k, gap);
      } else if gap < k {
        OneMissing(shards, gap, k);
      }
    }
    assert known == data[gap := Zeros(n)];
    SumWithout(data, gap, n);
    assert known[gap := data[gap]] == data;
  }

  /** The code is lawful for every number of data shards. */
  lemma SumLawful(ds: nat)
    requires ds > 0
    ensures Lawful(SUM_CODEC, ds, 1)
  {
    SumShaped(ds);
    forall data: seq<Shard>, shards: seq<Option<Shard>>, n: nat
      | |data| == ds && n > 0 && EqualLengths(data, n)
      ensures Recovers(SUM_CODEC, data, shards)
    {
      if Erased(shards, data + SumEncode(data).value) && Present(shards) >= |data| {
        assert SumEncode(data) == Some([Sum(data, n)]);
        if Missing(shards[..ds]) == ds {
          assert Values(shards[..ds], []) == data;
        } else {
          SumFillsGap(data, shards, n);
        }
      }
    }
  }

  lemma SumConserves()
    ensures Conserves(SUM_CODEC)
  {
    forall shards: seq<Option<Shard>>, n: nat | AllWithin(shards, n) && SumReconstruct(shards).Some?
      ensures forall s :: s in SumReconstruct(shards).value ==> |s| <= n
    {
      var ds := |shards| - 1;
      assert forall k :: 0 <= k < ds ==> shards[..ds][k] == shards[k];
    }
  }

  // ----- a lawful code for one data shard: every parity shard is a copy -----

  function CopyEncode(data: seq<Shard>, ps: nat): Option<seq<Shard>> {
    if |data| == 1 then Some(seq(ps, _ => data[0])) else None
  }

  function CopyReconstruct(shards: seq<Option<Shard>>): Option<seq<Shard>> {
    if shards == [] then None
    else if shards[0].Some? then Some([shards[0].value])
    else CopyReconstruct(shards[1..])
  }

  function CopyCodec(ps: nat): Codec {
    Codec(data => CopyEncode(data, ps), CopyReconstruct)
  }

  /** Any shard that is left is the data shard. */
  lemma {:induction false} CopyFinds(shards: seq<Option<Shard>>, x: Shard)
    requires Present(shards) >= 1 && forall k :: 0 <= k < |shards| && shards[k].Some? ==> shards[k].value == x
    ensures CopyReconstruct(shards) == Some([x])
  {
    if shards[0].None? {
      CopyFinds(shards[1..], x);
    }
  }

  lemma CopyRecovers(data: seq<Shard>, shards: seq<Option<Shard>>, ps: nat)
    requires |data| == 1
    ensures Recovers(CopyCodec(ps), data, shards)
  {
    if Erased(shards, data + CopyEncode(data, ps).value) && Present(shards) >= 1 {
      CopyFinds(shards, data[0]);
      assert data == [data[0]];
    }
  }

  /** The code is lawful for every number of parity shards. */
  lemma CopyLawful(ps: nat)
    ensures Lawful(CopyCodec(ps), 1, ps)
  {
    forall data: seq<Shard>, shards: seq<Option<Shard>>, n: nat
      | |data| == 1 && n > 0 && EqualLengths(data, n)
      ensures Recovers(CopyCodec(ps), data, shards)
    {
      CopyRecovers(data, shards, ps);
    }
  }

  lemma {:induction false} CopyShort(shards: seq<Option<Shard>>, n: nat)
    requires AllWithin(shards, n) && CopyReconstruct(shards).Some?
    ensures forall s :: s in CopyReconstruct(shards).value ==> |s| <= n
  {
    if shards[0].None? {
      CopyShort(shards[1..], n);
    }
  }

  lemma CopyConserves(ps: nat)
    ensures Conserves(CopyCodec(ps))
  {
    forall shards: seq<Option<Shard>>, n: nat | AllWithin(shards, n) && CopyReconstruct(shards).Some?
      ensures forall s :: s in CopyReconstruct(shards).value ==> |s| <= n
    {
      CopyShort(shards, n);
    }
  }
}
