/** The Reed-Solomon code as the streams use it: parity shards over data shards, from which lost ones come back. */
module ReedSolomon {
  import opened Bytes

  /** The most shards of one code word. */
  const SHARDS_MAX: nat := 255

  /** The encoder takes data shards and a number of parity shards. The decoder takes the positions of the shards
      that arrived, those shards, and the number of parity shards. */
  datatype Rs = Rs(enc: (seq<seq<Byte>>, nat) -> seq<seq<Byte>>,
                   dec: (seq<nat>, seq<seq<Byte>>, nat) -> seq<seq<Byte>>)

  predicate SameSize(shards: seq<seq<Byte>>, n: nat) {
    forall s <- shards :: |s| == n
  }

  /** As many different positions as there are data shards, in order. */
  predicate Positions(at: seq<nat>, d: nat, total: nat) {
    && |at| == d && (forall k :: 0 <= k < d ==> at[k] < total)
    && forall j, k :: 0 <= j < k < d ==> at[j] < at[k]
  }

  function Picked(shards: seq<seq<Byte>>, at: seq<nat>): (r: seq<seq<Byte>>)
    ensures |r| == |at|
  {
    seq(|at|, k requires 0 <= k < |at| => if at[k] < |shards| then shards[at[k]] else [])
  }

  /** The shards from byte `from` on. */
  function CutOff(shards: seq<seq<Byte>>, from: nat): (r: seq<seq<Byte>>)
    ensures |r| == |shards|
  {
    seq(|shards|, k requires 0 <= k < |shards| => if from <= |shards[k]| then shards[k][from..] else [])
  }

  /** What is used of the code: parity shards have the size of the data shards, a byte of a parity shard depends
      on the bytes at its place alone, and as many shards as there are data shards, whichever they are, give the
      data shards. */
  ghost predicate RsLawful(rs: Rs) {
    && (forall data, parity, n {:trigger Sized(data, parity, n)} :: Sized(data, parity, n) ==>
          |rs.enc(data, parity)| == parity && SameSize(rs.enc(data, parity), n))
    && (forall data, parity, n, from {:trigger Behind(data, parity, n, from)} :: Behind(data, parity, n, from) ==>
          rs.enc(CutOff(data, from), parity) == CutOff(rs.enc(data, parity), from))
    && (forall data, parity, n, at {:trigger Arrived(data, parity, n, at)} :: Arrived(data, parity, n, at) ==>
          rs.dec(at, Picked(data + rs.enc(data, parity), at), parity) == data)
  }

  /** The cases of the three laws. */
  predicate Sized(data: seq<seq<Byte>>, parity: nat, n: nat) { SameSize(data, n) }

  predicate Behind(data: seq<seq<Byte>>, parity: nat, n: nat, from: nat) { SameSize(data, n) && from <= n }

  predicate Arrived(data: seq<seq<Byte>>, parity: nat, n: nat, at: seq<nat>) {
    SameSize(data, n) && Recoverable(|data|, parity, at)
  }

  predicate Recoverable(d: nat, parity: nat, at: seq<nat>) {
    d + parity <= SHARDS_MAX && Positions(at, d, d + parity)
  }

  lemma ParitySize(rs: Rs, data: seq<seq<Byte>>, parity: nat, n: nat)
    requires RsLawful(rs) && SameSize(data, n)
    ensures |rs.enc(data, parity)| == parity && SameSize(rs.enc(data, parity), n)
  {
    assert Sized(data, parity, n);
  }

  lemma DataRecovers(rs: Rs, data: seq<seq<Byte>>, parity: nat, n: nat, at: seq<nat>)
    requires RsLawful(rs) && SameSize(data, n) && Recoverable(|data|, parity, at)
    ensures rs.dec(at, Picked(data + rs.enc(data, parity), at), parity) == data
  {
    assert Arrived(data, parity, n, at);
  }

  lemma CutSize(shards: seq<seq<Byte>>, n: nat, from: nat)
    requires SameSize(shards, n) && from <= n
    ensures SameSize(CutOff(shards, from), n - from)
  {
  }

  lemma CutJoin(a: seq<seq<Byte>>, b: seq<seq<Byte>>, from: nat)
    ensures CutOff(a + b, from) == CutOff(a, from) + CutOff(b, from)
  {
  }

  /** What lies behind a header comes back from as many shards as there are data shards, from what lies behind
      their headers alone. */
  lemma PayloadsRecover(rs: Rs, data: seq<seq<Byte>>, parity: nat, n: nat, from: nat, at: seq<nat>,
                        shards: seq<seq<Byte>>)
    requires RsLawful(rs) && SameSize(data, n) && from <= n && Recoverable(|data|, parity, at)
    requires shards == data + rs.enc(data, parity)
    ensures rs.dec(at, Picked(CutOff(shards, from), at), parity) == CutOff(data, from)
  {
    CutSize(data, n, from);
    CutJoin(data, rs.enc(data, parity), from);
    assert Behind(data, parity, n, from);
    DataRecovers(rs, CutOff(data, from), parity, n - from, at);
  }
}
