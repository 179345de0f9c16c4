/** Fixed-width integers and byte-level records shared by the whole model. */
module Machine {
  type byte = x: int | 0 <= x < 0x100
  type uint16 = x: int | 0 <= x < 0x1_0000
  type uint32 = x: int | 0 <= x < 0x1_0000_0000

  datatype Option<+T> = None | Some(value: T)

  const BLOCK_SIZE := 512
  const CLUSTER_BLOCK_COUNT := 4
  const CLUSTER_SIZE := 2048
  const CLUSTER_MAP_SIZE := 512

  function Zeros(n: nat): (s: seq<byte>)
    ensures |s| == n
  {
    seq(n, i => 0)
  }

  type Block = b: seq<byte> | |b| == BLOCK_SIZE witness Zeros(BLOCK_SIZE)
  type Cluster = c: seq<byte> | |c| == CLUSTER_SIZE witness Zeros(CLUSTER_SIZE)

  const ZERO_CLUSTER: Cluster := Zeros(CLUSTER_SIZE)

  // An image has at least the clusters the allocation table can name.
  type Volume = v: seq<Cluster> | |v| >= CLUSTER_MAP_SIZE
    witness seq<Cluster>(CLUSTER_MAP_SIZE, i => ZERO_CLUSTER)

  // The bytes of s with those from offset at on replaced by data.
  function Splice<T>(s: seq<T>, at: nat, data: seq<T>): (r: seq<T>)
    requires at + |data| <= |s|
    ensures |r| == |s|
  {
    s[..at] + data + s[at + |data|..]
  }

  lemma SliceOfSlice<T>(s: seq<T>, lo: nat, hi: nat, i: nat, j: nat)
    requires lo <= hi <= |s| && i <= j <= hi - lo
    ensures s[lo..hi][i..j] == s[lo + i..lo + j]
  {
    var a, b := s[lo..hi][i..j], s[lo + i..lo + j];
    forall k | 0 <= k < |a|
      ensures a[k] == b[k]
    {
      assert s[lo..hi][i + k] == s[lo + (i + k)];
    }
  }
}
