/** The memory-backed block store, and the history of images it leaves behind. */
module Storage {
  import opened Machine
  import CString

  // What is on the disk now, and the image after every block write so far:
  // a run cut short by a power loss leaves one of the images in the history.
  datatype Disk = Disk(volume: Volume, history: seq<Volume>)

  ghost predicate InVolume(v: Volume, lba: nat)
  {
    lba / CLUSTER_BLOCK_COUNT < |v|
  }

  function PutBlock(d: Disk, lba: nat, block: Block): (r: Disk)
    requires InVolume(d.volume, lba)
    ensures |r.volume| == |d.volume|
  {
    var v := d.volume[lba / CLUSTER_BLOCK_COUNT :=
               Splice(d.volume[lba / CLUSTER_BLOCK_COUNT], BLOCK_SIZE * (lba % CLUSTER_BLOCK_COUNT), block)];
    Disk(v, d.history + [v])
  }

  // The first n of the given blocks, written one after the other.
  function PutBlocks(d: Disk, lba: nat, blocks: seq<Block>, n: nat): (r: Disk)
    requires n <= |blocks| && (n == 0 || InVolume(d.volume, lba + n - 1))
    ensures |r.volume| == |d.volume|
  {
    if n == 0 then d else PutBlock(PutBlocks(d, lba, blocks, n - 1), lba + n - 1, blocks[n - 1])
  }

  // The n blocks that start at offset at of a buffer.
  function BlocksOf(s: seq<byte>, at: nat, n: nat): (r: seq<Block>)
    requires at + BLOCK_SIZE * n <= |s|
    ensures |r| == n
  {
    seq<Block>(n, i requires 0 <= i < n => s[at + BLOCK_SIZE * i..at + BLOCK_SIZE * i + BLOCK_SIZE])
  }

  // Cluster c after the first k of its four blocks have been overwritten.
  function Torn(v: Volume, c: nat, data: Cluster, k: nat): (r: Volume)
    requires c < |v| && k <= CLUSTER_BLOCK_COUNT
    ensures |r| == |v|
  {
    v[c := data[..BLOCK_SIZE * k] + v[c][BLOCK_SIZE * k..]]
  }

  function PutCluster(d: Disk, c: nat, data: Cluster): (r: Disk)
    requires c < |d.volume|
    ensures |r.volume| == |d.volume|
  {
    var v := d.volume;
    Disk(v[c := data], d.history + [Torn(v, c, data, 1), Torn(v, c, data, 2), Torn(v, c, data, 3), Torn(v, c, data, 4)])
  }

  // A one-cluster write goes through four torn images and ends with the cluster replaced.
  lemma ClusterWriteIsFourBlockWrites(d: Disk, c: nat, data: Cluster)
    requires c < |d.volume|
    ensures InVolume(d.volume, CLUSTER_BLOCK_COUNT * c + CLUSTER_BLOCK_COUNT - 1)
    ensures PutBlocks(d, CLUSTER_BLOCK_COUNT * c, BlocksOf(data, 0, CLUSTER_BLOCK_COUNT), CLUSTER_BLOCK_COUNT)
        == PutCluster(d, c, data)
  {
    TornPrefix(d, c, data, 4);
    assert data[..BLOCK_SIZE * 4] + d.volume[c][BLOCK_SIZE * 4..] == data;
    var t := TornHistory(d.volume, c, data, 4);
    assert t == [t[0], t[1], t[2], t[3]];
  }

  function TornHistory(v: Volume, c: nat, data: Cluster, k: nat): (r: seq<Volume>)
    requires c < |v| && k <= CLUSTER_BLOCK_COUNT
    ensures |r| == k
  {
    seq<Volume>(k, i requires 0 <= i < k => Torn(v, c, data, i + 1))
  }

  lemma {:induction false} TornPrefix(d: Disk, c: nat, data: Cluster, k: nat)
    requires c < |d.volume| && k <= CLUSTER_BLOCK_COUNT
    ensures k == 0 || InVolume(d.volume, CLUSTER_BLOCK_COUNT * c + k - 1)
    ensures PutBlocks(d, CLUSTER_BLOCK_COUNT * c, BlocksOf(data, 0, CLUSTER_BLOCK_COUNT), k)
         == Disk(Torn(d.volume, c, data, k), d.history + TornHistory(d.volume, c, data, k))
  {
    hide PutBlock, Splice, BlocksOf;
    if k == 0 {
      assert data[..BLOCK_SIZE * 0] + d.volume[c] == d.volume[c];
    } else {
      TornPrefix(d, c, data, k - 1);
      var history := d.history + TornHistory(d.volume, c, data, k - 1);
      TornNext(d.volume, history, c, data, k - 1);
      assert history + [Torn(d.volume, c, data, k)] == d.history + TornHistory(d.volume, c, data, k);
    }
  }

  lemma TornNext(v: Volume, history: seq<Volume>, c: nat, data: Cluster, k: nat)
    requires c < |v| && k < CLUSTER_BLOCK_COUNT
    ensures InVolume(v, CLUSTER_BLOCK_COUNT * c + k)
    ensures PutBlock(Disk(Torn(v, c, data, k), history), CLUSTER_BLOCK_COUNT * c + k,
                     BlocksOf(data, 0, CLUSTER_BLOCK_COUNT)[k])
         == Disk(Torn(v, c, data, k + 1), history + [Torn(v, c, data, k + 1)])
  {
    assert (CLUSTER_BLOCK_COUNT * c + k) / CLUSTER_BLOCK_COUNT == c
        && (CLUSTER_BLOCK_COUNT * c + k) % CLUSTER_BLOCK_COUNT == k;
    SpliceAtSeam(data, v[c], BLOCK_SIZE * k);
    var t := Torn(v, c, data, k);
    assert t[c := data[..BLOCK_SIZE * (k + 1)] + v[c][BLOCK_SIZE * (k + 1)..]] == Torn(v, c, data, k + 1);
  }

  lemma SpliceAtSeam(data: Cluster, was: Cluster, at: nat)
    requires at + BLOCK_SIZE <= CLUSTER_SIZE
    ensures Splice(data[..at] + was[at..], at, data[at..at + BLOCK_SIZE])
        == data[..at + BLOCK_SIZE] + was[at + BLOCK_SIZE..]
  {
  }

  // ---------- reading back ----------

  function BlockAt(v: Volume, lba: nat): Block
    requires InVolume(v, lba)
  {
    var at := BLOCK_SIZE * (lba % CLUSTER_BLOCK_COUNT);
    v[lba / CLUSTER_BLOCK_COUNT][at..at + BLOCK_SIZE]
  }

  lemma BlockAfterPutBlock(d: Disk, lba: nat, block: Block, j: nat)
    requires InVolume(d.volume, lba) && InVolume(d.volume, j)
    ensures BlockAt(PutBlock(d, lba, block).volume, j) == if j == lba then block else BlockAt(d.volume, j)
  {
    var c, at := lba / CLUSTER_BLOCK_COUNT, BLOCK_SIZE * (lba % CLUSTER_BLOCK_COUNT);
    if j / CLUSTER_BLOCK_COUNT == c {
      SlicesOfSplice(d.volume[c], at, block, BLOCK_SIZE * (j % CLUSTER_BLOCK_COUNT));
    }
  }

  lemma SlicesOfSplice(s: seq<byte>, at: nat, block: Block, from: nat)
    requires at + BLOCK_SIZE <= |s| && from + BLOCK_SIZE <= |s|
    ensures from == at ==> Splice(s, at, block)[from..from + BLOCK_SIZE] == block
    ensures from + BLOCK_SIZE <= at || at + BLOCK_SIZE <= from ==>
        Splice(s, at, block)[from..from + BLOCK_SIZE] == s[from..from + BLOCK_SIZE]
  {
  }

  // Every block in the written range reads back as written; every other block is untouched.
  lemma {:induction false} ReadAfterWrite(d: Disk, lba: nat, blocks: seq<Block>, n: nat, j: nat)
    requires n <= |blocks| && (n == 0 || InVolume(d.volume, lba + n - 1))
    requires InVolume(d.volume, j)
    ensures BlockAt(PutBlocks(d, lba, blocks, n).volume, j) == if lba <= j < lba + n then blocks[j - lba]
        else BlockAt(d.volume, j)
  {
    hide BlockAt, PutBlock;
    if n > 0 {
      ReadAfterWrite(d, lba, blocks, n - 1, j);
      BlockAfterPutBlock(PutBlocks(d, lba, blocks, n - 1), lba + n - 1, blocks[n - 1], j);
    }
  }

  // ---------- the byte array ----------

  function Clusters(s: seq<byte>): (v: Volume)
    requires |s| >= CLUSTER_SIZE * CLUSTER_MAP_SIZE
    ensures |v| == |s| / CLUSTER_SIZE
  {
    seq<Cluster>(|s| / CLUSTER_SIZE,
      c requires 0 <= c < |s| / CLUSTER_SIZE => s[CLUSTER_SIZE * c..CLUSTER_SIZE * c + CLUSTER_SIZE])
  }

  lemma SpliceIsPutBlock(s: seq<byte>, history: seq<Volume>, lba: nat, block: Block, s': seq<byte>)
    requires |s| >= CLUSTER_SIZE * CLUSTER_MAP_SIZE && |s| % CLUSTER_SIZE == 0
    requires BLOCK_SIZE * lba + BLOCK_SIZE <= |s| && s' == Splice(s, BLOCK_SIZE * lba, block)
    ensures InVolume(Clusters(s), lba)
    ensures Disk(Clusters(s'), history + [Clusters(s')]) == PutBlock(Disk(Clusters(s), history), lba, block)
  {
    var k, b := lba / CLUSTER_BLOCK_COUNT, lba % CLUSTER_BLOCK_COUNT;
    assert BLOCK_SIZE * lba == CLUSTER_SIZE * k + BLOCK_SIZE * b;
    SpliceWithin(s, CLUSTER_SIZE * k, BLOCK_SIZE * b, block);
    forall c | 0 <= c < |Clusters(s)| && c != k
      ensures Clusters(s')[c] == Clusters(s)[c]
    {
      SpliceOutside(s, BLOCK_SIZE * lba, block, CLUSTER_SIZE * c);
    }
    assert Clusters(s') == Clusters(s)[k := Splice(Clusters(s)[k], BLOCK_SIZE * b, block)];
  }

  lemma SpliceWithin(s: seq<byte>, base: nat, off: nat, block: Block)
    requires base + CLUSTER_SIZE <= |s| && off + BLOCK_SIZE <= CLUSTER_SIZE
    ensures Splice(s, base + off, block)[base..base + CLUSTER_SIZE] == Splice(s[base..base + CLUSTER_SIZE], off, block)
  {
  }

  lemma SpliceOutside(s: seq<byte>, at: nat, block: Block, base: nat)
    requires at + BLOCK_SIZE <= |s| && base + CLUSTER_SIZE <= |s|
    requires base + CLUSTER_SIZE <= at || at + BLOCK_SIZE <= base
    ensures Splice(s, at, block)[base..base + CLUSTER_SIZE] == s[base..base + CLUSTER_SIZE]
  {
  }

  class BlockStore {
    const image: array<byte>
    ghost var history: seq<Volume>

    ghost predicate Valid()
    {
      CLUSTER_SIZE * CLUSTER_MAP_SIZE <= image.Length < 0x1_0000_0000 && image.Length % CLUSTER_SIZE == 0
    }

    ghost function Contents(): Disk
      reads this, image
      requires Valid()
    {
      Disk(Clusters(image[..]), history)
    }

    // An image_storage of the 4 MiB the inserter allocates holds 2048 clusters.
    constructor (bytes: array<byte>)
      requires CLUSTER_SIZE * CLUSTER_MAP_SIZE <= bytes.Length < 0x1_0000_0000 && bytes.Length % CLUSTER_SIZE == 0
      ensures Valid() && image == bytes && Contents() == Disk(Clusters(bytes[..]), [])
    {
      image, history := bytes, [];
    }

    method ReadBlocks(ptr: array<byte>, at: nat, lba: uint32, count: byte)
      requires Valid() && ptr != image
      requires BLOCK_SIZE * (lba + count) <= image.Length && at + BLOCK_SIZE * count <= ptr.Length
      modifies ptr
      ensures ptr[..] == Splice(old(ptr[..]), at, image[..][BLOCK_SIZE * lba..BLOCK_SIZE * lba + BLOCK_SIZE * count])
    {
      hide Splice;
      ghost var was, bytes := ptr[..], image[..];
      SpliceNothing(was, at, bytes[BLOCK_SIZE * lba..BLOCK_SIZE * lba]);
      var base := BLOCK_SIZE * lba;
      for i := 0 to count
        invariant image[..] == bytes
        invariant ptr[..] == Splice(was, at, bytes[base..base + BLOCK_SIZE * i])
      {
        ghost var before := ptr[..];
        CString.Memcpy(ptr, at + BLOCK_SIZE * i, image, base + BLOCK_SIZE * i, BLOCK_SIZE);
        SpliceNext(was, at, bytes, base, i, before, ptr[..]);
      }
    }

    method WriteBlocks(ptr: array<byte>, at: nat, lba: uint32, count: byte)
      requires Valid() && ptr != image
      requires BLOCK_SIZE * (lba + count) <= image.Length && at + BLOCK_SIZE * count <= ptr.Length
      modifies `history, image
      ensures count == 0 || InVolume(old(Contents()).volume, lba + count - 1)
      ensures Contents() == PutBlocks(old(Contents()), lba, BlocksOf(ptr[..], at, count), count)
    {
      hide PutBlock, Clusters, Splice;
      ghost var source, start := ptr[..], Contents();
      for i := 0 to count
        invariant ptr[..] == source
        invariant Reached(start, lba, BlocksOf(source, at, count), i, Contents())
      {
        ghost var before := image[..];
        CString.Memcpy(image, BLOCK_SIZE * (lba + i), ptr, at + BLOCK_SIZE * i, BLOCK_SIZE);
        SpliceIsPutBlock(before, history, lba + i, BlocksOf(source, at, count)[i], image[..]);
        history := history + [Clusters(image[..])];
      }
    }
  }

  // The first i blocks have been written.
  ghost predicate Reached(start: Disk, lba: nat, blocks: seq<Block>, i: nat, now: Disk)
  {
    i <= |blocks| && (i == 0 || InVolume(start.volume, lba + i - 1)) && now == PutBlocks(start, lba, blocks, i)
  }

  lemma SpliceNothing(s: seq<byte>, at: nat, data: seq<byte>)
    requires at <= |s| && data == []
    ensures Splice(s, at, data) == s
  {
  }

  lemma SpliceNext(s: seq<byte>, at: nat, bytes: seq<byte>, base: nat, i: nat, before: seq<byte>, after: seq<byte>)
    requires at + BLOCK_SIZE * i + BLOCK_SIZE <= |s| && base + BLOCK_SIZE * i + BLOCK_SIZE <= |bytes|
    requires before == Splice(s, at, bytes[base..base + BLOCK_SIZE * i])
    requires var off := BLOCK_SIZE * i;
             after == Splice(before, at + off, bytes[base + off..base + off + BLOCK_SIZE])
    ensures after == Splice(s, at, bytes[base..base + BLOCK_SIZE * (i + 1)])
  {
    var lo := base + BLOCK_SIZE * i;
    assert bytes[base..lo] + bytes[lo..lo + BLOCK_SIZE] == bytes[base..lo + BLOCK_SIZE];
  }
}
