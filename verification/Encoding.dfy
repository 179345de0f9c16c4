/** On-disk layout: little-endian words, 32-byte directory entries, and the two cluster-sized tables. */
module Encoding {
  import opened Machine

  const ENTRY_SIZE := 32
  const ENTRY_COUNT := 64
  const ATTR_SUBDIRECTORY: byte := 0x10
  const UATTR_NOT_EMPTY: byte := 0xAA

  type Name = s: seq<byte> | |s| == 8 witness Zeros(8)
  type Ext = s: seq<byte> | |s| == 3 witness Zeros(3)

  datatype Entry = Entry(
    name: Name, ext: Ext, attribute: byte, userAttribute: byte, undelete: byte,
    createTime: uint16, createDate: uint16, accessDate: uint16, clusterHigh: uint16,
    modifiedTime: uint16, modifiedDate: uint16, clusterLow: uint16, filesize: uint32)

  const ZERO_ENTRY := Entry(Zeros(8), Zeros(3), 0, 0, 0, 0, 0, 0, 0, 0, 0, 0, 0)

  type Table = t: seq<Entry> | |t| == ENTRY_COUNT witness seq(ENTRY_COUNT, i => ZERO_ENTRY)
  type Fat = f: seq<uint32> | |f| == CLUSTER_MAP_SIZE witness seq(CLUSTER_MAP_SIZE, i => 0)

  // The letters of "root".
  function RootName(): Name
  {
    [0x72, 0x6F, 0x6F, 0x74, 0, 0, 0, 0]
  }

  // A name as init_directory_table copies it: everything from the first NUL on is NUL.
  function NulPadded(n: Name): Name
  {
    seq<byte>(8, i requires 0 <= i < 8 => if 0 in n[..i + 1] then 0 else n[i])
  }

  // ---------- words ----------

  function Bytes16(w: uint16): (b: seq<byte>)
    ensures |b| == 2
  {
    [w % 0x100, w / 0x100]
  }

  function Word16(b: seq<byte>, at: nat): uint16
    requires at + 2 <= |b|
  {
    b[at] as int + 0x100 * b[at + 1] as int
  }

  function Bytes32(w: uint32): (b: seq<byte>)
    ensures |b| == 4
  {
    Bytes16(w % 0x1_0000) + Bytes16(w / 0x1_0000)
  }

  function Word32(b: seq<byte>, at: nat): uint32
    requires at + 4 <= |b|
  {
    Word16(b, at) as int + 0x1_0000 * Word16(b, at + 2) as int
  }

  lemma WordBytes16(b: seq<byte>, at: nat)
    requires at + 2 <= |b|
    ensures Bytes16(Word16(b, at)) == b[at..at + 2]
  {
  }

  lemma WordBytes32(b: seq<byte>, at: nat)
    requires at + 4 <= |b|
    ensures Bytes32(Word32(b, at)) == b[at..at + 4]
  {
    WordBytes16(b, at);
    WordBytes16(b, at + 2);
    assert b[at..at + 4] == b[at..at + 2] + b[at + 2..at + 4];
  }

  lemma BytesWord32(w: uint32, b: seq<byte>, at: nat)
    requires at + 4 <= |b|
    requires forall j {:trigger Bytes32(w)[j]} :: 0 <= j < 4 ==> b[at + j] == Bytes32(w)[j]
    ensures Word32(b, at) == w
  {
    assert b[at + 0] == Bytes32(w)[0] && b[at + 1] == Bytes32(w)[1];
    assert b[at + 2] == Bytes32(w)[2] && b[at + 3] == Bytes32(w)[3];
  }

  // ---------- directory entries ----------

  function EncodeEntry(e: Entry): (b: seq<byte>)
    ensures |b| == ENTRY_SIZE
  {
    e.name + e.ext + [e.attribute, e.userAttribute, e.undelete]
    + Bytes16(e.createTime) + Bytes16(e.createDate) + Bytes16(e.accessDate) + Bytes16(e.clusterHigh)
    + Bytes16(e.modifiedTime) + Bytes16(e.modifiedDate) + Bytes16(e.clusterLow) + Bytes32(e.filesize)
  }

  function DecodeEntry(b: seq<byte>): Entry
    requires |b| == ENTRY_SIZE
  {
    Entry(b[..8], b[8..11], b[11], b[12], b[13],
          Word16(b, 14), Word16(b, 16), Word16(b, 18), Word16(b, 20),
          Word16(b, 22), Word16(b, 24), Word16(b, 26), Word32(b, 28))
  }

  lemma EntryRoundTrip(e: Entry)
    ensures DecodeEntry(EncodeEntry(e)) == e
  {
    var b := EncodeEntry(e);
    assert b[..8] == e.name;
    assert b[8..11] == e.ext;
  }

  lemma BytesRoundTrip(b: seq<byte>)
    requires |b| == ENTRY_SIZE
    ensures EncodeEntry(DecodeEntry(b)) == b
  {
    var e := DecodeEntry(b);
    WordBytes16(b, 14); WordBytes16(b, 16); WordBytes16(b, 18); WordBytes16(b, 20);
    WordBytes16(b, 22); WordBytes16(b, 24); WordBytes16(b, 26);
    WordBytes32(b, 28);
    hide Bytes16, Bytes32, Word16, Word32;
    assert e.name + e.ext + [e.attribute, e.userAttribute, e.undelete] == b[..14];
    assert b[..14] + b[14..16] == b[..16] && b[..16] + b[16..18] == b[..18];
    assert b[..18] + b[18..20] == b[..20] && b[..20] + b[20..22] == b[..22];
    assert b[..22] + b[22..24] == b[..24] && b[..24] + b[24..26] == b[..26];
    assert b[..26] + b[26..28] == b[..28] && b[..28] + b[28..32] == b;
  }

  // The cluster number an entry names, split over two 16-bit fields.
  function FirstCluster(e: Entry): (c: nat)
    ensures c < 0x1_0000_0000
  {
    e.clusterHigh as int * 0x1_0000 + e.clusterLow as int
  }

  // ---------- tables ----------

  function DecodeTable(c: Cluster): Table
  {
    seq(ENTRY_COUNT, i requires 0 <= i < ENTRY_COUNT => DecodeEntry(c[ENTRY_SIZE * i..ENTRY_SIZE * i + ENTRY_SIZE]))
  }

  function PutEntry(c: Cluster, s: nat, e: Entry): Cluster
    requires s < ENTRY_COUNT
  {
    Splice(c, ENTRY_SIZE * s, EncodeEntry(e))
  }

  // Storing one entry changes that slot of the table and no other.
  lemma PutEntryChangesOneSlot(c: Cluster, s: nat, e: Entry)
    requires s < ENTRY_COUNT
    ensures DecodeTable(PutEntry(c, s, e)) == DecodeTable(c)[s := e]
  {
    hide EncodeEntry, DecodeEntry;
    EntryRoundTrip(e);
    forall i | 0 <= i < ENTRY_COUNT
      ensures DecodeTable(PutEntry(c, s, e))[i] == DecodeTable(c)[s := e][i]
    {
      assert i < s ==> ENTRY_SIZE * (i + 1) <= ENTRY_SIZE * s;
      assert i > s ==> ENTRY_SIZE * (s + 1) <= ENTRY_SIZE * i;
      SlotAfterSplice(c, ENTRY_SIZE * s, EncodeEntry(e), ENTRY_SIZE * i);
    }
  }

  lemma SlotAfterSplice(c: Cluster, at: nat, data: seq<byte>, slot: nat)
    requires |data| == ENTRY_SIZE && at + ENTRY_SIZE <= CLUSTER_SIZE && slot + ENTRY_SIZE <= CLUSTER_SIZE
    ensures slot == at ==> Splice(c, at, data)[slot..slot + ENTRY_SIZE] == data
    ensures slot + ENTRY_SIZE <= at || at + ENTRY_SIZE <= slot ==>
        Splice(c, at, data)[slot..slot + ENTRY_SIZE] == c[slot..slot + ENTRY_SIZE]
  {
  }

  // Putting back what a slot held restores the bytes.
  lemma PutEntryUndone(c: Cluster, s: nat, e: Entry)
    requires s < ENTRY_COUNT
    ensures PutEntry(PutEntry(c, s, e), s, DecodeTable(c)[s]) == c
  {
    hide EncodeEntry, DecodeEntry;
    BytesRoundTrip(c[ENTRY_SIZE * s..ENTRY_SIZE * s + ENTRY_SIZE]);
  }

  function EncodeFat(f: Fat): Cluster
  {
    seq(CLUSTER_SIZE, k requires 0 <= k < CLUSTER_SIZE => Bytes32(f[k / 4])[k % 4])
  }

  function DecodeFat(c: Cluster): Fat
  {
    seq(CLUSTER_MAP_SIZE, i requires 0 <= i < CLUSTER_MAP_SIZE => Word32(c, 4 * i))
  }

  lemma FatRoundTrip(f: Fat)
    ensures DecodeFat(EncodeFat(f)) == f
  {
    forall i | 0 <= i < CLUSTER_MAP_SIZE
      ensures DecodeFat(EncodeFat(f))[i] == f[i]
    {
      EncodedWord(f, i);
    }
  }

  lemma EncodedWord(f: Fat, i: nat)
    requires i < CLUSTER_MAP_SIZE
    ensures Word32(EncodeFat(f), 4 * i) == f[i]
  {
    hide Bytes32, Word32;
    forall j {:trigger Bytes32(f[i])[j]} | 0 <= j < 4
      ensures EncodeFat(f)[4 * i + j] == Bytes32(f[i])[j]
    {
      assert (4 * i + j) / 4 == i && (4 * i + j) % 4 == j;
    }
    BytesWord32(f[i], EncodeFat(f), 4 * i);
  }

  lemma FatBytesRoundTrip(c: Cluster)
    ensures EncodeFat(DecodeFat(c)) == c
  {
    hide Bytes32, Word32;
    forall k | 0 <= k < CLUSTER_SIZE
      ensures EncodeFat(DecodeFat(c))[k] == c[k]
    {
      WordBytes32(c, 4 * (k / 4));
      assert k == 4 * (k / 4) + k % 4;
    }
  }
}
