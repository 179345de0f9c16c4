/** The bytes on disk, by offset and literal value: what the calls read them as, and what they leave. */
module DiskBytes {
  import opened Machine
  import opened Encoding
  import opened Allocation
  import opened FileTree
  import opened Operations
  import opened Durability
  import opened Writing
  import opened Formatting

  // ---------- the layout ----------

  // Word i of a table cluster: four bytes, the lowest first.
  function WordAt(c: Cluster, i: nat): nat
    requires i < 512
  {
    Little(c[4 * i], c[4 * i + 1], c[4 * i + 2], c[4 * i + 3])
  }

  function Little(b0: int, b1: int, b2: int, b3: int): int
  {
    b0 + 0x100 * b1 + 0x1_0000 * b2 + 0x100_0000 * b3
  }

  // The 32 bytes of entry i of a folder's cluster.
  function Slot(c: Cluster, i: nat): (b: seq<byte>)
    requires i < 64
    ensures |b| == 32
  {
    c[32 * i..32 * i + 32]
  }

  // Eight bytes of name, three of extension, the attribute at 11, the user attribute at 12.
  predicate Called(b: seq<byte>, r: Request)
    requires |b| == 32
  {
    b[..8] == r.name && b[8..11] == r.ext
  }

  predicate InUse(b: seq<byte>)
    requires |b| == 32
  {
    b[12] == 0xAA
  }

  predicate Directory(b: seq<byte>)
    requires |b| == 32
  {
    b[11] == 0x10
  }

  // The low half of the cluster number is at 26, the high half at 20.
  function ClusterIn(b: seq<byte>): int
    requires |b| == 32
  {
    Little(b[26], b[27], b[20], b[21])
  }

  function SizeIn(b: seq<byte>): int
    requires |b| == 32
  {
    Little(b[28], b[29], b[30], b[31])
  }

  // All 32 bytes of an entry in use.
  ghost predicate Holds(b: seq<byte>, name: seq<byte>, ext: seq<byte>, attribute: int, cluster: int, size: int)
    requires |b| == 32
  {
    && b[..8] == name && b[8..11] == ext && b[11] == attribute && b[12] == 0xAA
    && b[13] == b[14] == b[15] == b[16] == b[17] == b[18] == b[19] == 0
    && b[20] == cluster / 0x1_0000 % 0x100 && b[21] == cluster / 0x100_0000
    && b[22] == b[23] == b[24] == b[25] == 0
    && b[26] == cluster % 0x100 && b[27] == cluster / 0x100 % 0x100
    && b[28] == size % 0x100 && b[29] == size / 0x100 % 0x100
    && b[30] == size / 0x1_0000 % 0x100 && b[31] == size / 0x100_0000
  }

  // The two clusters differ at most in entry i.
  ghost predicate SameButEntry(c: Cluster, c': Cluster, i: nat)
  {
    forall k :: 0 <= k < 2048 && !(32 * i <= k < 32 * i + 32) ==> c'[k] == c[k]
  }

  // ---------- words and entries ----------

  lemma WordIsDecoded(c: Cluster, i: nat)
    requires i < 512
    ensures WordAt(c, i) == DecodeFat(c)[i]
  {
  }

  lemma EntryIsDecoded(c: Cluster, i: nat)
    requires i < 64
    ensures var e, b := DecodeTable(c)[i], Slot(c, i);
            && e.name == b[..8] && e.ext == b[8..11] && (Used(e) <==> InUse(b)) && (IsFolder(e) <==> Directory(b))
            && FirstCluster(e) == ClusterIn(b) && e.filesize == SizeIn(b)
  {
    DecodedBytes(Slot(c, i));
    hide DecodeEntry;
    assert DecodeTable(c)[i] == DecodeEntry(Slot(c, i));
  }

  lemma DecodedBytes(b: seq<byte>)
    requires |b| == 32
    ensures var e := DecodeEntry(b);
            && e.name == b[..8] && e.ext == b[8..11] && (Used(e) <==> InUse(b)) && (IsFolder(e) <==> Directory(b))
            && FirstCluster(e) == ClusterIn(b) && e.filesize == SizeIn(b)
  {
  }

  // The fields the driver never sets are zero.
  ghost predicate Plain(e: Entry)
  {
    && e.userAttribute == 0xAA && e.undelete == 0 && e.createTime == e.createDate == e.accessDate == 0
    && e.modifiedTime == e.modifiedDate == 0
  }

  lemma LittleParts(b0: byte, b1: byte, b2: byte, b3: byte)
    ensures var w := Little(b0, b1, b2, b3);
            w % 0x100 == b0 && w / 0x100 % 0x100 == b1 && w / 0x1_0000 % 0x100 == b2 && w / 0x100_0000 == b3
  {
    var w := Little(b0, b1, b2, b3);
    assert w / 0x100 == b1 as int + 0x100 * b2 as int + 0x1_0000 * b3 as int;
    assert w / 0x1_0000 == b2 as int + 0x100 * b3 as int;
    assert w / 0x100_0000 == b3;
  }

  lemma HalvesOf(e: Entry)
    ensures var c := FirstCluster(e);
            && e.clusterLow % 0x100 == c % 0x100 && e.clusterLow / 0x100 == c / 0x100 % 0x100
            && e.clusterHigh % 0x100 == c / 0x1_0000 % 0x100 && e.clusterHigh / 0x100 == c / 0x100_0000
  {
    var low, high := e.clusterLow, e.clusterHigh;
    LittleParts(low % 0x100, low / 0x100, high % 0x100, high / 0x100);
    assert FirstCluster(e) == Little(low % 0x100, low / 0x100, high % 0x100, high / 0x100);
  }

  lemma EncodedBytes(e: Entry)
    requires Plain(e)
    ensures Holds(EncodeEntry(e), e.name, e.ext, e.attribute, FirstCluster(e), e.filesize)
  {
    HalvesOf(e);
    hide FirstCluster;
  }

  lemma StoredBytes(c: Cluster, i: nat, e: Entry)
    requires i < 64 && Plain(e)
    ensures Holds(Slot(PutEntry(c, i, e), i), e.name, e.ext, e.attribute, FirstCluster(e), e.filesize)
    ensures SameButEntry(c, PutEntry(c, i, e), i)
  {
    EncodedBytes(e);
    hide EncodeEntry, FirstCluster, Holds;
    assert Slot(PutEntry(c, i, e), i) == EncodeEntry(e);
  }

  // ---------- a new folder's table ----------

  // The name as it is copied up to its first zero byte.
  ghost predicate Copied(name: Name, b: seq<byte>)
  {
    |b| == 8 && forall i :: 0 <= i < 8 ==> b[i] == if exists j :: 0 <= j <= i && name[j] == 0 then 0 else name[i]
  }

  lemma PaddedIsCopied(name: Name)
    ensures Copied(name, NulPadded(name))
  {
    forall i | 0 <= i < 8
      ensures NulPadded(name)[i] == if exists j :: 0 <= j <= i && name[j] == 0 then 0 else name[i]
    {
      assert forall j :: 0 <= j <= i ==> name[..i + 1][j] == name[j];
    }
  }

  // Entry 0 names the folder itself and entry 1 its parent; everything behind them is zero.
  ghost predicate NewTable(t: Cluster, self: seq<byte>, cluster: int, up: seq<byte>, parent: int)
  {
    && Holds(Slot(t, 0), self, [0, 0, 0], 0x10, cluster, 0)
    && Holds(Slot(t, 1), up, [0, 0, 0], 0x10, parent, 0)
    && forall k :: 64 <= k < 2048 ==> t[k] == 0
  }

  lemma FolderEntry(name: Name, c: uint32)
    requires c < 512
    ensures var e := WithCluster(AsFolder(ZERO_ENTRY, name), c);
            && Plain(e) && e.name == name && e.ext == [0, 0, 0] && e.attribute == 0x10
            && FirstCluster(e) == c && e.filesize == 0
  {
    assert Zeros(3) == [0, 0, 0];
  }

  lemma TwoEntries(t0: Cluster, self: Entry, up: Entry)
    requires Plain(self) && Plain(up)
    ensures var t := PutEntry(PutEntry(t0, 0, self), 1, up);
            && Holds(Slot(t, 0), self.name, self.ext, self.attribute, FirstCluster(self), self.filesize)
            && Holds(Slot(t, 1), up.name, up.ext, up.attribute, FirstCluster(up), up.filesize)
            && forall k :: 64 <= k < 2048 ==> t[k] == t0[k]
  {
    StoredBytes(t0, 0, self);
    StoredBytes(PutEntry(t0, 0, self), 1, up);
    hide Holds, PutEntry, FirstCluster;
    assert Slot(PutEntry(PutEntry(t0, 0, self), 1, up), 0) == Slot(PutEntry(t0, 0, self), 0);
  }

  lemma InitTableIsNew(name: Name, parentTable: Cluster, parent: uint32)
    requires parent < 512
    ensures NewTable(InitTable(ZERO_CLUSTER, name, parentTable, parent), NulPadded(name), 0, parentTable[..8], parent)
  {
    hide DecodeTable, NulPadded, PutEntry, Holds, FirstCluster, Plain;
    InitTableSlots(name, parentTable, parent);
    ZeroTable(0);
    ZeroTable(1);
    EntryIsDecoded(parentTable, 0);
    FolderEntry(NulPadded(name), 0);
    assert WithCluster(AsFolder(ZERO_ENTRY, NulPadded(name)), 0) == AsFolder(ZERO_ENTRY, NulPadded(name));
    FolderEntry(parentTable[..8], parent);
    var self := AsFolder(ZERO_ENTRY, NulPadded(name));
    TwoEntries(ZERO_CLUSTER, self, WithCluster(AsFolder(ZERO_ENTRY, parentTable[..8]), parent));
    PutEntryChangesOneSlot(ZERO_CLUSTER, 0, self);
    assert Slot(parentTable, 0)[..8] == parentTable[..8];
    assert forall k :: 64 <= k < 2048 ==> ZERO_CLUSTER[k] == 0;
  }

  // ---------- formatting and mounting ----------

  // The text in the boot sector, in rows of sixteen bytes.
  function BootRow(k: nat): seq<byte>
    requires k < 5
  {
    if k == 0 then
      [0x43, 0x6F, 0x75, 0x72, 0x73, 0x65, 0x20, 0x20, 0x20, 0x20, 0x20, 0x20, 0x20, 0x20, 0x20, 0x20]
    else if k == 1 then
      [0x44, 0x65, 0x73, 0x69, 0x67, 0x6E, 0x65, 0x64, 0x20, 0x62, 0x79, 0x20, 0x20, 0x20, 0x20, 0x20]
    else if k == 2 then
      [0x4C, 0x61, 0x62, 0x20, 0x53, 0x69, 0x73, 0x74, 0x65, 0x72, 0x20, 0x49, 0x54, 0x42, 0x20, 0x20]
    else if k == 3 then
      [0x4D, 0x61, 0x64, 0x65, 0x20, 0x77, 0x69, 0x74, 0x68, 0x20, 0x3C, 0x33, 0x20, 0x20, 0x20, 0x20]
    else
      [0x2D, 0x2D, 0x2D, 0x2D, 0x2D, 0x2D, 0x2D, 0x2D, 0x2D, 0x2D, 0x2D, 0x32, 0x30, 0x32, 0x34, 0x0A]
  }

  // The boot sector of a formatted disk, byte by byte.
  ghost predicate IsBootBlock(b: seq<byte>)
  {
    && |b| == 512
    && b[..16] == BootRow(0) && b[16..32] == BootRow(1) && b[32..48] == BootRow(2) && b[48..64] == BootRow(3)
    && b[64..80] == BootRow(4)
    && (forall i :: 80 <= i < 510 ==> b[i] == 0)
    && b[510] == 0x4F && b[511] == 0x6B
  }

  lemma FirstRow(j: nat)
    requires j < 16
    ensures |SignatureRow(0)| == |BootRow(0)| == 16 && SignatureRow(0)[j] as int == BootRow(0)[j]
  {
  }

  lemma SecondRow(j: nat)
    requires j < 16
    ensures |SignatureRow(1)| == |BootRow(1)| == 16 && SignatureRow(1)[j] as int == BootRow(1)[j]
  {
  }

  lemma ThirdRow(j: nat)
    requires j < 16
    ensures |SignatureRow(2)| == |BootRow(2)| == 16 && SignatureRow(2)[j] as int == BootRow(2)[j]
  {
  }

  lemma FourthRow(j: nat)
    requires j < 16
    ensures |SignatureRow(3)| == |BootRow(3)| == 16 && SignatureRow(3)[j] as int == BootRow(3)[j]
  {
  }

  lemma FifthRow(j: nat)
    requires j < 16
    ensures |SignatureRow(4)| == |BootRow(4)| == 16 && SignatureRow(4)[j] as int == BootRow(4)[j]
  {
  }

  lemma RowByte(k: nat, j: nat)
    requires k < 5 && j < 16
    ensures |SignatureRow(k)| == |BootRow(k)| == 16 && SignatureRow(k)[j] as int == BootRow(k)[j]
  {
    hide SignatureRow, BootRow;
    if k == 0 {
      FirstRow(j);
    } else if k == 1 {
      SecondRow(j);
    } else if k == 2 {
      ThirdRow(j);
    } else if k == 3 {
      FourthRow(j);
    } else {
      FifthRow(j);
    }
  }

  lemma SignatureByteInRow(k: nat, j: nat)
    requires k < 5 && j < 16
    ensures SignatureByte(16 * k + j) == BootRow(k)[j]
  {
    RowByte(k, j);
    hide SignatureRow, BootRow;
    assert (16 * k + j) / 16 == k && (16 * k + j) % 16 == j;
  }

  lemma SignatureRowBytes(k: nat)
    requires k < 5
    ensures Signature()[16 * k..16 * k + 16] == BootRow(k)
  {
    RowByte(k, 0);
    hide SignatureRow, BootRow, SignatureByte;
    var b := Signature()[16 * k..16 * k + 16];
    forall j | 0 <= j < 16
      ensures b[j] == BootRow(k)[j]
    {
      SignatureByteInRow(k, j);
      assert b[j] == SignatureByte(16 * k + j);
    }
  }

  lemma SignatureBytes()
    ensures IsBootBlock(Signature())
  {
    SignatureRowBytes(0);
    SignatureRowBytes(1);
    SignatureRowBytes(2);
    SignatureRowBytes(3);
    SignatureRowBytes(4);
    hide BootRow;
  }

  lemma OneBootBlock(b: seq<byte>, b': seq<byte>)
    requires IsBootBlock(b) && IsBootBlock(b')
    ensures b == b'
  {
    hide BootRow;
    assert b == b[..16] + b[16..32] + b[32..48] + b[48..64] + b[64..80] + b[80..];
    assert b' == b'[..16] + b'[16..32] + b'[32..48] + b'[48..64] + b'[64..80] + b'[80..];
    assert b[80..] == b'[80..];
  }

  lemma SignedByBytes(v: Volume)
    ensures Signed(v) <==> IsBootBlock(v[0][..512])
  {
    hide IsBootBlock, Signature;
    SignatureBytes();
    if IsBootBlock(v[0][..512]) {
      OneBootBlock(v[0][..512], Signature());
    }
  }

  // What formatting leaves: the boot sector, the table with its three reserved words, the root's table, and every
  // other byte as it was.
  ghost predicate Formatted(v: Volume, v': Volume)
  {
    && |v'| == |v| && IsBootBlock(v'[0][..512]) && v'[0][512..] == v[0][512..]
    && v'[1][..12] == [0xF0, 0xFF, 0xFF, 0x0F, 0xFF, 0xFF, 0xFF, 0x0F, 0xFF, 0xFF, 0xFF, 0x0F]
    && (forall k :: 12 <= k < 2048 ==> v'[1][k] == 0)
    && NewTable(v'[2], [0x72, 0x6F, 0x6F, 0x74, 0, 0, 0, 0], 0, [0x72, 0x6F, 0x6F, 0x74, 0, 0, 0, 0], 2)
    && forall c :: 3 <= c < |v| ==> v'[c] == v[c]
  }

  lemma EmptyFatBytes()
    ensures EncodeFat(EmptyFat())[..12] == [0xF0, 0xFF, 0xFF, 0x0F, 0xFF, 0xFF, 0xFF, 0x0F, 0xFF, 0xFF, 0xFF, 0x0F]
    ensures forall k :: 12 <= k < 2048 ==> EncodeFat(EmptyFat())[k] == 0
  {
    hide EmptyFat;
    var b := EncodeFat(EmptyFat());
    assert b[0] == 0xF0 && b[1] == 0xFF && b[2] == 0xFF && b[3] == 0x0F;
    assert b[4] == 0xFF && b[5] == 0xFF && b[6] == 0xFF && b[7] == 0x0F;
    assert b[8] == 0xFF && b[9] == 0xFF && b[10] == 0xFF && b[11] == 0x0F;
    forall k | 12 <= k < 2048
      ensures b[k] == 0
    {
      ZeroWordByte(EmptyFat(), k);
    }
  }

  lemma ZeroWordByte(f: Fat, k: nat)
    requires k < 2048 && f[k / 4] == 0
    ensures EncodeFat(f)[k] == 0
  {
    assert Bytes32(0) == [0, 0, 0, 0];
  }

  lemma FormatParts(m: State)
    ensures var v, v' := m.disk.volume, Format(m).disk.volume;
            && |v'| == |v| && v'[0] == Splice(v[0], 0, Signature()) && v'[1] == EncodeFat(EmptyFat())
            && v'[2] == InitTable(ZERO_CLUSTER, RootName(), Splice(v[2], 0, RootNameBlock()), 2)
            && forall c :: 3 <= c < |v| ==> v'[c] == v[c]
  {
    hide EncodeFat, EmptyFat, InitTable, RootNameBlock, Splice, Signature;
  }

  lemma FormattedBytes(m: State)
    ensures Formatted(m.disk.volume, Format(m).disk.volume)
  {
    hide EncodeFat, EmptyFat, InitTable, Signature, Format, NewTable, IsBootBlock, NulPadded;
    FormatParts(m);
    EmptyFatBytes();
    SignatureBytes();
    var v := m.disk.volume;
    assert Splice(v[0], 0, Signature())[..512] == Signature();
    assert Splice(v[2], 0, RootNameBlock())[..8] == RootName();
    RootNamePadded();
    InitTableIsNew(RootName(), Splice(v[2], 0, RootNameBlock()), 2);
  }

  // Mounting a disk whose first block is the boot sector leaves the disk alone and loads the words of cluster 1,
  // sound or not; mounting any other disk formats it.
  lemma MountByBytes(m: State)
    ensures var v, m' := m.disk.volume, Mount(m);
            if IsBootBlock(v[0][..512]) then
              m'.disk == m.disk && forall i :: 0 <= i < 512 ==> m'.fat[i] as nat == WordAt(v[1], i)
            else
              Formatted(v, m'.disk.volume) && Ready(m', ROOT_LAYOUT) && |FreeClusters(m'.fat)| == 509
              && View(Image(m'.disk.volume)) == imap[[] := Folder(2)]
  {
    hide IsBootBlock, Formatted, Ready, View, FreeClusters, Format, DecodeFat, WordAt;
    SignedByBytes(m.disk.volume);
    if Signed(m.disk.volume) {
      forall i | 0 <= i < 512
        ensures Mount(m).fat[i] as nat == WordAt(m.disk.volume[1], i)
      {
        WordIsDecoded(m.disk.volume[1], i);
      }
    } else {
      FormattedBytes(m);
      FormatIsSound(m);
      FormattedFree(m);
    }
  }

  // Between calls the cached words are those of cluster 1.
  lemma CachedWordsOnDisk(m: State, l: Layout, i: nat)
    requires Ready(m, l) && i < 512
    ensures m.fat[i] as nat == WordAt(m.disk.volume[1], i)
  {
    hide DecodeFat, WordAt;
    WordIsDecoded(m.disk.volume[1], i);
  }
}
