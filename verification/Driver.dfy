/** The driver itself: the calls of src/fat32.c over a block store and a cached allocation table. */
module Driver {
  import opened Machine
  import opened Encoding
  import opened Allocation
  import opened FileTree
  import opened Storage
  import opened Operations
  import opened Durability
  import opened Writing
  import opened Deleting
  import opened Reading
  import opened Inverses
  import opened Formatting
  import opened DiskBytes
  import opened CallBytes
  import CString

  // The request's name and extension, compared the way every lookup does.
  method SameName(e: Entry, r: Request) returns (same: bool)
    ensures same <==> Names(e, RequestKey(r), false)
  {
    var c := CString.Memcmp(e.name, r.name, 8);
    if c != 0 {
      return false;
    }
    c := CString.Memcmp(e.ext, r.ext, 3);
    return c == 0;
  }

  function EntryIn(table: seq<byte>, i: nat): Entry
    requires |table| == CLUSTER_SIZE && i < ENTRY_COUNT
  {
    DecodeEntry(table[ENTRY_SIZE * i..ENTRY_SIZE * i + ENTRY_SIZE])
  }

  // table[i] = e, on the bytes of a directory table.
  method SetEntry(table: array<byte>, i: nat, e: Entry)
    requires table.Length == CLUSTER_SIZE && i < ENTRY_COUNT
    modifies table
    ensures table[..] == PutEntry(old(table[..]), i, e)
  {
    var bytes := EncodeEntry(e);
    hide EncodeEntry;
    ghost var was := table[..];
    for j := 0 to ENTRY_SIZE
      invariant forall k :: ENTRY_SIZE * i <= k < ENTRY_SIZE * i + j ==> table[k] == bytes[k - ENTRY_SIZE * i]
      invariant forall k :: 0 <= k < CLUSTER_SIZE && !(ENTRY_SIZE * i <= k < ENTRY_SIZE * i + j) ==> table[k] == was[k]
    {
      table[ENTRY_SIZE * i + j] := bytes[j];
    }
    assert table[..] == Splice(was, ENTRY_SIZE * i, bytes);
  }

  function ClusterToLba(cluster: nat): nat
  {
    CLUSTER_BLOCK_COUNT * cluster
  }

  class Fat32 {
    const store: BlockStore
    const clusterMap: array<uint32>

    ghost predicate Valid()
    {
      clusterMap.Length == CLUSTER_MAP_SIZE && store.Valid() && clusterMap as object != store.image
    }

    ghost function Now(): (m: State)
      reads store, store.image, clusterMap
      requires Valid()
    {
      State(clusterMap[..], store.Contents())
    }

    constructor (store: BlockStore, clusterMap: array<uint32>)
      requires clusterMap.Length == CLUSTER_MAP_SIZE && store.Valid() && clusterMap as object != store.image
      ensures Valid() && this.store == store && this.clusterMap == clusterMap
    {
      this.store, this.clusterMap := store, clusterMap;
    }

    // ---------- clusters ----------

    // A block count is eight bits wide, so at most 63 clusters go through in one call.
    method WriteClusters(ptr: array<byte>, at: nat, cluster: uint32, count: byte)
      requires Valid() && ptr != store.image && count <= 63
      requires CLUSTER_SIZE * (cluster + count) <= store.image.Length && at + CLUSTER_SIZE * count <= ptr.Length
      modifies store`history, store.image
      ensures store.Contents() == PutBlocks(old(store.Contents()), ClusterToLba(cluster),
                                            BlocksOf(ptr[..], at, CLUSTER_BLOCK_COUNT * count),
                                            CLUSTER_BLOCK_COUNT * count)
    {
      hide PutBlocks, BlocksOf, Clusters;
      store.WriteBlocks(ptr, at, ClusterToLba(cluster), CLUSTER_BLOCK_COUNT * count);
    }

    method ReadClusters(ptr: array<byte>, at: nat, cluster: uint32, count: byte)
      requires Valid() && ptr != store.image && count <= 63
      requires CLUSTER_SIZE * (cluster + count) <= store.image.Length && at + CLUSTER_SIZE * count <= ptr.Length
      modifies ptr
      ensures var from := CLUSTER_SIZE * cluster;
              ptr[..] == Splice(old(ptr[..]), at, store.image[..][from..from + CLUSTER_SIZE * count])
    {
      hide Splice;
      store.ReadBlocks(ptr, at, ClusterToLba(cluster), CLUSTER_BLOCK_COUNT * count);
    }

    // One cluster, in terms of the volume.
    method WriteCluster(ptr: array<byte>, at: nat, cluster: uint32)
      requires Valid() && ptr != store.image && ptr as object != clusterMap
      requires cluster < CLUSTER_MAP_SIZE && at + CLUSTER_SIZE <= ptr.Length
      modifies store`history, store.image
      ensures Now() == Put(old(Now()), cluster, ptr[at..at + CLUSTER_SIZE])
    {
      hide PutBlocks, BlocksOf, Clusters, PutCluster;
      WriteClusters(ptr, at, cluster, 1);
      OneClusterWrite(old(store.Contents()), cluster, ptr[..], at);
    }

    method ReadCluster(ptr: array<byte>, at: nat, cluster: uint32)
      requires Valid() && ptr != store.image
      requires cluster < |store.Contents().volume| && at + CLUSTER_SIZE <= ptr.Length
      modifies ptr
      ensures ptr[..] == Splice(old(ptr[..]), at, store.Contents().volume[cluster])
    {
      hide Splice;
      ReadClusters(ptr, at, cluster, 1);
    }

    // The cached table goes to its cluster on disk as bytes.
    method WriteFat()
      requires Valid()
      modifies store`history, store.image
      ensures Now() == FlushFat(old(Now()))
    {
      hide EncodeFat, PutCluster, Clusters;
      var bytes := EncodeFat(clusterMap[..]);
      var buf := new byte[CLUSTER_SIZE](i requires 0 <= i < CLUSTER_SIZE => bytes[i]);
      assert buf[0..0 + CLUSTER_SIZE] == bytes;
      WriteCluster(buf, 0, FAT_CLUSTER_NUMBER);
    }

    method SetCluster(c: uint32, w: uint32)
      requires Valid() && c < CLUSTER_MAP_SIZE
      modifies clusterMap
      ensures Now() == SetFat(old(Now()), c, w)
    {
      clusterMap[c] := w;
    }

    // A directory table read into a zeroed stack buffer.
    method ReadTable(cluster: uint32) returns (table: array<byte>)
      requires Valid() && cluster < CLUSTER_MAP_SIZE
      ensures fresh(table) && table.Length == CLUSTER_SIZE && table[..] == store.Contents().volume[cluster]
    {
      table := new byte[CLUSTER_SIZE];
      CString.Memset(table, 0, 0, CLUSTER_SIZE);
      ReadCluster(table, 0, cluster);
    }

    // ---------- formatting and mounting ----------

    method InitDirectoryTable(table: array<byte>, name: Name, parent: uint32)
      requires Valid() && table.Length == CLUSTER_SIZE && table != store.image && parent < CLUSTER_MAP_SIZE
      requires table as object != clusterMap
      modifies table
      ensures table[..] == InitTable(old(table[..]), name, store.Contents().volume[parent], parent)
    {
      hide PutEntry, DecodeEntry, NulPadded, Clusters;
      ghost var was := table[..];
      var copied: Name := Zeros(8);
      var i := 0;
      while i < 8 && name[i] != 0
        invariant 0 <= i <= 8 && 0 !in name[..i] && copied == name[..i] + Zeros(8 - i)
      {
        copied := copied[i := name[i]];
        i := i + 1;
      }
      PaddedName(name, i, copied);
      SetEntry(table, 0, AsFolder(EntryIn(table[..], 0), copied));

      var t := ReadTable(parent);
      var up: Name := Zeros(8);
      var from := EntryIn(t[..], 0).name;
      for j := 0 to 8
        invariant up[..j] == from[..j]
      {
        up := up[j := from[j]];
      }
      assert up == from;
      InitTableBytes(was, name, t[..], parent);
      SetEntry(table, 1, WithCluster(AsFolder(EntryIn(table[..], 1), up), parent));
    }

    method IsEmptyStorage() returns (empty: bool)
      requires Valid()
      ensures empty <==> !Signed(Now().disk.volume)
      ensures empty <==> !IsBootBlock(store.image[..512])
    {
      FirstBlockOfImage(store.image[..]);
      SignedByBytes(Now().disk.volume);
      hide Splice, Signature, Clusters, IsBootBlock;
      var bootSector := new byte[BLOCK_SIZE];
      ghost var was := bootSector[..];
      store.ReadBlocks(bootSector, 0, 0, 1);
      BootSectorRead(store.image[..], was, bootSector[..]);
      var c := CString.Memcmp(bootSector[..], Signature(), BLOCK_SIZE);
      assert bootSector[..][..BLOCK_SIZE] == bootSector[..] && Signature()[..BLOCK_SIZE] == Signature();
      return c != 0;
    }

    method WriteOneBlock(data: Block, lba: uint32)
      requires Valid() && lba < CLUSTER_BLOCK_COUNT * CLUSTER_MAP_SIZE
      modifies store`history, store.image
      ensures InVolume(old(Now()).disk.volume, lba)
      ensures Now() == old(Now()).(disk := PutBlock(old(Now()).disk, lba, data))
    {
      hide PutBlock, Clusters;
      var buf := new byte[BLOCK_SIZE](i requires 0 <= i < BLOCK_SIZE => data[i]);
      assert buf[..] == data;
      store.WriteBlocks(buf, 0, lba, 1);
      OneBlockWrite(old(store.Contents()), lba, buf[..]);
    }

    // The letters of "root" copied into a zeroed block.
    method NameInBlock() returns (block: Block)
      ensures block == RootNameBlock()
    {
      block := Zeros(BLOCK_SIZE);
      var i := 0;
      while i < 8 && RootName()[i] != 0
        invariant 0 <= i <= 8 && block == RootName()[..i] + Zeros(BLOCK_SIZE - i) && 0 !in RootName()[..i]
      {
        block := block[i := RootName()[i]];
        i := i + 1;
      }
    }

    // create_fat32: boot sector, table, root name, root table, in this order.
    method CreateFat32()
      requires Valid()
      modifies store`history, store.image, clusterMap
      ensures Now() == Format(old(Now()))
      ensures Formatted(old(Now()).disk.volume, Now().disk.volume) && IsBootBlock(store.image[..512])
    {
      hide PutBlock, PutCluster, EncodeFat, InitTable, Signature, Clusters, RootNameBlock, RootName, IsBootBlock,
           Formatted;
      ghost var m := Now();
      WriteOneBlock(Signature(), 0);
      for c := 0 to CLUSTER_MAP_SIZE
        invariant store.Contents() == PutBlock(m.disk, 0, Signature())
        invariant forall k :: 0 <= k < c ==> clusterMap[k] == 0
      {
        clusterMap[c] := 0;
      }
      clusterMap[0] := CLUSTER_0_VALUE;
      clusterMap[1] := CLUSTER_1_VALUE;
      clusterMap[2] := FAT_END_OF_FILE;
      assert clusterMap[..] == EmptyFat();
      WriteFat();
      assert Now() == FormatMapped(m);

      var block := NameInBlock();
      WriteOneBlock(block, ClusterToLba(ROOT_CLUSTER_NUMBER));
      assert Now() == FormatNamed(m);

      var table := new byte[CLUSTER_SIZE];
      CString.Memset(table, 0, 0, CLUSTER_SIZE);
      assert table[..] == ZERO_CLUSTER;
      InitDirectoryTable(table, RootName(), ROOT_CLUSTER_NUMBER);
      assert table[0..0 + CLUSTER_SIZE] == table[..];
      WriteCluster(table, 0, ROOT_CLUSTER_NUMBER);
      FormattedImage(m, store.image[..]);
    }

    method InitializeFilesystem()
      requires Valid()
      modifies store`history, store.image, clusterMap
      ensures Now() == Mount(old(Now()))
      ensures if IsBootBlock(old(store.image[..512])) then
                store.Contents() == old(store.Contents())
                && forall i :: 0 <= i < 512 ==> clusterMap[i] as nat == WordAt(old(store.Contents()).volume[1], i)
              else
                && Formatted(old(store.Contents()).volume, store.Contents().volume) && Ready(Now(), ROOT_LAYOUT)
                && View(Image(store.Contents().volume)) == imap[[] := Folder(2)]
                && |FreeClusters(clusterMap[..])| == 509
    {
      FirstBlockOfImage(store.image[..]);
      MountByBytes(Now());
      hide Signed, Format, Word32, Clusters, IsBootBlock, Formatted, Ready, View, FreeClusters, WordAt;
      var empty := IsEmptyStorage();
      if empty {
        CreateFat32();
      } else {
        var bytes := ReadTable(FAT_CLUSTER_NUMBER);
        ghost var disk := store.Contents();
        for c := 0 to CLUSTER_MAP_SIZE
          invariant store.Contents() == disk && bytes[..] == disk.volume[FAT_CLUSTER_NUMBER]
          invariant forall k :: 0 <= k < c ==> clusterMap[k] == DecodeFat(bytes[..])[k]
        {
          clusterMap[c] := Word32(bytes[..], 4 * c);
        }
        assert clusterMap[..] == DecodeFat(bytes[..]);
      }
    }

    // ---------- allocation ----------

    // The lowest free clusters, as many as asked for or as there are.
    method CountEmptyFatSlots(buf: array<uint32>, required: byte) returns (count: byte)
      requires Valid() && buf != clusterMap && buf.Length >= required
      modifies buf
      ensures count as nat == if |FreeClusters(clusterMap[..])| < required then |FreeClusters(clusterMap[..])|
          else required
      ensures forall k :: 0 <= k < count ==> buf[k] as nat == FreeClusters(clusterMap[..])[k]
    {
      ghost var fat: Fat := clusterMap[..];
      ghost var free := FreeClusters(fat);
      count := 0;
      var i: uint32 := 0;
      assert free[0..] == FreeFrom(fat, 0);
      hide FreeClusters, Ascending;
      while count < required && i < CLUSTER_MAP_SIZE
        invariant 0 <= i <= CLUSTER_MAP_SIZE && 0 <= count <= required && clusterMap[..] == fat
        invariant count as nat <= |free| && free[count..] == FreeFrom(fat, i)
        invariant forall k :: 0 <= k < count ==> buf[k] as nat == free[k]
      {
        if clusterMap[i] == FAT_EMPTY_ENTRY {
          NextFree(fat, i, free, count);
          buf[count] := i;
          count := count + 1;
        }
        i := i + 1;
      }
    }

    // ---------- write ----------

    // The branch of write that makes a folder.
    method StoreFolder(r: Request, c: uint32)
      requires Valid() && r.parent < CLUSTER_MAP_SIZE && c < CLUSTER_MAP_SIZE
      modifies store`history, store.image, clusterMap
      ensures Now() == MakeFolder(old(Now()), r, c)
    {
      hide PutEntry, DecodeEntry, InitTable, PutCluster, EncodeFat, Clusters;
      ghost var m := Now();
      var child := new byte[CLUSTER_SIZE];
      CString.Memset(child, 0, 0, CLUSTER_SIZE);
      assert child[..] == ZERO_CLUSTER;
      InitDirectoryTable(child, r.name, r.parent);
      SetEntry(child, 0, WithCluster(EntryIn(child[..], 0), c));
      assert child[0..0 + CLUSTER_SIZE] == child[..] == FolderTable(m, r, c);
      WriteCluster(child, 0, c);
      SetCluster(c, FAT_END_OF_FILE);
      WriteFat();
    }

    // The branch of write that links and fills the clusters of a file.
    method StoreFile(slotBuf: array<uint32>, data: array<byte>, required: byte, ghost slots: seq<nat>)
      requires Valid() && slotBuf != clusterMap && data != store.image
      requires data as object != clusterMap && slotBuf as object != store.image
      requires slotBuf.Length == required as nat == |slots| && data.Length >= CLUSTER_SIZE * required
      requires forall k :: 0 <= k < |slots| ==> slotBuf[k] as nat == slots[k]
      requires forall c :: c in slots ==> c < CLUSTER_MAP_SIZE
      modifies store`history, store.image, clusterMap
      ensures Now() == Fill(old(Now()), slots, data[..], |slots|)
    {
      hide PutCluster, EncodeFat, Clusters;
      ghost var m := Now();
      var at := 0;
      for j := 0 to required
        invariant at == CLUSTER_SIZE * j && Now() == Fill(m, slots, data[..], j)
      {
        assert slots[j] in slots && (j + 1 < |slots| ==> slots[j + 1] in slots);
        var cluster := slotBuf[j];
        var next: uint32 := if j < required - 1 then slotBuf[j + 1] else FAT_END_OF_FILE;
        SetCluster(cluster, next);
        WriteFat();
        assert CLUSTER_SIZE * j + CLUSTER_SIZE <= CLUSTER_SIZE * required;
        assert data[at..at + CLUSTER_SIZE] == Chunk(data[..], j);
        WriteCluster(data, at, cluster);
        at := at + CLUSTER_SIZE;
      }
    }

    // How many clusters the request needs, and the lowest free ones if there are enough.
    method TakeSlots(r: Request) returns (enough: bool, slotBuf: array<uint32>)
      requires Valid()
      ensures fresh(slotBuf) && Needed(r) < 0x100 && slotBuf.Length == Needed(r)
      ensures enough <==> Needed(r) <= |FreeClusters(clusterMap[..])|
      ensures enough ==>
                forall k :: 0 <= k < Needed(r) ==> slotBuf[k] as nat == LowestFree(clusterMap[..], Needed(r))[k]
    {
      RequiredIsCeilingIffSmall(0);
      hide Required, FreeClusters;
      var required: byte := Required(r.bufferSize);
      var isFolder := false;
      if r.bufferSize == 0 {
        isFolder := true;
        required := required + 1;
      }
      slotBuf := new uint32[required];
      var empty := CountEmptyFatSlots(slotBuf, required);
      enough := !(empty < required);
    }

    // The second half of write: contents first, the parent's entry last.
    method StoreNode(r: Request, data: array<byte>, table: array<byte>, slot: nat, slotBuf: array<uint32>,
        ghost slots: seq<nat>)
      requires Valid() && r.parent < CLUSTER_MAP_SIZE && slot < ENTRY_COUNT && table.Length == CLUSTER_SIZE
      requires 0 < |slots|
      requires table != store.image && table as object != clusterMap && table != data && table as object != slotBuf
      requires data != store.image && data as object != clusterMap && slotBuf != clusterMap
          && slotBuf as object != store.image
      requires slotBuf.Length == |slots| < 0x100 && (r.bufferSize != 0 ==> data.Length >= CLUSTER_SIZE * |slots|)
      requires forall k :: 0 <= k < |slots| ==> slotBuf[k] as nat == slots[k]
      requires forall c :: c in slots ==> c < CLUSTER_MAP_SIZE
      modifies store`history, store.image, clusterMap, table
      ensures slots[0] in slots
      ensures Now() == Put(if r.bufferSize == 0 then MakeFolder(old(Now()), r, slots[0])
          else Fill(old(Now()), slots, data[..], |slots|),
                           r.parent, PutEntry(old(table[..]), slot, NewEntry(r, slots[0])))
    {
      hide PutEntry, NewEntry, MakeFolder, Fill, Put, Clusters;
      assert slots[0] in slots;
      var first := slotBuf[0];
      if r.bufferSize == 0 {
        StoreFolder(r, first);
      } else {
        StoreFile(slotBuf, data, slotBuf.Length, slots);
      }
      var entry := MetadataEntry(r, first);
      SetEntry(table, slot, entry);
      assert table[0..0 + CLUSTER_SIZE] == table[..];
      WriteCluster(table, 0, r.parent);
    }

    // The scan at the start of write: a slot with the same name, or the first unused slot after slot 0.
    method FindEmptySlot(table: array<byte>, r: Request) returns (taken: bool, slot: nat)
      requires table.Length == CLUSTER_SIZE
      ensures taken <==> FirstSlot(DecodeTable(table[..]), RequestKey(r), false, 0) < ENTRY_COUNT
      ensures !taken ==> slot == if FirstUnused(DecodeTable(table[..]), 1) == ENTRY_COUNT then 0
          else FirstUnused(DecodeTable(table[..]), 1)
    {
      hide DecodeEntry, Names, Used, FirstSlot, FirstUnused;
      ghost var t := DecodeTable(table[..]);
      taken, slot := false, 0;
      for i := 0 to ENTRY_COUNT
        invariant forall j :: 0 <= j < i ==> !Names(t[j], RequestKey(r), false)
        invariant slot == if FirstUnused(t, 1) < i then FirstUnused(t, 1) else 0
      {
        var e := EntryIn(table[..], i);
        assert e == t[i];
        if !Used(e) && slot == 0 {
          slot := i;
        }
        var same := SameName(e, r);
        if same {
          return true, slot;
        }
      }
    }

    // The new state is Operations.Write of the old one, so WriteKeepsInvariant, WriteRefines and WriteIsAtomic speak
    // about it.
    method Write(r: Request, data: array<byte>) returns (code: int)
      requires Valid() && data != store.image && data as object != clusterMap
      requires WriteDefined(Now(), r, data[..])
      modifies store`history, store.image, clusterMap
      ensures code == WriteCode(old(Now()), r) && Now() == Operations.Write(old(Now()), r, data[..])
      ensures code == 0 ==> StoresEntry(old(Now()), r, Now())
    {
      ghost var m := Now();
      WriteCases(m, r, data[..]);
      hide PutCluster, PutEntry, NewEntry, MakeFolder, Fill, DecodeTable, Required, Clusters, WriteCode,
           Operations.Write, Prepared, FirstSlot, FirstUnused, FreeClusters, Put, StoresEntry;
      if clusterMap[r.parent] != FAT_END_OF_FILE {
        return 2;
      }
      var table := ReadTable(r.parent);
      assert DecodeTable(table[..]) == ParentTable(m, r);
      var taken, slot := FindEmptySlot(table, r);
      if taken {
        return 1;
      }
      if slot == 0 {
        return -1;
      }
      var enough, slotBuf := TakeSlots(r);
      if !enough {
        return -1;
      }
      StoreNode(r, data, table, slot, slotBuf, LowestFree(m.fat, Needed(r)));
      EntryIsStored(m, r, data[..]);
      return 0;
    }

    // The entry written to the parent, name and extension copied byte by byte.
    method MetadataEntry(r: Request, c: uint32) returns (e: Entry)
      requires c < CLUSTER_MAP_SIZE
      ensures e == NewEntry(r, c)
    {
      e := WithCluster(ZERO_ENTRY.(attribute := if r.bufferSize == 0 then ATTR_SUBDIRECTORY else 0,
                                   userAttribute := UATTR_NOT_EMPTY, filesize := r.bufferSize), c);
      var name: Name, ext: Ext := Zeros(8), Zeros(3);
      for a := 0 to 8
        invariant name[..a] == r.name[..a]
      {
        name := name[a := r.name[a]];
      }
      for b := 0 to 3
        invariant ext[..b] == r.ext[..b]
      {
        ext := ext[b := r.ext[b]];
      }
      assert name == r.name && ext == r.ext;
      e := e.(name := name, ext := ext);
    }

    // ---------- delete ----------

    method WipeCluster(c: uint32)
      requires Valid() && c < CLUSTER_MAP_SIZE
      modifies store`history, store.image, clusterMap
      ensures Now() == Put(SetFat(old(Now()), c, FAT_EMPTY_ENTRY), c, ZERO_CLUSTER)
    {
      hide PutCluster, Clusters;
      SetCluster(c, FAT_EMPTY_ENTRY);
      var emptyCluster := new byte[CLUSTER_SIZE];
      CString.Memset(emptyCluster, 0, 0, CLUSTER_SIZE);
      assert emptyCluster[0..0 + CLUSTER_SIZE] == ZERO_CLUSTER;
      WriteCluster(emptyCluster, 0, c);
    }

    // The loop of delete over the chain of the entry that was removed.
    method WipeChain(first: uint32, ghost chain: seq<nat>)
      requires Valid() && ChainOk(clusterMap[..], first) && chain == Chain(clusterMap[..], first)
      modifies store`history, store.image, clusterMap
      ensures forall c :: c in chain ==> c < CLUSTER_MAP_SIZE
      ensures Now() == FreeChain(old(Now()), chain, |chain|)
    {
      ghost var m := Now();
      ChainSteps(m.fat, first);
      hide PutCluster, Clusters, Chain, ChainOk, Ascending;
      var current, done := first, false;
      ghost var k := 0;
      while !done
        invariant 0 <= k <= |chain| && Now() == FreeChain(m, chain, k)
        invariant if done then k == |chain| else k < |chain| && current as nat == chain[k]
        invariant forall i :: k <= i < |chain| ==>
                                chain[i] < CLUSTER_MAP_SIZE && clusterMap[chain[i]] == m.fat[chain[i]]
        decreases |chain| - k, !done
      {
        NextInChain(m.fat, chain, k);
        var next := clusterMap[current];
        WipeCluster(current);
        current := next;
        k := k + 1;
        done := current == FAT_END_OF_FILE;
      }
    }

    // The emptiness test of delete, slots 2 to 63 of the folder's table.
    method IsEmptyFolder(cluster: uint32) returns (isEmpty: bool)
      requires Valid() && cluster < CLUSTER_MAP_SIZE
      ensures isEmpty <==> TableEmpty(DecodeTable(Now().disk.volume[cluster]))
    {
      hide DecodeEntry, Clusters;
      var entryTable := ReadTable(cluster);
      ghost var t := DecodeTable(entryTable[..]);
      isEmpty := true;
      var j := 2;
      while isEmpty && j < ENTRY_COUNT
        invariant 2 <= j <= ENTRY_COUNT
        invariant forall i :: 2 <= i < (if isEmpty then j else j - 1) ==> !Used(t[i])
        invariant !isEmpty ==> 2 < j && Used(t[j - 1])
      {
        var child := EntryIn(entryTable[..], j);
        assert child == t[j];
        if Used(child) {
          isEmpty := false;
        }
        j := j + 1;
      }
    }

    // The entry leaves the parent's table before anything else changes.
    method Unlink(r: Request, table: array<byte>, i: nat)
      requires Valid() && r.parent < CLUSTER_MAP_SIZE && i == Found(Now(), r) < ENTRY_COUNT
      requires table.Length == CLUSTER_SIZE && table != store.image && table as object != clusterMap
      requires table[..] == Now().disk.volume[r.parent]
      modifies store`history, store.image, table
      ensures Now() == Unlinked(old(Now()), r)
    {
      hide PutCluster, PutEntry, Clusters, FirstSlot, DecodeTable;
      SetEntry(table, i, ZERO_ENTRY);
      assert table[0..0 + CLUSTER_SIZE] == table[..];
      WriteCluster(table, 0, r.parent);
    }

    // What delete does once slot i of the parent's table carries the name.
    method DeleteFound(r: Request, table: array<byte>, i: nat) returns (code: int)
      requires Valid() && DeleteDefined(Now(), r) && Now().fat[r.parent] == FAT_END_OF_FILE
          && i == Found(Now(), r) < ENTRY_COUNT
      requires table.Length == CLUSTER_SIZE && table != store.image && table as object != clusterMap
      requires table[..] == Now().disk.volume[r.parent]
      modifies store`history, store.image, clusterMap, table
      ensures code == DeleteCode(old(Now()), r) && Now() == Operations.Delete(old(Now()), r)
    {
      ghost var m := Now();
      DeleteCases(m, r);
      hide DecodeEntry, PutCluster, PutEntry, Clusters, Chain, ChainOk, FreeChain, EncodeFat, FirstSlot, DeleteCode,
           Operations.Delete, TableEmpty, DeleteDefined, Put, FirstCluster, DecodeTable, Unlinked;
      var e := EntryIn(table[..], i);
      EntryInTable(table[..], i);
      assert e == Victim(m, r);
      var current := FirstCluster(e);
      if IsFolder(e) {
        var isEmpty := IsEmptyFolder(current);
        if !isEmpty {
          return 2;
        }
      }
      ghost var chain := Chain(m.fat, current);
      Unlink(r, table, i);
      WipeChain(current, chain);
      WriteFat();
      return 0;
    }

    // The scan of read, delete and, skipping unused slots, read_directory.
    method FindEntry(table: array<byte>, r: Request, usedOnly: bool) returns (slot: nat)
      requires table.Length == CLUSTER_SIZE
      ensures slot == FirstSlot(DecodeTable(table[..]), RequestKey(r), usedOnly, 0)
    {
      hide DecodeEntry, FirstSlot, RequestKey, KeyOf;
      ghost var t := DecodeTable(table[..]);
      for i := 0 to ENTRY_COUNT
        invariant forall j :: 0 <= j < i ==> !Names(t[j], RequestKey(r), usedOnly)
      {
        var e := EntryIn(table[..], i);
        assert e == t[i];
        if usedOnly && !Used(e) {
          continue;
        }
        var same := SameName(e, r);
        if same {
          return i;
        }
      }
      return ENTRY_COUNT;
    }

    method Delete(r: Request) returns (code: int)
      requires Valid() && DeleteDefined(Now(), r)
      modifies store`history, store.image, clusterMap
      ensures code == DeleteCode(old(Now()), r) && Now() == Operations.Delete(old(Now()), r)
    {
      ghost var m := Now();
      hide DecodeEntry, PutCluster, PutEntry, Clusters, Chain, ChainOk, FreeChain, EncodeFat, FlushFat, Unlinked,
           TableEmpty, FirstSlot;
      if clusterMap[r.parent] != FAT_END_OF_FILE {
        return 2;
      }
      var table := ReadTable(r.parent);
      var i := FindEntry(table, r, false);
      assert i == Found(m, r);
      if i == ENTRY_COUNT {
        return 1;
      }
      code := DeleteFound(r, table, i);
    }

    // ---------- read ----------

    // The caller's buffer holds what the chain loop stores; ReadFits shows it does for every request on a live folder.
    method Read(r: Request, buf: array<byte>) returns (code: int)
      requires Valid() && buf != store.image && buf as object != clusterMap
      requires ReadDefined(Now(), r) && (ReadCode(Now(), r) == 0 ==> CLUSTER_SIZE * |ReadData(Now(), r)| <= buf.Length)
      modifies buf
      ensures code == ReadCode(Now(), r)
      ensures code == 0 ==> |Concat(ReadData(Now(), r))| == CLUSTER_SIZE * |ReadData(Now(), r)|
      ensures buf[..] == if code == 0 then Splice(old(buf[..]), 0, Concat(ReadData(Now(), r))) else old(buf[..])
    {
      ghost var m := Now();
      ReadCases(m, r);
      hide DecodeEntry, Clusters, Chain, ChainOk, Splice, Concat, Required, FirstSlot, ReadCode, ReadData,
           ReadDefined, Gather, FirstCluster, DecodeTable;
      if clusterMap[r.parent] != FAT_END_OF_FILE {
        return 2;
      }
      var table := ReadTable(r.parent);
      var i := FindEntry(table, r, false);
      assert i == Found(m, r);
      if i == ENTRY_COUNT {
        return 2;
      }
      var e := EntryIn(table[..], i);
      EntryInTable(table[..], i);
      if IsFolder(e) {
        return 1;
      }
      if r.bufferSize / CLUSTER_SIZE < Required(e.filesize) {
        return -1;
      }
      ReadChain(buf, FirstCluster(e));
      return 0;
    }

    method ReadChain(buf: array<byte>, first: uint32)
      requires Valid() && buf != store.image && buf as object != clusterMap && ChainOk(clusterMap[..], first)
      requires CLUSTER_SIZE * |Chain(clusterMap[..], first)| <= buf.Length
      modifies buf
      ensures CLUSTER_SIZE * |Chain(clusterMap[..], first)|
          == |Concat(Gather(store.Contents().volume, Chain(clusterMap[..], first)))|
      ensures buf[..] == Splice(old(buf[..]), 0, Concat(Gather(store.Contents().volume, Chain(clusterMap[..], first))))
    {
      ghost var m, was := Now(), buf[..];
      ghost var chain := Chain(m.fat, first);
      ghost var data := Gather(m.disk.volume, chain);
      ChainSteps(m.fat, first);
      hide Chain, ChainOk, Clusters, Concat, Splice;
      NothingRead(was);
      var current, clustersRead := first, 0;
      ghost var at := 0;
      while current != FAT_END_OF_FILE
        invariant 0 <= clustersRead <= |chain| && Now() == m
        invariant current as nat == if clustersRead < |chain| then chain[clustersRead] else FAT_END_OF_FILE
        invariant CopiedSoFar(was, buf[..], data, clustersRead)
        decreases |chain| - clustersRead
      {
        ghost var before := buf[..];
        assert chain[clustersRead] in chain;
        ReadCluster(buf, clustersRead * CLUSTER_SIZE, current);
        OneMoreRead(was, before, buf[..], data, clustersRead);
        NextInChain(m.fat, chain, clustersRead);
        assert clusterMap[current] == m.fat[current];
        current := clusterMap[current];
        clustersRead := clustersRead + 1;
      }
      assert data[..|data|] == data;
    }

    // A whole cluster is stored, although the guard only asks for the size of one entry: ReadDirectoryFitsIff.
    method ReadDirectory(r: Request, buf: array<byte>) returns (code: int)
      requires Valid() && buf != store.image && buf as object != clusterMap
      requires ReadDirectoryDefined(Now(), r) && (ReadDirectoryCode(Now(), r) == 0 ==> CLUSTER_SIZE <= buf.Length)
      modifies buf
      ensures code == ReadDirectoryCode(Now(), r)
      ensures buf[..] == if code == 0 then Splice(old(buf[..]), 0, ReadDirectoryData(Now(), r)) else old(buf[..])
    {
      ghost var m := Now();
      ReadDirectoryCases(m, r);
      hide DecodeEntry, Clusters, Splice, FirstSlot, ReadDirectoryCode, ReadDirectoryData, ReadDirectoryDefined,
           FirstCluster, DecodeTable;
      var table := ReadTable(r.parent);
      var i := FindEntry(table, r, true);
      if i == ENTRY_COUNT {
        return 2;
      }
      var e := EntryIn(table[..], i);
      EntryInTable(table[..], i);
      if !IsFolder(e) {
        return 1;
      }
      if r.bufferSize < ENTRY_SIZE {
        return -1;
      }
      ReadCluster(buf, 0, FirstCluster(e));
      return 0;
    }
  }

  // The return codes of delete, and the shape of a delete that goes through.
  lemma DeleteCases(m: State, r: Request)
    requires DeleteDefined(m, r) && m.fat[r.parent] == FAT_END_OF_FILE && Found(m, r) < ENTRY_COUNT
    ensures var e := Victim(m, r);
            && (IsFolder(e) ==> FirstCluster(e) < CLUSTER_MAP_SIZE)
            && DeleteCode(m, r) == (if IsFolder(e) && !TableEmpty(DecodeTable(m.disk.volume[FirstCluster(e)])) then 2
              else 0)
            && (DeleteCode(m, r) == 2 ==> Operations.Delete(m, r) == m)
    ensures DeleteCode(m, r) == 0 ==>
              var c := FirstCluster(Victim(m, r));
              && ChainOk(m.fat, c) && c < CLUSTER_MAP_SIZE
              && Operations.Delete(m, r) == FlushFat(FreeChain(Unlinked(m, r), Chain(m.fat, c), |Chain(m.fat, c)|))
  {
    hide DecodeTable, Chain, FreeChain, FlushFat, Unlinked, TableEmpty;
  }

  lemma ReadCases(m: State, r: Request)
    requires ReadDefined(m, r)
    ensures ReadCode(m, r) == if m.fat[r.parent] != FAT_END_OF_FILE || Found(m, r) == ENTRY_COUNT then 2
                              else if IsFolder(Victim(m, r)) then 1
                              else if r.bufferSize / CLUSTER_SIZE < Required(Victim(m, r).filesize) then -1
                              else 0
    ensures ReadCode(m, r) == 0 ==>
              var c := FirstCluster(Victim(m, r));
              ChainOk(m.fat, c) && ReadData(m, r) == Gather(m.disk.volume, Chain(m.fat, c))
  {
    hide DecodeTable, Required, Chain, Gather;
  }

  lemma ReadDirectoryCases(m: State, r: Request)
    requires ReadDirectoryDefined(m, r)
    ensures var i := FirstSlot(ParentTable(m, r), RequestKey(r), true, 0);
            ReadDirectoryCode(m, r) == if i == ENTRY_COUNT then 2
                                       else if !IsFolder(ParentTable(m, r)[i]) then 1
                                       else if r.bufferSize < ENTRY_SIZE then -1
                                       else 0
    ensures ReadDirectoryCode(m, r) == 0 ==>
              var c := FirstCluster(ParentTable(m, r)[FirstSlot(ParentTable(m, r), RequestKey(r), true, 0)]);
              c < |m.disk.volume| && ReadDirectoryData(m, r) == m.disk.volume[c]
  {
    hide DecodeTable;
  }

  // The guard of read compares whole clusters, and a live file has exactly that many.
  lemma ReadFits(m: State, l: Layout, r: Request)
    requires Live(m, l, r) && m.fat[r.parent] == FAT_END_OF_FILE
    ensures ReadDefined(m, r)
    ensures ReadCode(m, r) == 0 ==> CLUSTER_SIZE * |ReadData(m, r)| <= r.bufferSize
  {
    hide Consistent, DecodeFat, Signed, DecodeTable;
    var pp := PathTo(Image(m.disk.volume), l, r.parent);
    ReadIsLookup(m, l, r, pp);
  }

  // read_directory stores a whole cluster behind a guard of one entry: it keeps to the announced buffer size exactly
  // when that is below 32 or at least 2048, or when no folder answers to the name.
  lemma ReadDirectoryFitsIff(m: State, l: Layout, r: Request, pp: Path)
    requires At(m, l, r, pp)
    ensures ReadDirectoryDefined(m, r)
    ensures var tree, x := View(Image(m.disk.volume)), pp + [RequestKey(r)];
            (ReadDirectoryCode(m, r) == 0 ==> |ReadDirectoryData(m, r)| <= r.bufferSize) <==>
              r.bufferSize < ENTRY_SIZE || r.bufferSize >= CLUSTER_SIZE
              || !(OwnName(pp, RequestKey(r)) || (x in tree && tree[x].Folder?))
  {
    hide View, Live, OwnName, ReadDirectoryDefined, ReadDirectoryData, ReadDirectoryCode, Answering;
    ReadDirectoryIsLookup(m, l, r, pp);
  }

  ghost predicate CopiedSoFar(was: seq<byte>, now: seq<byte>, data: seq<Cluster>, k: nat)
  {
    k <= |data| && |Concat(data[..k])| == CLUSTER_SIZE * k <= |was| && now == Splice(was, 0, Concat(data[..k]))
  }

  lemma NothingRead(was: seq<byte>)
    ensures forall data: seq<Cluster> :: CopiedSoFar(was, was, data, 0)
  {
    SpliceNothing(was, 0, []);
    assert forall data: seq<Cluster> :: data[..0] == [];
  }

  lemma OneMoreRead(was: seq<byte>, before: seq<byte>, after: seq<byte>, data: seq<Cluster>, k: nat)
    requires CopiedSoFar(was, before, data, k) && k < |data| && CLUSTER_SIZE * |data| <= |was|
    requires CLUSTER_SIZE * k + CLUSTER_SIZE <= |before| && after == Splice(before, CLUSTER_SIZE * k, data[k])
    ensures CopiedSoFar(was, after, data, k + 1)
  {
    assert data[..k + 1][..k] == data[..k];
    assert Concat(data[..k + 1]) == Concat(data[..k]) + data[k];
  }

  // Reading the table at one cluster of a chain yields the next; no cluster comes twice.
  lemma ChainSteps(fat: Fat, first: nat)
    requires ChainOk(fat, first)
    ensures var chain := Chain(fat, first);
            && chain != [] && chain[0] == first && (forall c :: c in chain ==> c < CLUSTER_MAP_SIZE)
            && Linked(fat, chain, |chain|)
            && (forall i, j :: 0 <= i < j < |chain| ==> chain[i] != chain[j])
  {
    ChainLinks(fat, first);
    var chain := Chain(fat, first);
    assert Linked(fat, chain, |chain|);
    assert Ascending(chain);
    hide Chain, ChainOk;
    forall i, j | 0 <= i < j < |chain|
      ensures chain[i] != chain[j]
    {
    }
  }

  lemma EntryInTable(table: Cluster, i: nat)
    requires i < ENTRY_COUNT
    ensures EntryIn(table, i) == DecodeTable(table)[i]
  {
  }

  lemma NextFree(fat: Fat, i: nat, free: seq<nat>, count: nat)
    requires i < CLUSTER_MAP_SIZE && fat[i] == FAT_EMPTY_ENTRY && count <= |free| && free[count..] == FreeFrom(fat, i)
    ensures count < |free| && free[count] == i && free[count + 1..] == FreeFrom(fat, i + 1)
  {
    assert free[count..] == [i] + FreeFrom(fat, i + 1);
    assert free[count..][1..] == free[count + 1..];
    assert free[count..][0] == free[count];
  }

  lemma OneClusterWrite(d: Disk, c: nat, s: seq<byte>, at: nat)
    requires at + CLUSTER_SIZE <= |s| && c < |d.volume|
    ensures InVolume(d.volume, ClusterToLba(c) + CLUSTER_BLOCK_COUNT - 1)
    ensures PutBlocks(d, ClusterToLba(c), BlocksOf(s, at, CLUSTER_BLOCK_COUNT), CLUSTER_BLOCK_COUNT)
        == PutCluster(d, c, s[at..at + CLUSTER_SIZE])
  {
    hide PutBlocks, PutCluster;
    var data := s[at..at + CLUSTER_SIZE];
    forall i | 0 <= i < CLUSTER_BLOCK_COUNT
      ensures BlocksOf(s, at, CLUSTER_BLOCK_COUNT)[i] == BlocksOf(data, 0, CLUSTER_BLOCK_COUNT)[i]
    {
      SliceOfSlice(s, at, at + CLUSTER_SIZE, BLOCK_SIZE * i, BLOCK_SIZE * i + BLOCK_SIZE);
    }
    assert BlocksOf(s, at, CLUSTER_BLOCK_COUNT) == BlocksOf(data, 0, CLUSTER_BLOCK_COUNT);
    ClusterWriteIsFourBlockWrites(d, c, data);
  }

  lemma OneBlockWrite(d: Disk, lba: nat, s: seq<byte>)
    requires |s| == BLOCK_SIZE && InVolume(d.volume, lba)
    ensures PutBlocks(d, lba, BlocksOf(s, 0, 1), 1) == PutBlock(d, lba, s)
  {
    hide PutBlock;
    assert BlocksOf(s, 0, 1)[0] == s;
    assert PutBlocks(d, lba, BlocksOf(s, 0, 1), 0) == d;
  }

  lemma FirstBlockOfImage(image: seq<byte>)
    requires |image| >= CLUSTER_SIZE * CLUSTER_MAP_SIZE
    ensures image[..512] == Clusters(image)[0][..512]
  {
    SliceOfSlice(image, 0, CLUSTER_SIZE, 0, BLOCK_SIZE);
    assert image[0..512] == image[..512];
  }

  lemma FormattedImage(m: State, image: seq<byte>)
    requires |image| >= CLUSTER_SIZE * CLUSTER_MAP_SIZE && Clusters(image) == Format(m).disk.volume
    ensures Formatted(m.disk.volume, Clusters(image)) && IsBootBlock(image[..512])
  {
    hide IsBootBlock, NewTable, Clusters, Format;
    FormattedBytes(m);
    FirstBlockOfImage(image);
  }

  lemma BootSectorRead(image: seq<byte>, was: seq<byte>, now: seq<byte>)
    requires |image| >= CLUSTER_SIZE * CLUSTER_MAP_SIZE && |was| == BLOCK_SIZE
    requires now == Splice(was, 0, image[BLOCK_SIZE * 0..BLOCK_SIZE * 0 + BLOCK_SIZE * 1])
    ensures now == BlockAt(Clusters(image), 0)
  {
    assert now == image[..BLOCK_SIZE];
    SliceOfSlice(image, 0, CLUSTER_SIZE, 0, BLOCK_SIZE);
  }

  // The return codes of write, and the two halves of a write that goes through.
  lemma WriteCases(m: State, r: Request, buf: seq<byte>)
    requires WriteDefined(m, r, buf)
    ensures var t, free := ParentTable(m, r), FreeClusters(m.fat);
            WriteCode(m, r) == if m.fat[r.parent] != FAT_END_OF_FILE then 2
                               else if FirstSlot(t, RequestKey(r), false, 0) < ENTRY_COUNT then 1
                               else if FirstUnused(t, 1) == ENTRY_COUNT || |free| < Needed(r) then -1
                               else 0
    ensures WriteCode(m, r) != 0 ==> Operations.Write(m, r, buf) == m
    ensures WriteCode(m, r) == 0 ==>
              var slots := LowestFree(m.fat, Needed(r));
              && slots[0] < CLUSTER_MAP_SIZE && slots == FreeClusters(m.fat)[..Needed(r)]
              && Operations.Write(m, r, buf)
                == Put(if r.bufferSize == 0 then MakeFolder(m, r, slots[0]) else Fill(m, slots, buf, |slots|),
                   r.parent,
                   PutEntry(m.disk.volume[r.parent], FirstUnused(ParentTable(m, r), 1), NewEntry(r, slots[0])))
  {
    hide MakeFolder, Fill, PutEntry, NewEntry, Put, DecodeTable, Required;
    if WriteCode(m, r) == 0 {
      var slots := LowestFree(m.fat, Needed(r));
      assert slots[0] in slots;
    }
  }

  lemma InitTableBytes(was: Cluster, name: Name, parentTable: Cluster, parent: uint32)
    ensures var mid := PutEntry(was, 0, AsFolder(EntryIn(was, 0), NulPadded(name)));
            PutEntry(mid, 1, WithCluster(AsFolder(EntryIn(mid, 1), EntryIn(parentTable, 0).name), parent))
              == InitTable(was, name, parentTable, parent)
  {
    hide DecodeEntry, PutEntry, NulPadded;
    var self := AsFolder(EntryIn(was, 0), NulPadded(name));
    PutEntryChangesOneSlot(was, 0, self);
    assert forall c: Cluster, i :: 0 <= i < ENTRY_COUNT ==> DecodeTable(c)[i] == EntryIn(c, i);
    assert EntryIn(PutEntry(was, 0, self), 1) == DecodeTable(was)[1];
  }

  lemma PaddedName(name: Name, i: nat, copied: seq<byte>)
    requires i <= 8 && 0 !in name[..i] && (i == 8 || name[i] == 0) && copied == name[..i] + Zeros(8 - i)
    ensures copied == NulPadded(name)
  {
    forall k | 0 <= k < 8
      ensures copied[k] == NulPadded(name)[k]
    {
      if k < i {
        assert forall j :: 0 <= j < k + 1 ==> name[..k + 1][j] == name[..i][j];
      } else {
        assert name[..k + 1][i] == 0;
      }
    }
  }
}
