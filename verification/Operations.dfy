/** What each driver call computes, as functions of the cached table and the disk. */
module Operations {
  import opened Machine
  import opened Encoding
  import opened Allocation
  import opened FileTree
  import opened Storage

  // The cached allocation table and the disk under it.
  datatype State = State(fat: Fat, disk: Disk)

  datatype Request = Request(name: Name, ext: Ext, parent: uint32, bufferSize: uint32)

  function RequestKey(r: Request): Key
  {
    Key(r.name, r.ext)
  }

  function SetFat(m: State, c: nat, w: uint32): State
    requires c < CLUSTER_MAP_SIZE
  {
    m.(fat := m.fat[c := w])
  }

  function Put(m: State, c: nat, data: Cluster): (r: State)
    requires c < CLUSTER_MAP_SIZE
    ensures |r.disk.volume| == |m.disk.volume|
  {
    m.(disk := PutCluster(m.disk, c, data))
  }

  function FlushFat(m: State): (r: State)
    ensures |r.disk.volume| == |m.disk.volume|
  {
    Put(m, FAT_CLUSTER_NUMBER, EncodeFat(m.fat))
  }

  // ---------- formatting and mounting ----------

  // The text the boot sector starts with, in rows of sixteen characters.
  function SignatureRow(k: nat): string
    requires k < 5
  {
    if k == 0 then "Course          "
    else if k == 1 then "Designed by     "
    else if k == 2 then "Lab Sister ITB  "
    else if k == 3 then "Made with <3    "
    else "-----------2024\n"
  }

  function Signature(): Block
  {
    seq<byte>(BLOCK_SIZE, i requires 0 <= i < BLOCK_SIZE => SignatureByte(i))
  }

  function SignatureByte(i: nat): byte
  {
    if i < 80 then SignatureRow(i / 16)[i % 16] as int % 0x100
    else if i == BLOCK_SIZE - 2 then 'O' as int else if i == BLOCK_SIZE - 1 then 'k' as int else 0
  }

  function AsFolder(e: Entry, name: Name): Entry
  {
    e.(name := name, attribute := ATTR_SUBDIRECTORY, userAttribute := UATTR_NOT_EMPTY)
  }

  function WithCluster(e: Entry, c: uint32): Entry
  {
    e.(clusterLow := c % 0x1_0000, clusterHigh := c / 0x1_0000)
  }

  function InitTable(t: Cluster, name: Name, parentTable: Cluster, parent: uint32): Cluster
  {
    var self := AsFolder(DecodeTable(t)[0], NulPadded(name));
    var up := WithCluster(AsFolder(DecodeTable(t)[1], DecodeTable(parentTable)[0].name), parent);
    PutEntry(PutEntry(t, 0, self), 1, up)
  }

  function EmptyFat(): (f: Fat)
    ensures f[0] == CLUSTER_0_VALUE && f[1] == CLUSTER_1_VALUE && f[2] == FAT_END_OF_FILE
    ensures forall c :: FIRST_DATA_CLUSTER <= c < CLUSTER_MAP_SIZE ==> f[c] == FAT_EMPTY_ENTRY
  {
    var empty := seq<uint32>(CLUSTER_MAP_SIZE, i => FAT_EMPTY_ENTRY);
    empty[0 := CLUSTER_0_VALUE][1 := CLUSTER_1_VALUE][2 := FAT_END_OF_FILE]
  }

  // The boot sector, then the empty table, then the root folder's name, then its table.
  function FormatMapped(m: State): (r: State)
    ensures |r.disk.volume| == |m.disk.volume|
  {
    FlushFat(State(EmptyFat(), PutBlock(m.disk, 0, Signature())))
  }

  function FormatNamed(m: State): (r: State)
    ensures |r.disk.volume| == |m.disk.volume|
  {
    State(EmptyFat(), PutBlock(FormatMapped(m).disk, CLUSTER_BLOCK_COUNT * ROOT_CLUSTER_NUMBER, RootNameBlock()))
  }

  function RootNameBlock(): Block
  {
    RootName() + Zeros(BLOCK_SIZE - 8)
  }

  function Format(m: State): State
  {
    Put(FormatNamed(m), ROOT_CLUSTER_NUMBER,
        InitTable(ZERO_CLUSTER, RootName(), FormatNamed(m).disk.volume[ROOT_CLUSTER_NUMBER], ROOT_CLUSTER_NUMBER))
  }

  ghost predicate Signed(v: Volume)
  {
    BlockAt(v, 0) == Signature()
  }

  ghost function Mount(m: State): State
  {
    if !Signed(m.disk.volume) then Format(m) else State(DecodeFat(m.disk.volume[FAT_CLUSTER_NUMBER]), m.disk)
  }

  // ---------- write ----------

  function Needed(r: Request): nat
  {
    if r.bufferSize == 0 then 1 else Required(r.bufferSize)
  }

  // First unused slot from i on; ENTRY_COUNT when every slot is taken.
  function FirstUnused(t: Table, i: nat): (r: nat)
    requires i <= ENTRY_COUNT
    ensures i <= r <= ENTRY_COUNT && (forall j :: i <= j < r ==> Used(t[j])) && (r < ENTRY_COUNT ==> !Used(t[r]))
    decreases |t| - i
  {
    if i == ENTRY_COUNT || !Used(t[i]) then i else FirstUnused(t, i + 1)
  }

  function ParentTable(m: State, r: Request): Table
    requires r.parent < CLUSTER_MAP_SIZE
  {
    DecodeTable(m.disk.volume[r.parent])
  }

  function WriteCode(m: State, r: Request): int
    requires r.parent < CLUSTER_MAP_SIZE
  {
    if m.fat[r.parent] != FAT_END_OF_FILE then 2
    else if FirstSlot(ParentTable(m, r), RequestKey(r), false, 0) < ENTRY_COUNT then 1
    else if FirstUnused(ParentTable(m, r), 1) == ENTRY_COUNT then -1
    else if |FreeClusters(m.fat)| < Needed(r) then -1
    else 0
  }

  function NewEntry(r: Request, c: nat): Entry
    requires c < CLUSTER_MAP_SIZE
  {
    WithCluster(Entry(r.name, r.ext, if r.bufferSize == 0 then ATTR_SUBDIRECTORY else 0, UATTR_NOT_EMPTY,
                      0, 0, 0, 0, 0, 0, 0, 0, r.bufferSize), c)
  }

  function FolderTable(m: State, r: Request, c: nat): Cluster
    requires r.parent < CLUSTER_MAP_SIZE && c < CLUSTER_MAP_SIZE
  {
    var t := InitTable(ZERO_CLUSTER, r.name, m.disk.volume[r.parent], r.parent);
    PutEntry(t, 0, WithCluster(DecodeTable(t)[0], c))
  }

  function MakeFolder(m: State, r: Request, c: nat): (m': State)
    requires r.parent < CLUSTER_MAP_SIZE && c < CLUSTER_MAP_SIZE
    ensures |m'.disk.volume| == |m.disk.volume|
  {
    FlushFat(SetFat(Put(m, c, FolderTable(m, r, c)), c, FAT_END_OF_FILE))
  }

  // The first j turns of the loop that links and fills the clusters of a file.
  function Fill(m: State, slots: seq<nat>, buf: seq<byte>, j: nat): (m': State)
    requires j <= |slots| && (forall c :: c in slots ==> c < CLUSTER_MAP_SIZE) && |buf| >= CLUSTER_SIZE * |slots|
    ensures |m'.disk.volume| == |m.disk.volume|
  {
    if j == 0 then m else
      var p := Fill(m, slots, buf, j - 1);
      assert slots[j - 1] in slots && (j < |slots| ==> slots[j] in slots);
      var next := if j < |slots| then slots[j] else FAT_END_OF_FILE;
      Put(FlushFat(SetFat(p, slots[j - 1], next)), slots[j - 1], Chunk(buf, j - 1))
  }

  function Chunk(buf: seq<byte>, j: nat): Cluster
    requires |buf| >= CLUSTER_SIZE * j + CLUSTER_SIZE
  {
    buf[CLUSTER_SIZE * j..CLUSTER_SIZE * j + CLUSTER_SIZE]
  }

  // There is a first cluster to name in the entry, and the data is readable up to the end of its last cluster.
  ghost predicate Writable(r: Request, buf: seq<byte>)
  {
    && r.parent < CLUSTER_MAP_SIZE
    && (r.bufferSize != 0 ==> Required(r.bufferSize) > 0 && |buf| >= CLUSTER_SIZE * Needed(r))
  }

  // Only a write that passes all the checks declares its slot buffer and reads its data: a file whose eight-bit
  // count comes out as zero then has a slot buffer of length zero, which the source's language leaves undefined.
  ghost predicate WriteDefined(m: State, r: Request, buf: seq<byte>)
  {
    r.parent < CLUSTER_MAP_SIZE && (WriteCode(m, r) == 0 ==> Writable(r, buf))
  }

  ghost function Prepared(m: State, r: Request, buf: seq<byte>): (m': State)
    requires Writable(r, buf) && |FreeClusters(m.fat)| >= Needed(r)
    ensures |m'.disk.volume| == |m.disk.volume|
  {
    var slots := LowestFree(m.fat, Needed(r));
    assert slots[0] in slots;
    if r.bufferSize == 0 then MakeFolder(m, r, slots[0]) else Fill(m, slots, buf, |slots|)
  }

  ghost function Write(m: State, r: Request, buf: seq<byte>): State
    requires WriteDefined(m, r, buf)
  {
    if WriteCode(m, r) != 0 then m else
      var c := LowestFree(m.fat, Needed(r))[0];
      assert c in LowestFree(m.fat, Needed(r));
      Put(Prepared(m, r, buf), r.parent,
          PutEntry(m.disk.volume[r.parent], FirstUnused(ParentTable(m, r), 1), NewEntry(r, c)))
  }

  // ---------- delete ----------

  function Found(m: State, r: Request): nat
    requires r.parent < CLUSTER_MAP_SIZE
  {
    FirstSlot(ParentTable(m, r), RequestKey(r), false, 0)
  }

  function DeleteCode(m: State, r: Request): int
    requires r.parent < CLUSTER_MAP_SIZE
  {
    if m.fat[r.parent] != FAT_END_OF_FILE then 2
    else if Found(m, r) == ENTRY_COUNT then 1
    else
      var e := ParentTable(m, r)[Found(m, r)];
      if IsFolder(e) && !(FirstCluster(e) < |m.disk.volume|
        && TableEmpty(DecodeTable(m.disk.volume[FirstCluster(e)]))) then 2
      else 0
  }

  // The first k turns of the loop that frees and wipes a chain.
  function FreeChain(m: State, chain: seq<nat>, k: nat): (m': State)
    requires k <= |chain| && forall c :: c in chain ==> c < CLUSTER_MAP_SIZE
    ensures |m'.disk.volume| == |m.disk.volume|
  {
    if k == 0 then m else
      var p := FreeChain(m, chain, k - 1);
      assert chain[k - 1] in chain;
      Put(SetFat(p, chain[k - 1], FAT_EMPTY_ENTRY), chain[k - 1], ZERO_CLUSTER)
  }

  // The calls below index the disk and the table only within bounds.
  ghost predicate DeleteDefined(m: State, r: Request)
  {
    && r.parent < CLUSTER_MAP_SIZE
    && (m.fat[r.parent] == FAT_END_OF_FILE && Found(m, r) < ENTRY_COUNT ==>
          var e := ParentTable(m, r)[Found(m, r)];
          (IsFolder(e) ==> FirstCluster(e) < CLUSTER_MAP_SIZE)
            && (DeleteCode(m, r) == 0 ==> ChainOk(m.fat, FirstCluster(e))))
  }

  ghost function Unlinked(m: State, r: Request): (m': State)
    requires r.parent < CLUSTER_MAP_SIZE && Found(m, r) < ENTRY_COUNT
    ensures |m'.disk.volume| == |m.disk.volume|
  {
    Put(m, r.parent, PutEntry(m.disk.volume[r.parent], Found(m, r), ZERO_ENTRY))
  }

  ghost function Delete(m: State, r: Request): State
    requires DeleteDefined(m, r)
  {
    if DeleteCode(m, r) != 0 then m else
      var chain := Chain(m.fat, FirstCluster(ParentTable(m, r)[Found(m, r)]));
      FlushFat(FreeChain(Unlinked(m, r), chain, |chain|))
  }

  // ---------- read ----------

  function ReadCode(m: State, r: Request): int
    requires r.parent < CLUSTER_MAP_SIZE
  {
    if m.fat[r.parent] != FAT_END_OF_FILE || Found(m, r) == ENTRY_COUNT then 2
    else
      var e := ParentTable(m, r)[Found(m, r)];
      if IsFolder(e) then 1 else if r.bufferSize / CLUSTER_SIZE < Required(e.filesize) then -1 else 0
  }

  ghost predicate ReadDefined(m: State, r: Request)
  {
    && r.parent < CLUSTER_MAP_SIZE
    && (ReadCode(m, r) == 0 ==> ChainOk(m.fat, FirstCluster(ParentTable(m, r)[Found(m, r)])))
  }

  ghost function ReadData(m: State, r: Request): seq<Cluster>
    requires ReadDefined(m, r) && ReadCode(m, r) == 0
  {
    Gather(m.disk.volume, Chain(m.fat, FirstCluster(ParentTable(m, r)[Found(m, r)])))
  }

  function ReadDirectoryCode(m: State, r: Request): int
    requires r.parent < CLUSTER_MAP_SIZE
  {
    var s := FirstSlot(ParentTable(m, r), RequestKey(r), true, 0);
    if s == ENTRY_COUNT then 2
    else if !IsFolder(ParentTable(m, r)[s]) then 1
    else if r.bufferSize < ENTRY_SIZE then -1
    else 0
  }

  ghost predicate ReadDirectoryDefined(m: State, r: Request)
  {
    r.parent < CLUSTER_MAP_SIZE &&
    (ReadDirectoryCode(m, r) == 0 ==>
       FirstCluster(ParentTable(m, r)[FirstSlot(ParentTable(m, r), RequestKey(r), true, 0)]) < |m.disk.volume|)
  }

  ghost function ReadDirectoryData(m: State, r: Request): Cluster
    requires ReadDirectoryDefined(m, r) && ReadDirectoryCode(m, r) == 0
  {
    m.disk.volume[FirstCluster(ParentTable(m, r)[FirstSlot(ParentTable(m, r), RequestKey(r), true, 0)])]
  }
}
