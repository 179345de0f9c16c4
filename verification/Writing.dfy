/** write: it adds one node to the tree, keeps the invariant, and is atomic under interruption. */
module Writing {
  import opened Machine
  import opened Encoding
  import opened Allocation
  import opened FileTree
  import opened Storage
  import opened Operations
  import opened Durability

  // ---------- a new folder's table ----------

  lemma ZeroTable(i: nat)
    requires i < ENTRY_COUNT
    ensures DecodeTable(ZERO_CLUSTER)[i] == ZERO_ENTRY
  {
    var b := ZERO_CLUSTER[ENTRY_SIZE * i..ENTRY_SIZE * i + ENTRY_SIZE];
    assert forall j :: 0 <= j < ENTRY_SIZE ==> b[j] == 0;
    assert b[..8] == Zeros(8) && b[8..11] == Zeros(3);
    assert DecodeEntry(b) == ZERO_ENTRY;
  }

  lemma InitTableSlots(name: Name, parentTable: Cluster, parent: uint32)
    ensures var t := DecodeTable(InitTable(ZERO_CLUSTER, name, parentTable, parent));
            && t[0] == AsFolder(ZERO_ENTRY, NulPadded(name))
            && t[1] == WithCluster(AsFolder(ZERO_ENTRY, DecodeTable(parentTable)[0].name), parent)
            && forall i :: 2 <= i < ENTRY_COUNT ==> t[i] == ZERO_ENTRY
  {
    hide DecodeTable, PutEntry;
    ZeroTable(0);
    ZeroTable(1);
    var self := AsFolder(ZERO_ENTRY, NulPadded(name));
    var up := WithCluster(AsFolder(ZERO_ENTRY, DecodeTable(parentTable)[0].name), parent);
    PutEntryChangesOneSlot(ZERO_CLUSTER, 0, self);
    PutEntryChangesOneSlot(PutEntry(ZERO_CLUSTER, 0, self), 1, up);
    forall i | 2 <= i < ENTRY_COUNT
      ensures DecodeTable(InitTable(ZERO_CLUSTER, name, parentTable, parent))[i] == ZERO_ENTRY
    {
      ZeroTable(i);
    }
  }

  lemma FolderTableSlots(m: State, r: Request, c: nat)
    requires r.parent < CLUSTER_MAP_SIZE && c < CLUSTER_MAP_SIZE
    ensures var t := DecodeTable(FolderTable(m, r, c));
            TableOk(t) && TableEmpty(t) && FirstCluster(t[0]) == c && FirstCluster(t[1]) == r.parent
            && KeyOf(t[0]) == FolderKey(r.name) && KeyOf(t[1]) == Key(ParentTable(m, r)[0].name, Zeros(3))
  {
    hide DecodeTable, PutEntry, NulPadded;
    InitTableSlots(r.name, m.disk.volume[r.parent], r.parent);
    hide InitTable;
    var t := InitTable(ZERO_CLUSTER, r.name, m.disk.volume[r.parent], r.parent);
    PutEntryChangesOneSlot(t, 0, WithCluster(DecodeTable(t)[0], c));
  }

  // ---------- the clusters written before the entry ----------

  function Chunks(buf: seq<byte>, n: nat): (r: seq<Cluster>)
    requires |buf| >= CLUSTER_SIZE * n
    ensures |r| == n
  {
    seq<Cluster>(n, i requires 0 <= i < n => assert CLUSTER_SIZE * i + CLUSTER_SIZE <= CLUSTER_SIZE * n; Chunk(buf, i))
  }

  // p is m after only the given free clusters and their table words have changed.
  ghost predicate Quietly(m: State, p: State, slots: seq<nat>)
  {
    && Synced(p) && QuietRun(m.disk.volume, m.disk, p.disk, Elements(slots))
    && (forall c :: 0 <= c < CLUSTER_MAP_SIZE && c !in slots ==> p.fat[c] == m.fat[c])
  }

  lemma QuietStart(m: State, slots: seq<nat>)
    requires Synced(m)
    ensures Quietly(m, m, slots)
  {
  }

  ghost predicate Filled(p: State, slots: seq<nat>, buf: seq<byte>, j: nat)
    requires j <= |slots| && |buf| >= CLUSTER_SIZE * |slots| && forall c :: c in slots ==> c < CLUSTER_MAP_SIZE
  {
    Linked(p.fat, slots, j)
      && (forall i :: 0 <= i < j ==> slots[i] in slots && p.disk.volume[slots[i]] == Chunks(buf, |slots|)[i])
  }

  lemma NothingFilled(m: State, slots: seq<nat>, buf: seq<byte>)
    requires |buf| >= CLUSTER_SIZE * |slots| && forall c :: c in slots ==> c < CLUSTER_MAP_SIZE
    ensures Filled(m, slots, buf, 0)
  {
  }

  lemma {:induction false} FillIsQuiet(m: State, slots: seq<nat>, buf: seq<byte>, j: nat)
    requires Synced(m) && j <= |slots| && |buf| >= CLUSTER_SIZE * |slots|
    requires Ascending(slots) && forall c :: c in slots ==> FIRST_DATA_CLUSTER <= c < CLUSTER_MAP_SIZE
    ensures Quietly(m, Fill(m, slots, buf, j), slots) && Filled(Fill(m, slots, buf, j), slots, buf, j)
  {
    hide Quietly, Linked, Chunk, EncodeFat, PutCluster;
    if j == 0 {
      QuietStart(m, slots);
      NothingFilled(m, slots, buf);
    } else {
      FillIsQuiet(m, slots, buf, j - 1);
      FillTurn(m, Fill(m, slots, buf, j - 1), slots, buf, j);
    }
  }

  lemma FillTurn(m: State, p: State, slots: seq<nat>, buf: seq<byte>, j: nat)
    requires 0 < j <= |slots| && |buf| >= CLUSTER_SIZE * |slots|
    requires Ascending(slots) && forall c :: c in slots ==> FIRST_DATA_CLUSTER <= c < CLUSTER_MAP_SIZE
    requires Synced(m) && Quietly(m, p, slots) && Filled(p, slots, buf, j - 1)
    ensures slots[j - 1] in slots && (j < |slots| ==> slots[j] in slots)
    ensures var next := if j < |slots| then slots[j] else FAT_END_OF_FILE;
            var q := Put(FlushFat(SetFat(p, slots[j - 1], next)), slots[j - 1], Chunks(buf, |slots|)[j - 1]);
            Quietly(m, q, slots) && Filled(q, slots, buf, j)
  {
    hide DecodeFat, EncodeFat, Outside, Torn, Chunk, QuietRun;
    var c := slots[j - 1];
    assert c in slots && (j < |slots| ==> slots[j] in slots);
    var next := if j < |slots| then slots[j] else FAT_END_OF_FILE;
    var p1 := SetFat(p, c, next);
    var p2 := FlushFat(p1);
    FatRoundTrip(p1.fat);
    QuietFlush(m.disk.volume, m.disk, p.disk, Elements(slots), p1.fat);
    QuietPut(m.disk.volume, m.disk, p2.disk, Elements(slots), c, Chunks(buf, |slots|)[j - 1]);
    forall i | 0 <= i < j - 1
      ensures slots[i] != c && slots[i] in slots && slots[i] != FAT_CLUSTER_NUMBER
    {
    }
  }

  lemma FolderIsQuiet(m: State, r: Request, c: nat)
    requires Synced(m) && r.parent < CLUSTER_MAP_SIZE && FIRST_DATA_CLUSTER <= c < CLUSTER_MAP_SIZE
    ensures var p := MakeFolder(m, r, c);
            Quietly(m, p, [c]) && Linked(p.fat, [c], 1) && p.disk.volume[c] == FolderTable(m, r, c)
  {
    hide DecodeFat, EncodeFat, Outside, Torn, FolderTable, QuietRun;
    QuietStart(m, [c]);
    var t := FolderTable(m, r, c);
    QuietPut(m.disk.volume, m.disk, m.disk, Elements([c]), c, t);
    var p1 := SetFat(Put(m, c, t), c, FAT_END_OF_FILE);
    FatRoundTrip(p1.fat);
    QuietFlush(m.disk.volume, m.disk, p1.disk, Elements([c]), p1.fat);
  }

  // What the image holds just before the parent's entry is stored.
  ghost predicate Staged(m: State, r: Request, buf: seq<byte>, p: State, slots: seq<nat>)
    requires Writable(r, buf)
  {
    && slots != [] && Quietly(m, p, slots) && ChainOk(p.fat, slots[0]) && Chain(p.fat, slots[0]) == slots
    && (forall c :: c in slots ==> c < CLUSTER_MAP_SIZE)
    && if r.bufferSize == 0 then slots[0] in slots && p.fat[slots[0]] == FAT_END_OF_FILE
      && p.disk.volume[slots[0]] == FolderTable(m, r, slots[0])
       else |slots| == Required(r.bufferSize) && Gather(p.disk.volume, slots) == Chunks(buf, Required(r.bufferSize))
  }

  lemma FreeIsUnclaimed(fs: Fs, l: Layout, slots: seq<nat>)
    requires Consistent(fs, l)
    requires forall c :: c in slots ==> c < CLUSTER_MAP_SIZE && fs.fat[c] == FAT_EMPTY_ENTRY
    ensures Unclaimed(l, Elements(slots))
  {
    forall c | c in slots
      ensures FIRST_DATA_CLUSTER <= c && c !in l.owner
    {
      assert c in l.owner ==> OwnerOk(fs, l, c);
    }
  }

  lemma PreparedIsStaged(m: State, l: Layout, r: Request, buf: seq<byte>)
    requires Ready(m, l) && Writable(r, buf) && |FreeClusters(m.fat)| >= Needed(r)
    ensures Staged(m, r, buf, Prepared(m, r, buf), LowestFree(m.fat, Needed(r)))
    ensures Unclaimed(l, Elements(LowestFree(m.fat, Needed(r))))
  {
    var slots := LowestFree(m.fat, Needed(r));
    FreeIsUnclaimed(Image(m.disk.volume), l, slots);
    assert forall c :: c in slots ==> c in Elements(slots);
    assert slots[0] in slots;
    hide Fill, MakeFolder, Consistent, Quietly, Signed;
    if r.bufferSize == 0 {
      StagedFolder(m, r, slots);
    } else {
      StagedFile(m, r, buf, slots);
    }
  }

  lemma StagedFolder(m: State, r: Request, slots: seq<nat>)
    requires Synced(m) && r.parent < CLUSTER_MAP_SIZE && r.bufferSize == 0
    requires |slots| == 1 && FIRST_DATA_CLUSTER <= slots[0] < CLUSTER_MAP_SIZE
    ensures Staged(m, r, [], MakeFolder(m, r, slots[0]), slots)
  {
    hide Quietly, MakeFolder, FolderTable;
    FolderIsQuiet(m, r, slots[0]);
    assert slots == [slots[0]];
    LinkedIsChain(MakeFolder(m, r, slots[0]).fat, slots, 0);
    assert slots[0..] == slots;
  }

  lemma StagedFile(m: State, r: Request, buf: seq<byte>, slots: seq<nat>)
    requires Synced(m) && Writable(r, buf) && r.bufferSize != 0 && |slots| == Needed(r)
    requires Ascending(slots) && forall c :: c in slots ==> FIRST_DATA_CLUSTER <= c < CLUSTER_MAP_SIZE
    ensures Staged(m, r, buf, Fill(m, slots, buf, |slots|), slots)
  {
    hide Quietly, Fill, Chunk;
    FillIsQuiet(m, slots, buf, |slots|);
    var p := Fill(m, slots, buf, |slots|);
    LinkedIsChain(p.fat, slots, 0);
    assert slots[0..] == slots;
    assert Gather(p.disk.volume, slots) == Chunks(buf, |slots|);
  }

  // ---------- storing the entry ----------

  // The caller names a live folder (or a cluster the driver rejects) and a name that is not all zero.
  ghost predicate Live(m: State, l: Layout, r: Request)
  {
    && Ready(m, l) && r.parent < CLUSTER_MAP_SIZE && RequestKey(r) != ZERO_KEY
    && (m.fat[r.parent] == FAT_END_OF_FILE ==> r.parent in l.depth)
  }

  function NewNode(m: State, r: Request, buf: seq<byte>): Node
    requires |FreeClusters(m.fat)| >= Needed(r)
    requires r.bufferSize != 0 ==> |buf| >= CLUSTER_SIZE * Required(r.bufferSize)
  {
    if r.bufferSize == 0 then Folder(LowestFree(m.fat, 1)[0])
    else File(r.bufferSize, Chunks(buf, Required(r.bufferSize)))
  }

  function WriteLayout(m: State, l: Layout, r: Request): Layout
    requires r.parent < CLUSTER_MAP_SIZE && (WriteCode(m, r) == 0 ==> Needed(r) > 0)
    requires m.fat[r.parent] == FAT_END_OF_FILE ==> r.parent in l.depth
  {
    if WriteCode(m, r) != 0 then l else
      var slots := LowestFree(m.fat, Needed(r));
      assert slots[0] in slots;
      AddTo(l, r.parent, FirstUnused(ParentTable(m, r), 1), NewEntry(r, slots[0]), slots)
  }

  lemma ParentTableOk(m: State, l: Layout, r: Request)
    requires Live(m, l, r) && m.fat[r.parent] == FAT_END_OF_FILE
    ensures TableOk(ParentTable(m, r)) && ROOT_CLUSTER_NUMBER <= r.parent
    ensures r.parent == ROOT_CLUSTER_NUMBER || r.parent in l.owner
  {
    assert DirOk(Image(m.disk.volume), l, r.parent);
  }

  // The parent's table is still the one read at the start when the entry is stored.
  lemma ParentTableUntouched(m: State, l: Layout, r: Request, p: State, slots: seq<nat>)
    requires Live(m, l, r) && m.fat[r.parent] == FAT_END_OF_FILE
    requires Quietly(m, p, slots) && Unclaimed(l, Elements(slots))
    ensures p.disk.volume[r.parent] == m.disk.volume[r.parent]
  {
    ParentTableOk(m, l, r);
  }

  lemma EntrySlot(m: State, l: Layout, r: Request)
    requires Live(m, l, r) && WriteCode(m, r) == 0
    ensures var t, s := ParentTable(m, r), FirstUnused(ParentTable(m, r), 1);
            2 <= s < ENTRY_COUNT && t[s] == ZERO_ENTRY && forall i :: 0 <= i < ENTRY_COUNT ==>
              KeyOf(t[i]) != RequestKey(r)
  {
    ParentTableOk(m, l, r);
    hide Consistent, DecodeTable;
    var t := ParentTable(m, r);
    assert Used(t[1]);
    forall i | 0 <= i < ENTRY_COUNT
      ensures KeyOf(t[i]) != RequestKey(r)
    {
      assert !Names(t[i], RequestKey(r), false);
    }
  }

  lemma StagedImage(m: State, l: Layout, r: Request, buf: seq<byte>)
    requires Live(m, l, r) && Writable(r, buf) && WriteCode(m, r) == 0
    ensures var slots, p := LowestFree(m.fat, Needed(r)), Prepared(m, r, buf);
            && Staged(m, r, buf, p, slots) && Unclaimed(l, Elements(slots))
            && Ready(p, l) && View(Image(p.disk.volume)) == View(Image(m.disk.volume))
            && p.disk.volume[r.parent] == m.disk.volume[r.parent] && ROOT_CLUSTER_NUMBER <= r.parent
  {
    var slots, p := LowestFree(m.fat, Needed(r)), Prepared(m, r, buf);
    hide Consistent, Signed, Prepared, Outside, View;
    PreparedIsStaged(m, l, r, buf);
    ParentTableOk(m, l, r);
    ParentTableUntouched(m, l, r, p, slots);
    QuietImage(m.disk.volume, l, p.disk.volume, Elements(slots));
  }

  // The last step of a write: the entry goes into the parent's table of the staged image.
  lemma WriteIsStoreEntry(m: State, l: Layout, r: Request, buf: seq<byte>)
    requires Live(m, l, r) && Writable(r, buf) && WriteCode(m, r) == 0
    ensures var slots, s := LowestFree(m.fat, Needed(r)), FirstUnused(ParentTable(m, r), 1);
            slots[0] < CLUSTER_MAP_SIZE
              && Write(m, r, buf) == StoreEntry(Prepared(m, r, buf), r.parent, s, NewEntry(r, slots[0]))
  {
    StagedImage(m, l, r, buf);
    hide Prepared, Live, Staged, PutEntry;
    var slots := LowestFree(m.fat, Needed(r));
    assert slots[0] in slots;
  }

  lemma NewEntryFields(r: Request, c: nat)
    requires c < CLUSTER_MAP_SIZE
    ensures var e := NewEntry(r, c);
            && FirstCluster(e) == c && KeyOf(e) == RequestKey(r) && e.name == r.name && Used(e)
            && (IsFolder(e) <==> r.bufferSize == 0)
            && (!IsFolder(e) ==> e.attribute == 0) && e.filesize == r.bufferSize
  {
  }

  lemma OwnEntryHasNoExt(fs: Fs, l: Layout, d: nat)
    requires Consistent(fs, l) && d in l.depth
    ensures d < CLUSTER_MAP_SIZE && TableAt(fs, d)[0].ext == Zeros(3)
  {
    hide DecodeTable, TableOk;
    assert DirOk(fs, l, d);
  }

  lemma NewEntryFits(fs: Fs, l: Layout, m: State, r: Request, buf: seq<byte>, p: State, slots: seq<nat>)
    requires Writable(r, buf) && Staged(m, r, buf, p, slots) && Unclaimed(l, Elements(slots))
    requires RequestKey(r) != ZERO_KEY && fs == Fs(p.fat, p.disk.volume) && slots[0] < CLUSTER_MAP_SIZE
    requires p.disk.volume[r.parent] == m.disk.volume[r.parent] && ParentTable(m, r)[0].ext == Zeros(3)
    ensures EntryFits(fs, l, r.parent, NewEntry(r, slots[0]))
  {
    hide DecodeTable, DecodeFat, TableOk, FolderTable, Quietly, TableEmpty, Chain, ChainOk, NewEntry, FirstCluster,
         Required;
    NewEntryFields(r, slots[0]);
    FolderTableSlots(m, r, slots[0]);
    assert forall c :: c in slots ==> c in Elements(slots);
  }

  lemma StagedEntryFits(m: State, l: Layout, r: Request, buf: seq<byte>)
    requires Live(m, l, r) && Writable(r, buf) && WriteCode(m, r) == 0
    ensures var slots, p := LowestFree(m.fat, Needed(r)), Prepared(m, r, buf);
            && slots[0] < CLUSTER_MAP_SIZE && ChainOk(p.fat, slots[0]) && Chain(p.fat, slots[0]) == slots
            && Ready(p, l) && EntryFits(Image(p.disk.volume), l, r.parent, NewEntry(r, slots[0]))
  {
    hide Consistent, DecodeTable, DecodeFat, Prepared, FolderTable, Quietly, Signed, EntryFits, Chain, ChainOk,
         NewEntry, View;
    var slots, p := LowestFree(m.fat, Needed(r)), Prepared(m, r, buf);
    StagedImage(m, l, r, buf);
    assert slots[0] in slots;
    OwnEntryHasNoExt(Image(m.disk.volume), l, r.parent);
    NewEntryFits(Image(p.disk.volume), l, m, r, buf, p, slots);
  }

  // Storing e in an unused slot of p extends the image by that entry.
  lemma StoreExtends(m: State, p: nat, slot: nat, e: Entry)
    requires ROOT_CLUSTER_NUMBER <= p < CLUSTER_MAP_SIZE && 2 <= slot < ENTRY_COUNT && Used(e)
    requires TableAt(Image(m.disk.volume), p)[slot] == ZERO_ENTRY
    ensures Extends(Image(m.disk.volume), Image(StoreEntry(m, p, slot, e).disk.volume), p, slot, e)
  {
    hide DecodeTable, DecodeFat, PutEntry, StoreEntry;
    StoreChangesOneSlot(m, p, slot, e);
  }

  lemma EntryCanBeAdded(m: State, l: Layout, r: Request, buf: seq<byte>)
    requires Live(m, l, r) && Writable(r, buf) && WriteCode(m, r) == 0
    ensures var slots, p, s := LowestFree(m.fat, Needed(r)), Prepared(m, r, buf), FirstUnused(ParentTable(m, r), 1);
            && slots[0] < CLUSTER_MAP_SIZE && FirstCluster(NewEntry(r, slots[0])) == slots[0]
            && ChainOk(p.fat, slots[0]) && Chain(p.fat, slots[0]) == slots && Ready(p, l)
            && ROOT_CLUSTER_NUMBER <= r.parent && 2 <= s
            && var e := NewEntry(r, slots[0]);
               CanAdd(Image(p.disk.volume), l, Image(StoreEntry(p, r.parent, s, e).disk.volume), r.parent, s, e)
  {
    hide Consistent, DecodeTable, DecodeFat, Prepared, FolderTable, Quietly, Signed, EntryFits, Chain, ChainOk,
         Extends, NewEntry, StoreEntry, View, FirstCluster, Staged, FirstUnused;
    var slots, p, s := LowestFree(m.fat, Needed(r)), Prepared(m, r, buf), FirstUnused(ParentTable(m, r), 1);
    StagedImage(m, l, r, buf);
    StagedEntryFits(m, l, r, buf);
    EntrySlot(m, l, r);
    NewEntryFields(r, slots[0]);
    StoreExtends(p, r.parent, s, NewEntry(r, slots[0]));
  }

  lemma StoreKeepsSync(m: State, p: nat, slot: nat, e: Entry)
    requires ROOT_CLUSTER_NUMBER <= p < CLUSTER_MAP_SIZE && slot < ENTRY_COUNT && Synced(m)
    ensures var m' := StoreEntry(m, p, slot, e);
            Synced(m') && m'.fat == m.fat && (Signed(m'.disk.volume) <==> Signed(m.disk.volume))
  {
    StoreChangesOneSlot(m, p, slot, e);
  }

  lemma WriteKeepsInvariant(m: State, l: Layout, r: Request, buf: seq<byte>)
    requires Live(m, l, r) && WriteDefined(m, r, buf)
    ensures Ready(Write(m, r, buf), WriteLayout(m, l, r))
  {
    if WriteCode(m, r) == 0 {
      hide Consistent, Extends, CanAdd, Prepared, Write, DecodeFat, DecodeTable, StoreEntry, Signed, Unclaimed;
      EntryCanBeAdded(m, l, r, buf);
      WriteIsStoreEntry(m, l, r, buf);
      var slots, p, s := LowestFree(m.fat, Needed(r)), Prepared(m, r, buf), FirstUnused(ParentTable(m, r), 1);
      StoreKeepsSync(p, r.parent, s, NewEntry(r, slots[0]));
      AddEntry(Image(p.disk.volume), l, Image(Write(m, r, buf).disk.volume), r.parent, s, NewEntry(r, slots[0]));
    }
  }

  // ---------- what a write does to the tree ----------

  lemma StagedNode(m: State, l: Layout, r: Request, buf: seq<byte>)
    requires Live(m, l, r) && Writable(r, buf) && WriteCode(m, r) == 0
    ensures var slots, p, s := LowestFree(m.fat, Needed(r)), Prepared(m, r, buf), FirstUnused(ParentTable(m, r), 1);
            var fs1 := Image(Write(m, r, buf).disk.volume);
            && slots[0] < CLUSTER_MAP_SIZE && NodeOf(fs1, NewEntry(r, slots[0])) == NewNode(m, r, buf)
            && (r.bufferSize == 0 ==> TableEmpty(TableAt(fs1, slots[0])))
  {
    hide Consistent, DecodeTable, DecodeFat, Prepared, FolderTable, Quietly, Signed, EntryFits, Chain, ChainOk,
         NewEntry, StoreEntry, View, FirstCluster, FirstUnused, Extends, TableEmpty;
    var slots, p, s := LowestFree(m.fat, Needed(r)), Prepared(m, r, buf), FirstUnused(ParentTable(m, r), 1);
    assert slots[0] in slots;
    var e := NewEntry(r, slots[0]);
    NewEntryFields(r, slots[0]);
    StagedImage(m, l, r, buf);
    EntryCanBeAdded(m, l, r, buf);
    WriteIsStoreEntry(m, l, r, buf);
    FolderTableSlots(m, r, slots[0]);
    StoreChangesOneSlot(p, r.parent, s, e);
    var v, v' := p.disk.volume, Write(m, r, buf).disk.volume;
    forall i | 0 <= i < |slots|
      ensures 0 <= slots[i] < |v| && slots[i] < CLUSTER_MAP_SIZE && v'[slots[i]] == v[slots[i]]
    {
      assert slots[i] in slots && slots[i] in Elements(slots);
      ParentNotStaged(m, l, r, slots, slots[i]);
    }
    assert forall c :: c in slots ==> c < CLUSTER_MAP_SIZE;
    assert r.bufferSize != 0 ==> Gather(v', slots) == Gather(v, slots);
  }

  lemma ParentNotStaged(m: State, l: Layout, r: Request, slots: seq<nat>, c: nat)
    requires Live(m, l, r) && m.fat[r.parent] == FAT_END_OF_FILE && Unclaimed(l, Elements(slots)) && c in slots
    ensures c != r.parent
  {
    ParentTableOk(m, l, r);
    assert c in Elements(slots);
  }

  // A successful write adds exactly the node it was asked for, under a name that was free; any other write changes
  // nothing.
  lemma WriteRefines(m: State, l: Layout, r: Request, buf: seq<byte>, pp: Path)
    requires Live(m, l, r) && WriteDefined(m, r, buf)
    requires m.fat[r.parent] == FAT_END_OF_FILE ==> Lookup(Image(m.disk.volume), pp) == Some(Folder(r.parent))
    ensures WriteCode(m, r) != 0 ==> Write(m, r, buf) == m
    ensures WriteCode(m, r) == 0 ==>
              var before, after := View(Image(m.disk.volume)), View(Image(Write(m, r, buf).disk.volume));
              pp + [RequestKey(r)] !in before && after == before[pp + [RequestKey(r)] := NewNode(m, r, buf)]
  {
    if WriteCode(m, r) == 0 {
      hide Consistent, DecodeTable, DecodeFat, Prepared, Quietly, Signed, EntryFits, Chain, ChainOk, NewEntry, View,
           StoreEntry, FirstCluster, FirstUnused, Staged, Extends, TableEmpty, NodeOf, Lookup, NewNode, ParentTable,
           Write;
      var slots, p, s := LowestFree(m.fat, Needed(r)), Prepared(m, r, buf), FirstUnused(ParentTable(m, r), 1);
      assert slots[0] in slots;
      var e := NewEntry(r, slots[0]);
      NewEntryFields(r, slots[0]);
      StagedImage(m, l, r, buf);
      EntryCanBeAdded(m, l, r, buf);
      WriteIsStoreEntry(m, l, r, buf);
      WriteKeepsInvariant(m, l, r, buf);
      StagedNode(m, l, r, buf);
      SameViewSameLookup(Image(m.disk.volume), Image(p.disk.volume), pp);
      ExtendedView(Image(p.disk.volume), l, Image(Write(m, r, buf).disk.volume), WriteLayout(m, l, r), r.parent, s, e,
                   pp);
    }
  }

  // ---------- interruption ----------

  // The image holds one of two sound trees.
  ghost predicate EitherTree(v: Volume, v0: Volume, l0: Layout, v1: Volume, l1: Layout)
  {
    || (Sound(v, l0) && View(Image(v)) == View(Image(v0)))
    || (Sound(v, l1) && View(Image(v)) == View(Image(v1)))
  }

  // After any number of block writes the image holds the tree from before the write or the one from after it.
  lemma WriteIsAtomic(m: State, l: Layout, r: Request, buf: seq<byte>, k: nat)
    requires Live(m, l, r) && WriteDefined(m, r, buf)
    requires |m.disk.history| <= k < |Write(m, r, buf).disk.history|
    ensures var m' := Write(m, r, buf);
            EitherTree(m'.disk.history[k], m.disk.volume, l, m'.disk.volume, WriteLayout(m, l, r))
  {
    hide Consistent, DecodeTable, DecodeFat, Prepared, EntryFits, Chain, ChainOk, NewEntry,
         FirstCluster, FirstUnused, Extends, View, Signed, Outside, Torn, PutEntry, Elements;
    assert WriteCode(m, r) == 0;
    var slots, p, s := LowestFree(m.fat, Needed(r)), Prepared(m, r, buf), FirstUnused(ParentTable(m, r), 1);
    StagedImage(m, l, r, buf);
    EntrySlot(m, l, r);
    WriteIsStoreEntry(m, l, r, buf);
    WriteKeepsInvariant(m, l, r, buf);
    var image := Write(m, r, buf).disk.history[k];
    var n := |p.disk.history|;
    if k < n {
      assert image == p.disk.history[k];
      QuietImage(m.disk.volume, l, image, Elements(slots));
    } else {
      var table := PutEntry(p.disk.volume[r.parent], s, NewEntry(r, slots[0]));
      assert image == Torn(p.disk.volume, r.parent, table, k - n + 1);
      OneSlotWriteIsAtomic(p.disk.volume, r.parent, s, NewEntry(r, slots[0]), k - n + 1);
    }
  }

  // ---------- space ----------

  lemma WrittenTable(m: State, l: Layout, r: Request, buf: seq<byte>)
    requires Live(m, l, r) && Writable(r, buf) && WriteCode(m, r) == 0
    ensures var slots, m' := LowestFree(m.fat, Needed(r)), Write(m, r, buf);
            forall c :: 0 <= c < CLUSTER_MAP_SIZE ==>
              if c in slots then m'.fat[c] != FAT_EMPTY_ENTRY else m'.fat[c] == m.fat[c]
  {
    hide Consistent, DecodeTable, DecodeFat, Prepared, FolderTable, Signed, View, PutEntry, NewEntry, QuietRun,
         EntryFits, Extends;
    StagedImage(m, l, r, buf);
    WriteIsStoreEntry(m, l, r, buf);
  }

  // The free list loses its first Needed(r) members, and nothing else.
  lemma WriteTakesLowestFree(m: State, l: Layout, r: Request, buf: seq<byte>)
    requires Live(m, l, r) && Writable(r, buf) && WriteCode(m, r) == 0
    ensures FreeClusters(Write(m, r, buf).fat) == FreeClusters(m.fat)[Needed(r)..]
  {
    WrittenTable(m, l, r, buf);
    hide Live, Write, Needed;
    FreeAfterTaking(m.fat, Write(m, r, buf).fat, Needed(r));
  }

  lemma WriteKeepsNoLeak(m: State, l: Layout, r: Request, buf: seq<byte>)
    requires Live(m, l, r) && WriteDefined(m, r, buf) && NoLeak(Image(m.disk.volume), l)
    ensures NoLeak(Image(Write(m, r, buf).disk.volume), WriteLayout(m, l, r))
  {
    WriteKeepsInvariant(m, l, r, buf);
    if WriteCode(m, r) == 0 {
      WrittenTable(m, l, r, buf);
      hide Consistent, DecodeFat, Signed, Write, NewEntry, FirstUnused;
    }
  }
}
