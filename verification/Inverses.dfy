/** write followed by delete, write followed by read, and the one delete that breaks the tree. */
module Inverses {
  import opened Machine
  import opened Encoding
  import opened Allocation
  import opened FileTree
  import opened Operations
  import opened Durability
  import opened Writing
  import opened Deleting
  import opened Reading

  // ---------- delete after write ----------

  lemma WrittenParent(m: State, l: Layout, r: Request, buf: seq<byte>)
    requires Live(m, l, r) && Writable(r, buf) && WriteCode(m, r) == 0
    ensures var m', s, slots := Write(m, r, buf), FirstUnused(ParentTable(m, r), 1), LowestFree(m.fat, Needed(r));
            && slots[0] < CLUSTER_MAP_SIZE && Live(m', WriteLayout(m, l, r), r) && m'.fat[r.parent] == FAT_END_OF_FILE
            && m'.disk.volume[r.parent] == PutEntry(m.disk.volume[r.parent], s, NewEntry(r, slots[0]))
            && ParentTable(m', r) == ParentTable(m, r)[s := NewEntry(r, slots[0])]
            && ParentTable(m, r)[s] == ZERO_ENTRY && 2 <= s < ENTRY_COUNT
  {
    hide Consistent, DecodeTable, DecodeFat, Prepared, PutEntry, NewEntry, Write, Signed, FirstUnused, Staged, View,
         FolderTable;
    var s, slots := FirstUnused(ParentTable(m, r), 1), LowestFree(m.fat, Needed(r));
    assert slots[0] in slots;
    WriteKeepsInvariant(m, l, r, buf);
    StagedImage(m, l, r, buf);
    WriteIsStoreEntry(m, l, r, buf);
    EntrySlot(m, l, r);
    PutEntryChangesOneSlot(m.disk.volume[r.parent], s, NewEntry(r, slots[0]));
    WrittenTable(m, l, r, buf);
  }

  lemma WrittenIsFound(m: State, l: Layout, r: Request, buf: seq<byte>)
    requires Live(m, l, r) && Writable(r, buf) && WriteCode(m, r) == 0
    ensures var m', s, slots := Write(m, r, buf), FirstUnused(ParentTable(m, r), 1), LowestFree(m.fat, Needed(r));
            && slots[0] < CLUSTER_MAP_SIZE && Found(m', r) == s && Victim(m', r) == NewEntry(r, slots[0])
            && DeleteCode(m', r) == 0 && Deletes(m', WriteLayout(m, l, r), r)
            && ChainOk(m'.fat, slots[0]) && Chain(m'.fat, slots[0]) == slots
              && FirstCluster(NewEntry(r, slots[0])) == slots[0]
  {
    hide Consistent, DecodeTable, DecodeFat, Prepared, PutEntry, NewEntry, Write, Signed, FirstUnused, View,
         FolderTable, FirstCluster, TableEmpty, Staged, NodeOf, ChainOk, Chain, Extends, EntryFits;
    var m', s, slots := Write(m, r, buf), FirstUnused(ParentTable(m, r), 1), LowestFree(m.fat, Needed(r));
    WrittenParent(m, l, r, buf);
    NewEntryFields(r, slots[0]);
    EntrySlot(m, l, r);
    EntryCanBeAdded(m, l, r, buf);
    WriteIsStoreEntry(m, l, r, buf);
    StagedNode(m, l, r, buf);
    OnlyNamedThere(ParentTable(m, r), s, NewEntry(r, slots[0]), RequestKey(r));
  }

  lemma OnlyNamedThere(t: Table, s: nat, e: Entry, k: Key)
    requires s < ENTRY_COUNT && KeyOf(e) == k && forall i :: 0 <= i < ENTRY_COUNT ==> KeyOf(t[i]) != k
    ensures FirstSlot(t[s := e], k, false, 0) == s
  {
    var t' := t[s := e];
    assert Names(t'[s], k, false);
    assert forall i :: 0 <= i < ENTRY_COUNT && i != s ==> KeyOf(t'[i]) == KeyOf(t[i]);
  }

  // Deleting what was just written restores the table, the parent's folder table and every cluster that
  // was in use; the clusters that were taken are free again and wiped.
  lemma DeleteUndoesWrite(m: State, l: Layout, r: Request, buf: seq<byte>)
    requires Live(m, l, r) && Writable(r, buf) && WriteCode(m, r) == 0
    ensures var m1 := Write(m, r, buf);
            DeleteCode(m1, r) == 0 && DeleteDefined(m1, r)
            && var m2 := Delete(m1, r);
               && m2.fat == m.fat && |m2.disk.volume| == |m.disk.volume|
               && forall c :: 0 <= c < |m.disk.volume| ==>
                    m2.disk.volume[c] == if c in LowestFree(m.fat, Needed(r)) then ZERO_CLUSTER else m.disk.volume[c]
  {
    hide Consistent, DecodeTable, DecodeFat, Prepared, PutEntry, NewEntry, Write, Delete, Signed, FirstUnused, View,
         FolderTable,
         FirstCluster, TableEmpty, Staged, NodeOf, ChainOk, Chain, DeleteCode, Unlinked, DeleteLayout, DeleteDefined;
    var m1, slots := Write(m, r, buf), LowestFree(m.fat, Needed(r));
    WrittenIsFound(m, l, r, buf);
    Deleted(m1, WriteLayout(m, l, r), r);
    var m2 := Delete(m1, r);
    WrittenTable(m, l, r, buf);
    assert m2.fat == m.fat;
    UnlinkedRestores(m, l, r, buf);
    SameTableSameBytes(m2.disk.volume[FAT_CLUSTER_NUMBER], m.disk.volume[FAT_CLUSTER_NUMBER]);
    forall c | 0 <= c < |m.disk.volume|
      ensures m2.disk.volume[c] == if c in slots then ZERO_CLUSTER else m.disk.volume[c]
    {
      assert c in Elements(slots) <==> c in slots;
    }
  }

  lemma SameTableSameBytes(c: Cluster, c': Cluster)
    requires DecodeFat(c) == DecodeFat(c')
    ensures c == c'
  {
    FatBytesRoundTrip(c);
    FatBytesRoundTrip(c');
  }

  lemma UnlinkedRestores(m: State, l: Layout, r: Request, buf: seq<byte>)
    requires Live(m, l, r) && Writable(r, buf) && WriteCode(m, r) == 0
    ensures var m1, slots := Write(m, r, buf), LowestFree(m.fat, Needed(r));
            Found(m1, r) < ENTRY_COUNT && |Unlinked(m1, r).disk.volume| == |m.disk.volume|
            && forall c :: 0 <= c < |m.disk.volume| && c != FAT_CLUSTER_NUMBER && c !in slots ==>
              Unlinked(m1, r).disk.volume[c] == m.disk.volume[c]
  {
    hide Consistent, DecodeTable, DecodeFat, Prepared, PutEntry, NewEntry, Signed, FirstUnused, View,
         FolderTable, FirstCluster, TableEmpty, NodeOf, ChainOk, Chain, DeleteCode, Staged;
    var m1, s, slots := Write(m, r, buf), FirstUnused(ParentTable(m, r), 1), LowestFree(m.fat, Needed(r));
    WrittenIsFound(m, l, r, buf);
    WrittenParent(m, l, r, buf);
    PutEntryUndone(m.disk.volume[r.parent], s, NewEntry(r, slots[0]));
    WrittenElsewhere(m, l, r, buf);
    hide Write;
  }

  // Outside the parent, the table and the clusters it took, a write leaves every byte alone.
  lemma WrittenElsewhere(m: State, l: Layout, r: Request, buf: seq<byte>)
    requires Live(m, l, r) && Writable(r, buf) && WriteCode(m, r) == 0
    ensures var m1, slots := Write(m, r, buf), LowestFree(m.fat, Needed(r));
            |m1.disk.volume| == |m.disk.volume|
            && forall c :: 0 <= c < |m.disk.volume| && c != FAT_CLUSTER_NUMBER && c != r.parent && c !in slots ==>
              m1.disk.volume[c] == m.disk.volume[c]
  {
    hide Consistent, DecodeTable, DecodeFat, Prepared, PutEntry, NewEntry, Write, Signed, FirstUnused, View,
         FolderTable, ChainOk, Chain;
    var p, s, slots := Prepared(m, r, buf), FirstUnused(ParentTable(m, r), 1), LowestFree(m.fat, Needed(r));
    StagedImage(m, l, r, buf);
    EntrySlot(m, l, r);
    WriteIsStoreEntry(m, l, r, buf);
    forall c | 0 <= c < |m.disk.volume| && c != FAT_CLUSTER_NUMBER && c != r.parent && c !in slots
      ensures Write(m, r, buf).disk.volume[c] == m.disk.volume[c]
    {
      assert c !in Elements(slots);
    }
  }

  // ---------- read after write ----------

  // A file just written reads back, cluster by cluster, whenever the buffer is large enough.
  lemma ReadAfterWrite(m: State, l: Layout, r: Request, buf: seq<byte>, pp: Path, q: Request)
    requires At(m, l, r, pp) && Writable(r, buf) && WriteCode(m, r) == 0 && r.bufferSize != 0
    requires q == r.(bufferSize := q.bufferSize)
    ensures var m' := Write(m, r, buf);
            && ReadDefined(m', q)
              && ReadCode(m', q) == (if q.bufferSize / CLUSTER_SIZE < Required(r.bufferSize) then -1 else 0)
            && (ReadCode(m', q) == 0 ==> ReadData(m', q) == Chunks(buf, Required(r.bufferSize)))
  {
    hide Consistent, DecodeTable, DecodeFat, PutEntry, NewEntry, Write, Signed, FirstUnused, View, ReadCode,
         ReadDefined, Lookup, WriteCode;
    WrittenParent(m, l, r, buf);
    WriteRefines(m, l, r, buf, pp);
    var m', x := Write(m, r, buf), pp + [RequestKey(r)];
    ViewIsLookup(Image(m.disk.volume), pp);
    ViewIsLookup(Image(m'.disk.volume), pp);
    assert pp != x && pp in View(Image(m'.disk.volume));
    ReadIsLookup(m', WriteLayout(m, l, r), q, pp);
  }

  // What is stored covers the whole buffer exactly when the file has at most 255 clusters.
  lemma WholeFileStoredIffSmall(r: Request, buf: seq<byte>)
    requires Writable(r, buf) && r.bufferSize != 0 && r.bufferSize <= |buf|
    ensures Concat(Chunks(buf, Required(r.bufferSize))) == buf[..CLUSTER_SIZE * Required(r.bufferSize)]
    ensures buf[..r.bufferSize] <= Concat(Chunks(buf, Required(r.bufferSize))) <==> r.bufferSize <= 255 * CLUSTER_SIZE
  {
    ConcatChunks(buf, Required(r.bufferSize));
    RequiredIsCeilingIffSmall(r.bufferSize);
    hide Required;
  }

  function Concat(data: seq<Cluster>): seq<byte>
  {
    if data == [] then [] else Concat(data[..|data| - 1]) + data[|data| - 1]
  }

  lemma {:induction false} ConcatChunks(buf: seq<byte>, n: nat)
    requires |buf| >= CLUSTER_SIZE * n
    ensures Concat(Chunks(buf, n)) == buf[..CLUSTER_SIZE * n]
  {
    if n > 0 {
      ConcatChunks(buf, n - 1);
      assert Chunks(buf, n)[..n - 1] == Chunks(buf, n - 1);
      var at := CLUSTER_SIZE * (n - 1);
      assert buf[..at] + buf[at..at + CLUSTER_SIZE] == buf[..at + CLUSTER_SIZE];
    } else {
      assert Chunks(buf, n) == [];
    }
  }

  // ---------- the delete that breaks the tree ----------

  lemma OwnEntry(m: State, l: Layout, r: Request)
    requires Live(m, l, r) && ErasesItself(m, r)
    ensures DeleteCode(m, r) == 0 && Found(m, r) == 0
    ensures FirstCluster(Victim(m, r)) == if r.parent == ROOT_CLUSTER_NUMBER then 0 else r.parent
    ensures r.parent != ROOT_CLUSTER_NUMBER ==>
              DeleteDefined(m, r) && ROOT_CLUSTER_NUMBER < r.parent && Chain(m.fat, r.parent) == [r.parent]
  {
    hide DecodeFat, DecodeTable, TableOk, TableEmpty, Consistent;
    ErasesItselfIff(m, l, r);
    LiveDeleteDefined(m, l, r);
    LiveDirOk(Image(m.disk.volume), l, r.parent);
  }

  lemma SelfErasedSteps(m: State, l: Layout, r: Request)
    requires Live(m, l, r) && ErasesItself(m, r) && r.parent != ROOT_CLUSTER_NUMBER
    ensures DeleteDefined(m, r) && m.fat[r.parent] == FAT_END_OF_FILE && ROOT_CLUSTER_NUMBER < r.parent
    ensures var m1 := StoreEntry(m, r.parent, 0, ZERO_ENTRY);
            Synced(m1) && Delete(m, r) == FlushFat(FreeChain(m1, [r.parent as nat], 1))
  {
    OwnEntry(m, l, r);
    hide DecodeFat, DecodeTable, TableOk, TableEmpty, PutEntry, Consistent, Chain, ChainOk, FreeChain, FlushFat,
         FirstSlot, Put, Signed;
    StoreKeepsSync(m, r.parent, 0, ZERO_ENTRY);
  }

  lemma SelfErased(m: State, l: Layout, r: Request)
    requires Live(m, l, r) && ErasesItself(m, r) && r.parent != ROOT_CLUSTER_NUMBER
    ensures DeleteDefined(m, r) && m.fat[r.parent] == FAT_END_OF_FILE
    ensures var m' := Delete(m, r);
            && m'.fat[r.parent] == FAT_EMPTY_ENTRY && Synced(m')
            && forall c :: c in l.depth && c != r.parent ==>
                 c < CLUSTER_MAP_SIZE && m'.disk.volume[c] == m.disk.volume[c]
  {
    SelfErasedSteps(m, l, r);
    hide DecodeFat, DecodeTable, TableOk, TableEmpty, PutEntry, Consistent, FreeChain, FlushFat, ErasesItself, Delete,
         DeleteDefined, Signed, Outside, StoreEntry;
    var chain, m1 := [r.parent as nat], StoreEntry(m, r.parent, 0, ZERO_ENTRY);
    StoreChangesOneSlot(m, r.parent, 0, ZERO_ENTRY);
    ChainIsWiped(m1, chain);
    forall c | c in l.depth && c != r.parent
      ensures c < CLUSTER_MAP_SIZE && Delete(m, r).disk.volume[c] == m.disk.volume[c]
    {
      OtherFolderKept(m.disk.volume, l, m1.disk.volume, Delete(m, r).disk.volume, r.parent, c);
    }
  }

  lemma OtherFolderKept(v: Volume, l: Layout, v1: Volume, v': Volume, p: nat, c: nat)
    requires Consistent(Image(v), l) && c in l.depth && c != p && Outside(v1, v', Elements([p])) && |v1| == |v|
    requires forall x :: 0 <= x < |v| && x != p ==> v1[x] == v[x]
    ensures c < CLUSTER_MAP_SIZE && v'[c] == v[c]
  {
    hide DecodeFat, DecodeTable, TableOk, Consistent;
    LiveTableOk(Image(v), l, c);
    assert c !in Elements([p]);
  }

  // Folders nearer to the root than d keep their tables, so any layout of the new image still has them live.
  lemma {:induction false} NearerFoldersStayLive(v: Volume, l: Layout, v': Volume, l': Layout, d: nat, q: nat)
    requires Consistent(Image(v), l) && Consistent(Image(v'), l') && d in l.depth && q in l.depth
        && l.depth[q] < l.depth[d]
    requires forall c :: c in l.depth && c != d ==> c < CLUSTER_MAP_SIZE && v'[c] == v[c]
    ensures q in l'.depth
    decreases l.depth[q]
  {
    hide DecodeTable, DecodeFat, TableOk;
    assert DirOk(Image(v), l, q);
    if q != ROOT_CLUSTER_NUMBER {
      var (p, s) := l.owner[q];
      NearerFoldersStayLive(v, l, v', l', d, p);
      assert SlotOk(Image(v'), l', p, s);
    }
  }

  // Deleting an empty folder by its own name from within frees its cluster while its parent still points at it.
  lemma ErasingItselfBreaksTheTree(m: State, l: Layout, r: Request)
    requires Live(m, l, r) && ErasesItself(m, r) && r.parent != ROOT_CLUSTER_NUMBER
    ensures DeleteDefined(m, r) && forall l' :: !Ready(Delete(m, r), l')
  {
    hide DecodeTable, DecodeFat, TableOk, Delete, Consistent, ErasesItself, DeleteDefined, Signed;
    SelfErased(m, l, r);
    var v, m' := m.disk.volume, Delete(m, r);
    LiveDirOk(Image(v), l, r.parent);
    var (p, s) := l.owner[r.parent];
    LiveDirOk(Image(v), l, p);
    forall l'
      ensures !Ready(m', l')
    {
      if Ready(m', l') {
        NearerFoldersStayLive(v, l, m'.disk.volume, l', r.parent, p);
        LiveSlot(Image(m'.disk.volume), l', p, s);
        assert false;
      }
    }
  }

  // The root's own entry leads to cluster 0. The first turn of the loop wipes the boot cluster, so the image is
  // no longer signed, and the word it goes on with lies outside the table.
  lemma ErasingTheRootLeavesTheTable(m: State, l: Layout, r: Request)
    requires Live(m, l, r) && ErasesItself(m, r) && r.parent == ROOT_CLUSTER_NUMBER
    ensures !DeleteDefined(m, r) && DeleteCode(m, r) == 0 && FirstCluster(Victim(m, r)) == 0
    ensures !Signed(Put(SetFat(Unlinked(m, r), 0, FAT_EMPTY_ENTRY), 0, ZERO_CLUSTER).disk.volume)
    ensures m.fat[0] != FAT_END_OF_FILE && m.fat[0] >= CLUSTER_MAP_SIZE
  {
    hide DecodeTable, DecodeFat, TableOk, TableEmpty, ErasesItself, Unlinked;
    OwnEntry(m, l, r);
    LiveDeleteDefined(m, l, r);
    WipedBootIsUnsigned(Put(SetFat(Unlinked(m, r), 0, FAT_EMPTY_ENTRY), 0, ZERO_CLUSTER).disk.volume);
  }

  // The exact condition under which delete stays in bounds and keeps the tree sound.
  lemma DeleteIsSafeIff(m: State, l: Layout, r: Request)
    requires Live(m, l, r)
    ensures (DeleteDefined(m, r) && exists l' :: Ready(Delete(m, r), l')) <==> !ErasesItself(m, r)
  {
    hide Ready, ErasesItself, Delete, DeleteDefined;
    LiveDeleteDefined(m, l, r);
    if !ErasesItself(m, r) {
      DeleteKeepsInvariant(m, l, r);
    } else if r.parent != ROOT_CLUSTER_NUMBER {
      ErasingItselfBreaksTheTree(m, l, r);
    }
  }

  // The condition can be met: a folder just made with a NUL-padded name and no extension, asked from within
  // to delete its own name.
  lemma NewFolderErasesItself(m: State, l: Layout, r: Request, buf: seq<byte>)
    requires Live(m, l, r) && WriteCode(m, r) == 0 && r.bufferSize == 0
    requires NulPadded(r.name) == r.name && r.ext == Zeros(3)
    ensures Writable(r, buf)
    ensures var c := LowestFree(m.fat, 1)[0];
            && c < CLUSTER_MAP_SIZE && c != ROOT_CLUSTER_NUMBER
            && var q := r.(parent := c);
               Live(Write(m, r, buf), WriteLayout(m, l, r), q) && ErasesItself(Write(m, r, buf), q)
  {
    hide Consistent, DecodeTable, DecodeFat, Prepared, Write, Signed, View, FolderTable, TableOk, TableEmpty, NulPadded,
         FirstCluster, NewEntry, FirstUnused, ChainOk, Chain, FirstSlot;
    var m1, slots := Write(m, r, buf), LowestFree(m.fat, 1);
    assert slots[0] in slots;
    WriteKeepsInvariant(m, l, r, buf);
    StagedImage(m, l, r, buf);
    EntryCanBeAdded(m, l, r, buf);
    NewEntryFields(r, slots[0]);
    WriteIsStoreEntry(m, l, r, buf);
    FolderTableSlots(m, r, slots[0]);
    ParentNotStaged(m, l, r, slots, slots[0]);
    LiveDirOk(Image(m1.disk.volume), WriteLayout(m, l, r), slots[0]);
  }
}
