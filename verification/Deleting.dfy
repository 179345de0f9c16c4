/** delete: it removes one node from the tree, keeps the invariant, and is atomic under interruption. */
module Deleting {
  import opened Machine
  import opened Encoding
  import opened Allocation
  import opened FileTree
  import opened Storage
  import opened Operations
  import opened Durability
  import opened Writing

  // The name is the one the folder itself answers to, and the table its own entry leads to is empty: nothing
  // stops the call from removing the folder's own entry.
  ghost predicate ErasesItself(m: State, r: Request)
    requires r.parent < CLUSTER_MAP_SIZE
  {
    && m.fat[r.parent] == FAT_END_OF_FILE && KeyOf(ParentTable(m, r)[0]) == RequestKey(r)
    && var own := FirstCluster(ParentTable(m, r)[0]);
       own < |m.disk.volume| && TableEmpty(DecodeTable(m.disk.volume[own]))
  }

  // ---------- what the lookup finds ----------

  lemma FoundSlot(m: State, l: Layout, r: Request)
    requires Live(m, l, r) && m.fat[r.parent] == FAT_END_OF_FILE && Found(m, r) < ENTRY_COUNT
    ensures var e := ParentTable(m, r)[Found(m, r)];
            && Used(e) && KeyOf(e) == RequestKey(r) && FirstCluster(e) < CLUSTER_MAP_SIZE
            && (Found(m, r) < 2 ==> IsFolder(e))
            && (Found(m, r) >= 2 ==> ChainOk(m.fat, FirstCluster(e)) && (IsFolder(e) || e.attribute == 0))
            && (Found(m, r) == 1 ==> DeleteCode(m, r) == 2)
  {
    hide Consistent, DecodeTable, DecodeFat, TableOk, TableEmpty, ChainOk, Chain, Signed;
    var i := Found(m, r);
    var t := ParentTable(m, r);
    var fs := Image(m.disk.volume);
    LiveTableOk(fs, l, r.parent);
    NamedSlotIsUsed(t, RequestKey(r));
    if i >= 2 {
      LiveSlot(fs, l, r.parent, i);
    } else {
      OwnSlots(fs, l, r.parent);
    }
  }

  lemma NamedSlotIsUsed(t: Table, k: Key)
    requires TableOk(t) && k != ZERO_KEY
    ensures var i := FirstSlot(t, k, false, 0); i < ENTRY_COUNT ==> Used(t[i]) && KeyOf(t[i]) == k
    ensures KeyOf(t[0]) == KeyOf(t[1]) ==> FirstSlot(t, k, false, 0) != 1
  {
    var i := FirstSlot(t, k, false, 0);
    assert i == 1 ==> !Names(t[0], k, false);
  }

  lemma LiveSlot(fs: Fs, l: Layout, d: nat, s: nat)
    requires Consistent(fs, l) && d in l.depth && d < CLUSTER_MAP_SIZE && 2 <= s < ENTRY_COUNT
    requires Used(TableAt(fs, d)[s])
    ensures var e := TableAt(fs, d)[s];
            ChainOk(fs.fat, FirstCluster(e)) && FirstCluster(e) < CLUSTER_MAP_SIZE && (IsFolder(e) || e.attribute == 0)
            && (!IsFolder(e) ==> |Chain(fs.fat, FirstCluster(e))| == Required(e.filesize))
  {
    hide DecodeTable, TableOk, Chain;
    assert SlotOk(fs, l, d, s);
  }

  // Slots 0 and 1 name folders; the parent of a folder is never empty.
  lemma OwnSlots(fs: Fs, l: Layout, d: nat)
    requires Consistent(fs, l) && d in l.depth && d < CLUSTER_MAP_SIZE
    ensures var t := TableAt(fs, d);
            && FirstCluster(t[0]) < CLUSTER_MAP_SIZE && FirstCluster(t[1]) < CLUSTER_MAP_SIZE && IsFolder(t[0])
              && IsFolder(t[1])
            && (KeyOf(t[0]) == KeyOf(t[1]) || !TableEmpty(TableAt(fs, FirstCluster(t[1]))))
  {
    hide DecodeTable;
    assert DirOk(fs, l, d);
    if d != ROOT_CLUSTER_NUMBER {
      var (p, s) := l.owner[d];
      assert Used(TableAt(fs, p)[s]);
    }
  }

  // Off the root the condition is on the folder's name and its own table alone.
  lemma ErasesItselfIff(m: State, l: Layout, r: Request)
    requires Live(m, l, r)
    ensures ErasesItself(m, r) <==> DeleteCode(m, r) == 0 && Found(m, r) == 0
    ensures m.fat[r.parent] == FAT_END_OF_FILE && r.parent != ROOT_CLUSTER_NUMBER ==>
              (ErasesItself(m, r) <==> KeyOf(ParentTable(m, r)[0]) == RequestKey(r) && TableEmpty(ParentTable(m, r)))
  {
    hide Consistent, DecodeTable, DecodeFat, TableOk, TableEmpty, Signed;
    if m.fat[r.parent] == FAT_END_OF_FILE {
      LiveDirOk(Image(m.disk.volume), l, r.parent);
      OwnSlots(Image(m.disk.volume), l, r.parent);
    }
  }

  // In a sound state every delete stays within the table and the disk, except when the root erases itself.
  lemma LiveDeleteDefined(m: State, l: Layout, r: Request)
    requires Live(m, l, r)
    ensures DeleteDefined(m, r) <==> !(ErasesItself(m, r) && r.parent == ROOT_CLUSTER_NUMBER)
  {
    hide Consistent, DecodeTable, DecodeFat, TableOk, TableEmpty, Signed;
    ErasesItselfIff(m, l, r);
    if m.fat[r.parent] == FAT_END_OF_FILE && Found(m, r) < ENTRY_COUNT {
      FoundSlot(m, l, r);
      LiveDirOk(Image(m.disk.volume), l, r.parent);
    }
  }

  // ---------- unlinking the entry ----------

  function Victim(m: State, r: Request): Entry
    requires r.parent < CLUSTER_MAP_SIZE && Found(m, r) < ENTRY_COUNT
  {
    ParentTable(m, r)[Found(m, r)]
  }

  function DeleteLayout(m: State, l: Layout, r: Request): Layout
    requires r.parent < CLUSTER_MAP_SIZE
    requires DeleteCode(m, r) == 0 ==> ChainOk(m.fat, FirstCluster(Victim(m, r)))
  {
    if DeleteCode(m, r) != 0 then l else RemoveFrom(l, Victim(m, r), Chain(m.fat, FirstCluster(Victim(m, r))))
  }

  // The premises under which a delete goes through.
  ghost predicate Deletes(m: State, l: Layout, r: Request)
  {
    Live(m, l, r) && DeleteCode(m, r) == 0 && Found(m, r) >= 2
  }

  lemma DeletesChild(m: State, l: Layout, r: Request)
    requires Live(m, l, r) && !ErasesItself(m, r) && DeleteCode(m, r) == 0
    ensures Deletes(m, l, r)
  {
    ErasesItselfIff(m, l, r);
    FoundSlot(m, l, r);
  }

  lemma EntryCanBeRemoved(m: State, l: Layout, r: Request)
    requires Deletes(m, l, r)
    ensures var e := Victim(m, r);
            && ROOT_CLUSTER_NUMBER <= r.parent && ChainOk(m.fat, FirstCluster(e)) && KeyOf(e) == RequestKey(r)
            && Unlinked(m, r) == StoreEntry(m, r.parent, Found(m, r), ZERO_ENTRY)
            && CanRemove(Image(m.disk.volume), l, Image(Unlinked(m, r).disk.volume), r.parent, Found(m, r), e)
            && Image(m.disk.volume).fat == m.fat
  {
    hide Consistent, DecodeTable, DecodeFat, PutEntry, TableOk, ChainOk, Chain, Put, Signed, TableEmpty;
    FoundSlot(m, l, r);
    ParentTableOk(m, l, r);
    StoreChangesOneSlot(m, r.parent, Found(m, r), ZERO_ENTRY);
  }

  lemma UnlinkedIsSound(m: State, l: Layout, r: Request)
    requires Deletes(m, l, r)
    ensures ChainOk(m.fat, FirstCluster(Victim(m, r)))
    ensures var l0 := DeleteLayout(m, l, r);
            Ready(Unlinked(m, r), l0) && Unlinked(m, r).fat == m.fat && r.parent in l0.depth
            && Unclaimed(l0, Elements(Chain(m.fat, FirstCluster(Victim(m, r)))))
  {
    EntryCanBeRemoved(m, l, r);
    var e := Victim(m, r);
    hide Consistent, DecodeTable, DecodeFat, PutEntry, Put, Signed, CanRemove, StoreEntry, Unlinked, TableOk;
    ChainLinks(m.fat, FirstCluster(e));
    RemoveEntry(Image(m.disk.volume), l, Image(Unlinked(m, r).disk.volume), r.parent, Found(m, r), e);
    StoreKeepsSync(m, r.parent, Found(m, r), ZERO_ENTRY);
    ChainAboveRoot(m.fat, FirstCluster(e));
  }

  lemma ChainAboveRoot(fat: Fat, c: nat)
    requires ChainOk(fat, c)
    ensures forall x :: x in Chain(fat, c) ==> FIRST_DATA_CLUSTER <= x < CLUSTER_MAP_SIZE
  {
  }

  // Unlinking removes exactly the one path.
  lemma UnlinkedView(m: State, l: Layout, r: Request, pp: Path)
    requires Deletes(m, l, r) && Lookup(Image(m.disk.volume), pp) == Some(Folder(r.parent))
    ensures var before, after := View(Image(m.disk.volume)), View(Image(Unlinked(m, r).disk.volume));
            var x := pp + [RequestKey(r)];
            x in before && before[x] == NodeOf(Image(m.disk.volume), Victim(m, r)) && x !in after
              && before == after[x := before[x]]
  {
    EntryCanBeRemoved(m, l, r);
    UnlinkedIsSound(m, l, r);
    hide DecodeTable, DecodeFat, PutEntry, Put, Signed, StoreEntry, Unlinked, View, Lookup, NodeOf, Consistent;
    var fs1, fs0, l0, e := Image(m.disk.volume), Image(Unlinked(m, r).disk.volume), DeleteLayout(m, l, r), Victim(m, r);
    var q := PathTo(fs0, l0, r.parent);
    ExtendedView(fs0, l0, fs1, l, r.parent, Found(m, r), e, q);
    ViewIsLookup(fs0, q);
    ViewIsLookup(fs1, q);
    assert q != q + [RequestKey(r)];
    PathIsUnique(fs1, l, pp, q, r.parent);
  }

  lemma ViewIsLookup(fs: Fs, p: Path)
    ensures p in View(fs) <==> Lookup(fs, p).Some?
    ensures p in View(fs) ==> View(fs)[p] == Lookup(fs, p).value
  {
  }

  // ---------- freeing the chain ----------

  ghost predicate Freed(m: State, p: State, chain: seq<nat>, k: nat)
    requires k <= |chain|
  {
    && QuietRun(m.disk.volume, m.disk, p.disk, Elements(chain))
    && (forall c :: 0 <= c < CLUSTER_MAP_SIZE ==> p.fat[c] == if c in chain[..k] then FAT_EMPTY_ENTRY else m.fat[c])
    && (forall c :: c in chain[..k] ==> c < CLUSTER_MAP_SIZE && p.disk.volume[c] == ZERO_CLUSTER)
  }

  lemma {:induction false} FreeChainFrees(m: State, chain: seq<nat>, k: nat)
    requires k <= |chain| && forall c :: c in chain ==> FIRST_DATA_CLUSTER <= c < CLUSTER_MAP_SIZE
    ensures Freed(m, FreeChain(m, chain, k), chain, k)
  {
    hide Outside, Torn, DecodeFat;
    if k == 0 {
      OutsideSelf(m.disk.volume, Elements(chain));
    } else {
      var p := FreeChain(m, chain, k - 1);
      var c := chain[k - 1];
      assert c in chain && chain[..k] == chain[..k - 1] + [c];
      FreeChainFrees(m, chain, k - 1);
      QuietPut(m.disk.volume, m.disk, p.disk, Elements(chain), c, ZERO_CLUSTER);
    }
  }

  lemma OutsideSelf(v: Volume, s: set<nat>)
    ensures Outside(v, v, s)
  {
  }

  lemma ChainIsWiped(m: State, chain: seq<nat>)
    requires Synced(m) && forall c :: c in chain ==> FIRST_DATA_CLUSTER <= c < CLUSTER_MAP_SIZE
    ensures var m' := FlushFat(FreeChain(m, chain, |chain|));
            && Synced(m') && QuietRun(m.disk.volume, m.disk, m'.disk, Elements(chain))
            && (forall c :: 0 <= c < CLUSTER_MAP_SIZE ==> m'.fat[c] == if c in chain then FAT_EMPTY_ENTRY else m.fat[c])
            && (forall c :: c in chain ==> c < CLUSTER_MAP_SIZE && m'.disk.volume[c] == ZERO_CLUSTER)
  {
    hide Outside, Torn, DecodeFat, EncodeFat, QuietRun;
    var p := FreeChain(m, chain, |chain|);
    FreeChainFrees(m, chain, |chain|);
    assert chain[..|chain|] == chain;
    FatRoundTrip(p.fat);
    QuietFlush(m.disk.volume, m.disk, p.disk, Elements(chain), p.fat);
  }

  // ---------- the whole call ----------

  lemma Deleted(m: State, l: Layout, r: Request)
    requires Deletes(m, l, r)
    ensures DeleteDefined(m, r) && ChainOk(m.fat, FirstCluster(Victim(m, r)))
    ensures var chain, m1, m' := Chain(m.fat, FirstCluster(Victim(m, r))), Unlinked(m, r), Delete(m, r);
            && Ready(m', DeleteLayout(m, l, r)) && View(Image(m'.disk.volume)) == View(Image(m1.disk.volume))
            && QuietRun(m1.disk.volume, m1.disk, m'.disk, Elements(chain))
            && (forall c :: 0 <= c < CLUSTER_MAP_SIZE ==> m'.fat[c] == if c in chain then FAT_EMPTY_ENTRY else m.fat[c])
            && (forall c :: c in chain ==> c < CLUSTER_MAP_SIZE && m'.disk.volume[c] == ZERO_CLUSTER)
  {
    LiveDeleteDefined(m, l, r);
    UnlinkedIsSound(m, l, r);
    hide Outside, DecodeFat, DecodeTable, EncodeFat, Consistent, Unlinked, FreeChain, FlushFat, View, Signed, TableOk;
    var chain, m1 := Chain(m.fat, FirstCluster(Victim(m, r))), Unlinked(m, r);
    ChainAboveRoot(m.fat, FirstCluster(Victim(m, r)));
    ChainIsWiped(m1, chain);
    QuietImage(m1.disk.volume, DeleteLayout(m, l, r), Delete(m, r).disk.volume, Elements(chain));
  }

  lemma DeleteKeepsInvariant(m: State, l: Layout, r: Request)
    requires Live(m, l, r) && !ErasesItself(m, r)
    ensures DeleteDefined(m, r) && Ready(Delete(m, r), DeleteLayout(m, l, r))
  {
    LiveDeleteDefined(m, l, r);
    if DeleteCode(m, r) == 0 {
      DeletesChild(m, l, r);
      Deleted(m, l, r);
    }
  }

  // A successful delete removes exactly the node it names, and a folder only when nothing lies below it.
  lemma DeleteRefines(m: State, l: Layout, r: Request, pp: Path)
    requires Live(m, l, r) && !ErasesItself(m, r) && DeleteDefined(m, r)
    requires m.fat[r.parent] == FAT_END_OF_FILE ==> Lookup(Image(m.disk.volume), pp) == Some(Folder(r.parent))
    ensures DeleteCode(m, r) != 0 ==> Delete(m, r) == m
    ensures DeleteCode(m, r) == 0 ==>
              var before, after := View(Image(m.disk.volume)), View(Image(Delete(m, r).disk.volume));
              var x := pp + [RequestKey(r)];
              x in before && x !in after && before == after[x := before[x]] && forall k :: x + [k] !in before
  {
    if DeleteCode(m, r) == 0 {
      DeletesChild(m, l, r);
      Deleted(m, l, r);
      UnlinkedView(m, l, r, pp);
      hide DecodeFat, DecodeTable, Consistent, Unlinked, View, Delete, Signed, NodeOf;
      forall k
        ensures pp + [RequestKey(r)] + [k] !in View(Image(m.disk.volume))
      {
        NothingBelow(m, l, r, pp, k);
      }
    }
  }

  lemma NothingBelow(m: State, l: Layout, r: Request, pp: Path, k: Key)
    requires Deletes(m, l, r) && Lookup(Image(m.disk.volume), pp) == Some(Folder(r.parent))
    ensures pp + [RequestKey(r)] + [k] !in View(Image(m.disk.volume))
  {
    UnlinkedView(m, l, r, pp);
    FoundSlot(m, l, r);
    hide DecodeFat, DecodeTable, Consistent, Unlinked, Signed, NodeAt, TableEmpty;
    var fs, x := Image(m.disk.volume), pp + [RequestKey(r)];
    var y := x + [k];
    ViewIsLookup(fs, x);
    ViewIsLookup(fs, y);
    assert y[..|y| - 1] == x && y[|y| - 1] == k;
    if IsFolder(Victim(m, r)) {
      EmptyHasNoNode(fs, FirstCluster(Victim(m, r)), k);
    }
  }

  lemma UnlinkedHistory(m: State, r: Request, k: nat)
    requires r.parent < CLUSTER_MAP_SIZE && Found(m, r) < ENTRY_COUNT
    requires |m.disk.history| <= k < |m.disk.history| + CLUSTER_BLOCK_COUNT
    ensures |Unlinked(m, r).disk.history| == |m.disk.history| + CLUSTER_BLOCK_COUNT
    ensures Unlinked(m, r).disk.history[k] == m.disk.volume || Unlinked(m, r).disk.history[k]
        == Unlinked(m, r).disk.volume
  {
    hide PutEntry, Torn, DecodeTable;
    var n := |m.disk.history|;
    assert Unlinked(m, r).disk.history[k]
        == Torn(m.disk.volume, r.parent, PutEntry(m.disk.volume[r.parent], Found(m, r), ZERO_ENTRY), k - n + 1);
    OneSlotWriteIsAtomic(m.disk.volume, r.parent, Found(m, r), ZERO_ENTRY, k - n + 1);
  }

  // After any number of block writes the image holds the tree from before the delete or the one from after it.
  lemma DeleteIsAtomic(m: State, l: Layout, r: Request, k: nat)
    requires Live(m, l, r) && !ErasesItself(m, r) && DeleteDefined(m, r)
    requires |m.disk.history| <= k < |Delete(m, r).disk.history|
    ensures EitherTree(Delete(m, r).disk.history[k], m.disk.volume, l, Delete(m, r).disk.volume, DeleteLayout(m, l, r))
  {
    assert DeleteCode(m, r) == 0;
    hide DecodeFat, DecodeTable, Consistent, Delete, View, Signed, Outside, Elements, Chain, ChainOk, TableOk,
         DeleteCode, TableEmpty, Unlinked, DeleteLayout;
    DeletesChild(m, l, r);
    Deleted(m, l, r);
    UnlinkedIsSound(m, l, r);
    UnlinkedHistory(m, r, |m.disk.history|);
    var m1, m' := Unlinked(m, r), Delete(m, r);
    var image := m'.disk.history[k];
    if k < |m1.disk.history| {
      UnlinkedHistory(m, r, k);
      assert image == m'.disk.history[..|m1.disk.history|][k] == m1.disk.history[k];
    } else {
      QuietImage(m1.disk.volume, DeleteLayout(m, l, r), image, Elements(Chain(m.fat, FirstCluster(Victim(m, r)))));
    }
  }

  // The free list grows by the chain of the deleted entry: one cluster for a folder, the data clusters for a file.
  lemma DeleteFreesChain(m: State, l: Layout, r: Request)
    requires Deletes(m, l, r)
    ensures DeleteDefined(m, r) && ChainOk(m.fat, FirstCluster(Victim(m, r)))
    ensures var chain := Chain(m.fat, FirstCluster(Victim(m, r)));
            && |FreeClusters(Delete(m, r).fat)| == |FreeClusters(m.fat)| + |chain|
            && (IsFolder(Victim(m, r)) ==> |chain| == 1)
  {
    hide Consistent, DecodeFat, DecodeTable, Delete, Signed, QuietRun, View, TableOk, FreeClusters, Unlinked,
         TableEmpty;
    Deleted(m, l, r);
    var c := FirstCluster(Victim(m, r));
    ChainLinks(m.fat, c);
    FreeAfterReleasing(m.fat, Delete(m, r).fat, Chain(m.fat, c));
    FoundSlot(m, l, r);
    LiveFolderSlot(Image(m.disk.volume), l, r.parent, Found(m, r));
  }

  lemma LiveFolderSlot(fs: Fs, l: Layout, d: nat, s: nat)
    requires Consistent(fs, l) && d in l.depth && d < CLUSTER_MAP_SIZE && 2 <= s < ENTRY_COUNT
    requires Used(TableAt(fs, d)[s])
    ensures var c := FirstCluster(TableAt(fs, d)[s]);
            IsFolder(TableAt(fs, d)[s]) ==> c < CLUSTER_MAP_SIZE && fs.fat[c] == FAT_END_OF_FILE
  {
    hide DecodeTable, TableOk, Chain;
    assert SlotOk(fs, l, d, s);
    if IsFolder(TableAt(fs, d)[s]) {
      assert DirOk(fs, l, FirstCluster(TableAt(fs, d)[s]));
    }
  }

  lemma DeleteKeepsNoLeak(m: State, l: Layout, r: Request)
    requires Live(m, l, r) && !ErasesItself(m, r) && DeleteDefined(m, r) && NoLeak(Image(m.disk.volume), l)
    ensures NoLeak(Image(Delete(m, r).disk.volume), DeleteLayout(m, l, r))
  {
    if DeleteCode(m, r) == 0 {
      DeletesChild(m, l, r);
      Deleted(m, l, r);
      hide DecodeFat, Consistent, Delete, Signed, QuietRun, View;
    }
  }
}
