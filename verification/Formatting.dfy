/** A fresh file system, mounting, and how the clusters divide among owners and the free list. */
module Formatting {
  import opened Machine
  import opened Encoding
  import opened Allocation
  import opened FileTree
  import opened Storage
  import opened Operations
  import opened Durability
  import opened Writing

  const ROOT_LAYOUT := Layout(map[ROOT_CLUSTER_NUMBER := 0], map[])

  lemma RootNameRead(d: Disk)
    ensures InVolume(d.volume, CLUSTER_BLOCK_COUNT * ROOT_CLUSTER_NUMBER)
    ensures var d' := PutBlock(d, CLUSTER_BLOCK_COUNT * ROOT_CLUSTER_NUMBER, RootNameBlock());
            DecodeTable(d'.volume[ROOT_CLUSTER_NUMBER])[0].name == RootName()
  {
    var c := Splice(d.volume[ROOT_CLUSTER_NUMBER], 0, RootNameBlock());
    assert c[..8] == RootName();
    assert c[ENTRY_SIZE * 0..ENTRY_SIZE * 0 + ENTRY_SIZE][..8] == c[..8];
  }

  lemma RootNamePadded()
    ensures NulPadded(RootName()) == RootName()
  {
    var n := RootName();
    assert n[..4] == [n[0], n[1], n[2], n[3]];
    forall i | 0 <= i < 8
      ensures NulPadded(n)[i] == n[i]
    {
      if i < 4 {
        assert forall j :: 0 <= j < i + 1 ==> n[..i + 1][j] == n[j] && n[j] != 0;
      }
    }
  }

  lemma FormattedRoot(m: State)
    ensures var t := DecodeTable(Format(m).disk.volume[ROOT_CLUSTER_NUMBER]);
            TableOk(t) && TableEmpty(t) && FirstCluster(t[0]) == 0 && FirstCluster(t[1]) == ROOT_CLUSTER_NUMBER
              && KeyOf(t[0]) == RootKey() && KeyOf(t[1]) == RootKey()
  {
    hide DecodeTable, PutEntry, InitTable, FormatMapped, NulPadded, RootName, EmptyFat, PutBlock, RootNameBlock,
         TableOk, TableEmpty;
    RootNameRead(FormatMapped(m).disk);
    RootNamePadded();
    InitTableSlots(RootName(), FormatNamed(m).disk.volume[ROOT_CLUSTER_NUMBER], ROOT_CLUSTER_NUMBER);
    RootTableOk(DecodeTable(Format(m).disk.volume[ROOT_CLUSTER_NUMBER]), RootName());
  }

  lemma RootTableOk(t: Table, name: Name)
    requires t[0] == AsFolder(ZERO_ENTRY, name) && t[1] == WithCluster(AsFolder(ZERO_ENTRY, name), ROOT_CLUSTER_NUMBER)
    requires forall i :: 2 <= i < ENTRY_COUNT ==> t[i] == ZERO_ENTRY
    ensures TableOk(t) && TableEmpty(t) && FirstCluster(t[0]) == 0 && FirstCluster(t[1]) == ROOT_CLUSTER_NUMBER
    ensures KeyOf(t[0]) == Key(name, Zeros(3)) && KeyOf(t[1]) == KeyOf(t[0])
  {
  }

  lemma FormattedTable(m: State)
    ensures Synced(Format(m)) && Format(m).fat == EmptyFat()
  {
    hide DecodeFat, EncodeFat, EmptyFat, InitTable, RootNameBlock;
    FatRoundTrip(EmptyFat());
  }

  lemma FormattedSignature(m: State)
    ensures Signed(Format(m).disk.volume)
  {
    hide EncodeFat, EmptyFat, InitTable, RootNameBlock, Signature, Splice;
    BlockAfterPutBlock(m.disk, 0, Signature(), 0);
  }

  // Formatting any disk leaves a sound, leak-free file system that holds only the root folder.
  lemma FormatIsSound(m: State)
    ensures Ready(Format(m), ROOT_LAYOUT) && NoLeak(Image(Format(m).disk.volume), ROOT_LAYOUT)
    ensures View(Image(Format(m).disk.volume)) == imap[[] := Folder(ROOT_CLUSTER_NUMBER)]
  {
    hide DecodeTable, DecodeFat, Format, Signed, TableOk, TableEmpty, View, Lookup;
    FormattedRoot(m);
    FormattedTable(m);
    FormattedSignature(m);
    var fs := Image(Format(m).disk.volume);
    forall d | d in ROOT_LAYOUT.depth
      ensures DirOk(fs, ROOT_LAYOUT, d)
    {
    }
    forall s | 2 <= s < ENTRY_COUNT
      ensures SlotOk(fs, ROOT_LAYOUT, ROOT_CLUSTER_NUMBER, s)
    {
      EmptySlotUnused(TableAt(fs, ROOT_CLUSTER_NUMBER), s);
    }
    OnlyRoot(fs);
  }

  lemma EmptySlotUnused(t: Table, s: nat)
    requires TableEmpty(t) && 2 <= s < ENTRY_COUNT
    ensures !Used(t[s])
  {
  }

  lemma OnlyRoot(fs: Fs)
    requires TableEmpty(TableAt(fs, ROOT_CLUSTER_NUMBER))
    ensures View(fs) == imap[[] := Folder(ROOT_CLUSTER_NUMBER)]
  {
    hide DecodeTable, TableEmpty, NodeAt;
    forall p: Path
      ensures Lookup(fs, p) == if p == [] then Some(Folder(ROOT_CLUSTER_NUMBER)) else None
    {
      OnlyRootLookup(fs, p);
    }
  }

  lemma {:induction false} OnlyRootLookup(fs: Fs, p: Path)
    requires TableEmpty(TableAt(fs, ROOT_CLUSTER_NUMBER))
    ensures Lookup(fs, p) == if p == [] then Some(Folder(ROOT_CLUSTER_NUMBER)) else None
    decreases |p|
  {
    hide DecodeTable, TableEmpty, NodeAt;
    if p != [] {
      OnlyRootLookup(fs, p[..|p| - 1]);
      EmptyHasNoNode(fs, ROOT_CLUSTER_NUMBER, p[|p| - 1]);
    }
  }

  // Mounting a signed disk reloads exactly the table on it; between calls that is the cached one.
  lemma RemountIsIdentity(m: State, l: Layout)
    requires Ready(m, l)
    ensures Mount(m) == m
  {
    hide DecodeFat, Consistent, Signed;
  }

  lemma MountReloads(m: State, l: Layout)
    requires Sound(m.disk.volume, l)
    ensures Ready(Mount(m), l) && Mount(m).disk == m.disk
  {
  }

  // ---------- interrupted formatting ----------

  // One block for the signature, four for the table, one for the root's name, four for the root's table.
  const FORMAT_WRITES := 10

  // What is on the disk after the first k block writes of formatting it.
  ghost function FormatImage(m: State, k: nat): Volume
    requires k <= FORMAT_WRITES
  {
    if k == 0 then m.disk.volume else Format(m).disk.history[|m.disk.history| + k - 1]
  }

  // The first three clusters of a disk nobody has written to.
  ghost predicate Blank(v: Volume)
  {
    v[0] == v[FAT_CLUSTER_NUMBER] == v[ROOT_CLUSTER_NUMBER] == ZERO_CLUSTER
  }

  lemma FormatStages(m: State, k: nat)
    requires 0 < k <= FORMAT_WRITES
    ensures FormatImage(m, k)[0] == Format(m).disk.volume[0]
    ensures var v, table := FormatImage(m, k), Format(m).disk.volume[ROOT_CLUSTER_NUMBER];
            var named := Splice(m.disk.volume[ROOT_CLUSTER_NUMBER], 0, RootNameBlock());
            v[ROOT_CLUSTER_NUMBER] ==
              if k < 6 then m.disk.volume[ROOT_CLUSTER_NUMBER]
              else if k == 6 then named
              else table[..BLOCK_SIZE * (k - 6)] + named[BLOCK_SIZE * (k - 6)..]
    ensures var v := FormatImage(m, k);
            k >= 6 ==> v == Format(m).disk.volume[ROOT_CLUSTER_NUMBER := v[ROOT_CLUSTER_NUMBER]]
  {
    hide EncodeFat, EmptyFat, InitTable, RootNameBlock, Splice, Signature;
  }

  lemma UnusedRootIsUnsound(v: Volume, l: Layout)
    requires v[ROOT_CLUSTER_NUMBER][12] == 0
    ensures !Consistent(Image(v), l)
  {
    hide DecodeFat;
    assert DecodeTable(v[ROOT_CLUSTER_NUMBER])[0].userAttribute == 0;
    assert ROOT_CLUSTER_NUMBER in l.depth ==> !DirOk(Image(v), l, ROOT_CLUSTER_NUMBER);
  }

  // Everything beyond the first block of the root's table is zero, before and after.
  lemma RootTableTail(m: State, k: nat)
    requires Blank(m.disk.volume) && 0 < k <= CLUSTER_BLOCK_COUNT
    ensures var table := Format(m).disk.volume[ROOT_CLUSTER_NUMBER];
            table[..BLOCK_SIZE * k] + Splice(ZERO_CLUSTER, 0, RootNameBlock())[BLOCK_SIZE * k..] == table
  {
    hide EncodeEntry, DecodeTable, NulPadded, EmptyFat, EncodeFat, Signature, FormatNamed, RootNameBlock;
  }

  lemma CutInMidFormat(m: State, k: nat)
    requires Blank(m.disk.volume) && 0 < k <= 6
    ensures FormatImage(m, k)[ROOT_CLUSTER_NUMBER][12] == 0
  {
    FormatStages(m, k);
    hide FormatImage, Format, RootName;
    assert RootNameBlock()[12] == 0;
  }

  lemma CutAtEndOfFormat(m: State, k: nat)
    requires Blank(m.disk.volume) && 7 <= k <= FORMAT_WRITES
    ensures FormatImage(m, k) == Format(m).disk.volume
  {
    FormatStages(m, k);
    hide FormatImage, Format, Splice;
    RootTableTail(m, k - 6);
  }

  // Cut short after k block writes, formatting a blank disk leaves one that mounts as a sound file system exactly
  // when nothing was written yet, or the first block of the root's table was.
  lemma FormatCutIsSoundIff(m: State, k: nat, fat: Fat, history: seq<Volume>)
    requires Blank(m.disk.volume) && k <= FORMAT_WRITES
    ensures (exists l :: Ready(Mount(State(fat, Disk(FormatImage(m, k), history))), l)) <==> k == 0 || k >= 7
  {
    hide DecodeFat, Consistent, Format, Blank;
    var rebooted := State(fat, Disk(FormatImage(m, k), history));
    FormattedSignature(m);
    if k == 0 {
      BlankIsUnsigned(m.disk.volume);
      FormatIsSound(rebooted);
      assert Ready(Mount(rebooted), ROOT_LAYOUT);
    } else {
      FormatStages(m, k);
      hide FormatImage, Signature;
      if k >= 7 {
        CutAtEndOfFormat(m, k);
        FormatIsSound(m);
        MountReloads(rebooted, ROOT_LAYOUT);
      } else {
        CutInMidFormat(m, k);
        forall l
          ensures !Ready(Mount(rebooted), l)
        {
          UnusedRootIsUnsound(FormatImage(m, k), l);
        }
      }
    }
  }

  lemma BlankIsUnsigned(v: Volume)
    requires Blank(v)
    ensures !Signed(v)
  {
    WipedBootIsUnsigned(v);
  }

  // ---------- partition ----------

  // Slot s of the live folder d is in use, and c is on its chain.
  ghost predicate Owns(fs: Fs, l: Layout, d: nat, s: nat, c: nat)
  {
    && d in l.depth && d < CLUSTER_MAP_SIZE && 2 <= s < ENTRY_COUNT && Used(TableAt(fs, d)[s])
    && ChainOk(fs.fat, FirstCluster(TableAt(fs, d)[s])) && c in Chain(fs.fat, FirstCluster(TableAt(fs, d)[s]))
  }

  // No cluster is on two chains, and without leaks the occupied clusters are exactly those on a chain.
  lemma OwnershipPartition(fs: Fs, l: Layout, c: nat)
    requires Consistent(fs, l) && NoLeak(fs, l) && FIRST_DATA_CLUSTER <= c < CLUSTER_MAP_SIZE
    ensures fs.fat[c] != FAT_EMPTY_ENTRY <==> exists d: nat, s: nat :: Owns(fs, l, d, s, c)
    ensures forall d: nat, s: nat, d': nat, s': nat :: Owns(fs, l, d, s, c) && Owns(fs, l, d', s', c) ==>
        d == d' && s == s'
  {
    hide DecodeTable, TableOk, ChainOk, Chain;
    forall d: nat, s: nat | Owns(fs, l, d, s, c)
      ensures c in l.owner && l.owner[c] == (d, s) && fs.fat[c] != FAT_EMPTY_ENTRY
    {
      assert SlotOk(fs, l, d, s);
    }
    if fs.fat[c] != FAT_EMPTY_ENTRY {
      assert OwnerOk(fs, l, c);
      var (d, s) := l.owner[c];
      assert Owns(fs, l, d, s, c);
    }
  }

  ghost predicate NamesFolder(fs: Fs, l: Layout, p: nat, s: nat, d: nat)
  {
    && p in l.depth && p < CLUSTER_MAP_SIZE && 2 <= s < ENTRY_COUNT
    && Used(TableAt(fs, p)[s]) && IsFolder(TableAt(fs, p)[s]) && FirstCluster(TableAt(fs, p)[s]) == d
  }

  // Every live folder but the root is named by exactly one slot of one live folder, which it points back to; the
  // root is named by none.
  lemma FolderNamedOnce(fs: Fs, l: Layout, d: nat)
    requires Consistent(fs, l) && d in l.depth
    ensures (exists p: nat, s: nat :: NamesFolder(fs, l, p, s, d)) <==> d != ROOT_CLUSTER_NUMBER
    ensures forall p: nat, s: nat, p': nat, s': nat :: NamesFolder(fs, l, p, s, d) && NamesFolder(fs, l, p', s', d) ==>
        p == p' && s == s'
    ensures forall p: nat, s: nat :: NamesFolder(fs, l, p, s, d) ==>
              d < CLUSTER_MAP_SIZE && FirstCluster(TableAt(fs, d)[0]) == d && FirstCluster(TableAt(fs, d)[1]) == p
  {
    hide DecodeTable, TableOk, Chain;
    assert DirOk(fs, l, d);
    if d != ROOT_CLUSTER_NUMBER {
      assert NamesFolder(fs, l, l.owner[d].0, l.owner[d].1, d);
    }
    forall p: nat, s: nat | NamesFolder(fs, l, p, s, d)
      ensures d in l.owner && l.owner[d] == (p, s) && d != ROOT_CLUSTER_NUMBER
    {
      assert SlotOk(fs, l, p, s);
    }
  }

  function Interval(lo: nat, hi: nat): (r: set<nat>)
    requires lo <= hi
    ensures |r| == hi - lo && forall c :: c in r <==> lo <= c < hi
  {
    if lo == hi then {} else Interval(lo, hi - 1) + {hi - 1}
  }

  lemma FreeOrOwned(fs: Fs, l: Layout, c: nat)
    requires Consistent(fs, l) && NoLeak(fs, l)
    ensures FIRST_DATA_CLUSTER <= c < CLUSTER_MAP_SIZE <==> c in Elements(FreeClusters(fs.fat)) || c in l.owner
    ensures !(c in Elements(FreeClusters(fs.fat)) && c in l.owner)
  {
    hide DecodeTable, TableOk, ChainOk, Chain;
    assert c in l.owner ==> OwnerOk(fs, l, c);
  }

  // Owned and free clusters add up to the 509 data clusters.
  lemma SpaceIsConserved(fs: Fs, l: Layout)
    requires Consistent(fs, l) && NoLeak(fs, l)
    ensures |FreeClusters(fs.fat)| + |l.owner.Keys| == CLUSTER_MAP_SIZE - FIRST_DATA_CLUSTER
  {
    hide Consistent, NoLeak, Elements, FreeClusters, Ascending, Interval;
    var free, all := Elements(FreeClusters(fs.fat)), Interval(FIRST_DATA_CLUSTER, CLUSTER_MAP_SIZE);
    forall c: nat
      ensures c in all <==> c in free || c in l.owner.Keys
      ensures !(c in free && c in l.owner.Keys)
    {
      FreeOrOwned(fs, l, c);
    }
    assert free + l.owner.Keys == all && free !! l.owner.Keys;
    FreeListAscends(fs.fat);
    ElementsSize(FreeClusters(fs.fat));
  }

  lemma FormattedFree(m: State)
    ensures |FreeClusters(Format(m).fat)| == CLUSTER_MAP_SIZE - FIRST_DATA_CLUSTER
  {
    hide View, Format, NoLeak, Consistent, Signed, DecodeFat, FreeClusters;
    FormatIsSound(m);
    SpaceIsConserved(Image(Format(m).disk.volume), ROOT_LAYOUT);
    assert ROOT_LAYOUT.owner.Keys == {};
  }
}
