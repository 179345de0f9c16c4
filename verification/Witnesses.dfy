/** Concrete inputs on a freshly formatted disk on which the promises that can fail do fail. */
module Witnesses {
  import opened Machine
  import opened Encoding
  import opened Allocation
  import opened FileTree
  import opened Operations
  import opened Durability
  import opened Writing
  import opened Deleting
  import opened Reading
  import opened Inverses
  import opened Formatting

  lemma OnlyRootIsNotFull()
    ensures !Full(imap[[] := Folder(ROOT_CLUSTER_NUMBER)], [])
  {
    var t: Tree := imap[[] := Folder(ROOT_CLUSTER_NUMBER)];
    forall names | NamesBelow(t, [], names)
      ensures names == {}
    {
    }
  }

  // On a formatted disk a write to the root succeeds for every name but the root's own, up to 509 clusters.
  lemma FirstWriteSucceeds(m: State, r: Request)
    requires r.parent == ROOT_CLUSTER_NUMBER && RequestKey(r) != ZERO_KEY && RequestKey(r) != RootKey()
    requires Needed(r) <= CLUSTER_MAP_SIZE - FIRST_DATA_CLUSTER
    ensures At(Format(m), ROOT_LAYOUT, r, []) && WriteCode(Format(m), r) == 0
  {
    hide Format, Consistent, DecodeFat, DecodeTable, Signed, View, WriteCode, RootKey, Needed, FreeClusters, Full;
    FormatIsSound(m);
    FormattedFree(m);
    OnlyRootIsNotFull();
    LiveDirOk(Image(Format(m).disk.volume), ROOT_LAYOUT, ROOT_CLUSTER_NUMBER);
    WriteOutcome(Format(m), ROOT_LAYOUT, r, []);
  }

  function NameA(): Name
  {
    [0x61, 0, 0, 0, 0, 0, 0, 0]
  }

  // Make a folder called a in the root.
  function MakeA(): Request
  {
    Request(NameA(), Zeros(3), ROOT_CLUSTER_NUMBER, 0)
  }

  lemma NameAPadded()
    ensures NulPadded(NameA()) == NameA() && RequestKey(MakeA()) != ZERO_KEY && RequestKey(MakeA()) != RootKey()
  {
    var n := NameA();
    forall i | 0 <= i < 8
      ensures NulPadded(n)[i] == n[i]
    {
      assert i > 0 ==> n[..i + 1][1] == 0;
    }
    assert n[0] != Zeros(8)[0] && n[0] != RootName()[0];
  }

  // A folder just made can be told to delete itself; the call succeeds and no layout fits what is left.
  lemma NewFolderIsErased(m: State)
    ensures At(Format(m), ROOT_LAYOUT, MakeA(), []) && WriteDefined(Format(m), MakeA(), [])
    ensures var m1 := Write(Format(m), MakeA(), []);
            exists l1, q :: Live(m1, l1, q) && ErasesItself(m1, q) && DeleteDefined(m1, q) && DeleteCode(m1, q) == 0
                            && forall l' :: !Ready(Delete(m1, q), l')
  {
    hide Format, Consistent, DecodeFat, DecodeTable, Signed, View, WriteCode, NameA, RootKey, FreeClusters,
         Write, Delete, Ready, ErasesItself, DeleteCode, DeleteDefined, WriteLayout;
    NameAPadded();
    FormattedFree(m);
    FirstWriteSucceeds(m, MakeA());
    NewFolderErasesItself(Format(m), ROOT_LAYOUT, MakeA(), []);
    var m1, l1 := Write(Format(m), MakeA(), []), WriteLayout(Format(m), ROOT_LAYOUT, MakeA());
    var q := MakeA().(parent := LowestFree(Format(m).fat, 1)[0]);
    ErasesItselfIff(m1, l1, q);
    ErasingItselfBreaksTheTree(m1, l1, q);
  }

  // On a disk that was blank, the root can be told to delete itself, which leaves the table.
  lemma RootIsErased(m: State)
    requires Blank(m.disk.volume)
    ensures var q := Request(RootName(), Zeros(3), ROOT_CLUSTER_NUMBER, 0);
            Live(Format(m), ROOT_LAYOUT, q) && ErasesItself(Format(m), q) && !DeleteDefined(Format(m), q)
  {
    hide Format, Consistent, DecodeFat, DecodeTable, Signed, View, TableEmpty;
    var q := Request(RootName(), Zeros(3), ROOT_CLUSTER_NUMBER, 0);
    FormatIsSound(m);
    LiveDirOk(Image(Format(m).disk.volume), ROOT_LAYOUT, ROOT_CLUSTER_NUMBER);
    assert RootName()[0] != Zeros(8)[0];
    BootClusterListsNothing(m);
    ErasingTheRootLeavesTheTable(Format(m), ROOT_LAYOUT, q);
  }

  lemma BootClusterListsNothing(m: State)
    requires Blank(m.disk.volume)
    ensures TableEmpty(DecodeTable(Format(m).disk.volume[0]))
  {
    hide FormatMapped, FormatNamed, Format, DecodeTable, Signature;
    FormattedBoot(m);
    forall i | 2 <= i < ENTRY_COUNT
      ensures !Used(DecodeTable(Format(m).disk.volume[0])[i])
    {
      UserAttributeByte(Format(m).disk.volume[0], i);
      SignatureIsNoEntry(i);
    }
  }

  lemma FormattedBoot(m: State)
    requires Blank(m.disk.volume)
    ensures Format(m).disk.volume[0] == Splice(ZERO_CLUSTER, 0, Signature())
  {
    hide EncodeFat, EmptyFat, InitTable, RootNameBlock, Splice, Signature;
  }

  lemma UserAttributeByte(c: Cluster, i: nat)
    requires i < ENTRY_COUNT
    ensures DecodeTable(c)[i].userAttribute == c[ENTRY_SIZE * i + 12]
  {
  }

  lemma SignatureIsNoEntry(i: nat)
    requires 2 <= i < ENTRY_COUNT
    ensures Splice(ZERO_CLUSTER, 0, Signature())[ENTRY_SIZE * i + 12] != UATTR_NOT_EMPTY
  {
    var at := ENTRY_SIZE * i + 12;
    if at < BLOCK_SIZE {
      assert Splice(ZERO_CLUSTER, 0, Signature())[at] == Signature()[at] == SignatureByte(at);
      SignatureByteAt(i);
    }
  }

  lemma SignatureByteAt(i: nat)
    requires 2 <= i < 16
    ensures SignatureByte(ENTRY_SIZE * i + 12) != UATTR_NOT_EMPTY
  {
    if i == 2 {
      assert SignatureRow(4)[12] == '0';
    }
  }

  // A listing asked for with room for one entry stores 2048 bytes.
  lemma ListingOverrunsBuffer(m: State)
    ensures At(Format(m), ROOT_LAYOUT, MakeA(), []) && WriteDefined(Format(m), MakeA(), [])
    ensures var m1, q := Write(Format(m), MakeA(), []), MakeA().(bufferSize := ENTRY_SIZE);
            ReadDirectoryDefined(m1, q) && ReadDirectoryCode(m1, q) == 0 && |ReadDirectoryData(m1, q)| > q.bufferSize
  {
    hide Format, Consistent, DecodeFat, DecodeTable, Signed, View, WriteCode, NameA, RootKey, FreeClusters,
         Write, WriteLayout, ReadDirectoryDefined, ReadDirectoryCode, OwnName;
    NameAPadded();
    FormattedFree(m);
    FirstWriteSucceeds(m, MakeA());
    WriteRefines(Format(m), ROOT_LAYOUT, MakeA(), [], []);
    WrittenParent(Format(m), ROOT_LAYOUT, MakeA(), []);
    var m1, l1 := Write(Format(m), MakeA(), []), WriteLayout(Format(m), ROOT_LAYOUT, MakeA());
    var q := MakeA().(bufferSize := ENTRY_SIZE);
    ReadDirectoryIsLookup(m1, l1, q, []);
  }
}
