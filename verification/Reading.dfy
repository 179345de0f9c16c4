/** read, read_directory and the return codes, in terms of the tree. */
module Reading {
  import opened Machine
  import opened Encoding
  import opened Allocation
  import opened FileTree
  import opened Operations
  import opened Durability
  import opened Writing
  import opened Deleting

  // A request whose parent is the live folder at path pp.
  ghost predicate At(m: State, l: Layout, r: Request, pp: Path)
  {
    Live(m, l, r) && m.fat[r.parent] == FAT_END_OF_FILE && Lookup(Image(m.disk.volume), pp) == Some(Folder(r.parent))
  }

  lemma FindsTheChild(t: Table, k: Key)
    requires TableOk(t) && k != ZERO_KEY
    ensures FirstSlot(t, k, true, 0) == FirstSlot(t, k, false, 0)
    ensures FirstSlot(t, k, false, 0) == 0 <==> KeyOf(t[0]) == k
    ensures FirstSlot(t, k, false, 0) < 2 <==> KeyOf(t[0]) == k || KeyOf(t[1]) == k
    ensures FirstSlot(t, k, true, 2) == if FirstSlot(t, k, false, 0) < 2 then ENTRY_COUNT else FirstSlot(t, k, false, 0)
  {
    var i, j, u := FirstSlot(t, k, false, 0), FirstSlot(t, k, true, 2), FirstSlot(t, k, true, 0);
    NamedSlotIsUsed(t, k);
    assert i < ENTRY_COUNT ==> Names(t[i], k, true);
    assert u < ENTRY_COUNT ==> Names(t[u], k, false);
    assert KeyOf(t[0]) == k ==> Names(t[0], k, false);
    assert KeyOf(t[1]) == k ==> Names(t[1], k, false);
    assert j < ENTRY_COUNT ==> Names(t[j], k, false) && Used(t[j]);
  }

  // Looking a name up in a folder's table is looking up the path one step longer.
  lemma LookupFindsChild(m: State, l: Layout, r: Request, pp: Path)
    requires At(m, l, r, pp)
    ensures var i, x := Found(m, r), pp + [RequestKey(r)];
            && (i == 0 <==> RequestKey(r) == SelfKey(pp)) && (i < 2 <==> OwnName(pp, RequestKey(r)))
            && FirstSlot(ParentTable(m, r), RequestKey(r), true, 0) == i
            && Lookup(Image(m.disk.volume), x) == if i < 2 || i == ENTRY_COUNT then None
              else Some(NodeOf(Image(m.disk.volume), ParentTable(m, r)[i]))
  {
    hide Consistent, DecodeTable, DecodeFat, TableOk, NodeOf, Signed, SelfKey, UpKey;
    LiveTableOk(Image(m.disk.volume), l, r.parent);
    FindsTheChild(ParentTable(m, r), RequestKey(r));
    OwnSlotsOfPath(Image(m.disk.volume), l, pp, r.parent);
    var x := pp + [RequestKey(r)];
    assert x[..|x| - 1] == pp;
  }

  lemma LiveFileNode(m: State, l: Layout, r: Request)
    requires Live(m, l, r) && m.fat[r.parent] == FAT_END_OF_FILE && 2 <= Found(m, r) < ENTRY_COUNT
    ensures var e := ParentTable(m, r)[Found(m, r)];
            !IsFolder(e) ==> ChainOk(m.fat, FirstCluster(e))
                             && NodeOf(Image(m.disk.volume), e)
                               == File(e.filesize, Gather(m.disk.volume, Chain(m.fat, FirstCluster(e))))
                             && |Chain(m.fat, FirstCluster(e))| == Required(e.filesize)
  {
    hide Consistent, DecodeTable, DecodeFat, TableOk, Signed, Chain, ChainOk, Gather;
    LiveTableOk(Image(m.disk.volume), l, r.parent);
    NamedSlotIsUsed(ParentTable(m, r), RequestKey(r));
    LiveSlot(Image(m.disk.volume), l, r.parent, Found(m, r));
  }

  lemma LiveReadDefined(m: State, l: Layout, r: Request)
    requires Live(m, l, r)
    ensures ReadDefined(m, r)
  {
    if ReadCode(m, r) == 0 {
      FoundSlot(m, l, r);
    }
  }

  // read returns the contents the tree gives the path, refuses folders, and never fills more than the buffer.
  lemma ReadIsLookup(m: State, l: Layout, r: Request, pp: Path)
    requires At(m, l, r, pp)
    ensures ReadDefined(m, r)
    ensures var tree, x := View(Image(m.disk.volume)), pp + [RequestKey(r)];
            && (x in tree && tree[x].File? ==>
                  |tree[x].data| == Required(tree[x].size)
                    && ReadCode(m, r) == if r.bufferSize / CLUSTER_SIZE < |tree[x].data| then -1 else 0)
            && (x in tree && tree[x].Folder? ==> ReadCode(m, r) == 1)
            && (x !in tree ==> ReadCode(m, r) == if OwnName(pp, RequestKey(r)) then 1 else 2)
            && (ReadCode(m, r) == 0 ==> x in tree && tree[x].File? && ReadData(m, r) == tree[x].data
                                        && CLUSTER_SIZE * |ReadData(m, r)| <= r.bufferSize)
  {
    hide Consistent, DecodeTable, DecodeFat, TableOk, Signed, Chain, ChainOk, View, Lookup, Required;
    LiveReadDefined(m, l, r);
    LookupFindsChild(m, l, r, pp);
    ViewIsLookup(Image(m.disk.volume), pp + [RequestKey(r)]);
    if 2 <= Found(m, r) < ENTRY_COUNT {
      LiveFileNode(m, l, r);
    } else if Found(m, r) < 2 {
      FoundSlot(m, l, r);
    }
  }

  ghost predicate IsTableOf(fs: Fs, pp: Path, data: Cluster)
  {
    match Lookup(fs, pp)
    case Some(Folder(d)) => d < CLUSTER_MAP_SIZE && data == fs.volume[d]
    case _ => false
  }

  // read_directory hands out the table of the folder the name means: a child, the folder itself, or its parent.
  // The root asked for by its own name is the exception: its slot 0 leads to the boot cluster.
  lemma ReadDirectoryIsLookup(m: State, l: Layout, r: Request, pp: Path)
    requires At(m, l, r, pp)
    ensures ReadDirectoryDefined(m, r)
    ensures var tree, k, x := View(Image(m.disk.volume)), RequestKey(r), pp + [RequestKey(r)];
            && ReadDirectoryCode(m, r) == (
              if OwnName(pp, k) || (x in tree && tree[x].Folder?) then if r.bufferSize < ENTRY_SIZE then -1 else 0
              else if x in tree then 1 else 2)
            && (ReadDirectoryCode(m, r) == 0 ==>
                  if pp == [] && k == SelfKey(pp) then ReadDirectoryData(m, r) == m.disk.volume[0]
                  else IsTableOf(Image(m.disk.volume), Answering(pp, k), ReadDirectoryData(m, r)))
  {
    hide Consistent, DecodeTable, DecodeFat, TableOk, Signed, Chain, ChainOk, View, Lookup, Gather, SelfKey, UpKey;
    LookupFindsChild(m, l, r, pp);
    OwnSlotsOfPath(Image(m.disk.volume), l, pp, r.parent);
    RootAnswersOnce(pp);
    ViewIsLookup(Image(m.disk.volume), pp + [RequestKey(r)]);
    if Found(m, r) < ENTRY_COUNT {
      FoundSlot(m, l, r);
    }
  }

  lemma RootAnswersOnce(pp: Path)
    ensures pp == [] ==> SelfKey(pp) == UpKey(pp)
  {
  }

  // The table of a live folder lists exactly the names the tree has one step below it, each with its node.
  lemma ListingIsFaithful(fs: Fs, l: Layout, d: nat, pp: Path, k: Key)
    requires Consistent(fs, l) && Lookup(fs, pp) == Some(Folder(d))
    ensures d < CLUSTER_MAP_SIZE
    ensures pp + [k] in View(fs) <==> k in ChildNames(TableAt(fs, d), ENTRY_COUNT)
    ensures forall s :: 2 <= s < ENTRY_COUNT && Used(TableAt(fs, d)[s]) && KeyOf(TableAt(fs, d)[s]) == k ==>
              View(fs)[pp + [k]] == NodeOf(fs, TableAt(fs, d)[s])
  {
    hide Consistent, DecodeTable, NodeOf, View, Lookup, ChildNames, TableOk;
    FoldersAreLive(fs, l, pp);
    LiveTableOk(fs, l, d);
    var t := TableAt(fs, d);
    OneStepLookup(fs, d, pp, k);
    ViewIsLookup(fs, pp + [k]);
    forall s | 2 <= s < ENTRY_COUNT && Used(t[s]) && KeyOf(t[s]) == k
      ensures FirstSlot(t, k, true, 2) == s
    {
      UsedSlotIsFirst(t, s);
    }
    var i := FirstSlot(t, k, true, 2);
    assert i < ENTRY_COUNT ==> Used(t[i]) && KeyOf(t[i]) == k;
  }

  lemma OneStepLookup(fs: Fs, d: nat, pp: Path, k: Key)
    requires Lookup(fs, pp) == Some(Folder(d))
    ensures Lookup(fs, pp + [k]) == NodeAt(fs, d, k)
  {
    var x := pp + [k];
    assert x[..|x| - 1] == pp;
  }

  // ---------- outcomes ----------

  // The names in slots 2 to i-1 of a folder's table.
  ghost function ChildNames(t: Table, i: nat): (r: set<Key>)
    requires 2 <= i <= ENTRY_COUNT
    ensures forall k :: k in r <==> exists s :: 2 <= s < i && Used(t[s]) && KeyOf(t[s]) == k
  {
    if i == 2 then {} else if Used(t[i - 1]) then ChildNames(t, i - 1) + {KeyOf(t[i - 1])} else ChildNames(t, i - 1)
  }

  ghost predicate AllUsed(t: Table, i: nat)
    requires i <= ENTRY_COUNT
  {
    forall s :: 2 <= s < i ==> Used(t[s])
  }

  lemma NewName(t: Table, i: nat)
    requires TableOk(t) && 2 <= i < ENTRY_COUNT && Used(t[i])
    ensures KeyOf(t[i]) !in ChildNames(t, i)
  {
  }

  lemma ChildNamesStep(t: Table, i: nat)
    requires TableOk(t) && 2 <= i <= ENTRY_COUNT
    ensures |ChildNames(t, i)| == if i == 2 then 0 else |ChildNames(t, i - 1)| + if Used(t[i - 1]) then 1 else 0
  {
    hide TableOk, KeyOf, Used;
    if i > 2 && Used(t[i - 1]) {
      NewName(t, i - 1);
    }
  }

  // Names are distinct, so a folder is full exactly when it holds 62 children.
  lemma {:induction false} ChildrenCounted(t: Table, i: nat)
    requires TableOk(t) && 2 <= i <= ENTRY_COUNT
    ensures |ChildNames(t, i)| <= i - 2
    ensures |ChildNames(t, i)| == i - 2 <==> AllUsed(t, i)
    decreases i
  {
    hide TableOk, AllUsed, KeyOf, Used, ChildNames;
    AllUsedStep(t, i);
    ChildNamesStep(t, i);
    if i > 2 {
      ChildrenCounted(t, i - 1);
    }
  }

  lemma AllUsedStep(t: Table, i: nat)
    requires 2 <= i <= ENTRY_COUNT
    ensures if i == 2 then AllUsed(t, i) else (AllUsed(t, i) <==> AllUsed(t, i - 1) && Used(t[i - 1]))
  {
  }

  ghost predicate NamesBelow(t: Tree, pp: Path, names: set<Key>)
  {
    forall k :: k in names <==> pp + [k] in t
  }

  // The folder at pp has 62 children, as many as a table has slots for.
  ghost predicate Full(t: Tree, pp: Path)
  {
    exists names :: NamesBelow(t, pp, names) && |names| == ENTRY_COUNT - 2
  }

  lemma FullIffNoSlot(fs: Fs, l: Layout, pp: Path, d: nat)
    requires Consistent(fs, l) && Lookup(fs, pp) == Some(Folder(d))
    ensures d < CLUSTER_MAP_SIZE && (Full(View(fs), pp) <==> AllUsed(TableAt(fs, d), ENTRY_COUNT))
  {
    hide Consistent, DecodeTable, View, Lookup, NodeOf, ChildNames, TableOk, AllUsed;
    FoldersAreLive(fs, l, pp);
    LiveTableOk(fs, l, d);
    var names := ChildNames(TableAt(fs, d), ENTRY_COUNT);
    ChildrenCounted(TableAt(fs, d), ENTRY_COUNT);
    forall k: Key
      ensures pp + [k] in View(fs) <==> k in names
    {
      ListingIsFaithful(fs, l, d, pp, k);
    }
    assert NamesBelow(View(fs), pp, names);
    if Full(View(fs), pp) {
      var full :| NamesBelow(View(fs), pp, full) && |full| == ENTRY_COUNT - 2;
      assert full == names;
    }
  }

  // write succeeds exactly when the name is free, the folder has a slot left and the disk enough free clusters.
  lemma WriteOutcome(m: State, l: Layout, r: Request, pp: Path)
    requires At(m, l, r, pp)
    ensures var tree := View(Image(m.disk.volume));
            WriteCode(m, r) ==
              if pp + [RequestKey(r)] in tree || OwnName(pp, RequestKey(r)) then 1
              else if Full(tree, pp) || |FreeClusters(m.fat)| < Needed(r) then -1
              else 0
  {
    hide Consistent, DecodeTable, DecodeFat, Signed, View, Lookup, NodeOf, Full, OwnName;
    LookupFindsChild(m, l, r, pp);
    ViewIsLookup(Image(m.disk.volume), pp + [RequestKey(r)]);
    LiveTableOk(Image(m.disk.volume), l, r.parent);
    FullIffNoSlot(Image(m.disk.volume), l, pp, r.parent);
    var t := ParentTable(m, r);
    var s := FirstUnused(t, 1);
    assert Used(t[1]);
    assert s < ENTRY_COUNT ==> 2 <= s && !Used(t[s]);
  }

  // A node of the tree with nothing below it.
  ghost predicate Leaf(t: Tree, x: Path)
  {
    x in t && forall k :: x + [k] !in t
  }

  // delete succeeds exactly on files and empty folders; other names are not found, other folders are kept.
  lemma DeleteOutcome(m: State, l: Layout, r: Request, pp: Path)
    requires At(m, l, r, pp) && !ErasesItself(m, r)
    ensures var tree, x := View(Image(m.disk.volume)), pp + [RequestKey(r)];
            DeleteCode(m, r) ==
              if Leaf(tree, x) then 0 else if x in tree || OwnName(pp, RequestKey(r)) then 2 else 1
  {
    hide Consistent, DecodeTable, DecodeFat, Signed, View, Lookup, NodeOf, TableOk, TableEmpty, OwnName;
    LookupFindsChild(m, l, r, pp);
    ViewIsLookup(Image(m.disk.volume), pp + [RequestKey(r)]);
    ErasesItselfIff(m, l, r);
    if Found(m, r) < ENTRY_COUNT {
      FoundSlot(m, l, r);
    }
    if DeleteCode(m, r) == 0 {
      forall k
        ensures pp + [RequestKey(r)] + [k] !in View(Image(m.disk.volume))
      {
        NothingBelow(m, l, r, pp, k);
      }
    } else if 2 <= Found(m, r) < ENTRY_COUNT {
      var k := KeptFolderHasChild(m, l, r, pp);
    }
  }

  lemma KeptFolderHasChild(m: State, l: Layout, r: Request, pp: Path) returns (k: Key)
    requires At(m, l, r, pp) && 2 <= Found(m, r) < ENTRY_COUNT && DeleteCode(m, r) != 0
    ensures pp + [RequestKey(r)] + [k] in View(Image(m.disk.volume))
  {
    hide Consistent, DecodeTable, DecodeFat, Signed, View, Lookup, TableOk;
    FoundSlot(m, l, r);
    LookupFindsChild(m, l, r, pp);
    var fs, x := Image(m.disk.volume), pp + [RequestKey(r)];
    var d := FirstCluster(Victim(m, r));
    var s :| 2 <= s < ENTRY_COUNT && Used(TableAt(fs, d)[s]);
    k := KeyOf(TableAt(fs, d)[s]);
    ListingIsFaithful(fs, l, d, x, k);
  }
}
