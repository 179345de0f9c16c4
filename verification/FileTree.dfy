/** What an image means: the tree of named files and folders it holds, and the invariant that makes it one. */
module FileTree {
  import opened Machine
  import opened Encoding
  import opened Allocation

  // ---------- directory tables ----------

  datatype Key = Key(name: Name, ext: Ext)

  const ZERO_KEY := Key(Zeros(8), Zeros(3))

  function KeyOf(e: Entry): Key
  {
    Key(e.name, e.ext)
  }

  // The names slot 0 answers to: of the root, and of a folder called name.
  function RootKey(): Key
  {
    Key(RootName(), Zeros(3))
  }

  function FolderKey(name: Name): Key
  {
    Key(NulPadded(name), Zeros(3))
  }

  predicate Used(e: Entry)
  {
    e.userAttribute == UATTR_NOT_EMPTY
  }

  predicate IsFolder(e: Entry)
  {
    e.attribute == ATTR_SUBDIRECTORY
  }

  predicate Names(e: Entry, k: Key, usedOnly: bool)
  {
    KeyOf(e) == k && (usedOnly ==> Used(e))
  }

  // First slot from i on that carries the key; ENTRY_COUNT when there is none.
  function FirstSlot(t: Table, k: Key, usedOnly: bool, i: nat): (r: nat)
    requires i <= ENTRY_COUNT
    ensures i <= r <= ENTRY_COUNT
    ensures forall j :: i <= j < r ==> !Names(t[j], k, usedOnly)
    ensures r < ENTRY_COUNT ==> Names(t[r], k, usedOnly)
    decreases |t| - i
  {
    if i == ENTRY_COUNT || Names(t[i], k, usedOnly) then i else FirstSlot(t, k, usedOnly, i + 1)
  }

  // Slots 0 and 1 describe the folder itself and its parent; the rest name its children.
  ghost predicate TableOk(t: Table)
  {
    && (forall i :: 0 <= i < 2 ==> Used(t[i]) && IsFolder(t[i]))
    && (forall i :: 0 <= i < ENTRY_COUNT && !Used(t[i]) ==> t[i] == ZERO_ENTRY)
    && (forall i :: 2 <= i < ENTRY_COUNT && Used(t[i]) ==> KeyOf(t[i]) != ZERO_KEY)
    && (forall i, j :: 0 <= i < j < ENTRY_COUNT && 2 <= j && Used(t[i]) && Used(t[j]) ==> KeyOf(t[i]) != KeyOf(t[j]))
  }

  predicate TableEmpty(t: Table)
  {
    forall i :: 2 <= i < ENTRY_COUNT ==> !Used(t[i])
  }

  // ---------- the tree an image holds ----------

  datatype Fs = Fs(fat: Fat, volume: Volume)

  datatype Node = Folder(cluster: nat) | File(size: uint32, data: seq<Cluster>)

  type Path = seq<Key>

  function TableAt(fs: Fs, d: nat): Table
    requires d < CLUSTER_MAP_SIZE
  {
    DecodeTable(fs.volume[d])
  }

  function Gather(v: Volume, chain: seq<nat>): (r: seq<Cluster>)
    requires forall c :: c in chain ==> c < CLUSTER_MAP_SIZE
    ensures |r| == |chain|
  {
    seq<Cluster>(|chain|, i requires 0 <= i < |chain| => assert chain[i] in chain; v[chain[i]])
  }

  // The names the folder at pp answers to besides those of its children: its own and its parent's.
  function SelfKey(pp: Path): Key
  {
    if pp == [] then RootKey() else FolderKey(pp[|pp| - 1].name)
  }

  function UpKey(pp: Path): Key
  {
    if pp == [] then RootKey() else SelfKey(pp[..|pp| - 1])
  }

  predicate OwnName(pp: Path, k: Key)
  {
    k == SelfKey(pp) || k == UpKey(pp)
  }

  // The folder or file that the name k means inside the folder at pp.
  function Answering(pp: Path, k: Key): Path
  {
    if k == SelfKey(pp) then pp else if k == UpKey(pp) then pp[..|pp| - 1] else pp + [k]
  }

  function NodeOf(fs: Fs, e: Entry): Node
  {
    if IsFolder(e) then Folder(FirstCluster(e))
    else File(e.filesize, if ChainOk(fs.fat, FirstCluster(e)) then Gather(fs.volume, Chain(fs.fat, FirstCluster(e)))
      else [])
  }

  function NodeAt(fs: Fs, d: nat, k: Key): Option<Node>
  {
    if d >= CLUSTER_MAP_SIZE then None else
      var s := FirstSlot(TableAt(fs, d), k, true, 2);
      if s == ENTRY_COUNT then None else Some(NodeOf(fs, TableAt(fs, d)[s]))
  }

  // Resolve a path from the root folder, looking only at the image.
  function Lookup(fs: Fs, path: Path): Option<Node>
  {
    if path == [] then Some(Folder(ROOT_CLUSTER_NUMBER)) else
      match Lookup(fs, path[..|path| - 1])
      case Some(Folder(d)) => NodeAt(fs, d, path[|path| - 1])
      case _ => None
  }

  type Tree = imap<Path, Node>

  ghost function View(fs: Fs): Tree
  {
    imap p: Path | Lookup(fs, p).Some? :: Lookup(fs, p).value
  }

  lemma SameViewSameLookup(fs: Fs, fs': Fs, p: Path)
    requires View(fs) == View(fs')
    ensures Lookup(fs, p) == Lookup(fs', p)
  {
    assert p in View(fs) <==> p in View(fs');
    if p in View(fs) {
      assert View(fs)[p] == View(fs')[p];
    }
  }

  // ---------- the invariant ----------

  // depth: the live folders and their distance from the root.
  // owner: the folder and slot whose entry each live cluster above the root belongs to.
  datatype Layout = Layout(depth: map<nat, nat>, owner: map<nat, (nat, nat)>)

  ghost predicate DirOk(fs: Fs, l: Layout, d: nat)
    requires d in l.depth
  {
    && ROOT_CLUSTER_NUMBER <= d < CLUSTER_MAP_SIZE && fs.fat[d] == FAT_END_OF_FILE && TableOk(TableAt(fs, d))
    && var t := TableAt(fs, d);
       if d == ROOT_CLUSTER_NUMBER then
         && l.depth[d] == 0 && FirstCluster(t[0]) == 0 && FirstCluster(t[1]) == d
         && KeyOf(t[0]) == RootKey() && KeyOf(t[1]) == RootKey()
       else
         && d in l.owner
         && var (p, s) := l.owner[d];
            && p in l.depth && p < CLUSTER_MAP_SIZE && 2 <= s < ENTRY_COUNT
            && Used(TableAt(fs, p)[s]) && IsFolder(TableAt(fs, p)[s]) && FirstCluster(TableAt(fs, p)[s]) == d
            && FirstCluster(t[0]) == d && FirstCluster(t[1]) == p && l.depth[d] == l.depth[p] + 1
            && KeyOf(t[0]) == FolderKey(TableAt(fs, p)[s].name) && KeyOf(t[1]) == KeyOf(TableAt(fs, p)[0])
  }

  ghost predicate SlotOk(fs: Fs, l: Layout, d: nat, s: nat)
    requires s < ENTRY_COUNT
  {
    && d < CLUSTER_MAP_SIZE
    && var e := TableAt(fs, d)[s];
       Used(e) ==>
         && ChainOk(fs.fat, FirstCluster(e))
         && (forall c :: c in Chain(fs.fat, FirstCluster(e)) ==> c in l.owner && l.owner[c] == (d, s))
         && if IsFolder(e) then FirstCluster(e) in l.depth
            else e.attribute == 0 && |Chain(fs.fat, FirstCluster(e))| == Required(e.filesize)
  }

  ghost predicate OwnerOk(fs: Fs, l: Layout, c: nat)
    requires c in l.owner
  {
    var (d, s) := l.owner[c];
    && FIRST_DATA_CLUSTER <= c < CLUSTER_MAP_SIZE
    && d in l.depth && d < CLUSTER_MAP_SIZE && 2 <= s < ENTRY_COUNT
    && var e := TableAt(fs, d)[s];
       Used(e) && ChainOk(fs.fat, FirstCluster(e)) && c in Chain(fs.fat, FirstCluster(e))
  }

  ghost predicate Reserved(fat: Fat)
  {
    fat[0] == CLUSTER_0_VALUE && fat[1] == CLUSTER_1_VALUE && fat[2] == FAT_END_OF_FILE
  }

  ghost predicate Consistent(fs: Fs, l: Layout)
  {
    && Reserved(fs.fat)
    && ROOT_CLUSTER_NUMBER in l.depth
    && (forall d {:trigger DirOk(fs, l, d)} :: d in l.depth ==> DirOk(fs, l, d))
    && (forall d, s {:trigger SlotOk(fs, l, d, s)} :: d in l.depth && 2 <= s < ENTRY_COUNT ==> SlotOk(fs, l, d, s))
    && (forall c {:trigger OwnerOk(fs, l, c)} :: c in l.owner ==> OwnerOk(fs, l, c))
  }

  // No cluster is occupied without belonging to a live entry.
  ghost predicate NoLeak(fs: Fs, l: Layout)
  {
    forall c :: FIRST_DATA_CLUSTER <= c < CLUSTER_MAP_SIZE && fs.fat[c] != FAT_EMPTY_ENTRY ==> c in l.owner
  }

  // ---------- frame ----------

  // fs' keeps the reserved words, the root table, and the word and bytes of every live cluster.
  ghost predicate KeepsLive(fs: Fs, fs': Fs, l: Layout)
  {
    && Reserved(fs'.fat) && fs'.volume[ROOT_CLUSTER_NUMBER] == fs.volume[ROOT_CLUSTER_NUMBER]
    && forall c :: c in l.owner && c < CLUSTER_MAP_SIZE ==> fs'.fat[c] == fs.fat[c] && fs'.volume[c] == fs.volume[c]
  }

  lemma LiveFolderIsOwned(fs: Fs, l: Layout, d: nat)
    requires Consistent(fs, l) && d in l.depth
    ensures d < CLUSTER_MAP_SIZE && (d == ROOT_CLUSTER_NUMBER || d in l.owner)
  {
    assert DirOk(fs, l, d);
  }

  lemma LiveDirOk(fs: Fs, l: Layout, d: nat)
    requires Consistent(fs, l) && d in l.depth
    ensures DirOk(fs, l, d)
  {
  }

  lemma LiveTableOk(fs: Fs, l: Layout, d: nat)
    requires Consistent(fs, l) && d in l.depth
    ensures ROOT_CLUSTER_NUMBER <= d < CLUSTER_MAP_SIZE && TableOk(TableAt(fs, d))
  {
    assert DirOk(fs, l, d);
  }

  lemma LiveTableKept(fs: Fs, fs': Fs, l: Layout, d: nat)
    requires Consistent(fs, l) && KeepsLive(fs, fs', l) && d in l.depth
    ensures d < CLUSTER_MAP_SIZE && TableAt(fs', d) == TableAt(fs, d)
  {
    LiveFolderIsOwned(fs, l, d);
  }

  lemma LiveChainKept(fs: Fs, fs': Fs, l: Layout, d: nat, s: nat)
    requires Consistent(fs, l) && KeepsLive(fs, fs', l) && d in l.depth && 2 <= s < ENTRY_COUNT && d < CLUSTER_MAP_SIZE
    requires Used(TableAt(fs, d)[s])
    ensures var c := FirstCluster(TableAt(fs, d)[s]);
            ChainOk(fs.fat, c) && ChainOk(fs'.fat, c) && Chain(fs'.fat, c) == Chain(fs.fat, c)
            && Gather(fs'.volume, Chain(fs.fat, c)) == Gather(fs.volume, Chain(fs.fat, c))
  {
    assert SlotOk(fs, l, d, s);
    var c := FirstCluster(TableAt(fs, d)[s]);
    ChainFrame(fs.fat, fs'.fat, c);
    var chain := Chain(fs.fat, c);
    forall i | 0 <= i < |chain|
      ensures chain[i] < CLUSTER_MAP_SIZE && fs'.volume[chain[i]] == fs.volume[chain[i]]
    {
      assert chain[i] in chain;
    }
  }

  lemma ConsistentFrame(fs: Fs, fs': Fs, l: Layout)
    requires Consistent(fs, l) && KeepsLive(fs, fs', l)
    ensures Consistent(fs', l)
  {
    hide TableOk, DecodeTable, ChainOk, Chain, Gather;
    forall d | d in l.depth
      ensures DirOk(fs', l, d)
    {
      assert DirOk(fs, l, d);
      LiveTableKept(fs, fs', l, d);
      if d != ROOT_CLUSTER_NUMBER {
        LiveTableKept(fs, fs', l, l.owner[d].0);
      }
    }
    forall d, s | d in l.depth && 2 <= s < ENTRY_COUNT
      ensures SlotOk(fs', l, d, s)
    {
      assert SlotOk(fs, l, d, s);
      LiveTableKept(fs, fs', l, d);
      if Used(TableAt(fs, d)[s]) {
        LiveChainKept(fs, fs', l, d, s);
      }
    }
    forall c | c in l.owner
      ensures OwnerOk(fs', l, c)
    {
      assert OwnerOk(fs, l, c);
      var (d, s) := l.owner[c];
      LiveTableKept(fs, fs', l, d);
      LiveChainKept(fs, fs', l, d, s);
    }
  }

  lemma NodeFrame(fs: Fs, fs': Fs, l: Layout, d: nat, k: Key)
    requires Consistent(fs, l) && KeepsLive(fs, fs', l) && d in l.depth
    ensures NodeAt(fs', d, k) == NodeAt(fs, d, k)
  {
    hide TableOk, DecodeTable, ChainOk, Chain, Gather;
    LiveTableKept(fs, fs', l, d);
    var s := FirstSlot(TableAt(fs, d), k, true, 2);
    if s < ENTRY_COUNT {
      LiveChainKept(fs, fs', l, d, s);
    }
  }

  // A path that resolves to a folder resolves to a live one, at the depth of the path.
  lemma {:induction false} FoldersAreLive(fs: Fs, l: Layout, path: Path)
    requires Consistent(fs, l)
    ensures match Lookup(fs, path) case Some(Folder(d)) => d in l.depth && l.depth[d] == |path| case _ => true
  {
    hide TableOk, DecodeTable, ChainOk, Chain, Gather;
    if path == [] {
      assert DirOk(fs, l, ROOT_CLUSTER_NUMBER);
    } else {
      var k := path[|path| - 1];
      FoldersAreLive(fs, l, path[..|path| - 1]);
      match Lookup(fs, path[..|path| - 1])
      case Some(Folder(p)) => ChildIsLive(fs, l, p, k);
      case _ =>
    }
  }

  lemma ChildIsLive(fs: Fs, l: Layout, p: nat, k: Key)
    requires Consistent(fs, l) && p in l.depth
    ensures match NodeAt(fs, p, k)
            case Some(Folder(d)) => d in l.depth && d in l.owner && d != ROOT_CLUSTER_NUMBER
              && l.depth[d] == l.depth[p] + 1
              && p < CLUSTER_MAP_SIZE && l.owner[d] == (p, FirstSlot(TableAt(fs, p), k, true, 2))
            case _ => true
  {
    hide TableOk, DecodeTable, Gather;
    LiveFolderIsOwned(fs, l, p);
    var s := FirstSlot(TableAt(fs, p), k, true, 2);
    if s < ENTRY_COUNT && IsFolder(TableAt(fs, p)[s]) {
      assert SlotOk(fs, l, p, s);
      var d := FirstCluster(TableAt(fs, p)[s]);
      assert d in Chain(fs.fat, d);
      assert DirOk(fs, l, d);
    }
  }

  lemma {:induction false} LookupFrame(fs: Fs, fs': Fs, l: Layout, path: Path)
    requires Consistent(fs, l) && KeepsLive(fs, fs', l)
    ensures Lookup(fs', path) == Lookup(fs, path)
  {
    hide Consistent, KeepsLive, NodeAt;
    if path != [] {
      var front := path[..|path| - 1];
      LookupFrame(fs, fs', l, front);
      FoldersAreLive(fs, l, front);
      match Lookup(fs, front)
      case Some(Folder(d)) => NodeFrame(fs, fs', l, d, path[|path| - 1]);
      case _ =>
    }
  }

  // Whatever happens to clusters that belong to no live entry, the tree stays as it is.
  lemma Frame(fs: Fs, fs': Fs, l: Layout)
    requires Consistent(fs, l) && KeepsLive(fs, fs', l)
    ensures Consistent(fs', l) && View(fs') == View(fs)
  {
    ConsistentFrame(fs, fs', l);
    forall p: Path
      ensures Lookup(fs', p) == Lookup(fs, p)
    {
      LookupFrame(fs, fs', l, p);
    }
  }

  // ---------- paths and folders ----------

  lemma UsedSlotIsFirst(t: Table, s: nat)
    requires TableOk(t) && 2 <= s < ENTRY_COUNT && Used(t[s])
    ensures FirstSlot(t, KeyOf(t[s]), true, 2) == s
    ensures FirstSlot(t, KeyOf(t[s]), false, 0) == s
  {
    var r := FirstSlot(t, KeyOf(t[s]), false, 0);
    assert Used(t[r]);
  }

  // A live folder is reached by exactly one path.
  lemma {:induction false} PathIsUnique(fs: Fs, l: Layout, p: Path, q: Path, d: nat)
    requires Consistent(fs, l) && Lookup(fs, p) == Some(Folder(d)) && Lookup(fs, q) == Some(Folder(d))
    ensures p == q
    decreases |p|
  {
    hide TableOk, DecodeTable, NodeAt;
    FoldersAreLive(fs, l, p);
    FoldersAreLive(fs, l, q);
    if p != [] {
      var n := |p| - 1;
      var a, b := Lookup(fs, p[..n]).value.cluster, Lookup(fs, q[..n]).value.cluster;
      FoldersAreLive(fs, l, p[..n]);
      FoldersAreLive(fs, l, q[..n]);
      ChildIsLive(fs, l, a, p[n]);
      ChildIsLive(fs, l, b, q[n]);
      NamesTheSlot(fs, a, p[n]);
      NamesTheSlot(fs, b, q[n]);
      PathIsUnique(fs, l, p[..n], q[..n], a);
      assert p == p[..n] + [p[n]] && q == q[..n] + [q[n]];
    }
  }

  lemma NamesTheSlot(fs: Fs, d: nat, k: Key)
    requires NodeAt(fs, d, k) != None
    ensures var s := FirstSlot(TableAt(fs, d), k, true, 2); s < ENTRY_COUNT && KeyOf(TableAt(fs, d)[s]) == k
  {
  }

  // What slots 0 and 1 hold, in terms of the path to the folder.
  lemma {:induction false} OwnSlotsOfPath(fs: Fs, l: Layout, pp: Path, d: nat)
    requires Consistent(fs, l) && Lookup(fs, pp) == Some(Folder(d))
    ensures d in l.depth && d < CLUSTER_MAP_SIZE
    ensures var t := TableAt(fs, d);
            && KeyOf(t[0]) == SelfKey(pp) && KeyOf(t[1]) == UpKey(pp)
            && (pp == [] ==> d == ROOT_CLUSTER_NUMBER && FirstCluster(t[0]) == 0)
            && (pp != [] ==> d != ROOT_CLUSTER_NUMBER && FirstCluster(t[0]) == d
                             && Lookup(fs, pp[..|pp| - 1]) == Some(Folder(FirstCluster(t[1]))))
    decreases |pp|
  {
    hide TableOk, DecodeTable, NodeAt, RootKey, FolderKey;
    FoldersAreLive(fs, l, pp);
    LiveDirOk(fs, l, d);
    if pp != [] {
      var front, k := pp[..|pp| - 1], pp[|pp| - 1];
      var a := Lookup(fs, front).value.cluster;
      FoldersAreLive(fs, l, front);
      OwnSlotsOfPath(fs, l, front, a);
      ChildIsLive(fs, l, a, k);
      NamesTheSlot(fs, a, k);
    }
  }

  lemma {:induction false} PathTo(fs: Fs, l: Layout, d: nat) returns (path: Path)
    requires Consistent(fs, l) && d in l.depth
    ensures Lookup(fs, path) == Some(Folder(d))
    decreases l.depth[d]
  {
    hide DecodeTable;
    assert DirOk(fs, l, d);
    if d == ROOT_CLUSTER_NUMBER {
      path := [];
    } else {
      var (p, s) := l.owner[d];
      assert DirOk(fs, l, p);
      var front := PathTo(fs, l, p);
      UsedSlotIsFirst(TableAt(fs, p), s);
      path := front + [KeyOf(TableAt(fs, p)[s])];
      assert path[..|path| - 1] == front;
    }
  }

  // The live folders are exactly the ones some path leads to.
  lemma LiveIffReachable(fs: Fs, l: Layout, d: nat)
    requires Consistent(fs, l)
    ensures d in l.depth <==> exists p: Path :: Lookup(fs, p) == Some(Folder(d))
  {
    if d in l.depth {
      var p := PathTo(fs, l, d);
    } else {
      forall p: Path
        ensures Lookup(fs, p) != Some(Folder(d))
      {
        FoldersAreLive(fs, l, p);
      }
    }
  }

  // Follow slot 1 (the parent entry) n times.
  ghost function Ascend(fs: Fs, d: nat, n: nat): nat
    decreases n
  {
    if n == 0 || d >= CLUSTER_MAP_SIZE then d else Ascend(fs, FirstCluster(TableAt(fs, d)[1]), n - 1)
  }

  // Parent entries lead from every live folder to the root, one level a step.
  lemma {:induction false} ParentsLeadToRoot(fs: Fs, l: Layout, d: nat)
    requires Consistent(fs, l) && d in l.depth
    ensures Ascend(fs, d, l.depth[d]) == ROOT_CLUSTER_NUMBER
    decreases l.depth[d]
  {
    hide TableOk, DecodeTable;
    assert DirOk(fs, l, d);
    if d != ROOT_CLUSTER_NUMBER {
      ParentsLeadToRoot(fs, l, l.owner[d].0);
    }
  }

  // ---------- one entry more or less ----------

  // fs1 is fs0 with entry e stored in the unused slot s of folder p.
  ghost predicate Extends(fs0: Fs, fs1: Fs, p: nat, s: nat, e: Entry)
  {
    && ROOT_CLUSTER_NUMBER <= p < CLUSTER_MAP_SIZE && 2 <= s < ENTRY_COUNT
    && fs1.fat == fs0.fat && |fs1.volume| == |fs0.volume|
    && (forall c :: 0 <= c < CLUSTER_MAP_SIZE && c != p ==> fs1.volume[c] == fs0.volume[c])
    && TableAt(fs0, p)[s] == ZERO_ENTRY && Used(e) && TableAt(fs1, p) == TableAt(fs0, p)[s := e]
  }

  lemma FolderOwnsNoPartOfItself(fs: Fs, l: Layout, p: nat, d: nat, s: nat)
    requires Consistent(fs, l) && p in l.depth && d in l.depth && d < CLUSTER_MAP_SIZE && 2 <= s < ENTRY_COUNT
    requires Used(TableAt(fs, d)[s]) && (IsFolder(TableAt(fs, d)[s]) ==> d == p)
    ensures ChainOk(fs.fat, FirstCluster(TableAt(fs, d)[s])) && p !in Chain(fs.fat, FirstCluster(TableAt(fs, d)[s]))
  {
    hide TableOk, DecodeTable, ChainOk, Chain;
    assert SlotOk(fs, l, d, s);
    assert DirOk(fs, l, p);
    if p in l.owner {
      assert OwnerOk(fs, l, p);
    }
  }

  lemma NodeUnaffected(fs0: Fs, l0: Layout, fs1: Fs, p: nat, s: nat, e: Entry, d: nat, i: nat)
    requires Consistent(fs0, l0) && Extends(fs0, fs1, p, s, e) && p in l0.depth
    requires d in l0.depth && d < CLUSTER_MAP_SIZE && 2 <= i < ENTRY_COUNT && Used(TableAt(fs0, d)[i])
    ensures NodeOf(fs1, TableAt(fs0, d)[i]) == NodeOf(fs0, TableAt(fs0, d)[i])
  {
    hide TableOk, DecodeTable, ChainOk, Chain;
    var f := TableAt(fs0, d)[i];
    if !IsFolder(f) {
      FolderOwnsNoPartOfItself(fs0, l0, p, d, i);
      var chain := Chain(fs0.fat, FirstCluster(f));
      forall j | 0 <= j < |chain|
        ensures chain[j] < CLUSTER_MAP_SIZE && fs1.volume[chain[j]] == fs0.volume[chain[j]]
      {
        assert chain[j] in chain;
      }
    }
  }

  lemma NameIsNew(t: Table, s: nat, e: Entry)
    requires 2 <= s < ENTRY_COUNT && !Used(t[s]) && Used(e) && TableOk(t[s := e])
    ensures forall j :: 2 <= j < ENTRY_COUNT ==> !Names(t[j], KeyOf(e), true)
  {
    forall j | 2 <= j < ENTRY_COUNT
      ensures !Names(t[j], KeyOf(e), true)
    {
      assert j == s || t[s := e][j] == t[j];
      assert t[s := e][s] == e;
    }
  }

  lemma FirstSlotAfterStore(t: Table, s: nat, e: Entry, k: Key)
    requires 2 <= s < ENTRY_COUNT && !Used(t[s]) && Used(e) && TableOk(t[s := e])
    ensures FirstSlot(t, KeyOf(e), true, 2) == ENTRY_COUNT
    ensures FirstSlot(t[s := e], k, true, 2) == if k == KeyOf(e) then s else FirstSlot(t, k, true, 2)
  {
    var t' := t[s := e];
    UsedSlotIsFirst(t', s);
    NameIsNew(t, s, e);
    hide TableOk;
    var r, r' := FirstSlot(t, k, true, 2), FirstSlot(t', k, true, 2);
    if k != KeyOf(e) {
      assert r < ENTRY_COUNT ==> Names(t'[r], k, true);
      assert r' < ENTRY_COUNT ==> Names(t[r'], k, true);
    }
  }

  lemma UsedAtSlot(t: Table, k: Key)
    ensures var i := FirstSlot(t, k, true, 2); i < ENTRY_COUNT ==> Used(t[i])
  {
  }

  lemma StoredNodeElsewhere(fs0: Fs, l0: Layout, fs1: Fs, p: nat, s: nat, e: Entry, d: nat, k: Key)
    requires Consistent(fs0, l0) && Extends(fs0, fs1, p, s, e) && p in l0.depth && d in l0.depth && d != p
    ensures NodeAt(fs1, d, k) == NodeAt(fs0, d, k)
  {
    hide DecodeTable, ChainOk, Chain, NodeOf, TableOk, Names, Consistent;
    LiveFolderIsOwned(fs0, l0, d);
    UsedAtSlot(TableAt(fs0, d), k);
    var i := FirstSlot(TableAt(fs0, d), k, true, 2);
    if i < ENTRY_COUNT {
      NodeUnaffected(fs0, l0, fs1, p, s, e, d, i);
    }
  }

  lemma StoredNodeHere(fs0: Fs, l0: Layout, fs1: Fs, p: nat, s: nat, e: Entry, k: Key)
    requires Consistent(fs0, l0) && Extends(fs0, fs1, p, s, e) && p in l0.depth && TableOk(TableAt(fs1, p))
    ensures NodeAt(fs0, p, KeyOf(e)) == None
    ensures NodeAt(fs1, p, k) == if k == KeyOf(e) then Some(NodeOf(fs1, e)) else NodeAt(fs0, p, k)
  {
    hide DecodeTable, ChainOk, Chain, NodeOf, TableOk, Names, Consistent;
    FirstSlotAfterStore(TableAt(fs0, p), s, e, k);
    UsedAtSlot(TableAt(fs0, p), k);
    var i := FirstSlot(TableAt(fs0, p), k, true, 2);
    if i < ENTRY_COUNT {
      NodeUnaffected(fs0, l0, fs1, p, s, e, p, i);
    }
  }

  lemma StoredNode(fs0: Fs, l0: Layout, fs1: Fs, l1: Layout, p: nat, s: nat, e: Entry, d: nat, k: Key)
    requires Consistent(fs0, l0) && Consistent(fs1, l1) && Extends(fs0, fs1, p, s, e) && p in l0.depth && p in l1.depth
    requires d in l0.depth
    ensures NodeAt(fs0, p, KeyOf(e)) == None
    ensures NodeAt(fs1, d, k) == if d == p && k == KeyOf(e) then Some(NodeOf(fs1, e)) else NodeAt(fs0, d, k)
  {
    hide DecodeTable, NodeAt, NodeOf, TableOk, Names, Consistent, Extends;
    LiveTableOk(fs1, l1, p);
    StoredNodeHere(fs0, l0, fs1, p, s, e, k);
    if d != p {
      StoredNodeElsewhere(fs0, l0, fs1, p, s, e, d, k);
    }
  }

  lemma {:induction false} ExtendedLookup(fs0: Fs, l0: Layout, fs1: Fs, l1: Layout, p: nat, s: nat, e: Entry,
      pp: Path, q: Path)
    requires Consistent(fs0, l0) && Consistent(fs1, l1) && Extends(fs0, fs1, p, s, e) && p in l1.depth
    requires Lookup(fs0, pp) == Some(Folder(p))
    requires IsFolder(e) ==> FirstCluster(e) < CLUSTER_MAP_SIZE && TableEmpty(TableAt(fs1, FirstCluster(e)))
    ensures Lookup(fs0, pp + [KeyOf(e)]) == None
    ensures Lookup(fs1, q) == if q == pp + [KeyOf(e)] then Some(NodeOf(fs1, e)) else Lookup(fs0, q)
    decreases |q|
  {
    hide Consistent, Extends, NodeAt, DecodeTable;
    var key, added := KeyOf(e), pp + [KeyOf(e)];
    FoldersAreLive(fs0, l0, pp);
    StoredNode(fs0, l0, fs1, l1, p, s, e, p, key);
    assert added[..|added| - 1] == pp;
    if q != [] {
      var front, k := q[..|q| - 1], q[|q| - 1];
      assert q == front + [k];
      ExtendedLookup(fs0, l0, fs1, l1, p, s, e, pp, front);
      if front == added {
        if IsFolder(e) {
          EmptyHasNoNode(fs1, FirstCluster(e), k);
        }
      } else {
        FoldersAreLive(fs0, l0, front);
        match Lookup(fs0, front)
        case Some(Folder(d)) =>
          StoredNode(fs0, l0, fs1, l1, p, s, e, d, k);
          if d == p {
            PathIsUnique(fs0, l0, front, pp, p);
          }
        case _ =>
      }
    }
  }

  lemma EmptyHasNoNode(fs: Fs, d: nat, k: Key)
    requires d < CLUSTER_MAP_SIZE && TableEmpty(TableAt(fs, d))
    ensures NodeAt(fs, d, k) == None
  {
  }

  // Storing an entry adds the one path it names to the tree; that path was absent before.
  lemma ExtendedView(fs0: Fs, l0: Layout, fs1: Fs, l1: Layout, p: nat, s: nat, e: Entry, pp: Path)
    requires Consistent(fs0, l0) && Consistent(fs1, l1) && Extends(fs0, fs1, p, s, e) && p in l1.depth
    requires Lookup(fs0, pp) == Some(Folder(p))
    requires IsFolder(e) ==> FirstCluster(e) < CLUSTER_MAP_SIZE && TableEmpty(TableAt(fs1, FirstCluster(e)))
    ensures pp + [KeyOf(e)] !in View(fs0)
    ensures View(fs1) == View(fs0)[pp + [KeyOf(e)] := NodeOf(fs1, e)]
  {
    hide Lookup, Consistent, Extends, TableEmpty, NodeOf;
    forall q: Path
      ensures Lookup(fs0, pp + [KeyOf(e)]) == None
      ensures Lookup(fs1, q) == if q == pp + [KeyOf(e)] then Some(NodeOf(fs1, e)) else Lookup(fs0, q)
    {
      ExtendedLookup(fs0, l0, fs1, l1, p, s, e, pp, q);
    }
  }

  function AddTo(l: Layout, p: nat, s: nat, e: Entry, chain: seq<nat>): Layout
    requires p in l.depth
  {
    Layout(if IsFolder(e) then l.depth[FirstCluster(e) := l.depth[p] + 1] else l.depth,
           l.owner + map c | c in chain :: (p, s))
  }

  function RemoveFrom(l: Layout, e: Entry, chain: seq<nat>): Layout
  {
    Layout(if IsFolder(e) then l.depth - {FirstCluster(e)} else l.depth, l.owner - set c | c in chain)
  }

  // What a new entry must satisfy: an unclaimed chain of the right length, or a fresh empty folder.
  ghost predicate EntryFits(fs: Fs, l: Layout, p: nat, e: Entry)
  {
    var c := FirstCluster(e);
    && KeyOf(e) != ZERO_KEY
    && ChainOk(fs.fat, c) && (forall x :: x in Chain(fs.fat, c) ==> x !in l.owner)
    && if IsFolder(e) then
         fs.fat[c] == FAT_END_OF_FILE && TableOk(TableAt(fs, c)) && TableEmpty(TableAt(fs, c))
         && FirstCluster(TableAt(fs, c)[0]) == c && FirstCluster(TableAt(fs, c)[1]) == p
         && KeyOf(TableAt(fs, c)[0]) == FolderKey(e.name)
         && p < CLUSTER_MAP_SIZE && KeyOf(TableAt(fs, c)[1]) == KeyOf(TableAt(fs, p)[0])
       else
         e.attribute == 0 && |Chain(fs.fat, c)| == Required(e.filesize)
  }

  lemma TableAfterStore(t: Table, s: nat, e: Entry)
    requires TableOk(t) && 2 <= s < ENTRY_COUNT && !Used(t[s]) && Used(e) && KeyOf(e) != ZERO_KEY
    requires forall i :: 0 <= i < ENTRY_COUNT && Used(t[i]) ==> KeyOf(t[i]) != KeyOf(e)
    ensures TableOk(t[s := e])
  {
  }

  lemma TableAfterErase(t: Table, s: nat)
    requires TableOk(t) && 2 <= s < ENTRY_COUNT
    ensures TableOk(t[s := ZERO_ENTRY])
  {
  }

  ghost predicate CanAdd(fs0: Fs, l0: Layout, fs1: Fs, p: nat, s: nat, e: Entry)
  {
    && Consistent(fs0, l0) && p in l0.depth && Extends(fs0, fs1, p, s, e) && EntryFits(fs0, l0, p, e)
    && (forall i :: 0 <= i < ENTRY_COUNT && Used(TableAt(fs0, p)[i]) ==> KeyOf(TableAt(fs0, p)[i]) != KeyOf(e))
  }

  lemma NewClusterIsNoFolder(fs0: Fs, l0: Layout, fs1: Fs, p: nat, s: nat, e: Entry)
    requires CanAdd(fs0, l0, fs1, p, s, e)
    ensures FirstCluster(e) !in l0.depth && FirstCluster(e) in Chain(fs0.fat, FirstCluster(e))
  {
    hide DecodeTable, TableOk;
    FirstIsInChain(fs0.fat, FirstCluster(e));
    if FirstCluster(e) in l0.depth {
      LiveFolderIsOwned(fs0, l0, FirstCluster(e));
    }
  }

  lemma AddKeepsOldDir(fs0: Fs, l0: Layout, fs1: Fs, p: nat, s: nat, e: Entry, d: nat)
    requires CanAdd(fs0, l0, fs1, p, s, e) && d in l0.depth
    ensures DirOk(fs1, AddTo(l0, p, s, e, Chain(fs0.fat, FirstCluster(e))), d)
  {
    hide DecodeTable, TableOk, Chain, ChainOk, Consistent, TableEmpty;
    NewClusterIsNoFolder(fs0, l0, fs1, p, s, e);
    LiveDirOk(fs0, l0, d);
    LiveTableOk(fs0, l0, p);
    TableAfterStore(TableAt(fs0, p), s, e);
  }

  lemma AddKeepsNewDir(fs0: Fs, l0: Layout, fs1: Fs, p: nat, s: nat, e: Entry)
    requires CanAdd(fs0, l0, fs1, p, s, e) && IsFolder(e)
    ensures DirOk(fs1, AddTo(l0, p, s, e, Chain(fs0.fat, FirstCluster(e))), FirstCluster(e))
  {
    hide DecodeTable, TableOk, Chain, Consistent, TableEmpty;
    NewClusterIsNoFolder(fs0, l0, fs1, p, s, e);
    LiveDirOk(fs0, l0, p);
  }

  lemma AddKeepsDirs(fs0: Fs, l0: Layout, fs1: Fs, p: nat, s: nat, e: Entry, d: nat)
    requires CanAdd(fs0, l0, fs1, p, s, e)
    requires d in AddTo(l0, p, s, e, Chain(fs0.fat, FirstCluster(e))).depth
    ensures DirOk(fs1, AddTo(l0, p, s, e, Chain(fs0.fat, FirstCluster(e))), d)
  {
    if d in l0.depth {
      AddKeepsOldDir(fs0, l0, fs1, p, s, e, d);
    } else {
      AddKeepsNewDir(fs0, l0, fs1, p, s, e);
    }
  }

  lemma AddKeepsSlots(fs0: Fs, l0: Layout, fs1: Fs, p: nat, s: nat, e: Entry, d: nat, i: nat)
    requires CanAdd(fs0, l0, fs1, p, s, e) && 2 <= i < ENTRY_COUNT
    requires d in AddTo(l0, p, s, e, Chain(fs0.fat, FirstCluster(e))).depth
    ensures SlotOk(fs1, AddTo(l0, p, s, e, Chain(fs0.fat, FirstCluster(e))), d, i)
  {
    hide DecodeTable, TableOk;
    var c := FirstCluster(e);
    assert c in Chain(fs0.fat, c);
    if d in l0.depth {
      assert SlotOk(fs0, l0, d, i);
    } else {
      assert d == c && d != p;
    }
  }

  lemma AddKeepsOwners(fs0: Fs, l0: Layout, fs1: Fs, p: nat, s: nat, e: Entry, c: nat)
    requires CanAdd(fs0, l0, fs1, p, s, e)
    requires c in AddTo(l0, p, s, e, Chain(fs0.fat, FirstCluster(e))).owner
    ensures OwnerOk(fs1, AddTo(l0, p, s, e, Chain(fs0.fat, FirstCluster(e))), c)
  {
    hide DecodeTable, TableOk;
    if c in l0.owner && c !in Chain(fs0.fat, FirstCluster(e)) {
      assert OwnerOk(fs0, l0, c);
    }
  }

  lemma AddEntry(fs0: Fs, l0: Layout, fs1: Fs, p: nat, s: nat, e: Entry)
    requires CanAdd(fs0, l0, fs1, p, s, e)
    ensures Consistent(fs1, AddTo(l0, p, s, e, Chain(fs0.fat, FirstCluster(e))))
  {
    var l1 := AddTo(l0, p, s, e, Chain(fs0.fat, FirstCluster(e)));
    forall d | d in l1.depth
      ensures DirOk(fs1, l1, d)
    {
      AddKeepsDirs(fs0, l0, fs1, p, s, e, d);
    }
    forall d, i | d in l1.depth && 2 <= i < ENTRY_COUNT
      ensures SlotOk(fs1, l1, d, i)
    {
      AddKeepsSlots(fs0, l0, fs1, p, s, e, d, i);
    }
    forall c | c in l1.owner
      ensures OwnerOk(fs1, l1, c)
    {
      AddKeepsOwners(fs0, l0, fs1, p, s, e, c);
    }
  }

  ghost predicate CanRemove(fs1: Fs, l1: Layout, fs0: Fs, p: nat, s: nat, e: Entry)
  {
    && Consistent(fs1, l1) && p in l1.depth && Extends(fs0, fs1, p, s, e) && ChainOk(fs1.fat, FirstCluster(e))
    && (IsFolder(e) ==> TableEmpty(TableAt(fs1, FirstCluster(e))))
  }

  // The removed entry owns exactly its chain, and a removed folder holds nothing.
  lemma RemovedEntry(fs1: Fs, l1: Layout, fs0: Fs, p: nat, s: nat, e: Entry)
    requires CanRemove(fs1, l1, fs0, p, s, e)
    ensures var c := FirstCluster(e);
            && (forall x :: x in Chain(fs1.fat, c) ==> x in l1.owner && l1.owner[x] == (p, s))
            && (forall x :: x in l1.owner && l1.owner[x] == (p, s) ==> x in Chain(fs1.fat, c))
            && (forall d :: d in l1.depth && d in Chain(fs1.fat, c) ==> IsFolder(e) && d == c)
            && (IsFolder(e) ==> c != p)
            && (IsFolder(e) ==> forall x :: x in l1.owner ==> l1.owner[x].0 != c)
  {
    hide DecodeTable, TableOk;
    var c := FirstCluster(e);
    assert TableAt(fs1, p)[s] == e;
    assert SlotOk(fs1, l1, p, s);
    forall x | x in l1.owner
      ensures l1.owner[x] == (p, s) ==> x in Chain(fs1.fat, c)
      ensures IsFolder(e) ==> l1.owner[x].0 != c
    {
      assert OwnerOk(fs1, l1, x);
    }
    forall d | d in l1.depth && d in Chain(fs1.fat, c)
      ensures IsFolder(e) && d == c
    {
      assert DirOk(fs1, l1, d);
    }
    assert DirOk(fs1, l1, p);
    assert c in Chain(fs1.fat, c);
  }

  lemma RemoveKeepsDirs(fs1: Fs, l1: Layout, fs0: Fs, p: nat, s: nat, e: Entry, d: nat)
    requires CanRemove(fs1, l1, fs0, p, s, e)
    requires d in RemoveFrom(l1, e, Chain(fs1.fat, FirstCluster(e))).depth
    ensures DirOk(fs0, RemoveFrom(l1, e, Chain(fs1.fat, FirstCluster(e))), d)
  {
    hide DecodeTable, TableOk, ChainOk, Chain, TableEmpty, Consistent;
    RemovedEntry(fs1, l1, fs0, p, s, e);
    LiveDirOk(fs1, l1, p);
    LiveDirOk(fs1, l1, d);
    TableAfterErase(TableAt(fs1, p), s);
    assert TableAt(fs0, p) == TableAt(fs1, p)[s := ZERO_ENTRY];
  }

  lemma RemoveKeepsSlots(fs1: Fs, l1: Layout, fs0: Fs, p: nat, s: nat, e: Entry, d: nat, i: nat)
    requires CanRemove(fs1, l1, fs0, p, s, e) && 2 <= i < ENTRY_COUNT
    requires d in RemoveFrom(l1, e, Chain(fs1.fat, FirstCluster(e))).depth
    ensures SlotOk(fs0, RemoveFrom(l1, e, Chain(fs1.fat, FirstCluster(e))), d, i)
  {
    RemovedEntry(fs1, l1, fs0, p, s, e);
    hide DecodeTable, TableOk, ChainOk, Chain;
    assert SlotOk(fs1, l1, d, i);
    assert TableAt(fs0, p) == TableAt(fs1, p)[s := ZERO_ENTRY];
    if Used(TableAt(fs0, d)[i]) {
      assert (d, i) != (p, s) && TableAt(fs0, d)[i] == TableAt(fs1, d)[i];
      var c := FirstCluster(TableAt(fs1, d)[i]);
      FirstIsInChain(fs1.fat, c);
      FirstIsInChain(fs1.fat, FirstCluster(e));
      forall x | x in Chain(fs0.fat, c)
        ensures x !in Chain(fs1.fat, FirstCluster(e))
      {
        assert l1.owner[x] == (d, i);
      }
    }
  }

  lemma FirstIsInChain(fat: Fat, c: nat)
    requires ChainOk(fat, c)
    ensures c in Chain(fat, c)
  {
  }

  lemma RemoveKeepsOwners(fs1: Fs, l1: Layout, fs0: Fs, p: nat, s: nat, e: Entry, c: nat)
    requires CanRemove(fs1, l1, fs0, p, s, e)
    requires c in RemoveFrom(l1, e, Chain(fs1.fat, FirstCluster(e))).owner
    ensures OwnerOk(fs0, RemoveFrom(l1, e, Chain(fs1.fat, FirstCluster(e))), c)
  {
    RemovedEntry(fs1, l1, fs0, p, s, e);
    hide DecodeTable, TableOk, ChainOk, Chain;
    assert OwnerOk(fs1, l1, c);
    assert TableAt(fs0, p) == TableAt(fs1, p)[s := ZERO_ENTRY];
  }

  lemma RemoveEntry(fs1: Fs, l1: Layout, fs0: Fs, p: nat, s: nat, e: Entry)
    requires CanRemove(fs1, l1, fs0, p, s, e)
    ensures Consistent(fs0, RemoveFrom(l1, e, Chain(fs1.fat, FirstCluster(e))))
    ensures p in RemoveFrom(l1, e, Chain(fs1.fat, FirstCluster(e))).depth
  {
    hide DecodeTable, TableOk, ChainOk, Chain, SlotOk, OwnerOk, DirOk;
    var l0 := RemoveFrom(l1, e, Chain(fs1.fat, FirstCluster(e)));
    RemovedEntry(fs1, l1, fs0, p, s, e);
    RootIsNeverOwned(fs1, l1, FirstCluster(e));
    forall d | d in l0.depth
      ensures DirOk(fs0, l0, d)
    {
      RemoveKeepsDirs(fs1, l1, fs0, p, s, e, d);
    }
    forall d, i | d in l0.depth && 2 <= i < ENTRY_COUNT
      ensures SlotOk(fs0, l0, d, i)
    {
      RemoveKeepsSlots(fs1, l1, fs0, p, s, e, d, i);
    }
    forall x | x in l0.owner
      ensures OwnerOk(fs0, l0, x)
    {
      RemoveKeepsOwners(fs1, l1, fs0, p, s, e, x);
    }
  }

  lemma RootIsNeverOwned(fs: Fs, l: Layout, c: nat)
    requires Consistent(fs, l) && ChainOk(fs.fat, c)
    ensures c != ROOT_CLUSTER_NUMBER && ROOT_CLUSTER_NUMBER !in l.owner
  {
    assert ROOT_CLUSTER_NUMBER in l.owner ==> OwnerOk(fs, l, ROOT_CLUSTER_NUMBER);
  }
}
