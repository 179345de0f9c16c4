/** Whole runs of calls, remounts and power losses: the driver performs the calls of the tree machine. */
module Runs {
  import opened Machine
  import opened Encoding
  import opened Allocation
  import opened FileTree
  import opened Storage
  import opened Operations
  import opened Durability
  import opened Writing
  import opened Deleting
  import opened Reading
  import opened TreeMachine
  import opened Formatting

  // A call runs to its end with an outcome, or the power fails after some of its block writes and the disk is
  // mounted again.
  datatype Event = Done(call: Call, outcome: Outcome) | Cut(call: Call, writes: nat)

  // The parent is a folder of the tree, or a cluster the driver turns down.
  ghost predicate LiveParent(m: State, r: Request)
  {
    && r.parent < CLUSTER_MAP_SIZE && RequestKey(r) != ZERO_KEY
    && (m.fat[r.parent] == FAT_END_OF_FILE ==>
          exists pp: Path :: Lookup(Image(m.disk.volume), pp) == Some(Folder(r.parent)))
  }

  // read_directory does not look at the parent's table word; on other clusters it only has to stay on the disk.
  ghost predicate Allowed(m: State, c: Call)
  {
    match c
    case WriteCall(r, buf) => LiveParent(m, r) && WriteDefined(m, r, buf)
    case DeleteCall(r) => LiveParent(m, r) && !ErasesItself(m, r) && DeleteDefined(m, r)
    case ReadCall(r) => LiveParent(m, r) && ReadDefined(m, r)
    case ReadDirectoryCall(r) => LiveParent(m, r) && ReadDirectoryDefined(m, r)
    case MountCall => true
  }

  ghost function Exec(m: State, c: Call): State
    requires Allowed(m, c)
  {
    match c
    case WriteCall(r, buf) => Write(m, r, buf)
    case DeleteCall(r) => Delete(m, r)
    case ReadCall(_) => m
    case ReadDirectoryCall(_) => m
    case MountCall => Mount(m)
  }

  ghost function OutcomeOf(m: State, c: Call): Outcome
    requires Allowed(m, c)
  {
    match c
    case WriteCall(r, _) => Outcome(WriteCode(m, r), [])
    case DeleteCall(r) => Outcome(DeleteCode(m, r), [])
    case ReadCall(r) => Outcome(ReadCode(m, r), if ReadCode(m, r) == 0 then ReadData(m, r) else [])
    case ReadDirectoryCall(r) =>
      Outcome(ReadDirectoryCode(m, r), if ReadDirectoryCode(m, r) == 0 then [ReadDirectoryData(m, r)] else [])
    case MountCall => Outcome(0, [])
  }

  ghost predicate Uninterrupted(es: seq<Event>)
  {
    forall i :: 0 <= i < |es| ==> es[i].Done?
  }

  ghost predicate Possible(m: State, e: Event)
  {
    && Allowed(m, e.call)
    && match e
       case Done(c, outcome) => outcome == OutcomeOf(m, c)
       case Cut(c, writes) => |m.disk.history| + writes <= |Exec(m, c).disk.history|
  }

  // What is on the disk when the power fails after the given number of block writes.
  ghost function CutDisk(m: State, c: Call, writes: nat): Disk
    requires Allowed(m, c) && |m.disk.history| + writes <= |Exec(m, c).disk.history|
  {
    var history := Exec(m, c).disk.history[..|m.disk.history| + writes];
    Disk(if writes == 0 then m.disk.volume else history[|history| - 1], history)
  }

  ghost function Next(m: State, e: Event): State
  {
    if !Possible(m, e) then m else
      match e
      case Done(c, _) => Exec(m, c)
      case Cut(c, writes) => Mount(State(m.fat, CutDisk(m, c, writes)))
  }

  ghost predicate Runs(m: State, es: seq<Event>)
    decreases |es|
  {
    es == [] || (Possible(m, es[0]) && Runs(Next(m, es[0]), es[1..]))
  }

  ghost function After(m: State, es: seq<Event>): State
    decreases |es|
  {
    if es == [] then m else After(Next(m, es[0]), es[1..])
  }

  ghost function TreeOf(m: State): Tree
  {
    View(Image(m.disk.volume))
  }

  ghost function WorldOf(m: State): World
  {
    World(TreeOf(m), |FreeClusters(m.fat)|)
  }

  // ---------- runs of the tree machine ----------

  // Only a call that was cut may leave the tree as it was instead of performing its step; it may also leave
  // clusters occupied that no longer belong to anything.
  ghost predicate Steps(w: World, e: Event, w': World)
  {
    match e
    case Done(c, outcome) => Performs(w, c, outcome, w')
    case Cut(c, _) => w'.tree == w.tree || exists o, u :: Performs(w, c, o, u) && w'.tree == u.tree
  }

  ghost predicate WorldRun(w: World, es: seq<Event>, w': World)
    decreases |es|
  {
    if es == [] then w' == w else exists u :: Steps(w, es[0], u) && WorldRun(u, es[1..], w')
  }

  // ---------- each call performs its step ----------

  lemma LiveParentPath(m: State, r: Request) returns (pp: Path)
    requires LiveParent(m, r)
    ensures m.fat[r.parent] == FAT_END_OF_FILE ==> Lookup(Image(m.disk.volume), pp) == Some(Folder(r.parent))
  {
    pp := [];
    if m.fat[r.parent] == FAT_END_OF_FILE {
      pp :| Lookup(Image(m.disk.volume), pp) == Some(Folder(r.parent));
    }
  }

  lemma LiveParentIsLive(m: State, l: Layout, r: Request)
    requires Ready(m, l) && LiveParent(m, r)
    ensures Live(m, l, r)
  {
    hide Consistent, DecodeFat, Lookup, Signed;
    var pp := LiveParentPath(m, r);
    FoldersAreLive(Image(m.disk.volume), l, pp);
  }

  lemma FreshFolder(m: State, l: Layout, r: Request, y: Path)
    requires Live(m, l, r) && |FreeClusters(m.fat)| > 0
    ensures y in TreeOf(m) ==> TreeOf(m)[y] != Folder(LowestFree(m.fat, 1)[0])
  {
    hide Consistent, DecodeFat, Lookup, Signed, View;
    var slots := LowestFree(m.fat, 1);
    assert slots[0] in slots && slots[0] in Elements(slots);
    FreeIsUnclaimed(Image(m.disk.volume), l, slots);
    ViewIsLookup(Image(m.disk.volume), y);
    FoldersAreLive(Image(m.disk.volume), l, y);
    if slots[0] in l.depth {
      LiveFolderIsOwned(Image(m.disk.volume), l, slots[0]);
    }
  }

  // The table word of the parent answers whether it is a folder of the tree.
  lemma FolderIffEndOfFile(m: State, l: Layout, r: Request)
    requires Ready(m, l) && LiveParent(m, r)
    ensures InTree(TreeOf(m), r.parent) <==> m.fat[r.parent] == FAT_END_OF_FILE
  {
    hide Consistent, DecodeFat, DecodeTable, Lookup, Signed, View;
    if m.fat[r.parent] == FAT_END_OF_FILE {
      var pp := LiveParentPath(m, r);
      ViewIsLookup(Image(m.disk.volume), pp);
      assert FolderAt(TreeOf(m), pp, r.parent);
    } else if InTree(TreeOf(m), r.parent) {
      var pp :| FolderAt(TreeOf(m), pp, r.parent);
      ViewIsLookup(Image(m.disk.volume), pp);
      FoldersAreLive(Image(m.disk.volume), l, pp);
      LiveDirOk(Image(m.disk.volume), l, r.parent);
    }
  }

  // A request on a live folder performs its step when it does so inside the folder at its path.
  lemma PerformsThere(w: World, pp: Path, c: Call, o: Outcome, w': World)
    requires !c.MountCall? && FolderAt(w.tree, pp, c.r.parent) && PerformsAt(w, pp, c, o, w')
    ensures Performs(w, c, o, w')
  {
    hide PerformsAt, FolderAt;
  }

  lemma ParentAt(m: State, l: Layout, r: Request) returns (pp: Path)
    requires Ready(m, l) && LiveParent(m, r)
    ensures Live(m, l, r)
    ensures if m.fat[r.parent] == FAT_END_OF_FILE then At(m, l, r, pp) && FolderAt(TreeOf(m), pp, r.parent)
            else !InTree(TreeOf(m), r.parent)
  {
    hide Consistent, DecodeFat, DecodeTable, Lookup, Signed, View, InTree;
    LiveParentIsLive(m, l, r);
    FolderIffEndOfFile(m, l, r);
    pp := LiveParentPath(m, r);
    ViewIsLookup(Image(m.disk.volume), pp);
  }

  lemma WritePerforms(m: State, l: Layout, r: Request, buf: seq<byte>)
    requires Ready(m, l) && LiveParent(m, r) && WriteDefined(m, r, buf)
    ensures Performs(WorldOf(m), WriteCall(r, buf), Outcome(WriteCode(m, r), []), WorldOf(Write(m, r, buf)))
  {
    hide Consistent, DecodeFat, DecodeTable, Lookup, Signed, View, Write, FirstUnused, FirstSlot, WritesAt;
    var pp := ParentAt(m, l, r);
    if m.fat[r.parent] == FAT_END_OF_FILE {
      WritesThere(m, l, r, buf, pp);
      PerformsThere(WorldOf(m), pp, WriteCall(r, buf), Outcome(WriteCode(m, r), []), WorldOf(Write(m, r, buf)));
    } else {
      WriteRefines(m, l, r, buf, pp);
    }
  }

  lemma WritesThere(m: State, l: Layout, r: Request, buf: seq<byte>, pp: Path)
    requires At(m, l, r, pp) && WriteDefined(m, r, buf)
    ensures WritesAt(WorldOf(m), pp, r, buf, Outcome(WriteCode(m, r), []), WorldOf(Write(m, r, buf)))
  {
    hide Consistent, DecodeFat, DecodeTable, Lookup, Signed, View, Write, WriteCode, Full, OwnName;
    WriteOutcome(m, l, r, pp);
    WriteRefines(m, l, r, buf, pp);
    if WriteCode(m, r) == 0 {
      WriteTakesLowestFree(m, l, r, buf);
      forall y | y in TreeOf(m) && r.bufferSize == 0
        ensures TreeOf(m)[y] != NewNode(m, r, buf)
      {
        FreshFolder(m, l, r, y);
      }
    }
  }

  lemma DeletePerforms(m: State, l: Layout, r: Request)
    requires Ready(m, l) && LiveParent(m, r) && !ErasesItself(m, r) && DeleteDefined(m, r)
    ensures Performs(WorldOf(m), DeleteCall(r), Outcome(DeleteCode(m, r), []), WorldOf(Delete(m, r)))
  {
    hide Consistent, DecodeFat, DecodeTable, Lookup, Signed, View, Delete, Found, DeletesAt, DeleteDefined,
         ErasesItself, TableEmpty;
    var pp := ParentAt(m, l, r);
    if m.fat[r.parent] == FAT_END_OF_FILE {
      DeletesThere(m, l, r, pp);
      PerformsThere(WorldOf(m), pp, DeleteCall(r), Outcome(DeleteCode(m, r), []), WorldOf(Delete(m, r)));
    } else {
      DeleteRefines(m, l, r, pp);
    }
  }

  lemma DeletesThere(m: State, l: Layout, r: Request, pp: Path)
    requires At(m, l, r, pp) && !ErasesItself(m, r) && DeleteDefined(m, r)
    ensures DeletesAt(WorldOf(m), pp, r, Outcome(DeleteCode(m, r), []), WorldOf(Delete(m, r)))
  {
    hide Consistent, DecodeFat, DecodeTable, Lookup, Signed, View, Delete, DeleteCode, Found, OwnName, DeleteDefined,
         ErasesItself, Unlinked;
    DeleteOutcome(m, l, r, pp);
    DeleteRefines(m, l, r, pp);
    if DeleteCode(m, r) == 0 {
      DeletesChild(m, l, r);
      DeleteFreesChain(m, l, r);
      UnlinkedView(m, l, r, pp);
      DeletedSize(m, l, r);
    }
  }

  lemma DeletedSize(m: State, l: Layout, r: Request)
    requires Deletes(m, l, r) && ChainOk(m.fat, FirstCluster(Victim(m, r)))
    requires IsFolder(Victim(m, r)) ==> |Chain(m.fat, FirstCluster(Victim(m, r)))| == 1
    ensures Size(NodeOf(Image(m.disk.volume), Victim(m, r))) == |Chain(m.fat, FirstCluster(Victim(m, r)))|
  {
    hide Consistent, DecodeFat, DecodeTable, Signed, ChainOk, Chain, DeleteCode;
  }

  lemma ReadPerforms(m: State, l: Layout, r: Request)
    requires Ready(m, l) && LiveParent(m, r) && ReadDefined(m, r)
    ensures Performs(WorldOf(m), ReadCall(r), OutcomeOf(m, ReadCall(r)), WorldOf(m))
  {
    hide Consistent, DecodeFat, DecodeTable, Lookup, Signed, View, Found, Required, OwnName, ReadData;
    var pp := ParentAt(m, l, r);
    if m.fat[r.parent] == FAT_END_OF_FILE {
      ReadIsLookup(m, l, r, pp);
      PerformsThere(WorldOf(m), pp, ReadCall(r), OutcomeOf(m, ReadCall(r)), WorldOf(m));
    }
  }

  lemma ReadDirectoryPerforms(m: State, l: Layout, r: Request)
    requires Ready(m, l) && LiveParent(m, r) && ReadDirectoryDefined(m, r)
    ensures Performs(WorldOf(m), ReadDirectoryCall(r), OutcomeOf(m, ReadDirectoryCall(r)), WorldOf(m))
  {
    hide Consistent, DecodeFat, DecodeTable, Lookup, Signed, View, FirstSlot, Lists, SelfKey, UpKey, Answering,
         ReadDirectoryData, ReadDirectoryCode, ReadDirectoryDefined;
    var pp := ParentAt(m, l, r);
    if m.fat[r.parent] == FAT_END_OF_FILE {
      ReadDirectoryIsLookup(m, l, r, pp);
      if ReadDirectoryCode(m, r) == 0 && !(pp == [] && RequestKey(r) == SelfKey(pp)) {
        TableLists(Image(m.disk.volume), l, Answering(pp, RequestKey(r)), ReadDirectoryData(m, r));
      }
      PerformsThere(WorldOf(m), pp, ReadDirectoryCall(r), OutcomeOf(m, ReadDirectoryCall(r)), WorldOf(m));
    }
  }

  // The table of a folder is a listing of what the tree holds below it.
  lemma TableLists(fs: Fs, l: Layout, pp: Path, data: Cluster)
    requires Consistent(fs, l) && IsTableOf(fs, pp, data)
    ensures Lists(View(fs), pp, data)
  {
    hide Consistent, DecodeTable, Lookup, View, NodeOf, ChildNames;
    var d := Lookup(fs, pp).value.cluster;
    forall k: Key
      ensures pp + [k] in View(fs) <==> k in ChildNames(TableAt(fs, d), ENTRY_COUNT)
    {
      ListingIsFaithful(fs, l, d, pp, k);
    }
    forall s | 2 <= s < ENTRY_COUNT && Used(TableAt(fs, d)[s])
      ensures pp + [KeyOf(TableAt(fs, d)[s])] in View(fs)
      ensures Describes(TableAt(fs, d)[s], View(fs)[pp + [KeyOf(TableAt(fs, d)[s])]])
    {
      ListingIsFaithful(fs, l, d, pp, KeyOf(TableAt(fs, d)[s]));
      NodeIsDescribed(fs, TableAt(fs, d)[s]);
    }
  }

  lemma NodeIsDescribed(fs: Fs, e: Entry)
    ensures Describes(e, NodeOf(fs, e))
  {
  }

  // A call keeps the invariant and performs its step; without leaks before there are none after.
  lemma ExecKeeps(m: State, l: Layout, c: Call) returns (l': Layout)
    requires Ready(m, l) && Allowed(m, c)
    ensures Ready(Exec(m, c), l') && Performs(WorldOf(m), c, OutcomeOf(m, c), WorldOf(Exec(m, c)))
    ensures NoLeak(Image(m.disk.volume), l) ==> NoLeak(Image(Exec(m, c).disk.volume), l')
    ensures |m.disk.history| <= |Exec(m, c).disk.history|
    ensures forall k :: |m.disk.history| <= k < |Exec(m, c).disk.history| ==>
              EitherTree(Exec(m, c).disk.history[k], m.disk.volume, l, Exec(m, c).disk.volume, l')
  {
    hide Consistent, DecodeFat, DecodeTable, Lookup, Signed, View, Delete, Write, DeleteDefined, ErasesItself, NoLeak,
         Performs, EitherTree, WriteLayout, DeleteLayout, ReadDefined, ReadDirectoryDefined;
    match c {
      case WriteCall(r, buf) =>
        LiveParentIsLive(m, l, r);
        l' := WriteLayout(m, l, r);
        WriteKeepsInvariant(m, l, r, buf);
        WritePerforms(m, l, r, buf);
        if NoLeak(Image(m.disk.volume), l) {
          WriteKeepsNoLeak(m, l, r, buf);
        }
        WriteGrowsHistory(m, l, r, buf);
        forall k | |m.disk.history| <= k < |Write(m, r, buf).disk.history|
          ensures EitherTree(Write(m, r, buf).disk.history[k], m.disk.volume, l, Write(m, r, buf).disk.volume, l')
        {
          WriteIsAtomic(m, l, r, buf, k);
        }
      case DeleteCall(r) =>
        LiveParentIsLive(m, l, r);
        DeleteKeepsInvariant(m, l, r);
        l' := DeleteLayout(m, l, r);
        DeletePerforms(m, l, r);
        if NoLeak(Image(m.disk.volume), l) {
          DeleteKeepsNoLeak(m, l, r);
        }
        DeleteGrowsHistory(m, l, r);
        forall k | |m.disk.history| <= k < |Delete(m, r).disk.history|
          ensures EitherTree(Delete(m, r).disk.history[k], m.disk.volume, l, Delete(m, r).disk.volume, l')
        {
          DeleteIsAtomic(m, l, r, k);
        }
      case ReadCall(r) =>
        l' := l;
        ReadPerforms(m, l, r);
      case ReadDirectoryCall(r) =>
        l' := l;
        ReadDirectoryPerforms(m, l, r);
      case MountCall =>
        l' := l;
        RemountIsIdentity(m, l);
        MountPerforms(WorldOf(m));
    }
  }

  lemma MountPerforms(w: World)
    ensures Performs(w, MountCall, Outcome(0, []), w)
  {
  }

  lemma WriteGrowsHistory(m: State, l: Layout, r: Request, buf: seq<byte>)
    requires Live(m, l, r) && WriteDefined(m, r, buf)
    ensures |m.disk.history| <= |Write(m, r, buf).disk.history|
  {
    hide Consistent, DecodeFat, DecodeTable, Signed, View, Prepared, NewEntry, FirstUnused, PutEntry, Outside;
    if WriteCode(m, r) == 0 {
      StagedImage(m, l, r, buf);
      WriteIsStoreEntry(m, l, r, buf);
    }
  }

  lemma DeleteGrowsHistory(m: State, l: Layout, r: Request)
    requires Live(m, l, r) && !ErasesItself(m, r) && DeleteDefined(m, r)
    ensures |m.disk.history| <= |Delete(m, r).disk.history|
  {
    hide Consistent, DecodeFat, DecodeTable, Signed, View, Delete, Outside, Unlinked, PutEntry;
    if DeleteCode(m, r) == 0 {
      DeletesChild(m, l, r);
      Deleted(m, l, r);
      UnlinkedHistory(m, r, |m.disk.history|);
    } else {
      NothingDeleted(m, r);
    }
  }

  lemma NothingDeleted(m: State, r: Request)
    requires DeleteDefined(m, r) && DeleteCode(m, r) != 0
    ensures Delete(m, r) == m
  {
  }

  // An interrupted call leaves a sound disk with the tree from before the call or the one from after it.
  lemma CutKeeps(m: State, l: Layout, c: Call, writes: nat) returns (l': Layout)
    requires Ready(m, l) && Possible(m, Cut(c, writes))
    ensures Ready(Next(m, Cut(c, writes)), l')
    ensures TreeOf(Next(m, Cut(c, writes))) == TreeOf(m) || TreeOf(Next(m, Cut(c, writes))) == TreeOf(Exec(m, c))
  {
    hide Consistent, DecodeFat, DecodeTable, Lookup, Signed, View, Exec, Allowed;
    var l1 := ExecKeeps(m, l, c);
    var d := CutDisk(m, c, writes);
    if writes == 0 {
      l' := l;
    } else {
      var k := |m.disk.history| + writes - 1;
      assert EitherTree(Exec(m, c).disk.history[k], m.disk.volume, l, Exec(m, c).disk.volume, l1);
      l' := if Sound(d.volume, l) && View(Image(d.volume)) == TreeOf(m) then l else l1;
    }
    MountReloads(State(m.fat, d), l');
  }

  lemma EventKeeps(m: State, l: Layout, e: Event) returns (l': Layout)
    requires Ready(m, l) && Possible(m, e)
    ensures Ready(Next(m, e), l') && Steps(WorldOf(m), e, WorldOf(Next(m, e)))
    ensures e.Done? && NoLeak(Image(m.disk.volume), l) ==> NoLeak(Image(Next(m, e).disk.volume), l')
  {
    hide Consistent, DecodeFat, DecodeTable, Lookup, Signed, View, Exec, Allowed, Performs, NoLeak, Sound, Mount,
         CutDisk, OutcomeOf;
    var l1 := ExecKeeps(m, l, e.call);
    match e {
      case Done(_, _) => l' := l1;
      case Cut(c, writes) =>
        l' := CutKeeps(m, l, c, writes);
        assert Performs(WorldOf(m), c, OutcomeOf(m, c), WorldOf(Exec(m, c)));
    }
  }

  // ---------- whole runs ----------

  // Any run, with any number of interruptions, stays sound, and the tree machine can make the same run with the
  // same return codes and the same data.
  lemma {:induction false} RunsRefineTrees(m: State, l: Layout, es: seq<Event>) returns (l': Layout)
    requires Ready(m, l) && Runs(m, es)
    ensures Ready(After(m, es), l') && WorldRun(WorldOf(m), es, WorldOf(After(m, es)))
    ensures Uninterrupted(es) && NoLeak(Image(m.disk.volume), l) ==> NoLeak(Image(After(m, es).disk.volume), l')
    decreases |es|
  {
    hide Ready, Steps, View, Possible, Next, NoLeak, WorldOf;
    if es == [] {
      l' := l;
    } else {
      var l1 := EventKeeps(m, l, es[0]);
      l' := RunsRefineTrees(Next(m, es[0]), l1, es[1..]);
    }
  }

  // The paths of a sound tree are distinct, so OutcomeIsDetermined applies in every state of a run.
  lemma SoundTreesBranch(m: State, l: Layout)
    requires Ready(m, l)
    ensures Branching(TreeOf(m))
  {
    hide Consistent, DecodeFat, DecodeTable, Lookup, Signed, View;
    forall p, q, d: nat | FolderAt(TreeOf(m), p, d) && FolderAt(TreeOf(m), q, d)
      ensures p == q
    {
      ViewIsLookup(Image(m.disk.volume), p);
      ViewIsLookup(Image(m.disk.volume), q);
      PathIsUnique(Image(m.disk.volume), l, p, q, d);
    }
  }

  lemma FormattedWorld(m: State)
    ensures WorldOf(Format(m)) == World(imap[[] := Folder(ROOT_CLUSTER_NUMBER)], CLUSTER_MAP_SIZE - FIRST_DATA_CLUSTER)
  {
    hide View, Format, Ready, NoLeak, FreeClusters;
    FormatIsSound(m);
    FormattedFree(m);
  }

  // From a formatted disk every run is sound, and is one of the tree machine from the root alone and 509 free clusters.
  lemma RunsFromFormat(m: State, es: seq<Event>)
    requires Runs(Format(m), es)
    ensures var m' := After(Format(m), es);
            exists l :: Ready(m', l) && (Uninterrupted(es) ==> NoLeak(Image(m'.disk.volume), l))
    ensures WorldRun(World(imap[[] := Folder(ROOT_CLUSTER_NUMBER)], CLUSTER_MAP_SIZE - FIRST_DATA_CLUSTER), es,
                     WorldOf(After(Format(m), es)))
  {
    hide Ready, View, Runs, After, Format, NoLeak, WorldRun, WorldOf;
    FormatIsSound(m);
    FormattedWorld(m);
    var l := RunsRefineTrees(Format(m), ROOT_LAYOUT, es);
  }

  // ---------- what a run leaves alone ----------

  ghost predicate DeletesPath(m: State, c: Call, x: Path)
  {
    c.DeleteCall? && x != [] && x[|x| - 1] == RequestKey(c.r)
      && Lookup(Image(m.disk.volume), x[..|x| - 1]) == Some(Folder(c.r.parent))
  }

  ghost predicate NeverDeletes(m: State, es: seq<Event>, x: Path)
    decreases |es|
  {
    es == [] || (!DeletesPath(m, es[0].call, x) && NeverDeletes(Next(m, es[0]), es[1..], x))
  }

  lemma PerformKeepsPath(m: State, c: Call, o: Outcome, u: World, pp: Path, k: Key)
    requires Performs(WorldOf(m), c, o, u) && pp in TreeOf(m) && pp + [k] in TreeOf(m) && !DeletesPath(m, c, pp + [k])
    ensures pp in u.tree && u.tree[pp] == TreeOf(m)[pp] && pp + [k] in u.tree && u.tree[pp + [k]] == TreeOf(m)[pp + [k]]
  {
    hide View, Lookup, Full, OwnName;
    var t, x := TreeOf(m), pp + [k];
    if c.DeleteCall? && u != WorldOf(m) {
      var qq :| FolderAt(t, qq, c.r.parent) && PerformsAt(WorldOf(m), qq, c, o, u);
      ViewIsLookup(Image(m.disk.volume), qq);
      var y := qq + [RequestKey(c.r)];
      assert x[..|x| - 1] == pp && y[..|y| - 1] == qq;
      assert y != x;
      assert y != pp;
    }
  }

  // A step that does not remove x keeps x, and with it the folder x lies in.
  lemma StepKeepsPath(m: State, e: Event, w': World, pp: Path, k: Key)
    requires Steps(WorldOf(m), e, w') && pp in TreeOf(m) && pp + [k] in TreeOf(m) && !DeletesPath(m, e.call, pp + [k])
    ensures pp in w'.tree && w'.tree[pp] == TreeOf(m)[pp]
    ensures pp + [k] in w'.tree && w'.tree[pp + [k]] == TreeOf(m)[pp + [k]]
  {
    hide View, Lookup, Performs, DeletesPath;
    match e
    case Done(c, outcome) => PerformKeepsPath(m, c, outcome, w', pp, k);
    case Cut(c, _) =>
      if w'.tree != TreeOf(m) {
        var o, u :| Performs(WorldOf(m), c, o, u) && w'.tree == u.tree;
        PerformKeepsPath(m, c, o, u, pp, k);
      }
  }

  lemma WriteSucceeds(m: State, r: Request)
    requires r.parent < CLUSTER_MAP_SIZE && WriteCode(m, r) == 0
    ensures m.fat[r.parent] == FAT_END_OF_FILE && Needed(r) <= |FreeClusters(m.fat)|
  {
  }

  lemma {:induction false} RunKeepsPath(m: State, l: Layout, es: seq<Event>, pp: Path, k: Key)
    requires Ready(m, l) && Runs(m, es) && pp in TreeOf(m) && pp + [k] in TreeOf(m) && NeverDeletes(m, es, pp + [k])
    ensures var t, t' := TreeOf(m), TreeOf(After(m, es));
            pp in t' && t'[pp] == t[pp] && pp + [k] in t' && t'[pp + [k]] == t[pp + [k]]
    decreases |es|
  {
    hide Ready, Steps, View, Possible, Next, NoLeak, DeletesPath;
    if es != [] {
      var l1 := EventKeeps(m, l, es[0]);
      StepKeepsPath(m, es[0], WorldOf(Next(m, es[0])), pp, k);
      RunKeepsPath(Next(m, es[0]), l1, es[1..], pp, k);
    }
  }

  // A file reads back as it was written after any run of calls, remounts and power losses that does not delete it.
  lemma ReadAfterWriteAndRun(m: State, l: Layout, r: Request, buf: seq<byte>, pp: Path, es: seq<Event>, q: Request)
    requires At(m, l, r, pp) && Writable(r, buf) && WriteCode(m, r) == 0 && r.bufferSize != 0
    requires Runs(Write(m, r, buf), es) && NeverDeletes(Write(m, r, buf), es, pp + [RequestKey(r)])
    requires q == r.(bufferSize := q.bufferSize) && q.bufferSize / CLUSTER_SIZE >= Required(r.bufferSize)
    ensures var m' := After(Write(m, r, buf), es);
            ReadDefined(m', q) && ReadCode(m', q) == 0 && ReadData(m', q) == Chunks(buf, Required(r.bufferSize))
  {
    hide Consistent, DecodeFat, DecodeTable, Signed, View, Write, ReadCode, ReadDefined, WriteCode, Runs, After,
         NeverDeletes, Lookup, Required;
    var m1, x := Write(m, r, buf), pp + [RequestKey(r)];
    WriteKeepsInvariant(m, l, r, buf);
    WriteRefines(m, l, r, buf, pp);
    WriteSucceeds(m, r);
    ViewIsLookup(Image(m.disk.volume), pp);
    assert pp != x;
    RunKeepsPath(m1, WriteLayout(m, l, r), es, pp, RequestKey(r));
    var m2 := After(m1, es);
    var l2 := RunsRefineTrees(m1, WriteLayout(m, l, r), es);
    ViewIsLookup(Image(m2.disk.volume), pp);
    FoldersAreLive(Image(m2.disk.volume), l2, pp);
    LiveDirOk(Image(m2.disk.volume), l2, r.parent);
    ReadIsLookup(m2, l2, q, pp);
  }
}
