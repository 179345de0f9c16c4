/** The calls on a formatted disk, in terms of its bytes: what they look up, answer, hand out and store. */
module CallBytes {
  import opened Machine
  import opened Encoding
  import opened Allocation
  import opened FileTree
  import opened Storage
  import opened Operations
  import opened Durability
  import opened Writing
  import opened Deleting
  import opened Inverses
  import opened DiskBytes

  // ---------- lookups ----------

  ghost predicate Matches(b: seq<byte>, r: Request, usedOnly: bool)
    requires |b| == 32
  {
    Called(b, r) && (usedOnly ==> InUse(b))
  }

  ghost predicate FirstMatch(c: Cluster, r: Request, usedOnly: bool, s: nat)
  {
    s < 64 && Matches(Slot(c, s), r, usedOnly) && forall j: nat :: j < s ==> !Matches(Slot(c, j), r, usedOnly)
  }

  ghost predicate NoMatch(c: Cluster, r: Request, usedOnly: bool)
  {
    forall j: nat :: j < 64 ==> !Matches(Slot(c, j), r, usedOnly)
  }

  lemma MatchIsName(c: Cluster, r: Request, usedOnly: bool, i: nat)
    requires i < 64
    ensures Names(DecodeTable(c)[i], RequestKey(r), usedOnly) <==> Matches(Slot(c, i), r, usedOnly)
  {
    hide DecodeTable, Used;
    EntryIsDecoded(c, i);
  }

  lemma LookupByBytes(c: Cluster, r: Request, usedOnly: bool)
    ensures var f := FirstSlot(DecodeTable(c), RequestKey(r), usedOnly, 0);
            && (f == 64 <==> NoMatch(c, r, usedOnly))
            && forall s: nat :: FirstMatch(c, r, usedOnly, s) <==> s == f && f < 64
  {
    forall i: nat | i < 64
      ensures Names(DecodeTable(c)[i], RequestKey(r), usedOnly) <==> Matches(Slot(c, i), r, usedOnly)
    {
      MatchIsName(c, r, usedOnly, i);
    }
    hide DecodeTable, Names, Matches, Slot, FirstSlot;
  }

  // ---------- read ----------

  // The data is the run of clusters that starts at first and follows the table words up to end-of-file.
  ghost predicate Follows(fat: Fat, v: Volume, first: int, data: seq<Cluster>)
    decreases |data|
  {
    && data != [] && 0 <= first < 512 && data[0] == v[first]
    && if |data| == 1 then fat[first] == 0x0FFF_FFFF
       else fat[first] != 0x0FFF_FFFF && Follows(fat, v, fat[first], data[1..])
  }

  lemma {:induction false} ChainFollows(fat: Fat, v: Volume, c: nat)
    requires ChainOk(fat, c)
    ensures Follows(fat, v, c, Gather(v, Chain(fat, c)))
    decreases |fat| - c
  {
    if fat[c] != FAT_END_OF_FILE {
      ChainFollows(fat, v, fat[c]);
      assert Gather(v, Chain(fat, c))[1..] == Gather(v, Chain(fat, fat[c]));
    }
  }

  // read answers 2 when the parent's word is not end-of-file or no entry carries the name; else the first that does
  // decides: a folder gives 1, a buffer of too few clusters -1, and 0 hands out the run from the entry's cluster on.
  lemma ReadByBytes(m: State, r: Request)
    requires ReadDefined(m, r)
    ensures var t := m.disk.volume[r.parent];
            && (m.fat[r.parent] != 0x0FFF_FFFF || NoMatch(t, r, false) ==> ReadCode(m, r) == 2)
            && forall s :: m.fat[r.parent] == 0x0FFF_FFFF && FirstMatch(t, r, false, s) ==>
                 && ReadCode(m, r) == (if Directory(Slot(t, s)) then 1
                                       else if r.bufferSize / 2048 < Required(SizeIn(Slot(t, s))) then -1 else 0)
                 && (ReadCode(m, r) == 0 ==> Follows(m.fat, m.disk.volume, ClusterIn(Slot(t, s)), ReadData(m, r)))
  {
    hide DecodeTable, FirstMatch, NoMatch, Required, Directory, SizeIn, ClusterIn, FirstCluster, IsFolder, Follows;
    LookupByBytes(m.disk.volume[r.parent], r, false);
    if Found(m, r) < ENTRY_COUNT {
      EntryIsDecoded(m.disk.volume[r.parent], Found(m, r));
      if ReadCode(m, r) == 0 {
        ChainFollows(m.fat, m.disk.volume, FirstCluster(ParentTable(m, r)[Found(m, r)]));
      }
    }
  }

  // ---------- read_directory ----------

  lemma ReadDirectoryByBytes(m: State, r: Request)
    requires ReadDirectoryDefined(m, r)
    ensures var t := m.disk.volume[r.parent];
            && (NoMatch(t, r, true) ==> ReadDirectoryCode(m, r) == 2)
            && forall s :: FirstMatch(t, r, true, s) ==>
                 && ReadDirectoryCode(m, r) == (if !Directory(Slot(t, s)) then 1
                                                else if r.bufferSize < 32 then -1 else 0)
                 && (ReadDirectoryCode(m, r) == 0 ==>
                       0 <= ClusterIn(Slot(t, s)) < |m.disk.volume|
                       && ReadDirectoryData(m, r) == m.disk.volume[ClusterIn(Slot(t, s))])
  {
    hide DecodeTable, FirstMatch, NoMatch, Directory, ClusterIn, FirstCluster, IsFolder, FirstSlot;
    LookupByBytes(m.disk.volume[r.parent], r, true);
    var f := FirstSlot(ParentTable(m, r), RequestKey(r), true, 0);
    if f < ENTRY_COUNT {
      EntryIsDecoded(m.disk.volume[r.parent], f);
    }
  }

  // ---------- the return codes of delete and write ----------

  // No entry from 2 on is in use.
  ghost predicate NoChildren(c: Cluster)
  {
    forall j :: 2 <= j < 64 ==> !InUse(Slot(c, j))
  }

  lemma EmptyByBytes(c: Cluster)
    ensures TableEmpty(DecodeTable(c)) <==> NoChildren(c)
  {
    forall j | 2 <= j < 64
      ensures Used(DecodeTable(c)[j]) <==> InUse(Slot(c, j))
    {
      EntryIsDecoded(c, j);
    }
    hide DecodeTable, Used, InUse, Slot;
  }

  lemma DeleteCodeByBytes(m: State, r: Request)
    requires r.parent < CLUSTER_MAP_SIZE
    ensures var v, t := m.disk.volume, m.disk.volume[r.parent];
            && (m.fat[r.parent] != 0x0FFF_FFFF ==> DeleteCode(m, r) == 2)
            && (m.fat[r.parent] == 0x0FFF_FFFF && NoMatch(t, r, false) ==> DeleteCode(m, r) == 1)
            && forall s :: m.fat[r.parent] == 0x0FFF_FFFF && FirstMatch(t, r, false, s) ==>
                 var c := ClusterIn(Slot(t, s));
                 DeleteCode(m, r) == if Directory(Slot(t, s)) && !(0 <= c < |v| && NoChildren(v[c])) then 2 else 0
  {
    hide DecodeTable, FirstMatch, NoMatch, Directory, ClusterIn, FirstCluster, IsFolder, NoChildren, TableEmpty;
    LookupByBytes(m.disk.volume[r.parent], r, false);
    if Found(m, r) < ENTRY_COUNT {
      EntryIsDecoded(m.disk.volume[r.parent], Found(m, r));
      var c := FirstCluster(ParentTable(m, r)[Found(m, r)]);
      if c < |m.disk.volume| {
        EmptyByBytes(m.disk.volume[c]);
      }
    }
  }

  // The first entry from 1 on that is not in use.
  ghost predicate FirstUnusedSlot(c: Cluster, s: nat)
  {
    1 <= s < 64 && !InUse(Slot(c, s)) && forall j :: 1 <= j < s ==> InUse(Slot(c, j))
  }

  lemma UnusedByBytes(c: Cluster)
    ensures var f := FirstUnused(DecodeTable(c), 1);
            && (f == 64 <==> forall j :: 1 <= j < 64 ==> InUse(Slot(c, j)))
            && forall s :: FirstUnusedSlot(c, s) <==> s == f && f < 64
  {
    forall j | 0 <= j < 64
      ensures Used(DecodeTable(c)[j]) <==> InUse(Slot(c, j))
    {
      EntryIsDecoded(c, j);
    }
    hide DecodeTable, Used, InUse, Slot, FirstUnused;
  }

  ghost predicate AllZero(fat: Fat, clusters: set<nat>)
  {
    forall c :: c in clusters ==> c < 512 && fat[c] == 0
  }

  // The words of n different clusters are zero.
  ghost predicate Room(fat: Fat, n: nat)
  {
    exists free :: AllZero(fat, free) && |free| == n
  }

  lemma WriteCodeByBytes(m: State, r: Request)
    requires r.parent < CLUSTER_MAP_SIZE
    ensures var t := m.disk.volume[r.parent];
            WriteCode(m, r) ==
              if m.fat[r.parent] != 0x0FFF_FFFF then 2
              else if !NoMatch(t, r, false) then 1
              else if (forall s :: !FirstUnusedSlot(t, s)) then -1
              else if !Room(m.fat, if r.bufferSize == 0 then 1 else Required(r.bufferSize)) then -1
              else 0
  {
    hide DecodeTable, NoMatch, FirstUnusedSlot, Required, FirstSlot, FirstUnused, FreeClusters, Room;
    LookupByBytes(m.disk.volume[r.parent], r, false);
    UnusedByBytes(m.disk.volume[r.parent]);
    RoomIsFree(m.fat, Needed(r));
    var f := FirstUnused(ParentTable(m, r), 1);
    assert f < 64 ==> FirstUnusedSlot(m.disk.volume[r.parent], f);
  }

  lemma RoomIsFree(fat: Fat, n: nat)
    ensures Room(fat, n) <==> n <= |FreeClusters(fat)|
  {
    var all := Elements(FreeClusters(fat));
    FreeListAscends(fat);
    ElementsSize(FreeClusters(fat));
    if n <= |FreeClusters(fat)| {
      var free := LowestFree(fat, n);
      ElementsSize(free);
      assert AllZero(fat, Elements(free));
    } else if Room(fat, n) {
      var free :| AllZero(fat, free) && |free| == n;
      SubsetIsSmaller(free, all);
    }
  }

  lemma {:induction false} SubsetIsSmaller(s: set<nat>, t: set<nat>)
    requires s <= t
    ensures |s| <= |t|
    decreases |s|
  {
    if s != {} {
      var x :| x in s;
      SubsetIsSmaller(s - {x}, t - {x});
    }
  }

  // ---------- what write stores ----------

  ghost predicate LowestZero(fat: Fat, c: nat)
  {
    c < 512 && fat[c] == 0 && forall d :: 0 <= d < c ==> fat[d] != 0
  }

  lemma FirstFreeIsLowest(fat: Fat, n: nat, c: nat)
    requires 0 < n <= |FreeClusters(fat)|
    ensures LowestZero(fat, c) <==> c == LowestFree(fat, n)[0]
  {
    var slots := LowestFree(fat, n);
    assert slots[0] in slots;
    assert FreeClusters(fat)[0] == slots[0];
    forall d: nat | d < CLUSTER_MAP_SIZE && fat[d] == 0
      ensures slots[0] <= d
    {
      assert d in FreeClusters(fat);
    }
  }

  lemma NewEntryIsPlain(r: Request, c: nat)
    requires c < CLUSTER_MAP_SIZE
    ensures var e := NewEntry(r, c);
            && Plain(e) && e.name == r.name && e.ext == r.ext && e.attribute == (if r.bufferSize == 0 then 0x10 else 0)
            && FirstCluster(e) == c && e.filesize == r.bufferSize
  {
  }

  // The entry goes to the first unused slot, all 32 bytes of it, and leads to the lowest free cluster; no other byte
  // of the folder's table changes.
  lemma WrittenEntry(m: State, r: Request, buf: seq<byte>, s: nat, c: nat)
    requires WriteDefined(m, r, buf) && WriteCode(m, r) == 0
    requires FirstUnusedSlot(m.disk.volume[r.parent], s) && LowestZero(m.fat, c)
    ensures var t, t' := m.disk.volume[r.parent], Write(m, r, buf).disk.volume[r.parent];
            && Holds(Slot(t', s), r.name, r.ext, if r.bufferSize == 0 then 0x10 else 0, c, r.bufferSize)
            && SameButEntry(t, t', s)
  {
    hide DecodeTable, Prepared, NewEntry, PutEntry, FreeClusters, FirstUnusedSlot, Holds, SameButEntry,
         FirstSlot, FirstUnused, Required;
    UnusedByBytes(m.disk.volume[r.parent]);
    FirstFreeIsLowest(m.fat, Needed(r), c);
    NewEntryIsPlain(r, c);
    StoredBytes(m.disk.volume[r.parent], s, NewEntry(r, c));
  }

  // m' has the entry in the parent's table, wherever the first unused slot and the lowest free cluster of m are.
  ghost predicate StoresEntry(m: State, r: Request, m': State)
  {
    && r.parent < 512
    && forall s: nat, c: nat :: FirstUnusedSlot(m.disk.volume[r.parent], s) && LowestZero(m.fat, c) ==>
         && Holds(Slot(m'.disk.volume[r.parent], s), r.name, r.ext, if r.bufferSize == 0 then 0x10 else 0, c,
                  r.bufferSize)
         && SameButEntry(m.disk.volume[r.parent], m'.disk.volume[r.parent], s)
  }

  lemma EntryIsStored(m: State, r: Request, buf: seq<byte>)
    requires WriteDefined(m, r, buf) && WriteCode(m, r) == 0
    ensures StoresEntry(m, r, Write(m, r, buf))
  {
    hide Write, WriteCode, Holds, SameButEntry, LowestZero;
    forall s: nat, c: nat | FirstUnusedSlot(m.disk.volume[r.parent], s) && LowestZero(m.fat, c)
      ensures Holds(Slot(Write(m, r, buf).disk.volume[r.parent], s), r.name, r.ext,
                    if r.bufferSize == 0 then 0x10 else 0, c, r.bufferSize)
      ensures SameButEntry(m.disk.volume[r.parent], Write(m, r, buf).disk.volume[r.parent], s)
    {
      WrittenEntry(m, r, buf, s, c);
    }
  }

  // Slots are linked one to the next in the table on disk, the last one to end-of-file.
  ghost predicate LinkedOnDisk(v: Volume, slots: seq<nat>)
  {
    forall j :: 0 <= j < |slots| ==> slots[j] < 512 && WordAt(v[1], slots[j]) == NextOf(slots, j)
  }

  function NextOf(slots: seq<nat>, j: nat): nat
    requires j < |slots|
  {
    if j + 1 < |slots| then slots[j + 1] else 0x0FFF_FFFF
  }

  lemma WordsFollow(m: State, l: Layout, slots: seq<nat>)
    requires Ready(m, l) && slots != [] && ChainOk(m.fat, slots[0]) && Chain(m.fat, slots[0]) == slots
    ensures LinkedOnDisk(m.disk.volume, slots)
  {
    ChainLinks(m.fat, slots[0]);
    hide Chain, ChainOk, Ready, WordAt, Linked, Ascending;
    forall j | 0 <= j < |slots|
      ensures slots[j] < 512
      ensures WordAt(m.disk.volume[1], slots[j]) == NextOf(slots, j)
    {
      NextInChain(m.fat, slots, j);
      CachedWordsOnDisk(m, l, slots[j]);
    }
  }

  lemma WrittenState(m: State, l: Layout, r: Request, buf: seq<byte>)
    requires Live(m, l, r) && Writable(r, buf) && WriteCode(m, r) == 0
    ensures var slots, p, m' := LowestFree(m.fat, Needed(r)), Prepared(m, r, buf), Write(m, r, buf);
            && Staged(m, r, buf, p, slots) && Ready(m', WriteLayout(m, l, r))
            && slots != [] && ChainOk(m'.fat, slots[0]) && Chain(m'.fat, slots[0]) == slots
            && |m'.disk.volume| == |p.disk.volume|
            && forall j :: 0 <= j < |slots| ==>
                 0 <= slots[j] < CLUSTER_MAP_SIZE && m'.disk.volume[slots[j]] == p.disk.volume[slots[j]]
  {
    hide Consistent, DecodeTable, DecodeFat, Prepared, Signed, View, PutEntry, NewEntry, Quietly, EntryFits, Extends,
         Chain, ChainOk, FolderTable, Write, FirstUnused, FreeClusters, WriteLayout;
    var slots := LowestFree(m.fat, Needed(r));
    StagedImage(m, l, r, buf);
    WriteIsStoreEntry(m, l, r, buf);
    WriteKeepsInvariant(m, l, r, buf);
    forall j | 0 <= j < |slots|
      ensures slots[j] in slots && slots[j] != r.parent
    {
      ParentNotStaged(m, l, r, slots, slots[j]);
    }
  }

  // The buffer goes out in pieces of 2048 bytes to the lowest free clusters, in ascending order.
  lemma WrittenFile(m: State, l: Layout, r: Request, buf: seq<byte>)
    requires Live(m, l, r) && Writable(r, buf) && WriteCode(m, r) == 0 && r.bufferSize != 0
    ensures var slots, v' := LowestFree(m.fat, Required(r.bufferSize)), Write(m, r, buf).disk.volume;
            && LinkedOnDisk(v', slots)
            && forall j :: 0 <= j < |slots| ==> v'[slots[j]] == buf[2048 * j..2048 * j + 2048]
  {
    hide Consistent, DecodeTable, DecodeFat, Prepared, Signed, View, Quietly, Chain, ChainOk, Write, FreeClusters,
         WriteLayout, LinkedOnDisk, Required, Chunk;
    var slots, p := LowestFree(m.fat, Needed(r)), Prepared(m, r, buf);
    WrittenState(m, l, r, buf);
    WordsFollow(Write(m, r, buf), WriteLayout(m, l, r), slots);
    forall j | 0 <= j < |slots|
      ensures p.disk.volume[slots[j]] == buf[2048 * j..2048 * j + 2048]
    {
      assert Gather(p.disk.volume, slots)[j] == Chunks(buf, |slots|)[j];
      ChunkBytes(buf, |slots|, j);
    }
  }

  lemma ChunkBytes(buf: seq<byte>, n: nat, j: nat)
    requires |buf| >= CLUSTER_SIZE * n && j < n
    ensures 2048 * j + 2048 <= |buf| && Chunks(buf, n)[j] == buf[2048 * j..2048 * j + 2048]
  {
  }

  lemma FolderTableIsNew(m: State, r: Request, c: nat)
    requires r.parent < CLUSTER_MAP_SIZE && c < CLUSTER_MAP_SIZE
    ensures NewTable(FolderTable(m, r, c), NulPadded(r.name), c, m.disk.volume[r.parent][..8], r.parent)
  {
    hide DecodeTable, NulPadded, PutEntry, FirstCluster, Plain, Holds, InitTable, SameButEntry;
    var t := InitTable(ZERO_CLUSTER, r.name, m.disk.volume[r.parent], r.parent);
    InitTableIsNew(r.name, m.disk.volume[r.parent], r.parent);
    InitTableSlots(r.name, m.disk.volume[r.parent], r.parent);
    FolderEntry(NulPadded(r.name), c);
    StoredBytes(t, 0, WithCluster(AsFolder(ZERO_ENTRY, NulPadded(r.name)), c));
    FirstEntryReplaced(t, FolderTable(m, r, c));
  }

  lemma FirstEntryReplaced(t: Cluster, t': Cluster)
    requires SameButEntry(t, t', 0)
    ensures Slot(t', 1) == Slot(t, 1) && forall k :: 64 <= k < 2048 ==> t'[k] == t[k]
  {
  }

  lemma OwnNameBytes(t: Cluster, self: seq<byte>, cluster: int, up: seq<byte>, parent: int)
    requires NewTable(t, self, cluster, up, parent)
    ensures t[..8] == self
  {
    assert t[..8] == Slot(t, 0)[..8];
  }

  // A new folder's cluster holds its own entry, its parent's, and zeros; its word is end-of-file.
  lemma WrittenFolder(m: State, l: Layout, r: Request, buf: seq<byte>, c: nat)
    requires Live(m, l, r) && Writable(r, buf) && WriteCode(m, r) == 0 && r.bufferSize == 0 && LowestZero(m.fat, c)
    ensures var v, v' := m.disk.volume, Write(m, r, buf).disk.volume;
            && Copied(r.name, v'[c][..8]) && NewTable(v'[c], v'[c][..8], c, v[r.parent][..8], r.parent)
            && WordAt(v'[1], c) == 0x0FFF_FFFF
  {
    hide Consistent, DecodeTable, DecodeFat, Prepared, Signed, View, Quietly, Chain, ChainOk, Write, FreeClusters,
         WriteLayout, FolderTable, Holds, WordAt, NulPadded, Copied;
    var slots, v' := LowestFree(m.fat, 1), Write(m, r, buf).disk.volume;
    WrittenState(m, l, r, buf);
    WordsFollow(Write(m, r, buf), WriteLayout(m, l, r), slots);
    FirstFreeIsLowest(m.fat, 1, c);
    FolderTableIsNew(m, r, c);
    PaddedIsCopied(r.name);
    assert slots[0] == c && v'[c] == FolderTable(m, r, c);
    OwnNameBytes(v'[c], NulPadded(r.name), c, m.disk.volume[r.parent][..8], r.parent);
  }

  // No other cluster and no other word of the table changes, in the cache or on disk.
  lemma WrittenRest(m: State, l: Layout, r: Request, buf: seq<byte>)
    requires Live(m, l, r) && Writable(r, buf) && WriteCode(m, r) == 0
    ensures var v, m', slots := m.disk.volume, Write(m, r, buf), LowestFree(m.fat, Needed(r));
            && |m'.disk.volume| == |v|
            && (forall c :: 3 <= c < |v| && c != r.parent && c !in slots ==> m'.disk.volume[c] == v[c])
            && m'.disk.volume[0] == v[0] && (r.parent != 2 ==> m'.disk.volume[2] == v[2])
            && (forall i :: 0 <= i < 512 ==> m'.fat[i] as nat == WordAt(m'.disk.volume[1], i))
            && forall i :: 0 <= i < 512 && i !in slots ==> m'.fat[i] == m.fat[i]
  {
    hide Consistent, DecodeTable, DecodeFat, Prepared, Signed, View, Write, FreeClusters, WriteLayout, WordAt;
    ParentTableOk(m, l, r);
    WrittenElsewhere(m, l, r, buf);
    WrittenTable(m, l, r, buf);
    WriteKeepsInvariant(m, l, r, buf);
    var slots := LowestFree(m.fat, Needed(r));
    FreeIsUnclaimed(Image(m.disk.volume), l, slots);
    assert forall c :: c in slots ==> c in Elements(slots);
    forall i | 0 <= i < 512
      ensures Write(m, r, buf).fat[i] as nat == WordAt(Write(m, r, buf).disk.volume[1], i)
    {
      CachedWordsOnDisk(Write(m, r, buf), WriteLayout(m, l, r), i);
    }
  }

  // ---------- what delete leaves ----------

  lemma ErasedBytes(t: Cluster, s: nat)
    requires s < 64
    ensures SameButEntry(t, PutEntry(t, s, ZERO_ENTRY), s)
    ensures forall k :: 0 <= k < 32 ==> Slot(PutEntry(t, s, ZERO_ENTRY), s)[k] == 0
  {
    ZeroEntryBytes();
    hide EncodeEntry;
    assert Slot(PutEntry(t, s, ZERO_ENTRY), s) == EncodeEntry(ZERO_ENTRY);
  }

  lemma ZeroEntryBytes()
    ensures forall k :: 0 <= k < 32 ==> EncodeEntry(ZERO_ENTRY)[k] == 0
  {
    assert Bytes16(0) == [0, 0] && Bytes32(0) == [0, 0, 0, 0];
  }

  lemma DeletedEntry(m: State, l: Layout, r: Request, s: nat)
    requires Deletes(m, l, r) && FirstMatch(m.disk.volume[r.parent], r, false, s)
    ensures var t, v1 := m.disk.volume[r.parent], Unlinked(m, r).disk.volume;
            && Found(m, r) == s < 64 && FirstCluster(Victim(m, r)) == ClusterIn(Slot(t, s))
            && ChainOk(m.fat, ClusterIn(Slot(t, s)))
            && r.parent !in Chain(m.fat, ClusterIn(Slot(t, s))) && r.parent != 1
            && SameButEntry(t, v1[r.parent], s) && (forall k :: 0 <= k < 32 ==> Slot(v1[r.parent], s)[k] == 0)
            && |v1| == |m.disk.volume| && forall c :: 0 <= c < |v1| && c != r.parent ==> v1[c] == m.disk.volume[c]
  {
    hide Consistent, DecodeTable, DecodeFat, Signed, PutEntry, Chain, ChainOk, ClusterIn, SameButEntry, FirstMatch,
         CanRemove, FirstCluster, TableEmpty, DeleteLayout;
    LookupByBytes(m.disk.volume[r.parent], r, false);
    EntryIsDecoded(m.disk.volume[r.parent], s);
    EntryCanBeRemoved(m, l, r);
    ErasedBytes(m.disk.volume[r.parent], s);
    UnlinkedIsSound(m, l, r);
    LiveFolderIsOwned(Image(Unlinked(m, r).disk.volume), DeleteLayout(m, l, r), r.parent);
    var chain := Chain(m.fat, FirstCluster(Victim(m, r)));
    assert r.parent in chain ==> r.parent in Elements(chain);
  }

  // All 32 bytes of the entry become zero, and so does every cluster of its run and that cluster's word; no other
  // byte of the folder's table, no other cluster and no other word changes.
  lemma DeletedBytes(m: State, l: Layout, r: Request, s: nat)
    requires Live(m, l, r) && !ErasesItself(m, r) && DeleteCode(m, r) == 0
    requires FirstMatch(m.disk.volume[r.parent], r, false, s)
    ensures DeleteDefined(m, r) && ChainOk(m.fat, ClusterIn(Slot(m.disk.volume[r.parent], s)))
    ensures var v, m' := m.disk.volume, Delete(m, r);
            var t, t' := v[r.parent], m'.disk.volume[r.parent];
            var chain := Chain(m.fat, ClusterIn(Slot(t, s)));
            && Follows(m.fat, v, ClusterIn(Slot(t, s)), Gather(v, chain))
            && SameButEntry(t, t', s) && (forall k :: 0 <= k < 32 ==> Slot(t', s)[k] == 0)
            && (forall c, k :: c in chain && 0 <= k < 2048 ==> c < 512 && m'.disk.volume[c][k] == 0)
            && |m'.disk.volume| == |v|
            && (forall c :: 0 <= c < |v| && c != 1 && c != r.parent && c !in chain ==> m'.disk.volume[c] == v[c])
            && (forall i :: 0 <= i < 512 ==> m'.fat[i] == if i in chain then 0 else m.fat[i])
            && (forall i :: 0 <= i < 512 ==> m'.fat[i] as nat == WordAt(m'.disk.volume[1], i))
  {
    hide Consistent, DecodeTable, DecodeFat, Signed, View, Delete, DeleteCode, Unlinked, WordAt, PutEntry, ErasesItself,
         DeleteDefined, Follows, Chain, ChainOk, ClusterIn, SameButEntry, FirstMatch;
    DeletesChild(m, l, r);
    Deleted(m, l, r);
    DeletedEntry(m, l, r, s);
    var chain := Chain(m.fat, FirstCluster(Victim(m, r)));
    ChainFollows(m.fat, m.disk.volume, FirstCluster(Victim(m, r)));
    assert forall c :: c in Elements(chain) <==> c in chain;
    forall i | 0 <= i < 512
      ensures Delete(m, r).fat[i] as nat == WordAt(Delete(m, r).disk.volume[1], i)
    {
      CachedWordsOnDisk(Delete(m, r), DeleteLayout(m, l, r), i);
    }
  }

  // ---------- how many blocks go out ----------

  lemma {:induction false} FillTraffic(m: State, slots: seq<nat>, buf: seq<byte>, j: nat)
    requires j <= |slots| && (forall c :: c in slots ==> c < CLUSTER_MAP_SIZE) && |buf| >= CLUSTER_SIZE * |slots|
    ensures |Fill(m, slots, buf, j).disk.history| == |m.disk.history| + 8 * j
  {
    hide Torn, EncodeFat, Chunk;
    if j > 0 {
      FillTraffic(m, slots, buf, j - 1);
    }
  }

  // Table and data for every cluster of a file, or one table of each kind for a folder, and the parent's table last.
  lemma WriteTraffic(m: State, r: Request, buf: seq<byte>)
    requires WriteDefined(m, r, buf)
    ensures |Write(m, r, buf).disk.history| == |m.disk.history| +
              if WriteCode(m, r) != 0 then 0 else if r.bufferSize == 0 then 12 else 8 * Required(r.bufferSize) + 4
  {
    hide Torn, EncodeFat, Fill, FolderTable, PutEntry, NewEntry, DecodeTable, FirstSlot, FirstUnused, FreeClusters,
         Required;
    if WriteCode(m, r) == 0 {
      var slots := LowestFree(m.fat, Needed(r));
      assert slots[0] in slots;
      if r.bufferSize != 0 {
        FillTraffic(m, slots, buf, |slots|);
      }
    }
  }

  lemma {:induction false} FreeTraffic(m: State, chain: seq<nat>, k: nat)
    requires k <= |chain| && forall c :: c in chain ==> c < CLUSTER_MAP_SIZE
    ensures |FreeChain(m, chain, k).disk.history| == |m.disk.history| + 4 * k
  {
    hide Torn;
    if k > 0 {
      FreeTraffic(m, chain, k - 1);
    }
  }

  // The parent's table, every cluster of the run, and the table once.
  lemma DeleteTraffic(m: State, r: Request)
    requires DeleteDefined(m, r)
    ensures DeleteCode(m, r) != 0 ==> |Delete(m, r).disk.history| == |m.disk.history|
    ensures DeleteCode(m, r) == 0 ==>
              ChainOk(m.fat, FirstCluster(Victim(m, r)))
              && |Delete(m, r).disk.history| == |m.disk.history| + 8 + 4 * |Chain(m.fat, FirstCluster(Victim(m, r)))|
  {
    hide Torn, EncodeFat, PutEntry, DecodeTable, FirstSlot, Chain, ChainOk, FreeChain, FirstCluster, TableEmpty;
    if DeleteCode(m, r) == 0 {
      var chain := Chain(m.fat, FirstCluster(Victim(m, r)));
      FreeTraffic(Unlinked(m, r), chain, |chain|);
    }
  }
}
