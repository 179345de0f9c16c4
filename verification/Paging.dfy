/** The user page-frame allocator of src/paging.c: a frame bitmap, a counter and page directories that agree. */
module Paging {
  import opened Machine

  const PAGE_ENTRY_COUNT := 1024
  const PAGE_FRAME_SIZE := 0x40_0000
  const PAGE_FRAME_MAX_COUNT := 32

  datatype PageFlag = PageFlag(present: bool, write: bool, user: bool, writeThrough: bool,
                               cacheDisabled: bool, accessed: bool, dirty: bool, pageSize: bool)

  type Bits10 = x: nat | x < 0x400

  datatype PageEntry = PageEntry(
    flag: PageFlag, lowerAddress: Bits10, reserved: bool, available: byte, higherAddress: byte)

  const NO_FLAGS := PageFlag(false, false, false, false, false, false, false, false)
  const KERNEL_FLAGS := NO_FLAGS.(present := true, write := true, pageSize := true)
  const USER_FLAGS := NO_FLAGS.(present := true, write := true, user := true, pageSize := true)
  const ZERO_PAGE_ENTRY := PageEntry(NO_FLAGS, 0, false, 0, 0)

  type PageTable = t: seq<PageEntry> | |t| == PAGE_ENTRY_COUNT witness seq(PAGE_ENTRY_COUNT, i => ZERO_PAGE_ENTRY)
  type FrameMap = f: seq<bool> | |f| == PAGE_FRAME_MAX_COUNT witness seq(PAGE_FRAME_MAX_COUNT, i => false)

  // The allocator and every page directory it serves.
  datatype Memory = Memory(frames: FrameMap, freeCount: uint32, dirs: seq<PageTable>)

  function PageIndex(virtualAddr: uint32): (i: nat)
    ensures i < PAGE_ENTRY_COUNT
  {
    virtualAddr / PAGE_FRAME_SIZE
  }

  // Entry i translates the four mebibytes that hold the address.
  predicate Covers(i: nat, virtualAddr: uint32)
  {
    i * 0x40_0000 <= virtualAddr < (i + 1) * 0x40_0000
  }

  lemma PageIndexCovers(virtualAddr: uint32, i: nat)
    ensures PageIndex(virtualAddr) == i <==> Covers(i, virtualAddr)
  {
  }

  // ---------- the two calls, on one directory ----------

  // First free frame from i on; PAGE_FRAME_MAX_COUNT when there is none.
  function FirstFree(frames: FrameMap, i: nat): (r: nat)
    requires i <= PAGE_FRAME_MAX_COUNT
    ensures i <= r <= PAGE_FRAME_MAX_COUNT && (forall j :: i <= j < r ==> frames[j])
        && (r < PAGE_FRAME_MAX_COUNT ==> !frames[r])
    decreases |frames| - i
  {
    if i == PAGE_FRAME_MAX_COUNT || !frames[i] then i else FirstFree(frames, i + 1)
  }

  function Decremented(n: uint32): uint32
  {
    if n == 0 then 0xFFFF_FFFF else n - 1
  }

  function Incremented(n: uint32): uint32
  {
    if n == 0xFFFF_FFFF then 0 else n + 1
  }

  function Mapped(e: PageEntry, frame: Bits10): PageEntry
  {
    e.(flag := USER_FLAGS, lowerAddress := frame)
  }

  function CanAllocate(m: Memory): bool
  {
    FirstFree(m.frames, 0) < PAGE_FRAME_MAX_COUNT
  }

  function Allocate(m: Memory, d: nat, i: nat): Memory
    requires d < |m.dirs| && i < PAGE_ENTRY_COUNT
  {
    var f := FirstFree(m.frames, 0);
    if f == PAGE_FRAME_MAX_COUNT then m
    else Memory(m.frames[f := true], Decremented(m.freeCount), m.dirs[d := m.dirs[d][i := Mapped(m.dirs[d][i], f)]])
  }

  // A present entry must name a frame of the map, which is what indexing the map assumes.
  predicate FreeDefined(m: Memory, d: nat, i: nat)
  {
    d < |m.dirs| && i < PAGE_ENTRY_COUNT
      && (m.dirs[d][i].flag.present ==> m.dirs[d][i].lowerAddress < PAGE_FRAME_MAX_COUNT)
  }

  function CanFree(m: Memory, d: nat, i: nat): bool
    requires FreeDefined(m, d, i)
  {
    m.dirs[d][i].flag.present && m.frames[m.dirs[d][i].lowerAddress]
  }

  function Free(m: Memory, d: nat, i: nat): Memory
    requires FreeDefined(m, d, i)
  {
    if !CanFree(m, d, i) then m
    else Memory(m.frames[m.dirs[d][i].lowerAddress := false], Incremented(m.freeCount),
                m.dirs[d := m.dirs[d][i := ZERO_PAGE_ENTRY]])
  }

  // The product is taken in 32 bits.
  predicate EnoughFrames(freeCount: uint32, amount: uint32)
  {
    freeCount * PAGE_FRAME_SIZE % 0x1_0000_0000 >= amount
  }

  // ---------- the invariant ----------

  function FreeFrames(frames: seq<bool>): (n: nat)
    ensures n <= |frames|
  {
    if frames == [] then 0 else FreeFrames(frames[..|frames| - 1]) + if frames[|frames| - 1] then 0 else 1
  }

  predicate KernelIndex(i: int)
  {
    i == 0 || i == 0x300
  }

  // The kernel is mapped at its two fixed entries, on frame 0, in every directory; unmapped entries are all zero.
  ghost predicate EntryOk(m: Memory, d: nat, i: nat)
    requires d < |m.dirs| && i < PAGE_ENTRY_COUNT
  {
    var e := m.dirs[d][i];
    && (KernelIndex(i) <==> e.flag.present && !e.flag.user)
    && (KernelIndex(i) ==> e.lowerAddress == 0)
    && (!e.flag.present ==> e == ZERO_PAGE_ENTRY)
    && (e.flag.present && e.flag.user ==> 0 < e.lowerAddress < PAGE_FRAME_MAX_COUNT && m.frames[e.lowerAddress])
  }

  // Entry i of directory d is a user mapping of frame f.
  ghost predicate Maps(m: Memory, d: nat, i: nat, f: nat)
  {
    d < |m.dirs| && i < PAGE_ENTRY_COUNT && m.dirs[d][i].flag.present && m.dirs[d][i].flag.user
      && m.dirs[d][i].lowerAddress == f
  }

  ghost predicate Unshared(m: Memory, f: nat)
  {
    forall d: nat, i: nat, d': nat, i': nat :: Maps(m, d, i, f) && Maps(m, d', i', f) ==> d == d' && i == i'
  }

  ghost predicate IsMapped(m: Memory, f: nat)
  {
    exists d: nat, i: nat :: Maps(m, d, i, f)
  }

  ghost predicate Agrees(m: Memory)
  {
    && m.freeCount as nat == FreeFrames(m.frames)
    && m.frames[0]
    && (forall d, i {:trigger EntryOk(m, d, i)} :: 0 <= d < |m.dirs| && 0 <= i < PAGE_ENTRY_COUNT ==> EntryOk(m, d, i))
    && (forall f {:trigger Unshared(m, f)} :: 0 < f < PAGE_FRAME_MAX_COUNT ==> Unshared(m, f))
    && (forall f {:trigger IsMapped(m, f)} :: 0 < f < PAGE_FRAME_MAX_COUNT && m.frames[f] ==> IsMapped(m, f))
  }

  // ---------- the counter ----------

  lemma {:induction false} FreeFramesAfterUpdate(frames: seq<bool>, f: nat, taken: bool)
    requires f < |frames| && frames[f] != taken
    ensures FreeFrames(frames[f := taken]) == FreeFrames(frames) + if taken then -1 else 1
  {
    var n := |frames| - 1;
    if f == n {
      assert frames[f := taken][..n] == frames[..n];
    } else {
      FreeFramesAfterUpdate(frames[..n], f, taken);
      assert frames[f := taken][..n] == frames[..n][f := taken];
    }
  }

  lemma {:induction false} SomeFreeIffCounted(frames: seq<bool>)
    ensures FreeFrames(frames) > 0 <==> exists f :: 0 <= f < |frames| && !frames[f]
  {
    if frames != [] {
      var n := |frames| - 1;
      SomeFreeIffCounted(frames[..n]);
      assert forall f :: 0 <= f < n ==> frames[..n][f] == frames[f];
    }
  }

  lemma CountedIffAllocatable(m: Memory)
    ensures FreeFrames(m.frames) > 0 <==> CanAllocate(m)
  {
    SomeFreeIffCounted(m.frames);
    var f := FirstFree(m.frames, 0);
    assert f < PAGE_FRAME_MAX_COUNT ==> !m.frames[f];
  }

  lemma NotAllFree(frames: seq<bool>)
    requires |frames| > 0 && frames[0]
    ensures FreeFrames(frames) < |frames|
  {
    FreeFramesAfterUpdate(frames, 0, false);
  }

  // ---------- one call ----------

  // The frame handed out is the lowest free one, never frame 0, and no entry of any directory maps it yet.
  lemma AllocatedFrameIsFresh(m: Memory)
    requires Agrees(m) && CanAllocate(m)
    ensures var f := FirstFree(m.frames, 0); 0 < f && forall d: nat, i: nat :: !Maps(m, d, i, f)
  {
    var f := FirstFree(m.frames, 0);
    forall d: nat, i: nat
      ensures !Maps(m, d, i, f)
    {
      if d < |m.dirs| && i < PAGE_ENTRY_COUNT {
        assert EntryOk(m, d, i);
      }
    }
  }

  lemma AllocateKeepsAgreement(m: Memory, d: nat, i: nat)
    requires Agrees(m) && d < |m.dirs| && i < PAGE_ENTRY_COUNT && !m.dirs[d][i].flag.present
    ensures Agrees(Allocate(m, d, i))
  {
    if CanAllocate(m) {
      var m', f := Allocate(m, d, i), FirstFree(m.frames, 0);
      AllocatedFrameIsFresh(m);
      FreeFramesAfterUpdate(m.frames, f, true);
      assert EntryOk(m, d, i);
      forall d', i' | 0 <= d' < |m.dirs| && 0 <= i' < PAGE_ENTRY_COUNT
        ensures EntryOk(m', d', i')
      {
        assert EntryOk(m, d', i');
      }
      forall d': nat, i': nat, g: nat
        ensures Maps(m', d', i', g) <==> if d' == d && i' == i then g == f else Maps(m, d', i', g)
      {
      }
      forall g | 0 < g < PAGE_FRAME_MAX_COUNT
        ensures Unshared(m', g) && (m'.frames[g] ==> IsMapped(m', g))
      {
        assert Unshared(m, g);
        if g == f {
          assert Maps(m', d, i, f);
        } else if m.frames[g] {
          assert IsMapped(m, g);
          var d0: nat, i0: nat :| Maps(m, d0, i0, g);
          assert Maps(m', d0, i0, g);
        }
      }
    }
  }

  // Overwriting an entry that is in use loses its frame or a kernel mapping: the call is safe exactly on unmapped
  // entries, or when there is no frame to hand out.
  lemma AllocateIsSafeIff(m: Memory, d: nat, i: nat)
    requires Agrees(m) && d < |m.dirs| && i < PAGE_ENTRY_COUNT
    ensures Agrees(Allocate(m, d, i)) <==> !m.dirs[d][i].flag.present || m.freeCount == 0
  {
    CountedIffAllocatable(m);
    if !m.dirs[d][i].flag.present {
      AllocateKeepsAgreement(m, d, i);
    } else if CanAllocate(m) {
      var m', f := Allocate(m, d, i), FirstFree(m.frames, 0);
      assert EntryOk(m, d, i);
      if KernelIndex(i) {
        assert !EntryOk(m', d, i);
      } else {
        LostFrame(m, d, i);
      }
    }
  }

  lemma LostFrame(m: Memory, d: nat, i: nat)
    requires Agrees(m) && CanAllocate(m) && d < |m.dirs| && i < PAGE_ENTRY_COUNT
    requires m.dirs[d][i].flag.present && m.dirs[d][i].flag.user
    ensures !Agrees(Allocate(m, d, i))
  {
    var m', g := Allocate(m, d, i), m.dirs[d][i].lowerAddress;
    assert EntryOk(m, d, i);
    assert Maps(m, d, i, g) && Unshared(m, g);
    AllocatedFrameIsFresh(m);
    forall d': nat, i': nat
      ensures !Maps(m', d', i', g)
    {
      assert Maps(m', d', i', g) ==> (d', i') != (d, i) && Maps(m, d', i', g);
    }
    assert !IsMapped(m', g);
  }

  lemma FreeKeepsAgreement(m: Memory, d: nat, i: nat)
    requires Agrees(m) && d < |m.dirs| && i < PAGE_ENTRY_COUNT && !KernelIndex(i)
    ensures FreeDefined(m, d, i) && Agrees(Free(m, d, i))
    ensures CanFree(m, d, i) <==> m.dirs[d][i].flag.present
  {
    assert EntryOk(m, d, i);
    if m.dirs[d][i].flag.present {
      var m', f := Free(m, d, i), m.dirs[d][i].lowerAddress;
      assert Maps(m, d, i, f);
      FreeFramesAfterUpdate(m.frames, f, false);
      NotAllFree(m.frames[f := false]);
      forall d': nat, i': nat, g: nat
        ensures Maps(m', d', i', g) <==> !(d' == d && i' == i) && Maps(m, d', i', g)
      {
      }
      assert Unshared(m, f);
      forall d', i' | 0 <= d' < |m.dirs| && 0 <= i' < PAGE_ENTRY_COUNT
        ensures EntryOk(m', d', i')
      {
        assert EntryOk(m, d', i');
        assert m.dirs[d'][i'].lowerAddress == f && m.dirs[d'][i'].flag.user && m.dirs[d'][i'].flag.present ==>
            Maps(m, d', i', f);
      }
      forall g | 0 < g < PAGE_FRAME_MAX_COUNT
        ensures Unshared(m', g) && (m'.frames[g] ==> IsMapped(m', g))
      {
        assert Unshared(m, g);
        if m'.frames[g] {
          assert IsMapped(m, g);
          var d0: nat, i0: nat :| Maps(m, d0, i0, g);
          assert Maps(m', d0, i0, g);
        }
      }
    }
  }

  // Freeing a kernel entry gives frame 0 away; every other address is safe.
  lemma FreeIsSafeIff(m: Memory, d: nat, i: nat)
    requires Agrees(m) && d < |m.dirs| && i < PAGE_ENTRY_COUNT
    ensures FreeDefined(m, d, i)
    ensures Agrees(Free(m, d, i)) <==> !KernelIndex(i)
  {
    if KernelIndex(i) {
      assert EntryOk(m, d, i);
    } else {
      FreeKeepsAgreement(m, d, i);
    }
  }

  // Freeing what was just allocated restores bitmap, counter and directory.
  lemma FreeUndoesAllocate(m: Memory, d: nat, i: nat)
    requires Agrees(m) && d < |m.dirs| && i < PAGE_ENTRY_COUNT && !m.dirs[d][i].flag.present && CanAllocate(m)
    ensures FreeDefined(Allocate(m, d, i), d, i) && CanFree(Allocate(m, d, i), d, i)
    ensures Free(Allocate(m, d, i), d, i) == m
  {
    assert EntryOk(m, d, i);
    CountedIffAllocatable(m);
    var m', f := Allocate(m, d, i), FirstFree(m.frames, 0);
    var m2 := Free(m', d, i);
    assert m2.frames == m.frames;
    assert m2.dirs[d] == m.dirs[d];
    assert m2.dirs == m.dirs;
  }

  // ---------- the advance check ----------

  ghost predicate Sites(m: Memory, sites: seq<(nat, nat)>)
  {
    forall s :: s in sites ==> s.0 < |m.dirs| && s.1 < PAGE_ENTRY_COUNT
  }

  // Allocating at each address in turn, every call succeeds.
  ghost predicate AllSucceed(m: Memory, sites: seq<(nat, nat)>)
    requires Sites(m, sites)
    decreases |sites|
  {
    sites == [] || (assert sites[0] in sites; CanAllocate(m)
      && AllSucceed(Allocate(m, sites[0].0, sites[0].1), sites[1..]))
  }

  lemma {:induction false} SucceedIffEnough(m: Memory, sites: seq<(nat, nat)>)
    requires Sites(m, sites)
    ensures AllSucceed(m, sites) <==> |sites| <= FreeFrames(m.frames)
    decreases |sites|
  {
    if sites != [] {
      assert sites[0] in sites;
      CountedIffAllocatable(m);
      if CanAllocate(m) {
        FreeFramesAfterUpdate(m.frames, FirstFree(m.frames, 0), true);
        SucceedIffEnough(Allocate(m, sites[0].0, sites[0].1), sites[1..]);
      }
    }
  }

  // The check answers whether as many allocations as the amount needs would all succeed, wherever they go.
  lemma AllocateCheckIsExact(m: Memory, amount: uint32, sites: seq<(nat, nat)>)
    requires Agrees(m) && Sites(m, sites) && |sites| == (amount + 0x3F_FFFF) / 0x40_0000
    ensures EnoughFrames(m.freeCount, amount) <==> AllSucceed(m, sites)
  {
    SucceedIffEnough(m, sites);
  }

  // ---------- runs ----------

  datatype PageCall = AllocateCall(d: nat, i: nat) | FreeCall(d: nat, i: nat)

  // Allocate only at unmapped addresses; never free the kernel's own mapping.
  ghost predicate PageAllowed(m: Memory, c: PageCall)
  {
    c.d < |m.dirs| && c.i < PAGE_ENTRY_COUNT && if c.AllocateCall? then !m.dirs[c.d][c.i].flag.present
      else !KernelIndex(c.i) && FreeDefined(m, c.d, c.i)
  }

  ghost function PageNext(m: Memory, c: PageCall): Memory
    requires PageAllowed(m, c)
  {
    if c.AllocateCall? then Allocate(m, c.d, c.i) else Free(m, c.d, c.i)
  }

  ghost predicate PageRun(m: Memory, cs: seq<PageCall>, m': Memory)
    decreases |cs|
  {
    if cs == [] then m' == m else PageAllowed(m, cs[0]) && PageRun(PageNext(m, cs[0]), cs[1..], m')
  }

  lemma {:induction false} RunsKeepAgreement(m: Memory, cs: seq<PageCall>, m': Memory)
    requires Agrees(m) && PageRun(m, cs, m')
    ensures Agrees(m')
    decreases |cs|
  {
    if cs != [] {
      var c := cs[0];
      if c.AllocateCall? {
        AllocateKeepsAgreement(m, c.d, c.i);
      } else {
        FreeKeepsAgreement(m, c.d, c.i);
      }
      RunsKeepAgreement(PageNext(m, c), cs[1..], m');
    }
  }

  function KernelDirectory(): PageTable
  {
    seq(PAGE_ENTRY_COUNT, i => if KernelIndex(i) then PageEntry(KERNEL_FLAGS, 0, false, 0, 0) else ZERO_PAGE_ENTRY)
  }

  // The static initializers, for any number of directories that start as the kernel's.
  function InitialMemory(n: nat): Memory
  {
    Memory(seq(PAGE_FRAME_MAX_COUNT, i => i == 0), PAGE_FRAME_MAX_COUNT - 1, seq(n, i => KernelDirectory()))
  }

  lemma {:induction false} FreeFramesOfInitial(n: nat)
    requires n > 0
    ensures FreeFrames(seq(n, i => i == 0)) == n - 1
  {
    var s := seq(n, i => i == 0);
    if n > 1 {
      FreeFramesOfInitial(n - 1);
      assert s[..n - 1] == seq(n - 1, i => i == 0);
    } else {
      assert s[..0] == [];
    }
  }

  // Bitmap, counter and directories agree after every run from the start of the system.
  lemma RunsFromStartAgree(n: nat, cs: seq<PageCall>, m': Memory)
    requires PageRun(InitialMemory(n), cs, m')
    ensures Agrees(m')
  {
    var m := InitialMemory(n);
    FreeFramesOfInitial(PAGE_FRAME_MAX_COUNT);
    RunsKeepAgreement(m, cs, m');
  }

  // The static initializers field by field: frame 0 is taken, and entries 0 and 0x300 map it for the kernel.
  lemma InitialMemoryFields(n: nat)
    ensures var m := InitialMemory(n);
            && |m.frames| == 32 && (forall f :: 0 <= f < 32 ==> (m.frames[f] <==> f == 0)) && m.freeCount == 31
            && |m.dirs| == n
            && forall d, i :: 0 <= d < n && 0 <= i < 1024 ==>
                 if i == 0 || i == 0x300 then KernelMapping(m.dirs[d][i]) else Unmapped(m.dirs[d][i])
  {
  }

  predicate KernelMapping(e: PageEntry)
  {
    && e.flag.present && e.flag.write && !e.flag.user && e.flag.pageSize
    && !e.flag.writeThrough && !e.flag.cacheDisabled && !e.flag.accessed && !e.flag.dirty
    && e.lowerAddress == 0 && !e.reserved && e.available == 0 && e.higherAddress == 0
  }

  predicate UserMapping(e: PageEntry, frame: nat)
  {
    && e.flag.present && e.flag.write && e.flag.user && e.flag.pageSize
    && !e.flag.writeThrough && !e.flag.cacheDisabled && !e.flag.accessed && !e.flag.dirty
    && e.lowerAddress == frame
  }

  predicate Unmapped(e: PageEntry)
  {
    && !e.flag.present && !e.flag.write && !e.flag.user && !e.flag.pageSize
    && !e.flag.writeThrough && !e.flag.cacheDisabled && !e.flag.accessed && !e.flag.dirty
    && e.lowerAddress == 0 && !e.reserved && e.available == 0 && e.higherAddress == 0
  }

  predicate SameUnusedFields(e: PageEntry, was: PageEntry)
  {
    e.reserved == was.reserved && e.available == was.available && e.higherAddress == was.higherAddress
  }

  // f is the lowest frame that is not taken.
  ghost predicate LowestFrame(frames: seq<bool>, f: nat)
  {
    f < |frames| && !frames[f] && forall g :: 0 <= g < f ==> frames[g]
  }

  // All of memory except the entry of directory d that covers the address stays as it was.
  ghost predicate OnlyEntryChanges(m: Memory, d: nat, virtualAddr: uint32, m': Memory)
    requires d < |m.dirs|
  {
    && |m'.dirs| == |m.dirs|
    && (forall e: nat, i: nat :: e < |m.dirs| && i < 1024 && !(e == d && Covers(i, virtualAddr)) ==>
          m'.dirs[e][i] == m.dirs[e][i])
  }

  // What a successful allocation for the address does, field by field.
  ghost predicate AllocatedFor(m: Memory, d: nat, virtualAddr: uint32, m': Memory)
    requires d < |m.dirs|
  {
    && OnlyEntryChanges(m, d, virtualAddr, m') && m'.freeCount == (m.freeCount + 0xFFFF_FFFF) % 0x1_0000_0000
    && (forall i: nat, f: nat :: Covers(i, virtualAddr) && LowestFrame(m.frames, f) ==>
          m'.frames == m.frames[f := true]
          && i < 1024 && UserMapping(m'.dirs[d][i], f) && SameUnusedFields(m'.dirs[d][i], m.dirs[d][i]))
  }

  // The entry that covers the address is present and its frame is taken.
  ghost predicate Mapping(m: Memory, d: nat, i: nat, virtualAddr: uint32)
    requires d < |m.dirs|
  {
    && Covers(i, virtualAddr) && i < 1024 && m.dirs[d][i].flag.present
    && m.dirs[d][i].lowerAddress < 32 && m.frames[m.dirs[d][i].lowerAddress]
  }

  // What a successful release for the address does.
  ghost predicate FreedFor(m: Memory, d: nat, virtualAddr: uint32, m': Memory)
    requires d < |m.dirs|
  {
    && OnlyEntryChanges(m, d, virtualAddr, m') && m'.freeCount == (m.freeCount + 1) % 0x1_0000_0000
    && (forall i: nat :: Covers(i, virtualAddr) ==>
          Mapping(m, d, i, virtualAddr) && Unmapped(m'.dirs[d][i])
          && m'.frames == m.frames[m.dirs[d][i].lowerAddress := false])
  }

  // Allocation succeeds exactly when some frame is free, and then does what AllocatedFor says; else nothing.
  lemma AllocateFields(m: Memory, d: nat, virtualAddr: uint32)
    requires d < |m.dirs|
    ensures CanAllocate(m) <==> exists f :: 0 <= f < 32 && !m.frames[f]
    ensures var m' := Allocate(m, d, PageIndex(virtualAddr));
            if CanAllocate(m) then AllocatedFor(m, d, virtualAddr, m') else m' == m
  {
    var g := FirstFree(m.frames, 0);
    assert g < PAGE_FRAME_MAX_COUNT ==> !m.frames[g];
    forall f: nat | LowestFrame(m.frames, f)
      ensures f == g
    {
    }
    forall i: nat
      ensures Covers(i, virtualAddr) <==> i == PageIndex(virtualAddr)
    {
      PageIndexCovers(virtualAddr, i);
    }
  }

  // Release succeeds exactly when the address is mapped to a taken frame, and then does what FreedFor says.
  lemma FreeFields(m: Memory, d: nat, virtualAddr: uint32)
    requires d < |m.dirs| && FreeDefined(m, d, PageIndex(virtualAddr))
    ensures CanFree(m, d, PageIndex(virtualAddr)) <==> exists i: nat :: Mapping(m, d, i, virtualAddr)
    ensures var m' := Free(m, d, PageIndex(virtualAddr));
            if CanFree(m, d, PageIndex(virtualAddr)) then FreedFor(m, d, virtualAddr, m') else m' == m
  {
    forall i: nat
      ensures Covers(i, virtualAddr) <==> i == PageIndex(virtualAddr)
    {
      PageIndexCovers(virtualAddr, i);
    }
    if CanFree(m, d, PageIndex(virtualAddr)) {
      assert Mapping(m, d, PageIndex(virtualAddr), virtualAddr);
    }
  }

  // ---------- the imperative code ----------

  class PageDirectory {
    const table: array<PageEntry>

    constructor ()
      ensures table.Length == PAGE_ENTRY_COUNT && table[..] == KernelDirectory()
    {
      table := new PageEntry[PAGE_ENTRY_COUNT](i => if KernelIndex(i) then PageEntry(KERNEL_FLAGS, 0, false, 0, 0)
        else ZERO_PAGE_ENTRY);
    }
  }

  class PageManager {
    const pageFrameMap: array<bool>
    var freePageFrameCount: uint32

    ghost predicate Valid(dir: PageDirectory)
    {
      pageFrameMap.Length == PAGE_FRAME_MAX_COUNT && dir.table.Length == PAGE_ENTRY_COUNT
    }

    // The allocator together with one directory.
    ghost function Now(dir: PageDirectory): Memory
      requires Valid(dir)
      reads this, pageFrameMap, dir.table
    {
      Memory(pageFrameMap[..], freePageFrameCount, [dir.table[..]])
    }

    constructor ()
      ensures pageFrameMap.Length == PAGE_FRAME_MAX_COUNT && fresh(pageFrameMap)
      ensures pageFrameMap[..] == InitialMemory(0).frames && freePageFrameCount == InitialMemory(0).freeCount
    {
      pageFrameMap := new bool[PAGE_FRAME_MAX_COUNT](i => i == 0);
      freePageFrameCount := PAGE_FRAME_MAX_COUNT - 1;
    }

    method UpdatePageDirectoryEntry(dir: PageDirectory, physicalAddr: uint32, virtualAddr: uint32, flag: PageFlag)
      requires dir.table.Length == PAGE_ENTRY_COUNT
      modifies dir.table
      ensures var i, frame := PageIndex(virtualAddr), physicalAddr / PAGE_FRAME_SIZE;
              dir.table[..] == old(dir.table[..])[i := old(dir.table[i]).(flag := flag, lowerAddress := frame)]
      ensures forall i: nat :: Covers(i, virtualAddr) ==>
                && i < 1024 && dir.table[i].flag == flag && Covers(dir.table[i].lowerAddress, physicalAddr)
                && SameUnusedFields(dir.table[i], old(dir.table[..])[i])
      ensures forall i: nat :: i < 1024 && !Covers(i, virtualAddr) ==> dir.table[i] == old(dir.table[..])[i]
    {
      var pageIndex := PageIndex(virtualAddr);
      ghost var was := dir.table[..];
      forall i: nat
        ensures Covers(i, virtualAddr) <==> i == pageIndex
      {
        PageIndexCovers(virtualAddr, i);
      }
      dir.table[pageIndex] := dir.table[pageIndex].(flag := flag);
      dir.table[pageIndex] := dir.table[pageIndex].(lowerAddress := physicalAddr / PAGE_FRAME_SIZE);
    }

    method AllocateCheck(amount: uint32) returns (ok: bool)
      ensures ok == EnoughFrames(freePageFrameCount, amount)
      ensures ok <==> freePageFrameCount * 0x40_0000 % 0x1_0000_0000 >= amount
    {
      ok := freePageFrameCount * PAGE_FRAME_SIZE % 0x1_0000_0000 >= amount;
    }

    method AllocateUserPageFrame(dir: PageDirectory, virtualAddr: uint32) returns (ok: bool)
      requires Valid(dir)
      modifies this, pageFrameMap, dir.table
      ensures ok == CanAllocate(old(Now(dir))) && Now(dir) == Allocate(old(Now(dir)), 0, PageIndex(virtualAddr))
      ensures ok <==> exists f :: 0 <= f < 32 && !old(pageFrameMap[..])[f]
      ensures if ok then AllocatedFor(old(Now(dir)), 0, virtualAddr, Now(dir)) else Now(dir) == old(Now(dir))
    {
      AllocateFields(Now(dir), 0, virtualAddr);
      for i := 0 to PAGE_FRAME_MAX_COUNT
        invariant Now(dir) == old(Now(dir)) && forall k :: 0 <= k < i ==> pageFrameMap[k]
      {
        if !pageFrameMap[i] {
          assert i == FirstFree(pageFrameMap[..], 0);
          pageFrameMap[i] := true;
          freePageFrameCount := Decremented(freePageFrameCount);
          UpdatePageDirectoryEntry(dir, i * PAGE_FRAME_SIZE, virtualAddr, USER_FLAGS);
          return true;
        }
      }
      return false;
    }

    method FreeUserPageFrame(dir: PageDirectory, virtualAddr: uint32) returns (ok: bool)
      requires Valid(dir) && FreeDefined(Now(dir), 0, PageIndex(virtualAddr))
      modifies this, pageFrameMap, dir.table
      ensures ok == CanFree(old(Now(dir)), 0, PageIndex(virtualAddr))
          && Now(dir) == Free(old(Now(dir)), 0, PageIndex(virtualAddr))
      ensures ok <==> exists i: nat :: Mapping(old(Now(dir)), 0, i, virtualAddr)
      ensures if ok then FreedFor(old(Now(dir)), 0, virtualAddr, Now(dir)) else Now(dir) == old(Now(dir))
    {
      FreeFields(Now(dir), 0, virtualAddr);
      var pageIndex := PageIndex(virtualAddr);
      var e := dir.table[pageIndex];
      var physicalAddr := e.lowerAddress * PAGE_FRAME_SIZE;
      if e.flag.present && pageFrameMap[physicalAddr / PAGE_FRAME_SIZE] {
        pageFrameMap[physicalAddr / PAGE_FRAME_SIZE] := false;
        freePageFrameCount := Incremented(freePageFrameCount);
        dir.table[pageIndex] := ZERO_PAGE_ENTRY;
        return true;
      }
      return false;
    }
  }
}
