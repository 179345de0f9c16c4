/** The invariant under interruption: what every image in the history of a call still holds. */
module Durability {
  import opened Machine
  import opened Encoding
  import opened Allocation
  import opened FileTree
  import opened Storage
  import opened Operations

  // The file system an image holds, by itself.
  function Image(v: Volume): Fs
  {
    Fs(DecodeFat(v[FAT_CLUSTER_NUMBER]), v)
  }

  ghost predicate Sound(v: Volume, l: Layout)
  {
    Signed(v) && Consistent(Image(v), l)
  }

  // A wiped boot cluster carries no signature.
  lemma WipedBootIsUnsigned(v: Volume)
    requires v[0] == ZERO_CLUSTER
    ensures !Signed(v)
  {
    assert BlockAt(v, 0)[BLOCK_SIZE - 1] == 0 && Signature()[BLOCK_SIZE - 1] == SignatureByte(BLOCK_SIZE - 1) == 0x6B;
  }

  // Between calls the cached table is the one on disk.
  ghost predicate Synced(m: State)
  {
    m.fat == DecodeFat(m.disk.volume[FAT_CLUSTER_NUMBER])
  }

  ghost predicate Ready(m: State, l: Layout)
  {
    Synced(m) && Sound(m.disk.volume, l)
  }

  // ---------- changes no live entry can see ----------

  // v differs from v0 at most in the clusters s and their table words.
  ghost predicate Outside(v0: Volume, v: Volume, s: set<nat>)
  {
    && |v| == |v0|
    && (forall c :: 0 <= c < |v0| && c != FAT_CLUSTER_NUMBER && c !in s ==> v[c] == v0[c])
    && (forall i :: 0 <= i < CLUSTER_MAP_SIZE && i !in s ==>
      DecodeFat(v[FAT_CLUSTER_NUMBER])[i] == DecodeFat(v0[FAT_CLUSTER_NUMBER])[i])
  }

  ghost predicate Unclaimed(l: Layout, s: set<nat>)
  {
    forall c :: c in s ==> FIRST_DATA_CLUSTER <= c && c !in l.owner
  }

  lemma QuietImage(v0: Volume, l: Layout, v: Volume, s: set<nat>)
    requires Sound(v0, l) && Outside(v0, v, s) && Unclaimed(l, s)
    ensures Sound(v, l) && View(Image(v)) == View(Image(v0))
  {
    hide DecodeFat;
    forall c | c in l.owner && c < CLUSTER_MAP_SIZE
      ensures Image(v).fat[c] == Image(v0).fat[c] && v[c] == v0[c]
    {
      assert OwnerOk(Image(v0), l, c);
    }
    Frame(Image(v0), Image(v), l);
  }

  // d continues d0, and every image on the way differs from v0 only in s.
  ghost predicate QuietRun(v0: Volume, d0: Disk, d: Disk, s: set<nat>)
  {
    && |d0.history| <= |d.history| && d.history[..|d0.history|] == d0.history
    && (forall k {:trigger d.history[k]} :: |d0.history| <= k < |d.history| ==> Outside(v0, d.history[k], s))
    && Outside(v0, d.volume, s)
  }

  lemma TornElsewhere(v0: Volume, v: Volume, s: set<nat>, c: nat, data: Cluster, k: nat)
    requires Outside(v0, v, s) && c in s && c != FAT_CLUSTER_NUMBER && c < CLUSTER_MAP_SIZE && k <= CLUSTER_BLOCK_COUNT
    ensures Outside(v0, Torn(v, c, data, k), s)
    ensures Outside(v0, v[c := data], s)
  {
    hide DecodeFat;
  }

  lemma QuietPut(v0: Volume, d0: Disk, d: Disk, s: set<nat>, c: nat, data: Cluster)
    requires QuietRun(v0, d0, d, s) && c in s && c != FAT_CLUSTER_NUMBER && c < CLUSTER_MAP_SIZE
    ensures QuietRun(v0, d0, PutCluster(d, c, data), s)
  {
    hide Outside, Torn;
    forall k | 0 <= k <= CLUSTER_BLOCK_COUNT
      ensures Outside(v0, Torn(d.volume, c, data, k), s) && Outside(v0, d.volume[c := data], s)
    {
      TornElsewhere(v0, d.volume, s, c, data, k);
    }
  }

  // A torn table holds, word by word, either the old value or the new one.
  lemma TornFatWord(was: Cluster, data: Cluster, k: nat, i: nat)
    requires k <= CLUSTER_BLOCK_COUNT && i < CLUSTER_MAP_SIZE
    ensures var torn := data[..BLOCK_SIZE * k] + was[BLOCK_SIZE * k..];
            DecodeFat(torn)[i] == DecodeFat(if 4 * i < BLOCK_SIZE * k then data else was)[i]
  {
    var torn := data[..BLOCK_SIZE * k] + was[BLOCK_SIZE * k..];
    var from := if 4 * i < BLOCK_SIZE * k then data else was;
    assert BLOCK_SIZE * k == 4 * (128 * k);
    assert torn[4 * i] == from[4 * i] && torn[4 * i + 1] == from[4 * i + 1];
    assert torn[4 * i + 2] == from[4 * i + 2] && torn[4 * i + 3] == from[4 * i + 3];
  }

  lemma TornTable(v0: Volume, v: Volume, s: set<nat>, fat: Fat, k: nat)
    requires Outside(v0, v, s) && k <= CLUSTER_BLOCK_COUNT
    requires forall i :: 0 <= i < CLUSTER_MAP_SIZE && i !in s ==> fat[i] == DecodeFat(v0[FAT_CLUSTER_NUMBER])[i]
    ensures Outside(v0, Torn(v, FAT_CLUSTER_NUMBER, EncodeFat(fat), k), s)
    ensures Outside(v0, v[FAT_CLUSTER_NUMBER := EncodeFat(fat)], s)
  {
    FatRoundTrip(fat);
    hide DecodeFat, EncodeFat;
    var v' := Torn(v, FAT_CLUSTER_NUMBER, EncodeFat(fat), k);
    forall i | 0 <= i < CLUSTER_MAP_SIZE && i !in s
      ensures DecodeFat(v'[FAT_CLUSTER_NUMBER])[i] == DecodeFat(v0[FAT_CLUSTER_NUMBER])[i]
    {
      TornFatWord(v[FAT_CLUSTER_NUMBER], EncodeFat(fat), k, i);
    }
  }

  lemma QuietFlush(v0: Volume, d0: Disk, d: Disk, s: set<nat>, fat: Fat)
    requires QuietRun(v0, d0, d, s)
    requires forall i :: 0 <= i < CLUSTER_MAP_SIZE && i !in s ==> fat[i] == DecodeFat(v0[FAT_CLUSTER_NUMBER])[i]
    ensures QuietRun(v0, d0, PutCluster(d, FAT_CLUSTER_NUMBER, EncodeFat(fat)), s)
  {
    hide DecodeFat, EncodeFat, Outside, Torn;
    forall k | 0 <= k <= CLUSTER_BLOCK_COUNT
      ensures Outside(v0, Torn(d.volume, FAT_CLUSTER_NUMBER, EncodeFat(fat), k), s)
      ensures Outside(v0, d.volume[FAT_CLUSTER_NUMBER := EncodeFat(fat)], s)
    {
      TornTable(v0, d.volume, s, fat, k);
    }
  }

  // Rewriting a table with one slot changed is atomic: a slot never straddles two blocks.
  lemma OneSlotWriteIsAtomic(v: Volume, p: nat, slot: nat, e: Entry, k: nat)
    requires p < CLUSTER_MAP_SIZE && slot < ENTRY_COUNT && k <= CLUSTER_BLOCK_COUNT
    ensures Torn(v, p, PutEntry(v[p], slot, e), k) == if BLOCK_SIZE * k <= ENTRY_SIZE * slot then v
        else v[p := PutEntry(v[p], slot, e)]
  {
    var c, c' := v[p], PutEntry(v[p], slot, e);
    var torn := c'[..BLOCK_SIZE * k] + c[BLOCK_SIZE * k..];
    if BLOCK_SIZE * k <= ENTRY_SIZE * slot {
      assert torn == c;
    } else {
      assert BLOCK_SIZE * k == ENTRY_SIZE * (16 * k);
      assert slot + 1 <= 16 * k;
      assert torn == c';
    }
  }

  function StoreEntry(m: State, p: nat, slot: nat, e: Entry): State
    requires p < CLUSTER_MAP_SIZE && slot < ENTRY_COUNT
  {
    Put(m, p, PutEntry(m.disk.volume[p], slot, e))
  }

  lemma StoreChangesOneSlot(m: State, p: nat, slot: nat, e: Entry)
    requires ROOT_CLUSTER_NUMBER <= p < CLUSTER_MAP_SIZE && slot < ENTRY_COUNT
    ensures var v, v' := m.disk.volume, StoreEntry(m, p, slot, e).disk.volume;
            && |v'| == |v| && Image(v').fat == Image(v).fat && (Signed(v') <==> Signed(v))
            && TableAt(Image(v'), p) == TableAt(Image(v), p)[slot := e]
            && (forall c :: 0 <= c < |v| && c != p ==> v'[c] == v[c])
  {
    PutEntryChangesOneSlot(m.disk.volume[p], slot, e);
    hide DecodeTable, DecodeFat, PutEntry;
  }
}
