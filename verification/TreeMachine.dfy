/** The file system as its callers see it: a tree of named nodes, a number of free clusters, and the calls on them. */
module TreeMachine {
  import opened Machine
  import opened Encoding
  import opened FileTree
  import opened Operations
  import opened Writing
  import opened Reading

  datatype Call =
    | WriteCall(r: Request, buf: seq<byte>)
    | DeleteCall(r: Request)
    | ReadCall(r: Request)
    | ReadDirectoryCall(r: Request)
    | MountCall

  // The return code, and the clusters handed out by the two reads.
  datatype Outcome = Outcome(code: int, data: seq<Cluster>)

  datatype World = World(tree: Tree, free: nat)

  ghost predicate FolderAt(t: Tree, pp: Path, d: nat)
  {
    pp in t && t[pp] == Folder(d)
  }

  ghost predicate InTree(t: Tree, d: nat)
  {
    exists pp :: FolderAt(t, pp, d)
  }

  function Size(n: Node): nat
  {
    match n
    case Folder(_) => 1
    case File(_, data) => |data|
  }

  // ---------- the calls inside the folder at pp ----------

  // The node a write call asks for; a folder gets a cluster no folder of the tree has.
  ghost predicate Wanted(t: Tree, r: Request, buf: seq<byte>, n: Node)
  {
    if r.bufferSize == 0 then n.Folder? && (forall y :: y in t ==> t[y] != n)
    else |buf| >= CLUSTER_SIZE * Needed(r) && n == File(r.bufferSize, Chunks(buf, Needed(r)))
  }

  ghost predicate Adds(t: Tree, pp: Path, r: Request, buf: seq<byte>, t': Tree)
  {
    var x := pp + [RequestKey(r)];
    x !in t && x in t' && Wanted(t, r, buf, t'[x]) && t' == t[x := t'[x]]
  }

  ghost predicate Removes(t: Tree, x: Path, t': Tree)
  {
    Leaf(t, x) && x !in t' && t == t'[x := t[x]]
  }

  ghost predicate WritesAt(w: World, pp: Path, r: Request, buf: seq<byte>, o: Outcome, w': World)
  {
    if pp + [RequestKey(r)] in w.tree || OwnName(pp, RequestKey(r)) then o == Outcome(1, []) && w' == w
    else if Full(w.tree, pp) || w.free < Needed(r) then o == Outcome(-1, []) && w' == w
    else o == Outcome(0, []) && Adds(w.tree, pp, r, buf, w'.tree) && w'.free == w.free - Needed(r)
  }

  ghost predicate DeletesAt(w: World, pp: Path, r: Request, o: Outcome, w': World)
  {
    var x := pp + [RequestKey(r)];
    if Leaf(w.tree, x) then
      o == Outcome(0, []) && Removes(w.tree, x, w'.tree) && w'.free == w.free + Size(w.tree[x])
    else
      o == Outcome(if x in w.tree || OwnName(pp, RequestKey(r)) then 2 else 1, []) && w' == w
  }

  ghost predicate ReadsAt(t: Tree, pp: Path, r: Request, o: Outcome)
  {
    var x := pp + [RequestKey(r)];
    if x in t && t[x].File? then
      o == if r.bufferSize / CLUSTER_SIZE < |t[x].data| then Outcome(-1, []) else Outcome(0, t[x].data)
    else
      o == Outcome(if x in t || OwnName(pp, RequestKey(r)) then 1 else 2, [])
  }

  // An entry of a directory listing that describes the node.
  predicate Describes(e: Entry, n: Node)
  {
    match n
    case Folder(c) => IsFolder(e) && FirstCluster(e) == c
    case File(size, _) => !IsFolder(e) && e.filesize == size
  }

  // The used slots from 2 on name and describe exactly the nodes one step below pp.
  ghost predicate Lists(t: Tree, pp: Path, data: Cluster)
  {
    var table := DecodeTable(data);
    && NamesBelow(t, pp, ChildNames(table, ENTRY_COUNT))
    && forall s :: 2 <= s < ENTRY_COUNT && Used(table[s]) ==>
         pp + [KeyOf(table[s])] in t && Describes(table[s], t[pp + [KeyOf(table[s])]])
  }

  // What the root gives under its own name is the boot cluster, of which the tree knows nothing.
  ghost predicate ListsAt(t: Tree, pp: Path, r: Request, o: Outcome)
  {
    var k, x := RequestKey(r), pp + [RequestKey(r)];
    if !(OwnName(pp, k) || (x in t && t[x].Folder?)) then o == Outcome(if x in t then 1 else 2, [])
    else if r.bufferSize < ENTRY_SIZE then o == Outcome(-1, [])
    else o.code == 0 && |o.data| == 1 && ((pp == [] && k == SelfKey(pp)) || Lists(t, Answering(pp, k), o.data[0]))
  }

  // ---------- one call ----------

  ghost predicate PerformsAt(w: World, pp: Path, c: Call, o: Outcome, w': World)
  {
    match c
    case WriteCall(r, buf) => WritesAt(w, pp, r, buf, o, w')
    case DeleteCall(r) => DeletesAt(w, pp, r, o, w')
    case ReadCall(r) => w' == w && ReadsAt(w.tree, pp, r, o)
    case ReadDirectoryCall(r) => w' == w && ListsAt(w.tree, pp, r, o)
    case MountCall => w' == w && o == Outcome(0, [])
  }

  // A parent that is no folder of the tree is turned down with 2, except by read_directory, which does not look.
  ghost predicate Performs(w: World, c: Call, o: Outcome, w': World)
  {
    if c.MountCall? then w' == w && o == Outcome(0, [])
    else if InTree(w.tree, c.r.parent) then
      exists pp :: FolderAt(w.tree, pp, c.r.parent) && PerformsAt(w, pp, c, o, w')
    else w' == w && (c.ReadDirectoryCall? || o == Outcome(2, []))
  }

  // No two paths lead to the same folder.
  ghost predicate Branching(t: Tree)
  {
    forall p, q, d: nat :: FolderAt(t, p, d) && FolderAt(t, q, d) ==> p == q
  }

  lemma AddsIsDetermined(t: Tree, pp: Path, r: Request, buf: seq<byte>, t1: Tree, t2: Tree)
    requires Adds(t, pp, r, buf, t1) && Adds(t, pp, r, buf, t2)
    ensures forall y :: y in t1 <==> y in t2
    ensures r.bufferSize != 0 ==> t1 == t2
  {
    var x := pp + [RequestKey(r)];
    assert forall y :: y in t1 <==> y in t || y == x;
    assert forall y :: y in t2 <==> y in t || y == x;
  }

  lemma RemovesIsDetermined(t: Tree, x: Path, t1: Tree, t2: Tree)
    requires Removes(t, x, t1) && Removes(t, x, t2)
    ensures t1 == t2
  {
    assert forall y :: y != x && y in t1 <==> y != x && y in t;
    assert forall y :: y != x && y in t2 <==> y != x && y in t;
    assert forall y :: y in t1 ==> t[y] == t1[y];
    assert forall y :: y in t2 ==> t[y] == t2[y];
  }

  // The machine leaves no choice but the cluster number of a new folder and what the boot cluster holds.
  lemma OutcomeIsDetermined(w: World, c: Call, o1: Outcome, w1: World, o2: Outcome, w2: World)
    requires Branching(w.tree) && Performs(w, c, o1, w1) && Performs(w, c, o2, w2)
    requires c.ReadDirectoryCall? ==> InTree(w.tree, c.r.parent)
    ensures o1.code == o2.code && (!c.ReadDirectoryCall? ==> o1 == o2)
    ensures w1.free == w2.free && forall y :: y in w1.tree <==> y in w2.tree
    ensures !c.WriteCall? || c.r.bufferSize != 0 ==> w1.tree == w2.tree
  {
    hide Full, OwnName, Lists, DecodeTable, Adds, Removes;
    if !c.MountCall? && InTree(w.tree, c.r.parent) {
      var p :| FolderAt(w.tree, p, c.r.parent) && PerformsAt(w, p, c, o1, w1);
      var q :| FolderAt(w.tree, q, c.r.parent) && PerformsAt(w, q, c, o2, w2);
      assert p == q;
      if c.WriteCall? && o1.code == 0 {
        AddsIsDetermined(w.tree, p, c.r, c.buf, w1.tree, w2.tree);
      } else if c.DeleteCall? && o1.code == 0 {
        RemovesIsDetermined(w.tree, p + [RequestKey(c.r)], w1.tree, w2.tree);
      }
    }
  }
}
