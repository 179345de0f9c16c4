/** Cluster allocation: how many clusters a file needs, which are free, and the chains that link them. */
module Allocation {
  import opened Machine
  import opened Encoding

  const FAT_END_OF_FILE: uint32 := 0x0FFF_FFFF
  const FAT_EMPTY_ENTRY: uint32 := 0
  const CLUSTER_0_VALUE: uint32 := 0x0FFF_FFF0
  const CLUSTER_1_VALUE: uint32 := 0x0FFF_FFFF
  const FAT_CLUSTER_NUMBER := 1
  const ROOT_CLUSTER_NUMBER := 2
  const FIRST_DATA_CLUSTER := 3

  // ---------- the size computation ----------

  // Distance between neighbouring single-precision numbers at n.
  function SinglePrecisionStep(n: uint32): (u: nat)
    ensures u > 0
  {
    if n < 0x100_0000 then 1 else if n < 0x200_0000 then 2 else if n < 0x400_0000 then 4
    else if n < 0x800_0000 then 8 else if n < 0x1000_0000 then 16 else if n < 0x2000_0000 then 32
    else if n < 0x4000_0000 then 64 else if n < 0x8000_0000 then 128 else 256
  }

  // Conversion of a uint32 to float: nearest representable number, ties to even.
  function ToSingle(n: uint32): nat
  {
    var u := SinglePrecisionStep(n);
    var q, r := n / u, n % u;
    if 2 * r > u || (2 * r == u && q % 2 == 1) then (q + 1) * u else q * u
  }

  // A single-precision number has 24 significant bits: with u the power of two at which they end for n, the
  // conversion gives the multiple of u nearest to n, and the even one of two that are equally near.
  lemma ToSingleIsNearest(n: uint32, u: nat)
    requires u in {1, 2, 4, 8, 16, 32, 64, 128, 256}
    requires n < 0x100_0000 * u && (u == 1 || 0x80_0000 * u <= n)
    ensures exists k: nat :: ToSingle(n) == k * u && 2 * n <= 2 * (k * u) + u && 2 * (k * u) <= 2 * n + u
                             && (2 * n == 2 * (k * u) + u || 2 * (k * u) == 2 * n + u ==> k % 2 == 0)
  {
    assert SinglePrecisionStep(n) == u;
    hide SinglePrecisionStep;
    var q, r := n / u, n % u;
    NextMultiple(n, u, q);
    var k := if 2 * r > u || (2 * r == u && q % 2 == 1) then q + 1 else q;
    assert ToSingle(n) == k * u;
  }

  lemma NextMultiple(n: nat, u: nat, q: nat)
    requires u > 0 && q == n / u
    ensures (q + 1) * u == q * u + u && n == q * u + n % u && 0 <= n % u < u
  {
  }

  // The driver's ceil: the result is truncated to eight bits.
  function Ceil(n: real): byte
  {
    if n.Floor as real == n then n.Floor % 0x100 else (n.Floor + 1) % 0x100
  }

  function Required(size: uint32): byte
  {
    Ceil(ToSingle(size) as real / CLUSTER_SIZE as real)
  }

  function ClustersFor(size: nat): nat
  {
    (size + CLUSTER_SIZE - 1) / CLUSTER_SIZE
  }

  // The computed count is the true one for the rounded size, modulo 256; in particular it is zero exactly when
  // that count is a multiple of 256, which leaves write with a slot buffer of length zero.
  lemma RequiredIsCeilingModulo(size: uint32)
    ensures Required(size) as nat == ClustersFor(ToSingle(size)) % 0x100
    ensures size < 0x100_0000 ==> ToSingle(size) == size
  {
    hide ToSingle, Ceil;
    CeilOfQuotient(ToSingle(size));
    SmallIsExact(size);
  }

  lemma SmallIsExact(size: uint32)
    ensures size < 0x100_0000 ==> ToSingle(size) == size
  {
  }

  // The computed cluster count is the true one exactly for files of at most 255 clusters.
  lemma RequiredIsCeilingIffSmall(size: uint32)
    ensures Required(size) as nat == ClustersFor(size) <==> size <= 255 * CLUSTER_SIZE
  {
    hide ToSingle, Required;
    RequiredIsCeilingModulo(size);
    if size > 255 * CLUSTER_SIZE {
      assert ClustersFor(size) >= 256;
    }
  }

  lemma CeilOfQuotient(size: nat)
    ensures Ceil(size as real / CLUSTER_SIZE as real) as nat == ClustersFor(size) % 0x100
  {
    var q, r := size / CLUSTER_SIZE, size % CLUSTER_SIZE;
    var x := size as real / CLUSTER_SIZE as real;
    assert size == CLUSTER_SIZE * q + r;
    assert x == q as real + r as real / CLUSTER_SIZE as real;
    assert x.Floor == q;
  }

  // ---------- free clusters ----------

  function FreeFrom(fat: Fat, i: nat): (r: seq<nat>)
    requires i <= CLUSTER_MAP_SIZE
    ensures forall c :: c in r <==> i <= c < CLUSTER_MAP_SIZE && fat[c] == FAT_EMPTY_ENTRY
    ensures Ascending(r)
    decreases |fat| - i
  {
    if i == CLUSTER_MAP_SIZE then []
    else if fat[i] == FAT_EMPTY_ENTRY then
      var rest := FreeFrom(fat, i + 1);
      assert forall k :: 0 <= k < |rest| ==> rest[k] in rest;
      [i] + rest
    else FreeFrom(fat, i + 1)
  }

  function FreeClusters(fat: Fat): seq<nat>
  {
    FreeFrom(fat, 0)
  }

  function LowestFree(fat: Fat, n: nat): (r: seq<nat>)
    requires n <= |FreeClusters(fat)|
    ensures |r| == n && Ascending(r)
    ensures forall c :: c in r ==> c < CLUSTER_MAP_SIZE && fat[c] == FAT_EMPTY_ENTRY
  {
    var r := FreeClusters(fat)[..n];
    assert forall c :: c in r ==> c in FreeClusters(fat);
    r
  }

  predicate Ascending(s: seq<nat>)
  {
    forall i, j :: 0 <= i < j < |s| ==> s[i] < s[j]
  }

  lemma {:induction false} AscendingIsDetermined(s: seq<nat>, t: seq<nat>)
    requires Ascending(s) && Ascending(t)
    requires forall c :: c in s <==> c in t
    ensures s == t
  {
    if s == [] {
      EmptyOrInhabited(t);
    } else {
      assert s[0] in t && t[0] in s;
      assert s[0] == t[0];
      forall c
        ensures c in s[1..] <==> c in t[1..]
      {
        assert c in s[1..] <==> c in s && c != s[0];
        assert c in t[1..] <==> c in t && c != t[0];
      }
      AscendingIsDetermined(s[1..], t[1..]);
      assert s == [s[0]] + s[1..] && t == [t[0]] + t[1..];
    }
  }

  lemma EmptyOrInhabited(s: seq<nat>)
    ensures s == [] || exists c :: c in s
  {
    if s != [] {
      assert s[0] in s;
    }
  }

  function Elements(s: seq<nat>): set<nat>
  {
    set c | c in s
  }

  lemma {:induction false} ElementsSize(s: seq<nat>)
    requires Ascending(s)
    ensures |Elements(s)| == |s|
  {
    if s == [] {
      assert Elements(s) == {};
    } else {
      var n := |s| - 1;
      ElementsSize(s[..n]);
      assert s == s[..n] + [s[n]];
      assert Elements(s) == Elements(s[..n]) + {s[n]};
      assert forall i :: 0 <= i < n ==> s[..n][i] == s[i] && s[i] != s[n];
      assert s[n] !in s[..n];
    }
  }

  lemma FreeListAscends(fat: Fat)
    ensures Ascending(FreeClusters(fat))
  {
  }

  // Occupying the n lowest free clusters removes exactly those from the free list.
  lemma FreeAfterTaking(fat: Fat, fat': Fat, n: nat)
    requires n <= |FreeClusters(fat)|
    requires forall c :: 0 <= c < CLUSTER_MAP_SIZE ==>
        (fat'[c] == FAT_EMPTY_ENTRY <==> fat[c] == FAT_EMPTY_ENTRY && c !in LowestFree(fat, n))
    ensures FreeClusters(fat') == FreeClusters(fat)[n..]
  {
    var free := FreeClusters(fat);
    assert free == free[..n] + free[n..];
    AscendingSplit(free, n);
    assert forall c :: c in free <==> c in free[..n] || c in free[n..];
    AscendingIsDetermined(FreeClusters(fat'), free[n..]);
  }

  lemma AscendingSplit(s: seq<nat>, n: nat)
    requires Ascending(s) && n <= |s|
    ensures forall c :: c in s[..n] ==> c !in s[n..]
  {
    forall c | c in s[..n]
      ensures c !in s[n..]
    {
      var i :| 0 <= i < n && s[i] == c;
      assert forall k :: 0 <= k < |s[n..]| ==> s[n..][k] == s[n + k] && s[n + k] > s[i];
    }
  }

  // Emptying occupied words adds exactly those clusters to the free list.
  lemma FreeAfterReleasing(fat: Fat, fat': Fat, chain: seq<nat>)
    requires Ascending(chain) && forall c :: c in chain ==> c < CLUSTER_MAP_SIZE && fat[c] != FAT_EMPTY_ENTRY
    requires forall c :: 0 <= c < CLUSTER_MAP_SIZE ==> fat'[c] == if c in chain then FAT_EMPTY_ENTRY else fat[c]
    ensures |FreeClusters(fat')| == |FreeClusters(fat)| + |chain|
  {
    var before, after, freed := Elements(FreeClusters(fat)), Elements(FreeClusters(fat')), Elements(chain);
    forall c: nat
      ensures c in after <==> c in before || c in freed
      ensures !(c in before && c in freed)
    {
    }
    assert after == before + freed && before !! freed;
    FreeListAscends(fat);
    FreeListAscends(fat');
    ElementsSize(FreeClusters(fat));
    ElementsSize(FreeClusters(fat'));
    ElementsSize(chain);
  }

  // ---------- chains ----------

  // Following the table from c stays in range, climbs, and ends at the end-of-file mark.
  predicate ChainOk(fat: Fat, c: nat)
    decreases |fat| - c
  {
    FIRST_DATA_CLUSTER <= c < CLUSTER_MAP_SIZE && (fat[c] == FAT_END_OF_FILE || (c < fat[c] && ChainOk(fat, fat[c])))
  }

  function Chain(fat: Fat, c: nat): (r: seq<nat>)
    requires ChainOk(fat, c)
    ensures r != [] && r[0] == c
    ensures forall x :: x in r ==> c <= x < CLUSTER_MAP_SIZE && fat[x] != FAT_EMPTY_ENTRY
    decreases |fat| - c
  {
    if fat[c] == FAT_END_OF_FILE then [c] else [c] + Chain(fat, fat[c])
  }

  predicate Linked(fat: Fat, slots: seq<nat>, n: nat)
    requires n <= |slots|
  {
    forall i :: 0 <= i < n ==>
      slots[i] < CLUSTER_MAP_SIZE && fat[slots[i]] as nat == if i + 1 < |slots| then slots[i + 1] else FAT_END_OF_FILE
  }

  lemma NextInChain(fat: Fat, chain: seq<nat>, k: nat)
    requires Linked(fat, chain, |chain|) && k < |chain|
    ensures chain[k] < CLUSTER_MAP_SIZE && fat[chain[k]] as nat == if k + 1 < |chain| then chain[k + 1]
        else FAT_END_OF_FILE
  {
  }

  lemma {:induction false} ChainLinks(fat: Fat, c: nat)
    requires ChainOk(fat, c)
    ensures Ascending(Chain(fat, c))
    ensures Linked(fat, Chain(fat, c), |Chain(fat, c)|)
    decreases |fat| - c
  {
    if fat[c] == FAT_END_OF_FILE {
      assert Chain(fat, c) == [c];
    } else {
      ChainLinks(fat, fat[c]);
      var r, t := Chain(fat, c), Chain(fat, fat[c]);
      forall i | 0 <= i < |r|
        ensures r[i] == if i == 0 then c else t[i - 1]
      {
      }
      forall i, j | 0 <= i < j < |r|
        ensures r[i] < r[j]
      {
        assert t[j - 1] in t;
      }
      forall i | 0 <= i < |r|
        ensures r[i] < CLUSTER_MAP_SIZE && fat[r[i]] as nat == if i + 1 < |r| then r[i + 1] else FAT_END_OF_FILE
      {
        assert t[0] as int == fat[c] && |r| == |t| + 1;
        if i == 0 {
          assert r[i] == c && r[i + 1] == t[0];
        } else {
          assert r[i] == t[i - 1] && (i + 1 < |r| ==> r[i + 1] == t[i]);
          assert fat[t[i - 1]] as nat == if i < |t| then t[i] else FAT_END_OF_FILE;
        }
      }
      assert Linked(fat, r, |r|);
    }
  }

  // A chain depends only on the table words of its own clusters.
  lemma {:induction false} ChainFrame(fat: Fat, fat': Fat, c: nat)
    requires ChainOk(fat, c)
    requires forall x :: x in Chain(fat, c) ==> fat'[x] == fat[x]
    ensures ChainOk(fat', c) && Chain(fat', c) == Chain(fat, c)
    decreases |fat| - c
  {
    assert c in Chain(fat, c);
    if fat[c] != FAT_END_OF_FILE {
      assert forall x :: x in Chain(fat, fat[c]) ==> x in Chain(fat, c);
      ChainFrame(fat, fat', fat[c]);
    }
  }

  // Linking ascending clusters one to the next makes them a chain.
  lemma {:induction false} LinkedIsChain(fat: Fat, slots: seq<nat>, k: nat)
    requires Ascending(slots) && k < |slots|
    requires forall c :: c in slots ==> FIRST_DATA_CLUSTER <= c < CLUSTER_MAP_SIZE
    requires Linked(fat, slots, |slots|)
    ensures ChainOk(fat, slots[k]) && Chain(fat, slots[k]) == slots[k..]
    decreases |slots| - k
  {
    assert slots[k] in slots;
    if k + 1 == |slots| {
      assert slots[k..] == [slots[k]];
    } else {
      assert slots[k + 1] in slots;
      LinkedIsChain(fat, slots, k + 1);
      assert slots[k..] == [slots[k]] + slots[k + 1..];
    }
  }
}
