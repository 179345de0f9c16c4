/** The memory routines of src/stdlib/string.c. */
module CString {
  import opened Machine

  lemma SpliceByIndex(was: seq<byte>, at: nat, data: seq<byte>, now: seq<byte>)
    requires at + |data| <= |was| == |now|
    requires forall k :: at <= k < at + |data| ==> now[k] == data[k - at]
    requires forall k :: 0 <= k < |was| && !(at <= k < at + |data|) ==> now[k] == was[k]
    ensures now == Splice(was, at, data)
  {
  }

  method Memset(s: array<byte>, at: nat, c: int, n: nat)
    requires at + n <= s.Length
    modifies s
    ensures s[..] == Splice(old(s[..]), at, seq(n, i => c % 0x100))
  {
    ghost var was := s[..];
    for i := 0 to n
      invariant forall k :: at <= k < at + i ==> s[k] == c % 0x100
      invariant forall k :: 0 <= k < |was| && !(at <= k < at + i) ==> s[k] == was[k]
    {
      s[at + i] := c % 0x100;
    }
    hide Splice;
    SpliceByIndex(was, at, seq(n, i => c % 0x100), s[..]);
  }

  // The source declares both pointers restrict: the two ranges do not overlap.
  method Memcpy(dest: array<byte>, di: nat, src: array<byte>, si: nat, n: nat)
    requires di + n <= dest.Length && si + n <= src.Length
    requires dest != src || di + n <= si || si + n <= di
    modifies dest
    ensures dest[..] == Splice(old(dest[..]), di, old(src[..])[si..si + n])
  {
    ghost var was, from := dest[..], src[..];
    for i := 0 to n
      invariant forall k :: di <= k < di + i ==> dest[k] == from[k + (si - di)]
      invariant forall k :: 0 <= k < |was| && !(di <= k < di + i) ==> dest[k] == was[k]
    {
      dest[di + i] := src[si + i];
    }
    hide Splice;
    SpliceByIndex(was, di, from[si..si + n], dest[..]);
  }

  // Both pointers point into the same array, so the ranges may overlap either way.
  method Memmove(a: array<byte>, dest: nat, src: nat, n: nat)
    requires dest + n <= a.Length && src + n <= a.Length
    modifies a
    ensures a[..] == Splice(old(a[..]), dest, old(a[..])[src..src + n])
  {
    ghost var was := a[..];
    if dest < src {
      for i := 0 to n
        invariant forall k :: dest <= k < dest + i ==> a[k] == was[k + (src - dest)]
        invariant forall k :: 0 <= k < |was| && !(dest <= k < dest + i) ==> a[k] == was[k]
      {
        a[dest + i] := a[src + i];
      }
    } else {
      for i := n downto 0
        invariant forall k :: dest + i <= k < dest + n ==> a[k] == was[k + (src - dest)]
        invariant forall k :: 0 <= k < |was| && !(dest + i <= k < dest + n) ==> a[k] == was[k]
      {
        a[dest + i] := a[src + i];
      }
    }
    hide Splice;
    SpliceByIndex(was, dest, was[src..src + n], a[..]);
  }

  // Position i is the first at which the strings differ, and s is smaller there.
  ghost predicate SmallerAt(s: seq<byte>, t: seq<byte>, i: nat)
  {
    i < |s| && i < |t| && s[i] < t[i] && forall k :: 0 <= k < i ==> s[k] == t[k]
  }

  ghost predicate Less(s: seq<byte>, t: seq<byte>)
  {
    exists i: nat :: SmallerAt(s, t, i)
  }

  method Memcmp(s1: seq<byte>, s2: seq<byte>, n: nat) returns (r: int)
    requires n <= |s1| && n <= |s2|
    ensures r == -1 || r == 0 || r == 1
    ensures r == 0 <==> s1[..n] == s2[..n]
    ensures r == -1 <==> Less(s1[..n], s2[..n])
    ensures r == 1 <==> Less(s2[..n], s1[..n])
  {
    for i := 0 to n
      invariant forall k :: 0 <= k < i ==> s1[k] == s2[k]
    {
      if s1[i] < s2[i] {
        FirstDifference(s1[..n], s2[..n], i);
        return -1;
      } else if s1[i] > s2[i] {
        FirstDifference(s1[..n], s2[..n], i);
        return 1;
      }
    }
    return 0;
  }

  lemma FirstDifference(s: seq<byte>, t: seq<byte>, i: nat)
    requires i < |s| && i < |t| && s[i] != t[i]
    requires forall k :: 0 <= k < i ==> s[k] == t[k]
    ensures s != t
    ensures Less(s, t) <==> s[i] < t[i]
    ensures Less(t, s) <==> t[i] < s[i]
  {
    assert SmallerAt(s, t, i) <==> s[i] < t[i];
    assert SmallerAt(t, s, i) <==> t[i] < s[i];
  }

  lemma LessIsTransitive(s: seq<byte>, t: seq<byte>, u: seq<byte>)
    requires Less(s, t) && Less(t, u)
    ensures Less(s, u)
  {
    var i: nat :| SmallerAt(s, t, i);
    var j: nat :| SmallerAt(t, u, j);
    assert SmallerAt(s, u, if i <= j then i else j);
  }

  // Exactly one of s < t, s == t, t < s holds for strings of one length.
  lemma LessIsTotal(s: seq<byte>, t: seq<byte>)
    requires |s| == |t|
    ensures s == t <==> !Less(s, t) && !Less(t, s)
    ensures !(Less(s, t) && Less(t, s))
  {
    if s != t {
      var i := DifferenceIndex(s, t);
      FirstDifference(s, t, i);
    }
  }

  lemma DifferenceIndex(s: seq<byte>, t: seq<byte>) returns (i: nat)
    requires |s| == |t| && s != t
    ensures i < |s| && s[i] != t[i]
    ensures forall k :: 0 <= k < i ==> s[k] == t[k]
  {
    i := 0;
    while i < |s| && s[i] == t[i]
      invariant i <= |s| && forall k :: 0 <= k < i ==> s[k] == t[k]
    {
      i := i + 1;
    }
  }
}
