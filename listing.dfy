/**
 * Directory listing: enumerate the entries, mark directories with a trailing
 * `/`, sort by name, and fill in the index record.
 */
module Listing {
  import opened Paths
  import opened NameOrder
  import opened Records

  /** The entry the enumeration records for `name` inside `dir`. */
  function Tag(fs: FileSystem, dir: string, name: string): FileEntry {
    if IsDir(fs, Push(dir, name)) then FileEntry(name + "/", true) else FileEntry(name, false)
  }

  /** The entries recorded for `names`, in enumeration order. */
  function Tagged(fs: FileSystem, dir: string, names: seq<string>): seq<FileEntry> {
    seq(|names|, i requires 0 <= i < |names| => Tag(fs, dir, names[i]))
  }

  predicate SortedByName(s: seq<FileEntry>) {
    forall i, j :: 0 <= i < j < |s| ==> NameLe(s[i].name, s[j].name)
  }

  /** Exchanges two entries of `a`. */
  method Swap(a: array<FileEntry>, i: nat, j: nat)
    requires i < j < a.Length
    modifies a
    ensures a[..] == old(a[..])[i := old(a[j])][j := old(a[i])]
    ensures multiset(a[..]) == multiset(old(a[..]))
  {
    a[i], a[j] := a[j], a[i];
  }

  /**
   * `s[..n + 1]` is in name order except at position `j`, and `s[j]` is
   * ordered before everything after it: the state of an insertion step.
   */
  ghost predicate SortedExcept(s: seq<FileEntry>, n: nat, j: nat)
    requires j <= n < |s|
  {
    && (forall k, l :: 0 <= k < l <= n && k != j && l != j ==> NameLe(s[k].name, s[l].name))
    && (forall l :: j < l <= n ==> NameLe(s[j].name, s[l].name))
  }

  lemma InsertStart(s: seq<FileEntry>, n: nat)
    requires n < |s| && SortedByName(s[..n])
    ensures SortedExcept(s, n, n)
  {
    assert forall k :: 0 <= k < n ==> s[..n][k] == s[k];
  }

  /** Swapping an out-of-order `s[j]` with its left neighbour moves the gap one place left. */
  lemma InsertSwap(s: seq<FileEntry>, n: nat, j: nat)
    requires 0 < j <= n < |s| && SortedExcept(s, n, j) && !NameLe(s[j - 1].name, s[j].name)
    ensures SortedExcept(s[j - 1 := s[j]][j := s[j - 1]], n, j - 1)
  {
    NameLeTotal(s[j - 1].name, s[j].name);
  }

  /** Once `s[j]` is in order with its left neighbour, the whole prefix is sorted. */
  lemma InsertDone(s: seq<FileEntry>, n: nat, j: nat)
    requires j <= n < |s| && SortedExcept(s, n, j) && (j == 0 || NameLe(s[j - 1].name, s[j].name))
    ensures SortedByName(s[..n + 1])
  {
    forall k, l | 0 <= k < l <= n
      ensures NameLe(s[k].name, s[l].name)
    {
      if l == j && k < j - 1 {
        NameLeTrans(s[k].name, s[j - 1].name, s[j].name);
      }
    }
    assert forall k :: 0 <= k <= n ==> s[..n + 1][k] == s[k];
  }

  /** Moves `a[i]` down into the sorted prefix `a[..i]`, leaving the rest alone. */
  method Insert(a: array<FileEntry>, i: nat)
    requires i < a.Length && SortedByName(a[..i])
    modifies a
    ensures SortedByName(a[..i + 1])
    ensures multiset(a[..]) == multiset(old(a[..]))
    ensures a[i + 1..] == old(a[i + 1..])
  {
    InsertStart(a[..], i);
    var j := i;
    while j > 0 && !NameLe(a[j - 1].name, a[j].name)
      invariant 0 <= j <= i
      invariant SortedExcept(a[..], i, j)
      invariant multiset(a[..]) == multiset(old(a[..]))
      invariant a[i + 1..] == old(a[i + 1..])
    {
      InsertSwap(a[..], i, j);
      Swap(a, j - 1, j);
      j := j - 1;
    }
    InsertDone(a[..], i, j);
  }

  /** The `sort_by` on entry names in `on_get`, done as an insertion sort. */
  method SortByName(a: array<FileEntry>)
    modifies a
    ensures SortedByName(a[..])
    ensures multiset(a[..]) == multiset(old(a[..]))
  {
    for i := 0 to a.Length
      invariant SortedByName(a[..i])
      invariant multiset(a[..]) == multiset(old(a[..]))
    {
      Insert(a, i);
    }
    assert a[..] == a[..a.Length];
  }

  /**
   * The enumeration loop and the sort of `on_get`: every entry tagged, then
   * sorted by name.
   */
  method ListDirectory(fs: FileSystem, dir: string, names: seq<string>) returns (files: seq<FileEntry>)
    ensures SortedByName(files)
    ensures multiset(files) == multiset(Tagged(fs, dir, names))
  {
    var entries: seq<FileEntry> := [];
    var i := 0;
    while i < |names|
      invariant 0 <= i <= |names|
      invariant |entries| == i
      invariant forall k :: 0 <= k < i ==> entries[k] == Tag(fs, dir, names[k])
    {
      var name := names[i];
      var isDir := false;
      if IsDir(fs, Push(dir, name)) {
        name := name + "/";
        isDir := true;
      }
      entries := entries + [FileEntry(name, isDir)];
      i := i + 1;
    }
    assert entries == Tagged(fs, dir, names);
    var a := new FileEntry[|entries|](k requires 0 <= k < |entries| => entries[k]);
    assert a[..] == entries;
    SortByName(a);
    files := a[..];
  }

  /** The index record for directory `path`, enumerated as `names`, requested as `full`. */
  ghost predicate IsIndexFor(c: IndexContent, tools: Tools, fs: FileSystem, path: string, names: seq<string>, full: string) {
    && SortedByName(c.files)
    && multiset(c.files) == multiset(Tagged(fs, path, names))
    && c.full_current_dir == CanonicalName(tools, path)
    && c.current_dir == TrimEndMatches(full, '/')
    && c.has_parent == (full != "/")
  }

  /** Builds the `IndexContent` of `on_get`. */
  method BuildIndex(tools: Tools, fs: FileSystem, path: string, names: seq<string>, full: string)
    returns (c: IndexContent)
    ensures IsIndexFor(c, tools, fs, path, names, full)
  {
    var files := ListDirectory(fs, path, names);
    c := IndexContent(files, CanonicalName(tools, path), TrimEndMatches(full, '/'), full != "/");
  }

  /**
   * A listing holds one entry per enumerated name: a directory's name with
   * `/` appended and `is_dir` set, any other name unchanged and `is_dir` clear.
   */
  lemma ListingEntries(c: IndexContent, tools: Tools, fs: FileSystem, path: string, names: seq<string>, full: string)
    requires IsIndexFor(c, tools, fs, path, names, full)
    ensures |c.files| == |names|
    ensures forall e :: e in c.files ==>
      exists k :: 0 <= k < |names| && (if IsDir(fs, Push(path, names[k])) then e == FileEntry(names[k] + "/", true) else e == FileEntry(names[k], false))
    ensures forall k :: 0 <= k < |names| ==> Tag(fs, path, names[k]) in c.files
  {
    var t := Tagged(fs, path, names);
    SameElements(c.files, t);
    forall e | e in c.files
      ensures exists k :: 0 <= k < |names| && (if IsDir(fs, Push(path, names[k])) then e == FileEntry(names[k] + "/", true) else e == FileEntry(names[k], false))
    {
      var k :| 0 <= k < |t| && t[k] == e;
      assert e == Tag(fs, path, names[k]);
    }
    forall k | 0 <= k < |names|
      ensures Tag(fs, path, names[k]) in c.files
    {
      assert t[k] in t;
    }
  }

  /** A permutation has the same length and the same elements. */
  lemma SameElements(s: seq<FileEntry>, t: seq<FileEntry>)
    requires multiset(s) == multiset(t)
    ensures |s| == |t|
    ensures forall e :: e in s <==> e in t
  {
    assert |s| == |multiset(s)| == |multiset(t)| == |t|;
    forall e
      ensures e in s <==> e in t
    {
      assert e in s <==> e in multiset(s);
      assert e in t <==> e in multiset(t);
    }
  }

  predicate DistinctNames(s: seq<FileEntry>) {
    forall i, j :: 0 <= i < j < |s| ==> s[i].name != s[j].name
  }

  /** Two sorted permutations of a list with distinct names start with the same entry. */
  lemma SortedHeads(s: seq<FileEntry>, t: seq<FileEntry>)
    requires SortedByName(s) && SortedByName(t) && multiset(s) == multiset(t) && DistinctNames(s)
    requires s != []
    ensures t != [] && s[0] == t[0]
  {
    assert s[0] in multiset(t);
    assert t != [];
    assert t[0] in multiset(s);
    var m :| 0 <= m < |s| && s[m] == t[0];
    var n :| 0 <= n < |t| && t[n] == s[0];
    if m != 0 {
      if n == 0 {
        assert false;
      }
      assert NameLe(s[0].name, s[m].name);
      assert NameLe(t[0].name, t[n].name);
      NameLeAntisymmetric(s[0].name, s[m].name);
      assert false;
    }
  }

  /** The tail of a sorted list is sorted and holds the list minus its head. */
  lemma SortedTail(s: seq<FileEntry>)
    requires SortedByName(s) && s != []
    ensures SortedByName(s[1..])
    ensures multiset(s[1..]) == multiset(s) - multiset{s[0]}
  {
    assert s == [s[0]] + s[1..];
    assert multiset(s) == multiset{s[0]} + multiset(s[1..]);
  }

  /** Sorting by name is determined when names are distinct: two sorted permutations agree. */
  lemma {:induction false} SortedPermutationUnique(s: seq<FileEntry>, t: seq<FileEntry>)
    requires SortedByName(s) && SortedByName(t) && multiset(s) == multiset(t) && DistinctNames(s)
    ensures s == t
    decreases |s|
  {
    if s == [] {
      assert |t| == |multiset(t)| == 0;
    } else {
      SortedHeads(s, t);
      SortedTail(s);
      SortedTail(t);
      assert DistinctNames(s[1..]);
      SortedPermutationUnique(s[1..], t[1..]);
      assert s == [s[0]] + s[1..] && t == [t[0]] + t[1..];
    }
  }

  /** When the tagged names are distinct (as in any real directory), the listing is fully determined. */
  lemma ListingDetermined(c1: IndexContent, c2: IndexContent, tools: Tools, fs: FileSystem, path: string, names: seq<string>, full: string)
    requires IsIndexFor(c1, tools, fs, path, names, full) && IsIndexFor(c2, tools, fs, path, names, full)
    requires DistinctNames(Tagged(fs, path, names))
    ensures c1 == c2
  {
    var t := Tagged(fs, path, names);
    forall i, j | 0 <= i < j < |c1.files|
      ensures c1.files[i].name != c1.files[j].name
    {
      if c1.files[i].name == c1.files[j].name {
        DistinctMultiset(t, c1.files, i, j);
      }
    }
    SortedPermutationUnique(c1.files, c2.files);
  }

  /** Two positions of a permutation of a list with distinct names hold different names. */
  lemma DistinctMultiset(t: seq<FileEntry>, s: seq<FileEntry>, i: nat, j: nat)
    requires DistinctNames(t) && multiset(s) == multiset(t) && i < j < |s|
    ensures s[i].name != s[j].name
  {
    if s[i].name == s[j].name {
      assert s[i] in multiset(t) && s[j] in multiset(t);
      var a :| 0 <= a < |t| && t[a] == s[i];
      var b :| 0 <= b < |t| && t[b] == s[j];
      assert a == b;
      CountAtLeastTwo(s, i, j);
      CountOnce(t, a);
      assert false;
    }
  }

  lemma CountAtLeastTwo(s: seq<FileEntry>, i: nat, j: nat)
    requires i < j < |s| && s[i] == s[j]
    ensures multiset(s)[s[i]] >= 2
  {
    assert s == s[..j] + s[j..];
    assert s[..j][i] == s[i] && s[j..][0] == s[i];
    assert multiset(s) == multiset(s[..j]) + multiset(s[j..]);
  }

  lemma CountOnce(t: seq<FileEntry>, a: nat)
    requires a < |t| && DistinctNames(t)
    ensures multiset(t)[t[a]] == 1
  {
    var x := t[a];
    assert t == t[..a] + [x] + t[a + 1..];
    assert multiset(t) == multiset(t[..a]) + multiset([x]) + multiset(t[a + 1..]);
    assert x !in t[..a];
    assert x !in t[a + 1..];
  }
}
