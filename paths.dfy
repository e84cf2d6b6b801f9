/**
 * The string and path operations the server applies to request paths:
 * `str::trim_start_matches`, `str::trim_end_matches`, and the Unix behaviour
 * of `PathBuf::push` / `Path::join`, `Path::file_name` and `Path::extension`.
 */
module Paths {
  import opened Wrappers

  /** `s.trim_start_matches(c)`: `s` without any of its leading `c`s. */
  function TrimStartMatches(s: string, c: char): (r: string)
    ensures |r| <= |s| && r == s[|s| - |r|..]
    ensures r == [] || r[0] != c
    ensures forall i :: 0 <= i < |s| - |r| ==> s[i] == c
  {
    if s != [] && s[0] == c then TrimStartMatches(s[1..], c) else s
  }

  /** `s.trim_end_matches(c)`: `s` without any of its trailing `c`s. */
  function TrimEndMatches(s: string, c: char): (r: string)
    ensures |r| <= |s| && r == s[..|r|]
    ensures r == [] || r[|r| - 1] != c
    ensures forall i :: |r| <= i < |s| ==> s[i] == c
  {
    if s != [] && s[|s| - 1] == c then TrimEndMatches(s[..|s| - 1], c) else s
  }

  /** Joins `parts` back together, with `c` between neighbours. */
  function JoinWith(parts: seq<string>, c: char): string
    requires |parts| >= 1
  {
    if |parts| == 1 then parts[0] else parts[0] + [c] + JoinWith(parts[1..], c)
  }

  /** The pieces of `s` between occurrences of `c` (empty pieces included). */
  function Split(s: string, c: char): (r: seq<string>)
    ensures |r| >= 1
    ensures forall i :: 0 <= i < |r| ==> c !in r[i]
    ensures JoinWith(r, c) == s
  {
    if s == [] then [[]]
    else if s[0] == c then
      var t := Split(s[1..], c);
      assert [[]] + t == [[]] + t && ([[]] + t)[1..] == t;
      [[]] + t
    else
      var t := Split(s[1..], c);
      var r := [[s[0]] + t[0]] + t[1..];
      assert r[1..] == t[1..];
      r
  }

  lemma {:induction false} SplitConcat(x: string, c: char, y: string)
    ensures Split(x + [c] + y, c) == Split(x, c) + Split(y, c)
  {
    if x == [] {
      assert x + [c] + y == [c] + y;
      assert ([c] + y)[1..] == y;
    } else {
      assert (x + [c] + y)[0] == x[0];
      assert (x + [c] + y)[1..] == x[1..] + [c] + y;
      SplitConcat(x[1..], c, y);
    }
  }

  predicate IsAbsolute(p: string) {
    p != [] && p[0] == '/'
  }

  /**
   * `PathBuf::push(rel)` on Unix: an absolute `rel` replaces the path; otherwise
   * `rel` is appended, with a separator when `base` is non-empty and does not
   * already end in one.
   */
  function Push(base: string, rel: string): (r: string)
    ensures IsAbsolute(rel) ==> r == rel
    ensures !IsAbsolute(rel) ==> |r| >= |base| + |rel| && r[..|base|] == base && r[|r| - |rel|..] == rel
    ensures !IsAbsolute(rel) ==> |r| == |base| + |rel| + (if base != [] && base[|base| - 1] != '/' then 1 else 0)
    ensures !IsAbsolute(rel) && |r| > |base| + |rel| ==> r[|base|] == '/'
  {
    if IsAbsolute(rel) then rel
    else if base != [] && base[|base| - 1] != '/' then base + "/" + rel
    else base + rel
  }

  /** A piece `Path::components` drops: an empty piece (from `//` or a trailing `/`) or `.`. */
  predicate Skipped(piece: string) {
    piece == "" || piece == "."
  }

  /** `segs[k]` is the last piece that is not skipped. */
  predicate LastPiece(segs: seq<string>, k: nat)
    requires k < |segs|
  {
    !Skipped(segs[k]) && forall j :: k < j < |segs| ==> Skipped(segs[j])
  }

  /** The last component of a path split at `/`, skipping empty and `.` pieces; None for `..` or nothing. */
  function LastNormal(segs: seq<string>): (r: Option<string>)
    ensures r.Some? ==> r.value in segs && r.value != "" && r.value != "." && r.value != ".."
  {
    if segs == [] then None
    else
      var s := segs[|segs| - 1];
      if s == "" || s == "." then LastNormal(segs[..|segs| - 1])
      else if s == ".." then None
      else Some(s)
  }

  /**
   * `LastNormal` picks the last piece that is not skipped, and gives None
   * exactly when that piece is `..` or every piece is skipped.
   */
  lemma LastNormalSpec(segs: seq<string>)
    ensures forall k :: 0 <= k < |segs| && LastPiece(segs, k) ==>
      LastNormal(segs) == if segs[k] == ".." then None else Some(segs[k])
    ensures (forall j :: 0 <= j < |segs| ==> Skipped(segs[j])) ==> LastNormal(segs) == None
  {
    forall k | 0 <= k < |segs| && LastPiece(segs, k)
      ensures LastNormal(segs) == if segs[k] == ".." then None else Some(segs[k])
    {
      LastNormalOfLastPiece(segs, k);
    }
    if forall j :: 0 <= j < |segs| ==> Skipped(segs[j]) {
      LastNormalAllSkipped(segs);
    }
  }

  lemma {:induction false} LastNormalOfLastPiece(segs: seq<string>, k: nat)
    requires k < |segs| && LastPiece(segs, k)
    ensures LastNormal(segs) == if segs[k] == ".." then None else Some(segs[k])
    decreases |segs|
  {
    var n := |segs|;
    if k < n - 1 {
      var init := segs[..n - 1];
      assert Skipped(segs[n - 1]);
      assert init[k] == segs[k] && LastPiece(init, k);
      LastNormalOfLastPiece(init, k);
    }
  }

  lemma {:induction false} LastNormalAllSkipped(segs: seq<string>)
    requires forall j :: 0 <= j < |segs| ==> Skipped(segs[j])
    ensures LastNormal(segs) == None
    decreases |segs|
  {
    if segs != [] {
      var init := segs[..|segs| - 1];
      assert Skipped(segs[|segs| - 1]);
      assert forall j :: 0 <= j < |init| ==> init[j] == segs[j];
      LastNormalAllSkipped(init);
    }
  }

  /**
   * `Path::file_name`: the last piece of `p` between `/`s that is neither
   * empty nor `.`; None when that piece is `..` or there is no such piece.
   */
  function FileName(p: string): (r: Option<string>)
    ensures r.Some? ==> r.value != "" && r.value != "." && r.value != ".." && '/' !in r.value
    ensures var segs := Split(p, '/');
      forall k :: 0 <= k < |segs| && LastPiece(segs, k) ==>
        r == if segs[k] == ".." then None else Some(segs[k])
    ensures var segs := Split(p, '/');
      (forall j :: 0 <= j < |segs| ==> Skipped(segs[j])) ==> r == None
  {
    LastNormalSpec(Split(p, '/'));
    LastNormal(Split(p, '/'))
  }

  /** The position of the last `c` in `s`. */
  function LastIndexOf(s: string, c: char): (r: Option<nat>)
    ensures r.Some? ==> r.value < |s| && s[r.value] == c && forall k :: r.value < k < |s| ==> s[k] != c
    ensures r.None? ==> forall k :: 0 <= k < |s| ==> s[k] != c
  {
    if s == [] then None
    else if s[|s| - 1] == c then Some(|s| - 1)
    else LastIndexOf(s[..|s| - 1], c)
  }

  /**
   * The extension of a file name: what follows its last `.`, provided that
   * something precedes that dot; `..` has none.
   */
  function ExtensionOfName(name: string): (r: Option<string>)
    ensures r.None? <==> name == ".." || forall k :: 1 <= k < |name| ==> name[k] != '.'
    ensures r.Some? ==> '.' !in r.value && |r.value| + 1 < |name| && name[|name| - |r.value| - 1..] == "." + r.value
  {
    if name == ".." then None
    else match LastIndexOf(name, '.')
      case None => None
      case Some(i) => if i == 0 then None else Some(name[i + 1..])
  }

  /** `Path::extension`. */
  function Extension(p: string): Option<string> {
    match FileName(p)
    case None => None
    case Some(name) => ExtensionOfName(name)
  }

  lemma {:induction false} LastNormalConcat(xs: seq<string>, ys: seq<string>)
    requires LastNormal(ys).Some?
    ensures LastNormal(xs + ys) == LastNormal(ys)
    decreases |ys|
  {
    var zs := xs + ys;
    assert zs[|zs| - 1] == ys[|ys| - 1];
    var s := ys[|ys| - 1];
    if s == "" || s == "." {
      assert zs[..|zs| - 1] == xs + ys[..|ys| - 1];
      LastNormalConcat(xs, ys[..|ys| - 1]);
    }
  }

  /**
   * Pushing a relative path that names a file onto any base keeps that file
   * name: the extension seen by the server is the one in the request.
   */
  lemma FileNameOfPush(base: string, rel: string)
    requires !IsAbsolute(rel) && FileName(rel).Some?
    ensures FileName(Push(base, rel)) == FileName(rel)
    ensures Extension(Push(base, rel)) == Extension(rel)
  {
    LastNormalOfPush(base, rel);
  }

  lemma LastNormalOfPush(base: string, rel: string)
    requires !IsAbsolute(rel) && LastNormal(Split(rel, '/')).Some?
    ensures LastNormal(Split(Push(base, rel), '/')) == LastNormal(Split(rel, '/'))
  {
    var r := Push(base, rel);
    if base == [] {
      assert r == rel;
    } else {
      var x: string;
      if base[|base| - 1] == '/' {
        x := base[..|base| - 1];
        assert base == x + "/";
        assert r == base + rel;
      } else {
        x := base;
        assert r == base + "/" + rel;
      }
      assert r == x + "/" + rel;
      SplitConcat(x, '/', rel);
      LastNormalConcat(Split(x, '/'), Split(rel, '/'));
    }
  }
}
