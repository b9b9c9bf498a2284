/**
 Directory strings: bvfs_parent_dir, bvfs_basename_dir and split_path_and_file.

 `ParentDir` and `BasenameDir` describe what the two C routines compute on any
 string.  The independent specification is `IsParent`: the longest proper prefix
 that is empty or ends in '/'.
 */
module PathStrings {

  predicate IsAlpha(c: char) {
    'A' <= c <= 'Z' || 'a' <= c <= 'z'
  }

  /** A Windows drive root, such as "c:/". */
  predicate IsDriveRoot(s: string) {
    |s| == 3 && IsAlpha(s[0]) && s[1] == ':' && s[2] == '/'
  }

  lemma DriveLetters()
    ensures IsDriveRoot("A:/") && IsDriveRoot("Z:/") && IsDriveRoot("a:/") && IsDriveRoot("z:/")
    ensures !IsDriveRoot("@:/") && !IsDriveRoot("[:/") && !IsDriveRoot("`:/") && !IsDriveRoot("{:/")
  {
  }

  /** The shape of every directory string: empty (the root) or ending in '/'. */
  predicate IsDir(s: string) {
    s == "" || s[|s| - 1] == '/'
  }

  /** Directory paths the catalog stores: they start with '/' or "<letter>:/". */
  predicate IsAbsoluteDir(s: string) {
    && s != "" && IsDir(s)
    && (s[0] == '/' || (|s| >= 3 && IsDriveRoot(s[..3])))
  }

  predicate InScope(s: string) {
    s == "" || IsAbsoluteDir(s)
  }

  /** d is the longest proper prefix of s that is a directory string. */
  ghost predicate IsParent(d: string, s: string) {
    IsDir(d) && d < s && forall e: string :: IsDir(e) && e < s ==> |e| <= |d|
  }

  /** The pointer scan `while (p > path && !IsPathSeparator(*p)) p--`. */
  function ScanBack(s: string, i: nat): (k: nat)
    requires i < |s|
    ensures k <= i && (k == 0 || s[k] == '/')
    ensures forall j :: k < j <= i ==> s[j] != '/'
  {
    if i == 0 || s[i] == '/' then i else ScanBack(s, i - 1)
  }

  /** Where the scan starts: a trailing '/' is skipped. */
  function LastNameChar(s: string): nat
    requires |s| >= 2
  {
    if s[|s| - 1] == '/' then |s| - 2 else |s| - 1
  }

  /** What bvfs_parent_dir leaves in its buffer, for any string. */
  function ParentDir(s: string): string {
    if s == "" || s == "/" || IsDriveRoot(s) then ""
    else if |s| == 1 then s
    else s[..ScanBack(s, LastNameChar(s)) + 1]
  }

  /** What bvfs_basename_dir points at, for any non-empty string. */
  function BasenameDir(s: string): string
    requires s != ""
  {
    var len := if s[|s| - 1] == '/' then |s| - 2 else |s| - 1;
    if len <= 0 then s
    else
      var k := ScanBack(s, len);
      if s[k] == '/' then s[k + 1..] else s
  }

  /** The inputs on which bvfs_parent_dir does its job. */
  predicate HasParent(s: string) {
    s == "/" || IsDriveRoot(s) || (s != "" && '/' in s[..|s| - 1])
  }

  // ---------------------------------------------------------------- parents

  /** bvfs_parent_dir meets its specification exactly on `HasParent`. */
  lemma ParentDirExact(s: string)
    requires s != ""
    ensures IsParent(ParentDir(s), s) <==> HasParent(s)
  {
  }

  /** Without a separator before its last character a name is cut to one letter. */
  lemma ParentDirNeedsSeparator()
    ensures ParentDir("tmp/") == "t" && ParentDir("t") == "t"
    ensures !IsParent(ParentDir("tmp/"), "tmp/")
  {
  }

  /** The absolute directories are closed under ParentDir, which shortens them. */
  lemma ParentDirInScope(s: string)
    requires IsAbsoluteDir(s)
    ensures IsParent(ParentDir(s), s) && InScope(ParentDir(s)) && |ParentDir(s)| < |s|
  {
  }

  /** The strings met by iterating bvfs_parent_dir down to "". */
  function Ancestors(s: string): set<string>
    requires InScope(s)
    decreases |s|
  {
    if s == "" then {""}
    else
      ParentDirInScope(s);
      {s} + Ancestors(ParentDir(s))
  }

  /** Iterating the parent meets exactly the prefixes that are empty or end in '/'. */
  lemma {:induction false} AncestorsArePrefixes(s: string, q: string)
    requires InScope(s)
    ensures q in Ancestors(s) <==> IsDir(q) && q <= s
    decreases |s|
  {
    if s != "" {
      ParentDirInScope(s);
      var d := ParentDir(s);
      AncestorsArePrefixes(d, q);
      if IsDir(q) && q <= s && q != s {
        assert q < s && |q| <= |d|;
        assert q == s[..|q|] == d[..|q|];
      }
      if q <= d { assert q == d[..|q|] == s[..|q|]; }
    }
  }

  /** A directory strictly above q is at or above q's parent. */
  lemma AboveIsAboveParent(p: string, q: string)
    requires IsAbsoluteDir(q) && IsDir(p) && p < q
    ensures p <= ParentDir(q) < q && InScope(ParentDir(q))
  {
  }

  /** Parent and base name put the path together again, except on names without
      an inner separator and on "//". */
  lemma ParentPlusBasename(s: string)
    requires s != ""
    ensures ParentDir(s) + BasenameDir(s) == s <==> HasParent(s) && s != "//"
  {
  }

  // ---------------------------------------------------------- C buffer form

  const NUL: char := '\0'

  /** The string held by a NUL-terminated buffer. */
  function CString(b: seq<char>): (s: string)
    requires NUL in b
    ensures s <= b && NUL !in s && |s| < |b| && b[|s|] == NUL
  {
    if b[0] == NUL then "" else [b[0]] + CString(b[1..])
  }

  lemma {:induction false} CStringIs(b: seq<char>, s: string)
    requires |s| < |b| && s == b[..|s|] && NUL !in s && b[|s|] == NUL
    ensures CString(b) == s
  {
  }

  method StrLen(path: array<char>) returns (n: nat)
    requires NUL in path[..]
    ensures n == |CString(path[..])| && n < path.Length
  {
    n := 0;
    while path[n] != NUL
      invariant n < path.Length && NUL !in path[..n] && NUL in path[n..]
      decreases path.Length - n
    {
      n := n + 1;
    }
    CStringIs(path[..], path[..n]);
  }

  /** The scan of bvfs_parent_dir, once a trailing '/' has been overwritten. */
  method CutAfterSlash(path: array<char>, len: nat, ghost s: string)
    requires 2 <= |s| < path.Length && len == |s| - 1 && NUL !in s
    requires path[..len] == s[..len]
    requires path[len] == if s[len] == '/' then NUL else s[len]
    modifies path
    ensures NUL in path[..]
    ensures CString(path[..]) == s[..ScanBack(s, LastNameChar(s)) + 1]
  {
    var p := len;
    while p > 0 && path[p] != '/'
      invariant 0 <= p <= len
      invariant forall j :: p < j <= len ==> path[j] != '/'
    {
      p := p - 1;
    }
    assert forall j :: 0 <= j < len ==> path[j] == path[..len][j] == s[j];
    ScanBackUnique(s, LastNameChar(s), p);
    path[p + 1] := NUL;
    assert path[..][p + 1] == NUL;
    CStringIs(path[..], s[..p + 1]);
  }

  /** bvfs_parent_dir: the buffer is cut in place. */
  method ParentDirInPlace(path: array<char>)
    requires NUL in path[..]
    modifies path
    ensures NUL in path[..]
    ensures CString(path[..]) == ParentDir(old(CString(path[..])))
  {
    ghost var s := CString(path[..]);
    var n := StrLen(path);
    var len := n as int - 1;
    assert path[..n] == s;
    if len == 2 && IsAlpha(path[0]) && path[1] == ':' && path[2] == '/' {
      assert s[0] == path[..n][0] && s[1] == path[..n][1] && s[2] == path[..n][2];
      len := 0;
      path[0] := NUL;
      CStringIs(path[..], "");
    }
    if len >= 0 && path[len] == '/' {
      assert s[len] == path[..n][len];
      path[len] := NUL;
      CStringIs(path[..], s[..len]);
    }
    if len > 0 {
      assert path[..len] == s[..len];
      CutAfterSlash(path, len, s);
    }
  }

  /** bvfs_basename_dir: the offset of the returned pointer in the buffer. */
  method BasenameOffset(path: string) returns (p: nat)
    requires path != ""
    ensures p <= |path| && path[p..] == BasenameDir(path)
  {
    p := 0;
    var len := |path| - 1;
    if path[len] == '/' {
      len := len - 1;
    }
    if len > 0 {
      p := len;
      while p > 0 && path[p] != '/'
        invariant 0 <= p <= len
        invariant forall j :: p < j <= len ==> path[j] != '/'
      {
        p := p - 1;
      }
      ScanBackUnique(path, len, p);
      if path[p] == '/' {
        p := p + 1;
      }
    }
  }

  lemma {:induction false} ScanBackUnique(s: string, i: nat, p: nat)
    requires p <= i < |s|
    requires p == 0 || s[p] == '/'
    requires forall j :: p < j <= i ==> s[j] != '/'
    ensures ScanBack(s, i) == p
  {
  }

  // ------------------------------------------------------------------ split

  /** path and name make up s, the name has no '/', and the path ends in '/' unless
      s has no '/' at all, in which case all of s is the path. */
  predicate IsSplit(s: string, path: string, name: string) {
    && path + name == s
    && '/' !in name
    && (if '/' in s then path != "" && path[|path| - 1] == '/' else name == "")
  }

  /** The path and the name of a file, as functions. */
  function PathPart(s: string): string {
    if '/' in s then s[..ScanBack(s, |s| - 1) + 1] else s
  }

  function NamePart(s: string): string {
    if '/' in s then s[ScanBack(s, |s| - 1) + 1..] else ""
  }

  lemma SplitIs(s: string, path: string, name: string)
    ensures IsSplit(s, path, name) <==> path == PathPart(s) && name == NamePart(s)
  {
    if '/' in s {
      var k := ScanBack(s, |s| - 1);
      assert s == s[..k + 1] + s[k + 1..];
      assert s[k] == '/' by { assert exists i :: 0 <= i <= k && s[i] == '/'; }
      assert IsSplit(s, PathPart(s), NamePart(s));
    }
    if IsSplit(s, path, name) && '/' in s {
      SplitIsUnique(s, path, name, PathPart(s), NamePart(s));
    }
  }

  lemma SplitLengths(s: string, p: string, n: string, p': string, n': string)
    requires IsSplit(s, p, n) && IsSplit(s, p', n')
    ensures |p'| <= |p|
  {
    if '/' in s {
      var last := |p'| - 1;
      assert s[last] == p'[last] == '/';
      assert forall i :: |p| <= i < |s| ==> s[i] == n[i - |p|] && n[i - |p|] != '/';
    }
  }

  /** The contract of split_path_and_file leaves no choice. */
  lemma SplitIsUnique(s: string, p: string, n: string, p': string, n': string)
    requires IsSplit(s, p, n) && IsSplit(s, p', n')
    ensures p == p' && n == n'
  {
    SplitLengths(s, p, n, p', n');
    SplitLengths(s, p', n', p, n);
    assert p == s[..|p|] && p' == s[..|p'|];
    assert n == s[|p|..] && n' == s[|p'|..];
  }

  /** split_path_and_file: the last '/' ends the path. */
  method SplitPathAndFile(afname: string) returns (path: string, name: string)
    ensures IsSplit(afname, path, name)
  {
    var p, f := 0, 0;
    while p < |afname|
      invariant f <= p <= |afname|
      invariant f == 0 || (f < p && afname[f] == '/')
      invariant forall j :: f < j < p ==> afname[j] != '/'
      invariant f == 0 && p > 0 && afname[0] != '/' ==> '/' !in afname[..p]
    {
      if afname[p] == '/' {
        f := p;
      }
      p := p + 1;
    }
    assert afname[..p] == afname;
    if f < |afname| && afname[f] == '/' {
      f := f + 1;
    } else {
      f := p;
    }
    path, name := afname[..f], afname[f..];
  }
}
