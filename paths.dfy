/**
 * The string functions of .NET's `System.IO.Path` and `System.String` that the
 * handler relies on, for Unix paths whose only separator is '/'.
 */
module Paths {

  /** Index of the last occurrence of `c` among the first `n` characters of `s`, or -1 when there is none. */
  function LastIndexBefore(s: string, c: char, n: nat): (r: int)
    requires n <= |s|
    ensures -1 <= r < n
    ensures r >= 0 ==> s[r] == c
    ensures forall j :: r < j < n ==> s[j] != c
  {
    if n == 0 then -1
    else if s[n - 1] == c then n - 1
    else LastIndexBefore(s, c, n - 1)
  }

  /** `s.LastIndexOf(c)`: index of the last occurrence of `c` in `s`, or -1 when there is none. */
  function LastIndexOf(s: string, c: char): (r: int)
    ensures -1 <= r < |s|
    ensures r >= 0 ==> s[r] == c
    ensures forall j :: r < j < |s| ==> s[j] != c
  {
    LastIndexBefore(s, c, |s|)
  }

  /** `Path.GetFileName`: the last path segment. */
  function FileName(path: string): string
  {
    path[LastIndexOf(path, '/') + 1..]
  }

  /** The part of a path before its last '/', or "" when it has no separator. */
  function Parent(path: string): string
  {
    var i := LastIndexOf(path, '/');
    if i < 0 then "" else path[..i]
  }

  /** A path with a separator is its parent, a '/', and its file name. */
  lemma SplitPath(path: string)
    requires '/' in path
    ensures path == Parent(path) + "/" + FileName(path)
    ensures '/' !in FileName(path)
  {
    var i := LastIndexOf(path, '/');
    assert path[i] == '/';
    assert path == path[..i] + [path[i]] + path[i + 1..];
  }

  /** Two paths with separators, the same parent and the same file name are the same path. */
  lemma SplitPathInjective(p: string, q: string)
    requires '/' in p && '/' in q
    requires Parent(p) == Parent(q) && FileName(p) == FileName(q)
    ensures p == q
  {
    SplitPath(p);
    SplitPath(q);
  }

  /** A path without a separator is a file name alone, with an empty parent. */
  lemma NoSeparator(path: string)
    requires '/' !in path
    ensures Parent(path) == "" && FileName(path) == path
  {
    assert LastIndexOf(path, '/') == -1;
  }

  /** Joining a directory and a separator-free name, then splitting, gives both back. */
  lemma JoinSplit(dir: string, name: string)
    requires '/' !in name
    ensures Parent(dir + "/" + name) == dir
    ensures FileName(dir + "/" + name) == name
  {
    var p := dir + "/" + name;
    var i := LastIndexOf(p, '/');
    assert p[|dir|] == '/';
    assert forall j :: |dir| < j < |p| ==> p[j] == name[j - |dir| - 1];
    assert p[..i] == dir;
    assert p[i + 1..] == name;
  }

  /**
   * `Path.GetExtension`: the suffix starting at the last '.' when that '.'
   * comes after the last separator and is not the final character, else "".
   */
  function Extension(path: string): string
  {
    var dot := LastIndexOf(path, '.');
    if dot <= LastIndexOf(path, '/') || dot == |path| - 1 then "" else path[dot..]
  }

  /** Where the last '.' of the file name sits determines the extension. */
  lemma ExtensionAt(path: string, dot: nat)
    requires dot < |path| - 1 && path[dot] == '.'
    requires forall j :: dot < j < |path| ==> path[j] != '.' && path[j] != '/'
    ensures Extension(path) == path[dot..]
  {
    var d := LastIndexOf(path, '.');
    var k := LastIndexOf(path, '/');
    assert d >= dot by { assert path[dot] == '.'; }
  }

  /** The last separator of a path determines its parent. */
  lemma ParentAt(path: string, slash: nat)
    requires slash < |path| && path[slash] == '/'
    requires forall j :: slash < j < |path| ==> path[j] != '/'
    ensures Parent(path) == path[..slash]
  {
    var k := LastIndexOf(path, '/');
    assert k >= slash by { assert path[slash] == '/'; }
  }

  /** The empty path has an empty extension, which stays empty once trimmed. */
  lemma EmptyPathHasNoExtension(path: string)
    requires |path| == 0
    ensures |Extension(path)| == 0 && |TrimStartDots(Extension(path))| == 0
  {
  }

  /** `s.TrimStart('.')`: drops every leading '.'. */
  function TrimStartDots(s: string): (r: string)
    ensures r == [] || r[0] != '.'
  {
    if s != [] && s[0] == '.' then TrimStartDots(s[1..]) else s
  }

  /** `char.ToLowerInvariant` on the ASCII letters. */
  function LowerChar(c: char): char
  {
    if 'A' <= c <= 'Z' then (c as int - 'A' as int + 'a' as int) as char else c
  }

  /** `string.ToLowerInvariant`, character by character. */
  function Lower(s: string): (r: string)
    ensures |r| == |s|
  {
    if s == [] then [] else [LowerChar(s[0])] + Lower(s[1..])
  }

  /** Lower-casing works character by character. */
  lemma {:induction false} LowerAt(s: string, i: nat)
    requires i < |s|
    ensures Lower(s)[i] == LowerChar(s[i])
  {
    if i > 0 {
      LowerAt(s[1..], i - 1);
    }
  }

  /** `s.EndsWith(suffix, StringComparison.OrdinalIgnoreCase)`. */
  predicate EndsWithIgnoreCase(s: string, suffix: string)
  {
    |suffix| <= |s| && Lower(s[|s| - |suffix|..]) == Lower(suffix)
  }


}
