/**
 * The part of the operating system's filesystem that the handler sees: which
 * directories exist, and the full path of every file in enumeration order.
 */
module Disk {

  /** No path occurs twice. */
  predicate Distinct(s: seq<string>)
  {
    forall i, j :: 0 <= i < j < |s| ==> s[i] != s[j]
  }

  /** The set of the paths in `s`. */
  function Elements(s: seq<string>): set<string>
  {
    set x | x in s
  }

  /** A sequence without repetitions has as many elements as its set. */
  lemma {:induction false} DistinctCard(s: seq<string>)
    requires Distinct(s)
    ensures |Elements(s)| == |s|
  {
    if s != [] {
      DistinctCard(s[1..]);
      assert Elements(s) == {s[0]} + Elements(s[1..]);
      assert s[0] !in Elements(s[1..]);
    }
  }

  /** `s` with `x` removed, the rest kept in order. */
  function Without(s: seq<string>, x: string): (r: seq<string>)
    ensures Elements(r) == Elements(s) - {x}
    ensures Distinct(s) ==> Distinct(r)
  {
    if s == [] then []
    else
      var rest := Without(s[1..], x);
      assert Elements(s) == {s[0]} + Elements(s[1..]);
      if s[0] == x then rest
      else
        var r := [s[0]] + rest;
        assert Elements(r) == {s[0]} + Elements(rest);
        assert Distinct(s) ==> s[0] !in Elements(s[1..]);
        assert forall j :: 1 <= j < |r| ==> r[j] == rest[j - 1];
        r
  }

  /** An open file, with whether the OS removes the file when it is closed (`FileOptions.DeleteOnClose`). */
  datatype Stream = Stream(path: string, deleteOnClose: bool)

  class FileSystem {
    var dirs: set<string>
    var files: seq<string>

    /** A path names at most one file. */
    ghost predicate Valid()
      reads this
    {
      Distinct(files)
    }

    constructor (dirs: set<string>, files: seq<string>)
      requires Distinct(files)
      ensures Valid() && this.dirs == dirs && this.files == files
    {
      this.dirs := dirs;
      this.files := files;
    }

    /** `File.Exists`. */
    predicate FileExists(path: string)
      reads this
    {
      path in files
    }

    /** `Directory.CreateDirectory`: the directory exists afterwards; no file changes. */
    method CreateDirectory(path: string)
      modifies this
      ensures dirs == old(dirs) + {path} && files == old(files)
    {
      dirs := dirs + {path};
    }

    /** Closing a stream removes its file exactly when it was opened with delete-on-close. */
    method Close(stream: Stream)
      requires Valid()
      modifies this
      ensures Valid() && dirs == old(dirs)
      ensures files == if stream.deleteOnClose then Without(old(files), stream.path) else old(files)
    {
      if stream.deleteOnClose {
        files := Without(files, stream.path);
      }
    }
  }
}
