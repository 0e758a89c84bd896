/**
 * RandomFileHandler: owns one directory of media files and, per request,
 * serves one file picked at random from the eligible files in it, optionally
 * deleting that file once its stream is closed.
 */
module Handler {
  import opened Wrappers
  import opened Paths
  import opened Disk

  /** The allow-list of extensions, with their leading '.', all lower case. */
  const SupportedExtensions: set<string> := {
    ".mp4", ".webm", ".mkv", ".avi", ".mov", ".flv", ".wmv", ".m4v", ".m4p",
    ".m4a", ".mp3", ".wav", ".ogg", ".flac", ".opus", ".aac", ".wma", ".weba",
    ".jpg", ".jpeg", ".png", ".gif", ".bmp", ".webp"
  }

  /** A file is eligible when its lower-cased extension is on the allow-list. */
  predicate IsMediaFile(path: string)
  {
    Lower(Extension(path)) in SupportedExtensions
  }

  const OctetStream: string := "application/octet-stream"

  /** The content type for an extension given without its '.', compared case-sensitively. */
  function MimeType(extension: string): string
  {
    match extension
    case "mp4" => "video/mp4"
    case "webm" => "video/webm"
    case "mkv" => "video/x-matroska"
    case "avi" => "video/x-msvideo"
    case "mov" => "video/quicktime"
    case "flv" => "video/x-flv"
    case "wmv" => "video/x-ms-wmv"
    case "m4v" => "video/x-m4v"
    case "m4p" => "video/mp4"
    case "m4a" => "audio/mp4"
    case "mp3" => "audio/mpeg"
    case "wav" => "audio/wav"
    case "ogg" => "audio/ogg"
    case "flac" => "audio/flac"
    case "opus" => "audio/ogg"
    case "aac" => "audio/aac"
    case "wma" => "audio/x-ms-wma"
    case "weba" => "audio/webm"
    case "jpg" => "image/jpeg"
    case "jpeg" => "image/jpeg"
    case "png" => "image/png"
    case "gif" => "image/gif"
    case "bmp" => "image/bmp"
    case "webp" => "image/webp"
    case _ => OctetStream
  }

  /** Every allow-listed extension has a type of its own. */
  lemma SupportedHasMimeType(extension: string)
    requires "." + extension in SupportedExtensions
    ensures MimeType(extension) != OctetStream
  {
    assert ("." + extension)[1..] == extension;
    assert forall x :: x in SupportedExtensions ==> MimeType(x[1..]) != OctetStream;
  }

  /** Only allow-listed extensions have a type of their own. */
  lemma MimeTypeOnlyForSupported(extension: string)
    requires MimeType(extension) != OctetStream
    ensures "." + extension in SupportedExtensions
  {
    assert extension in set x | x in SupportedExtensions :: x[1..];
    assert forall x :: x in SupportedExtensions ==> x == "." + x[1..];
  }

  /** The MIME table knows exactly the allow-listed extensions, in their lower-case spelling. */
  lemma MimeTypeKnownIffSupported(extension: string)
    ensures MimeType(extension) != OctetStream <==> "." + extension in SupportedExtensions
  {
    if MimeType(extension) != OctetStream {
      MimeTypeOnlyForSupported(extension);
    }
    if "." + extension in SupportedExtensions {
      SupportedHasMimeType(extension);
    }
  }

  /** The empty path has no extension, so it is never eligible. */
  lemma EmptyPathIsNotMedia(path: string)
    requires |path| == 0
    ensures !IsMediaFile(path)
  {
    EmptyPathHasNoExtension(path);
  }

  /** No listing holds the empty path. */
  lemma ListedPathsAreNonEmpty(files: seq<string>, dir: string)
    ensures forall f :: f in MediaIn(files, dir) ==> |f| > 0
  {
    MediaInMembers(files, dir);
    forall f | f in MediaIn(files, dir) ensures |f| > 0 {
      if |f| == 0 {
        EmptyPathIsNotMedia(f);
      }
    }
  }

  /**
   * An eligible file is served with a type of its own exactly when its
   * extension is spelled in lower case; `c.JPG` is eligible but its type is
   * `application/octet-stream`.
   */
  lemma ServedTypeKnownIffLowerCase(path: string)
    requires IsMediaFile(path)
    ensures MimeType(TrimStartDots(Extension(path))) != OctetStream <==> Extension(path) in SupportedExtensions
  {
    LowerCaseTypeKnown(Extension(path));
  }

  /** The same fact for an extension whose lower-cased form is allow-listed. */
  lemma LowerCaseTypeKnown(e: string)
    requires Lower(e) in SupportedExtensions
    ensures MimeType(TrimStartDots(e)) != OctetStream <==> e in SupportedExtensions
  {
    SupportedShape(Lower(e));
    LowerSupportedShape(e);
    assert TrimStartDots(e) == TrimStartDots(e[1..]) == e[1..];
    assert "." + e[1..] == e;
    MimeTypeKnownIffSupported(e[1..]);
  }

  /** Lower-casing keeps a leading '.' and keeps a second character other than '.'. */
  lemma LowerSupportedShape(e: string)
    requires |Lower(e)| >= 2 && Lower(e)[0] == '.' && Lower(e)[1] != '.'
    ensures |e| >= 2 && e[0] == '.' && e[1] != '.'
  {
    LowerAt(e, 0);
    LowerAt(e, 1);
  }

  /** Every allow-listed extension is a '.' and at least three more characters, none of them a leading '.'. */
  lemma SupportedShape(x: string)
    requires x in SupportedExtensions
    ensures |x| >= 4 && x[0] == '.' && x[1] != '.'
  {
  }

  /** Closing a delete-on-close stream on an eligible file takes exactly that file out of its directory's count. */
  lemma RemovingConsumesOne(files: seq<string>, path: string, dir: string)
    ensures EligibleFiles(Without(files, path), dir) == EligibleFiles(files, dir) - {path}
    ensures path in EligibleFiles(files, dir) ==>
      |EligibleFiles(Without(files, path), dir)| == |EligibleFiles(files, dir)| - 1
    ensures path !in EligibleFiles(files, dir) ==>
      EligibleFiles(Without(files, path), dir) == EligibleFiles(files, dir)
  {
    var rest := Without(files, path);
    var before := EligibleFiles(files, dir);
    var after := EligibleFiles(rest, dir);
    forall f ensures f in after <==> f in before && f != path {
      assert f in rest <==> f in Elements(rest);
      assert f in files <==> f in Elements(files);
    }
    assert after == before - {path};
  }

  /** `a.mp4` is eligible. */
  lemma ExampleMp4()
    ensures Extension("/d/a.mp4") == ".mp4" && IsMediaFile("/d/a.mp4")
  {
    ExtensionAt("/d/a.mp4", 4);
    assert Lower(".mp4") == ".mp4";
  }

  /** `b.txt` is not eligible. */
  lemma ExampleTxt()
    ensures Extension("/d/b.txt") == ".txt" && !IsMediaFile("/d/b.txt")
  {
    ExtensionAt("/d/b.txt", 4);
    assert Lower(".txt") == ".txt";
  }

  /** `c.JPG` is eligible: the allow-list match ignores case. */
  lemma ExampleUpperCaseJpg()
    ensures Extension("/d/c.JPG") == ".JPG" && Lower(Extension("/d/c.JPG")) == ".jpg"
    ensures IsMediaFile("/d/c.JPG")
  {
    ExtensionAt("/d/c.JPG", 4);
    assert Lower(".JPG") == ".jpg";
  }

  /** `c.JPG` is served as `application/octet-stream`: the type table does not ignore case. */
  lemma ExampleUpperCaseJpgType()
    ensures MimeType(TrimStartDots(Extension("/d/c.JPG"))) == OctetStream
  {
    ExtensionAt("/d/c.JPG", 4);
    assert TrimStartDots(".JPG") == "JPG" by { assert ".JPG"[1..] == "JPG"; }
  }

  /** A directory holding `a.mp4`, `b.txt` and `c.JPG` lists `a.mp4` and `c.JPG`, in that order. */
  lemma ExampleDirectory()
    ensures MediaIn(["/d/a.mp4", "/d/b.txt", "/d/c.JPG"], "/d") == ["/d/a.mp4", "/d/c.JPG"]
  {
    var a := "/d/a.mp4";
    ExampleMp4();
    ParentAt(a, 2);
    ExampleDirectoryTail();
    assert ["/d/a.mp4", "/d/b.txt", "/d/c.JPG"][1..] == ["/d/b.txt", "/d/c.JPG"];
  }

  /** Without `a.mp4`, only `c.JPG` is listed. */
  lemma ExampleDirectoryTail()
    ensures MediaIn(["/d/b.txt", "/d/c.JPG"], "/d") == ["/d/c.JPG"]
  {
    var b, c := "/d/b.txt", "/d/c.JPG";
    ExampleTxt();
    ExampleUpperCaseJpg();
    ParentAt(b, 2);
    ParentAt(c, 2);
    assert MediaIn([c], "/d") == [c];
    assert [b, c][1..] == [c];
  }

  datatype Error = DirectoryNotFound

  /** The eligible files among `files` whose directory is `dir`, in enumeration order. */
  function MediaIn(files: seq<string>, dir: string): seq<string>
  {
    if files == [] then []
    else if Parent(files[0]) == dir && IsMediaFile(files[0]) then [files[0]] + MediaIn(files[1..], dir)
    else MediaIn(files[1..], dir)
  }

  /** A path is listed exactly when it is an eligible file directly inside `dir`. */
  lemma {:induction false} MediaInMembers(files: seq<string>, dir: string)
    ensures forall f :: f in MediaIn(files, dir) <==> f in files && Parent(f) == dir && IsMediaFile(f)
  {
    if files != [] {
      MediaInMembers(files[1..], dir);
      assert forall f :: f in files <==> f == files[0] || f in files[1..];
    }
  }

  /** A listing without repeats gives a filtered list without repeats. */
  lemma {:induction false} MediaInDistinct(files: seq<string>, dir: string)
    requires Distinct(files)
    ensures Distinct(MediaIn(files, dir))
  {
    if files != [] {
      var rest := MediaIn(files[1..], dir);
      MediaInDistinct(files[1..], dir);
      MediaInMembers(files[1..], dir);
      assert files[0] !in files[1..];
      if Parent(files[0]) == dir && IsMediaFile(files[0]) {
        var r := [files[0]] + rest;
        assert forall j :: 1 <= j < |r| ==> r[j] == rest[j - 1];
        assert files[0] !in rest;
        assert MediaIn(files, dir) == r;
      }
    }
  }

  /**
   * `GetMediaFiles`: the directory's eligible files, or DirectoryNotFound when
   * the path is empty or names no directory.
   */
  function GetMediaFiles(dirs: set<string>, files: seq<string>, directoryPath: string): (r: Result<seq<string>, Error>)
    ensures r.Failure? <==> directoryPath == "" || directoryPath !in dirs
    ensures r.Success? ==> forall f :: f in r.value <==> f in files && Parent(f) == directoryPath && IsMediaFile(f)
    ensures r.Success? && Distinct(files) ==> Distinct(r.value)
  {
    if directoryPath == "" || directoryPath !in dirs then Failure(DirectoryNotFound)
    else
      MediaInMembers(files, directoryPath);
      if Distinct(files) then MediaInDistinct(files, directoryPath); Success(MediaIn(files, directoryPath))
      else Success(MediaIn(files, directoryPath))
  }

  /** The set of eligible files directly inside `dir`. */
  function EligibleFiles(files: seq<string>, dir: string): set<string>
  {
    set f | f in files && Parent(f) == dir && IsMediaFile(f)
  }

  /**
   * `Path.Combine(baseDirectory, "..", name + "." + extension)`, with `..`
   * resolved to the parent; the parent of a directory given without a
   * separator is the working directory, where the file is named on its own.
   */
  function FallbackPath(baseDirectory: string, name: string, extension: string): string
  {
    var file := name + "." + extension;
    if '/' in baseDirectory then Parent(baseDirectory) + "/" + file else file
  }

  /** An empty extension has no type of its own. */
  lemma EmptyExtensionFallback(extension: string)
    requires |extension| == 0
    ensures MimeType(extension) == OctetStream
  {
    assert extension == "";
  }

  /** The fallback file sits beside the handler's directory, in the same parent. */
  lemma FallbackBesideDirectory(baseDirectory: string, name: string, extension: string)
    requires '/' !in name + "." + extension
    ensures Parent(FallbackPath(baseDirectory, name, extension)) == Parent(baseDirectory)
    ensures FileName(FallbackPath(baseDirectory, name, extension)) == name + "." + extension
  {
    var file := name + "." + extension;
    if '/' in baseDirectory {
      JoinSplit(Parent(baseDirectory), file);
    } else {
      NoSeparator(baseDirectory);
      NoSeparator(file);
    }
  }

  /**
   * What `GetRandomFile` hands to the web framework: `Results.File` with a
   * stream, its content type and the `Total-Files` header if one was set, or
   * `Results.Empty`.
   */
  datatype Reply = FileReply(stream: Stream, contentType: string, totalFiles: Option<nat>) | EmptyReply

  class RandomFileHandler {
    const fs: FileSystem
    const baseDirectory: string
    const defaultDelete: bool
    const name: string

    /** Creates the directory if it is missing and takes its last segment as the name. */
    constructor (fs: FileSystem, directory: string, defaultDelete: bool)
      modifies fs
      ensures this.fs == fs && baseDirectory == directory && this.defaultDelete == defaultDelete
      ensures name == FileName(directory)
      ensures fs.dirs == old(fs.dirs) + {directory} && fs.files == old(fs.files)
    {
      this.fs := fs;
      baseDirectory := directory;
      this.defaultDelete := defaultDelete;
      name := FileName(directory);
      new;
      fs.CreateDirectory(directory);
    }

    /**
     * The number of eligible files, picked among them at random, or "" and 0
     * when there is none.
     */
    method GetRandomFileFromDirectory(directory: string) returns (r: Result<(string, nat), Error>)
      ensures r.Failure? <==> directory == "" || directory !in fs.dirs
      ensures r.Success? ==>
        var (file, length) := r.value;
        && length == |MediaIn(fs.files, directory)|
        && (length == 0 ==> |file| == 0)
        && (length > 0 ==> file in MediaIn(fs.files, directory) && |file| > 0)
    {
      var media := GetMediaFiles(fs.dirs, fs.files, directory);
      if media.Failure? {
        return Failure(media.error);
      }
      var files := media.value;
      if |files| == 0 {
        return Success(("", 0));
      }
      var i :| 0 <= i < |files|;
      ListedPathsAreNonEmpty(fs.files, directory);
      return Success((files[i], |files|));
    }

    /**
     * Serves a random eligible file. The effective delete flag is the request's
     * `delete` if given, else the default. The stream deletes its file on close
     * only on the normal path, which alone sets `Total-Files`; with no eligible
     * file it serves `<parent>/<name>.` if that exists, never deleting it.
     */
    method GetRandomFile(delete: Option<bool>) returns (r: Result<Reply, Error>)
      ensures r.Failure? <==> baseDirectory == "" || baseDirectory !in fs.dirs
      ensures r.Success? && |MediaIn(fs.files, baseDirectory)| == 0 ==>
        var fallback := FallbackPath(baseDirectory, name, "");
        r.value == if fs.FileExists(fallback)
                   then FileReply(Stream(fallback, false), OctetStream, None)
                   else EmptyReply
      ensures r.Success? && |MediaIn(fs.files, baseDirectory)| > 0 ==>
        && r.value.FileReply?
        && r.value.stream.path in MediaIn(fs.files, baseDirectory)
        && r.value.stream.deleteOnClose == delete.GetOr(defaultDelete)
        && r.value.contentType == MimeType(TrimStartDots(Extension(r.value.stream.path)))
        && r.value.totalFiles == Some(|MediaIn(fs.files, baseDirectory)|)
    {
      var deleteFlag := delete.GetOr(defaultDelete);
      var picked := GetRandomFileFromDirectory(baseDirectory);
      if picked.Failure? {
        return Failure(picked.error);
      }
      var (file, length) := picked.value;
      MediaInMembers(fs.files, baseDirectory);
      var extension := TrimStartDots(Extension(file));
      var mimeType := MimeType(extension);
      if |file| == 0 || !fs.FileExists(file) {
        EmptyPathHasNoExtension(file);
        EmptyExtensionFallback(extension);
        var defaultFile := FallbackPath(baseDirectory, name, extension);
        if fs.FileExists(defaultFile) {
          return Success(FileReply(Stream(defaultFile, false), mimeType, None));
        }
        return Success(EmptyReply);
      }
      return Success(FileReply(Stream(file, deleteFlag), mimeType, Some(length)));
    }

    /**
     * One request as the web framework runs it: `GetRandomFile`, then the
     * reply's stream is closed once sent. A file served on the normal path
     * with the effective delete flag on is consumed, so the count drops by
     * one; otherwise the directory is left as it was.
     */
    method Serve(delete: Option<bool>) returns (r: Result<Reply, Error>)
      requires fs.Valid()
      modifies fs
      ensures fs.Valid() && fs.dirs == old(fs.dirs)
      ensures r.Failure? <==> old(GetTotal()).Failure?
      ensures r.Failure? || r.value.EmptyReply? ==> fs.files == old(fs.files)
      ensures r.Success? && r.value.FileReply? ==>
        fs.files == if r.value.stream.deleteOnClose then Without(old(fs.files), r.value.stream.path) else old(fs.files)
      ensures r.Success? && r.value.FileReply? && r.value.stream.deleteOnClose ==> r.value.stream.path !in fs.files
      ensures r.Success? && |MediaIn(old(fs.files), baseDirectory)| == 0 ==>
        var fallback := FallbackPath(baseDirectory, name, "");
        && fs.files == old(fs.files)
        && r.value == if old(fs.FileExists(fallback))
                      then FileReply(Stream(fallback, false), OctetStream, None)
                      else EmptyReply
      ensures r.Success? && |MediaIn(old(fs.files), baseDirectory)| > 0 ==>
        && r.value.FileReply?
        && r.value.stream.path in MediaIn(old(fs.files), baseDirectory)
        && r.value.stream.deleteOnClose == delete.GetOr(defaultDelete)
        && r.value.contentType == MimeType(TrimStartDots(Extension(r.value.stream.path)))
        && r.value.totalFiles == Some(|MediaIn(old(fs.files), baseDirectory)|)
        && GetTotal().Success?
        && GetTotal().value == old(GetTotal()).value - (if delete.GetOr(defaultDelete) then 1 else 0)
    {
      r := GetRandomFile(delete);
      if r.Success? && r.value.FileReply? {
        var served := r.value.stream.path;
        MediaInMembers(fs.files, baseDirectory);
        RemovingConsumesOne(fs.files, served, baseDirectory);
        fs.Close(r.value.stream);
        assert served !in Elements(fs.files) ==> served !in fs.files;
      }
    }

    /** The number of eligible files in the directory, without changing anything. */
    function GetTotal(): (r: Result<nat, Error>)
      requires fs.Valid()
      reads fs
      ensures r.Failure? <==> baseDirectory == "" || baseDirectory !in fs.dirs
      ensures r.Success? ==> r.value == |EligibleFiles(fs.files, baseDirectory)|
    {
      var media := GetMediaFiles(fs.dirs, fs.files, baseDirectory);
      if media.Failure? then Failure(media.error)
      else
        assert Elements(media.value) == EligibleFiles(fs.files, baseDirectory);
        DistinctCard(media.value);
        Success(|media.value|)
    }
  }
}
