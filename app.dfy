/**
 * AppCommands.Launch: one RandomFileHandler and one route per subdirectory of
 * the data directory, each with its deletion policy, and the `/` index that
 * lists the handlers' names.
 */
module App {
  import opened Wrappers
  import opened Paths
  import opened Disk
  import opened Handler

  /**
   * The deletion policy of a directory's handler: files are consumed unless
   * debug mode is on or the directory's name ends in `-static`, in any case.
   */
  predicate DefaultDelete(debugMode: bool, name: string)
  {
    !debugMode && !EndsWithIgnoreCase(name, "-static")
  }

  /** In debug mode no handler deletes by default. */
  lemma DebugModeNeverDeletes(name: string)
    ensures !DefaultDelete(true, name)
  {
  }

  /** A name ending in `-static`, spelled in any case, never deletes by default. */
  lemma StaticSuffixNeverDeletes(debugMode: bool, stem: string, suffix: string)
    requires Lower(suffix) == Lower("-static")
    ensures !DefaultDelete(debugMode, stem + suffix)
  {
    var name := stem + suffix;
    assert name[|name| - |suffix|..] == suffix;
  }

  /** Outside debug mode, a name without the `-static` suffix deletes by default. */
  lemma PlainNameDeletes(name: string)
    requires !EndsWithIgnoreCase(name, "-static")
    ensures DefaultDelete(false, name)
  {
  }

  /** `Pool-STATIC` and `pool-static` keep their files. */
  lemma ExampleStaticPolicies()
    ensures !DefaultDelete(false, "Pool-STATIC") && !DefaultDelete(false, "pool-static")
  {
    assert Lower("-STATIC") == Lower("-static") == "-static";
    StaticSuffixNeverDeletes(false, "Pool", "-STATIC");
    StaticSuffixNeverDeletes(false, "pool", "-static");
    assert "Pool" + "-STATIC" == "Pool-STATIC" && "pool" + "-static" == "pool-static";
  }

  /** `pool` deletes its files, unless in debug mode. */
  lemma ExamplePlainPolicy()
    ensures DefaultDelete(false, "pool") && !DefaultDelete(true, "pool")
  {
    assert |"pool"| < |"-static"|;
    PlainNameDeletes("pool");
  }

  /** The immediate subdirectories of `root` (`Directory.EnumerateDirectories`). */
  function SubDirectories(dirs: set<string>, root: string): set<string>
  {
    set d | d in dirs && '/' in d && Parent(d) == root
  }

  /** Sibling directories have different names, so their routes differ. */
  lemma SiblingNamesDiffer(dirs: set<string>, root: string, d: string, e: string)
    requires d in SubDirectories(dirs, root) && e in SubDirectories(dirs, root) && d != e
    ensures FileName(d) != FileName(e) && "/" + FileName(d) != "/" + FileName(e)
  {
    if FileName(d) == FileName(e) {
      SplitPathInjective(d, e);
    }
    assert ("/" + FileName(d))[1..] == FileName(d);
    assert ("/" + FileName(e))[1..] == FileName(e);
  }

  /** `handler` serves `directory` on `fs`, with the deletion policy of the directory's name. */
  ghost predicate Serves(handler: RandomFileHandler, fs: FileSystem, debugMode: bool, directory: string)
  {
    && handler.fs == fs
    && handler.baseDirectory == directory
    && handler.name == FileName(directory)
    && handler.defaultDelete == DefaultDelete(debugMode, handler.name)
  }

  /**
   * `added` holds the handlers of exactly the `directories`, one each, and
   * each directory is routed at `/<name>` to its handler in `added`, with the
   * deletion policy of its name.
   */
  ghost predicate Registered(added: seq<RandomFileHandler>, routes: map<string, RandomFileHandler>,
                             fs: FileSystem, directories: set<string>, debugMode: bool)
  {
    && |added| == |directories|
    && routes.Keys == (set d | d in directories :: "/" + FileName(d))
    && RoutesServe(routes, fs, directories, debugMode)
    && RoutesAmong(routes, added, directories)
    && AddedRouted(added, routes, directories)
    && DistinctNames(added)
  }

  /** Each directory's route leads to a handler that serves it with its policy. */
  ghost predicate RoutesServe(routes: map<string, RandomFileHandler>, fs: FileSystem, directories: set<string>, debugMode: bool)
  {
    forall d :: d in directories ==> "/" + FileName(d) in routes && Serves(routes["/" + FileName(d)], fs, debugMode, d)
  }

  /** Each directory's route leads to one of the handlers `added`. */
  ghost predicate RoutesAmong(routes: map<string, RandomFileHandler>, added: seq<RandomFileHandler>, directories: set<string>)
  {
    forall d :: d in directories ==> "/" + FileName(d) in routes && routes["/" + FileName(d)] in added
  }

  /** Each handler `added` belongs to one of the directories and is the one routed at its name. */
  ghost predicate AddedRouted(added: seq<RandomFileHandler>, routes: map<string, RandomFileHandler>, directories: set<string>)
  {
    forall i :: 0 <= i < |added| ==>
      added[i].baseDirectory in directories
      && "/" + FileName(added[i].baseDirectory) in routes
      && routes["/" + FileName(added[i].baseDirectory)] == added[i]
  }

  /** No two handlers share a name, so no two share a route or an index line. */
  ghost predicate DistinctNames(handlers: seq<RandomFileHandler>)
  {
    forall i, j :: 0 <= i < j < |handlers| ==> handlers[i].name != handlers[j].name
  }

  /** Registering the handler of one more directory, under a fresh route, keeps the registry exact. */
  lemma RegisterOne(added: seq<RandomFileHandler>, routes: map<string, RandomFileHandler>, fs: FileSystem,
                    directories: set<string>, debugMode: bool, directory: string, handler: RandomFileHandler)
    requires Registered(added, routes, fs, directories, debugMode)
    requires directory !in directories && Serves(handler, fs, debugMode, directory)
    requires forall d :: d in directories ==> FileName(d) != FileName(directory)
    ensures Registered(added + [handler], routes["/" + FileName(directory) := handler], fs,
                       directories + {directory}, debugMode)
  {
    var hs, rs, ds := added + [handler], routes["/" + FileName(directory) := handler], directories + {directory};
    CountGrows(added, directories, directory, handler);
    RouteKeysGrow(directories, directory);
    RoutesServeGrow(added, routes, fs, directories, debugMode, directory, handler);
    RoutedHandlersGrow(added, routes, fs, directories, debugMode, directory, handler);
    RoutesInAddedGrow(added, routes, fs, directories, debugMode, directory, handler);
    NewNameIsDistinct(added, routes, fs, directories, debugMode, directory, handler);
    RegisteredIntro(hs, rs, fs, ds, debugMode);
  }

  /** Routes that differ after the slash differ. */
  lemma RouteInjective(a: string, b: string)
    requires a != b
    ensures "/" + a != "/" + b
  {
    assert ("/" + a)[1..] == a && ("/" + b)[1..] == b;
  }

  /** The new route serves the new directory and every old route still serves its own. */
  lemma RoutesServeGrow(added: seq<RandomFileHandler>, routes: map<string, RandomFileHandler>, fs: FileSystem,
                        directories: set<string>, debugMode: bool, directory: string, handler: RandomFileHandler)
    requires RoutesServe(routes, fs, directories, debugMode)
    requires forall d :: d in directories ==> FileName(d) != FileName(directory)
    requires Serves(handler, fs, debugMode, directory)
    ensures RoutesServe(routes["/" + FileName(directory) := handler], fs, directories + {directory}, debugMode)
  {
    var rs := routes["/" + FileName(directory) := handler];
    forall d | d in directories + {directory}
      ensures "/" + FileName(d) in rs && Serves(rs["/" + FileName(d)], fs, debugMode, d)
    {
      if d != directory {
        RouteInjective(FileName(d), FileName(directory));
        assert rs["/" + FileName(d)] == routes["/" + FileName(d)];
      }
    }
  }

  /** Every handler added so far, and the new one, is still the one routed at its name. */
  lemma RoutedHandlersGrow(added: seq<RandomFileHandler>, routes: map<string, RandomFileHandler>, fs: FileSystem,
                           directories: set<string>, debugMode: bool, directory: string, handler: RandomFileHandler)
    requires AddedRouted(added, routes, directories)
    requires forall d :: d in directories ==> FileName(d) != FileName(directory)
    requires handler.baseDirectory == directory
    ensures AddedRouted(added + [handler], routes["/" + FileName(directory) := handler], directories + {directory})
  {
    var hs, rs := added + [handler], routes["/" + FileName(directory) := handler];
    forall i | 0 <= i < |hs|
      ensures hs[i].baseDirectory in directories + {directory}
        && "/" + FileName(hs[i].baseDirectory) in rs && rs["/" + FileName(hs[i].baseDirectory)] == hs[i]
    {
      if i < |added| {
        assert hs[i] == added[i];
        RouteInjective(FileName(added[i].baseDirectory), FileName(directory));
      }
    }
  }

  /** Every route, the new one included, leads to a handler added so far. */
  lemma RoutesInAddedGrow(added: seq<RandomFileHandler>, routes: map<string, RandomFileHandler>, fs: FileSystem,
                          directories: set<string>, debugMode: bool, directory: string, handler: RandomFileHandler)
    requires RoutesAmong(routes, added, directories)
    requires forall d :: d in directories ==> FileName(d) != FileName(directory)
    ensures RoutesAmong(routes["/" + FileName(directory) := handler], added + [handler], directories + {directory})
  {
    var rs := routes["/" + FileName(directory) := handler];
    forall d | d in directories + {directory}
      ensures "/" + FileName(d) in rs && rs["/" + FileName(d)] in added + [handler]
    {
      if d != directory {
        RouteInjective(FileName(d), FileName(directory));
        assert rs["/" + FileName(d)] == routes["/" + FileName(d)];
        assert routes["/" + FileName(d)] in added;
      }
    }
  }

  /**
   * Every registered directory has its own handler among `added`, carrying the
   * directory's name, so the `/` page built from `added` lists that name.
   */
  lemma RegisteredHasHandler(added: seq<RandomFileHandler>, routes: map<string, RandomFileHandler>, fs: FileSystem,
                             directories: set<string>, debugMode: bool, d: string)
    requires Registered(added, routes, fs, directories, debugMode)
    requires d in directories
    ensures exists i :: 0 <= i < |added| && added[i].baseDirectory == d && added[i].name == FileName(d)
  {
    var h := routes["/" + FileName(d)];
    assert Serves(h, fs, debugMode, d);
    var i :| 0 <= i < |added| && added[i] == h;
  }

  /** A handler named after a directory outside the registry adds a name of its own. */
  lemma NewNameIsDistinct(added: seq<RandomFileHandler>, routes: map<string, RandomFileHandler>, fs: FileSystem,
                          directories: set<string>, debugMode: bool, directory: string, handler: RandomFileHandler)
    requires RoutesServe(routes, fs, directories, debugMode) && AddedRouted(added, routes, directories)
    requires DistinctNames(added)
    requires handler.name == FileName(directory)
    requires forall d :: d in directories ==> FileName(d) != FileName(directory)
    ensures DistinctNames(added + [handler])
  {
    var hs := added + [handler];
    forall i, j | 0 <= i < j < |hs| ensures hs[i].name != hs[j].name {
      if j == |added| {
        var d := added[i].baseDirectory;
        assert Serves(routes["/" + FileName(d)], fs, debugMode, d);
      } else {
        assert hs[i] == added[i] && hs[j] == added[j];
      }
    }
  }

  // The lemmas from here to `TakeOne` state small steps of `RegisterOne` and
  // `Launch` on their own, which keeps each proof within the verifier's
  // resource limit.

  /** The routes of one more directory are the old routes and its own. */
  lemma RouteKeysGrow(directories: set<string>, directory: string)
    ensures (set d | d in directories + {directory} :: "/" + FileName(d))
         == (set d | d in directories :: "/" + FileName(d)) + {"/" + FileName(directory)}
  {
  }

  /** One more handler for one more directory keeps the counts equal. */
  lemma CountGrows(added: seq<RandomFileHandler>, directories: set<string>, directory: string, handler: RandomFileHandler)
    requires |added| == |directories| && directory !in directories
    ensures |added + [handler]| == |directories + {directory}|
  {
  }

  /** The parts of `Registered`, established one by one, make it up. */
  lemma RegisteredIntro(added: seq<RandomFileHandler>, routes: map<string, RandomFileHandler>,
                        fs: FileSystem, directories: set<string>, debugMode: bool)
    requires |added| == |directories|
    requires routes.Keys == (set d | d in directories :: "/" + FileName(d))
    requires RoutesServe(routes, fs, directories, debugMode)
    requires RoutesAmong(routes, added, directories)
    requires AddedRouted(added, routes, directories)
    requires DistinctNames(added)
    ensures Registered(added, routes, fs, directories, debugMode)
  {
  }

  /** Appending one more element to the part added after `before` appends it to the whole. */
  lemma AppendOne<T>(before: seq<T>, added: seq<T>, x: T)
    ensures before + (added + [x]) == (before + added) + [x]
  {
  }

  /** Taking `x` out of the remaining part of `all` adds it to the part done. */
  lemma TakeOne<T>(all: set<T>, remaining: set<T>, x: T)
    requires x in remaining && remaining <= all
    ensures all - (remaining - {x}) == (all - remaining) + {x}
  {
  }

  /**
   * The fixed lines the `/` page starts with. The long literals are split so
   * that the verifier can index their first character (`HeaderHasNoNameLine`).
   */
  function IndexHeader(version: string): seq<string>
  {
    [ "StreamerKit: " + version,
      "https://" + "github.com/drasticactions/streamer-kit",
      "To add " + "a new directory, add a new folder to the data directory. Then restart the application.",
      "Available Directories:" ]
  }

  /** One `- <name>` line per handler, in order. */
  function NameLines(handlers: seq<RandomFileHandler>): (r: seq<string>)
    ensures |r| == |handlers|
  {
    if handlers == [] then [] else ["- " + handlers[0].name] + NameLines(handlers[1..])
  }

  /** A handler's name appears in the listing exactly as often as the handler does: once, when names are distinct. */
  lemma {:induction false} NameLineCount(handlers: seq<RandomFileHandler>, name: string)
    requires DistinctNames(handlers)
    ensures multiset(NameLines(handlers))["- " + name] ==
      if exists i :: 0 <= i < |handlers| && handlers[i].name == name then 1 else 0
  {
    if handlers != [] {
      var rest := handlers[1..];
      assert DistinctNames(rest) by {
        forall i, j | 0 <= i < j < |rest| ensures rest[i].name != rest[j].name {
          assert rest[i] == handlers[i + 1] && rest[j] == handlers[j + 1];
        }
      }
      NameLineCount(rest, name);
      assert NameLines(handlers) == ["- " + handlers[0].name] + NameLines(rest);
      assert ("- " + handlers[0].name)[2..] == handlers[0].name && ("- " + name)[2..] == name;
      if handlers[0].name == name {
        forall i | 0 <= i < |rest| ensures rest[i].name != name {
          assert rest[i] == handlers[i + 1];
        }
      } else {
        if exists i :: 0 <= i < |handlers| && handlers[i].name == name {
          var i :| 0 <= i < |handlers| && handlers[i].name == name;
          assert rest[i - 1] == handlers[i];
        }
        if exists i :: 0 <= i < |rest| && rest[i].name == name {
          var i :| 0 <= i < |rest| && rest[i].name == name;
          assert handlers[i + 1] == rest[i];
        }
      }
    }
  }

  /** No line of the fixed header looks like a handler's entry. */
  lemma HeaderHasNoNameLine(version: string, name: string)
    ensures ("- " + name) !in IndexHeader(version)
  {
    var line := "- " + name;
    var header := IndexHeader(version);
    assert line[0] == '-';
    assert header[0][0] == 'S' && header[1][0] == 'h' && header[2][0] == 'T' && header[3][0] == 'A';
    assert forall k :: 0 <= k < |header| ==> header[k][0] != line[0];
  }

  /**
   * The `/` page of handlers with distinct names lists each of them exactly
   * once, and the header lists none.
   */
  lemma IndexListsEachNameOnce(version: string, handlers: seq<RandomFileHandler>, name: string)
    requires DistinctNames(handlers)
    ensures multiset(IndexHeader(version) + NameLines(handlers))["- " + name] ==
      if exists i :: 0 <= i < |handlers| && handlers[i].name == name then 1 else 0
  {
    HeaderHasNoNameLine(version, name);
    NameLineCount(handlers, name);
  }

  class AppCommands {
    const fs: FileSystem
    /** The registered handlers, in the order they were added. */
    var handlers: seq<RandomFileHandler>
    /** The web application's routes to handlers, keyed by path. */
    var routes: map<string, RandomFileHandler>

    constructor (fs: FileSystem)
      ensures this.fs == fs && handlers == [] && routes == map[]
    {
      this.fs := fs;
      handlers := [];
      routes := map[];
    }

    /**
     * Creates the data directory, then builds one handler per subdirectory,
     * with the deletion policy of its name, routed at `/<name>`.
     */
    method Launch(dataDirectory: string, debugMode: bool)
      requires fs.Valid()
      modifies this, fs
      ensures fs.Valid() && fs.files == old(fs.files) && fs.dirs == old(fs.dirs) + {dataDirectory}
      ensures |old(handlers)| <= |handlers| && handlers[..|old(handlers)|] == old(handlers)
      ensures Registered(handlers[|old(handlers)|..], routes, fs, SubDirectories(fs.dirs, dataDirectory), debugMode)
    {
      fs.CreateDirectory(dataDirectory);
      routes := map[];
      ghost var before := handlers;
      ghost var added: seq<RandomFileHandler> := [];
      var directories := SubDirectories(fs.dirs, dataDirectory);
      var remaining := directories;
      assert directories - remaining == {};
      assert (set d | d in directories - remaining :: "/" + FileName(d)) == {};
      while remaining != {}
        invariant fs.Valid() && fs.files == old(fs.files) && fs.dirs == old(fs.dirs) + {dataDirectory}
        invariant directories == SubDirectories(fs.dirs, dataDirectory)
        invariant remaining <= directories
        invariant handlers == before + added
        invariant Registered(added, routes, fs, directories - remaining, debugMode)
        decreases remaining
      {
        var directory :| directory in remaining;
        ghost var done := directories - remaining;
        forall d | d in done ensures FileName(d) != FileName(directory) {
          SiblingNamesDiffer(fs.dirs, dataDirectory, d, directory);
        }
        ghost var previousRoutes := routes;
        var handler := AddDirectory(directory, debugMode);
        RegisterOne(added, previousRoutes, fs, done, debugMode, directory, handler);
        AppendOne(before, added, handler);
        added := added + [handler];
        TakeOne(directories, remaining, directory);
        remaining := remaining - {directory};
      }
      assert directories - remaining == directories;
      assert handlers[..|before|] == before && handlers[|before|..] == added;
    }

    /**
     * One iteration of the launch loop: the handler of `directory`, with the
     * deletion policy of its name, is added to the handlers and routed at
     * `/<name>`.
     */
    method AddDirectory(directory: string, debugMode: bool) returns (handler: RandomFileHandler)
      requires fs.Valid() && directory in fs.dirs
      modifies this, fs
      ensures fs.Valid() && fs.dirs == old(fs.dirs) && fs.files == old(fs.files)
      ensures Serves(handler, fs, debugMode, directory)
      ensures handlers == old(handlers) + [handler]
      ensures routes == old(routes)["/" + FileName(directory) := handler]
    {
      var name := FileName(directory);
      var shouldNotDelete := EndsWithIgnoreCase(name, "-static");
      handler := new RandomFileHandler(fs, directory, !debugMode && !shouldNotDelete);
      routes := routes["/" + name := handler];
      handlers := handlers + [handler];
    }

    /** The text of the `/` page, one entry per line: the fixed header, then every handler's name. */
    method Index(version: string) returns (lines: seq<string>)
      ensures lines == IndexHeader(version) + NameLines(handlers)
    {
      lines := IndexHeader(version);
      var i := 0;
      while i < |handlers|
        invariant 0 <= i <= |handlers|
        invariant lines == IndexHeader(version) + NameLines(handlers[..i])
      {
        NameLinesAppend(handlers[..i], handlers[i]);
        assert handlers[..i + 1] == handlers[..i] + [handlers[i]];
        lines := lines + ["- " + handlers[i].name];
        i := i + 1;
      }
      assert handlers[..i] == handlers;
    }
  }

  /** Adding a handler adds its line at the end. */
  lemma {:induction false} NameLinesAppend(handlers: seq<RandomFileHandler>, h: RandomFileHandler)
    ensures NameLines(handlers + [h]) == NameLines(handlers) + ["- " + h.name]
  {
    if handlers != [] {
      assert (handlers + [h])[1..] == handlers[1..] + [h];
      NameLinesAppend(handlers[1..], h);
    }
  }
}
