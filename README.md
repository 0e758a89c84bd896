# StreamerKit random media dispenser, in Dafny

StreamerKit serves a random media file from a directory per HTTP request.
At launch, every subdirectory of the data directory gets a `RandomFileHandler`,
routed at `/<name>`, where `<name>` is the directory's last path segment.
A request lists the directory's eligible files, picks one at random and
streams it with a content type taken from its extension. The file is deleted
once its stream is closed when the request's `delete` flag, or else the
handler's default, is on, so a file served with deletion on is gone from the
directory afterwards. The `/` page lists the names of all handlers.

This project models that core:

- `paths.dfy` (module `Paths`) covers the `Path` and `String` functions the
  handler uses: `GetFileName`, the directory part of a path, `GetExtension`,
  `TrimStart('.')`, `ToLowerInvariant` and `EndsWith(…, OrdinalIgnoreCase)`.
  Paths are Unix paths with `/` as the only separator.
- `disk.dfy` (module `Disk`) is the filesystem as the handler sees it. A class
  `FileSystem` holds the set of existing directories and the full paths of the
  files, in enumeration order. `CreateDirectory` and the closing of a stream
  (with or without delete-on-close) change it in place.
- `handler.dfy` (module `Handler`) covers the allow-list, the MIME table, the
  eligible-file filter and the class `RandomFileHandler`, with its
  constructor, `GetRandomFileFromDirectory`, `GetRandomFile` and `GetTotal`.
  `Serve` is one request as the web framework runs it: the file is served,
  then its stream is closed.
- `app.dfy` (module `App`) covers the deletion-policy rule and
  `AppCommands.Launch`, which registers one handler and one route per
  subdirectory, plus the text of the `/` page.
- `wrappers.dfy` holds `Option` and `Result`. A thrown
  `DirectoryNotFoundException` is the `Failure(DirectoryNotFound)` result.

`random.Next(n)` is a nondeterministic choice of an index in `[0, n)`. The
HTTP result is the datatype `Reply`:

- `FileReply` is a stream, its content type and the `Total-Files` header if
  one was set;
- `EmptyReply` is `Results.Empty`.

The model follows the code, including these behaviours:

- With no eligible file, the extension used for the fallback file is that of
  the empty selected path. So the handler looks for `<name>.`, with an empty
  extension, beside its own directory, and serves it as
  `application/octet-stream`. It never looks for `<name>.mp4` or any other
  media extension.
- The MIME table is case-sensitive while the allow-list is not. So `c.JPG` is
  served, but as `application/octet-stream`.
- A request's `delete` flag overrides the handler's default in both
  directions. `delete=true` deletes the served file even in debug mode and
  even in a `-static` directory, although the description of `debugMode` says
  that in debug mode no requested file is deleted. `delete=false` keeps a
  file in any directory.
- The null check on `Path.GetFileName` in the constructor never fires for a
  non-null directory string, so the model's constructor has no error path for
  it. The errors of `Directory.CreateDirectory` are listed under "Left out".

## Model

| member | source | states |
|---|---|---|
| Paths.FileName | src/StreamerKit/RandomFileHandler.cs:27 | `Path.GetFileName`: the part after the last `/` (see `Paths.SplitPath` and `Paths.JoinSplit`) |
| Paths.Parent | src/StreamerKit/RandomFileHandler.cs:43 | the directory part of a path, the part before the last `/`, or `""` without one (see `Paths.ParentAt`) |
| Paths.NoSeparator | src/StreamerKit/RandomFileHandler.cs:43 | a path without a separator is its own file name and has an empty parent |
| Paths.Extension | src/StreamerKit/RandomFileHandler.cs:37 | `Path.GetExtension`: the suffix from the last `.` of the last segment, `""` when there is none or it is the last character (see `Paths.ExtensionAt`) |
| Paths.Lower | src/StreamerKit/RandomFileHandler.cs:103 | `ToLowerInvariant`: keeps the length and lower-cases the ASCII letters (see `Paths.LowerAt`) |
| Paths.EndsWithIgnoreCase | src/StreamerKit/Program.cs:46 | `EndsWith(suffix, OrdinalIgnoreCase)`: the string ends in as many characters as the suffix has, and they equal the suffix once both are lower-cased |
| Paths.SplitPath | src/StreamerKit/RandomFileHandler.cs:27 | a path with a separator is its parent, `/` and its file name, and the file name (`Path.GetFileName`) holds no separator |
| Paths.SplitPathInjective | src/StreamerKit/RandomFileHandler.cs:27 | two paths with the same parent and the same file name are equal |
| Paths.JoinSplit | src/StreamerKit/Program.cs:45 | the file name of `dir/name` is `name` and its parent is `dir`, for a separator-free name |
| Paths.ExtensionAt | src/StreamerKit/RandomFileHandler.cs:37 | `Path.GetExtension` is the suffix from the last `.` when no `.` or `/` follows it and it is not the last character |
| Paths.ParentAt | src/StreamerKit/RandomFileHandler.cs:43 | the directory part of a path ends just before its last separator |
| Paths.EmptyPathHasNoExtension | src/StreamerKit/RandomFileHandler.cs:37 | the empty selected path has an empty extension, and it stays empty after `TrimStart('.')` |
| Paths.TrimStartDots | src/StreamerKit/RandomFileHandler.cs:37 | the trimmed extension is empty or does not start with `.` |
| Paths.LowerAt | src/StreamerKit/RandomFileHandler.cs:103 | `ToLowerInvariant` maps each character to its lower-case form at the same position |
| Disk.Without | src/StreamerKit/RandomFileHandler.cs:54 | deleting a file leaves exactly the other files and keeps them distinct |
| Disk.DistinctCard | src/StreamerKit/RandomFileHandler.cs:110 | a listing without repeated paths has as many entries as distinct files |
| Disk.FileSystem.FileExists | src/StreamerKit/RandomFileHandler.cs:44 | `File.Exists`: the path is one of the files |
| Disk.FileSystem.CreateDirectory | src/StreamerKit/RandomFileHandler.cs:25 | the directory exists afterwards and no file changes |
| Disk.FileSystem.Close | src/StreamerKit/RandomFileHandler.cs:54 | closing a delete-on-close stream removes exactly its file; any other stream leaves the files unchanged |
| Handler.SupportedExtensions | src/StreamerKit/RandomFileHandler.cs:9-14 | the 24 allow-listed extensions, each with its leading `.` |
| Handler.IsMediaFile | src/StreamerKit/RandomFileHandler.cs:103 | a file is eligible when its lower-cased extension is allow-listed (see `Handler.MediaInMembers`) |
| Handler.MimeType | src/StreamerKit/RandomFileHandler.cs:57-86 | the case-sensitive switch from an extension without its `.` to a content type, `application/octet-stream` by default (see `Handler.MimeTypeKnownIffSupported`) |
| Handler.FallbackPath | src/StreamerKit/RandomFileHandler.cs:43 | `Path.Combine(baseDirectory, "..", name + "." + extension)` with `..` resolved: the file in the directory's parent, or in the working directory for a directory named without a separator |
| Handler.EmptyExtensionFallback | src/StreamerKit/RandomFileHandler.cs:37-39 | the empty extension maps to `application/octet-stream` |
| Handler.FallbackBesideDirectory | src/StreamerKit/RandomFileHandler.cs:43 | the fallback file has the directory's parent as its own parent and `<name>.<extension>` as its file name |
| Handler.SupportedShape | src/StreamerKit/RandomFileHandler.cs:9-14 | every allow-listed extension is `.` plus at least three characters, the first of which is not `.` |
| Handler.SupportedHasMimeType | src/StreamerKit/RandomFileHandler.cs:57-86 | every allow-listed extension, without its `.`, has a type other than `application/octet-stream` |
| Handler.MimeTypeOnlyForSupported | src/StreamerKit/RandomFileHandler.cs:57-86 | only allow-listed extensions have a type other than `application/octet-stream`; the empty string and `JPG` do not |
| Handler.MimeTypeKnownIffSupported | src/StreamerKit/RandomFileHandler.cs:57-86 | the MIME table knows an extension if and only if `.` plus that extension is on the allow-list |
| Handler.EmptyPathIsNotMedia | src/StreamerKit/RandomFileHandler.cs:102-103 | the empty path is never eligible |
| Handler.ListedPathsAreNonEmpty | src/StreamerKit/RandomFileHandler.cs:91-94 | no listed file is the empty path, so a picked file never takes the fallback branch as empty |
| Handler.LowerSupportedShape | src/StreamerKit/RandomFileHandler.cs:103 | lower-casing keeps a leading `.` and a second character other than `.` |
| Handler.LowerCaseTypeKnown | src/StreamerKit/RandomFileHandler.cs:37-39 | an extension whose lower-cased form is allow-listed has a known type if and only if it is itself allow-listed |
| Handler.ServedTypeKnownIffLowerCase | src/StreamerKit/RandomFileHandler.cs:37-39 | an eligible file is served with a type of its own if and only if its extension is spelled as on the allow-list; otherwise the type is `application/octet-stream` |
| Handler.RemovingConsumesOne | src/StreamerKit/RandomFileHandler.cs:109-110 | deleting a file takes exactly that file out of its directory's eligible set: one fewer if it was eligible, the same set otherwise |
| Handler.ExampleMp4 | src/StreamerKit/RandomFileHandler.cs:102-103 | `/d/a.mp4` has extension `.mp4` and is eligible |
| Handler.ExampleTxt | src/StreamerKit/RandomFileHandler.cs:102-103 | `/d/b.txt` has extension `.txt` and is not eligible |
| Handler.ExampleUpperCaseJpg | src/StreamerKit/RandomFileHandler.cs:102-103 | `/d/c.JPG` has extension `.JPG`, lower-cased to `.jpg`, so it is eligible: the allow-list match ignores case |
| Handler.ExampleUpperCaseJpgType | src/StreamerKit/RandomFileHandler.cs:57-86 | `/d/c.JPG` is served as `application/octet-stream`, because the MIME match is case-sensitive |
| Handler.ExampleDirectoryTail | src/StreamerKit/RandomFileHandler.cs:102-104 | the listing of `b.txt`, `c.JPG` in `/d` is `c.JPG` alone |
| Handler.ExampleDirectory | src/StreamerKit/RandomFileHandler.cs:102-104 | the listing of `a.mp4`, `b.txt`, `c.JPG` in `/d` is `a.mp4`, `c.JPG`, in enumeration order |
| Handler.MediaIn | src/StreamerKit/RandomFileHandler.cs:102-104 | the eligible files directly inside the directory, in enumeration order (see Handler.MediaInMembers, Handler.MediaInDistinct) |
| Handler.MediaInDistinct | src/StreamerKit/RandomFileHandler.cs:102-104 | the filter of a listing without repeats has no repeats |
| Handler.MediaInMembers | src/StreamerKit/RandomFileHandler.cs:102-104 | a path is listed if and only if it is a file directly inside the directory whose lower-cased extension is allow-listed |
| Handler.GetMediaFiles | src/StreamerKit/RandomFileHandler.cs:97-107 | fails with directory-not-found if and only if the path is empty or no such directory exists; otherwise it returns exactly the eligible files of the directory, without repetition |
| Handler.RandomFileHandler.constructor | src/StreamerKit/RandomFileHandler.cs:21-28 | the handler keeps the directory and the default-delete flag, is named after the directory's last segment, and the directory exists afterwards |
| Handler.RandomFileHandler.GetRandomFileFromDirectory | src/StreamerKit/RandomFileHandler.cs:89-95 | fails exactly when the listing fails; otherwise the length is the listing's size, and the file is `""` when it is 0 and a listed file otherwise |
| Handler.RandomFileHandler.GetRandomFile | src/StreamerKit/RandomFileHandler.cs:32-55 | fails exactly when the directory is missing. With no eligible file it serves the fallback `<name>.` beside the directory as octet-stream, never deleting it and without `Total-Files`, if that file exists, and is empty otherwise. Otherwise it serves a listed file whose delete-on-close is the request's flag or else the default, with the type of its trimmed extension and `Total-Files` equal to the listing's size |
| Handler.RandomFileHandler.Serve | src/StreamerKit/RandomFileHandler.cs:32-55 | one request whose stream is closed once sent. It fails exactly when `GetTotal` fails. With nothing eligible the reply is the fallback or empty and the files are unchanged. Otherwise the reply is as `GetRandomFile` promises for the files before the request. Closing removes exactly the served file when its stream deletes on close, so that file is gone and `GetTotal` is one smaller; with the effective delete flag off the files are unchanged and `GetTotal` is the same |
| Handler.RandomFileHandler.GetTotal | src/StreamerKit/RandomFileHandler.cs:109-110 | fails exactly when the directory is missing; otherwise it is the number of distinct eligible files in the directory, and reading it changes nothing |
| App.DebugModeNeverDeletes | src/StreamerKit/Program.cs:47 | in debug mode no handler deletes by default, whatever its name |
| App.StaticSuffixNeverDeletes | src/StreamerKit/Program.cs:45-47 | a name ending in `-static`, in any case, never deletes by default |
| App.PlainNameDeletes | src/StreamerKit/Program.cs:46-47 | outside debug mode, a name without the `-static` suffix deletes by default |
| App.ExampleStaticPolicies | src/StreamerKit/Program.cs:45-47 | `Pool-STATIC` and `pool-static` keep their files |
| App.ExamplePlainPolicy | src/StreamerKit/Program.cs:45-47 | `pool` deletes its files outside debug mode and keeps them in debug mode |
| App.DefaultDelete | src/StreamerKit/Program.cs:46-47 | the policy `!debugMode && !name.EndsWith("-static", OrdinalIgnoreCase)` (see the three lemmas below) |
| App.SubDirectories | src/StreamerKit/Program.cs:42 | `Directory.EnumerateDirectories`: the directories whose parent is the data directory |
| App.SiblingNamesDiffer | src/StreamerKit/Program.cs:42-48 | two different subdirectories of the data directory have different names, hence different route keys (compared exactly) |
| App.RouteInjective | src/StreamerKit/Program.cs:48 | different names give different routes `/<name>` |
| App.RoutesServeGrow | src/StreamerKit/Program.cs:47-48 | after a new route, every registered directory's route still leads to a handler of that directory with its policy |
| App.RoutedHandlersGrow | src/StreamerKit/Program.cs:48-49 | every handler added so far, and the new one, is the handler routed at its own name |
| App.NewNameIsDistinct | src/StreamerKit/Program.cs:45-49 | a handler for a directory whose name is not yet registered keeps the handlers' names distinct |
| App.RegisterOne | src/StreamerKit/Program.cs:43-50 | one more loop iteration keeps the registry exact: one handler per directory, one route per name, each with its policy |
| App.AppCommands.constructor | src/StreamerKit/Program.cs:21 | the command starts with no handlers and no routes |
| App.AppCommands.AddDirectory | src/StreamerKit/Program.cs:45-49 | the directory's handler has the policy of the directory's name, is routed at `/<name>` and is appended to the handlers; the files do not change |
| App.RoutesInAddedGrow | src/StreamerKit/Program.cs:43-50 | after one more registration, every directory's route, the new one included, leads to one of the handlers created so far |
| App.RegisteredHasHandler | src/StreamerKit/Program.cs:43-50 | every registered directory has a handler of its own among those created, carrying the directory's name, so the `/` page lists that name |
| App.AppCommands.Launch | src/StreamerKit/Program.cs:30-50 | creates the data directory and changes no file. Earlier handlers stay in place. The new handlers are exactly one per subdirectory, each routed at `/<name>` with policy `!debugMode && !name.EndsWith("-static")`, and no two share a name |
| App.IndexHeader | src/StreamerKit/Program.cs:54-57 | the four fixed lines the `/` page starts with, the version in the first |
| App.NameLines | src/StreamerKit/Program.cs:58-61 | one `- <name>` line per handler, in order, as many lines as handlers |
| App.NameLinesAppend | src/StreamerKit/Program.cs:58-61 | adding a handler adds its `- <name>` line at the end |
| App.NameLineCount | src/StreamerKit/Program.cs:58-61 | with distinct names, a name's line occurs once if a handler has that name and not at all otherwise |
| App.HeaderHasNoNameLine | src/StreamerKit/Program.cs:54-57 | no fixed header line is a `- <name>` line |
| App.IndexListsEachNameOnce | src/StreamerKit/Program.cs:52-62 | the `/` page of handlers with distinct names lists each handler's name exactly once and no other name |
| App.AppCommands.Index | src/StreamerKit/Program.cs:52-62 | the page is the four header lines, then one `- <name>` line per handler, in registration order |

## Left out

- The HTTP layer is not modelled: `HttpContext`, `MapGet`, `WebApplication`, the port and the static and default-file middleware. A route is a key of the `routes` map, and a reply is the `Reply` datatype.
- `FileStream` modes, sharing and buffer size are not modelled. Only the effect of `FileOptions.DeleteOnClose` is: the file disappears when the stream is closed.
- `System.Random` is a nondeterministic choice in `[0, n)`. Its distribution is not modelled.
- Handler.RandomFileHandler.GetRandomFile: the branch for a picked file that has vanished before it is opened is a race with another request, which this sequential model cannot express. Requests run one at a time, so a picked file always exists.
- Handler.RandomFileHandler.constructor: `Directory.CreateDirectory` throws for an empty or malformed path and on I/O errors, and that error path is not modelled. `Launch` only ever passes enumerated, non-empty subdirectory paths.
- Disk.FileSystem.CreateDirectory: missing ancestor directories are not created, and it does not fail when a file already has the path: the path is added to the directories anyway. Access errors are not modelled either.
- App.AppCommands.Launch: the exceptions of `Directory.CreateDirectory` and `Directory.EnumerateDirectories` (a file in the data directory's place, access errors) are not modelled, so `Launch` always succeeds, whereas the program aborts the launch.
- `ConsoleAppFramework` argument parsing and the reflection in `GetAppVersion` are not modelled. The version string is a parameter of `Index`.
- `FileHelpers.GetDataDirectory` (a `Path.Combine` over the application's base directory) is not part of this model. The data directory is a parameter of `Launch`.
- Paths use `/` as the only separator. Windows separators, trailing separators and other edge cases of `Path.GetFileName` and `Path.GetExtension` are not modelled. The `..` in the fallback path is resolved lexically to the parent directory, or to the working directory for a directory given without a separator.
- Route keys are compared exactly, while ASP.NET Core matches route text ignoring case. Sibling directories `Pool` and `pool` get two routes here, each with its own handler, whereas in the program a request to `/pool` matches both endpoints and fails as ambiguous. The name is also taken literally here, whereas `MapGet` parses `/<name>` as a route template: a directory named `{id}` becomes a parameter route that catches other one-segment paths, and a name with a literal `?` is rejected by the route parser at launch.
- `ToLowerInvariant` and `OrdinalIgnoreCase` only fold the ASCII letters `A`-`Z`. Non-ASCII case mapping is not modelled.
- The `handlers` `HashSet` iterates in insertion order here. The order of `Directory.EnumerateDirectories` is left free, through a nondeterministic choice of the next directory.
- The `StringBuilder` text of the `/` page is a sequence of lines. The line terminators are not modelled.
