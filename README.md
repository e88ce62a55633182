# Path utilities: a verified Dafny model

This project models two pieces of a C++ utility library.

- `PathUtil` (Utils/Path.cpp) splits a path string into four fields: a root, a directory, a
  stem and an ordered list of extensions. It rebuilds strings from those fields (full path,
  rooted directory, extensions, parent directory) and edits them in place (file name,
  appended directory).
- `FileSystem` (Utils/FileSystem.cpp) holds string helpers for paths: `normalize`,
  `unixPath` and `absolute`, plus `list`, which partitions the entries of a directory into a
  caller's deque: subdirectories in front, files at the back.

The model has five modules:

- `StringUtils` (strings.dfy): the string helpers the library calls but that are not shown.
  Their assumed meaning is:
  - `ReplaceAll` replaces every occurrence, left to right, without overlaps, and writes the
    result into the destination;
  - `TrimWs` strips ASCII whitespace (space, tab, newline, vertical tab, form feed, carriage
    return) at both ends;
  - `Split` returns the maximal runs of non-delimiter characters, so empty tokens are
    dropped (an assumption; see below);
  - joining concatenates;
  - `IsLetter` means an ASCII letter.

  Properties that depend on `Split` are stated in terms of this function.
- `PathModel` (path_model.dfy): the datatype `PathParts` holds the four fields. `Parse` is
  the value `construct` produces on a fresh object, and the const members are functions of
  a `PathParts`.
- `PathObject` (path_util.dfy): the class `PathUtil`.
  - Its fields are `root`, `directory`, `file` and `extension`.
  - `Construct` runs the backward scan loop.
  - `ParentDir` runs the popping loop and the writing loop.
  - The field editors update the fields in place.
  - Every method is proved equal to the `PathModel` function of its old state.
- `PathLemmas` (path_lemmas.dfy): properties of the parse and the rebuilt strings.
- `FileSystem` (file_system.dfy): the platform is a parameter, `Posix` or `Windows`. It
  replaces the compile-time switch and decides which separator is native. The current
  directory and the directory enumeration are parameters too. The destination deque is the
  class `EntryDeque`, and `List` pushes into it in place.

`Su::split` is not part of this model. The model assumes that it drops empty tokens. The
reason is Path.cpp:81, which tests whether splitting a non-empty name gave no tokens; that can
only happen when empty tokens are dropped. The documented example of `.env` having an empty stem
and the extension `env` contradicts this assumption. What follows from it:

- `.env` has the stem `env` and no extensions (`DotfileParse`).
- `a..b` has the file name `a.b` (`DoubleDotFileName`). So `stem + fullExtension` gives a
  separator-free name back only when it has no empty `.`-tokens (`FileNameRoundTrip`).
- A name made of dots only (`.`, `..`) splits into no tokens and is kept whole as the stem.
  That is why `WellFormedName` allows a stem of dots only when there are no extensions.

Where the code and its documented behaviour disagree, the model follows the code:

- `construct` strips only ONE `/` after the root. `///a/b` therefore gets the directory `/a/`
  (`TripleSlashParse`), although the documentation says a directory never starts with `/`.
  For the same reason, re-parsing `fullPath` is not idempotent in general
  (`FullPathNotIdempotentOnTripleSlash`). Idempotence is proved only for directories that do
  not start with `/` (`FullPathIdempotent`).
- After the drive letter and `:`, the next character is skipped unchecked, so `C:ab/f` gets
  the directory `b/` (`DriveRelativeDropsCharacter`).

## Model

| member | source | states |
|---|---|---|
| PathObject.PathUtil.constructor | Utils/Path.cpp:94-97 | the new object's fields are `Parse(str)` |
| PathObject.PathUtil.Copy | Utils/Path.cpp:89-92 | the copy holds the parse of the other object's full path, not its fields |
| PathObject.PathUtil.Construct | Utils/Path.cpp:29-87 | the backward scan finds the last `/` of the cleaned string (loop invariant: no `/` after the scan position); the resulting fields are `Parse(str)` |
| PathObject.PathUtil.TakeDirectory | Utils/Path.cpp:47-75 | root and directory are the root split off the raw directory and the trimmed rest; stem and extensions are untouched |
| PathObject.PathUtil.SplitExtensions | Utils/Path.cpp:77-86 | stem and extensions become the split of the old stem on `.`; root and directory are untouched |
| PathObject.PathUtil.SetFileNameFrom | Utils/Path.cpp:126-130 | only stem and extensions change, to those of the other object |
| PathObject.PathUtil.SetFileName | Utils/Path.cpp:132-138 | only stem and extensions change, to those of the parsed argument |
| PathObject.PathUtil.AppendDirectoryFrom | Utils/Path.cpp:220-224 | the directory grows by the other object's directory, or nothing changes when that directory is empty |
| PathObject.PathUtil.AppendDirectoryPath | Utils/Path.cpp:226-238 | the piece is given a trailing separator, loses one leading separator, is parsed, and its directory is appended |
| PathObject.PathUtil.ParentDir | Utils/Path.cpp:160-183 | the popping loop removes `min(n, #segments)` segments and the writing loop terminates each remaining one with `/`; the result equals `PathModel.ParentDir` |
| PathObject.PathUtil.ParentPath | Utils/Path.cpp:185-188 | a fresh object parsed from `parentDir(n)` |
| PathObject.PathUtil.ConstructWithFileName | Utils/Path.cpp:250-255 | a fresh object holding the directory of `path` with the file name of `srcPath`, re-parsed from its full path |
| PathModel.Parse | Utils/Path.cpp:29-87 | `construct` on a fresh object; characterised by `ParseValid`, `ParseDirectorySuffix`, `ParseWithoutSeparator`, `ParseIsAbsolute`, `ParseHasDirectory`, `ParseHasExtensions` and `ParseClean`, and computed step by step by `PathUtil.Construct` |
| PathModel.FullExtension | Utils/Path.cpp:212-218 | `.` before each extension, in order; `ExtensionsRoundTrip` splits it back into the extensions and `NameRoundTrip` splits `stem + fullExtension` back into the parts |
| PathModel.FirstExtension | Utils/Path.cpp:110-119 | by `ExtensionStrings`: empty without extensions, otherwise `.` and the first extension, a prefix of `fullExtension` |
| PathModel.LastExtension | Utils/Path.cpp:99-108 | by `ExtensionStrings`: empty without extensions, otherwise `.` and the last extension, a suffix of `fullExtension` |
| PathModel.FileName | Utils/Path.cpp:121-124 | stem followed by `fullExtension`; `FileNameRoundTrip` gives back a parsed name without empty tokens, `DoubleDotFileName` shows the loss otherwise, `WithFileNameKeeps` ties it to the file-name setter |
| PathModel.RootedDir | Utils/Path.cpp:205-210 | by `RootedDirSplits`: splitting the root off it gives back the canonical root and the directory |
| PathModel.FullPath | Utils/Path.cpp:195-203 | by `ReparseFullPath` and `FullPathIdempotent`: re-parsing it gives back the parts (canonical root) when the directory does not start with `/`; `FullPathNotIdempotentOnTripleSlash` shows the failure otherwise |
| PathModel.DirectoryList | Utils/Path.cpp:150-153 | the directory split on `/`; used by `ParentDirSegments`, `ParentDirIsAncestor` and `ParentDirDropsLast` to say which segments `parentDir` keeps |
| PathModel.ParentDir | Utils/Path.cpp:160-183 | by `ParentDirSegments`: `rootedDir()` for `n == 0`, else root + `/` and the directory with `min(n, #segments)` segments removed; `PathUtil.ParentDir` computes it with the two loops |
| PathModel.HasDirectory | Utils/Path.cpp:155-158 | characterised on parsed inputs by `ParseHasDirectory` |
| PathModel.IsAbsolute | Utils/Path.cpp:240-243 | characterised on parsed inputs by `ParseIsAbsolute` |
| PathModel.HasExtensions | Utils/Path.cpp:245-248 | characterised on parsed inputs by `ParseHasExtensions` |
| PathModel.WithFileName | Utils/Path.cpp:126-138 | by `WithFileNameKeeps`: the result is well formed, keeps `rootedDir` and takes the argument's `fileName()`; `PathUtil.SetFileName` and `SetFileNameFrom` compute it in place |
| PathModel.AppendDirectory | Utils/Path.cpp:220-224 | the directory grows by the other directory, unless that is empty; `PathUtil.AppendDirectoryFrom` computes it in place, and `AppendDirectoryStringKeeps` proves it keeps the path well formed |
| PathModel.DirectoryPiece | Utils/Path.cpp:228-235 | the piece with a trailing separator added and one leading separator dropped; `AppendRelativeDirectory` shows a plain relative piece `s` becomes `s + "/"` |
| PathModel.AppendDirectoryString | Utils/Path.cpp:226-238 | by `AppendDirectoryStringKeeps` and `AppendRelativeDirectory`: well formed, only the directory grows, and a plain relative `s` adds `s + "/"` |
| PathModel.ConstructWithFileName | Utils/Path.cpp:250-255 | by `ConstructWithFileNameParts`: the directory of `path` with the stem and extensions of `srcPath` and the canonical root |
| PathModel.Clean | Utils/Path.cpp:31-33 | every `\` becomes `/`; by `CleanHasNoBackslash` no `\` is left and the length is kept, and by `ParseClean` parsing the cleaned input is parsing the input |
| PathModel.SplitName | Utils/Path.cpp:77-86 | split on `.`, the front token is the stem and the rest the extensions, a name without tokens kept whole; by `SplitNameWellFormed` the result is a well-formed name, by `NameRoundTrip` it inverts `stem + fullExtension`, and by `SplitNameExtensions` there are extensions exactly when the split has more than one token |
| PathModel.LastIndexOf | Utils/Path.cpp:39-45 | the result is npos or an index holding `c`, and no later index holds `c` |
| PathModel.SplitRoot | Utils/Path.cpp:53-65 | the root is `""`, `"/"` or a letter followed by `:`; it is a prefix of the raw directory, the rest is a suffix of it, and root and rest together are the raw directory or one character shorter (the character skipped after a drive) |
| PathModel.TrimDirectory | Utils/Path.cpp:67-74 | the trimmed directory is empty or ends with `/` |
| PathLemmas.ParseValid | Utils/Path.cpp:29-87 | after construct: the root is one of the three forms; root, directory, stem and extensions hold no `\`; the stem holds no `/`; a non-empty directory ends with `/`; the extensions are non-empty and dot-free |
| PathLemmas.ParseDirectorySuffix | Utils/Path.cpp:47-74 | a root or directory exists only if the cleaned input has a `/`; then the root is a prefix of the cleaned input and the directory is the part of it that ends at its last `/` |
| PathLemmas.ParseWithoutSeparator | Utils/Path.cpp:47-48 | an input with neither `/` nor `\` gives an empty root and directory; the stem is the first `.`-token and the extensions are the rest, in order |
| PathLemmas.DirectoryAvoidsBackslash | Utils/Path.cpp:52-74 | root and directory taken from a backslash-free raw directory are backslash-free |
| PathLemmas.NameAfterLastSeparator | Utils/Path.cpp:47-51 | the text after the last `/` of a cleaned string holds no separator |
| PathLemmas.SplitNameWellFormed | Utils/Path.cpp:77-86 | splitting a separator-free name gives a well-formed stem and extension list |
| PathLemmas.NameRoundTrip | Utils/Path.cpp:77-86 | splitting `stem + fullExtension` gives back the stem and the extensions |
| PathLemmas.ParseSpelled | Utils/Path.cpp:29-87 | a string spelled as a `/`-terminated raw directory, a stem and its extensions parses into the root and trimmed directory of the raw directory, that stem and those extensions |
| PathLemmas.FileNameRoundTrip | Utils/Path.cpp:121-124 | for a separator-free name without empty `.`-tokens, `fileName()` after construct gives back the name |
| PathLemmas.DoubleDotFileName | Utils/Path.cpp:77-86 | `a..b` parses to stem `a` and extensions `[b]`, so its `fileName()` is `a.b`: the round trip fails on an empty token |
| PathLemmas.ParseIsAbsolute | Utils/Path.cpp:240-243 | `isAbsolute` holds if and only if the cleaned input has a `/` and starts with `/` or with a letter and `:` |
| PathLemmas.ParseHasDirectory | Utils/Path.cpp:155-158 | `hasDirectory` holds if and only if the cleaned input has a `/` whose last occurrence is at index 2 or later after a leading `/`, at index 4 or later after a drive letter and `:`, or anywhere in a rootless input |
| PathLemmas.ParseHasExtensions | Utils/Path.cpp:245-248 | `hasExtensions` holds if and only if the name after the last `/` splits into more than one `.`-token |
| PathLemmas.ExtensionStrings | Utils/Path.cpp:99-119 | without extensions, all three extension strings are empty; otherwise `firstExtension` is a prefix and `lastExtension` a suffix of `fullExtension` |
| PathLemmas.ExtensionsRoundTrip | Utils/Path.cpp:212-218 | splitting `fullExtension` on `.` gives back the extensions in order |
| PathLemmas.ReparseFullPath | Utils/Path.cpp:195-210 | parsing `fullPath` of a well-formed value without a leading `/` in the directory gives the value back, except that the root is dropped without a directory and becomes `/` when it was empty |
| PathLemmas.RootedDirSplits | Utils/Path.cpp:205-210 | `rootedDir` of a non-empty directory ends with `/`, and splitting its root off gives the root (`/` for an empty one) and the directory |
| PathLemmas.FullPathIdempotent | Utils/Path.cpp:195-203 | `fullPath` of the parse of a `fullPath` is that `fullPath`, when the directory does not start with `/` |
| PathLemmas.FullPathNotIdempotentOnTripleSlash | Utils/Path.cpp:67-70 | `///a/b` has the full path `//a/b`, whose full path is `/a/b` |
| PathLemmas.TripleSlashParse | Utils/Path.cpp:55-70 | `///a/b` parses to root `/` and directory `/a/`: only one leading `/` is removed |
| PathLemmas.DoubleSlashParse | Utils/Path.cpp:55-70 | `//a/b` parses to root `/` and directory `a/` |
| PathLemmas.TripleSlashFullPath | Utils/Path.cpp:195-210 | `fullPath` of `///a/b` is `//a/b` |
| PathLemmas.DoubleSlashFullPath | Utils/Path.cpp:195-210 | `fullPath` of `//a/b` is `/a/b` |
| PathLemmas.RelativeFullPathGainsSlash | Utils/Path.cpp:205-210 | `fullPath` of `a/b.txt` is `/a/b.txt`: a `/` follows even an empty root |
| PathLemmas.RelativeParse | Utils/Path.cpp:29-87 | `a/b.txt` parses to an empty root, directory `a/`, stem `b` and extension `txt` |
| PathLemmas.RootDroppedWithoutDirectory | Utils/Path.cpp:195-203 | `fullPath` of `/f.txt` is `f.txt`: without a directory the root is dropped |
| PathLemmas.RootFileParse | Utils/Path.cpp:29-87 | `/f.txt` parses to root `/`, an empty directory, stem `f` and extension `txt` |
| PathLemmas.ParseClean | Utils/Path.cpp:33 | parsing the cleaned input gives the same as parsing the input |
| PathLemmas.DriveRelativeDropsCharacter | Utils/Path.cpp:60-64 | `C:ab/f` parses to root `C:` and directory `b/`: the character after the drive is skipped unchecked |
| PathLemmas.WindowsPathParse | Utils/Path.cpp:29-87 | `C:\a\f.gz` parses to root `C:`, directory `a/`, stem `f` and extension `gz` |
| PathLemmas.WindowsFullPath | Utils/Path.cpp:195-210 | `fullPath` of `C:\a\f.gz` is `C:/a/f.gz` |
| PathLemmas.PosixPathParse | Utils/Path.cpp:29-87 | `/etc/app.conf` parses to root `/`, directory `etc/`, stem `app` and extension `conf` |
| PathLemmas.DotfileParse | Utils/Path.cpp:77-86 | `.env` parses to stem `env` and no extensions, because split drops the empty first token |
| PathLemmas.ParentDirSegments | Utils/Path.cpp:160-183 | `parentDir(0)` is `rootedDir()`; for `n >= 1` the result starts with root + `/`, and the rest splits into the directory segments with `min(n, #segments)` removed from the back |
| PathLemmas.ParentDirDoubleSlash | Utils/Path.cpp:180-182 | with root `/` and `n >= 1` the result starts with `//` |
| PathLemmas.ParentDirIsAncestor | Utils/Path.cpp:160-183 | for a directory of `/`-terminated segments, the result is root + `/` followed by a prefix of the directory |
| PathLemmas.ParentDirOfAll | Utils/Path.cpp:176-182 | removing at least as many segments as there are leaves root + `/` |
| PathLemmas.ParentDirDropsLast | Utils/Path.cpp:160-183 | `parentDir(1)` of a directory made of `/`-terminated tokens drops exactly the last token |
| PathLemmas.ParentDirExample | Utils/Path.cpp:160-183 | `parentDir(1)` of `/a/b/c.txt` is `//a/` |
| PathLemmas.NestedParse | Utils/Path.cpp:29-87 | `/a/b/c.txt` parses to root `/`, directory `a/b/`, stem `c` and extension `txt` |
| PathLemmas.AppendDirectoryStringKeeps | Utils/Path.cpp:220-238 | appending a directory keeps the object well-formed, keeps root, stem and extensions, extends the directory, and changes nothing when the piece has no directory |
| PathLemmas.AppendRelativeDirectory | Utils/Path.cpp:226-238 | appending a plain relative name `s` adds `s + "/"` to the directory |
| PathLemmas.RelativeDirectoryParse | Utils/Path.cpp:29-87 | a rootless `/`-terminated string parses to itself as directory, with an empty name |
| PathLemmas.WithFileNameKeeps | Utils/Path.cpp:126-138 | setting the file name keeps the object well-formed and its rooted directory, and the new `fileName()` is that of the argument |
| PathLemmas.ConstructWithFileNameParts | Utils/Path.cpp:250-255 | the static construct gives the directory of `path` with the stem and extensions of `srcPath`, with the root made canonical |
| FileSystem.NativeSeparator | Utils/FileSystem.cpp:29-35 | `sep` of the `#ifdef _WIN32` pair: `\` on `Windows`, `/` on `Posix`; the build switch is the `Platform` parameter |
| FileSystem.ForeignSeparator | Utils/FileSystem.cpp:29-35 | `swp` of the same pair: `/` on `Windows`, `\` on `Posix`, always the other separator |
| FileSystem.HasRootDirectory | Utils/FileSystem.cpp:53 | the POSIX reading of `has_root_directory`: the path starts with `/`; `Absolute` branches on it, and the Windows meaning is left out (see `FileSystem.AbsoluteIsRooted` below) |
| FileSystem.Normalize | Utils/FileSystem.cpp:27-42 | the result is the whitespace-trimmed input, character by character, with every foreign separator turned into the native one; no foreign separator is left |
| FileSystem.NormalizeTrimmed | Utils/FileSystem.cpp:37-40 | the result needs no further trimming |
| FileSystem.NormalizeIdempotent | Utils/FileSystem.cpp:27-42 | normalizing twice is normalizing once |
| FileSystem.NormalizeKeeps | Utils/FileSystem.cpp:27-42 | a trimmed path without a foreign separator is left as it is |
| FileSystem.UnixPath | Utils/FileSystem.cpp:69-78 | as written: the trimmed input with every `\` turned into `/`, of the same length; no `\` is left |
| FileSystem.UnixPathIdempotent | Utils/FileSystem.cpp:69-78 | applying unixPath twice is applying it once |
| FileSystem.UnixPathKeepsDoubledBackslash | Utils/FileSystem.cpp:75-76 | as written, `a\\b` becomes `a//b`: the collapse of line 75 is lost |
| FileSystem.UnixPathCollapsed | Utils/FileSystem.cpp:69-78 | corrected: collapse `\\` into `\`, then convert; no `\` is left |
| FileSystem.UnixPathCollapsedUnescapes | Utils/FileSystem.cpp:69-78 | corrected: on an input whose backslashes are all doubled, the result equals the plain conversion of the undoubled input |
| FileSystem.CollapseUnescapes | Utils/FileSystem.cpp:75 | collapsing `\\` into `\` undoes the doubling of every backslash |
| FileSystem.UnixPathCollapsedExample | Utils/FileSystem.cpp:75-76 | corrected: `a\\b` becomes `a/b` |
| FileSystem.Absolute | Utils/FileSystem.cpp:49-62 | the result holds no foreign separator |
| FileSystem.AbsoluteJoinsCwd | Utils/FileSystem.cpp:53-59 | for a non-rooted input, when the current directory and the input are non-empty and need no trimming, the result is `Normalize(cwd)`, the normalized `/`, then `Normalize(input)` |
| FileSystem.AbsoluteKeepsJoin | Utils/FileSystem.cpp:53-59 | on POSIX only (the foreign separator is not `/`): a non-rooted input and a current directory that are non-empty, need no trimming and hold no `\` come out joined as `cwd + "/" + input` |
| FileSystem.AbsoluteIsRooted | Utils/FileSystem.cpp:49-62 | on POSIX the result has a root directory when the input or the current directory has one |
| FileSystem.AbsoluteIdempotent | Utils/FileSystem.cpp:49-62 | on POSIX with a rooted current directory, absolute of absolute is absolute |
| FileSystem.AbsoluteExample | Utils/FileSystem.cpp:49-62 | `rel/file.txt` in `/home/u` is `/home/u/rel/file.txt` |
| FileSystem.EntryDeque.PushFront | Utils/FileSystem.cpp:96 | the entry is put before the old contents |
| FileSystem.EntryDeque.PushBack | Utils/FileSystem.cpp:98 | the entry is put after the old contents |
| FileSystem.Listing | Utils/FileSystem.cpp:85-101 | by `ListingPermutation` and `ListingOrder`: exactly the old contents plus the enumerated entries, directories first in reverse order, then the old contents in place, then the files in order; `List` computes it in place |
| FileSystem.List | Utils/FileSystem.cpp:85-101 | the loop leaves `dest` holding the subdirectories in reverse order, then its old contents, then the files in order; a path that is not a directory leaves `dest` unchanged |
| FileSystem.ListingGrows | Utils/FileSystem.cpp:93-99 | one more entry puts a directory in front of the listing and a file behind it |
| FileSystem.ListingPermutation | Utils/FileSystem.cpp:85-101 | `dest` grows by exactly the enumerated entries, as a multiset, and by their number |
| FileSystem.ListingOrder | Utils/FileSystem.cpp:93-99 | every directory entry comes before the old contents, the old contents stay in place, and every file entry comes after them |
| FileSystem.PartitionSides | Utils/FileSystem.cpp:95-98 | an entry is on the directory side exactly when it is an enumerated directory, and on the file side exactly when it is an enumerated file |
| FileSystem.PartitionCounts | Utils/FileSystem.cpp:95-98 | the two sides together hold exactly the enumerated entries, and their lengths add up |
| FileSystem.ReverseIndex | Utils/FileSystem.cpp:96 | repeated push_front reverses the order: position `i` holds entry `n-1-i` |
| FileSystem.ListingExample | Utils/FileSystem.cpp:93-99 | directories d1, d2 and files f1, f2, enumerated as d1 f1 d2 f2 into an empty deque, end up as d2 d1 f1 f2 |

## Left out

- Utils/Time.h, `now16` and `now32`: they only read a hardware clock.
- `FileSystem::currentPath` and `PathUtil::exists`: they query the real file system. The current directory is a parameter of `Absolute`.
- The `FilePath` overloads of `normalize` and `unixPath` (FileSystem.cpp:44-47, 80-83): they only wrap the string versions in `std::filesystem::path`.
- `is_directory` and `DirectoryIterator` in `list`: their results are parameters, a flag for the path and a sequence of entries with directory flags. The order of that sequence is the enumeration order, which the model does not constrain.
- Exceptions: `is_directory`, the directory iterator and `current_path` can throw `filesystem_error`. The model has no error path for them. In particular, a throw in the middle of the loop of FileSystem.cpp:93-99 leaves `dest` partly filled, which `List` does not describe.
- The `#ifdef _WIN32` switch in `normalize`: the platform is a parameter.
- FileSystem.AbsoluteIsRooted: proved only for `Posix`, where a root directory means a leading `/`. The Windows meaning of `has_root_directory` (a leading `\` or `/`, possibly after a drive) is not modelled.
- FileSystem.AbsoluteIdempotent: proved only for `Posix` with a rooted current directory, for the same reason.
- PathModel.TrimDirectory: Path.cpp:72 calls `back()` on a directory that has just become empty (inputs such as `//x` or `C:a/b`), which is undefined. The model keeps the empty directory there.
- PathLemmas.FullPathIdempotent: requires that the directory does not start with `/`. The code strips only one leading `/`, and `FullPathNotIdempotentOnTripleSlash` shows the property fails otherwise.
- PathLemmas.ConstructWithFileNameParts: the same requirement on the directory of `path`, for the same reason.
- PathLemmas.ReparseFullPath: also requires a well-formed value, as every parse produces (`ParseValid`).
- PathLemmas.FileNameRoundTrip: requires that the name has no empty `.`-tokens (no leading, trailing or doubled `.`). The documentation promises `stem + fullExtension` gives back every separator-free name. Under the assumed `Split`, empty tokens are lost, so `a..b` gives `a.b` (`DoubleDotFileName`) and `.env` gives `env` (`DotfileParse`).
- FileSystem.AbsoluteJoinsCwd: requires a non-empty current directory and input that need no trimming. Without that, trimming the joined string is not trimming each piece: whitespace at the inner ends stays inside the join, and an empty piece leaves the `/` at an end of it.
- FileSystem.AbsoluteKeepsJoin: proved only for POSIX, where `/` is the native separator.
- The trivial getters `stem()`, `directory()` and `root()` only read a field.
- `directoryList(dest)` (Path.cpp:150-153) splits the directory into a caller's deque. The model returns the tokens instead (`DirectoryList`); how `Su::split` treats what the deque held before is not shown, so that is not modelled.
- The `size_t` of `parentDir(n)` is modelled as `nat`. Values beyond the segment count behave like the segment count, so no wrap-around can matter.
- Character encoding: strings are sequences of characters, and whitespace and letters are ASCII.
- PathObject.PathUtil.Construct: modelled only on a fresh object, the way the two constructors call it.

## Findings

| source | as written | input that shows it | evidently intended | confidence | as-written member | corrected member |
|---|---|---|---|---|---|---|
| Utils/FileSystem.cpp:75-76 | line 75 collapses `\\` into `\` into `cp2`, but line 76 reads `cp1` again and overwrites `cp2`, so the collapse is lost | `a\\b` (two backslashes) gives `a//b` | convert the collapsed string, giving `a/b` | high, not executed | FileSystem.UnixPathKeepsDoubledBackslash | FileSystem.UnixPathCollapsed |
