/**
 Properties of the PathUtil model: what construct produces, how the extension
 strings and the full path are rebuilt from the parts, when re-parsing a full
 path gives it back, and what parentDir and the field edits do.
 */
module PathLemmas {
  import opened StringUtils
  import opened PathModel

  // ---------------------------------------------------------------------------
  // Helpers about the pieces of Parse

  lemma {:induction false} CleanHasNoBackslash(s: string)
    ensures '\\' !in Clean(s) && |Clean(s)| == |s|
  {
    ReplaceCharRemoves(s, '\\', '/');
    ReplaceCharMaps(s, '\\', '/');
  }

  lemma {:induction false} CleanKeeps(s: string)
    requires '\\' !in s
    ensures Clean(s) == s
  {
    ReplaceCharIdentity(s, '\\', '/');
  }

  /** The backward scan's result is determined by where the last `c` is. */
  lemma {:induction false} LastIndexOfIs(s: string, c: char, m: int)
    requires m == Npos || (0 <= m < |s| && s[m] == c)
    requires forall k :: m < k < |s| ==> s[k] != c
    ensures LastIndexOf(s, c) == m
  {
  }

  lemma {:induction false} TrimDirectorySuffix(d: string)
    requires IsDirectoryString(d)
    ensures |TrimDirectory(d)| <= |d| <= |TrimDirectory(d)| + 1
    ensures TrimDirectory(d) == d[|d| - |TrimDirectory(d)|..]
  {
    if d != [] {
      TrimDirectoryDrops(d);
    }
  }

  /** On a directory string only the leading '/' is removed. */
  lemma {:induction false} TrimDirectoryDrops(d: string)
    requires d != [] && d[|d| - 1] == '/'
    ensures TrimDirectory(d) == if d[0] == '/' then d[1..] else d
  {
    if d[0] == '/' && |d| > 1 {
      assert d[1..][|d| - 2] == '/';
    }
  }

  /** What splitting a separator-free name produces is a well-formed stem and extension list. */
  lemma {:induction false} SplitNameWellFormed(name: string)
    requires IsNamePart(name)
    ensures WellFormedName(SplitName(name).0, SplitName(name).1)
  {
    if name != [] {
      var tokens := Split(name, '.');
      SplitAvoids(name, '.', '/');
      SplitAvoids(name, '.', '\\');
      SplitEmpty(name, '.');
      if tokens != [] {
        assert tokens[0] in tokens;
        assert forall e :: e in tokens[1..] ==> e in tokens;
      }
    }
  }

  /** Splitting the file name that a well-formed stem and extension list spell gives them back. */
  lemma {:induction false} NameRoundTrip(stem: string, exts: seq<string>)
    requires WellFormedName(stem, exts)
    ensures SplitName(stem + Prefixed(exts, '.')) == (stem, exts)
  {
    if exts == [] {
      assert stem + Prefixed(exts, '.') == stem;
      if stem != [] {
        if '.' !in stem {
          SplitSingle(stem, '.');
        } else {
          SplitEmpty(stem, '.');
        }
      }
    } else {
      SplitConsPrefixed(stem, exts, '.');
      assert stem + Prefixed(exts, '.') != [];
    }
  }

  /** Parse of a string whose last '/' is at `n` and that holds no '\'. */
  lemma {:induction false} ParseAt(s: string, n: nat)
    requires '\\' !in s && n < |s| && s[n] == '/'
    requires forall k :: n < k < |s| ==> s[k] != '/'
    ensures Parse(s) == PathParts(SplitRoot(s[..n + 1]).0, TrimDirectory(SplitRoot(s[..n + 1]).1),
                                   SplitName(s[n + 1..]).0, SplitName(s[n + 1..]).1)
  {
    CleanKeeps(s);
    LastIndexOfIs(s, '/', n);
  }

  /** Parse of a string without separators. */
  lemma {:induction false} ParseNoSeparator(s: string)
    requires IsNamePart(s)
    ensures Parse(s) == PathParts("", "", SplitName(s).0, SplitName(s).1)
  {
    CleanKeeps(s);
    LastIndexOfIs(s, '/', Npos);
  }

  // ---------------------------------------------------------------------------
  // What construct produces (Path.cpp:29-87)

  /** Every parsed path is Valid: the root is "", "/" or a drive letter and ':', the directory
      is empty or ends with '/', no field holds a '\', and stem and extensions hold no '/'. */
  lemma {:induction false} ParseValid(s: string)
    ensures Valid(Parse(s))
    ensures '\\' !in Parse(s).root && '\\' !in Parse(s).directory && '\\' !in Parse(s).stem
    ensures forall e :: e in Parse(s).extensions ==> '\\' !in e && '/' !in e
    ensures '/' !in Parse(s).stem
  {
    var clean := Clean(s);
    CleanHasNoBackslash(s);
    var n := LastIndexOf(clean, '/');
    var name := clean[n + 1..];
    NameAfterLastSeparator(clean, n);
    SplitNameWellFormed(name);
    var (stem, exts) := SplitName(name);
    if n != Npos {
      var raw := clean[..n + 1];
      DirectoryAvoidsBackslash(raw);
      var (root, rest) := SplitRoot(raw);
      assert Parse(s) == PathParts(root, TrimDirectory(rest), stem, exts);
    } else {
      assert name == clean;
      assert Parse(s) == PathParts("", "", stem, exts);
    }
  }

  /** What follows the last '/' of a cleaned string holds no separator. */
  lemma {:induction false} NameAfterLastSeparator(clean: string, n: int)
    requires '\\' !in clean && n == LastIndexOf(clean, '/')
    ensures IsNamePart(clean[n + 1..])
  {
    var name := clean[n + 1..];
    assert forall j :: 0 <= j < |name| ==> name[j] == clean[n + 1 + j];
  }

  /** Root and directory taken from a cleaned raw directory hold no '\\'. */
  lemma {:induction false} DirectoryAvoidsBackslash(raw: string)
    requires raw != [] && raw[|raw| - 1] == '/' && '\\' !in raw
    ensures '\\' !in SplitRoot(raw).0 && '\\' !in TrimDirectory(SplitRoot(raw).1)
  {
    var rest := SplitRoot(raw).1;
    TrimDirectorySuffix(rest);
    var dir := TrimDirectory(rest);
    assert dir == raw[|raw| - |dir|..];
    assert forall j :: 0 <= j < |dir| ==> dir[j] == raw[|raw| - |dir| + j];
  }

  /** A non-empty directory is a suffix of the cleaned input up to and including its last '/',
      and the root is a prefix of the cleaned input. */
  lemma {:induction false} ParseDirectorySuffix(s: string)
    ensures var p, clean := Parse(s), Clean(s);
            var n := LastIndexOf(clean, '/');
            && (p.directory != [] || p.root != [] ==> n != Npos)
            && (n != Npos ==>
                  && |p.root| + |p.directory| <= n + 1
                  && clean[..|p.root|] == p.root
                  && p.directory == clean[n + 1 - |p.directory|..n + 1])
  {
    var clean := Clean(s);
    var n := LastIndexOf(clean, '/');
    if n != Npos {
      var raw := clean[..n + 1];
      var rest := SplitRoot(raw).1;
      TrimDirectorySuffix(rest);
      var dir := TrimDirectory(rest);
      assert dir == raw[|raw| - |dir|..];
    }
  }

  /** An input without separators leaves root and directory empty; the stem is the first
      '.'-token and the extensions are the remaining tokens, in order. */
  lemma {:induction false} ParseWithoutSeparator(s: string)
    requires IsNamePart(s)
    ensures Parse(s).root == "" && Parse(s).directory == ""
    ensures Split(s, '.') != [] ==> Parse(s).stem == Split(s, '.')[0] && Parse(s).extensions == Split(s, '.')[1..]
    ensures Split(s, '.') == [] ==> Parse(s).stem == s && Parse(s).extensions == []
  {
    ParseNoSeparator(s);
  }

  /** A separator-free name without empty '.'-tokens is rebuilt by stem + fullExtension. */
  lemma {:induction false} FileNameRoundTrip(s: string)
    requires IsNamePart(s) && NoEmptyTokens(s, '.')
    ensures FileName(Parse(s)) == s
  {
    ParseNoSeparator(s);
    if s != [] {
      SplitJoin(s, '.');
    }
  }

  /** With empty tokens dropped by split, the round trip fails on a doubled dot: the file name
      of "a..b" is "a.b". */
  lemma {:induction false} DoubleDotFileName(s: string)
    requires s == "a..b"
    ensures Parse(s) == PathParts("", "", "a", ["b"])
    ensures FileName(Parse(s)) == "a.b"
  {
    assert s == "a" + ['.'] + ['.'] + "b";
    SplitDoubled("a", "b", '.');
    ParseNoSeparator(s);
    assert Prefixed(["b"], '.') == ".b";
  }

  /** hasDirectory holds exactly when the cleaned input has a '/' and its last '/' lies past
      the root and the one '/' stripped after it: at index 2 or later after a leading '/', at
      index 4 or later after a drive letter and ':', anywhere in a rootless input. */
  lemma {:induction false} ParseHasDirectory(s: string)
    ensures var clean := Clean(s);
            var n := LastIndexOf(clean, '/');
            HasDirectory(Parse(s)) <==>
              n != Npos &&
              n >= (if clean[0] == '/' then 2
                    else if |clean| > 1 && IsLetter(clean[0]) && clean[1] == ':' then 4
                    else 0)
  {
    var clean := Clean(s);
    var n := LastIndexOf(clean, '/');
    if n != Npos {
      var raw := clean[..n + 1];
      assert raw[0] == clean[0] && raw[n] == '/';
      if n >= 1 {
        assert raw[1] == clean[1];
      }
      var rest := SplitRoot(raw).1;
      assert rest == raw[|raw| - |rest|..];
      if rest != [] {
        assert rest[|rest| - 1] == '/';
        TrimDirectoryDrops(rest);
        if |rest| == 1 {
          assert rest == "/";
        }
      }
    }
  }

  /** isAbsolute holds exactly when the cleaned input has a '/' and starts with '/' or with a
      letter and ':'. */
  lemma {:induction false} ParseIsAbsolute(s: string)
    ensures IsAbsolute(Parse(s)) <==>
      '/' in Clean(s) &&
      (Clean(s)[0] == '/' || (|Clean(s)| > 1 && IsLetter(Clean(s)[0]) && Clean(s)[1] == ':'))
  {
    var clean := Clean(s);
    var n := LastIndexOf(clean, '/');
    if n == Npos {
      assert '/' !in clean;
    } else {
      assert '/' in clean;
      var raw := clean[..n + 1];
      assert raw[0] == clean[0];
      if clean[0] != '/' {
        assert n >= 1;
        assert raw[1] == clean[1];
      }
    }
  }

  /** hasExtensions holds exactly when the file name splits into more than one '.'-token. */
  lemma {:induction false} ParseHasExtensions(s: string)
    ensures var clean := Clean(s);
            HasExtensions(Parse(s)) <==> |Split(clean[LastIndexOf(clean, '/') + 1..], '.')| > 1
  {
    var clean := Clean(s);
    var name := clean[LastIndexOf(clean, '/') + 1..];
    ParseName(s);
    SplitNameExtensions(name);
  }

  /** A name has extensions exactly when it splits into more than one '.'-token. */
  lemma {:induction false} SplitNameExtensions(name: string)
    ensures SplitName(name).1 != [] <==> |Split(name, '.')| > 1
  {
    if name == [] {
      assert Split(name, '.') == [];
    }
  }

  /** Stem and extensions come from the text after the last '/' of the cleaned input. */
  lemma {:induction false} ParseName(s: string)
    ensures var clean := Clean(s);
            (Parse(s).stem, Parse(s).extensions) == SplitName(clean[LastIndexOf(clean, '/') + 1..])
  {
    var clean := Clean(s);
    var n := LastIndexOf(clean, '/');
    if n == Npos {
      ParseBranches(s);
      assert clean[n + 1..] == clean;
    } else {
      ParseBranches(s);
    }
  }

  /** The two branches of Parse, by whether the cleaned input holds a '/'. */
  lemma {:induction false} ParseBranches(s: string)
    ensures var clean := Clean(s);
            var n := LastIndexOf(clean, '/');
            && (n == Npos ==> Parse(s) == PathParts("", "", SplitName(clean).0, SplitName(clean).1))
            && (n != Npos ==> Parse(s).stem == SplitName(clean[n + 1..]).0
                              && Parse(s).extensions == SplitName(clean[n + 1..]).1)
  {
  }

  // ---------------------------------------------------------------------------
  // The extension strings (Path.cpp:99-119, 212-218)

  /** Without extensions all three strings are empty; otherwise fullExtension starts with
      firstExtension and ends with lastExtension. */
  lemma {:induction false} ExtensionStrings(p: PathParts)
    ensures p.extensions == [] ==> FullExtension(p) == "" && FirstExtension(p) == "" && LastExtension(p) == ""
    ensures p.extensions != [] ==>
      && |FirstExtension(p)| <= |FullExtension(p)|
      && |LastExtension(p)| <= |FullExtension(p)|
      && FullExtension(p)[..|FirstExtension(p)|] == FirstExtension(p)
      && FullExtension(p)[|FullExtension(p)| - |LastExtension(p)|..] == LastExtension(p)
  {
    var exts := p.extensions;
    if exts != [] {
      var m := |exts| - 1;
      assert exts == exts[..m] + [exts[m]];
      PrefixedAppend(exts[..m], [exts[m]], '.');
      assert Prefixed([exts[m]], '.') == "." + exts[m];
    }
  }

  /** Splitting fullExtension on '.' gives back the extension list. */
  lemma {:induction false} ExtensionsRoundTrip(p: PathParts)
    requires Valid(p)
    ensures Split(FullExtension(p), '.') == p.extensions
  {
    SplitPrefixed(p.extensions, '.');
  }

  // ---------------------------------------------------------------------------
  // Re-parsing the full path (Path.cpp:195-210, 89-92)

  /** The parts that parsing fullPath() yields: the root is dropped with an empty directory,
      and an empty root becomes "/" in front of a non-empty directory. */
  function Canonical(p: PathParts): PathParts {
    if p.directory == [] then p.(root := "")
    else if p.root == "" then p.(root := "/")
    else p
  }

  /** The directory does not start with '/'. */
  predicate LeadingSlashFree(d: string) {
    d == [] || d[0] != '/'
  }

  lemma {:induction false} FileNameIsNamePart(p: PathParts)
    requires Valid(p)
    ensures IsNamePart(FileName(p))
  {
    PrefixedAvoids(p.extensions, '.', '/');
    PrefixedAvoids(p.extensions, '.', '\\');
  }

  /** Parsing fullPath() of a valid path whose directory does not start with '/' gives back
      the same directory, stem and extensions, with the canonical root. */
  lemma {:induction false} ReparseFullPath(p: PathParts)
    requires Valid(p) && LeadingSlashFree(p.directory)
    ensures Parse(FullPath(p)) == Canonical(p)
  {
    var name := FileName(p);
    FileNameIsNamePart(p);
    NameRoundTrip(p.stem, p.extensions);
    if p.directory == [] {
      ParseNoSeparator(name);
    } else {
      var d := RootedDir(p);
      RootedDirSplits(p);
      ParseJoin(d, name);
      TrimDirectoryDrops(p.directory);
    }
  }

  /** Parse of a raw directory followed by a separator-free name. */
  lemma {:induction false} ParseJoin(d: string, name: string)
    requires d != [] && d[|d| - 1] == '/' && '\\' !in d && IsNamePart(name)
    ensures Parse(d + name) == PathParts(SplitRoot(d).0, TrimDirectory(SplitRoot(d).1),
                                         SplitName(name).0, SplitName(name).1)
  {
    var full := d + name;
    assert '\\' !in full;
    forall k | |d| - 1 < k < |full| ensures full[k] != '/' {
      assert full[k] == name[k - |d|];
    }
    ParseAt(full, |d| - 1);
    assert full[..|d|] == d;
    assert full[|d|..] == name;
  }

  /** Parse of a string spelled as a raw directory `d`, a stem and its extensions, when `d`
      splits into `root` and `dir`. */
  lemma {:induction false} ParseSpelled(s: string, d: string, root: string, dir: string, stem: string, exts: seq<string>)
    requires d != [] && d[|d| - 1] == '/' && '\\' !in d && WellFormedName(stem, exts)
    requires SplitRoot(d).0 == root && TrimDirectory(SplitRoot(d).1) == dir
    requires s == d + (stem + Prefixed(exts, '.'))
    ensures Parse(s) == PathParts(root, dir, stem, exts)
  {
    NameRoundTrip(stem, exts);
    FileNameIsNamePart(PathParts("", "", stem, exts));
    ParseJoin(d, stem + Prefixed(exts, '.'));
  }

  /** rootedDir() of a valid path with a directory splits back into the canonical root and
      the directory. */
  lemma {:induction false} RootedDirSplits(p: PathParts)
    requires Valid(p) && p.directory != []
    ensures var d := RootedDir(p);
            && d != [] && d[|d| - 1] == '/' && '\\' !in d
            && SplitRoot(d) == (Canonical(p).root, p.directory)
  {
    var d := RootedDir(p);
    if p.root == "" || p.root == "/" {
      assert d == "/" + p.directory;
      assert d[1..] == p.directory;
    } else {
      assert d == p.root + "/" + p.directory;
      assert d[0] == p.root[0] && d[1] == p.root[1];
      assert d[..2] == p.root;
      assert d[3..] == p.directory;
    }
  }

  /** Canonicalising the root does not change fullPath(). */
  lemma {:induction false} CanonicalFullPath(p: PathParts)
    ensures FullPath(Canonical(p)) == FullPath(p)
  {
  }

  /** fullPath() is stable under re-parsing when the parsed directory does not start with '/'. */
  lemma {:induction false} FullPathIdempotent(s: string)
    requires LeadingSlashFree(Parse(s).directory)
    ensures FullPath(Parse(FullPath(Parse(s)))) == FullPath(Parse(s))
  {
    ParseValid(s);
    ReparseFullPath(Parse(s));
    CanonicalFullPath(Parse(s));
  }

  /** Only one '/' after the root is removed: "///a/b" keeps "/a/" as its directory. */
  lemma {:induction false} TripleSlashParse(s: string)
    requires s == "///a/b"
    ensures Parse(s) == PathParts("/", "/a/", "b", [])
  {
    ParseSpelled(s, "///a/", "/", "/a/", "b", []);
  }


  lemma {:induction false} DoubleSlashParse(s: string)
    requires s == "//a/b"
    ensures Parse(s) == PathParts("/", "a/", "b", [])
  {
    ParseSpelled(s, "//a/", "/", "a/", "b", []);
  }


  /** The full path of "///a/b" is "//a/b" ... */
  lemma {:induction false} TripleSlashFullPath(s: string)
    requires s == "///a/b"
    ensures FullPath(Parse(s)) == "//a/b"
  {
    TripleSlashParse(s);
    assert FullExtension(Parse(s)) == "";
  }

  /** ... and the full path of "//a/b" is "/a/b", so fullPath() is not stable under
      re-parsing. */
  lemma {:induction false} DoubleSlashFullPath(s: string)
    requires s == "//a/b"
    ensures FullPath(Parse(s)) == "/a/b"
  {
    DoubleSlashParse(s);
    assert FullExtension(Parse(s)) == "";
  }

  /** Hence fullPath() is not stable under re-parsing for "///a/b". */
  lemma {:induction false} FullPathNotIdempotentOnTripleSlash(s: string)
    requires s == "///a/b"
    ensures FullPath(Parse(s)) == "//a/b"
    ensures FullPath(Parse(FullPath(Parse(s)))) == "/a/b"
  {
    TripleSlashFullPath(s);
    DoubleSlashFullPath(FullPath(Parse(s)));
  }

  lemma {:induction false} RelativeParse(s: string)
    requires s == "a/b.txt"
    ensures Parse(s) == PathParts("", "a/", "b", ["txt"])
  {
    assert Prefixed(["txt"], '.') == ".txt";
    assert SplitRoot("a/") == ("", "a/");
    ParseSpelled(s, "a/", "", "a/", "b", ["txt"]);
  }

  /** fullPath() puts a '/' in front of a relative directory. */
  lemma {:induction false} RelativeFullPathGainsSlash(s: string)
    requires s == "a/b.txt"
    ensures FullPath(Parse(s)) == "/a/b.txt"
  {
    RelativeParse(s);
    RelativeFullPath(Parse(s));
  }

  lemma {:induction false} RelativeFullPath(p: PathParts)
    requires p == PathParts("", "a/", "b", ["txt"])
    ensures FullPath(p) == "/a/b.txt"
  {
    assert Prefixed(["txt"], '.') == ".txt";
  }

  lemma {:induction false} RootFileParse(s: string)
    requires s == "/f.txt"
    ensures Parse(s) == PathParts("/", "", "f", ["txt"])
  {
    ParseSpelled(s, "/", "/", "", "f", ["txt"]);
  }


  /** fullPath() drops the root together with an empty directory. */
  lemma {:induction false} RootDroppedWithoutDirectory(s: string)
    requires s == "/f.txt"
    ensures FullPath(Parse(s)) == "f.txt"
  {
    RootFileParse(s);
    assert Prefixed(["txt"], '.') == ".txt";
  }

  /** construct treats '\\' and '/' alike: parsing the cleaned string gives the same parts. */
  lemma {:induction false} ParseClean(s: string)
    ensures Parse(Clean(s)) == Parse(s)
  {
    CleanHasNoBackslash(s);
    CleanKeeps(Clean(s));
  }

  /** Root detection skips the character after "C:" without looking at it, so in a
      drive-relative path that character is lost: "C:ab/f" gets directory "b/". */
  lemma {:induction false} DriveRelativeDropsCharacter(s: string)
    requires s == "C:ab/f"
    ensures Parse(s) == PathParts("C:", "b/", "f", [])
  {
    ParseSpelled(s, "C:ab/", "C:", "b/", "f", []);
  }


  lemma {:induction false} WindowsCleanParse(t: string)
    requires t == "C:/a/f.gz"
    ensures Parse(t) == PathParts("C:", "a/", "f", ["gz"])
  {
    ParseSpelled(t, "C:/a/", "C:", "a/", "f", ["gz"]);
  }


  /** A drive-letter path with backslashes. */
  lemma {:induction false} WindowsPathParse(s: string)
    requires s == "C:\\a\\f.gz"
    ensures Parse(s) == PathParts("C:", "a/", "f", ["gz"])
  {
    WindowsPathClean(s);
    ParseClean(s);
    WindowsCleanParse(Clean(s));
  }

  lemma {:induction false} WindowsPathClean(s: string)
    requires s == "C:\\a\\f.gz"
    ensures Clean(s) == "C:/a/f.gz"
  {
    ReplaceCharMaps(s, '\\', '/');
  }

  lemma {:induction false} WindowsFullPath(s: string)
    requires s == "C:\\a\\f.gz"
    ensures FullPath(Parse(s)) == "C:/a/f.gz"
  {
    WindowsPathParse(s);
    assert FileName(Parse(s)) == "f.gz" by {
      assert Prefixed(["gz"], '.') == ".gz";
    }
    assert RootedDir(Parse(s)) == "C:/a/";
  }

  /** An absolute POSIX path. */
  lemma {:induction false} PosixPathParse(s: string)
    requires s == "/etc/app.conf"
    ensures Parse(s) == PathParts("/", "etc/", "app", ["conf"])
  {
    ParseSpelled(s, "/etc/", "/", "etc/", "app", ["conf"]);
  }


  /** With empty tokens dropped by split, a leading dot is not kept: ".env" has stem "env". */
  lemma {:induction false} DotfileParse(s: string)
    requires s == ".env"
    ensures Parse(s) == PathParts("", "", "env", [])
  {
    ParseNoSeparator(s);
    assert Prefixed(["env"], '.') == s;
    SplitPrefixed(["env"], '.');
    assert Split(s, '.') == ["env"];
  }

  // ---------------------------------------------------------------------------
  // parentDir (Path.cpp:160-183)

  /** parentDir(0) is rootedDir(); for n >= 1 the result is root + "/" followed by the
      directory segments that remain after dropping min(n, #segments) from the back. */
  lemma {:induction false} ParentDirSegments(p: PathParts, n: nat)
    ensures n == 0 ==> ParentDir(p, n) == RootedDir(p)
    ensures n >= 1 ==>
      var r, segments := ParentDir(p, n), DirectoryList(p);
      && |p.root| + 1 <= |r|
      && r[..|p.root| + 1] == p.root + "/"
      && Split(r[|p.root| + 1..], '/') == segments[..|segments| - Min(n, |segments|)]
  {
    if n >= 1 {
      var segments := DirectoryList(p);
      var kept := segments[..|segments| - Min(n, |segments|)];
      var r := ParentDir(p, n);
      assert r == p.root + "/" + Terminated(kept, '/');
      assert r[|p.root| + 1..] == Terminated(kept, '/');
      assert forall e :: e in kept ==> e in segments;
      SplitTerminated(kept, '/');
    }
  }

  /** With root "/", parentDir(n) for n >= 1 starts with "//". */
  lemma {:induction false} ParentDirDoubleSlash(p: PathParts, n: nat)
    requires p.root == "/" && n >= 1
    ensures |ParentDir(p, n)| >= 2 && ParentDir(p, n)[..2] == "//"
  {
    ParentDirSegments(p, n);
  }

  /** When the directory is made of '/'-terminated segments, parentDir(n) for n >= 1 is the
      root, a '/', and a prefix of the directory. */
  lemma {:induction false} ParentDirIsAncestor(p: PathParts, n: nat)
    requires n >= 1 && TerminatedTokens(p.directory, '/')
    ensures |p.root| + 1 <= |ParentDir(p, n)| <= |p.root| + 1 + |p.directory|
    ensures ParentDir(p, n) == p.root + "/" + p.directory[..|ParentDir(p, n)| - |p.root| - 1]
  {
    var segments := DirectoryList(p);
    var m := |segments| - Min(n, |segments|);
    TerminatedSplit(p.directory, '/');
    TerminatedPrefix(segments, m, '/');
    var rest := Terminated(segments[..m], '/');
    assert ParentDir(p, n) == p.root + "/" + rest;
  }

  /** Writing out a prefix of the segments gives a prefix of the written-out whole. */
  lemma {:induction false} TerminatedPrefix(ts: seq<string>, m: nat, d: char)
    requires m <= |ts|
    ensures |Terminated(ts[..m], d)| <= |Terminated(ts, d)|
    ensures Terminated(ts, d)[..|Terminated(ts[..m], d)|] == Terminated(ts[..m], d)
  {
    assert ts == ts[..m] + ts[m..];
    TerminatedAppend(ts[..m], ts[m..], d);
  }

  /** Once n reaches the number of segments only root + "/" is left. */
  lemma {:induction false} ParentDirOfAll(p: PathParts, n: nat)
    requires n >= 1 && n >= |DirectoryList(p)|
    ensures ParentDir(p, n) == p.root + "/"
  {
  }

  lemma {:induction false} NestedParse(s: string)
    requires s == "/a/b/c.txt"
    ensures Parse(s) == PathParts("/", "a/b/", "c", ["txt"])
  {
    ParseSpelled(s, "/a/b/", "/", "a/b/", "c", ["txt"]);
  }


  /** With root "/" the parent directory starts with "//". */
  lemma {:induction false} ParentDirExample(s: string)
    requires s == "/a/b/c.txt"
    ensures ParentDir(Parse(s), 1) == "//a/"
  {
    NestedParse(s);
    ParentDirOfAB(Parse(s));
  }

  lemma {:induction false} ParentDirOfAB(p: PathParts)
    requires p.root == "/" && p.directory == "a/b/"
    ensures ParentDir(p, 1) == "//a/"
  {
    assert p.directory == Terminated(["a", "b"], '/');
    ParentDirDropsLast(p, ["a", "b"]);
    assert ["a", "b"][..1] == ["a"];
  }

  /** parentDir(1) of a directory written out from segments drops the last segment. */
  lemma {:induction false} ParentDirDropsLast(p: PathParts, ts: seq<string>)
    requires ts != [] && forall e :: e in ts ==> IsToken(e, '/')
    requires p.directory == Terminated(ts, '/')
    ensures ParentDir(p, 1) == p.root + "/" + Terminated(ts[..|ts| - 1], '/')
  {
    SplitTerminated(ts, '/');
  }

  // ---------------------------------------------------------------------------
  // The field edits (Path.cpp:126-138, 220-238, 250-255)

  /** appendDirectory keeps the path Valid, keeps root, stem and extensions, and extends the
      directory: it is unchanged when the piece has no directory. */
  lemma {:induction false} AppendDirectoryStringKeeps(p: PathParts, s: string)
    requires Valid(p)
    ensures var q := AppendDirectoryString(p, s);
            && Valid(q)
            && q.root == p.root && q.stem == p.stem && q.extensions == p.extensions
            && |p.directory| <= |q.directory| && q.directory[..|p.directory|] == p.directory
            && (Parse(DirectoryPiece(s)).directory == [] ==> q == p)
  {
    var piece := Parse(DirectoryPiece(s));
    ParseValid(DirectoryPiece(s));
    var q := AppendDirectoryString(p, s);
    if piece.directory != [] {
      assert q.directory == p.directory + piece.directory;
      assert q.directory[..|p.directory|] == p.directory;
    }
  }

  /** Appending a plain relative directory "x/y" appends "x/y/". */
  lemma {:induction false} AppendRelativeDirectory(p: PathParts, s: string)
    requires s != [] && '\\' !in s && s[0] != '/' && s[|s| - 1] != '/'
    requires !(|s| > 1 && IsLetter(s[0]) && s[1] == ':')
    ensures AppendDirectoryString(p, s) == p.(directory := p.directory + s + "/")
  {
    var t := s + "/";
    assert DirectoryPiece(s) == t;
    assert t[0] == s[0];
    assert |s| > 1 ==> t[1] == s[1];
    RelativeDirectoryParse(t);
  }

  /** A relative directory string without a root parses into a directory only. */
  lemma {:induction false} RelativeDirectoryParse(t: string)
    requires t != [] && t[|t| - 1] == '/' && '\\' !in t && t[0] != '/'
    requires !(|t| > 1 && IsLetter(t[0]) && t[1] == ':')
    ensures Parse(t) == PathParts("", t, "", [])
  {
    assert t + [] == t;
    ParseJoin(t, []);
    TrimDirectoryDrops(t);
  }

  /** fileName(x) keeps the path Valid and takes the parsed file name of x. */
  lemma {:induction false} WithFileNameKeeps(p: PathParts, x: string)
    requires Valid(p)
    ensures Valid(WithFileName(p, Parse(x)))
    ensures RootedDir(WithFileName(p, Parse(x))) == RootedDir(p)
    ensures FileName(WithFileName(p, Parse(x))) == FileName(Parse(x))
  {
    ParseValid(x);
  }

  /** The static construct(path, srcPath): the directory of `path` with the file name of
      `srcPath`, with the canonical root. */
  lemma {:induction false} ConstructWithFileNameParts(path: string, srcPath: string)
    requires LeadingSlashFree(Parse(path).directory)
    ensures ConstructWithFileName(path, srcPath) == Canonical(WithFileName(Parse(path), Parse(srcPath)))
  {
    ParseValid(path);
    WithFileNameKeeps(Parse(path), srcPath);
    ReparseFullPath(WithFileName(Parse(path), Parse(srcPath)));
  }
}
