/**
 The FileSystem helpers: separator normalisation, the forward-slash form of a
 path, resolution against a current directory, and the listing of a directory
 into a double-ended queue with the subdirectories in front of the files.
 The host platform, the current directory and the directory enumeration are
 parameters of the model.
 */
module FileSystem {
  import opened StringUtils

  /** The two builds of the source: `_WIN32` and everything else. */
  datatype Platform = Posix | Windows

  /** The separator the platform writes. */
  function NativeSeparator(pf: Platform): char {
    if pf == Windows then '\\' else '/'
  }

  /** The separator the platform replaces. */
  function ForeignSeparator(pf: Platform): char {
    if pf == Windows then '/' else '\\'
  }

  /** One character as normalisation leaves it. */
  function NormalizeChar(pf: Platform, c: char): char {
    if c == ForeignSeparator(pf) then NativeSeparator(pf) else c
  }

  // ---------------------------------------------------------------------------
  // normalize (FileSystem.cpp:27-42)

  /** FileSystem::normalize(const String&): trim the whitespace at both ends, then turn every
      foreign separator into the native one. The result is the trimmed input character by
      character with only the foreign separators changed, so none is left. */
  function Normalize(pf: Platform, path: string): (r: string)
    ensures var t := TrimWs(path);
            && |r| == |t|
            && (forall i :: 0 <= i < |r| ==> r[i] == NormalizeChar(pf, t[i]))
            && ForeignSeparator(pf) !in r
  {
    var t := TrimWs(path);
    ReplaceCharMaps(t, ForeignSeparator(pf), NativeSeparator(pf));
    ReplaceAll(t, [ForeignSeparator(pf)], [NativeSeparator(pf)])
  }

  /** Changing separators keeps a trimmed string trimmed: neither separator is whitespace. */
  lemma {:induction false} NormalizeTrimmed(pf: Platform, path: string)
    ensures Trimmed(Normalize(pf, path))
  {
    var t, r := TrimWs(path), Normalize(pf, path);
    if r != [] {
      assert r[0] == NormalizeChar(pf, t[0]);
      assert r[|r| - 1] == NormalizeChar(pf, t[|t| - 1]);
    }
  }

  /** On a string that needs no trimming, normalisation is the separator replacement alone. */
  lemma {:induction false} NormalizeReplaces(pf: Platform, t: string)
    requires Trimmed(t)
    ensures Normalize(pf, t) == ReplaceAll(t, [ForeignSeparator(pf)], [NativeSeparator(pf)])
  {
    assert TrimWs(t) == t;
  }

  /** Normalising twice is normalising once. */
  lemma {:induction false} NormalizeIdempotent(pf: Platform, path: string)
    ensures Normalize(pf, Normalize(pf, path)) == Normalize(pf, path)
  {
    var r := Normalize(pf, path);
    NormalizeTrimmed(pf, path);
    ReplaceCharIdentity(r, ForeignSeparator(pf), NativeSeparator(pf));
  }

  // ---------------------------------------------------------------------------
  // unixPath (FileSystem.cpp:69-78)

  /** FileSystem::unixPath(const String&) as written. The collapse of doubled backslashes is
      computed into the destination and then overwritten, because the second replacement reads
      the trimmed input again: the result is the trimmed input with every '\' turned into '/'. */
  function UnixPath(path: string): (r: string)
    ensures var t := TrimWs(path);
            && |r| == |t|
            && (forall i :: 0 <= i < |r| ==> r[i] == (if t[i] == '\\' then '/' else t[i]))
            && '\\' !in r
  {
    // FileSystem.cpp:75 writes the collapse into the destination, which line 76 overwrites.
    var cp1 := TrimWs(path);
    ReplaceCharMaps(cp1, '\\', '/');
    ReplaceAll(cp1, "\\", "/")
  }

  /** unixPath of its own output changes nothing. */
  lemma {:induction false} UnixPathIdempotent(path: string)
    ensures UnixPath(UnixPath(path)) == UnixPath(path)
  {
    var r := UnixPath(path);
    UnixPathTrimmed(path);
    assert TrimWs(r) == r;
    ReplaceCharIdentity(r, '\\', '/');
  }

  /** Turning '\' into '/' keeps a trimmed string trimmed: neither is whitespace. */
  lemma {:induction false} UnixPathTrimmed(path: string)
    ensures Trimmed(UnixPath(path))
  {
    var t, r := TrimWs(path), UnixPath(path);
    if r != [] {
      assert r[0] == (if t[0] == '\\' then '/' else t[0]);
      assert r[|r| - 1] == (if t[|t| - 1] == '\\' then '/' else t[|t| - 1]);
    }
  }

  /** One character as escaping writes it. */
  function EscapeChar(c: char): string {
    if c == '\\' then "\\\\" else [c]
  }

  /** Every '\' written twice: the escaped spelling that the collapse step undoes. */
  function Escape(s: string): string
    decreases |s|
  {
    if s == [] then [] else EscapeChar(s[0]) + Escape(s[1..])
  }

  /** unixPath as evidently intended: first collapse each doubled '\' into one, then turn every
      '\' into '/'. No '\' is left. */
  function UnixPathCollapsed(path: string): (r: string)
    ensures '\\' !in r
  {
    var collapsed := ReplaceAll(TrimWs(path), "\\\\", "\\");
    ReplaceCharRemoves(collapsed, '\\', '/');
    ReplaceAll(collapsed, "\\", "/")
  }

  lemma {:induction false} EscapeAppend(a: string, b: string)
    ensures Escape(a + b) == Escape(a) + Escape(b)
    decreases |a|
  {
    if a != [] {
      assert (a + b)[0] == a[0];
      assert (a + b)[1..] == a[1..] + b;
      EscapeAppend(a[1..], b);
      var h := EscapeChar(a[0]);
      assert Escape(a + b) == h + (Escape(a[1..]) + Escape(b));
      assert h + (Escape(a[1..]) + Escape(b)) == (h + Escape(a[1..])) + Escape(b);
    } else {
      assert a + b == b;
    }
  }

  /** Escaping adds no whitespace at the front, so trimming on the left commutes with it. */
  lemma {:induction false} EscapeTrimLeft(s: string)
    ensures TrimLeft(Escape(s)) == Escape(TrimLeft(s))
    decreases |s|
  {
    if s != [] {
      if IsSpace(s[0]) {
        assert Escape(s) == [s[0]] + Escape(s[1..]);
        assert Escape(s)[1..] == Escape(s[1..]);
        EscapeTrimLeft(s[1..]);
      }
    }
  }

  /** Escaping adds no whitespace at the back, so trimming on the right commutes with it. */
  lemma {:induction false} EscapeTrimRight(s: string)
    ensures TrimRight(Escape(s)) == Escape(TrimRight(s))
    decreases |s|
  {
    if s != [] {
      var init, last := s[..|s| - 1], s[|s| - 1];
      assert s == init + [last];
      EscapeAppend(init, [last]);
      if IsSpace(last) {
        assert Escape([last]) == [last];
        var e := Escape(s);
        assert e == Escape(init) + [last];
        assert e[..|e| - 1] == Escape(init);
        EscapeTrimRight(init);
      } else {
        var e := Escape(s);
        assert Escape([last]) == EscapeChar(last);
        assert e[|e| - 1] == (if last == '\\' then '\\' else last);
      }
    }
  }

  lemma {:induction false} EscapeTrimWs(s: string)
    ensures TrimWs(Escape(s)) == Escape(TrimWs(s))
  {
    EscapeTrimRight(s);
    EscapeTrimLeft(TrimRight(s));
  }

  /** The collapse step undoes the escaping. */
  lemma {:induction false} CollapseUnescapes(t: string)
    ensures ReplaceAll(Escape(t), "\\\\", "\\") == t
    decreases |t|
  {
    if t != [] {
      var e := Escape(t);
      CollapseUnescapes(t[1..]);
      if t[0] == '\\' {
        assert e[..2] == "\\\\";
        assert e[2..] == Escape(t[1..]);
      } else {
        assert e == [t[0]] + Escape(t[1..]);
        assert e[1..] == Escape(t[1..]);
        if |e| >= 2 {
          assert e[..2] != "\\\\" by {
            assert e[0] == t[0];
          }
        } else {
          assert Escape(t[1..]) == [];
          assert t[1..] == [];
          assert e == t;
        }
      }
    }
  }

  /** The intended unixPath reads an escaped path as the path itself. */
  lemma {:induction false} UnixPathCollapsedUnescapes(path: string)
    ensures UnixPathCollapsed(Escape(path)) == UnixPath(path)
  {
    EscapeTrimWs(path);
    CollapseUnescapes(TrimWs(path));
  }

  /** As written, a doubled backslash becomes two slashes: "a\\b" (two backslashes) gives
      "a//b". */
  lemma {:induction false} UnixPathKeepsDoubledBackslash(s: string)
    requires s == "a\\\\b"
    ensures UnixPath(s) == "a//b"
  {
    assert Trimmed(s);
    var r := UnixPath(s);
    assert |r| == 4 && r[0] == 'a' && r[1] == '/' && r[2] == '/' && r[3] == 'b';
  }

  /** Collapsing first, as intended, gives "a/b" for the same input. */
  lemma {:induction false} UnixPathCollapsedExample(s: string)
    requires s == "a\\\\b"
    ensures UnixPathCollapsed(s) == "a/b"
  {
    var single := "a\\b";
    EscapeExample(single);
    UnixPathCollapsedUnescapes(single);
    UnixPathSingleBackslash(single);
  }

  lemma {:induction false} EscapeExample(single: string)
    requires single == "a\\b"
    ensures Escape(single) == "a\\\\b"
  {
    assert single == [single[0]] + [single[1]] + [single[2]];
    EscapeAppend([single[0]] + [single[1]], [single[2]]);
    EscapeAppend([single[0]], [single[1]]);
  }

  lemma {:induction false} UnixPathSingleBackslash(single: string)
    requires single == "a\\b"
    ensures UnixPath(single) == "a/b"
  {
    assert Trimmed(single);
    var r := UnixPath(single);
    assert |r| == 3 && r[0] == 'a' && r[1] == '/' && r[2] == 'b';
  }

  // ---------------------------------------------------------------------------
  // absolute (FileSystem.cpp:49-62)

  /** The POSIX reading of has_root_directory: the path starts with '/'. */
  predicate HasRootDirectory(path: string) {
    path != [] && path[0] == '/'
  }

  /** FileSystem::absolute with the current directory `cwd` as a parameter: a rooted input is
      normalised; any other input is joined onto `cwd` with '/' and the join is normalised. */
  function Absolute(pf: Platform, input: string, cwd: string): (r: string)
    ensures ForeignSeparator(pf) !in r
  {
    if !HasRootDirectory(input) then Normalize(pf, cwd + "/" + input)
    else Normalize(pf, input)
  }

  /** A relative input is resolved as `cwd`, a separator and the input, each normalised,
      when `cwd` and the input need no trimming. */
  lemma {:induction false} AbsoluteJoinsCwd(pf: Platform, input: string, cwd: string)
    requires !HasRootDirectory(input)
    requires cwd != [] && input != [] && Trimmed(cwd) && Trimmed(input)
    ensures Absolute(pf, input, cwd) == Normalize(pf, cwd) + [NormalizeChar(pf, '/')] + Normalize(pf, input)
  {
    var a, b := ForeignSeparator(pf), NativeSeparator(pf);
    JoinTrimmed(cwd, '/', input);
    NormalizeReplaces(pf, cwd + "/" + input);
    NormalizeReplaces(pf, cwd);
    NormalizeReplaces(pf, input);
    ReplaceCharAround(cwd, '/', input, a, b);
  }

  /** Joining two trimmed, non-empty strings around a non-space character gives a trimmed string. */
  lemma {:induction false} JoinTrimmed(x: string, c: char, y: string)
    requires x != [] && y != [] && Trimmed(x) && Trimmed(y)
    ensures Trimmed(x + [c] + y)
  {
    var j := x + [c] + y;
    assert j[0] == x[0] && j[|j| - 1] == y[|y| - 1];
  }

  /** The one-character replacement of a join is the join of the replacements. */
  lemma {:induction false} ReplaceCharAround(x: string, c: char, y: string, a: char, b: char)
    ensures ReplaceAll(x + [c] + y, [a], [b])
         == ReplaceAll(x, [a], [b]) + [if c == a then b else c] + ReplaceAll(y, [a], [b])
  {
    ReplaceCharAppend(x + [c], y, a, b);
    ReplaceCharAppend(x, [c], a, b);
    ReplaceCharMaps([c], a, b);
  }

  /** On POSIX the result is rooted when the input is rooted or the current directory is. */
  lemma {:induction false} AbsoluteIsRooted(input: string, cwd: string)
    requires HasRootDirectory(input) || HasRootDirectory(cwd)
    ensures HasRootDirectory(Absolute(Posix, input, cwd))
  {
    var t := if HasRootDirectory(input) then input else cwd + "/" + input;
    assert t[0] == '/';
    TrimRootKeeps(t);
  }

  /** Trimming a string that starts with '/' keeps that '/' in front. */
  lemma {:induction false} TrimRootKeeps(t: string)
    requires HasRootDirectory(t)
    ensures HasRootDirectory(TrimWs(t))
  {
    var u := TrimRight(t);
    assert !IsSpace(t[0]);
  }

  /** With a rooted current directory, resolving the result again changes nothing on POSIX. */
  lemma {:induction false} AbsoluteIdempotent(input: string, cwd: string)
    requires HasRootDirectory(cwd)
    ensures Absolute(Posix, Absolute(Posix, input, cwd), cwd) == Absolute(Posix, input, cwd)
  {
    var r := Absolute(Posix, input, cwd);
    AbsoluteIsRooted(input, cwd);
    var t := if HasRootDirectory(input) then input else cwd + "/" + input;
    NormalizeIdempotent(Posix, t);
  }

  /** A trimmed string without foreign separators is already normal. */
  lemma {:induction false} NormalizeKeeps(pf: Platform, path: string)
    requires Trimmed(path) && ForeignSeparator(pf) !in path
    ensures Normalize(pf, path) == path
  {
    ReplaceCharIdentity(path, ForeignSeparator(pf), NativeSeparator(pf));
  }

  /** A relative file resolved against /home/u. */
  lemma {:induction false} AbsoluteExample(input: string, cwd: string)
    requires input == "rel/file.txt" && cwd == "/home/u"
    ensures Absolute(Posix, input, cwd) == "/home/u/rel/file.txt"
  {
    assert Trimmed(input) && Trimmed(cwd) && '\\' !in input && '\\' !in cwd;
    AbsoluteKeepsJoin(Posix, input, cwd);
  }

  /** A relative input and a current directory that need neither trimming nor separator
      changes are simply joined. */
  lemma {:induction false} AbsoluteKeepsJoin(pf: Platform, input: string, cwd: string)
    requires !HasRootDirectory(input) && ForeignSeparator(pf) != '/'
    requires cwd != [] && input != [] && Trimmed(cwd) && Trimmed(input)
    requires ForeignSeparator(pf) !in cwd && ForeignSeparator(pf) !in input
    ensures Absolute(pf, input, cwd) == cwd + "/" + input
  {
    AbsoluteJoinsCwd(pf, input, cwd);
    NormalizeKeeps(pf, cwd);
    NormalizeKeeps(pf, input);
  }

  // ---------------------------------------------------------------------------
  // list (FileSystem.cpp:85-101)

  /** A directory entry and whether it is a directory itself. */
  datatype Entry = Entry(path: string, isDirectory: bool)

  /** The caller's DirectoryEntryArray, a double-ended queue of entries. */
  class EntryDeque {
    var items: seq<Entry>

    constructor ()
      ensures items == []
    {
      items := [];
    }

    method PushFront(e: Entry)
      modifies this
      ensures items == [e] + old(items)
    {
      items := [e] + items;
    }

    method PushBack(e: Entry)
      modifies this
      ensures items == old(items) + [e]
    {
      items := items + [e];
    }
  }

  /** The directory entries of `es`, in order. */
  function Directories(es: seq<Entry>): seq<Entry> {
    if es == [] then []
    else Directories(es[..|es| - 1]) + (if es[|es| - 1].isDirectory then [es[|es| - 1]] else [])
  }

  /** The other entries of `es`, in order. */
  function Files(es: seq<Entry>): seq<Entry> {
    if es == [] then []
    else Files(es[..|es| - 1]) + (if es[|es| - 1].isDirectory then [] else [es[|es| - 1]])
  }

  /** `es` back to front. */
  function Reverse(es: seq<Entry>): seq<Entry> {
    if es == [] then [] else [es[|es| - 1]] + Reverse(es[..|es| - 1])
  }

  /** What `dest` holds after list: unchanged when the path is not a directory; otherwise the
      subdirectories in reverse enumeration order, then the old contents, then the files in
      enumeration order. */
  function Listing(pathIsDirectory: bool, children: seq<Entry>, dest: seq<Entry>): seq<Entry> {
    if pathIsDirectory then Reverse(Directories(children)) + dest + Files(children) else dest
  }

  /** FileSystem::list with `is_directory(path)` and the directory iterator as parameters:
      each subdirectory is pushed onto the front of `dest`, every other entry onto its back. */
  method List(pathIsDirectory: bool, children: seq<Entry>, dest: EntryDeque)
    modifies dest
    ensures dest.items == Listing(pathIsDirectory, children, old(dest.items))
  {
    if pathIsDirectory {
      for i := 0 to |children|
        invariant dest.items == Listing(true, children[..i], old(dest.items))
      {
        var val := children[i];
        assert children[..i + 1] == children[..i] + [val];
        ListingGrows(children[..i], val, old(dest.items));
        if val.isDirectory {
          dest.PushFront(val);
        } else {
          dest.PushBack(val);
        }
      }
      assert children[..|children|] == children;
    }
  }

  /** One more enumerated entry goes to the front when it is a directory, else to the back. */
  lemma {:induction false} ListingGrows(prefix: seq<Entry>, e: Entry, dest: seq<Entry>)
    ensures Listing(true, prefix + [e], dest)
         == if e.isDirectory then [e] + Listing(true, prefix, dest) else Listing(true, prefix, dest) + [e]
  {
    var front, back := Reverse(Directories(prefix)), Files(prefix);
    if e.isDirectory {
      DirectoryStep(prefix, e);
      ReverseAppend(Directories(prefix), e);
      assert Listing(true, prefix + [e], dest) == ([e] + front) + dest + back;
      assert ([e] + front) + dest + back == [e] + (front + dest + back);
    } else {
      FileStep(prefix, e);
      assert Listing(true, prefix + [e], dest) == front + dest + (back + [e]);
      assert front + dest + (back + [e]) == (front + dest + back) + [e];
    }
  }

  /** A directory entry joins the directories. */
  lemma {:induction false} DirectoryStep(prefix: seq<Entry>, e: Entry)
    requires e.isDirectory
    ensures Directories(prefix + [e]) == Directories(prefix) + [e]
    ensures Files(prefix + [e]) == Files(prefix)
  {
    assert (prefix + [e])[..|prefix|] == prefix;
    assert Files(prefix) + [] == Files(prefix);
  }

  /** Any other entry joins the files. */
  lemma {:induction false} FileStep(prefix: seq<Entry>, e: Entry)
    requires !e.isDirectory
    ensures Directories(prefix + [e]) == Directories(prefix)
    ensures Files(prefix + [e]) == Files(prefix) + [e]
  {
    assert (prefix + [e])[..|prefix|] == prefix;
    assert Directories(prefix) + [] == Directories(prefix);
  }

  lemma {:induction false} ReverseAppend(es: seq<Entry>, e: Entry)
    ensures Reverse(es + [e]) == [e] + Reverse(es)
  {
    assert (es + [e])[..|es|] == es;
  }

  /** Directories keeps exactly the directory entries, Files exactly the others. */
  lemma {:induction false} PartitionSides(es: seq<Entry>)
    ensures forall e :: e in Directories(es) <==> e in es && e.isDirectory
    ensures forall e :: e in Files(es) <==> e in es && !e.isDirectory
  {
    if es != [] {
      var init := es[..|es| - 1];
      PartitionSides(init);
      assert es == init + [es[|es| - 1]];
    }
  }

  /** Reverse puts the entry at i at position |es| - 1 - i. */
  lemma {:induction false} ReverseIndex(es: seq<Entry>)
    ensures |Reverse(es)| == |es|
    ensures forall i :: 0 <= i < |es| ==> Reverse(es)[i] == es[|es| - 1 - i]
  {
    if es != [] {
      var init := es[..|es| - 1];
      ReverseIndex(init);
      var r := Reverse(es);
      assert r == [es[|es| - 1]] + Reverse(init);
      forall i | 0 < i < |es| ensures r[i] == es[|es| - 1 - i] {
        assert r[i] == Reverse(init)[i - 1] == init[|es| - 1 - i];
      }
    }
  }

  /** Every entry goes to exactly one side. */
  lemma {:induction false} PartitionCounts(es: seq<Entry>)
    ensures multiset(Directories(es)) + multiset(Files(es)) == multiset(es)
    ensures |Directories(es)| + |Files(es)| == |es|
  {
    PartitionMultiset(es);
    assert |multiset(Directories(es)) + multiset(Files(es))| == |multiset(es)|;
  }

  lemma {:induction false} PartitionMultiset(es: seq<Entry>)
    ensures multiset(Directories(es)) + multiset(Files(es)) == multiset(es)
  {
    if es != [] {
      var init, last := es[..|es| - 1], es[|es| - 1];
      PartitionMultiset(init);
      assert es == init + [last];
      if last.isDirectory {
        DirectoryStep(init, last);
      } else {
        FileStep(init, last);
      }
    }
  }

  lemma {:induction false} ReverseMultiset(es: seq<Entry>)
    ensures multiset(Reverse(es)) == multiset(es)
  {
    if es != [] {
      var init := es[..|es| - 1];
      ReverseMultiset(init);
      assert es == init + [es[|es| - 1]];
    }
  }

  /** list keeps the old contents and adds every enumerated entry exactly once; a path that is
      not a directory adds nothing. */
  lemma {:induction false} ListingPermutation(pathIsDirectory: bool, children: seq<Entry>, dest: seq<Entry>)
    ensures multiset(Listing(pathIsDirectory, children, dest))
         == multiset(dest) + (if pathIsDirectory then multiset(children) else multiset{})
    ensures |Listing(pathIsDirectory, children, dest)| == |dest| + (if pathIsDirectory then |children| else 0)
  {
    if pathIsDirectory {
      PartitionCounts(children);
      ReverseMultiset(Directories(children));
    }
  }

  /** After list on a directory, the entries in front of the old contents are exactly the
      subdirectories and the ones behind are exactly the files. */
  lemma {:induction false} ListingOrder(children: seq<Entry>, dest: seq<Entry>)
    ensures var r, k := Listing(true, children, dest), |Directories(children)|;
            && k + |dest| <= |r|
            && (forall i :: 0 <= i < k ==> r[i].isDirectory && r[i] in children)
            && r[k..k + |dest|] == dest
            && (forall i :: k + |dest| <= i < |r| ==> !r[i].isDirectory && r[i] in children)
  {
    var ds, fs := Directories(children), Files(children);
    var rd := Reverse(ds);
    var r, k := Listing(true, children, dest), |ds|;
    ReverseMultiset(ds);
    PartitionSides(children);
    assert |rd| == k by {
      assert |multiset(rd)| == |multiset(ds)|;
    }
    assert r == rd + dest + fs;
    forall i | 0 <= i < k ensures r[i].isDirectory && r[i] in children {
      assert r[i] == rd[i];
      assert rd[i] in multiset(rd);
    }
    forall i | k + |dest| <= i < |r| ensures !r[i].isDirectory && r[i] in children {
      assert r[i] == fs[i - k - |dest|];
    }
  }

  /** Enumeration order d1, f1, d2, f2 into an empty queue gives d2, d1, f1, f2. */
  lemma {:induction false} ListingExample(d1: Entry, f1: Entry, d2: Entry, f2: Entry)
    requires d1.isDirectory && d2.isDirectory && !f1.isDirectory && !f2.isDirectory
    ensures Listing(true, [d1, f1, d2, f2], []) == [d2, d1, f1, f2]
  {
    var es := [d1, f1, d2, f2];
    assert es == [d1, f1, d2] + [f2] && [d1, f1, d2] == [d1, f1] + [d2];
    assert [d1, f1] == [d1] + [f1] && [d1] == [] + [d1];
    assert Directories(es) == [d1, d2] && Files(es) == [f1, f2] by {
      DirectoryStep([], d1);
      FileStep([d1], f1);
      DirectoryStep([d1, f1], d2);
      FileStep([d1, f1, d2], f2);
    }
    assert Reverse([d1, d2]) == [d2, d1] by {
      assert [d1, d2] == [d1] + [d2] && [d1] == [] + [d1];
      ReverseAppend([], d1);
      ReverseAppend([d1], d2);
    }
  }
}
