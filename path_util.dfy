/**
 The PathUtil class: four fields that `construct` fills in by a backward scan and
 that the field-editing members update in place. Every member is tied to the
 value functions of module PathModel through `Value()`.
 */
module PathObject {
  import opened StringUtils
  import opened PathModel

  class PathUtil {
    var root: string
    var directory: string
    var file: string
    var extension: seq<string>

    /** The four fields as one value. */
    function Value(): PathParts
      reads this
    {
      PathParts(root, directory, file, extension)
    }

    /** PathUtil(const String&) (Path.cpp:94-97). */
    constructor (str: string)
      ensures Value() == Parse(str)
    {
      root, directory, file, extension := "", "", "", [];
      new;
      Construct(str);
    }

    /** The copy constructor (Path.cpp:89-92) re-parses the full path of the other object
        rather than copying its fields. */
    constructor Copy(oth: PathUtil)
      ensures Value() == Parse(FullPath(old(oth.Value())))
    {
      var full := FullPath(oth.Value());
      root, directory, file, extension := "", "", "", [];
      new;
      Construct(full);
    }

    /** PathUtil::construct (Path.cpp:29-87). Only the constructors call it, on fields that
        still hold their default (empty) values. */
    method Construct(str: string)
      requires Value() == Empty
      modifies this
      ensures Value() == Parse(str)
    {
      var clean := ReplaceAll(str, "\\", "/");
      var n := Npos;
      var i := |clean| - 1;
      while n == Npos && i >= 0
        invariant -1 <= i < |clean|
        invariant n == Npos ==> forall k :: i < k < |clean| ==> clean[k] != '/'
        invariant n != Npos ==> n == i + 1 && 0 <= n < |clean| && clean[n] == '/' && forall k :: n < k < |clean| ==> clean[k] != '/'
        decreases i + 1
      {
        if clean[i] == '/' {
          n := i;
        }
        i := i - 1;
      }
      assert n == LastIndexOf(clean, '/');

      if n == Npos {
        file := clean;
      } else {
        file := clean[n + 1..];
        TakeDirectory(clean[..n + 1]);
      }
      SplitExtensions();
    }

    /** Path.cpp:52-74: the raw directory up to and including the last '/', its root
        stripped off, then one leading '/' removed. */
    method TakeDirectory(raw: string)
      requires raw != [] && raw[|raw| - 1] == '/'
      modifies this
      ensures root == SplitRoot(raw).0 && directory == TrimDirectory(SplitRoot(raw).1)
      ensures file == old(file) && extension == old(extension)
    {
      directory := raw;
      root := "";
      if directory[0] == '/' {
        root := "/";
        directory := directory[1..];
      } else if |directory| > 1 && IsLetter(directory[0]) && directory[1] == ':' {
        root := directory[..2];
        directory := directory[3..];
      }
      assert (root, directory) == SplitRoot(raw);
      ghost var rest := directory;
      if directory != [] {
        var d := directory;
        if d[0] == '/' {
          d := d[1..];
        }
        // Path.cpp:72 reads back() here even when the directory has just become empty;
        // the model keeps the empty directory in that case.
        if d != [] && d[|d| - 1] != '/' {
          d := d + "/";
        }
        directory := d;
      }
      assert directory == TrimDirectory(rest);
    }

    /** Path.cpp:77-86: split the file name on '.', keep the first token as the stem and pop
        it off the front of the extension list. */
    method SplitExtensions()
      requires extension == []
      modifies this
      ensures (file, extension) == SplitName(old(file))
      ensures root == old(root) && directory == old(directory)
    {
      if file != [] {
        extension := Split(file, '.');
        if extension != [] {
          file := extension[0];
          extension := extension[1..];
        }
      }
    }

    /** PathUtil::fileName(const PathUtil&) (Path.cpp:126-130): only the stem and the
        extensions change. */
    method SetFileNameFrom(other: PathUtil)
      modifies this
      ensures Value() == WithFileName(old(Value()), old(other.Value()))
      ensures root == old(root) && directory == old(directory)
    {
      file := other.file;
      extension := other.extension;
    }

    /** PathUtil::fileName(const String&) (Path.cpp:132-138): parse the argument and take its
        stem and extensions. */
    method SetFileName(name: string)
      modifies this
      ensures Value() == WithFileName(old(Value()), Parse(name))
      ensures root == old(root) && directory == old(directory)
    {
      var path := new PathUtil(name);
      file := path.file;
      extension := path.extension;
    }

    /** PathUtil::appendDirectory(const PathUtil&) (Path.cpp:220-224). */
    method AppendDirectoryFrom(other: PathUtil)
      modifies this
      ensures Value() == AppendDirectory(old(Value()), old(other.Value()))
    {
      if other.directory != [] {
        directory := directory + other.directory;
      }
    }

    /** PathUtil::appendDirectory(const String&) (Path.cpp:226-238). */
    method AppendDirectoryPath(s: string)
      modifies this
      ensures Value() == AppendDirectoryString(old(Value()), s)
    {
      var temp := s;
      if temp != [] {
        if temp[|temp| - 1] != '\\' && temp[|temp| - 1] != '/' {
          temp := temp + "/";
        }
        if temp[0] == '\\' || temp[0] == '/' {
          temp := temp[1..];
        }
      }
      assert temp == DirectoryPiece(s);
      var piece := new PathUtil(temp);
      AppendDirectoryFrom(piece);
    }

    /** PathUtil::parentDir (Path.cpp:160-183): pop up to `n` segments off the back of the
        directory list, then write the rest out, each segment followed by '/', after the
        root and a '/'. */
    method ParentDir(n: nat) returns (r: string)
      ensures r == PathModel.ParentDir(Value(), n)
    {
      if n < 1 {
        return RootedDir(Value());
      }
      ghost var segments := Split(directory, '/');
      var dir := Split(directory, '/');
      var i := 0;
      while dir != [] && i < n
        invariant i <= n && i <= |segments|
        invariant dir == segments[..|segments| - i]
      {
        dir := dir[..|dir| - 1];
        i := i + 1;
      }
      assert i == Min(n, |segments|);

      if dir != [] {
        var oss := "";
        for k := 0 to |dir|
          invariant oss == Terminated(dir[..k], '/')
        {
          TerminatedAppend(dir[..k], [dir[k]], '/');
          assert dir[..k + 1] == dir[..k] + [dir[k]];
          oss := oss + dir[k] + "/";
        }
        assert dir[..|dir|] == dir;
        return root + "/" + oss;
      }
      return root + "/";
    }

    /** PathUtil::parentPath (Path.cpp:185-188). */
    method ParentPath(n: nat) returns (r: PathUtil)
      ensures fresh(r)
      ensures r.Value() == Parse(PathModel.ParentDir(Value(), n))
    {
      var dir := ParentDir(n);
      r := new PathUtil(dir);
    }

    /** The static PathUtil::construct(path, srcPath) (Path.cpp:250-255): the directory of
        `path` with the file name of `srcPath`, re-parsed from its full path. */
    static method ConstructWithFileName(path: string, srcPath: string) returns (r: PathUtil)
      ensures fresh(r)
      ensures r.Value() == PathModel.ConstructWithFileName(path, srcPath)
    {
      var ut := new PathUtil(path);
      ut.SetFileName(srcPath);
      r := new PathUtil(FullPath(ut.Value()));
    }
  }
}
