/**
 The file system as the core sees it through pathlib: a map from file paths to their text
 and a set of directory paths. A path is the sequence of its components.
 */
module Disk {
  import opened Outcomes
  import opened PyStr

  type Path = seq<string>

  /** `p / name`. An empty name leaves the path unchanged, as pathlib does. */
  function Child(p: Path, name: string): (r: Path)
    ensures name == "" ==> r == p
    ensures name != "" ==> r == p + [name]
  {
    if name == "" then p else p + [name]
  }

  /** Distinct names give distinct children. */
  lemma ChildInjective(dir: Path)
    ensures forall k1, k2 :: Child(dir, k1) == Child(dir, k2) ==> k1 == k2
  {
    forall k1, k2 | Child(dir, k1) == Child(dir, k2) ensures k1 == k2 {
      if k1 != "" && k2 != "" {
        assert Child(dir, k1)[|dir|] == k1;
      }
    }
  }

  /** `p.name`: the last component, or "" for the empty path. */
  function Name(p: Path): string {
    if |p| == 0 then "" else p[|p| - 1]
  }

  /** `p.parent`. */
  function Parent(p: Path): (r: Path)
    ensures |p| > 0 ==> p == r + [Name(p)]
  {
    if |p| == 0 then p else p[..|p| - 1]
  }

  /** `str(p)`. */
  function PathText(p: Path): string {
    Join("/", p)
  }

  /**
   `p.stem` for a file name: the name without its last suffix, where a leading dot or a
   trailing dot does not start a suffix.
   */
  function Stem(name: string): (r: string)
    ensures |r| <= |name| && r == name[..|r|]
  {
    var i := LastDot(name, |name|);
    if 0 < i < |name| - 1 then name[..i] else name
  }

  /** The index of the last '.' before `end`, or -1. */
  function LastDot(s: string, end: nat): (i: int)
    requires end <= |s|
    ensures -1 <= i < end
    ensures i >= 0 ==> s[i] == '.'
    ensures forall j :: i < j < end ==> s[j] != '.'
  {
    if end == 0 then -1 else if s[end - 1] == '.' then end - 1 else LastDot(s, end - 1)
  }

  datatype FileSystem = FileSystem(files: map<Path, string>, dirs: set<Path>)

  /** `p.exists()`. */
  predicate Exists(fs: FileSystem, p: Path) {
    p in fs.files || p in fs.dirs
  }

  /**
   Universal-newline translation applied by `read_text()` and by iterating over a file
   opened in text mode: "\r\n" and a lone "\r" both become "\n".
   */
  function Translate(s: string): (r: string)
    ensures forall i :: 0 <= i < |r| ==> r[i] != '\r'
    ensures '\r' !in s ==> r == s
    decreases |s|
  {
    if s == "" then ""
    else if s[0] == '\r' then
      if |s| > 1 && s[1] == '\n' then "\n" + Translate(s[2..]) else "\n" + Translate(s[1..])
    else [s[0]] + Translate(s[1..])
  }

  /**
   `p.read_text()`: a missing path below a regular file raises NotADirectoryError, any other
   missing path FileNotFoundError.
   */
  function ReadText(fs: FileSystem, p: Path): (r: Result<string>)
    ensures r.Ok? <==> p in fs.files
    ensures r.Ok? ==> r.value == Translate(fs.files[p])
    ensures r.Err? ==> r.error == (if p in fs.dirs then IsADirectory
                                   else if FileAbove(fs, p) then NotADirectory
                                   else FileNotFound)
  {
    if p in fs.files then Ok(Translate(fs.files[p]))
    else if p in fs.dirs then Err(IsADirectory)
    else if FileAbove(fs, p) then Err(NotADirectory)
    else Err(FileNotFound)
  }

  /** `p.write_text(text)`; failures of the write itself are not modelled. */
  function WriteText(fs: FileSystem, p: Path, text: string): (r: FileSystem)
    ensures r.files == fs.files[p := text] && r.dirs == fs.dirs
  {
    fs.(files := fs.files[p := text])
  }

  /** `p.mkdir(parents=True, exist_ok=True)`: `p` and all its ancestors become directories. */
  function MkDirs(fs: FileSystem, p: Path): (r: FileSystem)
    ensures r.files == fs.files
    ensures forall q :: q in r.dirs <==> q in fs.dirs || (0 < |q| <= |p| && q == p[..|q|])
  {
    fs.(dirs := fs.dirs + (set i | 1 <= i <= |p| :: p[..i]))
  }

  /** Some proper ancestor of `p` is a regular file. */
  predicate FileAbove(fs: FileSystem, p: Path) {
    exists i :: 0 < i < |p| && p[..i] in fs.files
  }

  /** Neither `p` nor any of its ancestors is a regular file. */
  predicate NoFileOnPath(fs: FileSystem, p: Path) {
    forall i :: 0 < i <= |p| ==> p[..i] !in fs.files
  }

  lemma NoFileOnPathSplit(fs: FileSystem, p: Path)
    ensures NoFileOnPath(fs, p) <==> !FileAbove(fs, p) && (|p| == 0 || p !in fs.files)
  {
    if |p| > 0 {
      assert p[..|p|] == p;
    }
  }

  /**
   `p.mkdir(parents=True, exist_ok=existOk)`. A regular file above `p` makes the operating
   system refuse the path (NotADirectoryError); a regular file at `p`, or a directory there
   when `existOk` is false, raises FileExistsError. Otherwise `p` and its ancestors become
   directories.
   */
  function MakeDirs(fs: FileSystem, p: Path, existOk: bool): (r: Result<FileSystem>)
    ensures r.Ok? <==> NoFileOnPath(fs, p) && (existOk || p !in fs.dirs)
    ensures FileAbove(fs, p) ==> r == Err(NotADirectory)
    ensures r.Err? && !FileAbove(fs, p) ==> r.error == FileExists
    ensures r.Ok? ==> r.value == MkDirs(fs, p)
  {
    NoFileOnPathSplit(fs, p);
    if FileAbove(fs, p) then Err(NotADirectory)
    else if (|p| > 0 && p in fs.files) || (!existOk && p in fs.dirs) then Err(FileExists)
    else Ok(MkDirs(fs, p))
  }

  /** The parent of `p` is a directory; a single component lies in the working directory. */
  predicate ParentIsDir(fs: FileSystem, p: Path) {
    |p| <= 1 || Parent(p) in fs.dirs
  }

  /**
   `p.write_text(text)`. A regular file above `p` raises NotADirectoryError, a directory at `p`
   IsADirectoryError, and a missing parent FileNotFoundError; failures of the device are not
   modelled.
   */
  function WriteFile(fs: FileSystem, p: Path, text: string): (r: Result<FileSystem>)
    ensures r.Ok? <==> !FileAbove(fs, p) && ParentIsDir(fs, p) && |p| > 0 && p !in fs.dirs
    ensures FileAbove(fs, p) ==> r == Err(NotADirectory)
    ensures !FileAbove(fs, p) && (|p| == 0 || p in fs.dirs) ==> r == Err(IsADirectory)
    ensures !FileAbove(fs, p) && |p| > 0 && p !in fs.dirs && !ParentIsDir(fs, p) ==> r == Err(FileNotFound)
    ensures r.Ok? ==> r.value == WriteText(fs, p, text)
  {
    if FileAbove(fs, p) then Err(NotADirectory)
    else if |p| == 0 || p in fs.dirs then Err(IsADirectory)
    else if !ParentIsDir(fs, p) then Err(FileNotFound)
    else Ok(WriteText(fs, p, text))
  }

  /** After `p` is made, a write into it fails only on a name that is a directory. */
  lemma WriteIntoMade(fs: FileSystem, p: Path, name: string, text: string)
    requires NoFileOnPath(fs, p)
    ensures var made := MkDirs(fs, p);
            WriteFile(made, p + [name], text)
              == if p + [name] in fs.dirs then Err(IsADirectory) else Ok(WriteText(made, p + [name], text))
  {
    var q := p + [name];
    var made := MkDirs(fs, p);
    assert !FileAbove(made, q) by {
      forall i | 0 < i < |q| ensures q[..i] !in made.files {
        assert q[..i] == p[..i];
      }
    }
    if |p| > 0 {
      assert Parent(q) == p[..|p|];
    }
    assert q in made.dirs <==> q in fs.dirs;
  }

  /**
   `p.parent.mkdir(parents=True, exist_ok=True)` followed by `p.write_text(text)`: the errors
   of making the parent, then a directory at `p` (IsADirectoryError); otherwise the parent
   chain is made and `p` written.
   */
  function WriteWithParents(fs: FileSystem, p: Path, text: string): (r: Result<FileSystem>)
    ensures MakeDirs(fs, Parent(p), true).Err? ==> r == Err(MakeDirs(fs, Parent(p), true).error)
    ensures NoFileOnPath(fs, Parent(p)) ==>
              r == if |p| == 0 || p in fs.dirs then Err(IsADirectory) else Ok(WriteText(MkDirs(fs, Parent(p)), p, text))
  {
    WriteBelowParent(fs, p, text);
    match MakeDirs(fs, Parent(p), true)
    case Err(e) => Err(e)
    case Ok(made) => WriteFile(made, p, text)
  }

  lemma WriteBelowParent(fs: FileSystem, p: Path, text: string)
    ensures NoFileOnPath(fs, Parent(p)) ==>
              WriteFile(MkDirs(fs, Parent(p)), p, text)
                == if |p| == 0 || p in fs.dirs then Err(IsADirectory) else Ok(WriteText(MkDirs(fs, Parent(p)), p, text))
  {
    if NoFileOnPath(fs, Parent(p)) && |p| > 0 {
      WriteIntoMade(fs, Parent(p), Name(p), text);
    }
  }

  /** The parent chain and the file of a successful write stay fit for the same write again. */
  lemma WriteWithParentsAgain(fs: FileSystem, p: Path, text: string, text2: string)
    requires WriteWithParents(fs, p, text).Ok?
    ensures WriteWithParents(WriteWithParents(fs, p, text).value, p, text2).Ok?
  {
    var fs' := WriteWithParents(fs, p, text).value;
    assert NoFileOnPath(fs, Parent(p));
    forall i | 0 < i <= |Parent(p)| ensures Parent(p)[..i] !in fs'.files {
      assert Parent(p)[..i] != p;
    }
  }

  /** Writing a file into a directory with no file on its way fails only when the target is a directory. */
  lemma WriteInto(fs: FileSystem, p: Path, name: string, text: string)
    requires p in fs.dirs && NoFileOnPath(fs, p)
    ensures WriteFile(fs, Child(p, name), text)
              == if Child(p, name) in fs.dirs then Err(IsADirectory) else Ok(WriteText(fs, Child(p, name), text))
  {
    var q := Child(p, name);
    NoFileOnPathSplit(fs, p);
    if name != "" {
      forall i | 0 < i < |q| ensures q[..i] !in fs.files {
        assert q[..i] == p[..i];
      }
      assert Parent(q) == p;
    }
  }

  /** A path with no file on its way extends by a name that is not a file. */
  lemma NoFileOnPathExtend(fs: FileSystem, p: Path, name: string)
    requires NoFileOnPath(fs, p) && p + [name] !in fs.files
    ensures NoFileOnPath(fs, p + [name])
  {
    var q := p + [name];
    forall i | 0 < i <= |q| ensures q[..i] !in fs.files {
      if i <= |p| {
        assert q[..i] == p[..i];
      } else {
        assert q[..i] == q;
      }
    }
  }

  /** Only paths of `p`'s length or shorter decide whether `p` has a file on its way. */
  lemma NoFileOnPathAdd(fs: FileSystem, p: Path, extra: map<Path, string>)
    requires NoFileOnPath(fs, p) && forall q :: q in extra ==> |q| > |p|
    ensures NoFileOnPath(fs.(files := fs.files + extra), p)
  {
  }

  /** `MkDirs` keeps a path's freedom from files, and adds only ancestors of its argument. */
  lemma MkDirsKeeps(fs: FileSystem, p: Path, q: Path)
    ensures NoFileOnPath(MkDirs(fs, p), q) <==> NoFileOnPath(fs, q)
    ensures |q| > |p| ==> (q in MkDirs(fs, p).dirs <==> q in fs.dirs)
  {
  }

  /**
   A disk whose files differ only at `p` reads any other path `q` of the same length as before:
   no ancestor of `q` is `p`.
   */
  lemma ReadOtherSameDepth(fs: FileSystem, fs': FileSystem, p: Path, text: string, q: Path)
    requires fs'.files == fs.files[p := text] && |q| == |p| && q != p
    requires q in fs'.dirs <==> q in fs.dirs
    ensures Exists(fs', q) == Exists(fs, q)
    ensures ReadText(fs', q) == ReadText(fs, q)
  {
    assert FileAbove(fs', q) == FileAbove(fs, q) by {
      forall i | 0 < i < |q| ensures q[..i] in fs'.files <==> q[..i] in fs.files {
        assert |q[..i]| != |p|;
      }
    }
  }

  /** A second write to a path written once succeeds and leaves the last text. */
  lemma WriteFileAgain(fs: FileSystem, p: Path, text: string, text2: string)
    requires WriteFile(fs, p, text).Ok?
    ensures WriteFile(WriteText(fs, p, text), p, text2) == Ok(WriteText(WriteText(fs, p, text), p, text2))
  {
    var fs' := WriteText(fs, p, text);
    forall i | 0 < i < |p| ensures p[..i] !in fs'.files {
      assert p[..i] != p;
    }
  }

  /**
   On a real disk, a path below `p` through entries that do not exist has nothing above it
   that is a file exactly when `p` has none on its way.
   */
  lemma FileAboveBelow(fs: FileSystem, p: Path, q: Path)
    requires Closed(fs) && |q| > |p| && q[..|p|] == p
    requires |q| > |p| + 1 ==> !Exists(fs, q[..|p| + 1])
    ensures FileAbove(fs, q) <==> !NoFileOnPath(fs, p)
  {
    NoFileOnPathSplit(fs, p);
    if !NoFileOnPath(fs, p) {
      var i :| 0 < i <= |p| && p[..i] in fs.files;
      assert q[..i] == p[..i];
    }
    forall i | |p| < i < |q| ensures q[..i] !in fs.files {
      if i > |p| + 1 {
        assert q[..i][..|p| + 1] == q[..|p| + 1];
        NothingBelowAbsent(fs, q[..|p| + 1], q[..i]);
      }
    }
    if FileAbove(fs, q) {
      var i :| 0 < i < |q| && q[..i] in fs.files;
      assert i <= |p|;
      assert q[..i] == p[..i];
    }
  }

  /** Making the parent of `p` adds only proper ancestors of `p`. */
  lemma AncestorsOfParent(fs: FileSystem, p: Path)
    ensures forall q :: q in MkDirs(fs, Parent(p)).dirs && q !in fs.dirs ==> 0 < |q| < |p| && q == p[..|q|]
  {
    forall q | q in MkDirs(fs, Parent(p)).dirs && q !in fs.dirs ensures 0 < |q| < |p| && q == p[..|q|] {
      assert Parent(p)[..|q|] == p[..|q|];
    }
  }

  /** The names of the entries directly inside `dir` (files and directories). */
  function Entries(fs: FileSystem, dir: Path): set<string> {
    (set p | p in fs.files && |p| == |dir| + 1 && p[..|dir|] == dir :: p[|dir|])
    + (set p | p in fs.dirs && |p| == |dir| + 1 && p[..|dir|] == dir :: p[|dir|])
  }

  lemma EntriesAt(fs: FileSystem, dir: Path, name: string)
    ensures name in Entries(fs, dir) <==> Exists(fs, dir + [name])
  {
    var p := dir + [name];
    assert |p| == |dir| + 1 && p[..|dir|] == dir && p[|dir|] == name;
    if name in Entries(fs, dir) {
      var q :| (q in fs.files || q in fs.dirs) && |q| == |dir| + 1 && q[..|dir|] == dir && q[|dir|] == name;
      assert q == p;
    }
  }

  /** The entries of `dir` are `names` when exactly those children exist. */
  lemma EntriesExactly(fs: FileSystem, dir: Path, names: set<string>)
    requires forall n :: Exists(fs, dir + [n]) <==> n in names
    ensures Entries(fs, dir) == names
  {
    forall n ensures n in Entries(fs, dir) <==> n in names {
      EntriesAt(fs, dir, n);
    }
  }

  /** Every ancestor of an existing path is a directory, as on a real file system. */
  ghost predicate Closed(fs: FileSystem) {
    forall p, i :: Exists(fs, p) && 0 < i < |p| ==> p[..i] in fs.dirs
  }

  /** On a closed file system nothing lies below a path that does not exist. */
  lemma NothingBelowAbsent(fs: FileSystem, top: Path, p: Path)
    requires Closed(fs) && !Exists(fs, top) && |top| > 0
    requires |p| > |top| && p[..|top|] == top
    ensures !Exists(fs, p)
  {
  }
}
