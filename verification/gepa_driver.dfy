/**
 The GEPA driver helpers: reading a split file of task names, the content hash and id of a
 candidate bundle, and building a candidate bundle from a seed bundle and edited practice
 bodies, keeping each edited file's front matter.
 */
module GepaDriver {
  import opened Outcomes
  import opened PyStr
  import opened Json
  import opened Runtime
  import opened Disk
  import opened Models
  import BundleStore

  const Fence := BundleStore.Fence

  // ----- Split files -----

  /** A line of a split file read as a task: non-empty, with no whitespace at either end. */
  predicate IsTask(t: string) {
    t != "" && !IsSpace(t[0]) && !IsSpace(t[|t| - 1])
  }

  /** The stripped lines that are not blank, in order. */
  function Tasks(lines: seq<string>): (r: seq<string>)
    ensures forall i :: 0 <= i < |r| ==> IsTask(r[i])
    ensures |r| <= |lines|
    decreases |lines|
  {
    if lines == [] then []
    else
      var t := Strip(lines[0]);
      var rest := Tasks(lines[1..]);
      if t == "" then rest else [t] + rest
  }

  /**
   `load_split(path)`: a missing file raises FileNotFoundError and a directory cannot be
   opened. Iterating over the open file yields its lines with their "\n" terminators after
   universal-newline translation; stripping each line removes the terminator, so the entries are
   the stripped pieces of the text between newlines.
   */
  function LoadSplit(fs: FileSystem, path: Path): (r: Result<seq<string>>)
    ensures r.Ok? <==> path in fs.files
    ensures !Exists(fs, path) ==> r == Err(FileNotFound)
    ensures path in fs.dirs && path !in fs.files ==> r == Err(IsADirectory)
    ensures r.Ok? ==> r.value == Tasks(Split(Translate(fs.files[path]), "\n", -1))
  {
    if !Exists(fs, path) then Err(FileNotFound)
    else
      var text :- ReadText(fs, path);
      Ok(Tasks(Split(text, "\n", -1)))
  }

  /** How `Tasks` treats the first line. */
  lemma TasksCons(line: string, rest: seq<string>)
    ensures Tasks([line] + rest) == (if Strip(line) == "" then [] else [Strip(line)]) + Tasks(rest)
  {
    assert ([line] + rest)[1..] == rest;
  }

  /** The tasks of consecutive runs of lines are those of each run in turn. */
  lemma {:induction false} TasksAppend(a: seq<string>, b: seq<string>)
    ensures Tasks(a + b) == Tasks(a) + Tasks(b)
    decreases |a|
  {
    if a == [] {
      assert a + b == b;
    } else {
      var head := if Strip(a[0]) == "" then [] else [Strip(a[0])];
      assert a + b == [a[0]] + (a[1..] + b);
      assert a == [a[0]] + a[1..];
      calc {
        Tasks(a + b);
        { TasksCons(a[0], a[1..] + b); }
        head + Tasks(a[1..] + b);
        { TasksAppend(a[1..], b); }
        head + (Tasks(a[1..]) + Tasks(b));
        (head + Tasks(a[1..])) + Tasks(b);
        { TasksCons(a[0], a[1..]); }
        Tasks(a) + Tasks(b);
      }
    }
  }

  /** Lines that already are tasks are kept as they are. */
  lemma {:induction false} TasksOfTasks(ts: seq<string>)
    requires forall i :: 0 <= i < |ts| ==> IsTask(ts[i])
    ensures Tasks(ts) == ts
    decreases |ts|
  {
    if ts != [] {
      TasksOfTasks(ts[1..]);
      TasksCons(ts[0], ts[1..]);
      StripTrimmed(ts[0]);
      assert [ts[0]] + ts[1..] == ts;
    }
  }

  /** A final blank line contributes nothing. */
  lemma TasksTrailingBlank(ts: seq<string>)
    ensures Tasks(ts + [""]) == Tasks(ts)
  {
    TasksAppend(ts, [""]);
    TasksCons("", []);
    assert Strip("") == "";
    assert Tasks(ts) + [] == Tasks(ts);
  }

  /** Splitting lines joined by newlines gives the lines back when none holds a newline. */
  lemma {:induction false} SplitJoinLines(lines: seq<string>)
    requires |lines| > 0
    requires forall i :: 0 <= i < |lines| ==> '\n' !in lines[i]
    ensures Split(Join("\n", lines), "\n", -1) == lines
    decreases |lines|
  {
    var s := Join("\n", lines);
    var t := lines[0];
    forall i | 0 <= i < |t| ensures !OccursAt(s, "\n", i) {
      assert s[i] == t[i];
    }
    if |lines| == 1 {
      FindFromNone(s, "\n", 0);
    } else {
      var rest := Join("\n", lines[1..]);
      assert s == t + "\n" + rest;
      assert s[|t|..|t| + 1] == "\n";
      FindFromAt(s, "\n", 0, |t|);
      assert s[..|t|] == t && s[|t| + 1..] == rest;
      SplitJoinLines(lines[1..]);
      assert Split(s, "\n", -1) == [t] + Split(rest, "\n", -1);
    }
  }

  /** Joining strings free of a character gives a text free of it, apart from the separator. */
  lemma {:induction false} JoinFree(lines: seq<string>, c: char)
    requires c != '\n'
    requires forall i :: 0 <= i < |lines| ==> c !in lines[i]
    ensures c !in Join("\n", lines)
    decreases |lines|
  {
    if |lines| > 1 {
      JoinFree(lines[1..], c);
      assert Join("\n", lines) == lines[0] + "\n" + Join("\n", lines[1..]);
    }
  }

  /** A final empty line makes the joined text end with a newline. */
  lemma {:induction false} JoinTrailing(lines: seq<string>)
    requires |lines| > 0
    ensures Join("\n", lines + [""]) == Join("\n", lines) + "\n"
    decreases |lines|
  {
    var all := lines + [""];
    if |lines| > 1 {
      assert all[1..] == lines[1..] + [""];
      JoinTrailing(lines[1..]);
    }
  }

  /**
   Writing tasks one per line (free of newlines and carriage returns, stripped, non-empty),
   with or without a final newline, and loading the split gives the same tasks back.
   */
  lemma LoadSplitRoundTrip(fs: FileSystem, path: Path, tasks: seq<string>, trailing: bool)
    requires forall i :: 0 <= i < |tasks| ==> IsTask(tasks[i]) && '\n' !in tasks[i] && '\r' !in tasks[i]
    ensures trailing && tasks != [] ==> Join("\n", tasks + [""]) == Join("\n", tasks) + "\n"
    ensures var text := Join("\n", if trailing then tasks + [""] else tasks);
            LoadSplit(WriteText(fs, path, text), path) == Ok(tasks)
  {
    var lines := if trailing then tasks + [""] else tasks;
    var text := Join("\n", lines);
    if trailing && tasks != [] {
      JoinTrailing(tasks);
    }
    forall i | 0 <= i < |lines| ensures '\n' !in lines[i] && '\r' !in lines[i] {
      if i < |tasks| {
        assert lines[i] == tasks[i];
      }
    }
    JoinFree(lines, '\r');
    assert Translate(text) == text;
    TasksOfTasks(tasks);
    if lines == [] {
      assert Split(text, "\n", -1) == [""];
      TasksTrailingBlank([]);
    } else {
      SplitJoinLines(lines);
      if trailing {
        TasksTrailingBlank(tasks);
      }
    }
  }

  // ----- Candidate ids -----

  /** The contents of `content` in the order of `keys`. */
  function Values(content: map<string, string>, keys: seq<string>): (r: seq<string>)
    requires forall i :: 0 <= i < |keys| ==> keys[i] in content
    ensures |r| == |keys| && forall i :: 0 <= i < |keys| ==> r[i] == content[keys[i]]
  {
    seq(|keys|, i requires 0 <= i < |keys| => content[keys[i]])
  }

  /** The text a candidate's hash digests: the new contents concatenated in sorted file-name order. */
  function ContentText(content: map<string, string>): string {
    Concat(Values(content, SortedElems(content.Keys)))
  }

  function ContentHash(h: Host, content: map<string, string>): Digest {
    h.sha256(ContentText(content))
  }

  /** `f"gen{generation}_{content_hash[:8]}"`, where the generation may be any value. */
  function CandidateId(h: Host, generation: Json, content: map<string, string>): string {
    BundleStore.BundleId(Str(h, generation), ContentHash(h, content))
  }

  /**
   The driver's content hash is the bundle store's hash of any bundle whose bodies are the new
   contents: a candidate and a bundle written by the store with those bodies share their id.
   */
  lemma ContentHashIsBundleHash(h: Host, content: map<string, string>, practices: map<string, Practice>)
    requires practices.Keys == content.Keys
    requires forall k :: k in content ==> practices[k].body == content[k]
    ensures ContentHash(h, content) == BundleStore.HashBundle(h, practices)
  {
    var keys := SortedElems(content.Keys);
    assert SortedElems(practices.Keys) == keys;
    ValuesAreBodies(content, practices, keys);
    assert ContentText(content) == BundleStore.HashInput(practices);
  }

  lemma ValuesAreBodies(content: map<string, string>, practices: map<string, Practice>, keys: seq<string>)
    requires forall i :: 0 <= i < |keys| ==> keys[i] in content && keys[i] in practices
    requires forall i :: 0 <= i < |keys| ==> practices[keys[i]].body == content[keys[i]]
    ensures Values(content, keys) == BundleStore.Bodies(practices, keys)
  {
  }

  /** Two candidates share an id exactly when their generations print alike and their hashes share eight digits. */
  lemma CandidateIdInjective(h: Host, g1: Json, c1: map<string, string>, g2: Json, c2: map<string, string>)
    ensures CandidateId(h, g1, c1) == CandidateId(h, g2, c2) <==>
              Str(h, g1) == Str(h, g2) && ContentHash(h, c1)[..8] == ContentHash(h, c2)[..8]
  {
    BundleStore.BundleIdInjective(Str(h, g1), ContentHash(h, c1), Str(h, g2), ContentHash(h, c2));
  }

  // ----- Front matter merging -----

  /**
   `_merge_frontmatter_body(original, new_body)`: a text that opens with a fence and has a
   closing one keeps its front matter, followed by a blank line and the new body; any other
   text is replaced by the new body.
   */
  function MergeFrontmatterBody(original: string, newBody: string): (r: string)
    ensures !StartsWith(original, Fence) ==> r == newBody
    ensures EndsWith(r, newBody)
  {
    if StartsWith(original, Fence) then
      var parts := Split(original, Fence, 2);
      if |parts| >= 3 then
        var r := Fence + parts[1] + Fence + "\n" + newBody;
        assert r[|r| - |newBody|..] == newBody;
        r
      else newBody
    else newBody
  }

  /** A fenced original keeps its front matter verbatim in front of the new body. */
  lemma MergeFenced(a: string, tail: string, newBody: string)
    requires !Contains(a, Fence)
    ensures MergeFrontmatterBody(Fence + a + Fence + tail, newBody) == Fence + a + Fence + "\n" + newBody
  {
    BundleStore.SplitFenced(a, tail);
    assert StartsWith(Fence + a + Fence + tail, Fence);
  }

  /** An opening fence that is never closed is not front matter: the new body replaces everything. */
  lemma MergeUnclosed(original: string, newBody: string)
    requires StartsWith(original, Fence) && !Contains(original[|Fence|..], Fence)
    ensures MergeFrontmatterBody(original, newBody) == newBody
  {
    assert OccursAt(original, Fence, 0);
    FindFromAt(original, Fence, 0, 0);
    assert original[|Fence|..] == original[0 + |Fence|..];
    assert Split(original, Fence, 2) == [original[..0]] + Split(original[|Fence|..], Fence, 1);
    assert Split(original[|Fence|..], Fence, 1) == [original[|Fence|..]];
  }

  /**
   Reading the merged file back with the bundle store's parser gives the original front matter
   (stripped) and the new body without its leading newlines.
   */
  lemma MergeThenParse(a: string, tail: string, newBody: string)
    requires !Contains(a, Fence)
    ensures BundleStore.ParseFrontmatter(MergeFrontmatterBody(Fence + a + Fence + tail, newBody))
            == (Strip(a), LStripChar(newBody, '\n'))
  {
    MergeFenced(a, tail, newBody);
    ParseMerged(a, newBody);
  }

  lemma ParseMerged(a: string, newBody: string)
    requires !Contains(a, Fence)
    ensures BundleStore.ParseFrontmatter(Fence + a + Fence + "\n" + newBody) == (Strip(a), LStripChar(newBody, '\n'))
  {
    Reassociate(Fence + a + Fence, "\n", newBody);
    BundleStore.ParseFenced(a, "\n" + newBody);
    assert ("\n" + newBody)[1..] == newBody;
  }

  /** Editing an edited file again keeps the seed's front matter and only the latest body. */
  lemma MergeRepeated(a: string, tail: string, body1: string, body2: string)
    requires !Contains(a, Fence)
    ensures var once := MergeFrontmatterBody(Fence + a + Fence + tail, body1);
            MergeFrontmatterBody(once, body2) == MergeFrontmatterBody(Fence + a + Fence + tail, body2)
  {
    MergeFenced(a, tail, body1);
    MergeMerged(a, body1, body2);
    MergeFenced(a, tail, body2);
  }

  lemma MergeMerged(a: string, body1: string, body2: string)
    requires !Contains(a, Fence)
    ensures MergeFrontmatterBody(Fence + a + Fence + "\n" + body1, body2) == Fence + a + Fence + "\n" + body2
  {
    var t := "\n" + body1;
    MergeFenced(a, t, body2);
    Reassociate(Fence + a + Fence, "\n", body1);
  }

  // ----- Candidate bundles -----

  /** What `create_candidate_bundle` returns: the new id, the bundle directory and its metadata. */
  datatype Candidate = Candidate(id: string, path: Path, meta: Json)

  /** The names of the regular files directly inside `dir`. */
  function FileNames(fs: FileSystem, dir: Path): set<string> {
    set p | p in fs.files && |p| == |dir| + 1 && p[..|dir|] == dir :: p[|dir|]
  }

  lemma FileNamesAt(fs: FileSystem, dir: Path, n: string)
    ensures n in FileNames(fs, dir) <==> dir + [n] in fs.files
  {
    var p := dir + [n];
    assert |p| == |dir| + 1 && p[..|dir|] == dir && p[|dir|] == n;
    if n in FileNames(fs, dir) {
      var q :| q in fs.files && |q| == |dir| + 1 && q[..|dir|] == dir && q[|dir|] == n;
      assert q == p;
    }
  }

  /**
   The seed files `glob("*")` visits and `is_file()` accepts: the files directly inside the
   seed's `practices` directory, none when that is not a directory.
   */
  function SeedNames(fs: FileSystem, seedDir: Path): (r: set<string>)
    ensures forall n :: n in r <==> seedDir in fs.dirs && seedDir + [n] in fs.files
  {
    forall n ensures n in FileNames(fs, seedDir) <==> seedDir + [n] in fs.files {
      FileNamesAt(fs, seedDir, n);
    }
    if seedDir in fs.dirs then FileNames(fs, seedDir) else {}
  }

  /** The text a seed file is copied as: its front matter merged with the new body when it is edited. */
  function SeedCopy(text: string, n: string, content: map<string, string>): string {
    if n in content then MergeFrontmatterBody(text, content[n]) else text
  }

  /** The copies of the seed files in `dir`, read through universal-newline translation. */
  function SeedWrites(fs: FileSystem, seedDir: Path, dir: Path, content: map<string, string>)
    : (r: map<Path, string>)
    ensures r.Keys == set n | n in SeedNames(fs, seedDir) :: Child(dir, n)
    ensures forall n :: n in SeedNames(fs, seedDir) ==>
              r[Child(dir, n)] == SeedCopy(Translate(fs.files[seedDir + [n]]), n, content)
  {
    ChildInjective(dir);
    var names := SeedNames(fs, seedDir);
    map n | n in names :: Child(dir, n) := SeedCopy(Translate(fs.files[seedDir + [n]]), n, content)
  }

  /** The edited files that no seed copy created, written with the new content as it is. */
  function NewWrites(fs: FileSystem, dir: Path, content: map<string, string>): (r: map<Path, string>)
    ensures r.Keys == set k | k in content && !Exists(fs, Child(dir, k)) :: Child(dir, k)
    ensures forall k :: k in content && !Exists(fs, Child(dir, k)) ==> r[Child(dir, k)] == content[k]
  {
    ChildInjective(dir);
    map k | k in content && !Exists(fs, Child(dir, k)) :: Child(dir, k) := content[k]
  }

  /** The metadata of a new candidate, in the order the source lists it. */
  function CandidateMeta(id: string, parent: string, generation: Json, createdAt: string, hash: Digest)
    : (r: Fields)
    ensures Lookup(r, "id") == Some(JStr(id)) && Lookup(r, "parent") == Some(JStr(parent))
    ensures Lookup(r, "generation") == Some(generation) && Lookup(r, "hash") == Some(JStr(hash))
    ensures Lookup(r, "created_at") == Some(JStr(createdAt))
    ensures KeyList(r) == ["id", "parent", "generation", "created_at", "hash"]
    ensures WellFormed(generation) ==> WellFormed(JObj(r))
  {
    var r := [("id", JStr(id)), ("parent", JStr(parent)), ("generation", generation),
              ("created_at", JStr(createdAt)), ("hash", JStr(hash))];
    LookupAt(r, 0);
    LookupAt(r, 1);
    LookupAt(r, 2);
    LookupAt(r, 3);
    LookupAt(r, 4);
    r
  }

  /**
   The existing-directory branch: refused without `exist_ok`; otherwise the disk is left alone
   and the recorded `meta.json` is decoded and returned as it is, `{}` when there is none.
   */
  function Existing(h: Host, fs: FileSystem, id: string, bp: Path, existOk: bool): (r: Result<Candidate>)
    ensures !existOk ==> r == Err(FileExists)
    ensures r.Ok? ==> r.value.id == id && r.value.path == bp
    ensures existOk && !Exists(fs, bp + ["meta.json"]) ==> r == Ok(Candidate(id, bp, JObj([])))
    ensures existOk && bp + ["meta.json"] in fs.files ==>
              r == (match h.loads(Translate(fs.files[bp + ["meta.json"]]))
                    case Some(v) => Ok(Candidate(id, bp, v))
                    case None => Err(JsonDecodeError))
    ensures existOk && bp + ["meta.json"] in fs.dirs && bp + ["meta.json"] !in fs.files ==> r == Err(IsADirectory)
  {
    if !existOk then Err(FileExists)
    else
      var metaPath := bp + ["meta.json"];
      if !Exists(fs, metaPath) then Ok(Candidate(id, bp, JObj([])))
      else
        var text :- ReadText(fs, metaPath);
        match h.loads(text)
        case None => Err(JsonDecodeError)
        case Some(meta) => Ok(Candidate(id, bp, meta))
  }

  /**
   The disk after a new candidate is laid out in `bp`: the `practices` directory with its
   parents, the seed copies, the remaining edited files, and `meta.json` holding `metaText`.
   */
  function Fresh(fs: FileSystem, seedPath: Path, bp: Path, content: map<string, string>, metaText: string)
    : (r: FileSystem)
    ensures r.dirs == MkDirs(fs, BundleStore.PracticesDir(bp)).dirs
  {
    var dir := BundleStore.PracticesDir(bp);
    var fs1 := MkDirs(fs, dir);
    var fs2 := fs1.(files := fs1.files + SeedWrites(fs1, BundleStore.PracticesDir(seedPath), dir, content));
    var fs3 := fs2.(files := fs2.files + NewWrites(fs2, dir, content));
    WriteText(fs3, bp + ["meta.json"], metaText)
  }

  /**
   A seed copy would land on a directory: `write_text` there raises IsADirectoryError. The
   empty name stands for the `practices` directory itself.
   */
  predicate CopyBlocked(fs: FileSystem, seedDir: Path, dir: Path) {
    exists n :: n in SeedNames(fs, seedDir) && Child(dir, n) in fs.dirs
  }

  /**
   `create_candidate_bundle(seed_bundle_path, bundle_root, generation, practices_content,
   exist_ok)`. The id hashes the new contents only. An existing bundle directory is refused or,
   with `exist_ok`, reused untouched. A new one gets its `practices` directory with
   `mkdir(parents=True)`, whose errors leave the call, then copies of the seed's practice files,
   with front matter kept on the edited ones, the edited files the seed lacks, and fresh
   metadata naming the seed directory as parent. A copy or `meta.json` that would land on a
   directory raises IsADirectoryError. `createdAt` stands for the clock reading.
   */
  function CreateCandidateBundle(h: Host, fs: FileSystem, seedPath: Path, root: Path, generation: Json,
                                 content: map<string, string>, existOk: bool, createdAt: string)
    : (r: Result<(FileSystem, Candidate)>)
    ensures r.Ok? ==> r.value.1.id == CandidateId(h, generation, content)
    ensures r.Ok? ==> r.value.1.path == root + [CandidateId(h, generation, content)]
    ensures var bp := root + [CandidateId(h, generation, content)];
            Exists(fs, bp) ==> r == (var e :- Existing(h, fs, CandidateId(h, generation, content), bp, existOk);
                                     Ok((fs, e)))
    ensures var dir := BundleStore.PracticesDir(root + [CandidateId(h, generation, content)]);
            !Exists(fs, root + [CandidateId(h, generation, content)]) && MakeDirs(fs, dir, false).Err? ==>
              r == Err(MakeDirs(fs, dir, false).error)
    ensures var dir := BundleStore.PracticesDir(root + [CandidateId(h, generation, content)]);
            !Exists(fs, root + [CandidateId(h, generation, content)]) && MakeDirs(fs, dir, false).Ok? && r.Err? ==>
              r.error == IsADirectory
    ensures var bp := root + [CandidateId(h, generation, content)];
            var meta := JObj(CandidateMeta(CandidateId(h, generation, content), Name(seedPath), generation,
                                           createdAt, ContentHash(h, content)));
            !Exists(fs, bp) && r.Ok? ==> r.value == (Fresh(fs, seedPath, bp, content, h.dumps(meta)), Candidate(CandidateId(h, generation, content), bp, meta))
  {
    var id := CandidateId(h, generation, content);
    var bp := Child(root, id);
    var dir := BundleStore.PracticesDir(bp);
    if Exists(fs, bp) then
      var e :- Existing(h, fs, id, bp, existOk);
      Ok((fs, e))
    else
      var meta := JObj(CandidateMeta(id, Name(seedPath), generation, createdAt, ContentHash(h, content)));
      var fs' :- Build(fs, seedPath, bp, content, h.dumps(meta));
      Ok((fs', Candidate(id, bp, meta)))
  }

  /**
   The disk work for a new bundle directory `bp`: `(bp / "practices").mkdir(parents=True)`,
   whose errors leave, then the copies, the new files and `meta.json`, refused when a copy
   or `meta.json` would land on a directory.
   */
  function Build(fs: FileSystem, seedPath: Path, bp: Path, content: map<string, string>, metaText: string)
    : (r: Result<FileSystem>)
    ensures MakeDirs(fs, BundleStore.PracticesDir(bp), false).Err? ==>
              r == Err(MakeDirs(fs, BundleStore.PracticesDir(bp), false).error)
    ensures MakeDirs(fs, BundleStore.PracticesDir(bp), false).Ok? && r.Err? ==> r.error == IsADirectory
    ensures r.Ok? ==> r.value == Fresh(fs, seedPath, bp, content, metaText)
  {
    var dir := BundleStore.PracticesDir(bp);
    match MakeDirs(fs, dir, false)
    case Err(e) => Err(e)
    case Ok(fs1) =>
      if CopyBlocked(fs1, BundleStore.PracticesDir(seedPath), dir) || bp + ["meta.json"] in fs1.dirs then
        Err(IsADirectory)
      else
        Ok(Fresh(fs, seedPath, bp, content, metaText))
  }

  /** Making the new `practices` directory does not change which seed files the loop visits. */
  lemma SeedNamesAfterMkdir(fs: FileSystem, seedDir: Path, dir: Path)
    requires Closed(fs) && |seedDir| > 0
    ensures SeedNames(MkDirs(fs, dir), seedDir) == SeedNames(fs, seedDir)
  {
    var fs1 := MkDirs(fs, dir);
    forall n ensures n in SeedNames(fs1, seedDir) <==> n in SeedNames(fs, seedDir) {
      var p := seedDir + [n];
      if p in fs.files {
        assert p[..|seedDir|] == seedDir;
      }
    }
  }

  /** Where a file name lands among the seed copies. */
  lemma SeedWriteAt(fs: FileSystem, seedDir: Path, dir: Path, content: map<string, string>, n: string)
    ensures dir + [n] in SeedWrites(fs, seedDir, dir, content) <==> n != "" && n in SeedNames(fs, seedDir)
    ensures n != "" && n in SeedNames(fs, seedDir) ==>
              SeedWrites(fs, seedDir, dir, content)[dir + [n]] == SeedCopy(Translate(fs.files[seedDir + [n]]), n, content)
  {
    var seeds := SeedWrites(fs, seedDir, dir, content);
    if dir + [n] in seeds {
      var m :| m in SeedNames(fs, seedDir) && dir + [n] == Child(dir, m);
      assert |Child(dir, m)| == |dir| + 1 && Child(dir, m)[|dir|] == m;
    }
    if n != "" {
      assert Child(dir, n) == dir + [n];
    }
  }

  /** Where a file name lands among the edited files written afresh. */
  lemma NewWriteAt(fs: FileSystem, dir: Path, content: map<string, string>, n: string)
    ensures dir + [n] in NewWrites(fs, dir, content) <==> n != "" && n in content && !Exists(fs, dir + [n])
    ensures n != "" && n in content && !Exists(fs, dir + [n]) ==> NewWrites(fs, dir, content)[dir + [n]] == content[n]
  {
    var news := NewWrites(fs, dir, content);
    if dir + [n] in news {
      var m :| m in content && !Exists(fs, Child(dir, m)) && dir + [n] == Child(dir, m);
      assert |Child(dir, m)| == |dir| + 1 && Child(dir, m)[|dir|] == m;
    }
    if n != "" {
      assert Child(dir, n) == dir + [n];
    }
  }

  /** A path other than the last one written: which layer of writes decides its text. */
  lemma OverlayAt(base: map<Path, string>, seeds: map<Path, string>, news: map<Path, string>,
                  last: Path, text: string, q: Path)
    requires q != last
    ensures var f := (base + seeds + news)[last := text];
            && (q in f <==> q in base || q in seeds || q in news)
            && (q in news ==> f[q] == news[q])
            && (q !in news && q in seeds ==> f[q] == seeds[q])
  {
  }

  /** On a real disk nothing lies inside a bundle directory that does not exist. */
  lemma AbsentInside(fs: FileSystem, bp: Path, n: string)
    requires Closed(fs) && !Exists(fs, bp) && |bp| > 0
    ensures !Exists(fs, BundleStore.PracticesDir(bp) + [n])
  {
    var q := BundleStore.PracticesDir(bp) + [n];
    assert q[..|bp|] == bp;
    NothingBelowAbsent(fs, bp, q);
  }

  /**
   On a real disk, a new candidate's `practices` directory holds exactly the seed's files and
   the edited files: a seed file is copied, with the new body behind its front matter when it
   is edited, and an edited file the seed lacks holds its new content as given.
   */
  lemma FreshEntry(fs: FileSystem, seedPath: Path, bp: Path, content: map<string, string>, metaText: string,
                   n: string)
    requires Closed(fs) && !Exists(fs, bp) && |bp| > 0
    ensures var dir := BundleStore.PracticesDir(bp);
            var seed := SeedNames(fs, BundleStore.PracticesDir(seedPath));
            var fs' := Fresh(fs, seedPath, bp, content, metaText);
            && (Exists(fs', dir + [n]) <==> n != "" && (n in seed || n in content))
            && (n != "" && n in seed ==>
                  && dir + [n] in fs'.files
                  && fs'.files[dir + [n]] == SeedCopy(Translate(fs.files[BundleStore.PracticesDir(seedPath) + [n]]), n, content))
            && (n !in seed && n in content && n != "" ==> dir + [n] in fs'.files && fs'.files[dir + [n]] == content[n])
  {
    var dir := BundleStore.PracticesDir(bp);
    var seedDir := BundleStore.PracticesDir(seedPath);
    SeedNamesAfterMkdir(fs, seedDir, dir);
    AbsentInside(fs, bp, n);
    FreshEntryAt(fs, seedPath, bp, content, metaText, n);
  }

  /** `FreshEntry` once the facts about a real disk are in hand. */
  lemma FreshEntryAt(fs: FileSystem, seedPath: Path, bp: Path, content: map<string, string>, metaText: string,
                     n: string)
    requires |bp| > 0 && !Exists(fs, BundleStore.PracticesDir(bp) + [n])
    requires SeedNames(MkDirs(fs, BundleStore.PracticesDir(bp)), BundleStore.PracticesDir(seedPath))
             == SeedNames(fs, BundleStore.PracticesDir(seedPath))
    ensures var dir := BundleStore.PracticesDir(bp);
            var seed := SeedNames(fs, BundleStore.PracticesDir(seedPath));
            var fs' := Fresh(fs, seedPath, bp, content, metaText);
            && (Exists(fs', dir + [n]) <==> n != "" && (n in seed || n in content))
            && (n != "" && n in seed ==>
                  && dir + [n] in fs'.files
                  && fs'.files[dir + [n]] == SeedCopy(Translate(fs.files[BundleStore.PracticesDir(seedPath) + [n]]), n, content))
            && (n !in seed && n in content && n != "" ==> dir + [n] in fs'.files && fs'.files[dir + [n]] == content[n])
  {
    var dir := BundleStore.PracticesDir(bp);
    var seedDir := BundleStore.PracticesDir(seedPath);
    var fs1 := MkDirs(fs, dir);
    var seeds := SeedWrites(fs1, seedDir, dir, content);
    var fs2 := fs1.(files := fs1.files + seeds);
    var news := NewWrites(fs2, dir, content);
    var meta := bp + ["meta.json"];
    var fs' := Fresh(fs, seedPath, bp, content, metaText);
    assert fs'.files == (fs.files + seeds + news)[meta := metaText];
    var q := dir + [n];
    assert q !in fs1.dirs && q != meta by {
      assert |q| > |dir|;
    }
    OverlayAt(fs.files, seeds, news, meta, metaText, q);
    SeedWriteAt(fs1, seedDir, dir, content, n);
    NewWriteAt(fs2, dir, content, n);
    assert Exists(fs2, q) <==> q in seeds;
  }

  /** The entries of a new candidate's `practices` directory, as a set of names. */
  lemma FreshEntries(fs: FileSystem, seedPath: Path, bp: Path, content: map<string, string>, metaText: string)
    requires Closed(fs) && !Exists(fs, bp) && |bp| > 0
    ensures Entries(Fresh(fs, seedPath, bp, content, metaText), BundleStore.PracticesDir(bp))
            == (SeedNames(fs, BundleStore.PracticesDir(seedPath)) + content.Keys) - {""}
  {
    FreshExistsExactly(fs, seedPath, bp, content, metaText);
    EntriesExactly(Fresh(fs, seedPath, bp, content, metaText), BundleStore.PracticesDir(bp),
                   (SeedNames(fs, BundleStore.PracticesDir(seedPath)) + content.Keys) - {""});
  }

  lemma FreshExistsExactly(fs: FileSystem, seedPath: Path, bp: Path, content: map<string, string>, metaText: string)
    requires Closed(fs) && !Exists(fs, bp) && |bp| > 0
    ensures var names := (SeedNames(fs, BundleStore.PracticesDir(seedPath)) + content.Keys) - {""};
            forall n :: Exists(Fresh(fs, seedPath, bp, content, metaText), BundleStore.PracticesDir(bp) + [n]) <==> n in names
  {
    forall n {
      FreshEntry(fs, seedPath, bp, content, metaText, n);
    }
  }

  /** Every file written into the `practices` directory lies inside the bundle directory. */
  lemma InsideBundle(bp: Path, name: string)
    ensures var q := Child(BundleStore.PracticesDir(bp), name);
            |q| > |bp| && q[..|bp|] == bp
  {
    var dir := BundleStore.PracticesDir(bp);
    assert dir[..|bp|] == bp;
    assert (dir + [name])[..|bp|] == bp;
  }

  /** Nothing outside the new bundle directory changes, and `meta.json` holds the metadata text. */
  lemma FreshConfined(fs: FileSystem, seedPath: Path, bp: Path, content: map<string, string>, metaText: string,
                      p: Path)
    requires |bp| > 0
    ensures var fs' := Fresh(fs, seedPath, bp, content, metaText);
            bp + ["meta.json"] in fs'.files && fs'.files[bp + ["meta.json"]] == metaText
    ensures var fs' := Fresh(fs, seedPath, bp, content, metaText);
            !(|p| > |bp| && p[..|bp|] == bp) ==>
              (p in fs'.files <==> p in fs.files) && (p in fs.files ==> fs'.files[p] == fs.files[p])
  {
    var dir := BundleStore.PracticesDir(bp);
    var fs1 := MkDirs(fs, dir);
    var seeds := SeedWrites(fs1, BundleStore.PracticesDir(seedPath), dir, content);
    var fs2 := fs1.(files := fs1.files + seeds);
    var news := NewWrites(fs2, dir, content);
    if !(|p| > |bp| && p[..|bp|] == bp) {
      assert p != bp + ["meta.json"];
      if p in seeds {
        var m :| m in SeedNames(fs1, BundleStore.PracticesDir(seedPath)) && p == Child(dir, m);
        InsideBundle(bp, m);
      }
      if p in news {
        var m :| m in content && !Exists(fs2, Child(dir, m)) && p == Child(dir, m);
        InsideBundle(bp, m);
      }
    }
  }

  /**
   On a real disk without the candidate's directory, creation, whatever `exist_ok` says,
   succeeds exactly when the bundle root has no regular file on its way (otherwise
   NotADirectoryError) and no seed file has an empty name. Then the `practices` directory
   holds the seed's files and the edited files, and `meta.json` records the id, the seed
   directory's name as parent, the generation as given and the hash.
   */
  lemma CreateFresh(h: Host, fs: FileSystem, seedPath: Path, root: Path, generation: Json,
                    content: map<string, string>, existOk: bool, createdAt: string)
    requires Closed(fs) && !Exists(fs, root + [CandidateId(h, generation, content)])
    ensures var r := CreateCandidateBundle(h, fs, seedPath, root, generation, content, existOk, createdAt);
            && (r.Ok? <==> NoFileOnPath(fs, root) && "" !in SeedNames(fs, BundleStore.PracticesDir(seedPath)))
            && (!NoFileOnPath(fs, root) ==> r == Err(NotADirectory))
            && (r.Err? && NoFileOnPath(fs, root) ==> r.error == IsADirectory)
    ensures var r := CreateCandidateBundle(h, fs, seedPath, root, generation, content, existOk, createdAt);
            r.Ok? ==>
            && Entries(r.value.0, BundleStore.PracticesDir(r.value.1.path))
               == (SeedNames(fs, BundleStore.PracticesDir(seedPath)) + content.Keys) - {""}
            && r.value.1.path + ["meta.json"] in r.value.0.files
            && r.value.0.files[r.value.1.path + ["meta.json"]] == h.dumps(r.value.1.meta)
            && r.value.1.meta.JObj?
            && Lookup(r.value.1.meta.fields, "parent") == Some(JStr(Name(seedPath)))
            && Lookup(r.value.1.meta.fields, "generation") == Some(generation)
            && Lookup(r.value.1.meta.fields, "hash") == Some(JStr(ContentHash(h, content)))
  {
    CreateOutcome(h, fs, seedPath, root, generation, content, existOk, createdAt);
    CreateContents(h, fs, seedPath, root, generation, content, existOk, createdAt);
  }

  lemma CreateOutcome(h: Host, fs: FileSystem, seedPath: Path, root: Path, generation: Json,
                      content: map<string, string>, existOk: bool, createdAt: string)
    requires Closed(fs) && !Exists(fs, root + [CandidateId(h, generation, content)])
    ensures var r := CreateCandidateBundle(h, fs, seedPath, root, generation, content, existOk, createdAt);
            && (r.Ok? <==> NoFileOnPath(fs, root) && "" !in SeedNames(fs, BundleStore.PracticesDir(seedPath)))
            && (!NoFileOnPath(fs, root) ==> r == Err(NotADirectory))
            && (r.Err? && NoFileOnPath(fs, root) ==> r.error == IsADirectory)
  {
    var id := CandidateId(h, generation, content);
    var meta := JObj(CandidateMeta(id, Name(seedPath), generation, createdAt, ContentHash(h, content)));
    BuildOutcome(fs, seedPath, root, id, content, h.dumps(meta));
  }

  /** On a real disk, building a new bundle directory `root / id`. */
  lemma BuildOutcome(fs: FileSystem, seedPath: Path, root: Path, id: string, content: map<string, string>,
                     metaText: string)
    requires Closed(fs) && !Exists(fs, root + [id])
    ensures var r := Build(fs, seedPath, root + [id], content, metaText);
            && (r.Ok? <==> NoFileOnPath(fs, root) && "" !in SeedNames(fs, BundleStore.PracticesDir(seedPath)))
            && (!NoFileOnPath(fs, root) ==> r == Err(NotADirectory))
            && (r.Err? && NoFileOnPath(fs, root) ==> r.error == IsADirectory)
  {
    var dir := BundleStore.PracticesDir(root + [id]);
    CreateFreshOutcome(fs, seedPath, root, id);
    if MakeDirs(fs, dir, false).Ok? {
      var fs1 := MakeDirs(fs, dir, false).value;
      if "" in SeedNames(fs, BundleStore.PracticesDir(seedPath)) {
        assert Child(dir, "") in fs1.dirs;
      }
    }
  }

  lemma CreateContents(h: Host, fs: FileSystem, seedPath: Path, root: Path, generation: Json,
                       content: map<string, string>, existOk: bool, createdAt: string)
    requires Closed(fs) && !Exists(fs, root + [CandidateId(h, generation, content)])
    ensures var r := CreateCandidateBundle(h, fs, seedPath, root, generation, content, existOk, createdAt);
            r.Ok? ==>
            && Entries(r.value.0, BundleStore.PracticesDir(r.value.1.path))
               == (SeedNames(fs, BundleStore.PracticesDir(seedPath)) + content.Keys) - {""}
            && r.value.1.path + ["meta.json"] in r.value.0.files
            && r.value.0.files[r.value.1.path + ["meta.json"]] == h.dumps(r.value.1.meta)
            && r.value.1.meta.JObj?
            && Lookup(r.value.1.meta.fields, "parent") == Some(JStr(Name(seedPath)))
            && Lookup(r.value.1.meta.fields, "generation") == Some(generation)
            && Lookup(r.value.1.meta.fields, "hash") == Some(JStr(ContentHash(h, content)))
  {
    var id := CandidateId(h, generation, content);
    var bp := root + [id];
    var meta := JObj(CandidateMeta(id, Name(seedPath), generation, createdAt, ContentHash(h, content)));
    FreshEntries(fs, seedPath, bp, content, h.dumps(meta));
    FreshConfined(fs, seedPath, bp, content, h.dumps(meta), []);
  }

  /** The disk facts behind `CreateFresh`, for the new bundle directory `root / id`. */
  lemma CreateFreshOutcome(fs: FileSystem, seedPath: Path, root: Path, id: string)
    requires Closed(fs) && !Exists(fs, root + [id])
    ensures var dir := BundleStore.PracticesDir(root + [id]);
            var made := MakeDirs(fs, dir, false);
            && (made.Ok? <==> NoFileOnPath(fs, root))
            && (made.Err? ==> made.error == NotADirectory)
            && (made.Ok? ==>
                  && (forall n :: Child(dir, n) in made.value.dirs <==> n == "")
                  && SeedNames(made.value, BundleStore.PracticesDir(seedPath)) == SeedNames(fs, BundleStore.PracticesDir(seedPath))
                  && root + [id] + ["meta.json"] !in made.value.dirs)
  {
    var bp := root + [id];
    var dir := BundleStore.PracticesDir(bp);
    var seedDir := BundleStore.PracticesDir(seedPath);
    assert dir[..|root|] == root && dir[..|root| + 1] == bp;
    FileAboveBelow(fs, root, dir);
    assert dir[..|bp|] == bp;
    NothingBelowAbsent(fs, bp, dir);
    NoFileOnPathSplit(fs, dir);
    if NoFileOnPath(fs, root) {
      var fs1 := MkDirs(fs, dir);
      SeedNamesAfterMkdir(fs, seedDir, dir);
      forall n | n != "" ensures Child(dir, n) !in fs1.dirs {
        AbsentInside(fs, bp, n);
      }
      assert dir == dir[..|dir|];
      assert Child(dir, "") in fs1.dirs;
      var mp := bp + ["meta.json"];
      assert mp[..|bp|] == bp;
      NothingBelowAbsent(fs, bp, mp);
    }
  }

  /**
   A seed file with front matter keeps it when its body is edited, and a seed file that is not
   edited is copied as read.
   */
  lemma CreateKeepsFrontmatter(h: Host, fs: FileSystem, seedPath: Path, root: Path, generation: Json,
                               content: map<string, string>, existOk: bool, createdAt: string,
                               n: string, a: string, tail: string)
    requires Closed(fs) && !Exists(fs, root + [CandidateId(h, generation, content)])
    requires n != "" && BundleStore.PracticesDir(seedPath) in fs.dirs
    requires BundleStore.PracticesDir(seedPath) + [n] in fs.files
    requires Translate(fs.files[BundleStore.PracticesDir(seedPath) + [n]]) == Fence + a + Fence + tail
    requires !Contains(a, Fence)
    ensures var r := CreateCandidateBundle(h, fs, seedPath, root, generation, content, existOk, createdAt);
            var q := BundleStore.PracticesDir(root + [CandidateId(h, generation, content)]) + [n];
            r.Ok? ==>
              && r.value.1.path == root + [CandidateId(h, generation, content)] && q in r.value.0.files
              && (n in content ==> r.value.0.files[q] == Fence + a + Fence + "\n" + content[n])
              && (n !in content ==> r.value.0.files[q] == Fence + a + Fence + tail)
  {
    var id := CandidateId(h, generation, content);
    var bp := root + [id];
    var meta := JObj(CandidateMeta(id, Name(seedPath), generation, createdAt, ContentHash(h, content)));
    FreshEntry(fs, seedPath, bp, content, h.dumps(meta), n);
    if n in content {
      MergeFenced(a, tail, content[n]);
    }
  }

  /**
   Creating the same candidate again is refused without `exist_ok`; with it, the disk is left
   as the first creation made it and the recorded metadata comes back, since `json.loads`
   inverts `json.dumps`.
   */
  lemma CreateTwice(h: Host, fs: FileSystem, seedPath: Path, root: Path, generation: Json,
                    content: map<string, string>, existOk: bool, createdAt: string, createdAt2: string)
    requires !Exists(fs, root + [CandidateId(h, generation, content)])
    requires CreateCandidateBundle(h, fs, seedPath, root, generation, content, existOk, createdAt).Ok?
    ensures var first := CreateCandidateBundle(h, fs, seedPath, root, generation, content, existOk, createdAt).value;
            CreateCandidateBundle(h, first.0, seedPath, root, generation, content, false, createdAt2) == Err(FileExists)
    ensures var first := CreateCandidateBundle(h, fs, seedPath, root, generation, content, existOk, createdAt).value;
            JsonSound(h) && WellFormed(generation) ==>
              CreateCandidateBundle(h, first.0, seedPath, root, generation, content, true, createdAt2) == Ok(first)
  {
    var id := CandidateId(h, generation, content);
    var bp := root + [id];
    var meta := JObj(CandidateMeta(id, Name(seedPath), generation, createdAt, ContentHash(h, content)));
    var first := CreateCandidateBundle(h, fs, seedPath, root, generation, content, existOk, createdAt).value;
    assert first == (Fresh(fs, seedPath, bp, content, h.dumps(meta)), Candidate(id, bp, meta));
    FreshConfined(fs, seedPath, bp, content, h.dumps(meta), []);
    FreshHasBundle(fs, seedPath, bp, content, h.dumps(meta));
    Reopen(h, first.0, seedPath, root, generation, content, createdAt2);
    if JsonSound(h) && WellFormed(generation) {
      assert WellFormed(meta);
      assert h.loads(Translate(h.dumps(meta))) == Some(meta);
    }
  }

  /** The bundle directory exists once a new candidate is laid out in it. */
  lemma FreshHasBundle(fs: FileSystem, seedPath: Path, bp: Path, content: map<string, string>, metaText: string)
    requires |bp| > 0
    ensures bp in Fresh(fs, seedPath, bp, content, metaText).dirs
  {
    var dir := BundleStore.PracticesDir(bp);
    assert 0 < |bp| <= |dir| && bp == dir[..|bp|];
  }

  /** Creation over an existing candidate directory, with and without `exist_ok`. */
  lemma Reopen(h: Host, fs: FileSystem, seedPath: Path, root: Path, generation: Json,
               content: map<string, string>, createdAt: string)
    requires Exists(fs, root + [CandidateId(h, generation, content)])
    ensures CreateCandidateBundle(h, fs, seedPath, root, generation, content, false, createdAt) == Err(FileExists)
    ensures var id := CandidateId(h, generation, content);
            var metaPath := root + [id] + ["meta.json"];
            metaPath in fs.files && h.loads(Translate(fs.files[metaPath])).Some? ==>
              CreateCandidateBundle(h, fs, seedPath, root, generation, content, true, createdAt)
              == Ok((fs, Candidate(id, root + [id], h.loads(Translate(fs.files[metaPath])).value)))
  {
  }
}
