/**
 The earlier revision of the GEPA driver. Its `load_split` is the current one. Its
 `create_candidate_bundle` names the parent by id and writes the given contents as whole
 files, with no seed to copy from. Its `evaluate_bundle` launches the CLI directly and reads
 back the raw `pass` value and a float score.
 */
module LegacyGepaDriver {
  import opened Outcomes
  import opened PyStr
  import opened Json
  import opened Runtime
  import opened Disk
  import opened Retry
  import BundleStore
  import GepaDriver
  import EvaluatorClient

  // ----- Candidate bundles -----

  /** The practice files as written: `dir / filename` holds its content verbatim. */
  function Written(dir: Path, content: map<string, string>): (r: map<Path, string>)
    ensures r.Keys == set k | k in content :: Child(dir, k)
    ensures forall k :: k in content ==> r[Child(dir, k)] == content[k]
  {
    ChildInjective(dir);
    map k | k in content :: Child(dir, k) := content[k]
  }

  /** The disk after a new candidate is laid out in `bp`: the practice files, then `meta.json`. */
  function Fresh(fs: FileSystem, bp: Path, content: map<string, string>, metaText: string): (r: FileSystem)
    ensures r.dirs == MkDirs(fs, BundleStore.PracticesDir(bp)).dirs
  {
    var dir := BundleStore.PracticesDir(bp);
    var fs1 := MkDirs(fs, dir);
    WriteText(fs1.(files := fs1.files + Written(dir, content)), bp + ["meta.json"], metaText)
  }

  /** A practice file would land on a directory; the empty name stands for `practices` itself. */
  predicate WriteBlocked(fs: FileSystem, dir: Path, content: map<string, string>) {
    exists k :: k in content && Child(dir, k) in fs.dirs
  }

  /**
   The disk work for a new bundle directory `bp`: `(bp / "practices").mkdir(parents=True)`,
   whose errors leave, then every given file and `meta.json`, refused when one of them would
   land on a directory.
   */
  function Build(fs: FileSystem, bp: Path, content: map<string, string>, metaText: string): (r: Result<FileSystem>)
    ensures MakeDirs(fs, BundleStore.PracticesDir(bp), false).Err? ==>
              r == Err(MakeDirs(fs, BundleStore.PracticesDir(bp), false).error)
    ensures MakeDirs(fs, BundleStore.PracticesDir(bp), false).Ok? && r.Err? ==> r.error == IsADirectory
    ensures r.Ok? ==> r.value == Fresh(fs, bp, content, metaText)
  {
    var dir := BundleStore.PracticesDir(bp);
    match MakeDirs(fs, dir, false)
    case Err(e) => Err(e)
    case Ok(fs1) =>
      if WriteBlocked(fs1, dir, content) || bp + ["meta.json"] in fs1.dirs then Err(IsADirectory)
      else Ok(Fresh(fs, bp, content, metaText))
  }

  /**
   `create_candidate_bundle(seed_bundle_id, bundle_root, generation, practices_content,
   exist_ok)`. The id and the handling of an existing directory are those of the current
   driver. A new bundle gets its `practices` directory with `mkdir(parents=True)`, whose
   errors leave the call, then every given content as a whole file and metadata naming
   `seed_bundle_id` as parent. An empty file name names the `practices` directory itself,
   which cannot be written as a file.
   */
  function CreateCandidateBundle(h: Host, fs: FileSystem, seedBundleId: string, root: Path, generation: Json,
                                 content: map<string, string>, existOk: bool, createdAt: string)
    : (r: Result<(FileSystem, GepaDriver.Candidate)>)
    ensures r.Ok? ==> r.value.1.id == GepaDriver.CandidateId(h, generation, content)
    ensures r.Ok? ==> r.value.1.path == root + [GepaDriver.CandidateId(h, generation, content)]
    ensures var id := GepaDriver.CandidateId(h, generation, content);
            Exists(fs, root + [id]) ==> r == (var e :- GepaDriver.Existing(h, fs, id, root + [id], existOk);
                                              Ok((fs, e)))
    ensures var dir := BundleStore.PracticesDir(root + [GepaDriver.CandidateId(h, generation, content)]);
            !Exists(fs, root + [GepaDriver.CandidateId(h, generation, content)]) && MakeDirs(fs, dir, false).Err? ==>
              r == Err(MakeDirs(fs, dir, false).error)
    ensures var dir := BundleStore.PracticesDir(root + [GepaDriver.CandidateId(h, generation, content)]);
            !Exists(fs, root + [GepaDriver.CandidateId(h, generation, content)]) && MakeDirs(fs, dir, false).Ok? && r.Err? ==>
              r.error == IsADirectory
    ensures var id := GepaDriver.CandidateId(h, generation, content);
            var meta := JObj(GepaDriver.CandidateMeta(id, seedBundleId, generation, createdAt,
                                                      GepaDriver.ContentHash(h, content)));
            !Exists(fs, root + [id]) && r.Ok? ==>
              r.value == (Fresh(fs, root + [id], content, h.dumps(meta)), GepaDriver.Candidate(id, root + [id], meta))
  {
    var id := GepaDriver.CandidateId(h, generation, content);
    var bp := Child(root, id);
    if Exists(fs, bp) then
      var e :- GepaDriver.Existing(h, fs, id, bp, existOk);
      Ok((fs, e))
    else
      var meta := JObj(GepaDriver.CandidateMeta(id, seedBundleId, generation, createdAt,
                                                GepaDriver.ContentHash(h, content)));
      var fs' :- Build(fs, bp, content, h.dumps(meta));
      Ok((fs', GepaDriver.Candidate(id, bp, meta)))
  }

  /** Where a file name lands among the written files. */
  lemma WrittenAt(dir: Path, content: map<string, string>, n: string)
    ensures dir + [n] in Written(dir, content) <==> n != "" && n in content
    ensures n != "" && n in content ==> Written(dir, content)[dir + [n]] == content[n]
  {
    var w := Written(dir, content);
    if dir + [n] in w {
      var m :| m in content && dir + [n] == Child(dir, m);
      assert |Child(dir, m)| == |dir| + 1 && Child(dir, m)[|dir|] == m;
    }
    if n != "" {
      assert Child(dir, n) == dir + [n];
    }
  }

  /** A child of the new `practices` directory holds exactly the given content under its name. */
  lemma FreshEntryAt(fs: FileSystem, bp: Path, content: map<string, string>, metaText: string, n: string)
    requires |bp| > 0 && !Exists(fs, BundleStore.PracticesDir(bp) + [n])
    ensures var fs' := Fresh(fs, bp, content, metaText);
            var q := BundleStore.PracticesDir(bp) + [n];
            && (Exists(fs', q) <==> n != "" && n in content)
            && (n != "" && n in content ==> fs'.files[q] == content[n])
  {
    var dir := BundleStore.PracticesDir(bp);
    var q := dir + [n];
    var fs1 := MkDirs(fs, dir);
    assert q !in fs1.dirs && q != bp + ["meta.json"] by {
      assert |q| > |dir|;
    }
    WrittenAt(dir, content, n);
  }

  /**
   On a real disk without the candidate's directory, creation, whatever `exist_ok` says,
   succeeds exactly when the bundle root has no regular file on its way (otherwise
   NotADirectoryError) and no file name is empty (otherwise IsADirectoryError). Then the
   `practices` directory holds exactly the given files with the given contents, and
   `meta.json` records the id, the parent id and the generation as given.
   */
  lemma CreateFresh(h: Host, fs: FileSystem, seedBundleId: string, root: Path, generation: Json,
                    content: map<string, string>, existOk: bool, createdAt: string)
    requires Closed(fs) && !Exists(fs, root + [GepaDriver.CandidateId(h, generation, content)])
    ensures var r := CreateCandidateBundle(h, fs, seedBundleId, root, generation, content, existOk, createdAt);
            && (r.Ok? <==> NoFileOnPath(fs, root) && "" !in content)
            && (!NoFileOnPath(fs, root) ==> r == Err(NotADirectory))
            && (r.Err? && NoFileOnPath(fs, root) ==> r.error == IsADirectory)
    ensures var r := CreateCandidateBundle(h, fs, seedBundleId, root, generation, content, existOk, createdAt);
            r.Ok? ==>
            && Entries(r.value.0, BundleStore.PracticesDir(r.value.1.path)) == content.Keys
            && (forall k :: k in content ==>
                  var q := BundleStore.PracticesDir(r.value.1.path) + [k];
                  q in r.value.0.files && r.value.0.files[q] == content[k])
            && r.value.1.path + ["meta.json"] in r.value.0.files
            && r.value.0.files[r.value.1.path + ["meta.json"]] == h.dumps(r.value.1.meta)
            && r.value.1.meta.JObj?
            && Lookup(r.value.1.meta.fields, "parent") == Some(JStr(seedBundleId))
            && Lookup(r.value.1.meta.fields, "generation") == Some(generation)
  {
    var id := GepaDriver.CandidateId(h, generation, content);
    var meta := JObj(GepaDriver.CandidateMeta(id, seedBundleId, generation, createdAt, GepaDriver.ContentHash(h, content)));
    BuildOutcome(fs, root, id, content, h.dumps(meta));
    if "" !in content {
      FreshContents(fs, root + [id], content, h.dumps(meta));
    }
  }

  /** On a real disk, building a new bundle directory `root / id`. */
  lemma BuildOutcome(fs: FileSystem, root: Path, id: string, content: map<string, string>, metaText: string)
    requires Closed(fs) && !Exists(fs, root + [id])
    ensures var r := Build(fs, root + [id], content, metaText);
            && (r.Ok? <==> NoFileOnPath(fs, root) && "" !in content)
            && (!NoFileOnPath(fs, root) ==> r == Err(NotADirectory))
            && (r.Err? && NoFileOnPath(fs, root) ==> r.error == IsADirectory)
  {
    var dir := BundleStore.PracticesDir(root + [id]);
    GepaDriver.CreateFreshOutcome(fs, [], root, id);
    if MakeDirs(fs, dir, false).Ok? {
      var fs1 := MakeDirs(fs, dir, false).value;
      if "" in content {
        assert Child(dir, "") in fs1.dirs;
      }
    }
  }

  /** What a new bundle directory holds once laid out on a real disk. */
  lemma FreshContents(fs: FileSystem, bp: Path, content: map<string, string>, metaText: string)
    requires Closed(fs) && !Exists(fs, bp) && |bp| > 0 && "" !in content
    ensures var fs' := Fresh(fs, bp, content, metaText);
            var dir := BundleStore.PracticesDir(bp);
            && Entries(fs', dir) == content.Keys
            && (forall k :: k in content ==> dir + [k] in fs'.files && fs'.files[dir + [k]] == content[k])
            && bp + ["meta.json"] in fs'.files && fs'.files[bp + ["meta.json"]] == metaText
  {
    var dir := BundleStore.PracticesDir(bp);
    var fs' := Fresh(fs, bp, content, metaText);
    forall n ensures Exists(fs', dir + [n]) <==> n in content.Keys {
      GepaDriver.AbsentInside(fs, bp, n);
      FreshEntryAt(fs, bp, content, metaText, n);
    }
    forall k | k in content ensures dir + [k] in fs'.files && fs'.files[dir + [k]] == content[k] {
      GepaDriver.AbsentInside(fs, bp, k);
      FreshEntryAt(fs, bp, content, metaText, k);
    }
    EntriesExactly(fs', dir, content.Keys);
  }

  /**
   Creating the same candidate again is refused without `exist_ok`; with it, the disk is left
   as the first creation made it and the recorded metadata comes back.
   */
  lemma CreateTwice(h: Host, fs: FileSystem, seedBundleId: string, root: Path, generation: Json,
                    content: map<string, string>, existOk: bool, createdAt: string, createdAt2: string)
    requires !Exists(fs, root + [GepaDriver.CandidateId(h, generation, content)])
    requires CreateCandidateBundle(h, fs, seedBundleId, root, generation, content, existOk, createdAt).Ok?
    ensures var first := CreateCandidateBundle(h, fs, seedBundleId, root, generation, content, existOk, createdAt).value;
            CreateCandidateBundle(h, first.0, seedBundleId, root, generation, content, false, createdAt2) == Err(FileExists)
    ensures var first := CreateCandidateBundle(h, fs, seedBundleId, root, generation, content, existOk, createdAt).value;
            JsonSound(h) && WellFormed(generation) ==>
              CreateCandidateBundle(h, first.0, seedBundleId, root, generation, content, true, createdAt2) == Ok(first)
  {
    var id := GepaDriver.CandidateId(h, generation, content);
    var bp := root + [id];
    var meta := JObj(GepaDriver.CandidateMeta(id, seedBundleId, generation, createdAt, GepaDriver.ContentHash(h, content)));
    var first := CreateCandidateBundle(h, fs, seedBundleId, root, generation, content, existOk, createdAt).value;
    assert first == (Fresh(fs, bp, content, h.dumps(meta)), GepaDriver.Candidate(id, bp, meta));
    assert bp in first.0.dirs by {
      var dir := BundleStore.PracticesDir(bp);
      assert 0 < |bp| <= |dir| && bp == dir[..|bp|];
    }
    assert bp + ["meta.json"] in first.0.files && first.0.files[bp + ["meta.json"]] == h.dumps(meta);
    Reopen(h, first.0, seedBundleId, root, generation, content, createdAt2);
    if JsonSound(h) && WellFormed(generation) {
      assert WellFormed(meta);
      assert h.loads(Translate(h.dumps(meta))) == Some(meta);
    }
  }

  /** Creation over an existing candidate directory, with and without `exist_ok`. */
  lemma Reopen(h: Host, fs: FileSystem, seedBundleId: string, root: Path, generation: Json,
               content: map<string, string>, createdAt: string)
    requires Exists(fs, root + [GepaDriver.CandidateId(h, generation, content)])
    ensures CreateCandidateBundle(h, fs, seedBundleId, root, generation, content, false, createdAt) == Err(FileExists)
    ensures var id := GepaDriver.CandidateId(h, generation, content);
            var metaPath := root + [id] + ["meta.json"];
            metaPath in fs.files && h.loads(Translate(fs.files[metaPath])).Some? ==>
              CreateCandidateBundle(h, fs, seedBundleId, root, generation, content, true, createdAt)
              == Ok((fs, GepaDriver.Candidate(id, root + [id], h.loads(Translate(fs.files[metaPath])).value)))
  {
  }

  /**
   With a seed bundle that has no `practices` directory, the current driver builds exactly what
   this revision builds from the seed's name.
   */
  lemma AgreesWithoutSeed(h: Host, fs: FileSystem, seedPath: Path, root: Path, generation: Json,
                          content: map<string, string>, existOk: bool, createdAt: string)
    requires Closed(fs) && !Exists(fs, root + [GepaDriver.CandidateId(h, generation, content)])
    requires "" !in content && BundleStore.PracticesDir(seedPath) !in fs.dirs
    ensures GepaDriver.CreateCandidateBundle(h, fs, seedPath, root, generation, content, existOk, createdAt)
            == CreateCandidateBundle(h, fs, Name(seedPath), root, generation, content, existOk, createdAt)
  {
    var id := GepaDriver.CandidateId(h, generation, content);
    var bp := root + [id];
    var dir := BundleStore.PracticesDir(bp);
    var seedDir := BundleStore.PracticesDir(seedPath);
    assert GepaDriver.SeedNames(fs, seedDir) == {};
    GepaDriver.SeedNamesAfterMkdir(fs, seedDir, dir);
    forall k | k in content ensures !Exists(fs, dir + [k]) {
      GepaDriver.AbsentInside(fs, bp, k);
    }
    var meta := JObj(GepaDriver.CandidateMeta(id, Name(seedPath), generation, createdAt, GepaDriver.ContentHash(h, content)));
    BuildsAgree(fs, seedPath, bp, content, h.dumps(meta));
    assert GepaDriver.CreateCandidateBundle(h, fs, seedPath, root, generation, content, existOk, createdAt)
        == (var fs' :- GepaDriver.Build(fs, seedPath, bp, content, h.dumps(meta));
            Ok((fs', GepaDriver.Candidate(id, bp, meta))));
  }

  /** The two revisions' disk work agrees when the seed contributes no file and no edited file exists. */
  lemma BuildsAgree(fs: FileSystem, seedPath: Path, bp: Path, content: map<string, string>, metaText: string)
    requires GepaDriver.SeedNames(MkDirs(fs, BundleStore.PracticesDir(bp)), BundleStore.PracticesDir(seedPath)) == {}
    requires "" !in content && forall k :: k in content ==> !Exists(fs, BundleStore.PracticesDir(bp) + [k])
    ensures GepaDriver.Build(fs, seedPath, bp, content, metaText) == Build(fs, bp, content, metaText)
  {
    var dir := BundleStore.PracticesDir(bp);
    var fs1 := MkDirs(fs, dir);
    forall k | k in content ensures Child(dir, k) !in fs1.dirs {
      MkDirsKeeps(fs, dir, dir + [k]);
    }
    assert !WriteBlocked(fs1, dir, content);
    assert !GepaDriver.CopyBlocked(fs1, BundleStore.PracticesDir(seedPath), dir);
    FreshAgrees(fs, seedPath, bp, content, metaText);
  }

  /** The two revisions' disk effects agree when the seed contributes no file and no edited file exists. */
  lemma FreshAgrees(fs: FileSystem, seedPath: Path, bp: Path, content: map<string, string>, metaText: string)
    requires GepaDriver.SeedNames(MkDirs(fs, BundleStore.PracticesDir(bp)), BundleStore.PracticesDir(seedPath)) == {}
    requires "" !in content && forall k :: k in content ==> !Exists(fs, BundleStore.PracticesDir(bp) + [k])
    ensures GepaDriver.Fresh(fs, seedPath, bp, content, metaText) == Fresh(fs, bp, content, metaText)
  {
    var dir := BundleStore.PracticesDir(bp);
    var fs1 := MkDirs(fs, dir);
    NoSeedWrites(fs1, BundleStore.PracticesDir(seedPath), dir, content);
    assert fs1.(files := fs1.files + map[]) == fs1;
    forall k | k in content ensures !Exists(fs1, Child(dir, k)) {
      assert Child(dir, k) == dir + [k] && |dir + [k]| > |dir|;
    }
    AllNewWrites(fs1, dir, content);
  }

  lemma NoSeedWrites(fs: FileSystem, seedDir: Path, dir: Path, content: map<string, string>)
    requires GepaDriver.SeedNames(fs, seedDir) == {}
    ensures GepaDriver.SeedWrites(fs, seedDir, dir, content) == map[]
  {
  }

  /** When none of the edited files exists yet, the current driver writes them all verbatim. */
  lemma AllNewWrites(fs: FileSystem, dir: Path, content: map<string, string>)
    requires forall k :: k in content ==> !Exists(fs, Child(dir, k))
    ensures GepaDriver.NewWrites(fs, dir, content) == Written(dir, content)
  {
    var a := GepaDriver.NewWrites(fs, dir, content);
    var b := Written(dir, content);
    assert a.Keys == b.Keys;
    forall q | q in a ensures a[q] == b[q] {
      var k :| k in content && q == Child(dir, k);
    }
  }

  // ----- Evaluation -----

  /** The `(pass, score)` pair `evaluate_bundle` returns; `pass` is whatever the artifact stored. */
  datatype Verdict = Verdict(pass: Json, score: real)

  /** `(False, 0.0)`: the outcome of a failed or unreadable evaluation. */
  const Failure := Verdict(JBool(false), 0.0)

  /**
   The reading step of `evaluate_bundle`: with no artifact the evaluation failed; otherwise the
   decoded object's `pass` value, as stored, and its `score` as a float (0.0 when absent). A
   decoding error or a score `float` rejects counts as failure; reading a directory, a decoded
   value that is not an object (no `.get`) and a score of the wrong type raise.
   */
  function Outcome(h: Host, after: Option<FileSystem>, artifact: Path): (r: Result<Verdict>)
    ensures after.None? ==> r == Ok(Failure)
    ensures after.Some? && !Exists(after.value, artifact) ==> r == Ok(Failure)
    ensures r.Err? ==> r.error == IsADirectory || r.error == AttributeError || r.error == TypeError
  {
    if after.None? || !Exists(after.value, artifact) then Ok(Failure)
    else
      var text :- ReadText(after.value, artifact);
      match h.loads(text)
      case None => Ok(Failure)
      case Some(data) => Fields(h, data)
  }

  /** `data.get("pass", False), float(data.get("score", 0.0))`, with a ValueError counted as failure. */
  function Fields(h: Host, data: Json): (r: Result<Verdict>)
    ensures r.Err? ==> r.error == AttributeError || r.error == TypeError
  {
    if !data.JObj? then Err(AttributeError)
    else
      match Float(h, GetOr(data.fields, "score", JNum(0.0)))
      case Ok(score) => Ok(Verdict(GetOr(data.fields, "pass", JBool(false)), score))
      case Err(e) => if IsValueError(e) then Ok(Failure) else Err(e)
  }

  /** What an artifact that exists leads to, case by case. */
  lemma OutcomeCases(h: Host, disk: FileSystem, artifact: Path)
    requires Exists(disk, artifact)
    ensures artifact !in disk.files ==> Outcome(h, Some(disk), artifact) == Err(IsADirectory)
    ensures artifact in disk.files && h.loads(Translate(disk.files[artifact])).None? ==>
              Outcome(h, Some(disk), artifact) == Ok(Failure)
    ensures artifact in disk.files && h.loads(Translate(disk.files[artifact])).Some? ==>
              var data := h.loads(Translate(disk.files[artifact])).value;
              var r := Outcome(h, Some(disk), artifact);
              && (!data.JObj? ==> r == Err(AttributeError))
              && (data.JObj? ==>
                    var score := Float(h, GetOr(data.fields, "score", JNum(0.0)));
                    && (score.Ok? ==> r == Ok(Verdict(GetOr(data.fields, "pass", JBool(false)), score.value)))
                    && (score.Err? && score.error == ValueError ==> r == Ok(Failure))
                    && (score.Err? && score.error == TypeError ==> r == Err(TypeError)))
  {
  }

  /** The argument list: the command split on whitespace, then the bundle path, task path and output directory. */
  function Command(cliCommand: string, bundlePath: Path, taskPath: Path, logDir: Path): (r: seq<string>)
    ensures var base := SplitWhitespace(cliCommand);
            && |r| == |base| + 6 && r[..|base|] == base
            && r[|base|..] == ["--bundle", PathText(bundlePath), "--task", PathText(taskPath),
                                 "--out", PathText(EvaluatorClient.OutDir(logDir, bundlePath, taskPath))]
  {
    var base := SplitWhitespace(cliCommand);
    var r := base + ["--bundle", PathText(bundlePath), "--task", PathText(taskPath),
                     "--out", PathText(EvaluatorClient.OutDir(logDir, bundlePath, taskPath))];
    assert r[..|base|] == base;
    r
  }

  /**
   `evaluate_bundle(bundle_path, task_path, cli_command, log_dir, timeout_seconds)`: the
   command, then the launches and the reading step on the artifact
   `log_dir / <bundle name> / <task name> / evaluator.json`.
   */
  method EvaluateBundle(h: Host, bundlePath: Path, taskPath: Path, cliCommand: string, logDir: Path,
                        world: nat -> Launch)
    returns (r: Result<Verdict>, cmd: seq<string>, launches: nat)
    ensures cmd == Command(cliCommand, bundlePath, taskPath, logDir)
    ensures Evaluated(h, world, EvaluatorClient.OutDir(logDir, bundlePath, taskPath) + ["evaluator.json"], r, launches)
  {
    cmd := Command(cliCommand, bundlePath, taskPath, logDir);
    r, launches := Attempts(h, world, EvaluatorClient.OutDir(logDir, bundlePath, taskPath) + ["evaluator.json"]);
  }

  /** What the launches and the reading step promise about the verdict and the number of launches. */
  predicate Evaluated(h: Host, world: nat -> Launch, artifact: Path, r: Result<Verdict>, launches: nat) {
    && 1 <= launches <= 3
    && (world(0).attempt.NotStarted? ==> launches == 1)
    && (world(0).attempt == Exit(0) ==> launches == 1)
    && (Failed(world(0).attempt) && Exists(world(0).disk, artifact) ==> launches == 1)
    && (Failed(world(0).attempt) && !Exists(world(0).disk, artifact) ==> launches == 2)
    && (world(0).attempt.Timeout? && !Failed(world(1).attempt) ==> launches == 2)
    && (world(0).attempt.Timeout? && Failed(world(1).attempt) ==>
          launches == if Exists(world(1).disk, artifact) then 2 else 3)
    && (world(launches - 1).attempt.NotStarted? ==> r == Err(world(launches - 1).attempt.error))
    && (world(0).attempt.Timeout? && world(1).attempt.Timeout? ==> r == Ok(Failure))
    && (!world(launches - 1).attempt.NotStarted? && !(world(0).attempt.Timeout? && world(1).attempt.Timeout?) ==>
          r == Outcome(h, Some(world(launches - 1).disk), artifact))
    && (r.Err? && !world(launches - 1).attempt.NotStarted? ==>
          r.error == IsADirectory || r.error == AttributeError || r.error == TypeError)
  }

  /** The launches of the shared retry policy, then the reading step on what the last one left. */
  method Attempts(h: Host, world: nat -> Launch, artifact: Path) returns (r: Result<Verdict>, launches: nat)
    ensures Evaluated(h, world, artifact, r, launches)
  {
    var after, raised;
    launches, after, raised := Launches(world, artifact);
    if raised.Some? {
      // only a timeout is caught around a launch
      r := Err(raised.value);
    } else if after.None? {
      // the second launch timed out too
      r := Ok(Failure);
    } else {
      r := Outcome(h, Some(world(launches - 1).disk), artifact);
    }
  }

  /**
   An artifact holding an encoded object with a `pass` value and a numeric `score` is read back
   as exactly that pair, since `json.loads` inverts `json.dumps`.
   */
  lemma OutcomeOfWritten(h: Host, disk: FileSystem, artifact: Path, pass: Json, score: real)
    requires JsonSound(h) && WellFormed(pass)
    ensures var data := JObj([("pass", pass), ("score", JNum(score))]);
            Outcome(h, Some(WriteText(disk, artifact, h.dumps(data))), artifact) == Ok(Verdict(pass, score))
  {
    var data := JObj([("pass", pass), ("score", JNum(score))]);
    ResultWellFormed(pass, score);
    ReadBack(h, disk, artifact, data);
    FieldsOfWritten(h, pass, score);
  }

  /** A well-formed value written as JSON text decodes to itself when read back. */
  lemma ReadBack(h: Host, disk: FileSystem, artifact: Path, v: Json)
    requires JsonSound(h) && WellFormed(v)
    ensures var d := WriteText(disk, artifact, h.dumps(v));
            artifact in d.files && h.loads(Translate(d.files[artifact])) == Some(v)
  {
    assert h.loads(h.dumps(v)) == Some(v) && '\r' !in h.dumps(v);
  }

  lemma ResultWellFormed(pass: Json, score: real)
    requires WellFormed(pass)
    ensures WellFormed(JObj([("pass", pass), ("score", JNum(score))]))
  {
    var fields := [("pass", pass), ("score", JNum(score))];
    assert KeyList(fields) == ["pass", "score"];
  }

  /** The fields of a written result object are read back as they were written. */
  lemma FieldsOfWritten(h: Host, pass: Json, score: real)
    ensures Fields(h, JObj([("pass", pass), ("score", JNum(score))])) == Ok(Verdict(pass, score))
  {
    var fields := [("pass", pass), ("score", JNum(score))];
    LookupAt(fields, 0);
    LookupAt(fields, 1);
  }
}
