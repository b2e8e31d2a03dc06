/**
 The run store: a recorded agent run is a directory `runs_root / run_id` holding the goal,
 the base commit and whatever else the run produced. Loading it decides which files are
 required, which fall back to `run_meta.json`, and which are simply absent.
 */
module RunStore {
  import opened Outcomes
  import opened Json
  import opened Runtime
  import opened PyStr
  import opened Disk
  import opened Models

  /** `p.read_text() if p.exists() else None`. */
  function OptionalText(fs: FileSystem, p: Path): (r: Result<Option<string>>)
    ensures !Exists(fs, p) ==> r == Ok(None)
    ensures p in fs.files ==> r == Ok(Some(Translate(fs.files[p])))
    ensures p in fs.dirs && p !in fs.files ==> r == Err(IsADirectory)
  {
    if !Exists(fs, p) then Ok(None)
    else
      var text := ReadText(fs, p);
      if text.Err? then Err(text.error) else Ok(Some(text.value))
  }

  /** A JSON file read when it exists, with `None` for an absent or undecodable one. */
  function OptionalJson(h: Host, fs: FileSystem, p: Path): (r: Result<Option<Json>>)
    ensures !Exists(fs, p) ==> r == Ok(None)
    ensures p in fs.files ==> r == Ok(h.loads(Translate(fs.files[p])))
    ensures p in fs.dirs && p !in fs.files ==> r == Err(IsADirectory)
  {
    var text := OptionalText(fs, p);
    if text.Err? then Err(text.error)
    else if text.value.None? then Ok(None)
    else Ok(h.loads(text.value.value))
  }

  /** `run_meta.json` decoded, or `{}` when it is absent or does not decode. */
  function RunMeta(h: Host, fs: FileSystem, dir: Path): (r: Result<Json>)
    ensures var p := dir + ["run_meta.json"];
            && (!Exists(fs, p) ==> r == Ok(JObj([])))
            && (p in fs.files && h.loads(Translate(fs.files[p])).None? ==> r == Ok(JObj([])))
            && (p in fs.files && h.loads(Translate(fs.files[p])).Some? ==> r == Ok(h.loads(Translate(fs.files[p])).value))
  {
    var decoded := OptionalJson(h, fs, dir + ["run_meta.json"]);
    if decoded.Err? then Err(decoded.error)
    else if decoded.value.None? then Ok(JObj([]))
    else Ok(decoded.value.value)
  }

  /**
   The base commit: `base_commit.txt` stripped when the file exists, even if that leaves it
   empty, else the meta's `base_commit` as text. An empty result is a missing base commit.
   */
  function BaseCommit(h: Host, fs: FileSystem, dir: Path, meta: Json): (r: Result<string>)
    ensures r.Ok? ==> r.value != ""
    ensures var p := dir + ["base_commit.txt"];
            p in fs.files ==>
              r == (if Strip(Translate(fs.files[p])) == "" then Err(FileNotFound) else Ok(Strip(Translate(fs.files[p]))))
    ensures var p := dir + ["base_commit.txt"];
            !Exists(fs, p) && meta.JObj? ==>
              var fromMeta := Str(h, GetOr(meta.fields, "base_commit", JStr("")));
              r == (if fromMeta == "" then Err(FileNotFound) else Ok(fromMeta))
    ensures !Exists(fs, dir + ["base_commit.txt"]) && !meta.JObj? ==> r == Err(AttributeError)
  {
    var text := OptionalText(fs, dir + ["base_commit.txt"]);
    if text.Err? then Err(text.error)
    else
      var commit :=
        if text.value.Some? then Ok(Strip(text.value.value))
        else
          var v := Get(meta, "base_commit", JStr(""));
          if v.Err? then Err(v.error) else Ok(Str(h, v.value));
      if commit.Err? then Err(commit.error)
      else if commit.value == "" then Err(FileNotFound)
      else Ok(commit.value)
  }

  /**
   The bundle id: `bundle_id.txt` stripped when the file exists, `None` when that is blank
   (the meta is not consulted then), else the meta's `bundle_id` when truthy.
   */
  function BundleIdOf(h: Host, fs: FileSystem, dir: Path, meta: Json): (r: Result<Option<string>>)
    ensures var p := dir + ["bundle_id.txt"];
            p in fs.files ==>
              r == Ok(if Strip(Translate(fs.files[p])) == "" then None else Some(Strip(Translate(fs.files[p]))))
    ensures var p := dir + ["bundle_id.txt"];
            !Exists(fs, p) && meta.JObj? ==>
              var v := GetOr(meta.fields, "bundle_id", JNull);
              r == Ok(if Truthy(v) then Some(Str(h, v)) else None)
    ensures !Exists(fs, dir + ["bundle_id.txt"]) && !meta.JObj? ==> r == Err(AttributeError)
    ensures r.Ok? && r.value.Some? ==> r.value.value != "" || !Exists(fs, dir + ["bundle_id.txt"])
  {
    var text := OptionalText(fs, dir + ["bundle_id.txt"]);
    if text.Err? then Err(text.error)
    else if text.value.Some? then
      var id := Strip(text.value.value);
      Ok(if id == "" then None else Some(id))
    else
      var v := Get(meta, "bundle_id", JNull);
      if v.Err? then Err(v.error)
      else if Truthy(v.value) then Ok(Some(Str(h, v.value)))
      else Ok(None)
  }

  /** `{str(k): str(v) for k, v in raw.items()}`. */
  function StringPairs(h: Host, fields: Fields): (r: seq<(string, string)>)
    ensures |r| == |fields|
    ensures forall i :: 0 <= i < |fields| ==> r[i] == (fields[i].0, Str(h, fields[i].1))
  {
    seq(|fields|, i requires 0 <= i < |fields| => (fields[i].0, Str(h, fields[i].1)))
  }

  /** `outputs.json`, kept only when it decodes to a dict, with every value as text. */
  function Outputs(h: Host, fs: FileSystem, dir: Path): (r: Result<Option<seq<(string, string)>>>)
    ensures var p := dir + ["outputs.json"];
            && (!Exists(fs, p) ==> r == Ok(None))
            && (p in fs.files && h.loads(Translate(fs.files[p])).Some? && h.loads(Translate(fs.files[p])).value.JObj? ==>
                  r == Ok(Some(StringPairs(h, h.loads(Translate(fs.files[p])).value.fields))))
            && (p in fs.files && (h.loads(Translate(fs.files[p])).None? || !h.loads(Translate(fs.files[p])).value.JObj?) ==>
                  r == Ok(None))
  {
    var decoded := OptionalJson(h, fs, dir + ["outputs.json"]);
    if decoded.Err? then Err(decoded.error)
    else if decoded.value.Some? && decoded.value.value.JObj? then Ok(Some(StringPairs(h, decoded.value.value.fields)))
    else Ok(None)
  }

  /** The optional files of a run, read in the order `load_run_artifact` reads them. */
  datatype Extras = Extras(
    gitDiff: Option<string>,
    outputs: Option<seq<(string, string)>>,
    dotnetTest: Option<string>,
    dotnetTestError: Option<string>,
    dotnetBuild: Option<string>,
    dotnetBuildError: Option<string>,
    evaluator: Option<Json>)

  function ReadExtras(h: Host, fs: FileSystem, dir: Path): (r: Result<Extras>)
    ensures r.Ok? ==> OptionalText(fs, dir + ["git_diff.patch"]) == Ok(r.value.gitDiff)
    ensures r.Ok? ==> Outputs(h, fs, dir) == Ok(r.value.outputs)
    ensures r.Ok? ==> OptionalText(fs, dir + ["dotnet_test.txt"]) == Ok(r.value.dotnetTest)
    ensures r.Ok? ==> OptionalText(fs, dir + ["dotnet_test_error.txt"]) == Ok(r.value.dotnetTestError)
    ensures r.Ok? ==> OptionalText(fs, dir + ["dotnet_build.txt"]) == Ok(r.value.dotnetBuild)
    ensures r.Ok? ==> OptionalText(fs, dir + ["dotnet_build_error.txt"]) == Ok(r.value.dotnetBuildError)
    ensures r.Ok? ==> OptionalJson(h, fs, dir + ["evaluator.json"]) == Ok(r.value.evaluator)
  {
    var gitDiff := OptionalText(fs, dir + ["git_diff.patch"]);
    var outputs := Outputs(h, fs, dir);
    var test := OptionalText(fs, dir + ["dotnet_test.txt"]);
    var testError := OptionalText(fs, dir + ["dotnet_test_error.txt"]);
    var build := OptionalText(fs, dir + ["dotnet_build.txt"]);
    var buildError := OptionalText(fs, dir + ["dotnet_build_error.txt"]);
    var evaluator := OptionalJson(h, fs, dir + ["evaluator.json"]);
    if gitDiff.Err? then Err(gitDiff.error)
    else if outputs.Err? then Err(outputs.error)
    else if test.Err? then Err(test.error)
    else if testError.Err? then Err(testError.error)
    else if build.Err? then Err(build.error)
    else if buildError.Err? then Err(buildError.error)
    else if evaluator.Err? then Err(evaluator.error)
    else Ok(Extras(gitDiff.value, outputs.value, test.value, testError.value, build.value, buildError.value,
                   evaluator.value))
  }

  /**
   `load_run_artifact(runs_root, run_id)`: the run directory and `goal.txt` must exist, the
   goal is the stripped file, and the base commit and bundle id follow their precedence
   rules over `run_meta.json`.
   */
  function LoadRunArtifact(h: Host, fs: FileSystem, root: Path, runId: string): (r: Result<RunArtifact>)
    ensures !Exists(fs, Child(root, runId)) ==> r == Err(FileNotFound)
    ensures !Exists(fs, Child(root, runId) + ["goal.txt"]) ==> r == Err(FileNotFound)
    ensures r.Ok? ==> var dir := Child(root, runId);
                      && r.value.runId == runId && r.value.runDir == dir
                      && dir + ["goal.txt"] in fs.files
                      && r.value.goal == Strip(Translate(fs.files[dir + ["goal.txt"]]))
                      && RunMeta(h, fs, dir) == Ok(r.value.meta)
                      && BaseCommit(h, fs, dir, r.value.meta) == Ok(r.value.baseCommit)
                      && BundleIdOf(h, fs, dir, r.value.meta) == Ok(r.value.bundleId)
                      && ReadExtras(h, fs, dir).Ok?
                      && r.value.outputs == ReadExtras(h, fs, dir).value.outputs
                      && r.value.gitDiff == ReadExtras(h, fs, dir).value.gitDiff
                      && r.value.evaluator == ReadExtras(h, fs, dir).value.evaluator
                      && r.value.dotnetTest == ReadExtras(h, fs, dir).value.dotnetTest
                      && r.value.dotnetTestError == ReadExtras(h, fs, dir).value.dotnetTestError
                      && r.value.dotnetBuild == ReadExtras(h, fs, dir).value.dotnetBuild
                      && r.value.dotnetBuildError == ReadExtras(h, fs, dir).value.dotnetBuildError
  {
    var dir := Child(root, runId);
    if !Exists(fs, dir) then Err(FileNotFound)
    else if !Exists(fs, dir + ["goal.txt"]) then Err(FileNotFound)
    else
      var goal := ReadText(fs, dir + ["goal.txt"]);
      var meta := RunMeta(h, fs, dir);
      if goal.Err? then Err(goal.error)
      else if meta.Err? then Err(meta.error)
      else
        var commit := BaseCommit(h, fs, dir, meta.value);
        var bundleId := BundleIdOf(h, fs, dir, meta.value);
        var extras := ReadExtras(h, fs, dir);
        if commit.Err? then Err(commit.error)
        else if bundleId.Err? then Err(bundleId.error)
        else if extras.Err? then Err(extras.error)
        else
          var x := extras.value;
          Ok(RunArtifact(runId, dir, Strip(goal.value), commit.value, bundleId.value, meta.value, x.outputs,
                         x.gitDiff, x.dotnetTest, x.dotnetTestError, x.dotnetBuild, x.dotnetBuildError, x.evaluator))
  }

  /** None of the optional files of a run exists. */
  predicate NoExtras(fs: FileSystem, dir: Path) {
    && !Exists(fs, dir + ["git_diff.patch"]) && !Exists(fs, dir + ["outputs.json"])
    && !Exists(fs, dir + ["dotnet_test.txt"]) && !Exists(fs, dir + ["dotnet_test_error.txt"])
    && !Exists(fs, dir + ["dotnet_build.txt"]) && !Exists(fs, dir + ["dotnet_build_error.txt"])
    && !Exists(fs, dir + ["evaluator.json"])
  }

  /**
   A run with `goal.txt` and a non-blank `base_commit.txt` and none of the other files loads
   with an empty meta and every optional field absent.
   */
  lemma MinimalRun(h: Host, fs: FileSystem, root: Path, runId: string)
    requires var dir := Child(root, runId);
             && dir in fs.dirs && dir + ["goal.txt"] in fs.files && dir + ["base_commit.txt"] in fs.files
             && Strip(Translate(fs.files[dir + ["base_commit.txt"]])) != ""
             && !Exists(fs, dir + ["run_meta.json"]) && !Exists(fs, dir + ["bundle_id.txt"]) && NoExtras(fs, dir)
    ensures var dir := Child(root, runId);
            LoadRunArtifact(h, fs, root, runId)
              == Ok(RunArtifact(runId, dir, Strip(Translate(fs.files[dir + ["goal.txt"]])),
                                Strip(Translate(fs.files[dir + ["base_commit.txt"]])),
                                None, JObj([]), None, None, None, None, None, None, None))
  {
    var dir := Child(root, runId);
    assert Exists(fs, dir) && Exists(fs, dir + ["goal.txt"]);
    assert ReadText(fs, dir + ["goal.txt"]) == Ok(Translate(fs.files[dir + ["goal.txt"]]));
    assert RunMeta(h, fs, dir) == Ok(JObj([]));
    assert BundleIdOf(h, fs, dir, JObj([])) == Ok(None);
    assert BaseCommit(h, fs, dir, JObj([])) == Ok(Strip(Translate(fs.files[dir + ["base_commit.txt"]])));
    AbsentExtras(h, fs, dir);
  }

  lemma AbsentExtras(h: Host, fs: FileSystem, dir: Path)
    requires NoExtras(fs, dir)
    ensures ReadExtras(h, fs, dir) == Ok(Extras(None, None, None, None, None, None, None))
  {
  }
}
