/**
 The evaluation cache: one JSON file per (run id, bundle hash) under `root/evals`, holding
 the evaluation next to the key it was stored under and the time it was stored.
 */
module Cache {
  import opened Outcomes
  import opened Json
  import opened Runtime
  import opened Disk
  import opened Models

  /** `EvaluationCache._path(run_id, bundle_hash)`: `root / "evals" / bundle_hash / f"{run_id}.json"`. */
  function CachePath(root: Path, runId: string, hash: string): (r: Path)
    ensures hash != "" ==> r == root + ["evals", hash, runId + ".json"]
    ensures hash == "" ==> r == root + ["evals", runId + ".json"]
  {
    Child(Child(Child(root, "evals"), hash), runId + ".json")
  }

  /**
   `EvaluationCache.get(run_id, bundle_hash)`: `None` on a miss. A stored file is decoded and
   its `evaluation` entry parsed, or the whole dict when it has no such entry; a file that
   does not decode makes the lookup fail rather than miss.
   */
  function GetEntry(h: Host, fs: FileSystem, root: Path, runId: string, hash: string): (r: Result<Option<EvaluationResult>>)
    ensures !Exists(fs, CachePath(root, runId, hash)) ==> r == Ok(None)
    ensures var p := CachePath(root, runId, hash);
            p in fs.dirs && p !in fs.files ==> r == Err(IsADirectory)
    ensures var p := CachePath(root, runId, hash);
            p in fs.files && h.loads(Translate(fs.files[p])).None? ==> r == Err(JsonDecodeError)
    ensures var p := CachePath(root, runId, hash);
            (p in fs.files && h.loads(Translate(fs.files[p])).Some? && !h.loads(Translate(fs.files[p])).value.JObj?)
              ==> r == Err(AttributeError)
    ensures r.Ok? && r.value.Some? ==> CachePath(root, runId, hash) in fs.files
  {
    var path := CachePath(root, runId, hash);
    if !Exists(fs, path) then Ok(None)
    else
      var text :- ReadText(fs, path);
      match h.loads(text)
      case None => Err(JsonDecodeError)
      case Some(data) =>
        var evaluation :- Get(data, "evaluation", data);
        var e :- FromDict(h, evaluation);
        Ok(Some(e))
  }

  /** The object `set` stores: the key, the time, and `evaluation.to_dict()`. */
  function Payload(runId: string, hash: string, now: string, e: EvaluationResult): (r: Json)
    ensures r.JObj? && KeyList(r.fields) == ["run_id", "bundle_hash", "cached_at", "evaluation"]
  {
    JObj([("run_id", JStr(runId)), ("bundle_hash", JStr(hash)), ("cached_at", JStr(now + "Z")),
          ("evaluation", ToDict(e))])
  }

  /**
   `EvaluationCache.set(run_id, bundle_hash, evaluation)`, where `now` is
   `datetime.utcnow().isoformat()`: the parent directories are made and the entry written.
   A regular file on the way to the entry, or a directory where the entry goes, raises.
   */
  function SetEntry(h: Host, fs: FileSystem, root: Path, runId: string, hash: string, e: EvaluationResult,
                    now: string): (r: Result<FileSystem>)
    ensures var path := CachePath(root, runId, hash);
            MakeDirs(fs, Parent(path), true).Err? ==> r == Err(MakeDirs(fs, Parent(path), true).error)
    ensures var path := CachePath(root, runId, hash);
            NoFileOnPath(fs, Parent(path)) && path in fs.dirs ==> r == Err(IsADirectory)
    ensures var path := CachePath(root, runId, hash);
            r.Ok? <==> NoFileOnPath(fs, Parent(path)) && path !in fs.dirs
    ensures r.Ok? ==> r.value.files == fs.files[CachePath(root, runId, hash) := h.dumps(Payload(runId, hash, now, e))]
    ensures r.Ok? ==> fs.dirs <= r.value.dirs
    ensures r.Ok? ==> forall q :: q in r.value.dirs && q !in fs.dirs ==>
              0 < |q| < |CachePath(root, runId, hash)| && q == CachePath(root, runId, hash)[..|q|]
  {
    var path := CachePath(root, runId, hash);
    AncestorsOfParent(fs, path);
    WriteWithParents(fs, path, h.dumps(Payload(runId, hash, now, e)))
  }

  lemma PayloadWellFormed(runId: string, hash: string, now: string, e: EvaluationResult)
    requires ResultWellKeyed(e)
    ensures WellFormed(Payload(runId, hash, now, e))
  {
    ToDictWellFormed(e);
    var r := Payload(runId, hash, now, e);
    assert DistinctKeys(r.fields) by {
      assert KeyList(r.fields) == ["run_id", "bundle_hash", "cached_at", "evaluation"];
    }
  }

  /** The `evaluation` entry of a stored entry is the result's `to_dict()`. */
  lemma PayloadEvaluation(runId: string, hash: string, now: string, e: EvaluationResult)
    ensures Get(Payload(runId, hash, now, e), "evaluation", Payload(runId, hash, now, e)) == Ok(ToDict(e))
  {
    var f := Payload(runId, hash, now, e).fields;
    LookupAt(f, 3);
  }

  /**
   A stored evaluation is found again under its key, with every field the result had
   except `raw`, which becomes the stored `to_dict()`.
   */
  lemma GetAfterSet(h: Host, fs: FileSystem, root: Path, runId: string, hash: string, e: EvaluationResult,
                    now: string)
    requires JsonSound(h) && ResultWellKeyed(e)
    ensures var s := SetEntry(h, fs, root, runId, hash, e, now);
            s.Ok? ==> GetEntry(h, s.value, root, runId, hash) == Ok(Some(e.(raw := ToDict(e))))
  {
    var entry := Payload(runId, hash, now, e);
    PayloadWellFormed(runId, hash, now, e);
    assert h.loads(h.dumps(entry)) == Some(entry) && '\r' !in h.dumps(entry);
    PayloadEvaluation(runId, hash, now, e);
    FromDictToDict(h, e);
  }

  /** A store that succeeded can be repeated under the same key, and keeps only the second evaluation. */
  lemma SetOverwrites(h: Host, fs: FileSystem, root: Path, runId: string, hash: string,
                      e1: EvaluationResult, e2: EvaluationResult, now1: string, now2: string)
    requires JsonSound(h) && ResultWellKeyed(e2)
    ensures var s1 := SetEntry(h, fs, root, runId, hash, e1, now1);
            s1.Ok? ==>
              var s2 := SetEntry(h, s1.value, root, runId, hash, e2, now2);
              s2.Ok? && GetEntry(h, s2.value, root, runId, hash) == Ok(Some(e2.(raw := ToDict(e2))))
  {
    var s1 := SetEntry(h, fs, root, runId, hash, e1, now1);
    if s1.Ok? {
      var path := CachePath(root, runId, hash);
      WriteWithParentsAgain(fs, path, h.dumps(Payload(runId, hash, now1, e1)), h.dumps(Payload(runId, hash, now2, e2)));
      GetAfterSet(h, s1.value, root, runId, hash, e2, now2);
    }
  }

  /** With non-empty hashes, the file names the key it was stored under. */
  lemma PathInjective(root: Path, r1: string, h1: string, r2: string, h2: string)
    requires h1 != "" && h2 != ""
    ensures CachePath(root, r1, h1) == CachePath(root, r2, h2) ==> (r1, h1) == (r2, h2)
  {
    var p1 := CachePath(root, r1, h1);
    var p2 := CachePath(root, r2, h2);
    if p1 == p2 {
      assert p1[|root| + 1] == h1 && p2[|root| + 1] == h2;
      assert p1[|root| + 2] == r1 + ".json" && p2[|root| + 2] == r2 + ".json";
      assert r1 == (r1 + ".json")[..|r1|];
      assert r2 == (r2 + ".json")[..|r2|];
    }
  }

  /** A lookup reads nothing but what lies at its own path. */
  lemma GetEntryLocal(h: Host, fs1: FileSystem, fs2: FileSystem, root: Path, runId: string, hash: string)
    requires Exists(fs1, CachePath(root, runId, hash)) == Exists(fs2, CachePath(root, runId, hash))
    requires ReadText(fs1, CachePath(root, runId, hash)) == ReadText(fs2, CachePath(root, runId, hash))
    ensures GetEntry(h, fs1, root, runId, hash) == GetEntry(h, fs2, root, runId, hash)
  {
  }

  /**
   Storing under one key leaves the lookup under any other key as it was, as long as the
   bundle hashes are not empty (an empty hash puts the file one level higher).
   */
  lemma SetLeavesOthers(h: Host, fs: FileSystem, root: Path, runId: string, hash: string, e: EvaluationResult,
                        now: string, otherRun: string, otherHash: string)
    requires hash != "" && otherHash != "" && (otherRun, otherHash) != (runId, hash)
    ensures var s := SetEntry(h, fs, root, runId, hash, e, now);
            s.Ok? ==> GetEntry(h, s.value, root, otherRun, otherHash) == GetEntry(h, fs, root, otherRun, otherHash)
  {
    var s := SetEntry(h, fs, root, runId, hash, e, now);
    if s.Ok? {
      var fs' := s.value;
      var q := CachePath(root, otherRun, otherHash);
      PathInjective(root, runId, hash, otherRun, otherHash);
      assert q != CachePath(root, runId, hash);
      assert q in fs'.dirs <==> q in fs.dirs;
      ReadOtherSameDepth(fs, fs', CachePath(root, runId, hash), h.dumps(Payload(runId, hash, now, e)), q);
      GetEntryLocal(h, fs', fs, root, otherRun, otherHash);
    }
  }

  /** A stored file that is a bare evaluation dict, without the `evaluation` wrapper, is read as is. */
  lemma GetBareDict(h: Host, fs: FileSystem, root: Path, runId: string, hash: string, data: Fields)
    requires CachePath(root, runId, hash) in fs.files
    requires h.loads(Translate(fs.files[CachePath(root, runId, hash)])) == Some(JObj(data))
    requires !HasKey(data, "evaluation")
    ensures GetEntry(h, fs, root, runId, hash)
         == (match FromDict(h, JObj(data)) case Ok(e) => Ok(Some(e)) case Err(err) => Err(err))
  {
  }

  /** A stored file with an `evaluation` entry is read from that entry only. */
  lemma GetWrapped(h: Host, fs: FileSystem, root: Path, runId: string, hash: string, data: Fields)
    requires CachePath(root, runId, hash) in fs.files
    requires h.loads(Translate(fs.files[CachePath(root, runId, hash)])) == Some(JObj(data))
    requires HasKey(data, "evaluation")
    ensures GetEntry(h, fs, root, runId, hash)
         == (match FromDict(h, Lookup(data, "evaluation").value) case Ok(e) => Ok(Some(e)) case Err(err) => Err(err))
  {
  }
}
