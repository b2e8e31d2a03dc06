# bendover prompt optimiser core, in Dafny

This project models the deterministic core of the bendover prompt optimiser. The optimiser improves a
*bundle* of practice markdown files with GEPA, a reflective prompt-evolution search. The model covers:

- **Bundle store.** A bundle is a `practices/` directory of `*.md` files plus a `meta.json`.
  - Front matter is split from a practice file and rendered back.
  - The `Name:` line names a practice.
  - A bundle is derived from a seed by body edits.
  - The content hash and the `gen<generation>_<hash8>` id are computed.
  - Bundles are written with `exist_ok`, and the `active.json` file naming the bundle in use is read and written.
- **Evaluation results and the cache.** `EvaluationResult.to_dict` and `from_dict`, and the
  evaluation cache keyed by run id and bundle hash.
- **Evaluator client.**
  - Case-insensitive field lookup and parsing of the per-practice attribution.
  - Parsing of `evaluator.json`.
  - The command and output directory of `evaluate_bundle`, its retry tree (at most three launches)
    and its rule for degrading to a zero result.
- **Run store.** The required files, the optional files and the precedence rules of `load_run_artifact`.
- **Attribution router.** `BundleProgram` keeps one predictor per seed practice and routes evaluator
  notes to practices through an alias table. Its `forward` freezes the files that received no
  attribution and leaves the attributed ones open to mutation. The model also covers:
  - the feedback map handed to the reflection step;
  - `metric_fn`;
  - the attribution preflight with its snapshot and restore;
  - GEPA's component selector;
  - batching and the dev split.
- **Split and candidate-bundle helpers** of both revisions of `gepa_driver.py`: the current one
  under `src/promptopt/` and the older one under `promptopt/`. The older revision also contributes
  its tuple-returning `evaluate_bundle`.

## How the model is built

- `Disk` models the file system as a map from paths to file texts plus a set of directories.
  - A path is a sequence of components. `Child(p, "")` is `p`, as with pathlib.
  - Reading applies the universal-newline translation of `read_text`.
  - `MkDirs` makes every ancestor. `MakeDirs` is pathlib's `mkdir(parents=True)`: it fails with
    NotADirectoryError when a regular file lies above the path and FileExistsError when one lies
    at it, or when the directory exists without `exist_ok`.
  - `WriteFile` is `write_text`, with NotADirectoryError, IsADirectoryError and FileNotFoundError.
  - `Closed` says that every ancestor of an existing path is a directory, as on a real disk.
- `Json` is the decoded JSON value. Objects are association lists, so dict order is visible.
- `Runtime.Host` bundles the operations the model treats as oracles:
  - `hashlib.sha256(...).hexdigest()`, a 64-digit lower-case hex `Digest`;
  - `json.dumps` and `json.loads`;
  - `float()` of a string;
  - `str()` and `repr()` of non-string values;
  - `shlex.split`.

  `JsonSound(h)` states the one property the proofs assume of them: `loads` inverts `dumps` on
  well-formed values, and `dumps` writes no carriage return.
- `Outcomes` holds `Option`, and `Result` carrying the Python exception class (`PyError`) that
  escapes. The error paths of the source are modelled as `Err` values.
- `PyStr` models the string built-ins used in the core:
  - `strip` and its variants, over Python's `isspace`;
  - `split`, `splitlines`, `find` and `join`;
  - ASCII `lower` and `upper`;
  - `sorted` on strings;
  - `str(int)`.
- `Retry.Launches` is the retry tree that the evaluator client and the older driver share. It runs
  over an oracle `world(i)` that gives how launch `i` ended and the disk it left.
- Clock readings (`created_at`, `cached_at`) are parameters.

## Model

| member | source | states |
|---|---|---|
| BundleStore.ParseFrontmatter | src/promptopt/bundle_store.py:41-52 | A text that does not open with `---\n` comes back unchanged with empty front matter. The front matter returned is always stripped, and the body never starts with a newline unless the text came back unchanged. `ParseUnclosed` covers an opening fence without a closing one |
| BundleStore.ParseUnclosed | src/promptopt/bundle_store.py:41-52 | A text that opens with `---\n` but has no second fence comes back unchanged with empty front matter |
| BundleStore.ParseFenced | src/promptopt/bundle_store.py:41-52 | A text made of a fence, a fence-free part `a`, a fence and a tail parses to `strip(a)` and the tail with its leading newlines removed |
| BundleStore.ParseRender | src/promptopt/bundle_store.py:41-52 | Parsing a rendered practice gives back its stripped front matter and its body, for a stripped body and fence-free front matter (or, without front matter, a body that does not open with a fence) |
| Models.Render | src/promptopt/models.py:17-21 | Without front matter the rendering is the body itself. Otherwise it opens with a fence and ends with the closing fence, a blank line and the body |
| BundleStore.ExtractName | src/promptopt/bundle_store.py:55-64 | The name is the fallback or a non-empty stripped value |
| BundleStore.ExtractNameFirstLine | src/promptopt/bundle_store.py:55-64 | Front matter whose first line is `Name: n` names the practice `n`, whatever follows and whatever the fallback |
| BundleStore.NoNameLine | src/promptopt/bundle_store.py:55-64 | Over any list of lines, when no line has a colon and the key `name` (stripped, any case) before it, the name is the fallback |
| BundleStore.FirstNameLine | src/promptopt/bundle_store.py:55-64 | Over any list of lines, the first line with a colon and the key `name` decides: the name is the stripped text after its first colon, or the fallback when that text is empty, whatever the later lines say |
| BundleStore.ExtractNameOfLines | src/promptopt/bundle_store.py:55-64 | On a front matter made of lines without boundaries, `_extract_name` decides over exactly those lines, so `NoNameLine` and `FirstNameLine` give its result |
| BundleStore.LoadBundle | src/promptopt/bundle_store.py:67-103 | A missing bundle or `practices` directory raises FileNotFoundError. A loaded bundle is named after its directory, holds the `*.md` practices loaded one by one and the decoded `meta.json`, and carries no passthrough files. The names are those `MarkdownNames` finds (line 82), and `LoadPractices` and `LoadPractice` (lines 81-93) give each practice its file name, path, parsed front matter, stripped body and the name extracted with the stem as fallback |
| BundleStore.LoadMeta | src/promptopt/bundle_store.py:95-101 | An absent `meta.json` gives `{}`. A present one gives its decoded value, or `{}` when it does not decode |
| BundleStore.BuildFromSeed | src/promptopt/bundle_store.py:106-129 | The keys are the seed's plus the updates'. Seed practices keep name and front matter, with the update (or the old body) stripped as body. New files are named after their stem with empty front matter. Id, path and meta come from the seed, and passthrough files are dropped |
| BundleStore.BuildIdempotent | src/promptopt/bundle_store.py:106-129 | Applying the same updates twice gives the same bundle as applying them once |
| BundleStore.HashOnlyBodies | src/promptopt/bundle_store.py:132-135 | Two practice maps with the same file names and the same bodies hash alike, whatever their names and front matter |
| BundleStore.HashIgnoresBoundaries | src/promptopt/bundle_store.py:132-135 | Distinct bundles (bodies `xy`,`""` against `x`,`y`) hash alike, because the bodies are joined without a separator |
| BundleStore.HashInputPair | src/promptopt/bundle_store.py:134 | For files `a.md` and `b.md` the hashed text is the body of `a.md` followed by that of `b.md` |
| BundleStore.BundleId | src/promptopt/bundle_store.py:152 | The id starts with `gen`, ends with `_` and the first eight hash digits, and is twelve characters longer than the generation |
| BundleStore.BundleIdInjective | src/promptopt/bundle_store.py:152 | Two ids are equal exactly when the generations and the first eight hash digits are |
| BundleStore.BundleDir | src/promptopt/bundle_store.py:151-153 | The bundle directory is a direct child of the root named by the id of the practices' hash |
| BundleStore.BaseMeta | src/promptopt/bundle_store.py:164-170 | The base metadata records the id, the parent, the generation and the full hash, with distinct keys |
| BundleStore.BundleMeta | src/promptopt/bundle_store.py:164-172 | Keys the caller's metadata lacks keep the base value. With distinct caller keys, each caller key has the caller's value |
| BundleStore.BundleMetaWellFormed | src/promptopt/bundle_store.py:164-172 | Well-formed caller metadata gives well-formed recorded metadata |
| BundleStore.WithPractices | src/promptopt/bundle_store.py:149-162 | The root and the bundle directory exist afterwards. Over an existing bundle directory no file changes. A new one gains exactly the practices' renderings under `practices/`, written one by one after making that directory |
| BundleStore.WritePracticeFiles | src/promptopt/bundle_store.py:160-162 | The practice files are written exactly when none of their paths is a directory. Otherwise the call raises IsADirectoryError |
| BundleStore.Persist | src/promptopt/bundle_store.py:149-174 | An error of the root mkdir escapes. An existing bundle directory without `exist_ok` raises FileExistsError, and a regular file in its place with `exist_ok` raises NotADirectoryError. Success leaves the practice layout and then `meta.json` holding the text |
| BundleStore.PersistOutcome | src/promptopt/bundle_store.py:149-174 | On a real disk it succeeds exactly when no regular file lies on the root's path, and either the bundle directory exists as a directory with `exist_ok` and no directory named `meta.json`, or it is new and no file name is empty. Any other failure after the root is IsADirectoryError. The `practices` mkdir and the file writes are `Stage` (lines 159-162) |
| BundleStore.PersistTwice | src/promptopt/bundle_store.py:155-174 | With `exist_ok`, repeating a successful write of the same bundle and text changes nothing |
| BundleStore.WriteBundle | src/promptopt/bundle_store.py:138-176 | An error of the root mkdir escapes. An existing directory without `exist_ok` raises FileExistsError, and a regular file with the bundle's name raises NotADirectoryError. Success returns the bundle at the new directory with the given practices and the recorded metadata, and rewrites `meta.json` even over an existing bundle |
| BundleStore.WriteBundleOutcome | src/promptopt/bundle_store.py:138-176 | On a real disk the write succeeds exactly when `PersistOutcome` says for the bundle's own directory. Every failure not from the root mkdir, `exist_ok` or a file in the bundle's place is IsADirectoryError |
| BundleStore.WriteTwice | src/promptopt/bundle_store.py:155-174 | With `exist_ok` and the same clock reading, writing the same bundle a second time changes nothing and returns the same bundle |
| BundleStore.WriteFresh | src/promptopt/bundle_store.py:158-174 | On a real disk with no regular file on the root's path and no empty file name, writing into a directory that does not exist succeeds whatever `exist_ok` says. It lays out the practice files and then `meta.json` |
| BundleStore.FreshEntries | src/promptopt/bundle_store.py:158-162 | On a real disk, the fresh `practices` directory holds exactly the practices' file names |
| BundleStore.FreshFiles | src/promptopt/bundle_store.py:158-174 | After a fresh write, each practice file holds its rendering and `meta.json` holds the metadata text |
| BundleStore.FreshDirs | src/promptopt/bundle_store.py:159 | After a fresh write, the bundle directory and its `practices` directory exist |
| BundleStore.ReloadPractice | src/promptopt/bundle_store.py:83-93 | A reloadable practice loads back from its own rendering as itself, with its path set |
| BundleStore.LoadWritten | src/promptopt/bundle_store.py:67-103 | A directory laid out with reloadable practices and a `meta.json` holding `dumps(meta)` loads as exactly those practices and `meta` |
| BundleStore.LoadAfterWrite | src/promptopt/bundle_store.py:138-176 | Loading a freshly written bundle gives back the bundle `write_bundle` returned, with the practices' paths filled in |
| BundleStore.LoadFresh | src/promptopt/bundle_store.py:67-103 | Loading what a fresh write left in `root / id` gives bundle `id` with the written practices and metadata |
| BundleStore.ActiveIdOf | src/promptopt/bundle_store.py:22-31 | Undecodable text raises ValueError and a non-object raises AttributeError. A truthy `bundleId` wins, then a truthy `bundle_id`, and with neither it raises ValueError |
| BundleStore.ReadActiveBundleId | src/promptopt/bundle_store.py:12-31 | A missing file raises FileNotFoundError and a directory raises IsADirectoryError. A file is decoded and its id chosen as `ActiveIdOf` says |
| BundleStore.UpdateActiveJson | src/promptopt/bundle_store.py:34-38 | An error of the parent mkdir escapes, and a directory at the path raises IsADirectoryError. Otherwise the write succeeds: only `active.json` changes among the files, it holds the encoded payload, and the parent directories exist afterwards |
| BundleStore.PayloadEntries | src/promptopt/bundle_store.py:37 | In the payload, `bundleId` is the metadata's own when it has one, else the id given. Every other key has the metadata's value |
| BundleStore.ReadAfterUpdate | src/promptopt/bundle_store.py:12-38 | Reading `active.json` after an update decodes the payload just written |
| BundleStore.ActiveRoundTrip | src/promptopt/bundle_store.py:12-38 | With a non-empty id and metadata without `bundleId`, reading after writing gives back the id |
| BundleStore.ActiveMetadataWins | src/promptopt/bundle_store.py:27-37 | A truthy `bundleId` in the metadata replaces the id written |
| BundleStore.ActiveEmptyId | src/promptopt/bundle_store.py:27-37 | With an empty id, reading falls back to the metadata's `bundle_id`, or raises ValueError when that is not truthy |
| Models.ToDict | src/promptopt/models.py:70-81 | The dict has exactly the keys `pass`, `score`, `flags`, `notes` and `practice_attribution`, in that order |
| Models.FromDict | src/promptopt/models.py:84-97 | A non-dict raises AttributeError. A result keeps the input as `raw`, takes `pass` by truthiness and `score` through `float` (defaults False and 0.0), and turns falsy lists and a falsy attribution into empty ones |
| Models.FromDictEmpty | src/promptopt/models.py:84-97 | `from_dict({})` is the failed zero result with every list and map empty |
| Models.FromDictToDict | src/promptopt/models.py:70-97 | `from_dict(to_dict(e))` gives back every field of `e`; only `raw` becomes the dict itself |
| Models.AttributionRoundTrip | src/promptopt/models.py:91-95 | The attribution part of `from_dict` inverts the attribution part of `to_dict` |
| Models.NoteListsOfJson | src/promptopt/models.py:94 | Reading back encoded notes-by-practice gives the same entries in the same order |
| Models.ToDictWellFormed | src/promptopt/models.py:70-81 | A result without repeated practice keys encodes to a value with distinct keys at every level |
| Cache.CachePath | src/promptopt/cache.py:14-15 | The entry lives at `root/evals/<hash>/<run>.json`. An empty hash drops that component, as pathlib does |
| Cache.GetEntry | src/promptopt/cache.py:17-29 | A missing file is a miss. A directory raises IsADirectoryError, corrupt JSON raises JSONDecodeError (no miss), and a decoded non-object raises AttributeError. A hit comes from a file at the key's path |
| Cache.GetBareDict | src/promptopt/cache.py:27-29 | A stored dict without an `evaluation` entry is read as the evaluation itself |
| Cache.GetWrapped | src/promptopt/cache.py:27-29 | A stored dict with an `evaluation` entry is read from that entry only |
| Cache.Payload | src/promptopt/cache.py:34-39 | The stored object has keys `run_id`, `bundle_hash`, `cached_at` and `evaluation`, in that order |
| Cache.PayloadWellFormed | src/promptopt/cache.py:34-39 | The stored object of a well-keyed result is well formed |
| Cache.SetEntry | src/promptopt/cache.py:31-41 | An error of the parent mkdir escapes, and a directory at the entry's path raises IsADirectoryError. Otherwise only the key's file changes among the files, and it holds the encoded payload. The only directories added are ancestors of that file |
| Cache.GetAfterSet | src/promptopt/cache.py:17-41 | Getting after setting gives back the stored evaluation field for field; `raw` is its `to_dict()` |
| Cache.SetOverwrites | src/promptopt/cache.py:31-41 | Of two sets under one key, a get sees only the second |
| Cache.PathInjective | src/promptopt/cache.py:14-15 | With non-empty hashes, distinct keys have distinct paths |
| Cache.SetLeavesOthers | src/promptopt/cache.py:14-41 | Setting one key does not change what a get of any other key returns |
| Cache.GetEntryLocal | src/promptopt/cache.py:17-29 | A get reads nothing but its own path |
| EvaluatorClient.FoldedIndex | src/promptopt/evaluator_client.py:16-18 | The index found is that of the first entry whose lower-cased key matches, or the end when none does |
| EvaluatorClient.GetCi | src/promptopt/evaluator_client.py:11-19 | The exact key wins, then `key.lower()`, then `key.upper()`. With no case-insensitive match the result is the default. Otherwise it is always the value of a case-insensitively matching key |
| EvaluatorClient.GetCiUnique | src/promptopt/evaluator_client.py:11-19 | When lower-cased keys are distinct, the lookup returns the value of the one matching key |
| EvaluatorClient.GetCiAny | src/promptopt/evaluator_client.py:11-19 | On a dict it is `GetCi`. On a non-dict it raises: TypeError for scalars, or for an array or string holding the key, else AttributeError |
| EvaluatorClient.NotesNormalized | src/promptopt/evaluator_client.py:28-37 | With distinct keys, the rebuilt dict holds the normalised entries in their original order. `NormalizedEntries` and `NoteTexts` (lines 28-33) turn a list into its elements as text and any other value into one note |
| EvaluatorClient.UpdateFresh | src/promptopt/evaluator_client.py:32-36 | Filling a dict with entries whose keys are distinct and new appends them in order |
| EvaluatorClient.DictOfPairList | src/promptopt/evaluator_client.py:27-29 | A `notes_by_practice` written as a list of `[key, value]` pairs with distinct keys reads as those pairs in order |
| EvaluatorClient.DictStopsAtBadPair | src/promptopt/evaluator_client.py:29 | The first list element that does not unpack into a pair decides the error `dict(...)` raises |
| EvaluatorClient.AttributionOf | src/promptopt/evaluator_client.py:26-38 | A block that is not a dict raises what the lookup raises. A parsed block's selected and offending lists are its list entries (empty when falsy), and its notes are the normalised `notes_by_practice` entries |
| EvaluatorClient.ParsePracticeAttribution | src/promptopt/evaluator_client.py:22-38 | A missing or falsy block is the empty attribution. A truthy block that is not a dict raises |
| EvaluatorClient.ResultFields | src/promptopt/evaluator_client.py:46-57 | A score `float` rejects raises that error. A parsed result keeps the input as `raw`, takes `pass` by truthiness and `score` as a float (case-insensitive keys, defaults False and 0.0), and takes flags, notes and attribution as parsed |
| EvaluatorClient.NullScoreRaises | src/promptopt/evaluator_client.py:45-49 | A `score` of null reaches `float()` and raises TypeError |
| EvaluatorClient.ParseEvaluatorJson | src/promptopt/evaluator_client.py:41-45 | A missing file raises FileNotFoundError, a directory raises IsADirectoryError, and a path below a regular file raises NotADirectoryError. A file is read and parsed by `ParseEvaluatorText` (lines 43-57) |
| EvaluatorClient.ParseWritten | src/promptopt/evaluator_client.py:41-57 | The text `json.dumps(e.to_dict())` parses back as `e` with that dict as `raw`, for any result whose notes have distinct keys |
| EvaluatorClient.ParseJsonWritten | src/promptopt/evaluator_client.py:41-57 | A file holding `json.dumps(e.to_dict())` is read and parsed back as `e` |
| EvaluatorClient.AttributionOfWritten | src/promptopt/evaluator_client.py:22-38 | The attribution block `to_dict` writes reads back as the attribution it came from |
| EvaluatorClient.NormalizedNotes | src/promptopt/evaluator_client.py:28-33 | Notes stored as lists of strings normalise back into the same entries |
| EvaluatorClient.OutDir | src/promptopt/evaluator_client.py:76-78 | The output directory is `log_dir/<bundle dir name>/<task dir name>` |
| EvaluatorClient.Command | src/promptopt/evaluator_client.py:81-88 | An unsplittable command raises ValueError. Otherwise the arguments are the split command, then `--bundle`, `--task` and `--out` followed by the bundle path, task path and exactly the output directory |
| Retry.Launches | src/promptopt/evaluator_client.py:90-107 | There are between one and three launches, as follows. A launch that cannot start ends them with its exception. Exit 0 first gives one launch, and so does a failure that left the artifact. A failure without it gives two. A timeout then exit 0 gives two. Two timeouts give two launches and no disk to read. Three launches happen exactly after a timeout and then a failure without artifact |
| EvaluatorClient.Conclude | src/promptopt/evaluator_client.py:109-116 | No disk or no artifact gives the zero result. A parsed artifact is returned, a ValueError or JSONDecodeError degrades to the zero result, and any other error escapes. No ValueError ever escapes |
| EvaluatorClient.Attempts | src/promptopt/evaluator_client.py:90-116 | One to three launches. A launch that cannot start raises its error. Two timeouts give the zero result after two launches. Exit 0, or a failure that left the artifact, gives one launch and the artifact's reading. A failure without it is read after the second launch, and a timeout then exit 0 after two. A timeout then a failure gives two launches if that left the artifact and three if not, and the last launch's disk is read. No ValueError escapes |
| EvaluatorClient.EvaluateBundle | src/promptopt/evaluator_client.py:60-116 | A failing `out_dir.mkdir` raises its error, and a command `shlex` rejects raises ValueError, both before any launch. Otherwise the command is as `Command` says, and the launches and result are as `Attempts` says on the artifact in the output directory |
| RunStore.OptionalText | src/promptopt/run_store.py:53-76 | An absent file gives None and a file gives its text. A directory raises IsADirectoryError |
| RunStore.OptionalJson | src/promptopt/run_store.py:78-84 | An absent file gives None, a file gives its decoded value or None when it does not decode, and a directory raises |
| RunStore.RunMeta | src/promptopt/run_store.py:27-33 | An absent or malformed `run_meta.json` is `{}`. Otherwise it is the decoded value |
| RunStore.BaseCommit | src/promptopt/run_store.py:35-44 | `base_commit.txt`, stripped, takes precedence over the meta's `base_commit`. An empty result raises FileNotFoundError even when the meta has a value, and a non-dict meta raises AttributeError. A result is never empty |
| RunStore.BundleIdOf | src/promptopt/run_store.py:46-51 | `bundle_id.txt`, stripped, takes precedence. A blank file gives None with no fallback to the meta. Without the file a truthy meta `bundle_id` is used as text |
| RunStore.Outputs | src/promptopt/run_store.py:56-64 | `outputs.json` is kept only when it decodes to an object, with values as text. Absent, malformed or non-object files give None. `StringPairs` (lines 59-62) keeps each key and position with its value as text |
| RunStore.ReadExtras | src/promptopt/run_store.py:53-84 | Each optional file is read by its own rule: diff and dotnet logs as optional text, outputs as above, `evaluator.json` as optional JSON |
| RunStore.LoadRunArtifact | src/promptopt/run_store.py:9-100 | A missing run directory or `goal.txt` raises FileNotFoundError. A loaded run has the given id and directory and the stripped goal. Its meta, base commit, bundle id, diff, outputs, the four dotnet logs and `evaluator.json` follow the rules above |
| RunStore.AbsentExtras | src/promptopt/run_store.py:53-84 | With no optional file present, every optional field is None |
| RunStore.MinimalRun | src/promptopt/run_store.py:9-100 | A run with only `goal.txt` and a non-blank `base_commit.txt` loads with both stripped and every other field at its default |
| Router.PredNameInjective | src/promptopt/run_gepa.py:348-351 | Distinct predictor indices give distinct attribute names |
| Router.RegisterKey | src/promptopt/run_gepa.py:367-370 | An empty key is ignored, an existing key keeps its file, and a new key gets the file |
| Router.RegisterAll | src/promptopt/run_gepa.py:353-360 | Afterwards the keys are the old ones plus the non-empty given ones. Old keys keep their files and new keys get the file registered |
| Router.RegisterThree | src/promptopt/run_gepa.py:355-360 | Registering three keys as a list is registering them one after another |
| Router.FirstOwner | src/promptopt/run_gepa.py:353-360 | The owner found is the first predictor whose alias list holds the key, or none when no list does |
| Router.Table | src/promptopt/run_gepa.py:353-360 | A key is in the table exactly when some predictor owns it, and it maps to the first owner's file |
| Router.AliasKeyIsLowerStrip | src/promptopt/run_gepa.py:368 | The alias key is `alias.strip().lower()` |
| Router.AliasesTable | src/promptopt/run_gepa.py:353-360 | Registering the predictors in order builds the first-owner table of their alias lists |
| Router.Init | src/promptopt/run_gepa.py:326-360 | One predictor per seed practice in dict order. Every seed file is mutable and frozen at its seed body, and the alias table is built from the predictors |
| Router.InitValid | src/promptopt/run_gepa.py:326-360 | A program built from a well-keyed seed is valid: predictors edit each seed file once and every alias resolves to a seed file |
| Router.InitFiles | src/promptopt/run_gepa.py:343-351 | The predictors of a new program edit every seed file exactly once |
| Router.ResolveInSeed | src/promptopt/run_gepa.py:372-373 | Every resolved name is a seed practice file |
| Router.ResolveIsFirstOwner | src/promptopt/run_gepa.py:353-373 | A name resolves to the file of the first predictor whose name, file name or stem has the same key. `Resolve` (lines 372-373) is the lookup in the alias table |
| Router.TargetsOf | src/promptopt/run_gepa.py:384-390 | A file is hit exactly when some resolution found it and it is non-empty. The resolutions are those of `Routes` (lines 384-389), position by position |
| Router.ExtractTargeted | src/promptopt/run_gepa.py:375-390 | Empty `notes_by_practice` targets nothing, whatever the offending list says |
| Router.TargetedIff | src/promptopt/run_gepa.py:375-390 | A file is targeted exactly when some `notes_by_practice` key resolves to it. Unresolved keys are dropped |
| Router.TargetedInSeed | src/promptopt/run_gepa.py:375-390 | Targeted files are seed practice files |
| Router.TargetedByNoteKeys | src/promptopt/run_gepa.py:375-390 | Only the keys of `notes_by_practice` decide the targeted files |
| Router.Collect | src/promptopt/run_gepa.py:392-396 | The collected files are the union of the files each run targets |
| Router.CollectInSeed | src/promptopt/run_gepa.py:392-396 | The collected files are seed practice files |
| Router.UpdatesUpTo | src/promptopt/run_gepa.py:398-406 | After visiting `n` predictors the updates have their files as keys, each with that predictor's contribution |
| Router.CurrentUpdates | src/promptopt/run_gepa.py:398-406 | The updates have every predictor's file as key. A mutable file gets the predictor's instructions and a frozen one gets its frozen text |
| Router.UpdatesBySeed | src/promptopt/run_gepa.py:398-406 | The update keys are exactly the seed file names. A mutable file takes its predictor's instructions, and any other file its frozen text or seed body |
| Router.FrozenIgnoresInstructions | src/promptopt/run_gepa.py:398-406 | A file that is not mutable gets the same update whatever the instructions are |
| Router.GatherTagged | src/promptopt/run_gepa.py:540-547 | A gathered note is the run tag followed by a note of an entry that resolves to the file, and every such note is gathered |
| Router.RunNotesTagged | src/promptopt/run_gepa.py:540-547 | One run's notes for a file are exactly its tagged notes of entries resolving to that file |
| Router.NotesForTagged | src/promptopt/run_gepa.py:540-547 | A file's notes are exactly the union of every run's tagged notes for it |
| Router.FeedbackMap | src/promptopt/run_gepa.py:535-568 | A predictor's feedback exists exactly when its file is targeted. It is the evaluation summary followed by that file's tagged notes, and nothing targeted gives no feedback. It is built from `Summary` (lines 548-556), one line per run in order, and from the per-predictor `Blocks` and `PredEntries` (lines 557-568) |
| Router.NormalizeRunIds | src/promptopt/run_gepa.py:362-365 | A list is kept as given. A string becomes its comma-split pieces that are non-empty, each comma-free, and nothing else |
| Router.SplitPiecesCommaFree | src/promptopt/run_gepa.py:364 | No piece of an unlimited comma split holds a comma |
| Router.LastPieceCommaFree | src/promptopt/run_gepa.py:364 | The last piece of an unlimited comma split holds no comma |
| Router.NonEmpty | src/promptopt/run_gepa.py:364 | An element is kept exactly when it is a non-empty element of the input |
| Router.NonEmptyAppend | src/promptopt/run_gepa.py:364 | The filter distributes over concatenation, so the kept pieces stay in input order |
| Router.NonEmptyKeepsAll | src/promptopt/run_gepa.py:364 | Pieces that are all non-empty come out unchanged |
| Router.SplitJoinComma | src/promptopt/run_gepa.py:364 | Comma-free ids joined with commas split back into exactly those ids |
| Router.NormalizeJoined | src/promptopt/run_gepa.py:362-365 | Non-empty, comma-free run ids joined with commas normalise back to the same ids in the same order |
| Router.EvaluateAll | src/promptopt/run_gepa.py:481-503 | Success gives one evaluation per run, in batch order. An error is that of the first run whose evaluation raises |
| Router.SumBounds | src/promptopt/run_gepa.py:508 | Scores between two bounds sum to between the count times each bound |
| Router.Conclude | src/promptopt/run_gepa.py:505-533 | The prediction has the mean score, all notes joined by newlines and the feedback map of the collected files. The program moves to the next state of the collected files |
| Router.Forward | src/promptopt/run_gepa.py:455-533 | No runs gives the `No runs provided` prediction and leaves the program alone. A raising evaluation escapes, and a run missing from the store raises KeyError. Otherwise it concludes on the current updates. Only the mutation state changes |
| Router.ForwardValid | src/promptopt/run_gepa.py:455-533 | A forward keeps the program valid |
| Router.ForwardFreezes | src/promptopt/run_gepa.py:509-526 | After a forward the mutable files are the collected ones, all seed files. A collected file freezes this round's update and takes new instructions next time. Any other file reverts to its earlier frozen text or seed body. The transition is `NextState` (lines 523-526) |
| Router.FreezeTargeted | src/promptopt/run_gepa.py:523-526 | A targeted file freezes this round's update and takes new instructions next time |
| Router.RevertUntargeted | src/promptopt/run_gepa.py:523-526 | An untargeted file goes back to its earlier frozen text, or its seed body |
| Router.ForwardFeedbackKeys | src/promptopt/run_gepa.py:509-512 | A predictor gets feedback exactly when some run targets its file |
| Router.ForwardWithoutAttribution | src/promptopt/run_gepa.py:509-526 | When no run attributes notes, every file is frozen at its earlier text and no predictor gets feedback |
| Router.NothingTargeted | src/promptopt/run_gepa.py:523-526 | With nothing targeted, the frozen texts stay and nothing is mutable |
| Router.ForwardScoreBounds | src/promptopt/run_gepa.py:508 | The mean score lies within the bounds of the runs' scores |
| Router.RestoreAfterForward | src/promptopt/run_gepa.py:411-418 | Restoring a snapshot after any successful forward gives back the program the snapshot was taken of. `Restore` (lines 415-418) replaces only the mutation state |
| RunGepa.BatchRunIds | src/promptopt/run_gepa.py:707-717 | An explicit None raises TypeError and a missing entry gives no ids. A list is kept, and a string gives exactly its non-empty comma-split pieces, each comma-free |
| RunGepa.BatchRunIdsStable | src/promptopt/run_gepa.py:707-717 | `forward` keeps the ids it is handed as they are |
| RunGepa.Preflight | src/promptopt/run_gepa.py:760-781 | The program always comes back as it was. An empty trainset raises ValueError, and an error of the forward escapes. Otherwise the preflight passes exactly when some predictor got feedback, and raises RuntimeError when none did |
| RunGepa.PreflightPasses | src/promptopt/run_gepa.py:760-781 | The preflight passes exactly when the first example has runs, they all evaluate and are all in the store, and some run's notes target some predictor's file |
| RunGepa.PreflightOnForward | src/promptopt/run_gepa.py:760-781 | The preflight passes exactly when the forward succeeds with non-empty feedback |
| RunGepa.ForwardGivesFeedback | src/promptopt/run_gepa.py:455-568 | A forward gives some predictor feedback exactly when the batch is non-empty, every run evaluates and is in the store, and some run targets a predictor's file |
| RunGepa.FeedbackNonEmpty | src/promptopt/run_gepa.py:509-568 | The concluded feedback is non-empty exactly when some run targets some predictor's file |
| RunGepa.FeedbackMapNonEmpty | src/promptopt/run_gepa.py:535-568 | The feedback map is non-empty exactly when some predictor's file is targeted |
| RunGepa.MetricFn | src/promptopt/run_gepa.py:589-603 | The score is the prediction's. A non-empty predictor name gets feedback: its own entry, or the fixed no-feedback text when it has none |
| RunGepa.MetricAfterForward | src/promptopt/run_gepa.py:589-603 | After a forward, a predictor's metric has the mean score and, as feedback, its block when its file was collected, else the no-feedback text |
| RunGepa.FeedbackTargets | src/promptopt/run_gepa.py:615-626 | The targets are the candidate's names that some trajectory's feedback mentions |
| RunGepa.Keep | src/promptopt/run_gepa.py:627-629 | Filtering keeps exactly the elements that pass, each from the input |
| RunGepa.KeepAppend | src/promptopt/run_gepa.py:627-629 | Filtering distributes over concatenation, so order is kept |
| RunGepa.KeepAll | src/promptopt/run_gepa.py:627-629 | A list whose every element passes comes out unchanged |
| RunGepa.SelectComponents | src/promptopt/run_gepa.py:606-639 | With feedback targets, it returns them in predictor order and keeps the state. Otherwise the candidate's counter picks one predictor and moves on modulo their number, and a bad index or no predictors raises |
| RunGepa.RoundRobinCycles | src/promptopt/run_gepa.py:631-639 | The `k`-th fallback selection picks the predictor `k` places after the starting one, modulo their number |
| RunGepa.RoundRobinCounter | src/promptopt/run_gepa.py:631-639 | After `k` fallback selections the counter has moved on by `k` modulo the number of predictors |
| RunGepa.SelectStep | src/promptopt/run_gepa.py:631-639 | One fallback selection picks the counter's predictor and advances the counter by one, modulo the number of predictors. The pick goes through `PyIndex` (lines 631-639), Python indexing with negative indices counted from the end |
| RunGepa.BuildBatches | src/promptopt/run_gepa.py:681-696 | Empty input gives no batch, and a size of at most 0 or at least the length gives one batch. The batches flatten to the input, none is empty, none exceeds the size, and all but the last have exactly the size |
| RunGepa.SplitDevset | src/promptopt/run_gepa.py:699-704 | The parts concatenate to the input, and the dev part has one run exactly when there are at least two |
| GepaDriver.Tasks | src/promptopt/gepa_driver.py:17-23 | Each entry is a stripped, non-empty line, and there are never more entries than lines |
| GepaDriver.TasksCons | src/promptopt/gepa_driver.py:17-23 | The first line adds its stripped text when that is not blank, ahead of the tasks of the rest |
| GepaDriver.TasksAppend | src/promptopt/gepa_driver.py:17-23 | The tasks of two runs of lines are those of the first followed by those of the second |
| GepaDriver.LoadSplit | src/promptopt/gepa_driver.py:9-23 | It succeeds exactly on a file. A missing file raises FileNotFoundError and a directory raises IsADirectoryError. The tasks are those of the newline-separated pieces of the translated text |
| GepaDriver.TasksOfTasks | src/promptopt/gepa_driver.py:17-23 | Lines that already are tasks come out unchanged |
| GepaDriver.TasksTrailingBlank | src/promptopt/gepa_driver.py:17-23 | A final blank line adds no task |
| GepaDriver.SplitJoinLines | src/promptopt/gepa_driver.py:19 | Newline-free lines joined by newlines split back into themselves |
| GepaDriver.LoadSplitRoundTrip | src/promptopt/gepa_driver.py:9-23 | Tasks written one per line, with or without a final newline, load back as the same tasks in the same order |
| GepaDriver.ContentHashIsBundleHash | src/promptopt/gepa_driver.py:37-40 | The candidate hash is the bundle store's hash of practices whose bodies are the new contents |
| GepaDriver.CandidateIdInjective | src/promptopt/gepa_driver.py:42 | Two candidate ids agree exactly when the generations print alike and the hashes share eight digits |
| GepaDriver.MergeFrontmatterBody | src/promptopt/gepa_driver.py:121-130 | A text that does not open with a fence is replaced by the new body. The result always ends with the new body |
| GepaDriver.MergeFenced | src/promptopt/gepa_driver.py:121-130 | A fenced original keeps its front matter verbatim, then the closing fence, a blank line and the new body |
| GepaDriver.MergeUnclosed | src/promptopt/gepa_driver.py:125-130 | An opening fence that is never closed is replaced by the new body |
| GepaDriver.MergeThenParse | src/promptopt/gepa_driver.py:121-130 | The bundle store parses a merged file as the original front matter, stripped, and the new body without leading newlines |
| GepaDriver.MergeRepeated | src/promptopt/gepa_driver.py:121-130 | Merging twice keeps the seed's front matter and only the latest body |
| GepaDriver.SeedNames | src/promptopt/gepa_driver.py:59-62 | The copied names are exactly the regular files in an existing seed `practices` directory |
| GepaDriver.CandidateMeta | src/promptopt/gepa_driver.py:83-89 | The metadata records id, parent, generation as given, creation time and full hash, in that order |
| GepaDriver.Existing | src/promptopt/gepa_driver.py:45-52 | Without `exist_ok` it raises FileExistsError. With it, the stored metadata or `{}` when absent comes back, and a directory in its place raises |
| GepaDriver.CreateCandidateBundle | src/promptopt/gepa_driver.py:25-93 | The id is the candidate id and the bundle sits at `root / id`. An existing directory is reused or refused as `Existing` says, with the disk untouched. For a new one an error of the `practices` mkdir escapes, any later failure is IsADirectoryError, and success holds the seed copies, the new files and the metadata |
| GepaDriver.Build | src/promptopt/gepa_driver.py:55-91 | An error of the `practices` mkdir escapes. The only later failure is IsADirectoryError, and success lays out the copies, the new files and `meta.json` |
| GepaDriver.CreateFreshOutcome | src/promptopt/gepa_driver.py:54-56 | On a real disk the `practices` mkdir of a new candidate succeeds exactly when no regular file lies on the root's path, and raises NotADirectoryError otherwise. It makes no directory inside `practices` and leaves the seed's files as they were |
| GepaDriver.BuildOutcome | src/promptopt/gepa_driver.py:55-91 | On a real disk, building a new candidate succeeds exactly when no regular file lies on the root's path and no seed file has the empty name. NotADirectoryError comes from a file on the path, and every other failure is IsADirectoryError |
| GepaDriver.CreateOutcome | src/promptopt/gepa_driver.py:45-93 | On a real disk without the candidate, creation succeeds exactly when `BuildOutcome` says, with the same errors |
| GepaDriver.CreateContents | src/promptopt/gepa_driver.py:55-93 | A successful creation lays out the seed's and the edited files, and the metadata records the seed directory's name as parent, the generation and the hash |
| GepaDriver.FreshEntries | src/promptopt/gepa_driver.py:55-80 | On a real disk the new `practices` directory holds exactly the seed's files and the edited files |
| GepaDriver.FreshConfined | src/promptopt/gepa_driver.py:55-91 | `meta.json` holds the metadata text, and no file outside the new bundle directory changes |
| GepaDriver.CreateFresh | src/promptopt/gepa_driver.py:45-93 | On a real disk without the candidate, creation succeeds exactly when no regular file lies on the root's path (else NotADirectoryError) and no seed file has the empty name (else IsADirectoryError). It lays out the seed's and the edited files, and the metadata records the seed directory's name as parent, the generation and the hash |
| GepaDriver.CreateKeepsFrontmatter | src/promptopt/gepa_driver.py:58-71 | An edited seed file keeps its front matter before the new body, and an unedited one is copied as read. The writes are `SeedWrites` (lines 58-71) and `NewWrites` (lines 75-80) |
| GepaDriver.CreateTwice | src/promptopt/gepa_driver.py:45-52 | Creating again is refused without `exist_ok`. With it, the disk and the metadata are as the first creation made them |
| GepaDriver.Reopen | src/promptopt/gepa_driver.py:45-52 | Over an existing candidate, creation is refused without `exist_ok`. With it, creation returns the stored metadata and leaves the disk untouched |
| LegacyGepaDriver.CreateCandidateBundle | promptopt/gepa_driver.py:25-72 | The id and the existing-directory handling are the current driver's. For a new bundle an error of the `practices` mkdir escapes, any later failure is IsADirectoryError, and success holds exactly the given files and metadata naming the seed id as parent |
| LegacyGepaDriver.Build | promptopt/gepa_driver.py:53-70 | An error of the `practices` mkdir escapes. The only later failure is IsADirectoryError, and success writes the given files verbatim and `meta.json` |
| LegacyGepaDriver.BuildOutcome | promptopt/gepa_driver.py:53-70 | On a real disk, building a new bundle succeeds exactly when no regular file lies on the root's path (else NotADirectoryError) and no file name is empty (else IsADirectoryError) |
| LegacyGepaDriver.FreshContents | promptopt/gepa_driver.py:53-70 | A new bundle directory holds exactly the given files in `practices`, with their contents verbatim, and `meta.json` holds the metadata text. The file loop is `Written` (lines 57-59) |
| LegacyGepaDriver.CreateFresh | promptopt/gepa_driver.py:43-72 | On a real disk without the candidate, creation succeeds exactly when no regular file lies on the root's path (else NotADirectoryError) and no file name is empty (else IsADirectoryError). The `practices` directory then holds exactly the given files with their contents verbatim, and the metadata records the parent id and the generation |
| LegacyGepaDriver.CreateTwice | promptopt/gepa_driver.py:43-51 | Creating again is refused without `exist_ok`. With it, the disk and the metadata are as the first creation made them |
| LegacyGepaDriver.Reopen | promptopt/gepa_driver.py:43-51 | Over an existing candidate, creation is refused without `exist_ok`, and with it returns the stored metadata |
| LegacyGepaDriver.AgreesWithoutSeed | promptopt/gepa_driver.py:25-72 | With a seed that has no `practices` directory, the current driver builds exactly what this revision builds from the seed's name |
| LegacyGepaDriver.BuildsAgree | promptopt/gepa_driver.py:53-70 | When the seed contributes no file and no edited file exists, both revisions' disk work gives the same outcome |
| LegacyGepaDriver.FreshAgrees | promptopt/gepa_driver.py:53-70 | When the seed contributes no file and no edited file exists, both revisions leave the same disk |
| LegacyGepaDriver.Outcome | promptopt/gepa_driver.py:130-139 | No disk or no artifact gives `(False, 0.0)`. The only errors that escape are a directory in its place, a decoded non-object and a score of the wrong type |
| LegacyGepaDriver.Fields | promptopt/gepa_driver.py:134-137 | Only AttributeError or TypeError escape the field reading |
| LegacyGepaDriver.OutcomeCases | promptopt/gepa_driver.py:130-139 | The pair is `pass` as stored and `score` as a float, with exact-case keys. Undecodable JSON or a rejected score gives `(False, 0.0)`, and a directory, a non-object or a mistyped score raises |
| LegacyGepaDriver.OutcomeOfWritten | promptopt/gepa_driver.py:130-135 | An artifact holding an encoded `pass` and numeric `score` reads back as exactly that pair |
| LegacyGepaDriver.Command | promptopt/gepa_driver.py:85-97 | The arguments are the command split on whitespace, then `--bundle`, `--task` and `--out` with the output directory `log_dir/<bundle name>/<task name>` |
| LegacyGepaDriver.Attempts | promptopt/gepa_driver.py:107-139 | Launches stay between one and three. Two timeouts give `(False, 0.0)` after two launches, and a timeout then exit 0 gives two launches. Exit 0, or a failure that left the artifact, gives one launch read from its disk, and a failure without it is read after the second. A timeout then a failure gives two launches if that left the artifact and three if not. A launch that cannot start raises its error, and otherwise only IsADirectory, AttributeError or TypeError escapes |
| LegacyGepaDriver.EvaluateBundle | promptopt/gepa_driver.py:74-139 | The command is as `Command` says, and the launches and verdict are as `Attempts` says on the artifact in the output directory |
| PyStr.Strip | src/promptopt/bundle_store.py:50 | `str.strip()`: the result has no whitespace at either end, and what was removed at each end is all whitespace |
| PyStr.Split | src/promptopt/bundle_store.py:46 | `str.split(sep, maxsplit)`: at most `maxsplit + 1` pieces for a non-negative limit, the first before the first separator, and rejoining them gives the input |
| PyStr.SplitLines | src/promptopt/bundle_store.py:57 | `str.splitlines()`: no line holds a boundary, and only the empty text has no lines. `SplitLinesJoin` and `SplitLinesTerminated` state the lines themselves |
| PyStr.SplitLinesCons | src/promptopt/bundle_store.py:57 | A line without boundaries ended by `\n` is the first line, ahead of the lines of the rest |
| PyStr.SplitLinesOne | src/promptopt/bundle_store.py:57 | A non-empty text without boundaries is one line |
| PyStr.SplitLinesJoin | src/promptopt/bundle_store.py:57 | Lines without boundaries joined by `\n` split back into the same lines in the same order, when the last is not empty |
| PyStr.SplitLinesTerminated | src/promptopt/bundle_store.py:57 | Lines without boundaries, each ended by `\n`, split back into the same lines in the same order |
| PyStr.SplitWhitespaceWords | promptopt/gepa_driver.py:92 | `str.split()`: every piece is a non-empty word without whitespace |
| PyStr.SortedElems | src/promptopt/bundle_store.py:134 | `sorted()` of a set of strings: strictly ascending and holding exactly the set's elements |
| PyStr.AscendingUnique | src/promptopt/bundle_store.py:134 | Only one ascending sequence holds a given set of strings |
| PyStr.LowerAbsorbs | src/promptopt/evaluator_client.py:16-18 | Lowering ignores an earlier lowering or upper-casing |
| Json.Put | src/promptopt/evaluator_client.py:32-36 | `d[k] = v`: the key gets the value in place or at the end, and every other key keeps its value |
| Json.UpdateOverrides | src/promptopt/bundle_store.py:37 | In `{**d, **extra}` with distinct keys in `extra`, every key of `extra` takes its value |
| Runtime.Float | src/promptopt/models.py:88 | `float(v)`: numbers convert exactly. A ValueError comes exactly from a string that does not parse, and anything else not convertible raises TypeError |
| Runtime.StringList | src/promptopt/models.py:89 | `list(v)`: a list of strings is kept, a dict gives its keys, and a scalar raises TypeError |
| Runtime.PairOf | src/promptopt/evaluator_client.py:29 | One element unpacked by `dict(...)`: a two-character string, a two-item list with a string key, or a two-key dict unpacks. Any other length raises ValueError, and a number, boolean, null or unhashable key raises TypeError. Only a list whose key is a number, boolean or null is `Unmodelled` |
| Runtime.FirstBad | src/promptopt/evaluator_client.py:29 | The index found is that of the first element that does not unpack into a pair, or the length when every element does |
| Runtime.DictFrom | src/promptopt/evaluator_client.py:29 | The dict is built exactly when every element unpacks. Otherwise the error is that of the first element that does not |
| Runtime.DictItems | src/promptopt/evaluator_client.py:29 | `dict(v)`: a dict is kept, an empty string gives `{}`, a non-empty string raises ValueError, a list is built pair by pair, and a number, boolean or null raises TypeError |
| Disk.Translate | src/promptopt/bundle_store.py:83 | Universal-newline reading leaves no carriage return, and changes nothing in a text without one |
| PyStr.StripIdempotent | src/promptopt/bundle_store.py:91 | Stripping a stripped text changes nothing |
| Router.SortedOrder | src/promptopt/bundle_store.py:82 | The sorted file names that `load_bundle` visits are a dict order of the practices: each file once, and nothing else |
| Disk.ReadText | src/promptopt/run_store.py:24 | `read_text()`: a file reads as its translated text, a directory raises IsADirectoryError, a missing path below a regular file NotADirectoryError, and any other missing path FileNotFoundError |
| Disk.MkDirs | src/promptopt/bundle_store.py:149 | The directory and every ancestor exist afterwards, and no file changes. This is the effect of a mkdir that `MakeDirs` lets through |
| Disk.MakeDirs | src/promptopt/bundle_store.py:149 | `mkdir(parents=True, exist_ok=...)`: it succeeds exactly when no regular file lies on the path and, without `exist_ok`, the directory is new. A file above the path raises NotADirectoryError, and any other failure is FileExistsError |
| Disk.WriteFile | src/promptopt/bundle_store.py:162 | `write_text`: it succeeds exactly when no regular file lies above the path, the parent is a directory and the path is not a directory. The errors are NotADirectoryError, IsADirectoryError and FileNotFoundError, in that order |
| Disk.WriteWithParents | src/promptopt/cache.py:33-41 | `path.parent.mkdir(parents=True, exist_ok=True)` then `write_text`: the mkdir's error escapes. With no regular file on the parent's path, a directory at the path raises IsADirectoryError, and otherwise the parents are made and the file is written |
| Disk.WriteWithParentsAgain | src/promptopt/cache.py:33-41 | A write that succeeded can be repeated at the same path with any text |

## Left out

- Subprocesses, timeouts and the clock are not executed. Each launch is an oracle entry saying how
  it ended and which disk it left; `created_at`, `cached_at` and the like are parameters.
- SHA-256 (FIPS 180-4), JSON encoding and decoding, `float()` of strings, `repr`/`str` of numbers,
  and `shlex.split` are oracles in `Runtime.Host`, and scores are `real`.
- The disk on which `out_dir.mkdir` (`src/promptopt/evaluator_client.py:79`) runs is modelled for that
  call's errors only. The disks the launches leave are the launch oracle's entries.
- `evaluate_bundle` in `src/promptopt/gepa_driver.py` is not modelled. Its line 151 calls `shlex`,
  which that file never imports, so every call raises NameError before launching anything.
- `prepare_replay_task`, `prepare_task_dir`, `_run_clean` and `_safe_remove_path` are not modelled:
  they only copy files into temporary directories or remove them.
- `forward` does not build, hash, write or evaluate bundles in the model. That part is an
  evaluation oracle per run id, for two reasons:
  - line 469 of `src/promptopt/run_gepa.py` calls `hash_bundle` with two arguments, while the
    bundle store's `hash_bundle` takes one, so the call as written raises TypeError;
  - line 499 passes `run_label`, a keyword the evaluator client does not accept.

  The run context text (lines 437-453) and the run store lookups it makes are reduced to the
  check that every run id is in the store, which is where a missing run raises KeyError.
- `_build_attribution_diagnostics`, `_format_preflight_diagnostic` and the preflight's message text
  are not modelled: they are display text only.
- The predictors' dspy calls are not modelled. Instructions are an input sequence, one per predictor.
- The dspy, GEPA, typer and LM integration are not modelled. This covers the transcript recorder
  and callbacks, `TestReflectionLM`, `configure_*_lm`, `_run_optimization`, the CLI and
  `promptopt/run_gepa.py`.
- `metric_fn`'s `gold`, `trace` and `pred_trace` are not read by the source, so the model omits them.
- The order in which the seed bundle's dict yields its practices is a parameter (`Router.DictOrder`).
  `load_bundle` fills it in sorted order; `Router.SortedOrder` shows that order qualifies.
- The order of `glob` is irrelevant to the results, so sets of names stand for it. A seed file whose
  name is also written by a later step is written once per step, last write wins.
- Names with a `/` inside are one component. `PathInjective` and the cache lemmas therefore assume
  components without separators.
- Case mapping (`lower`, `upper`) covers ASCII letters only. Other characters map to themselves.
- Passthrough files are never collected, written or carried: the code of `bundle_store.py` has no
  passthrough handling. `ensure_active_bundle`, imported by `run_gepa.py`, is not part of this model.
- `load_split` is identical in both driver revisions. It is modelled once, as `GepaDriver.LoadSplit`.
- `_normalize_run_ids` on a value that is neither a string nor a list is not modelled.
- `EvaluationCache.get` raises on a corrupt entry (`src/promptopt/cache.py:27`) instead of reporting
  a miss, and `Cache.GetEntry` says so.
- `evaluate_bundle` can launch the command three times: a timeout, then a failed exit without an
  artifact, then the retry at `src/promptopt/evaluator_client.py:101-107`. `Retry.Launches` and
  `EvaluatorClient.Attempts` say so.
- `Unmodelled` is an error the model adds, not a Python exception. It stands for a value Python
  accepts but the model's types cannot hold: a list of non-strings where strings are expected, and
  a number, boolean or null dict key.
- Runtime.StringList: a list with a non-string element gives `Unmodelled`, where `list(v)` keeps the
  elements as they are, because the record fields hold strings only.
- Models.FromDict: `flags`, `notes` or attribution lists with non-string elements give
  `Unmodelled`, for the same reason. The contract states the list fields only when they are falsy,
  and `FromDictToDict` covers encoded lists.
- A write that fails part way through a loop of writes (`write_bundle`, both revisions of
  `create_candidate_bundle`) leaves the files written before it on a real disk. The model reports
  the error with the disk of the call's caller, because a raised exception carries no disk.
- Failures of the operating system that do not come from the shape of the path (permissions, a
  full disk) are not modelled for writes and mkdirs.
- BundleStore.ReloadPractice: the round trip holds only for reloadable practices. These have
  stripped body and front matter, no fence inside the front matter, no carriage return, a `.md`
  name and a name derived from the front matter.
- EvaluatorClient.ParsePracticeAttribution: the contract states the empty and non-dict cases.
  `AttributionOf` states the parsed fields of a dict block.
- LegacyGepaDriver.Fields: the contract states only which errors escape. `OutcomeCases` states
  the values.
