/**
 `BundleProgram`, the object the optimiser searches over: one predictor per seed practice,
 an alias table that maps the practice names an evaluator reports back to practice files,
 and the mutation state that decides which files the next candidate takes from the
 predictors and which stay frozen at an earlier value.
 */
module Router {
  import opened Outcomes
  import opened Json
  import opened Runtime
  import opened PyStr
  import opened Disk
  import opened Models

  /** The part of a program that `forward` changes and preflight rolls back. */
  datatype MutationState = MutationState(fixed: map<string, string>, mutable: set<string>)

  /**
   A `BundleProgram`: predictor `practice_<i>` edits `preds[i]` (`practice_by_pred`),
   `aliases` is `file_by_alias`, and `state` holds `_fixed_updates` and `_mutable_files`.
   */
  datatype Program = Program(
    seed: Bundle,
    preds: seq<Practice>,
    aliases: map<string, string>,
    state: MutationState)

  /** What `forward` returns to the optimiser. */
  datatype Prediction = Prediction(score: real, feedback: string, feedbackByPred: map<string, string>)

  /** The `run_ids` argument: a comma-separated string or a list. */
  datatype RunIds = Csv(text: string) | Listed(ids: seq<string>)

  /** The attribute name of the predictor for the `i`-th seed practice. */
  function PredName(i: nat): string {
    "practice_" + NatToString(i)
  }

  lemma PredNameInjective(i: nat, j: nat)
    ensures PredName(i) == PredName(j) ==> i == j
  {
    if PredName(i) == PredName(j) {
      assert NatToString(i) == PredName(i)[9..];
      assert NatToString(j) == PredName(j)[9..];
      NatToStringInjective(i, j);
    }
  }

  // ---------------------------------------------------------------------------------------
  // Aliases

  /** Registering `file` under an already normalised key: an empty key is ignored and the first registration wins. */
  function RegisterKey(aliases: map<string, string>, key: string, file: string): (r: map<string, string>)
    ensures r.Keys == if key == "" then aliases.Keys else aliases.Keys + {key}
    ensures forall k :: k in aliases ==> r[k] == aliases[k]
    ensures key != "" && key !in aliases ==> r[key] == file
  {
    if key != "" && key !in aliases then aliases[key := file] else aliases
  }

  /** `key` is one of the non-empty keys in `keys`. */
  predicate Known(keys: seq<string>, key: string) {
    key != "" && key in keys
  }

  /** Registering `file` under each of `keys` in turn. */
  function RegisterAll(aliases: map<string, string>, keys: seq<string>, file: string): (r: map<string, string>)
    ensures forall k :: k in r <==> k in aliases || Known(keys, k)
    ensures forall k :: k in aliases ==> r[k] == aliases[k]
    ensures forall k :: k in r && k !in aliases ==> r[k] == file
    decreases |keys|
  {
    if keys == [] then aliases
    else
      assert forall k :: Known(keys, k) <==> (k != "" && k == keys[0]) || Known(keys[1..], k);
      RegisterAll(RegisterKey(aliases, keys[0], file), keys[1..], file)
  }

  /**
   The first of the entries `keys` that lists `key`: the least such index, or `None` when
   no entry lists it.
   */
  function FirstOwner(keys: seq<seq<string>>, key: string): (r: Option<nat>)
    ensures r.Some? ==> r.value < |keys| && Known(keys[r.value], key)
    ensures r.Some? ==> forall j :: 0 <= j < r.value ==> !Known(keys[j], key)
    ensures r.None? ==> forall j :: 0 <= j < |keys| ==> !Known(keys[j], key)
    decreases |keys|
  {
    if keys == [] then None
    else
      var n := |keys| - 1;
      assert forall j :: 0 <= j < n ==> keys[..n][j] == keys[j];
      var o := FirstOwner(keys[..n], key);
      if o.Some? then o
      else if Known(keys[n], key) then Some(n)
      else None
  }

  /**
   The table after registering `files[i]` under each of `keys[i]`, entry by entry: it holds
   exactly the keys some entry lists, each naming the file of the first entry that lists it.
   */
  function Table(keys: seq<seq<string>>, files: seq<string>): (r: map<string, string>)
    requires |keys| == |files|
    ensures forall k :: k in r <==> FirstOwner(keys, k).Some?
    ensures forall k :: k in r ==> r[k] == files[FirstOwner(keys, k).value]
    decreases |keys|
  {
    if keys == [] then map[]
    else
      var n := |keys| - 1;
      RegisterAll(Table(keys[..n], files[..n]), keys[n], files[n])
  }

  /** When every entry's file lies in `s`, so does every file in the table. */
  lemma TableValuesIn(keys: seq<seq<string>>, files: seq<string>, s: set<string>)
    requires |keys| == |files|
    requires forall i :: 0 <= i < |files| ==> files[i] in s
    ensures forall k :: k in Table(keys, files) ==> Table(keys, files)[k] in s
  {
  }

  /** The key an alias is filed under: trimmed one end at a time, then lower-cased. */
  function AliasKey(s: string): string
    decreases |s|
  {
    if s != [] && IsSpace(s[0]) then AliasKey(s[1..])
    else if s != [] && IsSpace(s[|s| - 1]) then AliasKey(s[..|s| - 1])
    else Lower(s)
  }

  /** The key is `alias.strip().lower()`. */
  lemma {:induction false} AliasKeyIsLowerStrip(s: string)
    ensures AliasKey(s) == Lower(Strip(s))
    decreases |s|
  {
    if s != [] && IsSpace(s[0]) {
      AliasKeyIsLowerStrip(s[1..]);
      assert LStrip(s) == LStrip(s[1..]);
    } else if s != [] && IsSpace(s[|s| - 1]) {
      var t := s[..|s| - 1];
      AliasKeyIsLowerStrip(t);
      assert LStrip(s) == s;
      assert LStrip(t) == t;
      assert RStrip(s) == RStrip(t);
    } else {
      StripTrimmed(s);
    }
  }

  /** `_register_alias(alias, file_name)`. */
  function RegisterAlias(aliases: map<string, string>, alias: string, file: string): map<string, string> {
    RegisterKey(aliases, AliasKey(alias), file)
  }

  /** The keys a practice is registered under: its name, its file name and the file name's stem. */
  function AliasList(p: Practice): seq<string> {
    [AliasKey(p.name), AliasKey(p.fileName), AliasKey(Stem(p.fileName))]
  }

  lemma RegisterThree(aliases: map<string, string>, k1: string, k2: string, k3: string, file: string)
    ensures RegisterAll(aliases, [k1, k2, k3], file)
         == RegisterKey(RegisterKey(RegisterKey(aliases, k1, file), k2, file), k3, file)
  {
    var a1 := RegisterKey(aliases, k1, file);
    var a2 := RegisterKey(a1, k2, file);
    assert [k1, k2, k3][1..] == [k2, k3];
    assert [k2, k3][1..] == [k3];
    assert [k3][1..] == [];
    assert RegisterAll(aliases, [k1, k2, k3], file) == RegisterAll(a1, [k2, k3], file);
    assert RegisterAll(a1, [k2, k3], file) == RegisterAll(a2, [k3], file);
  }

  /** The three registrations `__init__` makes for one practice are those of its alias list. */
  function RegisterPractice(aliases: map<string, string>, p: Practice): (r: map<string, string>)
    ensures r == RegisterAll(aliases, AliasList(p), p.fileName)
  {
    var f := p.fileName;
    RegisterThree(aliases, AliasKey(p.name), AliasKey(f), AliasKey(Stem(f)), f);
    RegisterAlias(RegisterAlias(RegisterAlias(aliases, p.name, f), f, f), Stem(f), f)
  }

  /** Each predictor's alias list. */
  function KeyLists(preds: seq<Practice>): (r: seq<seq<string>>)
    ensures |r| == |preds|
    decreases |preds|
  {
    if preds == [] then [] else KeyLists(preds[..|preds| - 1]) + [AliasList(preds[|preds| - 1])]
  }

  /** Each predictor's file name. */
  function Files(preds: seq<Practice>): (r: seq<string>)
    ensures |r| == |preds|
    decreases |preds|
  {
    if preds == [] then [] else Files(preds[..|preds| - 1]) + [preds[|preds| - 1].fileName]
  }

  lemma {:induction false} FilesAt(preds: seq<Practice>, i: nat)
    requires i < |preds|
    ensures Files(preds)[i] == preds[i].fileName
    decreases |preds|
  {
    var n := |preds| - 1;
    if i < n {
      FilesAt(preds[..n], i);
    }
  }

  lemma FilesPointwise(preds: seq<Practice>)
    ensures forall i :: 0 <= i < |preds| ==> Files(preds)[i] == preds[i].fileName
  {
    forall i | 0 <= i < |preds| {
      FilesAt(preds, i);
    }
  }

  /** The alias table `__init__` builds, registering the predictors' practices in order. */
  function AliasesOf(preds: seq<Practice>): (r: map<string, string>)
    decreases |preds|
  {
    if preds == [] then map[]
    else RegisterPractice(AliasesOf(preds[..|preds| - 1]), preds[|preds| - 1])
  }

  /** Registering practice by practice builds the table of their alias lists. */
  lemma {:induction false} AliasesTable(preds: seq<Practice>)
    ensures AliasesOf(preds) == Table(KeyLists(preds), Files(preds))
    decreases |preds|
  {
    if preds != [] {
      var n := |preds| - 1;
      AliasesTable(preds[..n]);
      assert KeyLists(preds)[..n] == KeyLists(preds[..n]);
      assert Files(preds)[..n] == Files(preds[..n]);
    }
  }

  /** `_resolve_practice_file(name)`. */
  function Resolve(p: Program, name: string): (r: Option<string>)
    ensures r.Some? <==> AliasKey(name) in p.aliases
    ensures r.Some? ==> r.value == p.aliases[AliasKey(name)]
  {
    if AliasKey(name) in p.aliases then Some(p.aliases[AliasKey(name)]) else None
  }

  /** The file names of a list of practices. */
  function FileNames(preds: seq<Practice>): set<string> {
    set i | 0 <= i < |preds| :: preds[i].fileName
  }

  /** No two predictors edit the same file. */
  predicate DistinctFiles(preds: seq<Practice>) {
    forall i, j :: 0 <= i < |preds| && 0 <= j < |preds| && preds[i].fileName == preds[j].fileName ==> i == j
  }

  /**
   What holds of every program `__init__` builds from a bundle the store loaded: one
   predictor per seed practice, each for its own file, and the alias table of those practices.
   */
  predicate Valid(p: Program) {
    && WellKeyed(p.seed.practices)
    && (forall i :: 0 <= i < |p.preds| ==>
          p.preds[i].fileName in p.seed.practices && p.seed.practices[p.preds[i].fileName] == p.preds[i])
    && FileNames(p.preds) == p.seed.practices.Keys
    && DistinctFiles(p.preds)
    && forall k :: k in p.aliases ==> p.aliases[k] in p.seed.practices
  }

  /**
   `order` is an iteration order of a dict with keys `keys`: each key once. `load_bundle`
   inserts practices in sorted file-name order (`SortedOrder`).
   */
  predicate DictOrder(order: seq<string>, keys: set<string>) {
    && (forall f :: f in order ==> f in keys)
    && (forall f :: f in keys ==> f in order)
    && forall i, j :: 0 <= i < |order| && 0 <= j < |order| && order[i] == order[j] ==> i == j
  }

  lemma SortedOrder(keys: set<string>)
    ensures DictOrder(SortedElems(keys), keys)
  {
    var xs := SortedElems(keys);
    forall i, j | 0 <= i < |xs| && 0 <= j < |xs| && xs[i] == xs[j]
      ensures i == j
    {
      AscendingDistinct(xs, i, j);
    }
  }

  lemma AscendingDistinct(xs: seq<string>, i: nat, j: nat)
    requires Ascending(xs) && i < |xs| && j < |xs| && xs[i] == xs[j]
    ensures i == j
  {
  }

  /**
   `BundleProgram(seed_bundle, ...)`, where `order` is the order of `seed_bundle.practices`:
   a predictor per seed practice in that order, their aliases, every seed body fixed and
   every seed file mutable.
   */
  function Init(seed: Bundle, order: seq<string>): (p: Program)
    requires DictOrder(order, seed.practices.Keys)
    ensures |p.preds| == |order|
    ensures forall i :: 0 <= i < |order| ==> p.preds[i] == seed.practices[order[i]]
    ensures p.aliases == AliasesOf(p.preds)
    ensures p.state.mutable == seed.practices.Keys
    ensures p.state.fixed.Keys == seed.practices.Keys
    ensures forall f :: f in seed.practices ==> p.state.fixed[f] == seed.practices[f].body
  {
    var preds := seq(|order|, i requires 0 <= i < |order| => seed.practices[order[i]]);
    Program(seed, preds, AliasesOf(preds),
            MutationState(map f | f in seed.practices :: seed.practices[f].body, seed.practices.Keys))
  }

  /** A program built from a well-keyed bundle satisfies `Valid`. */
  lemma InitValid(seed: Bundle, order: seq<string>)
    requires WellKeyed(seed.practices) && DictOrder(order, seed.practices.Keys)
    ensures Valid(Init(seed, order))
  {
    InitFiles(seed, order);
    InitAliasesInSeed(seed, order);
  }

  /** The predictors of `Init` edit each seed file once. */
  lemma InitFiles(seed: Bundle, order: seq<string>)
    requires WellKeyed(seed.practices) && DictOrder(order, seed.practices.Keys)
    ensures FileNames(Init(seed, order).preds) == seed.practices.Keys
    ensures DistinctFiles(Init(seed, order).preds)
  {
    var preds := Init(seed, order).preds;
    forall i | 0 <= i < |preds|
      ensures preds[i].fileName == order[i]
    {
    }
    NamesFollowOrder(preds, order, seed.practices.Keys);
  }

  /** Predictors named after the files of a dict order edit each of those files once. */
  lemma NamesFollowOrder(preds: seq<Practice>, order: seq<string>, keys: set<string>)
    requires |preds| == |order| && forall i :: 0 <= i < |preds| ==> preds[i].fileName == order[i]
    requires DictOrder(order, keys)
    ensures FileNames(preds) == keys && DistinctFiles(preds)
  {
    forall f | f in keys
      ensures f in FileNames(preds)
    {
      var i :| 0 <= i < |order| && order[i] == f;
      assert preds[i].fileName == f;
    }
  }

  lemma InitAliasesInSeed(seed: Bundle, order: seq<string>)
    requires WellKeyed(seed.practices) && DictOrder(order, seed.practices.Keys)
    ensures forall k :: k in Init(seed, order).aliases ==> Init(seed, order).aliases[k] in seed.practices
  {
    var p := Init(seed, order);
    var files := Files(p.preds);
    forall i | 0 <= i < |files|
      ensures files[i] in seed.practices
    {
      FilesAt(p.preds, i);
      assert files[i] == order[i];
    }
    TableValuesIn(KeyLists(p.preds), files, seed.practices.Keys);
    AliasesTable(p.preds);
  }

  /** Every name the alias table resolves names a seed practice file. */
  lemma ResolveInSeed(p: Program, name: string)
    requires Valid(p)
    ensures Resolve(p, name).Some? ==> Resolve(p, name).value in p.seed.practices
  {
  }

  /**
   Resolution agrees with a front-to-back scan of the predictors: a name resolves to the file
   of the first practice whose name, file name or stem has the same trimmed, lower-cased key.
   */
  lemma ResolveIsFirstOwner(p: Program, name: string)
    requires p.aliases == AliasesOf(p.preds)
    ensures Resolve(p, name) == (match FirstOwner(KeyLists(p.preds), AliasKey(name))
                                 case None => None
                                 case Some(i) => Some(p.preds[i].fileName))
  {
    AliasesTable(p.preds);
    var o := FirstOwner(KeyLists(p.preds), AliasKey(name));
    if o.Some? {
      FilesAt(p.preds, o.value);
    }
  }

  // ---------------------------------------------------------------------------------------
  // Targeted files

  /** What each of `names` resolves to. */
  function Routes(p: Program, names: seq<string>): (r: seq<Option<string>>)
    ensures |r| == |names|
    ensures forall i :: 0 <= i < |names| ==> r[i] == Resolve(p, names[i])
  {
    seq(|names|, i requires 0 <= i < |names| => Resolve(p, names[i]))
  }

  /** A resolution that counts: it found a file, and the file name is not empty (`if resolved:`). */
  predicate Hits(route: Option<string>, f: string) {
    route == Some(f) && f != ""
  }

  /** The files a list of resolutions hit, the misses dropped. */
  function TargetsOf(routes: seq<Option<string>>): (r: set<string>)
    ensures forall f :: f in r <==> exists i :: 0 <= i < |routes| && Hits(routes[i], f)
    decreases |routes|
  {
    if routes == [] then {}
    else
      var rest := TargetsOf(routes[1..]);
      assert forall i :: 0 < i < |routes| ==> routes[1..][i - 1] == routes[i];
      match routes[0]
      case Some(f) => if f != "" then {f} + rest else rest
      case None => rest
  }

  /**
   `_extract_targeted_files(run_id, evaluation)`: the files the evaluator's
   `notes_by_practice` keys resolve to. Selected and offending practices play no part.
   */
  function ExtractTargeted(p: Program, e: EvaluationResult): (r: set<string>)
    ensures e.attribution.notesByPractice == [] ==> r == {}
  {
    var names := KeyList(e.attribution.notesByPractice);
    if names == [] then {} else TargetsOf(Routes(p, names))
  }

  /** A file is targeted exactly when one of the `notes_by_practice` keys resolves to it. */
  lemma TargetedIff(p: Program, e: EvaluationResult, f: string)
    ensures f in ExtractTargeted(p, e) <==>
              exists i :: 0 <= i < |e.attribution.notesByPractice| && Hits(Resolve(p, e.attribution.notesByPractice[i].0), f)
  {
    var ns := e.attribution.notesByPractice;
    if ns != [] {
      var routes := Routes(p, KeyList(ns));
      assert forall i :: 0 <= i < |ns| ==> routes[i] == Resolve(p, ns[i].0);
    }
  }

  /** The targeted files lie among the seed practice files. */
  lemma TargetedInSeed(p: Program, e: EvaluationResult)
    requires Valid(p)
    ensures ExtractTargeted(p, e) <= p.seed.practices.Keys
  {
    var ns := e.attribution.notesByPractice;
    forall f | f in ExtractTargeted(p, e)
      ensures f in p.seed.practices
    {
      TargetedIff(p, e, f);
      var i :| 0 <= i < |ns| && Hits(Resolve(p, ns[i].0), f);
      ResolveInSeed(p, ns[i].0);
    }
  }

  /** Only the keys of `notes_by_practice` decide the targeted files. */
  lemma TargetedByNoteKeys(p: Program, e1: EvaluationResult, e2: EvaluationResult)
    requires KeyList(e1.attribution.notesByPractice) == KeyList(e2.attribution.notesByPractice)
    ensures ExtractTargeted(p, e1) == ExtractTargeted(p, e2)
  {
  }

  /** `_collect_targeted_files(evaluations_by_run)`: the union over the runs. */
  function Collect(p: Program, evals: seq<(string, EvaluationResult)>): (r: set<string>)
    ensures forall f :: f in r <==> exists i :: 0 <= i < |evals| && f in ExtractTargeted(p, evals[i].1)
    decreases |evals|
  {
    if evals == [] then {}
    else
      assert forall i :: 0 < i < |evals| ==> evals[1..][i - 1] == evals[i];
      ExtractTargeted(p, evals[0].1) + Collect(p, evals[1..])
  }

  lemma CollectInSeed(p: Program, evals: seq<(string, EvaluationResult)>)
    requires Valid(p)
    ensures Collect(p, evals) <= p.seed.practices.Keys
  {
    forall f | f in Collect(p, evals)
      ensures f in p.seed.practices
    {
      var i :| 0 <= i < |evals| && f in ExtractTargeted(p, evals[i].1);
      TargetedInSeed(p, evals[i].1);
    }
  }

  // ---------------------------------------------------------------------------------------
  // Practice updates

  /** What the `i`-th predictor contributes: its instructions if its file is mutable, else the frozen text. */
  function UpdateOf(p: Program, instr: seq<string>, i: nat): string
    requires |instr| == |p.preds| && i < |p.preds|
  {
    var f := p.preds[i].fileName;
    if f in p.state.mutable then instr[i]
    else if f in p.state.fixed then p.state.fixed[f]
    else p.preds[i].body
  }

  /** The updates dict after the first `n` predictors have been visited. */
  function UpdatesUpTo(p: Program, instr: seq<string>, n: nat): (r: map<string, string>)
    requires |instr| == |p.preds| && n <= |p.preds|
    ensures r.Keys == FileNames(p.preds[..n])
    ensures DistinctFiles(p.preds) ==>
              forall i :: 0 <= i < n ==> r[p.preds[i].fileName] == UpdateOf(p, instr, i)
    decreases n
  {
    if n == 0 then map[]
    else
      var prev := UpdatesUpTo(p, instr, n - 1);
      assert FileNames(p.preds[..n]) == FileNames(p.preds[..n - 1]) + {p.preds[n - 1].fileName} by {
        assert forall i :: 0 <= i < n - 1 ==> p.preds[..n][i] == p.preds[..n - 1][i];
        assert p.preds[..n][n - 1] == p.preds[n - 1];
      }
      prev[p.preds[n - 1].fileName := UpdateOf(p, instr, n - 1)]
  }

  /**
   `get_practice_updates()`, where `instr[i]` is the current instructions of predictor
   `practice_<i>`: one entry per predictor file, from the predictor when the file is
   mutable and from the frozen text otherwise.
   */
  function CurrentUpdates(p: Program, instr: seq<string>): (r: map<string, string>)
    requires |instr| == |p.preds|
    ensures r.Keys == FileNames(p.preds)
    ensures DistinctFiles(p.preds) ==>
              forall i :: 0 <= i < |p.preds| ==> r[p.preds[i].fileName] == UpdateOf(p, instr, i)
  {
    assert p.preds[..|p.preds|] == p.preds;
    UpdatesUpTo(p, instr, |p.preds|)
  }

  /** The index of the predictor that edits seed file `f`. */
  ghost function PredOf(preds: seq<Practice>, f: string): (i: nat)
    requires f in FileNames(preds)
    ensures i < |preds| && preds[i].fileName == f
  {
    var i :| 0 <= i < |preds| && preds[i].fileName == f;
    i
  }

  /**
   The updates have exactly the seed files as keys. A mutable file takes its predictor's
   instructions; any other file takes its frozen text, or the seed body when none is frozen.
   */
  lemma UpdatesBySeed(p: Program, instr: seq<string>, f: string)
    requires Valid(p) && |instr| == |p.preds| && f in p.seed.practices
    ensures CurrentUpdates(p, instr).Keys == p.seed.practices.Keys
    ensures f in p.state.mutable ==> CurrentUpdates(p, instr)[f] == instr[PredOf(p.preds, f)]
    ensures f !in p.state.mutable ==>
              CurrentUpdates(p, instr)[f] == if f in p.state.fixed then p.state.fixed[f] else p.seed.practices[f].body
  {
    var i := PredOf(p.preds, f);
    assert CurrentUpdates(p, instr)[f] == UpdateOf(p, instr, i);
  }

  /** The text of a file that is not mutable does not depend on the predictors' instructions. */
  lemma FrozenIgnoresInstructions(p: Program, instr1: seq<string>, instr2: seq<string>, f: string)
    requires Valid(p) && |instr1| == |p.preds| && |instr2| == |p.preds|
    requires f in p.seed.practices && f !in p.state.mutable
    ensures CurrentUpdates(p, instr1)[f] == CurrentUpdates(p, instr2)[f]
  {
    UpdatesBySeed(p, instr1, f);
    UpdatesBySeed(p, instr2, f);
  }

  // ---------------------------------------------------------------------------------------
  // Feedback

  /** The prefix each practice note gets. */
  function RunTag(runId: string): string {
    "[run=" + runId + "] "
  }

  function Tagged(runId: string, notes: seq<string>): (r: seq<string>)
    ensures |r| == |notes| && forall k :: 0 <= k < |r| ==> r[k] == RunTag(runId) + notes[k]
  {
    seq(|notes|, k requires 0 <= k < |notes| => RunTag(runId) + notes[k])
  }

  /** The tagged notes of the entries whose resolution hits `f`, in entry order. */
  function Gather(runId: string, entries: seq<(string, seq<string>)>, routes: seq<Option<string>>, f: string)
    : (r: seq<string>)
    requires |routes| == |entries|
    decreases |entries|
  {
    if entries == [] then []
    else (if Hits(routes[0], f) then Tagged(runId, entries[0].1) else [])
         + Gather(runId, entries[1..], routes[1..], f)
  }

  /** A gathered note carries the run's tag after which comes a note of a hitting entry, and each such note is gathered. */
  lemma {:induction false} GatherTagged(runId: string, entries: seq<(string, seq<string>)>,
                                        routes: seq<Option<string>>, f: string)
    requires |routes| == |entries|
    ensures forall x :: x in Gather(runId, entries, routes, f) ==>
              StartsWith(x, RunTag(runId))
              && exists j :: 0 <= j < |entries| && Hits(routes[j], f) && x[|RunTag(runId)|..] in entries[j].1
    ensures forall j, k :: 0 <= j < |entries| && Hits(routes[j], f) && 0 <= k < |entries[j].1|
              ==> RunTag(runId) + entries[j].1[k] in Gather(runId, entries, routes, f)
    decreases |entries|
  {
    if entries != [] {
      GatherTagged(runId, entries[1..], routes[1..], f);
      var here := if Hits(routes[0], f) then Tagged(runId, entries[0].1) else [];
      assert Gather(runId, entries, routes, f) == here + Gather(runId, entries[1..], routes[1..], f);
      assert forall j :: 0 < j < |entries| ==> entries[1..][j - 1] == entries[j] && routes[1..][j - 1] == routes[j];
      forall x | x in here
        ensures StartsWith(x, RunTag(runId)) && x[|RunTag(runId)|..] in entries[0].1
      {
        var k :| 0 <= k < |here| && here[k] == x;
        assert x == RunTag(runId) + entries[0].1[k];
        assert x[|RunTag(runId)|..] == entries[0].1[k];
      }
    }
  }

  /** The tagged notes one run contributes to file `f`, in `notes_by_practice` order. */
  function RunNotes(p: Program, runId: string, entries: seq<(string, seq<string>)>, f: string): (r: seq<string>)
  {
    Gather(runId, entries, Routes(p, KeyList(entries)), f)
  }

  /** `notes_by_file.get(f, [])`: every run's tagged notes for `f`, run by run. */
  function NotesFor(p: Program, evals: seq<(string, EvaluationResult)>, f: string): (r: seq<string>)
    decreases |evals|
  {
    if evals == [] then []
    else RunNotes(p, evals[0].0, evals[0].1.attribution.notesByPractice, f) + NotesFor(p, evals[1..], f)
  }

  /**
   A note one run contributes to `f` is the run's tag followed by a note the evaluator filed
   under a name that resolves to `f`, and every such note is contributed.
   */
  lemma RunNotesTagged(p: Program, runId: string, entries: seq<(string, seq<string>)>, f: string)
    ensures forall x :: x in RunNotes(p, runId, entries, f) ==>
              StartsWith(x, RunTag(runId))
              && exists j :: 0 <= j < |entries| && Hits(Resolve(p, entries[j].0), f) && x[|RunTag(runId)|..] in entries[j].1
    ensures forall j, k :: 0 <= j < |entries| && Hits(Resolve(p, entries[j].0), f) && 0 <= k < |entries[j].1|
              ==> RunTag(runId) + entries[j].1[k] in RunNotes(p, runId, entries, f)
  {
    var routes := Routes(p, KeyList(entries));
    GatherTagged(runId, entries, routes, f);
    assert forall j :: 0 <= j < |entries| ==> routes[j] == Resolve(p, entries[j].0);
  }

  /** Every note routed to `f` carries the tag of one of the runs, and every run's notes for `f` are routed. */
  lemma {:induction false} NotesForTagged(p: Program, evals: seq<(string, EvaluationResult)>, f: string)
    ensures forall x :: x in NotesFor(p, evals, f) ==>
              exists i :: 0 <= i < |evals| && x in RunNotes(p, evals[i].0, evals[i].1.attribution.notesByPractice, f)
    ensures forall i, x :: 0 <= i < |evals| && x in RunNotes(p, evals[i].0, evals[i].1.attribution.notesByPractice, f)
              ==> x in NotesFor(p, evals, f)
    decreases |evals|
  {
    if evals != [] {
      NotesForTagged(p, evals[1..], f);
      assert forall i :: 0 < i < |evals| ==> evals[1..][i - 1] == evals[i];
    }
  }

  /** `str(bool)`. */
  function BoolText(b: bool): string {
    if b then "True" else "False"
  }

  /** One line of the evaluation summary every targeted predictor receives. */
  function SummaryLine(h: Host, runId: string, e: EvaluationResult): string {
    "[run=" + runId + "] pass=" + BoolText(e.passed) + " score=" + h.repr(JNum(e.score))
    + " flags=" + (if e.flags == [] then "none" else Join(", ", e.flags))
    + " notes=" + (if e.notes == [] then "none" else Join(" | ", e.notes))
  }

  function Summary(h: Host, evals: seq<(string, EvaluationResult)>): (r: seq<string>)
    ensures |r| == |evals|
    ensures forall i :: 0 <= i < |r| ==> r[i] == SummaryLine(h, evals[i].0, evals[i].1)
  {
    seq(|evals|, i requires 0 <= i < |evals| => SummaryLine(h, evals[i].0, evals[i].1))
  }

  /** The feedback text of one targeted predictor. */
  function Block(summary: seq<string>, notes: seq<string>): string {
    Join("\n", ["evaluation_summary:", if summary == [] then "no evaluations" else Join("\n", summary),
                "practice_notes:", if notes == [] then "none" else Join("\n", notes)])
  }

  /** A map from predictor names: `practice_<i>` holds `blocks[i]` when `files[i]` is targeted. */
  function PredEntries(files: seq<string>, blocks: seq<string>, targeted: set<string>): (r: map<string, string>)
    requires |files| == |blocks|
    ensures forall i :: 0 <= i < |files| ==> (PredName(i) in r <==> files[i] in targeted)
    ensures forall i :: 0 <= i < |files| && files[i] in targeted ==> r[PredName(i)] == blocks[i]
    ensures forall k :: k in r ==> exists i :: 0 <= i < |files| && k == PredName(i)
    ensures targeted == {} ==> r == map[]
  {
    forall i: nat, j: nat ensures PredName(i) == PredName(j) ==> i == j {
      PredNameInjective(i, j);
    }
    map i | 0 <= i < |files| && files[i] in targeted :: PredName(i) := blocks[i]
  }

  /**
   `_build_feedback_map(evaluations_by_run, targeted_files)`: an entry for exactly the
   predictors whose file is targeted, holding the shared summary and that file's notes.
   */
  function FeedbackMap(h: Host, p: Program, evals: seq<(string, EvaluationResult)>, targeted: set<string>)
    : (r: map<string, string>)
    ensures forall i :: 0 <= i < |p.preds| ==> (PredName(i) in r <==> p.preds[i].fileName in targeted)
    ensures forall i :: 0 <= i < |p.preds| && p.preds[i].fileName in targeted ==>
              r[PredName(i)] == Block(Summary(h, evals), NotesFor(p, evals, p.preds[i].fileName))
    ensures forall k :: k in r ==> exists i :: 0 <= i < |p.preds| && k == PredName(i)
    ensures targeted == {} ==> r == map[]
  {
    FilesPointwise(p.preds);
    PredEntries(Files(p.preds), Blocks(h, p, evals), targeted)
  }

  /** The feedback block of each predictor, in predictor order. */
  function Blocks(h: Host, p: Program, evals: seq<(string, EvaluationResult)>): (r: seq<string>)
    ensures |r| == |p.preds|
    ensures forall i :: 0 <= i < |p.preds| ==> r[i] == Block(Summary(h, evals), NotesFor(p, evals, p.preds[i].fileName))
  {
    var summary := Summary(h, evals);
    seq(|p.preds|, i requires 0 <= i < |p.preds| => Block(summary, NotesFor(p, evals, p.preds[i].fileName)))
  }

  // ---------------------------------------------------------------------------------------
  // forward

  /** `_normalize_run_ids(run_ids)`: a string is split on commas, dropping empty pieces. */
  function NormalizeRunIds(ids: RunIds): (r: seq<string>)
    ensures ids.Listed? ==> r == ids.ids
    ensures ids.Csv? ==> forall i :: 0 <= i < |r| ==> r[i] != "" && ',' !in r[i]
    ensures ids.Csv? ==> forall x :: x in r <==> x in Split(ids.text, ",", -1) && x != ""
  {
    match ids
    case Listed(xs) => xs
    case Csv(s) =>
      var pieces := Split(s, ",", -1);
      SplitPiecesCommaFree(s);
      NonEmpty(pieces)
  }

  lemma SplitPiecesCommaFree(s: string)
    ensures forall k :: 0 <= k < |Split(s, ",", -1)| ==> ',' !in Split(s, ",", -1)[k]
  {
    var r := Split(s, ",", -1);
    SplitPiecesClean(s, ",", -1);
    forall k | 0 <= k < |r|
      ensures ',' !in r[k]
    {
      if k < |r| - 1 {
        CommaFree(r[k]);
      } else {
        LastPieceCommaFree(s);
      }
    }
  }

  lemma CommaFree(w: string)
    requires !Contains(w, ",")
    ensures ',' !in w
  {
    if ',' in w {
      var i :| 0 <= i < |w| && w[i] == ',';
      assert OccursAt(w, ",", i);
    }
  }

  /** With no limit, the last piece of a split holds no separator. */
  lemma {:induction false} LastPieceCommaFree(s: string)
    ensures ',' !in Split(s, ",", -1)[|Split(s, ",", -1)| - 1]
    decreases |s|
  {
    match FindFrom(s, ",", 0)
    case None =>
      CommaFree(s);
    case Some(i) =>
      LastPieceCommaFree(s[i + 1..]);
      assert Split(s, ",", -1) == [s[..i]] + Split(s[i + 1..], ",", -1);
  }

  /** `[r for r in pieces if r]`. */
  function NonEmpty(pieces: seq<string>): (r: seq<string>)
    ensures forall i :: 0 <= i < |r| ==> r[i] != "" && r[i] in pieces
    ensures forall x :: x in r <==> x in pieces && x != ""
    ensures |r| <= |pieces|
    decreases |pieces|
  {
    if pieces == [] then []
    else if pieces[0] == "" then NonEmpty(pieces[1..])
    else [pieces[0]] + NonEmpty(pieces[1..])
  }

  /** The filter keeps order: the kept pieces of a concatenation are those of each part in turn. */
  lemma {:induction false} NonEmptyAppend(a: seq<string>, b: seq<string>)
    ensures NonEmpty(a + b) == NonEmpty(a) + NonEmpty(b)
    decreases |a|
  {
    if a == [] {
      assert a + b == b;
    } else {
      var head := if a[0] == "" then [] else [a[0]];
      assert a + b == [a[0]] + (a[1..] + b);
      calc {
        NonEmpty(a + b);
        head + NonEmpty(a[1..] + b);
        { NonEmptyAppend(a[1..], b); }
        head + (NonEmpty(a[1..]) + NonEmpty(b));
        (head + NonEmpty(a[1..])) + NonEmpty(b);
        NonEmpty(a) + NonEmpty(b);
      }
    }
  }

  /** Pieces that are all non-empty are kept as they are. */
  lemma {:induction false} NonEmptyKeepsAll(pieces: seq<string>)
    requires forall i :: 0 <= i < |pieces| ==> pieces[i] != ""
    ensures NonEmpty(pieces) == pieces
    decreases |pieces|
  {
    if pieces != [] {
      NonEmptyKeepsAll(pieces[1..]);
    }
  }

  /** Splitting comma-joined, comma-free ids on commas gives the ids back. */
  lemma {:induction false} SplitJoinComma(ids: seq<string>)
    requires |ids| >= 1 && forall i :: 0 <= i < |ids| ==> ',' !in ids[i]
    ensures Split(Join(",", ids), ",", -1) == ids
    decreases |ids|
  {
    var s := Join(",", ids);
    if |ids| == 1 {
      forall i: nat ensures !OccursAt(s, ",", i) {
        if i < |s| {
          assert s[i..i + 1] == [s[i]];
        }
      }
      FindFromNone(s, ",", 0);
    } else {
      var t := Join(",", ids[1..]);
      var n := |ids[0]|;
      assert s == ids[0] + "," + t;
      assert s[n..n + 1] == ",";
      forall i | 0 <= i < n ensures !OccursAt(s, ",", i) {
        assert s[i] == ids[0][i];
      }
      FindFromAt(s, ",", 0, n);
      assert s[..n] == ids[0] && s[n + 1..] == t;
      SplitJoinComma(ids[1..]);
      assert Split(s, ",", -1) == [ids[0]] + ids[1..];
    }
  }

  /**
   Comma-joined run ids come back from `_normalize_run_ids` as they were, when none is empty
   and none holds a comma.
   */
  lemma NormalizeJoined(ids: seq<string>)
    requires forall i :: 0 <= i < |ids| ==> ids[i] != "" && ',' !in ids[i]
    ensures NormalizeRunIds(Csv(Join(",", ids))) == ids
  {
    if ids == [] {
      assert Split("", ",", -1) == [""];
    } else {
      SplitJoinComma(ids);
      NonEmptyKeepsAll(ids);
    }
  }

  /** The evaluations of a batch in order; the first run whose evaluation raises ends the batch. */
  function EvaluateAll(batch: seq<string>, eval: string -> Result<EvaluationResult>)
    : (r: Result<seq<(string, EvaluationResult)>>)
    ensures r.Ok? ==> |r.value| == |batch|
    ensures r.Ok? ==> forall i :: 0 <= i < |batch| ==> eval(batch[i]).Ok? && r.value[i] == (batch[i], eval(batch[i]).value)
    ensures r.Err? ==> exists i :: 0 <= i < |batch| && eval(batch[i]) == Err(r.error)
                                   && forall j :: 0 <= j < i ==> eval(batch[j]).Ok?
    decreases |batch|
  {
    if batch == [] then Ok([])
    else
      var first := eval(batch[0]);
      if first.Err? then Err(first.error)
      else
        var rest := EvaluateAll(batch[1..], eval);
        assert forall i :: 0 < i < |batch| ==> batch[1..][i - 1] == batch[i];
        if rest.Err? then Err(rest.error)
        else Ok([(batch[0], first.value)] + rest.value)
  }

  function SumScores(evals: seq<(string, EvaluationResult)>): real
    decreases |evals|
  {
    if evals == [] then 0.0 else evals[0].1.score + SumScores(evals[1..])
  }

  /** The mean of scores that lie between `lo` and `hi` lies between them too. */
  lemma {:induction false} SumBounds(evals: seq<(string, EvaluationResult)>, lo: real, hi: real)
    requires forall i :: 0 <= i < |evals| ==> lo <= evals[i].1.score <= hi
    ensures |evals| as real * lo <= SumScores(evals) <= |evals| as real * hi
    decreases |evals|
  {
    if evals != [] {
      assert forall i :: 0 < i < |evals| ==> evals[1..][i - 1] == evals[i];
      SumBounds(evals[1..], lo, hi);
    }
  }

  /** `_flatten_notes(evaluations)`. */
  function AllNotes(evals: seq<(string, EvaluationResult)>): seq<string>
    decreases |evals|
  {
    if evals == [] then [] else evals[0].1.notes + AllNotes(evals[1..])
  }

  /**
   The state change at the end of `forward`: each targeted file freezes this round's update,
   every other frozen text stays, and the targeted files become the mutable ones.
   */
  function NextState(s: MutationState, updates: map<string, string>, targeted: set<string>): (r: MutationState)
    ensures r.mutable == targeted
    ensures r.fixed.Keys == s.fixed.Keys + (targeted * updates.Keys)
    ensures forall f :: f in targeted && f in updates ==> r.fixed[f] == updates[f]
    ensures forall f :: f in s.fixed && !(f in targeted && f in updates) ==> r.fixed[f] == s.fixed[f]
  {
    var fixed := map f | f in s.fixed.Keys + (targeted * updates.Keys)
                   :: if f in targeted && f in updates then updates[f] else s.fixed[f];
    MutationState(fixed, targeted)
  }

  /** `forward` once the batch has been evaluated: the prediction and the next program. */
  function Conclude(h: Host, p: Program, updates: map<string, string>, evals: seq<(string, EvaluationResult)>)
    : (r: (Prediction, Program))
    requires evals != []
    ensures r.1 == p.(state := NextState(p.state, updates, Collect(p, evals)))
    ensures r.0.feedbackByPred == FeedbackMap(h, p, evals, Collect(p, evals))
    ensures r.0.feedback == Join("\n", AllNotes(evals))
    ensures r.0.score == SumScores(evals) / |evals| as real
  {
    var targeted := Collect(p, evals);
    var score := SumScores(evals) / |evals| as real;
    (Prediction(score, Join("\n", AllNotes(evals)), FeedbackMap(h, p, evals, targeted)),
     p.(state := NextState(p.state, updates, targeted)))
  }

  /**
   `forward(run_ids)`, where `instr` holds the predictors' instructions, `eval(run_id)` is
   what the cache or the evaluator returns for the run on the candidate built from the
   current updates, and `runs` holds the ids of `runs_by_id`. An empty batch changes nothing;
   a run evaluated from the cache but unknown to `runs_by_id` fails when the run context is
   built, after every evaluation and before the state changes.
   */
  function Forward(h: Host, p: Program, ids: RunIds, instr: seq<string>, eval: string -> Result<EvaluationResult>,
                   runs: set<string>)
    : (r: Result<(Prediction, Program)>)
    requires |instr| == |p.preds|
    ensures NormalizeRunIds(ids) == [] ==> r == Ok((Prediction(0.0, "No runs provided", map[]), p))
    ensures r.Ok? ==> r.value.1.seed == p.seed && r.value.1.preds == p.preds && r.value.1.aliases == p.aliases
    ensures NormalizeRunIds(ids) != [] && EvaluateAll(NormalizeRunIds(ids), eval).Err? ==>
              r == Err(EvaluateAll(NormalizeRunIds(ids), eval).error)
    ensures NormalizeRunIds(ids) != [] && EvaluateAll(NormalizeRunIds(ids), eval).Ok? ==>
              if forall k :: 0 <= k < |NormalizeRunIds(ids)| ==> NormalizeRunIds(ids)[k] in runs
              then r == Ok(Conclude(h, p, CurrentUpdates(p, instr), EvaluateAll(NormalizeRunIds(ids), eval).value))
              else r == Err(KeyError)
  {
    var batch := NormalizeRunIds(ids);
    if batch == [] then Ok((Prediction(0.0, "No runs provided", map[]), p))
    else
      var updates := CurrentUpdates(p, instr);
      var evals := EvaluateAll(batch, eval);
      if evals.Err? then Err(evals.error)
      else if exists k :: 0 <= k < |batch| && batch[k] !in runs then Err(KeyError)
      else Ok(Conclude(h, p, updates, evals.value))
  }

  /** `forward` keeps a program valid: it changes only the mutation state. */
  lemma ForwardValid(h: Host, p: Program, ids: RunIds, instr: seq<string>, eval: string -> Result<EvaluationResult>,
                     runs: set<string>)
    requires Valid(p) && |instr| == |p.preds|
    ensures Forward(h, p, ids, instr, eval, runs).Ok? ==> Valid(Forward(h, p, ids, instr, eval, runs).value.1)
  {
  }

  /**
   After a forward over evaluations `evals`, the mutable files are exactly the targeted ones,
   all of them seed files. A targeted file takes the predictor's new instructions next time
   and has this round's update frozen; every file that is not targeted goes back to what was
   frozen for it before the round, whatever the predictors now say.
   */
  lemma ForwardFreezes(h: Host, p: Program, instr: seq<string>, evals: seq<(string, EvaluationResult)>,
                       instr': seq<string>, f: string)
    requires Valid(p) && |instr| == |p.preds| && |instr'| == |p.preds| && evals != []
    requires f in p.seed.practices
    ensures var p' := Conclude(h, p, CurrentUpdates(p, instr), evals).1;
            && p'.state.mutable == Collect(p, evals)
            && p'.state.mutable <= p.seed.practices.Keys
            && (f in Collect(p, evals) ==>
                  p'.state.fixed[f] == CurrentUpdates(p, instr)[f]
                  && CurrentUpdates(p', instr')[f] == instr'[PredOf(p.preds, f)])
            && (f !in Collect(p, evals) ==>
                  CurrentUpdates(p', instr')[f]
                  == if f in p.state.fixed then p.state.fixed[f] else p.seed.practices[f].body)
  {
    var updates := CurrentUpdates(p, instr);
    CollectInSeed(p, evals);
    if f in Collect(p, evals) {
      FreezeTargeted(p, instr, Collect(p, evals), instr', f);
    } else {
      RevertUntargeted(p, instr, Collect(p, evals), instr', f);
    }
  }

  /** A targeted seed file freezes this round's update and takes the new instructions next time. */
  lemma FreezeTargeted(p: Program, instr: seq<string>, targeted: set<string>, instr': seq<string>, f: string)
    requires Valid(p) && |instr| == |p.preds| && |instr'| == |p.preds|
    requires f in targeted && f in p.seed.practices
    ensures var p' := p.(state := NextState(p.state, CurrentUpdates(p, instr), targeted));
            && p'.state.fixed[f] == CurrentUpdates(p, instr)[f]
            && CurrentUpdates(p', instr')[f] == instr'[PredOf(p.preds, f)]
  {
    var p' := p.(state := NextState(p.state, CurrentUpdates(p, instr), targeted));
    UpdatesBySeed(p, instr, f);
    UpdatesBySeed(p', instr', f);
  }

  /** A seed file that is not targeted goes back to its earlier frozen text, or its seed body. */
  lemma RevertUntargeted(p: Program, instr: seq<string>, targeted: set<string>, instr': seq<string>, f: string)
    requires Valid(p) && |instr| == |p.preds| && |instr'| == |p.preds|
    requires f !in targeted && f in p.seed.practices
    ensures var p' := p.(state := NextState(p.state, CurrentUpdates(p, instr), targeted));
            CurrentUpdates(p', instr')[f] == if f in p.state.fixed then p.state.fixed[f] else p.seed.practices[f].body
  {
    var p' := p.(state := NextState(p.state, CurrentUpdates(p, instr), targeted));
    UpdatesBySeed(p', instr', f);
  }

  /**
   The keys of `feedback_by_pred` after a forward are exactly the predictors whose file some
   run's `notes_by_practice` resolves to.
   */
  lemma ForwardFeedbackKeys(h: Host, p: Program, updates: map<string, string>,
                            evals: seq<(string, EvaluationResult)>, i: nat)
    requires evals != [] && i < |p.preds|
    ensures var fb := Conclude(h, p, updates, evals).0.feedbackByPred;
            PredName(i) in fb <==>
              exists run :: 0 <= run < |evals| && p.preds[i].fileName in ExtractTargeted(p, evals[run].1)
  {
  }

  /** A forward whose evaluations attribute nothing to any practice freezes every file and gives no feedback. */
  lemma ForwardWithoutAttribution(h: Host, p: Program, updates: map<string, string>,
                                  evals: seq<(string, EvaluationResult)>)
    requires evals != []
    requires forall i :: 0 <= i < |evals| ==> evals[i].1.attribution.notesByPractice == []
    ensures Conclude(h, p, updates, evals).1.state.mutable == {}
    ensures Conclude(h, p, updates, evals).0.feedbackByPred == map[]
    ensures Conclude(h, p, updates, evals).1.state.fixed == p.state.fixed
  {
    assert Collect(p, evals) == {};
    NothingTargeted(p.state, updates);
  }

  /** With nothing targeted, the next state freezes every file and keeps the frozen values. */
  lemma NothingTargeted(s: MutationState, updates: map<string, string>)
    ensures NextState(s, updates, {}) == MutationState(s.fixed, {})
  {
    var r := NextState(s, updates, {});
    assert r.fixed.Keys == s.fixed.Keys;
  }

  /** The mean score of a forward lies within the bounds of its runs' scores. */
  lemma ForwardScoreBounds(h: Host, p: Program, updates: map<string, string>,
                           evals: seq<(string, EvaluationResult)>, lo: real, hi: real)
    requires evals != []
    requires forall i :: 0 <= i < |evals| ==> lo <= evals[i].1.score <= hi
    ensures lo <= Conclude(h, p, updates, evals).0.score <= hi
  {
    SumBounds(evals, lo, hi);
    var n := |evals| as real;
    assert n * lo <= SumScores(evals) <= n * hi;
    assert lo <= SumScores(evals) / n <= hi by {
      DivBounds(SumScores(evals), n, lo, hi);
    }
  }

  lemma DivBounds(s: real, n: real, lo: real, hi: real)
    requires n > 0.0 && n * lo <= s <= n * hi
    ensures lo <= s / n <= hi
  {
  }

  // ---------------------------------------------------------------------------------------
  // Snapshots

  /** `snapshot_mutation_state()`. */
  function Snapshot(p: Program): MutationState {
    p.state
  }

  /** `restore_mutation_state(fixed_updates, mutable_files)`. */
  function Restore(p: Program, s: MutationState): (r: Program)
    ensures r.seed == p.seed && r.preds == p.preds && r.aliases == p.aliases && r.state == s
  {
    p.(state := s)
  }

  /** Restoring a snapshot after any forward gives back the program the snapshot was taken of. */
  lemma RestoreAfterForward(h: Host, p: Program, ids: RunIds, instr: seq<string>,
                            eval: string -> Result<EvaluationResult>, runs: set<string>)
    requires |instr| == |p.preds|
    ensures Forward(h, p, ids, instr, eval, runs).Ok? ==>
              Restore(Forward(h, p, ids, instr, eval, runs).value.1, Snapshot(p)) == p
  {
  }
}
