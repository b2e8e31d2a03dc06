/**
 The evaluator client: case-insensitive field lookup in `evaluator.json`, its parse into an
 evaluation result, and `evaluate_bundle`, which launches the CLI through the retry tree
 and turns an unusable artifact into the zero result.
 */
module EvaluatorClient {
  import opened Outcomes
  import opened Json
  import opened Runtime
  import opened PyStr
  import opened Disk
  import opened Models
  import opened Retry

  // ----- Case-insensitive lookup -----

  /** The position of the first entry whose lower-cased key is `lower(key)`, or `|fields|`. */
  function FoldedIndex(fields: Fields, key: string): (i: nat)
    ensures i <= |fields|
    ensures i < |fields| ==> Lower(fields[i].0) == Lower(key)
    ensures forall j :: 0 <= j < i ==> Lower(fields[j].0) != Lower(key)
    decreases |fields|
  {
    if |fields| == 0 then 0
    else if Lower(fields[0].0) == Lower(key) then 0
    else 1 + FoldedIndex(fields[1..], key)
  }

  /** Some key of `fields` equals `key` up to ASCII case. */
  predicate HasFolded(fields: Fields, key: string) {
    exists i :: 0 <= i < |fields| && Lower(fields[i].0) == Lower(key)
  }

  /**
   `_get_ci(data, key, default)` on a dict: the exact key, then `key.lower()`, then
   `key.upper()`, then the first key equal to `key` up to case, then the default.
   */
  function GetCi(fields: Fields, key: string, default: Json): (r: Json)
    ensures HasKey(fields, key) ==> r == Lookup(fields, key).value
    ensures !HasKey(fields, key) && HasKey(fields, Lower(key)) ==> r == Lookup(fields, Lower(key)).value
    ensures !HasKey(fields, key) && !HasKey(fields, Lower(key)) && HasKey(fields, Upper(key)) ==>
              r == Lookup(fields, Upper(key)).value
    ensures !HasFolded(fields, key) ==> r == default
    ensures r == default || exists i :: 0 <= i < |fields| && Lower(fields[i].0) == Lower(key) && r == fields[i].1
  {
    LowerAbsorbs(key);
    if HasKey(fields, key) then Lookup(fields, key).value
    else if HasKey(fields, Lower(key)) then Lookup(fields, Lower(key)).value
    else if HasKey(fields, Upper(key)) then Lookup(fields, Upper(key)).value
    else
      var i := FoldedIndex(fields, key);
      if i < |fields| then fields[i].1 else default
  }

  /** Keys that stay distinct when lower-cased, so that a case-insensitive lookup is unambiguous. */
  predicate FoldedDistinct(fields: Fields) {
    forall i, j :: 0 <= i < |fields| && 0 <= j < |fields| && Lower(fields[i].0) == Lower(fields[j].0) ==> i == j
  }

  /**
   Where no two keys differ only in case, `_get_ci` is the plain case-insensitive lookup: the
   one entry whose key matches, or the default.
   */
  lemma GetCiUnique(fields: Fields, key: string, default: Json, i: nat)
    requires FoldedDistinct(fields) && i < |fields| && Lower(fields[i].0) == Lower(key)
    ensures GetCi(fields, key, default) == fields[i].1
  {
    var r := GetCi(fields, key, default);
    LowerAbsorbs(key);
    if HasKey(fields, key) {
      MatchIsUnique(fields, key, IndexOf(fields, key), i);
    } else if HasKey(fields, Lower(key)) {
      MatchIsUnique(fields, key, IndexOf(fields, Lower(key)), i);
    } else if HasKey(fields, Upper(key)) {
      MatchIsUnique(fields, key, IndexOf(fields, Upper(key)), i);
    } else {
      MatchIsUnique(fields, key, FoldedIndex(fields, key), i);
    }
  }

  lemma MatchIsUnique(fields: Fields, key: string, j: nat, i: nat)
    requires FoldedDistinct(fields) && i < |fields| && j < |fields|
    requires Lower(fields[i].0) == Lower(key) && Lower(fields[j].0) == Lower(key)
    ensures j == i
  {
  }

  /**
   `_get_ci(data, key, default)` for any decoded value. On a list or a string, the `in`
   tests run first: one that succeeds leads to indexing by a string (TypeError), and if
   none does, the missing `.items()` gives AttributeError. Other values cannot be searched.
   */
  function GetCiAny(data: Json, key: string, default: Json): (r: Result<Json>)
    ensures data.JObj? ==> r == Ok(GetCi(data.fields, key, default))
    ensures !data.JObj? ==> r.Err?
    ensures r.Err? ==> r.error == TypeError || r.error == AttributeError
    ensures (data.JNull? || data.JBool? || data.JNum?) ==> r == Err(TypeError)
    ensures data.JArr? && JStr(key) in data.items ==> r == Err(TypeError)
    ensures data.JStr? && Contains(data.s, key) ==> r == Err(TypeError)
  {
    match data
    case JObj(fields) => Ok(GetCi(fields, key, default))
    case JArr(items) =>
      if JStr(key) in items || JStr(Lower(key)) in items || JStr(Upper(key)) in items then Err(TypeError)
      else Err(AttributeError)
    case JStr(s) =>
      if Contains(s, key) || Contains(s, Lower(key)) || Contains(s, Upper(key)) then Err(TypeError)
      else Err(AttributeError)
    case _ => Err(TypeError)
  }

  // ----- Parsing evaluator.json -----

  /** The notes of one practice: each element of a list as text, any other value as one note. */
  function NoteTexts(h: Host, v: Json): (r: seq<string>)
    ensures v.JArr? ==> |r| == |v.items| && forall i :: 0 <= i < |v.items| ==> r[i] == Str(h, v.items[i])
    ensures !v.JArr? ==> r == [Str(h, v)]
  {
    match v
    case JArr(items) => seq(|items|, i requires 0 <= i < |items| => Str(h, items[i]))
    case _ => [Str(h, v)]
  }

  /** Each entry of `notes_by_practice` with its value turned into notes. */
  function NormalizedEntries(h: Host, items: Fields): (r: seq<(string, seq<string>)>)
    ensures |r| == |items|
    ensures forall i :: 0 <= i < |items| ==> r[i] == (items[i].0, NoteTexts(h, items[i].1))
  {
    seq(|items|, i requires 0 <= i < |items| => (items[i].0, NoteTexts(h, items[i].1)))
  }

  /** `dict(notes_by)` for the `notes_by_practice` entry of a practice block, `{}` when falsy. */
  function NotesItems(practice: Fields): Result<Fields> {
    DictItems(Or(GetCi(practice, "notes_by_practice", JObj([])), JObj([])))
  }

  /** `list(...)` of a falsy-means-empty list entry of a practice block. */
  function ListEntry(practice: Fields, key: string): Result<seq<string>> {
    StringList(Or(GetCi(practice, key, JArr([])), JArr([])))
  }

  /**
   `_parse_practice_attribution(data)`. A missing or falsy block, or a falsy list or map
   inside it, counts as empty; a block that is not a dict makes the first lookup in it fail.
   */
  function ParsePracticeAttribution(h: Host, data: Fields): (r: Result<PracticeAttribution>)
    ensures !Truthy(GetCi(data, "practice_attribution", JObj([]))) ==> r == Ok(PracticeAttribution([], [], []))
    ensures !Or(GetCi(data, "practice_attribution", JObj([])), JObj([])).JObj? ==> r.Err?
  {
    EmptyBlock(h);
    AttributionOf(h, Or(GetCi(data, "practice_attribution", JObj([])), JObj([])))
  }

  /** The attribution read from a chosen practice block. */
  function AttributionOf(h: Host, practice: Json): (r: Result<PracticeAttribution>)
    ensures !practice.JObj? ==> r.Err? && r == Err(GetCiAny(practice, "selected_practices", JArr([])).error)
    ensures r.Ok? ==> practice.JObj? && NotesItems(practice.fields).Ok?
    ensures r.Ok? ==> r.value.notesByPractice == Update([], NormalizedEntries(h, NotesItems(practice.fields).value))
    ensures r.Ok? ==> ListEntry(practice.fields, "selected_practices") == Ok(r.value.selected)
    ensures r.Ok? ==> ListEntry(practice.fields, "offending_practices") == Ok(r.value.offending)
  {
    if !practice.JObj? then Err(GetCiAny(practice, "selected_practices", JArr([])).error)
    else
      var items := NotesItems(practice.fields);
      var selected := ListEntry(practice.fields, "selected_practices");
      var offending := ListEntry(practice.fields, "offending_practices");
      if items.Err? then Err(items.error)
      else if selected.Err? then Err(selected.error)
      else if offending.Err? then Err(offending.error)
      else Ok(PracticeAttribution(selected.value, offending.value, Update([], NormalizedEntries(h, items.value))))
  }

  lemma EmptyBlock(h: Host)
    ensures AttributionOf(h, JObj([])) == Ok(PracticeAttribution([], [], []))
  {
    EmptyEntries();
    assert Update([], NormalizedEntries(h, [])) == [];
  }

  lemma EmptyEntries()
    ensures NotesItems([]) == Ok([])
    ensures ListEntry([], "selected_practices") == Ok([])
    ensures ListEntry([], "offending_practices") == Ok([])
  {
    GetCiEmpty("notes_by_practice", JObj([]));
    GetCiEmpty("selected_practices", JArr([]));
    GetCiEmpty("offending_practices", JArr([]));
    assert StringList(JArr([])) == Ok([]);
  }

  lemma GetCiEmpty(key: string, default: Json)
    ensures GetCi([], key, default) == default
  {
    assert !HasFolded([], key);
  }

  /** With distinct keys, filling a fresh dict entry by entry gives the entries in order. */
  lemma {:induction false} UpdateFresh<V>(acc: seq<(string, V)>, entries: seq<(string, V)>)
    requires DistinctKeys(entries)
    requires forall i :: 0 <= i < |entries| ==> !HasKey(acc, entries[i].0)
    ensures Update(acc, entries) == acc + entries
    decreases |entries|
  {
    if |entries| > 0 {
      DistinctRest(entries);
      FreshRest(acc, entries);
      UpdateFresh(acc + [entries[0]], entries[1..]);
      UpdateStep(acc, entries);
    }
  }

  lemma UpdateStep<V>(acc: seq<(string, V)>, entries: seq<(string, V)>)
    requires |entries| > 0 && !HasKey(acc, entries[0].0)
    requires Update(acc + [entries[0]], entries[1..]) == acc + [entries[0]] + entries[1..]
    ensures Update(acc, entries) == acc + entries
  {
    assert Update(acc, entries) == Update(Put(acc, entries[0].0, entries[0].1), entries[1..]);
    assert Put(acc, entries[0].0, entries[0].1) == acc + [entries[0]];
    AppendHead(acc, entries);
  }

  lemma AppendHead<T>(a: seq<T>, s: seq<T>)
    requires |s| > 0
    ensures a + [s[0]] + s[1..] == a + s
  {
    assert s == [s[0]] + s[1..];
  }

  lemma FreshRest<V>(acc: seq<(string, V)>, entries: seq<(string, V)>)
    requires DistinctKeys(entries) && |entries| > 0
    requires forall i :: 0 <= i < |entries| ==> !HasKey(acc, entries[i].0)
    ensures forall i :: 0 <= i < |entries[1..]| ==> !HasKey(acc + [entries[0]], entries[1..][i].0)
  {
    forall i | 0 <= i < |entries[1..]| ensures !HasKey(acc + [entries[0]], entries[1..][i].0) {
      assert entries[1..][i] == entries[i + 1];
      FreshAfterAppend(acc, entries[0], entries[i + 1].0);
    }
  }

  lemma FreshAfterAppend<V>(acc: seq<(string, V)>, e: (string, V), k': string)
    requires !HasKey(acc, k') && k' != e.0
    ensures !HasKey(acc + [e], k')
  {
    AppendKeepsOther(acc, e.0, e.1, k');
  }

  lemma DistinctRest<V>(entries: seq<(string, V)>)
    requires DistinctKeys(entries) && |entries| > 0
    ensures DistinctKeys(entries[1..])
    ensures forall i :: 0 <= i < |entries[1..]| ==> entries[1..][i].0 != entries[0].0
  {
    assert forall i :: 0 <= i < |entries[1..]| ==> entries[1..][i] == entries[i + 1];
  }

  /**
   Every key of a well-formed `notes_by_practice` survives in order, a list value becomes its
   elements as text and any other value a single note.
   */
  lemma NotesNormalized(h: Host, items: Fields)
    requires DistinctKeys(items)
    ensures Update([], NormalizedEntries(h, items)) == NormalizedEntries(h, items)
  {
    var entries := NormalizedEntries(h, items);
    assert DistinctKeys(entries);
    UpdateFresh([], entries);
  }

  /**
   A `notes_by_practice` written as a list of `[key, value]` pairs is read by `dict(...)` as
   the dict holding those pairs in order.
   */
  lemma DictOfPairList(fields: Fields)
    requires DistinctKeys(fields)
    ensures DictItems(JArr(PairList(fields))) == Ok(fields)
  {
    var none: Fields := [];
    DictFromPairList(none, fields);
    UpdateFresh(none, fields);
    assert none + fields == fields;
  }

  /** A list element that is not a pair makes `dict(...)` raise before any later element is read. */
  lemma DictStopsAtBadPair(items: seq<Json>, i: nat)
    requires i < |items| && PairOf(items[i]).Err?
    requires forall j :: 0 <= j < i ==> PairOf(items[j]).Ok?
    ensures DictItems(JArr(items)) == Err(PairOf(items[i]).error)
  {
    assert FirstBad(items) == i;
  }

  /** `json.loads(text)` then the field mapping of `parse_evaluator_json`. */
  function ParseEvaluatorText(h: Host, text: string): (r: Result<EvaluationResult>)
    ensures h.loads(text).None? ==> r == Err(JsonDecodeError)
    ensures h.loads(text).Some? && !h.loads(text).value.JObj? ==>
              r == Err(GetCiAny(h.loads(text).value, "pass", JBool(false)).error)
    ensures h.loads(text).Some? && h.loads(text).value.JObj? ==> r == ResultFields(h, h.loads(text).value.fields)
  {
    match h.loads(text)
    case None => Err(JsonDecodeError)
    case Some(data) =>
      if !data.JObj? then Err(GetCiAny(data, "pass", JBool(false)).error)
      else ResultFields(h, data.fields)
  }

  /**
   The fields of an evaluation read from a decoded dict, in the statement order of
   `parse_evaluator_json`: `score` through `float()`, then the lists, then the attribution.
   */
  function ResultFields(h: Host, d: Fields): (r: Result<EvaluationResult>)
    ensures Float(h, GetCi(d, "score", JNum(0.0))).Err? ==> r == Err(Float(h, GetCi(d, "score", JNum(0.0))).error)
    ensures r.Ok? ==> && r.value.raw == JObj(d)
                      && r.value.passed == Truthy(GetCi(d, "pass", JBool(false)))
                      && Float(h, GetCi(d, "score", JNum(0.0))) == Ok(r.value.score)
                      && ListEntry(d, "flags") == Ok(r.value.flags)
                      && ListEntry(d, "notes") == Ok(r.value.notes)
                      && ParsePracticeAttribution(h, d) == Ok(r.value.attribution)
  {
    var score := Float(h, GetCi(d, "score", JNum(0.0)));
    var flags := ListEntry(d, "flags");
    var notes := ListEntry(d, "notes");
    var attribution := ParsePracticeAttribution(h, d);
    if score.Err? then Err(score.error)
    else if flags.Err? then Err(flags.error)
    else if notes.Err? then Err(notes.error)
    else if attribution.Err? then Err(attribution.error)
    else
      Ok(EvaluationResult(Truthy(GetCi(d, "pass", JBool(false))), score.value, flags.value, notes.value,
                          attribution.value, JObj(d)))
  }

  /** `parse_evaluator_json(path)`. */
  function ParseEvaluatorJson(h: Host, fs: FileSystem, path: Path): (r: Result<EvaluationResult>)
    ensures path !in fs.files ==> r == Err(if path in fs.dirs then IsADirectory
                                          else if FileAbove(fs, path) then NotADirectory
                                          else FileNotFound)
    ensures path in fs.files ==> r == ParseEvaluatorText(h, Translate(fs.files[path]))
  {
    var text :- ReadText(fs, path);
    ParseEvaluatorText(h, text)
  }

  /** A `score` of null is handed to `float()`, which raises TypeError; nothing catches it. */
  lemma NullScoreRaises(h: Host, text: string, data: Fields)
    requires h.loads(text) == Some(JObj(data))
    requires GetCi(data, "score", JNum(0.0)) == JNull
    ensures ParseEvaluatorText(h, text) == Err(TypeError)
  {
  }

  /**
   An artifact holding `json.dumps(e.to_dict())` parses back as `e`, with the dict itself as
   `raw`: the case-insensitive lookups find the exact keys and the notes come back in order.
   */
  lemma ParseWritten(h: Host, e: EvaluationResult)
    requires JsonSound(h) && ResultWellKeyed(e)
    ensures ParseEvaluatorText(h, h.dumps(ToDict(e))) == Ok(e.(raw := ToDict(e)))
  {
    ToDictWellFormed(e);
    assert h.loads(h.dumps(ToDict(e))) == Some(ToDict(e));
    ResultFieldsWritten(h, e);
  }

  /** The field mapping of `parse_evaluator_json` inverts `to_dict`. */
  lemma ResultFieldsWritten(h: Host, e: EvaluationResult)
    requires ResultWellKeyed(e)
    ensures ResultFields(h, ToDict(e).fields) == Ok(e.(raw := ToDict(e)))
  {
    var f := ToDict(e).fields;
    WrittenLookups(e);
    AttributionOfWritten(h, e.attribution);
    assert ParsePracticeAttribution(h, f) == Ok(e.attribution);
  }

  /** Each top-level key of `to_dict` is found exactly, with the value written under it. */
  lemma WrittenLookups(e: EvaluationResult)
    ensures var f := ToDict(e).fields;
            && GetCi(f, "pass", JBool(false)) == JBool(e.passed)
            && GetCi(f, "score", JNum(0.0)) == JNum(e.score)
            && ListEntry(f, "flags") == Ok(e.flags)
            && ListEntry(f, "notes") == Ok(e.notes)
            && Or(GetCi(f, "practice_attribution", JObj([])), JObj([])) == f[4].1
  {
    var f := ToDict(e).fields;
    TopLevelLookups(f);
    StringListOrEmpty(e.flags);
    StringListOrEmpty(e.notes);
  }

  /** The top-level keys of `EvaluationResult.to_dict`, in the order it writes them. */
  const ResultKeys: seq<string> := ["pass", "score", "flags", "notes", "practice_attribution"]

  /** The keys of `to_dict` are distinct, so each is found exactly. */
  lemma TopLevelLookups(f: Fields)
    requires KeyList(f) == ResultKeys
    ensures GetCi(f, "pass", JBool(false)) == f[0].1
    ensures GetCi(f, "score", JNum(0.0)) == f[1].1
    ensures GetCi(f, "flags", JArr([])) == f[2].1
    ensures GetCi(f, "notes", JArr([])) == f[3].1
    ensures GetCi(f, "practice_attribution", JObj([])) == f[4].1
  {
    KeyLookup(f, 0, JBool(false));
    KeyLookup(f, 1, JNum(0.0));
    KeyLookup(f, 2, JArr([]));
    KeyLookup(f, 3, JArr([]));
    KeyLookup(f, 4, JObj([]));
  }

  /** The `i`-th key of `to_dict` is found at position `i`. */
  lemma KeyLookup(f: Fields, i: nat, default: Json)
    requires KeyList(f) == ResultKeys && i < |ResultKeys|
    ensures GetCi(f, ResultKeys[i], default) == f[i].1
  {
    forall j | 0 <= j < i ensures f[j].0 != f[i].0 {
      assert f[j].0 == ResultKeys[j] && f[i].0 == ResultKeys[i];
      // The keys differ in their first letter or, for "pass" and "practice_attribution", in length.
      assert ResultKeys[j][0] != ResultKeys[i][0] || |ResultKeys[j]| != |ResultKeys[i]|;
    }
    assert f[i].0 == ResultKeys[i];
    GetCiAt(f, i, default);
  }

  /** A key no earlier entry has is found exactly, whatever the default. */
  lemma GetCiAt(d: Fields, i: nat, default: Json)
    requires i < |d| && forall j :: 0 <= j < i ==> d[j].0 != d[i].0
    ensures GetCi(d, d[i].0, default) == d[i].1
  {
    LookupAt(d, i);
  }

  /** `parse_evaluator_json` of a file holding `json.dumps(e.to_dict())` gives back `e`. */
  lemma ParseJsonWritten(h: Host, fs: FileSystem, path: Path, e: EvaluationResult)
    requires JsonSound(h) && ResultWellKeyed(e)
    ensures ParseEvaluatorJson(h, WriteText(fs, path, h.dumps(ToDict(e))), path) == Ok(e.(raw := ToDict(e)))
  {
    ToDictWellFormed(e);
    assert '\r' !in h.dumps(ToDict(e));
    ParseWritten(h, e);
  }

  /** A list of strings stored under a key no earlier entry has reads back as those strings. */
  lemma ListEntryAt(d: Fields, i: nat, xs: seq<string>)
    requires i < |d| && forall j :: 0 <= j < i ==> d[j].0 != d[i].0
    requires d[i].1 == StringArray(xs)
    ensures ListEntry(d, d[i].0) == Ok(xs)
  {
    GetCiAt(d, i, JArr([]));
    StringListOrEmpty(xs);
  }

  /** The attribution block `to_dict` writes reads back as the attribution it came from. */
  lemma AttributionOfWritten(h: Host, a: PracticeAttribution)
    requires DistinctKeys(a.notesByPractice)
    ensures AttributionOf(h, JObj([
              ("selected_practices", StringArray(a.selected)),
              ("offending_practices", StringArray(a.offending)),
              ("notes_by_practice", JObj(NotesToJson(a.notesByPractice)))])) == Ok(a)
  {
    var p := [
      ("selected_practices", StringArray(a.selected)),
      ("offending_practices", StringArray(a.offending)),
      ("notes_by_practice", JObj(NotesToJson(a.notesByPractice)))];
    ListEntryAt(p, 0, a.selected);
    ListEntryAt(p, 1, a.offending);
    LookupAt(p, 2);
    var notes := NotesToJson(a.notesByPractice);
    assert NotesItems(p) == Ok(notes);
    NormalizedNotes(h, a.notesByPractice);
    assert DistinctKeys(notes);
    NotesNormalized(h, notes);
  }

  /** Notes written as lists of strings are normalised back into themselves. */
  lemma NormalizedNotes(h: Host, notes: seq<(string, seq<string>)>)
    ensures NormalizedEntries(h, NotesToJson(notes)) == notes
  {
    var r := NormalizedEntries(h, NotesToJson(notes));
    forall i | 0 <= i < |notes| ensures r[i] == notes[i] {
      var xs := notes[i].1;
      var t := NoteTexts(h, StringArray(xs));
      assert forall k :: 0 <= k < |xs| ==> t[k] == Str(h, JStr(xs[k])) == xs[k];
      assert t == xs;
    }
  }

  // ----- evaluate_bundle -----

  /** `log_dir / bundle_path.name / task_path.name`. */
  function OutDir(logDir: Path, bundlePath: Path, taskPath: Path): (r: Path)
    ensures Name(bundlePath) != "" && Name(taskPath) != "" ==> r == logDir + [Name(bundlePath), Name(taskPath)]
  {
    Child(Child(logDir, Name(bundlePath)), Name(taskPath))
  }

  /** The argument list: the split CLI command, then the bundle path, task path and output directory. */
  function Command(h: Host, cliCommand: string, bundlePath: Path, taskPath: Path, logDir: Path)
    : (r: Result<seq<string>>)
    ensures h.shlexSplit(cliCommand).None? ==> r == Err(ValueError)
    ensures h.shlexSplit(cliCommand).Some? ==> r.Ok?
    ensures r.Ok? ==> var base := h.shlexSplit(cliCommand).value;
                      && |r.value| == |base| + 6 && r.value[..|base|] == base
                      && r.value[|base|..] == ["--bundle", PathText(bundlePath), "--task", PathText(taskPath),
                                               "--out", PathText(OutDir(logDir, bundlePath, taskPath))]
  {
    match h.shlexSplit(cliCommand)
    case None => Err(ValueError)
    case Some(base) =>
      var r := base + ["--bundle", PathText(bundlePath), "--task", PathText(taskPath),
                       "--out", PathText(OutDir(logDir, bundlePath, taskPath))];
      assert r[..|base|] == base;
      Ok(r)
  }

  /**
   What `evaluate_bundle` returns once the launches are over: the parsed artifact when it
   exists and parses, the zero result when it is missing or raises a ValueError (which
   includes JSONDecodeError), and any other error as raised.
   */
  function Conclude(h: Host, after: Option<FileSystem>, artifact: Path): (r: Result<EvaluationResult>)
    ensures after.None? ==> r == Ok(Zero)
    ensures after.Some? && !Exists(after.value, artifact) ==> r == Ok(Zero)
    ensures after.Some? && Exists(after.value, artifact) ==>
              var parsed := ParseEvaluatorJson(h, after.value, artifact);
              && (parsed.Ok? ==> r == parsed)
              && (parsed.Err? && IsValueError(parsed.error) ==> r == Ok(Zero))
              && (parsed.Err? && !IsValueError(parsed.error) ==> r == parsed)
    ensures r.Err? ==> !IsValueError(r.error)
  {
    match after
    case None => Ok(Zero)
    case Some(disk) =>
      if !Exists(disk, artifact) then Ok(Zero)
      else
        var parsed := ParseEvaluatorJson(h, disk, artifact);
        if parsed.Err? && IsValueError(parsed.error) then Ok(Zero) else parsed
  }

  /** The output directory can be made and the command splits: the launches can begin. */
  predicate Ready(h: Host, fs: FileSystem, bundlePath: Path, taskPath: Path, cliCommand: string, logDir: Path) {
    MakeDirs(fs, OutDir(logDir, bundlePath, taskPath), true).Ok? && h.shlexSplit(cliCommand).Some?
  }

  /** What the launches and the reading step promise about the result and the number of launches. */
  predicate Evaluated(h: Host, world: nat -> Launch, artifact: Path, r: Result<EvaluationResult>, launches: nat) {
    && 1 <= launches <= 3
    && (world(0).attempt.NotStarted? ==> launches == 1)
    && (world(0).attempt == Exit(0) ==> launches == 1)
    && (Failed(world(0).attempt) && Exists(world(0).disk, artifact) ==> launches == 1)
    && (Failed(world(0).attempt) && !Exists(world(0).disk, artifact) ==> launches == 2)
    && (world(0).attempt.Timeout? && !Failed(world(1).attempt) ==> launches == 2)
    && (world(0).attempt.Timeout? && Failed(world(1).attempt) ==>
          launches == if Exists(world(1).disk, artifact) then 2 else 3)
    && (world(launches - 1).attempt.NotStarted? ==> r == Err(world(launches - 1).attempt.error))
    && (world(0).attempt.Timeout? && world(1).attempt.Timeout? ==> r == Ok(Zero))
    && (!world(launches - 1).attempt.NotStarted? && !(world(0).attempt.Timeout? && world(1).attempt.Timeout?) ==>
          r == Conclude(h, Some(world(launches - 1).disk), artifact))
    && (r.Err? && !world(launches - 1).attempt.NotStarted? ==>
          !IsValueError(r.error))
  }

  /** The launches of the shared retry policy, then the reading step on what the last one left. */
  method Attempts(h: Host, world: nat -> Launch, artifact: Path) returns (r: Result<EvaluationResult>, launches: nat)
    ensures Evaluated(h, world, artifact, r, launches)
  {
    var after, raised;
    launches, after, raised := Launches(world, artifact);
    if raised.Some? {
      // only a timeout is caught around a launch
      r := Err(raised.value);
    } else if after.None? {
      r := Ok(Zero);
    } else {
      r := Conclude(h, Some(world(launches - 1).disk), artifact);
      assert r.Err? ==> !IsValueError(r.error);
    }
  }

  /**
   `evaluate_bundle(bundle_path, task_path, cli_command, log_dir, timeout_seconds)` on the disk
   `fs`. The output directory is made first, so a path through a regular file raises before
   anything else; then the command is split, so a command `shlex` rejects raises ValueError
   with no launch; otherwise the launches follow.
   */
  method EvaluateBundle(h: Host, fs: FileSystem, bundlePath: Path, taskPath: Path, cliCommand: string,
                        logDir: Path, world: nat -> Launch)
    returns (r: Result<EvaluationResult>, cmd: seq<string>, launches: nat)
    ensures MakeDirs(fs, OutDir(logDir, bundlePath, taskPath), true).Err? ==>
              r == Err(MakeDirs(fs, OutDir(logDir, bundlePath, taskPath), true).error) && launches == 0
    ensures MakeDirs(fs, OutDir(logDir, bundlePath, taskPath), true).Ok? && h.shlexSplit(cliCommand).None? ==>
              r == Err(ValueError) && launches == 0
    ensures Ready(h, fs, bundlePath, taskPath, cliCommand, logDir) ==>
              && Command(h, cliCommand, bundlePath, taskPath, logDir) == Ok(cmd)
              && Evaluated(h, world, OutDir(logDir, bundlePath, taskPath) + ["evaluator.json"], r, launches)
  {
    var out := OutDir(logDir, bundlePath, taskPath);
    var made := MakeDirs(fs, out, true);
    if made.Err? {
      return Err(made.error), [], 0;
    }
    var c := Command(h, cliCommand, bundlePath, taskPath, logDir);
    if c.Err? {
      return Err(ValueError), [], 0;
    }
    cmd := c.value;
    r, launches := Attempts(h, world, out + ["evaluator.json"]);
  }
}
