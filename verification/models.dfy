/** The records of the optimiser: practice files, bundles, recorded runs and evaluations. */
module Models {
  import opened Outcomes
  import opened Json
  import opened Runtime
  import opened PyStr
  import opened Disk

  /** One practice markdown file: its front matter and body, kept apart. */
  datatype Practice = Practice(
    fileName: string,
    name: string,
    frontmatter: string,
    body: string,
    path: Option<Path>)

  /** `PracticeFile.render()`: the file text, with a front-matter block only when there is one. */
  function Render(p: Practice): (r: string)
    ensures Strip(p.frontmatter) == "" ==> r == p.body
    ensures Strip(p.frontmatter) != "" ==>
              StartsWith(r, "---\n") && EndsWith(r, "\n---\n\n" + p.body)
  {
    var fm := Strip(p.frontmatter);
    if fm != "" then
      var r := "---\n" + fm + "\n---\n\n" + p.body;
      assert r[..4] == "---\n";
      assert r[|r| - |"\n---\n\n" + p.body|..] == "\n---\n\n" + p.body;
      r
    else p.body
  }

  /** A set of practices plus metadata; `passthrough` holds non-practice files by name. */
  datatype Bundle = Bundle(
    bundleId: string,
    path: Path,
    practices: map<string, Practice>,
    passthrough: map<string, string>,
    meta: Json)

  /** Each practice is filed under its own file name, as every bundle the store builds is. */
  predicate WellKeyed(practices: map<string, Practice>) {
    forall k :: k in practices ==> practices[k].fileName == k
  }

  /** A recorded agent run used as training data. */
  datatype RunArtifact = RunArtifact(
    runId: string,
    runDir: Path,
    goal: string,
    baseCommit: string,
    bundleId: Option<string>,
    meta: Json,
    outputs: Option<seq<(string, string)>>,
    gitDiff: Option<string>,
    dotnetTest: Option<string>,
    dotnetTestError: Option<string>,
    dotnetBuild: Option<string>,
    dotnetBuildError: Option<string>,
    evaluator: Option<Json>)

  /** Evaluator notes scoped to practices, keyed by practice name in evaluator order. */
  datatype PracticeAttribution = PracticeAttribution(
    selected: seq<string>,
    offending: seq<string>,
    notesByPractice: seq<(string, seq<string>)>)

  datatype EvaluationResult = EvaluationResult(
    passed: bool,
    score: real,
    flags: seq<string>,
    notes: seq<string>,
    attribution: PracticeAttribution,
    raw: Json)

  /** `EvaluationResult(passed=False, score=0.0)`: every other field at its default. */
  const Zero: EvaluationResult :=
    EvaluationResult(false, 0.0, [], [], PracticeAttribution([], [], []), JObj([]))

  function NotesToJson(notes: seq<(string, seq<string>)>): (r: Fields)
    ensures |r| == |notes|
    ensures forall i :: 0 <= i < |notes| ==> r[i] == (notes[i].0, StringArray(notes[i].1))
  {
    seq(|notes|, i requires 0 <= i < |notes| => (notes[i].0, StringArray(notes[i].1)))
  }

  /** `EvaluationResult.to_dict()`: everything except `raw`. */
  function ToDict(e: EvaluationResult): (r: Json)
    ensures r.JObj? && KeyList(r.fields) == ["pass", "score", "flags", "notes", "practice_attribution"]
  {
    JObj([
      ("pass", JBool(e.passed)),
      ("score", JNum(e.score)),
      ("flags", StringArray(e.flags)),
      ("notes", StringArray(e.notes)),
      ("practice_attribution", JObj([
        ("selected_practices", StringArray(e.attribution.selected)),
        ("offending_practices", StringArray(e.attribution.offending)),
        ("notes_by_practice", JObj(NotesToJson(e.attribution.notesByPractice)))]))])
  }

  /**
   The values of a `notes_by_practice` dict, which the record declares as lists of strings;
   any other value is `Unmodelled`.
   */
  function NoteLists(items: Fields): (r: Result<seq<(string, seq<string>)>>)
    ensures r.Ok? ==>
              |r.value| == |items| && forall i :: 0 <= i < |items| ==> r.value[i].0 == items[i].0
    decreases |items|
  {
    if |items| == 0 then Ok([])
    else
      var v := items[0].1;
      if !v.JArr? then Err(Unmodelled)
      else
        var notes :- StringList(v);
        var rest :- NoteLists(items[1..]);
        Ok([(items[0].0, notes)] + rest)
  }

  lemma {:induction false} NoteListsOfJson(notes: seq<(string, seq<string>)>)
    ensures NoteLists(NotesToJson(notes)) == Ok(notes)
    decreases |notes|
  {
    if |notes| > 0 {
      var items := NotesToJson(notes);
      StringListOfArray(notes[0].1);
      assert items[0] == (notes[0].0, StringArray(notes[0].1));
      assert items[1..] == NotesToJson(notes[1..]);
      NoteListsOfJson(notes[1..]);
      assert NoteLists(items) == Ok([(notes[0].0, notes[0].1)] + notes[1..]);
      assert [(notes[0].0, notes[0].1)] + notes[1..] == notes;
    }
  }

  /**
   `EvaluationResult.from_dict(data)`, with Python's evaluation order deciding which error
   comes first: `.get` on a non-dict, then `float()`, then `list()` and `dict()`.
   */
  function FromDict(h: Host, data: Json): (r: Result<EvaluationResult>)
    ensures !data.JObj? ==> r == Err(AttributeError)
    ensures r.Ok? ==> r.value.raw == data
    ensures r.Ok? ==> r.value.passed == Truthy(GetOr(data.fields, "pass", JBool(false)))
    ensures r.Ok? ==> Float(h, GetOr(data.fields, "score", JNum(0.0))) == Ok(r.value.score)
    ensures r.Ok? && !Truthy(GetOr(data.fields, "flags", JNull)) ==> r.value.flags == []
    ensures r.Ok? && !Truthy(GetOr(data.fields, "notes", JNull)) ==> r.value.notes == []
    ensures r.Ok? && !Truthy(GetOr(data.fields, "practice_attribution", JNull)) ==>
              r.value.attribution == PracticeAttribution([], [], [])
  {
    if !data.JObj? then Err(AttributeError)
    else
      var d := data.fields;
      var practice := Or(GetOr(d, "practice_attribution", JNull), JObj([]));
      var score := Float(h, GetOr(d, "score", JNum(0.0)));
      var flags := StringList(Or(GetOr(d, "flags", JNull), JArr([])));
      var notes := StringList(Or(GetOr(d, "notes", JNull), JArr([])));
      if score.Err? then Err(score.error)
      else if flags.Err? then Err(flags.error)
      else if notes.Err? then Err(notes.error)
      else if !practice.JObj? then Err(AttributeError)
      else
        var attribution := AttributionFromDict(practice.fields);
        if attribution.Err? then Err(attribution.error)
        else
          Ok(EvaluationResult(Truthy(GetOr(d, "pass", JBool(false))), score.value, flags.value, notes.value,
                              attribution.value, data))
  }

  /** `from_dict({})` is the zero result, with the empty dict as `raw`. */
  lemma FromDictEmpty(h: Host)
    ensures FromDict(h, JObj([])) == Ok(Zero)
  {
    var none: Fields := [];
    EmptyDefaults();
    EmptyAttribution();
    assert Float(h, JNum(0.0)) == Ok(0.0);
  }

  lemma EmptyDefaults()
    ensures GetOr([], "score", JNum(0.0)) == JNum(0.0)
    ensures GetOr([], "pass", JBool(false)) == JBool(false)
    ensures StringList(Or(GetOr([], "flags", JNull), JArr([]))) == Ok([])
    ensures StringList(Or(GetOr([], "notes", JNull), JArr([]))) == Ok([])
    ensures Or(GetOr([], "practice_attribution", JNull), JObj([])) == JObj([])
  {
    assert StringList(JArr([])) == Ok([]);
  }

  lemma EmptyAttribution()
    ensures AttributionFromDict([]) == Ok(PracticeAttribution([], [], []))
  {
    assert StringList(JArr([])) == Ok([]);
  }

  /** The `practice_attribution` part of `from_dict`, once it is known to be a dict. */
  function AttributionFromDict(p: Fields): (r: Result<PracticeAttribution>)
    ensures r.Ok? ==> StringList(Or(GetOr(p, "selected_practices", JNull), JArr([]))) == Ok(r.value.selected)
    ensures r.Ok? ==> StringList(Or(GetOr(p, "offending_practices", JNull), JArr([]))) == Ok(r.value.offending)
  {
    var selected := StringList(Or(GetOr(p, "selected_practices", JNull), JArr([])));
    var offending := StringList(Or(GetOr(p, "offending_practices", JNull), JArr([])));
    var items := DictItems(Or(GetOr(p, "notes_by_practice", JNull), JObj([])));
    if selected.Err? then Err(selected.error)
    else if offending.Err? then Err(offending.error)
    else if items.Err? then Err(items.error)
    else
      var byPractice := NoteLists(items.value);
      if byPractice.Err? then Err(byPractice.error)
      else Ok(PracticeAttribution(selected.value, offending.value, byPractice.value))
  }

  lemma StringListOrEmpty(xs: seq<string>)
    ensures StringList(Or(StringArray(xs), JArr([]))) == Ok(xs)
  {
    StringListOfArray(xs);
    if xs == [] {
      assert StringArray(xs) == JArr([]);
    }
  }

  /** `from_dict(to_dict(e))` gives back every field of `e`; `raw` becomes the dict itself. */
  lemma FromDictToDict(h: Host, e: EvaluationResult)
    ensures FromDict(h, ToDict(e)) == Ok(e.(raw := ToDict(e)))
  {
    var d := ToDict(e);
    var a := e.attribution;
    var pa := JObj([
      ("selected_practices", StringArray(a.selected)),
      ("offending_practices", StringArray(a.offending)),
      ("notes_by_practice", JObj(NotesToJson(a.notesByPractice)))]);
    var f := d.fields;
    LookupAt(f, 0);
    LookupAt(f, 1);
    LookupAt(f, 2);
    LookupAt(f, 3);
    LookupAt(f, 4);
    assert GetOr(f, "pass", JBool(false)) == JBool(e.passed);
    assert GetOr(f, "score", JNum(0.0)) == JNum(e.score);
    assert GetOr(f, "flags", JNull) == StringArray(e.flags);
    assert GetOr(f, "notes", JNull) == StringArray(e.notes);
    assert GetOr(f, "practice_attribution", JNull) == pa;
    assert Or(pa, JObj([])) == pa;
    StringListOrEmpty(e.flags);
    StringListOrEmpty(e.notes);
    AttributionRoundTrip(a);
  }

  lemma AttributionRoundTrip(a: PracticeAttribution)
    ensures AttributionFromDict([
      ("selected_practices", StringArray(a.selected)),
      ("offending_practices", StringArray(a.offending)),
      ("notes_by_practice", JObj(NotesToJson(a.notesByPractice)))]) == Ok(a)
  {
    var p := [
      ("selected_practices", StringArray(a.selected)),
      ("offending_practices", StringArray(a.offending)),
      ("notes_by_practice", JObj(NotesToJson(a.notesByPractice)))];
    LookupAt(p, 0);
    LookupAt(p, 1);
    LookupAt(p, 2);
    StringListOrEmpty(a.selected);
    StringListOrEmpty(a.offending);
    NoteListsOfJson(a.notesByPractice);
    assert DictItems(Or(JObj(NotesToJson(a.notesByPractice)), JObj([]))) == Ok(NotesToJson(a.notesByPractice)) by {
      if a.notesByPractice == [] {
        assert NotesToJson(a.notesByPractice) == [];
      }
    }
  }

  /** A result whose `notes_by_practice` could come from a dict: no practice listed twice. */
  predicate ResultWellKeyed(e: EvaluationResult) {
    DistinctKeys(e.attribution.notesByPractice)
  }

  lemma StringArrayWellFormed(xs: seq<string>)
    ensures WellFormed(StringArray(xs))
  {
  }

  lemma NotesWellFormed(notes: seq<(string, seq<string>)>)
    requires DistinctKeys(notes)
    ensures WellFormed(JObj(NotesToJson(notes)))
  {
    var f := NotesToJson(notes);
    forall i | 0 <= i < |f| ensures WellFormed(f[i].1) {
      StringArrayWellFormed(notes[i].1);
    }
  }

  /** `to_dict()` of a well-keyed result is a value Python's `json` can hold. */
  lemma ToDictWellFormed(e: EvaluationResult)
    requires ResultWellKeyed(e)
    ensures WellFormed(ToDict(e))
  {
    var a := e.attribution;
    NotesWellFormed(a.notesByPractice);
    StringArrayWellFormed(a.selected);
    StringArrayWellFormed(a.offending);
    StringArrayWellFormed(e.flags);
    StringArrayWellFormed(e.notes);
    var pa := [
      ("selected_practices", StringArray(a.selected)),
      ("offending_practices", StringArray(a.offending)),
      ("notes_by_practice", JObj(NotesToJson(a.notesByPractice)))];
    assert DistinctKeys(pa);
    assert WellFormed(JObj(pa));
    var d := ToDict(e);
    assert DistinctKeys(d.fields) by {
      assert KeyList(d.fields) == ["pass", "score", "flags", "notes", "practice_attribution"];
    }
  }
}
