/**
 The GEPA plumbing around `BundleProgram` in `run_gepa.py`: the run ids of a training
 example, the attribution preflight, the metric GEPA scores predictions with, the
 component selector, and how run ids are cut into batches and a development set.
 */
module RunGepa {
  import opened Outcomes
  import opened Runtime
  import opened Models
  import opened Router
  import PyStr

  // ---------------------------------------------------------------------------------------
  // Training examples

  /** What a `dspy.Example` holds under `run_ids`: nothing, an explicit `None`, or run ids. */
  datatype Slot = Missing | Null | Given(ids: RunIds)

  /**
   `_normalize_batch_run_ids(example)`. An example without `run_ids` has no runs; an explicit
   `None` reaches the list comprehension and raises `TypeError`; a list is kept and a string
   is split on commas without empty pieces, as `forward` does.
   */
  function BatchRunIds(example: Slot): (r: Result<seq<string>>)
    ensures r.Err? <==> example.Null?
    ensures r.Err? ==> r.error == TypeError
    ensures example.Missing? ==> r == Ok([])
    ensures example.Given? && example.ids.Listed? ==> r == Ok(example.ids.ids)
    ensures example.Given? && example.ids.Csv? ==>
              forall i :: 0 <= i < |r.value| ==> r.value[i] != "" && ',' !in r.value[i]
    ensures example.Given? && example.ids.Csv? ==>
              forall x :: x in r.value <==> x in PyStr.Split(example.ids.text, ",", -1) && x != ""
  {
    match example
    case Missing => Ok([])
    case Null => Err(TypeError)
    case Given(ids) => Ok(NormalizeRunIds(ids))
  }

  /** `forward` keeps the ids `_normalize_batch_run_ids` hands it as they are. */
  lemma BatchRunIdsStable(example: Slot)
    requires BatchRunIds(example).Ok?
    ensures NormalizeRunIds(Listed(BatchRunIds(example).value)) == BatchRunIds(example).value
  {
  }

  // ---------------------------------------------------------------------------------------
  // Preflight

  /**
   `run_attribution_preflight(program, trainset)`: `forward` over the first example's runs,
   with the mutation state put back afterwards whether or not `forward` raised. The answer is
   the outcome and the program after the call: `Ok(())` when some predictor received targeted
   feedback, `RuntimeError` when none did.
   */
  function Preflight(h: Host, p: Program, trainset: seq<Slot>, instr: seq<string>,
                     eval: string -> Result<EvaluationResult>, runs: set<string>)
    : (r: (Result<()>, Program))
    requires |instr| == |p.preds|
    ensures r.1 == p
    ensures trainset == [] ==> r.0 == Err(ValueError)
    ensures trainset != [] && trainset[0].Null? ==> r.0 == Err(TypeError)
    ensures trainset != [] && BatchRunIds(trainset[0]).Ok? ==>
              var f := Forward(h, p, Listed(BatchRunIds(trainset[0]).value), instr, eval, runs);
              && (f.Err? ==> r.0 == Err(f.error))
              && (f.Ok? ==> (r.0.Ok? <==> f.value.0.feedbackByPred != map[]))
              && (f.Ok? && r.0.Err? ==> r.0.error == RuntimeError)
  {
    if trainset == [] then (Err(ValueError), p)
    else
      var batch := BatchRunIds(trainset[0]);
      if batch.Err? then (Err(batch.error), p)
      else
        var saved := Snapshot(p);
        var outcome := Forward(h, p, Listed(batch.value), instr, eval, runs);
        var after := if outcome.Ok? then outcome.value.1 else p;
        var restored := Restore(after, saved);
        if outcome.Err? then (Err(outcome.error), restored)
        else if outcome.value.0.feedbackByPred != map[] then (Ok(()), restored)
        else (Err(RuntimeError), restored)
  }

  /**
   The preflight passes exactly when the first batch is non-empty, every run evaluates and is
   known, and some run's `notes_by_practice` resolves to a predictor's file.
   */
  lemma PreflightPasses(h: Host, p: Program, trainset: seq<Slot>, instr: seq<string>,
                        eval: string -> Result<EvaluationResult>, runs: set<string>)
    requires |instr| == |p.preds| && trainset != [] && BatchRunIds(trainset[0]).Ok?
    ensures var batch := BatchRunIds(trainset[0]).value;
            Preflight(h, p, trainset, instr, eval, runs).0.Ok? <==>
              && batch != []
              && EvaluateAll(batch, eval).Ok?
              && (forall k :: 0 <= k < |batch| ==> batch[k] in runs)
              && exists i, run :: 0 <= i < |p.preds| && 0 <= run < |batch|
                                  && p.preds[i].fileName in ExtractTargeted(p, EvaluateAll(batch, eval).value[run].1)
  {
    var batch := BatchRunIds(trainset[0]).value;
    PreflightOnForward(h, p, trainset, instr, eval, runs);
    assert NormalizeRunIds(Listed(batch)) == batch;
    ForwardGivesFeedback(h, p, Listed(batch), instr, eval, runs);
  }

  lemma PreflightOnForward(h: Host, p: Program, trainset: seq<Slot>, instr: seq<string>,
                           eval: string -> Result<EvaluationResult>, runs: set<string>)
    requires |instr| == |p.preds| && trainset != [] && BatchRunIds(trainset[0]).Ok?
    ensures var f := Forward(h, p, Listed(BatchRunIds(trainset[0]).value), instr, eval, runs);
            Preflight(h, p, trainset, instr, eval, runs).0.Ok? <==> f.Ok? && f.value.0.feedbackByPred != map[]
  {
  }

  /**
   A forward gives some predictor feedback exactly when its batch is non-empty, every run
   evaluates and is known, and some run's notes resolve to a predictor's file.
   */
  lemma ForwardGivesFeedback(h: Host, p: Program, ids: RunIds, instr: seq<string>,
                             eval: string -> Result<EvaluationResult>, runs: set<string>)
    requires |instr| == |p.preds|
    ensures var batch := NormalizeRunIds(ids);
            var f := Forward(h, p, ids, instr, eval, runs);
            f.Ok? && f.value.0.feedbackByPred != map[] <==>
              && batch != []
              && EvaluateAll(batch, eval).Ok?
              && (forall k :: 0 <= k < |batch| ==> batch[k] in runs)
              && exists i, run :: 0 <= i < |p.preds| && 0 <= run < |batch|
                                  && p.preds[i].fileName in ExtractTargeted(p, EvaluateAll(batch, eval).value[run].1)
  {
    var batch := NormalizeRunIds(ids);
    var f := Forward(h, p, ids, instr, eval, runs);
    if batch == [] {
      assert f == Ok((Prediction(0.0, "No runs provided", map[]), p));
    } else if EvaluateAll(batch, eval).Err? {
      assert f.Err?;
    } else if !(forall k :: 0 <= k < |batch| ==> batch[k] in runs) {
      assert f.Err?;
    } else {
      var evals := EvaluateAll(batch, eval).value;
      assert f == Ok(Conclude(h, p, CurrentUpdates(p, instr), evals));
      FeedbackNonEmpty(h, p, CurrentUpdates(p, instr), evals);
    }
  }

  /** Some predictor receives feedback exactly when some run's notes resolve to a predictor's file. */
  lemma FeedbackNonEmpty(h: Host, p: Program, updates: map<string, string>, evals: seq<(string, EvaluationResult)>)
    requires evals != []
    ensures Conclude(h, p, updates, evals).0.feedbackByPred != map[] <==>
              exists i, run :: 0 <= i < |p.preds| && 0 <= run < |evals|
                               && p.preds[i].fileName in ExtractTargeted(p, evals[run].1)
  {
    var targeted := Collect(p, evals);
    FeedbackMapNonEmpty(h, p, evals, targeted);
    if exists i :: 0 <= i < |p.preds| && p.preds[i].fileName in targeted {
      var i :| 0 <= i < |p.preds| && p.preds[i].fileName in targeted;
      var run :| 0 <= run < |evals| && p.preds[i].fileName in ExtractTargeted(p, evals[run].1);
    }
  }

  /** The feedback map is empty exactly when no predictor's file is targeted. */
  lemma FeedbackMapNonEmpty(h: Host, p: Program, evals: seq<(string, EvaluationResult)>, targeted: set<string>)
    ensures FeedbackMap(h, p, evals, targeted) != map[] <==>
              exists i :: 0 <= i < |p.preds| && p.preds[i].fileName in targeted
  {
    var fb := FeedbackMap(h, p, evals, targeted);
    if fb != map[] {
      var k :| k in fb;
      var i :| 0 <= i < |p.preds| && k == PredName(i);
    }
    if exists i :: 0 <= i < |p.preds| && p.preds[i].fileName in targeted {
      var i :| 0 <= i < |p.preds| && p.preds[i].fileName in targeted;
      assert PredName(i) in fb;
    }
  }

  // ---------------------------------------------------------------------------------------
  // Metric

  /** What `metric_fn` returns: a bare score, or a score with feedback for one predictor. */
  datatype Metric = Score(score: real) | Scored(score: real, feedback: string)

  const NoTargetedFeedback := "No targeted feedback for this predictor."

  /**
   `metric_fn(gold, pred, trace, pred_name, pred_trace)`; only `pred` and `pred_name` matter.
   A missing or empty predictor name asks for the score alone.
   */
  function MetricFn(pred: Prediction, predName: Option<string>): (r: Metric)
    ensures r.score == pred.score
    ensures r.Scored? <==> predName.Some? && predName.value != ""
    ensures r.Scored? && predName.value in pred.feedbackByPred ==> r.feedback == pred.feedbackByPred[predName.value]
    ensures r.Scored? && predName.value !in pred.feedbackByPred ==> r.feedback == NoTargetedFeedback
  {
    if predName.None? || predName.value == "" then Score(pred.score)
    else
      var name := predName.value;
      Scored(pred.score, if name in pred.feedbackByPred then pred.feedbackByPred[name] else NoTargetedFeedback)
  }

  /**
   After a forward, GEPA's feedback for predictor `practice_<i>` is the block of summary and
   notes when its file was targeted, and the fixed text otherwise.
   */
  lemma MetricAfterForward(h: Host, p: Program, updates: map<string, string>,
                           evals: seq<(string, EvaluationResult)>, i: nat)
    requires evals != [] && i < |p.preds|
    ensures var pred := Conclude(h, p, updates, evals).0;
            var m := MetricFn(pred, Some(PredName(i)));
            && m.Scored?
            && m.score == SumScores(evals) / |evals| as real
            && m.feedback == if p.preds[i].fileName in Collect(p, evals)
                             then Block(Summary(h, evals), NotesFor(p, evals, p.preds[i].fileName))
                             else NoTargetedFeedback
  {
    assert PredName(i)[0] == 'p';
  }

  // ---------------------------------------------------------------------------------------
  // Component selection

  /**
   The part of GEPA's state the selector uses: `list_of_named_predictors` and
   `named_predictor_id_to_update_next_for_program_candidate`.
   */
  datatype GepaState = GepaState(predictors: seq<string>, next: seq<int>)

  /** A trajectory's prediction: the keys of its `feedback_by_pred`, or `None` when that is not a dict. */
  datatype Trajectory = Trajectory(feedbackKeys: Option<set<string>>)

  /** The predictor names some trajectory has feedback for, among the candidate's names. */
  function FeedbackTargets(trajectories: seq<Trajectory>, candidate: set<string>): (r: set<string>)
    ensures r <= candidate
    ensures forall n :: n in r <==>
              n in candidate && exists t :: 0 <= t < |trajectories| && Mentions(trajectories[t], n)
    decreases |trajectories|
  {
    if trajectories == [] then {}
    else
      var t := trajectories[|trajectories| - 1];
      var rest := FeedbackTargets(trajectories[..|trajectories| - 1], candidate);
      assert forall k :: 0 <= k < |trajectories| - 1 ==> trajectories[..|trajectories| - 1][k] == trajectories[k];
      if t.feedbackKeys.Some? then rest + (t.feedbackKeys.value * candidate) else rest
  }

  predicate Mentions(t: Trajectory, name: string) {
    t.feedbackKeys.Some? && name in t.feedbackKeys.value
  }

  /** `[x for x in xs if x in s]`. */
  function Keep(xs: seq<string>, s: set<string>): (r: seq<string>)
    ensures forall i :: 0 <= i < |r| ==> r[i] in s && r[i] in xs
    ensures forall x :: x in xs && x in s ==> x in r
    decreases |xs|
  {
    if xs == [] then []
    else
      var rest := Keep(xs[..|xs| - 1], s);
      var x := xs[|xs| - 1];
      assert forall y :: y in xs ==> y in xs[..|xs| - 1] || y == x;
      if x in s then rest + [x] else rest
  }

  /** Filtering keeps the order: it distributes over concatenation. */
  lemma {:induction false} KeepAppend(xs: seq<string>, ys: seq<string>, s: set<string>)
    ensures Keep(xs + ys, s) == Keep(xs, s) + Keep(ys, s)
    decreases |ys|
  {
    if ys != [] {
      var n := |ys| - 1;
      assert (xs + ys)[..|xs + ys| - 1] == xs + ys[..n];
      KeepAppend(xs, ys[..n], s);
    } else {
      assert xs + ys == xs;
    }
  }

  /** A list whose every element passes the filter comes out unchanged. */
  lemma {:induction false} KeepAll(xs: seq<string>, s: set<string>)
    requires forall i :: 0 <= i < |xs| ==> xs[i] in s
    ensures Keep(xs, s) == xs
    decreases |xs|
  {
    if xs != [] {
      KeepAll(xs[..|xs| - 1], s);
    }
  }

  /** Python's `xs[i]`: a negative index counts from the end. */
  function PyIndex<T>(xs: seq<T>, i: int): (r: Result<T>)
    ensures r.Ok? <==> -|xs| <= i < |xs|
    ensures 0 <= i < |xs| ==> r == Ok(xs[i])
    ensures -|xs| <= i < 0 ==> r == Ok(xs[|xs| + i])
  {
    if 0 <= i < |xs| then Ok(xs[i])
    else if -|xs| <= i < 0 then Ok(xs[|xs| + i])
    else Err(IndexError)
  }

  /**
   `select_feedback_targeted_components(state, trajectories, ..., candidate_idx, candidate)`,
   where `candidate` stands for the candidate's predictor names. With targeted feedback, the
   answer is the targeted names in `list_of_named_predictors` order and the state is left
   alone. Otherwise it falls back to round robin: the candidate's next predictor is returned
   and its counter advances modulo the number of predictors, before the predictor list is
   indexed. The state after the call comes with the answer.
   */
  function SelectComponents(s: GepaState, trajectories: seq<Trajectory>, candidateIdx: int, candidate: set<string>)
    : (r: (Result<seq<string>>, GepaState))
    ensures r.1.predictors == s.predictors && |r.1.next| == |s.next|
    ensures FeedbackTargets(trajectories, candidate) != {} ==>
              r == (Ok(Keep(s.predictors, FeedbackTargets(trajectories, candidate))), s)
    ensures FeedbackTargets(trajectories, candidate) == {} && PyIndex(s.next, candidateIdx).Err? ==>
              r == (Err(IndexError), s)
    ensures FeedbackTargets(trajectories, candidate) == {} && PyIndex(s.next, candidateIdx).Ok? && s.predictors == [] ==>
              r == (Err(ZeroDivision), s)
    ensures FeedbackTargets(trajectories, candidate) == {} && PyIndex(s.next, candidateIdx).Ok? && s.predictors != [] ==>
              var pid := PyIndex(s.next, candidateIdx).value;
              var slot := if candidateIdx < 0 then |s.next| + candidateIdx else candidateIdx;
              && r.1.next == s.next[slot := (pid + 1) % |s.predictors|]
              && 0 <= r.1.next[slot] < |s.predictors|
              && r.0 == match PyIndex(s.predictors, pid) case Ok(name) => Ok([name]) case Err(e) => Err(e)
  {
    var targeted := FeedbackTargets(trajectories, candidate);
    if targeted != {} then (Ok(Keep(s.predictors, targeted)), s)
    else
      match PyIndex(s.next, candidateIdx)
      case Err(e) => (Err(e), s)
      case Ok(pid) =>
        if s.predictors == [] then (Err(ZeroDivision), s)
        else
          var slot := if candidateIdx < 0 then |s.next| + candidateIdx else candidateIdx;
          var s' := s.(next := s.next[slot := (pid + 1) % |s.predictors|]);
          match PyIndex(s.predictors, pid)
          case Ok(name) => (Ok([name]), s')
          case Err(e) => (Err(e), s')
  }

  /** The state after `k` selections for candidate `idx` with no targeted feedback. */
  function RoundRobin(s: GepaState, idx: int, k: nat): GepaState
    decreases k
  {
    if k == 0 then s else SelectComponents(RoundRobin(s, idx, k - 1), [], idx, {}).1
  }

  lemma NoTrajectoriesNoTargets(candidate: set<string>)
    ensures FeedbackTargets([], candidate) == {}
  {
  }

  /**
   Without targeted feedback, a candidate's selections cycle through the predictors: the
   `k`-th selection after a counter at `pid` returns predictor `(pid + k) mod n`.
   */
  lemma RoundRobinCycles(s: GepaState, idx: nat, k: nat)
    requires idx < |s.next| && s.predictors != [] && 0 <= s.next[idx] < |s.predictors|
    ensures SelectComponents(RoundRobin(s, idx, k), [], idx, {}).0
         == Ok([s.predictors[(s.next[idx] + k) % |s.predictors|]])
  {
    RoundRobinCounter(s, idx, k);
    SelectStep(RoundRobin(s, idx, k), idx);
  }

  /** After `k` fallback selections the counter has moved on by `k`, modulo the number of predictors. */
  lemma {:induction false} RoundRobinCounter(s: GepaState, idx: nat, k: nat)
    requires idx < |s.next| && s.predictors != [] && 0 <= s.next[idx] < |s.predictors|
    ensures var a := RoundRobin(s, idx, k);
            && a.predictors == s.predictors && |a.next| == |s.next|
            && a.next[idx] == (s.next[idx] + k) % |s.predictors|
    decreases k
  {
    var n := |s.predictors|;
    if k == 0 {
      ModUnique(s.next[idx], n, 0, s.next[idx]);
    } else {
      RoundRobinCounter(s, idx, k - 1);
      CounterStep(RoundRobin(s, idx, k - 1), idx, s.next[idx] + k - 1);
    }
  }

  /** One more selection from a counter at `x mod n` leaves it at `(x + 1) mod n`. */
  lemma CounterStep(a: GepaState, idx: nat, x: nat)
    requires idx < |a.next| && a.predictors != [] && a.next[idx] == x % |a.predictors|
    ensures var b := SelectComponents(a, [], idx, {}).1;
            && b.predictors == a.predictors && |b.next| == |a.next|
            && b.next[idx] == (x + 1) % |a.predictors|
  {
    SelectStep(a, idx);
    ModSucc(x, |a.predictors|);
  }

  /** One fallback selection from a counter in range. */
  lemma SelectStep(a: GepaState, idx: nat)
    requires idx < |a.next| && a.predictors != [] && 0 <= a.next[idx] < |a.predictors|
    ensures var b := SelectComponents(a, [], idx, {});
            && b.0 == Ok([a.predictors[a.next[idx]]])
            && b.1.predictors == a.predictors && |b.1.next| == |a.next|
            && b.1.next[idx] == (a.next[idx] + 1) % |a.predictors|
  {
    NoTrajectoriesNoTargets({});
  }

  lemma ModSucc(x: nat, n: nat)
    requires n > 0
    ensures (x % n + 1) % n == (x + 1) % n
  {
    var q := x / n;
    var r := x % n;
    if r + 1 < n {
      ModUnique(x + 1, n, q, r + 1);
      ModUnique(r + 1, n, 0, r + 1);
    } else {
      ModUnique(x + 1, n, q + 1, 0);
      ModUnique(r + 1, n, 1, 0);
    }
  }

  /** Euclidean division is unique. */
  lemma ModUnique(a: int, n: int, q: int, m: int)
    requires n > 0 && a == q * n + m && 0 <= m < n
    ensures a % n == m && a / n == q
  {
    var q' := a / n;
    var m' := a % n;
    assert (q - q') * n == m' - m;
    if q > q' {
      MulAtLeast(q - q', n);
    } else if q < q' {
      MulAtLeast(q' - q, n);
    }
  }

  lemma MulAtLeast(d: int, n: int)
    requires d >= 1 && n > 0
    ensures d * n >= n
  {
  }

  // ---------------------------------------------------------------------------------------
  // Batches and the development set

  /** The concatenation of a list of batches. */
  function Flatten(batches: seq<seq<string>>): seq<string>
    decreases |batches|
  {
    if batches == [] then [] else Flatten(batches[..|batches| - 1]) + batches[|batches| - 1]
  }

  /**
   `build_batches(run_ids, batch_size)`: no batches for no runs, one batch when the size is
   not positive or covers every run, and otherwise consecutive batches of `batch_size` runs
   with the remainder last.
   */
  method BuildBatches(runIds: seq<string>, batchSize: int) returns (batches: seq<seq<string>>)
    ensures runIds == [] ==> batches == []
    ensures runIds != [] && (batchSize <= 0 || batchSize >= |runIds|) ==> batches == [runIds]
    ensures Flatten(batches) == runIds
    ensures forall b :: 0 <= b < |batches| ==> batches[b] != []
    ensures batchSize > 0 ==> forall b :: 0 <= b < |batches| ==> |batches[b]| <= batchSize
    ensures batchSize > 0 ==> forall b :: 0 <= b < |batches| - 1 ==> |batches[b]| == batchSize
  {
    if runIds == [] {
      return [];
    }
    if batchSize <= 0 || batchSize >= |runIds| {
      assert Flatten([runIds]) == Flatten([]) + runIds;
      return [runIds];
    }
    batches := [];
    var current: seq<string> := [];
    var i := 0;
    while i < |runIds|
      invariant 0 <= i <= |runIds|
      invariant Flatten(batches) + current == runIds[..i]
      invariant |current| < batchSize
      invariant forall b :: 0 <= b < |batches| ==> |batches[b]| == batchSize
    {
      current := current + [runIds[i]];
      assert Flatten(batches) + current == runIds[..i + 1];
      if |current| == batchSize {
        assert (batches + [current])[..|batches|] == batches;
        batches := batches + [current];
        current := [];
      }
      i := i + 1;
    }
    assert runIds[..i] == runIds;
    if current != [] {
      assert (batches + [current])[..|batches|] == batches;
      batches := batches + [current];
    }
  }

  /**
   `split_devset(run_ids)`: with two runs or more, the last run is held out as the development
   set; otherwise every run trains.
   */
  function SplitDevset(runIds: seq<string>): (r: (seq<string>, seq<string>))
    ensures r.0 + r.1 == runIds
    ensures |r.1| == 1 <==> |runIds| >= 2
    ensures |runIds| < 2 ==> r.1 == []
  {
    if |runIds| >= 3 then (runIds[..|runIds| - 1], runIds[|runIds| - 1..])
    else if |runIds| == 2 then (runIds[..1], runIds[1..])
    else (runIds, [])
  }
}
