/**
 The launch-and-retry decision tree shared by both `evaluate_bundle` implementations: how
 many times the evaluator CLI is launched, and whether its `evaluator.json` is consulted
 afterwards. The subprocess is an oracle `world`: launch number `i` (from 0) ends as
 `world(i).attempt` and leaves the files `world(i).disk` behind.
 */
module Retry {
  import opened Outcomes
  import opened Disk

  /**
   How one `subprocess.run` ended: `TimeoutExpired`, an exit status, or an exception raised
   before the program ran (FileNotFoundError for a missing executable, PermissionError for
   one that cannot be run), which no caller catches.
   */
  datatype Attempt = Timeout | Exit(code: int) | NotStarted(error: PyError)

  /** One launch of the CLI: how it ended and the file system it left. */
  datatype Launch = Launch(attempt: Attempt, disk: FileSystem)

  predicate Failed(a: Attempt) {
    a.Exit? && a.code != 0
  }

  /**
   The launches `evaluate_bundle` makes. A timeout is retried once, and a second timeout
   ends the evaluation with no artifact consulted (`None`). A non-zero exit that left no
   `artifact` is launched once more, whatever that last launch does. Otherwise the answer is
   the file system after the last launch, where the caller looks for the artifact. A launch
   that does not start ends the tree with its exception in `raised`.
   */
  method Launches(world: nat -> Launch, artifact: Path)
    returns (count: nat, after: Option<FileSystem>, raised: Option<PyError>)
    ensures 1 <= count <= 3
    ensures raised.Some? <==> world(count - 1).attempt.NotStarted?
    ensures raised.Some? ==> raised.value == world(count - 1).attempt.error && after.None?
    ensures forall i :: 0 <= i < count - 1 ==> !world(i).attempt.NotStarted?
    ensures after.None? && raised.None? <==> world(0).attempt.Timeout? && world(1).attempt.Timeout?
    ensures after.None? && raised.None? ==> count == 2
    ensures after.Some? ==> after.value == world(count - 1).disk
    ensures world(0).attempt == Exit(0) ==> count == 1
    ensures world(0).attempt.Timeout? ==> count >= 2
    ensures Failed(world(0).attempt) && Exists(world(0).disk, artifact) ==> count == 1
    ensures Failed(world(0).attempt) && !Exists(world(0).disk, artifact) ==> count == 2
    ensures world(0).attempt.Timeout? && world(1).attempt == Exit(0) ==> count == 2
    ensures count == 3 <==>
              world(0).attempt.Timeout? && Failed(world(1).attempt) && !Exists(world(1).disk, artifact)
  {
    count := 1;
    var last := world(0);
    if last.attempt.NotStarted? {
      return count, None, Some(last.attempt.error);
    }
    if last.attempt.Timeout? {
      count := 2;
      last := world(1);
      if last.attempt.NotStarted? {
        return count, None, Some(last.attempt.error);
      }
      if last.attempt.Timeout? {
        return count, None, None;
      }
    }
    if Failed(last.attempt) && !Exists(last.disk, artifact) {
      last := world(count);
      count := count + 1;
      if last.attempt.NotStarted? {
        return count, None, Some(last.attempt.error);
      }
    }
    after := Some(last.disk);
    raised := None;
  }
}
