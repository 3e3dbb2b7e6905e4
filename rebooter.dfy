/**
 * `rebooter.py`: the driver that feeds the headless miner batches of projects
 * and requeues the rest of a batch when one project's opening hangs. The
 * `run` function (a thread, a subprocess, a polling loop over the timeout log
 * and a kill signal) is the parameter `run`: for each round it gives the
 * batch's outcome, the name of the project it terminated or none.
 */
module Rebooter {
  import opened Wrappers
  import opened Text

  // ----- chunk -----

  /** The concatenation of a list of lists. */
  function Flatten<T>(xss: seq<seq<T>>): seq<T> {
    if xss == [] then [] else xss[0] + Flatten(xss[1..])
  }

  /**
   * `chunk(it, size)`: consecutive tuples of `size` items, the last one possibly
   * shorter; with size 0 the first `islice` is empty, which ends the iteration.
   */
  function Chunk<T>(xs: seq<T>, size: nat): seq<seq<T>>
    decreases |xs|
  {
    if size == 0 || xs == [] then []
    else
      var n := if size < |xs| then size else |xs|;
      [xs[..n]] + Chunk(xs[n..], size)
  }

  /**
   * With a positive size the chunks spell the input, none is empty or longer
   * than the size, and all but the last have exactly the size; with size 0
   * there are none.
   */
  lemma {:induction false} ChunkMeaning<T>(xs: seq<T>, size: nat)
    ensures size == 0 ==> Chunk(xs, size) == []
    ensures size > 0 ==> Flatten(Chunk(xs, size)) == xs
    ensures forall k :: 0 <= k < |Chunk(xs, size)| ==> 0 < |Chunk(xs, size)[k]| <= size
    ensures forall k :: 0 <= k < |Chunk(xs, size)| - 1 ==> |Chunk(xs, size)[k]| == size
    decreases |xs|
  {
    if size > 0 && xs != [] {
      var n := if size < |xs| then size else |xs|;
      ChunkMeaning(xs[n..], size);
      var cs := Chunk(xs, size);
      assert cs[1..] == Chunk(xs[n..], size);
      assert xs[..n] + xs[n..] == xs;
      forall k | 0 <= k < |cs| - 1 ensures |cs[k]| == size {
        if k == 0 {
          assert Chunk(xs[n..], size) != [];
        } else {
          assert cs[k] == Chunk(xs[n..], size)[k - 1];
        }
      }
    }
  }

  // ----- log parsing -----

  /** `check_opening`: plain substring containment of the tag "opening" (the default tag). */
  function CheckOpening(content: string, openingTag: string := "opening"): (opening: bool)
    ensures opening ==> |openingTag| <= |content|
    ensures openingTag == "" ==> opening
  {
    assert openingTag == "" ==> OccursAt(content, openingTag, 0);
    Contains(content, openingTag)
  }

  /** Any text that has the tag somewhere in it is an opening state. */
  lemma CheckOpeningFinds(before: string, openingTag: string, after: string)
    ensures CheckOpening(before + openingTag + after, openingTag)
  {
    var s := before + openingTag + after;
    assert s[|before|..|before| + |openingTag|] == openingTag;
    assert OccursAt(s, openingTag, |before|);
  }

  /** How the lazy `.*?]` continues after an opening bracket: the first ']' at or after `j`, unless a line break comes first. */
  function CloseAt(s: string, j: nat): (k: Option<nat>)
    ensures k.Some? ==> (j <= k.value < |s| && s[k.value] == ']' &&
                         forall m :: j <= m < k.value ==> s[m] != ']' && s[m] != '\n')
    ensures k.None? ==> forall m :: j <= m < |s| && s[m] == ']' ==> (exists l :: j <= l < m && s[l] == '\n')
    decreases |s| - j
  {
    if j >= |s| then None
    else if s[j] == ']' then Some(j)
    else if s[j] == '\n' then None
    else CloseAt(s, j + 1)
  }

  /** The first match of `\[.*?]` at or after `i`: the earliest '[' whose continuation closes, and its ']'. */
  function FirstSpan(s: string, i: nat): (span: Option<(nat, nat)>)
    ensures span.Some? ==> (i <= span.value.0 < span.value.1 < |s| && s[span.value.0] == '[' &&
                            CloseAt(s, span.value.0 + 1) == Some(span.value.1) &&
                            forall m :: i <= m < span.value.0 && s[m] == '[' ==> CloseAt(s, m + 1).None?)
    ensures span.None? ==> forall m :: i <= m < |s| && s[m] == '[' ==> CloseAt(s, m + 1).None?
    decreases |s| - i
  {
    if i >= |s| then None
    else if s[i] == '[' && CloseAt(s, i + 1).Some? then Some((i, CloseAt(s, i + 1).value))
    else FirstSpan(s, i + 1)
  }

  /**
   * `extract_project`: the text inside the first bracketed span of the log, or
   * "" when there is none; it holds neither a ']' nor a line break.
   */
  function ExtractProject(logState: string): (project: string)
    ensures ']' !in project && '\n' !in project
    ensures FirstSpan(logState, 0).None? ==> project == ""
    ensures FirstSpan(logState, 0).Some? ==>
      project == logState[FirstSpan(logState, 0).value.0 + 1..FirstSpan(logState, 0).value.1]
  {
    match FirstSpan(logState, 0)
    case None => ""
    case Some((i, k)) =>
      var project := logState[i + 1..k];
      assert forall m :: 0 <= m < |project| ==> project[m] == logState[i + 1 + m];
      project
  }

  /** A ']' with neither ']' nor a line break between `j` and it closes the span. */
  lemma {:induction false} CloseAtFinds(s: string, j: nat, k: nat)
    requires j <= k < |s| && s[k] == ']'
    requires forall m :: j <= m < k ==> s[m] != ']' && s[m] != '\n'
    ensures CloseAt(s, j) == Some(k)
    decreases k - j
  {
    if j < k {
      CloseAtFinds(s, j + 1, k);
    }
  }

  /** A '[' whose span closes, with no '[' between `i` and it, starts the first match. */
  lemma {:induction false} FirstSpanFinds(s: string, i: nat, p: nat)
    requires i <= p < |s| && s[p] == '[' && CloseAt(s, p + 1).Some?
    requires forall m :: i <= m < p ==> s[m] != '['
    ensures FirstSpan(s, i) == Some((p, CloseAt(s, p + 1).value))
    decreases p - i
  {
    if i < p {
      FirstSpanFinds(s, i + 1, p);
    }
  }

  /** A log line with one bracketed name before which no '[' occurs gives back that name. */
  lemma ExtractProjectOfLine(prefix: string, name: string, suffix: string)
    requires '[' !in prefix && ']' !in name && '\n' !in name
    ensures ExtractProject(prefix + "[" + name + "]" + suffix) == name
  {
    var s := prefix + "[" + name + "]" + suffix;
    var p := |prefix|;
    var close := p + 1 + |name|;
    forall m | p + 1 <= m < close ensures s[m] != ']' && s[m] != '\n' {
      assert s[m] == name[m - p - 1];
    }
    CloseAtFinds(s, p + 1, close);
    forall m | 0 <= m < p ensures s[m] != '[' {
      assert s[m] == prefix[m];
    }
    FirstSpanFinds(s, 0, p);
    assert s[p + 1..close] == name;
  }

  // ----- the batch loop -----

  /** `batch_size`. */
  const BATCH_SIZE: nat := 5

  /** `x.split(os.sep)[-1]` with the POSIX separator '/'. */
  function Basename(path: string): (name: string)
    ensures '/' !in name
  {
    var parts := Split(path, '/');
    SplitPiecesWithoutSep(path, '/');
    parts[|parts| - 1]
  }

  /** No piece of a split holds the separator. */
  lemma {:induction false} SplitPiecesWithoutSep(s: string, sep: char)
    ensures forall k :: 0 <= k < |Split(s, sep)| ==> sep !in Split(s, sep)[k]
  {
    if s != [] {
      SplitPiecesWithoutSep(s[1..], sep);
      var rest := Split(s[1..], sep);
      if s[0] != sep {
        assert sep !in rest[0];
        assert forall k :: 1 <= k < |Split(s, sep)| ==> Split(s, sep)[k] == rest[k];
      } else {
        assert forall k :: 1 <= k < |Split(s, sep)| ==> Split(s, sep)[k] == rest[k - 1];
      }
    }
  }

  /** `xs.index(x)`: the first position of `x`, or none where Python raises ValueError. */
  function IndexOf(xs: seq<string>, x: string): (r: Option<nat>)
    ensures r.Some? ==> r.value < |xs| && xs[r.value] == x && forall j :: 0 <= j < r.value ==> xs[j] != x
    ensures r.None? <==> x !in xs
  {
    if xs == [] then None
    else if xs[0] == x then Some(0)
    else match IndexOf(xs[1..], x)
      case None => None
      case Some(j) => Some(j + 1)
  }

  /** The order `extendleft` puts a list in at the front of a deque: its reversal. */
  function Reverse<T>(xs: seq<T>): (r: seq<T>)
    ensures |r| == |xs| && forall i :: 0 <= i < |xs| ==> r[i] == xs[|xs| - 1 - i]
  {
    if xs == [] then [] else [xs[|xs| - 1]] + Reverse(xs[..|xs| - 1])
  }

  /** The batch of a round: the first `batch_size` projects of the queue, or all of them. */
  function TakeBatch(queue: seq<string>): (batch: seq<string>)
    ensures |batch| == if |queue| < BATCH_SIZE then |queue| else BATCH_SIZE
    ensures batch <= queue
  {
    if |queue| < BATCH_SIZE then queue else queue[..BATCH_SIZE]
  }

  /** `list(map(lambda x: x.split(os.sep)[-1], batch))`. */
  function Basenames(batch: seq<string>): (names: seq<string>)
    ensures |names| == |batch| && forall i :: 0 <= i < |batch| ==> names[i] == Basename(batch[i])
  {
    seq(|batch|, i requires 0 <= i < |batch| => Basename(batch[i]))
  }

  /** What a round leaves: the queue for the next round and the number of projects of the batch it completed. */
  datatype RoundResult = RoundResult(queue: seq<string>, completed: nat)

  /**
   * One round on a non-empty queue: without a termination the whole batch is
   * done; when the project at `pos` hung, the projects before it are done, it
   * is dropped, and those after it go back to the front in reverse order.
   * A terminated name that is no batch member's basename makes `.index` raise.
   */
  function Round(queue: seq<string>, terminated: Option<string>): Result<RoundResult> {
    var batch := TakeBatch(queue);
    var rest := queue[|batch|..];
    match terminated
    case None => Success(RoundResult(rest, |batch|))
    case Some(project) =>
      match IndexOf(Basenames(batch), project)
      case None => Failure("is not in list")
      case Some(pos) => Success(RoundResult(Reverse(batch[pos + 1..]) + rest, pos))
  }

  /** A round on a non-empty queue shrinks it and completes at most its batch. */
  lemma RoundShrinks(queue: seq<string>, terminated: Option<string>)
    requires queue != []
    ensures Round(queue, terminated).Success? ==>
      |Round(queue, terminated).value.queue| < |queue| &&
      Round(queue, terminated).value.completed <= |TakeBatch(queue)| &&
      |Round(queue, terminated).value.queue| + Round(queue, terminated).value.completed +
        (if terminated.Some? then 1 else 0) == |queue|
  {
  }

  /**
   * Without a termination the round succeeds and completes the whole batch;
   * with one it fails exactly when no project of the batch has that basename.
   */
  lemma RoundOutcome(queue: seq<string>, terminated: Option<string>)
    requires queue != []
    ensures terminated.None? ==>
      Round(queue, terminated) == Success(RoundResult(queue[|TakeBatch(queue)|..], |TakeBatch(queue)|))
    ensures terminated.Some? ==>
      (Round(queue, terminated).Failure? <==> terminated.value !in Basenames(TakeBatch(queue)))
  {
  }

  /**
   * After a termination no project is lost or duplicated: the next queue, the
   * completed projects and the terminated one together are the old queue, and
   * the terminated project is the first in the batch with that basename.
   */
  lemma RoundKeepsProjects(queue: seq<string>, project: string)
    requires queue != [] && Round(queue, Some(project)).Success?
    ensures var r := Round(queue, Some(project)).value;
      var batch := TakeBatch(queue);
      r.completed < |batch| && Basename(batch[r.completed]) == project &&
      (forall j :: 0 <= j < r.completed ==> Basename(batch[j]) != project) &&
      multiset(r.queue) + multiset(batch[..r.completed]) + multiset{batch[r.completed]} == multiset(queue)
  {
    var batch := TakeBatch(queue);
    var pos := IndexOf(Basenames(batch), project).value;
    assert batch + queue[|batch|..] == queue;
    RequeueKeeps(batch, queue[|batch|..], pos);
  }

  /** Requeueing the projects after `pos` in front of the rest keeps, with those before it and itself, every project. */
  lemma RequeueKeeps(batch: seq<string>, rest: seq<string>, pos: nat)
    requires pos < |batch|
    ensures multiset(Reverse(batch[pos + 1..]) + rest) + multiset(batch[..pos]) + multiset{batch[pos]} ==
            multiset(batch + rest)
  {
    var after := batch[pos + 1..];
    assert batch == batch[..pos] + [batch[pos]] + after;
    ReverseMultiset(after);
  }

  /** Reversal keeps the items. */
  lemma {:induction false} ReverseMultiset<T>(xs: seq<T>)
    ensures multiset(Reverse(xs)) == multiset(xs)
  {
    if xs != [] {
      ReverseMultiset(xs[..|xs| - 1]);
      assert xs == xs[..|xs| - 1] + [xs[|xs| - 1]];
    }
  }

  /** The rounds from `queue` on, with `processed` projects done and `round` rounds run so far. */
  function RunAll(queue: seq<string>, processed: nat, round: nat, run: (nat, seq<string>) -> Option<string>): Result<nat>
    decreases |queue|
  {
    if queue == [] then Success(processed)
    else
      var terminated := run(round, TakeBatch(queue));
      RoundShrinks(queue, terminated);
      match Round(queue, terminated)
      case Failure(e) => Failure(e)
      case Success(r) => RunAll(r.queue, processed + r.completed, round + 1, run)
  }

  /** The inner `while` of a round: `popleft` up to `batch_size` projects into the batch. */
  method PopBatch(queue: seq<string>) returns (batch: seq<string>, projectQueue: seq<string>)
    ensures batch == TakeBatch(queue) && projectQueue == queue[|batch|..]
  {
    batch := [];
    projectQueue := queue;
    while |batch| < BATCH_SIZE && |projectQueue| > 0
      invariant |batch| <= BATCH_SIZE && |batch| <= |queue|
      invariant batch == queue[..|batch|] && projectQueue == queue[|batch|..]
    {
      batch := queue[..|batch| + 1];
      projectQueue := projectQueue[1..];
    }
  }

  /** `project_q.extendleft(items)`: each item in turn goes to the front. */
  method ExtendLeft(projectQueue: seq<string>, items: seq<string>) returns (extended: seq<string>)
    ensures extended == Reverse(items) + projectQueue
  {
    extended := projectQueue;
    var j := 0;
    while j < |items|
      invariant 0 <= j <= |items|
      invariant extended == Reverse(items[..j]) + projectQueue
    {
      assert items[..j + 1][..j] == items[..j];
      extended := [items[j]] + extended;
      j := j + 1;
    }
    assert items[..j] == items;
  }

  /**
   * The body of a round after `run`: on a termination, find the project in the
   * batch by basename, requeue the projects after it, and count those before it;
   * otherwise count the whole batch.
   */
  method FinishRound(batch: seq<string>, projectQueue: seq<string>, terminated: Option<string>)
    returns (outcome: Result<RoundResult>)
    requires batch != [] && |batch| <= BATCH_SIZE && (|batch| < BATCH_SIZE ==> projectQueue == [])
    ensures outcome == Round(batch + projectQueue, terminated)
  {
    ghost var queue := batch + projectQueue;
    assert TakeBatch(queue) == batch && queue[|batch|..] == projectQueue;
    if terminated.Some? {
      var batchProjects := Basenames(batch);
      var index := IndexOf(batchProjects, terminated.value);
      if index.None? {
        return Failure("is not in list");
      }
      var pos := index.value;
      var requeued := ExtendLeft(projectQueue, batch[pos + 1..]);
      outcome := Success(RoundResult(requeued, pos));
    } else {
      outcome := Success(RoundResult(projectQueue, |batch|));
    }
  }

  /**
   * The `__main__` loop over the dataset, counting each batch by its actual
   * size (see the README's findings). Returns the final `PROCESSED`, or the
   * error of `.index`.
   */
  method ProcessQueue(dataset: seq<string>, run: (nat, seq<string>) -> Option<string>) returns (result: Result<nat>)
    ensures result == RunAll(dataset, 0, 0, run)
  {
    var projectQueue := dataset;
    var processed: nat := 0;
    var round: nat := 0;
    ghost var expected := RunAll(dataset, 0, 0, run);
    while projectQueue != []
      invariant RunAll(projectQueue, processed, round, run) == expected
      decreases |projectQueue|
    {
      ghost var start := projectQueue;
      var outcome := PlayRound(projectQueue, round, run);
      RunAllStep(start, processed, round, run, outcome);
      if outcome.Failure? {
        return Failure(outcome.error);
      }
      projectQueue := outcome.value.queue;
      processed := processed + outcome.value.completed;
      round := round + 1;
    }
    result := Success(processed);
  }

  /** One round of the loop: pop the batch, run it, and finish the round. */
  method PlayRound(projectQueue: seq<string>, round: nat, run: (nat, seq<string>) -> Option<string>)
    returns (outcome: Result<RoundResult>)
    requires projectQueue != []
    ensures outcome == Round(projectQueue, run(round, TakeBatch(projectQueue)))
    ensures outcome.Success? ==> |outcome.value.queue| < |projectQueue|
  {
    RoundShrinks(projectQueue, run(round, TakeBatch(projectQueue)));
    var batch, rest := PopBatch(projectQueue);
    assert batch + rest == projectQueue;
    var terminated := run(round, batch);
    outcome := FinishRound(batch, rest, terminated);
  }

  /** One round of `RunAll` on a non-empty queue. */
  lemma RunAllStep(queue: seq<string>, processed: nat, round: nat, run: (nat, seq<string>) -> Option<string>,
                    outcome: Result<RoundResult>)
    requires queue != [] && outcome == Round(queue, run(round, TakeBatch(queue)))
    ensures outcome.Failure? ==> RunAll(queue, processed, round, run) == Failure(outcome.error)
    ensures outcome.Success? ==> RunAll(queue, processed, round, run) ==
                                 RunAll(outcome.value.queue, processed + outcome.value.completed, round + 1, run)
  {
  }

  /** The number of rounds whose outcome is a termination, on a successful run. */
  function Terminations(queue: seq<string>, round: nat, run: (nat, seq<string>) -> Option<string>): nat
    decreases |queue|
  {
    if queue == [] then 0
    else
      var terminated := run(round, TakeBatch(queue));
      RoundShrinks(queue, terminated);
      match Round(queue, terminated)
      case Failure(_) => 0
      case Success(r) => (if terminated.Some? then 1 else 0) + Terminations(r.queue, round + 1, run)
  }

  /**
   * On a successful run every project is counted once unless its opening was
   * terminated: PROCESSED plus the terminations is the number of projects, so
   * PROCESSED never exceeds TOTAL.
   */
  lemma {:induction false} ProcessedCountsProjects(queue: seq<string>, processed: nat, round: nat,
                                                   run: (nat, seq<string>) -> Option<string>)
    requires RunAll(queue, processed, round, run).Success?
    ensures RunAll(queue, processed, round, run).value + Terminations(queue, round, run) == processed + |queue|
    decreases |queue|
  {
    if queue == [] {
      assert RunAll(queue, processed, round, run) == Success(processed) && Terminations(queue, round, run) == 0;
    } else {
      var rest, completed, terminations := CountStep(queue, processed, round, run);
      ProcessedCountsProjects(rest, processed + completed, round + 1, run);
    }
  }

  /**
   * One successful round of a successful run: it leaves the queue `rest`,
   * completes `completed` projects and terminates `terminations` of them.
   */
  lemma CountStep(queue: seq<string>, processed: nat, round: nat, run: (nat, seq<string>) -> Option<string>)
    returns (rest: seq<string>, completed: nat, terminations: nat)
    requires queue != [] && RunAll(queue, processed, round, run).Success?
    ensures |rest| < |queue| && |rest| + completed + terminations == |queue|
    ensures RunAll(queue, processed, round, run) == RunAll(rest, processed + completed, round + 1, run)
    ensures Terminations(queue, round, run) == terminations + Terminations(rest, round + 1, run)
  {
    var terminated := run(round, TakeBatch(queue));
    var outcome := Round(queue, terminated);
    RunAllStep(queue, processed, round, run, outcome);
    RoundShrinks(queue, terminated);
    rest, completed := outcome.value.queue, outcome.value.completed;
    terminations := if terminated.Some? then 1 else 0;
  }

  /** `PROCESSED += batch_size`, as written: a short final batch still adds five. */
  function ProcessedAsWritten(processed: nat, queue: seq<string>, terminated: Option<string>): (n: nat)
    requires queue != []
    ensures Round(queue, terminated).Success? ==> n >= processed + Round(queue, terminated).value.completed
    ensures terminated.None? && |queue| < BATCH_SIZE ==> n > processed + Round(queue, terminated).value.completed
    ensures terminated.Some? ==> n == processed + (if Round(queue, terminated).Success? then Round(queue, terminated).value.completed else 0)
  {
    match Round(queue, terminated)
    case Success(r) => if terminated.None? then processed + BATCH_SIZE else processed + r.completed
    case Failure(_) => processed
  }

  /** One project and a clean round: as written PROCESSED becomes 5 while TOTAL is 1. */
  lemma ShortBatchOvercounts()
    ensures ProcessedAsWritten(0, ["p"], None) == 5
    ensures Round(["p"], None) == Success(RoundResult([], 1))
  {
    assert ["p"][1..] == [];
  }
}
