/**
 * The post-processing stage: method branches (`MethodBranchHandler`) and the
 * pass over one project's raw samples, newest commit first, that turns them
 * into labelled consistency / inconsistency dataset samples.
 *
 * The handler is a class whose fields are the source's hash maps; every
 * method is specified by a function on the immutable `BranchState` snapshot
 * `State()`, and the properties are lemmas about those functions. The
 * metrics of a pair (mock class, refactoring extraction, metrics calculator)
 * are the parameter `methodMetrics`; file reading and writing are left out.
 */
module PostProcessing {
  import opened Wrappers
  import opened Text
  import opened Refactorings
  import opened Metrics
  import opened Collections

  /** `RawDatasetSample`: one method change of one commit. */
  datatype RawDatasetSample = RawDatasetSample(
    oldCode: string,
    newCode: string,
    oldComment: string,
    newComment: string,
    oldMethodName: MethodNameWithParam,
    newMethodName: MethodNameWithParam,
    commitId: string,
    commitTime: int,
    newFileName: string)

  /** `CommentUpdateLabel`. */
  datatype CommentUpdateLabel = Inconsistency | Consistency

  /** `DatasetSample`: a labelled pair written to the output. */
  datatype DatasetSample = DatasetSample(
    oldComment: string,
    newComment: string,
    oldCode: string,
    newCode: string,
    metric: MethodMetric,
    updateLabel: CommentUpdateLabel,
    project: string,
    oldCommit: string,
    newCommit: string,
    jumpLength: int,
    newFileName: string,
    oldMethodName: MethodNameWithParam,
    newMethodName: MethodNameWithParam)

  /** The metrics of (old comment, new comment, old code, new code), if any. */
  type MetricsOf = (string, string, string, string) -> Option<MethodMetric>

  // ----- the branch handler, as values -----

  /** A snapshot of the six fields of `MethodBranchHandler`. */
  datatype BranchState = BranchState(
    newBranch: int,
    inconsistencySamples: map<int, RawDatasetSample>,
    methodToBranch: map<MethodNameWithParam, int>,
    spoiled: map<int, bool>,
    commitNumber: map<int, int>,
    previousCommitNumber: map<int, int>)

  /** A fresh handler. */
  const InitialState := BranchState(0, map[], map[], map[], map[], map[])

  /** Every branch a method points to was handed out already. */
  predicate Valid(s: BranchState) {
    0 <= s.newBranch &&
    forall n :: n in s.methodToBranch ==> 1 <= s.methodToBranch[n] <= s.newBranch
  }

  /** `updateCommitNumber`: one more commit seen on the branch. */
  function CommitNumberUpdated(s: BranchState, branch: int): (r: BranchState)
    ensures branch in r.commitNumber
  {
    var n := if branch !in s.commitNumber then 1 else s.commitNumber[branch] + 1;
    s.(commitNumber := s.commitNumber[branch := n])
  }

  /**
   * `branchId`: the branch of a method, opening a new unspoiled branch with
   * the next number when the method has none.
   */
  function BranchIdOf(s: BranchState, name: MethodNameWithParam): (BranchState, int) {
    if name in s.methodToBranch then (s, s.methodToBranch[name])
    else
      var b := s.newBranch + 1;
      (s.(newBranch := b,
          methodToBranch := s.methodToBranch[name := b],
          spoiled := s.spoiled[b := false]),
       b)
  }

  /** `getInconsistencySample`. */
  function InconsistencySampleOf(s: BranchState, branch: int): Option<RawDatasetSample> {
    if branch in s.inconsistencySamples then Some(s.inconsistencySamples[branch]) else None
  }

  /** `registerInconsistencySample`: keyed by the branch of the sample's old name. */
  function WithInconsistencySample(s: BranchState, sample: RawDatasetSample): BranchState {
    var (s1, b) := BranchIdOf(s, sample.oldMethodName);
    s1.(inconsistencySamples := s1.inconsistencySamples[b := sample])
  }

  /** `isConsistencySpoiled`: an unknown branch is not spoiled. */
  predicate SpoiledIn(s: BranchState, branch: int) {
    if branch in s.spoiled then s.spoiled[branch] else false
  }

  /** `setBranchStatus`. */
  function WithBranchStatus(s: BranchState, branch: int, isSpoiled: bool): BranchState {
    s.(spoiled := s.spoiled[branch := isSpoiled])
  }

  /** `registerNameChange`: `newName` takes over the branch of `oldName`. */
  function WithNameChange(s: BranchState, oldName: MethodNameWithParam, newName: MethodNameWithParam): BranchState {
    var (s1, oldId) := BranchIdOf(s, oldName);
    s1.(methodToBranch := s1.methodToBranch[newName := oldId] - {oldName})
  }

  /**
   * `getJumpLen`: commits seen on the branch since the last call (since its
   * first commit on the first call); records the current count.
   */
  function JumpLenOf(s: BranchState, branch: int): (BranchState, int)
    requires branch in s.commitNumber
  {
    var previous := if branch in s.previousCommitNumber then s.previousCommitNumber[branch] else 1;
    (s.(previousCommitNumber := s.previousCommitNumber[branch := s.commitNumber[branch]]),
     s.commitNumber[branch] - previous)
  }

  /** `k` calls of `updateCommitNumber` on one branch. */
  function UpdatedTimes(s: BranchState, branch: int, k: nat): BranchState {
    if k == 0 then s else CommitNumberUpdated(UpdatedTimes(s, branch, k - 1), branch)
  }

  // ----- the handler as an object -----

  class MethodBranchHandler {
    var newBranch: int
    var branchToInconsistencySample: map<int, RawDatasetSample>
    var methodToBranch: map<MethodNameWithParam, int>
    var branchSpoiled: map<int, bool>
    var branchToCommitNumber: map<int, int>
    var branchToPreviousCommitNumber: map<int, int>

    /** The fields as a value. */
    function State(): BranchState
      reads this
    {
      BranchState(newBranch, branchToInconsistencySample, methodToBranch,
                  branchSpoiled, branchToCommitNumber, branchToPreviousCommitNumber)
    }

    constructor()
      ensures State() == InitialState
    {
      newBranch := 0;
      branchToInconsistencySample := map[];
      methodToBranch := map[];
      branchSpoiled := map[];
      branchToCommitNumber := map[];
      branchToPreviousCommitNumber := map[];
    }

    method UpdateCommitNumber(branch: int)
      modifies this
      ensures State() == CommitNumberUpdated(old(State()), branch)
    {
      if branch !in branchToCommitNumber {
        branchToCommitNumber := branchToCommitNumber[branch := 1];
      } else {
        branchToCommitNumber := branchToCommitNumber[branch := branchToCommitNumber[branch] + 1];
      }
    }

    method BranchId(methodName: MethodNameWithParam) returns (branch: int)
      modifies this
      ensures (State(), branch) == BranchIdOf(old(State()), methodName)
    {
      if methodName !in methodToBranch {
        newBranch := newBranch + 1;
        methodToBranch := methodToBranch[methodName := newBranch];
        branchSpoiled := branchSpoiled[newBranch := false];
      }
      branch := methodToBranch[methodName];
    }

    method GetInconsistencySample(branch: int) returns (r: Option<RawDatasetSample>)
      ensures r == InconsistencySampleOf(State(), branch)
    {
      if branch in branchToInconsistencySample {
        r := Some(branchToInconsistencySample[branch]);
      } else {
        r := None;
      }
    }

    method RegisterInconsistencySample(sample: RawDatasetSample)
      modifies this
      ensures State() == WithInconsistencySample(old(State()), sample)
    {
      var branch := BranchId(sample.oldMethodName);
      branchToInconsistencySample := branchToInconsistencySample[branch := sample];
    }

    method IsConsistencySpoiled(branch: int) returns (spoiled: bool)
      ensures spoiled == SpoiledIn(State(), branch)
    {
      spoiled := if branch in branchSpoiled then branchSpoiled[branch] else false;
    }

    method SetBranchStatus(branch: int, isSpoiled: bool)
      modifies this
      ensures State() == WithBranchStatus(old(State()), branch, isSpoiled)
    {
      branchSpoiled := branchSpoiled[branch := isSpoiled];
    }

    method RegisterNameChange(oldName: MethodNameWithParam, newName: MethodNameWithParam)
      modifies this
      ensures State() == WithNameChange(old(State()), oldName, newName)
    {
      var oldId := BranchId(oldName);
      methodToBranch := methodToBranch[newName := oldId];
      methodToBranch := methodToBranch - {oldName};
    }

    method GetJumpLen(branch: int) returns (jump: int)
      requires branch in branchToCommitNumber
      modifies this
      ensures (State(), jump) == JumpLenOf(old(State()), branch)
    {
      var previous := if branch in branchToPreviousCommitNumber then branchToPreviousCommitNumber[branch] else 1;
      branchToPreviousCommitNumber := branchToPreviousCommitNumber[branch := branchToCommitNumber[branch]];
      jump := branchToCommitNumber[branch] - previous;
    }
  }

  // ----- properties of the branch handler -----

  /** Asking twice gives the same branch and changes nothing the second time. */
  lemma BranchIdStable(s: BranchState, name: MethodNameWithParam)
    ensures var (s1, b) := BranchIdOf(s, name);
            name in s1.methodToBranch && s1.methodToBranch[name] == b &&
            BranchIdOf(s1, name) == (s1, b) &&
            (name in s.methodToBranch ==> s1 == s)
  {
  }

  /**
   * An unknown method gets a branch number larger than every branch handed
   * out so far, and that branch starts unspoiled.
   */
  lemma BranchIdFresh(s: BranchState, name: MethodNameWithParam)
    requires Valid(s) && name !in s.methodToBranch
    ensures var (s1, b) := BranchIdOf(s, name);
            b == s.newBranch + 1 == s1.newBranch &&
            (forall n :: n in s.methodToBranch ==> s.methodToBranch[n] < b) &&
            !SpoiledIn(s1, b) && Valid(s1)
  {
  }

  /** `branchId` keeps every branch number within the ones handed out. */
  lemma BranchIdValid(s: BranchState, name: MethodNameWithParam)
    requires Valid(s)
    ensures var (s1, b) := BranchIdOf(s, name);
            Valid(s1) && 1 <= b <= s1.newBranch && s1.newBranch <= s.newBranch + 1
  {
  }

  /**
   * After a name change the old name has no branch, the new name has the
   * branch the old name had (a fresh one if it had none), and every other
   * method keeps its branch.
   */
  lemma NameChangeMeaning(s: BranchState, oldName: MethodNameWithParam, newName: MethodNameWithParam)
    ensures var s1 := WithNameChange(s, oldName, newName);
            var (_, oldId) := BranchIdOf(s, oldName);
            oldName !in s1.methodToBranch &&
            (oldName != newName ==> newName in s1.methodToBranch && s1.methodToBranch[newName] == oldId) &&
            (forall n :: n != oldName && n != newName ==>
               (n in s1.methodToBranch <==> n in s.methodToBranch) &&
               (n in s.methodToBranch ==> s1.methodToBranch[n] == s.methodToBranch[n]))
  {
  }

  /** A name change keeps the handler valid. */
  lemma NameChangeValid(s: BranchState, oldName: MethodNameWithParam, newName: MethodNameWithParam)
    requires Valid(s)
    ensures Valid(WithNameChange(s, oldName, newName))
  {
    BranchIdValid(s, oldName);
  }

  /** `k` updates count `k` commits on top of what the branch had. */
  lemma {:induction false} UpdatedTimesCounts(s: BranchState, branch: int, k: nat)
    requires k > 0
    ensures var r := UpdatedTimes(s, branch, k);
            branch in r.commitNumber &&
            r.commitNumber[branch] == (if branch in s.commitNumber then s.commitNumber[branch] else 0) + k &&
            r.previousCommitNumber == s.previousCommitNumber
  {
    if k > 1 {
      UpdatedTimesCounts(s, branch, k - 1);
    }
  }

  /** The first jump of a branch is the number of its commits but one. */
  lemma FirstJumpLen(s: BranchState, branch: int, k: nat)
    requires k > 0 && branch !in s.commitNumber && branch !in s.previousCommitNumber
    ensures var r := UpdatedTimes(s, branch, k);
            branch in r.commitNumber && JumpLenOf(r, branch).1 == k - 1
  {
    UpdatedTimesCounts(s, branch, k);
  }

  /** A later jump is the number of commits seen since the previous jump. */
  lemma NextJumpLen(s: BranchState, branch: int, k: nat)
    requires branch in s.commitNumber
    ensures var r := UpdatedTimes(JumpLenOf(s, branch).0, branch, k);
            branch in r.commitNumber && JumpLenOf(r, branch).1 == k
  {
    var s1 := JumpLenOf(s, branch).0;
    if k > 0 {
      UpdatedTimesCounts(s1, branch, k);
    }
  }

  /** The status set is the status read; other branches keep theirs. */
  lemma BranchStatusMeaning(s: BranchState, branch: int, isSpoiled: bool, other: int)
    ensures SpoiledIn(WithBranchStatus(s, branch, isSpoiled), branch) == isSpoiled
    ensures other != branch ==>
              SpoiledIn(WithBranchStatus(s, branch, isSpoiled), other) == SpoiledIn(s, other)
  {
  }

  // ----- one sample -----

  /** `buildSample`: nothing when the pair has no metrics. */
  function BuildSample(project: string, oldCommit: string, newCommit: string, newFileName: string,
                       oldComment: string, oldCode: string, newComment: string, newCode: string,
                       jumpLength: int, updateLabel: CommentUpdateLabel,
                       oldName: MethodNameWithParam, newName: MethodNameWithParam,
                       methodMetrics: MetricsOf): (r: Option<DatasetSample>)
    ensures r.Some? <==> methodMetrics(oldComment, newComment, oldCode, newCode).Some?
    ensures r.Some? ==>
              r.value.metric == methodMetrics(oldComment, newComment, oldCode, newCode).value &&
              r.value.oldComment == oldComment && r.value.newComment == newComment &&
              r.value.oldCode == oldCode && r.value.newCode == newCode &&
              r.value.updateLabel == updateLabel && r.value.project == project &&
              r.value.oldCommit == oldCommit && r.value.newCommit == newCommit &&
              r.value.jumpLength == jumpLength && r.value.newFileName == newFileName &&
              r.value.oldMethodName == oldName && r.value.newMethodName == newName
  {
    match methodMetrics(oldComment, newComment, oldCode, newCode)
    case None => None
    case Some(m) =>
      Some(DatasetSample(oldComment, newComment, oldCode, newCode, m, updateLabel, project,
                         oldCommit, newCommit, jumpLength, newFileName, oldName, newName))
  }

  /** Walking from new to old, a renamed method's newer name hands its branch to the older name. */
  function RenameApplied(s: BranchState, sample: RawDatasetSample): BranchState {
    if sample.oldMethodName != sample.newMethodName
    then WithNameChange(s, sample.newMethodName, sample.oldMethodName)
    else s
  }

  /** The state after the rename and the branch of the sample. */
  function SampleBranch(s: BranchState, sample: RawDatasetSample): (BranchState, int) {
    BranchIdOf(RenameApplied(s, sample), sample.oldMethodName)
  }

  predicate CommentChanged(sample: RawDatasetSample) {
    Trim(sample.oldComment) != Trim(sample.newComment)
  }

  predicate CodeChanged(sample: RawDatasetSample) {
    Trim(sample.oldCode) != Trim(sample.newCode)
  }

  /** The inconsistency pair of a sample and the newer sample of its branch. */
  function InconsistencyPair(s: BranchState, branch: int, sample: RawDatasetSample, future: RawDatasetSample,
                             project: string, methodMetrics: MetricsOf): (BranchState, Option<DatasetSample>)
    requires branch in s.commitNumber
  {
    var (s1, jump) := JumpLenOf(s, branch);
    (s1, BuildSample(project, sample.commitId, future.commitId, sample.newFileName,
                     sample.newComment, sample.newCode, future.newComment, future.newCode,
                     jump, Inconsistency, sample.oldMethodName, sample.newMethodName, methodMetrics))
  }

  /** The consistency pair of a sample on its own. */
  function ConsistencyPair(sample: RawDatasetSample, project: string, methodMetrics: MetricsOf): Option<DatasetSample> {
    BuildSample(project, sample.commitId, "", sample.newFileName,
                sample.oldComment, sample.oldCode, sample.newComment, sample.newCode,
                0, Consistency, sample.oldMethodName, sample.newMethodName, methodMetrics)
  }

  /**
   * Code and comment changed: the branch is unspoiled, remembers this sample
   * and pairs it with the newer one it remembered, if any.
   */
  function BothChanged(s: BranchState, branch: int, sample: RawDatasetSample, project: string,
                       methodMetrics: MetricsOf): (BranchState, Option<DatasetSample>)
    requires branch in s.commitNumber
  {
    var s4 := WithBranchStatus(s, branch, false);
    var future := InconsistencySampleOf(s4, branch);
    var s5 := WithInconsistencySample(s4, sample);
    if future.None? then (s5, None)
    else InconsistencyPair(s5, branch, sample, future.value, project, methodMetrics)
  }

  /**
   * What a sample does once its commit is counted on `branch`, given whether
   * its code and its comment changed.
   */
  function Dispatch(s: BranchState, branch: int, sample: RawDatasetSample, codeChanged: bool, commentChanged: bool,
                    project: string, methodMetrics: MetricsOf): (BranchState, Option<DatasetSample>)
    requires branch in s.commitNumber
  {
    if codeChanged && commentChanged then BothChanged(s, branch, sample, project, methodMetrics)
    else if codeChanged then
      if !SpoiledIn(s, branch) then (s, ConsistencyPair(sample, project, methodMetrics))
      else (s, None)
    else if commentChanged then (WithBranchStatus(s, branch, true), None)
    else (s, None)
  }

  /** The body of the loop of `processProject` for one sample. */
  function ProcessSampleSpec(s: BranchState, sample: RawDatasetSample, project: string,
                             methodMetrics: MetricsOf): (BranchState, Option<DatasetSample>)
  {
    var (s2, branch) := SampleBranch(s, sample);
    Dispatch(CommitNumberUpdated(s2, branch), branch, sample, CodeChanged(sample), CommentChanged(sample),
             project, methodMetrics)
  }

  /** The code-and-comment branch of the per-sample step on the handler. */
  method HandleBothChanged(handler: MethodBranchHandler, branch: int, sample: RawDatasetSample, project: string,
                           methodMetrics: MetricsOf) returns (emitted: Option<DatasetSample>)
    requires branch in handler.branchToCommitNumber
    modifies handler
    ensures (handler.State(), emitted) == BothChanged(old(handler.State()), branch, sample, project, methodMetrics)
  {
    handler.SetBranchStatus(branch, false);
    var futureSample := handler.GetInconsistencySample(branch);
    handler.RegisterInconsistencySample(sample);
    emitted := None;
    if futureSample.Some? {
      var future := futureSample.value;
      var jump := handler.GetJumpLen(branch);
      emitted := BuildSample(project, sample.commitId, future.commitId, sample.newFileName,
                             sample.newComment, sample.newCode, future.newComment, future.newCode,
                             jump, Inconsistency, sample.oldMethodName, sample.newMethodName, methodMetrics);
    }
  }

  /** The code-only branch: a consistency pair unless the branch is spoiled. */
  method HandleCodeOnly(handler: MethodBranchHandler, branch: int, sample: RawDatasetSample, project: string,
                        methodMetrics: MetricsOf) returns (emitted: Option<DatasetSample>)
    ensures emitted == if SpoiledIn(handler.State(), branch) then None
                       else ConsistencyPair(sample, project, methodMetrics)
  {
    emitted := None;
    var spoiled := handler.IsConsistencySpoiled(branch);
    if !spoiled {
      emitted := BuildSample(project, sample.commitId, "", sample.newFileName,
                             sample.oldComment, sample.oldCode, sample.newComment, sample.newCode,
                             0, Consistency, sample.oldMethodName, sample.newMethodName, methodMetrics);
    }
  }

  /** What the per-sample step does on the handler once the commit is counted. */
  method HandleChange(handler: MethodBranchHandler, branch: int, sample: RawDatasetSample, project: string,
                      methodMetrics: MetricsOf) returns (emitted: Option<DatasetSample>)
    requires branch in handler.branchToCommitNumber
    modifies handler
    ensures (handler.State(), emitted) ==
            Dispatch(old(handler.State()), branch, sample, CodeChanged(sample), CommentChanged(sample),
                     project, methodMetrics)
  {
    ghost var s := handler.State();
    var commentChanged := Trim(sample.oldComment) != Trim(sample.newComment);
    var codeChanged := Trim(sample.oldCode) != Trim(sample.newCode);
    assert commentChanged == CommentChanged(sample) && codeChanged == CodeChanged(sample);
    emitted := None;
    if codeChanged && commentChanged {
      emitted := HandleBothChanged(handler, branch, sample, project, methodMetrics);
    } else if codeChanged {
      assert Dispatch(s, branch, sample, codeChanged, commentChanged, project, methodMetrics) ==
             (s, if SpoiledIn(s, branch) then None else ConsistencyPair(sample, project, methodMetrics));
      emitted := HandleCodeOnly(handler, branch, sample, project, methodMetrics);
    } else if commentChanged {
      assert Dispatch(s, branch, sample, codeChanged, commentChanged, project, methodMetrics) ==
             (WithBranchStatus(s, branch, true), None);
      handler.SetBranchStatus(branch, true);
    } else {
      assert Dispatch(s, branch, sample, codeChanged, commentChanged, project, methodMetrics) == (s, None);
    }
  }

  /** The per-sample step on the handler object. */
  method ProcessSample(handler: MethodBranchHandler, sample: RawDatasetSample, project: string,
                       methodMetrics: MetricsOf) returns (emitted: Option<DatasetSample>)
    modifies handler
    ensures (handler.State(), emitted) == ProcessSampleSpec(old(handler.State()), sample, project, methodMetrics)
  {
    if sample.oldMethodName != sample.newMethodName {
      handler.RegisterNameChange(sample.newMethodName, sample.oldMethodName);
    }
    var branch := handler.BranchId(sample.oldMethodName);
    handler.UpdateCommitNumber(branch);
    emitted := HandleChange(handler, branch, sample, project, methodMetrics);
  }

  // ----- properties of one sample -----

  /**
   * Walking from new to old, a renamed sample continues the branch of its
   * newer name, which no longer names a branch.
   */
  lemma RenameContinuesBranch(s: BranchState, sample: RawDatasetSample)
    requires sample.oldMethodName != sample.newMethodName && sample.newMethodName in s.methodToBranch
    ensures var (s2, branch) := SampleBranch(s, sample);
            branch == s.methodToBranch[sample.newMethodName] &&
            sample.newMethodName !in s2.methodToBranch
  {
    NameChangeMeaning(s, sample.newMethodName, sample.oldMethodName);
  }

  /**
   * Code and comment both changed: the branch becomes unspoiled and remembers
   * this sample; a pair is emitted exactly when the branch had a newer such
   * sample and the pair has metrics, and it is labelled an inconsistency
   * from this sample's new version to the newer sample's new version.
   */
  lemma BothChangedRule(s: BranchState, sample: RawDatasetSample, project: string, methodMetrics: MetricsOf)
    requires CodeChanged(sample) && CommentChanged(sample)
    ensures var (s2, branch) := SampleBranch(s, sample);
            var future := InconsistencySampleOf(s2, branch);
            var (r, emitted) := ProcessSampleSpec(s, sample, project, methodMetrics);
            !SpoiledIn(r, branch) &&
            InconsistencySampleOf(r, branch) == Some(sample) &&
            (emitted.Some? <==>
               future.Some? &&
               methodMetrics(sample.newComment, future.value.newComment,
                             sample.newCode, future.value.newCode).Some?) &&
            (emitted.Some? ==>
               emitted.value.updateLabel == Inconsistency &&
               emitted.value.oldComment == sample.newComment &&
               emitted.value.newComment == future.value.newComment &&
               emitted.value.oldCode == sample.newCode &&
               emitted.value.newCode == future.value.newCode &&
               emitted.value.oldCommit == sample.commitId &&
               emitted.value.newCommit == future.value.commitId)
  {
    var (s2, branch) := SampleBranch(s, sample);
    BranchIdStable(RenameApplied(s, sample), sample.oldMethodName);
    var s3 := CommitNumberUpdated(s2, branch);
    assert ProcessSampleSpec(s, sample, project, methodMetrics) == BothChanged(s3, branch, sample, project, methodMetrics);
    assert InconsistencySampleOf(s3, branch) == InconsistencySampleOf(s2, branch);
    BothChangedOnBranch(s3, branch, sample, project, methodMetrics);
  }

  /** The code-and-comment step on a state where the sample's old name already names `branch`. */
  lemma BothChangedOnBranch(s: BranchState, branch: int, sample: RawDatasetSample, project: string,
                            methodMetrics: MetricsOf)
    requires branch in s.commitNumber
    requires sample.oldMethodName in s.methodToBranch && s.methodToBranch[sample.oldMethodName] == branch
    ensures var future := InconsistencySampleOf(s, branch);
            var (r, emitted) := BothChanged(s, branch, sample, project, methodMetrics);
            !SpoiledIn(r, branch) &&
            InconsistencySampleOf(r, branch) == Some(sample) &&
            (emitted.Some? <==>
               future.Some? &&
               methodMetrics(sample.newComment, future.value.newComment,
                             sample.newCode, future.value.newCode).Some?) &&
            (emitted.Some? ==>
               emitted.value.updateLabel == Inconsistency &&
               emitted.value.oldComment == sample.newComment &&
               emitted.value.newComment == future.value.newComment &&
               emitted.value.oldCode == sample.newCode &&
               emitted.value.newCode == future.value.newCode &&
               emitted.value.oldCommit == sample.commitId &&
               emitted.value.newCommit == future.value.commitId)
  {
    var s4 := WithBranchStatus(s, branch, false);
    assert BranchIdOf(s4, sample.oldMethodName) == (s4, branch);
    assert InconsistencySampleOf(s4, branch) == InconsistencySampleOf(s, branch);
  }


  /**
   * Only the code changed: a consistency pair of the sample's own two
   * versions, with no jump and no newer commit, is emitted exactly when the
   * branch is not spoiled and the pair has metrics; the branch keeps its
   * status.
   */
  lemma CodeOnlyRule(s: BranchState, sample: RawDatasetSample, project: string, methodMetrics: MetricsOf)
    requires CodeChanged(sample) && !CommentChanged(sample)
    ensures var (s2, branch) := SampleBranch(s, sample);
            var (r, emitted) := ProcessSampleSpec(s, sample, project, methodMetrics);
            SpoiledIn(r, branch) == SpoiledIn(s2, branch) &&
            (emitted.Some? <==>
               !SpoiledIn(s2, branch) &&
               methodMetrics(sample.oldComment, sample.newComment, sample.oldCode, sample.newCode).Some?) &&
            (emitted.Some? ==>
               emitted.value.updateLabel == Consistency && emitted.value.jumpLength == 0 &&
               emitted.value.newCommit == "" && emitted.value.oldCommit == sample.commitId &&
               emitted.value.oldCode == sample.oldCode && emitted.value.newCode == sample.newCode)
  {
    var (s2, branch) := SampleBranch(s, sample);
    var s3 := CommitNumberUpdated(s2, branch);
    assert SpoiledIn(s3, branch) == SpoiledIn(s2, branch);
    assert ProcessSampleSpec(s, sample, project, methodMetrics) ==
           (s3, if SpoiledIn(s2, branch) then None else ConsistencyPair(sample, project, methodMetrics));
  }

  /**
   * Only the comment changed: nothing is emitted and the branch is spoiled,
   * so older code-only changes of the method give no consistency pair.
   */
  lemma CommentOnlyRule(s: BranchState, sample: RawDatasetSample, project: string, methodMetrics: MetricsOf)
    requires !CodeChanged(sample) && CommentChanged(sample)
    ensures var (_, branch) := SampleBranch(s, sample);
            var (r, emitted) := ProcessSampleSpec(s, sample, project, methodMetrics);
            emitted.None? && SpoiledIn(r, branch)
  {
  }

  /** Neither changed: nothing is emitted and the branch keeps its status. */
  lemma UnchangedRule(s: BranchState, sample: RawDatasetSample, project: string, methodMetrics: MetricsOf)
    requires !CodeChanged(sample) && !CommentChanged(sample)
    ensures var (s2, branch) := SampleBranch(s, sample);
            var (r, emitted) := ProcessSampleSpec(s, sample, project, methodMetrics);
            emitted.None? && SpoiledIn(r, branch) == SpoiledIn(s2, branch)
  {
  }

  /**
   * Once the sample's old name has its branch, what the sample does leaves
   * the branch numbers and the commit counts alone.
   */
  lemma DispatchFrame(s: BranchState, branch: int, sample: RawDatasetSample, codeChanged: bool,
                      commentChanged: bool, project: string, methodMetrics: MetricsOf)
    requires branch in s.commitNumber
    requires sample.oldMethodName in s.methodToBranch && s.methodToBranch[sample.oldMethodName] == branch
    ensures var r := Dispatch(s, branch, sample, codeChanged, commentChanged, project, methodMetrics).0;
            r.newBranch == s.newBranch && r.methodToBranch == s.methodToBranch &&
            r.commitNumber == s.commitNumber
  {
    if codeChanged && commentChanged {
      BothChangedFrame(s, branch, sample, project, methodMetrics);
    }
  }

  lemma BothChangedFrame(s: BranchState, branch: int, sample: RawDatasetSample, project: string,
                         methodMetrics: MetricsOf)
    requires branch in s.commitNumber
    requires sample.oldMethodName in s.methodToBranch && s.methodToBranch[sample.oldMethodName] == branch
    ensures var r := BothChanged(s, branch, sample, project, methodMetrics).0;
            r.newBranch == s.newBranch && r.methodToBranch == s.methodToBranch &&
            r.commitNumber == s.commitNumber
  {
    var s4 := WithBranchStatus(s, branch, false);
    assert BranchIdOf(s4, sample.oldMethodName) == (s4, branch);
    var s5 := WithInconsistencySample(s4, sample);
    assert s5 == s4.(inconsistencySamples := s4.inconsistencySamples[branch := sample]);
    var future := InconsistencySampleOf(s4, branch);
    if future.Some? {
      var (s6, _) := JumpLenOf(s5, branch);
      assert BothChanged(s, branch, sample, project, methodMetrics).0 == s6;
    }
  }

  /** Every sample counts one more commit on its branch. */
  lemma SampleCountsCommit(s: BranchState, sample: RawDatasetSample, project: string, methodMetrics: MetricsOf)
    ensures var (s2, branch) := SampleBranch(s, sample);
            var (r, _) := ProcessSampleSpec(s, sample, project, methodMetrics);
            branch in r.commitNumber &&
            r.commitNumber[branch] == (if branch in s2.commitNumber then s2.commitNumber[branch] else 0) + 1
  {
    var (s2, branch) := SampleBranch(s, sample);
    BranchIdStable(RenameApplied(s, sample), sample.oldMethodName);
    DispatchFrame(CommitNumberUpdated(s2, branch), branch, sample, CodeChanged(sample), CommentChanged(sample),
                  project, methodMetrics);
  }

  /** The per-sample step keeps the handler valid. */
  lemma ProcessSampleValid(s: BranchState, sample: RawDatasetSample, project: string, methodMetrics: MetricsOf)
    requires Valid(s)
    ensures Valid(ProcessSampleSpec(s, sample, project, methodMetrics).0)
  {
    var s1 := RenameApplied(s, sample);
    if sample.oldMethodName != sample.newMethodName {
      NameChangeValid(s, sample.newMethodName, sample.oldMethodName);
    }
    BranchIdValid(s1, sample.oldMethodName);
    BranchIdStable(s1, sample.oldMethodName);
    var (s2, branch) := SampleBranch(s, sample);
    var s3 := CommitNumberUpdated(s2, branch);
    DispatchFrame(s3, branch, sample, CodeChanged(sample), CommentChanged(sample), project, methodMetrics);
    assert Valid(s3);
  }

  // ----- ordering -----

  /** Newest commit first. */
  predicate NewestFirst(xs: seq<RawDatasetSample>) {
    forall i, j :: 0 <= i < j < |xs| ==> xs[i].commitTime >= xs[j].commitTime
  }

  /** Inserts `x` before the first element that is not newer. */
  function InsertNewestFirst(x: RawDatasetSample, xs: seq<RawDatasetSample>): (r: seq<RawDatasetSample>)
    ensures |r| == |xs| + 1 && multiset(r) == multiset(xs) + multiset{x}
  {
    if xs == [] || x.commitTime >= xs[0].commitTime then [x] + xs
    else
      assert xs == [xs[0]] + xs[1..];
      [xs[0]] + InsertNewestFirst(x, xs[1..])
  }

  /** `sortedBy { -commitTime }`: a stable sort, newest commit first. */
  function SortNewestFirst(xs: seq<RawDatasetSample>): (r: seq<RawDatasetSample>)
    ensures multiset(r) == multiset(xs)
  {
    if xs == [] then []
    else
      assert xs == [xs[0]] + xs[1..];
      InsertNewestFirst(xs[0], SortNewestFirst(xs[1..]))
  }

  /** Inserting a sample no newer than `t` into samples no newer than `t` gives samples no newer than `t`. */
  lemma {:induction false} InsertBounded(x: RawDatasetSample, xs: seq<RawDatasetSample>, t: int)
    requires x.commitTime <= t && forall k :: 0 <= k < |xs| ==> xs[k].commitTime <= t
    ensures forall i :: 0 <= i < |InsertNewestFirst(x, xs)| ==> InsertNewestFirst(x, xs)[i].commitTime <= t
  {
    if xs != [] && x.commitTime < xs[0].commitTime {
      var ys := xs[1..];
      InsertBounded(x, ys, t);
      var r := InsertNewestFirst(x, ys);
      assert InsertNewestFirst(x, xs) == [xs[0]] + r;
    }
  }

  /** Inserting adds only the new sample. */
  lemma {:induction false} InsertAddsOnly(x: RawDatasetSample, xs: seq<RawDatasetSample>)
    ensures forall i :: 0 <= i < |InsertNewestFirst(x, xs)| ==>
              InsertNewestFirst(x, xs)[i] == x || InsertNewestFirst(x, xs)[i] in xs
  {
    var result := InsertNewestFirst(x, xs);
    if xs != [] && x.commitTime < xs[0].commitTime {
      var ys := xs[1..];
      InsertAddsOnly(x, ys);
      var r := InsertNewestFirst(x, ys);
      assert result == [xs[0]] + r;
      forall i | 0 < i < |result| ensures result[i] == x || result[i] in xs {
        assert result[i] == r[i - 1];
        if r[i - 1] != x {
          var k :| 0 <= k < |ys| && ys[k] == r[i - 1];
          assert xs[k + 1] == result[i];
        }
      }
    } else {
      assert result == [x] + xs;
      forall i | 0 < i < |result| ensures result[i] in xs {
        assert result[i] == xs[i - 1];
      }
    }
  }

  /** Inserting into a newest-first list keeps it newest first. */
  lemma {:induction false} InsertNewestFirstSorted(x: RawDatasetSample, xs: seq<RawDatasetSample>)
    requires NewestFirst(xs)
    ensures NewestFirst(InsertNewestFirst(x, xs))
  {
    var result := InsertNewestFirst(x, xs);
    if xs != [] && x.commitTime < xs[0].commitTime {
      var ys := xs[1..];
      assert NewestFirst(ys) by {
        forall i, j | 0 <= i < j < |ys| ensures ys[i].commitTime >= ys[j].commitTime {
          assert ys[i] == xs[i + 1] && ys[j] == xs[j + 1];
        }
      }
      InsertNewestFirstSorted(x, ys);
      InsertBounded(x, ys, xs[0].commitTime);
      var r := InsertNewestFirst(x, ys);
      assert result == [xs[0]] + r;
      forall i, j | 0 <= i < j < |result| ensures result[i].commitTime >= result[j].commitTime {
        assert result[j] == r[j - 1];
        if i > 0 {
          assert result[i] == r[i - 1];
        }
      }
    }
  }

  /** The sorted samples are newest commit first. */
  lemma {:induction false} SortNewestFirstSorted(xs: seq<RawDatasetSample>)
    ensures NewestFirst(SortNewestFirst(xs))
  {
    if xs != [] {
      var sorted := SortNewestFirst(xs[1..]);
      SortNewestFirstSorted(xs[1..]);
      InsertNewestFirstSorted(xs[0], sorted);
      assert SortNewestFirst(xs) == InsertNewestFirst(xs[0], sorted);
    }
  }

  /** The predicate "committed at time `t`". */
  function CommittedAt(t: int): RawDatasetSample -> bool {
    (s: RawDatasetSample) => s.commitTime == t
  }

  /**
   * Inserting `x` keeps the samples of any one commit time in their order:
   * `x` goes in front of those sharing its time, since every sample it is
   * moved past is strictly newer.
   */
  lemma {:induction false} InsertKeepsTies(x: RawDatasetSample, xs: seq<RawDatasetSample>, t: int)
    ensures Filter(InsertNewestFirst(x, xs), CommittedAt(t)) ==
            (if x.commitTime == t then [x] else []) + Filter(xs, CommittedAt(t))
  {
    var p := CommittedAt(t);
    if xs == [] || x.commitTime >= xs[0].commitTime {
      assert InsertNewestFirst(x, xs) == [x] + xs;
      FilterCons(x, xs, p);
    } else {
      var y := xs[0];
      var ys := xs[1..];
      var rest := InsertNewestFirst(x, ys);
      assert xs == [y] + ys;
      assert InsertNewestFirst(x, xs) == [y] + rest;
      InsertKeepsTies(x, ys, t);
      // `y` is strictly newer than `x`, so at most one of them has time `t`
      FilterPast(y, rest, if x.commitTime == t then [x] else [], ys, p);
    }
  }

  /**
   * `sortedBy` is stable: the samples of any one commit time (the methods of
   * one commit) come out in the order they came in.
   */
  lemma {:induction false} SortNewestFirstStable(xs: seq<RawDatasetSample>, t: int)
    ensures Filter(SortNewestFirst(xs), CommittedAt(t)) == Filter(xs, CommittedAt(t))
  {
    if xs != [] {
      var p := CommittedAt(t);
      var x := xs[0];
      assert xs == [x] + xs[1..];
      SortNewestFirstStable(xs[1..], t);
      InsertKeepsTies(x, SortNewestFirst(xs[1..]), t);
      FilterCons(x, xs[1..], p);
    }
  }

  // ----- one project -----

  /** The state and the emitted values after running `step` over `xs` in order. */
  function Steps<S, X, Y>(s: S, xs: seq<X>, step: (S, X) -> (S, Option<Y>)): (S, seq<Y>) {
    if xs == [] then (s, [])
    else
      var before := Steps(s, xs[..|xs| - 1], step);
      var last := step(before.0, xs[|xs| - 1]);
      (last.0, before.1 + (if last.1.Some? then [last.1.value] else []))
  }

  /** The run over one more element is the run so far followed by that element's step. */
  lemma StepsLast<S, X, Y>(s: S, xs: seq<X>, i: nat, step: (S, X) -> (S, Option<Y>))
    requires i < |xs|
    ensures var before := Steps(s, xs[..i], step);
            var last := step(before.0, xs[i]);
            Steps(s, xs[..i + 1], step) == (last.0, before.1 + (if last.1.Some? then [last.1.value] else []))
  {
    assert xs[..i + 1][..i] == xs[..i] && xs[..i + 1][i] == xs[i];
  }

  /** The per-sample step of one project as a function value. */
  function SampleStep(project: string, methodMetrics: MetricsOf):
    (BranchState, RawDatasetSample) -> (BranchState, Option<DatasetSample>)
  {
    (st: BranchState, sample: RawDatasetSample) => ProcessSampleSpec(st, sample, project, methodMetrics)
  }

  /** The handler state and the emitted pairs after the samples in order. */
  function ProcessAll(s: BranchState, samples: seq<RawDatasetSample>, project: string,
                      methodMetrics: MetricsOf): (BranchState, seq<DatasetSample>)
  {
    Steps(s, samples, SampleStep(project, methodMetrics))
  }

  /** One step keeps what every step keeps. */
  lemma StepKeeps<S, X, Y>(st: S, x: X, step: (S, X) -> (S, Option<Y>), inv: S -> bool)
    requires inv(st)
    requires forall st', x' :: inv(st') ==> inv(step(st', x').0)
    ensures inv(step(st, x).0)
  {
  }

  /** A run keeps what each step keeps and emits at most one value per element. */
  lemma {:induction false} StepsKeep<S, X, Y>(s: S, xs: seq<X>, step: (S, X) -> (S, Option<Y>), inv: S -> bool)
    requires inv(s)
    requires forall st, x :: inv(st) ==> inv(step(st, x).0)
    ensures inv(Steps(s, xs, step).0) && |Steps(s, xs, step).1| <= |xs|
  {
    if xs != [] {
      var before := Steps(s, xs[..|xs| - 1], step);
      StepsKeep(s, xs[..|xs| - 1], step, inv);
      StepKeeps(before.0, xs[|xs| - 1], step, inv);
    }
  }

  /** At most one pair per sample, and the handler stays valid. */
  lemma ProcessAllMeaning(s: BranchState, samples: seq<RawDatasetSample>, project: string,
                          methodMetrics: MetricsOf)
    requires Valid(s)
    ensures |ProcessAll(s, samples, project, methodMetrics).1| <= |samples|
    ensures Valid(ProcessAll(s, samples, project, methodMetrics).0)
  {
    var step := SampleStep(project, methodMetrics);
    forall st, sample | Valid(st) ensures Valid(step(st, sample).0) {
      ProcessSampleValid(st, sample, project, methodMetrics);
    }
    StepsKeep(s, samples, step, st => Valid(st));
  }

  /** One more sample extends the run by its step. */
  lemma ProcessAllStep(s: BranchState, samples: seq<RawDatasetSample>, i: nat, project: string,
                       methodMetrics: MetricsOf, before: (BranchState, seq<DatasetSample>),
                       step: (BranchState, Option<DatasetSample>))
    requires i < |samples|
    requires before == ProcessAll(s, samples[..i], project, methodMetrics)
    requires step == ProcessSampleSpec(before.0, samples[i], project, methodMetrics)
    ensures ProcessAll(s, samples[..i + 1], project, methodMetrics) ==
            (step.0, before.1 + (if step.1.Some? then [step.1.value] else []))
  {
    StepsLast(s, samples, i, SampleStep(project, methodMetrics));
  }

  /** One iteration of the `forEach` of `processProject`: the step on sample `i` extends the run to `i + 1`. */
  method ProcessNext(handler: MethodBranchHandler, ordered: seq<RawDatasetSample>, i: nat, project: string,
                     methodMetrics: MetricsOf, ghost s0: BranchState, written: seq<DatasetSample>)
    returns (written': seq<DatasetSample>)
    requires i < |ordered|
    requires (handler.State(), written) == ProcessAll(s0, ordered[..i], project, methodMetrics)
    modifies handler
    ensures (handler.State(), written') == ProcessAll(s0, ordered[..i + 1], project, methodMetrics)
  {
    ghost var before := (handler.State(), written);
    var emitted := ProcessSample(handler, ordered[i], project, methodMetrics);
    ProcessAllStep(s0, ordered, i, project, methodMetrics, before, (handler.State(), emitted));
    written' := written + (if emitted.Some? then [emitted.value] else []);
  }

  /** The `forEach` of `processProject`: the per-sample step on each sample in order. */
  method ProcessOrdered(handler: MethodBranchHandler, ordered: seq<RawDatasetSample>, project: string,
                        methodMetrics: MetricsOf) returns (written: seq<DatasetSample>)
    modifies handler
    ensures (handler.State(), written) == ProcessAll(old(handler.State()), ordered, project, methodMetrics)
  {
    ghost var s0 := handler.State();
    written := [];
    for i := 0 to |ordered|
      invariant (handler.State(), written) == ProcessAll(s0, ordered[..i], project, methodMetrics)
    {
      written := ProcessNext(handler, ordered, i, project, methodMetrics, s0, written);
    }
    assert ordered[..|ordered|] == ordered;
  }

  /**
   * `processProject`: the samples newest first through the per-sample step;
   * the result is what was written, in order.
   */
  method ProcessProject(handler: MethodBranchHandler, samples: seq<RawDatasetSample>, project: string,
                        methodMetrics: MetricsOf) returns (written: seq<DatasetSample>)
    modifies handler
    ensures (handler.State(), written) ==
            ProcessAll(old(handler.State()), SortNewestFirst(samples), project, methodMetrics)
  {
    var ordered := SortNewestFirst(samples);
    written := ProcessOrdered(handler, ordered, project, methodMetrics);
  }
}
