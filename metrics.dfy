/**
 * `MetricsCalculator.calculateMetrics` (plugin core): the record of metrics
 * of a method change, or nothing when neither code nor comment changed or a
 * filtered sub-token list is empty. The similarity model is the parameter
 * `sim` and the line diff of java-diff-utils the parameter `diff`; `Double`
 * values are exact reals here.
 */
module Metrics {
  import opened Wrappers
  import opened Collections
  import opened Refactorings
  import opened Deltas
  import opened DiffMarkers
  import opened Tokenizer
  import opened CoreTokenizer
  import opened CodeDiffs
  import opened CommentDiffs
  import opened MethodChanges

  /** `MethodMetric`. */
  datatype MethodMetric = MethodMetric(
    isRenamed: bool,
    isParamAdded: bool,
    isParamRemoved: bool,
    isReturnTypeChanged: bool,
    isParamTypeChanged: bool,
    isParamRenamed: bool,
    oldCodeLen: nat,
    newCodeLen: nat,
    commentLen: nat,
    changedCodeLen: nat,
    percentageCodeChanged: real,
    deleteCommentIntersectionLen: nat,
    percentageCommentIntersectionDelete: real,
    oldCodeCommentSim: real,
    newCodeCommentSim: real,
    newOldCodeCommentSimDistance: real,
    oldChangedCommentSim: real,
    newChangedCommentSim: real,
    oldNewChangedSimDist: real,
    addedStatementSize: nat,
    deletedStatementSize: nat)

  // ----- the refactoring flags -----

  /** Some refactoring of the list has type `t`. */
  predicate HasType(rs: seq<Refactoring>, t: RefactoringType) {
    exists i :: 0 <= i < |rs| && rs[i].refactoringType == t
  }

  lemma HasTypeStep(rs: seq<Refactoring>, i: nat, t: RefactoringType)
    requires i < |rs|
    ensures HasType(rs[..i + 1], t) <==> HasType(rs[..i], t) || rs[i].refactoringType == t
  {
    if HasType(rs[..i + 1], t) && rs[i].refactoringType != t {
      var j :| 0 <= j < i + 1 && rs[..i + 1][j].refactoringType == t;
      assert rs[..i][j] == rs[j];
    }
    if HasType(rs[..i], t) {
      var j :| 0 <= j < i && rs[..i][j].refactoringType == t;
      assert rs[..i + 1][j] == rs[j];
    }
    assert rs[..i + 1][i] == rs[i];
  }

  /** A flag is set exactly when a refactoring of its type is in the list, whatever else the list holds. */
  lemma HasTypeMeaning(rs: seq<Refactoring>, t: RefactoringType)
    ensures HasType(rs, t) <==> exists r :: r in rs && r.refactoringType == t
  {
    if exists r :: r in rs && r.refactoringType == t {
      var r :| r in rs && r.refactoringType == t;
      var i :| 0 <= i < |rs| && rs[i] == r;
    }
  }

  /** Refactorings of other types do not affect a flag. */
  lemma HasTypeIgnoresOthers(a: seq<Refactoring>, r: Refactoring, b: seq<Refactoring>, t: RefactoringType)
    requires r.refactoringType != t
    ensures HasType(a + [r] + b, t) <==> HasType(a + b, t)
  {
    HasTypeMeaning(a + [r] + b, t);
    HasTypeMeaning(a + b, t);
  }

  // ----- reading the code-diff token stream -----

  /** The markers of removed and of added code tokens. */
  const REMOVED: set<string> := {REPLACE_OLD, DELETE}
  const ADDED: set<string> := {REPLACE_NEW, INSERT}

  /** `tokens.zipWithNext().filter { it.first in markers }.map { it.second }`: every entry that follows a marker of `markers`. */
  function Followers(t: seq<string>, markers: set<string>): seq<string>
    decreases |t|
  {
    if |t| < 2 then [] else (if t[0] in markers then [t[1]] else []) + Followers(t[1..], markers)
  }

  /** `deletedOrReplaced`: the set of entries that follow a marker of `markers` at an even index. */
  function EvenFollowers(t: seq<string>, markers: set<string>): set<string> {
    set i | 0 <= i < |t| - 1 && i % 2 == 0 && t[i] in markers :: t[i + 1]
  }

  /** The contents of the pairs are the entries after the even-indexed markers. */
  lemma {:induction false} ContentsAtEven(t: seq<string>, side: set<string>)
    ensures forall x :: x in Contents(t, side) <==>
      exists i :: 0 <= i < |t| - 1 && i % 2 == 0 && t[i] in side && t[i + 1] == x
    decreases |t|
  {
    if |t| >= 2 {
      var rest := t[2..];
      ContentsAtEven(rest, side);
      forall x | x in Contents(t, side)
        ensures exists i :: 0 <= i < |t| - 1 && i % 2 == 0 && t[i] in side && t[i + 1] == x
      {
        if !(t[0] in side && t[1] == x) {
          assert x in Contents(rest, side);
          var i :| 0 <= i < |rest| - 1 && i % 2 == 0 && rest[i] in side && rest[i + 1] == x;
          assert t[i + 2] == rest[i] && t[i + 3] == rest[i + 1];
        }
      }
      forall x | exists i :: 0 <= i < |t| - 1 && i % 2 == 0 && t[i] in side && t[i + 1] == x
        ensures x in Contents(t, side)
      {
        var i :| 0 <= i < |t| - 1 && i % 2 == 0 && t[i] in side && t[i + 1] == x;
        if i >= 2 {
          assert rest[i - 2] == t[i] && rest[i - 1] == t[i + 1];
        }
      }
    }
  }

  /** `deletedOrReplaced` is the set of contents of the pairs with a marker of `markers`. */
  lemma EvenFollowersAreContents(t: seq<string>, markers: set<string>)
    ensures forall x :: x in EvenFollowers(t, markers) <==> x in Contents(t, markers)
  {
    ContentsAtEven(t, markers);
  }

  /** A content of a pair whose marker is in `a` is a content of a pair whose marker is in every superset of `a`. */
  lemma {:induction false} ContentsMonotone(t: seq<string>, a: set<string>, b: set<string>)
    requires a <= b
    ensures forall x :: x in Contents(t, a) ==> x in Contents(t, b)
    decreases |t|
  {
    if |t| >= 2 {
      ContentsMonotone(t[2..], a, b);
    }
  }

  /** Every content of the stream is an old-side or a new-side content. */
  lemma {:induction false} ContentsBySide(t: seq<string>)
    ensures forall x :: x in Contents(t, COMMAND_MARKERS) ==> x in Contents(t, OLD_SIDE) || x in Contents(t, NEW_SIDE)
    decreases |t|
  {
    if |t| >= 2 {
      ContentsBySide(t[2..]);
    }
  }

  /**
   * In an alternating stream whose contents are no markers of `markers`, the
   * entries that follow such a marker are exactly the contents of its pairs,
   * in order: the pairs that straddle two entries never count.
   */
  lemma {:induction false} FollowersAreContents(t: seq<string>, markers: set<string>)
    requires Alternating(t, COMMAND_MARKERS)
    requires forall x :: x in Contents(t, COMMAND_MARKERS) ==> x !in markers
    ensures Followers(t, markers) == Contents(t, markers)
    decreases |t|
  {
    if t != [] {
      var rest := t[2..];
      assert Contents(t, COMMAND_MARKERS) == [t[1]] + Contents(rest, COMMAND_MARKERS);
      assert t[1] !in markers;
      FollowersAreContents(rest, markers);
      var tail := t[1..];
      if |tail| >= 2 {
        assert tail[1..] == rest;
        assert Followers(tail, markers) == Followers(rest, markers);
      }
    }
  }

  /**
   * For the code diff of two methods, the removed statements are the contents
   * of the REPLACE_OLD and DELETE pairs, each an old code sub-token; the added
   * statements are the contents of the REPLACE_NEW and INSERT pairs, each a new
   * code sub-token; and `deletedOrReplaced` is the set of removed statements.
   */
  lemma CodeStatements(diff: (seq<string>, seq<string>) -> seq<Delta>, oldCode: string, newCode: string)
    requires DiffContract(diff)
    ensures var t := CodeTokens(diff(CodeSubTokens(oldCode), CodeSubTokens(newCode)));
      && Followers(t, REMOVED) == Contents(t, REMOVED)
      && Followers(t, ADDED) == Contents(t, ADDED)
      && (forall x :: x in Followers(t, REMOVED) ==> x in CodeSubTokens(oldCode))
      && (forall x :: x in Followers(t, ADDED) ==> x in CodeSubTokens(newCode))
      && (forall x :: x in EvenFollowers(t, REMOVED) <==> x in Followers(t, REMOVED))
  {
    var oldSub := CodeSubTokens(oldCode);
    var newSub := CodeSubTokens(newCode);
    var deltas := diff(oldSub, newSub);
    var t := CodeTokens(deltas);
    assert WellFormed(deltas, oldSub, newSub);
    CodeDiffsRecoverTokens(deltas, oldSub, newSub);
    CodeSubTokensMeaning(oldCode);
    CodeSubTokensMeaning(newCode);
    ContentsBySide(t);
    assert REMOVED <= COMMAND_MARKERS && ADDED <= COMMAND_MARKERS;
    FollowersAreContents(t, REMOVED);
    FollowersAreContents(t, ADDED);
    assert REMOVED <= OLD_SIDE && ADDED <= NEW_SIDE;
    ContentsMonotone(t, REMOVED, OLD_SIDE);
    ContentsMonotone(t, ADDED, NEW_SIDE);
    EvenFollowersAreContents(t, REMOVED);
  }

  // ----- the metrics -----

  /** `x in s`, as a predicate. */
  function InSet(s: set<string>): string -> bool {
    x => x in s
  }

  function Abs(x: real): (r: real)
    ensures r >= 0.0 && (r == x || r == -x)
  {
    if x < 0.0 then -x else x
  }

  /**
   * The record `calculateMetrics` builds once both guards have passed, from
   * the refactorings, the three filtered sub-token lists, the code-diff token
   * stream and the number of changed commands.
   */
  function Metric(sim: (seq<string>, seq<string>) -> real, methodRefactorings: seq<Refactoring>,
                  oldSubTokens: seq<string>, newSubTokens: seq<string>, commentSubTokens: seq<string>,
                  diffTokens: seq<string>, changedCodeLen: nat): MethodMetric
    requires oldSubTokens != [] && commentSubTokens != []
  {
    var deleteCommentIntersectionLen := Count(commentSubTokens, InSet(EvenFollowers(diffTokens, REMOVED)));
    var removedStatements := Followers(diffTokens, REMOVED);
    var addedStatements := Followers(diffTokens, ADDED);
    var oldCodeCommentSim := sim(oldSubTokens, commentSubTokens);
    var newCodeCommentSim := sim(newSubTokens, commentSubTokens);
    var oldChangedCommentSim := if removedStatements != [] then sim(removedStatements, commentSubTokens) else 0.0;
    var newChangedCommentSim := if addedStatements != [] then sim(addedStatements, commentSubTokens) else 0.0;
    MethodMetric(
      HasType(methodRefactorings, RenameMethod),
      HasType(methodRefactorings, AddParameter),
      HasType(methodRefactorings, RemoveParameter),
      HasType(methodRefactorings, ChangeReturnType),
      HasType(methodRefactorings, ChangeParameterType),
      HasType(methodRefactorings, RenameParameter),
      |oldSubTokens|, |newSubTokens|, |commentSubTokens|,
      changedCodeLen, changedCodeLen as real / |oldSubTokens| as real,
      deleteCommentIntersectionLen, deleteCommentIntersectionLen as real / |commentSubTokens| as real,
      oldCodeCommentSim, newCodeCommentSim, Abs(oldCodeCommentSim - newCodeCommentSim),
      oldChangedCommentSim, newChangedCommentSim, Abs(newChangedCommentSim - oldChangedCommentSim),
      |addedStatements|, |removedStatements|)
  }

  /** The specification of `calculateMetrics`. */
  function MetricsOf(diff: (seq<string>, seq<string>) -> seq<Delta>, sim: (seq<string>, seq<string>) -> real,
                     oldCode: string, newCode: string, oldComment: string, newComment: string,
                     methodRefactorings: seq<Refactoring>): Option<MethodMetric>
  {
    var oldSubTokens := CodeSubTokens(oldCode);
    var newSubTokens := CodeSubTokens(newCode);
    var commentSubTokens := CommentSubTokens(newComment);
    var oldCommentSubTokens := CommentSubTokens(oldComment);
    var changedCodeLen := NotKeepCount(CodeCommands(diff(oldSubTokens, newSubTokens)));
    var commentSpans := MinimalCommentDiffs(diff, oldCommentSubTokens, commentSubTokens);
    if changedCodeLen == 0 && |commentSpans| == 0 then None
    else if oldSubTokens == [] || newSubTokens == [] || commentSubTokens == [] then None
    else Some(Metric(sim, methodRefactorings, oldSubTokens, newSubTokens, commentSubTokens,
                     CodeTokens(diff(oldSubTokens, newSubTokens)), changedCodeLen))
  }

  /** The loop of `calculateMetrics` over the refactorings: each flag is set by a refactoring of its type. */
  method RefactoringFlags(methodRefactorings: seq<Refactoring>)
    returns (isRenamed: bool, isParamAdded: bool, isParamRemoved: bool,
             isReturnTypeChanged: bool, isParamTypeChanged: bool, isParamRenamed: bool)
    ensures isRenamed == HasType(methodRefactorings, RenameMethod)
    ensures isParamAdded == HasType(methodRefactorings, AddParameter)
    ensures isParamRemoved == HasType(methodRefactorings, RemoveParameter)
    ensures isReturnTypeChanged == HasType(methodRefactorings, ChangeReturnType)
    ensures isParamTypeChanged == HasType(methodRefactorings, ChangeParameterType)
    ensures isParamRenamed == HasType(methodRefactorings, RenameParameter)
  {
    isRenamed, isParamAdded, isParamRemoved := false, false, false;
    isReturnTypeChanged, isParamTypeChanged, isParamRenamed := false, false, false;
    for i := 0 to |methodRefactorings|
      invariant isRenamed == HasType(methodRefactorings[..i], RenameMethod)
      invariant isParamAdded == HasType(methodRefactorings[..i], AddParameter)
      invariant isParamRemoved == HasType(methodRefactorings[..i], RemoveParameter)
      invariant isReturnTypeChanged == HasType(methodRefactorings[..i], ChangeReturnType)
      invariant isParamTypeChanged == HasType(methodRefactorings[..i], ChangeParameterType)
      invariant isParamRenamed == HasType(methodRefactorings[..i], RenameParameter)
    {
      forall t ensures HasType(methodRefactorings[..i + 1], t) <==>
        HasType(methodRefactorings[..i], t) || methodRefactorings[i].refactoringType == t
      {
        HasTypeStep(methodRefactorings, i, t);
      }
      match methodRefactorings[i].refactoringType
      case RenameMethod => isRenamed := true;
      case RenameParameter => isParamRenamed := true;
      case RemoveParameter => isParamRemoved := true;
      case AddParameter => isParamAdded := true;
      case ChangeReturnType => isReturnTypeChanged := true;
      case ChangeParameterType => isParamTypeChanged := true;
      case _ =>
    }
    assert methodRefactorings[..|methodRefactorings|] == methodRefactorings;
  }

  /** `calculateMetrics`: the flag loop, the sub-token lists, both diffs, the two early returns and the record. */
  method CalculateMetrics(diff: (seq<string>, seq<string>) -> seq<Delta>, sim: (seq<string>, seq<string>) -> real,
                          oldCode: string, newCode: string, oldComment: string, newComment: string,
                          methodRefactorings: seq<Refactoring>)
    returns (metric: Option<MethodMetric>)
    ensures metric == MetricsOf(diff, sim, oldCode, newCode, oldComment, newComment, methodRefactorings)
  {
    var isRenamed, isParamAdded, isParamRemoved, isReturnTypeChanged, isParamTypeChanged, isParamRenamed :=
      RefactoringFlags(methodRefactorings);

    var oldCodeSubTokens := SubTokenizeCode(oldCode, true);
    var oldSubTokens := Filter(oldCodeSubTokens, HasLetters);
    var newCodeSubTokens := SubTokenizeCode(newCode, true);
    var newSubTokens := Filter(newCodeSubTokens, HasLetters);
    var commentSubTokens := Filter(SubTokenizeComment(newComment), HasLetters);
    var oldCommentSubTokens := Filter(SubTokenizeComment(oldComment), HasLetters);
    assert oldSubTokens == CodeSubTokens(oldCode) && newSubTokens == CodeSubTokens(newCode);
    assert commentSubTokens == CommentSubTokens(newComment) && oldCommentSubTokens == CommentSubTokens(oldComment);

    var _, diffTokens, diffCommands := ComputeCodeDiffs(diff, oldSubTokens, newSubTokens);
    var commentSpans := ComputeMinimalCommentDiffs(diff, oldCommentSubTokens, commentSubTokens);
    var changedCodeLen := NotKeepCount(diffCommands);
    var changeCommentLen := |commentSpans|;
    if changedCodeLen == 0 && changeCommentLen == 0 {
      return None;
    }

    if |oldSubTokens| == 0 || |newSubTokens| == 0 || |commentSubTokens| == 0 {
      return None;
    }
    var m := BuildMetric(sim, methodRefactorings, isRenamed, isParamAdded, isParamRemoved, isReturnTypeChanged,
                         isParamTypeChanged, isParamRenamed, oldSubTokens, newSubTokens, commentSubTokens,
                         diffTokens, changedCodeLen);
    metric := Some(m);
  }

  /** The tail of `calculateMetrics` after both guards: the intersection, the similarities and the record. */
  method BuildMetric(sim: (seq<string>, seq<string>) -> real, ghost methodRefactorings: seq<Refactoring>,
                     isRenamed: bool, isParamAdded: bool, isParamRemoved: bool,
                     isReturnTypeChanged: bool, isParamTypeChanged: bool, isParamRenamed: bool,
                     oldSubTokens: seq<string>, newSubTokens: seq<string>, commentSubTokens: seq<string>,
                     diffTokens: seq<string>, changedCodeLen: nat)
    returns (metric: MethodMetric)
    requires oldSubTokens != [] && commentSubTokens != []
    requires isRenamed == HasType(methodRefactorings, RenameMethod)
    requires isParamAdded == HasType(methodRefactorings, AddParameter)
    requires isParamRemoved == HasType(methodRefactorings, RemoveParameter)
    requires isReturnTypeChanged == HasType(methodRefactorings, ChangeReturnType)
    requires isParamTypeChanged == HasType(methodRefactorings, ChangeParameterType)
    requires isParamRenamed == HasType(methodRefactorings, RenameParameter)
    ensures metric == Metric(sim, methodRefactorings, oldSubTokens, newSubTokens, commentSubTokens, diffTokens, changedCodeLen)
  {
    var oldCodeLen := |oldSubTokens|;
    var newCodeLen := |newSubTokens|;
    var commentLen := |commentSubTokens|;
    var deletedOrReplaced := EvenFollowers(diffTokens, REMOVED);
    var deleteCommentIntersectionLen := Count(commentSubTokens, InSet(deletedOrReplaced));
    // The source takes the two quotients before the second guard, where a zero length makes them NaN or infinite.
    var percentageCodeChanged := changedCodeLen as real / oldCodeLen as real;
    var percentageCommentIntersectionDelete := deleteCommentIntersectionLen as real / commentLen as real;

    var oldCodeCommentSim := sim(oldSubTokens, commentSubTokens);
    var newCodeCommentSim := sim(newSubTokens, commentSubTokens);
    var newOldCodeCommentSimDistance := Abs(oldCodeCommentSim - newCodeCommentSim);
    var removedStatements := Followers(diffTokens, REMOVED);
    var addedStatements := Followers(diffTokens, ADDED);
    var oldChangedCommentSim := if removedStatements != [] then sim(removedStatements, commentSubTokens) else 0.0;
    var newChangedCommentSim := if addedStatements != [] then sim(addedStatements, commentSubTokens) else 0.0;
    var oldNewChangedSimDist := Abs(newChangedCommentSim - oldChangedCommentSim);

    metric := MethodMetric(
      isRenamed, isParamAdded, isParamRemoved, isReturnTypeChanged, isParamTypeChanged, isParamRenamed,
      oldCodeLen, newCodeLen, commentLen, changedCodeLen, percentageCodeChanged,
      deleteCommentIntersectionLen, percentageCommentIntersectionDelete,
      oldCodeCommentSim, newCodeCommentSim, newOldCodeCommentSimDistance,
      oldChangedCommentSim, newChangedCommentSim, oldNewChangedSimDist,
      |addedStatements|, |removedStatements|);
  }

  // ----- properties of the metrics -----

  /**
   * There are no metrics exactly when `checkMethodChanged` reports no change
   * (the first guard) or one of the old-code, new-code and new-comment
   * sub-token lists is empty (the second).
   */
  lemma MetricsGuards(diff: (seq<string>, seq<string>) -> seq<Delta>, sim: (seq<string>, seq<string>) -> real,
                      oldCode: string, newCode: string, oldComment: string, newComment: string,
                      methodRefactorings: seq<Refactoring>)
    ensures MetricsOf(diff, sim, oldCode, newCode, oldComment, newComment, methodRefactorings).Some? <==>
      && CheckMethodChanged(diff, oldComment, oldCode, newComment, newCode)
      && CodeSubTokens(oldCode) != [] && CodeSubTokens(newCode) != [] && CommentSubTokens(newComment) != []
  {
  }

  /** The same code and the same comment on both sides never give metrics. */
  lemma IdenticalNoMetrics(diff: (seq<string>, seq<string>) -> seq<Delta>, sim: (seq<string>, seq<string>) -> real,
                           code: string, comment: string, methodRefactorings: seq<Refactoring>)
    requires DiffContract(diff)
    ensures MetricsOf(diff, sim, code, code, comment, comment, methodRefactorings).None?
  {
    IdenticalUnchanged(diff, comment, code);
    MetricsGuards(diff, sim, code, code, comment, comment, methodRefactorings);
  }

  /**
   * The flags and the counts of a metric record: each flag says whether a
   * refactoring of its type is in the list; the lengths are those of the
   * filtered sub-token lists, all positive; the changed length is the number
   * of non-KEEP commands; the intersection counts the comment sub-tokens among
   * the removed statements; and the percentages are the exact quotients.
   */
  lemma MetricsCounts(diff: (seq<string>, seq<string>) -> seq<Delta>, sim: (seq<string>, seq<string>) -> real,
                      oldCode: string, newCode: string, oldComment: string, newComment: string,
                      methodRefactorings: seq<Refactoring>)
    requires DiffContract(diff)
    requires MetricsOf(diff, sim, oldCode, newCode, oldComment, newComment, methodRefactorings).Some?
    ensures var m := MetricsOf(diff, sim, oldCode, newCode, oldComment, newComment, methodRefactorings).value;
      var t := CodeTokens(diff(CodeSubTokens(oldCode), CodeSubTokens(newCode)));
      && (m.isRenamed <==> exists r :: r in methodRefactorings && r.refactoringType == RenameMethod)
      && (m.isParamRenamed <==> exists r :: r in methodRefactorings && r.refactoringType == RenameParameter)
      && m.oldCodeLen == |CodeSubTokens(oldCode)| > 0
      && m.newCodeLen == |CodeSubTokens(newCode)| > 0
      && m.commentLen == |CommentSubTokens(newComment)| > 0
      && m.changedCodeLen == NotKeepCount(CodeCommands(diff(CodeSubTokens(oldCode), CodeSubTokens(newCode))))
      && m.percentageCodeChanged == m.changedCodeLen as real / m.oldCodeLen as real
      && m.deleteCommentIntersectionLen == |Filter(CommentSubTokens(newComment), InSet(EvenFollowers(t, REMOVED)))|
      && m.deleteCommentIntersectionLen <= m.commentLen
      && m.percentageCommentIntersectionDelete == m.deleteCommentIntersectionLen as real / m.commentLen as real
      && m.deletedStatementSize == |Contents(t, REMOVED)|
      && m.addedStatementSize == |Contents(t, ADDED)|
  {
    var t := CodeTokens(diff(CodeSubTokens(oldCode), CodeSubTokens(newCode)));
    HasTypeMeaning(methodRefactorings, RenameMethod);
    HasTypeMeaning(methodRefactorings, RenameParameter);
    CountIsFilterLength(CommentSubTokens(newComment), InSet(EvenFollowers(t, REMOVED)));
    CodeStatements(diff, oldCode, newCode);
  }

  /** A comment sub-token counts towards the intersection exactly when it is a removed statement of the code. */
  lemma IntersectionMeaning(diff: (seq<string>, seq<string>) -> seq<Delta>, oldCode: string, newCode: string, newComment: string)
    requires DiffContract(diff)
    ensures var t := CodeTokens(diff(CodeSubTokens(oldCode), CodeSubTokens(newCode)));
      forall x :: x in Filter(CommentSubTokens(newComment), InSet(EvenFollowers(t, REMOVED))) <==>
        x in CommentSubTokens(newComment) && x in Followers(t, REMOVED)
  {
    var t := CodeTokens(diff(CodeSubTokens(oldCode), CodeSubTokens(newCode)));
    CodeStatements(diff, oldCode, newCode);
    FilterMembers(CommentSubTokens(newComment), InSet(EvenFollowers(t, REMOVED)));
  }

  /** Either similarity of the changed statements is 0.0 when there are no such statements. */
  lemma ChangedSimWithoutStatements(sim: (seq<string>, seq<string>) -> real, methodRefactorings: seq<Refactoring>,
                                    oldSubTokens: seq<string>, newSubTokens: seq<string>, commentSubTokens: seq<string>,
                                    diffTokens: seq<string>, changedCodeLen: nat)
    requires oldSubTokens != [] && commentSubTokens != []
    ensures var m := Metric(sim, methodRefactorings, oldSubTokens, newSubTokens, commentSubTokens, diffTokens, changedCodeLen);
      && (m.deletedStatementSize == 0 ==> m.oldChangedCommentSim == 0.0)
      && (m.addedStatementSize == 0 ==> m.newChangedCommentSim == 0.0)
      && (m.deletedStatementSize > 0 ==> m.oldChangedCommentSim == sim(Followers(diffTokens, REMOVED), commentSubTokens))
      && (m.addedStatementSize > 0 ==> m.newChangedCommentSim == sim(Followers(diffTokens, ADDED), commentSubTokens))
      && m.oldNewChangedSimDist >= 0.0 && m.newOldCodeCommentSimDistance >= 0.0
  {
  }
}
