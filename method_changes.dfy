/**
 * `MethodChangesExtractor.checkMethodChanged`: whether a method's code or its
 * doc comment changed, judged on the lower-cased sub-tokens that hold a letter.
 * The line diff of java-diff-utils is the parameter `diff`.
 */
module MethodChanges {
  import opened Text
  import opened Collections
  import opened Deltas
  import opened DiffMarkers
  import opened Tokenizer
  import opened CoreTokenizer
  import opened CodeDiffs
  import opened CommentDiffs

  /** `filterSubTokens`: the sub-token holds a letter (an ASCII letter here). */
  predicate HasLetters(subToken: string) {
    exists i :: 0 <= i < |subToken| && IsLetter(subToken[i])
  }

  /** `subTokenizeCode(code).filter(filterSubTokens)`. */
  function CodeSubTokens(code: string): seq<string> {
    Filter(SubTokenized(TokenizeCode(code), true), HasLetters)
  }

  /** `subTokenizeComment(comment).filter(filterSubTokens)`. */
  function CommentSubTokens(comment: string): seq<string> {
    Filter(SubTokenizeComment(comment), HasLetters)
  }

  /** `checkMethodChanged`: false exactly when no code command differs from KEEP and the comment diff is empty. */
  function CheckMethodChanged(diff: (seq<string>, seq<string>) -> seq<Delta>,
                              oldComment: string, oldCode: string, newComment: string, newCode: string): bool
  {
    var oldSubTokens := CodeSubTokens(oldCode);
    var newSubTokens := CodeSubTokens(newCode);
    var commentSubTokens := CommentSubTokens(newComment);
    var oldCommentSubTokens := CommentSubTokens(oldComment);
    var diffCommands := CodeCommands(diff(oldSubTokens, newSubTokens));
    var commentSpans := MinimalCommentDiffs(diff, oldCommentSubTokens, commentSubTokens);
    !(NotKeepCount(diffCommands) == 0 && |commentSpans| == 0)
  }

  /** A lower-cased sub-token has no upper-case letter, so it is none of the five command markers. */
  lemma NotCommandMarker(x: string)
    requires forall i :: 0 <= i < |x| ==> !IsUpper(x[i])
    ensures x !in COMMAND_MARKERS
  {
    assert IsUpper(KEEP[1]) && IsUpper(REPLACE_OLD[1]) && IsUpper(REPLACE_NEW[1]);
    assert IsUpper(INSERT[1]) && IsUpper(DELETE[1]);
  }

  lemma LowerCasedNotMarkers(xs: seq<string>)
    requires forall k, i :: 0 <= k < |xs| && 0 <= i < |xs[k]| ==> !IsUpper(xs[k][i])
    ensures forall x :: x in xs ==> x !in COMMAND_MARKERS
  {
    forall x | x in xs ensures x !in COMMAND_MARKERS {
      var k :| 0 <= k < |xs| && xs[k] == x;
      NotCommandMarker(x);
    }
  }

  /**
   * The filtered code sub-tokens are, in order, the lower-cased sub-tokens of
   * the code that hold a letter; none of them is a command marker.
   */
  lemma CodeSubTokensMeaning(code: string)
    ensures forall x :: x in CodeSubTokens(code) <==> x in SubTokenized(TokenizeCode(code), true) && HasLetters(x)
    ensures forall x :: x in CodeSubTokens(code) ==> x !in COMMAND_MARKERS
  {
    var all := SubTokenized(TokenizeCode(code), true);
    FilterMembers(all, HasLetters);
    SubTokenizedLowerCase(TokenizeCode(code));
    LowerCasedNotMarkers(all);
  }

  /**
   * The filtered comment sub-tokens are, in order, the comment's sub-tokens
   * that hold a letter; none of them is a command marker.
   */
  lemma CommentSubTokensMeaning(comment: string)
    ensures forall x :: x in CommentSubTokens(comment) <==> x in SubTokenizeComment(comment) && HasLetters(x)
    ensures forall x :: x in CommentSubTokens(comment) ==> x !in COMMAND_MARKERS
  {
    var all := SubTokenizeComment(comment);
    FilterMembers(all, HasLetters);
    SubTokenizeCommentOfTokens(comment);
    SubTokenizedLowerCase(TokenizeComment(comment));
    LowerCasedNotMarkers(all);
  }

  /**
   * Under the diff library's contract a method counts as changed exactly when
   * its filtered code sub-tokens differ or the comment diff is not empty.
   */
  lemma MethodChangedIff(diff: (seq<string>, seq<string>) -> seq<Delta>,
                         oldComment: string, oldCode: string, newComment: string, newCode: string)
    requires DiffContract(diff)
    ensures CheckMethodChanged(diff, oldComment, oldCode, newComment, newCode) <==>
      CodeSubTokens(oldCode) != CodeSubTokens(newCode) ||
      MinimalCommentDiffs(diff, CommentSubTokens(oldComment), CommentSubTokens(newComment)) != []
  {
    CodeUnchangedIffEqual(diff, CodeSubTokens(oldCode), CodeSubTokens(newCode));
  }

  /** The same code and the same comment on both sides never count as a change. */
  lemma IdenticalUnchanged(diff: (seq<string>, seq<string>) -> seq<Delta>, comment: string, code: string)
    requires DiffContract(diff)
    ensures !CheckMethodChanged(diff, comment, code, comment, code)
  {
    CodeUnchangedIffEqual(diff, CodeSubTokens(code), CodeSubTokens(code));
    EqualTokensNoDiff(diff, CommentSubTokens(comment));
  }
}
