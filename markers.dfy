/**
 * The marker vocabulary of the diff engine (CodeCommentDiffs): the literal
 * delimiter tokens interleaved with content tokens in emitted spans, the four
 * keyword lists and their classifiers.
 */
module DiffMarkers {

  const REPLACE: string := "<REPLACE>"
  const REPLACE_OLD: string := "<REPLACE_OLD>"
  const REPLACE_NEW: string := "<REPLACE_NEW>"
  const REPLACE_END: string := "<REPLACE_END>"
  const REPLACE_OLD_KEEP_BEFORE: string := "<REPLACE_OLD_KEEP_BEFORE>"
  const REPLACE_NEW_KEEP_BEFORE: string := "<REPLACE_NEW_KEEP_BEFORE>"
  const REPLACE_OLD_KEEP_AFTER: string := "<REPLACE_OLD_KEEP_AFTER>"
  const REPLACE_NEW_KEEP_AFTER: string := "<REPLACE_NEW_KEEP_AFTER>"
  const REPLACE_OLD_DELETE_KEEP_BEFORE: string := "<REPLACE_OLD_DELETE_KEEP_BEFORE>"
  const REPLACE_NEW_DELETE_KEEP_BEFORE: string := "<REPLACE_NEW_DELETE_KEEP_BEFORE>"
  const REPLACE_OLD_DELETE_KEEP_AFTER: string := "<REPLACE_OLD_DELETE_KEEP_AFTER>"
  const REPLACE_NEW_DELETE_KEEP_AFTER: string := "<REPLACE_NEW_DELETE_KEEP_AFTER>"

  const INSERT: string := "<INSERT>"
  const INSERT_OLD: string := "<INSERT_OLD>"
  const INSERT_NEW: string := "<INSERT_NEW>"
  const INSERT_END: string := "<INSERT_END>"
  const INSERT_OLD_KEEP_BEFORE: string := "<INSERT_OLD_KEEP_BEFORE>"
  const INSERT_NEW_KEEP_BEFORE: string := "<INSERT_NEW_KEEP_BEFORE>"
  const INSERT_OLD_KEEP_AFTER: string := "<INSERT_OLD_KEEP_AFTER>"
  const INSERT_NEW_KEEP_AFTER: string := "<INSERT_NEW_KEEP_AFTER>"

  const DELETE: string := "<DELETE>"
  const DELETE_END: string := "<DELETE_END>"

  const KEEP: string := "<KEEP>"
  const KEEP_END: string := "<KEEP_END>"
  const COPY_SEQUENCE: string := "<COPY_SEQUENCE>"

  const REPLACE_KEYWORDS: seq<string> := [
    REPLACE, REPLACE_OLD, REPLACE_NEW, REPLACE_END,
    REPLACE_OLD_KEEP_BEFORE, REPLACE_NEW_KEEP_BEFORE,
    REPLACE_OLD_KEEP_AFTER, REPLACE_NEW_KEEP_AFTER,
    REPLACE_OLD_DELETE_KEEP_BEFORE, REPLACE_NEW_DELETE_KEEP_BEFORE,
    REPLACE_OLD_DELETE_KEEP_AFTER, REPLACE_NEW_DELETE_KEEP_AFTER]

  const INSERT_KEYWORDS: seq<string> := [
    INSERT, INSERT_OLD, INSERT_NEW, INSERT_END,
    INSERT_OLD_KEEP_BEFORE, INSERT_NEW_KEEP_BEFORE,
    INSERT_OLD_KEEP_AFTER, INSERT_NEW_KEEP_AFTER]

  const DELETE_KEYWORDS: seq<string> := [DELETE, DELETE_END]
  const KEEP_KEYWORDS: seq<string> := [KEEP, KEEP_END]

  predicate IsInsert(token: string) { token in INSERT_KEYWORDS }
  predicate IsKeep(token: string) { token in KEEP_KEYWORDS }
  predicate IsReplace(token: string) { token in REPLACE_KEYWORDS }
  predicate IsDelete(token: string) { token in DELETE_KEYWORDS }

  /** A token is an edit marker when it belongs to one of the four keyword lists. */
  predicate IsEdit(token: string) {
    IsInsert(token) || IsKeep(token) || IsReplace(token) || IsDelete(token)
  }

  /** Every marker is a `<`...`>`-delimited word of at least six characters. */
  lemma {:induction false} MarkerShape(token: string)
    requires IsEdit(token)
    ensures |token| >= 6 && token[0] == '<' && token[|token| - 1] == '>'
  {
    if IsInsert(token) {
      var i :| 0 <= i < |INSERT_KEYWORDS| && INSERT_KEYWORDS[i] == token;
    } else if IsReplace(token) {
      var i :| 0 <= i < |REPLACE_KEYWORDS| && REPLACE_KEYWORDS[i] == token;
    }
  }

  /** The four node types are different strings: they differ in their second character. */
  lemma NodeTypesDistinct()
    ensures KEEP != REPLACE && KEEP != INSERT && KEEP != DELETE
    ensures REPLACE != INSERT && REPLACE != DELETE && INSERT != DELETE
  {
    assert KEEP[1] == 'K' && REPLACE[1] == 'R' && INSERT[1] == 'I' && DELETE[1] == 'D';
  }

  /** The five markers that open a token pair of the code diff are different strings. */
  lemma CommandMarkersDistinct()
    ensures KEEP != REPLACE_OLD && KEEP != REPLACE_NEW && KEEP != INSERT && KEEP != DELETE
    ensures REPLACE_OLD != REPLACE_NEW && REPLACE_OLD != INSERT && REPLACE_OLD != DELETE
    ensures REPLACE_NEW != INSERT && REPLACE_NEW != DELETE && INSERT != DELETE
  {
    assert KEEP[1] == 'K' && REPLACE_OLD[1] == 'R' && REPLACE_NEW[1] == 'R' && INSERT[1] == 'I' && DELETE[1] == 'D';
    assert REPLACE_OLD[9] == 'O' && REPLACE_NEW[9] == 'N';
  }

  /** The classification of the vocabulary: what is and is not an edit marker. */
  lemma MarkerClasses()
    ensures !IsEdit(COPY_SEQUENCE)
    ensures forall t :: IsDelete(t) <==> t == DELETE || t == DELETE_END
    ensures forall t :: IsKeep(t) <==> t == KEEP || t == KEEP_END
    ensures IsEdit(REPLACE_NEW) && IsEdit(INSERT) && IsEdit(DELETE) && IsEdit(KEEP) && IsEdit(REPLACE_OLD)
    ensures |REPLACE_KEYWORDS| == 12 && |INSERT_KEYWORDS| == 8
  {
  }
}
