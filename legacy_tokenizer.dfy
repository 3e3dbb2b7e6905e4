/**
 * The comment front-end of the older tokenizer in the plugin module (and of its
 * copy inside `CodeCommentProcessing.kt`): comments are always scanned with
 * their tags stripped, keep their '/' and '*' characters and get no "@return"
 * token; `createSample` bundles a code/comment pair with their sub-tokens.
 */
module LegacyTokenizer {
  import opened Text
  import opened Tokenizer

  /** `CodeCommentSample` without its `ast` field, which is always null. */
  datatype CodeCommentSample = CodeCommentSample(
    comment: string, commentSubTokens: seq<string>, code: string, codeSubTokens: seq<string>)

  /** `subTokenizeComment`: `subTokenizeText` with tag stripping and lower-casing. */
  function SubTokenizeComment(comment: string): seq<string> {
    SubTokenizeText(comment, true, true)
  }

  /** `tokenizeComment`: `tokenizeText` with tag stripping. */
  function TokenizeComment(comment: string): seq<string> {
    TokenizeText(comment, true)
  }

  /** `createSample`: the comment and the code with their sub-tokens. */
  method CreateSample(code: string, comment: string) returns (sample: CodeCommentSample)
    ensures sample.comment == comment && sample.code == code
    ensures sample.commentSubTokens == SubTokenized(TokenizeComment(comment), true)
    ensures sample.codeSubTokens == SubTokenized(TokenizeCode(code), true)
  {
    var codeSubTokens := SubTokenizeCode(code, true);
    sample := CodeCommentSample(comment, SubTokenizeComment(comment), code, codeSubTokens);
  }

  /** Unlike the plugin-core tokenizer, this one never produces a "@return" token. */
  lemma NoReturnMarker(comment: string)
    ensures RETURN_MARKER !in TokenizeComment(comment)
    ensures RETURN_MARKER !in SubTokenizeComment(comment)
  {
    NoReturnToken(comment, true);
  }

  /** The tokens are the scan of the tag-stripped comment: words and symbols spelling it without whitespace. */
  lemma CommentTokensMeaning(comment: string)
    ensures forall k :: 0 <= k < |TokenizeComment(comment)| ==> IsToken(TokenizeComment(comment)[k])
    ensures Concat(TokenizeComment(comment)) == DropRegexSpace(CleanText(comment, true))
  {
    TokenizeTextMeaning(comment, true);
  }
}
