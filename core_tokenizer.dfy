/**
 * The comment front-end of the plugin-core tokenizer: '/' and '*' are dropped,
 * and a comment that opens with a `@return` or a `@param` tag is scanned with
 * its tags stripped and gets a leading "@return" token; any other comment is
 * scanned with its tags left in place.
 */
module CoreTokenizer {
  import opened Text
  import opened Tokenizer

  /** `comment.filter { it != '/' && it != '*' }`. */
  function WithoutStars(comment: string): (r: string)
    ensures '/' !in r && '*' !in r
    ensures forall c :: c != '/' && c != '*' ==> (c in r <==> c in comment)
  {
    RemoveChar(RemoveChar(comment, '/'), '*')
  }

  /** The trimmed text starts with one of the two tags that switch on tag stripping. */
  predicate OpensWithTag(text: string) {
    StartsWith(Trim(text), "@return") || StartsWith(Trim(text), "@param")
  }

  /** `subTokenizeComment`. Both tags lead to the same "@return" token. */
  function SubTokenizeComment(comment: string): seq<string> {
    var text := WithoutStars(comment);
    if StartsWith(Trim(text), "@return") then [RETURN_MARKER] + SubTokenizeText(text, true, true)
    else if StartsWith(Trim(text), "@param") then [RETURN_MARKER] + SubTokenizeText(text, true, true)
    else SubTokenizeText(text, false, true)
  }

  /** `tokenizeComment`: the same choice, without the sub-token split. */
  function TokenizeComment(comment: string): seq<string> {
    TokenizeFiltered(WithoutStars(comment))
  }

  /** The choice of `tokenizeComment`, made on the already filtered text. */
  function TokenizeFiltered(text: string): seq<string> {
    if StartsWith(Trim(text), "@return") then [RETURN_MARKER] + TokenizeText(text, true)
    else if StartsWith(Trim(text), "@param") then [RETURN_MARKER] + TokenizeText(text, true)
    else TokenizeText(text, false)
  }

  /** The "@return" token marks exactly the comments that open with a tag, and only ever stands first. */
  lemma CommentMarker(comment: string)
    ensures RETURN_MARKER in TokenizeComment(comment) <==> OpensWithTag(WithoutStars(comment))
    ensures forall k :: 0 < k < |TokenizeComment(comment)| ==> TokenizeComment(comment)[k] != RETURN_MARKER
    ensures RETURN_MARKER in SubTokenizeComment(comment) <==> OpensWithTag(WithoutStars(comment))
    ensures forall k :: 0 < k < |SubTokenizeComment(comment)| ==> SubTokenizeComment(comment)[k] != RETURN_MARKER
  {
    var text := WithoutStars(comment);
    FilteredMarker(text);
    SubCommentMarker(comment);
  }

  /** A marker put in front of a list without one stands only first. */
  lemma MarkerOnlyFirst(tokens: seq<string>)
    requires RETURN_MARKER !in tokens
    ensures RETURN_MARKER in [RETURN_MARKER] + tokens
    ensures forall k :: 0 < k < |[RETURN_MARKER] + tokens| ==> ([RETURN_MARKER] + tokens)[k] != RETURN_MARKER
  {
    forall k | 0 < k < |[RETURN_MARKER] + tokens| ensures ([RETURN_MARKER] + tokens)[k] != RETURN_MARKER {
      assert ([RETURN_MARKER] + tokens)[k] == tokens[k - 1];
    }
  }

  /** The marker half of `CommentMarker` for `tokenizeComment`, on the filtered text. */
  lemma FilteredMarker(text: string)
    ensures RETURN_MARKER in TokenizeFiltered(text) <==> OpensWithTag(text)
    ensures forall k :: 0 < k < |TokenizeFiltered(text)| ==> TokenizeFiltered(text)[k] != RETURN_MARKER
  {
    FilteredTokensShape(text);
    NoReturnToken(text, OpensWithTag(text));
    if OpensWithTag(text) {
      MarkerOnlyFirst(TokenizeText(text, true));
    }
  }

  /** On the filtered comment, `subTokenizeComment` makes the same choice as `tokenizeComment`. */
  lemma SubCommentShape(comment: string)
    ensures OpensWithTag(WithoutStars(comment)) ==>
      SubTokenizeComment(comment) == [RETURN_MARKER] + SubTokenizeText(WithoutStars(comment), true, true)
    ensures !OpensWithTag(WithoutStars(comment)) ==>
      SubTokenizeComment(comment) == SubTokenizeText(WithoutStars(comment), false, true)
  {
  }

  /** The marker half of `CommentMarker` for `subTokenizeComment`. */
  lemma SubCommentMarker(comment: string)
    ensures RETURN_MARKER in SubTokenizeComment(comment) <==> OpensWithTag(WithoutStars(comment))
    ensures forall k :: 0 < k < |SubTokenizeComment(comment)| ==> SubTokenizeComment(comment)[k] != RETURN_MARKER
  {
    var text := WithoutStars(comment);
    SubCommentShape(comment);
    NoReturnToken(text, OpensWithTag(text));
    if OpensWithTag(text) {
      MarkerOnlyFirst(SubTokenizeText(text, true, true));
    }
  }

  /** `subTokenizeComment` is `subTokenizeTokens` applied to `tokenizeComment`, with lower-casing. */
  lemma SubTokenizeCommentOfTokens(comment: string)
    ensures SubTokenizeComment(comment) == SubTokenized(TokenizeComment(comment), true)
  {
    SubTokenizedAfterMarker(TokenizeText(WithoutStars(comment), true));
  }

  /** On a filtered text, a tag opening adds the marker before the tokens of the tag-stripped text; otherwise the tokens are those of the text as is. */
  lemma FilteredTokensShape(text: string)
    ensures OpensWithTag(text) ==> TokenizeFiltered(text) == [RETURN_MARKER] + TokenizeText(text, true)
    ensures !OpensWithTag(text) ==> TokenizeFiltered(text) == TokenizeText(text, false)
  {
  }

  /** Tokens made of characters of a text without '/' and '*' hold neither. */
  lemma TokensAvoidChars(tokens: seq<string>, text: string)
    requires '/' !in text && '*' !in text
    requires forall k, i :: 0 <= k < |tokens| && 0 <= i < |tokens[k]| ==> tokens[k][i] in text
    ensures forall k :: 0 <= k < |tokens| ==> '/' !in tokens[k] && '*' !in tokens[k]
  {
    forall k | 0 <= k < |tokens| ensures '/' !in tokens[k] && '*' !in tokens[k] {
      forall i | 0 <= i < |tokens[k]| ensures tokens[k][i] != '/' && tokens[k][i] != '*' {
        assert tokens[k][i] in text;
      }
    }
  }

  /** Putting the "@return" marker in front keeps tokens free of '/' and '*'. */
  lemma MarkerAvoidsChars(tokens: seq<string>)
    requires forall k :: 0 <= k < |tokens| ==> '/' !in tokens[k] && '*' !in tokens[k]
    ensures forall k :: 0 <= k < |[RETURN_MARKER] + tokens| ==>
      '/' !in ([RETURN_MARKER] + tokens)[k] && '*' !in ([RETURN_MARKER] + tokens)[k]
  {
    var result := [RETURN_MARKER] + tokens;
    ReturnMarkerChars();
    forall k | 0 <= k < |result| ensures '/' !in result[k] && '*' !in result[k] {
      if k > 0 {
        assert result[k] == tokens[k - 1];
      }
    }
  }

  /** A text without '/' and '*' yields tokens without them. */
  lemma FilteredTokensChars(text: string)
    requires '/' !in text && '*' !in text
    ensures forall k :: 0 <= k < |TokenizeFiltered(text)| ==>
      '/' !in TokenizeFiltered(text)[k] && '*' !in TokenizeFiltered(text)[k]
  {
    var removeTag := OpensWithTag(text);
    var tokens := TokenizeText(text, removeTag);
    FilteredTokensShape(text);
    TokenizeTextChars(text, removeTag);
    TokensAvoidChars(tokens, text);
    if removeTag {
      MarkerAvoidsChars(tokens);
    }
  }

  /** No token of a comment holds a '/' or a '*'. */
  lemma CommentWithoutStars(comment: string)
    ensures forall k :: 0 <= k < |TokenizeComment(comment)| ==>
      '/' !in TokenizeComment(comment)[k] && '*' !in TokenizeComment(comment)[k]
  {
    FilteredTokensChars(WithoutStars(comment));
  }
}
