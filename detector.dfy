/**
 * `JITDetector` (the plugin-core copy and the older plugin copy): the lookup
 * of token ids with an unknown-token fallback, the truncate-or-pad step that
 * gives the network fixed-width id rows, the lengths passed beside them, and
 * the threshold rule of `predict`. The ONNX network, including the tensor
 * conversions that may fail, is the parameter `score`; the feature matrices
 * that also go into it are modelled in `Features`.
 */
module Detector {
  import opened Wrappers
  import opened Deltas
  import opened Tokenizer
  import opened CoreTokenizer
  import opened CodeDiffs

  /**
   * `EmbeddingConfig` of either copy: the older one names `maxCommentLen`
   * `maxNlLen`, `unknownToken` `unk` and `paddingToken` `pad`. The lengths are
   * `nat` because `take` and `List(n)` throw on a negative size.
   */
  datatype EmbeddingConfig = EmbeddingConfig(
    maxCodeLen: nat, maxCommentLen: nat, unknownToken: string, paddingToken: string,
    commentVocab: map<string, int>, codeVocab: map<string, int>)

  /** `getIdOrUnk`: the token's id, else the unknown token's id, else 0. */
  function GetIdOrUnk(token: string, vocab: map<string, int>, unknownToken: string): (id: int)
    ensures token in vocab ==> id == vocab[token]
    ensures token !in vocab && unknownToken in vocab ==> id == vocab[unknownToken]
    ensures id in vocab.Values || (id == 0 && token !in vocab && unknownToken !in vocab)
  {
    if token in vocab then vocab[token]
    else if unknownToken in vocab then vocab[unknownToken]
    else 0
  }

  /** `take(n)`: the first `n` elements, or all of them when there are fewer. */
  function Take<T>(xs: seq<T>, n: nat): (r: seq<T>)
    ensures |r| == if n < |xs| then n else |xs|
    ensures r <= xs
  {
    if n < |xs| then xs[..n] else xs
  }

  /** `getPaddedIds`: look the (truncated) tokens up, then pad with `paddingElement` up to `padToSize`. */
  function GetPaddedIds(tokens: seq<string>, vocab: map<string, int>, unknownToken: string,
                        padToSize: Option<nat>, paddingElement: int): seq<int>
  {
    var paddedTokens := if padToSize.Some? then Take(tokens, padToSize.value) else tokens;
    var ids := seq(|paddedTokens|, i requires 0 <= i < |paddedTokens| => GetIdOrUnk(paddedTokens[i], vocab, unknownToken));
    if padToSize.Some? && |ids| != padToSize.value then
      ids + seq(padToSize.value - |ids|, _ => paddingElement)
    else ids
  }

  /**
   * With a size `n` the row has exactly `n` ids: the ids of the first
   * min(|tokens|, n) tokens in order, then `paddingElement` to the end.
   */
  lemma PaddedIdsSized(tokens: seq<string>, vocab: map<string, int>, unknownToken: string, n: nat, paddingElement: int)
    ensures |GetPaddedIds(tokens, vocab, unknownToken, Some(n), paddingElement)| == n
    ensures forall i :: 0 <= i < n && i < |tokens| ==>
      GetPaddedIds(tokens, vocab, unknownToken, Some(n), paddingElement)[i] == GetIdOrUnk(tokens[i], vocab, unknownToken)
    ensures forall i :: |tokens| <= i < n ==>
      GetPaddedIds(tokens, vocab, unknownToken, Some(n), paddingElement)[i] == paddingElement
  {
  }

  /** Without a size every token gets its id, with neither truncation nor padding. */
  lemma PaddedIdsPlain(tokens: seq<string>, vocab: map<string, int>, unknownToken: string, paddingElement: int)
    ensures |GetPaddedIds(tokens, vocab, unknownToken, None, paddingElement)| == |tokens|
    ensures forall i :: 0 <= i < |tokens| ==>
      GetPaddedIds(tokens, vocab, unknownToken, None, paddingElement)[i] == GetIdOrUnk(tokens[i], vocab, unknownToken)
  {
  }

  /** A sized row depends only on the tokens it keeps: truncating first changes nothing. */
  lemma PaddedIdsTruncation(tokens: seq<string>, vocab: map<string, int>, unknownToken: string, n: nat, paddingElement: int)
    ensures GetPaddedIds(Take(tokens, n), vocab, unknownToken, Some(n), paddingElement) ==
            GetPaddedIds(tokens, vocab, unknownToken, Some(n), paddingElement)
  {
    var a := GetPaddedIds(Take(tokens, n), vocab, unknownToken, Some(n), paddingElement);
    var b := GetPaddedIds(tokens, vocab, unknownToken, Some(n), paddingElement);
    PaddedIdsSized(Take(tokens, n), vocab, unknownToken, n, paddingElement);
    PaddedIdsSized(tokens, vocab, unknownToken, n, paddingElement);
    forall i | 0 <= i < n ensures a[i] == b[i] {
      if i < |tokens| {
        assert Take(tokens, n)[i] == tokens[i];
      }
    }
  }

  /** The id rows and lengths `predict` hands to the network for one comment and one code span sequence. */
  datatype ModelInputs = ModelInputs(commentIds: seq<int>, commentLength: nat, codeIds: seq<int>, codeLength: nat)

  function Min(a: nat, b: nat): (m: nat)
    ensures m <= a && m <= b && (m == a || m == b)
  {
    if a < b then a else b
  }

  /** The id and length part of `predict`: both rows are padded with the id of the padding token in their own vocabulary. */
  function Inputs(config: EmbeddingConfig, commentSubTokens: seq<string>, spanCodeSequence: seq<string>): ModelInputs {
    ModelInputs(
      GetPaddedIds(commentSubTokens, config.commentVocab, config.unknownToken, Some(config.maxCommentLen),
                   GetIdOrUnk(config.paddingToken, config.commentVocab, config.unknownToken)),
      Min(|commentSubTokens|, config.maxCommentLen),
      GetPaddedIds(spanCodeSequence, config.codeVocab, config.unknownToken, Some(config.maxCodeLen),
                   GetIdOrUnk(config.paddingToken, config.codeVocab, config.unknownToken)),
      Min(|spanCodeSequence|, config.maxCodeLen))
  }

  /**
   * The rows have the configured widths; each length counts the real ids at
   * the front of its row, and every later slot holds the padding id.
   */
  lemma InputsMeaning(config: EmbeddingConfig, commentSubTokens: seq<string>, spanCodeSequence: seq<string>)
    ensures var m := Inputs(config, commentSubTokens, spanCodeSequence);
      |m.commentIds| == config.maxCommentLen && |m.codeIds| == config.maxCodeLen &&
      m.commentLength <= config.maxCommentLen && m.codeLength <= config.maxCodeLen &&
      m.commentLength <= |commentSubTokens| && m.codeLength <= |spanCodeSequence| &&
      (m.commentLength == |commentSubTokens| || m.commentLength == config.maxCommentLen) &&
      (m.codeLength == |spanCodeSequence| || m.codeLength == config.maxCodeLen) &&
      (forall i :: 0 <= i < m.commentLength ==>
        m.commentIds[i] == GetIdOrUnk(commentSubTokens[i], config.commentVocab, config.unknownToken)) &&
      (forall i :: m.commentLength <= i < config.maxCommentLen ==>
        m.commentIds[i] == GetIdOrUnk(config.paddingToken, config.commentVocab, config.unknownToken)) &&
      (forall i :: 0 <= i < m.codeLength ==>
        m.codeIds[i] == GetIdOrUnk(spanCodeSequence[i], config.codeVocab, config.unknownToken)) &&
      (forall i :: m.codeLength <= i < config.maxCodeLen ==>
        m.codeIds[i] == GetIdOrUnk(config.paddingToken, config.codeVocab, config.unknownToken))
  {
    PaddedIdsSized(commentSubTokens, config.commentVocab, config.unknownToken, config.maxCommentLen,
                   GetIdOrUnk(config.paddingToken, config.commentVocab, config.unknownToken));
    PaddedIdsSized(spanCodeSequence, config.codeVocab, config.unknownToken, config.maxCodeLen,
                   GetIdOrUnk(config.paddingToken, config.codeVocab, config.unknownToken));
  }

  /** `TRUE_PROB` of the plugin core: the softmax probability of class 1 that makes a comment inconsistent. */
  const TRUE_PROB: real := 0.5

  /** `TRUE_PROB` of the older plugin, compared with the raw first output. */
  const LEGACY_TRUE_PROB: real := 0.9

  /** `computeCodeDiffs(...).first` on the lower-cased code sub-tokens of both versions. */
  function SpanCodeSequence(diff: (seq<string>, seq<string>) -> seq<Delta>, oldCode: string, newCode: string): seq<string> {
    CodeSpans(diff(SubTokenized(TokenizeCode(oldCode), true), SubTokenized(TokenizeCode(newCode), true)))
  }

  /**
   * `predict` of the plugin core: null without a doc comment or when a tensor
   * cannot be built (`score` yields None), otherwise whether the probability
   * reaches `TRUE_PROB`.
   */
  function Predict(config: EmbeddingConfig, diff: (seq<string>, seq<string>) -> seq<Delta>,
                   oldCode: string, newCode: string, docComment: Option<string>,
                   score: ModelInputs -> Option<real>): Option<bool>
  {
    match docComment
    case None => None
    case Some(comment) =>
      var inputs := Inputs(config, SubTokenizeComment(comment), SpanCodeSequence(diff, oldCode, newCode));
      match score(inputs)
      case None => None
      case Some(probability) => Some(probability >= TRUE_PROB)
  }

  /**
   * The verdict is null exactly without a doc comment or a network result, and
   * otherwise "inconsistent" exactly when the probability for the comment's
   * inputs is at least one half (a probability of exactly 0.5 counts).
   */
  lemma PredictMeaning(config: EmbeddingConfig, diff: (seq<string>, seq<string>) -> seq<Delta>,
                       oldCode: string, newCode: string, docComment: Option<string>,
                       score: ModelInputs -> Option<real>)
    ensures docComment.None? ==> Predict(config, diff, oldCode, newCode, docComment, score).None?
    ensures docComment.Some? ==>
      var inputs := Inputs(config, SubTokenizeComment(docComment.value), SpanCodeSequence(diff, oldCode, newCode));
      (Predict(config, diff, oldCode, newCode, docComment, score).None? <==> score(inputs).None?) &&
      (score(inputs).Some? ==>
        (Predict(config, diff, oldCode, newCode, docComment, score) == Some(true) <==> score(inputs).value >= 1.0 / 2.0))
  {
  }

  /**
   * `predict` of the older plugin: the same inputs built with its configuration
   * names. Its comment sub-tokens come from the imported plugin-core tokenizer,
   * so `subTokenizeComment` is `CoreTokenizer.SubTokenizeComment`, with '/'
   * and '*' filtered out and the "@return" prefix. Its code spans come from
   * the older plugin's own diff module as `spanCodeSequence`. The verdict is
   * the raw first network output compared with 0.9.
   */
  function PredictLegacy(config: EmbeddingConfig, docComment: Option<string>,
                         subTokenizeComment: string -> seq<string>, spanCodeSequence: seq<string>,
                         output: ModelInputs -> Option<real>): Option<bool>
  {
    match docComment
    case None => None
    case Some(comment) =>
      match output(Inputs(config, subTokenizeComment(comment), spanCodeSequence))
      case None => None
      case Some(probability) => Some(probability >= LEGACY_TRUE_PROB)
  }

  /** The older verdict: null without a doc comment, otherwise "inconsistent" exactly when the first output reaches 0.9. */
  lemma PredictLegacyMeaning(config: EmbeddingConfig, docComment: Option<string>,
                             subTokenizeComment: string -> seq<string>, spanCodeSequence: seq<string>,
                             output: ModelInputs -> Option<real>)
    ensures docComment.None? ==> PredictLegacy(config, docComment, subTokenizeComment, spanCodeSequence, output).None?
    ensures docComment.Some? ==>
      var inputs := Inputs(config, subTokenizeComment(docComment.value), spanCodeSequence);
      (PredictLegacy(config, docComment, subTokenizeComment, spanCodeSequence, output).None? <==> output(inputs).None?) &&
      (output(inputs).Some? ==>
        (PredictLegacy(config, docComment, subTokenizeComment, spanCodeSequence, output) == Some(true) <==>
         output(inputs).value >= 9.0 / 10.0))
  {
  }
}
