/**
 * `JITModelFeatureExtractor` of the older plugin: the fixed-width integer
 * feature rows the consistency network reads beside the token ids. Code rows
 * (19 slots) describe each entry of the code-diff span sequence; comment rows
 * (53 slots) describe each sub-token of the comment. The per-method features
 * (return type and return statements) come from PSI and are taken as the maps
 * `extractMethodFeatures` returns.
 */
module Features {
  import opened Wrappers
  import opened Text
  import opened DiffMarkers
  import opened Tokenizer

  const NUM_CODE_FEATURES: nat := 19
  const NUM_NL_FEATURES: nat := 53

  /** The part-of-speech slot that every comment sub-token gets: "other" (17 + 35). */
  const OTHER_INDEX: nat := 35

  const STOP_WORDS: seq<string> := [
    "i", "me", "my", "myself", "we",
    "our", "ours", "ourselves", "you", "you're", "you've",
    "you'll", "you'd", "your", "yours", "yourself",
    "yourselves", "he", "him", "his", "himself", "she",
    "she's", "her", "hers", "herself", "it", "it's", "its",
    "itself", "they", "them", "their", "theirs", "themselves",
    "what", "which", "who", "whom", "this", "that", "that'll",
    "these", "those", "am", "is", "are", "was", "were", "be",
    "been", "being", "have", "has", "had", "having", "do",
    "does", "did", "doing", "a", "an", "the", "and", "but",
    "if", "or", "because", "as", "until", "while", "of", "at",
    "by", "for", "with", "about", "against", "between", "into",
    "through", "during", "before", "after", "above", "below", "to",
    "from", "up", "down", "in", "out", "on", "off", "over", "under",
    "again", "further", "then", "once", "here", "there", "when", "where",
    "why", "how", "all", "any", "both", "each", "few", "more", "most",
    "other", "some", "such", "no", "nor", "not", "only", "own", "same",
    "so", "than", "too", "very", "s", "t", "can", "will", "just", "don",
    "don't", "should", "should've", "now", "d", "ll", "m", "o", "re",
    "ve", "y", "ain", "aren", "aren't", "couldn", "couldn't", "didn",
    "didn't", "doesn", "doesn't", "hadn", "hadn't", "hasn", "hasn't",
    "haven", "haven't", "isn", "isn't", "ma", "mightn", "mightn't",
    "mustn", "mustn't", "needn", "needn't", "shan", "shan't", "shouldn",
    "shouldn't", "wasn", "wasn't", "weren", "weren't", "won", "won't",
    "wouldn", "wouldn't"]

  const JAVA_KEYWORDS: seq<string> := [
    "abstract", "assert", "boolean", "break", "byte", "case", "catch", "char", "class",
    "continue", "default", "do", "double", "else", "enum", "extends", "final", "finally",
    "float", "for", "if", "implements", "import", "instanceof", "int", "interface", "long",
    "native", "new", "null", "package", "private", "protected", "public", "return", "short",
    "static", "strictfp", "super", "switch", "synchronized", "this", "throw", "throws", "transient",
    "try", "void", "volatile", "while"]

  // ----- the sets both matrices compare with -----

  /** `(features[key] ?: listOf()).toSet()`. */
  function FeatureSet(features: map<string, seq<string>>, key: string): (r: set<string>)
    ensures forall x :: x in r <==> key in features && x in features[key]
  {
    if key in features then set x | x in features[key] else {}
  }

  /** The return-type and return-statement token sets of the old and the new method. */
  datatype Overlap = Overlap(oldTypes: set<string>, newTypes: set<string>,
                             oldStatements: set<string>, newStatements: set<string>)

  function OverlapOf(oldFeatures: map<string, seq<string>>, newFeatures: map<string, seq<string>>): Overlap {
    Overlap(FeatureSet(oldFeatures, "return_type"), FeatureSet(newFeatures, "return_type"),
            FeatureSet(oldFeatures, "return_statements"), FeatureSet(newFeatures, "return_statements"))
  }

  /** The slot of the four-way `when`: 0 in both sets, 1 in the old one only, 2 in the new one only, 3 in neither. */
  function OverlapClass(t: string, olds: set<string>, news: set<string>): nat {
    if t in olds * news then 0 else if t in olds then 1 else if t in news then 2 else 3
  }

  /** The two four-way `when`s both matrices start a row with: sets slot `OverlapClass` of the types and 4 + that of the statements. */
  method MarkOverlap(features: array2<int>, i: nat, t: string, ov: Overlap)
    requires i < features.Length0 && features.Length1 >= 8
    modifies features
    ensures forall k, j :: 0 <= k < features.Length0 && 0 <= j < features.Length1 ==>
      features[k, j] == if k == i && (j == OverlapClass(t, ov.oldTypes, ov.newTypes) ||
                                     j == 4 + OverlapClass(t, ov.oldStatements, ov.newStatements))
                        then 1 else old(features[k, j])
  {
    if t in ov.oldTypes * ov.newTypes {
      features[i, 0] := 1;
    } else if t in ov.oldTypes {
      features[i, 1] := 1;
    } else if t in ov.newTypes {
      features[i, 2] := 1;
    } else {
      features[i, 3] := 1;
    }
    if t in ov.oldStatements * ov.newStatements {
      features[i, 4] := 1;
    } else if t in ov.oldStatements {
      features[i, 5] := 1;
    } else if t in ov.newStatements {
      features[i, 6] := 1;
    } else {
      features[i, 7] := 1;
    }
  }

  /** `all { !it.isLetterOrDigit() }`, with ASCII letters and digits; true of the empty token. */
  predicate AllSymbols(t: string) {
    forall i :: 0 <= i < |t| ==> !IsAlnum(t[i])
  }

  /** `toSet()` of a token list. */
  function SetOf(xs: seq<string>): set<string> {
    set x | x in xs
  }

  function Flag(b: bool): int {
    if b then 1 else 0
  }

  // ----- code features -----

  /** What `getCodeFeatures` tells a span entry to be, in the priority order of its `when`. */
  datatype TokenKind = EditMarker | JavaKeyword | Operator | CommentWord | OtherToken

  function KindOf(t: string, commentSet: set<string>): TokenKind {
    if IsEdit(t) then EditMarker
    else if t in JAVA_KEYWORDS then JavaKeyword
    else if AllSymbols(t) then Operator
    else if t in commentSet then CommentWord
    else OtherToken
  }

  /** The token-kind slot: 8 to 11, none for a plain token. */
  function KindSlot(kind: TokenKind): Option<nat> {
    match kind
    case EditMarker => Some(8)
    case JavaKeyword => Some(9)
    case Operator => Some(10)
    case CommentWord => Some(11)
    case OtherToken => None
  }

  /** The last-command slot of a token that is not a marker; markers get none. */
  function CommandSlot(kind: TokenKind, lastCommand: string): Option<nat> {
    if kind == EditMarker then None
    else if lastCommand == KEEP then Some(12)
    else if lastCommand == INSERT then Some(13)
    else if lastCommand == DELETE then Some(14)
    else if lastCommand == REPLACE_NEW then Some(15)
    else Some(16)
  }

  /** The row of one span entry `t` of kind `kind`, given the last marker seen before it. */
  function CodeRow(t: string, kind: TokenKind, lastCommand: string, ov: Overlap): seq<int> {
    var typeSlot := OverlapClass(t, ov.oldTypes, ov.newTypes);
    var statementSlot := 4 + OverlapClass(t, ov.oldStatements, ov.newStatements);
    var kindSlot := KindSlot(kind);
    var commandSlot := CommandSlot(kind, lastCommand);
    seq(NUM_CODE_FEATURES, j requires 0 <= j < NUM_CODE_FEATURES =>
      Flag(j == typeSlot || j == statementSlot || Some(j) == kindSlot || Some(j) == commandSlot))
  }

  /** The last entry of `prefix` that `isMarker` accepts, or "" when there is none. */
  function LastMarker(prefix: seq<string>, isMarker: string -> bool): string {
    if prefix == [] then ""
    else if isMarker(prefix[|prefix| - 1]) then prefix[|prefix| - 1]
    else LastMarker(prefix[..|prefix| - 1], isMarker)
  }

  /** `lastCommand` after a prefix of the span sequence: its last edit marker, or "" before the first. */
  function LastCommand(prefix: seq<string>): string {
    LastMarker(prefix, IsEdit)
  }

  /** The cell `(i, j)` of the code matrix: the row of entry `i` while the span lasts, zero after it. */
  function CodeFeature(spanSequence: seq<string>, ov: Overlap, commentSet: set<string>, i: nat, j: nat): int
    requires j < NUM_CODE_FEATURES
  {
    if i < |spanSequence| then
      CodeRow(spanSequence[i], KindOf(spanSequence[i], commentSet), LastCommand(spanSequence[..i]), ov)[j]
    else 0
  }

  /**
   * The `when` blocks of one iteration of `getCodeFeatures`, on a zero row:
   * each sets the slot its matching branch names; returns the next `lastCommand`.
   */
  method FillCodeRow(features: array2<int>, i: nat, t: string, lastCommand: string, ov: Overlap, commentSet: set<string>)
    returns (nextCommand: string)
    requires i < features.Length0 && features.Length1 == NUM_CODE_FEATURES
    requires forall j :: 0 <= j < NUM_CODE_FEATURES ==> features[i, j] == 0
    modifies features
    ensures forall j :: 0 <= j < NUM_CODE_FEATURES ==>
      features[i, j] == CodeRow(t, KindOf(t, commentSet), lastCommand, ov)[j]
    ensures forall k, j :: 0 <= k < features.Length0 && 0 <= j < NUM_CODE_FEATURES && k != i ==>
      features[k, j] == old(features[k, j])
    ensures nextCommand == if IsEdit(t) then t else lastCommand
  {
    MarkOverlap(features, i, t, ov);
    var kind := KindOf(t, commentSet);
    var kindSlot := KindSlot(kind);
    if kindSlot.Some? {
      features[i, kindSlot.value] := 1;
    }
    var commandSlot := CommandSlot(kind, lastCommand);
    if commandSlot.Some? {
      features[i, commandSlot.value] := 1;
      nextCommand := lastCommand;
    } else {
      nextCommand := t;
    }
  }

  /**
   * `getCodeFeatures`: `maxCodeLen` rows of 19 slots; entry `i` of the span
   * sequence fills row `i` while `i < maxCodeLen`, the other rows stay zero.
   */
  method GetCodeFeatures(spanSequence: seq<string>, commentTokens: seq<string>,
                         oldFeatures: map<string, seq<string>>, newFeatures: map<string, seq<string>>, maxCodeLen: nat)
    returns (features: array2<int>)
    ensures fresh(features) && features.Length0 == maxCodeLen && features.Length1 == NUM_CODE_FEATURES
    ensures forall i, j :: 0 <= i < maxCodeLen && 0 <= j < NUM_CODE_FEATURES ==>
      features[i, j] == CodeFeature(spanSequence, OverlapOf(oldFeatures, newFeatures), SetOf(commentTokens), i, j)
  {
    var ov := OverlapOf(oldFeatures, newFeatures);
    var commentTokensSet := SetOf(commentTokens);
    features := new int[maxCodeLen, NUM_CODE_FEATURES]((_, _) => 0);
    var lastCommand := "";
    for i := 0 to |spanSequence|
      invariant lastCommand == LastCommand(spanSequence[..i])
      invariant forall k, j :: 0 <= k < maxCodeLen && 0 <= j < NUM_CODE_FEATURES ==>
        features[k, j] == if k < i then CodeFeature(spanSequence, ov, commentTokensSet, k, j) else 0
    {
      if i >= maxCodeLen {
        break;
      }
      lastCommand := FillCodeRow(features, i, spanSequence[i], lastCommand, ov, commentTokensSet);
      assert spanSequence[..i + 1][..i] == spanSequence[..i];
    }
  }

  /**
   * Slots 0-3 and 4-7 of a code row: each is 0 or 1 and says which of the old
   * and the new return-type (return-statement) sets hold the entry.
   */
  lemma CodeRowOverlap(t: string, kind: TokenKind, lastCommand: string, ov: Overlap)
    ensures var row := CodeRow(t, kind, lastCommand, ov);
      |row| == NUM_CODE_FEATURES &&
      (forall j :: 0 <= j < NUM_CODE_FEATURES ==> row[j] == 0 || row[j] == 1) &&
      (row[0] == 1 <==> t in ov.oldTypes && t in ov.newTypes) &&
      (row[1] == 1 <==> t in ov.oldTypes && t !in ov.newTypes) &&
      (row[2] == 1 <==> t !in ov.oldTypes && t in ov.newTypes) &&
      (row[3] == 1 <==> t !in ov.oldTypes && t !in ov.newTypes) &&
      (row[4] == 1 <==> t in ov.oldStatements && t in ov.newStatements) &&
      (row[5] == 1 <==> t in ov.oldStatements && t !in ov.newStatements) &&
      (row[6] == 1 <==> t !in ov.oldStatements && t in ov.newStatements) &&
      (row[7] == 1 <==> t !in ov.oldStatements && t !in ov.newStatements)
  {
  }

  /**
   * Slots 8-11 of a code row: 8 marks edit markers, then 9 Java keywords, 10
   * operators (no ASCII letter or digit) and 11 words of the comment, each only
   * when no earlier one applies.
   */
  lemma CodeRowKind(t: string, lastCommand: string, ov: Overlap, commentSet: set<string>)
    ensures var row := CodeRow(t, KindOf(t, commentSet), lastCommand, ov);
      (row[8] == 1 <==> IsEdit(t)) &&
      (row[9] == 1 <==> !IsEdit(t) && t in JAVA_KEYWORDS) &&
      (row[10] == 1 <==> !IsEdit(t) && t !in JAVA_KEYWORDS && AllSymbols(t)) &&
      (row[11] == 1 <==> !IsEdit(t) && t !in JAVA_KEYWORDS && !AllSymbols(t) && t in commentSet)
  {
  }

  /**
   * Slots 12-16 give a non-marker the last command seen (keep, insert, delete,
   * replace-new, anything else); markers get none; 17 and 18 stay zero.
   */
  lemma CodeRowCommand(t: string, lastCommand: string, ov: Overlap, commentSet: set<string>)
    ensures var row := CodeRow(t, KindOf(t, commentSet), lastCommand, ov);
      (row[12] == 1 <==> !IsEdit(t) && lastCommand == KEEP) &&
      (row[13] == 1 <==> !IsEdit(t) && lastCommand == INSERT) &&
      (row[14] == 1 <==> !IsEdit(t) && lastCommand == DELETE) &&
      (row[15] == 1 <==> !IsEdit(t) && lastCommand == REPLACE_NEW) &&
      (row[16] == 1 <==> !IsEdit(t) && lastCommand != KEEP && lastCommand != INSERT &&
                         lastCommand != DELETE && lastCommand != REPLACE_NEW) &&
      row[17] == 0 && row[18] == 0
  {
    CodeRowSlots(t, KindOf(t, commentSet), lastCommand, ov);
    CommandMarkersDistinct();
  }

  /** Each group of slots of a code row holds its own slot and nothing else; every slot is 0 or 1. */
  lemma CodeRowSlots(t: string, kind: TokenKind, lastCommand: string, ov: Overlap)
    ensures var row := CodeRow(t, kind, lastCommand, ov);
      var a := OverlapClass(t, ov.oldTypes, ov.newTypes);
      var b := 4 + OverlapClass(t, ov.oldStatements, ov.newStatements);
      |row| == NUM_CODE_FEATURES &&
      (forall j :: 0 <= j < NUM_CODE_FEATURES ==> row[j] == 0 || row[j] == 1) &&
      (forall j :: 0 <= j < 4 ==> (row[j] == 1 <==> j == a)) &&
      (forall j :: 4 <= j < 8 ==> (row[j] == 1 <==> j == b)) &&
      (forall j :: 8 <= j < 12 ==> (row[j] == 1 <==> KindSlot(kind) == Some(j))) &&
      (forall j :: 12 <= j < NUM_CODE_FEATURES ==> (row[j] == 1 <==> CommandSlot(kind, lastCommand) == Some(j)))
  {
    var row := CodeRow(t, kind, lastCommand, ov);
    assert OverlapClass(t, ov.oldTypes, ov.newTypes) < 4 && OverlapClass(t, ov.oldStatements, ov.newStatements) < 4;
    assert KindSlot(kind).None? || 8 <= KindSlot(kind).value < 12;
    assert CommandSlot(kind, lastCommand).None? || 12 <= CommandSlot(kind, lastCommand).value < 17;
  }

  /**
   * Exactly one of slots 0-3 and exactly one of 4-7 is set, at most one of
   * 8-11, and one of 12-16 exactly when the entry is not a marker.
   */
  lemma CodeRowGroups(t: string, kind: TokenKind, lastCommand: string, ov: Overlap)
    ensures var row := CodeRow(t, kind, lastCommand, ov);
      (exists j :: 0 <= j < 4 && row[j] == 1 && forall l :: 0 <= l < 4 && l != j ==> row[l] == 0) &&
      (exists j :: 4 <= j < 8 && row[j] == 1 && forall l :: 4 <= l < 8 && l != j ==> row[l] == 0) &&
      (forall j, l :: 8 <= j < l < 12 ==> row[j] == 0 || row[l] == 0) &&
      (kind == EditMarker ==> forall j :: 12 <= j < 17 ==> row[j] == 0) &&
      (kind != EditMarker ==> exists j :: 12 <= j < 17 && row[j] == 1 && forall l :: 12 <= l < 17 && l != j ==> row[l] == 0)
  {
    var row := CodeRow(t, kind, lastCommand, ov);
    CodeRowSlots(t, kind, lastCommand, ov);
    var a := OverlapClass(t, ov.oldTypes, ov.newTypes);
    assert row[a] == 1;
    var b := 4 + OverlapClass(t, ov.oldStatements, ov.newStatements);
    assert row[b] == 1;
    if kind != EditMarker {
      var c := CommandSlot(kind, lastCommand).value;
      assert row[c] == 1;
    }
  }

  /** The empty token is no marker. */
  lemma EmptyIsNoMarker()
    ensures !IsEdit("")
  {
    if IsEdit("") {
      MarkerShape("");
    }
  }

  /**
   * With "" no marker, the last marker is "" exactly while the prefix holds no
   * marker; otherwise it is a marker of the prefix after which no other comes.
   */
  lemma {:induction false} LastMarkerMeaning(prefix: seq<string>, isMarker: string -> bool)
    requires !isMarker("")
    ensures LastMarker(prefix, isMarker) == "" <==> forall k :: 0 <= k < |prefix| ==> !isMarker(prefix[k])
    ensures LastMarker(prefix, isMarker) != "" ==>
      isMarker(LastMarker(prefix, isMarker)) &&
      exists k :: 0 <= k < |prefix| && prefix[k] == LastMarker(prefix, isMarker) &&
                  forall l :: k < l < |prefix| ==> !isMarker(prefix[l])
  {
    if prefix != [] {
      var init := prefix[..|prefix| - 1];
      LastMarkerMeaning(init, isMarker);
      if !isMarker(prefix[|prefix| - 1]) && LastMarker(init, isMarker) != "" {
        var k :| 0 <= k < |init| && init[k] == LastMarker(init, isMarker) &&
                 forall l :: k < l < |init| ==> !isMarker(init[l]);
        assert prefix[k] == LastMarker(prefix, isMarker);
      }
    }
  }

  /** `lastCommand` is "" until the first edit marker, and afterwards the latest marker of the prefix. */
  lemma LastCommandMeaning(prefix: seq<string>)
    ensures LastCommand(prefix) == "" <==> forall k :: 0 <= k < |prefix| ==> !IsEdit(prefix[k])
    ensures LastCommand(prefix) != "" ==>
      IsEdit(LastCommand(prefix)) &&
      exists k :: 0 <= k < |prefix| && prefix[k] == LastCommand(prefix) &&
                  forall l :: k < l < |prefix| ==> !IsEdit(prefix[l])
  {
    EmptyIsNoMarker();
    LastMarkerMeaning(prefix, IsEdit);
  }

  // ----- sub-token labels -----

  const PARAM_TAG: string := "@param"

  /** "@param" is an '@' followed by lower-case letters. */
  lemma ParamTagChars()
    ensures PARAM_TAG[0] == '@' && |PARAM_TAG| == 6
    ensures forall i :: 0 <= i < |PARAM_TAG| ==> !IsUpper(PARAM_TAG[i]) && !IsTrimSpace(PARAM_TAG[i])
    ensures ' ' !in PARAM_TAG
  {
    var m := PARAM_TAG;
    forall i | 0 <= i < |m| ensures m[i] == '@' || IsLower(m[i]) {
      if i == 0 {} else if i == 1 {} else if i == 2 {} else if i == 3 {} else if i == 4 {} else {}
    }
  }

  /** "@param" is one piece, like "@return". */
  lemma ParamTagPieces()
    ensures TokenPieces(PARAM_TAG) == [PARAM_TAG]
  {
    ParamTagChars();
    TrimNoop(PARAM_TAG);
    SpaceBoundariesNoop(PARAM_TAG);
    SplitWithoutSep(PARAM_TAG, ' ');
  }

  /** The two Javadoc tags that `getSubTokenLabels` keeps whole in a comment. */
  predicate KeptWhole(token: string) {
    token == RETURN_MARKER || token == PARAM_TAG
  }

  /** The pieces `getSubTokenLabels` counts for one token. */
  function TokenSubs(token: string, parseComment: bool): seq<string> {
    if parseComment && KeptWhole(token) then [token] else SubTokenized([token], true)
  }

  /** The labels and indices of a token with `k` pieces: `(0, 0)` for one, `1` and `0..k-1` for several. */
  function PieceLabels(k: nat): (seq<int>, seq<int>) {
    if k == 1 then ([0], [0]) else (seq(k, _ => 1), seq(k, i => i))
  }

  /** What `getSubTokenLabels` returns: the labels and indices of every token in turn. */
  function SubTokenLabels(tokens: seq<string>, parseComment: bool): (seq<int>, seq<int>) {
    if tokens == [] then ([], [])
    else
      var init := SubTokenLabels(tokens[..|tokens| - 1], parseComment);
      var last := PieceLabels(|TokenSubs(tokens[|tokens| - 1], parseComment)|);
      (init.0 + last.0, init.1 + last.1)
  }

  /** The `if`/`else` of one token in `getSubTokenLabels`: appends the labels and indices of its `k` pieces. */
  method AddPieceLabels(labels: seq<int>, indices: seq<int>, k: nat) returns (labels': seq<int>, indices': seq<int>)
    ensures labels' == labels + PieceLabels(k).0 && indices' == indices + PieceLabels(k).1
  {
    labels', indices' := labels, indices;
    if k == 1 {
      labels' := labels' + [0];
      indices' := indices' + [0];
    } else {
      for index := 0 to k
        invariant labels' == labels + seq(index, _ => 1)
        invariant indices' == indices + seq(index, i => i)
      {
        labels' := labels' + [1];
        indices' := indices' + [index];
      }
    }
  }

  /** `getSubTokenLabels`. */
  method GetSubTokenLabels(tokens: seq<string>, parseComment: bool) returns (labels: seq<int>, indices: seq<int>)
    ensures labels == SubTokenLabels(tokens, parseComment).0 && indices == SubTokenLabels(tokens, parseComment).1
  {
    labels, indices := [], [];
    for n := 0 to |tokens|
      invariant labels == SubTokenLabels(tokens[..n], parseComment).0
      invariant indices == SubTokenLabels(tokens[..n], parseComment).1
    {
      var token := tokens[n];
      var tokenSubs;
      if parseComment && KeptWhole(token) {
        tokenSubs := [token];
      } else {
        tokenSubs := SubTokenizeTokens([token], true);
      }
      assert tokenSubs == TokenSubs(tokens[n], parseComment);
      SubTokenLabelsStep(tokens, n, parseComment);
      labels, indices := AddPieceLabels(labels, indices, |tokenSubs|);
    }
    assert tokens[..|tokens|] == tokens;
  }

  /** The labels of one more token are the labels so far followed by that token's. */
  lemma SubTokenLabelsStep(tokens: seq<string>, n: nat, parseComment: bool)
    requires n < |tokens|
    ensures var init := SubTokenLabels(tokens[..n], parseComment);
            var last := PieceLabels(|TokenSubs(tokens[n], parseComment)|);
            SubTokenLabels(tokens[..n + 1], parseComment) == (init.0 + last.0, init.1 + last.1)
  {
    assert tokens[..n + 1][..n] == tokens[..n] && tokens[..n + 1][n] == tokens[n];
  }

  /** Each token's labels and indices line up: label 0 with index 0 for a one-piece token, label 1 with indices 0..k-1 otherwise. */
  lemma PieceLabelsMeaning(k: nat)
    requires k >= 1
    ensures |PieceLabels(k).0| == k && |PieceLabels(k).1| == k
    ensures k == 1 ==> PieceLabels(k) == ([0], [0])
    ensures k > 1 ==> forall i :: 0 <= i < k ==> PieceLabels(k).0[i] == 1 && PieceLabels(k).1[i] == i
  {
  }

  /** A token contributes as many labels as it has sub-tokens, also when it is kept whole. */
  lemma TokenSubsCount(token: string, parseComment: bool)
    ensures |TokenSubs(token, parseComment)| == |TokenPieces(token)|
  {
    SubTokensSingle(token);
    if parseComment && KeptWhole(token) {
      if token == RETURN_MARKER {
        ReturnMarkerPieces();
      } else {
        ParamTagPieces();
      }
    }
  }

  /**
   * Labels and indices have one entry per piece: as many as the lower-cased
   * sub-tokens of the tokens, also when "@return" and "@param" are kept whole;
   * each label is 0 or 1, and a 0 label goes with index 0.
   */
  lemma {:induction false} SubTokenLabelsMeaning(tokens: seq<string>, parseComment: bool)
    ensures |SubTokenLabels(tokens, parseComment).0| == |SubTokenLabels(tokens, parseComment).1| ==
            |SubTokenized(tokens, true)|
    ensures var (labels, indices) := SubTokenLabels(tokens, parseComment);
      forall i :: 0 <= i < |labels| ==> (labels[i] == 0 && indices[i] == 0) || (labels[i] == 1 && indices[i] >= 0)
  {
    if tokens != [] {
      var init := tokens[..|tokens| - 1];
      var last := tokens[|tokens| - 1];
      SubTokenLabelsMeaning(init, parseComment);
      var subs := TokenSubs(last, parseComment);
      TokenSubsCount(last, parseComment);
      assert SubTokensOf(tokens) == SubTokensOf(init) + TokenPieces(last);
      var (l0, i0) := SubTokenLabels(init, parseComment);
      var (l1, i1) := PieceLabels(|subs|);
      PieceLabelsMeaning(|subs|);
      var (labels, indices) := SubTokenLabels(tokens, parseComment);
      forall i | 0 <= i < |labels| ensures (labels[i] == 0 && indices[i] == 0) || (labels[i] == 1 && indices[i] >= 0) {
        if i >= |l0| {
          assert labels[i] == l1[i - |l0|] && indices[i] == i1[i - |l0|];
        } else {
          assert labels[i] == l0[i] && indices[i] == i0[i];
        }
      }
    }
  }

  // ----- comment features -----

  /** The code sub-tokens that follow each command marker somewhere in the token stream of the code diff. */
  datatype DiffSets = DiffSets(inserted: set<string>, kept: set<string>, deleted: set<string>,
                               replacedOld: set<string>, replacedNew: set<string>)

  /** `zipWithNext()`: each token paired with the one after it. */
  function ZipWithNext(t: seq<string>): (r: seq<(string, string)>)
    ensures |r| == if t == [] then 0 else |t| - 1
    ensures forall i :: 0 <= i < |r| ==> r[i] == (t[i], t[i + 1])
  {
    if |t| < 2 then [] else [(t[0], t[1])] + ZipWithNext(t[1..])
  }

  /** `zipWithNext().filter { it.first == marker }.map { it.second }.toSet()`. */
  function FollowerSet(t: seq<string>, marker: string): set<string> {
    set p | p in ZipWithNext(t) && p.0 == marker :: p.1
  }

  function DiffSetsOf(tokenDiffCodeSubTokens: seq<string>): DiffSets {
    var t := tokenDiffCodeSubTokens;
    DiffSets(FollowerSet(t, INSERT), FollowerSet(t, KEEP), FollowerSet(t, DELETE),
             FollowerSet(t, REPLACE_OLD), FollowerSet(t, REPLACE_NEW))
  }

  /** `groupingBy { it }.eachCount().filter { it.value > 1 }.keys`: the sub-tokens that occur twice or more. */
  function Duplicates(xs: seq<string>): set<string> {
    set x | x in xs && multiset(xs)[x] > 1
  }

  /**
   * The inputs of `getCommentFeatures` that every row reads; `stopWords` is
   * `STOP_WORDS` (a field here, so that rows can be reasoned about for any list).
   */
  datatype CommentContext = CommentContext(ov: Overlap, ds: DiffSets, duplicates: set<string>, stopWords: seq<string>,
                                           labels: seq<int>, indices: seq<int>)

  function CommentContextOf(oldCommentTokens: seq<string>, oldCommentSubTokens: seq<string>,
                            tokenDiffCodeSubTokens: seq<string>,
                            oldCodeFeatures: map<string, seq<string>>, newCodeFeatures: map<string, seq<string>>): CommentContext
  {
    var (labels, indices) := SubTokenLabels(oldCommentTokens, true);
    CommentContext(OverlapOf(oldCodeFeatures, newCodeFeatures), DiffSetsOf(tokenDiffCodeSubTokens),
                   Duplicates(oldCommentSubTokens), STOP_WORDS, labels, indices)
  }

  /** Slots 8-14 of a comment row: the five diff sets, the stop words and the duplicates, each as 0 or 1. */
  function CommentFlags(token: string, ctx: CommentContext): seq<int> {
    var ds := ctx.ds;
    [Flag(token in ds.inserted), Flag(token in ds.kept), Flag(token in ds.deleted),
     Flag(token in ds.replacedOld), Flag(token in ds.replacedNew),
     Flag(token in ctx.stopWords), Flag(token in ctx.duplicates)]
  }

  /** The seven flag assignments of `getCommentFeatures`, slots 8-14 of row `i`. */
  method MarkFlags(features: array2<int>, i: nat, token: string, ctx: CommentContext)
    requires i < features.Length0 && features.Length1 == NUM_NL_FEATURES
    modifies features
    ensures var flags := CommentFlags(token, ctx);
      features[i, 8] == flags[0] && features[i, 9] == flags[1] && features[i, 10] == flags[2] &&
      features[i, 11] == flags[3] && features[i, 12] == flags[4] && features[i, 13] == flags[5] &&
      features[i, 14] == flags[6]
    ensures forall k, j :: 0 <= k < features.Length0 && 0 <= j < NUM_NL_FEATURES && !(k == i && 8 <= j < 15) ==>
      features[k, j] == old(features[k, j])
  {
    features[i, 8] := Flag(token in ctx.ds.inserted);
    features[i, 9] := Flag(token in ctx.ds.kept);
    features[i, 10] := Flag(token in ctx.ds.deleted);
    features[i, 11] := Flag(token in ctx.ds.replacedOld);
    features[i, 12] := Flag(token in ctx.ds.replacedNew);
    features[i, 13] := Flag(token in ctx.stopWords);
    features[i, 14] := Flag(token in ctx.duplicates);
  }

  /**
   * The row of one (lower-cased) comment sub-token, with its label and index:
   * the two overlap slots, the five diff-set flags, the stop-word and duplicate
   * flags, label, index, and the part-of-speech slot "other".
   */
  function CommentRow(token: string, ctx: CommentContext, pieceLabel: int, index: int): seq<int> {
    var ov := ctx.ov;
    var typeSlot := OverlapClass(token, ov.oldTypes, ov.newTypes);
    var statementSlot := 4 + OverlapClass(token, ov.oldStatements, ov.newStatements);
    var flags := CommentFlags(token, ctx);
    seq(NUM_NL_FEATURES, j requires 0 <= j < NUM_NL_FEATURES =>
      if j < 8 then Flag(j == typeSlot || j == statementSlot)
      else if j < 15 then flags[j - 8]
      else if j == 15 then pieceLabel
      else if j == 16 then index
      else if j == 17 + OTHER_INDEX then 1 else 0)
  }

  /** The number of rows `getCommentFeatures` fills. */
  function Filled(subTokens: seq<string>, maxCommentLen: nat): nat {
    if |subTokens| < maxCommentLen then |subTokens| else maxCommentLen
  }

  /** The cell `(i, j)` of the comment matrix, when every filled row has its label. */
  function CommentFeature(subTokens: seq<string>, ctx: CommentContext, i: nat, j: nat): int
    requires j < NUM_NL_FEATURES
    requires i < |subTokens| ==> i < |ctx.labels| && i < |ctx.indices|
  {
    if i < |subTokens| then CommentRow(Lower(subTokens[i]), ctx, ctx.labels[i], ctx.indices[i])[j]
    else 0
  }

  /** The body of one iteration of `getCommentFeatures`, on a zero row. */
  method FillCommentRow(features: array2<int>, i: nat, token: string, ctx: CommentContext, pieceLabel: int, index: int)
    requires i < features.Length0 && features.Length1 == NUM_NL_FEATURES
    requires forall j :: 0 <= j < NUM_NL_FEATURES ==> features[i, j] == 0
    modifies features
    ensures forall j :: 0 <= j < NUM_NL_FEATURES ==>
      features[i, j] == CommentRow(token, ctx, pieceLabel, index)[j]
    ensures forall k, j :: 0 <= k < features.Length0 && 0 <= j < NUM_NL_FEATURES && k != i ==>
      features[k, j] == old(features[k, j])
  {
    MarkOverlap(features, i, token, ctx.ov);
    ghost var typeSlot := OverlapClass(token, ctx.ov.oldTypes, ctx.ov.newTypes);
    ghost var statementSlot := 4 + OverlapClass(token, ctx.ov.oldStatements, ctx.ov.newStatements);
    assert forall j :: 0 <= j < 8 ==> features[i, j] == Flag(j == typeSlot || j == statementSlot);
    MarkFlags(features, i, token, ctx);
    features[i, 15] := pieceLabel;
    features[i, 16] := index;
    features[i, 17 + OTHER_INDEX] := 1;
    ghost var row := CommentRow(token, ctx, pieceLabel, index);
    forall j | 0 <= j < NUM_NL_FEATURES ensures features[i, j] == row[j] {
      if j < 8 {} else if j < 15 {} else if j == 15 {} else if j == 16 {} else {}
    }
  }

  /**
   * `getCommentFeatures`: `maxCommentLen` rows of 53 slots. Reading the label
   * of a filled row past the end of the label list throws
   * IndexOutOfBoundsException, a `Failure` here.
   */
  method GetCommentFeatures(oldCommentTokens: seq<string>, oldCommentSubTokens: seq<string>,
                            tokenDiffCodeSubTokens: seq<string>,
                            oldCodeFeatures: map<string, seq<string>>, newCodeFeatures: map<string, seq<string>>,
                            maxCommentLen: nat)
    returns (result: Result<array2<int>>)
    ensures var ctx := CommentContextOf(oldCommentTokens, oldCommentSubTokens, tokenDiffCodeSubTokens,
                                        oldCodeFeatures, newCodeFeatures);
      (result.Failure? <==> |ctx.labels| < Filled(oldCommentSubTokens, maxCommentLen)) &&
      (result.Success? ==>
        var features := result.value;
        fresh(features) && features.Length0 == maxCommentLen && features.Length1 == NUM_NL_FEATURES &&
        forall i, j :: 0 <= i < maxCommentLen && 0 <= j < NUM_NL_FEATURES ==>
          (i < |oldCommentSubTokens| ==> i < |ctx.labels| && i < |ctx.indices|) &&
          features[i, j] == CommentFeature(oldCommentSubTokens, ctx, i, j))
  {
    var ctx := CommentContextOf(oldCommentTokens, oldCommentSubTokens, tokenDiffCodeSubTokens,
                                oldCodeFeatures, newCodeFeatures);
    var commentSubTokenLabels, commentSubTokenIndices := GetSubTokenLabels(oldCommentTokens, true);
    SubTokenLabelsMeaning(oldCommentTokens, true);
    var features := new int[maxCommentLen, NUM_NL_FEATURES]((_, _) => 0);
    var labelled := FillCommentRows(features, oldCommentSubTokens, ctx, commentSubTokenLabels, commentSubTokenIndices);
    if !labelled {
      return Failure("index out of bounds");
    }
    result := Success(features);
  }

  /**
   * The loop of `getCommentFeatures` over a zero matrix: row i becomes the row
   * of sub-token i with its label and index until the rows run out. It stops
   * with `false` where a row to fill has no label.
   */
  method FillCommentRows(features: array2<int>, subTokens: seq<string>, ctx: CommentContext,
                         labels: seq<int>, indices: seq<int>) returns (labelled: bool)
    requires features.Length1 == NUM_NL_FEATURES && |labels| == |indices|
    requires forall k, j :: 0 <= k < features.Length0 && 0 <= j < NUM_NL_FEATURES ==> features[k, j] == 0
    modifies features
    ensures labelled <==> Filled(subTokens, features.Length0) <= |labels|
    ensures labelled ==> forall k, j :: 0 <= k < features.Length0 && 0 <= j < NUM_NL_FEATURES ==>
      features[k, j] == if k < Filled(subTokens, features.Length0)
                        then CommentRow(Lower(subTokens[k]), ctx, labels[k], indices[k])[j] else 0
  {
    for i := 0 to |subTokens|
      invariant i <= features.Length0 && i <= |labels|
      invariant forall k, j :: 0 <= k < features.Length0 && 0 <= j < NUM_NL_FEATURES ==>
        features[k, j] == if k < i then CommentRow(Lower(subTokens[k]), ctx, labels[k], indices[k])[j] else 0
    {
      if i >= features.Length0 {
        break;
      }
      if i >= |labels| {
        return false;
      }
      var token := Lower(subTokens[i]);
      FillCommentRow(features, i, token, ctx, labels[i], indices[i]);
    }
    labelled := true;
  }

  // ----- properties of the comment features -----

  /** A sub-token is in a follower set exactly when it comes right after that marker somewhere in the stream. */
  lemma FollowerSetMeaning(t: seq<string>, marker: string)
    ensures forall x :: x in FollowerSet(t, marker) <==> exists i :: 0 <= i < |t| - 1 && t[i] == marker && t[i + 1] == x
  {
    var pairs := ZipWithNext(t);
    forall x | x in FollowerSet(t, marker)
      ensures exists i :: 0 <= i < |t| - 1 && t[i] == marker && t[i + 1] == x
    {
      var p :| p in pairs && p.0 == marker && p.1 == x;
      var k :| 0 <= k < |pairs| && pairs[k] == p;
      assert pairs[k] == (t[k], t[k + 1]);
      assert t[k] == marker && t[k + 1] == x;
    }
    forall x | exists i :: 0 <= i < |t| - 1 && t[i] == marker && t[i + 1] == x
      ensures x in FollowerSet(t, marker)
    {
      var i :| 0 <= i < |t| - 1 && t[i] == marker && t[i + 1] == x;
      assert pairs[i] == (marker, x);
    }
  }

  /** A sub-token occurs twice or more exactly when two different positions hold it. */
  lemma {:induction false} TwiceMeaning(xs: seq<string>, x: string)
    ensures multiset(xs)[x] > 1 <==> exists i, j :: 0 <= i < j < |xs| && xs[i] == x && xs[j] == x
  {
    if xs != [] {
      var r := xs[1..];
      assert xs == [xs[0]] + r;
      assert multiset(xs)[x] == (if xs[0] == x then 1 else 0) + multiset(r)[x];
      TwiceMeaning(r, x);
      if xs[0] == x {
        if multiset(r)[x] > 0 {
          assert x in r;
          var j :| 0 <= j < |r| && r[j] == x;
          assert xs[0] == x && xs[j + 1] == x;
        }
        if exists i, j :: 0 <= i < j < |xs| && xs[i] == x && xs[j] == x {
          var i, j :| 0 <= i < j < |xs| && xs[i] == x && xs[j] == x;
          assert r[j - 1] == x;
        }
      } else {
        if multiset(r)[x] > 1 {
          var i, j :| 0 <= i < j < |r| && r[i] == x && r[j] == x;
          assert xs[i + 1] == x && xs[j + 1] == x;
        }
        if exists i, j :: 0 <= i < j < |xs| && xs[i] == x && xs[j] == x {
          var i, j :| 0 <= i < j < |xs| && xs[i] == x && xs[j] == x;
          assert r[i - 1] == x && r[j - 1] == x;
        }
      }
    }
  }

  /** The duplicates are the sub-tokens that two different positions of the list hold. */
  lemma DuplicatesMeaning(xs: seq<string>)
    ensures forall x :: x in Duplicates(xs) <==> exists i, j :: 0 <= i < j < |xs| && xs[i] == x && xs[j] == x
  {
    forall x ensures x in Duplicates(xs) <==> exists i, j :: 0 <= i < j < |xs| && xs[i] == x && xs[j] == x {
      TwiceMeaning(xs, x);
    }
  }

  /** Slots 0-7 of a comment row: which of the return-type and which of the return-statement sets hold the sub-token. */
  lemma CommentRowOverlap(token: string, ctx: CommentContext, pieceLabel: int, index: int)
    ensures var row := CommentRow(token, ctx, pieceLabel, index);
      |row| == NUM_NL_FEATURES &&
      (forall j :: 0 <= j < 8 ==> row[j] == 0 || row[j] == 1) &&
      (row[0] == 1 <==> token in ctx.ov.oldTypes && token in ctx.ov.newTypes) &&
      (row[1] == 1 <==> token in ctx.ov.oldTypes && token !in ctx.ov.newTypes) &&
      (row[2] == 1 <==> token !in ctx.ov.oldTypes && token in ctx.ov.newTypes) &&
      (row[3] == 1 <==> token !in ctx.ov.oldTypes && token !in ctx.ov.newTypes) &&
      (row[4] == 1 <==> token in ctx.ov.oldStatements && token in ctx.ov.newStatements) &&
      (row[5] == 1 <==> token in ctx.ov.oldStatements && token !in ctx.ov.newStatements) &&
      (row[6] == 1 <==> token !in ctx.ov.oldStatements && token in ctx.ov.newStatements) &&
      (row[7] == 1 <==> token !in ctx.ov.oldStatements && token !in ctx.ov.newStatements)
  {
    var row := CommentRow(token, ctx, pieceLabel, index);
    var typeSlot := OverlapClass(token, ctx.ov.oldTypes, ctx.ov.newTypes);
    var statementSlot := 4 + OverlapClass(token, ctx.ov.oldStatements, ctx.ov.newStatements);
    assert forall j :: 0 <= j < 4 ==> row[j] == Flag(j == typeSlot);
    assert forall j :: 4 <= j < 8 ==> row[j] == Flag(j == statementSlot);
  }

  /**
   * Slots 8-16 and the part-of-speech slots of a comment row: 8-14 are 0 or 1
   * and say whether the sub-token is in each diff set, a stop word and a
   * duplicate; 15 and 16 are its label and index; the slot "other" is 1 and the
   * other part-of-speech slots 0.
   */
  lemma CommentRowFlags(token: string, ctx: CommentContext, pieceLabel: int, index: int)
    ensures var row := CommentRow(token, ctx, pieceLabel, index);
      |row| == NUM_NL_FEATURES &&
      (forall j :: 8 <= j < 15 ==> row[j] == 0 || row[j] == 1) &&
      (row[8] == 1 <==> token in ctx.ds.inserted) &&
      (row[9] == 1 <==> token in ctx.ds.kept) &&
      (row[10] == 1 <==> token in ctx.ds.deleted) &&
      (row[11] == 1 <==> token in ctx.ds.replacedOld) &&
      (row[12] == 1 <==> token in ctx.ds.replacedNew) &&
      (row[13] == 1 <==> token in ctx.stopWords) &&
      (row[14] == 1 <==> token in ctx.duplicates) &&
      row[15] == pieceLabel && row[16] == index &&
      (forall j :: 17 <= j < NUM_NL_FEATURES ==> row[j] == if j == 17 + OTHER_INDEX then 1 else 0)
  {
  }
}
