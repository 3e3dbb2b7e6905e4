/**
 * The text pipeline shared by every copy of `CodeCommentTokenizer`: tag
 * stripping, the regex scan `[a-zA-Z0-9]+|[^\sa-zA-Z0-9]|[^_\sa-zA-Z0-9]`
 * (its third alternative is subsumed by the second), the camelCase split of
 * `subTokenizeTokens` and the re-scan of `subTokenizeCode`.
 */
module Tokenizer {
  import opened Wrappers
  import opened Text

  const REDUNDANT_TAGS: seq<string> := ["{", "}", "@code", "@docRoot", "@inheritDic", "@link", "@linkplain", "@value"]
  const COMMENT_TAGS: seq<string> := ["@return", "@ return", "@param", "@ param", "@throws", "@ throws"]

  lemma TagsNonEmpty()
    ensures forall k :: 0 <= k < |REDUNDANT_TAGS| ==> |REDUNDANT_TAGS[k]| > 0
    ensures forall k :: 0 <= k < |COMMENT_TAGS| ==> |COMMENT_TAGS[k]| > 0
  {
  }

  // ----- the regex scan -----

  /** A token matched by the first alternative: a non-empty run of `[a-zA-Z0-9]`. */
  predicate IsWord(t: string) {
    |t| > 0 && forall k :: 0 <= k < |t| ==> IsAlnum(t[k])
  }

  /** A token matched by the second alternative: one character that is neither `\s` nor alphanumeric. */
  predicate IsSymbol(t: string) {
    |t| == 1 && !IsRegexSpace(t[0]) && !IsAlnum(t[0])
  }

  predicate IsToken(t: string) {
    IsWord(t) || IsSymbol(t)
  }

  /** The end of the longest alphanumeric run starting at `i`. */
  function AlnumEnd(s: string, i: nat): (j: nat)
    requires i <= |s|
    ensures i <= j <= |s|
    ensures i < |s| && IsAlnum(s[i]) ==> i < j
    decreases |s| - i
  {
    if i < |s| && IsAlnum(s[i]) then AlnumEnd(s, i + 1) else i
  }

  /** The run is alphanumeric throughout and cannot be extended. */
  lemma {:induction false} AlnumEndMeaning(s: string, i: nat)
    requires i <= |s|
    ensures forall p :: i <= p < AlnumEnd(s, i) ==> IsAlnum(s[p])
    ensures AlnumEnd(s, i) == |s| || !IsAlnum(s[AlnumEnd(s, i)])
    decreases |s| - i
  {
    if i < |s| && IsAlnum(s[i]) {
      AlnumEndMeaning(s, i + 1);
    }
  }

  /** Where the match that starts at the non-space position `i` ends. */
  function TokenEnd(s: string, i: nat): (j: nat)
    requires i < |s|
    ensures i < j <= |s|
  {
    if IsAlnum(s[i]) then AlnumEnd(s, i) else i + 1
  }

  /** `Regex(...).findAll(s)` from position `i`: whitespace is skipped, every other position starts a match. */
  function ScanFrom(s: string, i: nat): seq<string>
    requires i <= |s|
    decreases |s| - i
  {
    if i == |s| then []
    else if IsRegexSpace(s[i]) then ScanFrom(s, i + 1)
    else [s[i..TokenEnd(s, i)]] + ScanFrom(s, TokenEnd(s, i))
  }

  /** The start position of every match of `ScanFrom(s, i)`. */
  function StartsFrom(s: string, i: nat): seq<nat>
    requires i <= |s|
    decreases |s| - i
  {
    if i == |s| then []
    else if IsRegexSpace(s[i]) then StartsFrom(s, i + 1)
    else [i] + StartsFrom(s, TokenEnd(s, i))
  }

  function Scan(s: string): seq<string> {
    ScanFrom(s, 0)
  }

  function Starts(s: string): seq<nat> {
    StartsFrom(s, 0)
  }

  /**
   * `starts` gives a position for every match of `scan`: each match is the
   * text at its position, no position is before `lo`, and the matches come in
   * order without overlap.
   */
  predicate Placed(s: string, scan: seq<string>, starts: seq<nat>, lo: nat) {
    |starts| == |scan| &&
    (forall k :: 0 <= k < |scan| ==>
      lo <= starts[k] && starts[k] + |scan[k]| <= |s| && scan[k] == s[starts[k]..starts[k] + |scan[k]|]) &&
    (forall k :: 0 <= k < |scan| - 1 ==> starts[k] + |scan[k]| <= starts[k + 1])
  }

  /** A match at `i` ending at `j` in front of matches placed from `j` on keeps them placed from `i` on. */
  lemma PlacedCons(s: string, i: nat, j: nat, rest: seq<string>, st: seq<nat>)
    requires i < j <= |s| && Placed(s, rest, st, j)
    ensures Placed(s, [s[i..j]] + rest, [i] + st, i)
  {
    var scan := [s[i..j]] + rest;
    var starts := [i] + st;
    forall k | 0 <= k < |scan|
      ensures i <= starts[k] && starts[k] + |scan[k]| <= |s| && scan[k] == s[starts[k]..starts[k] + |scan[k]|]
    {
      if k > 0 {
        assert scan[k] == rest[k - 1] && starts[k] == st[k - 1];
      }
    }
    forall k | 0 <= k < |scan| - 1
      ensures starts[k] + |scan[k]| <= starts[k + 1]
    {
      if k == 0 {
        assert j <= st[0];
      } else {
        assert scan[k] == rest[k - 1] && starts[k] == st[k - 1] && starts[k + 1] == st[k];
      }
    }
  }

  /** Every match is the text at its start position, and the matches come in order without overlap. */
  lemma {:induction false} ScanFromPositions(s: string, i: nat)
    requires i <= |s|
    ensures Placed(s, ScanFrom(s, i), StartsFrom(s, i), i)
    decreases |s| - i
  {
    if i < |s| {
      if IsRegexSpace(s[i]) {
        ScanFromPositions(s, i + 1);
        assert ScanFrom(s, i) == ScanFrom(s, i + 1) && StartsFrom(s, i) == StartsFrom(s, i + 1);
      } else {
        var j := TokenEnd(s, i);
        ScanFromPositions(s, j);
        PlacedCons(s, i, j, ScanFrom(s, j), StartsFrom(s, j));
        assert ScanFrom(s, i) == [s[i..j]] + ScanFrom(s, j) && StartsFrom(s, i) == [i] + StartsFrom(s, j);
      }
    }
  }

  /** Every match is a word or a symbol. */
  lemma {:induction false} ScanFromKinds(s: string, i: nat)
    requires i <= |s|
    ensures forall k :: 0 <= k < |ScanFrom(s, i)| ==> IsToken(ScanFrom(s, i)[k])
    decreases |s| - i
  {
    if i < |s| {
      if IsRegexSpace(s[i]) {
        ScanFromKinds(s, i + 1);
      } else {
        var j := TokenEnd(s, i);
        ScanFromKinds(s, j);
        TokenKind(s, i);
      }
    }
  }

  /** The match at a non-space position is a word ending where the alphanumeric run ends, or a symbol. */
  lemma TokenKind(s: string, i: nat)
    requires i < |s| && !IsRegexSpace(s[i])
    ensures IsToken(s[i..TokenEnd(s, i)])
    ensures IsWord(s[i..TokenEnd(s, i)]) ==> IsAlnum(s[i]) && (TokenEnd(s, i) == |s| || !IsAlnum(s[TokenEnd(s, i)]))
    ensures !IsWord(s[i..TokenEnd(s, i)]) ==> !IsAlnum(s[i]) && TokenEnd(s, i) == i + 1
  {
    var j := TokenEnd(s, i);
    var t := s[i..j];
    if IsAlnum(s[i]) {
      AlnumEndMeaning(s, i);
      assert IsWord(t) by {
        forall k | 0 <= k < |t| ensures IsAlnum(t[k]) {
          assert t[k] == s[i + k];
        }
      }
    } else {
      assert t[0] == s[i];
      assert IsSymbol(t);
    }
  }

  /** A word match cannot be extended to the right. */
  lemma {:induction false} ScanFromRightMaximal(s: string, i: nat)
    requires i <= |s|
    ensures |StartsFrom(s, i)| == |ScanFrom(s, i)|
    ensures forall k :: 0 <= k < |ScanFrom(s, i)| && IsWord(ScanFrom(s, i)[k]) ==>
      var e := StartsFrom(s, i)[k] + |ScanFrom(s, i)[k]|;
      e <= |s| && (e == |s| || !IsAlnum(s[e]))
    decreases |s| - i
  {
    ScanFromPositions(s, i);
    if i < |s| {
      if IsRegexSpace(s[i]) {
        ScanFromRightMaximal(s, i + 1);
      } else {
        var j := TokenEnd(s, i);
        ScanFromRightMaximal(s, j);
        TokenKind(s, i);
      }
    }
  }

  /** Every match is non-empty and starts with the character at its start position. */
  lemma {:induction false} ScanFromHeads(s: string, i: nat)
    requires i <= |s|
    ensures |StartsFrom(s, i)| == |ScanFrom(s, i)|
    ensures forall k :: 0 <= k < |ScanFrom(s, i)| ==>
      StartsFrom(s, i)[k] < |s| && ScanFrom(s, i)[k] != [] && ScanFrom(s, i)[k][0] == s[StartsFrom(s, i)[k]]
    decreases |s| - i
  {
    if i < |s| {
      if IsRegexSpace(s[i]) {
        ScanFromHeads(s, i + 1);
        assert ScanFrom(s, i) == ScanFrom(s, i + 1) && StartsFrom(s, i) == StartsFrom(s, i + 1);
      } else {
        var j := TokenEnd(s, i);
        ScanFromHeads(s, j);
        var scan := ScanFrom(s, i);
        var starts := StartsFrom(s, i);
        assert scan == [s[i..j]] + ScanFrom(s, j) && starts == [i] + StartsFrom(s, j);
        forall k | 0 <= k < |scan| ensures starts[k] < |s| && scan[k] != [] && scan[k][0] == s[starts[k]] {
          if k > 0 {
            assert scan[k] == ScanFrom(s, j)[k - 1] && starts[k] == StartsFrom(s, j)[k - 1];
          }
        }
      }
    }
  }

  /** A word match cannot be extended to the left within the scanned range. */
  lemma {:induction false} ScanFromLeftMaximal(s: string, i: nat)
    requires i <= |s|
    ensures |StartsFrom(s, i)| == |ScanFrom(s, i)|
    ensures forall k :: 0 <= k < |ScanFrom(s, i)| && IsWord(ScanFrom(s, i)[k]) ==>
      var b := StartsFrom(s, i)[k];
      i <= b < |s| && (b == i || !IsAlnum(s[b - 1]))
    decreases |s| - i
  {
    if i < |s| {
      if IsRegexSpace(s[i]) {
        ScanFromLeftMaximal(s, i + 1);
        assert ScanFrom(s, i) == ScanFrom(s, i + 1) && StartsFrom(s, i) == StartsFrom(s, i + 1);
      } else {
        var j := TokenEnd(s, i);
        var rest := ScanFrom(s, j);
        var st := StartsFrom(s, j);
        ScanFromLeftMaximal(s, j);
        ScanFromHeads(s, j);
        TokenKind(s, i);
        var scan := ScanFrom(s, i);
        var starts := StartsFrom(s, i);
        assert scan == [s[i..j]] + rest && starts == [i] + st;
        forall k | 0 <= k < |scan| && IsWord(scan[k])
          ensures i <= starts[k] < |s| && (starts[k] == i || !IsAlnum(s[starts[k] - 1]))
        {
          if k > 0 {
            assert scan[k] == rest[k - 1] && starts[k] == st[k - 1];
            if st[k - 1] == j {
              assert rest[k - 1][0] == s[j];
              assert IsAlnum(s[j]);
            }
          }
        }
      }
    }
  }

  /** `s` without its `\s` characters. */
  function DropRegexSpace(s: string): (r: string)
    ensures |r| <= |s|
  {
    if s == [] then [] else (if IsRegexSpace(s[0]) then [] else [s[0]]) + DropRegexSpace(s[1..])
  }

  lemma DropRegexSpaceAppend(a: string, b: string)
    ensures DropRegexSpace(a + b) == DropRegexSpace(a) + DropRegexSpace(b)
  {
    if a == [] {
      assert a + b == b;
    } else {
      assert (a + b)[1..] == a[1..] + b;
      DropRegexSpaceAppend(a[1..], b);
    }
  }

  /** A run of non-space characters is kept whole. */
  lemma {:induction false} DropRegexSpaceSolid(t: string)
    requires forall k :: 0 <= k < |t| ==> !IsRegexSpace(t[k])
    ensures DropRegexSpace(t) == t
  {
    if t != [] {
      DropRegexSpaceSolid(t[1..]);
    }
  }

  /** Joined together, the matches are the scanned text with its whitespace removed. */
  lemma {:induction false} ScanFromConcat(s: string, i: nat)
    requires i <= |s|
    ensures Concat(ScanFrom(s, i)) == DropRegexSpace(s[i..])
    decreases |s| - i
  {
    if i < |s| {
      assert s[i..] == [s[i]] + s[i + 1..];
      if IsRegexSpace(s[i]) {
        ScanFromConcat(s, i + 1);
        DropRegexSpaceAppend([s[i]], s[i + 1..]);
      } else {
        var j := TokenEnd(s, i);
        ScanFromConcat(s, j);
        var t := s[i..j];
        assert s[i..] == t + s[j..];
        DropRegexSpaceAppend(t, s[j..]);
        if IsAlnum(s[i]) {
          AlnumEndMeaning(s, i);
          forall k | 0 <= k < |t| ensures !IsRegexSpace(t[k]) {
            assert IsAlnum(s[i + k]);
          }
        }
        DropRegexSpaceSolid(t);
      }
    }
  }

  /**
   * The meaning of the scan: the matches lie at increasing, non-overlapping
   * positions of `s`; each is a maximal alphanumeric run or a single character
   * that is neither whitespace nor alphanumeric; and together they spell `s`
   * without its whitespace.
   */
  lemma ScanMeaning(s: string)
    ensures Placed(s, Scan(s), Starts(s), 0)
    ensures forall k :: 0 <= k < |Scan(s)| ==> IsToken(Scan(s)[k])
    ensures forall k :: 0 <= k < |Scan(s)| && IsWord(Scan(s)[k]) ==>
      var b := Starts(s)[k];
      var e := b + |Scan(s)[k]|;
      e <= |s| && (e == |s| || !IsAlnum(s[e])) && (b == 0 || !IsAlnum(s[b - 1]))
    ensures Concat(Scan(s)) == DropRegexSpace(s)
  {
    ScanFromPositions(s, 0);
    ScanFromKinds(s, 0);
    ScanFromRightMaximal(s, 0);
    ScanFromLeftMaximal(s, 0);
    ScanFromConcat(s, 0);
    assert s[0..] == s;
  }

  /** Scanning a single token gives that token back. */
  lemma ScanToken(t: string)
    requires IsToken(t)
    ensures Scan(t) == [t]
  {
    if IsWord(t) {
      AlnumEndMeaning(t, 0);
      assert TokenEnd(t, 0) == |t|;
      assert ScanFrom(t, |t|) == [];
      assert t[0..|t|] == t;
    } else {
      assert TokenEnd(t, 0) == 1 == |t|;
      assert ScanFrom(t, 1) == [];
      assert t[0..1] == t;
    }
  }

  // ----- tag stripping -----

  /**
   * The offset in `s` of the '>' that closes a '<' standing just before `s`:
   * the first '>', provided no line terminator comes before it (the regex `.`
   * does not match line terminators).
   */
  function TagClose(s: string): (r: Option<nat>)
    ensures r.Some? ==> r.value < |s| && s[r.value] == '>'
  {
    if s == [] || IsLineTerminator(s[0]) then None
    else if s[0] == '>' then Some(0)
    else match TagClose(s[1..]) case None => None case Some(j) => Some(j + 1)
  }

  /** `line.replace(Regex("<.*?>"), "")`: each shortest `<...>` span within a line is removed, left to right. */
  function RemoveTagSpans(s: string): (r: string)
    ensures |r| <= |s|
    decreases |s|
  {
    if s == [] then []
    else if s[0] == '<' && TagClose(s[1..]).Some? then RemoveTagSpans(s[TagClose(s[1..]).value + 2..])
    else [s[0]] + RemoveTagSpans(s[1..])
  }

  /** Position `p` of `s` starts a `<...>` span. */
  predicate OpensTag(s: string, p: int) {
    0 <= p < |s| && s[p] == '<' && TagClose(s[p + 1..]).Some?
  }

  predicate NoTagSpan(s: string) {
    forall p :: 0 <= p < |s| ==> !OpensTag(s, p)
  }

  /** Removing spans from a text that has no '>' before its first line terminator leaves it without one. */
  lemma {:induction false} TagCloseKept(s: string)
    requires TagClose(s).None?
    ensures TagClose(RemoveTagSpans(s)).None?
    decreases |s|
  {
    if s != [] && !IsLineTerminator(s[0]) {
      assert TagClose(s[1..]).None?;
      TagCloseKept(s[1..]);
      var r := RemoveTagSpans(s);
      assert r == [s[0]] + RemoveTagSpans(s[1..]);
      assert r[1..] == RemoveTagSpans(s[1..]);
    }
  }

  /** After `removeHTMLTag`'s regex no `<...>` span is left. */
  lemma {:induction false} RemoveTagSpansClean(s: string)
    ensures NoTagSpan(RemoveTagSpans(s))
    decreases |s|
  {
    if s != [] {
      if s[0] == '<' && TagClose(s[1..]).Some? {
        RemoveTagSpansClean(s[TagClose(s[1..]).value + 2..]);
      } else {
        var rest := RemoveTagSpans(s[1..]);
        var r := [s[0]] + rest;
        RemoveTagSpansClean(s[1..]);
        assert r[1..] == rest;
        if s[0] == '<' {
          TagCloseKept(s[1..]);
        }
        forall p | 0 < p < |r| ensures !OpensTag(r, p) {
          assert r[p + 1..] == rest[p..];
          assert !OpensTag(rest, p - 1);
        }
        assert !OpensTag(r, 0);
      }
    }
  }

  lemma {:induction false} RemoveTagSpansShrinks(s: string, p: nat)
    requires OpensTag(s, p)
    ensures |RemoveTagSpans(s)| < |s|
    decreases |s|
  {
    if !(s[0] == '<' && TagClose(s[1..]).Some?) {
      assert p > 0;
      assert s[1..][p..] == s[p + 1..];
      assert OpensTag(s[1..], p - 1);
      RemoveTagSpansShrinks(s[1..], p - 1);
    }
  }

  lemma {:induction false} RemoveTagSpansAbsent(s: string)
    requires NoTagSpan(s)
    ensures RemoveTagSpans(s) == s
    decreases |s|
  {
    if s != [] {
      assert !OpensTag(s, 0);
      forall p ensures !OpensTag(s[1..], p) {
        if 0 <= p < |s| - 1 {
          assert s[1..][p + 1..] == s[p + 2..];
          assert !OpensTag(s, p + 1);
        }
      }
      RemoveTagSpansAbsent(s[1..]);
      assert [s[0]] + s[1..] == s;
    }
  }

  /** The span removal changes a text exactly when it holds a `<...>` span; in particular it is idempotent. */
  lemma RemoveTagSpansIdentity(s: string)
    ensures RemoveTagSpans(s) == s <==> NoTagSpan(s)
    ensures RemoveTagSpans(RemoveTagSpans(s)) == RemoveTagSpans(s)
  {
    if NoTagSpan(s) {
      RemoveTagSpansAbsent(s);
    } else {
      var p: nat :| OpensTag(s, p);
      RemoveTagSpansShrinks(s, p);
    }
    RemoveTagSpansClean(s);
    RemoveTagSpansAbsent(RemoveTagSpans(s));
  }

  /** `cleanedLine = cleanedLine.replace(tag, "")` for each tag of the list in turn. */
  method RemoveEach(line: string, tags: seq<string>) returns (cleanedLine: string)
    requires forall k :: 0 <= k < |tags| ==> |tags[k]| > 0
    ensures cleanedLine == RemoveAll(line, tags)
  {
    cleanedLine := line;
    for i := 0 to |tags|
      invariant RemoveAll(cleanedLine, tags[i..]) == RemoveAll(line, tags)
    {
      assert tags[i..][1..] == tags[i + 1..];
      cleanedLine := RemoveOccurrences(cleanedLine, tags[i]);
    }
  }

  /** `removeTagString`: every literal occurrence of the comment tags, in list order. */
  method RemoveTagString(line: string) returns (cleanedLine: string)
    ensures cleanedLine == RemoveAll(line, COMMENT_TAGS)
  {
    TagsNonEmpty();
    cleanedLine := RemoveEach(line, COMMENT_TAGS);
  }

  /** `removeHTMLTag`: the `<...>` spans, then every literal occurrence of the redundant tags, in list order. */
  method RemoveHtmlTag(line: string) returns (cleanedLine: string)
    ensures cleanedLine == RemoveAll(RemoveTagSpans(line), REDUNDANT_TAGS)
  {
    TagsNonEmpty();
    cleanedLine := RemoveTagSpans(line);
    cleanedLine := RemoveEach(cleanedLine, REDUNDANT_TAGS);
  }

  /** What `tokenizeText` does to the text before scanning it. */
  function CleanText(text: string, removeTag: bool): string {
    TagsNonEmpty();
    var stripped := if removeTag then RemoveAll(RemoveTagSpans(RemoveAll(text, COMMENT_TAGS)), REDUNDANT_TAGS) else text;
    Trim(ReplaceChar(stripped, '\n', ' '))
  }

  /** `tokenizeText`. */
  function TokenizeText(text: string, removeTag: bool): seq<string> {
    Scan(CleanText(text, removeTag))
  }

  /** `tokenizeCode`: the text scan without tag removal. */
  function TokenizeCode(code: string): seq<string> {
    TokenizeText(code, false)
  }

  /** Every token of the text is a word or a symbol, and together they spell the cleaned text without whitespace. */
  lemma TokenizeTextMeaning(text: string, removeTag: bool)
    ensures forall k :: 0 <= k < |TokenizeText(text, removeTag)| ==> IsToken(TokenizeText(text, removeTag)[k])
    ensures Concat(TokenizeText(text, removeTag)) == DropRegexSpace(CleanText(text, removeTag))
  {
    ScanMeaning(CleanText(text, removeTag));
  }

  /** `subTokenizeText`: the text scan followed by `subTokenizeTokens`. */
  function SubTokenizeText(text: string, removeTag: bool, lowerCase: bool): seq<string> {
    SubTokenized(TokenizeText(text, removeTag), lowerCase)
  }

  // ----- camelCase split -----

  /** `[a-z0-9]` followed by `[A-Z]`: where `subTokenizeTokens` cuts a token. */
  predicate Boundary(a: char, b: char) {
    (IsLower(a) || IsDigit(a)) && IsUpper(b)
  }

  /**
   * `Regex("([a-z0-9])([A-Z])").replace(t) { "$1 $2" }`. The second character
   * of a match is upper case and so cannot start the next match: replacing
   * left to right puts a space at every boundary.
   */
  function SpaceBoundaries(t: string): string {
    if |t| < 2 then t
    else ([t[0]] + (if Boundary(t[0], t[1]) then " " else "")) + SpaceBoundaries(t[1..])
  }

  /** The pieces `split(" ")` makes of the spaced text. */
  function Pieces(x: string): (r: seq<string>)
    ensures |r| >= 1
  {
    Split(SpaceBoundaries(x), ' ')
  }

  /** The sub-tokens of one token: trimmed, spaced at the camelCase boundaries and split at spaces. */
  function TokenPieces(token: string): (r: seq<string>)
    ensures |r| >= 1
  {
    Pieces(Trim(token))
  }

  predicate NonEmptyPieces(r: seq<string>) {
    forall k :: 0 <= k < |r| ==> r[k] != []
  }

  /** No piece holds a boundary. */
  predicate NoInnerBoundary(r: seq<string>) {
    forall k, i :: 0 <= k < |r| && 0 <= i < |r[k]| - 1 ==> !Boundary(r[k][i], r[k][i + 1])
  }

  /** Consecutive pieces meet at a boundary. */
  ghost predicate CutsAtBoundaries(r: seq<string>) {
    forall k, l :: 0 <= k < l < |r| && l == k + 1 ==> Meets(r[k], r[l])
  }

  /** Two non-empty pieces with a boundary between them. */
  predicate Meets(a: string, b: string) {
    a != [] && b != [] && Boundary(a[|a| - 1], b[0])
  }

  lemma SplitCons(c: char, t: string)
    requires c != ' '
    ensures Split([c] + t, ' ') == [[c] + Split(t, ' ')[0]] + Split(t, ' ')[1..]
  {
    assert ([c] + t)[1..] == t;
  }

  lemma SplitSep(t: string)
    ensures Split([' '] + t, ' ') == [""] + Split(t, ' ')
  {
    assert ([' '] + t)[1..] == t;
  }

  /** Splitting the spaced text of a space-free string, one character at a time. */
  lemma PiecesStep(x: string)
    requires |x| >= 2 && ' ' !in x
    ensures Pieces(x) ==
      if Boundary(x[0], x[1]) then [[x[0]]] + Pieces(x[1..]) else [[x[0]] + Pieces(x[1..])[0]] + Pieces(x[1..])[1..]
  {
    var tail := SpaceBoundaries(x[1..]);
    assert x[0] in x;
    if Boundary(x[0], x[1]) {
      assert SpaceBoundaries(x) == ([x[0]] + " ") + tail;
      assert ([x[0]] + " ") + tail == [x[0]] + ([' '] + tail);
      SplitCons(x[0], [' '] + tail);
      SplitSep(tail);
      var rest := Split(tail, ' ');
      assert [x[0]] + "" == [x[0]];
      assert ([""] + rest)[1..] == rest;
    } else {
      assert SpaceBoundaries(x) == ([x[0]] + "") + tail;
      assert [x[0]] + "" == [x[0]];
      SplitCons(x[0], tail);
    }
  }

  lemma PiecesShort(x: string)
    requires |x| < 2 && ' ' !in x
    ensures Pieces(x) == [x]
  {
    SplitWithoutSep(x, ' ');
  }

  /** The pieces of a non-empty space-free string are non-empty, and the first begins with its first character. */
  lemma {:induction false} PiecesNonEmpty(x: string)
    requires ' ' !in x
    ensures x != [] ==> Pieces(x)[0] != [] && Pieces(x)[0][0] == x[0] && NonEmptyPieces(Pieces(x))
  {
    if |x| < 2 {
      PiecesShort(x);
    } else {
      assert x[1..][0] == x[1];
      PiecesNonEmpty(x[1..]);
      PiecesStep(x);
    }
  }

  lemma ConcatCons(a: string, xs: seq<string>)
    ensures Concat([a] + xs) == a + Concat(xs)
  {
    assert ([a] + xs)[1..] == xs;
  }

  /** The pieces of a space-free string spell it. */
  lemma {:induction false} PiecesConcat(x: string)
    requires ' ' !in x
    ensures Concat(Pieces(x)) == x
  {
    if |x| < 2 {
      PiecesShort(x);
      ConcatCons(x, []);
    } else {
      var rest := Pieces(x[1..]);
      PiecesConcat(x[1..]);
      PiecesStep(x);
      assert rest == [rest[0]] + rest[1..];
      ConcatCons(rest[0], rest[1..]);
      if Boundary(x[0], x[1]) {
        ConcatCons([x[0]], rest);
      } else {
        ConcatCons([x[0]] + rest[0], rest[1..]);
        AppendAssoc([x[0]], rest[0], Concat(rest[1..]));
      }
      assert x == [x[0]] + x[1..];
    }
  }

  /** No piece contains a boundary, and consecutive pieces meet at one. */
  lemma {:induction false} PiecesCutAtBoundaries(x: string)
    requires ' ' !in x
    ensures NoInnerBoundary(Pieces(x)) && CutsAtBoundaries(Pieces(x))
  {
    if |x| < 2 {
      PiecesShort(x);
    } else {
      var rest := Pieces(x[1..]);
      PiecesCutAtBoundaries(x[1..]);
      PiecesNonEmpty(x[1..]);
      PiecesStep(x);
      assert x[1..][0] == x[1];
      if Boundary(x[0], x[1]) {
        CutsAtNewPiece(x[0], rest);
      } else {
        CutsWithinPiece(x[0], rest);
      }
    }
  }

  /** A character that meets the first piece at a boundary starts a piece of its own. */
  lemma CutsAtNewPiece(c: char, rest: seq<string>)
    requires rest != [] && rest[0] != [] && Boundary(c, rest[0][0])
    requires NoInnerBoundary(rest) && CutsAtBoundaries(rest)
    ensures NoInnerBoundary([[c]] + rest) && CutsAtBoundaries([[c]] + rest)
  {
    var r := [[c]] + rest;
    forall k, l | 0 < k < l < |r| && l == k + 1 ensures Meets(r[k], r[l]) {
      assert r[k] == rest[k - 1] && r[l] == rest[k];
    }
    assert Meets(r[0], r[1]);
    forall k, i | 0 < k < |r| && 0 <= i < |r[k]| - 1 ensures !Boundary(r[k][i], r[k][i + 1]) {
      assert r[k] == rest[k - 1];
    }
  }

  /** A character that does not meet the first piece at a boundary joins it. */
  lemma CutsWithinPiece(c: char, rest: seq<string>)
    requires rest != [] && rest[0] != [] && !Boundary(c, rest[0][0])
    requires NonEmptyPieces(rest) && NoInnerBoundary(rest) && CutsAtBoundaries(rest)
    ensures NoInnerBoundary([[c] + rest[0]] + rest[1..]) && CutsAtBoundaries([[c] + rest[0]] + rest[1..])
  {
    var r := [[c] + rest[0]] + rest[1..];
    forall i | 0 <= i < |r[0]| - 1 ensures !Boundary(r[0][i], r[0][i + 1]) {
      if i > 0 {
        assert r[0][i] == rest[0][i - 1] && r[0][i + 1] == rest[0][i];
      }
    }
    forall k, i | 0 < k < |r| && 0 <= i < |r[k]| - 1 ensures !Boundary(r[k][i], r[k][i + 1]) {
      assert r[k] == rest[k];
    }
    forall k, l | 0 <= k < l < |r| && l == k + 1 ensures Meets(r[k], r[l]) {
      if k == 0 {
        assert r[0][|r[0]| - 1] == rest[0][|rest[0]| - 1];
        assert Meets(rest[0], rest[1]);
      } else {
        assert r[k] == rest[k];
        assert Meets(rest[k], rest[l]);
      }
      assert r[l] == rest[l];
    }
  }

  /** Trimming keeps a string free of spaces. */
  lemma TrimSpaceFree(token: string)
    requires ' ' !in token
    ensures ' ' !in Trim(token)
  {
    TrimChars(token);
  }

  /**
   * The pieces of a space-free token: at least one; non-empty unless the
   * trimmed token is empty; together they spell the trimmed token; none holds
   * a lower-case-or-digit to upper-case boundary, and every cut is at one.
   */
  lemma TokenPiecesMeaning(token: string)
    requires ' ' !in token
    ensures Concat(TokenPieces(token)) == Trim(token)
    ensures Trim(token) != [] ==> NonEmptyPieces(TokenPieces(token))
    ensures NoInnerBoundary(TokenPieces(token)) && CutsAtBoundaries(TokenPieces(token))
  {
    TrimSpaceFree(token);
    PiecesNonEmpty(Trim(token));
    PiecesConcat(Trim(token));
    PiecesCutAtBoundaries(Trim(token));
  }

  // ----- subTokenizeTokens and subTokenizeCode -----

  /** The pieces of all tokens, token by token. */
  function SubTokensOf(tokens: seq<string>): seq<string> {
    if tokens == [] then [] else SubTokensOf(tokens[..|tokens| - 1]) + TokenPieces(tokens[|tokens| - 1])
  }

  function LowerAll(xs: seq<string>): seq<string> {
    seq(|xs|, i requires 0 <= i < |xs| => Lower(xs[i]))
  }

  /** What `subTokenizeTokens(tokens, lowerCase)` returns. */
  function SubTokenized(tokens: seq<string>, lowerCase: bool): seq<string> {
    if lowerCase then LowerAll(SubTokensOf(tokens)) else SubTokensOf(tokens)
  }

  /** `subTokenizeTokens`: the pieces of every token appended in turn, then lower-cased if asked. */
  method SubTokenizeTokens(tokens: seq<string>, lowerCase: bool) returns (result: seq<string>)
    ensures result == SubTokenized(tokens, lowerCase)
  {
    var subTokens: seq<string> := [];
    for i := 0 to |tokens|
      invariant subTokens == SubTokensOf(tokens[..i])
    {
      var curSubs := Split(SpaceBoundaries(Trim(tokens[i])), ' ');
      assert curSubs == TokenPieces(tokens[i]);
      SubTokensStep(tokens, i);
      subTokens := subTokens + curSubs;
    }
    assert tokens[..|tokens|] == tokens;
    if lowerCase {
      result := LowerAll(subTokens);
    } else {
      result := subTokens;
    }
  }

  /** One more token appends its pieces. */
  lemma SubTokensStep(tokens: seq<string>, i: nat)
    requires i < |tokens|
    ensures SubTokensOf(tokens[..i + 1]) == SubTokensOf(tokens[..i]) + TokenPieces(tokens[i])
  {
    assert tokens[..i + 1][..i] == tokens[..i] && tokens[..i + 1][i] == tokens[i];
  }

  /** Every token gives at least one sub-token. */
  lemma {:induction false} SubTokensCount(tokens: seq<string>)
    ensures |SubTokensOf(tokens)| >= |tokens|
  {
    if tokens != [] {
      SubTokensCount(tokens[..|tokens| - 1]);
    }
  }

  /** A token that contains no space and that trimming leaves as it is. */
  predicate IsTrimmedSolid(t: string) {
    ' ' !in t && Trim(t) == t
  }

  /** The sub-tokens of trimmed, space-free tokens spell the tokens. */
  lemma {:induction false} SubTokensConcat(tokens: seq<string>)
    requires forall k :: 0 <= k < |tokens| ==> IsTrimmedSolid(tokens[k])
    ensures Concat(SubTokensOf(tokens)) == Concat(tokens)
  {
    if tokens != [] {
      var init := tokens[..|tokens| - 1];
      var last := tokens[|tokens| - 1];
      assert last in tokens;
      SubTokensConcat(init);
      TrimSpaceFree(last);
      PiecesConcat(Trim(last));
      ConcatAppend(SubTokensOf(init), TokenPieces(last));
      ConcatAppend(init, [last]);
      ConcatCons(last, []);
      InitLast(tokens);
    }
  }

  lemma LowerAppend(a: string, b: string)
    ensures Lower(a + b) == Lower(a) + Lower(b)
  {
  }

  lemma {:induction false} LowerConcat(xs: seq<string>)
    ensures Concat(LowerAll(xs)) == Lower(Concat(xs))
  {
    if xs != [] {
      LowerConcat(xs[1..]);
      assert LowerAll(xs)[1..] == LowerAll(xs[1..]);
      LowerAppend(xs[0], Concat(xs[1..]));
    }
  }

  /** Lower-casing keeps the sub-tokens one for one: same number, and together the lower-cased text. */
  lemma SubTokenizedLowerCase(tokens: seq<string>)
    ensures |SubTokenized(tokens, true)| == |SubTokenized(tokens, false)|
    ensures Concat(SubTokenized(tokens, true)) == Lower(Concat(SubTokenized(tokens, false)))
    ensures forall k, i :: 0 <= k < |SubTokenized(tokens, true)| && 0 <= i < |SubTokenized(tokens, true)[k]| ==>
      !IsUpper(SubTokenized(tokens, true)[k][i])
  {
    var xs := SubTokensOf(tokens);
    var ys := SubTokenized(tokens, true);
    assert ys == LowerAll(xs);
    LowerConcat(xs);
    forall k, i | 0 <= k < |ys| && 0 <= i < |ys[k]| ensures !IsUpper(ys[k][i]) {
      assert ys[k] == Lower(xs[k]);
      assert ys[k][i] == LowerChar(xs[k][i]);
    }
  }

  /** `subTokenizeCode`: scans the code, scans each token again, and splits the result into sub-tokens. */
  method SubTokenizeCode(code: string, lowerCase: bool) returns (result: seq<string>)
    ensures result == SubTokenized(TokenizeCode(code), lowerCase)
  {
    var tokens := TokenizeCode(code);
    TokenizeTextMeaning(code, false);
    var processedTokens := RescanTokens(tokens);
    result := SubTokenizeTokens(processedTokens, lowerCase);
  }

  /** The second scan of `subTokenizeCode`: every token scans back to itself, so the list is unchanged. */
  method RescanTokens(tokens: seq<string>) returns (processedTokens: seq<string>)
    requires forall k :: 0 <= k < |tokens| ==> IsToken(tokens[k])
    ensures processedTokens == tokens
  {
    processedTokens := [];
    for i := 0 to |tokens|
      invariant processedTokens == tokens[..i]
    {
      ScanToken(tokens[i]);
      processedTokens := processedTokens + Scan(tokens[i]);
      assert tokens[..i + 1] == tokens[..i] + [tokens[i]];
    }
    assert tokens[..|tokens|] == tokens;
  }

  /** No character of the ASCII information-separator range 0x1C-0x1F, which `trim` treats as whitespace and `\s` does not. */
  predicate NoSeparatorControls(s: string) {
    forall i :: 0 <= i < |s| ==> !(28 <= s[i] as int <= 31)
  }

  lemma TrimNoop(t: string)
    requires t != [] ==> !IsTrimSpace(t[0]) && !IsTrimSpace(t[|t| - 1])
    ensures Trim(t) == t
  {
    assert TrimStart(t) == t;
  }

  /** A scanned token of a text without separator controls is trimmed and space-free. */
  lemma ScannedTokenSolid(s: string, t: string, b: nat)
    requires NoSeparatorControls(s) && IsToken(t)
    requires b + |t| <= |s| && t == s[b..b + |t|]
    ensures IsTrimmedSolid(t)
  {
    assert t[0] == s[b] && t[|t| - 1] == s[b + |t| - 1];
    TrimNoop(t);
  }

  /** The sub-tokens of a scanned text spell the text without its whitespace. */
  lemma SubTokensOfScan(s: string)
    requires NoSeparatorControls(s)
    ensures |SubTokensOf(Scan(s))| >= |Scan(s)|
    ensures Concat(SubTokensOf(Scan(s))) == DropRegexSpace(s)
  {
    ScanFromClean(s, 0);
    ScanFromKinds(s, 0);
    ScanFromConcat(s, 0);
    assert s[0..] == s;
    var tokens := Scan(s);
    forall k | 0 <= k < |tokens| ensures IsTrimmedSolid(tokens[k]) {
      ScannedTokenSolid(tokens[k], tokens[k], 0);
    }
    SubTokensCount(tokens);
    SubTokensConcat(tokens);
  }

  /** The matches of a text without separator controls have none either. */
  lemma {:induction false} ScanFromClean(s: string, i: nat)
    requires NoSeparatorControls(s) && i <= |s|
    ensures forall k :: 0 <= k < |ScanFrom(s, i)| ==> NoSeparatorControls(ScanFrom(s, i)[k])
    decreases |s| - i
  {
    if i < |s| {
      if IsRegexSpace(s[i]) {
        ScanFromClean(s, i + 1);
        assert ScanFrom(s, i) == ScanFrom(s, i + 1);
      } else {
        var j := TokenEnd(s, i);
        ScanFromClean(s, j);
        var t := s[i..j];
        assert NoSeparatorControls(t) by {
          forall l | 0 <= l < |t| ensures !(28 <= t[l] as int <= 31) {
            assert t[l] == s[i + l];
          }
        }
        var scan := ScanFrom(s, i);
        assert scan == [t] + ScanFrom(s, j);
        forall k | 0 <= k < |scan| ensures NoSeparatorControls(scan[k]) {
          if k > 0 {
            assert scan[k] == ScanFrom(s, j)[k - 1];
          }
        }
      }
    }
  }

  /** Cleaning keeps the characters of the text, apart from the spaces it adds. */
  lemma CleanTextChars(text: string, removeTag: bool)
    ensures forall c :: c in CleanText(text, removeTag) ==> c in text || c == ' '
  {
    TagsNonEmpty();
    var stripped := if removeTag then RemoveAll(RemoveTagSpans(RemoveAll(text, COMMENT_TAGS)), REDUNDANT_TAGS) else text;
    if removeTag {
      RemoveAllChars(text, COMMENT_TAGS);
      RemoveTagSpansChars(RemoveAll(text, COMMENT_TAGS));
      RemoveAllChars(RemoveTagSpans(RemoveAll(text, COMMENT_TAGS)), REDUNDANT_TAGS);
    }
    var replaced := ReplaceChar(stripped, '\n', ' ');
    TrimChars(replaced);
    forall c | c in replaced ensures c in stripped || c == ' ' {
      var i :| 0 <= i < |replaced| && replaced[i] == c;
    }
  }

  lemma {:induction false} RemoveOccurrencesChars(s: string, pat: string)
    requires |pat| > 0
    ensures forall c :: c in RemoveOccurrences(s, pat) ==> c in s
    decreases |s|
  {
    if |s| >= |pat| {
      if s[..|pat|] == pat {
        RemoveOccurrencesChars(s[|pat|..], pat);
      } else {
        RemoveOccurrencesChars(s[1..], pat);
      }
    }
  }

  lemma {:induction false} RemoveAllChars(s: string, pats: seq<string>)
    requires forall i :: 0 <= i < |pats| ==> |pats[i]| > 0
    ensures forall c :: c in RemoveAll(s, pats) ==> c in s
    decreases |pats|
  {
    if pats != [] {
      RemoveOccurrencesChars(s, pats[0]);
      RemoveAllChars(RemoveOccurrences(s, pats[0]), pats[1..]);
    }
  }

  lemma {:induction false} RemoveTagSpansChars(s: string)
    ensures forall c :: c in RemoveTagSpans(s) ==> c in s
    decreases |s|
  {
    if s != [] {
      if s[0] == '<' && TagClose(s[1..]).Some? {
        RemoveTagSpansChars(s[TagClose(s[1..]).value + 2..]);
      } else {
        RemoveTagSpansChars(s[1..]);
      }
    }
  }

  /**
   * Joined together, the sub-tokens of a piece of code are its cleaned text
   * without whitespace (lower-cased when asked), provided the code holds no
   * separator controls.
   */
  lemma CodeSubTokensSpell(code: string, lowerCase: bool)
    requires NoSeparatorControls(code)
    ensures |SubTokenized(TokenizeCode(code), lowerCase)| >= |TokenizeCode(code)|
    ensures Concat(SubTokenized(TokenizeCode(code), false)) == DropRegexSpace(CleanText(code, false))
    ensures Concat(SubTokenized(TokenizeCode(code), true)) == Lower(DropRegexSpace(CleanText(code, false)))
  {
    var cleaned := CleanText(code, false);
    CleanTextChars(code, false);
    forall i | 0 <= i < |cleaned| ensures !(28 <= cleaned[i] as int <= 31) {
      assert cleaned[i] in cleaned;
      if cleaned[i] != ' ' {
        var j :| 0 <= j < |code| && code[j] == cleaned[i];
      }
    }
    SubTokensOfScan(cleaned);
    SubTokenizedLowerCase(TokenizeCode(code));
  }

  // ----- the "@return" marker token -----

  const RETURN_MARKER: string := "@return"

  lemma ReturnMarkerNotToken()
    ensures !IsToken(RETURN_MARKER)
  {
    assert !IsAlnum(RETURN_MARKER[0]);
  }

  /** A member of a list occurs in its concatenation. */
  lemma {:induction false} ConcatHolds(xs: seq<string>, k: nat, i: nat)
    requires k < |xs| && i < |xs[k]|
    ensures xs[k][i] in Concat(xs)
  {
    if k == 0 {
      assert Concat(xs) == xs[0] + Concat(xs[1..]);
    } else {
      ConcatHolds(xs[1..], k - 1, i);
    }
  }

  lemma {:induction false} ConcatLength(xs: seq<string>, k: nat)
    requires k < |xs|
    ensures |xs[k]| <= |Concat(xs)|
  {
    if k > 0 {
      ConcatLength(xs[1..], k - 1);
    }
  }

  /** The pieces of a scanned token are alphanumeric throughout or at most one character long. */
  lemma TokenPiecesShape(t: string, k: nat)
    requires IsToken(t) && k < |TokenPieces(t)|
    ensures var p := TokenPieces(t)[k];
      |p| <= 1 || forall i :: 0 <= i < |p| ==> IsAlnum(p[i])
  {
    assert ' ' !in t by {
      assert forall i :: 0 <= i < |t| ==> t[i] != ' ';
    }
    var pieces := TokenPieces(t);
    TrimSpaceFree(t);
    PiecesConcat(Trim(t));
    if IsWord(t) {
      WordPiecesAlnum(t, pieces, k);
    } else {
      ConcatLength(pieces, k);
    }
  }

  lemma WordPiecesAlnum(t: string, pieces: seq<string>, k: nat)
    requires IsWord(t) && k < |pieces| && Concat(pieces) == Trim(t)
    ensures forall i :: 0 <= i < |pieces[k]| ==> IsAlnum(pieces[k][i])
  {
    TrimNoop(t);
    forall i | 0 <= i < |pieces[k]| ensures IsAlnum(pieces[k][i]) {
      ConcatHolds(pieces, k, i);
    }
  }

  /** The sub-tokens of `a + b` are those of `a` followed by those of `b`. */
  lemma {:induction false} SubTokensAppend(a: seq<string>, b: seq<string>)
    ensures SubTokensOf(a + b) == SubTokensOf(a) + SubTokensOf(b)
  {
    if b == [] {
      AppendEmpty(a);
      AppendEmpty(SubTokensOf(a));
    } else {
      AppendInitLast(a, b);
      SubTokensAppend(a, b[..|b| - 1]);
      AppendAssoc(SubTokensOf(a), SubTokensOf(b[..|b| - 1]), TokenPieces(b[|b| - 1]));
    }
  }

  /** What a piece of a scanned token looks like. */
  predicate PieceShape(p: string) {
    |p| <= 1 || forall i :: 0 <= i < |p| ==> IsAlnum(p[i])
  }

  /** Every sub-token of scanned tokens has the shape of a piece. */
  lemma {:induction false} SubTokensShape(tokens: seq<string>)
    requires forall j :: 0 <= j < |tokens| ==> IsToken(tokens[j])
    ensures forall m :: 0 <= m < |SubTokensOf(tokens)| ==> PieceShape(SubTokensOf(tokens)[m])
  {
    if tokens != [] {
      var init := tokens[..|tokens| - 1];
      var last := tokens[|tokens| - 1];
      SubTokensShape(init);
      forall k | 0 <= k < |TokenPieces(last)| ensures PieceShape(TokenPieces(last)[k]) {
        TokenPiecesShape(last, k);
      }
    }
  }

  lemma ShapeNotMarker(p: string)
    requires PieceShape(p)
    ensures p != RETURN_MARKER && Lower(p) != RETURN_MARKER
  {
    if |p| > 1 {
      assert IsAlnum(p[0]);
      assert IsAlnum(Lower(p)[0]);
      assert !IsAlnum(RETURN_MARKER[0]);
    }
  }

  /** Scanned tokens never give the sub-token "@return", lower-cased or not. */
  lemma NoReturnSubToken(tokens: seq<string>, lowerCase: bool)
    requires forall j :: 0 <= j < |tokens| ==> IsToken(tokens[j])
    ensures RETURN_MARKER !in SubTokenized(tokens, lowerCase)
  {
    var subs := SubTokensOf(tokens);
    SubTokensShape(tokens);
    forall m | 0 <= m < |subs| ensures subs[m] != RETURN_MARKER && Lower(subs[m]) != RETURN_MARKER {
      ShapeNotMarker(subs[m]);
    }
  }

  /** No scanned token is "@return". */
  lemma NoReturnToken(text: string, removeTag: bool)
    ensures RETURN_MARKER !in TokenizeText(text, removeTag)
    ensures RETURN_MARKER !in SubTokenizeText(text, removeTag, true)
    ensures RETURN_MARKER !in SubTokenizeText(text, removeTag, false)
  {
    TokenizeTextMeaning(text, removeTag);
    ReturnMarkerNotToken();
    NoReturnSubToken(TokenizeText(text, removeTag), true);
    NoReturnSubToken(TokenizeText(text, removeTag), false);
  }

  lemma {:induction false} SpaceBoundariesNoop(t: string)
    requires forall i :: 0 <= i < |t| - 1 ==> !Boundary(t[i], t[i + 1])
    ensures SpaceBoundaries(t) == t
  {
    if |t| >= 2 {
      SpaceBoundariesNoop(t[1..]);
      assert [t[0]] + "" == [t[0]];
      assert [t[0]] + t[1..] == t;
    }
  }

  lemma LowerNoop(s: string)
    requires forall i :: 0 <= i < |s| ==> !IsUpper(s[i])
    ensures Lower(s) == s
  {
  }

  /** "@return" is an '@' followed by lower-case letters. */
  lemma ReturnMarkerChars()
    ensures RETURN_MARKER[0] == '@' && |RETURN_MARKER| == 7
    ensures forall i :: 0 <= i < |RETURN_MARKER| ==> !IsUpper(RETURN_MARKER[i]) && !IsTrimSpace(RETURN_MARKER[i])
    ensures ' ' !in RETURN_MARKER && '/' !in RETURN_MARKER && '*' !in RETURN_MARKER
  {
    var m := RETURN_MARKER;
    forall i | 0 <= i < |m| ensures m[i] == '@' || IsLower(m[i]) {
      if i == 0 {} else if i == 1 {} else if i == 2 {} else if i == 3 {} else if i == 4 {} else if i == 5 {} else {}
    }
  }

  /** "@return" is a single sub-token, and lower-casing leaves it alone. */
  lemma ReturnMarkerPieces()
    ensures TokenPieces(RETURN_MARKER) == [RETURN_MARKER]
    ensures Lower(RETURN_MARKER) == RETURN_MARKER
  {
    var m := RETURN_MARKER;
    ReturnMarkerChars();
    TrimNoop(m);
    SpaceBoundariesNoop(m);
    SplitWithoutSep(m, ' ');
    LowerNoop(m);
  }

  lemma LowerAllCons(x: string, xs: seq<string>)
    ensures LowerAll([x] + xs) == [Lower(x)] + LowerAll(xs)
  {
    var l := LowerAll([x] + xs);
    var r := [Lower(x)] + LowerAll(xs);
    assert |l| == |r|;
    forall i | 0 <= i < |l| ensures l[i] == r[i] {
      if i > 0 {
        assert ([x] + xs)[i] == xs[i - 1];
      }
    }
  }

  /** Sub-tokenizing a list that starts with "@return" keeps it in front. */
  lemma SubTokenizedAfterMarker(tokens: seq<string>)
    ensures SubTokenized([RETURN_MARKER] + tokens, true) == [RETURN_MARKER] + SubTokenized(tokens, true)
  {
    SubTokensAfterMarker(tokens);
    ReturnMarkerPieces();
    LowerAllCons(RETURN_MARKER, SubTokensOf(tokens));
  }

  lemma SubTokensAfterMarker(tokens: seq<string>)
    ensures SubTokensOf([RETURN_MARKER] + tokens) == [RETURN_MARKER] + SubTokensOf(tokens)
  {
    ReturnMarkerPieces();
    SubTokensAppend([RETURN_MARKER], tokens);
    SubTokensSingle(RETURN_MARKER);
  }

  lemma SubTokensSingle(t: string)
    ensures SubTokensOf([t]) == TokenPieces(t)
  {
    assert [t][..0] == [];
  }

  lemma {:induction false} DropRegexSpaceChars(s: string)
    ensures forall c :: c in DropRegexSpace(s) ==> c in s
  {
    if s != [] {
      DropRegexSpaceChars(s[1..]);
    }
  }

  lemma TokenCharNotSpace(t: string, i: nat)
    requires IsToken(t) && i < |t|
    ensures t[i] != ' '
  {
    if IsWord(t) {
      assert IsAlnum(t[i]);
    }
  }

  /** Every character of a token comes from the text. */
  lemma TokenizeTextChars(text: string, removeTag: bool)
    ensures forall k, i :: 0 <= k < |TokenizeText(text, removeTag)| && 0 <= i < |TokenizeText(text, removeTag)[k]| ==>
      TokenizeText(text, removeTag)[k][i] in text
  {
    var tokens := TokenizeText(text, removeTag);
    var cleaned := CleanText(text, removeTag);
    TokenizeTextMeaning(text, removeTag);
    CleanTextChars(text, removeTag);
    DropRegexSpaceChars(cleaned);
    forall k, i | 0 <= k < |tokens| && 0 <= i < |tokens[k]| ensures tokens[k][i] in text {
      var c := tokens[k][i];
      ConcatHolds(tokens, k, i);
      assert c in cleaned;
      TokenCharNotSpace(tokens[k], i);
      assert c in text || c == ' ';
    }
  }
}
