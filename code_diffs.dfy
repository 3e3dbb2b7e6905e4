/**
 * `computeCodeDiffs`: the flat difference of two code token lists, as three
 * streams built from the delta list of the line diff. `spans` brackets each
 * delta with its markers; `tokens` pairs every token with the marker of its
 * side of the edit; `commands` is the edit-command stream that the detector
 * reads, where unchanged and replaced old tokens count once and every other
 * token twice (marker and token).
 */
module CodeDiffs {
  import opened Deltas
  import opened DiffMarkers
  import opened Text

  // ----- the specification -----

  /** `lines` with `marker` before each line: `[marker, l0, marker, l1, ...]`. */
  function Pairs(marker: string, lines: seq<string>): (r: seq<string>)
    ensures |r| == 2 * |lines|
  {
    if lines == [] then [] else Pairs(marker, lines[..|lines| - 1]) + [marker, lines[|lines| - 1]]
  }

  function Repeat(marker: string, n: nat): (r: seq<string>)
    ensures |r| == n && forall k :: 0 <= k < n ==> r[k] == marker
  {
    if n == 0 then [] else Repeat(marker, n - 1) + [marker]
  }

  /** The span of one delta: its lines between the markers of its type. */
  function DeltaSpan(d: Delta): seq<string> {
    match d.deltaType
    case Equal => [KEEP] + d.source + [KEEP_END]
    case Change => [REPLACE_OLD] + d.source + [REPLACE_NEW] + d.target + [REPLACE_END]
    case Insert => [INSERT] + d.target + [INSERT_END]
    case Delete => [DELETE] + d.source + [DELETE_END]
  }

  /** The marked tokens of one delta. */
  function DeltaTokens(d: Delta): seq<string> {
    match d.deltaType
    case Equal => Pairs(KEEP, d.source)
    case Change => Pairs(REPLACE_OLD, d.source) + Pairs(REPLACE_NEW, d.target)
    case Insert => Pairs(INSERT, d.target)
    case Delete => Pairs(DELETE, d.source)
  }

  /** The commands of one delta. */
  function DeltaCommands(d: Delta): seq<string> {
    match d.deltaType
    case Equal => Repeat(KEEP, |d.source|)
    case Change => Repeat(REPLACE_OLD, |d.source|) + Pairs(REPLACE_NEW, d.target)
    case Insert => Pairs(INSERT, d.target)
    case Delete => Pairs(DELETE, d.source)
  }

  /** The spans of all deltas, in order. */
  function CodeSpans(ds: seq<Delta>): seq<string> {
    if ds == [] then [] else CodeSpans(ds[..|ds| - 1]) + DeltaSpan(ds[|ds| - 1])
  }

  /** The marked tokens of all deltas, in order. */
  function CodeTokens(ds: seq<Delta>): seq<string> {
    if ds == [] then [] else CodeTokens(ds[..|ds| - 1]) + DeltaTokens(ds[|ds| - 1])
  }

  /** The commands of all deltas, in order. */
  function CodeCommands(ds: seq<Delta>): seq<string> {
    if ds == [] then [] else CodeCommands(ds[..|ds| - 1]) + DeltaCommands(ds[|ds| - 1])
  }

  // ----- the method -----

  /** `computeCodeDiffs`: one pass over the deltas, appending to the three streams. */
  method ComputeCodeDiffs(diff: (seq<string>, seq<string>) -> seq<Delta>, oldTokens: seq<string>, newTokens: seq<string>)
    returns (spans: seq<string>, tokens: seq<string>, commands: seq<string>)
    ensures spans == CodeSpans(diff(oldTokens, newTokens))
    ensures tokens == CodeTokens(diff(oldTokens, newTokens))
    ensures commands == CodeCommands(diff(oldTokens, newTokens))
  {
    var deltas := diff(oldTokens, newTokens);
    spans, tokens, commands := [], [], [];
    for i := 0 to |deltas|
      invariant spans == CodeSpans(deltas[..i])
      invariant tokens == CodeTokens(deltas[..i])
      invariant commands == CodeCommands(deltas[..i])
    {
      spans, tokens, commands := AddDelta(spans, tokens, commands, deltas[i]);
      assert deltas[..i + 1][..i] == deltas[..i];
    }
    assert deltas[..|deltas|] == deltas;
  }

  /** The body of the loop of `computeCodeDiffs`: the streams of one delta appended, by its type. */
  method AddDelta(spans: seq<string>, tokens: seq<string>, commands: seq<string>, delta: Delta)
    returns (spans': seq<string>, tokens': seq<string>, commands': seq<string>)
    ensures spans' == spans + DeltaSpan(delta)
    ensures tokens' == tokens + DeltaTokens(delta)
    ensures commands' == commands + DeltaCommands(delta)
  {
    match delta.deltaType {
      case Equal =>
        spans' := spans + ([KEEP] + delta.source + [KEEP_END]);
        tokens', commands' := AddTokens(tokens, commands, KEEP, delta.source, false);
      case Change =>
        spans' := spans + ([REPLACE_OLD] + delta.source + [REPLACE_NEW] + delta.target + [REPLACE_END]);
        tokens', commands' := AddTokens(tokens, commands, REPLACE_OLD, delta.source, false);
        tokens', commands' := AddTokens(tokens', commands', REPLACE_NEW, delta.target, true);
      case Insert =>
        spans' := spans + ([INSERT] + delta.target + [INSERT_END]);
        tokens', commands' := AddTokens(tokens, commands, INSERT, delta.target, true);
      case Delete =>
        spans' := spans + ([DELETE] + delta.source + [DELETE_END]);
        tokens', commands' := AddTokens(tokens, commands, DELETE, delta.source, true);
    }
  }

  /**
   * One inner loop of `computeCodeDiffs`: each line goes to `tokens` behind
   * `marker`, and to `commands` either behind `marker` too (`withToken`) or as
   * the bare marker.
   */
  method AddTokens(tokens: seq<string>, commands: seq<string>, marker: string, lines: seq<string>, withToken: bool)
    returns (tokens': seq<string>, commands': seq<string>)
    ensures tokens' == tokens + Pairs(marker, lines)
    ensures commands' == commands + if withToken then Pairs(marker, lines) else Repeat(marker, |lines|)
  {
    tokens', commands' := tokens, commands;
    for j := 0 to |lines|
      invariant tokens' == tokens + Pairs(marker, lines[..j])
      invariant commands' == commands + if withToken then Pairs(marker, lines[..j]) else Repeat(marker, j)
    {
      var token := lines[j];
      tokens' := tokens' + [marker, token];
      if withToken {
        commands' := commands' + [marker, token];
      } else {
        commands' := commands' + [marker];
      }
      assert lines[..j + 1][..j] == lines[..j];
    }
    assert lines[..|lines|] == lines;
  }

  // ----- reading the token stream back -----

  /** The five markers that open a pair of the token stream. */
  const COMMAND_MARKERS: set<string> := {KEEP, REPLACE_OLD, REPLACE_NEW, INSERT, DELETE}
  /** The markers of the pairs whose content is an old token. */
  const OLD_SIDE: set<string> := {KEEP, REPLACE_OLD, DELETE}
  /** The markers of the pairs whose content is a new token. */
  const NEW_SIDE: set<string> := {KEEP, REPLACE_NEW, INSERT}
  /** The markers whose pairs give the bare marker as their command. */
  const MARKER_ONLY: set<string> := {KEEP, REPLACE_OLD}

  /** Marker, content, marker, content, ...: an even number of entries with a marker of `markers` at every even index. */
  predicate Alternating(t: seq<string>, markers: set<string>) {
    if t == [] then true else |t| >= 2 && t[0] in markers && Alternating(t[2..], markers)
  }

  /** The contents of the pairs whose marker is in `side`, in order. */
  function Contents(t: seq<string>, side: set<string>): seq<string> {
    if |t| < 2 then [] else (if t[0] in side then [t[1]] else []) + Contents(t[2..], side)
  }

  /** The command stream a token stream gives: the pairs of a `short` marker shrink to the marker. */
  function AsCommands(t: seq<string>, short: set<string>): seq<string> {
    if |t| < 2 then t
    else (if t[0] in short then [t[0]] else [t[0], t[1]]) + AsCommands(t[2..], short)
  }

  lemma MarkerSets()
    ensures KEEP in COMMAND_MARKERS && REPLACE_OLD in COMMAND_MARKERS && REPLACE_NEW in COMMAND_MARKERS
    ensures INSERT in COMMAND_MARKERS && DELETE in COMMAND_MARKERS
    ensures KEEP in OLD_SIDE && REPLACE_OLD in OLD_SIDE && REPLACE_NEW !in OLD_SIDE
    ensures INSERT !in OLD_SIDE && DELETE in OLD_SIDE
    ensures KEEP in NEW_SIDE && REPLACE_OLD !in NEW_SIDE && REPLACE_NEW in NEW_SIDE
    ensures INSERT in NEW_SIDE && DELETE !in NEW_SIDE
    ensures KEEP in MARKER_ONLY && REPLACE_OLD in MARKER_ONLY && REPLACE_NEW !in MARKER_ONLY
    ensures INSERT !in MARKER_ONLY && DELETE !in MARKER_ONLY
  {
    CommandMarkersDistinct();
  }

  lemma {:induction false} AlternatingEven(t: seq<string>, markers: set<string>)
    requires Alternating(t, markers)
    ensures |t| % 2 == 0
    decreases |t|
  {
    if t != [] {
      AlternatingEven(t[2..], markers);
    }
  }

  lemma {:induction false} AlternatingAppend(a: seq<string>, b: seq<string>, markers: set<string>)
    requires Alternating(a, markers) && Alternating(b, markers)
    ensures Alternating(a + b, markers)
    decreases |a|
  {
    if a == [] {
      assert a + b == b;
    } else {
      assert (a + b)[2..] == a[2..] + b;
      assert (a + b)[0] == a[0];
      AlternatingAppend(a[2..], b, markers);
    }
  }

  lemma {:induction false} ContentsAppend(a: seq<string>, b: seq<string>, markers: set<string>, side: set<string>)
    requires Alternating(a, markers)
    ensures Contents(a + b, side) == Contents(a, side) + Contents(b, side)
    decreases |a|
  {
    if a == [] {
      assert a + b == b;
    } else {
      ContentsAppend(a[2..], b, markers, side);
      ContentsStep(a, b, side);
    }
  }

  lemma {:induction false} AsCommandsAppend(a: seq<string>, b: seq<string>, markers: set<string>, short: set<string>)
    requires Alternating(a, markers)
    ensures AsCommands(a + b, short) == AsCommands(a, short) + AsCommands(b, short)
    decreases |a|
  {
    if a == [] {
      assert a + b == b;
    } else {
      AsCommandsAppend(a[2..], b, markers, short);
      AsCommandsStep(a, b, short);
    }
  }

  lemma ContentsStep(a: seq<string>, b: seq<string>, side: set<string>)
    requires |a| >= 2
    requires Contents(a[2..] + b, side) == Contents(a[2..], side) + Contents(b, side)
    ensures Contents(a + b, side) == Contents(a, side) + Contents(b, side)
  {
    var h := if a[0] in side then [a[1]] else [];
    var ab := a + b;
    assert ab[2..] == a[2..] + b;
    assert ab[0] == a[0] && ab[1] == a[1];
    assert Contents(ab, side) == h + Contents(ab[2..], side);
    assert Contents(a, side) == h + Contents(a[2..], side);
    assert Contents(ab[2..], side) == Contents(a[2..], side) + Contents(b, side);
    AppendAssoc(h, Contents(a[2..], side), Contents(b, side));
  }

  lemma AsCommandsStep(a: seq<string>, b: seq<string>, short: set<string>)
    requires |a| >= 2
    requires AsCommands(a[2..] + b, short) == AsCommands(a[2..], short) + AsCommands(b, short)
    ensures AsCommands(a + b, short) == AsCommands(a, short) + AsCommands(b, short)
  {
    var h := if a[0] in short then [a[0]] else [a[0], a[1]];
    var ab := a + b;
    assert ab[2..] == a[2..] + b;
    assert ab[0] == a[0] && ab[1] == a[1];
    assert AsCommands(ab, short) == h + AsCommands(ab[2..], short);
    assert AsCommands(a, short) == h + AsCommands(a[2..], short);
    AppendAssoc(h, AsCommands(a[2..], short), AsCommands(b, short));
  }

  /** Reading a concatenation of two streams reads the two in turn. */
  lemma StreamsAppend(a: seq<string>, b: seq<string>)
    requires Alternating(a, COMMAND_MARKERS) && Alternating(b, COMMAND_MARKERS)
    ensures Alternating(a + b, COMMAND_MARKERS)
    ensures Contents(a + b, OLD_SIDE) == Contents(a, OLD_SIDE) + Contents(b, OLD_SIDE)
    ensures Contents(a + b, NEW_SIDE) == Contents(a, NEW_SIDE) + Contents(b, NEW_SIDE)
    ensures AsCommands(a + b, MARKER_ONLY) == AsCommands(a, MARKER_ONLY) + AsCommands(b, MARKER_ONLY)
  {
    AlternatingAppend(a, b, COMMAND_MARKERS);
    ContentsAppend(a, b, COMMAND_MARKERS, OLD_SIDE);
    ContentsAppend(a, b, COMMAND_MARKERS, NEW_SIDE);
    AsCommandsAppend(a, b, COMMAND_MARKERS, MARKER_ONLY);
  }

  /** A run of pairs with one marker: alternating, with all or none of the lines on a side. */
  lemma {:induction false} PairsRead(marker: string, lines: seq<string>, markers: set<string>, side: set<string>)
    requires marker in markers
    ensures Alternating(Pairs(marker, lines), markers)
    ensures Contents(Pairs(marker, lines), side) == if marker in side then lines else []
  {
    if lines != [] {
      var init := lines[..|lines| - 1];
      var x := lines[|lines| - 1];
      PairsRead(marker, init, markers, side);
      assert Alternating([marker, x], markers) by {
        assert [marker, x][2..] == [];
      }
      AlternatingAppend(Pairs(marker, init), [marker, x], markers);
      ContentsAppend(Pairs(marker, init), [marker, x], markers, side);
      assert Contents([marker, x], side) == (if marker in side then [x] else []) + Contents([], side);
      assert init + [x] == lines;
    }
  }

  /** The commands of a run of pairs with one marker: the bare markers for a `short` marker, else the pairs. */
  lemma {:induction false} PairsCommands(marker: string, lines: seq<string>, markers: set<string>, short: set<string>)
    requires marker in markers
    ensures AsCommands(Pairs(marker, lines), short) == if marker in short then Repeat(marker, |lines|) else Pairs(marker, lines)
  {
    if lines != [] {
      var init := lines[..|lines| - 1];
      var x := lines[|lines| - 1];
      PairsCommands(marker, init, markers, short);
      PairsRead(marker, init, markers, short);
      AsCommandsAppend(Pairs(marker, init), [marker, x], markers, short);
      assert AsCommands([marker, x], short) == (if marker in short then [marker] else [marker, x]) + AsCommands([], short);
      assert init + [x] == lines;
    }
  }

  /** All four readings of a run of pairs with one marker of the token stream. */
  lemma PairsReadAll(marker: string, lines: seq<string>)
    requires marker in COMMAND_MARKERS
    ensures Alternating(Pairs(marker, lines), COMMAND_MARKERS)
    ensures Contents(Pairs(marker, lines), OLD_SIDE) == if marker in OLD_SIDE then lines else []
    ensures Contents(Pairs(marker, lines), NEW_SIDE) == if marker in NEW_SIDE then lines else []
    ensures AsCommands(Pairs(marker, lines), MARKER_ONLY) ==
      if marker in MARKER_ONLY then Repeat(marker, |lines|) else Pairs(marker, lines)
  {
    PairsRead(marker, lines, COMMAND_MARKERS, OLD_SIDE);
    PairsRead(marker, lines, COMMAND_MARKERS, NEW_SIDE);
    PairsCommands(marker, lines, COMMAND_MARKERS, MARKER_ONLY);
  }

  /** The tokens of one delta, read back: both sides of the delta, and its commands. */
  lemma DeltaRead(d: Delta)
    requires DeltaShape(d)
    ensures Alternating(DeltaTokens(d), COMMAND_MARKERS)
    ensures Contents(DeltaTokens(d), OLD_SIDE) == d.source
    ensures Contents(DeltaTokens(d), NEW_SIDE) == d.target
    ensures AsCommands(DeltaTokens(d), MARKER_ONLY) == DeltaCommands(d)
  {
    MarkerSets();
    match d.deltaType {
      case Equal => PairsReadAll(KEEP, d.source);
      case Change =>
        PairsReadAll(REPLACE_OLD, d.source);
        PairsReadAll(REPLACE_NEW, d.target);
        StreamsAppend(Pairs(REPLACE_OLD, d.source), Pairs(REPLACE_NEW, d.target));
      case Insert => PairsReadAll(INSERT, d.target);
      case Delete => PairsReadAll(DELETE, d.source);
    }
  }

  /** The token stream alternates marker and content, and the command stream is read off it. */
  lemma {:induction false} CodeTokensShape(ds: seq<Delta>)
    requires forall i :: 0 <= i < |ds| ==> DeltaShape(ds[i])
    ensures Alternating(CodeTokens(ds), COMMAND_MARKERS)
    ensures AsCommands(CodeTokens(ds), MARKER_ONLY) == CodeCommands(ds)
  {
    if ds != [] {
      var init := ds[..|ds| - 1];
      var d := ds[|ds| - 1];
      DeltaRead(d);
      CodeTokensShape(init);
      StreamsAppend(CodeTokens(init), DeltaTokens(d));
    }
  }

  /** The old-side contents of the token stream are the source lines, its new-side contents the target lines. */
  lemma {:induction false} CodeTokensSides(ds: seq<Delta>)
    requires forall i :: 0 <= i < |ds| ==> DeltaShape(ds[i])
    ensures Contents(CodeTokens(ds), OLD_SIDE) == Sources(ds)
    ensures Contents(CodeTokens(ds), NEW_SIDE) == Targets(ds)
  {
    if ds != [] {
      var init := ds[..|ds| - 1];
      CodeTokensSides(init);
      CodeTokensShape(init);
      var d := ds[|ds| - 1];
      DeltaRead(d);
      ContentsAppend(CodeTokens(init), DeltaTokens(d), COMMAND_MARKERS, OLD_SIDE);
      ContentsAppend(CodeTokens(init), DeltaTokens(d), COMMAND_MARKERS, NEW_SIDE);
    }
  }

  /**
   * The token stream alternates marker and content; its old-side contents are
   * the source lines and its new-side contents the target lines of the deltas;
   * and the command stream is the token stream with the contents of unchanged
   * and replaced old pairs dropped.
   */
  lemma CodeTokensRead(ds: seq<Delta>)
    requires forall i :: 0 <= i < |ds| ==> DeltaShape(ds[i])
    ensures Alternating(CodeTokens(ds), COMMAND_MARKERS)
    ensures Contents(CodeTokens(ds), OLD_SIDE) == Sources(ds)
    ensures Contents(CodeTokens(ds), NEW_SIDE) == Targets(ds)
    ensures AsCommands(CodeTokens(ds), MARKER_ONLY) == CodeCommands(ds)
  {
    CodeTokensShape(ds);
    CodeTokensSides(ds);
  }

  /** For a well-formed diff, the token stream holds the old tokens and the new tokens, each in order. */
  lemma CodeDiffsRecoverTokens(deltas: seq<Delta>, oldTokens: seq<string>, newTokens: seq<string>)
    requires WellFormed(deltas, oldTokens, newTokens)
    ensures Alternating(CodeTokens(deltas), COMMAND_MARKERS) && |CodeTokens(deltas)| % 2 == 0
    ensures Contents(CodeTokens(deltas), OLD_SIDE) == oldTokens
    ensures Contents(CodeTokens(deltas), NEW_SIDE) == newTokens
  {
    CodeTokensRead(deltas);
    AlternatingEven(CodeTokens(deltas), COMMAND_MARKERS);
  }

  // ----- the changed-command count -----

  /** `commands.count { it != KEEP }`. */
  function NotKeepCount(commands: seq<string>): (r: nat)
    ensures r <= |commands|
  {
    if commands == [] then 0 else (if commands[0] != KEEP then 1 else 0) + NotKeepCount(commands[1..])
  }

  lemma {:induction false} NotKeepCountAppend(a: seq<string>, b: seq<string>)
    ensures NotKeepCount(a + b) == NotKeepCount(a) + NotKeepCount(b)
  {
    if a == [] {
      assert a + b == b;
    } else {
      assert (a + b)[1..] == a[1..] + b;
      NotKeepCountAppend(a[1..], b);
    }
  }

  /** KEEP commands are not counted; every command that is not KEEP is. */
  lemma {:induction false} RepeatCount(marker: string, n: nat)
    ensures NotKeepCount(Repeat(marker, n)) == if marker == KEEP then 0 else n
  {
    if n > 0 {
      RepeatCount(marker, n - 1);
      NotKeepCountAppend(Repeat(marker, n - 1), [marker]);
      assert NotKeepCount([marker]) == (if marker != KEEP then 1 else 0) + NotKeepCount([]);
    }
  }

  /** Each pair behind a marker other than KEEP counts at least once. */
  lemma {:induction false} PairsCount(marker: string, lines: seq<string>)
    requires marker != KEEP
    ensures NotKeepCount(Pairs(marker, lines)) >= |lines|
  {
    if lines != [] {
      var init := lines[..|lines| - 1];
      var x := lines[|lines| - 1];
      PairsCount(marker, init);
      NotKeepCountAppend(Pairs(marker, init), [marker, x]);
      assert [marker, x][1..] == [x];
    }
  }

  /** Only an Equal delta gives no command other than KEEP. */
  lemma DeltaChanged(d: Delta)
    requires DeltaShape(d)
    ensures NotKeepCount(DeltaCommands(d)) == 0 <==> d.deltaType == Equal
  {
    CommandMarkersDistinct();
    match d.deltaType {
      case Equal => RepeatCount(KEEP, |d.source|);
      case Change =>
        NotKeepCountAppend(Repeat(REPLACE_OLD, |d.source|), Pairs(REPLACE_NEW, d.target));
        RepeatCount(REPLACE_OLD, |d.source|);
      case Insert => PairsCount(INSERT, d.target);
      case Delete => PairsCount(DELETE, d.source);
    }
  }

  /** The command stream holds only KEEP exactly when every delta is an Equal delta. */
  lemma {:induction false} NoChangedCommands(ds: seq<Delta>)
    requires forall i :: 0 <= i < |ds| ==> DeltaShape(ds[i])
    ensures NotKeepCount(CodeCommands(ds)) == 0 <==> AllEqual(ds)
  {
    if ds != [] {
      var init := ds[..|ds| - 1];
      var d := ds[|ds| - 1];
      DeltaChanged(d);
      NoChangedCommands(init);
      NotKeepCountAppend(CodeCommands(init), DeltaCommands(d));
      assert AllEqual(ds) <==> AllEqual(init) && d.deltaType == Equal by {
        assert forall i :: 0 <= i < |init| ==> init[i] == ds[i];
      }
    }
  }

  lemma {:induction false} AllEqualSameSides(ds: seq<Delta>)
    requires forall i :: 0 <= i < |ds| ==> DeltaShape(ds[i])
    requires AllEqual(ds)
    ensures Sources(ds) == Targets(ds)
  {
    if ds != [] {
      var init := ds[..|ds| - 1];
      assert ds[|ds| - 1].deltaType == Equal;
      assert forall i :: 0 <= i < |init| ==> init[i] == ds[i];
      AllEqualSameSides(init);
    }
  }

  /** Under the diff library's contract, the code diff reports a change exactly when the token lists differ. */
  lemma CodeUnchangedIffEqual(diff: (seq<string>, seq<string>) -> seq<Delta>, oldTokens: seq<string>, newTokens: seq<string>)
    requires DiffContract(diff)
    ensures NotKeepCount(CodeCommands(diff(oldTokens, newTokens))) == 0 <==> oldTokens == newTokens
  {
    var deltas := diff(oldTokens, newTokens);
    assert WellFormed(deltas, oldTokens, newTokens);
    NoChangedCommands(deltas);
    if AllEqual(deltas) {
      AllEqualSameSides(deltas);
    }
    if oldTokens == newTokens {
      assert AllEqual(diff(oldTokens, oldTokens));
    }
  }
}
