/**
 * The comment side of the diff engine (CodeCommentDiffs): the coarse edit list
 * built from the line diff, and `computeMinimalCommentDiffs`, which makes every
 * edit uniquely locatable in the old comment by borrowing context tokens from
 * the neighbouring KEEP regions, and falls back to one full replacement when it
 * cannot.
 *
 * The functional specification (`Process`, `MinimalCommentDiffs`) walks the
 * coarse nodes by index; the methods work, as the source does, on a doubly
 * linked list of `EditNode` objects whose children are mutated and whose links
 * are re-spliced.
 */
module CommentDiffs {
  import opened Wrappers
  import opened Text
  import opened DiffMarkers
  import opened DiffPositions
  import opened Deltas

  // ----- values -----

  /** The value of an edit node: its type marker (KEEP, REPLACE, INSERT or DELETE) and its tokens. */
  datatype Node = Node(editType: string, children: seq<string>)

  /** The edit node made for one delta. */
  function CoarseNode(d: Delta): (n: Node)
    ensures d.deltaType == Equal ==> n == Node(KEEP, d.source)
    ensures d.deltaType == Change ==> n == Node(REPLACE, d.source + [REPLACE_NEW] + d.target)
    ensures d.deltaType == Insert ==> n == Node(INSERT, d.target)
    ensures d.deltaType == Delete ==> n == Node(DELETE, d.source)
  {
    match d.deltaType
    case Equal => Node(KEEP, d.source)
    case Change => Node(REPLACE, d.source + [REPLACE_NEW] + d.target)
    case Insert => Node(INSERT, d.target)
    case Delete => Node(DELETE, d.source)
  }

  function CoarseNodes(deltas: seq<Delta>): (r: seq<Node>)
    ensures |r| == |deltas|
    ensures forall i :: 0 <= i < |deltas| ==> r[i] == CoarseNode(deltas[i])
    ensures CoarseShaped(r)
  {
    seq(|deltas|, i requires 0 <= i < |deltas| => CoarseNode(deltas[i]))
  }

  predicate IsNodeType(t: string) {
    t == KEEP || t == REPLACE || t == INSERT || t == DELETE
  }

  /** What every coarse node list satisfies: the four node types, and a REPLACE_NEW separator in each REPLACE node. */
  predicate CoarseShaped(nodes: seq<Node>) {
    forall j :: 0 <= j < |nodes| ==>
      IsNodeType(nodes[j].editType) && (nodes[j].editType == REPLACE ==> REPLACE_NEW in nodes[j].children)
  }

  function ChildrenOf(nodes: seq<Node>): (r: seq<seq<string>>)
    ensures |r| == |nodes|
    ensures forall j :: 0 <= j < |nodes| ==> r[j] == nodes[j].children
  {
    seq(|nodes|, j requires 0 <= j < |nodes| => nodes[j].children)
  }

  /** `indexOf`: the first position of `x`. */
  function IndexOf(s: seq<string>, x: string): (r: nat)
    requires x in s
    ensures r < |s| && s[r] == x && x !in s[..r]
  {
    if s[0] == x then 0
    else
      assert x in s[1..] by { var j :| 0 <= j < |s| && s[j] == x; assert s[1..][j - 1] == x; }
      var r := IndexOf(s[1..], x) + 1;
      assert s[..r] == [s[0]] + s[1..][..r - 1];
      r
  }

  /** The old-side tokens of a REPLACE node: everything before its first REPLACE_NEW. */
  function RepOld(c: seq<string>): (r: seq<string>)
    requires REPLACE_NEW in c
    ensures REPLACE_NEW !in r && c == r + RepNew(c) && RepNew(c)[0] == REPLACE_NEW
  {
    c[..IndexOf(c, REPLACE_NEW)]
  }

  /** The new side of a REPLACE node, starting with the REPLACE_NEW separator itself. */
  function RepNew(c: seq<string>): seq<string>
    requires REPLACE_NEW in c
  {
    c[IndexOf(c, REPLACE_NEW)..]
  }

  function TakeLast(p: seq<string>, k: nat): seq<string>
    requires k <= |p|
  {
    p[|p| - k..]
  }

  function DropLast(p: seq<string>, k: nat): seq<string>
    requires k <= |p|
  {
    p[..|p| - k]
  }

  /** The uniqueness test `getFrequency(tokens.joinToString(" "), oldText) == 1`. */
  predicate Unique(tokens: seq<string>, oldText: string) {
    GetFrequency(Join(tokens, ' '), oldText) == 1
  }

  /** The tokens whose uniqueness is tested for an edit node before any context is borrowed. */
  function SearchCore(n: Node): seq<string>
    requires n.editType == REPLACE ==> REPLACE_NEW in n.children
  {
    if n.editType == REPLACE then RepOld(n.children)
    else if n.editType == INSERT then []
    else n.children
  }

  /**
   * Borrowing from the end of the previous KEEP region: the least `m` in `k..|p|`
   * such that the last `m` tokens of `p` followed by `core` are unique, or None.
   */
  function AdoptBefore(p: seq<string>, core: seq<string>, oldText: string, k: nat): (r: Option<nat>)
    requires 1 <= k
    ensures r.Some? ==> k <= r.value <= |p|
    decreases |p| + 1 - k
  {
    if k > |p| then None
    else if Unique(TakeLast(p, k) + core, oldText) then Some(k)
    else AdoptBefore(p, core, oldText, k + 1)
  }

  /** `AdoptBefore` finds the least unique count from `k` on, and None exactly when no count is unique. */
  lemma {:induction false} AdoptBeforeLeast(p: seq<string>, core: seq<string>, oldText: string, k: nat)
    requires 1 <= k
    ensures var r := AdoptBefore(p, core, oldText, k);
      r.Some? ==> Unique(TakeLast(p, r.value) + core, oldText)
    ensures var r := AdoptBefore(p, core, oldText, k);
      forall m :: k <= m <= |p| && (r.None? || m < r.value) ==> !Unique(TakeLast(p, m) + core, oldText)
    decreases |p| + 1 - k
  {
    if k <= |p| && !Unique(TakeLast(p, k) + core, oldText) {
      AdoptBeforeLeast(p, core, oldText, k + 1);
    }
  }

  /**
   * Borrowing from the front of the next KEEP region: the least `m` in `k..|q|`
   * such that `core` followed by the first `m` tokens of `q` is unique, or None.
   */
  function AdoptAfter(q: seq<string>, core: seq<string>, oldText: string, k: nat): (r: Option<nat>)
    requires 1 <= k
    ensures r.Some? ==> k <= r.value <= |q|
    decreases |q| + 1 - k
  {
    if k > |q| then None
    else if Unique(core + q[..k], oldText) then Some(k)
    else AdoptAfter(q, core, oldText, k + 1)
  }

  /** `AdoptAfter` finds the least unique count from `k` on, and None exactly when no count is unique. */
  lemma {:induction false} AdoptAfterLeast(q: seq<string>, core: seq<string>, oldText: string, k: nat)
    requires 1 <= k
    ensures var r := AdoptAfter(q, core, oldText, k);
      r.Some? ==> Unique(core + q[..r.value], oldText)
    ensures var r := AdoptAfter(q, core, oldText, k);
      forall m :: k <= m <= |q| && (r.None? || m < r.value) ==> !Unique(core + q[..m], oldText)
    decreases |q| + 1 - k
  {
    if k <= |q| && !Unique(core + q[..k], oldText) {
      AdoptAfterLeast(q, core, oldText, k + 1);
    }
  }

  /** A DELETE or REPLACE node that is unique on its own, with its opening marker prepended. */
  function DirectNode(n: Node): Node {
    if n.editType == DELETE then Node(DELETE, [DELETE] + n.children)
    else Node(REPLACE, [REPLACE_OLD] + n.children)
  }

  /** The node that replaces `n` once `adopted` was borrowed from the end of the previous KEEP region. */
  function BeforeNode(n: Node, adopted: seq<string>): Node
    requires n.editType == REPLACE ==> REPLACE_NEW in n.children
  {
    var c := n.children;
    if n.editType == DELETE then
      Node(REPLACE, [REPLACE_OLD_DELETE_KEEP_BEFORE] + adopted + c + [REPLACE_NEW_DELETE_KEEP_BEFORE] + adopted)
    else if n.editType == REPLACE then
      Node(REPLACE, [REPLACE_OLD_KEEP_BEFORE] + adopted + RepOld(c) + [REPLACE_NEW_KEEP_BEFORE] + adopted + RepNew(c))
    else
      Node(INSERT, [INSERT_OLD_KEEP_BEFORE] + adopted + [INSERT_NEW_KEEP_BEFORE] + adopted + c)
  }

  /** The node that replaces `n` once `adopted` was borrowed from the front of the next KEEP region. */
  function AfterNode(n: Node, adopted: seq<string>): Node
    requires n.editType == REPLACE ==> REPLACE_NEW in n.children
  {
    var c := n.children;
    if n.editType == DELETE then
      Node(REPLACE, [REPLACE_OLD_DELETE_KEEP_AFTER] + c + adopted + [REPLACE_NEW_DELETE_KEEP_AFTER] + adopted)
    else if n.editType == REPLACE then
      Node(REPLACE, [REPLACE_OLD_KEEP_AFTER] + RepOld(c) + adopted + [REPLACE_NEW_KEEP_AFTER] + RepNew(c) + adopted)
    else
      Node(INSERT, [INSERT_OLD_KEEP_AFTER] + adopted + [INSERT_NEW_KEEP_AFTER] + c + adopted)
  }

  // ----- the specification of computeMinimalCommentDiffs -----

  /** The outcome of handling one node: give up (full replacement), or the new KEEP children and the node appended to the result list. */
  datatype Step = Abort | Continue(kids: seq<seq<string>>, emitted: Node)

  /**
   * Handling of coarse node `i`. `nodes` are the coarse nodes; `kids` are the
   * current children of every node, of which only the KEEP entries ever change.
   * The three edit types share one body: the direct test (not for INSERT), then
   * borrowing from the previous KEEP node, then from the next KEEP node.
   */
  function ProcessNode(nodes: seq<Node>, kids: seq<seq<string>>, i: nat, oldText: string): Step
    requires CoarseShaped(nodes) && |kids| == |nodes| && i < |nodes|
  {
    var n := nodes[i];
    if n.editType == KEEP then Continue(kids, Node(KEEP, kids[i]))
    else
      var core := SearchCore(n);
      if n.editType != INSERT && Unique(core, oldText) then Continue(kids, DirectNode(n))
      else
        var before := BorrowBefore(nodes, kids, i, core, oldText);
        if before.Some? then
          var p := kids[i - 1];
          Continue(kids[i - 1 := DropLast(p, before.value)], BeforeNode(n, TakeLast(p, before.value)))
        else
          var after := BorrowAfter(nodes, kids, i, core, oldText);
          if after.Some? then
            var q := kids[i + 1];
            Continue(kids[i + 1 := q[after.value..]], AfterNode(n, q[..after.value]))
          else Abort
  }

  /** The number of tokens node `i` borrows from a KEEP node just before it, if it can. */
  function BorrowBefore(nodes: seq<Node>, kids: seq<seq<string>>, i: nat, core: seq<string>, oldText: string): (r: Option<nat>)
    requires |kids| == |nodes| && i < |nodes|
    ensures r.Some? ==> i > 0 && nodes[i - 1].editType == KEEP && 1 <= r.value <= |kids[i - 1]|
  {
    if i > 0 && nodes[i - 1].editType == KEEP then AdoptBefore(kids[i - 1], core, oldText, 1) else None
  }

  /** The number of tokens node `i` borrows from a KEEP node just after it, if it can. */
  function BorrowAfter(nodes: seq<Node>, kids: seq<seq<string>>, i: nat, core: seq<string>, oldText: string): (r: Option<nat>)
    requires |kids| == |nodes| && i < |nodes|
    ensures r.Some? ==> i + 1 < |nodes| && nodes[i + 1].editType == KEEP && 1 <= r.value <= |kids[i + 1]|
  {
    if i + 1 < |nodes| && nodes[i + 1].editType == KEEP then AdoptAfter(kids[i + 1], core, oldText, 1) else None
  }

  /** Handles nodes `i..` in order after `out` was produced for the earlier ones; None once a node aborts. */
  function Process(nodes: seq<Node>, kids: seq<seq<string>>, i: nat, oldText: string, out: seq<Node>): Option<seq<Node>>
    requires CoarseShaped(nodes) && |kids| == |nodes| && i <= |nodes|
    decreases |nodes| - i
  {
    if i == |nodes| then Some(out)
    else
      match ProcessNode(nodes, kids, i, oldText)
      case Abort => None
      case Continue(kids', emitted) => Process(nodes, kids', i + 1, oldText, out + [emitted])
  }

  /** The span of one node of the result list, closed by the end marker its type names; KEEP nodes give nothing. */
  function Emit(n: Node): seq<string> {
    if Contains(n.editType, "INSERT") then n.children + [INSERT_END]
    else if Contains(n.editType, "REPLACE") then n.children + [REPLACE_END]
    else if Contains(n.editType, "DELETE") then n.children + [DELETE_END]
    else []
  }

  function EmitAll(out: seq<Node>): seq<string> {
    if out == [] then [] else EmitAll(out[..|out| - 1]) + Emit(out[|out| - 1])
  }

  /** `getFullReplaceSpan`: the whole old text replaced by the whole new text. */
  function FullReplaceSpan(oldTokens: seq<string>, newTokens: seq<string>): (r: seq<string>)
    ensures |r| == |oldTokens| + |newTokens| + 3
    ensures r[0] == REPLACE_OLD && r[1..|oldTokens| + 1] == oldTokens
    ensures r[|oldTokens| + 1] == REPLACE_NEW && r[|oldTokens| + 2..|r| - 1] == newTokens
    ensures r[|r| - 1] == REPLACE_END
  {
    [REPLACE_OLD] + oldTokens + [REPLACE_NEW] + newTokens + [REPLACE_END]
  }

  /** The specification of `computeMinimalCommentDiffs`. */
  function MinimalCommentDiffs(diff: (seq<string>, seq<string>) -> seq<Delta>, oldTokens: seq<string>, newTokens: seq<string>): seq<string> {
    var nodes := CoarseNodes(diff(oldTokens, newTokens));
    match Process(nodes, ChildrenOf(nodes), 0, Join(oldTokens, ' '), [])
    case None => FullReplaceSpan(oldTokens, newTokens)
    case Some(out) => EmitAll(out)
  }

  // ----- properties of the specification -----

  /**
   * How an edit node `e` of the result stands for coarse node `n`: a KEEP node
   * stays a KEEP node; an edit is either unique on its own (never an INSERT) or
   * made unique by a non-empty run of context borrowed from one side.
   */
  ghost predicate AnchoredAs(n: Node, e: Node, oldText: string)
    requires n.editType == REPLACE ==> REPLACE_NEW in n.children
  {
    if n.editType == KEEP then e.editType == KEEP
    else
      || (n.editType != INSERT && Unique(SearchCore(n), oldText) && e == DirectNode(n))
      || (exists a {:trigger BeforeNode(n, a)} :: a != [] && e == BeforeNode(n, a) && Unique(a + SearchCore(n), oldText))
      || (exists a {:trigger AfterNode(n, a)} :: a != [] && e == AfterNode(n, a) && Unique(SearchCore(n) + a, oldText))
  }

  lemma ProcessNodeAnchored(nodes: seq<Node>, kids: seq<seq<string>>, i: nat, oldText: string)
    requires CoarseShaped(nodes) && |kids| == |nodes| && i < |nodes|
    requires ProcessNode(nodes, kids, i, oldText).Continue?
    ensures AnchoredAs(nodes[i], ProcessNode(nodes, kids, i, oldText).emitted, oldText)
    ensures |ProcessNode(nodes, kids, i, oldText).kids| == |kids|
  {
    var n := nodes[i];
    if n.editType != KEEP {
      var core := SearchCore(n);
      if !(n.editType != INSERT && Unique(core, oldText)) {
        var before := BorrowBefore(nodes, kids, i, core, oldText);
        if before.Some? {
          AdoptBeforeLeast(kids[i - 1], core, oldText, 1);
          var a := TakeLast(kids[i - 1], before.value);
          assert BeforeNode(n, a) == ProcessNode(nodes, kids, i, oldText).emitted;
        } else {
          var after := BorrowAfter(nodes, kids, i, core, oldText);
          AdoptAfterLeast(kids[i + 1], core, oldText, 1);
          var a := kids[i + 1][..after.value];
          assert AfterNode(n, a) == ProcessNode(nodes, kids, i, oldText).emitted;
        }
      }
    }
  }

  /** Every coarse node from `i` on is anchored, as `AnchoredAs` says, by the result node at its own position. */
  ghost predicate AnchoredFrom(nodes: seq<Node>, result: seq<Node>, i: nat, oldText: string)
    requires CoarseShaped(nodes) && |result| == |nodes|
    decreases |nodes| - i
  {
    i < |nodes| ==> AnchoredAs(nodes[i], result[i], oldText) && AnchoredFrom(nodes, result, i + 1, oldText)
  }

  /** `AnchoredFrom` anchors each node from `i` on. */
  lemma {:induction false} AnchoredFromEach(nodes: seq<Node>, result: seq<Node>, i: nat, oldText: string)
    requires CoarseShaped(nodes) && |result| == |nodes| && AnchoredFrom(nodes, result, i, oldText)
    ensures forall k {:trigger result[k]} :: i <= k < |nodes| ==> AnchoredAs(nodes[k], result[k], oldText)
    decreases |nodes| - i
  {
    if i < |nodes| {
      AnchoredFromEach(nodes, result, i + 1, oldText);
      forall k {:trigger result[k]} | i <= k < |nodes| ensures AnchoredAs(nodes[k], result[k], oldText) {
        if k == i {
          assert AnchoredAs(nodes[i], result[i], oldText);
        }
      }
    }
  }

  /**
   * A walk that does not abort yields one result node per coarse node, each
   * anchored as `AnchoredAs` says. The walk has emitted one node per node
   * visited, so the node at `k` lands at position `k`.
   */
  lemma {:induction false} ProcessAnchored(nodes: seq<Node>, kids: seq<seq<string>>, i: nat, oldText: string,
                                           out: seq<Node>, result: seq<Node>)
    requires CoarseShaped(nodes) && |kids| == |nodes| && i <= |nodes| && |out| == i
    requires Process(nodes, kids, i, oldText, out) == Some(result)
    ensures |result| == |nodes| && result[..i] == out
    ensures AnchoredFrom(nodes, result, i, oldText)
    decreases |nodes| - i
  {
    if i < |nodes| {
      var step := ProcessNode(nodes, kids, i, oldText);
      ProcessNodeAnchored(nodes, kids, i, oldText);
      var out' := out + [step.emitted];
      ProcessAnchored(nodes, step.kids, i + 1, oldText, out', result);
      assert result[..i] == out by {
        assert result[..i] == result[..i + 1][..i];
      }
      assert result[i] == step.emitted by {
        assert result[i] == result[..i + 1][i] == out'[i];
      }
    }
  }

  /**
   * The result of `computeMinimalCommentDiffs` is the full replacement when the
   * walk aborts, and otherwise the spans of one anchored node per coarse node.
   */
  lemma MinimalCommentDiffsCases(diff: (seq<string>, seq<string>) -> seq<Delta>, oldTokens: seq<string>, newTokens: seq<string>)
    ensures var nodes := CoarseNodes(diff(oldTokens, newTokens));
      var r := Process(nodes, ChildrenOf(nodes), 0, Join(oldTokens, ' '), []);
      && (r.None? ==> MinimalCommentDiffs(diff, oldTokens, newTokens) == FullReplaceSpan(oldTokens, newTokens))
      && (r.Some? ==>
            && MinimalCommentDiffs(diff, oldTokens, newTokens) == EmitAll(r.value)
            && |r.value| == |nodes|
            && forall k :: 0 <= k < |nodes| ==> AnchoredAs(nodes[k], r.value[k], Join(oldTokens, ' ')))
  {
    var nodes := CoarseNodes(diff(oldTokens, newTokens));
    var r := Process(nodes, ChildrenOf(nodes), 0, Join(oldTokens, ' '), []);
    if r.Some? {
      var out: seq<Node> := [];
      ProcessAnchored(nodes, ChildrenOf(nodes), 0, Join(oldTokens, ' '), out, r.value);
      AnchoredFromEach(nodes, r.value, 0, Join(oldTokens, ' '));
    }
  }

  /** A DELETE or REPLACE node whose search tokens are unique is emitted at once, opened by DELETE or REPLACE_OLD. */
  lemma DirectWhenUnique(nodes: seq<Node>, kids: seq<seq<string>>, i: nat, oldText: string)
    requires CoarseShaped(nodes) && |kids| == |nodes| && i < |nodes|
    requires nodes[i].editType == DELETE || nodes[i].editType == REPLACE
    requires Unique(SearchCore(nodes[i]), oldText)
    ensures ProcessNode(nodes, kids, i, oldText) == Continue(kids, DirectNode(nodes[i]))
    ensures nodes[i].editType == DELETE ==> Emit(DirectNode(nodes[i])) == [DELETE] + nodes[i].children + [DELETE_END]
    ensures nodes[i].editType == REPLACE ==> Emit(DirectNode(nodes[i])) == [REPLACE_OLD] + nodes[i].children + [REPLACE_END]
  {
    EmitByType(DirectNode(nodes[i]));
  }

  /** An INSERT node is never emitted on its own: it borrows a non-empty context from a KEEP neighbour, or the walk aborts. */
  lemma InsertNeedsContext(nodes: seq<Node>, kids: seq<seq<string>>, i: nat, oldText: string)
    requires CoarseShaped(nodes) && |kids| == |nodes| && i < |nodes|
    requires nodes[i].editType == INSERT
    ensures var step := ProcessNode(nodes, kids, i, oldText);
      step.Continue? ==>
        exists a :: a != [] && (step.emitted == BeforeNode(nodes[i], a) || step.emitted == AfterNode(nodes[i], a))
  {
    var core := SearchCore(nodes[i]);
    var before := BorrowBefore(nodes, kids, i, core, oldText);
    if before.Some? {
      var a := TakeLast(kids[i - 1], before.value);
      assert ProcessNode(nodes, kids, i, oldText).emitted == BeforeNode(nodes[i], a);
    } else {
      var after := BorrowAfter(nodes, kids, i, core, oldText);
      if after.Some? {
        var a := kids[i + 1][..after.value];
        assert ProcessNode(nodes, kids, i, oldText).emitted == AfterNode(nodes[i], a);
      }
    }
  }

  /** Borrowing the last `m` tokens of the previous KEEP node, `m` the least that makes the search unique. */
  lemma BorrowsBefore(nodes: seq<Node>, kids: seq<seq<string>>, i: nat, oldText: string, m: nat)
    requires CoarseShaped(nodes) && |kids| == |nodes| && 0 < i < |nodes|
    requires nodes[i].editType != KEEP && nodes[i - 1].editType == KEEP
    requires nodes[i].editType == INSERT || !Unique(SearchCore(nodes[i]), oldText)
    requires AdoptBefore(kids[i - 1], SearchCore(nodes[i]), oldText, 1) == Some(m)
    ensures ProcessNode(nodes, kids, i, oldText) ==
      Continue(kids[i - 1 := DropLast(kids[i - 1], m)], BeforeNode(nodes[i], TakeLast(kids[i - 1], m)))
  {
  }

  /** Borrowing the first `m` tokens of the next KEEP node, when borrowing from before is not possible. */
  lemma BorrowsAfter(nodes: seq<Node>, kids: seq<seq<string>>, i: nat, oldText: string, m: nat)
    requires CoarseShaped(nodes) && |kids| == |nodes| && i + 1 < |nodes|
    requires nodes[i].editType != KEEP && nodes[i + 1].editType == KEEP
    requires nodes[i].editType == INSERT || !Unique(SearchCore(nodes[i]), oldText)
    requires BorrowBefore(nodes, kids, i, SearchCore(nodes[i]), oldText).None?
    requires AdoptAfter(kids[i + 1], SearchCore(nodes[i]), oldText, 1) == Some(m)
    ensures ProcessNode(nodes, kids, i, oldText) ==
      Continue(kids[i + 1 := kids[i + 1][m..]], AfterNode(nodes[i], kids[i + 1][..m]))
  {
  }

  /** The walk from node `i` continues with the state that handling node `i` leaves. */
  lemma ProcessStep(nodes: seq<Node>, kids: seq<seq<string>>, i: nat, oldText: string, out: seq<Node>,
                    kids': seq<seq<string>>, e: Node)
    requires CoarseShaped(nodes) && |kids| == |nodes| && i < |nodes|
    requires ProcessNode(nodes, kids, i, oldText) == Continue(kids', e)
    ensures |kids'| == |kids|
    ensures Process(nodes, kids, i, oldText, out) == Process(nodes, kids', i + 1, oldText, out + [e])
  {
    ProcessNodeAnchored(nodes, kids, i, oldText);
  }

  /** A walk over KEEP nodes only never aborts and emits KEEP nodes only. */
  lemma {:induction false} ProcessAllKeep(nodes: seq<Node>, kids: seq<seq<string>>, i: nat, oldText: string, out: seq<Node>)
    requires CoarseShaped(nodes) && |kids| == |nodes| && i <= |nodes|
    requires forall j :: 0 <= j < |nodes| ==> nodes[j].editType == KEEP
    requires forall k :: 0 <= k < |out| ==> out[k].editType == KEEP
    ensures Process(nodes, kids, i, oldText, out).Some?
    ensures forall k :: 0 <= k < |Process(nodes, kids, i, oldText, out).value| ==>
      Process(nodes, kids, i, oldText, out).value[k].editType == KEEP
    decreases |nodes| - i
  {
    if i < |nodes| {
      ProcessAllKeep(nodes, kids, i + 1, oldText, out + [Node(KEEP, kids[i])]);
    }
  }

  lemma {:induction false} EmitAllKeep(out: seq<Node>)
    requires forall k :: 0 <= k < |out| ==> out[k].editType == KEEP
    ensures EmitAll(out) == []
  {
    if out != [] {
      EmitByType(out[|out| - 1]);
      EmitAllKeep(out[..|out| - 1]);
    }
  }

  /** Equal token lists give no spans at all, the empty list included: KEEP nodes are never emitted. */
  lemma EqualTokensNoDiff(diff: (seq<string>, seq<string>) -> seq<Delta>, tokens: seq<string>)
    requires DiffContract(diff)
    ensures MinimalCommentDiffs(diff, tokens, tokens) == []
  {
    var deltas := diff(tokens, tokens);
    assert AllEqual(deltas);
    var nodes := CoarseNodes(deltas);
    ProcessAllKeep(nodes, ChildrenOf(nodes), 0, Join(tokens, ' '), []);
    EmitAllKeep(Process(nodes, ChildrenOf(nodes), 0, Join(tokens, ' '), []).value);
  }

  // ----- the linked structure -----

  /** `EditNode`: a node of the doubly linked edit list; its children and links are updated in place. */
  class EditNode {
    const editType: string
    var children: seq<string>
    var prev: EditNode?
    var next: EditNode?

    constructor (editType: string, children: seq<string>, prev: EditNode?, next: EditNode?)
      ensures this.editType == editType && this.children == children
      ensures this.prev == prev && this.next == next
    {
      this.editType := editType;
      this.children := children;
      this.prev := prev;
      this.next := next;
    }
  }

  /** The link structure of a fresh coarse list: node `i` points to `i - 1` and `i + 1` where they exist. */
  ghost predicate Linked(nodes: seq<EditNode>)
    reads set j | 0 <= j < |nodes| :: nodes[j]
  {
    forall j :: 0 <= j < |nodes| ==> LinkedAt(nodes, j)
  }

  ghost predicate LinkedAt(nodes: seq<EditNode>, j: nat)
    requires j < |nodes|
    reads nodes[j]
  {
    && nodes[j].next == (if j + 1 < |nodes| then nodes[j + 1] else null)
    && nodes[j].prev == (if j > 0 then nodes[j - 1] else null)
  }

  ghost predicate Distinct(nodes: seq<EditNode>) {
    forall j, k :: 0 <= j < k < |nodes| ==> nodes[j] != nodes[k]
  }

  /**
   * `getCoarseDiffStructure`: one new node per delta, in order, and, when there
   * are at least two, each linked to its neighbours.
   */
  method GetCoarseDiffStructure(diff: (seq<string>, seq<string>) -> seq<Delta>, oldTokens: seq<string>, newTokens: seq<string>)
    returns (nodes: seq<EditNode>)
    ensures |nodes| == |diff(oldTokens, newTokens)|
    ensures forall j :: 0 <= j < |nodes| ==> fresh(nodes[j])
    ensures Distinct(nodes)
    ensures forall j :: 0 <= j < |nodes| ==>
      Node(nodes[j].editType, nodes[j].children) == CoarseNode(diff(oldTokens, newTokens)[j])
    ensures Linked(nodes)
  {
    var deltas := diff(oldTokens, newTokens);
    nodes := [];
    for i := 0 to |deltas|
      invariant |nodes| == i
      invariant forall j :: 0 <= j < i ==> fresh(nodes[j])
      invariant Distinct(nodes)
      invariant forall j :: 0 <= j < i ==>
        Node(nodes[j].editType, nodes[j].children) == CoarseNode(deltas[j]) && nodes[j].prev == null && nodes[j].next == null
    {
      var n := CoarseNode(deltas[i]);
      var editNode := new EditNode(n.editType, n.children, null, null);
      nodes := nodes + [editNode];
    }
    if |nodes| <= 1 {
      assert |nodes| == 1 ==> LinkedAt(nodes, 0);
      return;
    }
    for i := 0 to |nodes|
      invariant Distinct(nodes)
      invariant forall j :: 0 <= j < |nodes| ==> Node(nodes[j].editType, nodes[j].children) == CoarseNode(deltas[j])
      invariant forall j :: 0 <= j < i ==> LinkedAt(nodes, j)
      invariant forall j :: i <= j < |nodes| ==> nodes[j].prev == null && nodes[j].next == null
    {
      if i != |nodes| - 1 {
        nodes[i].next := nodes[i + 1];
      }
      if i != 0 {
        nodes[i].prev := nodes[i - 1];
      }
      assert LinkedAt(nodes, i);
    }
  }

  /**
   * The borrowing loop towards the previous KEEP node: moves tokens one at a time
   * from the end of `prev` to the front of `adopted` until `adopted + core` is
   * unique or `prev` is empty.
   */
  method AdoptFromPrevious(prev: EditNode, core: seq<string>, oldText: string) returns (found: bool, adopted: seq<string>)
    modifies prev`children
    ensures |adopted| <= |old(prev.children)|
    ensures adopted == TakeLast(old(prev.children), |adopted|)
    ensures prev.children == DropLast(old(prev.children), |adopted|)
    ensures found ==> AdoptBefore(old(prev.children), core, oldText, 1) == Some(|adopted|)
    ensures !found ==> AdoptBefore(old(prev.children), core, oldText, 1) == None && prev.children == []
  {
    ghost var original := prev.children;
    adopted := [];
    found := false;
    while !found && |prev.children| > 0
      invariant |adopted| <= |original|
      invariant adopted == TakeLast(original, |adopted|)
      invariant prev.children == DropLast(original, |adopted|)
      invariant AdoptBefore(original, core, oldText, 1) ==
        if found then Some(|adopted|) else AdoptBefore(original, core, oldText, |adopted| + 1)
      decreases |prev.children|
    {
      ghost var m := |adopted|;
      found, adopted := BorrowLast(prev, core, oldText, adopted);
      TakeLastStep(original, m);
    }
  }

  /** One iteration of the loop of `AdoptFromPrevious`: the last token of `prev` moves to the front of `adopted`. */
  method BorrowLast(prev: EditNode, core: seq<string>, oldText: string, adopted: seq<string>)
    returns (found: bool, adopted': seq<string>)
    requires |prev.children| > 0
    modifies prev`children
    ensures prev.children == old(prev.children)[..|old(prev.children)| - 1]
    ensures adopted' == [old(prev.children)[|old(prev.children)| - 1]] + adopted
    ensures found == Unique(adopted' + core, oldText)
  {
    var last := prev.children[|prev.children| - 1];
    prev.children := prev.children[..|prev.children| - 1];
    adopted' := [last] + adopted;
    found := GetFrequency(Join(adopted' + core, ' '), oldText) == 1;
  }

  /** Taking one more token from the end of `p`. */
  lemma TakeLastStep(p: seq<string>, m: nat)
    requires m < |p|
    ensures var rest := DropLast(p, m);
      && TakeLast(p, m + 1) == [rest[|rest| - 1]] + TakeLast(p, m)
      && DropLast(p, m + 1) == rest[..|rest| - 1]
  {
    var rest := DropLast(p, m);
    assert TakeLast(p, m + 1) == [rest[|rest| - 1]] + TakeLast(p, m);
  }

  /**
   * The borrowing loop towards the next KEEP node: moves tokens one at a time
   * from the front of `next` to the end of `adopted` until `core + adopted` is
   * unique or `next` is empty.
   */
  method AdoptFromNext(next: EditNode, core: seq<string>, oldText: string) returns (found: bool, adopted: seq<string>)
    modifies next`children
    ensures |adopted| <= |old(next.children)|
    ensures adopted == old(next.children)[..|adopted|]
    ensures next.children == old(next.children)[|adopted|..]
    ensures found ==> AdoptAfter(old(next.children), core, oldText, 1) == Some(|adopted|)
    ensures !found ==> AdoptAfter(old(next.children), core, oldText, 1) == None && next.children == []
  {
    ghost var original := next.children;
    adopted := [];
    found := false;
    while !found && |next.children| > 0
      invariant |adopted| <= |original|
      invariant adopted == original[..|adopted|]
      invariant next.children == original[|adopted|..]
      invariant AdoptAfter(original, core, oldText, 1) ==
        if found then Some(|adopted|) else AdoptAfter(original, core, oldText, |adopted| + 1)
      decreases |next.children|
    {
      var first := next.children[0];
      next.children := next.children[1..];
      adopted := adopted + [first];
      assert adopted == original[..|adopted|];
      found := GetFrequency(Join(core + adopted, ' '), oldText) == 1;
    }
  }

  /** The end markers `contains` selects for the four node types. */
  lemma EmitByType(n: Node)
    ensures n.editType == KEEP ==> Emit(n) == []
    ensures n.editType == INSERT ==> Emit(n) == n.children + [INSERT_END]
    ensures n.editType == REPLACE ==> Emit(n) == n.children + [REPLACE_END]
    ensures n.editType == DELETE ==> Emit(n) == n.children + [DELETE_END]
  {
    NotContainsByFirstChar(KEEP, "INSERT");
    NotContainsByFirstChar(KEEP, "REPLACE");
    NotContainsByFirstChar(KEEP, "DELETE");
    NotContainsByFirstChar(REPLACE, "INSERT");
    NotContainsByFirstChar(DELETE, "INSERT");
    NotContainsByFirstChar(DELETE, "REPLACE");
    assert OccursAt(INSERT, "INSERT", 1);
    assert OccursAt(REPLACE, "REPLACE", 1);
    assert OccursAt(DELETE, "DELETE", 1);
  }



  /**
   * What holds of coarse node `j` before node `i` is handled: its type, its
   * current children (`kids` for KEEP nodes, the coarse children for unvisited
   * edit nodes), and the links of unvisited nodes.
   */
  ghost predicate SlotAt(diffNodes: seq<EditNode>, nodes: seq<Node>, kids: seq<seq<string>>, i: nat, j: nat)
    requires |kids| == |nodes| == |diffNodes| && j < |diffNodes|
    reads diffNodes[j]
  {
    && diffNodes[j].editType == nodes[j].editType
    && (nodes[j].editType == KEEP ==> diffNodes[j].children == kids[j])
    && (i <= j && nodes[j].editType != KEEP ==> diffNodes[j].children == nodes[j].children)
    && (i <= j ==> diffNodes[j].next == (if j + 1 < |diffNodes| then diffNodes[j + 1] else null))
    && (i < j ==> diffNodes[j].prev == diffNodes[j - 1])
  }

  /**
   * The predecessor of the node about to be handled: none for the first node,
   * otherwise coarse node `i - 1` when that is a KEEP node and else the node
   * that replaced it.
   */
  ghost predicate FrontAt(diffNodes: seq<EditNode>, nodes: seq<Node>, i: nat, newNodes: seq<EditNode>)
    requires |nodes| == |diffNodes| && i < |diffNodes|
    reads diffNodes[i]
  {
    && (i == 0 ==> diffNodes[0].prev == null)
    && (0 < i ==>
          && diffNodes[i].prev != null
          && diffNodes[i].prev !in diffNodes[i..]
          && (diffNodes[i].prev == diffNodes[i - 1] || diffNodes[i].prev in newNodes)
          && (nodes[i - 1].editType == KEEP ==> diffNodes[i].prev == diffNodes[i - 1])
          && (nodes[i - 1].editType != KEEP ==> diffNodes[i].prev.editType != KEEP))
  }

  /** Result node `k` carries the type of `out[k]`, and its children when it is not a KEEP node. */
  ghost predicate OutAt(newNodes: seq<EditNode>, out: seq<Node>, k: nat)
    requires |newNodes| == |out| && k < |newNodes|
    reads newNodes[k]
  {
    newNodes[k].editType == out[k].editType && (out[k].editType != KEEP ==> newNodes[k].children == out[k].children)
  }

  /** The state of the walk before node `i`, linking the objects to the specification's `kids` and `out`. */
  ghost predicate WalkState(diffNodes: seq<EditNode>, nodes: seq<Node>, kids: seq<seq<string>>, i: nat,
                            newNodes: seq<EditNode>, out: seq<Node>)
    reads set j | 0 <= j < |diffNodes| :: diffNodes[j]
    reads set k | 0 <= k < |newNodes| :: newNodes[k]
  {
    && |kids| == |nodes| == |diffNodes| && i <= |diffNodes|
    && Distinct(diffNodes)
    && (forall j :: 0 <= j < |diffNodes| ==> SlotAt(diffNodes, nodes, kids, i, j))
    && (i < |diffNodes| ==> FrontAt(diffNodes, nodes, i, newNodes))
    && |newNodes| == |out|
    && (forall k :: 0 <= k < |newNodes| ==> OutAt(newNodes, out, k))
    && (forall k :: 0 <= k < |newNodes| ==> newNodes[k] !in diffNodes[i..])
  }

  /** A KEEP node is collected as it is: the walk moves past it without touching the heap. */
  lemma KeepAdvances(diffNodes: seq<EditNode>, nodes: seq<Node>, kids: seq<seq<string>>, i: nat,
                     newNodes: seq<EditNode>, out: seq<Node>)
    requires i < |diffNodes| && WalkState(diffNodes, nodes, kids, i, newNodes, out)
    requires nodes[i].editType == KEEP
    ensures WalkState(diffNodes, nodes, kids, i + 1, newNodes + [diffNodes[i]], out + [Node(KEEP, kids[i])])
  {
    assert SlotAt(diffNodes, nodes, kids, i, i);
    assert i + 1 < |diffNodes| ==> SlotAt(diffNodes, nodes, kids, i, i + 1);
    var newNodes' := newNodes + [diffNodes[i]];
    var out' := out + [Node(KEEP, kids[i])];
    ghost var i' := i + 1;
    forall j | 0 <= j < |diffNodes| ensures SlotAt(diffNodes, nodes, kids, i', j) {
      assert SlotAt(diffNodes, nodes, kids, i, j);
    }
    forall k | 0 <= k < |newNodes'| ensures OutAt(newNodes', out', k) {
      if k < |newNodes| {
        assert OutAt(newNodes, out, k);
      }
    }
    if i + 1 < |diffNodes| {
      assert FrontAt(diffNodes, nodes, i + 1, newNodes');
    }
  }

  /** A DELETE or REPLACE node that is unique on its own gets its opening marker in place. */
  method MarkDirect(diffNodes: seq<EditNode>, ghost nodes: seq<Node>, ghost kids: seq<seq<string>>, i: nat,
                    newNodes: seq<EditNode>, ghost out: seq<Node>)
    returns (newNodes': seq<EditNode>)
    requires i < |diffNodes| && WalkState(diffNodes, nodes, kids, i, newNodes, out)
    requires nodes[i].editType == DELETE || nodes[i].editType == REPLACE
    modifies {diffNodes[i]}`children
    ensures newNodes' == newNodes + [diffNodes[i]]
    ensures WalkState(diffNodes, nodes, kids, i + 1, newNodes', out + [DirectNode(nodes[i])])
  {
    var node := diffNodes[i];
    assert SlotAt(diffNodes, nodes, kids, i, i);
    assert i + 1 < |diffNodes| ==> SlotAt(diffNodes, nodes, kids, i, i + 1);
    if node.editType == DELETE {
      node.children := [DELETE] + node.children;
    } else {
      node.children := [REPLACE_OLD] + node.children;
    }
    newNodes' := newNodes + [node];
    ghost var out' := out + [DirectNode(nodes[i])];
    ghost var i' := i + 1;
    forall j | 0 <= j < |diffNodes| ensures SlotAt(diffNodes, nodes, kids, i', j) {
      assert old(SlotAt(diffNodes, nodes, kids, i, j));
      if j != i {
        assert diffNodes[j] != node;
      }
    }
    forall k | 0 <= k < |newNodes'| ensures OutAt(newNodes', out', k) {
      if k < |newNodes| {
        assert old(OutAt(newNodes, out, k));
        assert newNodes[k] in newNodes[k..];
        assert newNodes[k] != node;
      }
    }
    if i + 1 < |diffNodes| {
      assert FrontAt(diffNodes, nodes, i + 1, newNodes');
    }
  }

  /**
   * A new node `n` takes the place of node `i`: it gets node `i`'s links, and
   * its neighbours are pointed at it.
   */
  method Splice(diffNodes: seq<EditNode>, ghost nodes: seq<Node>, ghost kids: seq<seq<string>>, i: nat,
                newNodes: seq<EditNode>, ghost out: seq<Node>, n: Node)
    returns (newNodes': seq<EditNode>)
    requires i < |diffNodes| && WalkState(diffNodes, nodes, kids, i, newNodes, out)
    requires nodes[i].editType != KEEP && n.editType != KEEP
    modifies {diffNodes[i].prev}`next, {diffNodes[i].next}`prev
    ensures |newNodes'| == |newNodes| + 1 && newNodes'[..|newNodes|] == newNodes && fresh(newNodes'[|newNodes|])
    ensures WalkState(diffNodes, nodes, kids, i + 1, newNodes', out + [n])
  {
    var node := diffNodes[i];
    assert SlotAt(diffNodes, nodes, kids, i, i) && FrontAt(diffNodes, nodes, i, newNodes);
    assert i + 1 < |diffNodes| ==> SlotAt(diffNodes, nodes, kids, i, i + 1);
    var prev := node.prev;
    var next := node.next;
    assert next != null ==> i + 1 < |diffNodes| && next == diffNodes[i + 1];
    var newNode := new EditNode(n.editType, n.children, prev, next);
    if prev != null {
      prev.next := newNode;
    }
    if next != null {
      next.prev := newNode;
    }
    newNodes' := newNodes + [newNode];
    ghost var out' := out + [n];
    ghost var i' := i + 1;
    forall j | 0 <= j < |diffNodes| ensures SlotAt(diffNodes, nodes, kids, i', j) {
      assert old(SlotAt(diffNodes, nodes, kids, i, j));
      if j == i + 1 {
        assert diffNodes[j] == next;
      } else if j > i + 1 {
        assert diffNodes[j] in diffNodes[i..];
        assert diffNodes[j] != next && diffNodes[j] != prev;
      }
    }
    forall k | 0 <= k < |newNodes'| ensures OutAt(newNodes', out', k) {
      if k < |newNodes| {
        assert old(OutAt(newNodes, out, k));
      }
    }
    if i + 1 < |diffNodes| {
      assert FrontAt(diffNodes, nodes, i + 1, newNodes');
    }
  }

  /**
   * Borrowing from `keep`, towards the front of the edit when `before` holds and
   * towards its end otherwise; on failure the borrowed tokens are given back.
   */
  method AdoptOrRestore(keep: EditNode, before: bool, core: seq<string>, oldText: string)
    returns (found: bool, adopted: seq<string>)
    modifies keep`children
    ensures !found ==> keep.children == old(keep.children)
    ensures before ==>
      && AdoptBefore(old(keep.children), core, oldText, 1) == (if found then Some(|adopted|) else None)
      && (found ==> |adopted| <= |old(keep.children)| && adopted == TakeLast(old(keep.children), |adopted|)
                    && keep.children == DropLast(old(keep.children), |adopted|))
    ensures !before ==>
      && AdoptAfter(old(keep.children), core, oldText, 1) == (if found then Some(|adopted|) else None)
      && (found ==> |adopted| <= |old(keep.children)| && adopted == old(keep.children)[..|adopted|]
                    && keep.children == old(keep.children)[|adopted|..])
  {
    ghost var original := keep.children;
    if before {
      found, adopted := AdoptFromPrevious(keep, core, oldText);
      if !found {
        assert |adopted| == |original| && adopted == original;
        keep.children := keep.children + adopted;
      }
    } else {
      found, adopted := AdoptFromNext(keep, core, oldText);
      if !found {
        assert |adopted| == |original| && adopted == original;
        keep.children := [];
        keep.children := adopted + keep.children;
      }
    }
  }

  /**
   * Borrowing from KEEP node `j`, the previous node when `before` holds and the
   * next node otherwise. On failure the borrowed tokens are given back, so the
   * node has its children again; the walk state follows with `kids[j]` updated.
   */
  method AdoptInWalk(diffNodes: seq<EditNode>, ghost nodes: seq<Node>, ghost kids: seq<seq<string>>, i: nat, j: nat,
                     before: bool, core: seq<string>, oldText: string, ghost newNodes: seq<EditNode>, ghost out: seq<Node>)
    returns (found: bool, adopted: seq<string>, ghost kids': seq<seq<string>>)
    requires j < |diffNodes| && WalkState(diffNodes, nodes, kids, i, newNodes, out)
    requires nodes[j].editType == KEEP
    modifies {diffNodes[j]}`children
    ensures kids' == kids[j := diffNodes[j].children]
    ensures WalkState(diffNodes, nodes, kids', i, newNodes, out)
    ensures !found ==> kids' == kids
    ensures before ==>
      && AdoptBefore(kids[j], core, oldText, 1) == (if found then Some(|adopted|) else None)
      && (found ==> |adopted| <= |kids[j]| && adopted == TakeLast(kids[j], |adopted|)
                    && diffNodes[j].children == DropLast(kids[j], |adopted|))
    ensures !before ==>
      && AdoptAfter(kids[j], core, oldText, 1) == (if found then Some(|adopted|) else None)
      && (found ==> |adopted| <= |kids[j]| && adopted == kids[j][..|adopted|]
                    && diffNodes[j].children == kids[j][|adopted|..])
  {
    assert SlotAt(diffNodes, nodes, kids, i, j);
    var keep := diffNodes[j];
    found, adopted := AdoptOrRestore(keep, before, core, oldText);
    kids' := kids[j := keep.children];
    if !found {
      assert kids' == kids;
    }
    forall x | 0 <= x < |diffNodes| ensures SlotAt(diffNodes, nodes, kids', i, x) {
      assert old(SlotAt(diffNodes, nodes, kids, i, x));
      if x != j {
        assert diffNodes[x] != keep;
      }
    }
    forall k | 0 <= k < |newNodes| ensures OutAt(newNodes, out, k) {
      assert old(OutAt(newNodes, out, k));
    }
    if i < |diffNodes| {
      assert old(FrontAt(diffNodes, nodes, i, newNodes));
    }
  }

  /**
   * Borrowing from the previous node: when it is a KEEP node and some suffix of
   * its children makes the search unique, node `i` is replaced by a new node
   * spliced into the list; otherwise the borrowed tokens are given back.
   */
  method TryBefore(diffNodes: seq<EditNode>, ghost nodes: seq<Node>, ghost kids: seq<seq<string>>, i: nat, oldText: string,
                   core: seq<string>, newNodes: seq<EditNode>, ghost out: seq<Node>)
    returns (done: bool, newNodes': seq<EditNode>, ghost kids': seq<seq<string>>, ghost out': seq<Node>)
    requires CoarseShaped(nodes) && i < |diffNodes|
    requires WalkState(diffNodes, nodes, kids, i, newNodes, out)
    requires nodes[i].editType != KEEP && core == SearchCore(nodes[i])
    modifies set j | 0 <= j < |diffNodes| :: diffNodes[j]
    modifies set k | 0 <= k < |newNodes| :: newNodes[k]
    ensures done == BorrowBefore(nodes, kids, i, core, oldText).Some?
    ensures done ==> WalkState(diffNodes, nodes, kids', i + 1, newNodes', out')
    ensures done ==>
      var m := BorrowBefore(nodes, kids, i, core, oldText).value;
      && kids' == kids[i - 1 := DropLast(kids[i - 1], m)]
      && out' == out + [BeforeNode(nodes[i], TakeLast(kids[i - 1], m))]
    ensures !done ==> newNodes' == newNodes && WalkState(diffNodes, nodes, kids, i, newNodes, out)
    ensures forall k :: 0 <= k < |newNodes'| ==> newNodes'[k] in newNodes || fresh(newNodes'[k])
  {
    newNodes', kids', out' := newNodes, kids, out;
    done := false;
    var node := diffNodes[i];
    assert SlotAt(diffNodes, nodes, kids, i, i) && FrontAt(diffNodes, nodes, i, newNodes);
    assert i > 0 ==> SlotAt(diffNodes, nodes, kids, i, i - 1);
    assert Node(node.editType, node.children) == nodes[i];
    if node.prev != null && node.prev.editType == KEEP {
      var prev := node.prev;
      assert i > 0 && prev == diffNodes[i - 1];
      var found, adopted, kidsA := AdoptInWalk(diffNodes, nodes, kids, i, i - 1, true, core, oldText, newNodes, out);
      if found {
        var n := BeforeNode(Node(node.editType, node.children), adopted);
        assert n.editType != KEEP;
        assert BorrowBefore(nodes, kids, i, core, oldText) == Some(|adopted|);
        assert kidsA == kids[i - 1 := DropLast(kids[i - 1], |adopted|)];
        assert n == BeforeNode(nodes[i], TakeLast(kids[i - 1], |adopted|));
        newNodes' := Splice(diffNodes, nodes, kidsA, i, newNodes, out, n);
        assert forall k :: 0 <= k < |newNodes| ==> newNodes'[k] == newNodes[k];
        done := true;
        kids' := kidsA;
        out' := out + [n];
      }
    }
  }

  /**
   * Borrowing from the next node: when it is a KEEP node and some prefix of its
   * children makes the search unique, node `i` is replaced by a new node
   * spliced into the list. When it fails the whole walk is abandoned, so the
   * state it leaves behind is not described.
   */
  method TryAfter(diffNodes: seq<EditNode>, ghost nodes: seq<Node>, ghost kids: seq<seq<string>>, i: nat, oldText: string,
                  core: seq<string>, newNodes: seq<EditNode>, ghost out: seq<Node>)
    returns (done: bool, newNodes': seq<EditNode>, ghost kids': seq<seq<string>>, ghost out': seq<Node>)
    requires CoarseShaped(nodes) && i < |diffNodes|
    requires WalkState(diffNodes, nodes, kids, i, newNodes, out)
    requires nodes[i].editType != KEEP && core == SearchCore(nodes[i])
    modifies set j | 0 <= j < |diffNodes| :: diffNodes[j]
    modifies set k | 0 <= k < |newNodes| :: newNodes[k]
    ensures done == BorrowAfter(nodes, kids, i, core, oldText).Some?
    ensures done ==> WalkState(diffNodes, nodes, kids', i + 1, newNodes', out')
    ensures done ==>
      var m := BorrowAfter(nodes, kids, i, core, oldText).value;
      && kids' == kids[i + 1 := kids[i + 1][m..]]
      && out' == out + [AfterNode(nodes[i], kids[i + 1][..m])]
    ensures forall k :: 0 <= k < |newNodes'| ==> newNodes'[k] in newNodes || fresh(newNodes'[k])
  {
    newNodes', kids', out' := newNodes, kids, out;
    done := false;
    var node := diffNodes[i];
    assert SlotAt(diffNodes, nodes, kids, i, i);
    assert i + 1 < |diffNodes| ==> SlotAt(diffNodes, nodes, kids, i, i + 1);
    assert Node(node.editType, node.children) == nodes[i];
    if node.next != null && node.next.editType == KEEP {
      var next := node.next;
      assert i + 1 < |diffNodes| && next == diffNodes[i + 1];
      var found, adopted, kidsA := AdoptInWalk(diffNodes, nodes, kids, i, i + 1, false, core, oldText, newNodes, out);
      if found {
        var n := AfterNode(Node(node.editType, node.children), adopted);
        assert n.editType != KEEP;
        assert BorrowAfter(nodes, kids, i, core, oldText) == Some(|adopted|);
        assert kidsA == kids[i + 1 := kids[i + 1][|adopted|..]];
        assert n == AfterNode(nodes[i], kids[i + 1][..|adopted|]);
        newNodes' := Splice(diffNodes, nodes, kidsA, i, newNodes, out, n);
        assert forall k :: 0 <= k < |newNodes| ==> newNodes'[k] == newNodes[k];
        done := true;
        kids' := kidsA;
        out' := out + [n];
      }
    }
  }

  /**
   * One step of the walk: a KEEP node is kept as it is; a DELETE or REPLACE node
   * unique on its own gets its opening marker; otherwise context is borrowed
   * from the previous, then from the next KEEP node, and the walk is abandoned
   * when neither helps.
   */
  method HandleNode(diffNodes: seq<EditNode>, ghost nodes: seq<Node>, ghost kids: seq<seq<string>>, i: nat, oldText: string,
                    newNodes: seq<EditNode>, ghost out: seq<Node>)
    returns (aborted: bool, newNodes': seq<EditNode>, ghost kids': seq<seq<string>>, ghost out': seq<Node>)
    requires CoarseShaped(nodes) && i < |diffNodes|
    requires WalkState(diffNodes, nodes, kids, i, newNodes, out)
    modifies set j | 0 <= j < |diffNodes| :: diffNodes[j]
    modifies set k | 0 <= k < |newNodes| :: newNodes[k]
    ensures aborted <==> ProcessNode(nodes, kids, i, oldText).Abort?
    ensures !aborted ==>
      && kids' == ProcessNode(nodes, kids, i, oldText).kids
      && out' == out + [ProcessNode(nodes, kids, i, oldText).emitted]
      && WalkState(diffNodes, nodes, kids', i + 1, newNodes', out')
    ensures forall k :: 0 <= k < |newNodes'| ==> newNodes'[k] in newNodes || newNodes'[k] in diffNodes || fresh(newNodes'[k])
  {
    var node := diffNodes[i];
    assert SlotAt(diffNodes, nodes, kids, i, i);
    if node.editType == KEEP {
      KeepAdvances(diffNodes, nodes, kids, i, newNodes, out);
      return false, newNodes + [node], kids, out + [Node(KEEP, kids[i])];
    }
    assert Node(node.editType, node.children) == nodes[i];
    var core := SearchCore(Node(node.editType, node.children));
    if node.editType != INSERT && GetFrequency(Join(core, ' '), oldText) == 1 {
      newNodes' := MarkDirect(diffNodes, nodes, kids, i, newNodes, out);
      return false, newNodes', kids, out + [DirectNode(nodes[i])];
    }
    var done;
    done, newNodes', kids', out' := TryBefore(diffNodes, nodes, kids, i, oldText, core, newNodes, out);
    if done {
      aborted := false;
      return;
    }
    done, newNodes', kids', out' := TryAfter(diffNodes, nodes, kids, i, oldText, core, newNodes, out);
    aborted := !done;
  }

  /** A freshly built coarse list is where the walk starts: nothing handled and nothing collected yet. */
  lemma WalkStarts(diffNodes: seq<EditNode>, nodes: seq<Node>)
    requires |diffNodes| == |nodes| && Distinct(diffNodes) && Linked(diffNodes)
    requires forall j :: 0 <= j < |nodes| ==> Node(diffNodes[j].editType, diffNodes[j].children) == nodes[j]
    ensures WalkState(diffNodes, nodes, ChildrenOf(nodes), 0, [], [])
  {
    var kids := ChildrenOf(nodes);
    forall j | 0 <= j < |diffNodes| ensures SlotAt(diffNodes, nodes, kids, 0, j) {
      assert LinkedAt(diffNodes, j);
    }
    if |diffNodes| > 0 {
      assert LinkedAt(diffNodes, 0);
      assert FrontAt(diffNodes, nodes, 0, []);
    }
  }

  /** The emission loop: the spans of the result nodes, in order. */
  method EmitNodes(newNodes: seq<EditNode>, ghost out: seq<Node>) returns (spans: seq<string>)
    requires |newNodes| == |out|
    requires forall k :: 0 <= k < |newNodes| ==> OutAt(newNodes, out, k)
    ensures spans == EmitAll(out)
  {
    spans := [];
    for k := 0 to |newNodes|
      invariant spans == EmitAll(out[..k])
    {
      var node := newNodes[k];
      assert OutAt(newNodes, out, k);
      EmitByType(out[k]);
      ghost var before := spans;
      if Contains(node.editType, "INSERT") {
        spans := spans + node.children + [INSERT_END];
      } else if Contains(node.editType, "REPLACE") {
        spans := spans + node.children + [REPLACE_END];
      } else if Contains(node.editType, "DELETE") {
        spans := spans + node.children + [DELETE_END];
      }
      assert spans == before + Emit(out[k]);
      assert out[..k + 1][..k] == out[..k];
    }
    assert out[..|newNodes|] == out;
  }

  /**
   * The `for` over the coarse list: handles every node in turn; it stops early
   * exactly when the specification's walk aborts, and otherwise collects the
   * nodes the specification emits.
   */
  method WalkNodes(diffNodes: seq<EditNode>, ghost nodes: seq<Node>, oldText: string)
    returns (aborted: bool, newNodes: seq<EditNode>, ghost out: seq<Node>)
    requires CoarseShaped(nodes) && WalkState(diffNodes, nodes, ChildrenOf(nodes), 0, [], [])
    modifies set j | 0 <= j < |diffNodes| :: diffNodes[j]
    ensures aborted <==> Process(nodes, ChildrenOf(nodes), 0, oldText, []).None?
    ensures !aborted ==>
      && Process(nodes, ChildrenOf(nodes), 0, oldText, []) == Some(out)
      && |newNodes| == |out|
      && forall k :: 0 <= k < |newNodes| ==> OutAt(newNodes, out, k)
  {
    ghost var kids := ChildrenOf(nodes);
    out := [];
    newNodes := [];
    aborted := false;
    for i := 0 to |diffNodes|
      invariant WalkState(diffNodes, nodes, kids, i, newNodes, out)
      invariant forall k :: 0 <= k < |newNodes| ==> newNodes[k] in diffNodes || fresh(newNodes[k])
      invariant Process(nodes, kids, i, oldText, out) == Process(nodes, ChildrenOf(nodes), 0, oldText, [])
    {
      aborted, newNodes, kids, out := HandleNode(diffNodes, nodes, kids, i, oldText, newNodes, out);
      if aborted {
        return;
      }
    }
  }

  /**
   * `computeMinimalCommentDiffs`: walks the coarse linked list once, mutating
   * KEEP children while borrowing context and re-splicing replaced nodes, then
   * emits the spans of the collected nodes; the full replacement when some edit
   * cannot be made unique.
   */
  method ComputeMinimalCommentDiffs(diff: (seq<string>, seq<string>) -> seq<Delta>, oldTokens: seq<string>, newTokens: seq<string>)
    returns (spans: seq<string>)
    ensures spans == MinimalCommentDiffs(diff, oldTokens, newTokens)
  {
    var oldText := Join(oldTokens, ' ');
    var diffNodes := GetCoarseDiffStructure(diff, oldTokens, newTokens);
    ghost var nodes := CoarseNodes(diff(oldTokens, newTokens));
    WalkStarts(diffNodes, nodes);
    var aborted, newNodes, out := WalkNodes(diffNodes, nodes, oldText);
    if aborted {
      return FullReplaceSpan(oldTokens, newTokens);
    }
    spans := EmitNodes(newNodes, out);
  }
}
