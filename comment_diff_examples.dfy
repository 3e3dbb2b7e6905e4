/**
 * The unit-test cases of `computeMinimalCommentDiffs`, each under the delta
 * list java-diff-utils produces for it (stated as a requirement on `diff`).
 */
module CommentDiffExamples {
  import opened Wrappers
  import opened Text
  import opened DiffMarkers
  import opened DiffPositions
  import opened Deltas
  import opened CommentDiffs

  /** `["a"]` -> `["A"]`: the replaced token is unique, so it is emitted without context. */
  lemma SimpleReplaceExample(diff: (seq<string>, seq<string>) -> seq<Delta>)
    requires diff(["a"], ["A"]) == [Delta(Change, ["a"], ["A"])]
    ensures MinimalCommentDiffs(diff, ["a"], ["A"]) == [REPLACE_OLD, "a", REPLACE_NEW, "A", REPLACE_END]
  {
    SimpleReplaceNodes(diff);
    SimpleReplaceUnique();
    SimpleReplaceWalk(CoarseNodes(diff(["a"], ["A"])), Join(["a"], ' '));
    SimpleReplaceEmit();
  }

  lemma SimpleReplaceNodes(diff: (seq<string>, seq<string>) -> seq<Delta>)
    requires diff(["a"], ["A"]) == [Delta(Change, ["a"], ["A"])]
    ensures |CoarseNodes(diff(["a"], ["A"]))| == 1
    ensures CoarseNodes(diff(["a"], ["A"]))[0] == Node(REPLACE, ["a", REPLACE_NEW, "A"])
  {
    assert ["a"] + [REPLACE_NEW] + ["A"] == ["a", REPLACE_NEW, "A"];
  }

  lemma SimpleReplaceUnique()
    ensures Unique(["a"], Join(["a"], ' '))
  {
    FrequencyOfTokens(["a"], ["a"]);
    assert ValidPositionsFrom(["a"], ["a"], 0) == [0];
  }

  lemma SimpleReplaceEmit()
    ensures EmitAll([Node(REPLACE, [REPLACE_OLD, "a", REPLACE_NEW, "A"])]) == [REPLACE_OLD, "a", REPLACE_NEW, "A", REPLACE_END]
  {
    var e := Node(REPLACE, [REPLACE_OLD, "a", REPLACE_NEW, "A"]);
    assert EmitAll([e]) == EmitAll([]) + Emit(e);
    EmitByType(e);
  }

  lemma SimpleReplaceWalk(nodes: seq<Node>, oldText: string)
    requires CoarseShaped(nodes) && |nodes| == 1 && nodes[0] == Node(REPLACE, ["a", REPLACE_NEW, "A"])
    requires Unique(["a"], oldText)
    ensures Process(nodes, ChildrenOf(nodes), 0, oldText, []) == Some([Node(REPLACE, [REPLACE_OLD, "a", REPLACE_NEW, "A"])])
  {
    var kids := ChildrenOf(nodes);
    assert RepOld(nodes[0].children) == ["a"];
    DirectWhenUnique(nodes, kids, 0, oldText);
    var e := DirectNode(nodes[0]);
    ProcessStep(nodes, kids, 0, oldText, [], kids, e);
    assert e == Node(REPLACE, [REPLACE_OLD, "a", REPLACE_NEW, "A"]);
    assert [] + [e] == [e];
  }

  /** The spans of three result nodes, in order. */
  lemma EmitThree(a: Node, b: Node, c: Node)
    ensures EmitAll([a, b, c]) == Emit(a) + Emit(b) + Emit(c)
  {
    assert [a, b, c][..2] == [a, b] && [a, b][..1] == [a] && [a][..0] == [];
    assert EmitAll([a]) == EmitAll([]) + Emit(a);
    assert EmitAll([a, b]) == EmitAll([a]) + Emit(b);
    assert EmitAll([a, b, c]) == EmitAll([a, b]) + Emit(c);
  }

  lemma EmitTwo(a: Node, b: Node)
    ensures EmitAll([a, b]) == Emit(a) + Emit(b)
  {
    assert [a, b][..1] == [a] && [a][..0] == [];
    assert EmitAll([a]) == EmitAll([]) + Emit(a);
    assert EmitAll([a, b]) == EmitAll([a]) + Emit(b);
  }

  lemma EmitFour(a: Node, b: Node, c: Node, d: Node)
    ensures EmitAll([a, b, c, d]) == Emit(a) + Emit(b) + Emit(c) + Emit(d)
  {
    assert [a, b, c, d][..3] == [a, b, c];
    EmitThree(a, b, c);
    assert EmitAll([a, b, c, d]) == EmitAll([a, b, c]) + Emit(d);
  }

  /** The spans of KEEP, edit, KEEP: those of the edit alone. */
  lemma EmitKeepEditKeep(a: Node, e: Node, c: Node)
    requires a.editType == KEEP && c.editType == KEEP
    ensures EmitAll([a, e, c]) == Emit(e)
  {
    EmitThree(a, e, c);
    EmitByType(a);
    EmitByType(c);
  }

  /**
   * A walk over KEEP, edit, KEEP in which the edit is handled by `step`, which
   * leaves the last node's children alone.
   */
  lemma WalkKeepEditKeep(nodes: seq<Node>, oldText: string, kids': seq<seq<string>>, e: Node)
    requires CoarseShaped(nodes) && |nodes| == 3
    requires nodes[0].editType == KEEP && nodes[2].editType == KEEP
    requires ProcessNode(nodes, ChildrenOf(nodes), 1, oldText) == Continue(kids', e)
    requires |kids'| == 3 && kids'[2] == nodes[2].children
    ensures Process(nodes, ChildrenOf(nodes), 0, oldText, []) == Some([nodes[0], e, nodes[2]])
  {
    var kids := ChildrenOf(nodes);
    ProcessStep(nodes, kids, 0, oldText, [], kids, nodes[0]);
    ProcessStep(nodes, kids, 1, oldText, [] + [nodes[0]], kids', e);
    ProcessStep(nodes, kids', 2, oldText, [] + [nodes[0]] + [e], kids', nodes[2]);
    assert [] + [nodes[0]] + [e] + [nodes[2]] == [nodes[0], e, nodes[2]];
  }

  // ----- "hello world its 2020 !" -> "hello world its 2021 !" -----

  function ContextOld(): seq<string> { ["hello", "world", "its", "2020", "!"] }
  function ContextNew(): seq<string> { ["hello", "world", "its", "2021", "!"] }

  lemma ContextNodes(diff: (seq<string>, seq<string>) -> seq<Delta>)
    requires diff(ContextOld(), ContextNew()) ==
      [Delta(Equal, ["hello", "world", "its"], ["hello", "world", "its"]), Delta(Change, ["2020"], ["2021"]), Delta(Equal, ["!"], ["!"])]
    ensures var nodes := CoarseNodes(diff(ContextOld(), ContextNew()));
      && |nodes| == 3 && nodes[0] == Node(KEEP, ["hello", "world", "its"])
      && nodes[1] == Node(REPLACE, ["2020", REPLACE_NEW, "2021"]) && nodes[2] == Node(KEEP, ["!"])
  {
    assert ["2020"] + [REPLACE_NEW] + ["2021"] == ["2020", REPLACE_NEW, "2021"];
  }

  lemma ContextUnique()
    ensures Unique(["2020"], Join(ContextOld(), ' '))
  {
    FrequencyOfTokens(["2020"], ContextOld());
    assert ValidPositionsFrom(["2020"], ContextOld(), 0) == [3];
  }

  lemma ContextWalk(nodes: seq<Node>, oldText: string)
    requires CoarseShaped(nodes) && |nodes| == 3
    requires nodes[0].editType == KEEP && nodes[1] == Node(REPLACE, ["2020", REPLACE_NEW, "2021"]) && nodes[2].editType == KEEP
    requires Unique(["2020"], oldText)
    ensures Process(nodes, ChildrenOf(nodes), 0, oldText, []) ==
      Some([nodes[0], Node(REPLACE, [REPLACE_OLD, "2020", REPLACE_NEW, "2021"]), nodes[2]])
  {
    var kids := ChildrenOf(nodes);
    assert RepOld(nodes[1].children) == ["2020"];
    DirectWhenUnique(nodes, kids, 1, oldText);
    assert DirectNode(nodes[1]) == Node(REPLACE, [REPLACE_OLD, "2020", REPLACE_NEW, "2021"]);
    WalkKeepEditKeep(nodes, oldText, kids, DirectNode(nodes[1]));
  }

  /** "hello world its 2020 !" -> "... 2021 !": "2020" is unique, so its replacement needs no context. */
  lemma ReplaceWithContextExample(diff: (seq<string>, seq<string>) -> seq<Delta>)
    requires diff(ContextOld(), ContextNew()) ==
      [Delta(Equal, ["hello", "world", "its"], ["hello", "world", "its"]), Delta(Change, ["2020"], ["2021"]), Delta(Equal, ["!"], ["!"])]
    ensures MinimalCommentDiffs(diff, ContextOld(), ContextNew()) == [REPLACE_OLD, "2020", REPLACE_NEW, "2021", REPLACE_END]
  {
    var nodes := CoarseNodes(diff(ContextOld(), ContextNew()));
    ContextNodes(diff);
    ContextUnique();
    ContextWalk(nodes, Join(ContextOld(), ' '));
    var e := Node(REPLACE, [REPLACE_OLD, "2020", REPLACE_NEW, "2021"]);
    EmitKeepEditKeep(nodes[0], e, nodes[2]);
    EmitByType(e);
  }

  // ----- "hello world !" -> "hello world its 2021 !" -----

  function InsertOld(): seq<string> { ["hello", "world", "!"] }
  function InsertNew(): seq<string> { ["hello", "world", "its", "2021", "!"] }

  lemma InsertNodes(diff: (seq<string>, seq<string>) -> seq<Delta>)
    requires diff(InsertOld(), InsertNew()) ==
      [Delta(Equal, ["hello", "world"], ["hello", "world"]), Delta(Insert, [], ["its", "2021"]), Delta(Equal, ["!"], ["!"])]
    ensures var nodes := CoarseNodes(diff(InsertOld(), InsertNew()));
      && |nodes| == 3 && nodes[0] == Node(KEEP, ["hello", "world"])
      && nodes[1] == Node(INSERT, ["its", "2021"]) && nodes[2] == Node(KEEP, ["!"])
  {
  }

  lemma InsertUnique()
    ensures Unique(["world"], Join(InsertOld(), ' '))
  {
    FrequencyOfTokens(["world"], InsertOld());
    assert ValidPositionsFrom(["world"], InsertOld(), 0) == [1];
  }

  lemma InsertWalk(nodes: seq<Node>, oldText: string)
    requires CoarseShaped(nodes) && |nodes| == 3
    requires nodes[0] == Node(KEEP, ["hello", "world"]) && nodes[1] == Node(INSERT, ["its", "2021"]) && nodes[2].editType == KEEP
    requires Unique(["world"], oldText)
    ensures Process(nodes, ChildrenOf(nodes), 0, oldText, []) == Some([nodes[0], BeforeNode(nodes[1], ["world"]), nodes[2]])
  {
    var kids := ChildrenOf(nodes);
    assert TakeLast(kids[0], 1) + SearchCore(nodes[1]) == ["world"];
    assert AdoptBefore(kids[0], SearchCore(nodes[1]), oldText, 1) == Some(1);
    BorrowsBefore(nodes, kids, 1, oldText, 1);
    assert TakeLast(kids[0], 1) == ["world"];
    WalkKeepEditKeep(nodes, oldText, kids[0 := DropLast(kids[0], 1)], BeforeNode(nodes[1], ["world"]));
  }

  /** An insertion borrows "world" from the KEEP region before it, the shortest context that is unique. */
  lemma SimpleInsertExample(diff: (seq<string>, seq<string>) -> seq<Delta>)
    requires diff(InsertOld(), InsertNew()) ==
      [Delta(Equal, ["hello", "world"], ["hello", "world"]), Delta(Insert, [], ["its", "2021"]), Delta(Equal, ["!"], ["!"])]
    ensures MinimalCommentDiffs(diff, InsertOld(), InsertNew()) ==
      [INSERT_OLD_KEEP_BEFORE, "world", INSERT_NEW_KEEP_BEFORE, "world", "its", "2021", INSERT_END]
  {
    var nodes := CoarseNodes(diff(InsertOld(), InsertNew()));
    InsertNodes(diff);
    InsertUnique();
    InsertWalk(nodes, Join(InsertOld(), ' '));
    EmitKeepEditKeep(nodes[0], BeforeNode(nodes[1], ["world"]), nodes[2]);
    InsertSpan();
  }

  lemma InsertSpan()
    ensures Emit(BeforeNode(Node(INSERT, ["its", "2021"]), ["world"])) ==
      [INSERT_OLD_KEEP_BEFORE, "world", INSERT_NEW_KEEP_BEFORE, "world", "its", "2021", INSERT_END]
  {
    var e := BeforeNode(Node(INSERT, ["its", "2021"]), ["world"]);
    assert e.children == [INSERT_OLD_KEEP_BEFORE, "world", INSERT_NEW_KEEP_BEFORE, "world", "its", "2021"];
    EmitByType(e);
  }

  // ----- "hello world its 2021 !" -> "hello world !" -----

  function DeleteOld(): seq<string> { ["hello", "world", "its", "2021", "!"] }
  function DeleteNew(): seq<string> { ["hello", "world", "!"] }

  lemma DeleteNodes(diff: (seq<string>, seq<string>) -> seq<Delta>)
    requires diff(DeleteOld(), DeleteNew()) ==
      [Delta(Equal, ["hello", "world"], ["hello", "world"]), Delta(Delete, ["its", "2021"], []), Delta(Equal, ["!"], ["!"])]
    ensures var nodes := CoarseNodes(diff(DeleteOld(), DeleteNew()));
      && |nodes| == 3 && nodes[0] == Node(KEEP, ["hello", "world"])
      && nodes[1] == Node(DELETE, ["its", "2021"]) && nodes[2] == Node(KEEP, ["!"])
  {
  }

  lemma DeleteUnique()
    ensures Unique(["its", "2021"], Join(DeleteOld(), ' '))
  {
    var s := ["its", "2021"];
    var f := DeleteOld();
    FrequencyOfTokens(s, f);
    assert s[1] == "2021";
    assert !CandidateMatches(s, f, 4);
    assert ValidPositionsFrom(s, f, 3) == [];
    assert CandidateMatches(s, f, 2);
    assert ValidPositionsFrom(s, f, 0) == [2];
  }

  lemma DeleteWalk(nodes: seq<Node>, oldText: string)
    requires CoarseShaped(nodes) && |nodes| == 3
    requires nodes[0].editType == KEEP && nodes[1] == Node(DELETE, ["its", "2021"]) && nodes[2].editType == KEEP
    requires Unique(["its", "2021"], oldText)
    ensures Process(nodes, ChildrenOf(nodes), 0, oldText, []) == Some([nodes[0], Node(DELETE, [DELETE, "its", "2021"]), nodes[2]])
  {
    var kids := ChildrenOf(nodes);
    DirectWhenUnique(nodes, kids, 1, oldText);
    assert DirectNode(nodes[1]) == Node(DELETE, [DELETE, "its", "2021"]);
    WalkKeepEditKeep(nodes, oldText, kids, DirectNode(nodes[1]));
  }

  /** A deletion whose tokens are unique is emitted without context. */
  lemma SimpleDeleteExample(diff: (seq<string>, seq<string>) -> seq<Delta>)
    requires diff(DeleteOld(), DeleteNew()) ==
      [Delta(Equal, ["hello", "world"], ["hello", "world"]), Delta(Delete, ["its", "2021"], []), Delta(Equal, ["!"], ["!"])]
    ensures MinimalCommentDiffs(diff, DeleteOld(), DeleteNew()) == [DELETE, "its", "2021", DELETE_END]
  {
    var nodes := CoarseNodes(diff(DeleteOld(), DeleteNew()));
    DeleteNodes(diff);
    DeleteUnique();
    DeleteWalk(nodes, Join(DeleteOld(), ' '));
    var e := Node(DELETE, [DELETE, "its", "2021"]);
    EmitKeepEditKeep(nodes[0], e, nodes[2]);
    EmitByType(e);
  }

  // ----- "A B C B C" -> "A B C C": the deleted "B" is not unique, "C B" is -----

  function BeforeOld(): seq<string> { ["A", "B", "C", "B", "C"] }
  function BeforeNew(): seq<string> { ["A", "B", "C", "C"] }

  lemma BeforeNodes(diff: (seq<string>, seq<string>) -> seq<Delta>)
    requires diff(BeforeOld(), BeforeNew()) ==
      [Delta(Equal, ["A", "B", "C"], ["A", "B", "C"]), Delta(Delete, ["B"], []), Delta(Equal, ["C"], ["C"])]
    ensures var nodes := CoarseNodes(diff(BeforeOld(), BeforeNew()));
      && |nodes| == 3 && nodes[0] == Node(KEEP, ["A", "B", "C"])
      && nodes[1] == Node(DELETE, ["B"]) && nodes[2] == Node(KEEP, ["C"])
  {
  }

  lemma BeforeFrequencies()
    ensures !Unique(["B"], Join(BeforeOld(), ' '))
    ensures Unique(["C", "B"], Join(BeforeOld(), ' '))
  {
    FrequencyOfTokens(["B"], BeforeOld());
    BeforePositionsOfB();
    FrequencyOfTokens(["C", "B"], BeforeOld());
    BeforePositionsOfCB();
  }

  lemma BeforePositionsOfB()
    ensures ValidPositionsFrom(["B"], BeforeOld(), 0) == [1, 3]
  {
    var f := BeforeOld();
    var r := ValidPositionsFrom(["B"], f, 0);
    ValidPositionsFromMeaning(["B"], f, 0);
    forall q ensures q in r <==> q == 1 || q == 3 {
      SingleTokenMatch("B", f, q);
    }
    TwoElementSorted(r, 1, 3);
  }

  lemma BeforePositionsOfCB()
    ensures ValidPositionsFrom(["C", "B"], BeforeOld(), 0) == [2]
  {
    var s := ["C", "B"];
    var f := BeforeOld();
    assert s[1] == "B" && 4 + 1 >= |f|;
    assert !CandidateMatches(s, f, 4);
    assert ValidPositionsFrom(s, f, 3) == [];
    assert CandidateMatches(s, f, 2);
    assert ValidPositionsFrom(s, f, 0) == [2];
  }

  lemma BeforeWalk(nodes: seq<Node>, oldText: string)
    requires CoarseShaped(nodes) && |nodes| == 3
    requires nodes[0] == Node(KEEP, ["A", "B", "C"]) && nodes[1] == Node(DELETE, ["B"]) && nodes[2].editType == KEEP
    requires !Unique(["B"], oldText) && Unique(["C", "B"], oldText)
    ensures Process(nodes, ChildrenOf(nodes), 0, oldText, []) == Some([nodes[0], BeforeNode(nodes[1], ["C"]), nodes[2]])
  {
    var kids := ChildrenOf(nodes);
    assert SearchCore(nodes[1]) == ["B"];
    assert TakeLast(kids[0], 1) + SearchCore(nodes[1]) == ["C", "B"];
    assert AdoptBefore(kids[0], SearchCore(nodes[1]), oldText, 1) == Some(1);
    BorrowsBefore(nodes, kids, 1, oldText, 1);
    assert TakeLast(kids[0], 1) == ["C"];
    WalkKeepEditKeep(nodes, oldText, kids[0 := DropLast(kids[0], 1)], BeforeNode(nodes[1], ["C"]));
  }

  /** A deletion that is not unique borrows the last token of the KEEP region before it and becomes a replacement. */
  lemma DeleteWithContextBeforeExample(diff: (seq<string>, seq<string>) -> seq<Delta>)
    requires diff(BeforeOld(), BeforeNew()) ==
      [Delta(Equal, ["A", "B", "C"], ["A", "B", "C"]), Delta(Delete, ["B"], []), Delta(Equal, ["C"], ["C"])]
    ensures MinimalCommentDiffs(diff, BeforeOld(), BeforeNew()) ==
      [REPLACE_OLD_DELETE_KEEP_BEFORE, "C", "B", REPLACE_NEW_DELETE_KEEP_BEFORE, "C", REPLACE_END]
  {
    var nodes := CoarseNodes(diff(BeforeOld(), BeforeNew()));
    BeforeNodes(diff);
    BeforeFrequencies();
    BeforeWalk(nodes, Join(BeforeOld(), ' '));
    EmitKeepEditKeep(nodes[0], BeforeNode(nodes[1], ["C"]), nodes[2]);
    BeforeSpan();
  }

  lemma BeforeSpan()
    ensures Emit(BeforeNode(Node(DELETE, ["B"]), ["C"])) ==
      [REPLACE_OLD_DELETE_KEEP_BEFORE, "C", "B", REPLACE_NEW_DELETE_KEEP_BEFORE, "C", REPLACE_END]
  {
    var e := BeforeNode(Node(DELETE, ["B"]), ["C"]);
    assert e.children == [REPLACE_OLD_DELETE_KEEP_BEFORE, "C", "B", REPLACE_NEW_DELETE_KEEP_BEFORE, "C"];
    EmitByType(e);
  }

  // ----- "A B A B C" -> "B A B C": "A" and "A B" are not unique, "A B A" is -----

  function AfterOld(): seq<string> { ["A", "B", "A", "B", "C"] }
  function AfterNew(): seq<string> { ["B", "A", "B", "C"] }

  lemma AfterNodes(diff: (seq<string>, seq<string>) -> seq<Delta>)
    requires diff(AfterOld(), AfterNew()) ==
      [Delta(Delete, ["A"], []), Delta(Equal, ["B", "A", "B", "C"], ["B", "A", "B", "C"])]
    ensures var nodes := CoarseNodes(diff(AfterOld(), AfterNew()));
      |nodes| == 2 && nodes[0] == Node(DELETE, ["A"]) && nodes[1] == Node(KEEP, ["B", "A", "B", "C"])
  {
  }

  lemma AfterFrequencies()
    ensures !Unique(["A"], Join(AfterOld(), ' '))
    ensures !Unique(["A", "B"], Join(AfterOld(), ' '))
    ensures Unique(["A", "B", "A"], Join(AfterOld(), ' '))
  {
    FrequencyOfTokens(["A"], AfterOld());
    AfterPositionsOfA();
    FrequencyOfTokens(["A", "B"], AfterOld());
    AfterPositionsOfAB();
    FrequencyOfTokens(["A", "B", "A"], AfterOld());
    AfterPositionsOfABA();
  }

  lemma AfterPositionsOfA()
    ensures ValidPositionsFrom(["A"], AfterOld(), 0) == [0, 2]
  {
    var f := AfterOld();
    var r := ValidPositionsFrom(["A"], f, 0);
    ValidPositionsFromMeaning(["A"], f, 0);
    forall q ensures q in r <==> q == 0 || q == 2 {
      SingleTokenMatch("A", f, q);
    }
    TwoElementSorted(r, 0, 2);
  }

  lemma AfterPositionsOfAB()
    ensures ValidPositionsFrom(["A", "B"], AfterOld(), 0) == [0, 2]
  {
    var s := ["A", "B"];
    var f := AfterOld();
    assert s[1] == "B" && 4 + 1 >= |f|;
    assert !CandidateMatches(s, f, 4);
    assert !CandidateMatches(s, f, 3);
    assert ValidPositionsFrom(s, f, 3) == [];
    assert CandidateMatches(s, f, 2);
    assert !CandidateMatches(s, f, 1);
    assert CandidateMatches(s, f, 0);
  }

  lemma AfterPositionsOfABA()
    ensures ValidPositionsFrom(["A", "B", "A"], AfterOld(), 0) == [0]
  {
    var t := ["A", "B", "A"];
    var f := AfterOld();
    assert t[2] == "A" && 4 + 2 >= |f| && 3 + 2 >= |f|;
    assert !CandidateMatches(t, f, 4);
    assert !CandidateMatches(t, f, 3);
    assert f[4] == "C";
    assert !CandidateMatches(t, f, 2);
    assert !CandidateMatches(t, f, 1);
    assert ValidPositionsFrom(t, f, 1) == [];
    assert CandidateMatches(t, f, 0);
  }

  /** The search for the deleted "A" grows over the KEEP region after it until "A B A" is unique. */
  lemma AfterAdopt(q: seq<string>, oldText: string)
    requires q == ["B", "A", "B", "C"]
    requires !Unique(["A"], oldText) && !Unique(["A", "B"], oldText) && Unique(["A", "B", "A"], oldText)
    ensures AdoptAfter(q, ["A"], oldText, 1) == Some(2)
  {
    assert ["A"] + q[..1] == ["A", "B"];
    assert ["A"] + q[..2] == ["A", "B", "A"];
    assert AdoptAfter(q, ["A"], oldText, 2) == Some(2);
  }

  lemma AfterWalk(nodes: seq<Node>, oldText: string)
    requires CoarseShaped(nodes) && |nodes| == 2
    requires nodes[0] == Node(DELETE, ["A"]) && nodes[1] == Node(KEEP, ["B", "A", "B", "C"])
    requires !Unique(["A"], oldText) && !Unique(["A", "B"], oldText) && Unique(["A", "B", "A"], oldText)
    ensures Process(nodes, ChildrenOf(nodes), 0, oldText, []) ==
      Some([AfterNode(nodes[0], ["B", "A"]), Node(KEEP, ["B", "C"])])
  {
    var kids := ChildrenOf(nodes);
    var kids' := kids[1 := ["B", "C"]];
    var e := AfterNode(nodes[0], ["B", "A"]);
    AfterAdopt(kids[1], oldText);
    AfterStep(nodes, kids, oldText);
    ProcessStep(nodes, kids, 0, oldText, [], kids', e);
    ProcessStep(nodes, kids', 1, oldText, [] + [e], kids', Node(KEEP, ["B", "C"]));
    assert [] + [e] + [Node(KEEP, ["B", "C"])] == [e, Node(KEEP, ["B", "C"])];
  }

  /** The deleted "A" borrows "B A" from the KEEP node after it. */
  lemma AfterStep(nodes: seq<Node>, kids: seq<seq<string>>, oldText: string)
    requires CoarseShaped(nodes) && |nodes| == 2 && |kids| == 2
    requires nodes[0] == Node(DELETE, ["A"]) && nodes[1].editType == KEEP && kids[1] == ["B", "A", "B", "C"]
    requires !Unique(["A"], oldText) && AdoptAfter(kids[1], ["A"], oldText, 1) == Some(2)
    ensures ProcessNode(nodes, kids, 0, oldText) == Continue(kids[1 := ["B", "C"]], AfterNode(nodes[0], ["B", "A"]))
  {
    NodeTypesDistinct();
    assert kids[1][..2] == ["B", "A"] && kids[1][2..] == ["B", "C"];
    ghost var core := SearchCore(nodes[0]);
    assert core == ["A"];
    assert !Unique(core, oldText) && AdoptAfter(kids[1], core, oldText, 1) == Some(2);
    assert BorrowBefore(nodes, kids, 0, core, oldText) == None;
    BorrowsAfter(nodes, kids, 0, oldText, 2);
  }

  /** A deletion with no unique context before it borrows the shortest unique run of the KEEP region after it. */
  lemma DeleteWithContextAfterExample(diff: (seq<string>, seq<string>) -> seq<Delta>)
    requires diff(AfterOld(), AfterNew()) ==
      [Delta(Delete, ["A"], []), Delta(Equal, ["B", "A", "B", "C"], ["B", "A", "B", "C"])]
    ensures MinimalCommentDiffs(diff, AfterOld(), AfterNew()) ==
      [REPLACE_OLD_DELETE_KEEP_AFTER, "A", "B", "A", REPLACE_NEW_DELETE_KEEP_AFTER, "B", "A", REPLACE_END]
  {
    var nodes := CoarseNodes(diff(AfterOld(), AfterNew()));
    AfterNodes(diff);
    AfterFrequencies();
    AfterWalk(nodes, Join(AfterOld(), ' '));
    AfterEmit();
  }

  lemma AfterSpan()
    ensures AfterNode(Node(DELETE, ["A"]), ["B", "A"]) ==
      Node(REPLACE, [REPLACE_OLD_DELETE_KEEP_AFTER, "A", "B", "A", REPLACE_NEW_DELETE_KEEP_AFTER, "B", "A"])
  {
  }

  lemma AfterEmit()
    ensures EmitAll([AfterNode(Node(DELETE, ["A"]), ["B", "A"]), Node(KEEP, ["B", "C"])]) ==
      [REPLACE_OLD_DELETE_KEEP_AFTER, "A", "B", "A", REPLACE_NEW_DELETE_KEEP_AFTER, "B", "A", REPLACE_END]
  {
    var e := AfterNode(Node(DELETE, ["A"]), ["B", "A"]);
    AfterSpan();
    EmitTwo(e, Node(KEEP, ["B", "C"]));
    EmitByType(e);
    EmitByType(Node(KEEP, ["B", "C"]));
  }

  // ----- "cruel hello world !" -> "cruel hello cruel world ?" -----

  function MixedOld(): seq<string> { ["cruel", "hello", "world", "!"] }
  function MixedNew(): seq<string> { ["cruel", "hello", "cruel", "world", "?"] }

  function MixedDeltas(): seq<Delta> {
    [Delta(Equal, ["cruel", "hello"], ["cruel", "hello"]), Delta(Insert, [], ["cruel"]),
     Delta(Equal, ["world"], ["world"]), Delta(Change, ["!"], ["?"])]
  }

  lemma MixedCoarse(diff: (seq<string>, seq<string>) -> seq<Delta>)
    requires diff(MixedOld(), MixedNew()) == MixedDeltas()
    ensures CoarseNodes(diff(MixedOld(), MixedNew())) ==
      [Node(KEEP, ["cruel", "hello"]), Node(INSERT, ["cruel"]), Node(KEEP, ["world"]), Node(REPLACE, ["!", REPLACE_NEW, "?"])]
  {
    assert ["!"] + [REPLACE_NEW] + ["?"] == ["!", REPLACE_NEW, "?"];
  }

  lemma MixedFrequencies()
    ensures Unique(["hello"], Join(MixedOld(), ' '))
    ensures Unique(["!"], Join(MixedOld(), ' '))
  {
    FrequencyOfTokens(["hello"], MixedOld());
    MixedPosition("hello", 1);
    FrequencyOfTokens(["!"], MixedOld());
    MixedPosition("!", 3);
  }

  lemma MixedPosition(token: string, p: nat)
    requires p < |MixedOld()| && MixedOld()[p] == token
    requires forall q :: 0 <= q < |MixedOld()| && q != p ==> MixedOld()[q] != token
    ensures ValidPositionsFrom([token], MixedOld(), 0) == [p]
  {
    var f := MixedOld();
    var r := ValidPositionsFrom([token], f, 0);
    ValidPositionsFromMeaning([token], f, 0);
    forall q ensures q in r <==> q == p {
      SingleTokenMatch(token, f, q);
    }
    assert p in r && r[0] in r && r[|r| - 1] in r;
  }

  lemma MixedShaped()
    ensures CoarseShaped([Node(KEEP, ["cruel", "hello"]), Node(INSERT, ["cruel"]), Node(KEEP, ["world"]), Node(REPLACE, ["!", REPLACE_NEW, "?"])])
  {
  }

  /** The walk over the last two nodes: "world" is kept and the unique "!" is replaced without context. */
  lemma MixedWalkTail(nodes: seq<Node>, kids: seq<seq<string>>, oldText: string, prefix: seq<Node>)
    requires CoarseShaped(nodes) && |nodes| == 4 && |kids| == 4
    requires nodes[2].editType == KEEP && nodes[3] == Node(REPLACE, ["!", REPLACE_NEW, "?"])
    requires Unique(["!"], oldText)
    ensures Process(nodes, kids, 2, oldText, prefix) == Some(prefix + [Node(KEEP, kids[2]), Node(REPLACE, [REPLACE_OLD, "!", REPLACE_NEW, "?"])])
  {
    var k2 := Node(KEEP, kids[2]);
    assert ProcessNode(nodes, kids, 2, oldText) == Continue(kids, k2);
    assert RepOld(nodes[3].children) == ["!"];
    DirectWhenUnique(nodes, kids, 3, oldText);
    var e3 := DirectNode(nodes[3]);
    assert e3 == Node(REPLACE, [REPLACE_OLD, "!", REPLACE_NEW, "?"]);
    assert Process(nodes, kids, 4, oldText, prefix + [k2] + [e3]) == Some(prefix + [k2] + [e3]);
    assert prefix + [k2] + [e3] == prefix + [k2, e3];
  }

  /** The insertion borrows "hello", the last token of the KEEP node before it. */
  lemma MixedInsertStep(nodes: seq<Node>, kids: seq<seq<string>>, oldText: string)
    requires CoarseShaped(nodes) && |nodes| == 4 && |kids| == 4
    requires nodes[0].editType == KEEP && kids[0] == ["cruel", "hello"] && nodes[1] == Node(INSERT, ["cruel"])
    requires Unique(["hello"], oldText)
    ensures ProcessNode(nodes, kids, 1, oldText) == Continue(kids[0 := ["cruel"]], Node(INSERT, [INSERT_OLD_KEEP_BEFORE, "hello", INSERT_NEW_KEEP_BEFORE, "hello", "cruel"]))
  {
    assert TakeLast(kids[0], 1) + SearchCore(nodes[1]) == ["hello"];
    assert AdoptBefore(kids[0], SearchCore(nodes[1]), oldText, 1) == Some(1);
    BorrowsBefore(nodes, kids, 1, oldText, 1);
    assert DropLast(kids[0], 1) == ["cruel"];
    assert BeforeNode(nodes[1], TakeLast(kids[0], 1)) == Node(INSERT, [INSERT_OLD_KEEP_BEFORE, "hello", INSERT_NEW_KEEP_BEFORE, "hello", "cruel"]);
  }

  /** The whole walk: the insertion borrows "hello", then the tail above. */
  lemma MixedWalk(nodes: seq<Node>, oldText: string)
    requires CoarseShaped(nodes) && |nodes| == 4
    requires nodes[0] == Node(KEEP, ["cruel", "hello"]) && nodes[1] == Node(INSERT, ["cruel"])
    requires nodes[2] == Node(KEEP, ["world"]) && nodes[3] == Node(REPLACE, ["!", REPLACE_NEW, "?"])
    requires Unique(["hello"], oldText) && Unique(["!"], oldText)
    ensures Process(nodes, ChildrenOf(nodes), 0, oldText, []) == Some([nodes[0], Node(INSERT, [INSERT_OLD_KEEP_BEFORE, "hello", INSERT_NEW_KEEP_BEFORE, "hello", "cruel"]), nodes[2], Node(REPLACE, [REPLACE_OLD, "!", REPLACE_NEW, "?"])])
  {
    var kids := ChildrenOf(nodes);
    MixedInsertStep(nodes, kids, oldText);
    var kids' := kids[0 := ["cruel"]];
    var e1 := Node(INSERT, [INSERT_OLD_KEEP_BEFORE, "hello", INSERT_NEW_KEEP_BEFORE, "hello", "cruel"]);
    MixedWalkTail(nodes, kids', oldText, [nodes[0], e1]);
    var out := [nodes[0], e1, nodes[2], Node(REPLACE, [REPLACE_OLD, "!", REPLACE_NEW, "?"])];
    assert [nodes[0], e1] + [Node(KEEP, kids'[2]), Node(REPLACE, [REPLACE_OLD, "!", REPLACE_NEW, "?"])] == out;
    assert [nodes[0]] + [e1] == [nodes[0], e1];
    assert Process(nodes, kids', 2, oldText, [nodes[0], e1]) == Some(out);
    assert Process(nodes, kids, 1, oldText, [nodes[0]]) == Some(out);
    assert ProcessNode(nodes, kids, 0, oldText) == Continue(kids, nodes[0]);
    assert [] + [nodes[0]] == [nodes[0]];
  }

  /** An insertion that borrows context, followed by a unique replacement emitted without context. */
  lemma MixedExample(diff: (seq<string>, seq<string>) -> seq<Delta>)
    requires diff(MixedOld(), MixedNew()) == MixedDeltas()
    ensures MinimalCommentDiffs(diff, MixedOld(), MixedNew()) ==
      [INSERT_OLD_KEEP_BEFORE, "hello", INSERT_NEW_KEEP_BEFORE, "hello", "cruel", INSERT_END,
       REPLACE_OLD, "!", REPLACE_NEW, "?", REPLACE_END]
  {
    MixedCoarse(diff);
    MixedFrequencies();
    MixedShaped();
    MixedWalk([Node(KEEP, ["cruel", "hello"]), Node(INSERT, ["cruel"]), Node(KEEP, ["world"]), Node(REPLACE, ["!", REPLACE_NEW, "?"])], Join(MixedOld(), ' '));
    MixedEmit();
  }

  lemma MixedEmit()
    ensures EmitAll([Node(KEEP, ["cruel", "hello"]), Node(INSERT, [INSERT_OLD_KEEP_BEFORE, "hello", INSERT_NEW_KEEP_BEFORE, "hello", "cruel"]), Node(KEEP, ["world"]), Node(REPLACE, [REPLACE_OLD, "!", REPLACE_NEW, "?"])]) ==
      [INSERT_OLD_KEEP_BEFORE, "hello", INSERT_NEW_KEEP_BEFORE, "hello", "cruel", INSERT_END,
       REPLACE_OLD, "!", REPLACE_NEW, "?", REPLACE_END]
  {
    var e1 := Node(INSERT, [INSERT_OLD_KEEP_BEFORE, "hello", INSERT_NEW_KEEP_BEFORE, "hello", "cruel"]);
    var e3 := Node(REPLACE, [REPLACE_OLD, "!", REPLACE_NEW, "?"]);
    EmitFour(Node(KEEP, ["cruel", "hello"]), e1, Node(KEEP, ["world"]), e3);
    EmitByType(Node(KEEP, ["cruel", "hello"]));
    EmitByType(e1);
    EmitByType(Node(KEEP, ["world"]));
    EmitByType(e3);
  }
}
