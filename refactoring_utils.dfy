/**
 * `RefactoringUtils`: the name-change map and the class rename/move map built
 * from a list of RefactoringMiner refactorings. A refactoring of an accepted
 * type whose object is not of an expected class makes the source throw; that
 * is the `Failure` result here.
 */
module RefactoringUtils {
  import opened Wrappers
  import opened Collections
  import opened Refactorings

  /** The four types whose refactorings change a method's full name. */
  predicate IsNameChange(t: RefactoringType) {
    t == RenameMethod || t == ChangeParameterType || t == AddParameter || t == RemoveParameter
  }

  predicate ChangesName(r: Refactoring) {
    IsNameChange(r.refactoringType)
  }

  /** The classes that carry an operation before and after. */
  predicate HasOperations(c: MinerClass) {
    c == RenameOperationRefactoring || c == ChangeVariableTypeRefactoring ||
    c == AddParameterRefactoring || c == RemoveParameterRefactoring
  }

  predicate AllHaveOperations(rs: seq<Refactoring>) {
    forall i :: 0 <= i < |rs| ==> HasOperations(rs[i].minerClass)
  }

  /** The pair `newFullName to oldFullName` the source builds for a name change. */
  function NamePair(r: Refactoring): (MethodNameWithParam, MethodNameWithParam) {
    (FullName(r.after), FullName(r.before))
  }

  /**
   * `extractFullNameChanges`: the name changes, keyed by the full name AFTER
   * the refactoring and mapping to the full name BEFORE it; later pairs win.
   */
  function ExtractFullNameChanges(refactorings: seq<Refactoring>): Result<map<MethodNameWithParam, MethodNameWithParam>> {
    var accepted := Filter(refactorings, ChangesName);
    if !AllHaveOperations(accepted) then Failure("Unknown refactoring type")
    else Success(AssociateBy(accepted, NamePair))
  }

  /** The source throws exactly when a name-changing refactoring is not of one of the four operation classes. */
  lemma FullNameChangesFails(refactorings: seq<Refactoring>)
    ensures ExtractFullNameChanges(refactorings).Failure? <==>
      exists r :: r in refactorings && IsNameChange(r.refactoringType) && !HasOperations(r.minerClass)
  {
    var p := ChangesName;
    var accepted := Filter(refactorings, p);
    FilterMembers(refactorings, p);
    if exists r :: r in refactorings && IsNameChange(r.refactoringType) && !HasOperations(r.minerClass) {
      var r :| r in refactorings && IsNameChange(r.refactoringType) && !HasOperations(r.minerClass);
      assert r in accepted;
      var i :| 0 <= i < |accepted| && accepted[i] == r;
    }
    if exists i :: 0 <= i < |accepted| && !HasOperations(accepted[i].minerClass) {
      var i :| 0 <= i < |accepted| && !HasOperations(accepted[i].minerClass);
      assert accepted[i] in accepted;
    }
  }

  /**
   * The keys of the map are the after-names of the name-changing refactorings,
   * and a refactoring that no later name change with the same after-name
   * overrides maps its after-name to its before-name.
   */
  lemma FullNameChangesMeaning(a: seq<Refactoring>, r: Refactoring, b: seq<Refactoring>)
    requires ExtractFullNameChanges(a + [r] + b).Success?
    requires IsNameChange(r.refactoringType)
    requires forall i :: 0 <= i < |b| && IsNameChange(b[i].refactoringType) ==> FullName(b[i].after) != FullName(r.after)
    ensures var m := ExtractFullNameChanges(a + [r] + b).value;
      FullName(r.after) in m && m[FullName(r.after)] == FullName(r.before)
  {
    FilterSplit(a, r, b, ChangesName);
    var fb := Filter(b, ChangesName);
    FilterMembers(b, ChangesName);
    forall i | 0 <= i < |fb| ensures NamePair(fb[i]).0 != NamePair(r).0 {
      assert fb[i] in fb;
      var j :| 0 <= j < |b| && b[j] == fb[i];
    }
    AssociateByLastWins(Filter(a, ChangesName), r, fb, NamePair);
  }

  /** The map holds exactly the after-names of the name-changing refactorings. */
  lemma FullNameChangesKeys(refactorings: seq<Refactoring>)
    requires ExtractFullNameChanges(refactorings).Success?
    ensures forall k :: k in ExtractFullNameChanges(refactorings).value <==>
      exists r :: r in refactorings && IsNameChange(r.refactoringType) && FullName(r.after) == k
  {
    AssociateByFilterKeys(refactorings, ChangesName, NamePair);
  }

  /** The class-level types, as the source filters them. */
  predicate IsClassMove(t: RefactoringType) {
    t == MoveClass || t == MoveRenameClass
  }

  predicate MovesClass(r: Refactoring) {
    IsClassMove(r.refactoringType)
  }

  predicate HasClassNames(c: MinerClass) {
    c == MoveClassRefactoring || c == MoveAndRenameClassRefactoring
  }

  /** The pair `originalClassName to movedClassName` (or `renamedClassName`). */
  function ClassPair(r: Refactoring): (string, string) {
    (r.originalClassName, r.newClassName)
  }

  predicate AllHaveClassNames(rs: seq<Refactoring>) {
    forall i :: 0 <= i < |rs| ==> HasClassNames(rs[i].minerClass)
  }

  /** `extractClassRenamesAndMoves`: original class name to moved or renamed class name; later entries win. */
  function ExtractClassRenamesAndMoves(allRefactorings: seq<Refactoring>): Result<map<string, string>> {
    var moves := Filter(allRefactorings, MovesClass);
    if !AllHaveClassNames(moves) then Failure("Unknown class-level refactoring type.")
    else Success(AssociateBy(moves, ClassPair))
  }

  /**
   * The map fails exactly on a class move of an unexpected class; otherwise its
   * keys are the original names of the class moves, and a move that no later
   * move of the same class overrides gives that class's new name.
   */
  lemma ClassRenamesMeaning(a: seq<Refactoring>, r: Refactoring, b: seq<Refactoring>)
    requires IsClassMove(r.refactoringType)
    requires forall i :: 0 <= i < |b| && IsClassMove(b[i].refactoringType) ==> b[i].originalClassName != r.originalClassName
    ensures ExtractClassRenamesAndMoves(a + [r] + b).Success? ==>
      var m := ExtractClassRenamesAndMoves(a + [r] + b).value;
      r.originalClassName in m && m[r.originalClassName] == r.newClassName
    ensures !HasClassNames(r.minerClass) ==> ExtractClassRenamesAndMoves(a + [r] + b).Failure?
  {
    FilterSplit(a, r, b, MovesClass);
    var fa := Filter(a, MovesClass);
    var fb := Filter(b, MovesClass);
    assert Filter(a + [r] + b, MovesClass)[|fa|] == r;
    FilterMembers(b, MovesClass);
    forall i | 0 <= i < |fb| ensures ClassPair(fb[i]).0 != ClassPair(r).0 {
      assert fb[i] in fb;
      var j :| 0 <= j < |b| && b[j] == fb[i];
    }
    AssociateByLastWins(fa, r, fb, ClassPair);
  }

  /** The source throws exactly when a class move is not of one of the two class-level classes. */
  lemma ClassRenamesFails(allRefactorings: seq<Refactoring>)
    ensures ExtractClassRenamesAndMoves(allRefactorings).Failure? <==>
      exists r :: r in allRefactorings && IsClassMove(r.refactoringType) && !HasClassNames(r.minerClass)
  {
    var p := MovesClass;
    var moves := Filter(allRefactorings, p);
    FilterMembers(allRefactorings, p);
    if exists r :: r in allRefactorings && IsClassMove(r.refactoringType) && !HasClassNames(r.minerClass) {
      var r :| r in allRefactorings && IsClassMove(r.refactoringType) && !HasClassNames(r.minerClass);
      assert r in moves;
      var i :| 0 <= i < |moves| && moves[i] == r;
    }
    if exists i :: 0 <= i < |moves| && !HasClassNames(moves[i].minerClass) {
      var i :| 0 <= i < |moves| && !HasClassNames(moves[i].minerClass);
      assert moves[i] in moves;
    }
  }

  /** Only class moves give keys: the map holds exactly the original names of the moved classes. */
  lemma ClassRenamesKeys(allRefactorings: seq<Refactoring>)
    requires ExtractClassRenamesAndMoves(allRefactorings).Success?
    ensures forall k :: k in ExtractClassRenamesAndMoves(allRefactorings).value <==>
      exists r :: r in allRefactorings && IsClassMove(r.refactoringType) && r.originalClassName == k
  {
    AssociateByFilterKeys(allRefactorings, MovesClass, ClassPair);
  }

  /** RefactoringMiner gives every name-changing type one of the four operation classes, so the map is then always built. */
  lemma FullNameChangesTotal(refactorings: seq<Refactoring>)
    requires forall i :: 0 <= i < |refactorings| && IsNameChange(refactorings[i].refactoringType) ==>
      HasOperations(refactorings[i].minerClass)
    ensures ExtractFullNameChanges(refactorings).Success?
  {
    FullNameChangesFails(refactorings);
  }
}
