/**
 * The RefactoringMiner objects the refactoring bookkeeping reads, as values,
 * and the `MethodNameWithParam` key of the method utilities.
 */
module Refactorings {

  /** A full method name: `className.name` and the parameter types in declaration order. */
  datatype MethodNameWithParam = MethodNameWithParam(name: string, paramTypes: seq<string>)

  /** The refactoring types the code distinguishes; every other RefactoringMiner type is `OtherType`. */
  datatype RefactoringType =
    | RenameMethod
    | RenameParameter
    | RemoveParameter
    | AddParameter
    | ChangeReturnType
    | ChangeParameterType
    | MoveClass
    | MoveRenameClass
    | OtherType(typeName: string)

  /** The RefactoringMiner class of the object, which the code tests with `is` and `as`. */
  datatype MinerClass =
    | RenameOperationRefactoring
    | RenameVariableRefactoring
    | RemoveParameterRefactoring
    | AddParameterRefactoring
    | ChangeReturnTypeRefactoring
    | ChangeVariableTypeRefactoring
    | MoveClassRefactoring
    | MoveAndRenameClassRefactoring
    | OtherClass

  /** A UML operation: its class, its name, and its parameter types as qualified strings. */
  datatype Operation = Operation(className: string, name: string, parameterTypes: seq<string>)

  /**
   * One refactoring. For the operation-level classes `before`/`after` are the
   * operation before and after (`originalOperation`/`renamedOperation` of a
   * RenameOperationRefactoring); for the class-level ones `newClassName` is the
   * moved or the renamed class name.
   */
  datatype Refactoring = Refactoring(
    refactoringType: RefactoringType,
    minerClass: MinerClass,
    before: Operation,
    after: Operation,
    originalClassName: string,
    newClassName: string)

  /** `className + "." + name` together with the parameter types. */
  function FullName(op: Operation): (r: MethodNameWithParam)
    ensures r.paramTypes == op.parameterTypes
    ensures |r.name| == |op.className| + 1 + |op.name| && r.name[|op.className|] == '.'
    ensures r.name[..|op.className|] == op.className && r.name[|op.className| + 1..] == op.name
  {
    MethodNameWithParam(op.className + "." + op.name, op.parameterTypes)
  }

  /** Two operations have the same full name exactly when class, name and parameter types agree, for dot-free class names. */
  lemma FullNameInjective(a: Operation, b: Operation)
    requires '.' !in a.className && '.' !in b.className
    ensures FullName(a) == FullName(b) <==> a.className == b.className && a.name == b.name && a.parameterTypes == b.parameterTypes
  {
    if FullName(a) == FullName(b) {
      var n := FullName(a).name;
      assert forall j :: 0 <= j < |a.className| ==> n[j] == a.className[j] && a.className[j] in a.className;
      assert forall j :: 0 <= j < |b.className| ==> n[j] == b.className[j] && b.className[j] in b.className;
      assert n[|a.className|] == '.' && n[|b.className|] == '.';
      assert |a.className| == |b.className|;
    }
  }
}
