/**
 * `RefactoringExtractor`: the six method-level refactoring types the plugin
 * reacts to, the grouping of refactorings by the method they apply to, and
 * the filtering step of `extract`. RefactoringMiner itself, which builds the
 * refactorings of a change, is the parameter `detect`.
 */
module RefactoringExtractor {
  import opened Wrappers
  import opened Collections
  import opened Refactorings

  /** `REFACTORINGS`. */
  const REFACTORINGS: set<RefactoringType> :=
    {RenameMethod, AddParameter, RemoveParameter, ChangeReturnType, ChangeParameterType, RenameParameter}

  predicate InRefactorings(r: Refactoring) {
    r.refactoringType in REFACTORINGS
  }

  /** The class the source casts a refactoring of each of the six types to. */
  function CastClass(t: RefactoringType): Option<MinerClass> {
    match t
    case RenameMethod => Some(RenameOperationRefactoring)
    case RenameParameter => Some(RenameVariableRefactoring)
    case RemoveParameter => Some(RemoveParameterRefactoring)
    case AddParameter => Some(AddParameterRefactoring)
    case ChangeReturnType => Some(ChangeReturnTypeRefactoring)
    case ChangeParameterType => Some(ChangeVariableTypeRefactoring)
    case _ => None
  }

  /** The `as` casts of `methodsToRefactoringTypes` succeed on `r`. */
  predicate CastSucceeds(r: Refactoring) {
    CastClass(r.refactoringType).Some? ==> r.minerClass == CastClass(r.refactoringType).value
  }

  /**
   * The bucket key: `className.name` of the operation after the refactoring
   * (the renamed operation of a method rename), or "" for the other types.
   */
  function MethodKey(r: Refactoring): string {
    match r.refactoringType
    case RenameMethod => r.after.className + "." + r.after.name
    case RenameParameter => r.after.className + "." + r.after.name
    case RemoveParameter => r.after.className + "." + r.after.name
    case AddParameter => r.after.className + "." + r.after.name
    case ChangeReturnType => r.after.className + "." + r.after.name
    case ChangeParameterType => r.after.className + "." + r.after.name
    case _ => ""
  }

  /** The six types are exactly those with a cast, and their key is the name part of the after-operation's full name. */
  lemma MethodKeyIsFullName(r: Refactoring)
    ensures InRefactorings(r) <==> CastClass(r.refactoringType).Some?
    ensures InRefactorings(r) ==> MethodKey(r) == FullName(r.after).name
    ensures !InRefactorings(r) ==> MethodKey(r) == ""
  {
  }

  /** The grouping the loop of `methodsToRefactoringTypes` builds, one refactoring at a time. */
  function Grouped(rs: seq<Refactoring>): map<string, seq<Refactoring>> {
    if rs == [] then map[]
    else
      var m := Grouped(rs[..|rs| - 1]);
      var r := rs[|rs| - 1];
      var k := MethodKey(r);
      m[k := (if k in m then m[k] else []) + [r]]
  }

  /** Grouping one more refactoring appends it to the bucket of its key. */
  lemma GroupedStep(rs: seq<Refactoring>, i: nat)
    requires i < |rs|
    ensures var m := Grouped(rs[..i]); var k := MethodKey(rs[i]);
            Grouped(rs[..i + 1]) == m[k := (if k in m then m[k] else []) + [rs[i]]]
  {
    var next := rs[..i + 1];
    assert next[..|next| - 1] == rs[..i] && next[|next| - 1] == rs[i];
  }

  /** The `containsKey` test of the loop: append to the existing bucket, or start a new one. */
  method AddToBucket(m: map<string, seq<Refactoring>>, k: string, r: Refactoring) returns (m': map<string, seq<Refactoring>>)
    ensures m' == m[k := (if k in m then m[k] else []) + [r]]
  {
    if k in m {
      m' := m[k := m[k] + [r]];
    } else {
      assert [] + [r] == [r];
      m' := m[k := [r]];
    }
  }

  /**
   * `methodsToRefactoringTypes`. An `as` cast that does not match the
   * refactoring's class throws `ClassCastException`, which ends the call.
   */
  method MethodsToRefactoringTypes(refactorings: seq<Refactoring>) returns (result: Result<map<string, seq<Refactoring>>>)
    ensures result.Failure? <==> exists i :: 0 <= i < |refactorings| && !CastSucceeds(refactorings[i])
    ensures result.Success? ==> result.value == Grouped(refactorings)
  {
    var methodToRefactorings := map[];
    var i := 0;
    while i < |refactorings|
      invariant 0 <= i <= |refactorings|
      invariant forall j :: 0 <= j < i ==> CastSucceeds(refactorings[j])
      invariant methodToRefactorings == Grouped(refactorings[..i])
    {
      var r := refactorings[i];
      if !CastSucceeds(r) {
        return Failure("ClassCastException");
      }
      var methodName := MethodKey(r);
      GroupedStep(refactorings, i);
      methodToRefactorings := AddToBucket(methodToRefactorings, methodName, r);
      i := i + 1;
    }
    assert refactorings[..|refactorings|] == refactorings;
    return Success(methodToRefactorings);
  }

  /** The predicate "belongs to the bucket `k`". */
  function KeyIs(k: string): Refactoring -> bool {
    r => MethodKey(r) == k
  }

  /**
   * Each bucket holds, in input order, exactly the refactorings with its key,
   * and there is a bucket exactly for the keys that occur.
   */
  lemma {:induction false} GroupedIsFilter(rs: seq<Refactoring>)
    ensures forall k :: k in Grouped(rs) ==> Grouped(rs)[k] == Filter(rs, KeyIs(k)) && Grouped(rs)[k] != []
    ensures forall k :: k !in Grouped(rs) ==> Filter(rs, KeyIs(k)) == []
  {
    if rs != [] {
      var init := rs[..|rs| - 1];
      GroupedIsFilter(init);
    }
  }

  /**
   * Every refactoring lands in the bucket of its own key and in no other one,
   * each bucket keeps the input order, and the keys are exactly those of the input.
   */
  lemma GroupedPartition(rs: seq<Refactoring>)
    ensures forall k :: k in Grouped(rs) <==> exists r :: r in rs && MethodKey(r) == k
    ensures forall k :: k in Grouped(rs) ==> Grouped(rs)[k] == Filter(rs, KeyIs(k))
    ensures forall k, r :: k in Grouped(rs) && r in Grouped(rs)[k] ==> r in rs && MethodKey(r) == k
    ensures forall r :: r in rs ==> MethodKey(r) in Grouped(rs) && r in Grouped(rs)[MethodKey(r)]
  {
    GroupedIsFilter(rs);
    forall k ensures (forall r :: r in Filter(rs, KeyIs(k)) <==> r in rs && MethodKey(r) == k) {
      FilterMembers(rs, KeyIs(k));
    }
    forall k | exists r :: r in rs && MethodKey(r) == k ensures k in Grouped(rs) {
      var r :| r in rs && MethodKey(r) == k;
      assert r in Filter(rs, KeyIs(k));
    }
    forall k | k in Grouped(rs) ensures exists r :: r in rs && MethodKey(r) == k {
      assert Grouped(rs)[k][0] in Filter(rs, KeyIs(k));
    }
  }

  /**
   * The filtering step of `extract`: nothing when either revision's content is
   * missing (or cannot be read), otherwise the detected refactorings of the six types.
   */
  function Extract(oldContent: Option<string>, newContent: Option<string>,
                   detect: (string, string) -> seq<Refactoring>): seq<Refactoring>
  {
    if oldContent.None? || newContent.None? then []
    else Filter(detect(oldContent.value, newContent.value), InRefactorings)
  }

  /** `extract` keeps, in order, exactly the detected refactorings of the six types, and yields nothing without both contents. */
  lemma ExtractMeaning(oldContent: Option<string>, newContent: Option<string>, detect: (string, string) -> seq<Refactoring>)
    ensures (oldContent.None? || newContent.None?) ==> Extract(oldContent, newContent, detect) == []
    ensures oldContent.Some? && newContent.Some? ==>
      forall r :: r in Extract(oldContent, newContent, detect) <==>
        r in detect(oldContent.value, newContent.value) && r.refactoringType in REFACTORINGS
    ensures |Extract(oldContent, newContent, detect)| <= |if oldContent.Some? && newContent.Some? then detect(oldContent.value, newContent.value) else []|
  {
    if oldContent.Some? && newContent.Some? {
      FilterMembers(detect(oldContent.value, newContent.value), InRefactorings);
    }
  }
}
