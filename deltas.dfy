/**
 * The delta list of the line diff that CodeCommentDiffs obtains from
 * java-diff-utils (`DiffUtils.diff(old, new, includeEqualities = true)`).
 * That library is not part of this model: its result is taken as a value, and
 * what the library guarantees about it is stated by `WellFormed`.
 */
module Deltas {

  datatype DeltaType = Equal | Change | Insert | Delete

  /** One delta: its type, the lines it covers in the source and in the target. */
  datatype Delta = Delta(deltaType: DeltaType, source: seq<string>, target: seq<string>)

  /** The source lines of all deltas, in order. */
  function Sources(deltas: seq<Delta>): seq<string> {
    if deltas == [] then [] else Sources(deltas[..|deltas| - 1]) + deltas[|deltas| - 1].source
  }

  /** The target lines of all deltas, in order. */
  function Targets(deltas: seq<Delta>): seq<string> {
    if deltas == [] then [] else Targets(deltas[..|deltas| - 1]) + deltas[|deltas| - 1].target
  }

  /** The shape a single delta of java-diff-utils has. */
  predicate DeltaShape(d: Delta) {
    match d.deltaType
    case Equal => d.source == d.target && d.source != []
    case Change => d.source != [] && d.target != []
    case Insert => d.source == [] && d.target != []
    case Delete => d.source != [] && d.target == []
  }

  /**
   * A delta list for `before` -> `after` with equalities included: every delta has its
   * type's shape and the deltas cover both token lists, in order.
   */
  ghost predicate WellFormed(deltas: seq<Delta>, before: seq<string>, after: seq<string>) {
    && (forall i :: 0 <= i < |deltas| ==> DeltaShape(deltas[i]))
    && Sources(deltas) == before
    && Targets(deltas) == after
  }

  predicate AllEqual(deltas: seq<Delta>) {
    forall i :: 0 <= i < |deltas| ==> deltas[i].deltaType == Equal
  }

  /** What the model requires of the diff library: well-formed deltas, and no edits between equal lists. */
  ghost predicate DiffContract(diff: (seq<string>, seq<string>) -> seq<Delta>) {
    && (forall a, b :: WellFormed(diff(a, b), a, b))
    && (forall a :: AllEqual(diff(a, a)))
  }

  /** The concrete delta list java-diff-utils produces for two equal token lists. */
  function EqualDiff(tokens: seq<string>): (r: seq<Delta>)
    ensures AllEqual(r)
  {
    if tokens == [] then [] else [Delta(Equal, tokens, tokens)]
  }

  lemma EqualDiffWellFormed(tokens: seq<string>)
    ensures WellFormed(EqualDiff(tokens), tokens, tokens)
  {
    if tokens != [] {
      assert EqualDiff(tokens)[..0] == [];
    }
  }

  /**
   * A simple diff that deletes all of `a` and inserts all of `b` (skipping an
   * empty side), or keeps everything when the lists are equal.
   */
  function DeleteInsertDiff(a: seq<string>, b: seq<string>): (r: seq<Delta>)
    ensures a == b ==> AllEqual(r)
  {
    if a == b then EqualDiff(a)
    else (if a == [] then [] else [Delta(Delete, a, [])]) + (if b == [] then [] else [Delta(Insert, [], b)])
  }

  /** The delete-all/insert-all diff is well formed for every pair of token lists. */
  lemma DeleteInsertWellFormed(a: seq<string>, b: seq<string>)
    ensures WellFormed(DeleteInsertDiff(a, b), a, b)
  {
    if a == b {
      EqualDiffWellFormed(a);
    } else {
      var r := DeleteInsertDiff(a, b);
      if a != [] && b != [] {
        var first := [Delta(Delete, a, [])];
        var second := Delta(Insert, [], b);
        assert r == first + [second];
        assert r[..|r| - 1] == first && r[|r| - 1] == second;
        assert first[..0] == [];
        assert Sources(first) == a && Targets(first) == [];
        assert Sources(r) == Sources(first) + second.source;
        assert Targets(r) == Targets(first) + second.target;
      } else if a != [] {
        assert r[..0] == [];
      } else {
        assert r[..0] == [];
      }
    }
  }

  /**
   * The contract demanded of the diff library can be met, so the results
   * stated under it are not vacuous.
   */
  lemma DiffContractSatisfiable()
    ensures exists diff :: DiffContract(diff)
  {
    var diff := (a: seq<string>, b: seq<string>) => DeleteInsertDiff(a, b);
    forall a, b ensures WellFormed(diff(a, b), a, b) {
      DeleteInsertWellFormed(a, b);
    }
    assert DiffContract(diff);
  }
}
