/**
 * Token-aligned substring search of the diff engine: `getValidPositions` and
 * `getFrequency` split both strings at single spaces and look for the search
 * tokens as a contiguous run of the full token sequence.
 */
module DiffPositions {
  import opened Text

  /** `search` occurs in `full` as a contiguous run starting at token `p`. */
  predicate MatchesAt(search: seq<string>, full: seq<string>, p: int) {
    0 <= p && p + |search| <= |full| && full[p..p + |search|] == search
  }

  /** The test the source applies to a candidate position: first token equal, and every search token in range and equal. */
  predicate CandidateMatches(search: seq<string>, full: seq<string>, p: nat)
    requires |search| > 0 && p < |full|
  {
    full[p] == search[0] &&
    forall k :: 0 <= k < |search| ==> p + k < |full| && full[p + k] == search[k]
  }

  lemma CandidateMatchesIsMatch(search: seq<string>, full: seq<string>, p: nat)
    requires |search| > 0 && p < |full|
    ensures CandidateMatches(search, full, p) <==> MatchesAt(search, full, p)
  {
    if MatchesAt(search, full, p) {
      forall k | 0 <= k < |search| ensures full[p + k] == search[k] {
        assert full[p..p + |search|][k] == full[p + k];
      }
    }
    if CandidateMatches(search, full, p) {
      var last := |search| - 1;
      assert p + last < |full| && full[p + last] == search[last];
      assert full[p..p + |search|] == search by {
        forall k | 0 <= k < |search| ensures full[p..p + |search|][k] == search[k] {
          assert full[p + k] == search[k];
        }
      }
    }
  }

  predicate StrictlyIncreasing(r: seq<nat>) {
    forall a, b :: 0 <= a < b < |r| ==> r[a] < r[b]
  }

  /** The positions `q >= p` of `full` where the source's candidate test accepts `search`, in ascending order. */
  function ValidPositionsFrom(search: seq<string>, full: seq<string>, p: nat): seq<nat>
    requires |search| > 0 && p <= |full|
    decreases |full| - p
  {
    if p == |full| then []
    else
      var rest := ValidPositionsFrom(search, full, p + 1);
      if CandidateMatches(search, full, p) then [p] + rest else rest
  }

  /** The positions found from `p` on are exactly the matching positions `q >= p`, strictly increasing. */
  lemma {:induction false} ValidPositionsFromMeaning(search: seq<string>, full: seq<string>, p: nat)
    requires |search| > 0 && p <= |full|
    ensures forall q :: q in ValidPositionsFrom(search, full, p) <==> p <= q < |full| && MatchesAt(search, full, q)
    ensures StrictlyIncreasing(ValidPositionsFrom(search, full, p))
    decreases |full| - p
  {
    if p < |full| {
      var rest := ValidPositionsFrom(search, full, p + 1);
      ValidPositionsFromMeaning(search, full, p + 1);
      CandidateMatchesIsMatch(search, full, p);
      forall b | 0 <= b < |rest| ensures p < rest[b] {
        assert rest[b] in rest;
      }
    }
  }

  /** `getValidPositions`: every token index where the space-split search string matches the space-split full string. */
  function GetValidPositions(searchString: string, fullString: string): seq<nat> {
    var searchSequence := Split(searchString, ' ');
    var fullSequence := Split(fullString, ' ');
    if |searchSequence| == 0 then []
    else ValidPositionsFrom(searchSequence, fullSequence, 0)
  }

  /** The valid positions are exactly the token indices where the search tokens match, in ascending order. */
  lemma ValidPositionsMeaning(searchString: string, fullString: string)
    ensures forall q :: q in GetValidPositions(searchString, fullString) <==>
      MatchesAt(Split(searchString, ' '), Split(fullString, ' '), q)
    ensures StrictlyIncreasing(GetValidPositions(searchString, fullString))
  {
    var searchSequence := Split(searchString, ' ');
    var fullSequence := Split(fullString, ' ');
    if |searchSequence| > 0 {
      ValidPositionsFromMeaning(searchSequence, fullSequence, 0);
    }
  }

  /** No position at all. */
  ghost predicate NeverOccurs(search: seq<string>, full: seq<string>) {
    forall q: int :: !MatchesAt(search, full, q)
  }

  /** Exactly one position: the meaning of `getFrequency(...) == 1`, the uniqueness test of the diff engine. */
  ghost predicate OccursOnce(search: seq<string>, full: seq<string>) {
    exists p :: MatchesAt(search, full, p) && forall q :: MatchesAt(search, full, q) ==> q == p
  }

  /** `getFrequency`: the number of valid positions. */
  function GetFrequency(searchString: string, fullString: string): nat {
    |GetValidPositions(searchString, fullString)|
  }

  /** A frequency of 0 means no match at all, and a frequency of 1 means exactly one matching position. */
  lemma FrequencyMeaning(searchString: string, fullString: string)
    ensures GetFrequency(searchString, fullString) == 0 <==> NeverOccurs(Split(searchString, ' '), Split(fullString, ' '))
    ensures GetFrequency(searchString, fullString) == 1 <==>
      OccursOnce(Split(searchString, ' '), Split(fullString, ' '))
  {
    ValidPositionsMeaning(searchString, fullString);
    PositionsCount(Split(searchString, ' '), Split(fullString, ' '), GetValidPositions(searchString, fullString));
  }

  /** A sorted list of exactly the matching positions has length 0 iff nothing matches, and 1 iff one position matches. */
  lemma PositionsCount(search: seq<string>, full: seq<string>, positions: seq<nat>)
    requires StrictlyIncreasing(positions)
    requires forall q :: q in positions <==> MatchesAt(search, full, q)
    ensures |positions| == 0 <==> NeverOccurs(search, full)
    ensures |positions| == 1 <==> OccursOnce(search, full)
  {
    if |positions| > 0 {
      assert positions[0] in positions;
      assert MatchesAt(search, full, positions[0]);
    } else {
      forall q: int ensures !MatchesAt(search, full, q) {
        assert q !in positions;
      }
    }
    SingletonIffUnique(positions);
    if |positions| == 1 {
      var p := positions[0];
      assert p in positions;
      forall q | MatchesAt(search, full, q) ensures q == p {
        assert q as nat in positions;
      }
    }
    if OccursOnce(search, full) {
      var p :| MatchesAt(search, full, p) && forall q :: MatchesAt(search, full, q) ==> q == p;
      assert p in positions;
      assert forall x :: x in positions ==> x == p;
    }
  }

  lemma SingletonIffUnique(r: seq<nat>)
    requires StrictlyIncreasing(r)
    ensures |r| == 1 <==> exists x :: x in r && forall q :: q in r ==> q == x
  {
    if |r| == 1 {
      assert r[0] in r;
      assert forall q :: q in r ==> q == r[0];
    } else if |r| == 0 {
      assert forall x :: x !in r;
    } else {
      assert r[0] < r[1];
      forall x | x in r ensures exists q :: q in r && q != x {
        if x == r[0] {
          assert r[1] in r;
        } else {
          assert r[0] in r;
        }
      }
    }
  }

  /** For space-free tokens, the string-level frequency is the number of token-level matches. */
  lemma {:induction false} FrequencyOfTokens(search: seq<string>, full: seq<string>)
    requires |search| > 0 && |full| > 0
    requires forall i :: 0 <= i < |search| ==> ' ' !in search[i]
    requires forall i :: 0 <= i < |full| ==> ' ' !in full[i]
    ensures GetFrequency(Join(search, ' '), Join(full, ' ')) == |ValidPositionsFrom(search, full, 0)|
    ensures GetFrequency(Join(search, ' '), Join(full, ' ')) == 1 <==> OccursOnce(search, full)
  {
    SplitJoin(search, ' ');
    SplitJoin(full, ' ');
    FrequencyMeaning(Join(search, ' '), Join(full, ' '));
  }

  /**
   * The search example of the unit tests: in the ten words of
   * "innuendo some other words innuendo and also other symbols: ?!@#?" joined by
   * single spaces, "innuendo" occurs at tokens 0 and 4.
   */
  lemma InnuendoExample()
    ensures GetValidPositions("innuendo", Join(InnuendoTokens(), ' ')) == [0, 4]
  {
    var tokens := InnuendoTokens();
    InnuendoSpaceFree();
    SplitJoin(tokens, ' ');
    SplitWithoutSep("innuendo", ' ');
    InnuendoMatches();
    ValidPositionsMeaning("innuendo", Join(tokens, ' '));
  }

  function InnuendoTokens(): seq<string> {
    ["innuendo", "some", "other", "words", "innuendo", "and", "also", "other", "symbols:", "?!@#?"]
  }

  lemma InnuendoSpaceFree()
    ensures forall i :: 0 <= i < |InnuendoTokens()| ==> ' ' !in InnuendoTokens()[i]
  {
  }

  lemma InnuendoMatches()
    ensures ValidPositionsFrom(["innuendo"], InnuendoTokens(), 0) == [0, 4]
  {
    var tokens := InnuendoTokens();
    var r := ValidPositionsFrom(["innuendo"], tokens, 0);
    ValidPositionsFromMeaning(["innuendo"], tokens, 0);
    forall q ensures q in r <==> q == 0 || q == 4 {
      SingleTokenMatch("innuendo", tokens, q);
    }
    TwoElementSorted(r, 0, 4);
  }

  lemma SingleTokenMatch(token: string, full: seq<string>, q: int)
    ensures MatchesAt([token], full, q) <==> 0 <= q < |full| && full[q] == token
  {
    if 0 <= q < |full| {
      assert full[q..q + 1] == [full[q]];
    }
  }

  lemma TwoElementSorted(r: seq<nat>, x: nat, y: nat)
    requires StrictlyIncreasing(r) && x < y
    requires forall q :: q in r <==> q == x || q == y
    ensures r == [x, y]
  {
    assert x in r && y in r;
    assert r[0] in r && r[|r| - 1] in r;
    assert |r| >= 2 ==> r[1] in r;
  }
}
