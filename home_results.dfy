/** What the home page does with the matches the matching service returns:
    it records placeholder details for each program, keyed by program name,
    and sorts the matches in place by descending score with the stable
    `Array.prototype.sort`. */
module HomeResults {
  import opened GrantRecords

  // ---------------------------------------------------------------------
  // Sorting by descending match score
  // ---------------------------------------------------------------------

  /** Scores never increase along `s`. */
  predicate SortedByScore(s: seq<MatchedGrant>)
  {
    forall i, j :: 0 <= i < j < |s| ==> s[i].matchScore >= s[j].matchScore
  }

  /** Inserts `x` into `s`, walking back from the end past the entries
      scoring strictly less: `x` lands after every entry scoring at least as
      much, ties included. */
  function InsertByScore(s: seq<MatchedGrant>, x: MatchedGrant): seq<MatchedGrant>
    decreases |s|
  {
    if s == [] || s[|s| - 1].matchScore >= x.matchScore then s + [x]
    else InsertByScore(s[..|s| - 1], x) + [s[|s| - 1]]
  }

  /** What `results.sort((a, b) => b.matchScore - a.matchScore)` leaves:
      a stable insertion sort by descending score. */
  function SortByScore(s: seq<MatchedGrant>): (sorted: seq<MatchedGrant>)
    ensures SortedByScore(sorted)
    ensures multiset(sorted) == multiset(s)
    decreases |s|
  {
    if s == [] then []
    else
      var front := SortByScore(s[..|s| - 1]);
      InsertSorted(front, s[|s| - 1]);
      InsertPermutes(front, s[|s| - 1]);
      assert s == s[..|s| - 1] + [s[|s| - 1]];
      InsertByScore(front, s[|s| - 1])
  }

  /** Inserting keeps a sorted sequence sorted. */
  lemma {:induction false} InsertSorted(s: seq<MatchedGrant>, x: MatchedGrant)
    requires SortedByScore(s)
    ensures SortedByScore(InsertByScore(s, x))
    ensures forall i :: 0 <= i < |InsertByScore(s, x)| ==>
              InsertByScore(s, x)[i] == x || InsertByScore(s, x)[i] in s
    decreases |s|
  {
    if s != [] && s[|s| - 1].matchScore < x.matchScore {
      var front, last := s[..|s| - 1], s[|s| - 1];
      InsertSorted(front, x);
      var r := InsertByScore(front, x);
      forall i | 0 <= i < |r|
        ensures r[i].matchScore >= last.matchScore
      {
        if r[i] != x {
          var k :| 0 <= k < |front| && front[k] == r[i];
          assert s[k] == front[k];
        }
      }
      forall i | 0 <= i < |r| ensures r[i] == x || r[i] in s
      {
        if r[i] != x {
          assert r[i] in front;
        }
      }
    }
  }

  /** Inserting adds exactly `x`. */
  lemma {:induction false} InsertPermutes(s: seq<MatchedGrant>, x: MatchedGrant)
    ensures multiset(InsertByScore(s, x)) == multiset(s) + multiset{x}
    decreases |s|
  {
    if s != [] && s[|s| - 1].matchScore < x.matchScore {
      var front, last := s[..|s| - 1], s[|s| - 1];
      InsertPermutes(front, x);
      assert s == front + [last];
    }
  }

  /** The entries of `s` scoring exactly `v`, in their order in `s`. */
  function WithScore(s: seq<MatchedGrant>, v: real): seq<MatchedGrant>
    decreases |s|
  {
    if s == [] then []
    else WithScore(s[..|s| - 1], v) + (if s[|s| - 1].matchScore == v then [s[|s| - 1]] else [])
  }

  lemma {:induction false} WithScoreAppend(s: seq<MatchedGrant>, t: seq<MatchedGrant>, v: real)
    ensures WithScore(s + t, v) == WithScore(s, v) + WithScore(t, v)
    decreases |t|
  {
    if t == [] {
      assert s + t == s;
    } else {
      var front, last := t[..|t| - 1], t[|t| - 1];
      WithScoreAppend(s, front, v);
      assert (s + t)[..|s + t| - 1] == s + front;
    }
  }

  lemma WithScoreSingle(x: MatchedGrant, v: real)
    ensures WithScore([x], v) == if x.matchScore == v then [x] else []
  {
    assert [x][..0] == [];
  }

  /** Entries of different scores never both land in one score's entries. */
  lemma DistinctScoresCommute(x: MatchedGrant, y: MatchedGrant, v: real)
    requires x.matchScore != y.matchScore
    ensures WithScore([x], v) + WithScore([y], v) == WithScore([y], v) + WithScore([x], v)
  {
    WithScoreSingle(x, v);
    WithScoreSingle(y, v);
  }

  /** Inserting `x` keeps every score's entries in the order `x` appended last gives. */
  lemma {:induction false} InsertKeepsTies(s: seq<MatchedGrant>, x: MatchedGrant, v: real)
    ensures WithScore(InsertByScore(s, x), v) == WithScore(s + [x], v)
    decreases |s|
  {
    if s != [] && s[|s| - 1].matchScore < x.matchScore {
      var front, last := s[..|s| - 1], s[|s| - 1];
      var wf, wx, wl := WithScore(front, v), WithScore([x], v), WithScore([last], v);
      var inserted := InsertByScore(front, x);
      assert InsertByScore(s, x) == inserted + [last];
      InsertKeepsTies(front, x, v);
      WithScoreAppend(inserted, [last], v);
      WithScoreAppend(front, [x], v);
      assert WithScore(InsertByScore(s, x), v) == (wf + wx) + wl;
      DistinctScoresCommute(x, last, v);
      assert (wf + wx) + wl == (wf + wl) + wx;
      assert s == front + [last];
      WithScoreAppend(front, [last], v);
      WithScoreAppend(s, [x], v);
    }
  }

  /** Sorting one more entry inserts it into the sorted rest. */
  lemma SortByScoreSnoc(s: seq<MatchedGrant>, i: int)
    requires 0 <= i < |s|
    ensures SortByScore(s[..i + 1]) == InsertByScore(SortByScore(s[..i]), s[i])
  {
    assert s[..i + 1][..i] == s[..i];
  }

  /** The sort is stable: among entries of equal score it keeps the order
      the service returned them in. */
  lemma {:induction false} SortIsStable(s: seq<MatchedGrant>, v: real)
    ensures WithScore(SortByScore(s), v) == WithScore(s, v)
    decreases |s|
  {
    if s != [] {
      var front, last := s[..|s| - 1], s[|s| - 1];
      var sorted := SortByScore(front);
      assert s == front + [last];
      SortByScoreSnoc(s, |s| - 1);
      assert SortByScore(s) == InsertByScore(sorted, last);
      SortIsStable(front, v);
      InsertKeepsTies(sorted, last, v);
      var ws, wf, wl := WithScore(sorted, v), WithScore(front, v), WithScore([last], v);
      assert ws == wf;
      WithScoreAppend(sorted, [last], v);
      assert WithScore(SortByScore(s), v) == ws + wl;
      WithScoreAppend(front, [last], v);
      assert WithScore(s, v) == wf + wl;
    }
  }

  /** Every entry scoring `v` is in `WithScore(s, v)`, and nothing else is. */
  lemma {:induction false} WithScoreMembers(s: seq<MatchedGrant>, v: real)
    ensures forall x :: x in WithScore(s, v) <==> x in s && x.matchScore == v
    decreases |s|
  {
    if s != [] {
      WithScoreMembers(s[..|s| - 1], v);
      assert s == s[..|s| - 1] + [s[|s| - 1]];
    }
  }

  /** In a sequence sorted by descending score, the last entry's score is the
      lowest, so it closes its own score's entries. */
  lemma LastOfSorted(s: seq<MatchedGrant>)
    requires SortedByScore(s) && s != []
    ensures WithScore(s, s[|s| - 1].matchScore) != []
    ensures WithScore(s, s[|s| - 1].matchScore)[|WithScore(s, s[|s| - 1].matchScore)| - 1] == s[|s| - 1]
    ensures forall x :: x in s ==> x.matchScore >= s[|s| - 1].matchScore
  {
  }

  /** Equal per-score entries leave no room for only one side to be empty. */
  lemma EmptyTogether(r: seq<MatchedGrant>, t: seq<MatchedGrant>)
    requires forall v :: WithScore(r, v) == WithScore(t, v)
    ensures r == [] <==> t == []
  {
    if r != [] {
      WithScoreMembers(r, r[0].matchScore);
      assert r[0] in WithScore(r, r[0].matchScore);
    }
    if t != [] {
      WithScoreMembers(t, t[0].matchScore);
      assert t[0] in WithScore(t, t[0].matchScore);
    }
  }

  /** Sorted sequences with equal per-score entries end with the same entry. */
  lemma SameLast(r: seq<MatchedGrant>, t: seq<MatchedGrant>)
    requires SortedByScore(r) && SortedByScore(t) && r != [] && t != []
    requires forall v :: WithScore(r, v) == WithScore(t, v)
    ensures r[|r| - 1] == t[|t| - 1]
  {
    var a, b := r[|r| - 1], t[|t| - 1];
    LastOfSorted(r);
    LastOfSorted(t);
    WithScoreMembers(r, b.matchScore);
    WithScoreMembers(t, a.matchScore);
    assert a in WithScore(t, a.matchScore);
    assert b in WithScore(r, b.matchScore);
    assert a.matchScore == b.matchScore;
  }

  /** Dropping a common last entry keeps the per-score entries equal. */
  lemma DropLast(r: seq<MatchedGrant>, t: seq<MatchedGrant>, v: real)
    requires r != [] && t != [] && r[|r| - 1] == t[|t| - 1]
    requires WithScore(r, v) == WithScore(t, v)
    ensures WithScore(r[..|r| - 1], v) == WithScore(t[..|t| - 1], v)
  {
    var a := r[|r| - 1];
    var rf, tf := WithScore(r[..|r| - 1], v), WithScore(t[..|t| - 1], v);
    var tail := if a.matchScore == v then [a] else [];
    assert rf == (rf + tail)[..|rf|];
    assert tf == (tf + tail)[..|tf|];
  }

  /** The stable order is the only one: two sequences sorted by descending
      score that hold the same entries of each score in the same order are
      equal. */
  lemma {:induction false} SortedTiesDetermine(r: seq<MatchedGrant>, t: seq<MatchedGrant>)
    requires SortedByScore(r) && SortedByScore(t)
    requires forall v :: WithScore(r, v) == WithScore(t, v)
    ensures r == t
    decreases |r|
  {
    EmptyTogether(r, t);
    if r != [] {
      SameLast(r, t);
      var rf, tf := r[..|r| - 1], t[..|t| - 1];
      forall v
        ensures WithScore(rf, v) == WithScore(tf, v)
      {
        DropLast(r, t, v);
      }
      SortedTiesDetermine(rf, tf);
      assert r == rf + [r[|r| - 1]] && t == tf + [t[|t| - 1]];
    }
  }

  /** `SortByScore(s)` is the only sequence sorted by descending score that
      keeps the service's order among equal scores (`SortIsStable` and the
      contract of `SortByScore` show it is one). */
  lemma SortByScoreIsUnique(s: seq<MatchedGrant>, r: seq<MatchedGrant>)
    requires SortedByScore(r)
    requires forall v :: WithScore(r, v) == WithScore(s, v)
    ensures r == SortByScore(s)
  {
    var sorted := SortByScore(s);
    forall v ensures WithScore(r, v) == WithScore(sorted, v)
    {
      SortIsStable(s, v);
    }
    SortedTiesDetermine(r, sorted);
  }

  /** Scores 80, 95, 10 come back as 95, 80, 10. */
  lemma SortExample(a: MatchedGrant, b: MatchedGrant, c: MatchedGrant)
    requires a.matchScore == 80.0 && b.matchScore == 95.0 && c.matchScore == 10.0
    ensures SortByScore([a, b, c]) == [b, a, c]
  {
    SortPairExample(a, b);
    assert [a, b, c][..2] == [a, b];
    assert SortByScore([a, b, c]) == InsertByScore([b, a], c);
  }

  lemma SortPairExample(a: MatchedGrant, b: MatchedGrant)
    requires a.matchScore < b.matchScore
    ensures SortByScore([a, b]) == [b, a]
  {
    SortSingleExample(a);
    assert [a, b][..1] == [a];
    assert SortByScore([a, b]) == InsertByScore([a], b);
    assert [a][..0] == [];
    assert InsertByScore([a], b) == InsertByScore([], b) + [a];
  }

  lemma SortSingleExample(a: MatchedGrant)
    ensures SortByScore([a]) == [a]
  {
    assert [a][..0] == [];
  }

  /** Inserting lands `key` right after the last entry scoring at least as
      much: `j` entries stay in front of it when every later one scores less. */
  lemma {:induction false} InsertAt(sorted: seq<MatchedGrant>, j: int, key: MatchedGrant)
    requires 0 <= j <= |sorted|
    requires j == 0 || sorted[j - 1].matchScore >= key.matchScore
    requires forall k :: j <= k < |sorted| ==> sorted[k].matchScore < key.matchScore
    ensures InsertByScore(sorted, key) == sorted[..j] + [key] + sorted[j..]
    decreases |sorted|
  {
    if j < |sorted| {
      var front, last := sorted[..|sorted| - 1], sorted[|sorted| - 1];
      InsertAt(front, j, key);
      assert front[..j] == sorted[..j];
      assert sorted[j..] == front[j..] + [last];
    } else {
      assert sorted[..j] == sorted && sorted[j..] == [];
    }
  }

  /** The walk left of `InsertInPlace`: shifts right by one the entries of
      `a[..i]` that score strictly less than `key`, from the back, and
      returns the hole left in front of them. */
  method ShiftLower(a: array<MatchedGrant>, i: int, key: MatchedGrant) returns (j: int)
    requires 0 <= i < a.Length
    modifies a
    ensures 0 <= j <= i
    ensures forall k :: 0 <= k < j ==> a[k] == old(a[k])
    ensures forall k :: j < k <= i ==> a[k] == old(a[k - 1])
    ensures forall k :: i < k < a.Length ==> a[k] == old(a[k])
    ensures j == 0 || old(a[j - 1]).matchScore >= key.matchScore
    ensures forall k :: j <= k < i ==> old(a[k]).matchScore < key.matchScore
  {
    j := i;
    while j > 0 && a[j - 1].matchScore < key.matchScore
      invariant 0 <= j <= i
      invariant forall k :: 0 <= k < j ==> a[k] == old(a[k])
      invariant forall k :: j < k <= i ==> a[k] == old(a[k - 1])
      invariant forall k :: i < k < a.Length ==> a[k] == old(a[k])
      invariant forall k :: j <= k < i ==> old(a[k]).matchScore < key.matchScore
    {
      a[j] := a[j - 1];
      j := j - 1;
    }
  }

  /** Moves `a[i]` left into the sorted prefix `a[..i]`. */
  method InsertInPlace(a: array<MatchedGrant>, i: int)
    requires 0 <= i < a.Length
    modifies a
    ensures a[..i + 1] == InsertByScore(old(a[..i]), old(a[i]))
    ensures forall k :: i < k < a.Length ==> a[k] == old(a[k])
  {
    ghost var sorted := a[..i];
    var key := a[i];
    var j := ShiftLower(a, i, key);
    a[j] := key;
    InsertAt(sorted, j, key);
    ghost var inserted := sorted[..j] + [key] + sorted[j..];
    assert a[..i + 1] == inserted by {
      forall k | 0 <= k <= i
        ensures a[k] == inserted[k]
      {
        if k < j {
          assert inserted[k] == sorted[k];
        } else if k > j {
          assert inserted[k] == sorted[k - 1];
        }
      }
    }
  }

  /** `results.sort(...)`: insertion sort in place, each entry walking left
      past the entries scoring strictly less. */
  method SortByScoreInPlace(a: array<MatchedGrant>)
    modifies a
    ensures a[..] == SortByScore(old(a[..]))
  {
    ghost var input := a[..];
    for i := 0 to a.Length
      invariant a[..i] == SortByScore(input[..i])
      invariant forall k :: i <= k < a.Length ==> a[k] == input[k]
    {
      InsertInPlace(a, i);
      SortByScoreSnoc(input, i);
    }
    assert a[..] == a[..a.Length];
    assert input[..a.Length] == input;
  }

  // ---------------------------------------------------------------------
  // The analysed-details record
  // ---------------------------------------------------------------------

  const ReferToDocument := "Please refer to the original document."

  /** `d` is the record the page keeps for match `r`: name, eligibility,
      funding and deadline copied, the three long texts the placeholder. */
  ghost predicate IsPlaceholderFor(d: ExtractedDetails, r: MatchedGrant)
  {
    && d.programName == r.programName
    && d.eligibilityCriteria == r.eligibility
    && d.fundingAmount == r.fundingAmount
    && d.deadline == r.applicationDeadline
    && d.description == ReferToDocument
    && d.applicationProcess == ReferToDocument
    && d.contactInformation == ReferToDocument
  }

  function PlaceholderDetails(r: MatchedGrant): (d: ExtractedDetails)
    ensures IsPlaceholderFor(d, r)
    ensures forall e :: IsPlaceholderFor(e, r) ==> e == d
  {
    ExtractedDetails(r.programName, r.eligibility, r.fundingAmount, r.applicationDeadline,
                     ReferToDocument, ReferToDocument, ReferToDocument)
  }

  /** The record `results.forEach` fills: one entry per program name, the
      later match of a repeated name overwriting the earlier. */
  function DetailsOf(results: seq<MatchedGrant>): map<string, ExtractedDetails>
    decreases |results|
  {
    if results == [] then map[]
    else
      var last := results[|results| - 1];
      DetailsOf(results[..|results| - 1])[last.programName := PlaceholderDetails(last)]
  }

  /** The keys are exactly the program names of the results. */
  lemma {:induction false} DetailsKeys(results: seq<MatchedGrant>)
    ensures DetailsOf(results).Keys == set r | r in results :: r.programName
    decreases |results|
  {
    if results != [] {
      var front := results[..|results| - 1];
      DetailsKeys(front);
      assert results == front + [results[|results| - 1]];
    }
  }

  /** The entry of a name comes from the last match carrying that name. */
  lemma {:induction false} DetailsLastWins(results: seq<MatchedGrant>, i: int)
    requires 0 <= i < |results|
    requires forall j :: i < j < |results| ==> results[j].programName != results[i].programName
    ensures results[i].programName in DetailsOf(results)
    ensures IsPlaceholderFor(DetailsOf(results)[results[i].programName], results[i])
    decreases |results|
  {
    if i < |results| - 1 {
      var front := results[..|results| - 1];
      assert front[i] == results[i];
      DetailsLastWins(front, i);
    }
  }

  /** The `forEach` loop that fills the record. */
  method BuildDetails(results: seq<MatchedGrant>) returns (analyzed: map<string, ExtractedDetails>)
    ensures analyzed == DetailsOf(results)
  {
    analyzed := map[];
    for k := 0 to |results|
      invariant analyzed == DetailsOf(results[..k])
    {
      var r := results[k];
      assert results[..k + 1][..k] == results[..k];
      analyzed := analyzed[r.programName := PlaceholderDetails(r)];
    }
    assert results[..|results|] == results;
  }
}
