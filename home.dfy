/** The home page's session: the step on show (landing page, questionnaire,
    matching in progress, results) and the state the step handlers keep,
    the submitted profile, the sorted matches, the analysed-details record
    and the error shown on the questionnaire.

    The matching service is outside the model: submitting returns the
    request the page sends, and the service's answer arrives through
    `CompleteMatching` (the matches it returned) or `FailMatching` (it threw). */
module Home {
  import opened Results
  import opened GrantRecords
  import opened HomeResults

  datatype Step = Hero | Questionnaire | Matching | ShowingResults

  const MatchFailureMessage :=
    "An error occurred while finding matches. Please check the grant documents in the `src/grants` folder and try again."

  class Session {
    var step: Step
    var smeProfile: Option<SmeProfile>
    var analyzedProgramDetails: map<string, ExtractedDetails>
    var matchedGrants: Option<seq<MatchedGrant>>
    var error: Option<string>

    /** Results are only shown once there are matches; stored matches are
        sorted by descending score; the only error ever shown is the
        matching failure; a match is only under way, and results only shown,
        for a submitted profile. */
    ghost predicate Valid()
      reads this
    {
      && (step == ShowingResults ==> matchedGrants.Some?)
      && (matchedGrants.Some? ==> SortedByScore(matchedGrants.value))
      && (error.Some? ==> error.value == MatchFailureMessage)
      && (step in {Matching, ShowingResults} ==> smeProfile.Some?)
      && (step == Matching ==> error.None?)
    }

    /** The landing page, nothing submitted, an empty details record. */
    constructor ()
      ensures Valid()
      ensures step == Hero && smeProfile == None && matchedGrants == None && error == None
      ensures analyzedProgramDetails == map[]
    {
      step := Hero;
      smeProfile := None;
      analyzedProgramDetails := map[];
      matchedGrants := None;
      error := None;
    }

    /** `handleStart`: on to the questionnaire, nothing else changes. */
    method Start()
      requires Valid()
      modifies this
      ensures Valid()
      ensures step == Questionnaire
      ensures smeProfile == old(smeProfile) && matchedGrants == old(matchedGrants)
      ensures error == old(error) && analyzedProgramDetails == old(analyzedProgramDetails)
    {
      step := Questionnaire;
    }

    /** The questionnaire's back button: to the landing page, nothing else changes. */
    method Back()
      requires Valid()
      modifies this
      ensures Valid()
      ensures step == Hero
      ensures smeProfile == old(smeProfile) && matchedGrants == old(matchedGrants)
      ensures error == old(error) && analyzedProgramDetails == old(analyzedProgramDetails)
    {
      step := Hero;
    }

    /** `handleProfileSubmit` up to the service call: keeps the profile,
        clears the error, shows the matching step and sends the profile with
        an empty grant list (the flow loads the grants itself). */
    method SubmitProfile(profile: SmeProfile) returns (request: MatchInput)
      requires Valid()
      modifies this
      ensures Valid()
      ensures request == MatchInput(profile, Some([]))
      ensures step == Matching && smeProfile == Some(profile) && error == None
      ensures matchedGrants == old(matchedGrants) && analyzedProgramDetails == old(analyzedProgramDetails)
    {
      smeProfile := Some(profile);
      error := None;
      step := Matching;
      request := MatchInput(profile, Some([]));
    }

    /** The same handler as the page writes it: the request carries the
        `smeProfile` state the handler's closure saw, which is the profile of
        the previous submission (none at all on the first one), not the
        profile just submitted. */
    method SubmitProfileAsWritten(profile: SmeProfile) returns (sent: Option<SmeProfile>)
      requires Valid()
      modifies this
      ensures Valid()
      ensures sent == old(smeProfile)
      ensures step == Matching && smeProfile == Some(profile) && error == None
      ensures matchedGrants == old(matchedGrants) && analyzedProgramDetails == old(analyzedProgramDetails)
    {
      sent := smeProfile;
      smeProfile := Some(profile);
      error := None;
      step := Matching;
    }

    /** The service answered with `results`: the details record is rebuilt
        from them, the matches are stored sorted by descending score (a
        stable sort in place), and the results are shown. */
    method CompleteMatching(results: seq<MatchedGrant>)
      requires Valid() && step == Matching
      modifies this
      ensures Valid()
      ensures step == ShowingResults
      ensures analyzedProgramDetails == DetailsOf(results)
      ensures matchedGrants == Some(SortByScore(results))
      ensures multiset(matchedGrants.value) == multiset(results)
      ensures smeProfile == old(smeProfile) && error == old(error)
    {
      var analyzed := BuildDetails(results);
      analyzedProgramDetails := analyzed;
      var sorted := new MatchedGrant[|results|](k requires 0 <= k < |results| => results[k]);
      assert sorted[..] == results;
      SortByScoreInPlace(sorted);
      matchedGrants := Some(sorted[..]);
      step := ShowingResults;
    }

    /** The service threw: the failure message is shown on the
        questionnaire; matches, details and profile stay as they were. */
    method FailMatching()
      requires Valid()
      modifies this
      ensures Valid()
      ensures step == Questionnaire && error == Some(MatchFailureMessage)
      ensures smeProfile == old(smeProfile) && matchedGrants == old(matchedGrants)
      ensures analyzedProgramDetails == old(analyzedProgramDetails)
    {
      error := Some(MatchFailureMessage);
      step := Questionnaire;
    }

    /** `handleReset`: back to the landing page with profile, matches and
        error cleared; the details record is kept. */
    method Reset()
      requires Valid()
      modifies this
      ensures Valid()
      ensures step == Hero && smeProfile == None && matchedGrants == None && error == None
      ensures analyzedProgramDetails == old(analyzedProgramDetails)
    {
      step := Hero;
      smeProfile := None;
      matchedGrants := None;
      error := None;
    }
  }

  /** The first submission of a fresh session, as the page writes it,
      sends no profile at all. */
  method FirstSubmissionAsWritten(profile: SmeProfile) returns (sent: Option<SmeProfile>)
    ensures sent == None
  {
    var session := new Session();
    session.Start();
    sent := session.SubmitProfileAsWritten(profile);
  }

  /** Resubmitting an edited profile after a failed match, as the page
      writes it, sends the earlier profile. */
  method ResubmissionAsWritten(first: SmeProfile, edited: SmeProfile) returns (sent: Option<SmeProfile>)
    ensures sent == Some(first)
  {
    var session := new Session();
    session.Start();
    var _ := session.SubmitProfileAsWritten(first);
    session.FailMatching();
    sent := session.SubmitProfileAsWritten(edited);
  }

  /** With the profile argument sent, the first submission of a fresh
      session sends the submitted profile. */
  method FirstSubmission(profile: SmeProfile) returns (request: MatchInput)
    ensures request.smeProfile == profile && request.grantPrograms == Some([])
  {
    var session := new Session();
    session.Start();
    request := session.SubmitProfile(profile);
  }

  /** A full round: start, submit, results. The matches shown are the
      service's results sorted by descending score, ties in service order. */
  method SuccessfulRound(profile: SmeProfile, results: seq<MatchedGrant>)
    returns (shown: seq<MatchedGrant>, details: map<string, ExtractedDetails>)
    ensures SortedByScore(shown) && multiset(shown) == multiset(results)
    ensures forall v :: WithScore(shown, v) == WithScore(results, v)
    ensures details.Keys == set r | r in results :: r.programName
  {
    var session := new Session();
    session.Start();
    var _ := session.SubmitProfile(profile);
    session.CompleteMatching(results);
    shown := session.matchedGrants.value;
    details := session.analyzedProgramDetails;
    forall v ensures WithScore(shown, v) == WithScore(results, v)
    {
      SortIsStable(results, v);
    }
    DetailsKeys(results);
  }
}
