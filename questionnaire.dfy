/** The SME questionnaire's validation schema (`SMEProfileSchema` of the
    form): one rule per profile field, the issues a failed validation
    reports, the form's default values and the funding-stage options.
    Numbers arrive already coerced to `real`. */
module Questionnaire {
  import opened Results
  import opened GrantRecords

  /** The nine fields of the form, in the order the schema declares them. */
  datatype Field =
    | BusinessType | Industry | Location | Revenue | EmployeeCount
    | BusinessAge | FundingStage | PreviousFundingAmount | PurposeOfFunding

  const SchemaOrder: seq<Field> :=
    [BusinessType, Industry, Location, Revenue, EmployeeCount,
     BusinessAge, FundingStage, PreviousFundingAmount, PurposeOfFunding]

  /** Position of a field in the schema. */
  function Rank(f: Field): (rank: nat)
    ensures rank < |SchemaOrder| && SchemaOrder[rank] == f
  {
    match f
    case BusinessType => 0
    case Industry => 1
    case Location => 2
    case Revenue => 3
    case EmployeeCount => 4
    case BusinessAge => 5
    case FundingStage => 6
    case PreviousFundingAmount => 7
    case PurposeOfFunding => 8
  }

  /** One validation issue: a value below its field's minimum (with the
      schema's own message), or a fractional value in an integer field. */
  datatype Issue =
    | TooSmall(field: Field, message: string)
    | NotAnInteger(field: Field, message: string)

  /** The message of each field's `min` rule. */
  function MinMessage(f: Field): string
  {
    match f
    case BusinessType => "Business type is required."
    case Industry => "Industry is required."
    case Location => "Location (e.g., state or city) is required."
    case Revenue => "Annual revenue must be a positive number."
    case EmployeeCount => "Must have at least one employee."
    case BusinessAge => "Business age must be a positive number."
    case FundingStage => "Funding stage is required."
    case PreviousFundingAmount => "Previous funding amount must be a positive number."
    case PurposeOfFunding => "Please specify the purpose of funding."
  }

  /** The message of a failed `int()` rule. */
  const IntegerMessage := "Expected integer, received float"

  predicate IsInteger(x: real)
  {
    x.Floor as real == x
  }

  /** The field's `min` rule: text at least one character long, revenue,
      business age and previous funding at least 0, at least one employee. */
  predicate MeetsMinimum(p: SmeProfile, f: Field)
  {
    match f
    case BusinessType => |p.businessType| >= 1
    case Industry => |p.industry| >= 1
    case Location => |p.location| >= 1
    case Revenue => p.revenue >= 0.0
    case EmployeeCount => p.employeeCount >= 1.0
    case BusinessAge => p.businessAge >= 0.0
    case FundingStage => |p.fundingStage| >= 1
    case PreviousFundingAmount => p.previousFundingAmount >= 0.0
    case PurposeOfFunding => |p.purposeOfFunding| >= 1
  }

  /** The field's `int()` rule: only employee count and business age have one. */
  predicate IntegralWhereRequired(p: SmeProfile, f: Field)
  {
    match f
    case EmployeeCount => IsInteger(p.employeeCount)
    case BusinessAge => IsInteger(p.businessAge)
    case _ => true
  }

  predicate SatisfiesRule(p: SmeProfile, f: Field)
  {
    MeetsMinimum(p, f) && IntegralWhereRequired(p, f)
  }

  /** The schema read as one condition, field by field. */
  predicate IsValidProfile(p: SmeProfile)
  {
    && |p.businessType| >= 1
    && |p.industry| >= 1
    && |p.location| >= 1
    && p.revenue >= 0.0
    && IsInteger(p.employeeCount) && p.employeeCount >= 1.0
    && IsInteger(p.businessAge) && p.businessAge >= 0.0
    && |p.fundingStage| >= 1
    && p.previousFundingAmount >= 0.0
    && |p.purposeOfFunding| >= 1
  }

  /** The schema is the conjunction of its per-field rules. */
  lemma ValidIffEveryRule(p: SmeProfile)
    ensures IsValidProfile(p) <==> forall f :: SatisfiesRule(p, f)
  {
    if forall f :: SatisfiesRule(p, f) {
      assert SatisfiesRule(p, BusinessType) && SatisfiesRule(p, Industry) && SatisfiesRule(p, Location);
      assert SatisfiesRule(p, Revenue) && SatisfiesRule(p, EmployeeCount) && SatisfiesRule(p, BusinessAge);
      assert SatisfiesRule(p, FundingStage) && SatisfiesRule(p, PreviousFundingAmount);
      assert SatisfiesRule(p, PurposeOfFunding);
    }
  }

  /** The issues of one field, integer check first (its declaration order). */
  function FieldIssues(p: SmeProfile, f: Field): seq<Issue>
  {
    (if IntegralWhereRequired(p, f) then [] else [NotAnInteger(f, IntegerMessage)])
    + (if MeetsMinimum(p, f) then [] else [TooSmall(f, MinMessage(f))])
  }

  /** An issue of the schema's two kinds, with the message the schema gives it. */
  predicate WellFormedIssue(issue: Issue)
  {
    match issue
    case TooSmall(f, message) => message == MinMessage(f)
    case NotAnInteger(f, message) => message == IntegerMessage && f in {EmployeeCount, BusinessAge}
  }

  /** The issues of the fields in `fields`, field after field. */
  function IssuesOf(p: SmeProfile, fields: seq<Field>): (issues: seq<Issue>)
    ensures forall issue :: issue in issues <==> issue.field in fields && issue in FieldIssues(p, issue.field)
    decreases |fields|
  {
    if fields == [] then []
    else
      var front := fields[..|fields| - 1];
      var last := fields[|fields| - 1];
      assert forall f :: f in fields <==> f in front || f == last;
      IssuesOf(p, front) + FieldIssues(p, last)
  }

  /** A field has issues exactly when it breaks its rule, and they are the
      ones its rules name. */
  lemma FieldIssuesIff(p: SmeProfile, f: Field)
    ensures FieldIssues(p, f) == [] <==> SatisfiesRule(p, f)
    ensures TooSmall(f, MinMessage(f)) in FieldIssues(p, f) <==> !MeetsMinimum(p, f)
    ensures NotAnInteger(f, IntegerMessage) in FieldIssues(p, f) <==> !IntegralWhereRequired(p, f)
    ensures forall issue :: issue in FieldIssues(p, f) ==> issue.field == f && WellFormedIssue(issue)
  {
  }

  /** Every field is in the schema. */
  lemma SchemaHasEveryField(f: Field)
    ensures f in SchemaOrder
  {
    assert SchemaOrder[Rank(f)] == f;
  }

  /** Over the whole schema, a profile has no issue exactly when it is valid. */
  lemma NoIssuesIffValid(p: SmeProfile)
    ensures IssuesOf(p, SchemaOrder) == [] <==> IsValidProfile(p)
  {
    var issues := IssuesOf(p, SchemaOrder);
    ValidIffEveryRule(p);
    if issues != [] {
      var issue := issues[0];
      assert issue in FieldIssues(p, issue.field);
      FieldIssuesIff(p, issue.field);
    }
    if !IsValidProfile(p) {
      var f :| !SatisfiesRule(p, f);
      FieldIssuesIff(p, f);
      SchemaHasEveryField(f);
      assert FieldIssues(p, f)[0] in issues;
    }
  }

  /** What validating a profile reports, in schema order. */
  function ProfileIssues(p: SmeProfile): (issues: seq<Issue>)
    ensures issues == [] <==> IsValidProfile(p)
    ensures forall issue :: issue in issues ==> WellFormedIssue(issue)
    ensures forall f :: TooSmall(f, MinMessage(f)) in issues <==> !MeetsMinimum(p, f)
    ensures forall f :: NotAnInteger(f, IntegerMessage) in issues <==> !IntegralWhereRequired(p, f)
  {
    var issues := IssuesOf(p, SchemaOrder);
    NoIssuesIffValid(p);
    assert forall issue :: issue in issues ==> WellFormedIssue(issue) by {
      forall issue | issue in issues
        ensures WellFormedIssue(issue)
      {
        FieldIssuesIff(p, issue.field);
      }
    }
    assert forall f :: (TooSmall(f, MinMessage(f)) in issues <==> !MeetsMinimum(p, f))
                       && (NotAnInteger(f, IntegerMessage) in issues <==> !IntegralWhereRequired(p, f)) by {
      forall f
        ensures TooSmall(f, MinMessage(f)) in issues <==> !MeetsMinimum(p, f)
        ensures NotAnInteger(f, IntegerMessage) in issues <==> !IntegralWhereRequired(p, f)
      {
        FieldIssuesIff(p, f);
        SchemaHasEveryField(f);
      }
    }
    issues
  }

  /** No issue follows an issue of a later field. */
  predicate InSchemaOrder(issues: seq<Issue>)
  {
    forall i, j :: 0 <= i < j < |issues| ==> Rank(issues[i].field) <= Rank(issues[j].field)
  }

  /** Issues of one field appended after issues of earlier fields stay in order. */
  lemma OrderedAppend(before: seq<Issue>, added: seq<Issue>, f: Field)
    requires InSchemaOrder(before)
    requires forall i :: 0 <= i < |before| ==> Rank(before[i].field) < Rank(f)
    requires forall i :: 0 <= i < |added| ==> added[i].field == f
    ensures InSchemaOrder(before + added)
  {
    var issues := before + added;
    forall i, j | 0 <= i < j < |issues|
      ensures Rank(issues[i].field) <= Rank(issues[j].field)
    {
      if j < |before| {
        assert issues[i] == before[i] && issues[j] == before[j];
      } else if i < |before| {
        assert issues[i] == before[i] && issues[j] == added[j - |before|];
      } else {
        assert issues[i] == added[i - |before|] && issues[j] == added[j - |before|];
      }
    }
  }

  /** The issues come in the order of the fields: a field's issues never
      follow those of a later field. */
  lemma {:induction false} IssuesInSchemaOrder(p: SmeProfile, fields: seq<Field>)
    requires forall i, j :: 0 <= i < j < |fields| ==> Rank(fields[i]) < Rank(fields[j])
    ensures InSchemaOrder(IssuesOf(p, fields))
    decreases |fields|
  {
    if fields != [] {
      var front, last := fields[..|fields| - 1], fields[|fields| - 1];
      IssuesInSchemaOrder(p, front);
      FieldIssuesIff(p, last);
      var before, added := IssuesOf(p, front), FieldIssues(p, last);
      forall i | 0 <= i < |before|
        ensures Rank(before[i].field) < Rank(last)
      {
        assert before[i] in before;
        var k :| 0 <= k < |front| && front[k] == before[i].field;
        assert fields[k] == front[k];
      }
      forall i | 0 <= i < |added|
        ensures added[i].field == last
      {
        assert added[i] in added;
      }
      OrderedAppend(before, added, last);
    }
  }

  /** The issues of a profile are reported in the schema's field order. */
  lemma ProfileIssuesInSchemaOrder(p: SmeProfile)
    ensures InSchemaOrder(ProfileIssues(p))
  {
    forall i | 0 <= i < |SchemaOrder|
      ensures Rank(SchemaOrder[i]) == i
    {
    }
    IssuesInSchemaOrder(p, SchemaOrder);
  }

  /** A fractional employee count below one breaks both of its rules, both
      issues are reported, and no other field has one. */
  lemma FractionalEmployeeCountExample()
    ensures var issues := ProfileIssues(DefaultValues.(employeeCount := 0.5));
            && NotAnInteger(EmployeeCount, IntegerMessage) in issues
            && TooSmall(EmployeeCount, MinMessage(EmployeeCount)) in issues
            && forall issue :: issue in issues ==> issue.field == EmployeeCount
  {
    var p := DefaultValues.(employeeCount := 0.5);
    assert 0.5.Floor == 0 && 2.0.Floor == 2;
    forall issue | issue in ProfileIssues(p)
      ensures issue.field == EmployeeCount
    {
      assert issue in FieldIssues(p, issue.field);
    }
  }

  /** Every broken rule shows up as an issue of its field. */
  lemma BrokenRulesReported(p: SmeProfile)
    ensures forall f :: !SatisfiesRule(p, f) ==>
              exists i :: 0 <= i < |ProfileIssues(p)| && ProfileIssues(p)[i].field == f
  {
    var issues := ProfileIssues(p);
    forall f | !SatisfiesRule(p, f)
      ensures exists i :: 0 <= i < |issues| && issues[i].field == f
    {
      var issue := if MeetsMinimum(p, f) then NotAnInteger(f, IntegerMessage) else TooSmall(f, MinMessage(f));
      assert issue in issues;
      var i :| 0 <= i < |issues| && issues[i] == issue;
    }
  }

  /** Submitting the form: the validated profile is forwarded unchanged, or
      the issues are shown and nothing is forwarded. */
  function Submit(p: SmeProfile): (r: Result<SmeProfile, seq<Issue>>)
    ensures r.Ok? <==> IsValidProfile(p)
    ensures r.Ok? ==> r.value == p
    ensures r.Err? ==> r.error != [] && forall f :: !SatisfiesRule(p, f) ==> exists i :: 0 <= i < |r.error| && r.error[i].field == f
  {
    var issues := ProfileIssues(p);
    BrokenRulesReported(p);
    if issues == [] then Ok(p) else Err(issues)
  }

  /** The values the form starts with. */
  const DefaultValues := SmeProfile(
    businessType := "Technology",
    industry := "Software",
    location := "Kuala Lumpur",
    revenue := 500000.0,
    employeeCount := 10.0,
    businessAge := 2.0,
    fundingStage := "Seed",
    previousFundingAmount := 0.0,
    purposeOfFunding := "Product Development")

  /** The funding stages the form offers. */
  const FundingStageOptions: seq<string> := ["None", "Pre-Seed", "Seed", "Series A", "Series B+", "Growth"]

  /** The form can be submitted as it opens: its defaults satisfy every rule,
      and the default stage is one of the offered options. */
  lemma DefaultsAreValid()
    ensures ProfileIssues(DefaultValues) == []
    ensures Submit(DefaultValues) == Ok(DefaultValues)
    ensures DefaultValues.fundingStage in FundingStageOptions
  {
    assert 10.0.Floor == 10 && 2.0.Floor == 2;
  }

  /** Choosing any offered funding stage never breaks the stage rule: a valid
      profile stays valid whichever option is selected. */
  lemma EveryStageOptionIsValid(p: SmeProfile, option: string)
    requires IsValidProfile(p) && option in FundingStageOptions
    ensures SatisfiesRule(p.(fundingStage := option), FundingStage)
    ensures IsValidProfile(p.(fundingStage := option))
  {
  }
}
