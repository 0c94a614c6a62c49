/** The record shapes the matching flow exchanges with its two language-model
    services: the SME profile, the details the extraction service returns for
    one document, the catalog form of a grant sent to matching, the flow's
    input and the matched records it returns. Every `number` of the schemas
    is a `real` here. */
module GrantRecords {
  import opened Results

  /** `SMEProfileSchema` of the flow: nine fields, numbers unconstrained. */
  datatype SmeProfile = SmeProfile(
    businessType: string,
    industry: string,
    location: string,
    revenue: real,
    employeeCount: real,
    businessAge: real,
    fundingStage: string,
    previousFundingAmount: real,
    purposeOfFunding: string)

  /** What the extraction service returns for one grant document (seven strings). */
  datatype ExtractedDetails = ExtractedDetails(
    programName: string,
    eligibilityCriteria: string,
    fundingAmount: string,
    deadline: string,
    description: string,
    applicationProcess: string,
    contactInformation: string)

  /** `GrantProgramDetailsSchema`: the catalog form of a grant, sent to matching. */
  datatype GrantProgramDetails = GrantProgramDetails(
    programName: string,
    eligibilityCriteria: string,
    fundingAmount: string,
    applicationDeadline: string,
    sectors: string,
    location: string)

  /** `MatchSMEWithGrantProgramsInputSchema`: the profile and an optional grant list. */
  datatype MatchInput = MatchInput(
    smeProfile: SmeProfile,
    grantPrograms: Option<seq<GrantProgramDetails>>)

  /** `MatchedGrantProgramSchema`: one scored match returned by the matching service. */
  datatype MatchedGrant = MatchedGrant(
    programName: string,
    matchScore: real,
    eligibility: string,
    fundingAmount: string,
    applicationDeadline: string,
    sectors: string,
    location: string)

  /** The raw bytes of one document file. */
  type Bytes = seq<bv8>
}
