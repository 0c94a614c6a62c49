# MYMatch core, modelled in Dafny

MYMatch matches a Malaysian small or medium enterprise (SME) with grant
programs. The user fills in a business profile. The server then reads every
grant document (PDF) in its `src/grants` folder and has a language model
extract each one's details. It turns those details into a catalog and asks a
second language-model prompt to score the catalog against the profile. The
page shows the scored matches, best first.

This project models three pieces of that system and proves properties of
them:

- **Grant catalog builder** (module `GrantCatalog`, with `Text` and
  `GrantRecords`).
  - It is the loop of `matchSMEWithGrantProgramsFlow`. It keeps the
    directory entries whose extension is `.pdf` in any case, using Node's
    `path.extname` rules.
  - It reads and extracts each one. A failed read aborts the flow; a failed
    extraction skips the file.
  - It builds the catalog record of each extracted grant, including the
    `sectors` and `location` keyword heuristic.
  - It chooses the grant list sent to the matching prompt.
- **Session state machine** (modules `Home` and `HomeResults`).
  - `Home` is the home page as a `Session` class. It holds the step on show,
    the submitted profile, the matches, the analysed-details record and the
    error.
  - It has one method per handler: start, back, submit, success, failure and
    reset.
  - On success the matches are sorted in place with an insertion sort on an
    array. This sort is proved equal to the stable descending sort of
    `Array.prototype.sort`.
  - The details record is built by a loop equal to a map keyed by program
    name.
- **Profile validator** (module `Questionnaire`).
  - It covers the questionnaire's schema: the field rules, the issues a
    failed validation reports and their messages, the default values and the
    funding-stage options.

The model replaces the world outside the code with values:

- The directory listing is an input: the names, or the error `readdir`
  threw.
- `fs.readFile` is a function parameter returning bytes or an error.
- The extraction service is a function parameter returning the seven
  extracted fields or an error.
- The matching service's answer is the argument of
  `Session.CompleteMatching`, or the call to `Session.FailMatching` when it
  throws.
- Numbers are `real`.

Three behaviours of the code are worth stating up front:

- A failed *read* of a PDF aborts the whole build, because `fs.readFile`
  (`src/ai/flows/match-sme-with-grant-programs.ts:116`) is outside the
  `try`. Only a failed *extraction* is skipped.
- Reset (`src/app/page.tsx:77-82`) clears the profile, the matches and the
  error but keeps the analysed-details record.
- A description such as "Open to all industry sectors nationwide" gives
  location `Nationwide`: none of the location words occurs in it (see
  `GrantCatalog.NationwideDescriptionExample`).

## Model

| member | source | states |
|---|---|---|
| Text.ContainsIgnoringCase | src/ai/flows/match-sme-with-grant-programs.ts:123-124 | a `/word/i` test holds exactly when `word` occurs at some index of the text, case ignored |
| GrantCatalog.PdfNameIff | src/ai/flows/match-sme-with-grant-programs.ts:114 | `path.extname(file).toLowerCase() === '.pdf'` holds exactly for names of at least five characters ending in `.pdf` in any case |
| GrantCatalog.ExtNameExamples | src/ai/flows/match-sme-with-grant-programs.ts:114 | `extname` gives `.PDF` for `A.PDF`, nothing for the dotfile `.pdf` or for `..`, `.txt` for `report.pdf.txt`, `.` for `...` |
| GrantCatalog.PdfNames | src/ai/flows/match-sme-with-grant-programs.ts:113-114 | the names that pass the extension test are exactly the listed names that are PDF names, and there are no more of them than listed names |
| GrantCatalog.SectorsOf | src/ai/flows/match-sme-with-grant-programs.ts:123 | `sectors` is "Extracted from description" exactly when the description mentions "sector" or "industry" in any case, and "Various" otherwise |
| GrantCatalog.LocationOf | src/ai/flows/match-sme-with-grant-programs.ts:124 | `location` is "Extracted from description" exactly when the description mentions "location", "state" or "city" in any case, and "Nationwide" otherwise |
| GrantCatalog.LocationHeuristicExamples | src/ai/flows/match-sme-with-grant-programs.ts:124 | "nationwide" is not a match; "capacity" and "Statement of intent" are, because the test is a substring test |
| GrantCatalog.ToCatalogEntry | src/ai/flows/match-sme-with-grant-programs.ts:123-133 | the catalog record is the unique one that copies name, eligibility and funding, takes `deadline` as `applicationDeadline` and has the heuristic `sectors` and `location` |
| GrantCatalog.NationwideDescriptionExample | src/ai/flows/match-sme-with-grant-programs.ts:123-124 | "Open to all industry sectors nationwide" gives sectors "Extracted from description" and location "Nationwide" |
| GrantCatalog.CatalogAppend | src/ai/flows/match-sme-with-grant-programs.ts:111-138 | entries follow the listing: the catalog of `xs + ys` is that of `xs` followed by that of `ys`, and the first read error in listing order is the error of the build |
| GrantCatalog.SkipFile | src/ai/flows/match-sme-with-grant-programs.ts:119-136 | a non-PDF name, or a PDF whose extraction throws, changes nothing: the catalog is as if the file were not listed, and the loop carries on |
| GrantCatalog.CatalogOfPdfNames | src/ai/flows/match-sme-with-grant-programs.ts:113-114 | only PDF names matter: the catalog of a listing is the catalog of its PDF names |
| GrantCatalog.NoPdfsEmptyCatalog | src/ai/flows/match-sme-with-grant-programs.ts:113-114 | a listing without PDF names yields an empty catalog and no error |
| GrantCatalog.OnlyPdfNamesAreRead | src/ai/flows/match-sme-with-grant-programs.ts:114-116 | only PDF names are read: two readers agreeing on the listed PDF names give the same result |
| GrantCatalog.CatalogOkIff | src/ai/flows/match-sme-with-grant-programs.ts:116-136 | the build fails exactly when reading some listed PDF fails; extraction failures never make it fail |
| GrantCatalog.AddFileMembers | src/ai/flows/match-sme-with-grant-programs.ts:114-136 | one loop pass adds exactly the grant its file yields, if any |
| GrantCatalog.CatalogMembers | src/ai/flows/match-sme-with-grant-programs.ts:111-136 | a grant is in the catalog exactly when some listed PDF's extraction succeeds with a record whose catalog form it is |
| GrantCatalog.CatalogLength | src/ai/flows/match-sme-with-grant-programs.ts:111-136 | at most one entry per PDF name |
| GrantCatalog.CatalogFollowsListing | src/ai/flows/match-sme-with-grant-programs.ts:111-136 | when every listed PDF extracts, there is one entry per PDF name, and the k-th entry is the catalog form of the k-th PDF's details |
| GrantCatalog.Extracted | src/ai/flows/match-sme-with-grant-programs.ts:114-120 | the names whose entries the loop keeps are exactly the listed PDF names whose read and extraction succeed |
| GrantCatalog.CatalogFollowsExtracted | src/ai/flows/match-sme-with-grant-programs.ts:111-136 | whenever the build succeeds, the catalog has exactly one entry per PDF whose extraction succeeded, and the k-th entry is the catalog form of the k-th such PDF's details |
| GrantCatalog.BuildCatalog | src/ai/flows/match-sme-with-grant-programs.ts:111-138 | the loop returns the catalog `CatalogOf` defines, or the first read error |
| GrantCatalog.SelectGrants | src/ai/flows/match-sme-with-grant-programs.ts:148 | matching gets the catalog when it is non-empty, else the caller's list when given, else nothing |
| GrantCatalog.SelectGrantsEmptyIff | src/ai/flows/match-sme-with-grant-programs.ts:146-149 | matching sees no grant exactly when the catalog is empty and the caller's list is absent or empty |
| GrantCatalog.MatchFlowInput | src/ai/flows/match-sme-with-grant-programs.ts:107-149 | a listing or read error aborts the flow without warning; otherwise the prompt gets the profile unchanged and the selected grants, and the warning is logged exactly when the catalog is empty |
| Questionnaire.ValidIffEveryRule | src/components/sme-questionnaire.tsx:15-25 | the schema holds exactly when every field satisfies its own rule |
| Questionnaire.FieldIssuesIff | src/components/sme-questionnaire.tsx:16-24 | a field reports issues exactly when it breaks its rule: "too small" when below its minimum, "not an integer" when its `int()` rule fails, each with its message |
| Questionnaire.NoIssuesIffValid | src/components/sme-questionnaire.tsx:15-25 | validating the whole schema reports nothing exactly when the profile is valid |
| Questionnaire.ProfileIssues | src/components/sme-questionnaire.tsx:15-25 | no issue exactly when valid; a field's minimum issue, with its own message, exactly when below its minimum; its integer issue exactly when fractional |
| Questionnaire.IssuesInSchemaOrder | src/components/sme-questionnaire.tsx:15-25 | issues come field by field in the order the fields are given |
| Questionnaire.ProfileIssuesInSchemaOrder | src/components/sme-questionnaire.tsx:15-25 | a profile's issues are reported in schema field order |
| Questionnaire.FractionalEmployeeCountExample | src/components/sme-questionnaire.tsx:20 | an employee count of 0.5 reports both the integer issue and "Must have at least one employee.", and no other field has an issue |
| Questionnaire.BrokenRulesReported | src/components/sme-questionnaire.tsx:15-25 | every field that breaks its rule has at least one issue among a profile's issues |
| Questionnaire.Submit | src/components/sme-questionnaire.tsx:49-51 | a profile is forwarded exactly when valid, and then unchanged; otherwise every broken field has an issue |
| Questionnaire.DefaultsAreValid | src/components/sme-questionnaire.tsx:36-46 | the default values report no issue, are forwarded as they are, and their funding stage is one of the options |
| Questionnaire.EveryStageOptionIsValid | src/components/sme-questionnaire.tsx:109-114 | selecting any of the six funding-stage options keeps a valid profile valid |
| HomeResults.SortByScore | src/app/page.tsx:62 | the sorted matches are sorted by descending score and a permutation of the results |
| HomeResults.InsertSorted | src/app/page.tsx:62 | inserting an entry keeps a descending sequence descending |
| HomeResults.InsertPermutes | src/app/page.tsx:62 | inserting adds exactly the inserted entry |
| HomeResults.InsertKeepsTies | src/app/page.tsx:62 | inserting places the new entry after every entry of equal score |
| HomeResults.SortIsStable | src/app/page.tsx:62 | the sort is stable: entries of each score keep the order the service returned them in |
| HomeResults.SortedTiesDetermine | src/app/page.tsx:62 | two descending sequences with the same entries of each score, in the same order, are equal |
| HomeResults.SortByScoreIsUnique | src/app/page.tsx:62 | the stable descending order is the only descending order that keeps the service's order among ties |
| HomeResults.SortExample | src/app/page.tsx:62 | scores 80, 95, 10 are shown as 95, 80, 10 |
| HomeResults.ShiftLower | src/app/page.tsx:62 | the insertion walk moves right by one the sorted entries scoring less than the key, and leaves the rest alone |
| HomeResults.InsertInPlace | src/app/page.tsx:62 | one insertion step leaves the prefix equal to the key inserted into the old sorted prefix |
| HomeResults.SortByScoreInPlace | src/app/page.tsx:62 | the in-place sort leaves the array equal to the stable descending sort of its old contents |
| HomeResults.PlaceholderDetails | src/app/page.tsx:50-58 | the record kept for a match copies name, eligibility, funding and deadline; the three long texts are the placeholder |
| HomeResults.DetailsKeys | src/app/page.tsx:48-60 | the details record has exactly one key per distinct program name of the results |
| HomeResults.DetailsLastWins | src/app/page.tsx:48-60 | for a repeated program name, the entry comes from the last match with that name |
| HomeResults.BuildDetails | src/app/page.tsx:48-60 | the `forEach` loop builds the record `DetailsOf` defines |
| Home.Session.constructor | src/app/page.tsx:20-27 | the landing page; no profile, matches or error; an empty details record |
| Home.Session.Start | src/app/page.tsx:31 | on to the questionnaire; nothing else changes |
| Home.Session.Back | src/app/page.tsx:92 | back to the landing page; nothing else changes |
| Home.Session.SubmitProfile | src/app/page.tsx:33-45 | keeps the profile, clears the error and shows the matching step before the call; the request carries the submitted profile and an empty grant list |
| Home.Session.SubmitProfileAsWritten | src/app/page.tsx:33-45 | as the page writes it, the request carries the profile stored before this submission |
| Home.Session.CompleteMatching | src/app/page.tsx:47-63 | on success: the details record of the results, the matches stably sorted by descending score (a permutation of the results), results shown |
| Home.Session.FailMatching | src/app/page.tsx:64-74 | on failure: the fixed message is shown on the questionnaire; matches, profile and details unchanged |
| Home.Session.Reset | src/app/page.tsx:77-82 | the landing page, with profile, matches and error cleared; the details record kept |
| Home.FirstSubmissionAsWritten | src/app/page.tsx:42-45 | as written, the first submission of a fresh session sends no profile |
| Home.ResubmissionAsWritten | src/app/page.tsx:42-45 | as written, resubmitting after a failure sends the previous profile |
| Home.FirstSubmission | src/app/page.tsx:42-45 | with the argument sent, the first submission sends the submitted profile |
| Home.SuccessfulRound | src/app/page.tsx:47-63 | after start, submit and success, the shown matches are sorted, a permutation of the results with ties in service order, and the details keys are the program names |

## Left out

- Filesystem I/O and encoding are left out. `readdir`, `readFile`, path joining and the base64 `data:application/pdf` URI are replaced by an input listing and a reader parameter. Names are directory entries, which never hold a `/`, so `extname`'s separator handling is not modelled.
- The two language-model calls are left out: the matching prompt and the extraction flow. They are arbitrary functions or values of the record types. The matching service's output is taken as given.
- Regular expressions are modelled only as ASCII case-insensitive substring tests. For `/sector|industry/i` and its sibling without the `u` flag this is exact. `toLowerCase` is modelled on ASCII letters only; no other character can lower-case to `.pdf`'s letters.
- JavaScript numbers are left out: no NaN, no infinities, no 64-bit rounding. Comparing scores with `b.matchScore - a.matchScore` is modelled as comparing reals.
- `z.coerce.number` string-to-number coercion is left out, and so is the issue a non-number input produces. The validator receives reals.
- React state semantics, `async` scheduling and the toast are left out. Each handler is a method whose effects happen in order; the await is the split between `SubmitProfile` and `CompleteMatching`/`FailMatching`. The one stale-closure effect that changes behaviour is modelled separately; see Findings.
- `Home.Session.CompleteMatching` requires the matching step. That is the only step from which the service's answer can arrive, because the page shows only a spinner while matching.
- `renderStep` and its fallback to an empty match list, the presentation components, the grant upload UI and the sample-grant data are left out.
- The idempotence of the catalog build over an unchanged store is not stated as a lemma. `CatalogOf` is a function of the listing, the reader and the extractor, so equal inputs give equal catalogs by definition.
- `GrantCatalog.IsPdfName` states the extension test character by character. `GrantCatalog.PdfNameIff` proves it equal to `Lower(ExtName(name)) == ".pdf"`, which is the test the loop in `BuildCatalog` evaluates.

## Findings

| source | as written | input that shows it | evidently intended | confidence | as-written member | corrected member |
|---|---|---|---|---|---|---|
| src/app/page.tsx:42-45 | `handleFindMatches` sends the `smeProfile` state its closure saw, not its `profile` argument | the first submission of a session sends `null` (the flow's input schema then rejects it, and the page shows the failure message); a resubmission after editing sends the previous profile | send the submitted `profile` | medium, not executed | Home.Session.SubmitProfileAsWritten, Home.FirstSubmissionAsWritten, Home.ResubmissionAsWritten | Home.Session.SubmitProfile, Home.FirstSubmission |
