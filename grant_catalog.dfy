/** The catalog-building part of the matching flow
    (`matchSMEWithGrantProgramsFlow`): list the grant directory, keep the
    names whose extension is `.pdf` in any case, read and extract each one,
    skip the documents whose extraction throws, turn each extraction into a
    catalog record, and choose the grant list sent to the matching prompt.

    The directory listing is an input sequence (or the error `readdir`
    throws); reading a file and extracting its details are function
    parameters that return a value or the error they throw. */
module GrantCatalog {
  import opened Results
  import opened Text
  import opened GrantRecords

  // ---------------------------------------------------------------------
  // The extension filter
  // ---------------------------------------------------------------------

  /** Index of the last `c` in `s`, or -1 when there is none. */
  function LastIndexOf(s: string, c: char): (k: int)
    ensures -1 <= k < |s|
    ensures k >= 0 ==> s[k] == c
    decreases |s|
  {
    if s == [] then -1
    else if s[|s| - 1] == c then |s| - 1
    else LastIndexOf(s[..|s| - 1], c)
  }

  /** No `c` follows the index `LastIndexOf` finds. */
  lemma {:induction false} LastIndexOfIsLast(s: string, c: char)
    ensures forall j :: LastIndexOf(s, c) < j < |s| ==> s[j] != c
    decreases |s|
  {
    if s != [] && s[|s| - 1] != c {
      LastIndexOfIsLast(s[..|s| - 1], c);
    }
  }

  /** Node's `path.extname` for a directory entry name (which never holds a
      `/`): the suffix starting at the last `.`, or "" when there is no dot,
      when the only dot that counts starts the name (a dotfile such as
      `.pdf`), or when the name is `..`. */
  function ExtName(name: string): string
  {
    var dot := LastIndexOf(name, '.');
    // the name `..`: two dots and nothing else
    var dotDot := dot == 1 && |name| == 2 && name[0] == '.';
    if dot <= 0 || dotDot then "" else name[dot..]
  }

  /** The names the flow keeps, stated character by character: at least
      five characters, a `.` fourth from the end, then `p`, `d`, `f` in
      either case. `PdfNameIff` shows this is exactly the flow's test
      `path.extname(file).toLowerCase() === '.pdf'`. */
  predicate IsPdfName(name: string)
  {
    && |name| >= 5
    && name[|name| - 4] == '.'
    && LowerChar(name[|name| - 3]) == 'p'
    && LowerChar(name[|name| - 2]) == 'd'
    && LowerChar(name[|name| - 1]) == 'f'
  }

  /** The extension test of the flow holds exactly for the names kept by
      `IsPdfName`: `A.PDF` qualifies, while the dotfile `.pdf` (whose
      extension is empty) and `report.pdf.txt` do not. */
  lemma {:induction false} PdfNameIff(name: string)
    ensures Lower(ExtName(name)) == ".pdf" <==> IsPdfName(name)
  {
    var dot := LastIndexOf(name, '.');
    LastIndexOfIsLast(name, '.');
    if Lower(ExtName(name)) == ".pdf" {
      assert 0 < dot;
      var ext := name[dot..];
      assert |ext| == 4;
      assert dot == |name| - 4;
      assert LowerChar(ext[1]) == Lower(ext)[1] == 'p';
      assert LowerChar(ext[2]) == Lower(ext)[2] == 'd';
      assert LowerChar(ext[3]) == Lower(ext)[3] == 'f';
    }
    if IsPdfName(name) {
      forall j | |name| - 4 < j < |name|
        ensures name[j] != '.'
      {
      }
      assert dot == |name| - 4;
      var ext := name[dot..];
      assert Lower(ext) == ".pdf";
    }
  }

  /** Node's extension of a few names: the dotfile `.pdf` has none, and
      only the last dot counts. */
  lemma ExtNameExamples()
    ensures ExtName("A.PDF") == ".PDF"
    ensures ExtName(".pdf") == ""
    ensures ExtName("report.pdf.txt") == ".txt"
    ensures ExtName("..") == "" && ExtName("...") == "."
  {
    LastIndexOfIsLast("A.PDF", '.');
    assert "A.PDF"[1] == '.';
    assert "A.PDF"[1..] == ".PDF";
    LastIndexOfIsLast(".pdf", '.');
    assert ".pdf"[0] == '.';
    LastIndexOfIsLast("report.pdf.txt", '.');
    assert "report.pdf.txt"[10] == '.';
    assert "report.pdf.txt"[10..] == ".txt";
    assert LastIndexOf("..", '.') == 1;
    LastIndexOfIsLast("...", '.');
    assert "..."[2] == '.';
    assert "..."[2..] == ".";
  }

  /** The names that reach extraction, in listing order. */
  function PdfNames(files: seq<string>): (pdfs: seq<string>)
    ensures |pdfs| <= |files|
    ensures forall f :: f in pdfs <==> f in files && IsPdfName(f)
    decreases |files|
  {
    if files == [] then []
    else
      var last := files[|files| - 1];
      PdfNames(files[..|files| - 1]) + (if IsPdfName(last) then [last] else [])
  }

  // ---------------------------------------------------------------------
  // The sectors/location heuristic and the catalog record
  // ---------------------------------------------------------------------

  const ExtractedFromDescription := "Extracted from description"
  const Various := "Various"
  const Nationwide := "Nationwide"

  /** `description.match(/sector|industry/i)` decides `sectors`. */
  function SectorsOf(description: string): (sectors: string)
    ensures sectors == ExtractedFromDescription || sectors == Various
    ensures sectors == ExtractedFromDescription <==>
              Mentions(description, "sector") || Mentions(description, "industry")
  {
    if ContainsIgnoringCase(description, "sector") || ContainsIgnoringCase(description, "industry")
    then ExtractedFromDescription
    else Various
  }

  /** `description.match(/location|state|city/i)` decides `location`. */
  function LocationOf(description: string): (location: string)
    ensures location == ExtractedFromDescription || location == Nationwide
    ensures location == ExtractedFromDescription <==>
              Mentions(description, "location") || Mentions(description, "state")
              || Mentions(description, "city")
  {
    if ContainsIgnoringCase(description, "location") || ContainsIgnoringCase(description, "state")
       || ContainsIgnoringCase(description, "city")
    then ExtractedFromDescription
    else Nationwide
  }

  /** The heuristic is a substring test: "nationwide" names no location,
      while "capacity" (city) and "statement" (state) do. */
  lemma LocationHeuristicExamples()
    ensures LocationOf("nationwide") == Nationwide
    ensures LocationOf("capacity") == ExtractedFromDescription
    ensures LocationOf("Statement of intent") == ExtractedFromDescription
  {
    assert OccursAt("capacity", "city", 4);
    assert "Statement of intent"[0..5] == "State";
    assert OccursAt("Statement of intent", "state", 0);
    var t := "nationwide";
    forall i | OccursAt(t, "location", i) || OccursAt(t, "state", i) || OccursAt(t, "city", i)
      ensures false
    {
      var word := if OccursAt(t, "location", i) then "location"
                  else if OccursAt(t, "state", i) then "state" else "city";
      OccurrenceChar(t, word, i, 0);
    }
  }

  /** `g` is the catalog form of the extraction `d`: four fields copied (the
      deadline renamed), the other two filled by the heuristic. */
  ghost predicate IsCatalogFormOf(g: GrantProgramDetails, d: ExtractedDetails)
  {
    && g.programName == d.programName
    && g.eligibilityCriteria == d.eligibilityCriteria
    && g.fundingAmount == d.fundingAmount
    && g.applicationDeadline == d.deadline
    && g.sectors == (if Mentions(d.description, "sector") || Mentions(d.description, "industry")
                     then ExtractedFromDescription else Various)
    && g.location == (if Mentions(d.description, "location") || Mentions(d.description, "state")
                         || Mentions(d.description, "city")
                      then ExtractedFromDescription else Nationwide)
  }

  /** The record pushed onto `analyzedGrants` for one successful extraction. */
  function ToCatalogEntry(d: ExtractedDetails): (g: GrantProgramDetails)
    ensures IsCatalogFormOf(g, d)
    ensures forall h :: IsCatalogFormOf(h, d) ==> h == g
  {
    GrantProgramDetails(d.programName, d.eligibilityCriteria, d.fundingAmount, d.deadline,
                        SectorsOf(d.description), LocationOf(d.description))
  }

  const OpenToAllDescription := "Open to all industry sectors nationwide"

  lemma OpenToAllMentionsSector()
    ensures Mentions(OpenToAllDescription, "sector")
  {
    assert OpenToAllDescription[21..27] == "sector";
    assert OccursAt(OpenToAllDescription, "sector", 21);
  }

  /** The description's only `a`s, in either case, are at 8 and 30. */
  lemma OpenToAllLetterA(k: int)
    requires 0 <= k < |OpenToAllDescription| && LowerChar(OpenToAllDescription[k]) == 'a'
    ensures k == 8 || k == 30
  {
  }

  /** The description's only `c`, in either case, is at 23. */
  lemma OpenToAllLetterC(k: int)
    requires 0 <= k < |OpenToAllDescription| && LowerChar(OpenToAllDescription[k]) == 'c'
    ensures k == 23
  {
  }

  /** No "oc" pair occurs, so "location" cannot. */
  lemma OpenToAllMentionsNoLocation()
    ensures !Mentions(OpenToAllDescription, "location")
  {
    forall k | 0 <= k < |OpenToAllDescription| && LowerChar(OpenToAllDescription[k]) == 'c'
      ensures !(0 <= k - 1 < |OpenToAllDescription| && LowerChar(OpenToAllDescription[k - 1]) == 'o')
    {
      OpenToAllLetterC(k);
    }
    AbsentByLetters(OpenToAllDescription, "location", 2, 1);
  }

  /** No "ta" pair occurs, so "state" cannot. */
  lemma OpenToAllMentionsNoState()
    ensures !Mentions(OpenToAllDescription, "state")
  {
    forall k | 0 <= k < |OpenToAllDescription| && LowerChar(OpenToAllDescription[k]) == 'a'
      ensures !(0 <= k - 1 < |OpenToAllDescription| && LowerChar(OpenToAllDescription[k - 1]) == 't')
    {
      OpenToAllLetterA(k);
    }
    AbsentByLetters(OpenToAllDescription, "state", 2, 1);
  }

  /** No "ci" pair occurs, so "city" cannot. */
  lemma OpenToAllMentionsNoCity()
    ensures !Mentions(OpenToAllDescription, "city")
  {
    forall k | 0 <= k < |OpenToAllDescription| && LowerChar(OpenToAllDescription[k]) == 'c'
      ensures !(0 <= k + 1 < |OpenToAllDescription| && LowerChar(OpenToAllDescription[k + 1]) == 'i')
    {
      OpenToAllLetterC(k);
    }
    AbsentByLetters(OpenToAllDescription, "city", 0, 1);
  }

  /** A document whose description is
      "Open to all industry sectors nationwide": sectors are found, the
      location is not, since "nationwide" matches none of the location words. */
  lemma NationwideDescriptionExample(d: ExtractedDetails)
    requires d.description == OpenToAllDescription
    ensures ToCatalogEntry(d).sectors == ExtractedFromDescription
    ensures ToCatalogEntry(d).location == Nationwide
  {
    OpenToAllMentionsSector();
    OpenToAllMentionsNoLocation();
    OpenToAllMentionsNoState();
    OpenToAllMentionsNoCity();
  }

  // ---------------------------------------------------------------------
  // The catalog: specification and the loop that builds it
  // ---------------------------------------------------------------------

  /** `fs.readFile`: the bytes of a file, or the error it throws. */
  type Reader = string -> Result<Bytes, string>

  /** `analyzeGrantProgramDetails` on the file's bytes, or the error it throws. */
  type Analyzer = Bytes -> Result<ExtractedDetails, string>

  /** One pass of the loop body on `file`, given the grants gathered so far.
      A read error escapes (the read is outside the `try`); an extraction
      error only skips the file. */
  function AddFile(catalog: seq<GrantProgramDetails>, file: string, readFile: Reader, analyze: Analyzer)
    : Result<seq<GrantProgramDetails>, string>
  {
    if !IsPdfName(file) then Ok(catalog)
    else match readFile(file)
      case Err(e) => Err(e)
      case Ok(bytes) =>
        match analyze(bytes)
        case Ok(d) => Ok(catalog + [ToCatalogEntry(d)])
        case Err(_) => Ok(catalog)
  }

  /** The catalog the loop builds from `files`, or the first read error. */
  function CatalogOf(files: seq<string>, readFile: Reader, analyze: Analyzer)
    : Result<seq<GrantProgramDetails>, string>
    decreases |files|
  {
    if files == [] then Ok([])
    else
      var before := CatalogOf(files[..|files| - 1], readFile, analyze);
      if before.Err? then before
      else AddFile(before.value, files[|files| - 1], readFile, analyze)
  }

  /** What extraction yields for `file`: the read error, or the analysis. */
  function Analysis(file: string, readFile: Reader, analyze: Analyzer): Result<ExtractedDetails, string>
  {
    match readFile(file)
    case Err(e) => Err(e)
    case Ok(bytes) => analyze(bytes)
  }

  /** `file` is a PDF whose extraction succeeded with a record whose catalog form is `g`. */
  ghost predicate Yields(file: string, g: GrantProgramDetails, readFile: Reader, analyze: Analyzer)
  {
    IsPdfName(file) && Analysis(file, readFile, analyze).Ok?
    && IsCatalogFormOf(g, Analysis(file, readFile, analyze).value)
  }

  /** Adding a file after some earlier grants only prefixes them to what it adds alone. */
  lemma AddFileAfter(earlier: seq<GrantProgramDetails>, catalog: seq<GrantProgramDetails>, file: string,
                     readFile: Reader, analyze: Analyzer)
    ensures AddFile(catalog, file, readFile, analyze).Err? ==>
              AddFile(earlier + catalog, file, readFile, analyze) == AddFile(catalog, file, readFile, analyze)
    ensures AddFile(catalog, file, readFile, analyze).Ok? ==>
              AddFile(earlier + catalog, file, readFile, analyze)
              == Ok(earlier + AddFile(catalog, file, readFile, analyze).value)
  {
    if IsPdfName(file) && readFile(file).Ok? && analyze(readFile(file).value).Ok? {
      var g := ToCatalogEntry(analyze(readFile(file).value).value);
      assert (earlier + catalog) + [g] == earlier + (catalog + [g]);
    }
  }

  /** Catalog entries follow the listing: the catalog of `xs + ys` is the
      catalog of `xs` followed by that of `ys`, and the first read error
      (in listing order) is the error of the whole build. */
  lemma {:induction false} CatalogAppend(xs: seq<string>, ys: seq<string>, readFile: Reader, analyze: Analyzer)
    ensures CatalogOf(xs, readFile, analyze).Err? ==>
              CatalogOf(xs + ys, readFile, analyze) == CatalogOf(xs, readFile, analyze)
    ensures CatalogOf(xs, readFile, analyze).Ok? && CatalogOf(ys, readFile, analyze).Err? ==>
              CatalogOf(xs + ys, readFile, analyze) == CatalogOf(ys, readFile, analyze)
    ensures CatalogOf(xs, readFile, analyze).Ok? && CatalogOf(ys, readFile, analyze).Ok? ==>
              CatalogOf(xs + ys, readFile, analyze)
              == Ok(CatalogOf(xs, readFile, analyze).value + CatalogOf(ys, readFile, analyze).value)
    decreases |ys|
  {
    if ys == [] {
      assert xs + ys == xs;
      if CatalogOf(xs, readFile, analyze).Ok? {
        assert CatalogOf(xs, readFile, analyze).value + [] == CatalogOf(xs, readFile, analyze).value;
      }
    } else {
      var front, last := ys[..|ys| - 1], ys[|ys| - 1];
      CatalogAppend(xs, front, readFile, analyze);
      assert (xs + ys)[..|xs + ys| - 1] == xs + front;
      assert (xs + ys)[|xs + ys| - 1] == last;
      var before := CatalogOf(front, readFile, analyze);
      if CatalogOf(xs, readFile, analyze).Ok? && before.Ok? {
        AddFileAfter(CatalogOf(xs, readFile, analyze).value, before.value, last, readFile, analyze);
      }
    }
  }

  /** A file that is not a PDF, or a PDF whose extraction throws, adds
      nothing: the catalog is as if the file were absent from the listing. */
  lemma SkipFile(xs: seq<string>, file: string, ys: seq<string>, readFile: Reader, analyze: Analyzer)
    requires !IsPdfName(file) || (readFile(file).Ok? && analyze(readFile(file).value).Err?)
    ensures CatalogOf(xs + [file] + ys, readFile, analyze) == CatalogOf(xs + ys, readFile, analyze)
  {
    assert [file][..0] == [];
    assert CatalogOf([file], readFile, analyze) == Ok([]);
    CatalogAppend(xs, [file], readFile, analyze);
    CatalogAppend(xs + [file], ys, readFile, analyze);
    CatalogAppend(xs, ys, readFile, analyze);
    if CatalogOf(xs, readFile, analyze).Ok? {
      assert CatalogOf(xs, readFile, analyze).value + [] == CatalogOf(xs, readFile, analyze).value;
    }
  }

  /** Only the PDF names matter: the catalog of a listing is the catalog of its PDF names. */
  lemma {:induction false} CatalogOfPdfNames(files: seq<string>, readFile: Reader, analyze: Analyzer)
    ensures CatalogOf(files, readFile, analyze) == CatalogOf(PdfNames(files), readFile, analyze)
    decreases |files|
  {
    if files != [] {
      var front, last := files[..|files| - 1], files[|files| - 1];
      CatalogOfPdfNames(front, readFile, analyze);
      if IsPdfName(last) {
        var pdfs := PdfNames(front) + [last];
        assert PdfNames(files) == pdfs;
        assert pdfs[..|pdfs| - 1] == PdfNames(front);
        assert CatalogOf(pdfs, readFile, analyze) ==
               if CatalogOf(PdfNames(front), readFile, analyze).Err? then CatalogOf(PdfNames(front), readFile, analyze)
               else AddFile(CatalogOf(PdfNames(front), readFile, analyze).value, last, readFile, analyze);
        assert CatalogOf(files, readFile, analyze) ==
               if CatalogOf(front, readFile, analyze).Err? then CatalogOf(front, readFile, analyze)
               else AddFile(CatalogOf(front, readFile, analyze).value, last, readFile, analyze);
      } else {
        assert PdfNames(files) == PdfNames(front) + [] == PdfNames(front);
        assert CatalogOf(files, readFile, analyze) == CatalogOf(front, readFile, analyze);
      }
    }
  }

  /** A listing without PDF names yields an empty catalog and no error. */
  lemma NoPdfsEmptyCatalog(files: seq<string>, readFile: Reader, analyze: Analyzer)
    requires forall i :: 0 <= i < |files| ==> !IsPdfName(files[i])
    ensures CatalogOf(files, readFile, analyze) == Ok([])
  {
    CatalogOfPdfNames(files, readFile, analyze);
    NoPdfNames(files);
  }

  lemma {:induction false} NoPdfNames(files: seq<string>)
    requires forall i :: 0 <= i < |files| ==> !IsPdfName(files[i])
    ensures PdfNames(files) == []
    decreases |files|
  {
    if files != [] {
      NoPdfNames(files[..|files| - 1]);
    }
  }

  /** Extraction only ever sees PDF names: two readers that agree on the
      listing's PDF names give the same catalog, whatever they do elsewhere. */
  lemma {:induction false} OnlyPdfNamesAreRead(files: seq<string>, readFile: Reader, other: Reader, analyze: Analyzer)
    requires forall i :: 0 <= i < |files| && IsPdfName(files[i]) ==> readFile(files[i]) == other(files[i])
    ensures CatalogOf(files, readFile, analyze) == CatalogOf(files, other, analyze)
    decreases |files|
  {
    if files != [] {
      OnlyPdfNamesAreRead(files[..|files| - 1], readFile, other, analyze);
    }
  }

  /** The build fails exactly when reading one of the listed PDF names fails;
      extraction failures never make it fail. */
  lemma {:induction false} CatalogOkIff(files: seq<string>, readFile: Reader, analyze: Analyzer)
    ensures CatalogOf(files, readFile, analyze).Ok? <==>
              forall i :: 0 <= i < |files| && IsPdfName(files[i]) ==> readFile(files[i]).Ok?
    decreases |files|
  {
    if files != [] {
      var front := files[..|files| - 1];
      CatalogOkIff(front, readFile, analyze);
      assert forall i :: 0 <= i < |front| ==> front[i] == files[i];
    }
  }

  /** The grants one loop pass adds on `file` are exactly those `file` yields. */
  lemma AddFileMembers(catalog: seq<GrantProgramDetails>, file: string, readFile: Reader, analyze: Analyzer)
    requires AddFile(catalog, file, readFile, analyze).Ok?
    ensures forall g :: g in AddFile(catalog, file, readFile, analyze).value <==>
              g in catalog || Yields(file, g, readFile, analyze)
  {
    if IsPdfName(file) && Analysis(file, readFile, analyze).Ok? {
      var entry := ToCatalogEntry(Analysis(file, readFile, analyze).value);
      assert AddFile(catalog, file, readFile, analyze).value == catalog + [entry];
    }
  }

  /** A grant is yielded by some file of `files` when one of its files yields it. */
  ghost predicate YieldedBy(files: seq<string>, g: GrantProgramDetails, readFile: Reader, analyze: Analyzer)
  {
    exists i :: 0 <= i < |files| && Yields(files[i], g, readFile, analyze)
  }

  lemma YieldedBySplit(files: seq<string>, g: GrantProgramDetails, readFile: Reader, analyze: Analyzer)
    requires files != []
    ensures YieldedBy(files, g, readFile, analyze) <==>
              YieldedBy(files[..|files| - 1], g, readFile, analyze) || Yields(files[|files| - 1], g, readFile, analyze)
  {
    var front := files[..|files| - 1];
    if YieldedBy(files, g, readFile, analyze) {
      var i :| 0 <= i < |files| && Yields(files[i], g, readFile, analyze);
      if i < |front| {
        assert front[i] == files[i];
      }
    }
    if YieldedBy(front, g, readFile, analyze) {
      var i :| 0 <= i < |front| && Yields(front[i], g, readFile, analyze);
      assert files[i] == front[i];
    }
    if Yields(files[|files| - 1], g, readFile, analyze) {
      assert 0 <= |files| - 1 < |files|;
    }
  }

  /** Every catalog entry comes from a listed PDF whose extraction succeeded,
      and every such PDF contributes its entry. */
  lemma {:induction false} CatalogMembers(files: seq<string>, readFile: Reader, analyze: Analyzer)
    requires CatalogOf(files, readFile, analyze).Ok?
    ensures forall g :: g in CatalogOf(files, readFile, analyze).value <==> YieldedBy(files, g, readFile, analyze)
    decreases |files|
  {
    if files != [] {
      var front, last := files[..|files| - 1], files[|files| - 1];
      var before := CatalogOf(front, readFile, analyze);
      CatalogMembers(front, readFile, analyze);
      AddFileMembers(before.value, last, readFile, analyze);
      forall g
        ensures g in CatalogOf(files, readFile, analyze).value <==> YieldedBy(files, g, readFile, analyze)
      {
        YieldedBySplit(files, g, readFile, analyze);
      }
    }
  }

  /** One entry per PDF whose extraction succeeded: never more entries than PDF names. */
  lemma {:induction false} CatalogLength(files: seq<string>, readFile: Reader, analyze: Analyzer)
    requires CatalogOf(files, readFile, analyze).Ok?
    ensures |CatalogOf(files, readFile, analyze).value| <= |PdfNames(files)|
    decreases |files|
  {
    if files != [] {
      CatalogLength(files[..|files| - 1], readFile, analyze);
    }
  }

  /** When every listed PDF is extracted, the catalog has one entry per PDF
      name and its k-th entry is the catalog form of the k-th PDF's details. */
  lemma {:induction false} CatalogFollowsListing(files: seq<string>, readFile: Reader, analyze: Analyzer)
    requires forall f :: f in files && IsPdfName(f) ==> Analysis(f, readFile, analyze).Ok?
    ensures CatalogOf(files, readFile, analyze).Ok?
    ensures |CatalogOf(files, readFile, analyze).value| == |PdfNames(files)|
    ensures forall k :: 0 <= k < |PdfNames(files)| ==>
              IsCatalogFormOf(CatalogOf(files, readFile, analyze).value[k],
                              Analysis(PdfNames(files)[k], readFile, analyze).value)
    decreases |files|
  {
    if files != [] {
      var front := files[..|files| - 1];
      assert forall i :: 0 <= i < |front| ==> front[i] == files[i];
      CatalogFollowsListing(front, readFile, analyze);
    }
  }

  /** The listed PDF names whose extraction succeeds, in listing order. */
  function Extracted(files: seq<string>, readFile: Reader, analyze: Analyzer): (ex: seq<string>)
    ensures |ex| <= |PdfNames(files)|
    ensures forall f :: f in ex <==> f in files && IsPdfName(f) && Analysis(f, readFile, analyze).Ok?
    decreases |files|
  {
    if files == [] then []
    else
      var last := files[|files| - 1];
      Extracted(files[..|files| - 1], readFile, analyze)
      + (if IsPdfName(last) && Analysis(last, readFile, analyze).Ok? then [last] else [])
  }

  /** Whenever the build succeeds, the catalog has exactly one entry per PDF
      whose extraction succeeded, in listing order: the k-th entry is the
      catalog form of the k-th such PDF's details. */
  lemma {:induction false} CatalogFollowsExtracted(files: seq<string>, readFile: Reader, analyze: Analyzer)
    requires CatalogOf(files, readFile, analyze).Ok?
    ensures |CatalogOf(files, readFile, analyze).value| == |Extracted(files, readFile, analyze)|
    ensures forall k :: 0 <= k < |Extracted(files, readFile, analyze)| ==>
              IsCatalogFormOf(CatalogOf(files, readFile, analyze).value[k],
                              Analysis(Extracted(files, readFile, analyze)[k], readFile, analyze).value)
    decreases |files|
  {
    if files != [] {
      CatalogFollowsExtracted(files[..|files| - 1], readFile, analyze);
    }
  }

  /** The loop of the flow: one catalog entry per PDF name whose extraction
      succeeds, appended in listing order. */
  method BuildCatalog(grantFiles: seq<string>, readFile: Reader, analyze: Analyzer)
    returns (analyzedGrants: Result<seq<GrantProgramDetails>, string>)
    ensures analyzedGrants == CatalogOf(grantFiles, readFile, analyze)
  {
    var grants: seq<GrantProgramDetails> := [];
    for i := 0 to |grantFiles|
      invariant CatalogOf(grantFiles[..i], readFile, analyze) == Ok(grants)
    {
      var file := grantFiles[i];
      assert grantFiles[..i + 1][..i] == grantFiles[..i];
      PdfNameIff(file);
      if Lower(ExtName(file)) == ".pdf" {
        var fileBuffer := readFile(file);
        if fileBuffer.Err? {
          CatalogAppend(grantFiles[..i + 1], grantFiles[i + 1..], readFile, analyze);
          assert grantFiles[..i + 1] + grantFiles[i + 1..] == grantFiles;
          return Err(fileBuffer.error);
        }
        var analysisResult := analyze(fileBuffer.value);
        if analysisResult.Ok? {
          grants := grants + [ToCatalogEntry(analysisResult.value)];
        }
      }
    }
    assert grantFiles[..|grantFiles|] == grantFiles;
    return Ok(grants);
  }

  // ---------------------------------------------------------------------
  // The grant list sent to the matching prompt
  // ---------------------------------------------------------------------

  /** The input of the matching prompt. */
  datatype PromptInput = PromptInput(smeProfile: SmeProfile, grantPrograms: seq<GrantProgramDetails>)

  /** `analyzedGrants.length > 0 ? analyzedGrants : input.grantPrograms ?? []` */
  function SelectGrants(analyzedGrants: seq<GrantProgramDetails>, grantPrograms: Option<seq<GrantProgramDetails>>)
    : (grants: seq<GrantProgramDetails>)
    ensures analyzedGrants != [] ==> grants == analyzedGrants
    ensures analyzedGrants == [] && grantPrograms.Some? ==> grants == grantPrograms.value
    ensures analyzedGrants == [] && grantPrograms.None? ==> grants == []
  {
    if |analyzedGrants| > 0 then analyzedGrants
    else match grantPrograms
      case Some(programs) => programs
      case None => []
  }

  /** Matching sees no grant exactly when the catalog is empty and the
      caller supplied no fallback list, or an empty one. */
  lemma SelectGrantsEmptyIff(analyzedGrants: seq<GrantProgramDetails>, grantPrograms: Option<seq<GrantProgramDetails>>)
    ensures SelectGrants(analyzedGrants, grantPrograms) == [] <==>
              analyzedGrants == [] && (grantPrograms.None? || grantPrograms.value == [])
  {
  }

  /** The flow up to the matching prompt. The listing is what `readdir`
      returned or the error it threw; `warned` says whether the
      "no grant documents" warning was logged. An empty catalog is not an
      error: the flow warns and still builds the prompt input. */
  method MatchFlowInput(input: MatchInput, listing: Result<seq<string>, string>, readFile: Reader, analyze: Analyzer)
    returns (flowInput: Result<PromptInput, string>, warned: bool)
    ensures listing.Err? ==> flowInput == Err(listing.error) && !warned
    ensures listing.Ok? && CatalogOf(listing.value, readFile, analyze).Err? ==>
              flowInput == Err(CatalogOf(listing.value, readFile, analyze).error) && !warned
    ensures listing.Ok? && CatalogOf(listing.value, readFile, analyze).Ok? ==>
              && flowInput == Ok(PromptInput(input.smeProfile,
                                             SelectGrants(CatalogOf(listing.value, readFile, analyze).value,
                                                          input.grantPrograms)))
              && warned == (CatalogOf(listing.value, readFile, analyze).value == [])
  {
    if listing.Err? {
      return Err(listing.error), false;
    }
    var analyzedGrants := BuildCatalog(listing.value, readFile, analyze);
    if analyzedGrants.Err? {
      return Err(analyzedGrants.error), false;
    }
    warned := |analyzedGrants.value| == 0;
    flowInput := Ok(PromptInput(input.smeProfile, SelectGrants(analyzedGrants.value, input.grantPrograms)));
  }
}
