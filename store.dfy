/** The citation store: one `CitationManager` object holding the loaded
    dataset, its read-only queries, its count statistics and its exports. */
module Store {
  import opened Wrappers
  import opened Text
  import opened Seqs
  import opened Citations
  import opened Formats

  /** Why a load failed: the fetch failed, the status was not a success, or
      the body was not well-formed JSON. */
  datatype LoadError = LoadError(message: string)

  /** The error thrown by reading a property of `null`. */
  datatype TypeError = TypeError

  /** The result of `getStatistics`, without its average evidence quality. */
  datatype Statistics = Statistics(
    totalCitations: nat,
    byDomain: seq<Tally<string>>,
    byYear: seq<Tally<int>>,
    withEffectSizes: nat,
    byStudyType: seq<Tally<string>>)

  function DomainOf(c: Citation): string { c.domain }
  function YearOf(c: Citation): int { c.year }
  function StudyTypeOf(c: Citation): string { c.studyType }

  // ---------------------------------------------------------------------
  // The default `sort()` applied to years: order of their decimal text
  // ---------------------------------------------------------------------

  predicate YearTextLess(a: int, b: int) {
    LexLess(IntToString(a), IntToString(b))
  }

  /** Each year's text is smaller than the next one's. */
  predicate TextOrdered(ys: seq<int>) {
    forall i :: 0 <= i < |ys| - 1 ==> YearTextLess(ys[i], ys[i + 1])
  }

  function InsertByText(y: int, ys: seq<int>): (r: seq<int>)
    requires TextOrdered(ys) && NoDups(ys) && y !in ys
    ensures TextOrdered(r) && NoDups(r)
    ensures forall x :: x in r <==> x == y || x in ys
    ensures |r| == |ys| + 1
    ensures r[0] == y || (|ys| > 0 && r[0] == ys[0])
  {
    if |ys| == 0 then [y]
    else if YearTextLess(y, ys[0]) then [y] + ys
    else
      var rest := ys[1..];
      assert TextOrdered(rest) && NoDups(rest) by {
        assert forall i :: 0 <= i < |rest| ==> rest[i] == ys[i + 1];
      }
      assert ys == [ys[0]] + rest;
      var inserted := InsertByText(y, rest);
      var r := [ys[0]] + inserted;
      assert ys[0] !in inserted by {
        assert ys[0] != y && ys[0] !in rest;
      }
      assert NoDups(r) by {
        assert forall i :: 0 < i < |r| ==> r[i] == inserted[i - 1];
      }
      assert YearTextLess(ys[0], y) by {
        if IntToString(y) == IntToString(ys[0]) {
          IntToStringInjective(y, ys[0]);
        }
        LexLessTotal(IntToString(y), IntToString(ys[0]));
      }
      r
  }

  /** Distinct years in the order of their decimal text (insertion sort). */
  function SortByText(ys: seq<int>): (r: seq<int>)
    requires NoDups(ys)
    ensures TextOrdered(r) && NoDups(r)
    ensures forall x :: x in r <==> x in ys
  {
    if |ys| == 0 then []
    else
      assert NoDups(ys[1..]) by {
        assert forall i :: 0 <= i < |ys| - 1 ==> ys[1..][i] == ys[i + 1];
      }
      assert ys[0] !in ys[1..];
      assert ys == [ys[0]] + ys[1..];
      InsertByText(ys[0], SortByText(ys[1..]))
  }

  /** When every year has four digits, text order is numeric order, so the
      sorted years ascend. */
  lemma {:induction false} TextOrderedFourDigitAscends(ys: seq<int>)
    requires TextOrdered(ys)
    requires forall i :: 0 <= i < |ys| ==> 1000 <= ys[i] <= 9999
    ensures forall i, j :: 0 <= i < j < |ys| ==> ys[i] < ys[j]
  {
    if |ys| > 1 {
      var rest := ys[1..];
      assert TextOrdered(rest) by {
        assert forall i :: 0 <= i < |rest| ==> rest[i] == ys[i + 1];
      }
      TextOrderedFourDigitAscends(rest);
      FourDigitOrder(ys[0], ys[1]);
      forall i, j | 0 <= i < j < |ys|
        ensures ys[i] < ys[j]
      {
        if i > 0 {
          assert ys[i] == rest[i - 1] && ys[j] == rest[j - 1];
        } else if j > 1 {
          assert ys[1] == rest[0] && ys[j] == rest[j - 1];
        }
      }
    }
  }

  /** Without the four-digit premise the order is not numeric: 2001 sorts
      before 999. */
  lemma TextOrderIsNotNumeric()
    ensures SortByText([999, 2001]) == [2001, 999]
  {
    assert IntToString(999) == "999" by {
      assert NatToString(99) == "99";
    }
    assert IntToString(2001) == "2001" by {
      assert NatToString(200) == "200" by {
        assert NatToString(20) == "20";
      }
    }
    assert YearTextLess(2001, 999);
    assert !YearTextLess(999, 2001);
    assert SortByText([2001]) == [2001];
    assert [999, 2001][1..] == [2001];
  }

  // ---------------------------------------------------------------------
  // Search predicates
  // ---------------------------------------------------------------------

  /** `c.keywords.some(k => k.toLowerCase().includes(lowerKeyword))`. */
  predicate KeywordMatches(c: Citation, lowerKeyword: string) {
    exists i :: 0 <= i < |c.keywords| && Contains(Lower(c.keywords[i]), lowerKeyword)
  }

  const Indent := "                "

  /** The template the free-text search builds for one citation: the title,
      authors, synthesis and the space-joined keywords, each on a line of its
      own, as the template literal lays them out. */
  function SearchText(c: Citation): string {
    "\n" + Indent + c.title + " \n" + Indent + c.authors + " \n" + Indent + c.synthesis + " \n"
    + Indent + Join(c.keywords, " ") + "\n" + "            "
  }

  predicate SearchMatches(c: Citation, lowerQuery: string) {
    Contains(Lower(SearchText(c)), lowerQuery)
  }

  /** A citation that matches a keyword query also matches the same text as a
      free-text query. */
  lemma KeywordMatchIsSearchMatch(c: Citation, lowerQuery: string)
    requires KeywordMatches(c, lowerQuery)
    ensures SearchMatches(c, lowerQuery)
  {
    var i :| 0 <= i < |c.keywords| && Contains(Lower(c.keywords[i]), lowerQuery);
    var joined := Join(c.keywords, " ");
    JoinContains(c.keywords, " ", i);
    var before := "\n" + Indent + c.title + " \n" + Indent + c.authors + " \n" + Indent + c.synthesis + " \n" + Indent;
    var after := "\n" + "            ";
    assert SearchText(c) == before + joined + after;
    ContainsInfix(before, joined, after);
    ContainsTransitive(SearchText(c), joined, c.keywords[i]);
    ContainsLower(SearchText(c), c.keywords[i]);
    ContainsTransitive(Lower(SearchText(c)), Lower(c.keywords[i]), lowerQuery);
  }

  // ---------------------------------------------------------------------
  // The store
  // ---------------------------------------------------------------------

  class CitationManager {
    var citations: seq<Citation>
    var metadata: Option<map<string, string>>
    var domainDescriptions: Option<map<string, string>>
    var riskFactors: seq<RiskFactor>
    var loaded: bool

    /** An empty store: no citations, null metadata and descriptions, no risk
        factors, not loaded. */
    constructor ()
      ensures citations == [] && riskFactors == []
      ensures metadata == None && domainDescriptions == None
      ensures !loaded
    {
      citations := [];
      metadata := None;
      domainDescriptions := None;
      riskFactors := [];
      loaded := false;
    }

    /** `loadData` once the document has been fetched and parsed: on success
        every field is replaced by the document's and the store is loaded; on
        failure the error is passed on and nothing changes. */
    method Load(response: Result<Dataset, LoadError>) returns (r: Result<Dataset, LoadError>)
      modifies this
      ensures r == response
      ensures response.Ok? ==>
        && citations == response.value.citations
        && metadata == response.value.metadata
        && domainDescriptions == response.value.domainDescriptions
        && riskFactors == response.value.riskFactors
        && loaded
      ensures response.Err? ==> unchanged(this)
    {
      match response
      case Ok(data) =>
        citations := data.citations;
        metadata := data.metadata;
        domainDescriptions := data.domainDescriptions;
        riskFactors := data.riskFactors;
        loaded := true;
        r := response;
      case Err(_) =>
        r := response;
    }

    function GetAllCitations(): (r: seq<Citation>)
      reads this
      ensures r == citations
    {
      citations
    }

    /** The citations of one domain, in order; `"all"` gives the whole collection. */
    function GetCitationsByDomain(domain: string): (r: seq<Citation>)
      reads this
      ensures domain == "all" ==> r == citations
      ensures domain != "all" ==>
        && IsSubsequence(r, citations)
        && (forall i :: 0 <= i < |r| ==> r[i].domain == domain)
        && (forall c: Citation :: c.domain == domain ==> multiset(r)[c] == multiset(citations)[c])
    {
      assert forall c :: HasKey(DomainOf, domain)(c) == (c.domain == domain);
      if domain == "all" then citations else Filter(HasKey(DomainOf, domain), citations)
    }

    /** The citations whose year lies between both bounds, bounds included. */
    function GetCitationsByYearRange(startYear: int, endYear: int): (r: seq<Citation>)
      reads this
      ensures IsSubsequence(r, citations)
      ensures forall i :: 0 <= i < |r| ==> startYear <= r[i].year <= endYear
      ensures forall c: Citation :: startYear <= c.year <= endYear ==> multiset(r)[c] == multiset(citations)[c]
    {
      Filter((c: Citation) => c.year >= startYear && c.year <= endYear, citations)
    }

    /** The citations with a keyword that contains the query, ignoring case. */
    function GetCitationsByKeyword(keyword: string): (r: seq<Citation>)
      reads this
      ensures IsSubsequence(r, citations)
      ensures forall i :: 0 <= i < |r| ==> KeywordMatches(r[i], Lower(keyword))
      ensures forall c: Citation :: KeywordMatches(c, Lower(keyword)) ==> multiset(r)[c] == multiset(citations)[c]
    {
      var lowerKeyword := Lower(keyword);
      Filter((c: Citation) => KeywordMatches(c, lowerKeyword), citations)
    }

    /** The citations whose search text contains the query, ignoring case. */
    function SearchCitations(query: string): (r: seq<Citation>)
      reads this
      ensures IsSubsequence(r, citations)
      ensures forall i :: 0 <= i < |r| ==> SearchMatches(r[i], Lower(query))
      ensures forall c: Citation :: SearchMatches(c, Lower(query)) ==> multiset(r)[c] == multiset(citations)[c]
    {
      var lowerQuery := Lower(query);
      Filter((c: Citation) => SearchMatches(c, lowerQuery), citations)
    }

    /** The citations whose effect size is not `null` (`undefined` passes). */
    function GetCitationsWithEffectSizes(): (r: seq<Citation>)
      reads this
      ensures IsSubsequence(r, citations)
      ensures forall i :: 0 <= i < |r| ==> !r[i].effectSize.Null?
      ensures forall c: Citation :: !c.effectSize.Null? ==> multiset(r)[c] == multiset(citations)[c]
    {
      Filter((c: Citation) => EffectSizeNotNull(c.effectSize), citations)
    }

    /** The first citation with the given id, or nothing when none has it. */
    function GetCitationById(id: string): (r: Option<Citation>)
      reads this
      ensures r.None? <==> forall i :: 0 <= i < |citations| ==> citations[i].id != id
      ensures r.Some? ==> exists i :: 0 <= i < |citations| && citations[i] == r.value && r.value.id == id &&
                                     forall j :: 0 <= j < i ==> citations[j].id != id
    {
      Find((c: Citation) => c.id == id, citations)
    }

    /** The citations of one study type, in order. */
    function GetCitationsByStudyType(studyType: string): (r: seq<Citation>)
      reads this
      ensures IsSubsequence(r, citations)
      ensures forall i :: 0 <= i < |r| ==> r[i].studyType == studyType
      ensures forall c: Citation :: c.studyType == studyType ==> multiset(r)[c] == multiset(citations)[c]
    {
      assert forall c :: HasKey(StudyTypeOf, studyType)(c) == (c.studyType == studyType);
      Filter(HasKey(StudyTypeOf, studyType), citations)
    }

    /** Every year that occurs, once each, in the default sort order. */
    function GetUniqueYears(): (r: seq<int>)
      reads this
      ensures NoDups(r) && TextOrdered(r)
      ensures forall y :: y in r <==> exists i :: 0 <= i < |citations| && citations[i].year == y
    {
      var years := Map(YearOf, citations);
      assert forall y :: y in years <==> exists i :: 0 <= i < |citations| && citations[i].year == y by {
        forall y | y in years
          ensures exists i :: 0 <= i < |citations| && citations[i].year == y
        {
          var i :| 0 <= i < |years| && years[i] == y;
        }
      }
      SortByText(Unique(years))
    }

    /** Every domain that occurs, once each, in order of first occurrence. */
    function GetUniqueDomains(): (r: seq<string>)
      reads this
      ensures NoDups(r)
      ensures forall d :: d in r <==> exists i :: 0 <= i < |citations| && citations[i].domain == d
      ensures forall d :: d in r <==> d in Map(DomainOf, citations)
      ensures forall i, j :: 0 <= i < j < |r| ==>
                IndexOf(Map(DomainOf, citations), r[i]) < IndexOf(Map(DomainOf, citations), r[j])
    {
      var domains := Map(DomainOf, citations);
      assert forall d :: d in domains <==> exists i :: 0 <= i < |citations| && citations[i].domain == d by {
        forall d | d in domains
          ensures exists i :: 0 <= i < |citations| && citations[i].domain == d
        {
          var i :| 0 <= i < |domains| && domains[i] == d;
        }
      }
      UniqueFirstSeen(domains);
      Unique(domains)
    }

    /** `domainDescriptions[domain]`: a `TypeError` while the descriptions are
        null, `undefined` for a domain without one. */
    function GetDomainDescription(domain: string): (r: Result<Option<string>, TypeError>)
      reads this
      ensures r.Err? <==> domainDescriptions.None?
      ensures r.Ok? ==> (r.value.Some? <==> domain in domainDescriptions.value)
      ensures r.Ok? && r.value.Some? ==> r.value.value == domainDescriptions.value[domain]
    {
      match domainDescriptions
      case None => Err(TypeError)
      case Some(descriptions) => Ok(if domain in descriptions then Some(descriptions[domain]) else None)
    }

    function GetRiskFactors(): (r: seq<RiskFactor>)
      reads this
      ensures r == riskFactors
    {
      riskFactors
    }

    /** The `byDomain` table: each listed domain with the length of
        `getCitationsByDomain` for it. */
    function DomainTallies(domains: seq<string>): (t: seq<Tally<string>>)
      reads this
      ensures |t| == |domains|
      ensures forall i :: 0 <= i < |domains| ==> t[i].key == domains[i]
      ensures forall i :: 0 <= i < |domains| ==> t[i].count == |GetCitationsByDomain(domains[i])|
    {
      if |domains| == 0 then []
      else [Tally(domains[0], |GetCitationsByDomain(domains[0])|)] + DomainTallies(domains[1..])
    }

    /** The statistics record, without the average evidence quality. */
    function GetStatistics(): (s: Statistics)
      reads this
      ensures s.totalCitations == |citations|
      ensures s.withEffectSizes == |GetCitationsWithEffectSizes()|
      ensures |s.byDomain| == |GetUniqueDomains()| &&
              forall i :: 0 <= i < |s.byDomain| ==> s.byDomain[i].key == GetUniqueDomains()[i]
      ensures |s.byYear| == |GetUniqueYears()| &&
              forall i :: 0 <= i < |s.byYear| ==> s.byYear[i].key == GetUniqueYears()[i]
      ensures var types := Unique(Map(StudyTypeOf, citations));
              |s.byStudyType| == |types| &&
              forall i :: 0 <= i < |s.byStudyType| ==> s.byStudyType[i].key == types[i]
    {
      Statistics(
        |citations|,
        DomainTallies(GetUniqueDomains()),
        Tabulate(citations, YearOf, GetUniqueYears()),
        |GetCitationsWithEffectSizes()|,
        Tabulate(citations, StudyTypeOf, Unique(Map(StudyTypeOf, citations))))
    }

    // -------------------------------------------------------------------
    // Exports
    // -------------------------------------------------------------------

    /** The APA reference with its DOI link, built fragment by fragment. */
    method FormatAPACitation(citation: Citation) returns (apa: string)
      ensures apa == ApaWithDoi(citation)
    {
      apa := citation.authors + " (" + IntToString(citation.year) + "). " + citation.title;
      ghost var done := ApaLead(citation);
      if citation.sourceType == Journal {
        apa := apa + (". <em>" + citation.source + "</em>");
        done := done + SourcePart(citation);
        if Truthy(citation.volume) {
          apa := apa + (", " + citation.volume.value);
        } else {
          AppendNothing(done);
        }
        done := done + VolumePart(citation);
        if Truthy(citation.issue) {
          apa := apa + ("(" + citation.issue.value + ")");
        } else {
          AppendNothing(done);
        }
        done := done + IssuePart(citation);
        if Truthy(citation.pages) {
          apa := apa + (", " + citation.pages.value);
        } else {
          AppendNothing(done);
        }
        done := done + PagesPart(citation);
      } else {
        apa := apa + (". <em>" + citation.source + "</em>");
        done := done + SourcePart(citation);
        ApaOutsideJournal(citation);
      }
      assert apa == ApaReference(citation);
      if Truthy(citation.doi) {
        apa := apa + (". https://doi.org/" + citation.doi.value);
      }
    }

    /** The plain-text export of `citationList` (the page passes the whole
        collection); `generated` is the date text the header shows. */
    method ExportToText(generated: string, citationList: seq<Citation>) returns (output: string)
      ensures output == TextExport(generated, citationList)
    {
      output := "V-PROJECT EVIDENCE LIBRARY EXPORT\n";
      output := output + ("Generated: " + generated + "\n");
      output := output + (Repeat('=', 80) + "\n\n");
      var index := 0;
      while index < |citationList|
        invariant 0 <= index <= |citationList|
        invariant output == TextExport(generated, citationList[..index])
      {
        var citation := citationList[index];
        ghost var before := output;
        var apa := FormatAPACitation(citation);
        output := output + (NatToString(index + 1) + ". " + apa + "\n");
        ghost var entry := NumberedLine(index + 1, citation);
        AppendAfter(before, entry, DomainLine(citation));
        output := output + ("   Domain: " + citation.domain + "\n");
        entry := entry + DomainLine(citation);
        AppendAfter(before, entry, SynthesisLine(citation));
        output := output + ("   Synthesis: " + citation.synthesis + "\n");
        entry := entry + SynthesisLine(citation);
        if Truthy(citation.url) {
          AppendAfter(before, entry, LinkLine(citation));
          output := output + ("   Link: " + citation.url.value + "\n");
        } else {
          AppendNothing(entry);
        }
        entry := entry + LinkLine(citation);
        if EffectSizeTruthy(citation.effectSize) {
          AppendAfter(before, entry, EffectSizeLine(citation));
          output := output + ("   Effect Size: " + DecimalToString(citation.effectSize.value) + " "
                              + OrEmpty(citation.effectSizeType) + "\n");
        } else {
          AppendNothing(entry);
        }
        entry := entry + EffectSizeLine(citation);
        AppendAfter(before, entry, "\n");
        output := output + "\n";
        entry := entry + "\n";
        TextExportSnoc(generated, citationList, index);
        index := index + 1;
      }
      assert citationList[..index] == citationList;
    }

    /** The BibTeX export of `citationList` (the page passes the whole
        collection). */
    method ExportToBibTeX(citationList: seq<Citation>) returns (bibtex: string)
      ensures bibtex == BibTeX(citationList)
    {
      bibtex := "";
      var index := 0;
      while index < |citationList|
        invariant 0 <= index <= |citationList|
        invariant bibtex == BibTeX(citationList[..index])
      {
        var citation := citationList[index];
        bibtex := AppendBibEntry(bibtex, citation);
        BibTeXSnoc(citationList, index);
        assert bibtex == BibTeX(citationList[..index + 1]);
        index := index + 1;
      }
      assert citationList[..index] == citationList;
    }

    /** The body of the BibTeX loop: appends the entry of `citation` to
        `bibtex`, its optional lines only for truthy fields. */
    method AppendBibEntry(bibtex: string, citation: Citation) returns (r: string)
      ensures r == bibtex + BibEntry(citation)
    {
      r := bibtex;
      var entryType := if citation.sourceType == Journal then "article" else "misc";
      r := r + ("@" + entryType + "{" + citation.id + ",\n");
      // r == head + lines, where lines grows by one field line at a time
      ghost var head := bibtex + EntryHead(citation);
      ghost var lines := FieldLine(BibField("author", citation.authors));
      r := r + ("  author = {" + citation.authors + "},\n");
      assert r == head + lines by {
        FieldLineLiteral("author", "  author = {", citation.authors);
      }
      ghost var line := FieldLine(BibField("title", citation.title));
      r := r + ("  title = {" + citation.title + "},\n");
      assert r == head + (lines + line) by {
        FieldLineLiteral("title", "  title = {", citation.title);
        AppendAfter(head, lines, line);
      }
      lines := lines + line;
      line := FieldLine(BibField("year", IntToString(citation.year)));
      r := r + ("  year = {" + IntToString(citation.year) + "},\n");
      assert r == head + (lines + line) by {
        FieldLineLiteral("year", "  year = {", IntToString(citation.year));
        AppendAfter(head, lines, line);
      }
      lines := lines + line;
      r := AppendJournalFields(r, citation);
      assert r == head + (lines + JournalLines(citation)) by {
        AppendAfter(head, lines, JournalLines(citation));
      }
      lines := lines + JournalLines(citation);
      line := OptionalLine("doi", citation.doi);
      AppendOptionalLine(head, lines, "doi", "  doi = {", citation.doi);
      if Truthy(citation.doi) {
        r := r + ("  doi = {" + citation.doi.value + "},\n");
      }
      lines := lines + line;
      assert lines == FieldLines(BibFields(citation)) by {
        FieldLinesOfEntry(citation);
      }
      r := r + "}\n\n";
      assert r == bibtex + BibEntry(citation) by {
        AppendAfter(head, lines, "}\n\n");
        AppendAfter(bibtex, EntryHead(citation), lines);
        AppendAfter(bibtex, EntryHead(citation) + lines, "}\n\n");
      }
    }

    /** The journal block of a BibTeX entry: for a journal, its `journal` line,
        then `volume`, `number` and `pages` lines for the truthy ones. */
    method AppendJournalFields(text: string, citation: Citation) returns (r: string)
      ensures r == text + JournalLines(citation)
    {
      r := text;
      if citation.sourceType == Journal {
        r := r + ("  journal = {" + citation.source + "},\n");
        ghost var journal := FieldLine(BibField("journal", citation.source));
        assert r == text + journal;
        AppendOptionalLine(text, journal, "volume", "  volume = {", citation.volume);
        if Truthy(citation.volume) {
          r := r + ("  volume = {" + citation.volume.value + "},\n");
        }
        journal := journal + OptionalLine("volume", citation.volume);
        assert r == text + journal;
        AppendOptionalLine(text, journal, "number", "  number = {", citation.issue);
        if Truthy(citation.issue) {
          r := r + ("  number = {" + citation.issue.value + "},\n");
        }
        journal := journal + OptionalLine("number", citation.issue);
        assert r == text + journal;
        AppendOptionalLine(text, journal, "pages", "  pages = {", citation.pages);
        if Truthy(citation.pages) {
          r := r + ("  pages = {" + citation.pages.value + "},\n");
        }
        journal := journal + OptionalLine("pages", citation.pages);
      } else {
        AppendNothing(text);
      }
    }
  }

  /** The export writes each field line as one literal prefix, the value and
      the closing brace. */
  lemma FieldLineLiteral(name: string, prefix: string, value: string)
    requires prefix == "  " + name + " = {"
    ensures FieldLine(BibField(name, value)) == prefix + value + "},\n"
  {
  }

  /** Bookkeeping for the BibTeX loop: writing an optional field the way the
      export does (a line only when the field is truthy) appends its
      `OptionalLine` to the field lines written so far. */
  lemma AppendOptionalLine(head: string, lines: string, name: string, prefix: string, field: Option<string>)
    requires prefix == "  " + name + " = {"
    ensures Truthy(field) ==> (head + lines) + (prefix + field.value + "},\n") == head + (lines + OptionalLine(name, field))
    ensures !Truthy(field) ==> head + lines == head + (lines + OptionalLine(name, field))
  {
    if Truthy(field) {
      AppendAfter(head, lines, OptionalLine(name, field));
    } else {
      AppendNothing(lines);
    }
  }

  // ---------------------------------------------------------------------
  // Properties of the queries
  // ---------------------------------------------------------------------

  /** A one-year range holds exactly the citations of that year, in order. */
  lemma YearRangeOfOneYear(m: CitationManager, y: int)
    ensures m.GetCitationsByYearRange(y, y) == Filter(HasKey(YearOf, y), m.citations)
  {
    FilterCongruent((c: Citation) => c.year >= y && c.year <= y, HasKey(YearOf, y), m.citations);
  }

  /** The search ignores case: two queries with the same lower-case form find
      the same citations; in particular a query and its upper-case form. */
  lemma SearchCaseInsensitive(m: CitationManager, query: string, other: string)
    requires Lower(query) == Lower(other)
    ensures m.SearchCitations(query) == m.SearchCitations(other)
    ensures m.SearchCitations(Upper(query)) == m.SearchCitations(query)
  {
    LowerOfUpper(query);
    var q := Lower(query);
    FilterCongruent((c: Citation) => SearchMatches(c, Lower(other)), (c: Citation) => SearchMatches(c, q), m.citations);
    FilterCongruent((c: Citation) => SearchMatches(c, Lower(Upper(query))), (c: Citation) => SearchMatches(c, q), m.citations);
  }

  /** The keyword query ignores case in the same way. */
  lemma KeywordCaseInsensitive(m: CitationManager, keyword: string)
    ensures m.GetCitationsByKeyword(Upper(keyword)) == m.GetCitationsByKeyword(keyword)
  {
    LowerOfUpper(keyword);
    var k := Lower(keyword);
    FilterCongruent((c: Citation) => KeywordMatches(c, Lower(Upper(keyword))), (c: Citation) => KeywordMatches(c, k), m.citations);
  }

  /** Every citation a keyword query finds, the same text as a free-text
      query finds too, in the same relative order. */
  lemma KeywordResultsWithinSearch(m: CitationManager, query: string)
    ensures IsSubsequence(m.GetCitationsByKeyword(query), m.SearchCitations(query))
  {
    var q := Lower(query);
    forall c: Citation | KeywordMatches(c, q)
      ensures SearchMatches(c, q)
    {
      KeywordMatchIsSearchMatch(c, q);
    }
    FilterImplies((c: Citation) => KeywordMatches(c, q), (c: Citation) => SearchMatches(c, q), m.citations);
  }

  /** With distinct ids, looking a citation's id up gives that citation. */
  lemma CitationByIdWhenIdsDistinct(m: CitationManager, k: nat)
    requires k < |m.citations|
    requires forall i, j :: 0 <= i < j < |m.citations| ==> m.citations[i].id != m.citations[j].id
    ensures m.GetCitationById(m.citations[k].id) == Some(m.citations[k])
  {
    var r := m.GetCitationById(m.citations[k].id);
    var i :| 0 <= i < |m.citations| && m.citations[i] == r.value && r.value.id == m.citations[k].id &&
             forall j :: 0 <= j < i ==> m.citations[j].id != m.citations[k].id;
    assert !(k < i);
    assert !(i < k);
  }

  /** Four-digit years come out of `GetUniqueYears` in ascending numeric order. */
  lemma UniqueYearsAscend(m: CitationManager)
    requires forall i :: 0 <= i < |m.citations| ==> 1000 <= m.citations[i].year <= 9999
    ensures forall i, j :: 0 <= i < j < |m.GetUniqueYears()| ==> m.GetUniqueYears()[i] < m.GetUniqueYears()[j]
  {
    var ys := m.GetUniqueYears();
    forall i | 0 <= i < |ys|
      ensures 1000 <= ys[i] <= 9999
    {
      assert ys[i] in ys;
    }
    TextOrderedFourDigitAscends(ys);
  }

  /** Two citations, one with effect size 0.5 and one with a null effect
      size: only the first has an effect size. */
  lemma EffectSizeScenario(m: CitationManager, c1: Citation, c2: Citation)
    requires m.citations == [c1, c2]
    requires c1.effectSize == Number(Decimal(5, 1)) && c2.effectSize == Null
    ensures m.GetCitationsWithEffectSizes() == [c1]
  {
    var p := (c: Citation) => EffectSizeNotNull(c.effectSize);
    assert [c1, c2][1..] == [c2] && [c2][1..] == [];
    assert Filter(p, [c2]) == [];
  }

  /** Citations of 2001 and 2010 give the unique years `[2001, 2010]`. */
  lemma UniqueYearsScenario(m: CitationManager, c1: Citation, c2: Citation)
    requires m.citations == [c1, c2]
    requires c1.year == 2001 && c2.year == 2010
    ensures m.GetUniqueYears() == [2001, 2010]
  {
    var years := Map(YearOf, m.citations);
    assert years == [2001, 2010];
    assert Unique(years) == [2001, 2010] by {
      assert years[..1] == [2001] && years[..1][..0] == [];
      assert Unique(years[..1]) == [2001];
    }
    assert IntToString(2001) == "2001" && IntToString(2010) == "2010" by {
      assert NatToString(200) == "200" && NatToString(201) == "201" by {
        assert NatToString(20) == "20";
      }
    }
    assert YearTextLess(2001, 2010);
    assert SortByText([2010]) == [2010];
    assert [2001, 2010][1..] == [2010];
  }

  // ---------------------------------------------------------------------
  // Properties of the statistics
  // ---------------------------------------------------------------------

  /** Each row of the statistics counts what the matching query returns: the
      domain query, the one-year range and the study-type query. */
  lemma StatisticsRowsMatchQueries(m: CitationManager)
    ensures var s := m.GetStatistics();
      && (forall i :: 0 <= i < |s.byDomain| ==> s.byDomain[i].count == |m.GetCitationsByDomain(s.byDomain[i].key)|)
      && (forall i :: 0 <= i < |s.byYear| ==>
            s.byYear[i].count == |m.GetCitationsByYearRange(s.byYear[i].key, s.byYear[i].key)|)
      && (forall i :: 0 <= i < |s.byStudyType| ==>
            s.byStudyType[i].count == |m.GetCitationsByStudyType(s.byStudyType[i].key)|)
  {
    var s := m.GetStatistics();
    forall i | 0 <= i < |s.byYear|
      ensures s.byYear[i].count == |m.GetCitationsByYearRange(s.byYear[i].key, s.byYear[i].key)|
    {
      YearRangeOfOneYear(m, s.byYear[i].key);
    }
  }

  /** The domain queries partition the collection: a citation is in the
      result for `d` exactly when it is in the collection with domain `d`
      (for any `d` other than `"all"`). */
  lemma DomainPartitionMembership(m: CitationManager, d: string, c: Citation)
    requires d != "all"
    ensures c in m.GetCitationsByDomain(d) <==> c in m.citations && c.domain == d
  {
    var r := m.GetCitationsByDomain(d);
    if c in r {
      assert c.domain == d;
      assert multiset(r)[c] > 0;
    }
    if c in m.citations && c.domain == d {
      assert multiset(m.citations)[c] > 0;
    }
  }

  /** A `byDomain` row is the length of a plain domain filter, unless the
      domain is literally `"all"`. */
  lemma DomainTalliesAsTabulate(m: CitationManager, domains: seq<string>)
    requires "all" !in domains
    ensures m.DomainTallies(domains) == Tabulate(m.citations, DomainOf, domains)
  {
    var t, u := m.DomainTallies(domains), Tabulate(m.citations, DomainOf, domains);
    forall i | 0 <= i < |domains|
      ensures t[i] == u[i]
    {
      assert domains[i] != "all";
    }
  }

  /** Every citation is counted exactly once by year. */
  lemma YearTotals(m: CitationManager)
    ensures Total(m.GetStatistics().byYear) == |m.citations|
  {
    var years := m.GetUniqueYears();
    forall i | 0 <= i < |m.citations|
      ensures YearOf(m.citations[i]) in years
    {
    }
    TabulatePartition(m.citations, YearOf, years);
  }

  /** Every citation is counted exactly once by study type. */
  lemma StudyTypeTotals(m: CitationManager)
    ensures Total(m.GetStatistics().byStudyType) == |m.citations|
  {
    var types := Unique(Map(StudyTypeOf, m.citations));
    forall i | 0 <= i < |m.citations|
      ensures StudyTypeOf(m.citations[i]) in types
    {
      assert Map(StudyTypeOf, m.citations)[i] == StudyTypeOf(m.citations[i]);
    }
    TabulatePartition(m.citations, StudyTypeOf, types);
  }

  /** As long as no citation's domain is `"all"`, every citation is counted
      exactly once by domain. */
  lemma DomainTotals(m: CitationManager)
    requires forall i :: 0 <= i < |m.citations| ==> m.citations[i].domain != "all"
    ensures Total(m.GetStatistics().byDomain) == |m.citations|
  {
    var domains := m.GetUniqueDomains();
    forall i | 0 <= i < |m.citations|
      ensures DomainOf(m.citations[i]) in domains
    {
    }
    DomainTalliesAsTabulate(m, domains);
    TabulatePartition(m.citations, DomainOf, domains);
  }

  /** When one citation's domain is literally `"all"` and another's is not,
      the `"all"` row counts the whole collection, so the `byDomain` counts
      add up to more than the number of citations. */
  lemma ByDomainOvercountsWithAllDomain(m: CitationManager, a: nat, b: nat)
    requires a < |m.citations| && b < |m.citations|
    requires m.citations[a].domain == "all" && m.citations[b].domain != "all"
    ensures Total(m.GetStatistics().byDomain) > |m.citations|
  {
    var domains := m.GetUniqueDomains();
    var t := m.GetStatistics().byDomain;
    assert "all" in domains && m.citations[b].domain in domains;
    var ia := IndexOf(domains, "all");
    var ib := IndexOf(domains, m.citations[b].domain);
    var others := m.GetCitationsByDomain(m.citations[b].domain);
    assert multiset(others)[m.citations[b]] == multiset(m.citations)[m.citations[b]] > 0;
    assert |others| > 0;
    TotalOfTwoRows(t, ia, ib);
  }
}
