/** The static rendering helpers the pages share: the HTML reference of a
    citation, the label of its source link and the colour classes of a
    domain badge. */
module UIHelpers {
  import opened Wrappers
  import opened Text
  import opened Citations
  import opened Formats

  /** The reference the tables show: the store's APA reference without the
      DOI link, journal details only for journals. */
  method FormatAPACitation(citation: Citation) returns (apa: string)
    ensures apa == ApaReference(citation)
  {
    apa := citation.authors + " (" + IntToString(citation.year) + "). " + citation.title;
    ghost var done := ApaLead(citation);
    if citation.sourceType == Journal {
      apa := apa + (". <em>" + citation.source + "</em>");
      done := done + SourcePart(citation);
      if Truthy(citation.volume) {
        apa := apa + (", " + citation.volume.value);
      } else {
        AppendNothing(done);
      }
      done := done + VolumePart(citation);
      if Truthy(citation.issue) {
        apa := apa + ("(" + citation.issue.value + ")");
      } else {
        AppendNothing(done);
      }
      done := done + IssuePart(citation);
      if Truthy(citation.pages) {
        apa := apa + (", " + citation.pages.value);
      } else {
        AppendNothing(done);
      }
      done := done + PagesPart(citation);
    } else {
      apa := apa + (". <em>" + citation.source + "</em>");
      done := done + SourcePart(citation);
      ApaOutsideJournal(citation);
    }
  }

  /** The text before the first space of `s` (all of `s` when it has none):
      the first piece of `s.split(' ')`. */
  function FirstToken(s: string): (r: string)
    ensures r <= s && ' ' !in r
    ensures r == s || s[|r|] == ' '
  {
    if |s| == 0 || s[0] == ' ' then ""
    else
      var rest := FirstToken(s[1..]);
      assert [s[0]] + s[1..] == s;
      [s[0]] + rest
  }

  /** The label of a citation's source link: the first word of a journal's
      name, the whole source otherwise. */
  function GetSourceLabel(citation: Citation): (r: string)
    ensures citation.sourceType != Journal ==> r == citation.source
    ensures citation.sourceType == Journal ==>
      r <= citation.source && ' ' !in r && (r == citation.source || citation.source[|r|] == ' ')
  {
    if citation.sourceType == Journal then FirstToken(citation.source) else citation.source
  }

  /** The first token is the only prefix free of spaces that ends the string
      or stops at a space. */
  lemma {:induction false} FirstTokenUnique(s: string, t: string)
    requires t <= s && ' ' !in t
    requires t == s || s[|t|] == ' '
    ensures FirstToken(s) == t
  {
    if |s| > 0 && s[0] != ' ' {
      assert |t| > 0 && t[0] == s[0];
      assert t[1..] <= s[1..];
      FirstTokenUnique(s[1..], t[1..]);
      assert [t[0]] + t[1..] == t;
    }
  }

  const DefaultColorClasses := "bg-gray-100 text-gray-800"

  /** The badge colours of the six known domains. */
  const DomainPalette: map<string, string> := map[
    "Theory" := "bg-blue-100 text-blue-800",
    "Structural" := "bg-indigo-100 text-indigo-800",
    "Bio" := "bg-orange-100 text-orange-800",
    "Psych" := "bg-purple-100 text-purple-800",
    "Comm" := "bg-green-100 text-green-800",
    "History" := "bg-red-100 text-red-800"
  ]

  /** A known domain's colours, grey for any other domain. */
  function GetDomainColorClasses(domain: string): (r: string)
    ensures domain in DomainPalette ==> r == DomainPalette[domain]
    ensures r == DefaultColorClasses <==> domain !in DomainPalette
  {
    if domain in DomainPalette && DomainPalette[domain] != "" then DomainPalette[domain]
    else DefaultColorClasses
  }
}
