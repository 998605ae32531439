/** What the exports produce, as functions of their input: the APA reference
    in its two variants, the plain-text export and the BibTeX export, plus a
    reader for the BibTeX text that recovers every entry's type, key and
    fields. The methods that build these strings by appending fragments
    (module Store, module UIHelpers) are proved to produce exactly these
    values. */
module Formats {
  import opened Wrappers
  import opened Text
  import opened Citations

  // ---------------------------------------------------------------------
  // APA reference
  // ---------------------------------------------------------------------

  /** `authors (year). title`, the text every reference starts with. */
  function ApaLead(c: Citation): string {
    c.authors + " (" + IntToString(c.year) + "). " + c.title
  }

  /** `. <em>source</em>`, for every source type. */
  function SourcePart(c: Citation): string {
    ". <em>" + c.source + "</em>"
  }

  /** `, volume` for a journal with a truthy volume. */
  function VolumePart(c: Citation): string {
    if c.sourceType == Journal && Truthy(c.volume) then ", " + c.volume.value else ""
  }

  /** `(issue)` for a journal with a truthy issue. */
  function IssuePart(c: Citation): string {
    if c.sourceType == Journal && Truthy(c.issue) then "(" + c.issue.value + ")" else ""
  }

  /** `, pages` for a journal with truthy pages. */
  function PagesPart(c: Citation): string {
    if c.sourceType == Journal && Truthy(c.pages) then ", " + c.pages.value else ""
  }

  /** The reference without a DOI link, as the results table shows it. */
  function ApaReference(c: Citation): string {
    ApaLead(c) + SourcePart(c) + VolumePart(c) + IssuePart(c) + PagesPart(c)
  }

  /** `. https://doi.org/<doi>` when the DOI is truthy. */
  function DoiSuffix(c: Citation): string {
    if Truthy(c.doi) then ". https://doi.org/" + c.doi.value else ""
  }

  /** The reference with its DOI link, as the store's formatter gives it. */
  function ApaWithDoi(c: Citation): string {
    ApaReference(c) + DoiSuffix(c)
  }

  /** The table variant is the store variant with the DOI link cut off; the
      two agree exactly when the DOI is not truthy. */
  lemma ApaVariants(c: Citation)
    ensures |ApaReference(c)| <= |ApaWithDoi(c)|
    ensures ApaWithDoi(c)[..|ApaReference(c)|] == ApaReference(c)
    ensures ApaWithDoi(c) == ApaReference(c) <==> !Truthy(c.doi)
  {
    assert ApaWithDoi(c)[..|ApaReference(c)|] == ApaReference(c);
  }

  /** For a source other than a journal the volume, issue and pages never
      appear: the reference is `authors (year). title. <em>source</em>`. */
  lemma ApaIgnoresDetailsOutsideJournals(c: Citation)
    requires c.sourceType != Journal
    ensures ApaReference(c) == ApaReference(c.(volume := None, issue := None, pages := None))
    ensures ApaReference(c) == c.authors + " (" + IntToString(c.year) + "). " + c.title + ". <em>" + c.source + "</em>"
  {
  }

  /** Outside journals the reference stops after the source: the three
      journal parts are empty. */
  lemma ApaOutsideJournal(c: Citation)
    requires c.sourceType != Journal
    ensures ApaReference(c) == ApaLead(c) + SourcePart(c)
  {
    var head := ApaLead(c) + SourcePart(c);
    AppendNothing(head);
    AppendNothing(head + "");
    AppendNothing(head + "" + "");
  }

  /** A journal reference with volume 5, issue 2 and pages 10-20 ends in
      `, 5(2), 10-20`, in that order. */
  lemma ApaJournalDetailsOrder(c: Citation)
    requires c.sourceType == Journal
    requires c.volume == Some("5") && c.issue == Some("2") && c.pages == Some("10-20")
    ensures ApaReference(c) == ApaLead(c) + SourcePart(c) + ", 5(2), 10-20"
    ensures Contains(ApaReference(c), ", 5(2), 10-20")
  {
    var head := ApaLead(c) + SourcePart(c);
    assert ApaReference(c) == head + ", 5(2), 10-20";
    ContainsInfix(head, ", 5(2), 10-20", "");
    assert head + ", 5(2), 10-20" + "" == ApaReference(c);
  }

  // ---------------------------------------------------------------------
  // Plain-text export
  // ---------------------------------------------------------------------

  const ExportTitleLine := "V-PROJECT EVIDENCE LIBRARY EXPORT\n"

  /** The title line, the `Generated:` line with the date the caller supplies,
      a rule of 80 `=` and a blank line. */
  function TextHeader(generated: string): string {
    ExportTitleLine + ("Generated: " + generated + "\n") + (Repeat('=', 80) + "\n\n")
  }

  /** `n. <reference with DOI link>`. */
  function NumberedLine(n: nat, c: Citation): string {
    NatToString(n) + ". " + ApaWithDoi(c) + "\n"
  }

  function DomainLine(c: Citation): string {
    "   Domain: " + c.domain + "\n"
  }

  function SynthesisLine(c: Citation): string {
    "   Synthesis: " + c.synthesis + "\n"
  }

  /** The `Link:` line, only when the URL is truthy. */
  function LinkLine(c: Citation): string {
    if Truthy(c.url) then "   Link: " + c.url.value + "\n" else ""
  }

  /** The `Effect Size:` line, only when the effect size is truthy (so never
      for 0, `null` or `undefined`); the unit is empty when it is not truthy. */
  function EffectSizeLine(c: Citation): string {
    if EffectSizeTruthy(c.effectSize) then
      "   Effect Size: " + DecimalToString(c.effectSize.value) + " " + OrEmpty(c.effectSizeType) + "\n"
    else ""
  }

  /** The entry for the `n`-th citation (counting from 1), closed by a blank line. */
  function TextEntry(n: nat, c: Citation): string {
    NumberedLine(n, c) + DomainLine(c) + SynthesisLine(c) + LinkLine(c) + EffectSizeLine(c) + "\n"
  }

  /** The entries of `list`, numbered from 1, in list order. */
  function TextEntries(list: seq<Citation>): string {
    if |list| == 0 then ""
    else TextEntries(list[..|list| - 1]) + TextEntry(|list|, list[|list| - 1])
  }

  function TextExport(generated: string, list: seq<Citation>): string {
    TextHeader(generated) + TextEntries(list)
  }

  /** Exporting one more citation of a list appends exactly its entry. */
  lemma TextExportSnoc(generated: string, list: seq<Citation>, k: nat)
    requires k < |list|
    ensures TextExport(generated, list[..k + 1]) == TextExport(generated, list[..k]) + TextEntry(k + 1, list[k])
  {
    assert list[..k + 1][..k] == list[..k];
    assert TextEntries(list[..k + 1]) == TextEntries(list[..k]) + TextEntry(k + 1, list[k]);
    AppendAfter(TextHeader(generated), TextEntries(list[..k]), TextEntry(k + 1, list[k]));
  }

  /** An empty list exports as the header block alone. */
  lemma TextExportEmpty(generated: string)
    ensures TextExport(generated, []) == TextHeader(generated)
    ensures |TextExport(generated, [])| == |ExportTitleLine| + 12 + |generated| + 82
  {
  }

  lemma {:induction false} TextEntriesPrefix(list: seq<Citation>, k: nat)
    requires k <= |list|
    ensures TextEntries(list[..k]) <= TextEntries(list)
    decreases |list|
  {
    if k < |list| {
      var init := list[..|list| - 1];
      assert list[..k] == init[..k];
      TextEntriesPrefix(init, k);
      var initText := TextEntries(init);
      assert (initText + TextEntry(|list|, list[|list| - 1]))[..|initText|] == initText;
    } else {
      assert list[..k] == list;
    }
  }

  /** Adding citations at the end of the list only adds text at the end of the
      export: what was exported for the shorter list is kept verbatim. */
  lemma TextExportExtends(generated: string, a: seq<Citation>, b: seq<Citation>)
    ensures |TextExport(generated, a)| <= |TextExport(generated, a + b)|
    ensures TextExport(generated, a + b)[..|TextExport(generated, a)|] == TextExport(generated, a)
  {
    assert (a + b)[..|a|] == a;
    TextEntriesPrefix(a + b, |a|);
    PrefixAfterCommonHead(TextHeader(generated), TextEntries(a), TextEntries(a + b));
  }

  lemma PrefixAfterCommonHead(h: string, x: string, y: string)
    requires x <= y
    ensures |h + x| <= |h + y| && (h + y)[..|h + x|] == h + x
  {
    assert (h + y)[..|h + x|] == h + y[..|x|];
  }

  predicate EndsWithNewline(s: string) {
    |s| > 0 && s[|s| - 1] == '\n'
  }

  lemma EndsWithNewlineAppend(a: string, b: string)
    requires EndsWithNewline(a)
    requires b == "" || EndsWithNewline(b)
    ensures EndsWithNewline(a + b)
  {
    if b == "" {
      assert a + b == a;
    }
  }

  lemma TextEntryEndsWithBlankLine(n: nat, c: Citation)
    ensures |TextEntry(n, c)| >= 2
    ensures TextEntry(n, c)[|TextEntry(n, c)| - 2..] == "\n\n"
  {
    var lines := NumberedLine(n, c) + DomainLine(c) + SynthesisLine(c);
    EndsWithNewlineAppend(NumberedLine(n, c) + DomainLine(c), SynthesisLine(c));
    EndsWithNewlineAppend(lines, LinkLine(c));
    EndsWithNewlineAppend(lines + LinkLine(c), EffectSizeLine(c));
    var body := lines + LinkLine(c) + EffectSizeLine(c);
    var e := TextEntry(n, c);
    assert e == body + "\n";
    assert e[|e| - 2] == body[|body| - 1];
  }

  /** The effect-size line appears exactly for a truthy effect size, which
      the `!== null` test of the effect-size query also lets through; the
      converse fails for 0 and for `undefined`. */
  lemma EffectSizeLineTest(c: Citation)
    ensures EffectSizeLine(c) != "" <==> EffectSizeTruthy(c.effectSize)
    ensures EffectSizeLine(c) != "" ==> EffectSizeNotNull(c.effectSize)
  {
  }

  lemma EffectSizeTestsDiffer()
    ensures EffectSizeNotNull(Number(Decimal(0, 0))) && !EffectSizeTruthy(Number(Decimal(0, 0)))
    ensures EffectSizeNotNull(Undefined) && !EffectSizeTruthy(Undefined)
  {
  }

  // ---------------------------------------------------------------------
  // BibTeX export
  // ---------------------------------------------------------------------

  /** One `name = {value}` line of an entry. */
  datatype BibField = BibField(name: string, value: string)

  /** `@article` for journals, `@misc` for everything else. */
  function EntryType(c: Citation): string {
    if c.sourceType == Journal then "article" else "misc"
  }

  function OptionalField(name: string, field: Option<string>): seq<BibField> {
    if Truthy(field) then [BibField(name, field.value)] else []
  }

  /** author, title and year: in every entry. */
  function CommonFields(c: Citation): seq<BibField> {
    [BibField("author", c.authors), BibField("title", c.title), BibField("year", IntToString(c.year))]
  }

  /** journal, then volume, number (the issue) and pages when truthy: only
      for journals. */
  function JournalFields(c: Citation): seq<BibField> {
    if c.sourceType == Journal then
      [BibField("journal", c.source)]
      + OptionalField("volume", c.volume)
      + OptionalField("number", c.issue)
      + OptionalField("pages", c.pages)
    else []
  }

  /** The fields of an entry, in the order they are written; doi comes last,
      when truthy. */
  function BibFields(c: Citation): seq<BibField> {
    CommonFields(c) + JournalFields(c) + OptionalField("doi", c.doi)
  }

  predicate HasField(fs: seq<BibField>, name: string) {
    exists i :: 0 <= i < |fs| && fs[i].name == name
  }

  /** Which fields an entry carries. */
  lemma BibFieldsPresence(c: Citation)
    ensures |BibFields(c)| >= 3
    ensures BibFields(c)[0] == BibField("author", c.authors)
    ensures BibFields(c)[1] == BibField("title", c.title)
    ensures BibFields(c)[2] == BibField("year", IntToString(c.year))
    ensures HasField(BibFields(c), "journal") <==> c.sourceType == Journal
    ensures HasField(BibFields(c), "volume") <==> c.sourceType == Journal && Truthy(c.volume)
    ensures HasField(BibFields(c), "number") <==> c.sourceType == Journal && Truthy(c.issue)
    ensures HasField(BibFields(c), "pages") <==> c.sourceType == Journal && Truthy(c.pages)
    ensures HasField(BibFields(c), "doi") <==> Truthy(c.doi)
  {
    var fs := BibFields(c);
    var common, journal, doi := CommonFields(c), JournalFields(c), OptionalField("doi", c.doi);
    if c.sourceType == Journal {
      assert fs[3] == BibField("journal", c.source);
    }
    if Truthy(c.doi) {
      assert fs[|fs| - 1] == BibField("doi", c.doi.value);
    }
    if Truthy(c.volume) && c.sourceType == Journal {
      assert fs[4] == BibField("volume", c.volume.value);
    }
    if Truthy(c.issue) && c.sourceType == Journal {
      assert fs[3 + |OptionalField("volume", c.volume)| + 1] == BibField("number", c.issue.value);
    }
    if Truthy(c.pages) && c.sourceType == Journal {
      assert fs[3 + |OptionalField("volume", c.volume)| + |OptionalField("number", c.issue)| + 1]
        == BibField("pages", c.pages.value);
    }
  }

  function FieldLine(f: BibField): string {
    "  " + f.name + " = {" + f.value + "},\n"
  }

  function FieldLines(fs: seq<BibField>): string {
    if |fs| == 0 then "" else FieldLine(fs[0]) + FieldLines(fs[1..])
  }

  lemma {:induction false} FieldLinesAppend(a: seq<BibField>, b: seq<BibField>)
    ensures FieldLines(a + b) == FieldLines(a) + FieldLines(b)
  {
    if |a| > 0 {
      assert (a + b)[1..] == a[1..] + b;
      FieldLinesAppend(a[1..], b);
    } else {
      assert a + b == b;
    }
  }

  /** `@type{id,` and a line break. */
  function EntryHead(c: Citation): string {
    "@" + EntryType(c) + "{" + c.id + ",\n"
  }

  /** One entry: its head, its field lines, and the closing `}` and blank line. */
  function BibEntry(c: Citation): string {
    EntryHead(c) + FieldLines(BibFields(c)) + "}\n\n"
  }

  /** An entry opens with `@article{id,` exactly for journals (`@misc{id,`
      otherwise) and closes with `}` and a blank line. */
  lemma BibEntryShape(c: Citation)
    ensures EntryHead(c) <= BibEntry(c)
    ensures EntryHead(c) == "@article{" + c.id + ",\n" <==> c.sourceType == Journal
    ensures c.sourceType != Journal ==> EntryHead(c) == "@misc{" + c.id + ",\n"
    ensures |BibEntry(c)| >= 3 && BibEntry(c)[|BibEntry(c)| - 3..] == "}\n\n"
  {
    if c.sourceType != Journal {
      assert EntryHead(c)[1] == 'm';
      assert ("@article{" + c.id + ",\n")[1] == 'a';
    }
    var fields := FieldLines(BibFields(c));
    assert BibEntry(c) == EntryHead(c) + (fields + "}\n\n");
  }

  /** The line of an optional field, or nothing when it is not truthy. */
  function OptionalLine(name: string, field: Option<string>): string {
    if Truthy(field) then FieldLine(BibField(name, field.value)) else ""
  }

  /** The journal, volume, number and pages lines of a journal entry. */
  function JournalLines(c: Citation): string {
    if c.sourceType == Journal then
      FieldLine(BibField("journal", c.source)) + OptionalLine("volume", c.volume)
      + OptionalLine("number", c.issue) + OptionalLine("pages", c.pages)
    else ""
  }

  lemma FieldLinesOptional(fs: seq<BibField>, name: string, field: Option<string>)
    ensures FieldLines(fs + OptionalField(name, field)) == FieldLines(fs) + OptionalLine(name, field)
  {
    FieldLinesAppend(fs, OptionalField(name, field));
    if Truthy(field) {
      assert FieldLines([BibField(name, field.value)]) == FieldLine(BibField(name, field.value)) + FieldLines([]);
    } else {
      assert fs + OptionalField(name, field) == fs;
    }
  }

  lemma JournalFieldLines(c: Citation)
    ensures FieldLines(JournalFields(c)) == JournalLines(c)
  {
    if c.sourceType == Journal {
      var j0 := [BibField("journal", c.source)];
      var j1 := j0 + OptionalField("volume", c.volume);
      var j2 := j1 + OptionalField("number", c.issue);
      assert FieldLines(j0) == FieldLine(j0[0]) + FieldLines([]);
      FieldLinesOptional(j0, "volume", c.volume);
      FieldLinesOptional(j1, "number", c.issue);
      FieldLinesOptional(j2, "pages", c.pages);
    }
  }

  lemma CommonFieldLines(c: Citation)
    ensures FieldLines(CommonFields(c)) ==
      FieldLine(BibField("author", c.authors)) + FieldLine(BibField("title", c.title))
      + FieldLine(BibField("year", IntToString(c.year)))
  {
    var common := CommonFields(c);
    assert common[1..] == [common[1], common[2]] && common[1..][1..] == [common[2]];
    assert FieldLines(common[1..][1..]) == FieldLine(common[2]) + FieldLines([]);
  }

  /** The field lines of an entry, line by line in the order they are written. */
  lemma FieldLinesOfEntry(c: Citation)
    ensures FieldLines(BibFields(c)) ==
      FieldLine(BibField("author", c.authors)) + FieldLine(BibField("title", c.title))
      + FieldLine(BibField("year", IntToString(c.year))) + JournalLines(c) + OptionalLine("doi", c.doi)
  {
    CommonFieldLines(c);
    JournalFieldLines(c);
    FieldLinesAppend(CommonFields(c), JournalFields(c));
    FieldLinesOptional(CommonFields(c) + JournalFields(c), "doi", c.doi);
  }

  /** The entries of `list`, one per citation, in list order. */
  function BibTeX(list: seq<Citation>): string {
    if |list| == 0 then "" else BibTeX(list[..|list| - 1]) + BibEntry(list[|list| - 1])
  }

  /** Exporting one more citation of a list appends exactly its entry. */
  lemma BibTeXSnoc(list: seq<Citation>, k: nat)
    requires k < |list|
    ensures BibTeX(list[..k + 1]) == BibTeX(list[..k]) + BibEntry(list[k])
  {
    assert list[..k + 1][..k] == list[..k];
  }

  lemma {:induction false} BibTeXCons(list: seq<Citation>)
    requires |list| > 0
    ensures BibTeX(list) == BibEntry(list[0]) + BibTeX(list[1..])
  {
    if |list| > 1 {
      var n := |list| - 1;
      assert list[..n][0] == list[0];
      assert list[..n][1..] == list[1..][..n - 1];
      BibTeXCons(list[..n]);
    } else {
      assert list[1..] == [] && list[..0] == [];
    }
  }

  // ---------------------------------------------------------------------
  // Reading the BibTeX text back
  // ---------------------------------------------------------------------

  /** What a reader recovers from one entry. */
  datatype BibRecord = BibRecord(entryType: string, key: string, fields: seq<BibField>)

  function RecordOf(c: Citation): BibRecord {
    BibRecord(EntryType(c), c.id, BibFields(c))
  }

  /** The text before the first `ch` and the text after it; `None` when `ch`
      does not occur. */
  function SplitAt(s: string, ch: char): (r: Option<(string, string)>)
    ensures r.Some? ==> |r.value.1| < |s|
  {
    if |s| == 0 then None
    else if s[0] == ch then Some(("", s[1..]))
    else match SplitAt(s[1..], ch)
      case None => None
      case Some((before, after)) => Some(([s[0]] + before, after))
  }

  lemma {:induction false} SplitAtFirst(x: string, ch: char, y: string)
    requires ch !in x
    ensures SplitAt(x + [ch] + y, ch) == Some((x, y))
  {
    var s := x + [ch] + y;
    if |x| == 0 {
      assert s[1..] == y;
    } else {
      assert s[1..] == x[1..] + [ch] + y;
      SplitAtFirst(x[1..], ch, y);
      assert [x[0]] + x[1..] == x;
    }
  }

  /** Field lines up to the `}` and blank line that close the entry. */
  function ParseFields(s: string): (r: Option<(seq<BibField>, string)>)
    ensures r.Some? ==> |r.value.1| < |s|
    decreases |s|
  {
    if "}\n\n" <= s then Some(([], s[3..]))
    else if !("  " <= s) then None
    else match SplitAt(s[2..], ' ')
      case None => None
      case Some((name, afterName)) =>
        if !("= {" <= afterName) then None
        else match SplitAt(afterName[3..], '}')
          case None => None
          case Some((value, afterValue)) =>
            if !(",\n" <= afterValue) then None
            else match ParseFields(afterValue[2..])
              case None => None
              case Some((fields, rest)) => Some(([BibField(name, value)] + fields, rest))
  }

  /** One entry and the text after it. */
  function ParseEntry(s: string): (r: Option<(BibRecord, string)>)
    ensures r.Some? ==> |r.value.1| < |s|
  {
    if !("@" <= s) then None
    else match SplitAt(s[1..], '{')
      case None => None
      case Some((entryType, afterType)) =>
        match SplitAt(afterType, ',')
          case None => None
          case Some((key, afterKey)) =>
            if !("\n" <= afterKey) then None
            else match ParseFields(afterKey[1..])
              case None => None
              case Some((fields, rest)) => Some((BibRecord(entryType, key, fields), rest))
  }

  /** All entries of a BibTeX text. */
  function ParseBibTeX(s: string): Option<seq<BibRecord>>
    decreases |s|
  {
    if |s| == 0 then Some([])
    else match ParseEntry(s)
      case None => None
      case Some((record, rest)) =>
        match ParseBibTeX(rest)
          case None => None
          case Some(records) => Some([record] + records)
  }

  /** No value contains a closing brace and no name a space. */
  predicate PlainFields(fs: seq<BibField>) {
    forall i :: 0 <= i < |fs| ==> ' ' !in fs[i].name && '}' !in fs[i].value
  }

  /** What the export needs of a citation to be read back: the key has no
      comma and no printed value has a closing brace (the export does no
      escaping). */
  predicate BibReadable(c: Citation) {
    ',' !in c.id && PlainFields(BibFields(c))
  }

  /** Reading one field line back gives the field, then whatever the rest
      of the text reads as. */
  lemma ParseOneField(f: BibField, tail: string, fs: seq<BibField>, rest: string)
    requires ' ' !in f.name && '}' !in f.value
    requires ParseFields(tail) == Some((fs, rest))
    ensures ParseFields(FieldLine(f) + tail) == Some(([f] + fs, rest))
  {
    var afterValue := ",\n" + tail;
    var afterName := "= {" + (f.value + ['}'] + afterValue);
    var s := FieldLine(f) + tail;
    FieldLineNested(f, tail);
    assert s[..3] != "}\n\n" by {
      assert s[0] == ' ';
    }
    assert s[..2] == "  " && s[2..] == f.name + [' '] + afterName;
    SplitAtFirst(f.name, ' ', afterName);
    assert afterName[..3] == "= {" && afterName[3..] == f.value + ['}'] + afterValue;
    SplitAtFirst(f.value, '}', afterValue);
    assert afterValue[..2] == ",\n" && afterValue[2..] == tail;
  }

  /** A field line followed by more text, regrouped the way the reader takes
      it apart. */
  lemma FieldLineNested(f: BibField, tail: string)
    ensures FieldLine(f) + tail == "  " + (f.name + [' '] + ("= {" + (f.value + ['}'] + (",\n" + tail))))
  {
    var rhs := "  " + (f.name + [' '] + ("= {" + (f.value + ['}'] + (",\n" + tail))));
    var n, v := |f.name|, |f.value|;
    assert |FieldLine(f) + tail| == |rhs|;
    forall i | 0 <= i < |rhs|
      ensures (FieldLine(f) + tail)[i] == rhs[i]
    {
      if i < 2 {
      } else if i < 2 + n {
      } else if i < 6 + n {
      } else if i < 6 + n + v {
      } else if i < 9 + n + v {
      } else {
      }
    }
  }

  lemma {:induction false} ParseFieldsRoundTrip(fs: seq<BibField>, rest: string)
    requires PlainFields(fs)
    ensures ParseFields(FieldLines(fs) + "}\n\n" + rest) == Some((fs, rest))
  {
    var s := FieldLines(fs) + "}\n\n" + rest;
    if |fs| == 0 {
      assert s == "}\n\n" + rest;
      assert s[..3] == "}\n\n" && s[3..] == rest;
    } else {
      var f := fs[0];
      var lines := FieldLines(fs[1..]);
      var tail := lines + "}\n\n" + rest;
      assert s == FieldLine(f) + tail by {
        AppendAfter(FieldLine(f), lines, "}\n\n");
        AppendAfter(FieldLine(f), lines + "}\n\n", rest);
      }
      assert PlainFields(fs[1..]) by {
        assert forall i :: 0 <= i < |fs| - 1 ==> fs[1..][i] == fs[i + 1];
      }
      ParseFieldsRoundTrip(fs[1..], rest);
      ParseOneField(f, tail, fs[1..], rest);
      assert [f] + fs[1..] == fs;
    }
  }

  /** Reading an entry back gives the entry type, the citation id as key and
      every field with its exact value. */
  lemma ParseEntryRoundTrip(c: Citation, rest: string)
    requires BibReadable(c)
    ensures ParseEntry(BibEntry(c) + rest) == Some((RecordOf(c), rest))
  {
    var lines := FieldLines(BibFields(c));
    var fields := lines + "}\n\n" + rest;
    assert BibEntry(c) + rest == EntryHead(c) + fields by {
      AppendAfter(EntryHead(c), lines, "}\n\n");
      AppendAfter(EntryHead(c), lines + "}\n\n", rest);
    }
    ParseFieldsRoundTrip(BibFields(c), rest);
    ParseEntryHead(c, fields, BibFields(c), rest);
  }

  /** Reading the head line back gives the entry type and the key, then the
      fields that follow. */
  lemma ParseEntryHead(c: Citation, fields: string, fs: seq<BibField>, rest: string)
    requires ',' !in c.id
    requires ParseFields(fields) == Some((fs, rest))
    ensures ParseEntry(EntryHead(c) + fields) == Some((BibRecord(EntryType(c), c.id, fs), rest))
  {
    var s := EntryHead(c) + fields;
    assert s == "@" + (EntryType(c) + ['{'] + (c.id + [','] + ("\n" + fields)));
    assert "@" <= s by {
      assert s[0] == '@';
    }
    assert s[1..] == EntryType(c) + ['{'] + (c.id + [','] + ("\n" + fields));
    assert '{' !in EntryType(c);
    SplitAtFirst(EntryType(c), '{', c.id + [','] + ("\n" + fields));
    SplitAtFirst(c.id, ',', "\n" + fields);
    assert "\n" <= "\n" + fields && ("\n" + fields)[1..] == fields;
  }

  /** The records read back from an export of `list`, one per citation. */
  function RecordsOf(list: seq<Citation>): (r: seq<BibRecord>)
    ensures |r| == |list|
    ensures forall i :: 0 <= i < |list| ==> r[i] == RecordOf(list[i])
  {
    if |list| == 0 then [] else [RecordOf(list[0])] + RecordsOf(list[1..])
  }

  /** Round trip of the BibTeX export: reading the text back gives one record
      per citation, in list order, each with the citation's entry type, id and
      field values (author, title and year among them) unchanged. */
  lemma {:induction false} BibTeXRoundTrip(list: seq<Citation>)
    requires forall i :: 0 <= i < |list| ==> BibReadable(list[i])
    ensures ParseBibTeX(BibTeX(list)) == Some(RecordsOf(list))
  {
    if |list| > 0 {
      var s := BibTeX(list);
      var rest := BibTeX(list[1..]);
      BibTeXCons(list);
      ParseEntryRoundTrip(list[0], rest);
      BibTeXRoundTrip(list[1..]);
      assert ParseEntry(s) == Some((RecordOf(list[0]), rest));
      assert ParseBibTeX(rest) == Some(RecordsOf(list[1..]));
      assert s != [];
    }
  }
}
