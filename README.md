# V-Project evidence library: citation store and exporters in Dafny

This project models the data side of the V-Project evidence library's front end,
`assets/js/data-loader.js`. It has three parts:

- **The citation store (`CitationManager`).** It holds the loaded citations, the
  metadata, the domain descriptions and the risk factors. Its read-only queries
  cover domain, inclusive year range, keyword, free-text search, effect size, id
  and study type. It also lists the unique years and domains and builds a count
  table of statistics.
- **The serialisers.** These are the APA reference (with a DOI link in the
  store, without one in the UI helpers), the plain-text export and the BibTeX
  export.
- **Two UI lookups.** One gives the label of a source link, the other the colour
  classes of a domain badge.

Modules:

| module | file | contents |
|---|---|---|
| `Wrappers` | `wrappers.dfy` | `Option`, `Result` |
| `Text` | `text.dfy` | ASCII case mapping, substring search, joining, the decimal text of integers, and the code-unit order that JavaScript's default `sort()` uses |
| `Seqs` | `seqs.dfy` | `filter`, `find`, `map`, `[...new Set(xs)]` and the count tables, with their laws |
| `Citations` | `citations.dfy` | the citation record, its effect size (`undefined`, `null` or a number), JavaScript truthiness, and number-to-text for effect sizes |
| `Formats` | `formats.dfy` | the reference functions of the APA, plain-text and BibTeX outputs, plus a BibTeX reader used to state the round trip |
| `Store` | `store.dfy` | the `CitationManager` class: state, queries, statistics and export methods, and the lemmas about them |
| `UIHelpers` | `uihelpers.dfy` | the UI variant of the APA reference, `getSourceLabel`, `getDomainColorClasses` |

The class keeps the five fields of the JavaScript object and updates them in place:

- The constructor sets them.
- `Load` overwrites them with a parsed document.

The queries are functions that read the object. The three string builders are methods that append to an accumulator, as the source does:

- `FormatAPACitation`, in both variants.
- `ExportToText`.
- `ExportToBibTeX`.

Each method is proved equal to a reference function in `Formats`. The properties of the output are then proved about that function.

Two behaviours of the source are kept as written:

- **Years are sorted as text.** `getUniqueYears` calls the default `sort()`, which compares decimal strings. `SortByText` models that order.
  - `TextOrderedFourDigitAscends` and `UniqueYearsAscend` prove the order is numeric when every year has four digits.
  - `TextOrderIsNotNumeric` shows that without that premise, 2001 sorts before 999.
- **`"all"` is a sentinel domain.** `getCitationsByDomain("all")` returns the whole collection, and `getStatistics` counts each domain through that query. So a citation whose domain is literally `"all"` makes the `byDomain` counts add up to more than the number of citations (`ByDomainOvercountsWithAllDomain`). `DomainTotals` therefore assumes that no domain is `"all"`.

The source checks effect sizes in two different ways:

- `getCitationsWithEffectSizes` keeps every effect size that is not `null`, including `undefined`.
- The text export prints only truthy effect sizes, so never `0`.

Both tests appear as they are written (`EffectSizeNotNull`, `EffectSizeTruthy`), and `EffectSizeTestsDiffer` separates them.

## Model

| member | source | states |
|---|---|---|
| Store.CitationManager.constructor | assets/js/data-loader.js:7-13 | a new store has no citations and no risk factors, null metadata and descriptions, and is not loaded |
| Store.CitationManager.Load | assets/js/data-loader.js:25-37 | a parsed document replaces all five fields and marks the store loaded; a failed load passes its error on and changes nothing |
| Store.CitationManager.GetAllCitations | assets/js/data-loader.js:44-46 | the whole collection |
| Store.CitationManager.GetCitationsByDomain | assets/js/data-loader.js:52-55 | `"all"` gives the whole collection; any other domain gives, in collection order, every citation of that domain with its multiplicity and nothing else |
| Store.CitationManager.GetCitationsByYearRange | assets/js/data-loader.js:62-64 | in order, exactly the citations whose year lies between both bounds, inclusive |
| Store.YearRangeOfOneYear | assets/js/data-loader.js:62-64 | the range `(y, y)` equals the filter on `year == y` |
| Store.CitationManager.GetCitationsByKeyword | assets/js/data-loader.js:70-75 | in order, exactly the citations with a keyword whose lower-case form contains the lower-cased query |
| Store.CitationManager.SearchCitations | assets/js/data-loader.js:81-92 | in order, exactly the citations whose lower-cased search text (title, authors, synthesis and space-joined keywords, laid out as the template does) contains the lower-cased query |
| Store.SearchCaseInsensitive | assets/js/data-loader.js:81-92 | two queries with the same lower-case form, such as a query and its upper-case form, find the same citations |
| Store.KeywordCaseInsensitive | assets/js/data-loader.js:70-75 | a keyword and its upper-case form find the same citations |
| Store.KeywordMatchIsSearchMatch | assets/js/data-loader.js:72-73 | a citation matched through a keyword also contains the query in its search text |
| Store.KeywordResultsWithinSearch | assets/js/data-loader.js:70-92 | the keyword results are a subsequence of the search results for the same text |
| Store.CitationManager.GetCitationsWithEffectSizes | assets/js/data-loader.js:97-99 | in order, exactly the citations whose effect size is not `null`; `undefined` passes |
| Store.CitationManager.GetCitationById | assets/js/data-loader.js:105-107 | the first citation with that id, or nothing exactly when no citation has it |
| Store.CitationByIdWhenIdsDistinct | assets/js/data-loader.js:105-107 | with distinct ids, looking up a citation's id gives back that citation |
| Store.CitationManager.GetCitationsByStudyType | assets/js/data-loader.js:113-115 | in order, exactly the citations of that study type |
| Store.CitationManager.GetUniqueYears | assets/js/data-loader.js:120-122 | each year that occurs, exactly once, in ascending order of its decimal text |
| Store.UniqueYearsAscend | assets/js/data-loader.js:120-122 | when every year has four digits, the unique years ascend numerically |
| Store.TextOrderIsNotNumeric | assets/js/data-loader.js:121 | the default sort puts 2001 before 999 |
| Store.TextOrderedFourDigitAscends | assets/js/data-loader.js:121 | a list of four-digit years in text order is in numeric order |
| Text.FourDigitOrder | assets/js/data-loader.js:121 | for four-digit numbers, text order and numeric order agree |
| Store.SortByText | assets/js/data-loader.js:121 | sorting distinct years gives the same years, in text order, without duplicates |
| Store.CitationManager.GetUniqueDomains | assets/js/data-loader.js:127-129 | each domain that occurs, exactly once, in order of first occurrence |
| Seqs.Unique | assets/js/data-loader.js:121 | `[...new Set(xs)]` has no duplicates and the same members as `xs` |
| Seqs.UniqueFirstSeen | assets/js/data-loader.js:128 | the values of `[...new Set(xs)]` appear in order of their first occurrence in `xs` |
| Store.CitationManager.GetDomainDescription | assets/js/data-loader.js:135-137 | a `TypeError` while the descriptions are null; otherwise the description when the domain has one, and `undefined` when it has none |
| Store.CitationManager.GetRiskFactors | assets/js/data-loader.js:142-144 | the stored risk factors |
| Store.CitationManager.DomainTallies | assets/js/data-loader.js:247-250 | one row per domain, in the given order, counting what `getCitationsByDomain` returns for it |
| Store.CitationManager.GetStatistics | assets/js/data-loader.js:244-259 | the total is the collection length; `withEffectSizes` is the length of the effect-size query; the domain and year rows follow `getUniqueDomains` and `getUniqueYears`; the study-type rows are one per distinct study type, in first-seen order |
| Seqs.Tabulate | assets/js/data-loader.js:251-258 | one row per listed value, in order, counting the records with that value |
| Store.StatisticsRowsMatchQueries | assets/js/data-loader.js:244-259 | each domain, year and study-type row counts what the matching query returns (for a year, the range `(y, y)`) |
| Store.YearTotals | assets/js/data-loader.js:251-254 | the `byYear` counts add up to the number of citations |
| Store.StudyTypeTotals | assets/js/data-loader.js:256-259 | the `byStudyType` counts add up to the number of citations |
| Store.DomainTotals | assets/js/data-loader.js:247-250 | when no citation's domain is `"all"`, the `byDomain` counts add up to the number of citations |
| Store.DomainPartitionMembership | assets/js/data-loader.js:52-55 | a citation is in the result for domain `d` exactly when it is in the collection with domain `d` |
| Store.ByDomainOvercountsWithAllDomain | assets/js/data-loader.js:247-250 | with one citation in domain `"all"` and one in another domain, the `byDomain` counts add up to more than the number of citations |
| Seqs.TabulatePartition | assets/js/data-loader.js:251-258 | a count table over distinct values that covers every record adds up to the number of records |
| Seqs.TabulateCountsKeyed | assets/js/data-loader.js:251-258 | a table's counts add up to the number of records whose value is listed |
| Store.EffectSizeScenario | assets/js/data-loader.js:97-99 | of a citation with effect size 0.5 and one with a null effect size, only the first has an effect size |
| Store.UniqueYearsScenario | assets/js/data-loader.js:120-122 | citations of 2001 and 2010 give the unique years `[2001, 2010]` |
| Store.CitationManager.FormatAPACitation | assets/js/data-loader.js:175-192 | the reference is the APA reference followed by `. https://doi.org/<doi>` when the DOI is truthy |
| Formats.ApaVariants | assets/js/data-loader.js:187-189 | the reference without the DOI is a prefix of the one with it, and the two are equal exactly when the DOI is not truthy |
| Formats.ApaIgnoresDetailsOutsideJournals | assets/js/data-loader.js:178-185 | outside journals the reference is `authors (year). title. <em>source</em>`, whatever the volume, issue and pages |
| Formats.ApaJournalDetailsOrder | assets/js/data-loader.js:178-182 | a journal with volume 5, issue 2 and pages 10-20 gives `, 5(2), 10-20` right after the source |
| UIHelpers.FormatAPACitation | assets/js/data-loader.js:305-318 | the UI reference is the APA reference, never with the DOI |
| Store.CitationManager.ExportToText | assets/js/data-loader.js:150-169 | the export is the header followed by one entry per citation, numbered from 1 and in list order |
| Formats.TextExportSnoc | assets/js/data-loader.js:155-166 | exporting one more citation appends exactly its entry |
| Formats.TextExportEmpty | assets/js/data-loader.js:151-153 | an empty list gives only the title line, the Generated line and the 80-character rule with its blank line |
| Formats.TextExportExtends | assets/js/data-loader.js:155-166 | the export of a list begins with the export of each of its prefixes |
| Formats.TextEntryEndsWithBlankLine | assets/js/data-loader.js:165 | every entry ends with a blank line |
| Formats.EffectSizeLineTest | assets/js/data-loader.js:162-164 | the effect-size line appears exactly when the effect size is truthy, and then it is also not null |
| Formats.EffectSizeTestsDiffer | assets/js/data-loader.js:98 | an effect size of 0, or an undefined one, passes the not-null test but not the truthiness test |
| Citations.TruthyEffectSizeIsNotNull | assets/js/data-loader.js:98 | a truthy effect size is never null |
| Citations.DecimalExamples | assets/js/data-loader.js:163 | effect sizes print as JavaScript prints numbers: `0.5`, `0.5` (from 0.50), `-1.25`, `2` |
| Store.CitationManager.ExportToBibTeX | assets/js/data-loader.js:198-223 | the export is one entry per citation, in list order |
| Store.CitationManager.AppendBibEntry | assets/js/data-loader.js:202-219 | one pass of the loop appends the citation's entry |
| Store.CitationManager.AppendJournalFields | assets/js/data-loader.js:208-213 | the journal block appends the journal line, then volume, number and pages lines for the truthy ones, and nothing outside journals |
| Formats.BibEntryShape | assets/js/data-loader.js:202-203 | an entry opens with `@article{id,` exactly for journals (otherwise `@misc{id,`) and ends with `}` and a blank line |
| Formats.BibFieldsPresence | assets/js/data-loader.js:204-217 | author, title and year come first in every entry; journal appears exactly for journals; volume, number and pages exactly for journals with a truthy value; doi exactly when truthy |
| Formats.FieldLinesOfEntry | assets/js/data-loader.js:204-217 | an entry's field lines are author, title, year, the journal block and the doi line, in that order |
| Formats.BibTeXSnoc | assets/js/data-loader.js:201-220 | exporting one more citation appends exactly its entry |
| Formats.ParseEntryRoundTrip | assets/js/data-loader.js:202-219 | reading back an entry whose values hold no closing brace and whose key holds no comma gives its type, key and fields |
| Formats.BibTeXRoundTrip | assets/js/data-loader.js:198-223 | reading back the export of such citations gives, for each citation in order, its type, key and fields (including author, title and year) |
| UIHelpers.GetSourceLabel | assets/js/data-loader.js:323-328 | for a journal, a prefix of the source that contains no space and ends at the first space or at the end; for other sources, the whole source |
| UIHelpers.FirstTokenUnique | assets/js/data-loader.js:325 | that prefix is the only one with those properties, so it is the first piece of `split(' ')` |
| UIHelpers.GetDomainColorClasses | assets/js/data-loader.js:333-343 | the palette entry of a known domain; the grey default exactly for every other domain |

## Left out

- Fetching, HTTP status checks, JSON parsing and console logging in `loadData` are not modelled. `Load` receives the parsed document or the error.
- Store.CitationManager.Load: a document without a `citations` key is not modelled. In the source, `loadData` first assigns all four fields from the document and sets `loaded` (assets/js/data-loader.js:27-31). It then reads `this.citations.length` for the log line (line 33), which throws, and the handler rethrows (lines 35-37). So that failed load leaves the store changed and marked loaded. The model's `Load` changes the store only on success.
- `downloadFile`, `renderCitationsTable`, `updateResultCount`, `renderCharts` and the `module.exports` shim are left out. They are DOM, Blob and Chart.js work.
- Store.CitationManager.GetStatistics: leaves out `avgEvidenceQuality`. It is a floating-point division rounded with `toFixed(2)`, and it is `NaN` when no citation has a quality score. The `evidenceQuality` field is left out with it.
- Store.CitationManager.ExportToText: the `Generated:` date comes from the clock and the locale (`toLocaleDateString`), so it is a parameter.
- Store.CitationManager.ExportToText and Store.CitationManager.ExportToBibTeX: the default argument (`this.citations`) is not modelled. The list is always passed.
- Text.Lower: the model's lower-casing maps only the ASCII letters A-Z. JavaScript's full Unicode case mapping in `toLowerCase` and `toUpperCase` is not modelled.
- Store.SearchCaseInsensitive and Store.KeywordCaseInsensitive: these lemmas depend on the model's ASCII-only case mapping. They do not hold in JavaScript for characters whose case mapping changes length or is not one-to-one. For example, `"straße".toUpperCase()` is `"STRASSE"`, which lower-cases to `"strasse"`.
- Citations.DecimalToString: an effect size is a finite decimal. JavaScript's exponent notation for very large or very small numbers, `NaN` and `Infinity` are not modelled, and neither is an effect size stored as a string. A JavaScript number is a double, so a value with more than 17 significant digits prints rounded: `0.12345678901234567891` prints as `0.12345678901234568`. `DecimalToString` prints every digit of the decimal it is given.
- Years are integers. A fractional or non-numeric year is not modelled.
- Store.CitationManager.GetDomainDescription and UIHelpers.GetDomainColorClasses: keys inherited from `Object.prototype`, such as `"constructor"`, are not modelled. In JavaScript they return a function instead of `undefined` or the default.
- Store.CitationManager.GetAllCitations, Store.CitationManager.GetRiskFactors and Store.CitationManager.GetCitationsByDomain: these return values. The source returns its own array (for `getCitationsByDomain`, only with the domain `"all"`), and a caller that mutates that array changes the store; this aliasing is not modelled.
- Formats.BibTeXRoundTrip: the round trip requires values without a closing brace and keys without a comma. The export does not escape them.
