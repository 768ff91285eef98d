# XML content-loss repair, modelled in Dafny

Four Python scripts repair XML chapters produced by a lossy XHTML-to-XML
conversion of a book.

- `fix_content_loss.py` collects full citations and keywords from each XHTML
  chapter. It restores truncated `<bibliomixed>` entries, rewrites the
  garbled keyword paragraph as a `<keywordset>`, and lists index terms whose
  text is not visible next to them.
- `fix_remaining_bibliography.py` restores the remaining truncated entries.
  It keys citations by their number and picks the XHTML chapter from the
  `<chaptertitle>` number.
- `fix_keywords.py` and `fix_all_keywords.py` find chapters whose keywords
  were flattened into one `<para>` after the author's e-mail address. They
  replace that paragraph with the keywords of the matching XHTML chapter.

The model works on in-memory strings (`string` is `seq<char>`):

- A document is a `File(name, content)`.
- A directory is a sequence of files in the order the scripts visit them.
- Every regular expression of the modelled functions is written out as a
  matcher over positions (modules `Patterns` and `Text`). `re.search` is the leftmost match;
  `re.finditer`, `re.findall` and `re.sub` are the left-to-right,
  non-overlapping scan.
- `str.replace(old, new, 1)` and `str.replace(old, new)` are `ReplaceFirst`
  and `ReplaceAll` (module `Text`).
- `html.escape` and a subset of `html.unescape` are in module `HtmlEscape`.

Modules:

- `Text`: whitespace as Python's `str.isspace` sees it, `strip`, the
  `\s+ → ' '` collapse, substring search and replacement, the 100-character
  preview.
- `HtmlEscape`: escaping and unescaping, their round trip, and their effect
  on spacing.
- `Numerals`: `int()` of a digit string and `str()`/zero-padded formatting.
- `Patterns`: the pattern matchers, the `<para>` searches with their content
  predicates, and the chapter-number parses of file names and titles.
- `PatternShapes`: what each cleaning pattern matches, stated as the shape
  of the matched text, and `re.sub` as the text's gaps and the replaced
  `finditer` matches joined in order.
- `Fragments`: the citation cleaning pipeline, keyword tokens, the
  `<keywordset>` text and a reader for it, bibliography entries, dictionary
  filling by assignment, and the XHTML file lookup by chapter number.
- `CitationParsing`: the event-driven `CitationParser` class.
- `ContentLoss`, `RemainingBibliography`, `Keywords`, `AllKeywords`: the
  repair steps of the four scripts.

Where the scripts' behaviour differs from their prose description, the model
follows the code:

- `re.IGNORECASE` makes `[A-Z]` accept lower-case letters too. Case is
  therefore ignored, so a capitalised word in the keyword patterns is a letter
  followed by one or more letters or `-`; the `full` rule's phrase may also
  hold spaces. A letter here is an ASCII letter or one of `İ`, `ı`, `ſ` and
  the Kelvin sign (U+212A), which case-fold onto ASCII letters (`Text.IsLetterCI`).
- The detection pattern of `fix_keywords.py` needs at least two words after
  the address, not one.
- An entry with no matching citation is left as it is, and no report is
  produced for it.
- Each script maps chapter numbers its own way, and each mapping is modelled
  as written:
  - title number + 2 in `get_xml_chapter_id_for_xhtml`;
  - the `<chaptertitle>` number used directly in
    `fix_remaining_bibliography.py`;
  - XML chapter − 2 in both keyword scripts.

## Model

| member | source | states |
|---|---|---|
| Text.Strip | fix_keywords.py:23 | `str.strip()`: the result has no edge whitespace, is empty exactly when the input is all whitespace, and is the input minus its leading and trailing whitespace runs |
| Text.CollapseSpec | fix_content_loss.py:133 | `re.sub(r'\s+', ' ', s)` keeps every visible character in order and leaves only single plain spaces |
| Text.NormalizeSpec | fix_content_loss.py:79 | collapse-then-strip gives text with no doubled, non-plain or edge whitespace and the same visible characters |
| Text.NormalizeIdempotent | fix_remaining_bibliography.py:35 | cleaning the whitespace twice is the same as once |
| Text.NormalizeFixed | fix_remaining_bibliography.py:35 | already normalized text is left unchanged by the whitespace step |
| Text.StripKeepsVisible | fix_keywords.py:23 | `strip` removes whitespace only |
| Text.ReplaceFirstAbsent | fix_content_loss.py:260 | `replace(old, new, 1)` with `old` absent returns the text unchanged |
| Text.ReplaceFirstAt | fix_content_loss.py:260 | with the first occurrence of `old` at `i`, `replace(old, new, 1)` is the text before `i`, then `new`, then everything after that occurrence |
| Text.ReplaceAllAbsent | fix_content_loss.py:291 | `replace(old, new)` with `old` absent returns the text unchanged |
| Text.ReplaceAllAt | fix_content_loss.py:291 | `replace(old, new)` keeps the text before the first occurrence, replaces it, and goes on replacing in the rest |
| Text.ReplaceAllEveryCopy | fix_content_loss.py:291 | `n` back-to-back copies of `old` all become `new` |
| Text.ReplaceAllSingleCopy | fix_content_loss.py:291 | when `old` occurs once, `replace(old, new)` equals `replace(old, new, 1)` |
| Text.Preview | fix_content_loss.py:264 | `s[:100] + '...'` when `s` is longer than 100 characters, else `s` itself |
| HtmlEscape.Escape | fix_content_loss.py:259 | `html.escape` output holds no `<`, `>`, `"` or `'` and is no shorter than its input |
| HtmlEscape.EscapeHasNoTag | fix_content_loss.py:259 | escaped text contains no `<`, so it cannot open a tag |
| HtmlEscape.UnescapeEntity | fix_content_loss.py:134 | each entity `html.escape` writes decodes back to its own character |
| HtmlEscape.UnescapeEscape | fix_content_loss.py:134 | unescaping an escaped text gives the text back |
| HtmlEscape.EscapePlain | fix_content_loss.py:286 | text without `&`, `<`, `>`, `"` or `'` is left unchanged by escaping |
| HtmlEscape.EscapeNormalized | fix_remaining_bibliography.py:79 | escaping normalized text keeps it normalized |
| HtmlEscape.UnescapeNormalized | fix_content_loss.py:133-134 | decoding the modelled entities keeps normalized text normalized |
| Numerals.NatToDigits | fix_content_loss.py:249 | `str(n)`: decimal digits with no leading zero |
| Numerals.IntToString | fix_keywords.py:64 | `str(n)` of a possibly negative chapter number: a `-` before the digits of `-n` |
| Numerals.ParseNatToDigits | fix_content_loss.py:246 | `int(str(n)) == n` |
| Numerals.ParseNatLeadingZeros | fix_remaining_bibliography.py:41 | leading zeros do not change the value `int()` reads |
| Numerals.PaddedNumeralValue | fix_content_loss.py:249 | `f"{n:02d}"` and `f"{n:03d}"` are digit strings whose value is `n` |
| Patterns.Upto | fix_content_loss.py:233 | `[^c]*`: the first position at or after `i` that holds `c`, or the end |
| Patterns.RunEnd | fix_keywords.py:43 | a greedy character-class run: every character up to the end is in the class, and the next one is not |
| Patterns.LazyUpto | fix_content_loss.py:122 | `.*?</div>`: the first occurrence of the closing literal at or after `i` |
| Patterns.MatchAt | fix_content_loss.py:122 | every pattern of the scripts, matched at one position, gives an end within the text and its number of groups |
| Patterns.Sub | fix_content_loss.py:127-132 | the cleaning substitutions never lengthen the text |
| Patterns.SubNoMatch | fix_content_loss.py:127-132 | `re.sub` returns the text unchanged when the pattern matches nowhere |
| Patterns.SoleParaSearch | fix_keywords.py:43 | a document that is one `<para>` element with no `<` in its text is found by a para search exactly when the content predicate accepts that text |
| Patterns.SoleParaAt | fix_keywords.py:43 | in such a document the para pattern matches at the start, spanning the text, and nowhere else |
| PatternShapes.ElementAtIff | fix_content_loss.py:129-131 | `<open[^>]*>([^<]*)close` matches from `i` to `e` with group `g` exactly when that text is `open`, attributes without `>`, `>`, `g` without `<`, and `close`; with `[^<]+`, `g` is not empty |
| PatternShapes.WrapperMatchIff | fix_content_loss.py:129-131 | the anchor, emphasis and span patterns, and the keyword and chapter-title patterns, match exactly the elements of that shape, with the element's text as group |
| PatternShapes.DecorationMatchIff | fix_content_loss.py:127-128 | the RefSource and Occurrence patterns match exactly a span of that class (for Occurrence, a class tail without `"`) holding text without `<` |
| PatternShapes.AnyTagMatchIff | fix_content_loss.py:132 | the stray-tag pattern matches exactly `<`, an optional `/`, a lower-case letter, a tail without `>`, and `>` |
| PatternShapes.ScanChained | fix_content_loss.py:123 | the matches of the left-to-right scan start at or after its start, are non-empty, and come in order without overlap |
| PatternShapes.SubSpliced | fix_content_loss.py:127-132 | `re.sub` from `i` is the text with each match of the scan from `i` replaced, and the gaps between them kept, joined in order |
| PatternShapes.SubIsSplicedMatches | fix_content_loss.py:127-132 | each cleaning substitution replaces exactly the `finditer` matches and keeps the text between them |
| Patterns.FindAllSpec | fix_content_loss.py:234 | `re.finditer` gives matches in order, each a match at its start, non-overlapping, and no match starts before the first one or in a gap |
| Patterns.ParaMatchAt | fix_keywords.py:77 | a `<para>…</para>` match covers the tags and the text between them, and that text satisfies the pattern's content predicate |
| Patterns.SearchPara | fix_keywords.py:79 | `re.search` of a `<para>` pattern is the leftmost start that matches; `None` exactly when no start matches |
| Patterns.ParaContentHasNoTag | fix_keywords.py:77 | the para text of a match holds no `<` |
| Patterns.SearchParaIsFirstCopy | fix_keywords.py:90-91 | the matched para text occurs first at the match, so `replace(old_para, …, 1)` rewrites the matched para |
| Patterns.ReplaceSearchedPara | fix_all_keywords.py:100-101 | replacing the first copy of the matched para keeps the text before and after the match |
| Patterns.BibNumberOf | fix_content_loss.py:242-246 | an id ending `bib<digits>` gives the value of those digits |
| Patterns.BibNumberAt | fix_remaining_bibliography.py:66-70 | the number of an id is read from the digits after its last `bib` |
| Patterns.XhtmlChapterNumber | fix_content_loss.py:150-153 | a number is found only in a name ending `_<digits>_Chapter.xhtml` |
| Patterns.XhtmlChapterNumberOf | fix_content_loss.py:150-152 | `<prefix>_<n>_Chapter.xhtml` gives `n` |
| Patterns.XhtmlChapterNumberNeedsSuffix | fix_content_loss.py:150-153 | a name that does not end in `l` (or a final newline) has no chapter number |
| Patterns.FindTagDigit | fix_content_loss.py:158 | the first position of `ch` followed by a digit, or none |
| Patterns.TaggedNumberOf | fix_content_loss.py:158-160 | the first `ch<digits>` of a name gives the value of its whole digit run |
| Patterns.TitleNumberOf | fix_content_loss.py:321-322 | a title `n.…` gives title number `n` |
| Patterns.FindTitleTag | fix_remaining_bibliography.py:120 | the first `<chaptertitle>` followed by digits and `.`, or none |
| Patterns.ChapterTitleNumberOf | fix_remaining_bibliography.py:120-125 | a document whose first `<chaptertitle>` reads `n.` has title number `n` |
| Patterns.TitleTagAtOf | fix_remaining_bibliography.py:120-125 | the first title tag decides the number |
| Fragments.CleanCitation | fix_content_loss.py:127-134 | the cleaned citation text is normalized, for the entities the model decodes |
| Fragments.StripMarkupPlain | fix_content_loss.py:127-132 | the tag-stripping substitutions leave text without `<` unchanged |
| Fragments.UnescapePlain | fix_content_loss.py:134 | unescaping leaves text without `&` unchanged |
| Fragments.CleanCitationPlain | fix_content_loss.py:127-134 | plain, normalized citation text comes out of cleaning as it went in |
| Fragments.CleanCitationOfEscaped | fix_remaining_bibliography.py:29-36 | tags are stripped before entities are decoded, so cleaning an escaped normalized text gives that text back |
| Fragments.KeywordTokensVisible | fix_keywords.py:23 | the tokens are the stripped texts of exactly the non-blank spans, one each, in document order |
| Fragments.KeywordTokens | fix_keywords.py:23 | at most one token per span; every token is non-empty and stripped |
| Fragments.KeywordTokensAppend | fix_keywords.py:22-23 | tokens keep document order: the tokens of `a + b` are those of `a` then those of `b` |
| Fragments.KeywordTokensOne | fix_keywords.py:23 | a span gives its stripped text, or nothing when it is blank |
| Fragments.KeywordTokensAllVisible | fix_keywords.py:22-23 | with no blank span, there is one token per span, in order, duplicates kept |
| Fragments.ExtractKeywords | fix_keywords.py:21-23 | the keywords of a chapter are non-empty and stripped |
| Fragments.ExtractKeywordsFromSpans | fix_keywords.py:21-23 | each keyword is the stripped text of a `Keyword` span match, the spans are taken in document order, and only blank spans are passed over |
| Fragments.BuildKeywordSet | fix_keywords.py:84-87 | the loop builds the `<keywordset>` text, which reads back as exactly the given keywords |
| Fragments.KeywordSetRoundTrip | fix_all_keywords.py:94-97 | the `<keywordset>` holds one escaped `<keyword>` per token, in order, duplicates kept: reading it back gives the tokens |
| Fragments.KeywordSetXmlHasTag | fix_all_keywords.py:94 | the inserted text opens with `<keywordset>` |
| Fragments.BibEntryReads | fix_content_loss.py:259 | a rewritten entry matches the `<bibliomixed>` pattern with the same id, and its body unescapes to the full citation |
| Fragments.CitationIdShape | fix_content_loss.py:122 | a citation id is `CR` followed by digits |
| Fragments.FoundCitationIds | fix_content_loss.py:122-123 | every id `findall` returns is `CR` followed by digits |
| Fragments.AssignedLastWins | fix_content_loss.py:135 | filling a dict by assignment: a key is present exactly when assigned, with the value of its last assignment |
| Fragments.SearchFirst | fix_content_loss.py:317-318 | a `re.search` match has the pattern's groups and ends within the text |
| Fragments.SearchFirstSpec | fix_content_loss.py:317-318 | `re.search` gives the leftmost match, or none when no position matches |
| Fragments.ChapterFile | fix_keywords.py:64-67 | the glob `*_{n}_Chapter.xhtml`: a listed file whose name has that ending; `None` exactly when no file has it |
| Fragments.ChapterFileNumber | fix_remaining_bibliography.py:92 | the file found for chapter `n` has XHTML chapter number `n` |
| CitationParsing.AttrLookup | fix_content_loss.py:60 | `dict(attrs).get(name)`: the value of the last attribute with that name; none exactly when no attribute has it |
| CitationParsing.CitationParser.constructor | fix_content_loss.py:49-57 | the parser starts with no citations, no keywords, nothing open and empty buffers |
| CitationParsing.CitationParser.HandleStartTag | fix_content_loss.py:59-71 | a `CitationContent` div opens a citation with its id and an empty buffer; a `Keyword` span opens a keyword |
| CitationParsing.CitationParser.HandleEndTag | fix_content_loss.py:73-89 | closing an open div stores the normalized text under a non-empty id and resets id and buffer; closing an open span appends the stripped text when non-empty and resets the buffer |
| CitationParsing.CitationParser.HandleData | fix_content_loss.py:91-95 | text goes to the buffer of each open element |
| CitationParsing.CitationParser.Feed | fix_content_loss.py:105 | feeding events runs the handlers in order |
| CitationParsing.RunInv | fix_content_loss.py:73-89 | after any events: every keyword is non-empty and stripped, every citation sits under a non-empty id with normalized text, and closed elements have empty buffers and no pending id |
| CitationParsing.StepGrows | fix_content_loss.py:84-88 | one event adds at most one keyword, at the end, and drops no citation |
| CitationParsing.RunGrows | fix_content_loss.py:84-88 | more events only append keywords, so document order is kept |
| CitationParsing.KeywordSpanRecorded | fix_content_loss.py:69-71 | a keyword span with one text appends that text stripped, unless it is blank |
| CitationParsing.CitationDivRecorded | fix_content_loss.py:63-82 | a citation div stores its normalized text under its id, replacing an earlier one; an empty id stores nothing |
| CitationParsing.UnrelatedEndTag | fix_content_loss.py:73-89 | a closing tag that closes nothing open changes nothing |
| CitationParsing.ParseXhtmlCitations | fix_content_loss.py:98-106 | a fresh parser fed a document returns its citations and keywords, with the parser's invariant |
| ContentLoss.CitationMapLastWins | fix_content_loss.py:125-135 | an id is present exactly when some match has it; its text is the cleaned body of the last such match |
| ContentLoss.ExtractCitationsWithRegex | fix_content_loss.py:112-145 | the citations are the cleaned bodies by id, with `CR<digits>` ids and text normalized for the modelled entities; the keywords are the chapter's tokens |
| ContentLoss.ChapterTitleFirstHeading | fix_content_loss.py:317-318 | the title is the text of the leftmost `<h1 class="ChapterTitle">` heading, or `"Unknown"` when there is none |
| ContentLoss.ChapterInfoOf | fix_content_loss.py:307-329 | a mapping entry exists only for a positive `_<n>_Chapter.xhtml` number and records that number |
| ContentLoss.XmlChapterIdFor | fix_content_loss.py:350-358 | the title number + 2 of the first entry with the same XHTML number and a truthy title number; otherwise the XHTML number |
| ContentLoss.DepressiveDisordersChapter | fix_content_loss.py:339-357 | XHTML chapter 6 titled `6. Depressive Disorders` maps to XML chapter 8 |
| ContentLoss.FirstKey | fix_content_loss.py:251-253 | the first key that is present, with none before it present; none when no key is present |
| ContentLoss.CitationKeysName | fix_content_loss.py:249 | `CR{n}`, `CR{n:02d}` and `CR{n:03d}` are `CR` plus digits whose value is `n` |
| ContentLoss.BibStep | fix_content_loss.py:237-267 | an entry left alone leaves the text as it was; a record carries the id and the old text's preview |
| ContentLoss.BibStepSkips | fix_content_loss.py:242-244 | an id without `bib<digits>`, or with no key present, changes nothing and records nothing |
| ContentLoss.BibStepKey | fix_content_loss.py:251-267 | the first key present decides the entry, and the search stops there whether or not the entry is rewritten |
| ContentLoss.RestoredEntryStable | fix_content_loss.py:256-259 | a restored entry matches the pattern again with its id, decodes to the full citation, and is no longer truncated |
| ContentLoss.BibFold | fix_content_loss.py:236-269 | at most one record per entry; no record means the text is unchanged |
| ContentLoss.BibFoldSkip | fix_content_loss.py:242-244 | a skipped entry leaves the text and the records as they were |
| ContentLoss.BibFoldKey | fix_content_loss.py:251-267 | a found entry is rewritten and recorded exactly when truncated, and otherwise left alone |
| ContentLoss.BibFoldRecordsSnoc | fix_content_loss.py:242-267 | whatever the text rewritten so far, the last match adds its record exactly when its entry is restorable (an id ending `bib<digits>`, a key present, and the entry truncated) |
| ContentLoss.BibFoldRecordCount | fix_content_loss.py:236-269 | there are exactly as many records as matches whose entry is restorable |
| ContentLoss.BibFoldRecordsRestored | fix_content_loss.py:236-269 | every restorable match has its record, with its id and both previews |
| ContentLoss.BibFoldRecordsOnlyRestored | fix_content_loss.py:236-269 | every record is that of a restorable match |
| ContentLoss.BibFoldRecordsShort | fix_content_loss.py:264-265 | the records keep previews: both texts of every record are at most 103 characters |
| ContentLoss.RestoreEntry | fix_content_loss.py:235-267 | one entry: an id without a trailing number or a number with no citation under CR<n>, CR<nn> or CR<nnn> leaves the text and the record list as they were; otherwise the first key found decides, and a current text shorter than seven tenths of the citation has its first copy replaced by the escaped citation and a preview pair recorded — exactly the step the fold is built from |
| ContentLoss.RestoreEntries | fix_content_loss.py:234-269 | visiting the matches in order, each judged on its text in the original document while the replacement acts on the text rewritten so far, yields the fold over all matches |
| ContentLoss.FixBibliographyContent | fix_content_loss.py:227-269 | the loop's result is the fold over the pattern's matches; with no fixes the text is unchanged |
| ContentLoss.FixKeywordsSection | fix_content_loss.py:272-298 | no match or no keywords: text unchanged, no record; otherwise every copy of the matched para becomes the `<keywordset>`, with one record holding the preview |
| ContentLoss.Context | fix_content_loss.py:482 | the at most 50 characters that end at the match start |
| ContentLoss.IssuesSpec | fix_content_loss.py:463-483 | a match is reported exactly when neither `text\s*<match>` nor `<para…>\s*text\s*<first 20 characters>` occurs, with its text and context |
| ContentLoss.TextBeforeTermNotFlagged | fix_content_loss.py:473-475 | an index term whose text stands right before it is never reported |
| ContentLoss.ReportIssues | fix_content_loss.py:463-483 | visiting the matches in order and appending a report for each flagged one yields exactly the issue list, every context at most 50 characters long |
| ContentLoss.VerifyIndexterms | fix_content_loss.py:447-483 | the issues of a document, in match order, with contexts of at most 50 characters; the document is not changed |
| RemainingBibliography.CitationIdNumber | fix_remaining_bibliography.py:39-41 | the number of `CR<digits>` is the value of its digits |
| RemainingBibliography.NumberedCitationsAssigned | fix_remaining_bibliography.py:27-42 | the citations are the dict filled by those pairs in order |
| RemainingBibliography.NumberedCitationsLastWins | fix_remaining_bibliography.py:39-42 | a number is present exactly when some id has it; its text is from the last such id |
| RemainingBibliography.PaddedIdNumbers | fix_remaining_bibliography.py:41 | `CR07` and `CR7` both have number 7 |
| RemainingBibliography.PaddedIdsCollide | fix_remaining_bibliography.py:39-42 | `CR07` then `CR7` leaves one citation 7, the later one |
| RemainingBibliography.ExtractCitationsFromXhtml | fix_remaining_bibliography.py:15-47 | the loop returns the chapter's numbered citations, each normalized for the modelled entities |
| RemainingBibliography.FileStep | fix_remaining_bibliography.py:61-81 | one entry adds at most one fix; with none the text is unchanged |
| RemainingBibliography.RewrittenEntryComplete | fix_remaining_bibliography.py:77-79 | the escaped body of a normalized citation passes the truncation test |
| RemainingBibliography.FileFold | fix_remaining_bibliography.py:61-81 | at most one fix per entry; zero fixes means the text is unchanged |
| RemainingBibliography.FileFoldKeep | fix_remaining_bibliography.py:66-77 | an entry that is not rewritten changes neither text nor count |
| RemainingBibliography.FileFoldRestore | fix_remaining_bibliography.py:78-81 | an entry that is rewritten replaces its first copy and adds one to the count |
| RemainingBibliography.FileFoldFixes | fix_remaining_bibliography.py:66-81 | whatever the text so far, the last entry adds one to the count exactly when its id ends in `bib<digits>`, its number has a citation, and `10·len(current.strip()) < 7·len(full)` |
| RemainingBibliography.FileFoldCount | fix_remaining_bibliography.py:61-81 | the count of fixes is the number of entries meeting those three conditions |
| RemainingBibliography.FixBibliographyFile | fix_remaining_bibliography.py:50-87 | the new text and count are the fold over the matches; the text is written exactly when the count is above 0 |
| RemainingBibliography.XhtmlForBibliography | fix_remaining_bibliography.py:120-131 | the XHTML file is one whose chapter number is the `<chaptertitle>` number itself |
| RemainingBibliography.TitleNumberUsedDirectly | fix_remaining_bibliography.py:120-128 | a document titled `n.` takes its citations from the `_n_Chapter.xhtml` file, with no offset |
| RemainingBibliography.FixDocument | fix_remaining_bibliography.py:104-143 | a document without `<bibliography` or `<bibliomixed`, or without an XHTML file for its title number, is not touched; otherwise, with citations, the count is that of the fold over its entries, and the fold's text is written exactly when the count is above 0 |
| Keywords.BlankSpanDropped | fix_keywords.py:23 | a blank keyword span adds no token |
| Keywords.DetectionWidened | fix_keywords.py:42-43 | every paragraph the written detection accepts, the intended one accepts too |
| Keywords.GarbledAsWrittenIsGarbled | fix_keywords.py:41-44 | every document detected as written is detected by the intended pattern |
| Keywords.TwoCapWords | fix_keywords.py:43 | two capitalised words, each after whitespace, are the words the pattern needs |
| Keywords.SpacedLocalPartMissed | fix_keywords.py:42-43 | the written detection rejects a para that opens `j. e@m.edu` followed by any words |
| Keywords.SpacedLocalPartDetected | fix_keywords.py:42-43 | the intended detection accepts that para |
| Keywords.SpaceAfterAtDetected | fix_keywords.py:43 | detection accepts `a@ b.edu` followed by two capitalised words |
| Keywords.SpaceAfterAtNotRepaired | fix_keywords.py:77 | the repair pattern rejects that para, so a detected file can be left unchanged |
| Keywords.XmlChapterOfName | fix_keywords.py:51-56 | the first `ch<digits>` of the file name gives the chapter, zero padding included |
| Keywords.XhtmlChapterFile | fix_keywords.py:59-67 | the XHTML file is a listed file; for an XML chapter of at least 2 it is XHTML chapter `xmlChapter − 2` |
| Keywords.FixKeywordsInFile | fix_keywords.py:70-102 | text and record exactly when the repair pattern matches and there are keywords; the first copy of the para becomes the `<keywordset>`, and the record holds the para text's preview |
| Keywords.RepairedKeywordsReadBack | fix_keywords.py:84-91 | a repaired document reads back the keywords where the para was and keeps the text around it |
| Keywords.KeywordSource | fix_keywords.py:116-124 | a source exists only for a file with a non-zero `ch<digits>`, and it is a listed XHTML file |
| Keywords.RepairOf | fix_keywords.py:116-140 | past detection, a document is rewritten exactly when it has a non-zero chapter with an XHTML file and keywords, and the repair pattern matches |
| Keywords.RepairDetected | fix_keywords.py:116-140 | the chapter, file, keyword and repair steps give that rewrite: the matched para replaced by the `<keywordset>` of the chapter's keywords, with a record exactly when rewritten |
| Keywords.FixGarbledDocumentAsWritten | fix_keywords.py:41-140 | as written: a document is rewritten exactly when the written detection accepts it and the steps above rewrite it |
| Keywords.FixGarbledDocument | fix_keywords.py:115-140 | with the corrected detection (see Findings): a document is rewritten exactly when detected, with a non-zero chapter, an XHTML file with keywords and a repair match; the matched para becomes the `<keywordset>` of those keywords |
| Keywords.AsWrittenRepairsIncluded | fix_keywords.py:41-44 | every document repaired as written is repaired the same way with the corrected detection |
| Keywords.SpacedLocalPartRepairable | fix_keywords.py:77 | the repair pattern, whose local part holds a space, reads the `j. e@m.edu` para |
| Keywords.CapWordTags | fix_keywords.py:77 | a capitalised word is also a `[A-Za-z-]+` word and holds no `<` |
| Keywords.SpacedLocalPartDocument | fix_keywords.py:41-140 | for `<para>j. e@m.edu W1 W2</para>` in a chapter with keywords, the pass as written leaves the document alone while the corrected pass rewrites it |
| AllKeywords.FirstMatch | fix_all_keywords.py:71-73 | the match of the first rule that matches covers at least `<para>` and `</para>` |
| AllKeywords.FullRuleFirst | fix_all_keywords.py:50-55 | when the `full` pattern matches, its match is used |
| AllKeywords.FullContentIsSimple | fix_all_keywords.py:52-54 | every `full` para text is also a `simple` one |
| AllKeywords.SomeRuleMatchesIffSimple | fix_all_keywords.py:50-55 | some rule matches exactly when the `simple` pattern matches |
| AllKeywords.SourceFile | fix_all_keywords.py:75-85 | the source is a listed XHTML file, and only for a name with `ch<digits>` |
| AllKeywords.ChapterKeywordsSource | fix_all_keywords.py:75-91 | keywords come from a listed XHTML file of chapter `xml − 2` |
| AllKeywords.Clip | fix_all_keywords.py:108 | `s[:100]` exactly: the first 100 characters, or the whole text when it is shorter |
| AllKeywords.RewriteReadsBack | fix_all_keywords.py:94-110 | the rewrite keeps the text around the para, reads back the keywords in its place, and records the name, the keywords and the first 100 characters of the whole para |
| AllKeywords.FixFile | fix_all_keywords.py:57-116 | the pattern loop with `continue`/`break` gives exactly the file's single rewrite, or nothing |
| AllKeywords.RewrittenExactly | fix_all_keywords.py:63-110 | a file is rewritten exactly when it is not skipped, the `simple` pattern matches and its chapter has keywords; the rewrite is that of the first matching rule |
| AllKeywords.FixAllGarbledKeywords | fix_all_keywords.py:42-121 | the directory after the pass and the fixes, one per rewritten file, in order |
| AllKeywords.FixesCount | fix_all_keywords.py:57-116 | the number of fixes is the number of files the pass rewrites |
| AllKeywords.SkippedUnchanged | fix_all_keywords.py:63-68 | a file with no `@` or with `<keywordset>` is left unchanged |
| AllKeywords.WithKeywordSetHasTag | fix_all_keywords.py:94-101 | a rewritten file contains `<keywordset>` |
| AllKeywords.RewrittenIsFinal | fix_all_keywords.py:63-68 | a rewritten file is skipped next time, so rewriting is idempotent |
| AllKeywords.FixesOfNone | fix_all_keywords.py:57-110 | a pass that rewrites no file records no fix |
| AllKeywords.SecondPassIdle | fix_all_keywords.py:63-68 | a second pass changes no file and records no fix |
| AllKeywords.FixesAtMostFiles | fix_all_keywords.py:116 | at most one fix per file |
| AllKeywords.FixesOriginalShort | fix_all_keywords.py:108 | every record keeps at most the first 100 characters of the para it replaced |

## Left out

- Reading, writing, globbing and copying files. A directory is a sequence of `File` values in the order the scripts visit them. A write is the returned new text.
- Printing, the report text and the JSON dump (fix_content_loss.py:494-730).
- The process-wide `issues_found` and `fixes_applied` dictionaries. The model returns the lists each step would add to them.
- `process_all_chapters` (fix_content_loss.py:361-444) beyond the per-document steps it calls. Its copying and file selection are I/O.
- `map_xhtml_to_xml_chapters` (fix_content_loss.py:164-190). Its file lists are always empty.
- `find_xml_bibliography_file` and `find_xml_keywords_file`, including the content tests at fix_content_loss.py:203 and 220. They only choose which file to open.
- `html.unescape` covers only the entities `html.escape` writes (`&amp;`, `&lt;`, `&gt;`, `&quot;`, `&#x27;`) and `&#39;`. The full HTML5 entity table is not part of this model.
- HtmlEscape.UnescapeNormalized: holds for the modelled entities only. `html.unescape` also turns references such as `&#32;`, `&#10;`, `&nbsp;` and `&#160;` into whitespace, so text decoded by the source can end with, start with or double whitespace.
- Fragments.CleanCitation: the text is normalized before decoding, as in the source; the normalized result rests on `HtmlEscape.UnescapeNormalized` and holds only for the modelled entities.
- ContentLoss.ExtractCitationsWithRegex: its normalized-text clause holds only for the modelled entities, for the same reason.
- RemainingBibliography.ExtractCitationsFromXhtml: its normalized-text clause holds only for the modelled entities, for the same reason.
- The HTML tokenizer of `HTMLParser`. `CitationParser` is driven by start-tag, end-tag and data events with lower-cased tag names.
- The factor `0.7` is taken as the exact fraction 7/10, so the test is `10·len(current) < 7·len(full)`. Floating-point rounding is not modelled.
- `\d` matches only the ASCII digits; Unicode decimal digits are not modelled.
- `except Exception` handlers. A file that cannot be read is not modelled.
- Keywords.FixGarbledDocument: uses the corrected detection of the Findings row, not the pattern as written; `Keywords.FixGarbledDocumentAsWritten` is the pass as written. The directory scan `find_garbled_keywords_files` is left out as I/O.
- `RemainingBibliography.FixDocument` models one document of `main` in fix_remaining_bibliography.py. The running total is left out, as reporting only.

## Findings

| source | as written | input that shows it | evidently intended | confidence | as-written member | corrected member |
|---|---|---|---|---|---|---|
| fix_keywords.py:43 | the local part `[a-z0-9_.+-]+\s*@` allows whitespace only right before `@`, so an address split after `j.` is not detected | `<para>j. e@m.edu Word Word</para>`, the shape of `j. ehrenreich@miami. edu` that the comment at line 42 names | the local-part class also holds a space, as in the repair pattern at line 77 | not executed | Keywords.SpacedLocalPartMissed, Keywords.FixGarbledDocumentAsWritten, Keywords.SpacedLocalPartDocument | Keywords.SpacedLocalPartDetected, Keywords.FixGarbledDocument |
