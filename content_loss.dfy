/// fix_content_loss.py: reading citations and keywords out of an XHTML
/// chapter, choosing the XML chapter an XHTML chapter belongs to, restoring
/// truncated `<bibliomixed>` entries, replacing a garbled keyword paragraph
/// with a `<keywordset>`, and the read-only check of index terms.
module ContentLoss {
  import opened Text
  import opened HtmlEscape
  import opened Numerals
  import opened Patterns
  import opened Fragments

  // ---------------------------------------------------------------------
  // extract_citations_with_regex

  /** The `(id, cleaned body)` pairs of the citation matches `fs`. */
  function CitationPairs(fs: seq<Found>): (ps: seq<(string, string)>)
    requires forall k :: 0 <= k < |fs| ==> |fs[k].groups| == 2
    ensures |ps| == |fs|
    ensures forall k :: 0 <= k < |fs| ==> ps[k] == (fs[k].groups[0], CleanCitation(fs[k].groups[1]))
  {
    seq(|fs|, k requires 0 <= k < |fs| => (fs[k].groups[0], CleanCitation(fs[k].groups[1])))
  }

  /** The citations of a chapter: later ids overwrite earlier ones. */
  function CitationMap(fs: seq<Found>): map<string, string>
    requires forall k :: 0 <= k < |fs| ==> |fs[k].groups| == 2
  {
    Assigned(CitationPairs(fs))
  }

  /** An id is stored exactly when some match has it, and its text is the
      cleaned body of the last such match. */
  lemma CitationMapLastWins(fs: seq<Found>, id: string)
    requires forall k :: 0 <= k < |fs| ==> |fs[k].groups| == 2
    ensures id in CitationMap(fs) <==> exists k :: 0 <= k < |fs| && fs[k].groups[0] == id
    ensures id in CitationMap(fs) ==>
              exists k :: 0 <= k < |fs| && fs[k].groups[0] == id
                          && CitationMap(fs)[id] == CleanCitation(fs[k].groups[1])
                          && forall j :: k < j < |fs| ==> fs[j].groups[0] != id
  {
    AssignedLastWins(CitationPairs(fs), id);
  }

  /** Every id is `CR` and digits, every text normalized. */
  predicate CleanCitations(citations: map<string, string>)
  {
    forall id :: id in citations ==> CitationId(id) && Normalized(citations[id])
  }

  lemma CleanCitationsUpdate(citations: map<string, string>, id: string, text: string)
    requires CleanCitations(citations) && CitationId(id) && Normalized(text)
    ensures CleanCitations(citations[id := text])
  {
  }

  /** `extract_citations_with_regex` on the text of a chapter. */
  method ExtractCitationsWithRegex(content: string) returns (citations: map<string, string>, keywords: seq<string>)
    ensures citations == CitationMap(FindAll(CitationDiv, content))
    ensures CleanCitations(citations)
    ensures keywords == ExtractKeywords(content)
  {
    var matches := FindAll(CitationDiv, content);
    ghost var pairs := CitationPairs(matches);
    FoundCitationIds(content);
    citations := map[];
    for i := 0 to |matches|
      invariant citations == Assigned(pairs[..i])
      invariant CleanCitations(citations)
    {
      AssignedSnoc(pairs, i);
      var citId := matches[i].groups[0];
      var cleanContent := CleanCitation(matches[i].groups[1]);
      assert CitationId(citId);
      CleanCitationsUpdate(citations, citId, cleanContent);
      citations := citations[citId := cleanContent];
    }
    assert pairs[..|matches|] == pairs;
    keywords := ExtractKeywords(content);
  }

  // ---------------------------------------------------------------------
  // Chapter mapping

  /** One entry of `analyze_chapter_mapping`. */
  datatype ChapterInfo = ChapterInfo(xhtmlFile: string, xhtmlNum: nat, title: string, titleNum: Option<nat>)

  /** The heading `<h1 class="ChapterTitle" ...>title</h1>`, or `"Unknown"`. */
  function ChapterTitle(content: string): string
  {
    match SearchFirst(ChapterTitleHeading, content)
    case None => "Unknown"
    case Some(f) => f.groups[0]
  }

  /** With no heading anywhere the title is `"Unknown"`; otherwise it is the
      text of the leftmost heading. */
  lemma ChapterTitleFirstHeading(content: string)
    ensures (forall j: nat :: j < |content| ==> MatchAt(ChapterTitleHeading, content, j).None?) ==> ChapterTitle(content) == "Unknown"
    ensures (exists j: nat :: j < |content| && MatchAt(ChapterTitleHeading, content, j).Some?) ==>
              exists i: nat :: && i < |content| && MatchAt(ChapterTitleHeading, content, i).Some?
                               && MatchAt(ChapterTitleHeading, content, i).value.groups == [ChapterTitle(content)]
                               && forall j: nat :: j < i ==> MatchAt(ChapterTitleHeading, content, j).None?
  {
    SearchFirstSpec(ChapterTitleHeading, content);
    match SearchFirst(ChapterTitleHeading, content)
    case None =>
    case Some(f) =>
      assert f.groups == [f.groups[0]];
  }

  /** The entry `analyze_chapter_mapping` makes for one file, or `None` when
      the file name has no chapter number or the number is 0. */
  function ChapterInfoOf(f: File): (r: Option<ChapterInfo>)
    ensures r.Some? ==> r.value.xhtmlNum > 0 && XhtmlChapterNumber(f.name) == Some(r.value.xhtmlNum)
  {
    match XhtmlChapterNumber(f.name)
    case None => None
    case Some(n) =>
      if n == 0 then None
      else
        var title := ChapterTitle(f.content);
        Some(ChapterInfo(f.name, n, title, TitleNumber(title)))
  }

  /** An entry settles the XML chapter of XHTML chapter `n`: same number and
      a truthy title number. */
  predicate Settles(m: ChapterInfo, n: nat)
  {
    m.xhtmlNum == n && m.titleNum.Some? && m.titleNum.value != 0
  }

  /** `get_xml_chapter_id_for_xhtml`: the title number plus 2 of the first
      entry that settles `n`, otherwise `n` itself. */
  function XmlChapterIdFor(n: nat, ms: seq<ChapterInfo>): (r: nat)
    ensures forall i :: 0 <= i < |ms| && Settles(ms[i], n) && (forall j :: 0 <= j < i ==> !Settles(ms[j], n))
              ==> r == ms[i].titleNum.value + 2
    ensures (forall i :: 0 <= i < |ms| ==> !Settles(ms[i], n)) ==> r == n
  {
    if ms == [] then n
    else if Settles(ms[0], n) then ms[0].titleNum.value + 2
    else
      var r := XmlChapterIdFor(n, ms[1..]);
      XmlChapterIdForSkip(n, ms, r);
      r
  }

  /** An entry that does not settle `n` leaves the answer to the rest. */
  lemma XmlChapterIdForSkip(n: nat, ms: seq<ChapterInfo>, r: nat)
    requires ms != [] && !Settles(ms[0], n)
    requires forall i :: 0 <= i < |ms[1..]| && Settles(ms[1..][i], n) && (forall j :: 0 <= j < i ==> !Settles(ms[1..][j], n))
               ==> r == ms[1..][i].titleNum.value + 2
    requires (forall i :: 0 <= i < |ms[1..]| ==> !Settles(ms[1..][i], n)) ==> r == n
    ensures forall i :: 0 <= i < |ms| && Settles(ms[i], n) && (forall j :: 0 <= j < i ==> !Settles(ms[j], n))
              ==> r == ms[i].titleNum.value + 2
    ensures (forall i :: 0 <= i < |ms| ==> !Settles(ms[i], n)) ==> r == n
  {
    var tail := ms[1..];
    forall i | 0 <= i < |ms| && Settles(ms[i], n) && (forall j :: 0 <= j < i ==> !Settles(ms[j], n))
      ensures r == ms[i].titleNum.value + 2
    {
      assert i > 0 && tail[i - 1] == ms[i];
      forall j | 0 <= j < i - 1 ensures !Settles(tail[j], n) {
        assert tail[j] == ms[j + 1];
      }
    }
    if forall i :: 0 <= i < |ms| ==> !Settles(ms[i], n) {
      forall i | 0 <= i < |tail| ensures !Settles(tail[i], n) {
        assert tail[i] == ms[i + 1];
      }
    }
  }

  /** XHTML chapter 6, whose heading reads "6. Depressive Disorders", is XML
      chapter 8. */
  lemma DepressiveDisordersChapter(name: string)
    ensures var title := NatToDigits(6) + ". Depressive Disorders";
            XmlChapterIdFor(6, [ChapterInfo(name, 6, title, TitleNumber(title))]) == 8
  {
    TitleNumberOf(6, " Depressive Disorders");
    assert NatToDigits(6) + "." + " Depressive Disorders" == NatToDigits(6) + ". Depressive Disorders";
  }

  // ---------------------------------------------------------------------
  // fix_bibliography_content

  /** The record of one restored entry. */
  datatype BibFix = BibFix(bibId: string, original: string, restored: string)

  /** `[f"CR{n}", f"CR{n:02d}", f"CR{n:03d}"]`. */
  function CitationKeys(n: nat): seq<string>
  {
    var d := NatToDigits(n);
    ["CR" + d, "CR" + ZeroPad(d, 2), "CR" + ZeroPad(d, 3)]
  }

  /** The first of `keys` present in `citations`. */
  function FirstKey(keys: seq<string>, citations: map<string, string>): (r: Option<nat>)
    ensures r.Some? ==> r.value < |keys| && keys[r.value] in citations
    ensures r.Some? ==> forall j :: 0 <= j < r.value ==> keys[j] !in citations
    ensures r.None? ==> forall j :: 0 <= j < |keys| ==> keys[j] !in citations
  {
    if keys == [] then None
    else if keys[0] in citations then Some(0)
    else match FirstKey(keys[1..], citations)
      case None => None
      case Some(j) => Some(j + 1)
  }

  /** Every key tried for entry number `n` names citation number `n`. */
  lemma CitationKeysName(n: nat)
    ensures forall k :: 0 <= k < 3 ==> |CitationKeys(n)[k]| > 2 && CitationKeys(n)[k][..2] == "CR"
    ensures forall k :: 0 <= k < 3 ==> AllDigits(CitationKeys(n)[k][2..]) && ParseNat(CitationKeys(n)[k][2..]) == n
  {
    var d := NatToDigits(n);
    PaddedNumeralValue(n, 0);
    PaddedNumeralValue(n, 2);
    PaddedNumeralValue(n, 3);
    assert ZeroPad(d, 0) == d;
    assert ("CR" + d)[2..] == d;
    assert ("CR" + ZeroPad(d, 2))[2..] == ZeroPad(d, 2);
    assert ("CR" + ZeroPad(d, 3))[2..] == ZeroPad(d, 3);
  }

  /** What happens to one `<bibliomixed>` match of the original text: the new
      text and the record, if the entry is restored. `old` is the matched
      entry. */
  function BibStep(content: string, oldEntry: string, f: Found, citations: map<string, string>): (r: (string, Option<BibFix>))
    requires |f.groups| == 2
    ensures r.1.None? ==> r.0 == content
    ensures r.1.Some? ==> r.1.value.bibId == f.groups[0] && r.1.value.original == Preview(f.groups[1])
  {
    var id := f.groups[0];
    var current := f.groups[1];
    match BibNumber(id)
    case None => (content, None)
    case Some(n) =>
      var keys := CitationKeys(n);
      match FirstKey(keys, citations)
      case None => (content, None)
      case Some(j) =>
        var full := citations[keys[j]];
        if Truncated(current, full)
        then (ReplaceFirst(content, oldEntry, BibEntry(id, full)), Some(BibFix(id, Preview(current), Preview(full))))
        else (content, None)
  }

  predicate BibMatches(xml: string, fs: seq<Found>)
  {
    forall k :: 0 <= k < |fs| ==> |fs[k].groups| == 2 && fs[k].start <= fs[k].end <= |xml|
  }

  /** The loop of `fix_bibliography_content` over the matches `fs` of the
      original text `xml`. */
  function BibFold(xml: string, fs: seq<Found>, citations: map<string, string>): (r: (string, seq<BibFix>))
    requires BibMatches(xml, fs)
    ensures |r.1| <= |fs|
    ensures r.1 == [] ==> r.0 == xml
  {
    if fs == [] then (xml, [])
    else
      var prev := BibFold(xml, fs[..|fs| - 1], citations);
      var f := fs[|fs| - 1];
      var step := BibStep(prev.0, xml[f.start..f.end], f, citations);
      (step.0, prev.1 + (if step.1.Some? then [step.1.value] else []))
  }

  /** The entry of `n` is restored exactly when `bib<digits>` ends its id,
      one of the three keys is present, and the text in the document is
      shorter than 70% of the first present key's citation. */
  lemma BibStepRestores(content: string, oldEntry: string, f: Found, citations: map<string, string>)
    requires |f.groups| == 2
    ensures BibStep(content, oldEntry, f, citations).1.Some? <==>
              && BibNumber(f.groups[0]).Some?
              && var keys := CitationKeys(BibNumber(f.groups[0]).value);
                 && FirstKey(keys, citations).Some?
                 && Truncated(f.groups[1], citations[keys[FirstKey(keys, citations).value]])
    ensures BibStep(content, oldEntry, f, citations).1.Some? ==>
              var keys := CitationKeys(BibNumber(f.groups[0]).value);
              var full := citations[keys[FirstKey(keys, citations).value]];
              && BibStep(content, oldEntry, f, citations).0 == ReplaceFirst(content, oldEntry, BibEntry(f.groups[0], full))
              && BibStep(content, oldEntry, f, citations).1.value.restored == Preview(full)
  {
  }

  /** A restored entry keeps its id, its body decodes to the full citation,
      and that body is no longer short of the citation, so a second pass
      with the same citations leaves it alone. */
  lemma RestoredEntryStable(id: string, full: string, rest: string)
    requires id != [] && forall k :: 0 <= k < |id| ==> id[k] != '"'
    ensures var s := BibEntry(id, full) + rest;
            && BiblioAt(s, 0) == Some(Match(|BibEntry(id, full)|, [id, Escape(full)]))
            && Unescape(Escape(full)) == full
            && !Truncated(Escape(full), full)
  {
    BibEntryReads(id, full, rest);
  }

  /** The body of the loop of `fix_bibliography_content` for one match `f`
      whose whole text is `oldEntry`: the number, the key search, the
      truncation test and the rewrite. */
  method RestoreEntry(content: string, oldEntry: string, f: Found, citations: map<string, string>)
    returns (newContent: string, fix: Option<BibFix>)
    requires |f.groups| == 2
    ensures newContent == BibStep(content, oldEntry, f, citations).0
    ensures fix == BibStep(content, oldEntry, f, citations).1
  {
    newContent := content;
    fix := None;
    var bibId := f.groups[0];
    var currentContent := f.groups[1];
    var bibNum := BibNumber(bibId);
    if bibNum.None? {
      BibStepSkips(content, oldEntry, f, citations);
      return;
    }
    var possibleIds := CitationKeys(bibNum.value);
    for j := 0 to |possibleIds|
      invariant forall t :: 0 <= t < j ==> possibleIds[t] !in citations
    {
      if possibleIds[j] in citations {
        FirstKeyAt(possibleIds, citations, j);
        BibStepKey(content, oldEntry, f, citations, bibNum.value, j);
        var fullCitation := citations[possibleIds[j]];
        if Truncated(currentContent, fullCitation) {
          var newEntry := BibEntry(bibId, fullCitation);
          newContent := ReplaceFirst(content, oldEntry, newEntry);
          fix := Some(BibFix(bibId, Preview(currentContent), Preview(fullCitation)));
        }
        return;
      }
    }
    BibStepSkips(content, oldEntry, f, citations);
  }

  /** The loop of `fix_bibliography_content` over the matches `fs` of the
      original text `xml`. */
  method RestoreEntries(xml: string, fs: seq<Found>, citations: map<string, string>)
    returns (fixedContent: string, fixesMade: seq<BibFix>)
    requires BibMatches(xml, fs)
    ensures (fixedContent, fixesMade) == BibFold(xml, fs, citations)
  {
    fixedContent := xml;
    fixesMade := [];
    for i := 0 to |fs|
      invariant (fixedContent, fixesMade) == BibFold(xml, fs[..i], citations)
    {
      var oldEntry := xml[fs[i].start..fs[i].end];
      var content, fix := RestoreEntry(fixedContent, oldEntry, fs[i], citations);
      var fixes := if fix.Some? then fixesMade + [fix.value] else fixesMade;
      BibFoldNext(xml, fs, i, citations, fixedContent, fixesMade, content, fix);
      fixedContent, fixesMade := content, fixes;
    }
    assert fs[..|fs|] == fs;
  }

  /** `fix_bibliography_content`. */
  method FixBibliographyContent(xml: string, citations: map<string, string>)
    returns (fixedContent: string, fixesMade: seq<BibFix>)
    ensures (fixedContent, fixesMade) == BibFold(xml, FindAll(BiblioMixed, xml), citations)
    ensures fixesMade == [] ==> fixedContent == xml
  {
    var matches := FindAll(BiblioMixed, xml);
    fixedContent, fixesMade := RestoreEntries(xml, matches, citations);
  }

  /** No number in the id, or no citation under any of its keys: the
      entry is left as it is. */
  lemma BibStepSkips(content: string, oldEntry: string, f: Found, citations: map<string, string>)
    requires |f.groups| == 2
    requires BibNumber(f.groups[0]).None? || FirstKey(CitationKeys(BibNumber(f.groups[0]).value), citations).None?
    ensures BibStep(content, oldEntry, f, citations) == (content, None)
  {
  }

  /** The citation under key `j` decides the entry. */
  lemma BibStepKey(content: string, oldEntry: string, f: Found, citations: map<string, string>, n: nat, j: nat)
    requires |f.groups| == 2 && BibNumber(f.groups[0]) == Some(n)
    requires FirstKey(CitationKeys(n), citations) == Some(j)
    ensures var full := citations[CitationKeys(n)[j]];
            BibStep(content, oldEntry, f, citations)
            == if Truncated(f.groups[1], full)
               then (ReplaceFirst(content, oldEntry, BibEntry(f.groups[0], full)),
                     Some(BibFix(f.groups[0], Preview(f.groups[1]), Preview(full))))
               else (content, None)
  {
  }

  /** One more match of the loop. */
  lemma BibFoldSnoc(xml: string, fs: seq<Found>, i: nat, citations: map<string, string>)
    requires BibMatches(xml, fs) && i < |fs|
    ensures var prev := BibFold(xml, fs[..i], citations);
            var step := BibStep(prev.0, xml[fs[i].start..fs[i].end], fs[i], citations);
            BibFold(xml, fs[..i + 1], citations) == (step.0, prev.1 + if step.1.Some? then [step.1.value] else [])
  {
    assert fs[..i + 1][..i] == fs[..i];
  }

  /** `BibFoldSnoc` with the fold's state and the step's outcome named. */
  lemma BibFoldNext(xml: string, fs: seq<Found>, i: nat, citations: map<string, string>,
                    c: string, fx: seq<BibFix>, c2: string, fix: Option<BibFix>)
    requires BibMatches(xml, fs) && i < |fs|
    requires (c, fx) == BibFold(xml, fs[..i], citations)
    requires c2 == BibStep(c, xml[fs[i].start..fs[i].end], fs[i], citations).0
    requires fix == BibStep(c, xml[fs[i].start..fs[i].end], fs[i], citations).1
    ensures (c2, if fix.Some? then fx + [fix.value] else fx) == BibFold(xml, fs[..i + 1], citations)
  {
    BibFoldSnoc(xml, fs, i, citations);
    assert fx + [] == fx;
  }

  /** A match that is skipped leaves text and records as they were. */
  lemma BibFoldSkip(xml: string, fs: seq<Found>, i: nat, citations: map<string, string>)
    requires BibMatches(xml, fs) && i < |fs|
    requires BibNumber(fs[i].groups[0]).None? || FirstKey(CitationKeys(BibNumber(fs[i].groups[0]).value), citations).None?
    ensures BibFold(xml, fs[..i + 1], citations) == BibFold(xml, fs[..i], citations)
  {
    BibFoldSnoc(xml, fs, i, citations);
    var prev := BibFold(xml, fs[..i], citations);
    BibStepSkips(prev.0, xml[fs[i].start..fs[i].end], fs[i], citations);
    assert prev.1 + [] == prev.1;
  }

  /** A match whose citation is found under key `j` is restored when it is
      truncated and left alone otherwise. */
  lemma BibFoldKey(xml: string, fs: seq<Found>, i: nat, citations: map<string, string>, n: nat, j: nat)
    requires BibMatches(xml, fs) && i < |fs|
    requires BibNumber(fs[i].groups[0]) == Some(n) && FirstKey(CitationKeys(n), citations) == Some(j)
    ensures var prev := BibFold(xml, fs[..i], citations);
            var full := citations[CitationKeys(n)[j]];
            BibFold(xml, fs[..i + 1], citations)
            == if Truncated(fs[i].groups[1], full)
               then (ReplaceFirst(prev.0, xml[fs[i].start..fs[i].end], BibEntry(fs[i].groups[0], full)),
                     prev.1 + [BibFix(fs[i].groups[0], Preview(fs[i].groups[1]), Preview(full))])
               else prev
  {
    BibFoldSnoc(xml, fs, i, citations);
    var prev := BibFold(xml, fs[..i], citations);
    BibStepKey(prev.0, xml[fs[i].start..fs[i].end], fs[i], citations, n, j);
    assert prev.1 + [] == prev.1;
  }

  /** The citation an entry is compared with: the one under the first of
      its three keys that is present. */
  function KeyedCitation(f: Found, citations: map<string, string>): Option<string>
    requires |f.groups| == 2
  {
    match BibNumber(f.groups[0])
    case None => None
    case Some(n) =>
      match FirstKey(CitationKeys(n), citations)
      case None => None
      case Some(j) => Some(citations[CitationKeys(n)[j]])
  }

  /** The entry of `f` is restored. */
  predicate Restorable(f: Found, citations: map<string, string>)
    requires |f.groups| == 2
  {
    KeyedCitation(f, citations).Some? && Truncated(f.groups[1], KeyedCitation(f, citations).value)
  }

  /** Whether an entry is restored, as a value. */
  function RestorableWith(citations: map<string, string>): Found -> bool
  {
    (f: Found) => |f.groups| == 2 && Restorable(f, citations)
  }

  /** The record made for a restored entry. */
  function FixOf(f: Found, citations: map<string, string>): BibFix
    requires |f.groups| == 2 && Restorable(f, citations)
  {
    BibFix(f.groups[0], Preview(f.groups[1]), Preview(KeyedCitation(f, citations).value))
  }

  /** The last match adds its record exactly when its entry is restored,
      whatever the text rewritten so far. */
  lemma BibFoldRecordsSnoc(xml: string, fs: seq<Found>, citations: map<string, string>)
    requires BibMatches(xml, fs) && fs != []
    ensures var last := fs[|fs| - 1];
            BibFold(xml, fs, citations).1
            == BibFold(xml, fs[..|fs| - 1], citations).1 + if Restorable(last, citations) then [FixOf(last, citations)] else []
  {
    var prev := BibFold(xml, fs[..|fs| - 1], citations);
    var f := fs[|fs| - 1];
    BibStepRestores(prev.0, xml[f.start..f.end], f, citations);
    if !Restorable(f, citations) {
      assert prev.1 + [] == prev.1;
    }
  }

  /** The records of the loop are one per restored entry: there are as
      many as there are entries to restore... */
  lemma {:induction false} BibFoldRecordCount(xml: string, fs: seq<Found>, citations: map<string, string>)
    requires BibMatches(xml, fs)
    ensures |BibFold(xml, fs, citations).1| == |IndexSet(fs, RestorableWith(citations))|
  {
    if fs != [] {
      BibFoldRecordCount(xml, fs[..|fs| - 1], citations);
      BibFoldRecordsSnoc(xml, fs, citations);
      IndexSetSnoc(fs, RestorableWith(citations));
    }
  }

  /** ...each restored entry has its record... */
  lemma {:induction false} BibFoldRecordsRestored(xml: string, fs: seq<Found>, citations: map<string, string>)
    requires BibMatches(xml, fs)
    ensures forall k :: 0 <= k < |fs| && Restorable(fs[k], citations) ==> FixOf(fs[k], citations) in BibFold(xml, fs, citations).1
  {
    if fs != [] {
      var init := fs[..|fs| - 1];
      BibFoldRecordsRestored(xml, init, citations);
      BibFoldRecordsSnoc(xml, fs, citations);
      var last := |fs| - 1;
      var rs := BibFold(xml, fs, citations).1;
      var ps := BibFold(xml, init, citations).1;
      forall k | 0 <= k < |fs| && Restorable(fs[k], citations) ensures FixOf(fs[k], citations) in rs {
        if k < last {
          assert fs[k] == init[k];
          assert FixOf(init[k], citations) in ps;
        } else {
          assert k == last;
        }
      }
    }
  }

  /** ...and every record is that of a restored entry. */
  lemma {:induction false} BibFoldRecordsOnlyRestored(xml: string, fs: seq<Found>, citations: map<string, string>)
    requires BibMatches(xml, fs)
    ensures forall r :: r in BibFold(xml, fs, citations).1 ==>
              exists k :: 0 <= k < |fs| && Restorable(fs[k], citations) && r == FixOf(fs[k], citations)
  {
    if fs != [] {
      var init := fs[..|fs| - 1];
      var last := |fs| - 1;
      BibFoldRecordsOnlyRestored(xml, init, citations);
      BibFoldRecordsSnoc(xml, fs, citations);
      var rs := BibFold(xml, fs, citations).1;
      var ps := BibFold(xml, init, citations).1;
      forall r | r in rs ensures exists k :: 0 <= k < |fs| && Restorable(fs[k], citations) && r == FixOf(fs[k], citations) {
        if r in ps {
          var k :| 0 <= k < |init| && Restorable(init[k], citations) && r == FixOf(init[k], citations);
          assert fs[k] == init[k];
        } else {
          assert Restorable(fs[last], citations) && r == FixOf(fs[last], citations);
        }
      }
    }
  }

  /** The records keep previews, never whole entries: both texts of every
      record are at most 103 characters long. */
  lemma BibFoldRecordsShort(xml: string, fs: seq<Found>, citations: map<string, string>)
    requires BibMatches(xml, fs)
    ensures forall r :: r in BibFold(xml, fs, citations).1 ==> |r.original| <= 103 && |r.restored| <= 103
  {
    BibFoldRecordsOnlyRestored(xml, fs, citations);
  }

  lemma FirstKeyAt(keys: seq<string>, citations: map<string, string>, j: nat)
    requires j < |keys| && keys[j] in citations
    requires forall t :: 0 <= t < j ==> keys[t] !in citations
    ensures FirstKey(keys, citations) == Some(j)
  {
  }

  // ---------------------------------------------------------------------
  // fix_keywords_section

  /** The record of a keyword-section repair. */
  datatype SectionFix = SectionFix(original: string, keywords: seq<string>)

  /** `fix_keywords_section`: the first `<para>` holding an `@`, then a
      `.edu`, `.com` or `.org`, then a topic word is replaced, together with
      every identical copy of it, by the `<keywordset>` of `keywords`. */
  method FixKeywordsSection(xml: string, keywords: seq<string>) returns (out: string, fixesMade: seq<SectionFix>)
    ensures var m := SearchPara(xml, false, TopicContent, 0);
            (m.None? || keywords == []) ==> out == xml && fixesMade == []
    ensures var m := SearchPara(xml, false, TopicContent, 0);
            m.Some? && keywords != [] ==>
              && out == xml[..m.value.start] + KeywordSetXml(keywords)
                        + ReplaceAll(xml[m.value.end..], xml[m.value.start..m.value.end], KeywordSetXml(keywords))
              && fixesMade == [SectionFix(Preview(m.value.content), keywords)]
  {
    out := xml;
    fixesMade := [];
    var m := SearchPara(xml, false, TopicContent, 0);
    if m.Some? && keywords != [] {
      var garbledContent := m.value.content;
      var keywordsXml := BuildKeywordSet(keywords);
      var oldPara := xml[m.value.start..m.value.end];
      SearchParaIsFirstCopy(xml, false, TopicContent);
      ReplaceAllAt(xml, oldPara, keywordsXml, m.value.start);
      out := ReplaceAll(xml, oldPara, keywordsXml);
      fixesMade := fixesMade + [SectionFix(Preview(garbledContent), keywords)];
    }
  }

  // ---------------------------------------------------------------------
  // verify_indexterm_fixes

  /** One reported index term. */
  datatype IndextermIssue = IndextermIssue(file: string, text: string, context: string)

  /** `text\s*full` occurs somewhere in `content`. */
  predicate FollowsText(content: string, text: string, full: string)
  {
    exists i: nat, w: nat :: i + |text| <= w <= |content| && OccursAt(content, text, i)
      && AllSpace(content[i + |text|..w]) && OccursAt(content, full, w)
  }

  /** Where a `<para[^>]*>` that starts at `i` ends. */
  function ParaOpenEnd(content: string, i: nat): Option<nat>
    requires i <= |content|
  {
    if !OccursAt(content, "<para", i) then None
    else
      var q := Upto(content, i + 5, '>');
      if q < |content| then Some(q + 1) else None
  }

  /** `<para[^>]*>\s*text\s*head` occurs somewhere in `content`. */
  predicate StartsPara(content: string, text: string, head: string)
  {
    exists i: nat, w1: nat, w2: nat ::
      && i <= |content| && ParaOpenEnd(content, i).Some?
      && ParaOpenEnd(content, i).value <= w1 && w1 + |text| <= w2 <= |content|
      && AllSpace(content[ParaOpenEnd(content, i).value..w1]) && OccursAt(content, text, w1)
      && AllSpace(content[w1 + |text|..w2]) && OccursAt(content, head, w2)
  }

  /** An index-term match is reported when its text neither runs straight
      into the term nor opens the paragraph the term is in. */
  predicate Flagged(content: string, f: Found)
    requires f.start <= f.end <= |content| && |f.groups| == 1
  {
    var full := content[f.start..f.end];
    && !FollowsText(content, f.groups[0], full)
    && !StartsPara(content, f.groups[0], full[..if |full| < 20 then |full| else 20])
  }

  /** The at most 50 characters before the match. */
  function Context(content: string, start: nat): (r: string)
    requires start <= |content|
    ensures |r| == (if start < 50 then start else 50)
    ensures r == content[start - |r|..start]
  {
    content[if start < 50 then 0 else start - 50..start]
  }

  predicate TermMatches(content: string, fs: seq<Found>)
  {
    forall k :: 0 <= k < |fs| ==> fs[k].start <= fs[k].end <= |content| && |fs[k].groups| == 1
  }

  /** The issues reported for the matches `fs`, in order. */
  function Issues(file: string, content: string, fs: seq<Found>): seq<IndextermIssue>
    requires TermMatches(content, fs)
  {
    if fs == [] then []
    else
      var f := fs[|fs| - 1];
      Issues(file, content, fs[..|fs| - 1])
      + (if Flagged(content, f) then [IndextermIssue(file, f.groups[0], Context(content, f.start))] else [])
  }

  /** A match is reported exactly when it is flagged, and every report is of
      a flagged match, with its text and the context before it. */
  lemma {:induction false} IssuesSpec(file: string, content: string, fs: seq<Found>)
    requires TermMatches(content, fs)
    ensures forall k :: 0 <= k < |fs| && Flagged(content, fs[k]) ==>
              IndextermIssue(file, fs[k].groups[0], Context(content, fs[k].start)) in Issues(file, content, fs)
    ensures forall x :: x in Issues(file, content, fs) ==>
              exists k :: 0 <= k < |fs| && Flagged(content, fs[k])
                          && x == IndextermIssue(file, fs[k].groups[0], Context(content, fs[k].start))
  {
    if fs != [] {
      var init := fs[..|fs| - 1];
      IssuesSpec(file, content, init);
      forall k | 0 <= k < |fs| - 1 ensures fs[k] == init[k] { }
    }
  }

  /** An index term whose text stands right before it is never reported. */
  lemma TextBeforeTermNotFlagged(content: string, f: Found)
    requires f.start <= f.end <= |content| && |f.groups| == 1
    requires |f.groups[0]| <= f.start && content[f.start - |f.groups[0]|..f.start] == f.groups[0]
    ensures !Flagged(content, f)
  {
    var i := f.start - |f.groups[0]|;
    assert OccursAt(content, f.groups[0], i);
    assert content[i + |f.groups[0]|..f.start] == [];
    assert OccursAt(content, content[f.start..f.end], f.start);
  }

  /** The issues for one more match. */
  lemma IssuesSnoc(file: string, content: string, fs: seq<Found>, i: nat)
    requires TermMatches(content, fs) && i < |fs|
    ensures Issues(file, content, fs[..i + 1]) == Issues(file, content, fs[..i])
              + (if Flagged(content, fs[i]) then [IndextermIssue(file, fs[i].groups[0], Context(content, fs[i].start))] else [])
  {
    assert fs[..i + 1][..i] == fs[..i];
  }

  /** The loop of `verify_indexterm_fixes` over the matches `fs`. */
  method ReportIssues(file: string, content: string, fs: seq<Found>) returns (issues: seq<IndextermIssue>)
    requires TermMatches(content, fs)
    ensures issues == Issues(file, content, fs)
    ensures forall k :: 0 <= k < |issues| ==> |issues[k].context| <= 50
  {
    issues := [];
    for i := 0 to |fs|
      invariant issues == Issues(file, content, fs[..i])
      invariant forall k :: 0 <= k < |issues| ==> |issues[k].context| <= 50
    {
      IssuesSnoc(file, content, fs, i);
      var indextermText := fs[i].groups[0];
      var fullMatch := content[fs[i].start..fs[i].end];
      var head := fullMatch[..if |fullMatch| < 20 then |fullMatch| else 20];
      var flagged := !FollowsText(content, indextermText, fullMatch) && !StartsPara(content, indextermText, head);
      assert flagged == Flagged(content, fs[i]);
      if flagged {
        var issue := IndextermIssue(file, indextermText, Context(content, fs[i].start));
        assert |issue.context| <= 50;
        issues := issues + [issue];
      }
    }
    assert fs[..|fs|] == fs;
  }

  /** `verify_indexterm_fixes` on one document: it reports and writes
      nothing back. */
  method VerifyIndexterms(file: string, content: string) returns (issues: seq<IndextermIssue>)
    ensures issues == Issues(file, content, FindAll(IndexTerm, content))
    ensures forall k :: 0 <= k < |issues| ==> |issues[k].context| <= 50
  {
    var matches := FindAll(IndexTerm, content);
    issues := ReportIssues(file, content, matches);
  }
}
