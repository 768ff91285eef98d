/// fix_remaining_bibliography.py: citations keyed by their integer number,
/// restoring truncated `<bibliomixed>` entries with a count of the fixes,
/// and choosing the XHTML chapter from the `<chaptertitle>` number.
module RemainingBibliography {
  import opened Text
  import opened HtmlEscape
  import opened Numerals
  import opened Patterns
  import opened Fragments

  // ---------------------------------------------------------------------
  // extract_citations_from_xhtml

  /** The `(number, cleaned body)` pair of each match; the number is
      missing when the id has none after `CR`. */
  function KeyedCitations(fs: seq<Found>): (ps: seq<(Option<nat>, string)>)
    requires forall k :: 0 <= k < |fs| ==> |fs[k].groups| == 2
    ensures |ps| == |fs|
    ensures forall k :: 0 <= k < |fs| ==> ps[k] == (TaggedNumber(fs[k].groups[0], "CR"), CleanCitation(fs[k].groups[1]))
  {
    seq(|fs|, k requires 0 <= k < |fs| => (TaggedNumber(fs[k].groups[0], "CR"), CleanCitation(fs[k].groups[1])))
  }

  /** The citations of the matches `fs`, keyed by the number after `CR`:
      later numbers overwrite earlier ones, matches without one are passed
      over. */
  function NumberedCitations(fs: seq<Found>): map<nat, string>
    requires forall k :: 0 <= k < |fs| ==> |fs[k].groups| == 2
  {
    AssignedSome(KeyedCitations(fs))
  }

  /** The number of a citation id `CR<digits>` is the value of its digits. */
  lemma CitationIdNumber(id: string)
    requires CitationId(id)
    ensures TaggedNumber(id, "CR") == Some(CitationNumber(id))
  {
    assert id == [] + "CR" + id[2..] + [];
    TaggedNumberOf([], "CR", id[2..], []);
  }

  /** The `(number, cleaned body)` pairs of citation matches. */
  function NumberedPairs(fs: seq<Found>): (ps: seq<(nat, string)>)
    requires forall k :: 0 <= k < |fs| ==> |fs[k].groups| == 2 && CitationId(fs[k].groups[0])
    ensures |ps| == |fs|
    ensures forall k :: 0 <= k < |fs| ==> ps[k] == (CitationNumber(fs[k].groups[0]), CleanCitation(fs[k].groups[1]))
  {
    seq(|fs|, k requires 0 <= k < |fs| => (CitationNumber(fs[k].groups[0]), CleanCitation(fs[k].groups[1])))
  }

  /** When every id is `CR<digits>`, the citations are the assignments
      `citations[int(digits)] = clean` made in order. */
  lemma NumberedCitationsAssigned(fs: seq<Found>)
    requires forall k :: 0 <= k < |fs| ==> |fs[k].groups| == 2 && CitationId(fs[k].groups[0])
    ensures NumberedCitations(fs) == Assigned(NumberedPairs(fs))
  {
    forall k | 0 <= k < |fs| ensures TaggedNumber(fs[k].groups[0], "CR") == Some(CitationNumber(fs[k].groups[0])) {
      CitationIdNumber(fs[k].groups[0]);
    }
    AssignedSomeAll(KeyedCitations(fs), NumberedPairs(fs));
  }

  /** A number is present exactly when some citation id has it, and it holds
      the cleaned body of the last such citation. */
  lemma NumberedCitationsLastWins(fs: seq<Found>, n: nat)
    requires forall k :: 0 <= k < |fs| ==> |fs[k].groups| == 2 && CitationId(fs[k].groups[0])
    ensures n in NumberedCitations(fs) <==> exists k :: 0 <= k < |fs| && CitationNumber(fs[k].groups[0]) == n
    ensures n in NumberedCitations(fs) ==>
              exists k :: 0 <= k < |fs| && CitationNumber(fs[k].groups[0]) == n
                          && NumberedCitations(fs)[n] == CleanCitation(fs[k].groups[1])
                          && forall j :: k < j < |fs| ==> CitationNumber(fs[j].groups[0]) != n
  {
    NumberedCitationsAssigned(fs);
    NumberedPairsLastWins(fs, NumberedPairs(fs), n);
  }

  /** `AssignedLastWins` read back through the pairs of the citations. */
  lemma NumberedPairsLastWins(fs: seq<Found>, ps: seq<(nat, string)>, n: nat)
    requires forall k :: 0 <= k < |fs| ==> |fs[k].groups| == 2 && CitationId(fs[k].groups[0])
    requires ps == NumberedPairs(fs)
    ensures n in Assigned(ps) <==> exists k :: 0 <= k < |fs| && CitationNumber(fs[k].groups[0]) == n
    ensures n in Assigned(ps) ==>
              exists k :: 0 <= k < |fs| && CitationNumber(fs[k].groups[0]) == n
                          && Assigned(ps)[n] == CleanCitation(fs[k].groups[1])
                          && forall j :: k < j < |fs| ==> CitationNumber(fs[j].groups[0]) != n
  {
    var m := Assigned(ps);
    AssignedLastWins(ps, n);
    if n in m {
      var k :| 0 <= k < |ps| && ps[k].0 == n && m[n] == ps[k].1 && forall j :: k < j < |ps| ==> ps[j].0 != n;
      assert CitationNumber(fs[k].groups[0]) == n && m[n] == CleanCitation(fs[k].groups[1]);
      forall j | k < j < |fs| ensures CitationNumber(fs[j].groups[0]) != n {
        assert ps[j].0 != n;
      }
    } else {
      forall k | 0 <= k < |fs| ensures CitationNumber(fs[k].groups[0]) != n {
        assert ps[k].0 != n;
      }
    }
  }

  lemma PaddedIdNumbers()
    ensures TaggedNumber("CR07", "CR") == Some(7) && TaggedNumber("CR7", "CR") == Some(7)
  {
    assert CitationId("CR07") && CitationId("CR7");
    CitationIdNumber("CR07");
    CitationIdNumber("CR7");
    assert "CR07"[2..] == "07" && "07"[..1] == "0" && "0"[..0] == [];
    assert "CR7"[2..] == "7" && "7"[..0] == [];
  }

  /** `CR07` and `CR7` are both citation 7: the later one is kept. */
  lemma PaddedIdsCollide(a: Found, b: Found)
    requires |a.groups| == 2 && a.groups[0] == "CR07"
    requires |b.groups| == 2 && b.groups[0] == "CR7"
    ensures NumberedCitations([a, b]) == map[7 := CleanCitation(b.groups[1])]
  {
    PaddedIdNumbers();
    var ps := KeyedCitations([a, b]);
    assert ps[0].0 == Some(7) && ps[1].0 == Some(7);
    AssignedSomeOverwrite(ps, 7);
  }

  lemma AssignedSomeOverwrite(ps: seq<(Option<nat>, string)>, n: nat)
    requires |ps| == 2 && ps[0].0 == Some(n) && ps[1].0 == Some(n)
    ensures AssignedSome(ps) == map[n := ps[1].1]
  {
    assert ps[..1] == [ps[0]] && ps[..1][..0] == [];
    assert AssignedSome(ps[..1]) == map[n := ps[0].1];
    assert AssignedSome(ps) == map[n := ps[0].1][n := ps[1].1];
  }

  /** The citations of a chapter's XHTML text. */
  function ChapterCitations(content: string): map<nat, string>
  {
    NumberedCitations(FindAll(CitationDiv, content))
  }

  /** `extract_citations_from_xhtml` on the text of a chapter. */
  method ExtractCitationsFromXhtml(content: string) returns (citations: map<nat, string>)
    ensures citations == ChapterCitations(content)
    ensures forall n :: n in citations ==> Normalized(citations[n])
  {
    citations := map[];
    var matches := FindAll(CitationDiv, content);
    ghost var keyed := KeyedCitations(matches);
    for i := 0 to |matches|
      invariant citations == AssignedSome(keyed[..i])
      invariant forall n :: n in citations ==> Normalized(citations[n])
    {
      assert keyed[..i + 1][..i] == keyed[..i];
      var citId := matches[i].groups[0];
      var cleanContent := CleanCitation(matches[i].groups[1]);
      var citNum := TaggedNumber(citId, "CR");
      if citNum.Some? {
        citations := citations[citNum.value := cleanContent];
      }
    }
    assert keyed[..|matches|] == keyed;
  }

  // ---------------------------------------------------------------------
  // fix_bibliography_file

  /** A document after some entries were restored, with their number. */
  datatype Patched = Patched(content: string, fixes: nat)

  /** What one `<bibliomixed>` match of the original text does to the text
      and to the count of fixes. `oldEntry` is the matched entry. */
  function FileStep(content: string, oldEntry: string, f: Found, citations: map<nat, string>): (r: Patched)
    requires |f.groups| == 2
    ensures r.fixes <= 1
    ensures r.fixes == 0 ==> r.content == content
  {
    match BibNumber(f.groups[0])
    case None => Patched(content, 0)
    case Some(n) =>
      if n in citations && Truncated(Strip(f.groups[1]), citations[n])
      then Patched(ReplaceFirst(content, oldEntry, BibEntry(f.groups[0], citations[n])), 1)
      else Patched(content, 0)
  }

  /** The loop of `fix_bibliography_file` over the matches `fs` of `xml`. */
  function FileFold(xml: string, fs: seq<Found>, citations: map<nat, string>): (r: Patched)
    requires forall k :: 0 <= k < |fs| ==> |fs[k].groups| == 2 && fs[k].start <= fs[k].end <= |xml|
    ensures r.fixes <= |fs|
    ensures r.fixes == 0 ==> r.content == xml
  {
    if fs == [] then Patched(xml, 0)
    else
      var prev := FileFold(xml, fs[..|fs| - 1], citations);
      var f := fs[|fs| - 1];
      var step := FileStep(prev.content, xml[f.start..f.end], f, citations);
      Patched(step.content, prev.fixes + step.fixes)
  }

  /** A document with its truncated entries restored. */
  function FixedBibliography(xml: string, citations: map<nat, string>): Patched
  {
    FileFold(xml, FindAll(BiblioMixed, xml), citations)
  }

  /** An entry is rewritten exactly when its id ends in `bib<digits>`, that
      number has a citation, and the stripped text is shorter than 70% of
      it; the rewrite keeps the id, escapes the citation and replaces only
      the first copy of the entry. */
  lemma FileStepRewrites(content: string, oldEntry: string, f: Found, citations: map<nat, string>)
    requires |f.groups| == 2
    ensures var n := BibNumber(f.groups[0]);
            FileStep(content, oldEntry, f, citations)
            == if n.Some? && n.value in citations && Truncated(Strip(f.groups[1]), citations[n.value])
               then Patched(ReplaceFirst(content, oldEntry, BibEntry(f.groups[0], citations[n.value])), 1)
               else Patched(content, 0)
  {
  }

  /** A rewritten entry is not truncated any more: with a normalized
      citation, its stripped escaped text is at least as long as the
      citation. */
  lemma RewrittenEntryComplete(full: string)
    requires Normalized(full)
    ensures !Truncated(Strip(Escape(full)), full)
  {
    EscapeNormalized(full);
    StripNoEdge(Escape(full));
  }

  /** One more match of the loop. */
  lemma FileFoldSnoc(xml: string, fs: seq<Found>, i: nat, citations: map<nat, string>)
    requires forall k :: 0 <= k < |fs| ==> |fs[k].groups| == 2 && fs[k].start <= fs[k].end <= |xml|
    requires i < |fs|
    ensures var prev := FileFold(xml, fs[..i], citations);
            var step := FileStep(prev.content, xml[fs[i].start..fs[i].end], fs[i], citations);
            FileFold(xml, fs[..i + 1], citations) == Patched(step.content, prev.fixes + step.fixes)
  {
    assert fs[..i + 1][..i] == fs[..i];
  }

  /** The entry of `f` is rewritten. */
  predicate Restores(f: Found, citations: map<nat, string>)
    requires |f.groups| == 2
  {
    var n := BibNumber(f.groups[0]);
    n.Some? && n.value in citations && Truncated(Strip(f.groups[1]), citations[n.value])
  }

  lemma FileFoldKeep(xml: string, fs: seq<Found>, i: nat, citations: map<nat, string>)
    requires forall k :: 0 <= k < |fs| ==> |fs[k].groups| == 2 && fs[k].start <= fs[k].end <= |xml|
    requires i < |fs| && !Restores(fs[i], citations)
    ensures FileFold(xml, fs[..i + 1], citations) == FileFold(xml, fs[..i], citations)
  {
    FileFoldSnoc(xml, fs, i, citations);
    var prev := FileFold(xml, fs[..i], citations);
    FileStepRewrites(prev.content, xml[fs[i].start..fs[i].end], fs[i], citations);
  }

  lemma FileFoldRestore(xml: string, fs: seq<Found>, i: nat, citations: map<nat, string>)
    requires forall k :: 0 <= k < |fs| ==> |fs[k].groups| == 2 && fs[k].start <= fs[k].end <= |xml|
    requires i < |fs| && Restores(fs[i], citations)
    ensures var prev := FileFold(xml, fs[..i], citations);
            var full := citations[BibNumber(fs[i].groups[0]).value];
            && FileFold(xml, fs[..i + 1], citations).content
               == ReplaceFirst(prev.content, xml[fs[i].start..fs[i].end], BibEntry(fs[i].groups[0], full))
            && FileFold(xml, fs[..i + 1], citations).fixes == prev.fixes + 1
  {
    FileFoldSnoc(xml, fs, i, citations);
    var prev := FileFold(xml, fs[..i], citations);
    var oldEntry := xml[fs[i].start..fs[i].end];
    var full := citations[BibNumber(fs[i].groups[0]).value];
    FileStepRewrites(prev.content, oldEntry, fs[i], citations);
  }

  /** Whether a match's entry is rewritten, as a value. */
  function RestoresWith(citations: map<nat, string>): Found -> bool
  {
    (f: Found) => |f.groups| == 2 && Restores(f, citations)
  }

  /** The matches of `fs` whose entries are rewritten, by index. */
  function RestoredAt(fs: seq<Found>, citations: map<nat, string>): set<nat>
  {
    IndexSet(fs, RestoresWith(citations))
  }

  /** The count of fixes is the number of entries whose id ends in
      `bib<digits>`, whose number has a citation, and whose stripped text is
      shorter than 70% of it. */
  lemma {:induction false} FileFoldCount(xml: string, fs: seq<Found>, citations: map<nat, string>)
    requires forall k :: 0 <= k < |fs| ==> |fs[k].groups| == 2 && fs[k].start <= fs[k].end <= |xml|
    ensures FileFold(xml, fs, citations).fixes == |RestoredAt(fs, citations)|
  {
    if fs != [] {
      var last := |fs| - 1;
      FileFoldCount(xml, fs[..last], citations);
      FileFoldFixes(xml, fs, citations);
      IndexSetSnoc(fs, RestoresWith(citations));
    }
  }

  /** The last match adds one fix exactly when its entry is rewritten. */
  lemma FileFoldFixes(xml: string, fs: seq<Found>, citations: map<nat, string>)
    requires forall k :: 0 <= k < |fs| ==> |fs[k].groups| == 2 && fs[k].start <= fs[k].end <= |xml|
    requires fs != []
    ensures FileFold(xml, fs, citations).fixes
            == FileFold(xml, fs[..|fs| - 1], citations).fixes + if Restores(fs[|fs| - 1], citations) then 1 else 0
  {
    var prev := FileFold(xml, fs[..|fs| - 1], citations);
    var f := fs[|fs| - 1];
    FileStepRewrites(prev.content, xml[f.start..f.end], f, citations);
  }

  /** `fix_bibliography_file` on the text of a document: the new text, the
      number of fixes, and the text written back, which exists exactly when
      some entry was fixed. */
  method FixBibliographyFile(xml: string, citations: map<nat, string>)
    returns (content: string, fixesMade: nat, written: Option<string>)
    ensures Patched(content, fixesMade) == FixedBibliography(xml, citations)
    ensures written.Some? <==> fixesMade > 0
    ensures written.Some? ==> written.value == content
    ensures written.None? ==> content == xml
  {
    content := xml;
    fixesMade := 0;
    var matches := FindAll(BiblioMixed, xml);
    for i := 0 to |matches|
      invariant Patched(content, fixesMade) == FileFold(xml, matches[..i], citations)
    {
      var bibId := matches[i].groups[0];
      var currentContent := matches[i].groups[1];
      var bibNum := BibNumber(bibId);
      if bibNum.None? {
        FileFoldKeep(xml, matches, i, citations);
        continue;
      }
      if bibNum.value in citations {
        var fullCitation := citations[bibNum.value];
        if Truncated(Strip(currentContent), fullCitation) {
          FileFoldRestore(xml, matches, i, citations);
          var oldEntry := xml[matches[i].start..matches[i].end];
          var newEntry := BibEntry(bibId, fullCitation);
          content := ReplaceFirst(content, oldEntry, newEntry);
          fixesMade := fixesMade + 1;
        } else {
          FileFoldKeep(xml, matches, i, citations);
        }
      } else {
        FileFoldKeep(xml, matches, i, citations);
      }
    }
    assert matches[..|matches|] == matches;
    written := if fixesMade > 0 then Some(content) else None;
  }

  // ---------------------------------------------------------------------
  // The per-document step of main

  /** `get_xhtml_file_for_chapter` applied to the `<chaptertitle>N.` number
      of a document: N is used as it is. */
  function XhtmlForBibliography(content: string, xhtml: seq<File>): (r: Option<File>)
    ensures r.Some? ==> r.value in xhtml && ChapterTitleNumber(content).Some?
    ensures r.Some? ==> XhtmlChapterNumber(r.value.name) == ChapterTitleNumber(content)
  {
    match ChapterTitleNumber(content)
    case None => None
    case Some(n) =>
      if ChapterFile(xhtml, n).Some? then
        ChapterFileNumber(xhtml, n);
        ChapterFile(xhtml, n)
      else None
  }

  /** A document whose title reads `<chaptertitle>n.` takes its citations
      from the file named `..._n_Chapter.xhtml`, with no offset. */
  lemma TitleNumberUsedDirectly(prefix: string, n: nat, rest: string, xhtml: seq<File>)
    requires forall j: nat :: j < |prefix| ==> prefix[j] != '<'
    ensures XhtmlForBibliography(prefix + ChapterTitleTag + NatToDigits(n) + "." + rest, xhtml) == ChapterFile(xhtml, n)
  {
    ChapterTitleNumberOf(prefix, n, rest);
  }

  /** What `main` does with one document: nothing unless it holds a
      bibliography, has a chapter title number, has a matching XHTML file
      and that file has citations; otherwise the result of
      `fix_bibliography_file`. */
  method FixDocument(content: string, xhtml: seq<File>) returns (written: Option<string>, fixes: nat)
    ensures written.Some? ==> fixes > 0 && XhtmlForBibliography(content, xhtml).Some?
    ensures written.Some? ==>
              var citations := ChapterCitations(XhtmlForBibliography(content, xhtml).value.content);
              citations != map[] && Patched(written.value, fixes) == FixedBibliography(content, citations)
    ensures !Contains(content, "<bibliography") && !Contains(content, "<bibliomixed") ==> written.None? && fixes == 0
    ensures XhtmlForBibliography(content, xhtml).None? ==> written.None? && fixes == 0
    ensures (Contains(content, "<bibliography") || Contains(content, "<bibliomixed"))
            && XhtmlForBibliography(content, xhtml).Some? ==>
              var citations := ChapterCitations(XhtmlForBibliography(content, xhtml).value.content);
              var p := FixedBibliography(content, citations);
              && (citations == map[] ==> written.None? && fixes == 0)
              && (citations != map[] ==>
                    && fixes == p.fixes && (written.Some? <==> p.fixes > 0)
                    && (written.Some? ==> written.value == p.content))
  {
    written := None;
    fixes := 0;
    if !Contains(content, "<bibliography") && !Contains(content, "<bibliomixed") {
      return;
    }
    var xhtmlFile := XhtmlForBibliography(content, xhtml);
    if xhtmlFile.None? {
      return;
    }
    var citations := ExtractCitationsFromXhtml(xhtmlFile.value.content);
    if citations == map[] {
      return;
    }
    var fixed;
    fixed, fixes, written := FixBibliographyFile(content, citations);
  }
}
