/// fix_all_keywords.py: one pass over every XML document of a book. A
/// document with an `@` and no `<keywordset>` yet is searched with two para
/// patterns in priority order, and the first match whose chapter has XHTML
/// keywords is replaced by a `<keywordset>`.
module AllKeywords {
  import opened Text
  import opened Patterns
  import opened Fragments
  import opened Keywords

  // ---------------------------------------------------------------------
  // The patterns, in priority order

  /** The two entries of `garbled_patterns`. */
  datatype Rule = Full | Simple

  /** What each rule asks of a para's text. */
  function RuleContent(r: Rule): string -> bool
  {
    match r
    case Full => FullContent
    case Simple => SimpleContent
  }

  const Rules: seq<Rule> := [Full, Simple]

  /** `re.search(pattern, content, re.IGNORECASE)` for one rule. */
  function RuleMatch(c: string, r: Rule): Option<ParaMatch>
  {
    SearchPara(c, true, RuleContent(r), 0)
  }

  /** The match of the first rule of `rs` that matches anywhere in `c`. */
  function FirstMatch(c: string, rs: seq<Rule>): (r: Option<ParaMatch>)
    ensures r.Some? ==> r.value.start + 13 <= r.value.end <= |c|
    decreases |rs|
  {
    if rs == [] then None
    else match RuleMatch(c, rs[0])
      case Some(m) => Some(m)
      case None => FirstMatch(c, rs[1..])
  }

  // ---------------------------------------------------------------------
  // What one document becomes

  const KeywordSetTag := "<keywordset>"

  /** `'@' not in content` or `'<keywordset>' in content`: the document is
      passed over before any pattern is tried. */
  predicate Skipped(content: string)
  {
    !Contains(content, "@") || Contains(content, KeywordSetTag)
  }

  /** The XHTML file for the chapter in the name, looked up two chapters
      down; chapter 0 or 1 looks for a file of chapter -2 or -1. */
  function SourceFile(name: string, xhtml: seq<File>): (r: Option<File>)
    ensures r.Some? ==> r.value in xhtml && XmlChapterNumber(name).Some?
  {
    match XmlChapterNumber(name)
    case None => None
    case Some(n) => XhtmlChapterFile(xhtml, n)
  }

  /** The keywords of the document's XHTML chapter; none when the name has
      no chapter or no XHTML file has that chapter. An empty list passes
      over every rule that matches, for the same reason each time. */
  function ChapterKeywords(name: string, xhtml: seq<File>): seq<string>
  {
    match SourceFile(name, xhtml)
    case None => []
    case Some(src) => ExtractKeywords(src.content)
  }

  /** `match.group(0)[:n]`. */
  function Clip(s: string, n: nat): (r: string)
    ensures |r| == (if |s| <= n then |s| else n)
    ensures r == s[..|r|]
  {
    if |s| <= n then s else s[..n]
  }

  /** A rewrite: the document's new text and the record of it. */
  datatype Rewrite = Rewrite(content: string, fix: KeywordFix)

  /** The match `m` replaced by the keywords `ks`, and its record. */
  function RewriteWith(f: File, m: ParaMatch, ks: seq<string>): Rewrite
    requires m.start <= m.end <= |f.content|
  {
    Rewrite(WithKeywordSet(f.content, m, ks), KeywordFix(f.name, Clip(f.content[m.start..m.end], 100), ks))
  }

  /** What one pass does to a document, as a single decision: skipped, or
      the first rule's match replaced by the keywords of its chapter. */
  function FileRewrite(f: File, xhtml: seq<File>): Option<Rewrite>
  {
    if Skipped(f.content) then None
    else match FirstMatch(f.content, Rules)
      case None => None
      case Some(m) =>
        var ks := ChapterKeywords(f.name, xhtml);
        if ks == [] then None else Some(RewriteWith(f, m, ks))
  }

  /** A document with a rewrite applied, or as it was. */
  function Updated(f: File, r: Option<Rewrite>): File
  {
    match r
    case None => f
    case Some(w) => File(f.name, w.content)
  }

  /** The record of a rewrite, if there is one. */
  function Recorded(r: Option<Rewrite>): seq<KeywordFix>
  {
    match r
    case None => []
    case Some(w) => [w.fix]
  }

  /** The document after the pass. */
  function Rewritten(f: File, xhtml: seq<File>): File
  {
    Updated(f, FileRewrite(f, xhtml))
  }

  // ---------------------------------------------------------------------
  // The body of the loop over files

  /** The inner loop over `garbled_patterns` for one document, with its
      `continue`s on a missing chapter, XHTML file or keyword list and its
      `break` after a rewrite, is the single decision `FileRewrite`. */
  method FixFile(f: File, xhtml: seq<File>) returns (newContent: Option<string>, fix: Option<KeywordFix>)
    ensures match FileRewrite(f, xhtml)
            case None => newContent.None? && fix.None?
            case Some(r) => newContent == Some(r.content) && fix == Some(r.fix)
  {
    newContent, fix := None, None;
    if !Contains(f.content, "@") {
      FileRewriteNone(f, xhtml);
      return;
    }
    if Contains(f.content, KeywordSetTag) {
      FileRewriteNone(f, xhtml);
      return;
    }
    for i := 0 to |Rules|
      invariant newContent.None? && fix.None?
      invariant FirstMatch(f.content, Rules) == FirstMatch(f.content, Rules[i..]) || ChapterKeywords(f.name, xhtml) == []
    {
      var m := SearchPara(f.content, true, RuleContent(Rules[i]), 0);
      FirstMatchHead(f.content, Rules[i..]);
      assert Rules[i..][1..] == Rules[i + 1..];
      if m.None? {
        continue;
      }
      var chMatch := XmlChapterNumber(f.name);
      if chMatch.None? {
        continue;
      }
      var xhtmlFile := XhtmlChapterFile(xhtml, chMatch.value);
      if xhtmlFile.None? {
        continue;
      }
      var keywords := ExtractKeywords(xhtmlFile.value.content);
      if keywords == [] {
        continue;
      }
      var keywordsXml := BuildKeywordSet(keywords);
      var oldPara := f.content[m.value.start..m.value.end];
      ReplaceSearchedPara(f.content, true, RuleContent(Rules[i]), keywordsXml);
      newContent := Some(ReplaceFirst(f.content, oldPara, keywordsXml));
      fix := Some(KeywordFix(f.name, Clip(oldPara, 100), keywords));
      FileRewriteSome(f, xhtml, m.value);
      break;
    }
    if newContent.None? {
      assert Rules[|Rules|..] == [];
      FileRewriteNone(f, xhtml);
    }
  }

  /** The first rule's match, or the rest's. */
  lemma FirstMatchHead(c: string, rs: seq<Rule>)
    requires rs != []
    ensures FirstMatch(c, rs) == if RuleMatch(c, rs[0]).Some? then RuleMatch(c, rs[0]) else FirstMatch(c, rs[1..])
  {
  }

  /** The cases in which a pass leaves a document alone. */
  lemma FileRewriteNone(f: File, xhtml: seq<File>)
    requires Skipped(f.content) || FirstMatch(f.content, Rules).None? || ChapterKeywords(f.name, xhtml) == []
    ensures FileRewrite(f, xhtml).None?
  {
  }

  /** The rewrite of a document the pass changes. */
  lemma FileRewriteSome(f: File, xhtml: seq<File>, m: ParaMatch)
    requires !Skipped(f.content) && FirstMatch(f.content, Rules) == Some(m) && ChapterKeywords(f.name, xhtml) != []
    ensures FileRewrite(f, xhtml) == Some(RewriteWith(f, m, ChapterKeywords(f.name, xhtml)))
  {
  }

  // ---------------------------------------------------------------------
  // fix_all_garbled_keywords

  /** The pass over a directory for any per-document decision `step`: the
      documents, each with its rewrite applied, and the records, in order. */
  function DirectoryBy(xml: seq<File>, step: File -> Option<Rewrite>): (out: seq<File>)
    ensures |out| == |xml|
  {
    seq(|xml|, i requires 0 <= i < |xml| => Updated(xml[i], step(xml[i])))
  }

  function FixesBy(xml: seq<File>, step: File -> Option<Rewrite>): seq<KeywordFix>
  {
    if xml == [] then [] else FixesBy(xml[..|xml| - 1], step) + Recorded(step(xml[|xml| - 1]))
  }

  /** One more document: its new text and its record are appended. */
  lemma PassStep(xml: seq<File>, i: nat, step: File -> Option<Rewrite>)
    requires i < |xml|
    ensures DirectoryBy(xml[..i + 1], step) == DirectoryBy(xml[..i], step) + [Updated(xml[i], step(xml[i]))]
    ensures FixesBy(xml[..i + 1], step) == FixesBy(xml[..i], step) + Recorded(step(xml[i]))
  {
    assert xml[..i + 1][..i] == xml[..i];
  }

  /** The decision of this pass, as a value. */
  function Step(xhtml: seq<File>): File -> Option<Rewrite>
  {
    f => FileRewrite(f, xhtml)
  }

  /** The directory after the pass, file by file in sorted order. */
  function Directory(xml: seq<File>, xhtml: seq<File>): seq<File>
  {
    DirectoryBy(xml, Step(xhtml))
  }

  /** The fixes of the pass, one per rewritten document, in file order. */
  function FixesOf(xml: seq<File>, xhtml: seq<File>): seq<KeywordFix>
  {
    FixesBy(xml, Step(xhtml))
  }

  /** The loop over the XML files: each document is rewritten or kept, and
      a record is appended for each one rewritten. */
  method FixAllGarbledKeywords(xml: seq<File>, xhtml: seq<File>) returns (out: seq<File>, fixes: seq<KeywordFix>)
    ensures out == Directory(xml, xhtml)
    ensures fixes == FixesOf(xml, xhtml)
  {
    ghost var step := Step(xhtml);
    out, fixes := [], [];
    for i := 0 to |xml|
      invariant out == DirectoryBy(xml[..i], step)
      invariant fixes == FixesBy(xml[..i], step)
    {
      var f := xml[i];
      var newContent, fix := FixFile(f, xhtml);
      PassStep(xml, i, step);
      assert step(f) == FileRewrite(f, xhtml);
      if newContent.Some? {
        out := out + [File(f.name, newContent.value)];
        fixes := fixes + [fix.value];
      } else {
        out := out + [f];
      }
    }
    assert xml[..|xml|] == xml;
  }

  // ---------------------------------------------------------------------
  // Properties

  /** A skipped document is never modified and gives no record. */
  lemma SkippedUnchanged(f: File, xhtml: seq<File>)
    requires Skipped(f.content)
    ensures Rewritten(f, xhtml) == f && FileRewrite(f, xhtml).None?
  {
  }

  /** The inserted block puts `<keywordset>` in the document. */
  lemma WithKeywordSetHasTag(content: string, m: ParaMatch, ks: seq<string>)
    requires m.start <= m.end <= |content|
    ensures Contains(WithKeywordSet(content, m, ks), KeywordSetTag)
  {
    var out := WithKeywordSet(content, m, ks);
    KeywordSetXmlHasTag(ks);
    assert out[m.start..m.start + 12] == KeywordSetXml(ks)[..12];
    assert OccursAt(out, KeywordSetTag, m.start);
  }

  /** After the pass no document is rewritten again: a rewritten one now
      holds `<keywordset>`, and a kept one is as it was. */
  lemma RewrittenIsFinal(f: File, xhtml: seq<File>)
    ensures FileRewrite(Rewritten(f, xhtml), xhtml).None?
    ensures Rewritten(Rewritten(f, xhtml), xhtml) == Rewritten(f, xhtml)
  {
    if FileRewrite(f, xhtml).Some? {
      FileRewriteIsRewriteWith(f, xhtml);
      var m := FirstMatch(f.content, Rules).value;
      WithKeywordSetHasTag(f.content, m, ChapterKeywords(f.name, xhtml));
      FileRewriteNone(Rewritten(f, xhtml), xhtml);
    }
  }

  /** With no rewrite in a directory, the pass records nothing. */
  lemma {:induction false} FixesOfNone(xml: seq<File>, step: File -> Option<Rewrite>)
    requires forall i :: 0 <= i < |xml| ==> step(xml[i]).None?
    ensures FixesBy(xml, step) == []
  {
    if xml != [] {
      FixesOfNone(xml[..|xml| - 1], step);
    }
  }

  /** Running the pass a second time changes no file and records no fix. */
  lemma SecondPassIdle(xml: seq<File>, xhtml: seq<File>)
    ensures Directory(Directory(xml, xhtml), xhtml) == Directory(xml, xhtml)
    ensures FixesOf(Directory(xml, xhtml), xhtml) == []
  {
    var step := Step(xhtml);
    var once := Directory(xml, xhtml);
    forall i | 0 <= i < |xml|
      ensures step(once[i]).None? && Updated(once[i], step(once[i])) == once[i]
    {
      assert once[i] == Rewritten(xml[i], xhtml);
      RewrittenIsFinal(xml[i], xhtml);
    }
    FixesOfNone(once, step);
  }

  /** Each record stands for one rewritten document: never more records
      than documents. */
  lemma {:induction false} FixesAtMostFiles(xml: seq<File>, step: File -> Option<Rewrite>)
    ensures |FixesBy(xml, step)| <= |xml|
  {
    if xml != [] {
      FixesAtMostFiles(xml[..|xml| - 1], step);
    }
  }

  /** Every record of the pass keeps at most the first 100 characters of
      the para it replaced. */
  lemma {:induction false} FixesOriginalShort(xml: seq<File>, xhtml: seq<File>)
    ensures forall fx :: fx in FixesOf(xml, xhtml) ==> |fx.original| <= 100
  {
    if xml != [] {
      FixesOriginalShort(xml[..|xml| - 1], xhtml);
    }
  }

  /** The documents of `xml` that `step` rewrites, by index. */
  function RewrittenAt(xml: seq<File>, step: File -> Option<Rewrite>): set<nat>
  {
    IndexSet(xml, (f: File) => step(f).Some?)
  }

  /** The records are one per rewritten document: there are exactly as
      many as there are documents the decision rewrites. */
  lemma {:induction false} FixesCount(xml: seq<File>, step: File -> Option<Rewrite>)
    ensures |FixesBy(xml, step)| == |RewrittenAt(xml, step)|
  {
    if xml != [] {
      FixesCount(xml[..|xml| - 1], step);
      IndexSetSnoc(xml, (f: File) => step(f).Some?);
    }
  }

  /** A document is rewritten exactly when it is not skipped, the 'simple'
      rule finds a para in it, and its chapter has keywords; the rewrite is
      that of the first rule's match. */
  lemma RewrittenExactly(f: File, xhtml: seq<File>)
    ensures FileRewrite(f, xhtml).Some? <==>
              !Skipped(f.content) && RuleMatch(f.content, Simple).Some? && ChapterKeywords(f.name, xhtml) != []
    ensures FileRewrite(f, xhtml).Some? ==>
              FileRewrite(f, xhtml) == Some(RewriteWith(f, FirstMatch(f.content, Rules).value, ChapterKeywords(f.name, xhtml)))
  {
    SomeRuleMatchesIffSimple(f.content);
  }

  /** The 'full' rule comes first: when it matches, its match is the one
      replaced, wherever the 'simple' rule would have matched. */
  lemma FullRuleFirst(c: string)
    requires RuleMatch(c, Full).Some?
    ensures FirstMatch(c, Rules) == RuleMatch(c, Full)
  {
  }

  /** Every text the 'full' rule accepts, the 'simple' rule accepts. */
  lemma FullContentIsSimple(c: string)
    requires FullContent(c)
    ensures SimpleContent(c)
  {
    var p := Upto(c, 0, '@');
    assert c[p] == '@';
    assert InClass(DomainWideCI, c[p + 1]);
  }

  /** A document is rewritten only through a para the 'simple' rule alone
      would find: the 'full' rule chooses which para, never whether. */
  lemma SomeRuleMatchesIffSimple(c: string)
    ensures FirstMatch(c, Rules).Some? <==> RuleMatch(c, Simple).Some?
  {
    assert Rules[0] == Full && Rules[1] == Simple;
    match RuleMatch(c, Full)
    case None =>
    case Some(m) =>
      FullContentIsSimple(m.content);
      assert ParaMatchesAt(c, true, SimpleContent, m.start);
  }

  /** A document the pass changes has its first rule's match replaced by
      the nonempty keyword list of its chapter. */
  lemma FileRewriteIsRewriteWith(f: File, xhtml: seq<File>)
    requires FileRewrite(f, xhtml).Some?
    ensures && !Skipped(f.content) && FirstMatch(f.content, Rules).Some?
            && ChapterKeywords(f.name, xhtml) != []
            && FileRewrite(f, xhtml) == Some(RewriteWith(f, FirstMatch(f.content, Rules).value, ChapterKeywords(f.name, xhtml)))
  {
  }

  /** A rewrite holds the keywords, in order, where the matched para was,
      and its record keeps the first 100 characters of that para, or all of
      it when it is shorter. */
  lemma RewriteReadsBack(f: File, m: ParaMatch, ks: seq<string>)
    requires m.start <= m.end <= |f.content|
    ensures var r := RewriteWith(f, m, ks);
            var n := |KeywordSetXml(ks)|;
            && r.fix.file == f.name && r.fix.keywords == ks
            && ParseKeywordSet(r.content[m.start..m.start + n]) == Some(ks)
            && r.content[..m.start] == f.content[..m.start]
            && r.content[m.start + n..] == f.content[m.end..]
            && r.fix.original == f.content[m.start..m.start + (if m.end - m.start <= 100 then m.end - m.start else 100)]
  {
    RepairedKeywordsReadBack(f.content, m, ks);
    var g := f.content[m.start..m.end];
    var o := Clip(g, 100);
    assert o == g[..|o|];
  }

  /** The keywords come from an XHTML file whose chapter is two below the
      XML one. */
  lemma ChapterKeywordsSource(name: string, xhtml: seq<File>)
    requires ChapterKeywords(name, xhtml) != []
    ensures var src := SourceFile(name, xhtml);
            && src.Some? && src.value in xhtml
            && ChapterKeywords(name, xhtml) == ExtractKeywords(src.value.content)
            && (XmlChapterNumber(name).value >= 2 ==>
                  XhtmlChapterNumber(src.value.name) == Some(XmlChapterNumber(name).value - 2))
  {
  }
}
