/// fix_keywords.py: detecting a chapter whose keywords were flattened into
/// an e-mail paragraph, finding its XHTML chapter two numbers down, and
/// putting a `<keywordset>` in place of the first such paragraph.
module Keywords {
  import opened Text
  import opened Numerals
  import opened Patterns
  import opened Fragments

  // ---------------------------------------------------------------------
  // extract_keywords_from_xhtml

  /** A span holding only whitespace gives no token. */
  lemma BlankSpanDropped(a: seq<string>, t: string, b: seq<string>)
    requires AllSpace(t)
    ensures KeywordTokens(a + [t] + b) == KeywordTokens(a + b)
  {
    KeywordTokensAppend(a + [t], b);
    KeywordTokensAppend(a, [t]);
    KeywordTokensAppend(a, b);
    KeywordTokensOne(t);
  }

  // ---------------------------------------------------------------------
  // The detection predicate of find_garbled_keywords_files

  /** The document holds a garbled keyword paragraph, as the detection
      pattern is written: the e-mail's local part has no space. */
  predicate GarbledAsWritten(content: string)
  {
    SearchPara(content, true, DetectContent, 0).Some?
  }

  /** The detection the pattern's own comment describes: the local part may
      hold a space, as in `j. ehrenreich@miami. edu`. */
  predicate Garbled(content: string)
  {
    SearchPara(content, true, SpacedDetectContent, 0).Some?
  }

  /** The local part's run under the wider class ends no earlier, and still
      before the `@`, with only whitespace left between. */
  lemma LocalRunWidened(c: string, p: nat)
    requires p < |c| && c[p] == '@'
    requires RunEnd(c, 0, LocalCI) <= p && AllSpace(c[RunEnd(c, 0, LocalCI)..p])
    ensures RunEnd(c, 0, LocalCI) <= RunEnd(c, 0, LocalSpaceCI) <= p
    ensures AllSpace(c[RunEnd(c, 0, LocalSpaceCI)..p])
  {
    var a := RunEnd(c, 0, LocalCI);
    RunEndAtLeast(c, 0, LocalSpaceCI, a);
    RunEndAtMost(c, 0, LocalSpaceCI, p);
    var b := RunEnd(c, 0, LocalSpaceCI);
    forall j | b <= j < p ensures IsSpace(c[j]) {
      assert c[a..p][j - a] == c[j];
    }
  }

  /** The two detections differ only in the local part's class. */
  lemma DetectWithWider(c: string, l1: CharClass, l2: CharClass)
    requires DetectWith(c, l1)
    requires var p := Upto(c, 0, '@');
             var b := RunEnd(c, 0, l2);
             0 < b <= p && AllSpace(c[b..p])
    ensures DetectWith(c, l2)
  {
  }

  /** A local part without a space is detected either way. */
  lemma DetectionWidened(c: string)
    ensures DetectContent(c) ==> SpacedDetectContent(c)
  {
    if DetectContent(c) {
      LocalRunWidened(c, Upto(c, 0, '@'));
      DetectWithWider(c, LocalCI, LocalSpaceCI);
    }
  }

  /** Every paragraph the written detection finds, the intended one finds. */
  lemma GarbledAsWrittenIsGarbled(content: string)
    ensures GarbledAsWritten(content) ==> Garbled(content)
  {
    if GarbledAsWritten(content) {
      var m := SearchPara(content, true, DetectContent, 0).value;
      DetectionWidened(m.content);
      assert ParaMatchesAt(content, true, SpacedDetectContent, m.start);
    }
  }

  /** A para text: an address, then two words, each after a space. */
  function AddressThenWords(address: string, w1: string, w2: string): string
  {
    address + [' '] + w1 + [' '] + w2
  }

  /** The address is the para's head, the spaced words its tail. */
  lemma AddressThenWordsParts(address: string, w1: string, w2: string)
    ensures var c := AddressThenWords(address, w1, w2);
            && |c| == |address| + 2 + |w1| + |w2|
            && (forall k :: 0 <= k < |address| ==> c[k] == address[k])
            && c[|address|..] == [' '] + w1 + [' '] + w2
  {
  }

  /** A capitalised word holds no whitespace. */
  lemma CapWordVisible(w: string)
    requires CapWord(w)
    ensures forall j :: 0 <= j < |w| ==> !IsSpace(w[j])
  {
    forall j | 1 <= j < |w| ensures InClass(WordTailCI, w[j]) {
      assert w[1..][j - 1] == w[j];
    }
  }

  /** Two capitalised words, each after a space, are read as two words. */
  lemma TwoCapWords(w1: string, w2: string)
    requires CapWord(w1) && CapWord(w2)
    ensures SpacedWords([' '] + w1 + [' '] + w2) == Some([w1, w2])
  {
    CapWordVisible(w1);
    CapWordVisible(w2);
    assert SpacedWords([]) == Some([]);
    SpacedWordsCons([' '] + w2, w2, []);
    SpacedWordsCons([' '] + w1 + [' '] + w2, w1, [' '] + w2);
    assert [w1] + ([w2] + []) == [w1, w2];
  }

  /** The detection pattern read off its pieces: where `@` is, where the
      local part's run ends, where the domain and the top-level domain end,
      and the words after them. */
  lemma DetectWithOf(c: string, local: CharClass, a: nat, p: nat, e: nat, d: nat)
    requires 0 < a <= p < |c| && Upto(c, 0, '@') == p && RunEnd(c, 0, local) == a && AllSpace(c[a..p])
    requires p + 1 <= e < |c| && SpanSpace(c, p + 1) == e && RunEnd(c, e, DomainCI) == d
    requires e < d < |c| && c[d] == '.' && CapWordsAfter(c, d)
    ensures DetectWith(c, local)
  {
  }

  /** A top-level domain followed by two capitalised words. */
  lemma CapWordsAfterOf(c: string, d: nat, t: nat, w1: string, w2: string)
    requires d < |c| && TldEnd(c, d) == Some(t)
    requires SpacedWords(c[t..]) == Some([w1, w2]) && CapWord(w1) && CapWord(w2)
    ensures CapWordsAfter(c, d)
  {
    var ws := [w1, w2];
    assert forall w <- ws :: CapWord(w);
  }

  /** The address in the comment above the detection pattern, shortened:
      a local part with a space after `j.`. */
  const SpacedLocalPart := "j. e@m.edu"

  /** `[a-z0-9_.+-]+\s*@` cannot cross the space after `j.`: the detection
      as written misses every para that starts with such an address. */
  lemma SpacedLocalPartMissed(w1: string, w2: string)
    ensures !DetectContent(AddressThenWords(SpacedLocalPart, w1, w2))
  {
    var c := AddressThenWords(SpacedLocalPart, w1, w2);
    AddressThenWordsParts(SpacedLocalPart, w1, w2);
    assert c[0] == 'j' && c[1] == '.' && c[2] == ' ' && c[3] == 'e' && c[4] == '@';
    SpacedLocalPartMissedShape(c);
  }

  /** With the local part class of the repair pattern, which holds a space,
      the same paras are detected. */
  lemma SpacedLocalPartDetected(w1: string, w2: string)
    requires CapWord(w1) && CapWord(w2)
    ensures SpacedDetectContent(AddressThenWords(SpacedLocalPart, w1, w2))
  {
    var c := AddressThenWords(SpacedLocalPart, w1, w2);
    AddressThenWordsParts(SpacedLocalPart, w1, w2);
    assert c[0] == 'j' && c[1] == '.' && c[2] == ' ' && c[3] == 'e' && c[4] == '@';
    assert c[5] == 'm' && c[6] == '.' && c[7] == 'e' && c[8] == 'd' && c[9] == 'u';
    SpacedLocalPartDetectedShape(c, w1, w2);
  }

  /** Any para text opening `j. e@` is missed: the local part's run stops
      at the space, and `e` is neither whitespace nor `@`. */
  lemma SpacedLocalPartMissedShape(c: string)
    requires |c| > 4 && c[0] == 'j' && c[1] == '.' && c[2] == ' ' && c[3] == 'e' && c[4] == '@'
    ensures !DetectContent(c)
  {
    UptoIsFirst(c, 0, '@', 4);
    RunEndIs(c, 0, LocalCI, 2);
    assert !IsSpace(c[2..4][1]);
  }

  /** Any para text `j. e@m.edu` followed by two spaced capitalised words
      is detected once the local part may hold a space. */
  lemma SpacedLocalPartDetectedShape(c: string, w1: string, w2: string)
    requires CapWord(w1) && CapWord(w2) && |c| > 10
    requires c[0] == 'j' && c[1] == '.' && c[2] == ' ' && c[3] == 'e' && c[4] == '@'
    requires c[5] == 'm' && c[6] == '.' && c[7] == 'e' && c[8] == 'd' && c[9] == 'u'
    requires c[10..] == [' '] + w1 + [' '] + w2
    ensures SpacedDetectContent(c)
  {
    assert c[10] == ' ';
    UptoIsFirst(c, 0, '@', 4);
    RunEndIs(c, 0, LocalSpaceCI, 4);
    SpanSpaceIs(c, 5, 5);
    RunEndIs(c, 5, DomainCI, 6);
    SpanSpaceIs(c, 7, 7);
    RunEndIs(c, 7, LetterCI, 10);
    TwoCapWords(w1, w2);
    CapWordsAfterOf(c, 6, 10, w1, w2);
    DetectWithOf(c, LocalSpaceCI, 4, 4, 5, 6);
  }

  /** The repair pattern, whose local part holds a space, also reads such
      a para. */
  lemma SpacedLocalPartRepairable(w1: string, w2: string)
    requires CapWord(w1) && CapWord(w2)
    ensures KeywordsContent(AddressThenWords(SpacedLocalPart, w1, w2))
  {
    var c := AddressThenWords(SpacedLocalPart, w1, w2);
    AddressThenWordsParts(SpacedLocalPart, w1, w2);
    assert c[0] == 'j' && c[1] == '.' && c[2] == ' ' && c[3] == 'e' && c[4] == '@';
    assert c[5] == 'm' && c[6] == '.' && c[7] == 'e' && c[8] == 'd' && c[9] == 'u';
    SpacedLocalPartRepairableShape(c, w1, w2);
  }

  lemma SpacedLocalPartRepairableShape(c: string, w1: string, w2: string)
    requires CapWord(w1) && CapWord(w2) && |c| > 10
    requires c[0] == 'j' && c[1] == '.' && c[2] == ' ' && c[3] == 'e' && c[4] == '@'
    requires c[5] == 'm' && c[6] == '.' && c[7] == 'e' && c[8] == 'd' && c[9] == 'u'
    requires c[10..] == [' '] + w1 + [' '] + w2
    ensures KeywordsContent(c)
  {
    assert c[10] == ' ';
    UptoIsFirst(c, 0, '@', 4);
    assert forall k :: 0 <= k < 4 ==> InClass(LocalSpaceCI, c[..4][k]);
    RunEndIs(c, 5, DomainCI, 6);
    SpanSpaceIs(c, 7, 7);
    RunEndIs(c, 7, LetterCI, 10);
    TwoCapWords(w1, w2);
    CapWordTags(w2);
    assert [w1, w2][1..] == [w2];
  }

  /** A capitalised word is also a `[A-Za-z-]+` word, and holds no `<`. */
  lemma CapWordTags(w: string)
    requires CapWord(w)
    ensures HyphenWord(w)
    ensures forall j :: 0 <= j < |w| ==> w[j] != '<'
  {
    forall j | 1 <= j < |w| ensures InClass(WordTailCI, w[j]) {
      assert w[1..][j - 1] == w[j];
    }
  }

  /** Such a para holds no `<`, so it is a whole para element's text. */
  lemma SpacedLocalPartNoTag(w1: string, w2: string)
    requires CapWord(w1) && CapWord(w2)
    ensures var c := AddressThenWords(SpacedLocalPart, w1, w2);
            forall k :: 0 <= k < |c| ==> c[k] != '<'
  {
    var c := AddressThenWords(SpacedLocalPart, w1, w2);
    var t := [' '] + w1 + [' '] + w2;
    AddressThenWordsParts(SpacedLocalPart, w1, w2);
    CapWordTags(w1);
    CapWordTags(w2);
    assert forall k :: 0 <= k < |w1| ==> t[k + 1] == w1[k];
    assert forall k :: 0 <= k < |w2| ==> t[k + 2 + |w1|] == w2[k];
    assert forall k :: 0 <= k < |t| ==> t[k] != '<';
    assert forall k :: 10 <= k < |c| ==> c[k] == t[k - 10];
  }

  /** The document `<para>j. e@m.edu W1 W2</para>`, whose chapter has
      keywords: `main` as written leaves it alone, while with the corrected
      detection it is repaired. */
  lemma SpacedLocalPartDocument(f: File, xhtml: seq<File>, w1: string, w2: string)
    requires CapWord(w1) && CapWord(w2)
    requires f.content == "<para>" + AddressThenWords(SpacedLocalPart, w1, w2) + "</para>"
    requires KeywordSource(f.name, xhtml).Some?
    requires ExtractKeywords(KeywordSource(f.name, xhtml).value.content) != []
    ensures RepairedAsWritten(f, xhtml) == None
    ensures Repaired(f, xhtml).Some?
  {
    var c := AddressThenWords(SpacedLocalPart, w1, w2);
    SpacedLocalPartNoTag(w1, w2);
    SoleParaSearch(c, true, DetectContent);
    SpacedLocalPartMissed(w1, w2);
    SoleParaSearch(c, true, SpacedDetectContent);
    SpacedLocalPartDetected(w1, w2);
    SoleParaSearch(c, true, KeywordsContent);
    SpacedLocalPartRepairable(w1, w2);
  }

  /** An address with a space after `@`. */
  const SpaceAfterAt := "a@ b.edu"

  /** Detection allows whitespace after `@`... */
  lemma SpaceAfterAtDetected(w1: string, w2: string)
    requires CapWord(w1) && CapWord(w2)
    ensures DetectContent(AddressThenWords(SpaceAfterAt, w1, w2))
  {
    var c := AddressThenWords(SpaceAfterAt, w1, w2);
    AddressThenWordsParts(SpaceAfterAt, w1, w2);
    assert c[0] == 'a' && c[1] == '@' && c[2] == ' ' && c[3] == 'b' && c[4] == '.';
    assert c[5] == 'e' && c[6] == 'd' && c[7] == 'u';
    SpaceAfterAtShape(c, w1, w2);
  }

  /** Any para text `a@ b.edu` followed by two spaced capitalised words is
      detected as written. */
  lemma SpaceAfterAtShape(c: string, w1: string, w2: string)
    requires CapWord(w1) && CapWord(w2) && |c| > 8
    requires c[0] == 'a' && c[1] == '@' && c[2] == ' ' && c[3] == 'b' && c[4] == '.'
    requires c[5] == 'e' && c[6] == 'd' && c[7] == 'u'
    requires c[8..] == [' '] + w1 + [' '] + w2
    ensures DetectContent(c)
  {
    assert c[8] == ' ';
    UptoIsFirst(c, 0, '@', 1);
    RunEndIs(c, 0, LocalCI, 1);
    SpanSpaceIs(c, 2, 3);
    RunEndIs(c, 3, DomainCI, 4);
    SpanSpaceIs(c, 5, 5);
    RunEndIs(c, 5, LetterCI, 8);
    TwoCapWords(w1, w2);
    CapWordsAfterOf(c, 4, 8, w1, w2);
    DetectWithOf(c, LocalCI, 1, 1, 3, 4);
  }

  /** ...the repair pattern does not: a document detected as garbled can be
      left as it is. */
  lemma SpaceAfterAtNotRepaired(w1: string, w2: string)
    ensures !KeywordsContent(AddressThenWords(SpaceAfterAt, w1, w2))
  {
    var c := AddressThenWords(SpaceAfterAt, w1, w2);
    assert c[..8] == SpaceAfterAt;
    assert c[1] == '@' && c[2] == ' ';
    UptoIsFirst(c, 0, '@', 1);
    RunEndIs(c, 2, DomainCI, 2);
  }

  // ---------------------------------------------------------------------
  // Chapter numbers

  /** `get_xhtml_chapter_file`: the first XHTML file named
      `..._<n - 2>_Chapter.xhtml` for XML chapter `n`. */
  function XhtmlChapterFile(xhtml: seq<File>, xmlChapter: nat): (r: Option<File>)
    ensures r.Some? ==> r.value in xhtml
    ensures r.Some? && xmlChapter >= 2 ==> XhtmlChapterNumber(r.value.name) == Some(xmlChapter - 2)
  {
    var r := ChapterFile(xhtml, xmlChapter - 2);
    if r.Some? && xmlChapter >= 2 then
      ChapterFileNumber(xhtml, xmlChapter - 2);
      r
    else r
  }

  /** The chapter of an XML file named `...ch<digits>...` is the value of
      those digits, leading zeros and all: `ch0008` is chapter 8, whose
      XHTML file is chapter 6. */
  lemma XmlChapterOfName(prefix: string, n: nat, rest: string)
    requires forall j :: 0 <= j < |prefix| ==> prefix[j] != 'c'
    requires rest == [] || !IsDigit(rest[0])
    ensures XmlChapterNumber(prefix + "ch" + ZeroPad(NatToDigits(n), 4) + rest) == Some(n)
  {
    var d := ZeroPad(NatToDigits(n), 4);
    var f := prefix + "ch" + d + rest;
    PaddedNumeralValue(n, 4);
    forall j: nat | j < |prefix| ensures !TagDigitAt(f, "ch", j) {
      assert f[j] == prefix[j];
    }
    TaggedNumberOf(prefix, "ch", d, rest);
  }

  // ---------------------------------------------------------------------
  // fix_keywords_in_file

  /** The repair pattern's match: the first para whose text is an e-mail
      with no space around `@`, then a capitalised word and more words. */
  function RepairMatch(content: string): Option<ParaMatch>
  {
    SearchPara(content, true, KeywordsContent, 0)
  }

  /** The document with the span `m` replaced by the `<keywordset>` of `ks`. */
  function WithKeywordSet(content: string, m: ParaMatch, ks: seq<string>): string
    requires m.start <= m.end <= |content|
  {
    content[..m.start] + KeywordSetXml(ks) + content[m.end..]
  }

  /** `fix_keywords_in_file` on the text of a document: the new text to
      write and the record, or nothing when the pattern finds no para or
      there are no keywords. */
  method FixKeywordsInFile(name: string, content: string, keywords: seq<string>)
    returns (newContent: Option<string>, fix: Option<KeywordFix>)
    ensures newContent.Some? <==> RepairMatch(content).Some? && keywords != []
    ensures fix.Some? <==> newContent.Some?
    ensures newContent.Some? ==>
              && newContent.value == WithKeywordSet(content, RepairMatch(content).value, keywords)
              && fix.value == KeywordFix(name, Preview(RepairMatch(content).value.content), keywords)
  {
    newContent := None;
    fix := None;
    var m := SearchPara(content, true, KeywordsContent, 0);
    if m.Some? && keywords != [] {
      var originalContent := m.value.content;
      var keywordsXml := BuildKeywordSet(keywords);
      var oldPara := content[m.value.start..m.value.end];
      ReplaceSearchedPara(content, true, KeywordsContent, keywordsXml);
      newContent := Some(ReplaceFirst(content, oldPara, keywordsXml));
      fix := Some(KeywordFix(name, Preview(originalContent), keywords));
    }
  }

  /** A repaired document reads back, at the old para's place, the
      `<keywordset>` of exactly the keywords given, in order, and is the
      old document before and after it. */
  lemma RepairedKeywordsReadBack(content: string, m: ParaMatch, keywords: seq<string>)
    requires m.start <= m.end <= |content|
    ensures var out := WithKeywordSet(content, m, keywords);
            var n := |KeywordSetXml(keywords)|;
            && ParseKeywordSet(out[m.start..m.start + n]) == Some(keywords)
            && out[..m.start] == content[..m.start]
            && out[m.start + n..] == content[m.end..]
  {
    var out := WithKeywordSet(content, m, keywords);
    var n := |KeywordSetXml(keywords)|;
    assert out[m.start..m.start + n] == KeywordSetXml(keywords);
    KeywordSetRoundTrip(keywords);
  }

  // ---------------------------------------------------------------------
  // The per-document step of main

  /** The XHTML file `main` reads keywords from for an XML document: none
      when the name has no `ch<digits>` or its number is 0. */
  function KeywordSource(name: string, xhtml: seq<File>): (r: Option<File>)
    ensures r.Some? ==> r.value in xhtml
    ensures r.Some? ==> XmlChapterNumber(name).Some? && XmlChapterNumber(name).value != 0
  {
    var ch := XmlChapterNumber(name);
    if ch.None? || ch.value == 0 then None else XhtmlChapterFile(xhtml, ch.value)
  }

  /** What `main` does to a document it visits, once it is past detection:
      a non-zero chapter with an XHTML file with keywords, and a para the
      repair pattern finds, give the rewritten text. */
  function RepairOf(f: File, xhtml: seq<File>): (r: Option<string>)
    ensures r.Some? <==>
              && KeywordSource(f.name, xhtml).Some?
              && ExtractKeywords(KeywordSource(f.name, xhtml).value.content) != []
              && RepairMatch(f.content).Some?
  {
    match KeywordSource(f.name, xhtml)
    case None => None
    case Some(src) =>
      var ks := ExtractKeywords(src.content);
      if ks == [] || RepairMatch(f.content).None? then None
      else Some(WithKeywordSet(f.content, RepairMatch(f.content).value, ks))
  }

  /** The document after `main` as written: only documents the detection
      pattern, as written, finds are visited. */
  function RepairedAsWritten(f: File, xhtml: seq<File>): Option<string>
  {
    if GarbledAsWritten(f.content) then RepairOf(f, xhtml) else None
  }

  /** The document after `main` with the detection its comment describes. */
  function Repaired(f: File, xhtml: seq<File>): Option<string>
  {
    if Garbled(f.content) then RepairOf(f, xhtml) else None
  }

  /** The chapter, keyword and repair steps of `main` for a document that
      passed detection. */
  method RepairDetected(f: File, xhtml: seq<File>) returns (newContent: Option<string>, fix: Option<KeywordFix>)
    ensures newContent == RepairOf(f, xhtml)
    ensures newContent.Some? ==>
              newContent.value == WithKeywordSet(f.content, RepairMatch(f.content).value,
                                                 ExtractKeywords(KeywordSource(f.name, xhtml).value.content))
    ensures fix.Some? <==> newContent.Some?
  {
    newContent, fix := None, None;
    var xmlCh := XmlChapterNumber(f.name);
    if xmlCh.None? || xmlCh.value == 0 {
      return;
    }
    var xhtmlFile := XhtmlChapterFile(xhtml, xmlCh.value);
    if xhtmlFile.None? {
      return;
    }
    var keywords := ExtractKeywords(xhtmlFile.value.content);
    if keywords == [] {
      return;
    }
    newContent, fix := FixKeywordsInFile(f.name, f.content, keywords);
  }

  /** One pass of `main` over a document, visited as
      `find_garbled_keywords_files` is written: a document its detection
      pattern finds, whose XHTML chapter has keywords, and in which the
      repair pattern finds a para, is repaired; every other document is left
      alone. */
  method FixGarbledDocumentAsWritten(f: File, xhtml: seq<File>) returns (newContent: Option<string>, fix: Option<KeywordFix>)
    ensures newContent == RepairedAsWritten(f, xhtml)
    ensures newContent.Some? <==> GarbledAsWritten(f.content) && RepairOf(f, xhtml).Some?
    ensures fix.Some? <==> newContent.Some?
  {
    newContent, fix := None, None;
    if GarbledAsWritten(f.content) {
      newContent, fix := RepairDetected(f, xhtml);
    }
  }

  /** The same pass with the detection its comment describes, which also
      finds a local part with a space in it. */
  method FixGarbledDocument(f: File, xhtml: seq<File>) returns (newContent: Option<string>, fix: Option<KeywordFix>)
    ensures newContent == Repaired(f, xhtml)
    ensures newContent.Some? <==>
              && Garbled(f.content)
              && KeywordSource(f.name, xhtml).Some?
              && ExtractKeywords(KeywordSource(f.name, xhtml).value.content) != []
              && RepairMatch(f.content).Some?
    ensures newContent.Some? ==>
              newContent.value == WithKeywordSet(f.content, RepairMatch(f.content).value,
                                                 ExtractKeywords(KeywordSource(f.name, xhtml).value.content))
    ensures fix.Some? <==> newContent.Some?
  {
    newContent, fix := None, None;
    if Garbled(f.content) {
      newContent, fix := RepairDetected(f, xhtml);
    }
  }

  /** Every document `main` repairs as written, the corrected detection
      repairs the same way. */
  lemma AsWrittenRepairsIncluded(f: File, xhtml: seq<File>)
    ensures RepairedAsWritten(f, xhtml).Some? ==> Repaired(f, xhtml) == RepairedAsWritten(f, xhtml)
  {
    GarbledAsWrittenIsGarbled(f.content);
  }
}
