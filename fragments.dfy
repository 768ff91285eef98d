/// The pieces of text the repair scripts extract from an XHTML chapter and
/// the pieces of XML they write back: the cleaned citation text, the keyword
/// tokens, the `<keywordset>` block and the rebuilt `<bibliomixed>` entry.
module Fragments {
  import opened Text
  import opened HtmlEscape
  import opened Numerals
  import opened Patterns

  // ---------------------------------------------------------------------
  // Cleaning a citation body

  /** The tag-removal steps of the citation cleaner, in their order: drop the
      RefSource and Occurrence spans, unwrap anchors, emphasis and spans, then
      drop every remaining tag that starts with a lower-case letter. */
  function StripMarkup(h: string): string
  {
    var a := Sub(RefSourceSpan, h, 0);
    var b := Sub(OccurrenceSpan, a, 0);
    var c := Sub(AnchorElement, b, 0);
    var d := Sub(EmphasisElement, c, 0);
    var e := Sub(SpanElement, d, 0);
    Sub(AnyTag, e, 0)
  }

  /** The whole cleaner: tags removed, whitespace collapsed and trimmed, and
      only then the entities decoded. */
  function CleanCitation(h: string): (r: string)
    ensures Normalized(r)
  {
    var n := Normalize(StripMarkup(h));
    NormalizeSpec(StripMarkup(h));
    UnescapeNormalized(n);
    Unescape(n)
  }

  lemma LiteralHead(s: string, lit: string, j: nat)
    requires |lit| > 0 && OccursAt(s, lit, j)
    ensures j < |s| && s[j] == lit[0]
  {
    assert s[j..j + |lit|][0] == s[j];
  }

  /** Every pattern of the cleaner starts with `<`. */
  lemma MatchNeedsTag(p: Pattern, s: string, j: nat)
    requires j <= |s| && MatchAt(p, s, j).Some?
    ensures j < |s| && s[j] == '<'
  {
    match p
    case CitationDiv => LiteralHead(s, CitationOpen, j);
    case RefSourceSpan => LiteralHead(s, RefSourceOpen, j);
    case OccurrenceSpan => LiteralHead(s, OccurrenceOpen, j);
    case AnchorElement => LiteralHead(s, "<a", j);
    case EmphasisElement => LiteralHead(s, "<em", j);
    case SpanElement => LiteralHead(s, "<span", j);
    case KeywordSpan => LiteralHead(s, KeywordOpen, j);
    case ChapterTitleHeading => LiteralHead(s, ChapterTitleOpen, j);
    case AnyTag =>
    case BiblioMixed => LiteralHead(s, BiblioOpen, j);
    case IndexTerm => LiteralHead(s, "<indexterm", j);
  }

  predicate NoTagChar(s: string)
  {
    forall k :: 0 <= k < |s| ==> s[k] != '<'
  }

  /** A substitution finds nothing to rewrite in text without `<`. */
  lemma SubPlain(p: Pattern, s: string)
    requires NoTagChar(s)
    ensures Sub(p, s, 0) == s
  {
    forall j: nat | j < |s| ensures MatchAt(p, s, j).None? {
      if MatchAt(p, s, j).Some? { MatchNeedsTag(p, s, j); }
    }
    SubNoMatch(p, s, 0);
  }

  /** Text without `<` passes the tag-removal steps unchanged. */
  lemma StripMarkupPlain(h: string)
    requires NoTagChar(h)
    ensures StripMarkup(h) == h
  {
    SubPlain(RefSourceSpan, h);
    SubPlain(OccurrenceSpan, h);
    SubPlain(AnchorElement, h);
    SubPlain(EmphasisElement, h);
    SubPlain(SpanElement, h);
    SubPlain(AnyTag, h);
  }

  /** Cleaning undoes escaping: a normalized text, escaped, is cleaned back to
      itself. Tags are removed before entities are decoded, so an escaped
      `&lt;i&gt;` survives as the literal text `<i>`. */
  lemma CleanCitationOfEscaped(t: string)
    requires Normalized(t)
    ensures CleanCitation(Escape(t)) == t
  {
    var e := Escape(t);
    StripMarkupPlain(e);
    EscapeNormalized(t);
    NormalizeFixed(e);
    UnescapeEscape(t);
  }

  /** Cleaning plain text is normalizing it, when it holds no `<` and no
      `&`. */
  lemma CleanCitationPlain(h: string)
    requires NoTagChar(h) && forall k :: 0 <= k < |h| ==> h[k] != '&'
    requires Normalized(h)
    ensures CleanCitation(h) == h
  {
    StripMarkupPlain(h);
    NormalizeFixed(h);
    forall k | 0 <= k < |h| ensures !IsMarkupSpecial(h[k]) || h[k] == '"' || h[k] == '\'' || h[k] == '>' {
    }
    UnescapePlain(h);
  }

  /** Text with no `&` decodes to itself. */
  lemma {:induction false} UnescapePlain(s: string)
    requires forall k :: 0 <= k < |s| ==> s[k] != '&'
    ensures Unescape(s) == s
  {
    if s != [] {
      assert EntityAt(s) == None by { assert s[0] != '&'; }
      UnescapePlain(s[1..]);
      assert s == [s[0]] + s[1..];
    }
  }

  // ---------------------------------------------------------------------
  // Keyword tokens

  /** `[k.strip() for k in texts if k.strip()]`. */
  function KeywordTokens(texts: seq<string>): (ks: seq<string>)
    ensures |ks| <= |texts|
    ensures forall k :: 0 <= k < |ks| ==> ks[k] != [] && NoEdgeSpace(ks[k])
  {
    if texts == [] then []
    else
      var rest := KeywordTokens(texts[..|texts| - 1]);
      var t := Strip(texts[|texts| - 1]);
      if t == [] then rest else rest + [t]
  }

  /** Tokens keep the order of the texts they come from. */
  lemma {:induction false} KeywordTokensAppend(a: seq<string>, b: seq<string>)
    ensures KeywordTokens(a + b) == KeywordTokens(a) + KeywordTokens(b)
    decreases |b|
  {
    if b == [] {
      assert a + b == a;
    } else {
      var c := b[..|b| - 1];
      assert (a + b)[..|a + b| - 1] == a + c;
      assert (a + b)[|a + b| - 1] == b[|b| - 1];
      KeywordTokensAppend(a, c);
    }
  }

  /** A text with nothing visible yields no token; a visible one yields its
      stripped self. */
  lemma KeywordTokensOne(t: string)
    ensures KeywordTokens([t]) == if AllSpace(t) then [] else [Strip(t)]
  {
    assert [t][..0] == [];
  }

  /** When every text has something visible, each yields exactly one token,
      in order, duplicates kept. */
  lemma {:induction false} KeywordTokensAllVisible(texts: seq<string>)
    requires forall i :: 0 <= i < |texts| ==> !AllSpace(texts[i])
    ensures |KeywordTokens(texts)| == |texts|
    ensures forall i :: 0 <= i < |texts| ==> KeywordTokens(texts)[i] == Strip(texts[i])
  {
    if texts != [] {
      var c := texts[..|texts| - 1];
      KeywordTokensAllVisible(c);
      var t := Strip(texts[|texts| - 1]);
      assert t != [];
      var ks := KeywordTokens(texts);
      assert ks == KeywordTokens(c) + [t];
      forall i | 0 <= i < |texts|
        ensures ks[i] == Strip(texts[i])
      {
        if i < |c| {
          assert ks[i] == KeywordTokens(c)[i] && texts[i] == c[i];
        } else {
          assert i == |c|;
        }
      }
    }
  }

  /** The positions of the texts with something visible, in order. */
  function VisibleAt(texts: seq<string>): (ix: seq<nat>)
    ensures forall i :: 0 <= i < |ix| ==> ix[i] < |texts| && !AllSpace(texts[ix[i]])
    ensures forall i, j :: 0 <= i < j < |ix| ==> ix[i] < ix[j]
    ensures forall j :: 0 <= j < |texts| && !AllSpace(texts[j]) ==> j in ix
  {
    if texts == [] then []
    else
      var c := texts[..|texts| - 1];
      var rest := VisibleAt(c);
      assert forall j :: 0 <= j < |c| ==> c[j] == texts[j];
      if AllSpace(texts[|texts| - 1]) then rest else rest + [|texts| - 1]
  }

  /** The tokens are the stripped visible texts, one per visible text, in
      order. */
  lemma {:induction false} KeywordTokensVisible(texts: seq<string>)
    ensures |KeywordTokens(texts)| == |VisibleAt(texts)|
    ensures forall i :: 0 <= i < |VisibleAt(texts)| ==> KeywordTokens(texts)[i] == Strip(texts[VisibleAt(texts)[i]])
  {
    if texts != [] {
      var c := texts[..|texts| - 1];
      KeywordTokensVisible(c);
      VisibleStep(texts, c, KeywordTokens(texts), KeywordTokens(c), VisibleAt(texts), VisibleAt(c));
    }
  }

  /** One more text keeps the tokens and the visible positions in step. */
  lemma VisibleStep(texts: seq<string>, c: seq<string>, ks: seq<string>, kc: seq<string>, ix: seq<nat>, xc: seq<nat>)
    requires texts != [] && c == texts[..|texts| - 1]
    requires |kc| == |xc| && forall i :: 0 <= i < |xc| ==> xc[i] < |c| && kc[i] == Strip(c[xc[i]])
    requires var t := texts[|texts| - 1];
             if AllSpace(t) then ks == kc && ix == xc
             else ks == kc + [Strip(t)] && ix == xc + [|texts| - 1]
    ensures |ks| == |ix| && forall i :: 0 <= i < |ix| ==> ks[i] == Strip(texts[ix[i]])
  {
    forall i | 0 <= i < |ix| ensures ks[i] == Strip(texts[ix[i]]) {
      if i < |xc| {
        assert ks[i] == kc[i] && ix[i] == xc[i] && c[xc[i]] == texts[xc[i]];
      }
    }
  }

  /** The first group of each match. */
  function FirstGroups(fs: seq<Found>): (gs: seq<string>)
    requires forall k :: 0 <= k < |fs| ==> |fs[k].groups| >= 1
    ensures |gs| == |fs| && forall k :: 0 <= k < |fs| ==> gs[k] == fs[k].groups[0]
  {
    seq(|fs|, k requires 0 <= k < |fs| => fs[k].groups[0])
  }

  /** `re.findall(r'<span class="Keyword"[^>]*>([^<]+)</span>', content)`
      followed by the token filter. */
  function ExtractKeywords(content: string): (ks: seq<string>)
    ensures forall k :: 0 <= k < |ks| ==> ks[k] != [] && NoEdgeSpace(ks[k])
  {
    KeywordTokens(FirstGroups(FindAll(KeywordSpan, content)))
  }

  /** `ks` are the stripped texts of the matches at positions `ix`, taken in
      order, and every match left out has a blank text. */
  predicate SpanSelection(fs: seq<Found>, ks: seq<string>, ix: seq<nat>)
    requires forall k :: 0 <= k < |fs| ==> |fs[k].groups| >= 1
  {
    && |ix| == |ks|
    && (forall i, j :: 0 <= i < j < |ix| ==> ix[i] < ix[j])
    && (forall i :: 0 <= i < |ix| ==> ix[i] < |fs| && ks[i] == Strip(fs[ix[i]].groups[0]))
    && (forall j :: 0 <= j < |fs| && j !in ix ==> AllSpace(fs[j].groups[0]))
  }

  /** Each keyword is the stripped text of a `Keyword` span of the document,
      the spans are taken in document order, and only blank spans are
      passed over. */
  lemma ExtractKeywordsFromSpans(content: string)
    ensures exists ix :: SpanSelection(FindAll(KeywordSpan, content), ExtractKeywords(content), ix)
  {
    var fs := FindAll(KeywordSpan, content);
    var ks := ExtractKeywords(content);
    assert ks == KeywordTokens(FirstGroups(fs));
    KeywordsOfSpans(fs);
    var ix :| SpanSelection(fs, ks, ix);
  }

  /** The same, for any list of one-group matches. */
  lemma KeywordsOfSpans(fs: seq<Found>)
    requires forall k :: 0 <= k < |fs| ==> |fs[k].groups| >= 1
    ensures exists ix :: SpanSelection(fs, KeywordTokens(FirstGroups(fs)), ix)
  {
    var texts := FirstGroups(fs);
    var ks := KeywordTokens(texts);
    var ix := VisibleAt(texts);
    KeywordTokensVisible(texts);
    assert forall i :: 0 <= i < |ix| ==> ix[i] < |fs| && ks[i] == Strip(fs[ix[i]].groups[0]) by {
      forall i | 0 <= i < |ix| ensures ix[i] < |fs| && ks[i] == Strip(fs[ix[i]].groups[0]) {
        assert texts[ix[i]] == fs[ix[i]].groups[0];
      }
    }
    assert forall j :: 0 <= j < |fs| && j !in ix ==> AllSpace(fs[j].groups[0]) by {
      forall j | 0 <= j < |fs| && j !in ix ensures AllSpace(fs[j].groups[0]) {
        assert texts[j] == fs[j].groups[0];
      }
    }
    assert SpanSelection(fs, ks, ix);
  }

  // ---------------------------------------------------------------------
  // The <keywordset> block

  const KeywordSetOpen := "<keywordset>\n"
  const KeywordSetClose := "   </keywordset>"
  const KeywordOpenTag := "      <keyword>"
  const KeywordCloseTag := "</keyword>\n"

  function KeywordEntry(k: string): string
  {
    KeywordOpenTag + Escape(k) + KeywordCloseTag
  }

  /** `f` of each element, joined in order. */
  function Joined(ks: seq<string>, f: string -> string): string
  {
    if ks == [] then [] else Joined(ks[..|ks| - 1], f) + f(ks[|ks| - 1])
  }

  lemma {:induction false} JoinedCons(k: string, ks: seq<string>, f: string -> string)
    ensures Joined([k] + ks, f) == f(k) + Joined(ks, f)
    decreases |ks|
  {
    if ks == [] {
      assert ([k] + ks)[..0] == [];
    } else {
      var c := ks[..|ks| - 1];
      assert ([k] + ks)[..|ks|] == [k] + c;
      JoinedCons(k, c, f);
    }
  }

  lemma JoinedSnoc(ks: seq<string>, i: nat, f: string -> string)
    requires i < |ks|
    ensures Joined(ks[..i + 1], f) == Joined(ks[..i], f) + f(ks[i])
  {
    assert ks[..i + 1][..i] == ks[..i];
  }

  /** The keyword lines, one per keyword, in order. */
  function KeywordEntries(ks: seq<string>): string
  {
    Joined(ks, KeywordEntry)
  }

  function KeywordSetXml(ks: seq<string>): string
  {
    KeywordSetOpen + KeywordEntries(ks) + KeywordSetClose
  }

  /** The loop that accumulates the `<keywordset>` block. */
  method BuildKeywordSet(ks: seq<string>) returns (x: string)
    ensures x == KeywordSetXml(ks)
    ensures ParseKeywordSet(x) == Some(ks)
  {
    var lines := "";
    for i := 0 to |ks|
      invariant lines == Joined(ks[..i], KeywordEntry)
    {
      JoinedSnoc(ks, i, KeywordEntry);
      lines := lines + KeywordEntry(ks[i]);
    }
    assert ks[..|ks|] == ks;
    x := KeywordSetOpen + lines + KeywordSetClose;
    KeywordSetRoundTrip(ks);
  }

  /** The keyword lines at the front of `x`, and what follows them. */
  function ParseEntries(x: string): (r: (seq<string>, string))
    ensures |r.1| <= |x|
    decreases |x|
  {
    if !OccursAt(x, KeywordOpenTag, 0) then ([], x)
    else
      var k := Upto(x, 15, '<');
      if !OccursAt(x, KeywordCloseTag, k) then ([], x)
      else
        var r := ParseEntries(x[k + 11..]);
        ([Unescape(x[15..k])] + r.0, r.1)
  }

  /** Reads a `<keywordset>` block back into its keywords. */
  function ParseKeywordSet(x: string): Option<seq<string>>
  {
    if !OccursAt(x, KeywordSetOpen, 0) then None
    else
      var r := ParseEntries(x[13..]);
      if r.1 == KeywordSetClose then Some(r.0) else None
  }

  /** One keyword line is read back as its keyword. */
  lemma ParseEntryOf(k: string, rest: string)
    ensures var x := KeywordEntry(k) + rest;
            && OccursAt(x, KeywordOpenTag, 0)
            && Upto(x, 15, '<') == 15 + |Escape(k)|
            && OccursAt(x, KeywordCloseTag, 15 + |Escape(k)|)
            && x[15..15 + |Escape(k)|] == Escape(k)
            && x[15 + |Escape(k)| + 11..] == rest
  {
    var x := KeywordEntry(k) + rest;
    var e := Escape(k);
    assert x[..15] == KeywordOpenTag;
    assert x[15..15 + |e|] == e;
    assert x[15 + |e|..15 + |e| + 11] == KeywordCloseTag;
    UptoIsFirst(x, 15, '<', 15 + |e|);
    assert x[15 + |e| + 11..] == rest;
  }

  lemma {:induction false} ParseEntriesOf(ks: seq<string>, tail: string)
    requires !OccursAt(tail, KeywordOpenTag, 0)
    ensures ParseEntries(KeywordEntries(ks) + tail) == (ks, tail)
    decreases |ks|
  {
    if ks == [] {
      assert KeywordEntries(ks) + tail == tail;
    } else {
      var rest := KeywordEntries(ks[1..]) + tail;
      JoinedCons(ks[0], ks[1..], KeywordEntry);
      assert [ks[0]] + ks[1..] == ks;
      var x := KeywordEntry(ks[0]) + rest;
      assert x == KeywordEntries(ks) + tail;
      ParseEntryOf(ks[0], rest);
      ParseEntriesOf(ks[1..], tail);
      UnescapeEscape(ks[0]);
    }
  }

  /** The block written for a keyword list reads back as that list: one
      `<keyword>` per keyword, in order, each decoded to its keyword. */
  lemma KeywordSetRoundTrip(ks: seq<string>)
    ensures ParseKeywordSet(KeywordSetXml(ks)) == Some(ks)
  {
    var x := KeywordSetXml(ks);
    assert x[..13] == KeywordSetOpen;
    assert x[13..] == KeywordEntries(ks) + KeywordSetClose;
    assert KeywordSetClose[3] == '<';
    ParseEntriesOf(ks, KeywordSetClose);
  }

  /** The block opens with the `<keywordset>` tag. */
  lemma KeywordSetXmlHasTag(ks: seq<string>)
    ensures OccursAt(KeywordSetXml(ks), "<keywordset>", 0)
  {
    assert KeywordSetXml(ks)[..12] == "<keywordset>";
  }

  // ---------------------------------------------------------------------
  // The rebuilt <bibliomixed> entry

  /** `f'<bibliomixed id="{bib_id}">{html.escape(full_citation)}</bibliomixed>'`. */
  function BibEntry(id: string, citation: string): string
  {
    BiblioOpen + id + "\">" + Escape(citation) + BiblioClose
  }

  /** A rebuilt entry is read by the entry pattern as the same id and the
      escaped citation, which decodes to the citation. */
  lemma BibEntryReads(id: string, citation: string, rest: string)
    requires id != [] && forall k :: 0 <= k < |id| ==> id[k] != '"'
    ensures var s := BibEntry(id, citation) + rest;
            && BiblioAt(s, 0) == Some(Match(|BibEntry(id, citation)|, [id, Escape(citation)]))
            && Unescape(Escape(citation)) == citation
  {
    var e := Escape(citation);
    var s := BibEntry(id, citation) + rest;
    var j := |BiblioOpen|;
    var q := j + |id|;
    var k := q + 2 + |e|;
    assert s[..j] == BiblioOpen;
    assert s[j..q] == id;
    assert s[q..q + 2] == "\">";
    UptoIsFirst(s, j, '"', q);
    assert s[q + 2..k] == e;
    assert s[k..k + |BiblioClose|] == BiblioClose;
    UptoIsFirst(s, q + 2, '<', k);
    BiblioAtParts(s, q, k);
    UnescapeEscape(citation);
  }

  lemma BiblioAtParts(s: string, q: nat, k: nat)
    requires OccursAt(s, BiblioOpen, 0) && |BiblioOpen| < q && q + 2 <= k
    requires Upto(s, |BiblioOpen|, '"') == q && OccursAt(s, "\">", q)
    requires Upto(s, q + 2, '<') == k && OccursAt(s, BiblioClose, k)
    ensures BiblioAt(s, 0) == Some(Match(k + |BiblioClose|, [s[|BiblioOpen|..q], s[q + 2..k]]))
  {
  }

  // ---------------------------------------------------------------------
  // Citation ids, files and records

  /** A citation id read by the citation pattern is `CR` followed by one or
      more digits. */
  lemma CitationIdShape(s: string, i: nat)
    requires i <= |s| && CitationAt(s, i).Some?
    ensures var g := CitationAt(s, i).value.groups[0];
            |g| > 2 && g[..2] == "CR" && AllDigits(g[2..])
  {
    var j := i + |CitationOpen|;
    var d := RunEnd(s, j, Digit);
    var g := s[j - 2..d];
    assert s[i..j][|CitationOpen| - 2..] == "CR";
    assert g[..2] == s[i..j][|CitationOpen| - 2..];
    assert g[2..] == s[j..d];
  }

  /** Every id that `re.findall` returns for the citation pattern is `CR`
      followed by digits. */
  lemma FoundCitationIds(s: string)
    ensures var r := FindAll(CitationDiv, s);
            forall k :: 0 <= k < |r| ==> |r[k].groups[0]| > 2 && r[k].groups[0][..2] == "CR" && AllDigits(r[k].groups[0][2..])
  {
    var r := FindAll(CitationDiv, s);
    FindAllSpec(CitationDiv, s);
    forall k | 0 <= k < |r|
      ensures |r[k].groups[0]| > 2 && r[k].groups[0][..2] == "CR" && AllDigits(r[k].groups[0][2..])
    {
      CitationIdShape(s, r[k].start);
    }
  }

  /** `CR` followed by digits. */
  predicate CitationId(id: string)
  {
    |id| > 2 && id[..2] == "CR" && AllDigits(id[2..])
  }

  /** `int(digits)` of a citation id `CR<digits>`. */
  function CitationNumber(id: string): nat
    requires CitationId(id)
  {
    ParseNat(id[2..])
  }

  /** The dictionary that the assignments `d[k] = v` of `ps`, made in order
      to an empty dictionary, leave behind. */
  function Assigned<K, V>(ps: seq<(K, V)>): map<K, V>
  {
    if ps == [] then map[]
    else Assigned(ps[..|ps| - 1])[ps[|ps| - 1].0 := ps[|ps| - 1].1]
  }

  /** One more assignment. */
  lemma AssignedSnoc<K, V>(ps: seq<(K, V)>, i: nat)
    requires i < |ps|
    ensures Assigned(ps[..i + 1]) == Assigned(ps[..i])[ps[i].0 := ps[i].1]
  {
    assert ps[..i + 1][..i] == ps[..i];
  }

  /** Like `Assigned`, passing over the pairs that have no key. */
  function AssignedSome<K, V>(ps: seq<(Option<K>, V)>): map<K, V>
  {
    if ps == [] then map[]
    else
      var m := AssignedSome(ps[..|ps| - 1]);
      var p := ps[|ps| - 1];
      if p.0.Some? then m[p.0.value := p.1] else m
  }

  /** When every pair has a key, nothing is passed over. */
  lemma {:induction false} AssignedSomeAll<K, V>(ps: seq<(Option<K>, V)>, qs: seq<(K, V)>)
    requires |qs| == |ps|
    requires forall k :: 0 <= k < |ps| ==> ps[k].0 == Some(qs[k].0) && ps[k].1 == qs[k].1
    ensures AssignedSome(ps) == Assigned(qs)
  {
    if ps != [] {
      AssignedSomeAll(ps[..|ps| - 1], qs[..|qs| - 1]);
    }
  }

  /** A key is present exactly when some assignment wrote it, and it holds
      the value of the last such assignment. */
  lemma {:induction false} AssignedLastWins<K, V>(ps: seq<(K, V)>, id: K)
    ensures id in Assigned(ps) <==> exists k :: 0 <= k < |ps| && ps[k].0 == id
    ensures id in Assigned(ps) ==>
              exists k :: 0 <= k < |ps| && ps[k].0 == id && Assigned(ps)[id] == ps[k].1
                          && forall j :: k < j < |ps| ==> ps[j].0 != id
  {
    if ps != [] {
      var init := ps[..|ps| - 1];
      var last := |ps| - 1;
      AssignedLastWins(init, id);
      if ps[last].0 != id {
        if id in Assigned(ps) {
          var k :| 0 <= k < |init| && init[k].0 == id && Assigned(init)[id] == init[k].1
                   && forall j :: k < j < |init| ==> init[j].0 != id;
          assert ps[k] == init[k];
          assert forall j :: k < j < |ps| ==> ps[j].0 != id by {
            forall j | k < j < |ps| ensures ps[j].0 != id {
              if j < last { assert ps[j] == init[j]; }
            }
          }
        }
        forall k | 0 <= k < |ps| && ps[k].0 == id ensures id in Assigned(init) {
          assert k < last && ps[k] == init[k];
        }
      }
    }
  }

  /** `len(current) < len(full) * 0.7`, with 0.7 taken as exactly 7/10. */
  predicate Truncated(current: string, full: string)
  {
    10 * |current| < 7 * |full|
  }
  /** `re.search(p, s)`: the leftmost match, which is the first one
      `finditer` reports. */
  function SearchFirst(p: Pattern, s: string): (r: Option<Found>)
    ensures r.Some? ==> |r.value.groups| == Arity(p) && r.value.start < r.value.end <= |s|
  {
    var fs := FindAll(p, s);
    if fs == [] then None else Some(fs[0])
  }

  /** The first match reported is a match, and no match starts before it. */
  lemma SearchFirstSpec(p: Pattern, s: string)
    ensures match SearchFirst(p, s)
            case None => forall j: nat :: j < |s| ==> MatchAt(p, s, j).None?
            case Some(f) => MatchAt(p, s, f.start) == Some(Match(f.end, f.groups))
                            && forall j: nat :: j < f.start ==> MatchAt(p, s, j).None?
  {
    FindAllSpec(p, s);
  }

  /** A file of a directory: its name and its text. */
  datatype File = File(name: string, content: string)

  /** The record the keyword repairs keep of a rewrite. */
  datatype KeywordFix = KeywordFix(file: string, original: string, keywords: seq<string>)

  /** The first file, in directory order, that
      `glob(f'*_{n}_Chapter.xhtml')` returns. */
  function ChapterFile(files: seq<File>, n: int): (r: Option<File>)
    ensures r.Some? ==> r.value in files
    ensures r.Some? ==> EndsWith(r.value.name, "_" + IntToString(n) + ChapterSuffix)
    ensures r.None? ==> forall k :: 0 <= k < |files| ==> !EndsWith(files[k].name, "_" + IntToString(n) + ChapterSuffix)
  {
    if files == [] then None
    else if EndsWith(files[0].name, "_" + IntToString(n) + ChapterSuffix) then Some(files[0])
    else ChapterFile(files[1..], n)
  }

  predicate EndsWith(s: string, suffix: string)
  {
    |suffix| <= |s| && s[|s| - |suffix|..] == suffix
  }

  /** A file selected for chapter `n >= 0` is read back as chapter `n` by the
      file-name parser. */
  lemma ChapterFileNumber(files: seq<File>, n: nat)
    requires ChapterFile(files, n).Some?
    ensures XhtmlChapterNumber(ChapterFile(files, n).value.name) == Some(n)
  {
    var name := ChapterFile(files, n).value.name;
    var digits := NatToDigits(n);
    assert IntToString(n) == digits;
    var prefix := name[..|name| - |"_" + digits + ChapterSuffix|];
    EndsWithParts(name, "_" + digits + ChapterSuffix);
    assert name == prefix + "_" + digits + ChapterSuffix;
    XhtmlChapterNumberOf(prefix, n);
  }

  lemma EndsWithParts(s: string, suffix: string)
    requires EndsWith(s, suffix)
    ensures s == s[..|s| - |suffix|] + suffix
  {
  }
}
