/// `CitationParser` of fix_content_loss.py: an `HTMLParser` subclass that
/// collects the text of `<div class="CitationContent">` elements by id and the
/// text of `<span class="Keyword">` elements in document order. The HTML
/// tokenizer is not modelled: the parser is driven by the start-tag, end-tag
/// and data events it would report, with tag names already lower-cased.
module CitationParsing {
  import opened Text

  /** One attribute as the tokenizer reports it; `value` is `None` for an
      attribute written without a value. */
  datatype Attr = Attr(name: string, value: Option<string>)

  datatype Event =
    | StartTag(tag: string, attrs: seq<Attr>)
    | EndTag(tag: string)
    | Data(text: string)

  /** `dict(attrs).get(name)`: the value of the last attribute called `name`,
      or `None` (the outer one) when there is none. */
  function AttrLookup(attrs: seq<Attr>, name: string): (r: Option<Option<string>>)
    ensures r.None? <==> forall i :: 0 <= i < |attrs| ==> attrs[i].name != name
    ensures r.Some? ==> exists i :: 0 <= i < |attrs| && attrs[i].name == name && attrs[i].value == r.value
                                    && forall j :: i < j < |attrs| ==> attrs[j].name != name
  {
    if attrs == [] then None
    else if attrs[|attrs| - 1].name == name then Some(attrs[|attrs| - 1].value)
    else AttrLookup(attrs[..|attrs| - 1], name)
  }

  /** `attrs_dict.get('class') == cls`. */
  predicate HasClass(attrs: seq<Attr>, cls: string)
  {
    AttrLookup(attrs, "class") == Some(Some(cls))
  }

  /** `attrs_dict.get('id', '')`: the empty id when there is no `id`
      attribute, `None` when it has no value. */
  function IdAttr(attrs: seq<Attr>): Option<string>
  {
    match AttrLookup(attrs, "id")
    case None => Some("")
    case Some(v) => v
  }

  /** `''.join(parts)`. */
  function Concat(parts: seq<string>): string
  {
    if parts == [] then [] else Concat(parts[..|parts| - 1]) + parts[|parts| - 1]
  }

  /** The parser's fields. */
  datatype ParserState = ParserState(
    citations: map<string, string>,
    keywords: seq<string>,
    inCitation: bool,
    inKeyword: bool,
    citationId: Option<string>,
    citationText: seq<string>,
    keywordText: seq<string>)

  const Initial := ParserState(map[], [], false, false, None, [], [])

  /** `self.current_citation_id` is truthy. */
  predicate HasId(st: ParserState)
  {
    st.citationId.Some? && st.citationId.value != []
  }

  /** `handle_starttag`. */
  function StartStep(st: ParserState, tag: string, attrs: seq<Attr>): ParserState
  {
    var st1 :=
      if tag == "div" && HasClass(attrs, "CitationContent")
      then st.(inCitation := true, citationId := IdAttr(attrs), citationText := [])
      else st;
    if tag == "span" && HasClass(attrs, "Keyword")
    then st1.(inKeyword := true, keywordText := [])
    else st1
  }

  /** The first half of `handle_endtag`: a closing `div` ends an open
      citation and stores its text when the id is truthy. */
  function CloseCitation(st: ParserState, tag: string): ParserState
  {
    if tag == "div" && st.inCitation then
      var cs := if HasId(st)
                then st.citations[st.citationId.value := Normalize(Concat(st.citationText))]
                else st.citations;
      st.(inCitation := false, citations := cs, citationId := None, citationText := [])
    else st
  }

  /** The second half: a closing `span` ends an open keyword and appends its
      stripped text when that is not empty. */
  function CloseKeyword(st: ParserState, tag: string): ParserState
  {
    if tag == "span" && st.inKeyword then
      var k := Strip(Concat(st.keywordText));
      st.(inKeyword := false, keywords := if k != [] then st.keywords + [k] else st.keywords,
          keywordText := [])
    else st
  }

  /** `handle_endtag`. */
  function EndStep(st: ParserState, tag: string): ParserState
  {
    CloseKeyword(CloseCitation(st, tag), tag)
  }

  /** `handle_data`. */
  function DataStep(st: ParserState, d: string): ParserState
  {
    st.(citationText := if st.inCitation then st.citationText + [d] else st.citationText,
        keywordText := if st.inKeyword then st.keywordText + [d] else st.keywordText)
  }

  function Step(st: ParserState, e: Event): ParserState
  {
    match e
    case StartTag(tag, attrs) => StartStep(st, tag, attrs)
    case EndTag(tag) => EndStep(st, tag)
    case Data(d) => DataStep(st, d)
  }

  /** The state after feeding `es`, one event after another. */
  function Run(st: ParserState, es: seq<Event>): ParserState
  {
    if es == [] then st else Step(Run(st, es[..|es| - 1]), es[|es| - 1])
  }

  /** What the parser keeps true between events: every keyword is non-empty
      and stripped, every citation is stored under a non-empty id as
      normalized text, no id is pending while no citation is open,
      and the buffers are empty while their element is closed. */
  predicate Inv(st: ParserState)
  {
    && (forall k :: 0 <= k < |st.keywords| ==> st.keywords[k] != [] && NoEdgeSpace(st.keywords[k]))
    && (forall id :: id in st.citations ==> id != [] && Normalized(st.citations[id]))
    && (!st.inCitation ==> st.citationId.None?)
    && (!st.inCitation ==> st.citationText == [])
    && (!st.inKeyword ==> st.keywordText == [])
  }

  lemma InitialInv()
    ensures Inv(Initial)
  {
  }

  lemma CloseCitationInv(st: ParserState, tag: string)
    requires Inv(st)
    ensures Inv(CloseCitation(st, tag))
  {
    if tag == "div" && st.inCitation && HasId(st) {
      NormalizeSpec(Concat(st.citationText));
    }
  }

  lemma CloseKeywordInv(st: ParserState, tag: string)
    requires Inv(st)
    ensures Inv(CloseKeyword(st, tag))
  {
  }

  lemma EndInv(st: ParserState, tag: string)
    requires Inv(st)
    ensures Inv(EndStep(st, tag))
  {
    CloseCitationInv(st, tag);
    CloseKeywordInv(CloseCitation(st, tag), tag);
  }

  lemma StepInv(st: ParserState, e: Event)
    requires Inv(st)
    ensures Inv(Step(st, e))
  {
    match e
    case StartTag(tag, attrs) =>
    case EndTag(tag) => EndInv(st, tag);
    case Data(d) =>
  }

  /** Every state the parser reaches from its initial state keeps `Inv`. */
  lemma {:induction false} RunInv(es: seq<Event>)
    ensures Inv(Run(Initial, es))
  {
    if es != [] {
      RunInv(es[..|es| - 1]);
      StepInv(Run(Initial, es[..|es| - 1]), es[|es| - 1]);
    }
  }

  /** An event adds at most one keyword, at the end, and removes no stored
      citation id. */
  lemma StepGrows(st: ParserState, e: Event)
    ensures var st' := Step(st, e);
            && |st.keywords| <= |st'.keywords| <= |st.keywords| + 1
            && st'.keywords[..|st.keywords|] == st.keywords
            && st.citations.Keys <= st'.citations.Keys
  {
  }

  /** Keywords keep document order: feeding more events only appends. */
  lemma {:induction false} RunGrows(st: ParserState, es: seq<Event>)
    ensures var st' := Run(st, es);
            && |st.keywords| <= |st'.keywords|
            && st'.keywords[..|st.keywords|] == st.keywords
            && st.citations.Keys <= st'.citations.Keys
  {
    if es != [] {
      var mid := Run(st, es[..|es| - 1]);
      RunGrows(st, es[..|es| - 1]);
      StepGrows(mid, es[|es| - 1]);
      var ks := Run(st, es).keywords;
      assert ks[..|mid.keywords|] == mid.keywords;
      assert ks[..|st.keywords|] == ks[..|mid.keywords|][..|st.keywords|];
    }
  }

  lemma RunThree(st: ParserState, a: Event, b: Event, c: Event)
    ensures Run(st, [a, b, c]) == Step(Step(Step(st, a), b), c)
  {
    assert [a, b, c][..2] == [a, b];
    assert [a, b][..1] == [a];
    assert [a][..0] == [];
    assert Run(st, [a]) == Step(st, a);
    assert Run(st, [a, b]) == Step(Step(st, a), b);
  }

  /** A keyword span with one text in it records that text stripped, unless
      it is blank, after the keywords already there. */
  lemma KeywordSpanRecorded(st: ParserState, attrs: seq<Attr>, d: string)
    requires HasClass(attrs, "Keyword")
    ensures Run(st, [StartTag("span", attrs), Data(d), EndTag("span")]).keywords
            == st.keywords + (if AllSpace(d) then [] else [Strip(d)])
  {
    RunThree(st, StartTag("span", attrs), Data(d), EndTag("span"));
    assert Concat([d]) == d by { assert [d][..0] == []; }
  }

  /** A citation div with one text in it stores the normalized text under its
      id, replacing an earlier citation with the same id; with an empty id
      nothing is stored. */
  lemma CitationDivRecorded(st: ParserState, attrs: seq<Attr>, d: string, id: string)
    requires HasClass(attrs, "CitationContent") && IdAttr(attrs) == Some(id)
    ensures var st' := Run(st, [StartTag("div", attrs), Data(d), EndTag("div")]);
            && st'.citations == (if id != [] then st.citations[id := Normalize(d)] else st.citations)
            && !st'.inCitation && st'.citationText == []
  {
    RunThree(st, StartTag("div", attrs), Data(d), EndTag("div"));
    assert Concat([d]) == d by { assert [d][..0] == []; }
  }

  /** A closing tag of another kind, or one that closes nothing, changes
      nothing. */
  lemma UnrelatedEndTag(st: ParserState, tag: string)
    requires !(tag == "div" && st.inCitation) && !(tag == "span" && st.inKeyword)
    ensures EndStep(st, tag) == st
  {
  }

  /** The parser object. */
  class CitationParser {
    var citations: map<string, string>
    var keywords: seq<string>
    var inCitation: bool
    var inKeyword: bool
    var currentCitationId: Option<string>
    var currentCitationText: seq<string>
    var currentKeywordText: seq<string>

    function State(): ParserState
      reads this
    {
      ParserState(citations, keywords, inCitation, inKeyword,
                  currentCitationId, currentCitationText, currentKeywordText)
    }

    constructor()
      ensures State() == Initial
    {
      citations := map[];
      keywords := [];
      inCitation := false;
      inKeyword := false;
      currentCitationId := None;
      currentCitationText := [];
      currentKeywordText := [];
    }

    method HandleStartTag(tag: string, attrs: seq<Attr>)
      modifies this
      ensures State() == StartStep(old(State()), tag, attrs)
    {
      if tag == "div" && HasClass(attrs, "CitationContent") {
        inCitation := true;
        currentCitationId := IdAttr(attrs);
        currentCitationText := [];
      }
      if tag == "span" && HasClass(attrs, "Keyword") {
        inKeyword := true;
        currentKeywordText := [];
      }
    }

    method HandleEndTag(tag: string)
      modifies this
      ensures State() == EndStep(old(State()), tag)
    {
      if tag == "div" && inCitation {
        inCitation := false;
        if currentCitationId.Some? && currentCitationId.value != [] {
          var fullText := Normalize(Concat(currentCitationText));
          citations := citations[currentCitationId.value := fullText];
        }
        currentCitationId := None;
        currentCitationText := [];
      }
      if tag == "span" && inKeyword {
        inKeyword := false;
        var keywordText := Strip(Concat(currentKeywordText));
        if keywordText != [] {
          keywords := keywords + [keywordText];
        }
        currentKeywordText := [];
      }
    }

    method HandleData(d: string)
      modifies this
      ensures State() == DataStep(old(State()), d)
    {
      if inCitation {
        currentCitationText := currentCitationText + [d];
      }
      if inKeyword {
        currentKeywordText := currentKeywordText + [d];
      }
    }

    /** `feed`: every event handed to its handler, in order. */
    method Feed(es: seq<Event>)
      modifies this
      ensures State() == Run(old(State()), es)
    {
      for i := 0 to |es|
        invariant State() == Run(old(State()), es[..i])
      {
        assert es[..i + 1][..i] == es[..i];
        match es[i]
        case StartTag(tag, attrs) => HandleStartTag(tag, attrs);
        case EndTag(tag) => HandleEndTag(tag);
        case Data(d) => HandleData(d);
      }
      assert es[..|es|] == es;
    }
  }

  /** `parse_xhtml_citations`: a fresh parser fed the whole document. */
  method ParseXhtmlCitations(es: seq<Event>) returns (citations: map<string, string>, keywords: seq<string>)
    ensures citations == Run(Initial, es).citations && keywords == Run(Initial, es).keywords
    ensures forall k :: 0 <= k < |keywords| ==> keywords[k] != [] && NoEdgeSpace(keywords[k])
    ensures forall id :: id in citations ==> id != [] && Normalized(citations[id])
  {
    var p := new CitationParser();
    p.Feed(es);
    citations := p.citations;
    keywords := p.keywords;
    RunInv(es);
  }
}
