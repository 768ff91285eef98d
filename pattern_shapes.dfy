/// What each cleaning pattern matches, stated as the shape of the matched
/// text rather than as the scan that finds it, and what `re.sub` makes of a
/// text: its unmatched gaps and the replacements of the `finditer` matches,
/// joined in order.
module PatternShapes {
  import opened Text
  import opened Patterns

  // ---------------------------------------------------------------------
  // Element patterns: `<open[^>]*>([^<]*)close`

  /** `x` is `open`, attributes without `>`, `>`, the text `g` without `<`,
      and `close`; `g` is not empty when `nonEmpty` (`[^<]+`). */
  ghost predicate ElementText(x: string, open: string, close: string, nonEmpty: bool, g: string)
  {
    exists a: string :: ElementParts(x, open, a, g, close) && '>' !in a && '<' !in g && (nonEmpty ==> g != [])
  }

  predicate ElementParts(x: string, open: string, a: string, g: string, close: string)
  {
    x == open + a + ">" + g + close
  }

  /** An element pattern matches at `i`, ending at `e` with group `g`,
      exactly when the text from `i` to `e` has the element's shape. */
  lemma ElementAtIff(s: string, i: nat, open: string, close: string, nonEmpty: bool, e: nat, g: string)
    requires i <= |s| && |close| > 0 && close[0] == '<'
    ensures ElementAt(s, i, open, close, nonEmpty) == Some(Match(e, [g])) <==>
              i <= e <= |s| && ElementText(s[i..e], open, close, nonEmpty, g)
  {
    if ElementAt(s, i, open, close, nonEmpty) == Some(Match(e, [g])) {
      ElementAtText(s, i, open, close, nonEmpty);
    }
    if i <= e <= |s| && ElementText(s[i..e], open, close, nonEmpty, g) {
      var a :| ElementParts(s[i..e], open, a, g, close) && '>' !in a && '<' !in g && (nonEmpty ==> g != []);
      ElementTextAt(s, i, open, close, nonEmpty, a, g, e);
    }
  }

  lemma ElementAtText(s: string, i: nat, open: string, close: string, nonEmpty: bool)
    requires i <= |s| && |close| > 0 && ElementAt(s, i, open, close, nonEmpty).Some?
    ensures var m := ElementAt(s, i, open, close, nonEmpty).value;
            ElementText(s[i..m.end], open, close, nonEmpty, m.groups[0])
  {
    var q := Upto(s, i + |open|, '>');
    var k := Upto(s, q + 1, '<');
    assert ElementAt(s, i, open, close, nonEmpty) == Some(Match(k + |close|, [s[q + 1..k]]));
    ElementOfSlices(s, i, open, close, nonEmpty, q, k);
  }

  lemma ElementOfSlices(s: string, i: nat, open: string, close: string, nonEmpty: bool, q: nat, k: nat)
    requires i + |open| <= q < k && k + |close| <= |s| && (nonEmpty ==> q + 1 < k)
    requires s[i..i + |open|] == open && s[q] == '>' && s[k..k + |close|] == close
    requires forall t :: i + |open| <= t < q ==> s[t] != '>'
    requires forall t :: q + 1 <= t < k ==> s[t] != '<'
    ensures ElementText(s[i..k + |close|], open, close, nonEmpty, s[q + 1..k])
  {
    PartsOfSlices(s, i, i + |open|, q, q + 1, k, k + |close|, '>', '<');
    assert s[q..q + 1] == ">";
    ElementTextOf(s[i..k + |close|], open, s[i + |open|..q], s[q + 1..k], close, nonEmpty);
  }

  lemma ElementTextOf(x: string, open: string, a: string, g: string, close: string, nonEmpty: bool)
    requires ElementParts(x, open, a, g, close) && '>' !in a && '<' !in g && (nonEmpty ==> g != [])
    ensures ElementText(x, open, close, nonEmpty, g)
  {
  }

  lemma ElementTextAt(s: string, i: nat, open: string, close: string, nonEmpty: bool, a: string, g: string, e: nat)
    requires i <= e <= |s| && |close| > 0 && close[0] == '<'
    requires ElementParts(s[i..e], open, a, g, close) && '>' !in a && '<' !in g && (nonEmpty ==> g != [])
    ensures ElementAt(s, i, open, close, nonEmpty) == Some(Match(e, [g]))
  {
    SlicesOfParts(s, i, e, open, a, ">", g, close, '>', '<');
    ElementAtOf(s, i, open, close, nonEmpty, i + |open| + |a|, i + |open| + |a| + 1 + |g|);
  }

  /** `ElementAt` read off the positions it finds. */
  lemma ElementAtOf(s: string, i: nat, open: string, close: string, nonEmpty: bool, q: nat, k: nat)
    requires i + |open| <= q < |s| && |close| > 0
    requires OccursAt(s, open, i) && Upto(s, i + |open|, '>') == q && Upto(s, q + 1, '<') == k
    requires OccursAt(s, close, k) && (nonEmpty ==> k != q + 1)
    ensures ElementAt(s, i, open, close, nonEmpty) == Some(Match(k + |close|, [s[q + 1..k]]))
  {
  }

  /** The open and close tags of a wrapper element pattern, and whether its
      text may be empty. */
  function WrapperOpen(p: Pattern): string
  {
    match p
    case AnchorElement => "<a"
    case EmphasisElement => "<em"
    case SpanElement => "<span"
    case KeywordSpan => KeywordOpen
    case _ => ChapterTitleOpen
  }

  function WrapperClose(p: Pattern): string
  {
    match p
    case AnchorElement => "</a>"
    case EmphasisElement => "</em>"
    case KeywordSpan => "</span>"
    case SpanElement => "</span>"
    case _ => "</h1>"
  }

  predicate IsWrapper(p: Pattern)
  {
    p.AnchorElement? || p.EmphasisElement? || p.SpanElement? || p.KeywordSpan? || p.ChapterTitleHeading?
  }

  /** `<a[^>]*>([^<]*)</a>`, `<em[^>]*>([^<]*)</em>`,
      `<span[^>]*>([^<]*)</span>`, `<span class="Keyword"[^>]*>([^<]+)</span>`
      and `<h1 class="ChapterTitle"[^>]*>([^<]+)</h1>` match at `i`, up to
      `e` with group `g`, exactly when the text between has that shape. */
  lemma WrapperMatchIff(p: Pattern, s: string, i: nat, e: nat, g: string)
    requires IsWrapper(p) && i <= |s|
    ensures MatchAt(p, s, i) == Some(Match(e, [g])) <==>
              i <= e <= |s| && ElementText(s[i..e], WrapperOpen(p), WrapperClose(p), p.KeywordSpan? || p.ChapterTitleHeading?, g)
  {
    ElementAtIff(s, i, WrapperOpen(p), WrapperClose(p), p.KeywordSpan? || p.ChapterTitleHeading?, e, g);
  }

  // ---------------------------------------------------------------------
  // Decorative spans: `<span class="RefSource">[^<]*</span>` and
  // `<span class="Occurrence[^"]*">[^<]*</span>`

  /** `x` is the opening of the span (with a class tail `a` without `"`
      and `">` for `Occurrence`), a text `g` without `<`, and `</span>`. */
  ghost predicate DecorationText(x: string, occurrence: bool)
  {
    exists a: string, g: string :: DecorationParts(x, occurrence, a, g) && '"' !in a && '<' !in g
  }

  predicate DecorationParts(x: string, occurrence: bool, a: string, g: string)
  {
    if occurrence then x == OccurrenceOpen + a + "\">" + g + "</span>"
    else a == [] && x == RefSourceOpen + g + "</span>"
  }

  /** A decorative span pattern matches at `i`, up to `e`, exactly when the
      text between has the span's shape. */
  lemma DecorationMatchIff(p: Pattern, s: string, i: nat, e: nat)
    requires (p.RefSourceSpan? || p.OccurrenceSpan?) && i <= |s|
    ensures MatchAt(p, s, i) == Some(Match(e, [])) <==> i <= e <= |s| && DecorationText(s[i..e], p.OccurrenceSpan?)
  {
    var occ := p.OccurrenceSpan?;
    if DecorationAt(s, i, occ) == Some(Match(e, [])) {
      DecorationAtText(s, i, occ);
    }
    if i <= e <= |s| && DecorationText(s[i..e], occ) {
      var a, g :| DecorationParts(s[i..e], occ, a, g) && '"' !in a && '<' !in g;
      DecorationTextAt(s, i, occ, a, g, e);
    }
  }

  lemma DecorationAtText(s: string, i: nat, occurrence: bool)
    requires i <= |s| && DecorationAt(s, i, occurrence).Some?
    ensures DecorationText(s[i..DecorationAt(s, i, occurrence).value.end], occurrence)
  {
    if occurrence {
      OccurrenceAtText(s, i);
    } else {
      RefSourceAtText(s, i);
    }
  }

  lemma RefSourceAtText(s: string, i: nat)
    requires i <= |s| && DecorationAt(s, i, false).Some?
    ensures DecorationText(s[i..DecorationAt(s, i, false).value.end], false)
  {
    var t := i + |RefSourceOpen|;
    var k := Upto(s, t, '<');
    assert DecorationAt(s, i, false) == Some(Match(k + 7, []));
    RefSourceOfSlices(s, i, k);
  }

  lemma RefSourceOfSlices(s: string, i: nat, k: nat)
    requires i + |RefSourceOpen| <= k && k + 7 <= |s|
    requires s[i..i + |RefSourceOpen|] == RefSourceOpen && s[k..k + 7] == "</span>"
    requires forall t :: i + |RefSourceOpen| <= t < k ==> s[t] != '<'
    ensures DecorationText(s[i..k + 7], false)
  {
    var t := i + |RefSourceOpen|;
    assert s[i..k + 7] == s[i..t] + s[t..k] + s[k..k + 7];
    NotInSlice(s, t, k, '<');
    DecorationTextOf(s[i..k + 7], false, [], s[t..k]);
  }

  lemma OccurrenceAtText(s: string, i: nat)
    requires i <= |s| && DecorationAt(s, i, true).Some?
    ensures DecorationText(s[i..DecorationAt(s, i, true).value.end], true)
  {
    var b := i + |OccurrenceOpen|;
    var t := Upto(s, b, '"');
    var k := Upto(s, t + 2, '<');
    assert DecorationAt(s, i, true) == Some(Match(k + 7, []));
    OccurrenceOfSlices(s, i, t, k);
  }

  lemma OccurrenceOfSlices(s: string, i: nat, t: nat, k: nat)
    requires i + |OccurrenceOpen| <= t && t + 2 <= k && k + 7 <= |s|
    requires s[i..i + |OccurrenceOpen|] == OccurrenceOpen && s[t..t + 2] == "\">" && s[k..k + 7] == "</span>"
    requires forall j :: i + |OccurrenceOpen| <= j < t ==> s[j] != '"'
    requires forall j :: t + 2 <= j < k ==> s[j] != '<'
    ensures DecorationText(s[i..k + 7], true)
  {
    var b := i + |OccurrenceOpen|;
    PartsOfSlices(s, i, b, t, t + 2, k, k + 7, '"', '<');
    DecorationTextOf(s[i..k + 7], true, s[b..t], s[t + 2..k]);
  }

  lemma DecorationTextOf(x: string, occurrence: bool, a: string, g: string)
    requires DecorationParts(x, occurrence, a, g) && '"' !in a && '<' !in g
    ensures DecorationText(x, occurrence)
  {
  }

  lemma DecorationTextAt(s: string, i: nat, occurrence: bool, a: string, g: string, e: nat)
    requires i <= e <= |s|
    requires DecorationParts(s[i..e], occurrence, a, g) && '"' !in a && '<' !in g
    ensures DecorationAt(s, i, occurrence) == Some(Match(e, []))
  {
    if occurrence {
      OccurrenceTextAt(s, i, a, g, e);
    } else {
      RefSourceTextAt(s, i, a, g, e);
    }
  }

  lemma RefSourceTextAt(s: string, i: nat, a: string, g: string, e: nat)
    requires i <= e <= |s|
    requires DecorationParts(s[i..e], false, a, g) && '<' !in g
    ensures DecorationAt(s, i, false) == Some(Match(e, []))
  {
    var t := i + |RefSourceOpen|;
    var k := t + |g|;
    assert OccursAt(s, RefSourceOpen, i) && Upto(s, t, '<') == k && OccursAt(s, "</span>", k) && e == k + 7 by {
      Split(s, i, e, RefSourceOpen + g, "</span>");
      Split(s, i, k, RefSourceOpen, g);
      Absent(s, t, k, '<');
      assert s[k] == s[k..e][0];
      UptoIsFirst(s, t, '<', k);
    }
    RefSourceAtOf(s, i, k);
  }

  lemma RefSourceAtOf(s: string, i: nat, k: nat)
    requires i + |RefSourceOpen| <= |s| && OccursAt(s, RefSourceOpen, i)
    requires Upto(s, i + |RefSourceOpen|, '<') == k && OccursAt(s, "</span>", k)
    ensures DecorationAt(s, i, false) == Some(Match(k + 7, []))
  {
  }

  lemma OccurrenceTextAt(s: string, i: nat, a: string, g: string, e: nat)
    requires i <= e <= |s|
    requires DecorationParts(s[i..e], true, a, g) && '"' !in a && '<' !in g
    ensures DecorationAt(s, i, true) == Some(Match(e, []))
  {
    var b := i + |OccurrenceOpen|;
    var t := b + |a|;
    var k := t + 2 + |g|;
    assert && OccursAt(s, OccurrenceOpen, i) && Upto(s, b, '"') == t && OccursAt(s, "\">", t)
           && Upto(s, t + 2, '<') == k && OccursAt(s, "</span>", k) && e == k + 7 by {
      SlicesOfParts(s, i, e, OccurrenceOpen, a, "\">", g, "</span>", '"', '<');
    }
    OccurrenceAtOf(s, i, t, k);
  }

  lemma OccurrenceAtOf(s: string, i: nat, t: nat, k: nat)
    requires i + |OccurrenceOpen| <= |s| && OccursAt(s, OccurrenceOpen, i)
    requires Upto(s, i + |OccurrenceOpen|, '"') == t && OccursAt(s, "\">", t)
    requires Upto(s, t + 2, '<') == k && OccursAt(s, "</span>", k)
    ensures DecorationAt(s, i, true) == Some(Match(k + 7, []))
  {
  }

  // ---------------------------------------------------------------------
  // Stray tags: `</?[a-z][^>]*>`

  /** `x` is `<`, an optional `/`, a lower-case letter `c`, a tail without
      `>`, and `>`. */
  ghost predicate TagText(x: string)
  {
    exists slash: string, c: char, a: string :: TagParts(x, slash, c, a) && IsLower(c) && '>' !in a
  }

  predicate TagParts(x: string, slash: string, c: char, a: string)
  {
    (slash == "" || slash == "/") && x == "<" + slash + [c] + a + ">"
  }

  /** The stray-tag pattern matches at `i`, up to `e`, exactly when the text
      between is one tag of that shape. */
  lemma AnyTagMatchIff(s: string, i: nat, e: nat)
    requires i <= |s|
    ensures MatchAt(AnyTag, s, i) == Some(Match(e, [])) <==> i <= e <= |s| && TagText(s[i..e])
  {
    if AnyTagAt(s, i) == Some(Match(e, [])) {
      var j := if i + 1 < |s| && s[i + 1] == '/' then i + 2 else i + 1;
      var q := Upto(s, j + 1, '>');
      AnyTagAtText(s, i);
    }
    if i <= e <= |s| && TagText(s[i..e]) {
      var slash, c, a :| TagParts(s[i..e], slash, c, a) && IsLower(c) && '>' !in a;
      TagTextAt(s, i, slash, c, a, e);
    }
  }

  lemma AnyTagAtText(s: string, i: nat)
    requires i <= |s| && AnyTagAt(s, i).Some?
    ensures TagText(s[i..AnyTagAt(s, i).value.end])
  {
    var j := if i + 1 < |s| && s[i + 1] == '/' then i + 2 else i + 1;
    var q := Upto(s, j + 1, '>');
    assert AnyTagAt(s, i) == Some(Match(q + 1, []));
    TagOfSlices(s, i, j, q);
  }

  lemma TagOfSlices(s: string, i: nat, j: nat, q: nat)
    requires i < j < q < |s| && s[i] == '<' && IsLower(s[j]) && s[q] == '>'
    requires j == i + 1 || (j == i + 2 && s[i + 1] == '/')
    requires forall t :: j + 1 <= t < q ==> s[t] != '>'
    ensures TagText(s[i..q + 1])
  {
    PartsOfSlices(s, i, i + 1, j, j + 1, q, q + 1, '>', '>');
    assert s[i..i + 1] == "<" && s[j..j + 1] == [s[j]] && s[q..q + 1] == ">";
    assert s[i + 1..j] == "" || s[i + 1..j] == "/";
    TagTextOf(s[i..q + 1], s[i + 1..j], s[j], s[j + 1..q]);
  }

  lemma TagTextOf(x: string, slash: string, c: char, a: string)
    requires TagParts(x, slash, c, a) && IsLower(c) && '>' !in a
    ensures TagText(x)
  {
  }

  lemma TagTextAt(s: string, i: nat, slash: string, c: char, a: string, e: nat)
    requires i <= e <= |s|
    requires TagParts(s[i..e], slash, c, a) && IsLower(c) && '>' !in a
    ensures AnyTagAt(s, i) == Some(Match(e, []))
  {
    var j := i + 1 + |slash|;
    var q := j + 1 + |a|;
    FiveParts(s, i, e, "<", slash, [c], a, ">");
    assert s[i] == s[i..i + 1][0];
    assert s[j] == s[j..j + 1][0] == c;
    if slash == "/" {
      assert s[i + 1] == s[i + 1..j][0];
    }
    Absent(s, j + 1, q, '>');
    assert s[q] == s[q..e][0];
    UptoIsFirst(s, j + 1, '>', q);
  }

  // ---------------------------------------------------------------------
  // re.sub

  /** `fs` are spans of a text of length `len` that start at or after `i`,
      are not empty, come in order without overlap, and carry `n` groups. */
  predicate Chained(fs: seq<Found>, i: nat, len: nat, n: nat)
    decreases |fs|
  {
    && i <= len
    && (fs != [] ==>
          && i <= fs[0].start < fs[0].end <= len && |fs[0].groups| == n
          && Chained(fs[1..], fs[0].end, len, n))
  }

  /** The text from `i` with each span of `fs` replaced by the replacement
      of `p` for its groups: the gaps and the replacements, joined in
      order. */
  function Spliced(p: Pattern, s: string, fs: seq<Found>, i: nat): string
    requires Chained(fs, i, |s|, Arity(p))
    decreases |fs|
  {
    if fs == [] then s[i..]
    else s[i..fs[0].start] + Replacement(p, fs[0].groups) + Spliced(p, s, fs[1..], fs[0].end)
  }

  /** The matches the scan takes are chained. */
  lemma {:induction false} ScanChained(ms: seq<Option<Match>>, n: nat, i: nat)
    requires WellFormed(ms, n) && i < |ms|
    ensures Chained(Scan(ms, n, i), i, |ms| - 1, n)
    decreases |ms| - i
  {
    if i < |ms| - 1 {
      match ms[i]
      case Some(m) =>
        ScanChained(ms, n, m.end);
        assert Scan(ms, n, i)[1..] == Scan(ms, n, m.end);
      case None =>
        ScanChained(ms, n, i + 1);
        assert Scan(ms, n, i) == Scan(ms, n, i + 1);
    }
  }

  /** A character before the first span joins the first gap. */
  lemma SplicedStep(p: Pattern, s: string, fs: seq<Found>, i: nat)
    requires i < |s| && Chained(fs, i + 1, |s|, Arity(p))
    ensures Chained(fs, i, |s|, Arity(p))
    ensures Spliced(p, s, fs, i) == [s[i]] + Spliced(p, s, fs, i + 1)
  {
    if fs == [] {
      assert s[i..] == [s[i]] + s[i + 1..];
    } else {
      SplicedGapStep(p, s, fs, i);
    }
  }

  lemma SplicedGapStep(p: Pattern, s: string, fs: seq<Found>, i: nat)
    requires i < |s| && Chained(fs, i + 1, |s|, Arity(p)) && fs != []
    ensures Chained(fs, i, |s|, Arity(p))
    ensures Spliced(p, s, fs, i) == [s[i]] + Spliced(p, s, fs, i + 1)
  {
    var rest := Replacement(p, fs[0].groups) + Spliced(p, s, fs[1..], fs[0].end);
    assert Spliced(p, s, fs, i + 1) == s[i + 1..fs[0].start] + rest;
    assert s[i..fs[0].start] == [s[i]] + s[i + 1..fs[0].start];
  }

  /** `re.sub(p, repl, s[i..])` replaces exactly the matches the
      left-to-right scan from `i` finds, and keeps the text between them. */
  lemma {:induction false} SubSpliced(p: Pattern, s: string, i: nat)
    requires i <= |s|
    ensures Chained(Scan(Table(p, s), Arity(p), i), i, |s|, Arity(p))
    ensures Sub(p, s, i) == Spliced(p, s, Scan(Table(p, s), Arity(p), i), i)
    decreases |s| - i
  {
    var ms := Table(p, s);
    var n := Arity(p);
    ScanChained(ms, n, i);
    if i == |s| {
      assert Scan(ms, n, i) == [];
    } else if ms[i].Some? {
      SubSpliced(p, s, ms[i].value.end);
      SubSplicedHit(p, s, i);
    } else {
      SubSpliced(p, s, i + 1);
      SubSplicedSkip(p, s, i);
    }
  }

  /** The step of `SubSpliced` at a match. */
  lemma SubSplicedHit(p: Pattern, s: string, i: nat)
    requires i < |s| && Table(p, s)[i].Some?
    requires var e := Table(p, s)[i].value.end;
             && Chained(Scan(Table(p, s), Arity(p), e), e, |s|, Arity(p))
             && Sub(p, s, e) == Spliced(p, s, Scan(Table(p, s), Arity(p), e), e)
    requires Chained(Scan(Table(p, s), Arity(p), i), i, |s|, Arity(p))
    ensures Sub(p, s, i) == Spliced(p, s, Scan(Table(p, s), Arity(p), i), i)
  {
    var ms := Table(p, s);
    var m := ms[i].value;
    var fs := Scan(ms, Arity(p), i);
    assert fs[0] == Found(i, m.end, m.groups) && fs[1..] == Scan(ms, Arity(p), m.end);
    SubMatchStep(p, s, i, m);
    SplicedHead(p, s, fs, i);
  }

  /** The step of `SubSpliced` where no match starts. */
  lemma SubSplicedSkip(p: Pattern, s: string, i: nat)
    requires i < |s| && Table(p, s)[i].None?
    requires && Chained(Scan(Table(p, s), Arity(p), i + 1), i + 1, |s|, Arity(p))
             && Sub(p, s, i + 1) == Spliced(p, s, Scan(Table(p, s), Arity(p), i + 1), i + 1)
    ensures Sub(p, s, i) == Spliced(p, s, Scan(Table(p, s), Arity(p), i), i)
  {
    var ms := Table(p, s);
    var fs := Scan(ms, Arity(p), i + 1);
    assert Scan(ms, Arity(p), i) == fs;
    SubSkipStep(p, s, i);
    SplicedStep(p, s, fs, i);
  }

  lemma SubMatchStep(p: Pattern, s: string, i: nat, m: Match)
    requires i < |s| && MatchAt(p, s, i) == Some(m)
    ensures Sub(p, s, i) == Replacement(p, m.groups) + Sub(p, s, m.end)
  {
  }

  lemma SubSkipStep(p: Pattern, s: string, i: nat)
    requires i < |s| && MatchAt(p, s, i).None?
    ensures Sub(p, s, i) == [s[i]] + Sub(p, s, i + 1)
  {
  }

  /** A span that starts at `i` leaves an empty first gap. */
  lemma SplicedHead(p: Pattern, s: string, fs: seq<Found>, i: nat)
    requires Chained(fs, i, |s|, Arity(p)) && fs != [] && fs[0].start == i
    ensures Spliced(p, s, fs, i) == Replacement(p, fs[0].groups) + Spliced(p, s, fs[1..], fs[0].end)
  {
    assert s[i..i] == [];
  }

  /** The whole-text substitution of the cleaning step: the `finditer`
      matches, which `FindAllSpec` characterises, replaced, and the gaps
      between them kept. */
  lemma SubIsSplicedMatches(p: Pattern, s: string)
    ensures Chained(FindAll(p, s), 0, |s|, Arity(p))
    ensures Sub(p, s, 0) == Spliced(p, s, FindAll(p, s), 0)
  {
    SubSpliced(p, s, 0);
  }

  // ---------------------------------------------------------------------
  // Slices

  /** A text read as five consecutive parts, where the second part stops
      before the first `ca` and the fourth before the first `cg`: each part
      is the slice at its place, and the greedy runs `[^ca]*` and `[^cg]*`
      end where those parts end. */
  lemma SlicesOfParts(s: string, i: nat, e: nat, p1: string, a: string, p3: string, g: string, p5: string, ca: char, cg: char)
    requires i <= e <= |s| && s[i..e] == p1 + a + p3 + g + p5
    requires ca !in a && |p3| > 0 && p3[0] == ca
    requires cg !in g && |p5| > 0 && p5[0] == cg
    ensures var b1 := i + |p1|; var b2 := b1 + |a|; var b3 := b2 + |p3|; var b4 := b3 + |g|;
            && e == b4 + |p5|
            && OccursAt(s, p1, i) && OccursAt(s, p3, b2) && OccursAt(s, p5, b4)
            && s[b1..b2] == a && s[b3..b4] == g
            && Upto(s, b1, ca) == b2 && Upto(s, b3, cg) == b4
  {
    var b1 := i + |p1|; var b2 := b1 + |a|; var b3 := b2 + |p3|; var b4 := b3 + |g|;
    FiveParts(s, i, e, p1, a, p3, g, p5);
    Absent(s, b1, b2, ca);
    Absent(s, b3, b4, cg);
    assert s[b2] == s[b2..b3][0];
    assert s[b4] == s[b4..e][0];
    UptoIsFirst(s, b1, ca, b2);
    UptoIsFirst(s, b3, cg, b4);
  }

  /** The converse: the slices between found positions are the parts. */
  lemma PartsOfSlices(s: string, i: nat, b1: nat, b2: nat, b3: nat, b4: nat, e: nat, ca: char, cg: char)
    requires i <= b1 <= b2 <= b3 <= b4 <= e <= |s|
    requires forall t :: b1 <= t < b2 ==> s[t] != ca
    requires forall t :: b3 <= t < b4 ==> s[t] != cg
    ensures s[i..e] == s[i..b1] + s[b1..b2] + s[b2..b3] + s[b3..b4] + s[b4..e]
    ensures ca !in s[b1..b2] && cg !in s[b3..b4]
  {
    Joined(s, i, b1, b2, b3, b4, e);
    NotInSlice(s, b1, b2, ca);
    NotInSlice(s, b3, b4, cg);
  }

  /** The text from `i` to `e` read as five consecutive parts. */
  lemma FiveParts(s: string, i: nat, e: nat, p1: string, p2: string, p3: string, p4: string, p5: string)
    requires i <= e <= |s| && s[i..e] == p1 + p2 + p3 + p4 + p5
    ensures var b1 := i + |p1|; var b2 := b1 + |p2|; var b3 := b2 + |p3|; var b4 := b3 + |p4|;
            && e == b4 + |p5|
            && s[i..b1] == p1 && s[b1..b2] == p2 && s[b2..b3] == p3 && s[b3..b4] == p4 && s[b4..e] == p5
  {
    var b1 := i + |p1|; var b2 := b1 + |p2|; var b3 := b2 + |p3|; var b4 := b3 + |p4|;
    Split(s, i, e, p1 + p2 + p3 + p4, p5);
    Split(s, i, b4, p1 + p2 + p3, p4);
    Split(s, i, b3, p1 + p2, p3);
    Split(s, i, b2, p1, p2);
  }

  /** The text from `i` to `e` read as two consecutive parts. */
  lemma Split(s: string, i: nat, e: nat, x: string, y: string)
    requires i <= e <= |s| && s[i..e] == x + y
    ensures i + |x| <= e && s[i..i + |x|] == x && s[i + |x|..e] == y
  {
    assert s[i..i + |x|] == (x + y)[..|x|];
    assert s[i + |x|..e] == (x + y)[|x|..];
  }

  /** Five consecutive slices joined are the slice they cover. */
  lemma Joined(s: string, i: nat, b1: nat, b2: nat, b3: nat, b4: nat, e: nat)
    requires i <= b1 <= b2 <= b3 <= b4 <= e <= |s|
    ensures s[i..e] == s[i..b1] + s[b1..b2] + s[b2..b3] + s[b3..b4] + s[b4..e]
  {
    assert s[i..b2] == s[i..b1] + s[b1..b2];
    assert s[i..b3] == s[i..b2] + s[b2..b3];
    assert s[i..b4] == s[i..b3] + s[b3..b4];
    assert s[i..e] == s[i..b4] + s[b4..e];
  }

  /** A character missing at each position of a slice is missing from it. */
  lemma NotInSlice(s: string, lo: nat, hi: nat, c: char)
    requires lo <= hi <= |s| && forall t :: lo <= t < hi ==> s[t] != c
    ensures c !in s[lo..hi]
  {
  }

  /** A character missing from a slice is missing at each of its positions. */
  lemma Absent(s: string, lo: nat, hi: nat, c: char)
    requires lo <= hi <= |s| && c !in s[lo..hi]
    ensures forall t :: lo <= t < hi ==> s[t] != c
  {
    forall t | lo <= t < hi ensures s[t] != c {
      assert s[t] == s[lo..hi][t - lo];
    }
  }
}
