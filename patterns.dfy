/// The regular expressions of the repair scripts, each written out as the
/// function that says whether, and how far, it matches at a given position.
///
/// Every pattern here is built from literals and greedy runs of a character
/// class that are always followed by a character outside that class (for
/// instance `[^<]*` followed by `<`). Backtracking can therefore never
/// shorten a run, and a match at a given start is unique; `re.search`
/// returns the match at the leftmost start, and `re.finditer`,
/// `re.findall` and `re.sub` scan left to right, resuming after each match.
module Patterns {
  import opened Text
  import opened Numerals

  // ---------------------------------------------------------------------
  // Runs

  /** End of the greedy run `[^c]*` starting at `i`: the first `c` at or
      after `i`, or the end of `s`. */
  function Upto(s: string, i: nat, c: char): (k: nat)
    requires i <= |s|
    ensures i <= k <= |s|
    ensures forall j :: i <= j < k ==> s[j] != c
    ensures k < |s| ==> s[k] == c
    decreases |s| - i
  {
    if i < |s| && s[i] != c then Upto(s, i + 1, c) else i
  }

  /** The character classes the patterns use; the `CI` ones are read under
      `re.IGNORECASE`. */
  datatype CharClass =
    | Digit         // \d
    | Visible       // \S
    | LocalCI       // [a-z0-9_.+-]
    | LocalSpaceCI  // [a-z0-9_. +-]
    | DomainCI      // [a-z0-9-]
    | DomainWideCI  // [a-z0-9_ -]
    | LetterCI      // [a-z] or [A-Z]
    | WordTailCI    // [a-z-] or [A-Za-z-]
    | PhraseCI      // [A-Za-z -]

  predicate InClass(cls: CharClass, c: char)
  {
    match cls
    case Digit => IsDigit(c)
    case Visible => !IsSpace(c)
    case LocalCI => IsLetterCI(c) || IsDigit(c) || c == '_' || c == '.' || c == '+' || c == '-'
    case LocalSpaceCI => IsLetterCI(c) || IsDigit(c) || c == '_' || c == '.' || c == ' ' || c == '+' || c == '-'
    case DomainCI => IsLetterCI(c) || IsDigit(c) || c == '-'
    case DomainWideCI => IsLetterCI(c) || IsDigit(c) || c == '_' || c == ' ' || c == '-'
    case LetterCI => IsLetterCI(c)
    case WordTailCI => IsLetterCI(c) || c == '-'
    case PhraseCI => IsLetterCI(c) || c == ' ' || c == '-'
  }

  predicate AllIn(s: string, cls: CharClass)
  {
    forall k :: 0 <= k < |s| ==> InClass(cls, s[k])
  }

  /** End of the greedy run of `cls` starting at `i`. */
  function RunEnd(s: string, i: nat, cls: CharClass): (k: nat)
    requires i <= |s|
    ensures i <= k <= |s|
    ensures forall j :: i <= j < k ==> InClass(cls, s[j])
    ensures AllIn(s[i..k], cls)
    ensures k < |s| ==> !InClass(cls, s[k])
    decreases |s| - i
  {
    if i < |s| && InClass(cls, s[i]) then RunEnd(s, i + 1, cls) else i
  }

  /** The run of `cls` from `i` ends at the first index not in `cls`. */
  lemma RunEndIs(s: string, i: nat, cls: CharClass, k: nat)
    requires i <= k <= |s|
    requires forall j :: i <= j < k ==> InClass(cls, s[j])
    requires k == |s| || !InClass(cls, s[k])
    ensures RunEnd(s, i, cls) == k
  {
  }

  /** A run of `cls` from `i` reaches at least as far as any stretch of
      `cls` from `i`... */
  lemma RunEndAtLeast(s: string, i: nat, cls: CharClass, k: nat)
    requires i <= k <= |s|
    requires forall j :: i <= j < k ==> InClass(cls, s[j])
    ensures RunEnd(s, i, cls) >= k
  {
  }

  /** ...and stops at or before any character outside `cls`. */
  lemma RunEndAtMost(s: string, i: nat, cls: CharClass, k: nat)
    requires i <= k < |s| && !InClass(cls, s[k])
    ensures RunEnd(s, i, cls) <= k
  {
  }

  /** Start of the run of digits that ends at `e`. */
  function DigitRunStart(s: string, e: nat): (b: nat)
    requires e <= |s|
    ensures b <= e
    ensures forall j :: b <= j < e ==> IsDigit(s[j])
    ensures AllDigits(s[b..e])
    ensures b > 0 ==> !IsDigit(s[b - 1])
  {
    if e > 0 && IsDigit(s[e - 1]) then DigitRunStart(s, e - 1) else e
  }

  /** The lazy `.*?` (with DOTALL) followed by `lit`: the first occurrence of
      `lit` at or after `i`. */
  function LazyUpto(s: string, i: nat, lit: string): (r: Option<nat>)
    requires i <= |s|
    ensures r.Some? ==> i <= r.value && OccursAt(s, lit, r.value)
    ensures r.Some? ==> forall j: nat :: i <= j < r.value ==> !OccursAt(s, lit, j)
    decreases |s| - i
  {
    if OccursAt(s, lit, i) then Some(i)
    else if i == |s| then None
    else LazyUpto(s, i + 1, lit)
  }

  /** Where `$` can sit for a pattern whose last character is not a newline:
      the end of `s`, or just before a final newline. */
  function DollarEnd(s: string): (e: nat)
    ensures e <= |s|
  {
    if |s| > 0 && s[|s| - 1] == '\n' then |s| - 1 else |s|
  }

  // ---------------------------------------------------------------------
  // Patterns matched with re.findall / re.finditer / re.sub

  const CitationOpen := "<div class=\"CitationContent\" id=\"CR"
  const RefSourceOpen := "<span class=\"RefSource\">"
  const OccurrenceOpen := "<span class=\"Occurrence"
  const KeywordOpen := "<span class=\"Keyword\""
  const BiblioOpen := "<bibliomixed id=\""
  const BiblioClose := "</bibliomixed>"
  const ChapterTitleOpen := "<h1 class=\"ChapterTitle\""

  datatype Pattern =
    | CitationDiv          // <div class="CitationContent" id="(CR\d+)">(.*?)</div>
    | RefSourceSpan        // <span class="RefSource">[^<]*</span>
    | OccurrenceSpan       // <span class="Occurrence[^"]*">[^<]*</span>
    | AnchorElement        // <a[^>]*>([^<]*)</a>
    | EmphasisElement      // <em[^>]*>([^<]*)</em>
    | SpanElement          // <span[^>]*>([^<]*)</span>
    | AnyTag               // </?[a-z][^>]*>
    | KeywordSpan          // <span class="Keyword"[^>]*>([^<]+)</span>
    | BiblioMixed          // <bibliomixed id="([^"]+)">([^<]*)</bibliomixed>
    | IndexTerm            // <indexterm[^>]*>\s*<primary>([^<]+)</primary>\s*</indexterm>
    | ChapterTitleHeading  // <h1 class="ChapterTitle"[^>]*>([^<]+)</h1>

  function Arity(p: Pattern): nat
  {
    match p
    case CitationDiv => 2
    case BiblioMixed => 2
    case RefSourceSpan => 0
    case OccurrenceSpan => 0
    case AnyTag => 0
    case _ => 1
  }

  /** A match at a known start: where it ends and its groups. */
  datatype Match = Match(end: nat, groups: seq<string>)

  /** A match found at `i` ends after `i` and within a text of length `len`,
      has `n` groups, and each group is shorter than the match. */
  predicate Fits(r: Option<Match>, i: nat, len: nat, n: nat)
  {
    r.Some? ==>
      && i < r.value.end <= len && |r.value.groups| == n
      && forall g :: 0 <= g < n ==> |r.value.groups[g]| < r.value.end - i
  }

  /** `<open[^>]*>([^<]*)close` (with `[^<]+` when `nonEmpty`) at `i`. */
  function ElementAt(s: string, i: nat, open: string, close: string, nonEmpty: bool): (r: Option<Match>)
    requires i <= |s| && |close| > 0
    ensures Fits(r, i, |s|, 1)
  {
    if !OccursAt(s, open, i) then None
    else
      var q := Upto(s, i + |open|, '>');
      if q == |s| then None
      else
        var k := Upto(s, q + 1, '<');
        if (nonEmpty && k == q + 1) || !OccursAt(s, close, k) then None
        else Some(Match(k + |close|, [s[q + 1..k]]))
  }

  /** `<div class="CitationContent" id="(CR\d+)">(.*?)</div>` at `i`. */
  function CitationAt(s: string, i: nat): (r: Option<Match>)
    requires i <= |s|
    ensures Fits(r, i, |s|, 2)
  {
    if !OccursAt(s, CitationOpen, i) then None
    else
      var j := i + |CitationOpen|;
      var d := RunEnd(s, j, Digit);
      if d == j || !OccursAt(s, "\">", d) then None
      else match LazyUpto(s, d + 2, "</div>")
        case None => None
        case Some(k) => Some(Match(k + 6, [s[j - 2..d], s[d + 2..k]]))
  }

  /** `<span class="RefSource">[^<]*</span>` and
      `<span class="Occurrence[^"]*">[^<]*</span>` at `i`. */
  function DecorationAt(s: string, i: nat, occurrence: bool): (r: Option<Match>)
    requires i <= |s|
    ensures Fits(r, i, |s|, 0)
  {
    var open := if occurrence then OccurrenceOpen else RefSourceOpen;
    if !OccursAt(s, open, i) then None
    else
      var t := if occurrence then Upto(s, i + |open|, '"') else i + |open|;
      if occurrence && !OccursAt(s, "\">", t) then None
      else
        var k := Upto(s, if occurrence then t + 2 else t, '<');
        if OccursAt(s, "</span>", k) then Some(Match(k + 7, [])) else None
  }

  /** `</?[a-z][^>]*>` at `i`. */
  function AnyTagAt(s: string, i: nat): (r: Option<Match>)
    requires i <= |s|
    ensures Fits(r, i, |s|, 0)
  {
    if i >= |s| || s[i] != '<' then None
    else
      var j := if i + 1 < |s| && s[i + 1] == '/' then i + 2 else i + 1;
      if j >= |s| || !IsLower(s[j]) then None
      else
        var q := Upto(s, j + 1, '>');
        if q == |s| then None else Some(Match(q + 1, []))
  }

  /** `<bibliomixed id="([^"]+)">([^<]*)</bibliomixed>` at `i`. */
  function BiblioAt(s: string, i: nat): (r: Option<Match>)
    requires i <= |s|
    ensures Fits(r, i, |s|, 2)
  {
    if !OccursAt(s, BiblioOpen, i) then None
    else
      var j := i + |BiblioOpen|;
      var q := Upto(s, j, '"');
      if q == j || !OccursAt(s, "\">", q) then None
      else
        var k := Upto(s, q + 2, '<');
        if OccursAt(s, BiblioClose, k) then Some(Match(k + |BiblioClose|, [s[j..q], s[q + 2..k]]))
        else None
  }

  /** `<indexterm[^>]*>\s*<primary>([^<]+)</primary>\s*</indexterm>` at `i`. */
  function IndexTermAt(s: string, i: nat): (r: Option<Match>)
    requires i <= |s|
    ensures Fits(r, i, |s|, 1)
  {
    if !OccursAt(s, "<indexterm", i) then None
    else
      var q := Upto(s, i + 10, '>');
      if q == |s| then None
      else
        var w := SpanSpace(s, q + 1);
        if !OccursAt(s, "<primary>", w) then None
        else
          var t := w + 9;
          var k := Upto(s, t, '<');
          if k == t || !OccursAt(s, "</primary>", k) then None
          else
            var w2 := SpanSpace(s, k + 10);
            if OccursAt(s, "</indexterm>", w2) then Some(Match(w2 + 12, [s[t..k]])) else None
  }

  /** The match of `p` that starts at `i`, if there is one. */
  function MatchAt(p: Pattern, s: string, i: nat): (r: Option<Match>)
    requires i <= |s|
    ensures Fits(r, i, |s|, Arity(p))
  {
    match p
    case CitationDiv => CitationAt(s, i)
    case RefSourceSpan => DecorationAt(s, i, false)
    case OccurrenceSpan => DecorationAt(s, i, true)
    case AnchorElement => ElementAt(s, i, "<a", "</a>", false)
    case EmphasisElement => ElementAt(s, i, "<em", "</em>", false)
    case SpanElement => ElementAt(s, i, "<span", "</span>", false)
    case KeywordSpan => ElementAt(s, i, KeywordOpen, "</span>", true)
    case ChapterTitleHeading => ElementAt(s, i, ChapterTitleOpen, "</h1>", true)
    case AnyTag => AnyTagAt(s, i)
    case BiblioMixed => BiblioAt(s, i)
    case IndexTerm => IndexTermAt(s, i)
  }

  /** The match table of `p` over `s`: at each position up to `|s|`, the
      match that starts there. */
  function Table(p: Pattern, s: string): (ms: seq<Option<Match>>)
    ensures |ms| == |s| + 1 && WellFormed(ms, Arity(p))
    ensures forall j :: 0 <= j <= |s| ==> ms[j] == MatchAt(p, s, j)
  {
    seq(|s| + 1, j requires 0 <= j <= |s| => MatchAt(p, s, j))
  }

  /** Every entry of a table over a text of length `|ms| - 1` fits. */
  predicate WellFormed(ms: seq<Option<Match>>, n: nat)
  {
    |ms| > 0 && forall j :: 0 <= j < |ms| ==> Fits(ms[j], j, |ms| - 1, n)
  }

  /** One result of `re.finditer`: span and groups. */
  datatype Found = Found(start: nat, end: nat, groups: seq<string>)

  /** The left-to-right scan of `finditer` over a match table, from `i`:
      take the match at `i` if there is one and resume at its end, otherwise
      try the next position. */
  function Scan(ms: seq<Option<Match>>, n: nat, i: nat): (r: seq<Found>)
    requires WellFormed(ms, n) && i < |ms|
    ensures forall k :: 0 <= k < |r| ==> i <= r[k].start < r[k].end < |ms|
    ensures forall k :: 0 <= k < |r| ==> |r[k].groups| == n
    decreases |ms| - i
  {
    if i == |ms| - 1 then []
    else match ms[i]
      case Some(m) => [Found(i, m.end, m.groups)] + Scan(ms, n, m.end)
      case None => Scan(ms, n, i + 1)
  }

  /** `re.finditer(p, s)`, and `re.findall`, which returns the same groups. */
  function FindAll(p: Pattern, s: string): (r: seq<Found>)
    ensures forall k :: 0 <= k < |r| ==> r[k].start < r[k].end <= |s|
    ensures forall k :: 0 <= k < |r| ==> |r[k].groups| == Arity(p)
  {
    Scan(Table(p, s), Arity(p), 0)
  }

  /** No entry of the table in `[from, to)` is a match. */
  predicate NoMatchIn(ms: seq<Option<Match>>, from: nat, to: nat)
    requires to <= |ms|
  {
    forall j: nat :: from <= j < to ==> ms[j].None?
  }

  /** Each result of the scan is the match at its start. */
  lemma {:induction false} ScanSound(ms: seq<Option<Match>>, n: nat, i: nat)
    requires WellFormed(ms, n) && i < |ms|
    ensures var r := Scan(ms, n, i);
            forall k :: 0 <= k < |r| ==> ms[r[k].start] == Some(Match(r[k].end, r[k].groups))
    decreases |ms| - i
  {
    if i < |ms| - 1 {
      var r := Scan(ms, n, i);
      match ms[i]
      case Some(m) =>
        ScanSound(ms, n, m.end);
        assert forall k :: 1 <= k < |r| ==> r[k] == Scan(ms, n, m.end)[k - 1];
      case None =>
        ScanSound(ms, n, i + 1);
        assert r == Scan(ms, n, i + 1);
    }
  }

  /** The results of the scan are in order and do not overlap. */
  lemma {:induction false} ScanOrdered(ms: seq<Option<Match>>, n: nat, i: nat)
    requires WellFormed(ms, n) && i < |ms|
    ensures var r := Scan(ms, n, i);
            forall k :: 0 <= k < |r| - 1 ==> r[k].end <= r[k + 1].start
    decreases |ms| - i
  {
    if i < |ms| - 1 {
      var r := Scan(ms, n, i);
      match ms[i]
      case Some(m) =>
        ScanOrdered(ms, n, m.end);
        assert forall k :: 1 <= k < |r| ==> r[k] == Scan(ms, n, m.end)[k - 1];
      case None =>
        ScanOrdered(ms, n, i + 1);
        assert r == Scan(ms, n, i + 1);
    }
  }

  /** No match starts before the first result of the scan, or anywhere when
      there is none. */
  lemma {:induction false} ScanLeading(ms: seq<Option<Match>>, n: nat, i: nat)
    requires WellFormed(ms, n) && i < |ms|
    ensures var r := Scan(ms, n, i);
            NoMatchIn(ms, i, if r == [] then |ms| - 1 else r[0].start)
    decreases |ms| - i
  {
    if i < |ms| - 1 && ms[i].None? {
      ScanLeading(ms, n, i + 1);
    }
  }

  /** No match starts between the end of the `k`-th result of the scan and
      the start of the next, or after the last. */
  lemma {:induction false} ScanTrailing(ms: seq<Option<Match>>, n: nat, i: nat, k: nat)
    requires WellFormed(ms, n) && i < |ms| && k < |Scan(ms, n, i)|
    ensures var r := Scan(ms, n, i);
            NoMatchIn(ms, r[k].end, if k + 1 == |r| then |ms| - 1 else r[k + 1].start)
    decreases |ms| - i
  {
    var r := Scan(ms, n, i);
    match ms[i]
    case Some(m) =>
      var t := Scan(ms, n, m.end);
      assert r == [Found(i, m.end, m.groups)] + t;
      if k == 0 {
        ScanLeading(ms, n, m.end);
        if t != [] { assert r[1] == t[0]; }
      } else {
        ScanTrailing(ms, n, m.end, k - 1);
        assert r[k] == t[k - 1];
        if k + 1 < |r| { assert r[k + 1] == t[k]; }
      }
    case None =>
      ScanTrailing(ms, n, i + 1, k);
      assert r == Scan(ms, n, i + 1);
  }

  /** `finditer` is a faithful scan: each result is the match at its start,
      the results are in order without overlap, and no match starts in a
      gap before, between or after them. */
  lemma FindAllSpec(p: Pattern, s: string)
    ensures var r := FindAll(p, s);
            && (forall k :: 0 <= k < |r| ==> MatchAt(p, s, r[k].start) == Some(Match(r[k].end, r[k].groups)))
            && (forall k :: 0 <= k < |r| - 1 ==> r[k].end <= r[k + 1].start)
            && (forall j: nat :: j < (if r == [] then |s| else r[0].start) ==> MatchAt(p, s, j).None?)
            && (forall k, j: nat :: 0 <= k < |r| && r[k].end <= j < (if k + 1 == |r| then |s| else r[k + 1].start)
                  ==> MatchAt(p, s, j).None?)
  {
    var ms := Table(p, s);
    ScanSound(ms, Arity(p), 0);
    ScanOrdered(ms, Arity(p), 0);
    ScanLeading(ms, Arity(p), 0);
    forall k | 0 <= k < |FindAll(p, s)| {
      ScanTrailing(ms, Arity(p), 0, k);
    }
  }

  /** The replacement the cleaning step writes for a match of `p`: nothing for
      the decorative spans and stray tags, the visible text (`\1`) for the
      wrapper elements. */
  function Replacement(p: Pattern, groups: seq<string>): string
    requires |groups| == Arity(p)
  {
    match p
    case AnchorElement => groups[0]
    case EmphasisElement => groups[0]
    case SpanElement => groups[0]
    case _ => []
  }

  /** `re.sub(p, repl, s[i..])` with the replacement of `Replacement`. */
  function Sub(p: Pattern, s: string, i: nat): (r: string)
    requires i <= |s|
    ensures |r| <= |s| - i
    decreases |s| - i
  {
    if i == |s| then []
    else match MatchAt(p, s, i)
      case Some(m) => Replacement(p, m.groups) + Sub(p, s, m.end)
      case None => [s[i]] + Sub(p, s, i + 1)
  }

  /** A substitution with nothing to match leaves the text unchanged. */
  lemma {:induction false} SubNoMatch(p: Pattern, s: string, i: nat)
    requires i <= |s| && forall j: nat :: i <= j < |s| ==> MatchAt(p, s, j).None?
    ensures Sub(p, s, i) == s[i..]
    decreases |s| - i
  {
    if i < |s| {
      assert MatchAt(p, s, i).None?;
      SubNoMatch(p, s, i + 1);
      assert s[i..] == [s[i]] + s[i + 1..];
    }
  }

  // ---------------------------------------------------------------------
  // The <para> patterns, used with re.search

  /** The `<para>(...)</para>` patterns of the keyword repair all read
      `<para>`, a run of text without `<`, and `</para>`; they differ only in
      what the text must look like and in whether case is ignored. The
      predicates below state what each pattern asks of the text. */

  /** A character as the comparison sees it: ASCII letters lowered when
      `ci`, everything else kept. */
  function Folded(c: char, ci: bool): char
  {
    if ci && 'A' <= c <= 'Z' then (c as int + 32) as char else c
  }

  /** `x` spells the lower-case literal `lit`, compared without case when
      `ci`. The letters of `para` have no non-ASCII case partners, so ASCII
      case is all that `re.IGNORECASE` adds for them. */
  predicate Spells(x: string, lit: string, ci: bool)
  {
    |x| == |lit| && forall t :: 0 <= t < |x| ==> Folded(x[t], ci) == lit[t]
  }

  predicate LiteralAt(s: string, lit: string, i: nat, ci: bool)
  {
    i + |lit| <= |s| && Spells(s[i..i + |lit|], lit, ci)
  }

  /** `<para>` at `i` followed by `[^<]*` and `</para>`: the index where the
      content ends. No content class of the five rules admits `<`, so the
      content always runs to the first `<`. */
  function ParaAt(s: string, i: nat, ci: bool): (k: Option<nat>)
    requires i <= |s|
    ensures k.Some? ==> i + 6 <= k.value && k.value + 7 <= |s|
  {
    if !LiteralAt(s, "<para>", i, ci) then None
    else
      var k := Upto(s, i + 6, '<');
      if LiteralAt(s, "</para>", k, ci) then Some(k) else None
  }

  /** The words of a text shaped `(\s+\S+)*`: each preceded by a whitespace
      run, none after the last. */
  function SpacedWords(x: string): Option<seq<string>>
    decreases |x|
  {
    if x == [] then Some([])
    else
      var a := SpanSpace(x, 0);
      if a == 0 || a == |x| then None
      else
        var b := RunEnd(x, a, Visible);
        match SpacedWords(x[b..])
        case None => None
        case Some(ws) => Some([x[a..b]] + ws)
  }

  /** A word, after one space, in front of more spaced words. */
  lemma SpacedWordsCons(x: string, w: string, rest: string)
    requires x == [' '] + w + rest && w != []
    requires forall j :: 0 <= j < |w| ==> !IsSpace(w[j])
    requires rest == [] || IsSpace(rest[0])
    requires SpacedWords(rest).Some?
    ensures SpacedWords(x) == Some([w] + SpacedWords(rest).value)
  {
    var b := 1 + |w|;
    SpanSpaceIs(x, 0, 1);
    RunEndIs(x, 1, Visible, b);
    assert x[b..] == rest;
    assert x[1..b] == w;
  }

  /** `[A-Z][a-z-]+` under IGNORECASE. */
  predicate CapWord(w: string)
  {
    |w| >= 2 && IsLetterCI(w[0]) && AllIn(w[1..], WordTailCI)
  }

  /** `[A-Za-z-]+` under IGNORECASE. */
  predicate HyphenWord(w: string)
  {
    |w| >= 1 && AllIn(w, WordTailCI)
  }

  /** `[A-Z][A-Za-z -]+(?:\s+[A-Za-z -]+)*` under IGNORECASE: a letter, one
      more phrase character, then phrase characters and whitespace, ending on
      a phrase character. */
  predicate PhraseTail(x: string)
  {
    && |x| >= 2 && IsLetterCI(x[0]) && InClass(PhraseCI, x[1])
    && (forall k :: 0 <= k < |x| ==> InClass(PhraseCI, x[k]) || IsSpace(x[k]))
    && InClass(PhraseCI, x[|x| - 1])
  }

  /** The part shared by the e-mail rules after the `.`: `\s*[a-z]+` and the
      index where the top-level domain ends. */
  function TldEnd(c: string, dot: nat): (t: Option<nat>)
    requires dot < |c|
    ensures t.Some? ==> dot < t.value <= |c|
  {
    var e := SpanSpace(c, dot + 1);
    var t := RunEnd(c, e, LetterCI);
    if t > e then Some(t) else None
  }

  /** fix_keywords.py detection: `local\s*@\s*domain\.\s*tld` then two or more
      `\s+Word`, where the local part is a run of class `local`. */
  predicate DetectWith(c: string, local: CharClass)
  {
    var p := Upto(c, 0, '@');
    var a := RunEnd(c, 0, local);
    && p < |c| && a > 0 && a <= p && AllSpace(c[a..p])
    && var e := SpanSpace(c, p + 1);
       var d := RunEnd(c, e, DomainCI);
       && d > e && d < |c| && c[d] == '.'
       && CapWordsAfter(c, d)
  }

  /** `\.\s*[a-z]+` at `dot`, then two or more `\s+Word`. */
  predicate CapWordsAfter(c: string, dot: nat)
    requires dot < |c|
  {
    match TldEnd(c, dot)
    case None => false
    case Some(t) =>
      match SpacedWords(c[t..])
      case None => false
      case Some(ws) => |ws| >= 2 && forall w <- ws :: CapWord(w)
  }

  /** The detection as written: the local part is `[a-z0-9_.+-]+`, with no
      space inside it. */
  predicate DetectContent(c: string)
  {
    DetectWith(c, LocalCI)
  }

  /** The detection the comment above it describes: the local part may hold
      a space (`j. ehrenreich`), as in the repair pattern `[a-z0-9_. +-]+`. */
  predicate SpacedDetectContent(c: string)
  {
    DetectWith(c, LocalSpaceCI)
  }

  /** fix_keywords.py repair: `local@domain\.\s*tld` (no whitespace around
      `@`), then one `\s+Word` and any number of `\s+word`. */
  predicate KeywordsContent(c: string)
  {
    var p := Upto(c, 0, '@');
    && 0 < p < |c| && AllIn(c[..p], LocalSpaceCI)
    && var d := RunEnd(c, p + 1, DomainCI);
       && d > p + 1 && d < |c| && c[d] == '.'
       && match TldEnd(c, d)
          case None => false
          case Some(t) =>
            match SpacedWords(c[t..])
            case None => false
            case Some(ws) => |ws| >= 1 && CapWord(ws[0]) && forall w <- ws[1..] :: HyphenWord(w)
  }

  /** fix_all_keywords.py 'full': `local@domain\.\s*tld`, whitespace, then a
      phrase of letters, spaces and hyphens. */
  predicate FullContent(c: string)
  {
    var p := Upto(c, 0, '@');
    && 0 < p < |c| && AllIn(c[..p], LocalSpaceCI)
    && var d := RunEnd(c, p + 1, DomainWideCI);
       && d > p + 1 && d < |c| && c[d] == '.'
       && match TldEnd(c, d)
          case None => false
          case Some(t) =>
            var u := SpanSpace(c, t);
            u > t && PhraseTail(c[u..])
  }

  /** fix_all_keywords.py 'simple': an `@` with something on both sides. */
  predicate SimpleContent(c: string)
  {
    exists p: nat :: 1 <= p < |c| - 1 && c[p] == '@'
  }

  predicate TldAt(c: string, q: nat)
  {
    OccursAt(c, ".edu", q) || OccursAt(c, ".com", q) || OccursAt(c, ".org", q)
  }

  predicate TopicAt(c: string, r: nat)
  {
    || OccursAt(c, "Depression", r) || OccursAt(c, "Dysthymia", r) || OccursAt(c, "Mood", r)
    || OccursAt(c, "Assessment", r) || OccursAt(c, "Anxiety", r) || OccursAt(c, "Disorder", r)
  }

  /** fix_content_loss.py: an `@`, later `.edu`, `.com` or `.org`, and after
      that one of the six topic words. */
  predicate TopicContent(c: string)
  {
    exists r: nat, q: nat, p: nat | r <= |c| && q + 4 <= r && p < q :: c[p] == '@' && TldAt(c, q) && TopicAt(c, r)
  }

  /** The pattern `<para>(text)</para>` whose text must satisfy `ok`
      matches at `i`, with case ignored when `ci`. */
  predicate ParaMatchesAt(s: string, ci: bool, ok: string -> bool, i: nat)
    requires i <= |s|
  {
    var k := ParaAt(s, i, ci);
    k.Some? && ok(s[i + 6..k.value])
  }

  /** A `re.search` result for a para pattern: group 0 is `s[start..end]`,
      the para's inner text is `content`. */
  datatype ParaMatch = ParaMatch(start: nat, end: nat, content: string)

  /** The match at `i`, read off the text. */
  function ParaMatchAt(s: string, ci: bool, ok: string -> bool, i: nat): (m: ParaMatch)
    requires i <= |s| && ParaMatchesAt(s, ci, ok, i)
    ensures m.start == i && i + 6 <= m.end - 7 && m.end <= |s|
    ensures ParaAt(s, i, ci) == Some(m.end - 7) && m.content == s[i + 6..m.end - 7] && ok(m.content)
  {
    var k := ParaAt(s, i, ci).value;
    ParaMatch(i, k + 7, s[i + 6..k])
  }

  /** `re.search` of a para pattern in `s[i..]`: the match at the leftmost
      start. */
  function SearchPara(s: string, ci: bool, ok: string -> bool, i: nat): (r: Option<ParaMatch>)
    requires i <= |s|
    ensures r.Some? ==> i <= r.value.start <= |s| && ParaMatchesAt(s, ci, ok, r.value.start)
    ensures r.Some? ==> r.value == ParaMatchAt(s, ci, ok, r.value.start)
    ensures r.Some? ==> forall j: nat :: i <= j < r.value.start ==> !ParaMatchesAt(s, ci, ok, j)
    ensures r.None? ==> forall j: nat :: i <= j <= |s| ==> !ParaMatchesAt(s, ci, ok, j)
    decreases |s| - i
  {
    if ParaMatchesAt(s, ci, ok, i) then Some(ParaMatchAt(s, ci, ok, i))
    else if i == |s| then None
    else SearchPara(s, ci, ok, i + 1)
  }

  /** The text of a para match holds no `<` between its tags. */
  lemma ParaContentHasNoTag(s: string, ci: bool, ok: string -> bool, i: nat)
    requires i <= |s| && ParaMatchesAt(s, ci, ok, i)
    ensures forall j :: 0 <= j < |ParaMatchAt(s, ci, ok, i).content| ==> ParaMatchAt(s, ci, ok, i).content[j] != '<'
  {
    var m := ParaMatchAt(s, ci, ok, i);
    assert Upto(s, i + 6, '<') == m.end - 7;
  }

  /** A text that is one `<para>` element, whose content has no `<`, has
      a para match exactly when that content satisfies `ok`. */
  lemma SoleParaSearch(c: string, ci: bool, ok: string -> bool)
    requires forall k :: 0 <= k < |c| ==> c[k] != '<'
    ensures SearchPara("<para>" + c + "</para>", ci, ok, 0).Some? <==> ok(c)
  {
    var s := "<para>" + c + "</para>";
    SoleParaAt(c, ci);
    assert s[6..6 + |c|] == c;
    if ok(c) {
      assert ParaMatchesAt(s, ci, ok, 0);
    } else {
      assert !ParaMatchesAt(s, ci, ok, 0);
    }
  }

  /** In such a text the para pattern matches at the start, spanning the
      content, and nowhere else. */
  lemma SoleParaAt(c: string, ci: bool)
    requires forall k :: 0 <= k < |c| ==> c[k] != '<'
    ensures ParaAt("<para>" + c + "</para>", 0, ci) == Some(6 + |c|)
    ensures forall j: nat :: 0 < j <= 13 + |c| ==> ParaAt("<para>" + c + "</para>", j, ci).None?
  {
    var s := "<para>" + c + "</para>";
    var e := 6 + |c|;
    SoleParaTags(c);
    UptoIsFirst(s, 6, '<', e);
    assert s[..6] == "<para>" && s[e..] == "</para>";
    assert LiteralAt(s, "<para>", 0, ci);
    assert LiteralAt(s, "</para>", e, ci);
    forall j: nat | 0 < j <= |s| ensures ParaAt(s, j, ci).None? {
      NoParaOpenAt(s, j, ci);
    }
  }

  /** `<para>` cannot start at `j` when no `<` stands there, or one stands
      there that opens a closing tag. */
  lemma NoParaOpenAt(s: string, j: nat, ci: bool)
    requires j < |s| && s[j] == '<' ==> j + 1 < |s| && s[j + 1] == '/'
    ensures !LiteralAt(s, "<para>", j, ci)
  {
    if j + 6 <= |s| {
      var x := s[j..j + 6];
      assert x[0] == s[j] && x[1] == s[j + 1];
      assert Folded(x[0], ci) != '<' || Folded(x[1], ci) != 'p';
    }
  }

  /** In such a text `<` stands only at the two tags. */
  lemma SoleParaTags(c: string)
    requires forall k :: 0 <= k < |c| ==> c[k] != '<'
    ensures var s := "<para>" + c + "</para>";
            forall j :: 0 <= j < |s| && s[j] == '<' ==> j == 0 || j == 6 + |c|
    ensures ("<para>" + c + "</para>")[7 + |c|] == '/'
  {
    var s := "<para>" + c + "</para>";
    var e := 6 + |c|;
    assert s[..6] == "<para>" && s[e..] == "</para>";
    assert forall j :: 0 < j < 6 ==> s[j] == "<para>"[j];
    assert forall j :: 6 <= j < e ==> s[j] == c[j - 6];
    assert forall j :: e < j < |s| ==> s[j] == "</para>"[j - e];
    assert s[e + 1] == "</para>"[1];
  }

  lemma SubSlice(s: string, a: nat, len: nat, c: nat, d: nat)
    requires a + len <= |s| && c <= d <= len
    ensures s[a..a + len][c..d] == s[a + c..a + d]
  {
    var x := s[a..a + len][c..d];
    var y := s[a + c..a + d];
    forall t | 0 <= t < |x| ensures x[t] == y[t] {
    }
  }

  /** Two equal stretches of text, at `a` and `b`, agree on a literal at the
      same offset: at `pa` in the first and `pb` in the second. */
  lemma LiteralShift(s: string, lit: string, a: nat, b: nat, len: nat, pa: nat, pb: nat, ci: bool)
    requires a + len <= |s| && b + len <= |s| && s[a..a + len] == s[b..b + len]
    requires a <= pa && pa + |lit| <= a + len && pb == b + (pa - a)
    ensures LiteralAt(s, lit, pa, ci) == LiteralAt(s, lit, pb, ci)
  {
    var off := pa - a;
    SubSlice(s, a, len, off, off + |lit|);
    SubSlice(s, b, len, off, off + |lit|);
    assert s[pa..pa + |lit|] == s[pb..pb + |lit|];
  }

  /** Two equal stretches of text agree on where a `[^c]*` run ends, when it
      ends inside them. */
  lemma UptoShift(s: string, a: nat, b: nat, len: nat, off: nat, c: char)
    requires a + len <= |s| && b + len <= |s| && s[a..a + len] == s[b..b + len]
    requires off <= len && Upto(s, b + off, c) < b + len
    ensures Upto(s, a + off, c) == Upto(s, b + off, c) - b + a
  {
    var kb := Upto(s, b + off, c);
    var ka := kb - b + a;
    forall x | a + off <= x < ka ensures s[x] != c {
      assert s[x] == s[a..a + len][x - a] == s[b..b + len][x - a] == s[b + (x - a)];
    }
    assert s[ka] == s[a..a + len][kb - b] == s[b..b + len][kb - b] == s[kb];
    UptoIsFirst(s, a + off, c, ka);
  }

  /** A para found at `i` consists of its three parts. */
  lemma ParaAtParts(s: string, i: nat, ci: bool)
    requires i <= |s| && ParaAt(s, i, ci).Some?
    ensures var k := ParaAt(s, i, ci).value;
            LiteralAt(s, "<para>", i, ci) && Upto(s, i + 6, '<') == k && LiteralAt(s, "</para>", k, ci)
  {
  }

  /** The three parts make a para. */
  lemma ParaAtOfParts(s: string, i: nat, ci: bool, k: nat)
    requires i + 6 <= |s| && LiteralAt(s, "<para>", i, ci) && Upto(s, i + 6, '<') == k
    requires LiteralAt(s, "</para>", k, ci)
    ensures ParaAt(s, i, ci) == Some(k)
  {
  }

  /** The three parts of a para match carry over to an equal stretch of
      text: the opening tag, the run of text up to `<`, the closing tag. */
  lemma ParaPartsShift(s: string, m: nat, j: nat, k: nat, ci: bool)
    requires m + 6 <= k && k + 7 <= |s| && j + (k + 7 - m) <= |s|
    requires s[j..j + (k + 7 - m)] == s[m..k + 7]
    requires LiteralAt(s, "<para>", m, ci) && Upto(s, m + 6, '<') == k && LiteralAt(s, "</para>", k, ci)
    ensures LiteralAt(s, "<para>", j, ci) && Upto(s, j + 6, '<') == j + (k - m)
    ensures LiteralAt(s, "</para>", j + (k - m), ci)
  {
    var len := k + 7 - m;
    LiteralShift(s, "<para>", j, m, len, j, m, ci);
    UptoShift(s, j, m, len, 6, '<');
    LiteralShift(s, "</para>", j, m, len, j + (k - m), k, ci);
  }

  /** Equal stretches of text have equal pieces. */
  lemma CopySlice(s: string, a: nat, b: nat, len: nat, c: nat, d: nat)
    requires a + len <= |s| && b + len <= |s| && c <= d <= len
    requires s[a..a + len] == s[b..b + len]
    ensures s[a + c..a + d] == s[b + c..b + d]
  {
    SubSlice(s, a, len, c, d);
    SubSlice(s, b, len, c, d);
  }

  /** Whether a para starts at a position depends only on the text from
      there to its end. */
  lemma ParaAtShift(s: string, m: nat, j: nat, k: nat, ci: bool)
    requires m <= |s| && ParaAt(s, m, ci) == Some(k)
    requires j + (k + 7 - m) <= |s| && s[j..j + (k + 7 - m)] == s[m..k + 7]
    ensures ParaAt(s, j, ci) == Some(j + (k - m))
  {
    ParaAtParts(s, m, ci);
    ParaPartsShift(s, m, j, k, ci);
    ParaAtOfParts(s, j, ci, j + (k - m));
  }

  /** A para pattern matches wherever a copy of one of its matches sits. */
  lemma ParaMatchesAtCopy(s: string, ci: bool, ok: string -> bool, i: nat, j: nat)
    requires i <= |s| && ParaMatchesAt(s, ci, ok, i)
    requires OccursAt(s, s[i..ParaMatchAt(s, ci, ok, i).end], j)
    ensures ParaMatchesAt(s, ci, ok, j)
  {
    var k := ParaAt(s, i, ci).value;
    var len := k + 7 - i;
    ParaAtShift(s, i, j, k, ci);
    assert i + (k - i) == k;
    CopySlice(s, j, i, len, 6, k - i);
  }

  /** The leftmost match is the first copy of its own text in the document,
      so `replace(old_para, ..., 1)` rewrites the para that was matched. */
  lemma SearchParaIsFirstCopy(s: string, ci: bool, ok: string -> bool)
    requires SearchPara(s, ci, ok, 0).Some?
    ensures var m := SearchPara(s, ci, ok, 0).value;
            IsFirstOccurrence(s, s[m.start..m.end], m.start)
  {
    var m := SearchPara(s, ci, ok, 0).value;
    forall j: nat | j < m.start ensures !OccursAt(s, s[m.start..m.end], j) {
      if OccursAt(s, s[m.start..m.end], j) {
        ParaMatchesAtCopy(s, ci, ok, m.start, j);
      }
    }
  }

  /** `replace(old_para, new, 1)` with the leftmost match's own text puts
      `new` exactly where that match was. */
  lemma ReplaceSearchedPara(s: string, ci: bool, ok: string -> bool, repl: string)
    requires SearchPara(s, ci, ok, 0).Some?
    ensures var m := SearchPara(s, ci, ok, 0).value;
            ReplaceFirst(s, s[m.start..m.end], repl) == s[..m.start] + repl + s[m.end..]
  {
    var m := SearchPara(s, ci, ok, 0).value;
    SearchParaIsFirstCopy(s, ci, ok);
    ReplaceFirstAt(s, s[m.start..m.end], repl, m.start);
  }

  /** `Upto` finds the first `c`. */
  lemma UptoIsFirst(s: string, i: nat, c: char, k: nat)
    requires i <= k < |s| && s[k] == c
    requires forall t :: i <= t < k ==> s[t] != c
    ensures Upto(s, i, c) == k
  {
  }

  // ---------------------------------------------------------------------
  // Numbers read from identifiers, file names and titles

  /** The digits that end at `e` start at `b` when `s[b..e]` is all digits
      and the character before `b`, if any, is not a digit. */
  lemma {:induction false} DigitRunStartAt(s: string, b: nat, e: nat)
    requires b <= e <= |s| && AllDigits(s[b..e]) && (b == 0 || !IsDigit(s[b - 1]))
    ensures DigitRunStart(s, e) == b
    decreases e - b
  {
    if b < e {
      assert IsDigit(s[b..e][e - 1 - b]);
      assert s[b..e - 1] == s[b..e][..e - 1 - b];
      DigitRunStartAt(s, b, e - 1);
    }
  }

  /** The digits that start at `b` end at `e` when `s[b..e]` is all digits
      and the character at `e`, if any, is not a digit. */
  lemma {:induction false} RunEndDigitsAt(s: string, b: nat, e: nat)
    requires b <= e <= |s| && AllDigits(s[b..e]) && (e == |s| || !IsDigit(s[e]))
    ensures RunEnd(s, b, Digit) == e
    decreases e - b
  {
    if b < e {
      assert IsDigit(s[b..e][0]);
      assert s[b + 1..e] == s[b..e][1..];
      RunEndDigitsAt(s, b + 1, e);
    }
  }

  /** `re.search(r'bib(\d+)$', bib_id)` followed by `int(group(1))`. */
  function BibNumber(id: string): Option<nat>
  {
    var e := DollarEnd(id);
    var b := DigitRunStart(id, e);
    if b < e && b >= 3 && id[b - 3..b] == "bib" then Some(ParseNat(id[b..e])) else None
  }

  /** An id ending in `bib` and digits yields the value of those digits,
      leading zeros and all. */
  lemma BibNumberOf(prefix: string, digits: string)
    requires digits != [] && AllDigits(digits)
    ensures BibNumber(prefix + "bib" + digits) == Some(ParseNat(digits))
  {
    var id := prefix + "bib" + digits;
    var b := |prefix| + 3;
    assert id[b..] == digits;
    assert id[b - 3..b] == "bib";
    BibNumberAt(id, b);
  }

  lemma BibNumberAt(id: string, b: nat)
    requires 3 <= b < |id| && id[b - 3..b] == "bib" && AllDigits(id[b..])
    ensures BibNumber(id) == Some(ParseNat(id[b..]))
  {
    var e := |id|;
    assert IsDigit(id[b..][e - 1 - b]);
    assert DollarEnd(id) == e;
    assert id[b - 1] == id[b - 3..b][2];
    assert id[b..e] == id[b..];
    DigitRunStartAt(id, b, e);
  }

  const ChapterSuffix := "_Chapter.xhtml"

  /** `re.search(r'_(\d+)_Chapter\.xhtml$', filename)` followed by
      `int(group(1))`. */
  function XhtmlChapterNumber(f: string): (r: Option<nat>)
    ensures r.Some? ==> var e := DollarEnd(f); e >= 16 && f[e - 14..e] == ChapterSuffix
  {
    var e := DollarEnd(f);
    if e < |ChapterSuffix| || f[e - |ChapterSuffix|..e] != ChapterSuffix then None
    else
      var b := DigitRunStart(f, e - |ChapterSuffix|);
      if b < e - |ChapterSuffix| && b >= 1 && f[b - 1] == '_'
      then Some(ParseNat(f[b..e - |ChapterSuffix|]))
      else None
  }

  /** The chapter file of chapter `n` is read back as chapter `n`, whatever
      precedes the `_<n>_Chapter.xhtml` suffix. */
  lemma XhtmlChapterNumberOf(prefix: string, n: nat)
    ensures XhtmlChapterNumber(prefix + "_" + NatToDigits(n) + ChapterSuffix) == Some(n)
  {
    var d := NatToDigits(n);
    var f := prefix + "_" + d + ChapterSuffix;
    var b := |prefix| + 1;
    var e := b + |d|;
    assert DollarEnd(f) == |f| by { assert f[|f| - 1] == 'l'; }
    assert f[e..] == ChapterSuffix;
    assert f[b..e] == d;
    assert f[b - 1] == '_';
    DigitRunStartAt(f, b, e);
    ParseNatToDigits(n);
  }

  /** A name without the chapter suffix has no chapter number. */
  lemma XhtmlChapterNumberNeedsSuffix(f: string)
    requires |f| > 0 && f[|f| - 1] != 'l' && f[|f| - 1] != '\n'
    ensures XhtmlChapterNumber(f) == None
  {
  }

  /** `tag` followed by a digit at `i`. */
  predicate TagDigitAt(f: string, tag: string, i: nat)
  {
    i + |tag| < |f| && OccursAt(f, tag, i) && IsDigit(f[i + |tag|])
  }

  /** The leftmost `tag` followed by a digit, at or after `i`. */
  function FindTagDigit(f: string, tag: string, i: nat): (r: Option<nat>)
    requires i <= |f|
    ensures r.Some? ==> i <= r.value && TagDigitAt(f, tag, r.value)
    ensures r.Some? ==> forall j: nat :: i <= j < r.value ==> !TagDigitAt(f, tag, j)
    ensures r.None? ==> forall j: nat :: i <= j ==> !TagDigitAt(f, tag, j)
    decreases |f| - i
  {
    if TagDigitAt(f, tag, i) then Some(i)
    else if i == |f| then None
    else FindTagDigit(f, tag, i + 1)
  }

  /** `re.search(tag + r'(\d+)', f)` followed by `int(group(1))`: the value
      of the digits after the leftmost `tag` that has a digit after it. */
  function TaggedNumber(f: string, tag: string): Option<nat>
  {
    match FindTagDigit(f, tag, 0)
    case None => None
    case Some(i) => Some(ParseNat(f[i + |tag|..RunEnd(f, i + |tag|, Digit)]))
  }

  /** `re.search(r'ch(\d+)', name)` on an XML file name. */
  function XmlChapterNumber(name: string): Option<nat>
  {
    TaggedNumber(name, "ch")
  }

  /** The digits after the leftmost `tag` that has digits after it are the
      number read. */
  lemma TaggedNumberOf(prefix: string, tag: string, digits: string, rest: string)
    requires digits != [] && AllDigits(digits) && (rest == [] || !IsDigit(rest[0]))
    requires forall j: nat :: j < |prefix| ==> !TagDigitAt(prefix + tag + digits + rest, tag, j)
    ensures TaggedNumber(prefix + tag + digits + rest, tag) == Some(ParseNat(digits))
  {
    var f := prefix + tag + digits + rest;
    var i := |prefix|;
    assert f[i..i + |tag|] == tag;
    assert f[i + |tag|] == digits[0];
    assert TagDigitAt(f, tag, i);
    var e := i + |tag| + |digits|;
    assert f[i + |tag|..e] == digits;
    if rest != [] { assert f[e] == rest[0]; }
    RunEndDigitsAt(f, i + |tag|, e);
  }

  /** `re.search(r'^(\d+)\.', title)` followed by `int(group(1))`. */
  function TitleNumber(title: string): Option<nat>
  {
    var d := RunEnd(title, 0, Digit);
    if d > 0 && d < |title| && title[d] == '.' then Some(ParseNat(title[..d])) else None
  }

  /** A title `"<n>. ..."` is chapter `n`. */
  lemma TitleNumberOf(n: nat, rest: string)
    ensures TitleNumber(NatToDigits(n) + "." + rest) == Some(n)
  {
    var d := NatToDigits(n);
    var t := d + "." + rest;
    assert t[..|d|] == d;
    RunEndDigitsAt(t, 0, |d|);
    ParseNatToDigits(n);
  }

  const ChapterTitleTag := "<chaptertitle>"

  /** `<chaptertitle>` followed by digits and `.` at `i`. */
  predicate TitleTagAt(s: string, i: nat)
    requires i <= |s|
  {
    OccursAt(s, ChapterTitleTag, i) && (
      var d := RunEnd(s, i + 14, Digit);
      d > i + 14 && d < |s| && s[d] == '.')
  }

  /** The leftmost `<chaptertitle>N.` at or after `i`. */
  function FindTitleTag(s: string, i: nat): (r: Option<nat>)
    requires i <= |s|
    ensures r.Some? ==> i <= r.value < |s| && TitleTagAt(s, r.value)
    ensures r.Some? ==> forall j: nat :: i <= j < r.value ==> !TitleTagAt(s, j)
    ensures r.None? ==> forall j: nat :: i <= j <= |s| ==> !TitleTagAt(s, j)
    decreases |s| - i
  {
    if i == |s| then None
    else if TitleTagAt(s, i) then Some(i)
    else FindTitleTag(s, i + 1)
  }

  /** `re.search(r'<chaptertitle>(\d+)\.', content)` followed by
      `int(group(1))`. */
  function ChapterTitleNumber(s: string): Option<nat>
  {
    match FindTitleTag(s, 0)
    case None => None
    case Some(i) => Some(ParseNat(s[i + 14..RunEnd(s, i + 14, Digit)]))
  }

  /** A document whose first chapter title tag reads `<chaptertitle>n.` is
      chapter `n`. */
  lemma ChapterTitleNumberOf(prefix: string, n: nat, rest: string)
    requires forall j: nat :: j < |prefix| ==> prefix[j] != '<'
    ensures ChapterTitleNumber(prefix + ChapterTitleTag + NatToDigits(n) + "." + rest) == Some(n)
  {
    var d := NatToDigits(n);
    var s := prefix + ChapterTitleTag + d + "." + rest;
    var i := |prefix|;
    forall j: nat | j < i ensures !TitleTagAt(s, j) {
      assert s[j] == prefix[j];
    }
    TitleTagAtOf(s, i, d);
    ParseNatToDigits(n);
  }

  lemma TitleTagAtOf(s: string, i: nat, d: string)
    requires d != [] && AllDigits(d) && i + 14 + |d| < |s|
    requires s[i..i + 14] == ChapterTitleTag && s[i + 14..i + 14 + |d|] == d && s[i + 14 + |d|] == '.'
    requires forall j: nat :: j < i ==> !TitleTagAt(s, j)
    ensures FindTitleTag(s, 0) == Some(i)
    ensures ChapterTitleNumber(s) == Some(ParseNat(d))
  {
    RunEndDigitsAt(s, i + 14, i + 14 + |d|);
    assert TitleTagAt(s, i);
    FindTitleTagFirst(s, 0, i);
  }

  lemma {:induction false} FindTitleTagFirst(s: string, j: nat, i: nat)
    requires j <= i < |s| && TitleTagAt(s, i)
    requires forall k: nat :: j <= k < i ==> !TitleTagAt(s, k)
    ensures FindTitleTag(s, j) == Some(i)
    decreases i - j
  {
    if j < i { FindTitleTagFirst(s, j + 1, i); }
  }
}
