/// Character classes and the few `str` operations of Python that the repair
/// scripts rely on: whitespace, `strip`, `re.sub(r'\s+', ' ', ...)`,
/// `in`, and `str.replace` with and without a count.
module Text {

  datatype Option<T> = None | Some(value: T)

  /** Python's `str.isspace()`, which is also the set that `\s` matches in a
      `str` pattern: tab to carriage return, the four information separators,
      space, and the Unicode spaces and line/paragraph separators. */
  predicate IsSpace(c: char)
  {
    var n := c as int;
    (9 <= n <= 13) || (28 <= n <= 32) || n == 0x85 || n == 0xA0 || n == 0x1680
    || (0x2000 <= n <= 0x200A) || n == 0x2028 || n == 0x2029 || n == 0x202F
    || n == 0x205F || n == 0x3000
  }

  /** `[0-9]`: the ASCII decimal digits. */
  predicate IsDigit(c: char) { '0' <= c <= '9' }

  /** `[a-z]` without IGNORECASE. */
  predicate IsLower(c: char) { 'a' <= c <= 'z' }

  /** `[a-z]` (equally `[A-Z]`) under `re.IGNORECASE`: the 52 ASCII letters and
      the four non-ASCII letters that case-fold onto them. */
  predicate IsLetterCI(c: char)
  {
    ('a' <= c <= 'z') || ('A' <= c <= 'Z')
    || c as int == 0x130 || c as int == 0x131 || c as int == 0x17F || c as int == 0x212A
  }

  predicate AllSpace(s: string) { forall k :: 0 <= k < |s| ==> IsSpace(s[k]) }

  predicate AllDigits(s: string) { forall k :: 0 <= k < |s| ==> IsDigit(s[k]) }

  /** Neither the first nor the last character is whitespace. */
  predicate NoEdgeSpace(s: string) { s == [] || (!IsSpace(s[0]) && !IsSpace(s[|s| - 1])) }

  /** No run of two or more whitespace characters. */
  predicate NoDoubleSpace(s: string)
  {
    forall k :: 0 <= k < |s| - 1 ==> !(IsSpace(s[k]) && IsSpace(s[k + 1]))
  }

  /** Every whitespace character is a plain space. */
  predicate OnlyPlainSpaces(s: string)
  {
    forall k :: 0 <= k < |s| && IsSpace(s[k]) ==> s[k] == ' '
  }

  /** The shape `re.sub(r'\s+', ' ', x).strip()` promises. */
  predicate Normalized(s: string)
  {
    NoEdgeSpace(s) && NoDoubleSpace(s) && OnlyPlainSpaces(s)
  }

  /** The non-whitespace characters of `s`, in order. */
  function NonSpace(s: string): string
  {
    if s == [] then [] else (if IsSpace(s[0]) then [] else [s[0]]) + NonSpace(s[1..])
  }

  /** End of the whitespace run that starts at `i` (greedy `\s*`). */
  function SpanSpace(s: string, i: nat): (k: nat)
    requires i <= |s|
    ensures i <= k <= |s| && AllSpace(s[i..k])
    ensures k < |s| ==> !IsSpace(s[k])
    decreases |s| - i
  {
    if i < |s| && IsSpace(s[i]) then SpanSpace(s, i + 1) else i
  }

  /** The whitespace run from `i` ends at the first index not holding
      whitespace. */
  lemma SpanSpaceIs(s: string, i: nat, k: nat)
    requires i <= k <= |s|
    requires forall j :: i <= j < k ==> IsSpace(s[j])
    requires k == |s| || !IsSpace(s[k])
    ensures SpanSpace(s, i) == k
  {
  }

  /** Start of the whitespace run that ends `s`. */
  function TrailStart(s: string): (k: nat)
    ensures k <= |s| && AllSpace(s[k..])
    ensures k > 0 ==> !IsSpace(s[k - 1])
  {
    if |s| > 0 && IsSpace(s[|s| - 1]) then TrailStart(s[..|s| - 1]) else |s|
  }

  /** Python's `str.strip()` with no argument. */
  function Strip(s: string): (r: string)
    ensures NoEdgeSpace(r)
    ensures r == [] <==> AllSpace(s)
    ensures var a := SpanSpace(s, 0);
            a + |r| <= |s| && r == s[a..a + |r|] && AllSpace(s[a + |r|..])
  {
    var a := SpanSpace(s, 0);
    var b := TrailStart(s);
    if a >= b then
      assert forall k :: 0 <= k < |s| ==> IsSpace(s[k]) by {
        forall k | 0 <= k < |s| ensures IsSpace(s[k]) {
          if k < b { assert s[0..a][k] == s[k]; } else { assert s[b..][k - b] == s[k]; }
        }
      }
      []
    else
      assert !AllSpace(s) by { assert !IsSpace(s[a]); }
      s[a..b]
  }

  /** `re.sub(r'\s+', ' ', s)`: every maximal whitespace run becomes one space. */
  function Collapse(s: string): (r: string)
    ensures |r| <= |s|
    ensures r == [] <==> s == []
    ensures s != [] ==> (IsSpace(r[0]) <==> IsSpace(s[0]))
    decreases |s|
  {
    if s == [] then []
    else if IsSpace(s[0]) then [' '] + Collapse(s[SpanSpace(s, 0)..])
    else [s[0]] + Collapse(s[1..])
  }

  /** `re.sub(r'\s+', ' ', s).strip()`, the whitespace step of every cleaner. */
  function Normalize(s: string): string
  {
    Strip(Collapse(s))
  }

  lemma {:induction false} NonSpaceAppend(a: string, b: string)
    ensures NonSpace(a + b) == NonSpace(a) + NonSpace(b)
    decreases |a|
  {
    if a == [] {
      assert a + b == b;
    } else {
      assert (a + b)[0] == a[0];
      assert (a + b)[1..] == a[1..] + b;
      NonSpaceAppend(a[1..], b);
    }
  }

  lemma {:induction false} NonSpaceOfSpaces(s: string)
    requires AllSpace(s)
    ensures NonSpace(s) == []
    decreases |s|
  {
    if s != [] { NonSpaceOfSpaces(s[1..]); }
  }

  /** Collapsing whitespace keeps exactly the visible characters, in order,
      leaves no run of two whitespace characters, and writes every surviving
      whitespace character as a plain space. */
  lemma {:induction false} CollapseSpec(s: string)
    ensures NonSpace(Collapse(s)) == NonSpace(s)
    ensures NoDoubleSpace(Collapse(s))
    ensures OnlyPlainSpaces(Collapse(s))
    decreases |s|
  {
    if s == [] { return; }
    var r := Collapse(s);
    if IsSpace(s[0]) {
      var k := SpanSpace(s, 0);
      var t := s[k..];
      CollapseSpec(t);
      assert s == s[..k] + t;
      NonSpaceAppend(s[..k], t);
      NonSpaceOfSpaces(s[..k]);
      assert r == [' '] + Collapse(t);
      NonSpaceAppend([' '], Collapse(t));
      assert t != [] ==> !IsSpace(t[0]);
      assert forall j :: 0 <= j < |r| - 1 ==> r[j + 1] == Collapse(t)[j];
    } else {
      CollapseSpec(s[1..]);
      assert s == [s[0]] + s[1..];
      NonSpaceAppend([s[0]], s[1..]);
      NonSpaceAppend([s[0]], Collapse(s[1..]));
      assert forall j :: 0 <= j < |r| - 1 ==> r[j + 1] == Collapse(s[1..])[j];
    }
  }

  /** Stripping removes only whitespace. */
  lemma StripKeepsVisible(s: string)
    ensures NonSpace(Strip(s)) == NonSpace(s)
  {
    var r := Strip(s);
    var a := SpanSpace(s, 0);
    assert s == s[..a] + (r + s[a + |r|..]);
    NonSpaceAppend(s[..a], r + s[a + |r|..]);
    NonSpaceAppend(r, s[a + |r|..]);
    NonSpaceOfSpaces(s[..a]);
    NonSpaceOfSpaces(s[a + |r|..]);
  }

  /** The whitespace step of the cleaners: the result has no leading or
      trailing whitespace, no run of two whitespace characters, only plain
      spaces, and the same visible characters in the same order. */
  lemma NormalizeSpec(s: string)
    ensures Normalized(Normalize(s))
    ensures NonSpace(Normalize(s)) == NonSpace(s)
  {
    var c := Collapse(s);
    CollapseSpec(s);
    StripKeepsVisible(c);
    var r := Strip(c);
    var a := SpanSpace(c, 0);
    assert forall k :: 0 <= k < |r| ==> r[k] == c[a + k];
  }

  /** A string with no edge whitespace is its own `strip()`. */
  lemma StripNoEdge(s: string)
    requires NoEdgeSpace(s)
    ensures Strip(s) == s
  {
    var r := Strip(s);
    if s != [] {
      assert SpanSpace(s, 0) == 0;
    }
  }

  lemma {:induction false} CollapseNormalForm(s: string)
    requires NoDoubleSpace(s) && OnlyPlainSpaces(s)
    ensures Collapse(s) == s
    decreases |s|
  {
    if s != [] {
      var t := s[1..];
      assert NoDoubleSpace(t) by {
        forall k | 0 <= k < |t| - 1 ensures !(IsSpace(t[k]) && IsSpace(t[k + 1])) {
          assert t[k] == s[k + 1] && t[k + 1] == s[k + 2];
        }
      }
      assert OnlyPlainSpaces(t) by {
        forall k | 0 <= k < |t| && IsSpace(t[k]) ensures t[k] == ' ' { assert t[k] == s[k + 1]; }
      }
      if IsSpace(s[0]) {
        assert |s| > 1 ==> !IsSpace(s[1]);
        assert SpanSpace(s, 0) == 1;
      }
      CollapseNormalForm(t);
    }
  }

  /** Each cleaning step is idempotent; here the whitespace step. */
  lemma NormalizeIdempotent(s: string)
    ensures Normalize(Normalize(s)) == Normalize(s)
  {
    var n := Normalize(s);
    NormalizeSpec(s);
    CollapseNormalForm(n);
    StripNoEdge(n);
  }

  /** A normalized text is its own normal form. */
  lemma NormalizeFixed(s: string)
    requires Normalized(s)
    ensures Normalize(s) == s
  {
    CollapseNormalForm(s);
    StripNoEdge(s);
  }

  /** Two texts without whitespace runs join into one without a run, as long
      as the seam is not whitespace on both sides. */
  lemma ConcatSpacing(a: string, b: string)
    requires NoDoubleSpace(a) && OnlyPlainSpaces(a) && NoDoubleSpace(b) && OnlyPlainSpaces(b)
    requires a != [] && b != [] ==> !(IsSpace(a[|a| - 1]) && IsSpace(b[0]))
    ensures NoDoubleSpace(a + b) && OnlyPlainSpaces(a + b)
  {
    var s := a + b;
    forall k | 0 <= k < |s| - 1 ensures !(IsSpace(s[k]) && IsSpace(s[k + 1])) {
      if k + 1 < |a| {
        assert s[k] == a[k] && s[k + 1] == a[k + 1];
      } else if k >= |a| {
        assert s[k] == b[k - |a|] && s[k + 1] == b[k + 1 - |a|];
      } else {
        assert s[k] == a[|a| - 1] && s[k + 1] == b[0];
      }
    }
    forall k | 0 <= k < |s| && IsSpace(s[k]) ensures s[k] == ' ' {
      if k < |a| { assert s[k] == a[k]; } else { assert s[k] == b[k - |a|]; }
    }
  }

  // ---------------------------------------------------------------------
  // Substrings and `str.replace`

  /** `pat` occurs in `s` at index `i`. */
  predicate OccursAt(s: string, pat: string, i: nat)
  {
    i + |pat| <= |s| && s[i..i + |pat|] == pat
  }

  /** Python's `pat in s`. */
  predicate Contains(s: string, pat: string)
  {
    exists i: nat :: i <= |s| && OccursAt(s, pat, i)
  }

  /** `i` is the leftmost occurrence of `pat` in `s` (what `str.find` returns). */
  predicate IsFirstOccurrence(s: string, pat: string, i: nat)
  {
    OccursAt(s, pat, i) && forall j: nat :: j < i ==> !OccursAt(s, pat, j)
  }

  /** `s.replace(target, repl, 1)`, scanning left to right as CPython does. */
  function ReplaceFirst(s: string, target: string, repl: string): string
    decreases |s|
  {
    if OccursAt(s, target, 0) then repl + s[|target|..]
    else if s == [] then []
    else [s[0]] + ReplaceFirst(s[1..], target, repl)
  }

  /** `s.replace(target, repl)`: every non-overlapping occurrence, left to right;
      an empty `target` inserts `repl` before every character and at the end. */
  function ReplaceAll(s: string, target: string, repl: string): string
  {
    if target == [] then InsertAround(s, repl) else ReplaceEach(s, target, repl)
  }

  /** `s.replace('', repl)`. */
  function InsertAround(s: string, repl: string): string
  {
    if s == [] then repl else repl + [s[0]] + InsertAround(s[1..], repl)
  }

  /** `s.replace(target, repl)` for a non-empty `target`. */
  function ReplaceEach(s: string, target: string, repl: string): string
    requires target != []
    decreases |s|
  {
    if OccursAt(s, target, 0) then repl + ReplaceEach(s[|target|..], target, repl)
    else if s == [] then []
    else [s[0]] + ReplaceEach(s[1..], target, repl)
  }

  /** The characters of a text after its first one are the text's tail. */
  lemma OccursAtTail(s: string, pat: string, j: nat)
    requires |s| > 0
    ensures OccursAt(s[1..], pat, j) <==> OccursAt(s, pat, j + 1)
  {
    if j + 1 + |pat| <= |s| { assert s[1..][j..j + |pat|] == s[j + 1..j + 1 + |pat|]; }
  }

  lemma AbsentFromTail(s: string, pat: string)
    requires |s| > 0 && !Contains(s, pat)
    ensures !Contains(s[1..], pat)
  {
    forall j: nat | j <= |s| - 1 && OccursAt(s[1..], pat, j) ensures false {
      OccursAtTail(s, pat, j);
    }
  }

  lemma FirstOccurrenceInTail(s: string, pat: string, i: nat)
    requires IsFirstOccurrence(s, pat, i) && i > 0
    ensures IsFirstOccurrence(s[1..], pat, i - 1)
  {
    OccursAtTail(s, pat, i - 1);
    forall j: nat | j < i - 1 ensures !OccursAt(s[1..], pat, j) { OccursAtTail(s, pat, j); }
  }

  /** `replace(target, repl, 1)` changes nothing when `target` does not occur. */
  lemma {:induction false} ReplaceFirstAbsent(s: string, target: string, repl: string)
    requires !Contains(s, target)
    ensures ReplaceFirst(s, target, repl) == s
    decreases |s|
  {
    assert !OccursAt(s, target, 0);
    if s != [] {
      AbsentFromTail(s, target);
      ReplaceFirstAbsent(s[1..], target, repl);
      assert s == [s[0]] + s[1..];
    }
  }

  /** `replace(target, repl, 1)` rewrites exactly the leftmost occurrence:
      the text before it and the text after it are kept as they were. */
  lemma {:induction false} ReplaceFirstAt(s: string, target: string, repl: string, i: nat)
    requires IsFirstOccurrence(s, target, i)
    ensures ReplaceFirst(s, target, repl) == s[..i] + repl + s[i + |target|..]
    decreases |s|
  {
    var rest := s[i + |target|..];
    if i == 0 {
      assert s[..i] == [];
    } else {
      var t := s[1..];
      assert ReplaceFirst(s, target, repl) == [s[0]] + ReplaceFirst(t, target, repl) by {
        assert !OccursAt(s, target, 0);
      }
      assert ReplaceFirst(t, target, repl) == t[..i - 1] + repl + rest by {
        FirstOccurrenceInTail(s, target, i);
        ReplaceFirstAt(t, target, repl, i - 1);
        assert rest == t[i - 1 + |target|..];
      }
      assert s[..i] == [s[0]] + t[..i - 1];
    }
  }

  /** `replace(target, repl)` with a non-empty target changes nothing when the
      target does not occur. */
  lemma {:induction false} ReplaceAllAbsent(s: string, target: string, repl: string)
    requires target != [] && !Contains(s, target)
    ensures ReplaceAll(s, target, repl) == s
    decreases |s|
  {
    assert !OccursAt(s, target, 0);
    if s != [] {
      AbsentFromTail(s, target);
      ReplaceAllAbsent(s[1..], target, repl);
      assert s == [s[0]] + s[1..];
    }
  }

  /** Where `target` does not start the text, `replace` keeps the first
      character and goes on with the rest. */
  lemma ReplaceAllSkip(s: string, target: string, repl: string)
    requires target != [] && s != [] && !OccursAt(s, target, 0)
    ensures ReplaceAll(s, target, repl) == [s[0]] + ReplaceAll(s[1..], target, repl)
  {
  }

  /** Where `target` starts the text, `replace` writes `repl` for it and
      goes on after it. */
  lemma ReplaceAllTake(s: string, target: string, repl: string)
    requires target != [] && OccursAt(s, target, 0)
    ensures ReplaceAll(s, target, repl) == repl + ReplaceAll(s[|target|..], target, repl)
  {
  }

  lemma DropOfTail(s: string, k: nat)
    requires 0 < |s| && k <= |s| - 1
    ensures s[1..][k..] == s[k + 1..]
  {
  }

  lemma ConcatRegroup(a: string, b: string, c: string, d: string)
    ensures a + (b + c + d) == (a + b) + c + d
  {
  }

  /** `replace(target, repl)` with a non-empty target keeps the text before the
      leftmost occurrence, writes `repl` in its place, and goes on replacing
      in the rest. */
  lemma {:induction false} ReplaceAllAt(s: string, target: string, repl: string, i: nat)
    requires target != [] && IsFirstOccurrence(s, target, i)
    ensures ReplaceAll(s, target, repl)
            == s[..i] + repl + ReplaceAll(s[i + |target|..], target, repl)
    decreases |s|
  {
    var rest := s[i + |target|..];
    var tail := ReplaceAll(rest, target, repl);
    if i == 0 {
      ReplaceAllTake(s, target, repl);
      assert s[..i] == [];
    } else {
      var t := s[1..];
      calc {
        ReplaceAll(s, target, repl);
        { assert !OccursAt(s, target, 0); ReplaceAllSkip(s, target, repl); }
        [s[0]] + ReplaceAll(t, target, repl);
        { FirstOccurrenceInTail(s, target, i);
          ReplaceAllAt(t, target, repl, i - 1);
          DropOfTail(s, i - 1 + |target|); }
        [s[0]] + (t[..i - 1] + repl + tail);
        { ConcatRegroup([s[0]], t[..i - 1], repl, tail); }
        ([s[0]] + t[..i - 1]) + repl + tail;
        { assert s[..i] == [s[0]] + t[..i - 1]; }
        s[..i] + repl + tail;
      }
    }
  }

  /** `n` copies of `s` one after the other. */
  function Repeat(s: string, n: nat): string
  {
    if n == 0 then [] else s + Repeat(s, n - 1)
  }

  /** `replace` without a count rewrites every copy: a text made of `n`
      copies of `target` becomes `n` copies of `repl`. */
  lemma {:induction false} ReplaceAllEveryCopy(target: string, repl: string, n: nat)
    requires target != []
    ensures ReplaceAll(Repeat(target, n), target, repl) == Repeat(repl, n)
  {
    if n > 0 {
      var s := Repeat(target, n);
      assert OccursAt(s, target, 0);
      assert s[|target|..] == Repeat(target, n - 1);
      ReplaceAllEveryCopy(target, repl, n - 1);
    }
  }

  /** When `target` occurs only once, `replace(target, repl)` and
      `replace(target, repl, 1)` agree. */
  lemma ReplaceAllSingleCopy(s: string, target: string, repl: string, i: nat)
    requires target != []
    requires IsFirstOccurrence(s, target, i)
    requires !Contains(s[i + |target|..], target)
    ensures ReplaceAll(s, target, repl) == ReplaceFirst(s, target, repl)
  {
    ReplaceAllAt(s, target, repl, i);
    ReplaceAllAbsent(s[i + |target|..], target, repl);
    ReplaceFirstAt(s, target, repl, i);
  }

  /** The record preview used in the fix reports:
      `s[:100] + '...' if len(s) > 100 else s`. */
  function Preview(s: string): (r: string)
    ensures |r| <= 103
    ensures |s| <= 100 ==> r == s
    ensures |s| > 100 ==> |r| == 103 && r[..100] == s[..100] && r[100..] == "..."
  {
    if |s| > 100 then s[..100] + "..." else s
  }

  // ---------------------------------------------------------------------
  // Counting

  /** The indices of the elements of `xs` that satisfy `p`. */
  function IndexSet<T>(xs: seq<T>, p: T -> bool): set<nat>
  {
    set k: nat | k < |xs| && p(xs[k])
  }

  /** One more element adds its index exactly when it satisfies `p`. */
  lemma IndexSetSnoc<T>(xs: seq<T>, p: T -> bool)
    requires xs != []
    ensures |IndexSet(xs, p)| == |IndexSet(xs[..|xs| - 1], p)| + if p(xs[|xs| - 1]) then 1 else 0
  {
    var init := xs[..|xs| - 1];
    var last := |xs| - 1;
    var a := IndexSet(init, p);
    assert forall k: nat :: k < |init| ==> init[k] == xs[k];
    if p(xs[last]) {
      assert IndexSet(xs, p) == a + {last};
    } else {
      assert IndexSet(xs, p) == a;
    }
  }
}
