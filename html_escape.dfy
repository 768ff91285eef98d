/// `html.escape(s)` with its default `quote=True`, and the part of
/// `html.unescape` that undoes it.
module HtmlEscape {
  import opened Text

  /** The characters `html.escape` rewrites. */
  predicate IsMarkupSpecial(c: char)
  {
    c == '&' || c == '<' || c == '>' || c == '"' || c == '\''
  }

  function EscapeChar(c: char): string
  {
    if c == '&' then "&amp;"
    else if c == '<' then "&lt;"
    else if c == '>' then "&gt;"
    else if c == '"' then "&quot;"
    else if c == '\'' then "&#x27;"
    else [c]
  }

  /** `html.escape(s)`. CPython replaces `&` first and then `<`, `>`, `"`,
      `'`; since no replacement introduces one of the later characters, this
      is the same as escaping character by character. */
  function Escape(s: string): (r: string)
    ensures |r| >= |s|
    ensures forall k :: 0 <= k < |r| ==> r[k] != '<' && r[k] != '>' && r[k] != '"' && r[k] != '\''
  {
    if s == [] then [] else EscapeChar(s[0]) + Escape(s[1..])
  }

  /** Escaped text holds no `<`, so it can never open or close an element. */
  lemma EscapeHasNoTag(s: string)
    ensures !Contains(Escape(s), "<")
  {
    var r := Escape(s);
    forall i: nat | i <= |r| ensures !OccursAt(r, "<", i) {
      if i < |r| { assert r[i..i + 1] == [r[i]]; }
    }
  }

  /** The entity that `html.unescape` decodes at the start of `s`, with its
      length: the five that `html.escape` writes and the decimal form of the
      apostrophe. */
  function EntityAt(s: string): Option<(char, nat)>
  {
    if OccursAt(s, "&amp;", 0) then Some(('&', 5))
    else if OccursAt(s, "&lt;", 0) then Some(('<', 4))
    else if OccursAt(s, "&gt;", 0) then Some(('>', 4))
    else if OccursAt(s, "&quot;", 0) then Some(('"', 6))
    else if OccursAt(s, "&#x27;", 0) then Some(('\'', 6))
    else if OccursAt(s, "&#39;", 0) then Some(('\'', 5))
    else None
  }

  /** `html.unescape(s)` restricted to the entities of `EntityAt`; every other
      character, including an `&` that starts no such entity, is kept. */
  function Unescape(s: string): (r: string)
    ensures |r| <= |s|
    decreases |s|
  {
    if s == [] then []
    else match EntityAt(s)
      case Some((c, n)) => [c] + Unescape(s[n..])
      case None => [s[0]] + Unescape(s[1..])
  }

  lemma UnescapeEntity(c: char, t: string)
    ensures Unescape(EscapeChar(c) + t) == [c] + Unescape(t)
  {
    var s := EscapeChar(c) + t;
    var e := EscapeChar(c);
    assert s[..|e|] == e;
    if c == '&' {
      assert EntityAt(s) == Some(('&', 5));
    } else if c == '<' {
      assert s[1] == 'l';
      assert EntityAt(s) == Some(('<', 4));
    } else if c == '>' {
      assert s[1] == 'g';
      assert EntityAt(s) == Some(('>', 4));
    } else if c == '"' {
      assert s[1] == 'q';
      assert EntityAt(s) == Some(('"', 6));
    } else if c == '\'' {
      assert s[1] == '#' && s[2] == 'x';
      assert EntityAt(s) == Some(('\'', 6));
    } else {
      assert s[0] == c;
      assert EntityAt(s) == None;
    }
    assert s[|e|..] == t;
  }

  /** Decoding once undoes encoding once: the text inserted into a repaired
      document reads back as exactly the clean text it was built from. */
  lemma {:induction false} UnescapeEscape(s: string)
    ensures Unescape(Escape(s)) == s
  {
    if s != [] {
      UnescapeEntity(s[0], Escape(s[1..]));
      UnescapeEscape(s[1..]);
      assert s == [s[0]] + s[1..];
    }
  }

  /** Text with none of the five special characters is escaped as itself. */
  lemma {:induction false} EscapePlain(s: string)
    requires forall k :: 0 <= k < |s| ==> !IsMarkupSpecial(s[k])
    ensures Escape(s) == s
  {
    if s != [] {
      EscapePlain(s[1..]);
      assert s == [s[0]] + s[1..];
    }
  }

  /** The escape of one character is whitespace, at either end, exactly
      when the character is, and holds no whitespace run. */
  lemma EscapeCharSpacing(c: char)
    requires IsSpace(c) ==> c == ' '
    ensures var e := EscapeChar(c);
            && e != [] && NoDoubleSpace(e) && OnlyPlainSpaces(e)
            && IsSpace(e[0]) == IsSpace(c) && IsSpace(e[|e| - 1]) == IsSpace(c)
  {
  }

  /** Escaping keeps the whitespace of a text where it was: the same first
      and last character class, no new run and no new kind of whitespace. */
  lemma {:induction false} EscapeSpacing(s: string)
    requires NoDoubleSpace(s) && OnlyPlainSpaces(s)
    ensures NoDoubleSpace(Escape(s)) && OnlyPlainSpaces(Escape(s))
    ensures s != [] ==> IsSpace(Escape(s)[0]) == IsSpace(s[0])
    ensures s != [] ==> IsSpace(Escape(s)[|Escape(s)| - 1]) == IsSpace(s[|s| - 1])
    decreases |s|
  {
    if s == [] { return; }
    var t := s[1..];
    var e := EscapeChar(s[0]);
    var u := Escape(t);
    assert Escape(s) == e + u;
    assert NoDoubleSpace(t) && OnlyPlainSpaces(t) by {
      forall k | 0 <= k < |t| - 1 ensures !(IsSpace(t[k]) && IsSpace(t[k + 1])) {
        assert t[k] == s[k + 1] && t[k + 1] == s[k + 2];
      }
      forall k | 0 <= k < |t| && IsSpace(t[k]) ensures t[k] == ' ' { assert t[k] == s[k + 1]; }
    }
    EscapeSpacing(t);
    EscapeCharSpacing(s[0]);
    if t != [] {
      assert t[0] == s[1];
      assert t[|t| - 1] == s[|s| - 1];
      assert (e + u)[|e + u| - 1] == u[|u| - 1];
    } else {
      assert e + u == e;
    }
    assert (e + u)[0] == e[0];
    ConcatSpacing(e, u);
  }

  /** Escaping keeps a normalized text normalized. */
  lemma EscapeNormalized(s: string)
    requires Normalized(s)
    ensures Normalized(Escape(s))
  {
    EscapeSpacing(s);
  }

  /** Decoding starts with a space exactly when the text does: an entity
      begins with `&` and decodes to a character that is not whitespace. */
  lemma UnescapeFirst(s: string)
    requires s != []
    ensures Unescape(s) != [] && (IsSpace(Unescape(s)[0]) <==> IsSpace(s[0]))
  {
  }

  /** Decoding ends with a space exactly when the text does: an entity ends
      with `;` and decodes to a character that is not whitespace. */
  lemma {:induction false} UnescapeLast(s: string)
    requires s != []
    ensures Unescape(s) != []
    ensures IsSpace(Unescape(s)[|Unescape(s)| - 1]) <==> IsSpace(s[|s| - 1])
    decreases |s|
  {
    var n := match EntityAt(s) case Some((_, n)) => n case None => 1;
    var r := Unescape(s);
    var t := s[n..];
    assert r == [r[0]] + Unescape(t);
    if n < |s| {
      UnescapeLast(t);
      assert t[|t| - 1] == s[|s| - 1];
    } else if n > 1 {
      assert s[|s| - 1] == ';';
    }
  }

  /** Decoding creates no whitespace run and no whitespace other than the
      spaces already there. */
  lemma {:induction false} UnescapeSpacing(s: string)
    requires NoDoubleSpace(s) && OnlyPlainSpaces(s)
    ensures NoDoubleSpace(Unescape(s)) && OnlyPlainSpaces(Unescape(s))
    decreases |s|
  {
    if s == [] { return; }
    var r := Unescape(s);
    var n := match EntityAt(s) case Some((_, n)) => n case None => 1;
    var t := s[n..];
    assert NoDoubleSpace(t) && OnlyPlainSpaces(t) by {
      forall k | 0 <= k < |t| - 1 ensures !(IsSpace(t[k]) && IsSpace(t[k + 1])) {
        assert t[k] == s[n + k] && t[k + 1] == s[n + k + 1];
      }
      forall k | 0 <= k < |t| && IsSpace(t[k]) ensures t[k] == ' ' { assert t[k] == s[n + k]; }
    }
    UnescapeSpacing(t);
    var u := Unescape(t);
    assert r == [r[0]] + u;
    assert IsSpace(r[0]) ==> n == 1 && r[0] == s[0] && s[0] == ' ';
    if u != [] {
      UnescapeFirst(t);
      assert IsSpace(r[0]) ==> !IsSpace(u[0]) by {
        if IsSpace(r[0]) { assert t[0] == s[1]; }
      }
    }
    ConcatSpacing([r[0]], u);
  }

  /** Decoding keeps a normalized text normalized. */
  lemma UnescapeNormalized(s: string)
    requires Normalized(s)
    ensures Normalized(Unescape(s))
  {
    UnescapeSpacing(s);
    if s != [] {
      UnescapeFirst(s);
      UnescapeLast(s);
    }
  }
}
