/** The two escapers the pages use before putting text into markup.

    `EscapeHtml` is the `escapeHtml` helper that the quiz-authoring, join and quiz-details pages
    each define identically: a regular-expression replace of the five characters `& < > " '` by
    entities. `Sanitize` is `sanitizeInput`, which assigns a string to a detached element's
    `textContent` and reads back its `innerHTML`; the browser serialises a text node by the
    escaping rule of the WHATWG HTML Living Standard, section 13.3 "Serializing HTML fragments"
    (escaping a string in text mode: `&`, U+00A0 NO-BREAK SPACE, `<` and `>`). */
module HtmlEscape {
  import opened Text

  /** The characters `escapeHtml` rewrites. */
  predicate IsMarkupChar(c: char) {
    c == '&' || c == '<' || c == '>' || c == '"' || c == '\''
  }

  /** The replacement `escapeHtml` uses for one character. */
  function EscapeChar(c: char): string {
    if c == '&' then "&amp;"
    else if c == '<' then "&lt;"
    else if c == '>' then "&gt;"
    else if c == '"' then "&quot;"
    else if c == '\'' then "&#039;"
    else [c]
  }

  /** `escapeHtml(text)`: every character replaced by its entity or kept. The result never
      contains a character that could open a tag or close an attribute value. */
  function EscapeHtml(s: string): (r: string)
    ensures |r| >= |s|
    ensures forall i :: 0 <= i < |r| ==> r[i] != '<' && r[i] != '>' && r[i] != '"' && r[i] != '\''
  {
    if s == [] then [] else EscapeChar(s[0]) + EscapeHtml(s[1..])
  }

  /** Escaping distributes over concatenation: it is a per-character rewrite. */
  lemma {:induction false} EscapeHtmlConcat(a: string, b: string)
    ensures EscapeHtml(a + b) == EscapeHtml(a) + EscapeHtml(b)
    decreases |a|
  {
    if a == [] {
      assert a + b == b;
    } else {
      assert (a + b)[0] == a[0] && (a + b)[1..] == a[1..] + b;
      EscapeHtmlConcat(a[1..], b);
    }
  }

  /** Escaping leaves a string unchanged exactly when it holds none of the five characters. */
  lemma {:induction false} EscapeHtmlFixedIff(s: string)
    ensures EscapeHtml(s) == s <==> forall i :: 0 <= i < |s| ==> !IsMarkupChar(s[i])
    decreases |s|
  {
    if s != [] {
      EscapeHtmlFixedIff(s[1..]);
      if IsMarkupChar(s[0]) {
        assert |EscapeHtml(s)| > |s|;
      } else {
        assert EscapeHtml(s) == [s[0]] + EscapeHtml(s[1..]);
        if EscapeHtml(s) == s {
          assert EscapeHtml(s[1..]) == s[1..];
        }
        if forall i :: 0 <= i < |s| ==> !IsMarkupChar(s[i]) {
          assert forall i :: 0 <= i < |s[1..]| ==> !IsMarkupChar(s[1..][i]) by {
            forall i | 0 <= i < |s[1..]| ensures !IsMarkupChar(s[1..][i]) {
              assert s[1..][i] == s[i + 1];
            }
          }
        }
      }
    }
  }

  /** The entity decoder for exactly the five entities `escapeHtml` produces; any other
      character is copied. */
  function Unescape(t: string): string
    decreases |t|
  {
    if t == [] then []
    else if |t| >= 5 && t[..5] == "&amp;" then "&" + Unescape(t[5..])
    else if |t| >= 4 && t[..4] == "&lt;" then "<" + Unescape(t[4..])
    else if |t| >= 4 && t[..4] == "&gt;" then ">" + Unescape(t[4..])
    else if |t| >= 6 && t[..6] == "&quot;" then "\"" + Unescape(t[6..])
    else if |t| >= 6 && t[..6] == "&#039;" then "'" + Unescape(t[6..])
    else [t[0]] + Unescape(t[1..])
  }

  /** Decoding one escaped character: each entity is recognised by its second character, so
      the earlier alternatives of `Unescape` are ruled out one by one. */
  lemma UnescapeEscapeChar(c: char, rest: string)
    ensures Unescape(EscapeChar(c) + rest) == [c] + Unescape(rest)
  {
    if c == '&' {
      UnescapeAmp(rest);
    } else if c == '<' {
      UnescapeLt(rest);
    } else if c == '>' {
      UnescapeGt(rest);
    } else if c == '"' {
      UnescapeQuot(rest);
    } else if c == '\'' {
      UnescapeApos(rest);
    } else {
      assert EscapeChar(c) == [c];
      UnescapeOther(c, rest);
    }
  }

  lemma UnescapeOther(c: char, rest: string)
    requires c != '&'
    ensures Unescape([c] + rest) == [c] + Unescape(rest)
  {
    var t := [c] + rest;
    assert |t| >= 4 ==> t[..4][0] == c;
    assert |t| >= 5 ==> t[..5][0] == c;
    assert |t| >= 6 ==> t[..6][0] == c;
    assert t[0] == c && t[1..] == rest;
  }

  lemma UnescapeAmp(rest: string)
    ensures Unescape("&amp;" + rest) == "&" + Unescape(rest)
  {
    var t := "&amp;" + rest;
    assert t[..5] == "&amp;" && t[5..] == rest;
  }

  lemma UnescapeLt(rest: string)
    ensures Unescape("&lt;" + rest) == "<" + Unescape(rest)
  {
    var t := "&lt;" + rest;
    assert |t| >= 5 ==> t[..5][1] == 'l';
    assert t[..4] == "&lt;" && t[4..] == rest;
  }

  lemma UnescapeGt(rest: string)
    ensures Unescape("&gt;" + rest) == ">" + Unescape(rest)
  {
    var t := "&gt;" + rest;
    assert |t| >= 5 ==> t[..5][1] == 'g';
    assert t[..4][1] == 'g';
    assert t[..4] == "&gt;" && t[4..] == rest;
  }

  lemma UnescapeQuot(rest: string)
    ensures Unescape("&quot;" + rest) == "\"" + Unescape(rest)
  {
    var t := "&quot;" + rest;
    assert t[..5][1] == 'q' && t[..4][1] == 'q';
    assert t[..6] == "&quot;" && t[6..] == rest;
  }

  lemma UnescapeApos(rest: string)
    ensures Unescape("&#039;" + rest) == "'" + Unescape(rest)
  {
    var t := "&#039;" + rest;
    assert t[..5][1] == '#' && t[..4][1] == '#';
    assert t[..6][1] == '#';
    assert t[..6] == "&#039;" && t[6..] == rest;
  }

  /** Decoding undoes escaping: no text is lost or confused by `escapeHtml`. */
  lemma {:induction false} UnescapeEscapeHtml(s: string)
    ensures Unescape(EscapeHtml(s)) == s
    decreases |s|
  {
    if s != [] {
      UnescapeEscapeChar(s[0], EscapeHtml(s[1..]));
      UnescapeEscapeHtml(s[1..]);
    }
  }

  /** Distinct texts escape to distinct markup. */
  lemma EscapeHtmlInjective(a: string, b: string)
    ensures EscapeHtml(a) == EscapeHtml(b) ==> a == b
  {
    UnescapeEscapeHtml(a);
    UnescapeEscapeHtml(b);
  }

  /** Each of the five characters becomes its entity (`&amp;`, `&lt;`, `&gt;`, `&quot;`,
      `&#039;`) and any other character is kept as it is; with `EscapeHtmlConcat` this fixes the
      escape of every string. */
  lemma EscapeHtmlTable(c: char)
    ensures EscapeHtml([c]) == EscapeChar(c)
    ensures c == '&' ==> EscapeHtml([c]) == "&amp;"
    ensures c == '<' ==> EscapeHtml([c]) == "&lt;"
    ensures c == '>' ==> EscapeHtml([c]) == "&gt;"
    ensures c == '"' ==> EscapeHtml([c]) == "&quot;"
    ensures c == '\'' ==> EscapeHtml([c]) == "&#039;"
    ensures !IsMarkupChar(c) ==> EscapeHtml([c]) == [c]
  {
    assert EscapeHtml([c]) == EscapeChar(c) + EscapeHtml([]);
  }

  /** The characters a text node's serialisation rewrites. */
  predicate IsTextSpecial(c: char) {
    c == '&' || c == '\U{A0}' || c == '<' || c == '>'
  }

  /** The serialisation of one character of a text node. */
  function TextChar(c: char): string {
    if c == '&' then "&amp;"
    else if c == '\U{A0}' then "&nbsp;"
    else if c == '<' then "&lt;"
    else if c == '>' then "&gt;"
    else [c]
  }

  /** `sanitizeInput(input)`: the text-node serialisation of `input`. It is empty exactly when
      the input is, so the pages' emptiness checks on sanitised values test the raw value. */
  function Sanitize(s: string): (r: string)
    ensures |r| >= |s|
    ensures r == [] <==> s == []
    ensures forall i :: 0 <= i < |r| ==> r[i] != '<' && r[i] != '>'
  {
    if s == [] then [] else TextChar(s[0]) + Sanitize(s[1..])
  }

  lemma {:induction false} SanitizeConcat(a: string, b: string)
    ensures Sanitize(a + b) == Sanitize(a) + Sanitize(b)
    decreases |a|
  {
    if a == [] {
      assert a + b == b;
    } else {
      assert (a + b)[0] == a[0] && (a + b)[1..] == a[1..] + b;
      SanitizeConcat(a[1..], b);
    }
  }

  /** Sanitising a string whose ends are not whitespace gives a string whose ends are not
      whitespace: an entity starts with `&` and ends with `;`. */
  lemma SanitizeTrimmed(s: string)
    requires Trimmed(s)
    ensures Trimmed(Sanitize(s))
  {
    if s != [] {
      var n := |s| - 1;
      var r := Sanitize(s);
      var first, last := TextChar(s[0]), TextChar(s[n]);
      TextCharEnds(s[0]);
      TextCharEnds(s[n]);
      assert r[0] == first[0];
      assert s == s[..n] + [s[n]];
      SanitizeConcat(s[..n], [s[n]]);
      assert Sanitize([s[n]]) == last;
      assert r[|r| - 1] == last[|last| - 1];
    }
  }

  /** The replacement of a character that is not whitespace neither starts nor ends with
      whitespace. */
  lemma TextCharEnds(c: char)
    requires !IsSpace(c)
    ensures var t := TextChar(c); |t| > 0 && !IsSpace(t[0]) && !IsSpace(t[|t| - 1])
  {
  }

  /** A sanitised string without `&` is the input itself: the input held none of the four
      characters the serialisation rewrites. */
  lemma {:induction false} SanitizeWithoutAmp(s: string)
    requires forall i :: 0 <= i < |Sanitize(s)| ==> Sanitize(s)[i] != '&'
    ensures Sanitize(s) == s
    decreases |s|
  {
    if s != [] {
      var r := Sanitize(s);
      assert r[0] == TextChar(s[0])[0];
      assert !IsTextSpecial(s[0]);
      assert r == [s[0]] + Sanitize(s[1..]);
      forall i | 0 <= i < |Sanitize(s[1..])| ensures Sanitize(s[1..])[i] != '&' {
        assert Sanitize(s[1..])[i] == r[i + 1];
      }
      SanitizeWithoutAmp(s[1..]);
    }
  }

  /** `sanitizeInput(value.trim())`, the way the forms read a text field. */
  function Cleaned(s: string): string {
    Sanitize(Trim(s))
  }

  /** A field reads as empty after cleaning exactly when it holds nothing but whitespace. */
  lemma CleanedEmptyIffBlank(s: string)
    ensures Cleaned(s) == [] <==> Blank(s)
  {
    TrimEmptyIffAllSpace(s);
  }

  /** Sanitising changes nothing in a string without any of the four rewritten characters. */
  lemma {:induction false} SanitizePlain(s: string)
    requires forall i :: 0 <= i < |s| ==> !IsTextSpecial(s[i])
    ensures Sanitize(s) == s
    decreases |s|
  {
    if s != [] {
      assert !IsTextSpecial(s[0]);
      SanitizePlain(s[1..]);
    }
  }
}
