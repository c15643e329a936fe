/**
 * lodash `escape`, the script's `escapeHtml`: the characters `&`, `<`, `>`,
 * `"` and `'` become the entities `&amp;`, `&lt;`, `&gt;`, `&quot;` and
 * `&#39;`; every other character is kept.  lodash `unescape` is its inverse.
 */
module Html {

  /** The characters `escape` rewrites. */
  predicate IsSpecial(c: char)
  {
    c == '&' || c == '<' || c == '>' || c == '"' || c == '\''
  }

  function Entity(c: char): (e: string)
    requires IsSpecial(c)
    ensures |e| >= 4 && e[0] == '&' && e[|e| - 1] == ';'
  {
    if c == '&' then "&amp;"
    else if c == '<' then "&lt;"
    else if c == '>' then "&gt;"
    else if c == '"' then "&quot;"
    else "&#39;"
  }

  function EscapeChar(c: char): string
  {
    if IsSpecial(c) then Entity(c) else [c]
  }

  /** `escape(s)`. */
  function Escape(s: string): string
  {
    if s == [] then [] else EscapeChar(s[0]) + Escape(s[1..])
  }

  /** `unescape(s)`: each of the five entities becomes its character again. */
  function Unescape(s: string): string
    decreases |s|
  {
    if s == [] then []
    else if s[0] == '&' && |s| >= 5 && s[..5] == "&amp;" then "&" + Unescape(s[5..])
    else if s[0] == '&' && |s| >= 4 && s[..4] == "&lt;" then "<" + Unescape(s[4..])
    else if s[0] == '&' && |s| >= 4 && s[..4] == "&gt;" then ">" + Unescape(s[4..])
    else if s[0] == '&' && |s| >= 6 && s[..6] == "&quot;" then "\"" + Unescape(s[6..])
    else if s[0] == '&' && |s| >= 5 && s[..5] == "&#39;" then "'" + Unescape(s[5..])
    else [s[0]] + Unescape(s[1..])
  }

  /** Text that cannot end a tag or an attribute value, or open either. */
  predicate IsInert(s: string)
  {
    forall i :: 0 <= i < |s| ==> s[i] != '<' && s[i] != '>' && s[i] != '"' && s[i] != '\''
  }

  lemma InertAppend(x: string, y: string)
    requires IsInert(x) && IsInert(y)
    ensures IsInert(x + y)
  {
    assert forall i :: 0 <= i < |x + y| ==> (x + y)[i] == if i < |x| then x[i] else y[i - |x|];
  }

  /** The escaped text holds none of `<`, `>`, `"`, `'`. */
  lemma {:induction false} EscapeIsInert(s: string)
    ensures IsInert(Escape(s))
  {
    if s != [] {
      EscapeIsInert(s[1..]);
      InertAppend(EscapeChar(s[0]), Escape(s[1..]));
    }
  }

  /** Text without any of the five characters is kept as it is. */
  lemma {:induction false} EscapePlain(s: string)
    requires forall i :: 0 <= i < |s| ==> !IsSpecial(s[i])
    ensures Escape(s) == s
  {
    if s != [] {
      EscapePlain(s[1..]);
    }
  }

  /** Escaping distributes over concatenation. */
  lemma {:induction false} EscapeAppend(x: string, y: string)
    ensures Escape(x + y) == Escape(x) + Escape(y)
  {
    if x == [] {
      assert x + y == y;
    } else {
      assert (x + y)[1..] == x[1..] + y;
      EscapeAppend(x[1..], y);
    }
  }

  /** A character of the escaped text that is not part of an entity was in the input. */
  lemma {:induction false} EscapeKeepsOtherChars(s: string, c: char)
    requires c in Escape(s) && !IsSpecial(c) && c !in "amplgtquo#39;"
    ensures c in s
  {
    if s != [] {
      if c in EscapeChar(s[0]) {
      } else {
        EscapeKeepsOtherChars(s[1..], c);
      }
    }
  }

  lemma UnescapeAmp(t: string)
    ensures Unescape("&amp;" + t) == "&" + Unescape(t)
  {
    var s := "&amp;" + t;
    assert s[..5] == "&amp;" && s[5..] == t;
  }

  lemma UnescapeLt(t: string)
    ensures Unescape("&lt;" + t) == "<" + Unescape(t)
  {
    var s := "&lt;" + t;
    assert s[..4] == "&lt;" && s[4..] == t;
    assert |s| >= 5 ==> s[..5] != "&amp;" by { assert s[1] != "&amp;"[1]; }
  }

  lemma UnescapeGt(t: string)
    ensures Unescape("&gt;" + t) == ">" + Unescape(t)
  {
    var s := "&gt;" + t;
    assert s[..4] == "&gt;" && s[4..] == t;
    assert |s| >= 5 ==> s[..5] != "&amp;" by { assert s[1] != "&amp;"[1]; }
    assert s[..4] != "&lt;" by { assert s[1] != "&lt;"[1]; }
  }

  lemma UnescapeQuot(t: string)
    ensures Unescape("&quot;" + t) == "\"" + Unescape(t)
  {
    var s := "&quot;" + t;
    assert s[..6] == "&quot;" && s[6..] == t;
    assert s[..5] != "&amp;" by { assert s[1] != "&amp;"[1]; }
    assert s[..4] != "&lt;" by { assert s[1] != "&lt;"[1]; }
    assert s[..4] != "&gt;" by { assert s[1] != "&gt;"[1]; }
  }

  lemma UnescapeApos(t: string)
    ensures Unescape("&#39;" + t) == "'" + Unescape(t)
  {
    var s := "&#39;" + t;
    assert s[..5] == "&#39;" && s[5..] == t;
    assert s[..5] != "&amp;" by { assert s[1] != "&amp;"[1]; }
    assert s[..4] != "&lt;" by { assert s[1] != "&lt;"[1]; }
    assert s[..4] != "&gt;" by { assert s[1] != "&gt;"[1]; }
    assert |s| >= 6 ==> s[..6] != "&quot;" by { assert s[1] != "&quot;"[1]; }
  }

  lemma UnescapeEscapedChar(c: char, t: string)
    ensures Unescape(EscapeChar(c) + t) == [c] + Unescape(t)
  {
    if c == '&' {
      UnescapeAmp(t);
    } else if c == '<' {
      UnescapeLt(t);
    } else if c == '>' {
      UnescapeGt(t);
    } else if c == '"' {
      UnescapeQuot(t);
    } else if c == '\'' {
      UnescapeApos(t);
    } else {
      var s := [c] + t;
      assert s[0] == c && s[1..] == t;
    }
  }

  /** `unescape(escape(s)) == s`. */
  lemma {:induction false} UnescapeEscape(s: string)
    ensures Unescape(Escape(s)) == s
  {
    if s != [] {
      UnescapeEscape(s[1..]);
      UnescapeEscapedChar(s[0], Escape(s[1..]));
      assert [s[0]] + s[1..] == s;
    }
  }
}
