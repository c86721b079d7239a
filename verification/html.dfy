/**
 `escapeHtml`: three global single-character replacements applied in order,
 `&` first, then `<`, then `>`.
 */
module Html {

  /** `s.replace(/c/g, rep)`: every occurrence of `c` becomes `rep`, nothing is rescanned. */
  function ReplaceAll(s: string, c: char, rep: string): (r: string)
    ensures c !in rep ==> c !in r
    ensures forall x :: x in r ==> x in rep || (x in s && x != c)
  {
    if s == [] then [] else (if s[0] == c then rep else [s[0]]) + ReplaceAll(s[1..], c, rep)
  }

  /** The text placed into each table cell. */
  function EscapeHtml(s: string): (r: string)
    ensures '<' !in r && '>' !in r
  {
    ReplaceAll(ReplaceAll(ReplaceAll(s, '&', "&amp;"), '<', "&lt;"), '>', "&gt;")
  }

  /** The entity one character turns into. */
  function EscapeChar(c: char): string
  {
    if c == '&' then "&amp;" else if c == '<' then "&lt;" else if c == '>' then "&gt;" else [c]
  }

  /** Reference definition: escape each character independently and concatenate. */
  function EscapeEach(s: string): (r: string)
  {
    if s == [] then [] else EscapeChar(s[0]) + EscapeEach(s[1..])
  }

  lemma {:induction false} ReplaceAllConcat(a: string, b: string, c: char, rep: string)
    ensures ReplaceAll(a + b, c, rep) == ReplaceAll(a, c, rep) + ReplaceAll(b, c, rep)
    decreases |a|
  {
    if a != [] {
      assert (a + b)[1..] == a[1..] + b;
      ReplaceAllConcat(a[1..], b, c, rep);
    } else {
      assert a + b == b;
    }
  }

  /**
   Because `&` is replaced first and the entities inserted later contain no
   `<` or `>`, the three passes amount to one per-character mapping.
   */
  lemma {:induction false} EscapeHtmlIsCharwise(s: string)
    ensures EscapeHtml(s) == EscapeEach(s)
    decreases |s|
  {
    if s != [] {
      var c, t := s[0], s[1..];
      assert s == [c] + t;
      ReplaceAllConcat([c], t, '&', "&amp;");
      var p1, q1 := ReplaceAll([c], '&', "&amp;"), ReplaceAll(t, '&', "&amp;");
      ReplaceAllConcat(p1, q1, '<', "&lt;");
      var p2, q2 := ReplaceAll(p1, '<', "&lt;"), ReplaceAll(q1, '<', "&lt;");
      ReplaceAllConcat(p2, q2, '>', "&gt;");
      assert EscapeHtml(s) == EscapeHtml([c]) + EscapeHtml(t);
      EscapeHtmlOne(c);
      EscapeHtmlIsCharwise(t);
    }
  }

  lemma ReplaceAllOne(c: char, d: char, rep: string)
    ensures ReplaceAll([c], d, rep) == if c == d then rep else [c]
  {
  }

  lemma {:induction false} ReplaceAllAbsent(s: string, c: char, rep: string)
    requires c !in s
    ensures ReplaceAll(s, c, rep) == s
    decreases |s|
  {
    if s != [] {
      assert s[0] != c && c !in s[1..];
      ReplaceAllAbsent(s[1..], c, rep);
    }
  }

  lemma EscapeHtmlOne(c: char)
    ensures EscapeHtml([c]) == EscapeChar(c)
  {
    ReplaceAllOne(c, '&', "&amp;");
    if c == '&' {
      ReplaceAllAbsent("&amp;", '<', "&lt;");
      ReplaceAllAbsent("&amp;", '>', "&gt;");
    } else {
      ReplaceAllOne(c, '<', "&lt;");
      if c == '<' {
        ReplaceAllAbsent("&lt;", '>', "&gt;");
      } else {
        ReplaceAllOne(c, '>', "&gt;");
      }
    }
  }

  predicate StartsWith(s: string, p: string)
  {
    |p| <= |s| && s[..|p|] == p
  }

  /** Decoding of the three entities `escapeHtml` produces, as a browser would display them. */
  function Unescape(s: string): string
    decreases |s|
  {
    if s == [] then []
    else if StartsWith(s, "&amp;") then "&" + Unescape(s[5..])
    else if StartsWith(s, "&lt;") then "<" + Unescape(s[4..])
    else if StartsWith(s, "&gt;") then ">" + Unescape(s[4..])
    else [s[0]] + Unescape(s[1..])
  }

  /** A mismatch at position `i` rules out the prefix. */
  lemma Mismatch(s: string, p: string, i: nat)
    requires i < |p| && i < |s| && s[i] != p[i]
    ensures !StartsWith(s, p)
  {
  }

  lemma UnescapeStep(c: char, rest: string)
    ensures Unescape(EscapeChar(c) + rest) == [c] + Unescape(rest)
  {
    var e := EscapeChar(c) + rest;
    if c == '&' {
      assert e[..5] == "&amp;" && e[5..] == rest;
    } else if c == '<' {
      Mismatch(e, "&amp;", 1);
      assert e[..4] == "&lt;" && e[4..] == rest;
    } else if c == '>' {
      Mismatch(e, "&amp;", 1);
      Mismatch(e, "&lt;", 1);
      assert e[..4] == "&gt;" && e[4..] == rest;
    } else {
      Mismatch(e, "&amp;", 0);
      Mismatch(e, "&lt;", 0);
      Mismatch(e, "&gt;", 0);
      assert e[1..] == rest;
    }
  }

  /** Escaping loses nothing: the displayed text is the original string. */
  lemma {:induction false} UnescapeEscapeHtml(s: string)
    ensures Unescape(EscapeHtml(s)) == s
  {
    EscapeHtmlIsCharwise(s);
    UnescapeEach(s);
  }

  lemma {:induction false} UnescapeEach(s: string)
    ensures Unescape(EscapeEach(s)) == s
    decreases |s|
  {
    if s != [] {
      UnescapeStep(s[0], EscapeEach(s[1..]));
      UnescapeEach(s[1..]);
    }
  }
}
