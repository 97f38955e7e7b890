/** `escapeHtml`: dynamic text is passed through five `replaceAll` passes,
    ampersand first, before it is placed into card markup. */
module Escape {

  /** `s.replaceAll(c, with)` for a one-character pattern. */
  function ReplaceAll(s: string, c: char, with: string): string
    decreases |s|
  {
    if s == [] then [] else (if s[0] == c then with else [s[0]]) + ReplaceAll(s[1..], c, with)
  }

  /** The five passes in the order the script applies them. */
  function EscapeHtml(s: string): string {
    var amp := ReplaceAll(s, '&', "&amp;");
    var lt := ReplaceAll(amp, '<', "&lt;");
    var gt := ReplaceAll(lt, '>', "&gt;");
    var quot := ReplaceAll(gt, '"', "&quot;");
    ReplaceAll(quot, '\'', "&#039;")
  }

  /** The characters the encoder rewrites. */
  predicate Special(c: char) {
    c == '&' || c == '<' || c == '>' || c == '"' || c == '\''
  }

  /** Reference encoder: each character on its own. */
  function EncodeChar(c: char): string {
    if c == '&' then "&amp;"
    else if c == '<' then "&lt;"
    else if c == '>' then "&gt;"
    else if c == '"' then "&quot;"
    else if c == '\'' then "&#039;"
    else [c]
  }

  function EncodeEach(s: string): string
    decreases |s|
  {
    if s == [] then [] else EncodeChar(s[0]) + EncodeEach(s[1..])
  }

  /** Decodes the five entities the encoder produces, left to right. */
  function Unescape(t: string): string
    decreases |t|
  {
    if t == [] then []
    else if "&amp;" <= t then "&" + Unescape(t[5..])
    else if "&lt;" <= t then "<" + Unescape(t[4..])
    else if "&gt;" <= t then ">" + Unescape(t[4..])
    else if "&quot;" <= t then "\"" + Unescape(t[6..])
    else if "&#039;" <= t then "'" + Unescape(t[6..])
    else [t[0]] + Unescape(t[1..])
  }

  lemma {:induction false} ReplaceAllAppend(a: string, b: string, c: char, with: string)
    ensures ReplaceAll(a + b, c, with) == ReplaceAll(a, c, with) + ReplaceAll(b, c, with)
    decreases |a|
  {
    if a == [] {
      assert a + b == b;
    } else {
      assert (a + b)[1..] == a[1..] + b;
      ReplaceAllAppend(a[1..], b, c, with);
    }
  }

  lemma {:induction false} ReplaceAllAbsent(s: string, c: char, with: string)
    requires c !in s
    ensures ReplaceAll(s, c, with) == s
    decreases |s|
  {
    if s != [] {
      ReplaceAllAbsent(s[1..], c, with);
    }
  }

  lemma EscapeHtmlAppend(a: string, b: string)
    ensures EscapeHtml(a + b) == EscapeHtml(a) + EscapeHtml(b)
  {
    var a1, b1 := ReplaceAll(a, '&', "&amp;"), ReplaceAll(b, '&', "&amp;");
    ReplaceAllAppend(a, b, '&', "&amp;");
    var a2, b2 := ReplaceAll(a1, '<', "&lt;"), ReplaceAll(b1, '<', "&lt;");
    ReplaceAllAppend(a1, b1, '<', "&lt;");
    var a3, b3 := ReplaceAll(a2, '>', "&gt;"), ReplaceAll(b2, '>', "&gt;");
    ReplaceAllAppend(a2, b2, '>', "&gt;");
    var a4, b4 := ReplaceAll(a3, '"', "&quot;"), ReplaceAll(b3, '"', "&quot;");
    ReplaceAllAppend(a3, b3, '"', "&quot;");
    ReplaceAllAppend(a4, b4, '\'', "&#039;");
  }

  /** One `replaceAll` pass over a one-character string: the character is
      replaced when it is the one searched for, and kept otherwise. */
  lemma ReplaceAllOne(x: char, c: char, with: string)
    ensures ReplaceAll([x], c, with) == if x == c then with else [x]
  {
  }

  /** Applies the passes after the one that wrote `out`, none of which finds
      its character in `out`. */
  lemma {:induction false} PassesLeave(out: string, from: nat)
    requires 2 <= from <= 6
    requires from <= 2 ==> '<' !in out
    requires from <= 3 ==> '>' !in out
    requires from <= 4 ==> '"' !in out
    requires '\'' !in out
    ensures from <= 2 ==> ReplaceAll(out, '<', "&lt;") == out
    ensures from <= 3 ==> ReplaceAll(out, '>', "&gt;") == out
    ensures from <= 4 ==> ReplaceAll(out, '"', "&quot;") == out
    ensures ReplaceAll(out, '\'', "&#039;") == out
  {
    if from <= 2 { ReplaceAllAbsent(out, '<', "&lt;"); }
    if from <= 3 { ReplaceAllAbsent(out, '>', "&gt;"); }
    if from <= 4 { ReplaceAllAbsent(out, '"', "&quot;"); }
    ReplaceAllAbsent(out, '\'', "&#039;");
  }

  /** One character through the five passes: no pass re-encodes what an
      earlier pass wrote, because `&` goes first. */
  lemma EscapeHtmlChar(x: char)
    ensures EscapeHtml([x]) == EncodeChar(x)
  {
    ReplaceAllOne(x, '&', "&amp;");
    ReplaceAllOne(x, '<', "&lt;");
    ReplaceAllOne(x, '>', "&gt;");
    ReplaceAllOne(x, '"', "&quot;");
    ReplaceAllOne(x, '\'', "&#039;");
    var amp: string, lt: string, gt: string, quot: string := "&amp;", "&lt;", "&gt;", "&quot;";
    if x == '&' {
      assert amp == ['&', 'a', 'm', 'p', ';'];
      PassesLeave(amp, 2);
    } else if x == '<' {
      assert lt == ['&', 'l', 't', ';'];
      PassesLeave(lt, 3);
    } else if x == '>' {
      assert gt == ['&', 'g', 't', ';'];
      PassesLeave(gt, 4);
    } else if x == '"' {
      assert quot == ['&', 'q', 'u', 'o', 't', ';'];
      PassesLeave(quot, 5);
    }
  }

  /** The chained passes equal the per-character encoder. */
  lemma {:induction false} EscapeHtmlIsPerCharacter(s: string)
    ensures EscapeHtml(s) == EncodeEach(s)
    decreases |s|
  {
    if s == [] {
      assert ReplaceAll([], '&', "&amp;") == [];
    } else {
      assert s == [s[0]] + s[1..];
      EscapeHtmlAppend([s[0]], s[1..]);
      EscapeHtmlChar(s[0]);
      EscapeHtmlIsPerCharacter(s[1..]);
    }
  }

  lemma {:induction false} EncodeEachSafe(s: string)
    ensures '<' !in EncodeEach(s) && '>' !in EncodeEach(s)
    ensures '"' !in EncodeEach(s) && '\'' !in EncodeEach(s)
    decreases |s|
  {
    if s != [] {
      EncodeEachSafe(s[1..]);
    }
  }

  /** The output contains no `<`, `>`, `"` or `'`. */
  lemma EscapeHtmlSafe(s: string)
    ensures '<' !in EscapeHtml(s) && '>' !in EscapeHtml(s)
    ensures '"' !in EscapeHtml(s) && '\'' !in EscapeHtml(s)
  {
    EscapeHtmlIsPerCharacter(s);
    EncodeEachSafe(s);
  }

  lemma {:induction false} EncodeEachLength(s: string)
    ensures |EncodeEach(s)| == |s| + 4 * multiset(s)['&'] + 3 * (multiset(s)['<'] + multiset(s)['>'])
                                   + 5 * (multiset(s)['"'] + multiset(s)['\''])
    decreases |s|
  {
    if s != [] {
      var x, m, m' := s[0], multiset(s), multiset(s[1..]);
      assert s == [x] + s[1..];
      assert m == m' + multiset{x};
      assert forall c :: m[c] == m'[c] + (if c == x then 1 else 0);
      EncodeEachLength(s[1..]);
      assert |EncodeEach(s)| == |EncodeChar(x)| + |EncodeEach(s[1..])|;
    }
  }

  /** Each `&` grows by four characters, each `<` or `>` by three, each `"`
      or `'` by five; every other character is copied. */
  lemma EscapeHtmlLength(s: string)
    ensures |EscapeHtml(s)| == |s| + 4 * multiset(s)['&'] + 3 * (multiset(s)['<'] + multiset(s)['>'])
                                   + 5 * (multiset(s)['"'] + multiset(s)['\''])
    ensures |EscapeHtml(s)| >= |s|
  {
    EscapeHtmlIsPerCharacter(s);
    EncodeEachLength(s);
  }

  /** A string is left unchanged exactly when it has none of the five characters. */
  lemma EscapeHtmlUnchanged(s: string)
    ensures EscapeHtml(s) == s <==> forall i :: 0 <= i < |s| ==> !Special(s[i])
  {
    EscapeHtmlLength(s);
    if forall i :: 0 <= i < |s| ==> !Special(s[i]) {
      ReplaceAllAbsent(s, '&', "&amp;");
      ReplaceAllAbsent(s, '<', "&lt;");
      ReplaceAllAbsent(s, '>', "&gt;");
      ReplaceAllAbsent(s, '"', "&quot;");
      ReplaceAllAbsent(s, '\'', "&#039;");
    } else {
      var i :| 0 <= i < |s| && Special(s[i]);
      assert s[i] in multiset(s);
    }
  }

  lemma UnescapeEncodeChar(x: char, rest: string)
    ensures Unescape(EncodeChar(x) + rest) == [x] + Unescape(rest)
  {
    var t := EncodeChar(x) + rest;
    if x == '&' {
      assert "&amp;" <= t && t[5..] == rest;
    } else if x == '<' {
      assert !("&amp;" <= t) by { assert t[1] == 'l'; }
      assert "&lt;" <= t && t[4..] == rest;
    } else if x == '>' {
      assert !("&amp;" <= t) by { assert t[1] == 'g'; }
      assert !("&lt;" <= t) by { assert t[1] == 'g'; }
      assert "&gt;" <= t && t[4..] == rest;
    } else if x == '"' {
      assert !("&amp;" <= t) && !("&lt;" <= t) && !("&gt;" <= t) by { assert t[1] == 'q'; }
      assert "&quot;" <= t && t[6..] == rest;
    } else if x == '\'' {
      assert !("&amp;" <= t) && !("&lt;" <= t) && !("&gt;" <= t) && !("&quot;" <= t) by { assert t[1] == '#'; }
      assert "&#039;" <= t && t[6..] == rest;
    } else {
      assert t[0] == x && t[1..] == rest;
    }
  }

  lemma {:induction false} UnescapeEncodeEach(s: string)
    ensures Unescape(EncodeEach(s)) == s
    decreases |s|
  {
    if s != [] {
      UnescapeEncodeChar(s[0], EncodeEach(s[1..]));
      UnescapeEncodeEach(s[1..]);
      assert s == [s[0]] + s[1..];
    }
  }

  /** Decoding the five entities recovers the original text. */
  lemma UnescapeEscapeHtml(s: string)
    ensures Unescape(EscapeHtml(s)) == s
  {
    EscapeHtmlIsPerCharacter(s);
    UnescapeEncodeEach(s);
  }

  /** Distinct texts stay distinct after escaping. */
  lemma EscapeHtmlInjective(a: string, b: string)
    requires EscapeHtml(a) == EscapeHtml(b)
    ensures a == b
  {
    UnescapeEscapeHtml(a);
    UnescapeEscapeHtml(b);
  }
}
