/** The browser client's HTML-escaping helper `escape` (public/client.js).
    The source is one expression: three global replacements, applied in order,
    of `&` by `&amp;`, of `<` by `&lt;` and of `>` by `&gt;`.  The model writes
    those replacements out as they run (ReplaceAll), states the intended
    meaning as a per-character map (Expand with EscapeChar) and proves that the
    two agree, together with the consequences a caller relies on. */
module HtmlEscape {

  /** `s.replace(/pat/g, rep)` for a pattern without regular-expression
      metacharacters: scan from the left, replace every match, and resume
      after the match, so matches never overlap and the replacement text is
      never scanned again. */
  function ReplaceAll(s: string, pat: string, rep: string): (r: string)
    requires |pat| > 0
    decreases |s|
  {
    if |s| == 0 then []
    else if |pat| <= |s| && s[..|pat|] == pat then rep + ReplaceAll(s[|pat|..], pat, rep)
    else [s[0]] + ReplaceAll(s[1..], pat, rep)
  }

  /** The helper exactly as written: `&` first, then `<`, then `>`. */
  function Escape(s: string): (r: string) {
    ReplaceAll(ReplaceAll(ReplaceAll(s, "&", "&amp;"), "<", "&lt;"), ">", "&gt;")
  }

  /** What the helper means for one character. */
  function EscapeChar(c: char): (r: string) {
    match c
    case '&' => "&amp;"
    case '<' => "&lt;"
    case '>' => "&gt;"
    case _ => [c]
  }

  /** Apply a per-character map to every character, in order. */
  function Expand(s: string, f: char -> string): (r: string) {
    if |s| == 0 then [] else f(s[0]) + Expand(s[1..], f)
  }

  /** The inverse: `&lt;`, then `&gt;`, then `&amp;` (the last step must come
      last, or `&amp;lt;` would turn into `<`). */
  function Unescape(s: string): (r: string) {
    ReplaceAll(ReplaceAll(ReplaceAll(s, "&lt;", "<"), "&gt;", ">"), "&amp;", "&")
  }

  /** A string none of whose characters the helper rewrites. */
  predicate Plain(s: string) {
    '&' !in s && '<' !in s && '>' !in s
  }

  /** One of the three entities the helper produces starts at position i of r. */
  predicate EntityAt(r: string, i: nat)
    requires i <= |r|
  {
    "&amp;" <= r[i..] || "&lt;" <= r[i..] || "&gt;" <= r[i..]
  }

  /** Every `&` in r starts one of the three entities. */
  predicate AmpersandsStartEntities(r: string) {
    forall i :: 0 <= i < |r| && r[i] == '&' ==> EntityAt(r, i)
  }

  // Per-character maps describing the intermediate strings of Escape and Unescape.

  function Single(c: char): string { [c] }

  function AmpEscaped(c: char): string {
    if c == '&' then "&amp;" else [c]
  }

  function AmpLtEscaped(c: char): string {
    if c == '<' then "&lt;" else AmpEscaped(c)
  }

  function LtRestored(c: char): string {
    if c == '<' then "<" else EscapeChar(c)
  }

  /** A piece w that ReplaceAll with pattern pat passes over untouched, whatever
      follows it: the first character of pat occurs in w at most at its head,
      and there w is too different from pat to start a match. */
  predicate Inert(w: string, pat: string)
    requires |pat| > 0
  {
    |w| > 0 ==> pat[0] !in w[1..] && (w[0] == pat[0] ==> |pat| <= |w| && w[..|pat|] != pat)
  }

  // ---------------------------------------------------------------------------
  // Lemmas about ReplaceAll and Expand

  lemma {:induction false} ExpandConcat(a: string, b: string, f: char -> string)
    ensures Expand(a + b, f) == Expand(a, f) + Expand(b, f)
  {
    if |a| > 0 {
      assert (a + b)[1..] == a[1..] + b;
      ExpandConcat(a[1..], b, f);
    } else {
      assert a + b == b;
    }
  }

  lemma {:induction false} ExpandSingle(s: string)
    ensures Expand(s, Single) == s
  {
    if |s| > 0 {
      ExpandSingle(s[1..]);
      assert s == [s[0]] + s[1..];
    }
  }

  lemma {:induction false} ReplaceAllSkipsNoLead(w: string, x: string, pat: string, rep: string)
    requires |pat| > 0 && pat[0] !in w
    ensures ReplaceAll(w + x, pat, rep) == w + ReplaceAll(x, pat, rep)
  {
    if |w| > 0 {
      var s := w + x;
      if |pat| <= |s| {
        assert s[..|pat|][0] == s[0] == w[0];
      }
      assert s[1..] == w[1..] + x;
      ReplaceAllSkipsNoLead(w[1..], x, pat, rep);
    } else {
      assert w + x == x;
    }
  }

  lemma ReplaceAllSkipsInert(w: string, x: string, pat: string, rep: string)
    requires |pat| > 0 && Inert(w, pat)
    ensures ReplaceAll(w + x, pat, rep) == w + ReplaceAll(x, pat, rep)
  {
    if |w| > 0 {
      var s := w + x;
      if w[0] == pat[0] {
        assert s[..|pat|] == w[..|pat|];
      } else if |pat| <= |s| {
        assert s[..|pat|][0] == s[0];
      }
      assert s[1..] == w[1..] + x;
      ReplaceAllSkipsNoLead(w[1..], x, pat, rep);
    } else {
      assert w + x == x;
    }
  }

  /** A ReplaceAll over a string built by a per-character map f yields the
      string built by g, when every piece of f either is the pattern (and g
      gives the replacement) or is inert (and g keeps it). */
  lemma {:induction false} ReplaceAllExpand(s: string, f: char -> string, g: char -> string, pat: string, rep: string)
    requires |pat| > 0
    requires forall c :: f(c) == pat ==> g(c) == rep
    requires forall c :: f(c) != pat ==> g(c) == f(c) && Inert(f(c), pat)
    ensures ReplaceAll(Expand(s, f), pat, rep) == Expand(s, g)
  {
    if |s| > 0 {
      var w, x := f(s[0]), Expand(s[1..], f);
      if w == pat {
        var t := w + x;
        assert t[..|pat|] == pat && t[|pat|..] == x;
      } else {
        ReplaceAllSkipsInert(w, x, pat, rep);
      }
      ReplaceAllExpand(s[1..], f, g, pat, rep);
    }
  }

  // ---------------------------------------------------------------------------
  // The helper's properties

  // Each step of Escape and of Unescape, as a change of per-character map.

  lemma EscapeStepAmp(s: string)
    ensures ReplaceAll(Expand(s, Single), "&", "&amp;") == Expand(s, AmpEscaped)
  {
    forall c ensures Single(c) != "&" ==> Inert(Single(c), "&") {}
    ReplaceAllExpand(s, Single, AmpEscaped, "&", "&amp;");
  }

  lemma EscapeStepLt(s: string)
    ensures ReplaceAll(Expand(s, AmpEscaped), "<", "&lt;") == Expand(s, AmpLtEscaped)
  {
    forall c ensures AmpEscaped(c) != "<" ==> Inert(AmpEscaped(c), "<") {
      if c == '&' { assert AmpEscaped(c)[1..] == "amp;"; }
    }
    ReplaceAllExpand(s, AmpEscaped, AmpLtEscaped, "<", "&lt;");
  }

  lemma EscapeStepGt(s: string)
    ensures ReplaceAll(Expand(s, AmpLtEscaped), ">", "&gt;") == Expand(s, EscapeChar)
  {
    forall c ensures AmpLtEscaped(c) == ">" ==> EscapeChar(c) == "&gt;" {
      if AmpLtEscaped(c) == ">" { assert c == AmpLtEscaped(c)[0]; }
    }
    forall c ensures AmpLtEscaped(c) != ">" ==> EscapeChar(c) == AmpLtEscaped(c) && Inert(AmpLtEscaped(c), ">") {
      if c == '&' { assert AmpLtEscaped(c)[1..] == "amp;"; }
      else if c == '<' { assert AmpLtEscaped(c)[1..] == "lt;"; }
    }
    ReplaceAllExpand(s, AmpLtEscaped, EscapeChar, ">", "&gt;");
  }

  lemma UnescapeStepLt(s: string)
    ensures ReplaceAll(Expand(s, EscapeChar), "&lt;", "<") == Expand(s, LtRestored)
  {
    forall c ensures EscapeChar(c) == "&lt;" ==> LtRestored(c) == "<" {
      if EscapeChar(c) == "&lt;" { assert c == '<'; }
    }
    forall c ensures EscapeChar(c) != "&lt;" ==> LtRestored(c) == EscapeChar(c) && Inert(EscapeChar(c), "&lt;") {
      if c == '&' { assert EscapeChar(c)[1..] == "amp;" && EscapeChar(c)[..4] == "&amp"; }
      else if c == '>' { assert EscapeChar(c)[1..] == "gt;" && EscapeChar(c)[..4] == "&gt;"; }
    }
    ReplaceAllExpand(s, EscapeChar, LtRestored, "&lt;", "<");
  }

  lemma UnescapeStepGt(s: string)
    ensures ReplaceAll(Expand(s, LtRestored), "&gt;", ">") == Expand(s, AmpEscaped)
  {
    forall c ensures LtRestored(c) == "&gt;" ==> AmpEscaped(c) == ">" {
      if LtRestored(c) == "&gt;" { assert c == '>'; }
    }
    forall c ensures LtRestored(c) != "&gt;" ==> AmpEscaped(c) == LtRestored(c) && Inert(LtRestored(c), "&gt;") {
      if c == '&' { assert LtRestored(c)[1..] == "amp;" && LtRestored(c)[..4] == "&amp"; }
    }
    ReplaceAllExpand(s, LtRestored, AmpEscaped, "&gt;", ">");
  }

  lemma UnescapeStepAmp(s: string)
    ensures ReplaceAll(Expand(s, AmpEscaped), "&amp;", "&") == Expand(s, Single)
  {
    forall c ensures AmpEscaped(c) == "&amp;" ==> Single(c) == "&" {
      if AmpEscaped(c) == "&amp;" { assert c == '&'; }
    }
    forall c ensures AmpEscaped(c) != "&amp;" ==> Single(c) == AmpEscaped(c) && Inert(AmpEscaped(c), "&amp;") {}
    ReplaceAllExpand(s, AmpEscaped, Single, "&amp;", "&");
  }

  /** The three chained replacements are exactly the per-character map. */
  lemma EscapeIsCharMap(s: string)
    ensures Escape(s) == Expand(s, EscapeChar)
  {
    ExpandSingle(s);
    EscapeStepAmp(s);
    EscapeStepLt(s);
    EscapeStepGt(s);
  }

  /** Because `&` is replaced first, `<` becomes `&lt;`, not `&amp;lt;`. */
  lemma EscapeLessThan()
    ensures Escape("<") == "&lt;"
    ensures Escape("&lt;") == "&amp;lt;"
  {
    EscapeIsCharMap("<");
    EscapeIsCharMap("&lt;");
  }

  /** Escaping distributes over concatenation. */
  lemma EscapeConcat(a: string, b: string)
    ensures Escape(a + b) == Escape(a) + Escape(b)
  {
    EscapeIsCharMap(a);
    EscapeIsCharMap(b);
    EscapeIsCharMap(a + b);
    ExpandConcat(a, b, EscapeChar);
  }

  lemma {:induction false} ExpandEscapeNoAngleBrackets(s: string)
    ensures '<' !in Expand(s, EscapeChar) && '>' !in Expand(s, EscapeChar)
  {
    if |s| > 0 {
      ExpandEscapeNoAngleBrackets(s[1..]);
    }
  }

  /** No raw `<` or `>` survives escaping. */
  lemma EscapeNoAngleBrackets(s: string)
    ensures '<' !in Escape(s) && '>' !in Escape(s)
  {
    EscapeIsCharMap(s);
    ExpandEscapeNoAngleBrackets(s);
  }

  lemma {:induction false} ExpandEscapeEntities(s: string)
    ensures AmpersandsStartEntities(Expand(s, EscapeChar))
  {
    if |s| > 0 {
      var w, x := EscapeChar(s[0]), Expand(s[1..], EscapeChar);
      var r := w + x;
      ExpandEscapeEntities(s[1..]);
      forall i | 0 <= i < |r| && r[i] == '&' ensures EntityAt(r, i) {
        if i < |w| {
          assert i == 0 && r[i..] == w + x;
          assert w == "&amp;" || w == "&lt;" || w == "&gt;";
        } else {
          var j := i - |w|;
          assert r[i] == x[j] && r[i..] == x[j..];
          assert EntityAt(x, j);
        }
      }
    }
  }

  /** Every `&` in the output starts `&amp;`, `&lt;` or `&gt;`. */
  lemma EscapeAmpersandsStartEntities(s: string)
    ensures AmpersandsStartEntities(Escape(s))
  {
    EscapeIsCharMap(s);
    ExpandEscapeEntities(s);
  }

  /** How many characters EscapeChar adds to c. */
  function Growth(c: char): nat {
    if c == '&' then 4 else if c == '<' || c == '>' then 3 else 0
  }

  lemma {:induction false} ExpandEscapeLength(s: string)
    ensures |Expand(s, EscapeChar)|
         == |s| + 4 * multiset(s)['&'] + 3 * multiset(s)['<'] + 3 * multiset(s)['>']
  {
    if |s| > 0 {
      var c, t := s[0], s[1..];
      ExpandEscapeLength(t);
      assert |EscapeChar(c)| == 1 + Growth(c);
      assert s == [c] + t;
      var m := multiset(s);
      assert m == multiset{c} + multiset(t);
      assert 4 * m['&'] + 3 * m['<'] + 3 * m['>']
          == Growth(c) + 4 * multiset(t)['&'] + 3 * multiset(t)['<'] + 3 * multiset(t)['>'];
    }
  }

  /** The output grows by four characters per `&` and three per `<` or `>`. */
  lemma EscapeLength(s: string)
    ensures |Escape(s)| == |s| + 4 * multiset(s)['&'] + 3 * multiset(s)['<'] + 3 * multiset(s)['>']
  {
    EscapeIsCharMap(s);
    ExpandEscapeLength(s);
  }

  lemma {:induction false} ExpandEscapePlain(s: string)
    requires Plain(s)
    ensures Expand(s, EscapeChar) == s
  {
    if |s| > 0 {
      assert s[0] in s;
      ExpandEscapePlain(s[1..]);
      assert s == [s[0]] + s[1..];
    }
  }

  /** A string is returned unchanged exactly when it holds none of `&`, `<`, `>`. */
  lemma EscapeUnchangedIffPlain(s: string)
    ensures Escape(s) == s <==> Plain(s)
  {
    if Plain(s) {
      EscapeIsCharMap(s);
      ExpandEscapePlain(s);
    } else {
      EscapeLength(s);
    }
  }

  /** Unescaping recovers the original string. */
  lemma UnescapeEscape(s: string)
    ensures Unescape(Escape(s)) == s
  {
    EscapeIsCharMap(s);
    UnescapeStepLt(s);
    UnescapeStepGt(s);
    UnescapeStepAmp(s);
    ExpandSingle(s);
  }
}
