/**
 * `html_escape` of the example web application: five chained
 * `str::replace` calls that turn `& < > " '` into HTML character
 * references, `&` first. Because `&` goes first, no later replacement can
 * produce a `&` that is escaped again, so the chain equals escaping each
 * character on its own (`EscapeEach`), which is what the lemmas below are
 * stated about.
 */
module HtmlEscape {

  /** Rust's `str::replace` with a `char` pattern: every `c` in `s` becomes `rep`. */
  function ReplaceChar(s: string, c: char, rep: string): string {
    if s == [] then [] else (if s[0] == c then rep else [s[0]]) + ReplaceChar(s[1..], c, rep)
  }

  /** `html_escape` as written. */
  function HtmlEscape(text: string): string {
    var amp := ReplaceChar(text, '&', "&amp;");
    var lt := ReplaceChar(amp, '<', "&lt;");
    var gt := ReplaceChar(lt, '>', "&gt;");
    var quot := ReplaceChar(gt, '"', "&quot;");
    ReplaceChar(quot, '\'', "&#x27;")
  }

  predicate IsSpecial(c: char) {
    c == '&' || c == '<' || c == '>' || c == '"' || c == '\''
  }

  /** The character reference for one special character; any other character stands for itself. */
  function EscapeChar(c: char): string {
    match c
    case '&' => "&amp;"
    case '<' => "&lt;"
    case '>' => "&gt;"
    case '"' => "&quot;"
    case '\'' => "&#x27;"
    case _ => [c]
  }

  /** The reference escaping: each character escaped on its own, in order. */
  function EscapeEach(s: string): string {
    if s == [] then [] else EscapeChar(s[0]) + EscapeEach(s[1..])
  }

  predicate HasPrefix(t: string, p: string) {
    |p| <= |t| && t[..|p|] == p
  }

  /** `t` begins with one of the five character references `html_escape` writes. */
  predicate StartsEntity(t: string) {
    HasPrefix(t, "&amp;") || HasPrefix(t, "&lt;") || HasPrefix(t, "&gt;") ||
    HasPrefix(t, "&quot;") || HasPrefix(t, "&#x27;")
  }

  /** Number of occurrences of `c` in `s`. */
  function Count(s: string, c: char): nat {
    if s == [] then 0 else (if s[0] == c then 1 else 0) + Count(s[1..], c)
  }

  lemma {:induction false} ReplaceCharAppend(a: string, b: string, c: char, rep: string)
    ensures ReplaceChar(a + b, c, rep) == ReplaceChar(a, c, rep) + ReplaceChar(b, c, rep)
  {
    if a == [] {
      assert a + b == b;
    } else {
      assert (a + b)[1..] == a[1..] + b;
      ReplaceCharAppend(a[1..], b, c, rep);
    }
  }

  lemma {:induction false} ReplaceCharAbsent(s: string, c: char, rep: string)
    requires c !in s
    ensures ReplaceChar(s, c, rep) == s
  {
    if s != [] {
      assert s[0] != c;
      ReplaceCharAbsent(s[1..], c, rep);
    }
  }

  lemma ReplaceCharSingle(x: char, c: char, rep: string)
    ensures ReplaceChar([x], c, rep) == if x == c then rep else [x]
  {
    assert [x][1..] == [];
  }

  /** `html_escape` distributes over concatenation. */
  lemma HtmlEscapeAppend(a: string, b: string)
    ensures HtmlEscape(a + b) == HtmlEscape(a) + HtmlEscape(b)
  {
    var amp1, amp2 := ReplaceChar(a, '&', "&amp;"), ReplaceChar(b, '&', "&amp;");
    ReplaceCharAppend(a, b, '&', "&amp;");
    var lt1, lt2 := ReplaceChar(amp1, '<', "&lt;"), ReplaceChar(amp2, '<', "&lt;");
    ReplaceCharAppend(amp1, amp2, '<', "&lt;");
    var gt1, gt2 := ReplaceChar(lt1, '>', "&gt;"), ReplaceChar(lt2, '>', "&gt;");
    ReplaceCharAppend(lt1, lt2, '>', "&gt;");
    var q1, q2 := ReplaceChar(gt1, '"', "&quot;"), ReplaceChar(gt2, '"', "&quot;");
    ReplaceCharAppend(gt1, gt2, '"', "&quot;");
    ReplaceCharAppend(q1, q2, '\'', "&#x27;");
  }

  /** On a single character the chain yields that character's reference. */
  lemma HtmlEscapeChar(c: char)
    ensures HtmlEscape([c]) == EscapeChar(c)
  {
    if c == '&' {
      EscapeOfAmpersand(c);
    } else if c == '<' {
      EscapeOfLessThan(c);
    } else if c == '>' {
      EscapeOfGreaterThan(c);
    } else if c == '"' {
      EscapeOfQuote(c);
    } else if c == '\'' {
      EscapeOfApostrophe(c);
    } else {
      EscapeOfPlain(c);
    }
  }

  lemma EscapeOfAmpersand(c: char)
    requires c == '&'
    ensures HtmlEscape([c]) == "&amp;"
  {
    var a1 := ReplaceChar([c], '&', "&amp;");
    var a2 := ReplaceChar(a1, '<', "&lt;");
    var a3 := ReplaceChar(a2, '>', "&gt;");
    var a4 := ReplaceChar(a3, '"', "&quot;");
    assert HtmlEscape([c]) == ReplaceChar(a4, '\'', "&#x27;");
    ReplaceCharSingle(c, '&', "&amp;");
    assert a1 == "&amp;";
    ReplaceCharAbsent(a1, '<', "&lt;");
    ReplaceCharAbsent(a2, '>', "&gt;");
    ReplaceCharAbsent(a3, '"', "&quot;");
    ReplaceCharAbsent(a4, '\'', "&#x27;");
  }

  lemma EscapeOfLessThan(c: char)
    requires c == '<'
    ensures HtmlEscape([c]) == "&lt;"
  {
    ReplaceCharSingle(c, '&', "&amp;");
    ReplaceCharSingle(c, '<', "&lt;");
    ReplaceCharAbsent("&lt;", '>', "&gt;");
    ReplaceCharAbsent("&lt;", '"', "&quot;");
    ReplaceCharAbsent("&lt;", '\'', "&#x27;");
  }

  lemma EscapeOfGreaterThan(c: char)
    requires c == '>'
    ensures HtmlEscape([c]) == "&gt;"
  {
    ReplaceCharSingle(c, '&', "&amp;");
    ReplaceCharSingle(c, '<', "&lt;");
    ReplaceCharSingle(c, '>', "&gt;");
    ReplaceCharAbsent("&gt;", '"', "&quot;");
    ReplaceCharAbsent("&gt;", '\'', "&#x27;");
  }

  lemma EscapeOfQuote(c: char)
    requires c == '"'
    ensures HtmlEscape([c]) == "&quot;"
  {
    ReplaceCharSingle(c, '&', "&amp;");
    ReplaceCharSingle(c, '<', "&lt;");
    ReplaceCharSingle(c, '>', "&gt;");
    ReplaceCharSingle(c, '"', "&quot;");
    ReplaceCharAbsent("&quot;", '\'', "&#x27;");
  }

  lemma EscapeOfApostrophe(c: char)
    requires c == '\''
    ensures HtmlEscape([c]) == "&#x27;"
  {
    ReplaceCharSingle(c, '&', "&amp;");
    ReplaceCharSingle(c, '<', "&lt;");
    ReplaceCharSingle(c, '>', "&gt;");
    ReplaceCharSingle(c, '"', "&quot;");
    ReplaceCharSingle(c, '\'', "&#x27;");
  }

  lemma EscapeOfPlain(c: char)
    requires !IsSpecial(c)
    ensures HtmlEscape([c]) == [c]
  {
    ReplaceCharSingle(c, '&', "&amp;");
    ReplaceCharSingle(c, '<', "&lt;");
    ReplaceCharSingle(c, '>', "&gt;");
    ReplaceCharSingle(c, '"', "&quot;");
    ReplaceCharSingle(c, '\'', "&#x27;");
  }

  /** The chained replaces equal escaping each character on its own. */
  lemma {:induction false} HtmlEscapeIsPerCharacter(s: string)
    ensures HtmlEscape(s) == EscapeEach(s)
  {
    if s == [] {
      assert HtmlEscape(s) == [];
    } else {
      assert s == [s[0]] + s[1..];
      HtmlEscapeAppend([s[0]], s[1..]);
      HtmlEscapeChar(s[0]);
      HtmlEscapeIsPerCharacter(s[1..]);
    }
  }

  /** Had `&` been replaced last, the `&` of `&lt;` would be escaped a second time. */
  lemma AmpersandMustGoFirst()
    ensures ReplaceChar(ReplaceChar("<", '<', "&lt;"), '&', "&amp;") == "&amp;lt;"
    ensures HtmlEscape("<") == "&lt;"
  {
    HtmlEscapeChar('<');
    var lt := ReplaceChar("<", '<', "&lt;");
    assert lt == "&lt;";
    assert "&lt;"[1..] == "lt;";
    ReplaceCharAbsent("lt;", '&', "&amp;");
  }

  /** The output contains no `<`, `>`, `"` or `'`. */
  lemma {:induction false} NoMarkupInOutput(s: string)
    ensures forall i :: 0 <= i < |HtmlEscape(s)| ==> !IsSpecial(HtmlEscape(s)[i]) || HtmlEscape(s)[i] == '&'
  {
    HtmlEscapeIsPerCharacter(s);
    EscapeEachHasNoMarkup(s);
  }

  lemma {:induction false} EscapeEachHasNoMarkup(s: string)
    ensures forall i :: 0 <= i < |EscapeEach(s)| ==> !IsSpecial(EscapeEach(s)[i]) || EscapeEach(s)[i] == '&'
  {
    if s != [] {
      EscapeEachHasNoMarkup(s[1..]);
    }
  }

  /** Text without any of the five special characters comes back unchanged. */
  lemma {:induction false} PlainTextUnchanged(s: string)
    requires forall i :: 0 <= i < |s| ==> !IsSpecial(s[i])
    ensures HtmlEscape(s) == s
  {
    HtmlEscapeIsPerCharacter(s);
    EscapeEachPlain(s);
  }

  lemma {:induction false} EscapeEachPlain(s: string)
    requires forall i :: 0 <= i < |s| ==> !IsSpecial(s[i])
    ensures EscapeEach(s) == s
  {
    if s != [] {
      EscapeEachPlain(s[1..]);
    }
  }

  /**
   * The output is the input plus 4, 3, 3, 5 or 5 characters for each
   * `&`, `<`, `>`, `"` or `'`; so it is never shorter.
   */
  lemma {:induction false} EscapedLength(s: string)
    ensures |HtmlEscape(s)| == |s| + 4 * Count(s, '&') + 3 * Count(s, '<') + 3 * Count(s, '>')
                                 + 5 * Count(s, '"') + 5 * Count(s, '\'')
    ensures |HtmlEscape(s)| >= |s|
  {
    HtmlEscapeIsPerCharacter(s);
    EscapeEachLength(s);
  }

  lemma {:induction false} EscapeEachLength(s: string)
    ensures |EscapeEach(s)| == |s| + 4 * Count(s, '&') + 3 * Count(s, '<') + 3 * Count(s, '>')
                               + 5 * Count(s, '"') + 5 * Count(s, '\'')
  {
    if s != [] {
      EscapeEachLength(s[1..]);
    }
  }

  /** Every `&` in the output begins one of the five character references. */
  lemma {:induction false} AmpersandsBeginEntities(s: string)
    ensures forall i :: 0 <= i < |HtmlEscape(s)| && HtmlEscape(s)[i] == '&' ==> StartsEntity(HtmlEscape(s)[i..])
  {
    HtmlEscapeIsPerCharacter(s);
    EscapeEachAmpersands(s);
  }

  lemma {:induction false} EscapeEachAmpersands(s: string)
    ensures forall i :: 0 <= i < |EscapeEach(s)| && EscapeEach(s)[i] == '&' ==> StartsEntity(EscapeEach(s)[i..])
  {
    if s != [] {
      var e, rest := EscapeChar(s[0]), EscapeEach(s[1..]);
      var t := e + rest;
      EscapeEachAmpersands(s[1..]);
      forall i | 0 <= i < |t| && t[i] == '&'
        ensures StartsEntity(t[i..])
      {
        if i < |e| {
          assert IsSpecial(s[0]) && i == 0;
          assert t[..|e|] == e;
        } else {
          assert t[i..] == rest[i - |e|..];
        }
      }
    }
  }

  /** Decodes the five character references `html_escape` writes; anything else is copied. */
  function Unescape(t: string): string
    decreases |t|
  {
    if t == [] then []
    else if HasPrefix(t, "&amp;") then "&" + Unescape(t[5..])
    else if HasPrefix(t, "&lt;") then "<" + Unescape(t[4..])
    else if HasPrefix(t, "&gt;") then ">" + Unescape(t[4..])
    else if HasPrefix(t, "&quot;") then "\"" + Unescape(t[6..])
    else if HasPrefix(t, "&#x27;") then "'" + Unescape(t[6..])
    else [t[0]] + Unescape(t[1..])
  }

  lemma UnescapeEscapeChar(c: char, x: string)
    ensures Unescape(EscapeChar(c) + x) == [c] + Unescape(x)
  {
    var t := EscapeChar(c) + x;
    assert t[..|EscapeChar(c)|] == EscapeChar(c);
    assert t[|EscapeChar(c)|..] == x;
    if !IsSpecial(c) {
      assert t[0] == c && t[1..] == x;
      assert !HasPrefix(t, "&amp;") && !HasPrefix(t, "&lt;") && !HasPrefix(t, "&gt;");
      assert !HasPrefix(t, "&quot;") && !HasPrefix(t, "&#x27;");
    } else if c != '&' {
      assert t[1] == EscapeChar(c)[1];
      assert !HasPrefix(t, "&amp;");
      if c != '<' {
        assert !HasPrefix(t, "&lt;");
        if c != '>' {
          assert !HasPrefix(t, "&gt;");
          if c != '"' {
            assert !HasPrefix(t, "&quot;");
          }
        }
      }
    }
  }

  /** Unescaping the output of `html_escape` gives back its input: no information is lost. */
  lemma {:induction false} UnescapeInvertsEscape(s: string)
    ensures Unescape(HtmlEscape(s)) == s
  {
    HtmlEscapeIsPerCharacter(s);
    UnescapeInvertsEscapeEach(s);
  }

  lemma {:induction false} UnescapeInvertsEscapeEach(s: string)
    ensures Unescape(EscapeEach(s)) == s
  {
    if s != [] {
      UnescapeEscapeChar(s[0], EscapeEach(s[1..]));
      UnescapeInvertsEscapeEach(s[1..]);
      assert s == [s[0]] + s[1..];
    }
  }
}
