/** The `escapeHtml` helper of the activities page: five global replacements
    that turn `&`, `<`, `>`, `"` and `'` into character references, so that a
    participant's e-mail or an activity's name can be put into element text
    and into double-quoted attribute values. */
module HtmlEscape {
  import opened Wrappers

  /** The five characters `escapeHtml` rewrites. */
  predicate IsSpecial(c: char) {
    c == '&' || c == '<' || c == '>' || c == '"' || c == '\''
  }

  /** Number of occurrences of `c` in `s`. */
  function Count(s: string, c: char): nat {
    if s == [] then 0 else (if s[0] == c then 1 else 0) + Count(s[1..], c)
  }

  /** `s.replace(/c/g, rep)` for a one-character pattern `c` and a replacement
      string without `$` patterns: every occurrence of `c`, scanning left to
      right, is replaced by `rep`; the other characters are kept in order. */
  function ReplaceAll(s: string, c: char, rep: string): (r: string)
    ensures c !in s ==> r == s
    ensures c !in rep ==> c !in r
  {
    if s == [] then []
    else (if s[0] == c then rep else [s[0]]) + ReplaceAll(s[1..], c, rep)
  }

  /** The chain of five passes, in the order the source applies them:
      `&` first, then `<`, `>`, `"` and `'`. */
  function Passes(s: string): string {
    var amp := ReplaceAll(s, '&', "&amp;");
    var lt := ReplaceAll(amp, '<', "&lt;");
    var gt := ReplaceAll(lt, '>', "&gt;");
    var quot := ReplaceAll(gt, '"', "&quot;");
    ReplaceAll(quot, '\'', "&#39;")
  }

  /** `escapeHtml(str)`: an absent or empty argument becomes the empty string
      (`String(str || "")`), anything else goes through the five passes. */
  function EscapeHtml(str: Option<string>): string {
    Passes(if str.Some? then str.value else "")
  }

  /** The reference definition: one substitution per character. */
  function EscapeChar(c: char): string {
    match c
    case '&' => "&amp;"
    case '<' => "&lt;"
    case '>' => "&gt;"
    case '"' => "&quot;"
    case '\'' => "&#39;"
    case _ => [c]
  }

  function Escape(s: string): string {
    if s == [] then [] else EscapeChar(s[0]) + Escape(s[1..])
  }

  /** A text starts with one of the five character references. */
  predicate StartsWithEntity(t: string) {
    "&amp;" <= t || "&lt;" <= t || "&gt;" <= t || "&quot;" <= t || "&#39;" <= t
  }

  /** Decodes the five character references back into their characters; any
      other character is copied. */
  function Unescape(t: string): string
    decreases |t|
  {
    if t == [] then []
    else if "&amp;" <= t then "&" + Unescape(t[5..])
    else if "&lt;" <= t then "<" + Unescape(t[4..])
    else if "&gt;" <= t then ">" + Unescape(t[4..])
    else if "&quot;" <= t then "\"" + Unescape(t[6..])
    else if "&#39;" <= t then "'" + Unescape(t[5..])
    else [t[0]] + Unescape(t[1..])
  }

  // ---------------------------------------------------------------------
  // The chain of passes is a per-character substitution

  lemma {:induction false} ReplaceAllConcat(a: string, b: string, c: char, rep: string)
    ensures ReplaceAll(a + b, c, rep) == ReplaceAll(a, c, rep) + ReplaceAll(b, c, rep)
  {
    if a == [] {
      assert a + b == b;
    } else {
      assert (a + b)[0] == a[0];
      assert (a + b)[1..] == a[1..] + b;
      ReplaceAllConcat(a[1..], b, c, rep);
      var h := if a[0] == c then rep else [a[0]];
      assert h + (ReplaceAll(a[1..], c, rep) + ReplaceAll(b, c, rep))
          == (h + ReplaceAll(a[1..], c, rep)) + ReplaceAll(b, c, rep);
    }
  }

  lemma PassesConcat(a: string, b: string)
    ensures Passes(a + b) == Passes(a) + Passes(b)
  {
    var a1, b1 := ReplaceAll(a, '&', "&amp;"), ReplaceAll(b, '&', "&amp;");
    ReplaceAllConcat(a, b, '&', "&amp;");
    var a2, b2 := ReplaceAll(a1, '<', "&lt;"), ReplaceAll(b1, '<', "&lt;");
    ReplaceAllConcat(a1, b1, '<', "&lt;");
    var a3, b3 := ReplaceAll(a2, '>', "&gt;"), ReplaceAll(b2, '>', "&gt;");
    ReplaceAllConcat(a2, b2, '>', "&gt;");
    var a4, b4 := ReplaceAll(a3, '"', "&quot;"), ReplaceAll(b3, '"', "&quot;");
    ReplaceAllConcat(a3, b3, '"', "&quot;");
    ReplaceAllConcat(a4, b4, '\'', "&#39;");
  }

  /** On one character the five passes give that character's substitution;
      the references introduced by the `&` pass contain none of the later
      pattern characters, so no later pass touches them. */
  lemma PassesOnChar(x: char)
    ensures Passes([x]) == EscapeChar(x)
  {
    ReplaceAllOne(x, '&', "&amp;");
    if x == '&' {
      assert '<' !in "&amp;" && '>' !in "&amp;" && '"' !in "&amp;" && '\'' !in "&amp;";
    } else {
      ReplaceAllOne(x, '<', "&lt;");
      if x == '<' {
        assert '>' !in "&lt;" && '"' !in "&lt;" && '\'' !in "&lt;";
      } else {
        ReplaceAllOne(x, '>', "&gt;");
        if x == '>' {
          assert '"' !in "&gt;" && '\'' !in "&gt;";
        } else {
          ReplaceAllOne(x, '"', "&quot;");
          if x == '"' {
            assert '\'' !in "&quot;";
          } else {
            ReplaceAllOne(x, '\'', "&#39;");
          }
        }
      }
    }
  }

  lemma ReplaceAllOne(x: char, c: char, rep: string)
    ensures ReplaceAll([x], c, rep) == if x == c then rep else [x]
  {
    assert [x][1..] == [];
  }

  /** The five sequential passes equal the single per-character substitution. */
  lemma {:induction false} PassesIsEscape(s: string)
    ensures Passes(s) == Escape(s)
  {
    if s != [] {
      assert s == [s[0]] + s[1..];
      PassesConcat([s[0]], s[1..]);
      PassesOnChar(s[0]);
      PassesIsEscape(s[1..]);
    }
  }

  lemma EscapeHtmlIsEscape(str: Option<string>)
    ensures EscapeHtml(str) == Escape(if str.Some? then str.value else "")
  {
    PassesIsEscape(if str.Some? then str.value else "");
  }

  /** A missing or empty argument gives the empty string, and only those do. */
  lemma EscapeHtmlEmpty(str: Option<string>)
    ensures EscapeHtml(str) == "" <==> str.None? || str.value == ""
  {
    EscapeHtmlIsEscape(str);
    if str.Some? && str.value != "" {
      EscapeLength(str.value);
    }
  }

  /** Replacing `&` first matters: were the `&` pass run after the `<` pass,
      the ampersand that pass introduces would be escaped again. With `lt`
      the `&lt;` reference and `amp` the `&amp;` reference, `<` comes out as
      `amp` followed by the tail `lt;` of `lt`, that is `&amp;lt;`, instead
      of the `&lt;` that `PassesOnChar` gives. */
  lemma AmpersandPassFirst(lt: string, amp: string)
    requires lt == "&lt;" && amp == "&amp;"
    ensures ReplaceAll(ReplaceAll("<", '<', lt), '&', amp) == amp + lt[1..]
  {
    ReplaceAllOne('<', '<', lt);
    assert lt == [lt[0]] + lt[1..];
    ReplaceAllConcat([lt[0]], lt[1..], '&', amp);
    ReplaceAllOne('&', '&', amp);
    assert '&' !in lt[1..];
  }

  // ---------------------------------------------------------------------
  // Properties of the per-character substitution

  lemma {:induction false} EscapeConcat(a: string, b: string)
    ensures Escape(a + b) == Escape(a) + Escape(b)
  {
    if a == [] {
      assert a + b == b;
    } else {
      assert (a + b)[0] == a[0];
      assert (a + b)[1..] == a[1..] + b;
      EscapeConcat(a[1..], b);
      var h := EscapeChar(a[0]);
      assert Escape(a + b) == h + Escape(a[1..] + b);
      assert h + (Escape(a[1..]) + Escape(b)) == (h + Escape(a[1..])) + Escape(b);
    }
  }

  /** Escaping works character by character and keeps the order: the
      character at position i contributes its substitution between the
      escapes of what precedes and what follows it. */
  lemma EscapeAt(s: string, i: nat)
    requires i < |s|
    ensures Escape(s) == Escape(s[..i]) + EscapeChar(s[i]) + Escape(s[i + 1..])
  {
    var pre, mid, post := s[..i], [s[i]], s[i + 1..];
    SplitAround(s, i);
    EscapeConcat(pre, mid + post);
    EscapeConcat(mid, post);
    EscapeSingle(s[i]);
    ConcatAssoc(Escape(pre), EscapeChar(s[i]), Escape(post));
  }

  lemma SplitAround(s: string, i: nat)
    requires i < |s|
    ensures s == s[..i] + ([s[i]] + s[i + 1..])
  {
  }

  lemma ConcatAssoc(a: string, b: string, c: string)
    ensures (a + b) + c == a + (b + c)
  {
  }

  lemma EscapeSingle(c: char)
    ensures Escape([c]) == EscapeChar(c)
  {
    assert [c][1..] == [];
  }

  /** No `<`, `>`, `"` or `'` survives escaping. */
  lemma {:induction false} EscapeNoMarkup(s: string)
    ensures '<' !in Escape(s) && '>' !in Escape(s) && '"' !in Escape(s) && '\'' !in Escape(s)
  {
    if s != [] {
      EscapeNoMarkup(s[1..]);
    }
  }

  /** Every `&` of the output begins one of the five character references. */
  lemma {:induction false} EscapeAmpersands(s: string)
    ensures forall i :: 0 <= i < |Escape(s)| && Escape(s)[i] == '&' ==> StartsWithEntity(Escape(s)[i..])
  {
    if s != [] {
      var head, tail := EscapeChar(s[0]), Escape(s[1..]);
      EscapeAmpersands(s[1..]);
      var r := head + tail;
      forall i | 0 <= i < |r| && r[i] == '&'
        ensures StartsWithEntity(r[i..])
      {
        if i < |head| {
          assert i == 0;
          assert r[..|head|] == head;
        } else {
          assert r[i..] == tail[i - |head|..];
        }
      }
    }
  }

  /** The extra length contributed by each of the five characters. */
  lemma {:induction false} EscapeLength(s: string)
    ensures |Escape(s)| == |s| + 4 * Count(s, '&') + 3 * Count(s, '<') + 3 * Count(s, '>')
                             + 5 * Count(s, '"') + 4 * Count(s, '\'')
    ensures |Escape(s)| >= |s|
  {
    if s != [] {
      EscapeLength(s[1..]);
      assert |Escape(s)| == |EscapeChar(s[0])| + |Escape(s[1..])|;
      assert Count(s, '&') == (if s[0] == '&' then 1 else 0) + Count(s[1..], '&');
      assert Count(s, '<') == (if s[0] == '<' then 1 else 0) + Count(s[1..], '<');
      assert Count(s, '>') == (if s[0] == '>' then 1 else 0) + Count(s[1..], '>');
      assert Count(s, '"') == (if s[0] == '"' then 1 else 0) + Count(s[1..], '"');
      assert Count(s, '\'') == (if s[0] == '\'' then 1 else 0) + Count(s[1..], '\'');
      if s[0] == '&' {
        assert |EscapeChar(s[0])| == 5;
      } else if s[0] == '<' {
        assert |EscapeChar(s[0])| == 4;
      } else if s[0] == '>' {
        assert |EscapeChar(s[0])| == 4;
      } else if s[0] == '"' {
        assert |EscapeChar(s[0])| == 6;
      } else if s[0] == '\'' {
        assert |EscapeChar(s[0])| == 5;
      } else {
        assert |EscapeChar(s[0])| == 1;
      }
    }
  }

  /** A string is returned unchanged exactly when it holds none of the five
      characters. */
  lemma {:induction false} EscapeIdentity(s: string)
    ensures Escape(s) == s <==> forall i :: 0 <= i < |s| ==> !IsSpecial(s[i])
  {
    if s != [] {
      EscapeIdentity(s[1..]);
      if IsSpecial(s[0]) {
        EscapeLength(s[1..]);
        assert |Escape(s)| > |s|;
      } else if Escape(s) == s {
        assert Escape(s[1..]) == s[1..];
      }
      if Escape(s[1..]) != s[1..] {
        assert Escape(s)[1..] == Escape(s[1..]) || IsSpecial(s[0]);
        assert exists i :: 1 <= i < |s| && IsSpecial(s[i]) by {
          var j :| 0 <= j < |s[1..]| && IsSpecial(s[1..][j]);
          assert s[j + 1] == s[1..][j];
        }
      }
    }
  }

  lemma UnescapeOnePrefix(x: char, t: string)
    ensures Unescape(EscapeChar(x) + t) == [x] + Unescape(t)
  {
    var e := EscapeChar(x);
    var u := e + t;
    assert u[..|e|] == e;
    assert u[|e|..] == t;
    if x == '&' {
      assert "&amp;" <= u;
    } else if x == '<' {
      assert u[1] == 'l';
      assert !("&amp;" <= u) && "&lt;" <= u;
    } else if x == '>' {
      assert u[1] == 'g';
      assert !("&amp;" <= u) && !("&lt;" <= u) && "&gt;" <= u;
    } else if x == '"' {
      assert u[1] == 'q';
      assert !("&amp;" <= u) && !("&lt;" <= u) && !("&gt;" <= u) && "&quot;" <= u;
    } else if x == '\'' {
      assert u[1] == '#';
      assert !("&amp;" <= u) && !("&lt;" <= u) && !("&gt;" <= u) && !("&quot;" <= u) && "&#39;" <= u;
    } else {
      assert u[0] == x && x != '&';
      assert !StartsWithEntity(u);
      assert u[1..] == t;
    }
  }

  /** Unescaping undoes escaping. */
  lemma {:induction false} UnescapeEscape(s: string)
    ensures Unescape(Escape(s)) == s
  {
    if s != [] {
      UnescapeOnePrefix(s[0], Escape(s[1..]));
      UnescapeEscape(s[1..]);
    }
  }

  /** Escaping is injective: different strings never share a rendering. */
  lemma EscapeInjective(a: string, b: string)
    ensures Escape(a) == Escape(b) ==> a == b
  {
    UnescapeEscape(a);
    UnescapeEscape(b);
  }
}
