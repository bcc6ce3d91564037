/**
 * HTML escaping of user text before it is put into markup (app.js:1203-1213).
 * `escapeHtml` chains five `replaceAll` calls, '&' first; `escapeAttr` also
 * turns line feeds into spaces.
 */
module Escape {

  /** `s.replaceAll(c, rep)` for a one-character pattern. */
  function ReplaceAll(s: string, c: char, rep: string): string {
    if s == [] then []
    else (if s[0] == c then rep else [s[0]]) + ReplaceAll(s[1..], c, rep)
  }

  /** `escapeHtml(s)` as written: five replacements in a row. */
  function EscapeHtml(s: string): string {
    ReplaceAll(ReplaceAll(ReplaceAll(ReplaceAll(ReplaceAll(
      s, '&', "&amp;"), '<', "&lt;"), '>', "&gt;"), '"', "&quot;"), '\'', "&#039;")
  }

  /** `escapeAttr(s)`: escaped, with every line feed made a space. */
  function EscapeAttr(s: string): string {
    ReplaceAll(EscapeHtml(s), '\n', " ")
  }

  /** The markup a single character stands for after escaping. */
  function Entity(c: char): string {
    match c
    case '&' => "&amp;"
    case '<' => "&lt;"
    case '>' => "&gt;"
    case '"' => "&quot;"
    case '\'' => "&#039;"
    case _ => [c]
  }

  /** The reference escaping: every character replaced by its entity, in one pass. */
  function EscapeChars(s: string): string {
    if s == [] then [] else Entity(s[0]) + EscapeChars(s[1..])
  }

  predicate IsSpecial(c: char) {
    c == '&' || c == '<' || c == '>' || c == '"' || c == '\''
  }

  lemma {:induction false} ReplaceAllAppend(a: string, b: string, c: char, rep: string)
    ensures ReplaceAll(a + b, c, rep) == ReplaceAll(a, c, rep) + ReplaceAll(b, c, rep)
    decreases |a|
  {
    if a == [] {
      assert a + b == b;
    } else {
      assert (a + b)[1..] == a[1..] + b;
      ReplaceAllAppend(a[1..], b, c, rep);
    }
  }

  lemma EscapeHtmlAppend(a: string, b: string)
    ensures EscapeHtml(a + b) == EscapeHtml(a) + EscapeHtml(b)
  {
    var a1, b1 := ReplaceAll(a, '&', "&amp;"), ReplaceAll(b, '&', "&amp;");
    ReplaceAllAppend(a, b, '&', "&amp;");
    var a2, b2 := ReplaceAll(a1, '<', "&lt;"), ReplaceAll(b1, '<', "&lt;");
    ReplaceAllAppend(a1, b1, '<', "&lt;");
    var a3, b3 := ReplaceAll(a2, '>', "&gt;"), ReplaceAll(b2, '>', "&gt;");
    ReplaceAllAppend(a2, b2, '>', "&gt;");
    var a4, b4 := ReplaceAll(a3, '"', "&quot;"), ReplaceAll(b3, '"', "&quot;");
    ReplaceAllAppend(a3, b3, '"', "&quot;");
    ReplaceAllAppend(a4, b4, '\'', "&#039;");
  }

  /** A replacement leaves a string without the pattern as it is. */
  lemma {:induction false} ReplaceAllAbsent(s: string, c: char, rep: string)
    requires forall k :: 0 <= k < |s| ==> s[k] != c
    ensures ReplaceAll(s, c, rep) == s
    decreases |s|
  {
    if s != [] {
      assert s == [s[0]] + s[1..];
      ReplaceAllAbsent(s[1..], c, rep);
    }
  }

  lemma ReplaceAllOne(x: char, c: char, rep: string)
    ensures ReplaceAll([x], c, rep) == if x == c then rep else [x]
  {
    assert [x][1..] == [];
  }

  /** The last four steps of `escapeHtml`, starting from what the '&' step produced. */
  function EscapeRest(s: string): string {
    ReplaceAll(ReplaceAll(ReplaceAll(ReplaceAll(
      s, '<', "&lt;"), '>', "&gt;"), '"', "&quot;"), '\'', "&#039;")
  }

  /** Text free of `'` survives the last step. */
  lemma Tail1(s: string)
    requires forall k :: 0 <= k < |s| ==> s[k] != '\''
    ensures ReplaceAll(s, '\'', "&#039;") == s
  {
    ReplaceAllAbsent(s, '\'', "&#039;");
  }

  /** Text free of `"` and `'` survives the last two steps. */
  lemma Tail2(s: string)
    requires forall k :: 0 <= k < |s| ==> s[k] != '"' && s[k] != '\''
    ensures ReplaceAll(ReplaceAll(s, '"', "&quot;"), '\'', "&#039;") == s
  {
    ReplaceAllAbsent(s, '"', "&quot;");
    Tail1(s);
  }

  /** Text free of `>`, `"` and `'` survives the last three steps. */
  lemma Tail3(s: string)
    requires forall k :: 0 <= k < |s| ==> s[k] != '>' && s[k] != '"' && s[k] != '\''
    ensures ReplaceAll(ReplaceAll(ReplaceAll(s, '>', "&gt;"), '"', "&quot;"), '\'', "&#039;") == s
  {
    ReplaceAllAbsent(s, '>', "&gt;");
    Tail2(s);
  }

  /** Text free of `<`, `>`, `"` and `'` survives the last four steps. */
  lemma Tail4(s: string)
    requires forall k :: 0 <= k < |s| ==> s[k] != '<' && s[k] != '>' && s[k] != '"' && s[k] != '\''
    ensures EscapeRest(s) == s
  {
    ReplaceAllAbsent(s, '<', "&lt;");
    Tail3(s);
  }

  lemma EscapeRestOne(x: char)
    requires x != '&'
    ensures EscapeRest([x]) == Entity(x)
  {
    ReplaceAllOne(x, '<', "&lt;");
    if x == '<' {
      Tail3("&lt;");
    } else {
      ReplaceAllOne(x, '>', "&gt;");
      if x == '>' {
        Tail2("&gt;");
      } else {
        ReplaceAllOne(x, '"', "&quot;");
        if x == '"' {
          Tail1("&quot;");
        } else {
          ReplaceAllOne(x, '\'', "&#039;");
        }
      }
    }
  }

  /** Escaping one character gives its entity: later steps never touch what '&' produced. */
  lemma EscapeHtmlOne(x: char)
    ensures EscapeHtml([x]) == Entity(x)
  {
    ReplaceAllOne(x, '&', "&amp;");
    assert EscapeHtml([x]) == EscapeRest(ReplaceAll([x], '&', "&amp;"));
    if x == '&' {
      Tail4("&amp;");
    } else {
      EscapeRestOne(x);
    }
  }

  /** The chain of replacements equals the one-pass reference escaping. */
  lemma {:induction false} EscapeHtmlIsEscapeChars(s: string)
    ensures EscapeHtml(s) == EscapeChars(s)
    decreases |s|
  {
    if s == [] {
      ReplaceAllAbsent(s, '&', "&amp;");
    } else {
      assert s == [s[0]] + s[1..];
      EscapeHtmlAppend([s[0]], s[1..]);
      EscapeHtmlOne(s[0]);
      EscapeHtmlIsEscapeChars(s[1..]);
    }
  }

  /** Escaped text holds none of `<`, `>`, `"` or `'`. */
  lemma {:induction false} EscapeCharsSafe(s: string)
    ensures forall k :: 0 <= k < |EscapeChars(s)| ==>
      EscapeChars(s)[k] !in {'<', '>', '"', '\''}
    decreases |s|
  {
    if s != [] {
      EscapeCharsSafe(s[1..]);
      var e, rest := Entity(s[0]), EscapeChars(s[1..]);
      forall k | 0 <= k < |e + rest| ensures (e + rest)[k] !in {'<', '>', '"', '\''} {
        if k >= |e| {
          assert (e + rest)[k] == rest[k - |e|];
        }
      }
    }
  }

  /** `escapeHtml` output is safe: no `<`, `>`, `"` or `'` survives. */
  lemma EscapeHtmlSafe(s: string)
    ensures forall k :: 0 <= k < |EscapeHtml(s)| ==> EscapeHtml(s)[k] !in {'<', '>', '"', '\''}
  {
    EscapeHtmlIsEscapeChars(s);
    EscapeCharsSafe(s);
  }

  /** Text with no special character comes out unchanged. */
  lemma {:induction false} EscapeCharsPlain(s: string)
    requires forall k :: 0 <= k < |s| ==> !IsSpecial(s[k])
    ensures EscapeChars(s) == s
    decreases |s|
  {
    if s != [] {
      EscapeCharsPlain(s[1..]);
      assert s == [s[0]] + s[1..];
    }
  }

  /** `escapeHtml` returns text with no special character unchanged. */
  lemma EscapeHtmlPlain(s: string)
    requires forall k :: 0 <= k < |s| ==> !IsSpecial(s[k])
    ensures EscapeHtml(s) == s
  {
    EscapeHtmlIsEscapeChars(s);
    EscapeCharsPlain(s);
  }

  /** The text starts with the given entity. */
  predicate StartsWith(s: string, entity: string) {
    |s| >= |entity| && s[..|entity|] == entity
  }

  /** One of the five entities starts at position k of t. */
  predicate EntityAt(t: string, k: nat)
    requires k <= |t|
  {
    || StartsWith(t[k..], "&amp;") || StartsWith(t[k..], "&lt;") || StartsWith(t[k..], "&gt;")
    || StartsWith(t[k..], "&quot;") || StartsWith(t[k..], "&#039;")
  }

  /** The entity of a special character starts its escaped text. */
  lemma EntityStarts(c: char, rest: string)
    requires IsSpecial(c)
    ensures EntityAt(Entity(c) + rest, 0)
  {
    var t := Entity(c) + rest;
    assert t[0..] == t && t[..|Entity(c)|] == Entity(c);
    if c == '&' {
      assert StartsWith(t, "&amp;");
    } else if c == '<' {
      assert StartsWith(t, "&lt;");
    } else if c == '>' {
      assert StartsWith(t, "&gt;");
    } else if c == '"' {
      assert StartsWith(t, "&quot;");
    } else {
      assert StartsWith(t, "&#039;");
    }
  }

  /** Every '&' of escaped text starts one of the five entities. */
  lemma {:induction false} EscapeCharsAmpersands(s: string)
    ensures forall k :: 0 <= k < |EscapeChars(s)| && EscapeChars(s)[k] == '&' ==> EntityAt(EscapeChars(s), k)
    decreases |s|
  {
    if s != [] {
      EscapeCharsAmpersands(s[1..]);
      var e, rest := Entity(s[0]), EscapeChars(s[1..]);
      var t := e + rest;
      forall k | 0 <= k < |t| && t[k] == '&' ensures EntityAt(t, k) {
        if k < |e| {
          assert k == 0 && IsSpecial(s[0]);
          EntityStarts(s[0], rest);
          assert t[k..] == t;
        } else {
          var j := k - |e|;
          assert t[k] == rest[j];
          assert EntityAt(rest, j);
          assert t[k..] == rest[j..];
        }
      }
    }
  }

  /** In `escapeHtml` output every '&' starts an entity. */
  lemma EscapeHtmlAmpersands(s: string)
    ensures forall k :: 0 <= k < |EscapeHtml(s)| && EscapeHtml(s)[k] == '&' ==> EntityAt(EscapeHtml(s), k)
  {
    EscapeHtmlIsEscapeChars(s);
    EscapeCharsAmpersands(s);
  }

  /**
   * Reading the five entities back as characters (the browser's view of the
   * markup); the character after '&' says which entity to look for.
   */
  function Unescape(s: string): string
    decreases |s|
  {
    if s == [] then []
    else if |s| >= 2 && s[0] == '&' && s[1] == 'a' && StartsWith(s, "&amp;") then "&" + Unescape(s[5..])
    else if |s| >= 2 && s[0] == '&' && s[1] == 'l' && StartsWith(s, "&lt;") then "<" + Unescape(s[4..])
    else if |s| >= 2 && s[0] == '&' && s[1] == 'g' && StartsWith(s, "&gt;") then ">" + Unescape(s[4..])
    else if |s| >= 2 && s[0] == '&' && s[1] == 'q' && StartsWith(s, "&quot;") then "\"" + Unescape(s[6..])
    else if |s| >= 2 && s[0] == '&' && s[1] == '#' && StartsWith(s, "&#039;") then "'" + Unescape(s[6..])
    else [s[0]] + Unescape(s[1..])
  }

  /** An entity reads back as its character, whatever follows it. */
  lemma UnescapeEntity(c: char, rest: string)
    ensures Unescape(Entity(c) + rest) == [c] + Unescape(rest)
  {
    var e := Entity(c);
    var s := e + rest;
    assert s[..|e|] == e && s[|e|..] == rest;
    if !IsSpecial(c) {
      assert s[0] == c;
      assert Unescape(s) == [c] + Unescape(s[1..]);
    } else if c == '&' {
      assert StartsWith(s, "&amp;");
    } else if c == '<' {
      assert s[1] == 'l' && StartsWith(s, "&lt;");
    } else if c == '>' {
      assert s[1] == 'g' && StartsWith(s, "&gt;");
    } else if c == '"' {
      assert s[1] == 'q' && StartsWith(s, "&quot;");
    } else {
      assert s[1] == '#' && StartsWith(s, "&#039;");
    }
  }

  /** Escaping loses nothing: the text reads back exactly, so it is injective. */
  lemma {:induction false} UnescapeEscape(s: string)
    ensures Unescape(EscapeHtml(s)) == s
    decreases |s|
  {
    EscapeHtmlIsEscapeChars(s);
    if s != [] {
      UnescapeEscape(s[1..]);
      EscapeHtmlIsEscapeChars(s[1..]);
      UnescapeEntity(s[0], EscapeChars(s[1..]));
      assert s == [s[0]] + s[1..];
    }
  }

  /**
   * A replacement whose text avoids a set of characters leaves none of them
   * behind, if the pattern was the only one of them in the input.
   */
  lemma {:induction false} ReplaceAllAvoids(s: string, c: char, rep: string, bad: set<char>)
    requires forall k :: 0 <= k < |s| ==> s[k] == c || s[k] !in bad
    requires forall k :: 0 <= k < |rep| ==> rep[k] !in bad
    ensures forall k :: 0 <= k < |ReplaceAll(s, c, rep)| ==> ReplaceAll(s, c, rep)[k] !in bad
    decreases |s|
  {
    if s != [] {
      ReplaceAllAvoids(s[1..], c, rep, bad);
      var h, t := if s[0] == c then rep else [s[0]], ReplaceAll(s[1..], c, rep);
      forall k | 0 <= k < |h + t| ensures (h + t)[k] !in bad {
        if k >= |h| {
          assert (h + t)[k] == t[k - |h|];
        }
      }
    }
  }

  /** `escapeAttr` output is safe too, and holds no line feed. */
  lemma EscapeAttrSafe(s: string)
    ensures forall k :: 0 <= k < |EscapeAttr(s)| ==> EscapeAttr(s)[k] !in {'<', '>', '"', '\'', '\n'}
  {
    EscapeHtmlSafe(s);
    ReplaceAllAvoids(EscapeHtml(s), '\n', " ", {'<', '>', '"', '\'', '\n'});
  }
}
