/**
 * `escape`: the HTML escaping applied to the Title, Title NPC and Enemy
 * Tag cells of the report page. Five `str.replace` calls, `&` first.
 */
module HtmlEscape {
  import opened Text

  function Escape(s: string): (r: string)
    ensures '<' !in r && '>' !in r && '"' !in r && '\'' !in r
  {
    var s1 := ReplaceAll(s, "&", "&amp;");
    var s2 := ReplaceAll(s1, "<", "&lt;");
    var s3 := ReplaceAll(s2, ">", "&gt;");
    var s4 := ReplaceAll(s3, "\"", "&quot;");
    assert '<' !in s4 && '>' !in s4;
    ReplaceAll(s4, "'", "&#39;")
  }

  /** The entity that replaces one character (the character itself when it needs none). */
  function EscapeChar(c: char): (r: string)
    ensures r == [c] <==> c !in "&<>\"'"
  {
    match c
    case '&' => "&amp;"
    case '<' => "&lt;"
    case '>' => "&gt;"
    case '"' => "&quot;"
    case '\'' => "&#39;"
    case _ => [c]
  }

  /** The character-by-character reference for `Escape`. */
  function EscapeEach(s: string): string {
    if s == [] then [] else EscapeChar(s[0]) + EscapeEach(s[1..])
  }

  /** The five entities `Escape` produces. */
  predicate StartsWithEntity(s: string) {
    StartsWith(s, "&amp;") || StartsWith(s, "&lt;") || StartsWith(s, "&gt;")
    || StartsWith(s, "&quot;") || StartsWith(s, "&#39;")
  }

  /** Decodes the five entities, left to right; everything else is copied. */
  function Unescape(s: string): string
    decreases |s|
  {
    if s == [] then []
    else if StartsWith(s, "&amp;") then "&" + Unescape(s[5..])
    else if StartsWith(s, "&lt;") then "<" + Unescape(s[4..])
    else if StartsWith(s, "&gt;") then ">" + Unescape(s[4..])
    else if StartsWith(s, "&quot;") then "\"" + Unescape(s[6..])
    else if StartsWith(s, "&#39;") then "'" + Unescape(s[5..])
    else [s[0]] + Unescape(s[1..])
  }

  /** Escaping one character through the chain of replacements gives its entity. */
  lemma EscapeOne(c: char)
    ensures Escape([c]) == EscapeChar(c)
  {
    var e := EscapeChar(c);
    ReplaceAllSingle([c], '&', "&amp;");
    ReplaceAllSingle(ReplaceChar([c], '&', "&amp;"), '<', "&lt;");
    assert ReplaceChar([c], '&', "&amp;") == (if c == '&' then "&amp;" else [c]);
    var s1 := if c == '&' then "&amp;" else [c];
    assert ReplaceAll([c], "&", "&amp;") == s1;
    Rest(s1, '<', "&lt;", if c == '<' then "&lt;" else s1);
    var s2 := if c == '<' then "&lt;" else s1;
    Rest(s2, '>', "&gt;", if c == '>' then "&gt;" else s2);
    var s3 := if c == '>' then "&gt;" else s2;
    Rest(s3, '"', "&quot;", if c == '"' then "&quot;" else s3);
    var s4 := if c == '"' then "&quot;" else s3;
    Rest(s4, '\'', "&#39;", if c == '\'' then "&#39;" else s4);
  }

  /** One later step of the chain on an already-escaped one-character string. */
  lemma Rest(s: string, c: char, rep: string, expected: string)
    requires s == [c] || c !in s
    requires expected == if s == [c] then rep else s
    ensures ReplaceAll(s, [c], rep) == expected
  {
    ReplaceAllSingle(s, c, rep);
    if s == [c] {
      assert ReplaceChar(s, c, rep) == rep + ReplaceChar([], c, rep);
    } else {
      ReplaceCharAbsent(s, c, rep);
    }
  }

  /** `Escape` rewrites every character on its own. */
  lemma {:induction false} EscapeIsCharwise(s: string)
    ensures Escape(s) == EscapeEach(s)
  {
    if s != [] {
      EscapeIsCharwise(s[1..]);
      EscapeSplits([s[0]], s[1..]);
      assert [s[0]] + s[1..] == s;
      EscapeOne(s[0]);
    }
  }

  /** Escaping distributes over concatenation. */
  lemma EscapeSplits(a: string, b: string)
    ensures Escape(a + b) == Escape(a) + Escape(b)
  {
    ReplaceAllSingle(a + b, '&', "&amp;");
    ReplaceAllSingle(a, '&', "&amp;");
    ReplaceAllSingle(b, '&', "&amp;");
    ReplaceCharConcat(a, b, '&', "&amp;");
    var a1, b1 := ReplaceChar(a, '&', "&amp;"), ReplaceChar(b, '&', "&amp;");
    ReplaceAllSingle(a1 + b1, '<', "&lt;");
    ReplaceAllSingle(a1, '<', "&lt;");
    ReplaceAllSingle(b1, '<', "&lt;");
    ReplaceCharConcat(a1, b1, '<', "&lt;");
    var a2, b2 := ReplaceChar(a1, '<', "&lt;"), ReplaceChar(b1, '<', "&lt;");
    ReplaceAllSingle(a2 + b2, '>', "&gt;");
    ReplaceAllSingle(a2, '>', "&gt;");
    ReplaceAllSingle(b2, '>', "&gt;");
    ReplaceCharConcat(a2, b2, '>', "&gt;");
    var a3, b3 := ReplaceChar(a2, '>', "&gt;"), ReplaceChar(b2, '>', "&gt;");
    ReplaceAllSingle(a3 + b3, '"', "&quot;");
    ReplaceAllSingle(a3, '"', "&quot;");
    ReplaceAllSingle(b3, '"', "&quot;");
    ReplaceCharConcat(a3, b3, '"', "&quot;");
    var a4, b4 := ReplaceChar(a3, '"', "&quot;"), ReplaceChar(b3, '"', "&quot;");
    ReplaceAllSingle(a4 + b4, '\'', "&#39;");
    ReplaceAllSingle(a4, '\'', "&#39;");
    ReplaceAllSingle(b4, '\'', "&#39;");
    ReplaceCharConcat(a4, b4, '\'', "&#39;");
  }

  /** Decoding an escaped character followed by anything gives the character back first. */
  lemma UnescapeChar(c: char, rest: string)
    ensures Unescape(EscapeChar(c) + rest) == [c] + Unescape(rest)
  {
    var s := EscapeChar(c) + rest;
    if c == '&' {
      assert s[..5] == "&amp;" && s[5..] == rest;
    } else if c == '<' {
      Differs(s, "&amp;");
      assert s[..4] == "&lt;" && s[4..] == rest;
    } else if c == '>' {
      Differs(s, "&amp;");
      Differs(s, "&lt;");
      assert s[..4] == "&gt;" && s[4..] == rest;
    } else if c == '"' {
      Differs(s, "&amp;");
      Differs(s, "&lt;");
      Differs(s, "&gt;");
      assert s[..6] == "&quot;" && s[6..] == rest;
    } else if c == '\'' {
      Differs(s, "&amp;");
      Differs(s, "&lt;");
      Differs(s, "&gt;");
      Differs(s, "&quot;");
      assert s[..5] == "&#39;" && s[5..] == rest;
    } else {
      Differs(s, "&amp;");
      Differs(s, "&lt;");
      Differs(s, "&gt;");
      Differs(s, "&quot;");
      Differs(s, "&#39;");
      assert s[0] == c && s[1..] == rest;
    }
  }

  /** A string that differs from `e` at its first or second character does not start with `e`. */
  lemma Differs(s: string, e: string)
    requires |e| >= 2 && |s| >= 1
    requires s[0] != e[0] || (|s| >= 2 && s[1] != e[1])
    ensures !StartsWith(s, e)
  {
  }

  /** Decoding the five entities recovers the input exactly. */
  lemma {:induction false} UnescapeEscape(s: string)
    ensures Unescape(Escape(s)) == s
  {
    EscapeIsCharwise(s);
    UnescapeEach(s);
  }

  lemma {:induction false} UnescapeEach(s: string)
    ensures Unescape(EscapeEach(s)) == s
  {
    if s != [] {
      UnescapeChar(s[0], EscapeEach(s[1..]));
      UnescapeEach(s[1..]);
    }
  }

  /** Different strings escape differently. */
  lemma EscapeInjective(a: string, b: string)
    requires Escape(a) == Escape(b)
    ensures a == b
  {
    UnescapeEscape(a);
    UnescapeEscape(b);
  }

  /** Every `&` of an escaped string starts one of the five entities. */
  lemma EscapeAmpersands(s: string)
    ensures forall i :: 0 <= i < |Escape(s)| && Escape(s)[i] == '&' ==> StartsWithEntity(Escape(s)[i..])
  {
    EscapeIsCharwise(s);
    EachAmpersands(s);
  }

  lemma {:induction false} EachAmpersands(s: string)
    ensures forall i :: 0 <= i < |EscapeEach(s)| && EscapeEach(s)[i] == '&' ==> StartsWithEntity(EscapeEach(s)[i..])
  {
    if s != [] {
      EachAmpersands(s[1..]);
      var e, t := EscapeChar(s[0]), EscapeEach(s[1..]);
      var r := e + t;
      forall i | 0 <= i < |r| && r[i] == '&' ensures StartsWithEntity(r[i..]) {
        if i >= |e| {
          assert r[i..] == t[i - |e|..];
        } else {
          assert i == 0 by {
            assert e[i] == '&';
          }
          assert r[..|e|] == e;
        }
      }
    }
  }
}
