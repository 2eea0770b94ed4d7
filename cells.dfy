/**
 * The per-cell work of the extractor on the "How to obtain" cell:
 * `cell_links` (absolute anchor hrefs, de-duplicated in first-seen
 * order) and the string post-processing at the end of
 * `sanitize_td_keep_anchors`. The DOM work before them (finding the
 * anchors, unwrapping every tag but `a` and `br`, serialising the cell)
 * is done by the HTML library and is an input here.
 */
module CellSanitizer {
  import opened Text

  ghost predicate NoDuplicates(s: seq<string>) {
    forall i, j :: 0 <= i < j < |s| ==> s[i] != s[j]
  }

  /** The position of the first occurrence of `x` in `s`. */
  function FirstIndex(s: seq<string>, x: string): (k: nat)
    requires x in s
    ensures k < |s| && s[k] == x
    ensures forall j :: 0 <= j < k ==> s[j] != x
  {
    if s[0] == x then 0 else 1 + FirstIndex(s[1..], x)
  }

  /**
   * The de-duplicated list, built the way `cell_links` builds it: walk
   * the list and append each element not seen before.
   */
  function Dedup(s: seq<string>): (r: seq<string>)
    ensures NoDuplicates(r)
    ensures forall x :: x in r <==> x in s
    ensures |r| <= |s|
  {
    if s == [] then []
    else
      var d := Dedup(s[..|s| - 1]);
      if s[|s| - 1] in d then d else d + [s[|s| - 1]]
  }

  /** Each element of the de-duplicated list sits at the rank of its first occurrence. */
  lemma {:induction false} DedupFirstSeenOrder(s: seq<string>)
    ensures forall i, j :: 0 <= i < j < |Dedup(s)| ==> FirstIndex(s, Dedup(s)[i]) < FirstIndex(s, Dedup(s)[j])
  {
    if s != [] {
      var p := s[..|s| - 1];
      var x := s[|s| - 1];
      DedupFirstSeenOrder(p);
      assert p + [x] == s;
      forall y | y in p ensures FirstIndex(s, y) == FirstIndex(p, y) {
        FirstIndexOfPrefix(p, x, y);
      }
      if x !in Dedup(p) {
        DedupAppendOrder(p, x);
      }
    }
  }

  /** Appending an element not seen before puts it after all earlier first occurrences. */
  lemma DedupAppendOrder(p: seq<string>, x: string)
    requires x !in Dedup(p)
    requires forall i, j :: 0 <= i < j < |Dedup(p)| ==> FirstIndex(p, Dedup(p)[i]) < FirstIndex(p, Dedup(p)[j])
    requires forall y :: y in p ==> FirstIndex(p + [x], y) == FirstIndex(p, y)
    ensures var r := Dedup(p) + [x];
      forall i, j :: 0 <= i < j < |r| ==> FirstIndex(p + [x], r[i]) < FirstIndex(p + [x], r[j])
  {
    var s := p + [x];
    var d := Dedup(p);
    var r := d + [x];
    assert x !in p;
    assert FirstIndex(s, x) == |p| by {
      assert forall j :: 0 <= j < |p| ==> s[j] == p[j];
    }
    forall i, j | 0 <= i < j < |r| ensures FirstIndex(s, r[i]) < FirstIndex(s, r[j]) {
      assert r[i] == d[i] && d[i] in p;
      if j < |d| {
        assert r[j] == d[j] && d[j] in p;
      } else {
        assert r[j] == x;
      }
    }
  }

  lemma FirstIndexOfPrefix(p: seq<string>, x: string, y: string)
    requires y in p
    ensures FirstIndex(p + [x], y) == FirstIndex(p, y)
  {
    var k := FirstIndex(p, y);
    var k' := FirstIndex(p + [x], y);
    assert (p + [x])[k] == y;
    assert k' <= k;
    assert p[k'] == y;
  }

  /** A list without duplicates is its own de-duplication; so de-duplicating twice is de-duplicating once. */
  lemma {:induction false} DedupOfDistinct(s: seq<string>)
    requires NoDuplicates(s)
    ensures Dedup(s) == s
  {
    if s != [] {
      var p := s[..|s| - 1];
      assert NoDuplicates(p);
      DedupOfDistinct(p);
      assert s[|s| - 1] !in p;
      assert p + [s[|s| - 1]] == s;
    }
  }

  /**
   * `cell_links`: resolve every anchor href against the site (`resolve`
   * stands for `urljoin(BASE, _)`), then drop repeats, keeping the first.
   */
  method CellLinks(hrefs: seq<string>, resolve: string -> string) returns (out: seq<string>)
    ensures out == Dedup(Resolved(hrefs, resolve))
    ensures |out| <= |hrefs|
    ensures NoDuplicates(out)
    ensures forall h :: h in out <==> exists k :: 0 <= k < |hrefs| && resolve(hrefs[k]) == h
    ensures forall i, j :: 0 <= i < j < |out| ==>
      FirstIndex(Resolved(hrefs, resolve), out[i]) < FirstIndex(Resolved(hrefs, resolve), out[j])
  {
    var links: seq<string> := [];
    for i := 0 to |hrefs|
      invariant |links| == i
      invariant forall k :: 0 <= k < i ==> links[k] == resolve(hrefs[k])
    {
      links := links + [resolve(hrefs[i])];
    }
    assert links == Resolved(hrefs, resolve);
    var seen: set<string> := {};
    out := [];
    for i := 0 to |links|
      invariant out == Dedup(links[..i])
      invariant seen == set h | h in out
    {
      assert links[..i + 1][..i] == links[..i];
      if links[i] !in seen {
        seen := seen + {links[i]};
        out := out + [links[i]];
      }
    }
    assert links[..|links|] == links;
    DedupFirstSeenOrder(links);
    forall h ensures h in out <==> exists k :: 0 <= k < |hrefs| && resolve(hrefs[k]) == h {
      if h in out {
        var k :| 0 <= k < |links| && links[k] == h;
      }
    }
  }

  /** The hrefs after resolution, in anchor order. */
  function Resolved(hrefs: seq<string>, resolve: string -> string): (r: seq<string>)
    ensures |r| == |hrefs| && forall k :: 0 <= k < |hrefs| ==> r[k] == resolve(hrefs[k])
  {
    seq(|hrefs|, k requires 0 <= k < |hrefs| => resolve(hrefs[k]))
  }

  /**
   * The tail of `sanitize_td_keep_anchors` on the serialised cell:
   * newlines become spaces, the ends are stripped, then runs of two or
   * more whitespace characters become one space.
   */
  function SanitizeTail(html: string): (r: string)
    ensures '\n' !in r
    ensures NoEdgeWs(r) && NoAdjacentWs(r)
    ensures |r| <= |html|
  {
    var s1 := ReplaceAll(html, "\n", " ");
    NewlinesReplaced(html);
    var s2 := Strip(s1);
    StripKeepsChars(s1, '\n');
    CollapseLongRunsOfStripped(s2);
    CollapseLongRuns(s2)
  }

  /** Collapsing long runs in a stripped text without newlines keeps it stripped and without newlines. */
  lemma CollapseLongRunsOfStripped(s: string)
    requires '\n' !in s && NoEdgeWs(s)
    ensures var r := CollapseLongRuns(s); '\n' !in r && NoEdgeWs(r) && NoAdjacentWs(r)
  {
    CollapseLongRunsShape(s);
  }

  /** `s.replace("\n", " ")` leaves no newline and does not lengthen the text. */
  lemma NewlinesReplaced(s: string)
    ensures '\n' !in ReplaceAll(s, "\n", " ") && |ReplaceAll(s, "\n", " ")| <= |s|
  {
    var pat, rep := "\n", " ";
    assert |pat| == 1 && pat[0] == '\n' && pat[0] !in rep;
  }

  /** Stripping a text without `c` leaves none. */
  lemma StripKeepsChars(s: string, c: char)
    requires c !in s
    ensures c !in Strip(s)
  {
    var k := StripIsSlice(s);
  }

  /** Replacing newlines by spaces keeps the non-whitespace text. */
  lemma {:induction false} NewlinesKeepText(s: string)
    ensures NonWs(ReplaceChar(s, '\n', " ")) == NonWs(s)
  {
    if s != [] {
      NewlinesKeepText(s[1..]);
      NonWsConcat(if s[0] == '\n' then " " else [s[0]], ReplaceChar(s[1..], '\n', " "));
    }
  }

  /** The sanitiser only changes whitespace: the text of the cell survives, in order. */
  lemma SanitizeTailKeepsText(html: string)
    ensures NonWs(SanitizeTail(html)) == NonWs(html)
  {
    var s1 := ReplaceAll(html, "\n", " ");
    ReplaceAllSingle(html, '\n', " ");
    NewlinesKeepText(html);
    StripSpec(s1);
    CollapseLongRunsNonWs(Strip(s1));
  }

  /**
   * The sanitiser leaves exactly the strings without newlines, edge
   * whitespace and neighbouring whitespace unchanged; in particular a lone
   * tab between words stays a tab.
   */
  lemma SanitizeTailFixed(html: string)
    ensures SanitizeTail(html) == html <==> '\n' !in html && NoEdgeWs(html) && NoAdjacentWs(html)
  {
    if '\n' !in html && NoEdgeWs(html) && NoAdjacentWs(html) {
      ReplaceAllSingle(html, '\n', " ");
      ReplaceCharAbsent(html, '\n', " ");
      StripNoEdge(html);
      CollapseLongRunsFixed(html);
    }
  }

  /** `s.replace("\n", " ")` changes only the newlines, each into a space, in place. */
  lemma {:induction false} NewlinesCharwise(s: string)
    ensures |ReplaceChar(s, '\n', " ")| == |s|
    ensures forall i :: 0 <= i < |s| ==>
      ReplaceChar(s, '\n', " ")[i] == (if s[i] == '\n' then ' ' else s[i])
  {
    if s != [] {
      NewlinesCharwise(s[1..]);
      var h := if s[0] == '\n' then " " else [s[0]];
      var t := ReplaceChar(s[1..], '\n', " ");
      assert ReplaceChar(s, '\n', " ") == h + t;
      forall i | 0 <= i < |s|
        ensures (h + t)[i] == (if s[i] == '\n' then ' ' else s[i])
      {
        if i > 0 {
          assert (h + t)[i] == t[i - 1] && s[i] == s[1..][i - 1];
        }
      }
    }
  }

  lemma NewlinesKeepWordEnd(a: string)
    requires a != [] && !IsWs(a[|a| - 1])
    ensures var n := ReplaceChar(a, '\n', " "); n != [] && !IsWs(n[|n| - 1])
  {
    NewlinesCharwise(a);
  }

  lemma NewlinesKeepWordStart(b: string)
    requires b != [] && !IsWs(b[0])
    ensures var n := ReplaceChar(b, '\n', " "); n != [] && !IsWs(n[0])
  {
    NewlinesCharwise(b);
  }

  lemma NewlinesKeepRun(w: string)
    requires AllWs(w)
    ensures var n := ReplaceChar(w, '\n', " "); |n| == |w| && AllWs(n)
  {
    NewlinesCharwise(w);
  }

  lemma NewlinesOfOne(c: char)
    ensures ReplaceChar([c], '\n', " ") == [if c == '\n' then ' ' else c]
  {
    assert [c][1..] == [];
  }

  /** The sanitiser, with its newline replacement stated character by character. */
  lemma SanitizeTailUnfold(html: string)
    ensures SanitizeTail(html) == CollapseLongRuns(Strip(ReplaceChar(html, '\n', " ")))
  {
    assert "\n" == ['\n'];
    ReplaceAllSingle(html, '\n', " ");
  }

  lemma NewlinesConcat3(a: string, m: string, b: string)
    ensures ReplaceChar(a + m + b, '\n', " ")
      == ReplaceChar(a, '\n', " ") + ReplaceChar(m, '\n', " ") + ReplaceChar(b, '\n', " ")
  {
    ReplaceCharConcat(a + m, b, '\n', " ");
    ReplaceCharConcat(a, m, '\n', " ");
  }

  /** The stripped, newline-free form of a string that ends with a word still ends with it. */
  lemma CleanWordEnd(a: string)
    requires a != [] && !IsWs(a[|a| - 1])
    ensures var l := Strip(ReplaceChar(a, '\n', " ")); l != [] && !IsWs(l[|l| - 1])
  {
    NewlinesKeepWordEnd(a);
    StripOfWordEnd(ReplaceChar(a, '\n', " "));
  }

  /** The stripped, newline-free form of a string that starts with a word still starts with it. */
  lemma CleanWordStart(b: string)
    requires b != [] && !IsWs(b[0])
    ensures var r := Strip(ReplaceChar(b, '\n', " ")); r != [] && !IsWs(r[0])
  {
    NewlinesKeepWordStart(b);
    StripOfWordStart(ReplaceChar(b, '\n', " "));
  }

  /** Stripping the newline-free `a + m + b` strips only the outer ends. */
  lemma CleanAround(a: string, m: string, b: string)
    requires a != [] && !IsWs(a[|a| - 1])
    requires b != [] && !IsWs(b[0])
    ensures Strip(ReplaceChar(a + m + b, '\n', " "))
      == Strip(ReplaceChar(a, '\n', " ")) + ReplaceChar(m, '\n', " ") + Strip(ReplaceChar(b, '\n', " "))
  {
    NewlinesConcat3(a, m, b);
    NewlinesKeepWordEnd(a);
    NewlinesKeepWordStart(b);
    StripAround(ReplaceChar(a, '\n', " "), ReplaceChar(m, '\n', " "), ReplaceChar(b, '\n', " "));
  }

  /** Sanitising `a + m + b`, with a word at the inner end of `a` and of `b`, strips only the outer ends. */
  lemma SanitizeTailAround(a: string, m: string, b: string)
    requires a != [] && !IsWs(a[|a| - 1])
    requires b != [] && !IsWs(b[0])
    ensures var l, r := Strip(ReplaceChar(a, '\n', " ")), Strip(ReplaceChar(b, '\n', " "));
      && SanitizeTail(a + m + b) == CollapseLongRuns(l + ReplaceChar(m, '\n', " ") + r)
      && l != [] && !IsWs(l[|l| - 1])
      && r != [] && !IsWs(r[0])
  {
    SanitizeTailUnfold(a + m + b);
    CleanAround(a, m, b);
    CleanWordEnd(a);
    CleanWordStart(b);
  }

  /** A run of two or more whitespace characters between words, newlines included, becomes one space. */
  lemma SanitizeTailBetweenWords(a: string, w: string, b: string)
    requires a != [] && !IsWs(a[|a| - 1])
    requires |w| >= 2 && AllWs(w)
    requires b != [] && !IsWs(b[0])
    ensures SanitizeTail(a + w + b) == SanitizeTail(a) + " " + SanitizeTail(b)
  {
    var l, nw, r := Strip(ReplaceChar(a, '\n', " ")), ReplaceChar(w, '\n', " "), Strip(ReplaceChar(b, '\n', " "));
    SanitizeTailAround(a, w, b);
    assert SanitizeTail(a + w + b) == CollapseLongRuns(l + nw + r);
    NewlinesKeepRun(w);
    CollapseLongRunsBetweenWords(l, nw, r);
    assert CollapseLongRuns(l + nw + r) == CollapseLongRuns(l) + " " + CollapseLongRuns(r);
    SanitizeTailUnfold(a);
    SanitizeTailUnfold(b);
  }

  /**
   * A single character between words is kept, except that a newline
   * becomes a space: a lone tab stays a tab.
   */
  lemma SanitizeTailKeepsLone(a: string, c: char, b: string)
    requires a != [] && !IsWs(a[|a| - 1])
    requires b != [] && !IsWs(b[0])
    ensures SanitizeTail(a + [c] + b) == SanitizeTail(a) + [if c == '\n' then ' ' else c] + SanitizeTail(b)
  {
    SanitizeTailAround(a, [c], b);
    NewlinesOfOne(c);
    var l, r := Strip(ReplaceChar(a, '\n', " ")), Strip(ReplaceChar(b, '\n', " "));
    CollapseLongRunsKeepsLone(l, if c == '\n' then ' ' else c, r);
    SanitizeTailUnfold(a);
    SanitizeTailUnfold(b);
  }

  /** Sanitising twice is sanitising once. */
  lemma SanitizeTailIdempotent(html: string)
    ensures SanitizeTail(SanitizeTail(html)) == SanitizeTail(html)
  {
    SanitizeTailFixed(SanitizeTail(html));
  }
}
