/**
 * The Python string primitives the report generator is built from:
 * `str.isspace` (which is also what `\s` matches in a `re` pattern over
 * `str`), `str.strip`, `str.replace`, and the two whitespace-collapsing
 * regular-expression substitutions `re.sub(r"\s+", " ", s)` and
 * `re.sub(r"\s{2,}", " ", s)`.
 */
module Text {

  /** The code points for which Python's `str.isspace()` holds. */
  predicate IsWs(c: char) {
    || ('\t' <= c <= '\r')                // TAB, LF, VT, FF, CR
    || ('\U{1C}' <= c <= '\U{1F}')        // the four information separators
    || c == ' ' || c == '\U{85}' || c == '\U{A0}' || c == '\U{1680}'
    || ('\U{2000}' <= c <= '\U{200A}')    // EN QUAD .. HAIR SPACE
    || c == '\U{2028}' || c == '\U{2029}' || c == '\U{202F}'
    || c == '\U{205F}' || c == '\U{3000}'
  }

  predicate AllWs(s: string) {
    forall i :: 0 <= i < |s| ==> IsWs(s[i])
  }

  /** Neither end of `s` is a whitespace character. */
  predicate NoEdgeWs(s: string) {
    s == [] || (!IsWs(s[0]) && !IsWs(s[|s| - 1]))
  }

  /** No two neighbouring characters of `s` are both whitespace. */
  ghost predicate NoAdjacentWs(s: string) {
    forall i :: 0 <= i < |s| - 1 ==> !(IsWs(s[i]) && IsWs(s[i + 1]))
  }

  /** Every whitespace character of `s` is a plain space. */
  predicate WsIsSpace(s: string) {
    forall i :: 0 <= i < |s| && IsWs(s[i]) ==> s[i] == ' '
  }

  predicate StartsWith(s: string, prefix: string) {
    |prefix| <= |s| && s[..|prefix|] == prefix
  }

  /** The non-whitespace characters of `s`, in order. */
  function NonWs(s: string): (r: string)
    ensures |r| <= |s|
  {
    if s == [] then []
    else (if IsWs(s[0]) then [] else [s[0]]) + NonWs(s[1..])
  }

  lemma {:induction false} NonWsConcat(a: string, b: string)
    ensures NonWs(a + b) == NonWs(a) + NonWs(b)
  {
    if a == [] {
      assert a + b == b;
    } else {
      var head := if IsWs(a[0]) then [] else [a[0]];
      assert (a + b)[0] == a[0] && (a + b)[1..] == a[1..] + b;
      assert NonWs(a + b) == head + NonWs(a[1..] + b);
      NonWsConcat(a[1..], b);
      assert NonWs(a) == head + NonWs(a[1..]);
    }
  }

  lemma {:induction false} NonWsOfAllWs(s: string)
    requires AllWs(s)
    ensures NonWs(s) == []
  {
    if s != [] {
      NonWsOfAllWs(s[1..]);
    }
  }

  lemma {:induction false} NoAdjacentWsSlice(s: string, i: nat, j: nat)
    requires NoAdjacentWs(s) && i <= j <= |s|
    ensures NoAdjacentWs(s[i..j])
  {
    forall k, l | 0 <= k && l == k + 1 && l < j - i ensures !IsWs(s[i..j][k]) || !IsWs(s[i..j][l]) {
      assert s[i..j][k] == s[i + k] && s[i..j][l] == s[i + l];
    }
  }

  lemma {:induction false} WsIsSpaceSlice(s: string, i: nat, j: nat)
    requires WsIsSpace(s) && i <= j <= |s|
    ensures WsIsSpace(s[i..j])
  {
    forall k | 0 <= k < j - i && IsWs(s[i..j][k]) ensures s[i..j][k] == ' ' {
      assert s[i..j][k] == s[i + k];
    }
  }

  // ---------------------------------------------------------------------
  // str.lstrip / str.rstrip / str.strip (no argument: strip whitespace)

  /** `s.lstrip()`: the suffix left after the longest whitespace prefix. */
  function StripLeft(s: string): (r: string)
    ensures |r| <= |s| && r == s[|s| - |r|..]
    ensures AllWs(s[..|s| - |r|])
    ensures r == [] || !IsWs(r[0])
  {
    if s != [] && IsWs(s[0]) then
      var t := StripLeft(s[1..]);
      WsPrefixCons(s, t);
      t
    else s
  }

  /** Left-stripping after a leading whitespace character: the result is still a suffix, after a whitespace prefix. */
  lemma WsPrefixCons(s: string, t: string)
    requires s != [] && IsWs(s[0])
    requires |t| <= |s[1..]| && t == s[1..][|s[1..]| - |t|..] && AllWs(s[1..][..|s[1..]| - |t|])
    ensures t == s[|s| - |t|..] && AllWs(s[..|s| - |t|])
  {
    var k := |s| - |t|;
    assert s[1..][k - 1..] == s[k..];
    forall i | 0 <= i < k ensures IsWs(s[..k][i]) {
      if i > 0 { assert s[..k][i] == s[1..][..k - 1][i - 1]; }
    }
  }

  /** `s.rstrip()`: the prefix left before the longest whitespace suffix. */
  function StripRight(s: string): (r: string)
    ensures |r| <= |s| && r == s[..|r|]
    ensures AllWs(s[|r|..])
    ensures r == [] || !IsWs(r[|r| - 1])
  {
    if s != [] && IsWs(s[|s| - 1]) then
      var p := s[..|s| - 1];
      var t := StripRight(p);
      assert t == s[..|t|] by { assert p[..|t|] == s[..|t|]; }
      assert AllWs(s[|t|..]) by {
        forall i | 0 <= i < |s| - |t| ensures IsWs(s[|t|..][i]) {
          if |t| + i < |s| - 1 { assert s[|t|..][i] == p[|t|..][i]; }
        }
      }
      t
    else s
  }

  /** `s.strip()`: neither end of the result is whitespace. */
  function Strip(s: string): (r: string)
    ensures NoEdgeWs(r) && |r| <= |s|
  {
    var l := StripLeft(s);
    var r := StripRight(l);
    assert r != [] ==> r[0] == l[0];
    r
  }

  /** Stripping keeps exactly the non-whitespace content, in order, and leaves no whitespace at either end. */
  lemma {:induction false} StripSpec(s: string)
    ensures NoEdgeWs(Strip(s))
    ensures NonWs(Strip(s)) == NonWs(s)
    ensures NoAdjacentWs(s) ==> NoAdjacentWs(Strip(s))
    ensures WsIsSpace(s) ==> WsIsSpace(Strip(s))
    ensures forall c :: c in Strip(s) ==> c in s
  {
    StripNonWs(s);
    StripShape(s);
  }

  lemma {:induction false} StripNonWs(s: string)
    ensures NonWs(Strip(s)) == NonWs(s)
  {
    var l := StripLeft(s);
    StripLeftNonWs(s);
    StripRightNonWs(l);
  }

  lemma {:induction false} StripShape(s: string)
    ensures NoAdjacentWs(s) ==> NoAdjacentWs(Strip(s))
    ensures WsIsSpace(s) ==> WsIsSpace(Strip(s))
    ensures forall c :: c in Strip(s) ==> c in s
  {
    var r := Strip(s);
    var k := StripIsSlice(s);
    SliceShape(s, k, k + |r|, r);
  }

  /** The strip of `s` is the slice of `s` that starts at the returned position. */
  lemma {:induction false} StripIsSlice(s: string) returns (k: nat)
    ensures k + |Strip(s)| <= |s| && Strip(s) == s[k..k + |Strip(s)|]
  {
    var l := StripLeft(s);
    k := |s| - |l|;
    SliceOfSuffix(s, k, l, |StripRight(l)|);
  }

  /** A prefix of a suffix is a slice. */
  lemma SliceOfSuffix(s: string, k: nat, l: string, m: nat)
    requires k <= |s| && l == s[k..] && m <= |l|
    ensures l[..m] == s[k..k + m]
  {
  }

  /** Left-stripping keeps the last character, unless everything was whitespace. */
  lemma StripLeftLast(s: string)
    requires s != []
    ensures StripLeft(s) == [] ==> IsWs(s[|s| - 1])
    ensures StripLeft(s) != [] ==> StripLeft(s)[|StripLeft(s)| - 1] == s[|s| - 1]
  {
    var t := StripLeft(s);
    if t == [] {
      assert s[..|s|][|s| - 1] == s[|s| - 1];
    } else {
      assert t[|t| - 1] == s[|s| - 1];
    }
  }

  lemma {:induction false} StripLeftNonWs(s: string)
    ensures NonWs(StripLeft(s)) == NonWs(s)
  {
    var k := |s| - |StripLeft(s)|;
    assert s == s[..k] + s[k..];
    NonWsOfAllWs(s[..k]);
    NonWsConcat(s[..k], s[k..]);
  }

  lemma {:induction false} StripRightNonWs(s: string)
    ensures NonWs(StripRight(s)) == NonWs(s)
  {
    var r := StripRight(s);
    assert s == r + s[|r|..];
    NonWsOfAllWs(s[|r|..]);
    NonWsConcat(r, s[|r|..]);
  }

  /** A slice keeps the whitespace shape of the string it is cut from. */
  lemma {:induction false} SliceShape(s: string, i: nat, j: nat, r: string)
    requires i <= j <= |s| && r == s[i..j]
    ensures NoAdjacentWs(s) ==> NoAdjacentWs(r)
    ensures WsIsSpace(s) ==> WsIsSpace(r)
    ensures forall c :: c in r ==> c in s
  {
    if NoAdjacentWs(s) {
      NoAdjacentWsSlice(s, i, j);
    }
    if WsIsSpace(s) {
      WsIsSpaceSlice(s, i, j);
    }
    forall c | c in r ensures c in s {
      var k :| 0 <= k < j - i && r[k] == c;
      assert s[i + k] == c;
    }
  }

  /** A string with no whitespace at its ends is its own strip. */
  lemma {:induction false} StripNoEdge(s: string)
    requires NoEdgeWs(s)
    ensures Strip(s) == s
  {
  }

  /** Whitespace added around a string does not change its strip. */
  lemma {:induction false} StripIgnoresPadding(pre: string, s: string, post: string)
    requires AllWs(pre) && AllWs(post)
    ensures Strip(pre + s + post) == Strip(s)
  {
    var t := pre + s + post;
    assert t == pre + (s + post);
    StripLeftPadding(pre, s + post);
    assert StripLeft(t) == StripLeft(s + post);
    StripLeftOfPadded(s, post);
    StripRightPadding(StripLeft(s), post);
    assert Strip(t) == StripRight(StripLeft(t));
  }

  lemma {:induction false} StripLeftPadding(pre: string, s: string)
    requires AllWs(pre)
    ensures StripLeft(pre + s) == StripLeft(s)
  {
    if pre != [] {
      assert (pre + s)[1..] == pre[1..] + s;
      StripLeftPadding(pre[1..], s);
    } else {
      assert pre + s == s;
    }
  }

  lemma {:induction false} StripRightPadding(s: string, post: string)
    requires AllWs(post)
    ensures StripRight(s + post) == StripRight(s)
  {
    if post != [] {
      var n := |post| - 1;
      assert (s + post)[..|s + post| - 1] == s + post[..n];
      StripRightPadding(s, post[..n]);
    } else {
      assert s + post == s;
    }
  }

  /** Stripping the left of `s + post` strips the left of `s`, then keeps `post`, unless `s` is all whitespace. */
  lemma {:induction false} StripLeftOfPadded(s: string, post: string)
    requires AllWs(post)
    ensures StripRight(StripLeft(s + post)) == StripRight(StripLeft(s) + post)
  {
    if s == [] {
      assert s + post == post;
      StripLeftPadding(post, []);
      assert post + [] == post;
      StripRightPadding([], post);
      StripRightPadding([], StripLeft(post));
      assert [] + post == post;
      assert [] + StripLeft(post) == StripLeft(post);
    } else if IsWs(s[0]) {
      assert (s + post)[1..] == s[1..] + post;
      StripLeftOfPadded(s[1..], post);
    }
  }

  // ---------------------------------------------------------------------
  // str.replace

  /** Some occurrence of the non-empty `pat` starts at `i` in `s`. */
  predicate OccursAt(s: string, pat: string, i: int) {
    0 <= i && i + |pat| <= |s| && s[i..i + |pat|] == pat
  }

  /**
   * `s.replace(pat, rep)`: one left-to-right pass, replacing each
   * non-overlapping occurrence of `pat`; the text produced by a
   * replacement is not scanned again.
   */
  function ReplaceAll(s: string, pat: string, rep: string): (r: string)
    requires |pat| > 0
    ensures forall c :: c in r ==> c in s || c in rep
    ensures |pat| == 1 && pat[0] !in rep ==> pat[0] !in r
    ensures |rep| <= |pat| ==> |r| <= |s|
    decreases |s|
  {
    if |s| < |pat| then s
    else if s[..|pat|] == pat then rep + ReplaceAll(s[|pat|..], pat, rep)
    else [s[0]] + ReplaceAll(s[1..], pat, rep)
  }

  /** A pattern that does not occur leaves the string unchanged. */
  lemma {:induction false} ReplaceAllAbsent(s: string, pat: string, rep: string)
    requires |pat| > 0
    requires forall i :: !OccursAt(s, pat, i)
    ensures ReplaceAll(s, pat, rep) == s
    decreases |s|
  {
    if |s| >= |pat| {
      assert !OccursAt(s, pat, 0);
      forall i ensures !OccursAt(s[1..], pat, i) {
        if OccursAt(s[1..], pat, i) {
          assert s[1..][i..i + |pat|] == s[i + 1..i + 1 + |pat|];
          assert OccursAt(s, pat, i + 1);
        }
      }
      ReplaceAllAbsent(s[1..], pat, rep);
    }
  }

  /** A pattern whose first character does not occur leaves the string unchanged. */
  lemma {:induction false} ReplaceAllAbsentHead(s: string, pat: string, rep: string)
    requires |pat| > 0 && pat[0] !in s
    ensures ReplaceAll(s, pat, rep) == s
    decreases |s|
  {
    if |s| >= |pat| {
      assert s[..|pat|][0] != pat[0];
      ReplaceAllAbsentHead(s[1..], pat, rep);
    }
  }

  /**
   * `str.replace` scans from the left: the first occurrence of `pat` is
   * replaced, and the scan resumes right after it.
   */
  lemma {:induction false} ReplaceAllLeftmost(x: string, pat: string, y: string, rep: string)
    requires |pat| > 0
    requires forall i :: 0 <= i < |x| ==> !OccursAt(x + pat + y, pat, i)
    ensures ReplaceAll(x + pat + y, pat, rep) == x + rep + ReplaceAll(y, pat, rep)
    decreases |x|
  {
    var s := x + pat + y;
    if x == [] {
      assert s[..|pat|] == pat && s[|pat|..] == y;
      assert x + rep == rep;
    } else {
      assert !OccursAt(s, pat, 0);
      var x' := x[1..];
      assert s[0] == x[0] && s[1..] == x' + pat + y;
      forall i | 0 <= i < |x'| ensures !OccursAt(x' + pat + y, pat, i) {
        if OccursAt(s[1..], pat, i) {
          assert s[1..][i..i + |pat|] == s[i + 1..i + 1 + |pat|];
          assert OccursAt(s, pat, i + 1);
        }
      }
      ReplaceAllLeftmost(x', pat, y, rep);
      var t := ReplaceAll(y, pat, rep);
      assert ReplaceAll(s, pat, rep) == [x[0]] + (x' + rep + t);
      assert [x[0]] + (x' + rep + t) == x + rep + t;
    }
  }

  /**
   * A character that does not occur in `pat` is a barrier for
   * `str.replace`: no occurrence can span it, so each side is rewritten on
   * its own.
   */
  lemma {:induction false} ReplaceAllBarrier(p: string, c: char, q: string, pat: string, rep: string)
    requires |pat| > 0 && c !in pat
    ensures ReplaceAll(p + [c] + q, pat, rep) == ReplaceAll(p, pat, rep) + [c] + ReplaceAll(q, pat, rep)
    decreases |p|
  {
    var s := p + [c] + q;
    if |s| < |pat| {
      assert ReplaceAll(p, pat, rep) == p && ReplaceAll(q, pat, rep) == q;
    } else if p == [] {
      assert s[..|pat|][0] == c;
      assert s[1..] == q;
    } else if s[..|pat|] == pat {
      BarrierMatch(p, c, q, pat);
      ReplaceAllBarrier(p[|pat|..], c, q, pat, rep);
      BarrierMatchStep(p, c, q, pat, rep);
    } else {
      ReplaceAllBarrier(p[1..], c, q, pat, rep);
      BarrierSkipStep(p, c, q, pat, rep);
    }
  }

  // The two recursive cases of `ReplaceAllBarrier`, each given the result
  // for the rest of `p`, are stated one per lemma to keep each proof small.

  /** An occurrence at the front of `p + [c] + q` lies inside `p` when `c` is not in the pattern. */
  lemma BarrierMatch(p: string, c: char, q: string, pat: string)
    requires |pat| > 0 && c !in pat
    requires |pat| <= |p + [c] + q| && (p + [c] + q)[..|pat|] == pat
    ensures |pat| <= |p| && p[..|pat|] == pat
  {
    var s := p + [c] + q;
    assert forall i :: 0 <= i < |pat| ==> s[i] == pat[i];
    assert s[|p|] == c;
    assert |pat| <= |p|;
    assert p[..|pat|] == s[..|pat|];
  }

  // The step of ReplaceAllBarrier where the pattern matches at the front of p.
  lemma BarrierMatchStep(p: string, c: char, q: string, pat: string, rep: string)
    requires |pat| > 0 && |pat| <= |p| && p[..|pat|] == pat
    requires ReplaceAll(p[|pat|..] + [c] + q, pat, rep) == ReplaceAll(p[|pat|..], pat, rep) + [c] + ReplaceAll(q, pat, rep)
    ensures ReplaceAll(p + [c] + q, pat, rep) == ReplaceAll(p, pat, rep) + [c] + ReplaceAll(q, pat, rep)
  {
    var s := p + [c] + q;
    var p' := p[|pat|..];
    assert s[..|pat|] == pat;
    assert s[|pat|..] == p' + [c] + q;
    assert ReplaceAll(s, pat, rep) == rep + ReplaceAll(p' + [c] + q, pat, rep);
    assert ReplaceAll(p, pat, rep) == rep + ReplaceAll(p', pat, rep);
    Regroup(rep, ReplaceAll(p', pat, rep), [c] + ReplaceAll(q, pat, rep));
  }

  // The step of ReplaceAllBarrier where the front character of p is kept.
  lemma BarrierSkipStep(p: string, c: char, q: string, pat: string, rep: string)
    requires |pat| > 0 && p != []
    requires |pat| <= |p + [c] + q| && (p + [c] + q)[..|pat|] != pat
    requires ReplaceAll(p[1..] + [c] + q, pat, rep) == ReplaceAll(p[1..], pat, rep) + [c] + ReplaceAll(q, pat, rep)
    ensures ReplaceAll(p + [c] + q, pat, rep) == ReplaceAll(p, pat, rep) + [c] + ReplaceAll(q, pat, rep)
  {
    SkipWhole(p, c, q, pat, rep);
    SkipLeft(p, c, q, pat, rep);
    Regroup([p[0]], ReplaceAll(p[1..], pat, rep), [c] + ReplaceAll(q, pat, rep));
  }

  lemma SkipWhole(p: string, c: char, q: string, pat: string, rep: string)
    requires |pat| > 0 && p != []
    requires |pat| <= |p + [c] + q| && (p + [c] + q)[..|pat|] != pat
    ensures ReplaceAll(p + [c] + q, pat, rep) == [p[0]] + ReplaceAll(p[1..] + [c] + q, pat, rep)
  {
    var s := p + [c] + q;
    assert s[0] == p[0] && s[1..] == p[1..] + [c] + q;
  }

  lemma SkipLeft(p: string, c: char, q: string, pat: string, rep: string)
    requires |pat| > 0 && p != []
    requires |pat| <= |p + [c] + q| && (p + [c] + q)[..|pat|] != pat
    ensures ReplaceAll(p, pat, rep) == [p[0]] + ReplaceAll(p[1..], pat, rep)
  {
    if |p| >= |pat| {
      assert p[..|pat|] == (p + [c] + q)[..|pat|];
    } else {
      assert ReplaceAll(p[1..], pat, rep) == p[1..];
      assert p == [p[0]] + p[1..];
    }
  }

  /** A prefix of characters absent from `pat` passes through `str.replace` unchanged. */
  lemma {:induction false} ReplaceAllKeepsPrefix(w: string, q: string, pat: string, rep: string)
    requires |pat| > 0 && forall i :: 0 <= i < |w| ==> w[i] !in pat
    ensures ReplaceAll(w + q, pat, rep) == w + ReplaceAll(q, pat, rep)
    decreases |w|
  {
    if w == [] {
      assert w + q == q;
    } else {
      assert w + q == [] + [w[0]] + (w[1..] + q);
      ReplaceAllBarrier([], w[0], w[1..] + q, pat, rep);
      ReplaceAllKeepsPrefix(w[1..], q, pat, rep);
      assert ReplaceAll([], pat, rep) == [];
      assert w == [w[0]] + w[1..];
    }
  }

  /** A non-empty gap of characters absent from `pat` splits `str.replace` into its two sides. */
  lemma ReplaceAllAroundGap(p: string, w: string, q: string, pat: string, rep: string)
    requires |pat| > 0 && w != [] && forall i :: 0 <= i < |w| ==> w[i] !in pat
    ensures ReplaceAll(p + w + q, pat, rep) == ReplaceAll(p, pat, rep) + w + ReplaceAll(q, pat, rep)
  {
    var t := w[1..] + q;
    assert p + w + q == p + [w[0]] + t;
    ReplaceAllBarrier(p, w[0], t, pat, rep);
    ReplaceAllKeepsPrefix(w[1..], q, pat, rep);
    GapRegroup(ReplaceAll(p, pat, rep), w, ReplaceAll(q, pat, rep));
  }

  lemma GapRegroup(a: string, w: string, b: string)
    requires w != []
    ensures a + [w[0]] + (w[1..] + b) == a + w + b
  {
    assert w == [w[0]] + w[1..];
  }

  /** The character-wise reference for replacing a single character. */
  function ReplaceChar(s: string, c: char, rep: string): (r: string)
  {
    if s == [] then []
    else (if s[0] == c then rep else [s[0]]) + ReplaceChar(s[1..], c, rep)
  }

  /** With a one-character pattern, `str.replace` rewrites each character on its own. */
  lemma {:induction false} ReplaceAllSingle(s: string, c: char, rep: string)
    ensures ReplaceAll(s, [c], rep) == ReplaceChar(s, c, rep)
  {
    if s != [] {
      ReplaceAllSingle(s[1..], c, rep);
    }
  }

  lemma {:induction false} ReplaceCharConcat(a: string, b: string, c: char, rep: string)
    ensures ReplaceChar(a + b, c, rep) == ReplaceChar(a, c, rep) + ReplaceChar(b, c, rep)
  {
    if a == [] {
      assert a + b == b;
    } else {
      assert (a + b)[1..] == a[1..] + b;
      ReplaceCharConcat(a[1..], b, c, rep);
    }
  }

  lemma {:induction false} ReplaceCharAbsent(s: string, c: char, rep: string)
    requires c !in s
    ensures ReplaceChar(s, c, rep) == s
  {
    if s != [] {
      ReplaceCharAbsent(s[1..], c, rep);
    }
  }

  // ---------------------------------------------------------------------
  // re.sub(r"\s+", " ", s) and re.sub(r"\s{2,}", " ", s)

  /** `re.sub(r"\s+", " ", s)`: every maximal whitespace run becomes one space. */
  function CollapseRuns(s: string): (r: string)
    ensures r == [] <==> s == []
    ensures r != [] ==> (IsWs(r[0]) <==> IsWs(s[0]))
    ensures |r| <= |s|
    decreases |s|
  {
    if s == [] then []
    else if IsWs(s[0]) then StripLeftShorter(s); " " + CollapseRuns(StripLeft(s))
    else [s[0]] + CollapseRuns(s[1..])
  }

  /** `re.sub(r"\s+", " ", s)` keeps a last character that is not whitespace. */
  lemma {:induction false} CollapseRunsKeepsLast(s: string)
    requires s != [] && !IsWs(s[|s| - 1])
    ensures CollapseRuns(s) != [] && CollapseRuns(s)[|CollapseRuns(s)| - 1] == s[|s| - 1]
    decreases |s|
  {
    if IsWs(s[0]) {
      StripLeftShorter(s);
      var t := StripLeft(s);
      StripLeftLast(s);
      assert t != [] && t[|t| - 1] == s[|s| - 1];
      CollapseRunsKeepsLast(t);
      var rest := CollapseRuns(t);
      assert CollapseRuns(s) == " " + rest;
      assert (" " + rest)[|rest|] == rest[|rest| - 1];
    } else if |s| >= 2 {
      assert s[1..][|s| - 2] == s[|s| - 1];
      CollapseRunsKeepsLast(s[1..]);
      var rest := CollapseRuns(s[1..]);
      assert CollapseRuns(s) == [s[0]] + rest;
      assert ([s[0]] + rest)[|rest|] == rest[|rest| - 1];
    }
  }

  /** `re.sub(r"\s+", " ", s)` holds no whitespace but single plain spaces. */
  lemma {:induction false} CollapseRunsSpaces(s: string)
    ensures NoAdjacentWs(CollapseRuns(s)) && WsIsSpace(CollapseRuns(s))
    decreases |s|
  {
    if s != [] {
      if IsWs(s[0]) {
        StripLeftShorter(s);
        var rest := CollapseRuns(StripLeft(s));
        CollapseRunsSpaces(StripLeft(s));
        ConsShape(' ', rest);
        assert [' '] + rest == CollapseRuns(s);
      } else {
        CollapseRunsSpaces(s[1..]);
        ConsShape(s[0], CollapseRuns(s[1..]));
      }
    }
  }

  /** `re.sub(r"\s+", " ", s)` holds no character that is not in `s` or a space. */
  lemma {:induction false} CollapseRunsChars(s: string)
    ensures forall c :: c in CollapseRuns(s) ==> c in s || c == ' '
    decreases |s|
  {
    if s != [] {
      if IsWs(s[0]) {
        StripLeftShorter(s);
        var t := StripLeft(s);
        CollapseRunsChars(t);
        forall c | c in CollapseRuns(t) ensures c in s || c == ' ' {
          if c != ' ' { assert c in t; }
        }
      } else {
        CollapseRunsChars(s[1..]);
        forall c | c in CollapseRuns(s[1..]) ensures c in s || c == ' ' {
          if c != ' ' { assert c in s[1..]; }
        }
      }
    }
  }

  /**
   * The result of `re.sub(r"\s+", " ", s)` keeps a last character that is
   * not whitespace, holds no whitespace but single plain spaces, and holds
   * no character that is not in `s` or a space.
   */
  lemma CollapseRunsShape(s: string)
    ensures var r := CollapseRuns(s);
      && (s != [] && !IsWs(s[|s| - 1]) ==> r != [] && r[|r| - 1] == s[|s| - 1])
      && NoAdjacentWs(r) && WsIsSpace(r)
      && (forall c :: c in r ==> c in s || c == ' ')
  {
    if s != [] && !IsWs(s[|s| - 1]) {
      CollapseRunsKeepsLast(s);
    }
    CollapseRunsSpaces(s);
    CollapseRunsChars(s);
  }

  /** Putting `c` in front of a collapsed string keeps it collapsed unless both `c` and its new neighbour are whitespace. */
  lemma ConsShape(c: char, rest: string)
    requires NoAdjacentWs(rest) && WsIsSpace(rest)
    requires IsWs(c) ==> c == ' ' && (rest == [] || !IsWs(rest[0]))
    ensures NoAdjacentWs([c] + rest) && WsIsSpace([c] + rest)
  {
    ConsNoAdjacent(c, rest);
    var r := [c] + rest;
    forall i | 0 <= i < |r| && IsWs(r[i]) ensures r[i] == ' ' {
      if i > 0 { assert r[i] == rest[i - 1]; }
    }
  }

  /** `re.sub(r"\s{2,}", " ", s)`: runs of two or more whitespace characters become one space; a lone one stays. */
  function CollapseLongRuns(s: string): (r: string)
    ensures r == [] <==> s == []
    ensures r != [] ==> (IsWs(r[0]) <==> IsWs(s[0]))
    ensures |r| <= |s|
    decreases |s|
  {
    if s == [] then []
    else if |s| >= 2 && IsWs(s[0]) && IsWs(s[1]) then StripLeftShorter(s); " " + CollapseLongRuns(StripLeft(s))
    else [s[0]] + CollapseLongRuns(s[1..])
  }

  /** `re.sub(r"\s{2,}", " ", s)` keeps a last character that is not whitespace. */
  lemma {:induction false} CollapseLongRunsKeepsLast(s: string)
    requires s != [] && !IsWs(s[|s| - 1])
    ensures CollapseLongRuns(s) != [] && CollapseLongRuns(s)[|CollapseLongRuns(s)| - 1] == s[|s| - 1]
    decreases |s|
  {
    if |s| >= 2 && IsWs(s[0]) && IsWs(s[1]) {
      StripLeftShorter(s);
      var t := StripLeft(s);
      StripLeftLast(s);
      assert t != [] && t[|t| - 1] == s[|s| - 1];
      CollapseLongRunsKeepsLast(t);
      var rest := CollapseLongRuns(t);
      assert CollapseLongRuns(s) == " " + rest;
      assert (" " + rest)[|rest|] == rest[|rest| - 1];
    } else if |s| >= 2 {
      assert s[1..][|s| - 2] == s[|s| - 1];
      CollapseLongRunsKeepsLast(s[1..]);
      var rest := CollapseLongRuns(s[1..]);
      assert CollapseLongRuns(s) == [s[0]] + rest;
      assert ([s[0]] + rest)[|rest|] == rest[|rest| - 1];
    }
  }

  /** `re.sub(r"\s{2,}", " ", s)` holds no two adjacent whitespace characters. */
  lemma {:induction false} CollapseLongRunsNoAdjacent(s: string)
    ensures NoAdjacentWs(CollapseLongRuns(s))
    decreases |s|
  {
    if s != [] {
      if |s| >= 2 && IsWs(s[0]) && IsWs(s[1]) {
        StripLeftShorter(s);
        var rest := CollapseLongRuns(StripLeft(s));
        CollapseLongRunsNoAdjacent(StripLeft(s));
        ConsNoAdjacent(' ', rest);
        assert [' '] + rest == CollapseLongRuns(s);
      } else {
        CollapseLongRunsNoAdjacent(s[1..]);
        ConsNoAdjacent(s[0], CollapseLongRuns(s[1..]));
      }
    }
  }

  /** `re.sub(r"\s{2,}", " ", s)` holds no character that is not in `s` or a space. */
  lemma {:induction false} CollapseLongRunsChars(s: string)
    ensures forall c :: c in CollapseLongRuns(s) ==> c in s || c == ' '
    decreases |s|
  {
    if s != [] {
      if |s| >= 2 && IsWs(s[0]) && IsWs(s[1]) {
        StripLeftShorter(s);
        var t := StripLeft(s);
        CollapseLongRunsChars(t);
        forall c | c in CollapseLongRuns(t) ensures c in s || c == ' ' {
          if c != ' ' { assert c in t; }
        }
      } else {
        CollapseLongRunsChars(s[1..]);
        forall c | c in CollapseLongRuns(s[1..]) ensures c in s || c == ' ' {
          if c != ' ' { assert c in s[1..]; }
        }
      }
    }
  }

  /**
   * The result of `re.sub(r"\s{2,}", " ", s)` keeps a last character that
   * is not whitespace, holds no two adjacent whitespace characters, and
   * holds no character that is not in `s` or a space.
   */
  lemma CollapseLongRunsShape(s: string)
    ensures var r := CollapseLongRuns(s);
      && (s != [] && !IsWs(s[|s| - 1]) ==> r != [] && r[|r| - 1] == s[|s| - 1])
      && NoAdjacentWs(r)
      && (forall c :: c in r ==> c in s || c == ' ')
  {
    if s != [] && !IsWs(s[|s| - 1]) {
      CollapseLongRunsKeepsLast(s);
    }
    CollapseLongRunsNoAdjacent(s);
    CollapseLongRunsChars(s);
  }

  /** Putting `c` in front of a string without adjacent whitespace keeps it so unless `c` and its new neighbour are both whitespace. */
  lemma ConsNoAdjacent(c: char, rest: string)
    requires NoAdjacentWs(rest)
    requires IsWs(c) ==> rest == [] || !IsWs(rest[0])
    ensures NoAdjacentWs([c] + rest)
  {
    var r := [c] + rest;
    forall i, j | 0 <= i < j < |r| && j == i + 1 ensures !IsWs(r[i]) || !IsWs(r[j]) {
      if i > 0 { assert r[i] == rest[i - 1] && r[j] == rest[j - 1]; }
    }
  }

  /** Collapsing whitespace runs keeps the non-whitespace content, in order. */
  lemma {:induction false} CollapseRunsNonWs(s: string)
    ensures NonWs(CollapseRuns(s)) == NonWs(s)
    decreases |s|
  {
    if s != [] {
      if IsWs(s[0]) {
        var t := StripLeft(s);
        StripLeftNonWs(s);
        CollapseRunsNonWs(t);
        NonWsConcat(" ", CollapseRuns(t));
      } else {
        CollapseRunsNonWs(s[1..]);
        NonWsConcat([s[0]], CollapseRuns(s[1..]));
        assert s == [s[0]] + s[1..];
        NonWsConcat([s[0]], s[1..]);
      }
    }
  }

  lemma {:induction false} CollapseLongRunsNonWs(s: string)
    ensures NonWs(CollapseLongRuns(s)) == NonWs(s)
    decreases |s|, 1
  {
    if s != [] {
      if |s| >= 2 && IsWs(s[0]) && IsWs(s[1]) {
        CollapseLongRunsNonWsRun(s);
      } else {
        CollapseLongRunsNonWsKeep(s);
      }
    }
  }

  /** A run of two or more becomes one space, which `NonWs` drops like the run itself. */
  lemma {:induction false} CollapseLongRunsNonWsRun(s: string)
    requires |s| >= 2 && IsWs(s[0]) && IsWs(s[1])
    ensures NonWs(CollapseLongRuns(s)) == NonWs(s)
    decreases |s|, 0
  {
    var t := StripLeft(s);
    assert CollapseLongRuns(s) == " " + CollapseLongRuns(t);
    StripLeftNonWs(s);
    CollapseLongRunsNonWs(t);
    NonWsConcat(" ", CollapseLongRuns(t));
  }

  /** Any other first character is kept as it is. */
  lemma {:induction false} CollapseLongRunsNonWsKeep(s: string)
    requires s != [] && !(|s| >= 2 && IsWs(s[0]) && IsWs(s[1]))
    ensures NonWs(CollapseLongRuns(s)) == NonWs(s)
    decreases |s|, 0
  {
    assert CollapseLongRuns(s) == [s[0]] + CollapseLongRuns(s[1..]);
    CollapseLongRunsNonWs(s[1..]);
    NonWsConcat([s[0]], CollapseLongRuns(s[1..]));
    assert s == [s[0]] + s[1..];
    NonWsConcat([s[0]], s[1..]);
  }

  /** A string already free of neighbouring whitespace, all of it spaces, is a fixed point of `re.sub(r"\s+", " ", _)`. */
  lemma {:induction false} CollapseRunsFixed(s: string)
    requires NoAdjacentWs(s) && WsIsSpace(s)
    ensures CollapseRuns(s) == s
    decreases |s|
  {
    if s != [] {
      var t := s[1..];
      assert s == [s[0]] + t;
      NoAdjacentWsSlice(s, 1, |s|);
      WsIsSpaceTail(s);
      CollapseRunsFixed(t);
      if IsWs(s[0]) {
        assert t == [] || !IsWs(t[0]);
        assert StripLeft(t) == t;
        assert StripLeft(s) == t;
        calc {
          CollapseRuns(s);
          " " + CollapseRuns(t);
          [s[0]] + t;
        }
      } else {
        assert CollapseRuns(s) == [s[0]] + CollapseRuns(t);
      }
    }
  }

  lemma {:induction false} WsIsSpaceTail(s: string)
    requires s != [] && WsIsSpace(s)
    ensures WsIsSpace(s[1..])
  {
    forall i | 0 <= i < |s| - 1 && IsWs(s[1..][i]) ensures s[1..][i] == ' ' {
      assert s[1..][i] == s[i + 1];
    }
  }

  lemma NoAdjacentHead(s: string)
    requires NoAdjacentWs(s)
    ensures |s| >= 2 ==> !IsWs(s[0]) || !IsWs(s[1])
  {
  }

  lemma NoAdjacentWsTail(s: string)
    requires NoAdjacentWs(s) && s != []
    ensures NoAdjacentWs(s[1..])
  {
    NoAdjacentWsSlice(s, 1, |s|);
    assert s[1..|s|] == s[1..];
  }

  /** Lone whitespace characters are left alone by `re.sub(r"\s{2,}", " ", _)`. */
  lemma {:induction false} CollapseLongRunsFixed(s: string)
    requires NoAdjacentWs(s)
    ensures CollapseLongRuns(s) == s
    decreases |s|
  {
    if s != [] {
      NoAdjacentHead(s);
      CollapseLongRunsKeepUnfold(s);
      NoAdjacentWsTail(s);
      CollapseLongRunsFixed(s[1..]);
      assert s == [s[0]] + s[1..];
    }
  }

  /** `re.sub(r"\s+", " ", s).strip()`: single spaces between words, none at the ends. */
  function CollapseWs(s: string): (r: string)
    ensures NoEdgeWs(r) && NoAdjacentWs(r) && WsIsSpace(r)
    ensures forall c :: c in r ==> c in s || c == ' '
    ensures |r| <= |s|
  {
    CollapseRunsShape(s);
    StripSpec(CollapseRuns(s));
    Strip(CollapseRuns(s))
  }

  /** Collapsing keeps the words: the non-whitespace characters, in order. */
  lemma CollapseWsNonWs(s: string)
    ensures NonWs(CollapseWs(s)) == NonWs(s)
  {
    StripSpec(CollapseRuns(s));
    CollapseRunsNonWs(s);
  }

  /** The strings `CollapseWs` produces are exactly its fixed points. */
  lemma CollapseWsFixed(s: string)
    ensures CollapseWs(s) == s <==> NoEdgeWs(s) && NoAdjacentWs(s) && WsIsSpace(s)
  {
    if NoEdgeWs(s) && NoAdjacentWs(s) && WsIsSpace(s) {
      CollapseRunsFixed(s);
    }
  }

  /** A string without whitespace is left unchanged. */
  lemma CollapseWsNoWs(s: string)
    requires forall i :: 0 <= i < |s| ==> !IsWs(s[i])
    ensures CollapseWs(s) == s
  {
    CollapseRunsFixed(s);
  }

  /** Collapsing whitespace twice is collapsing it once. */
  lemma CollapseWsIdempotent(s: string)
    ensures CollapseWs(CollapseWs(s)) == CollapseWs(s)
  {
    CollapseWsFixed(CollapseWs(s));
  }

  // ---------------------------------------------------------------------
  // Word boundaries: what the collapses do to a run between two words

  /** `s` is empty or ends with a non-whitespace character. */
  predicate EndsInWord(s: string) {
    s == [] || !IsWs(s[|s| - 1])
  }

  /** `s` is empty or starts with a non-whitespace character. */
  predicate StartsWithWord(s: string) {
    s == [] || !IsWs(s[0])
  }

  /** Left-stripping stops inside `a` once `a` ends with a non-whitespace character. */
  lemma {:induction false} StripLeftConcat(a: string, b: string)
    requires a != [] && !IsWs(a[|a| - 1])
    ensures StripLeft(a + b) == StripLeft(a) + b
  {
    if IsWs(a[0]) {
      assert (a + b)[1..] == a[1..] + b;
      StripLeftConcat(a[1..], b);
    }
  }

  /** Right-stripping stops inside `b` once `b` starts with a non-whitespace character. */
  lemma {:induction false} StripRightConcat(a: string, b: string)
    requires b != [] && !IsWs(b[0])
    ensures StripRight(a + b) == a + StripRight(b)
  {
    if IsWs(b[|b| - 1]) {
      var p := b[..|b| - 1];
      assert (a + b)[..|a + b| - 1] == a + p;
      StripRightConcat(a, p);
    }
  }

  /** Stripping the left of a string that ends with a word keeps that last character. */
  lemma StripLeftKeepsLast(a: string)
    requires a != [] && !IsWs(a[|a| - 1])
    ensures StripLeft(a) != [] && StripLeft(a)[|StripLeft(a)| - 1] == a[|a| - 1]
  {
    var l := StripLeft(a);
    assert l[|l| - 1] == a[|a| - |l|..][|l| - 1];
  }

  /** Stripping the right of a string that starts with a word keeps that first character. */
  lemma StripRightKeepsFirst(b: string)
    requires b != [] && !IsWs(b[0])
    ensures StripRight(b) != [] && StripRight(b)[0] == b[0]
  {
    var r := StripRight(b);
    assert r[0] == b[..|r|][0];
  }

  lemma StripLeftShorter(a: string)
    requires a != [] && IsWs(a[0])
    ensures |StripLeft(a)| < |a|
  {
  }

  lemma StripLeftAround(a: string, w: string, b: string)
    requires a != [] && !IsWs(a[|a| - 1])
    ensures StripLeft(a + w + b) == StripLeft(a) + w + b
  {
    Regroup(a, w, b);
    StripLeftConcat(a, w + b);
    Regroup(StripLeft(a), w, b);
  }

  lemma StripRightAround(l: string, w: string, b: string)
    requires b != [] && !IsWs(b[0])
    ensures StripRight(l + w + b) == l + w + StripRight(b)
  {
    StripRightConcat(l + w, b);
  }

  lemma StripRightOfLeftAround(a: string, w: string, b: string, t: string)
    requires b != [] && !IsWs(b[0])
    requires t == StripLeft(a) + w + b
    ensures StripRight(t) == StripLeft(a) + w + StripRight(b)
  {
    StripRightAround(StripLeft(a), w, b);
  }

  /** Stripping `a + w + b`, where `a` ends and `b` starts with a word, strips only the outer ends. */
  lemma StripAround(a: string, w: string, b: string)
    requires a != [] && !IsWs(a[|a| - 1])
    requires b != [] && !IsWs(b[0])
    ensures Strip(a + w + b) == Strip(a) + w + Strip(b)
  {
    StripLeftAround(a, w, b);
    StripRightOfLeftAround(a, w, b, StripLeft(a + w + b));
    StripLeftKeepsLast(a);
  }

  /** A string ending with a word keeps that end, and only loses its leading whitespace, when stripped. */
  lemma StripOfWordEnd(a: string)
    requires a != [] && !IsWs(a[|a| - 1])
    ensures Strip(a) == StripLeft(a)
    ensures Strip(a) != [] && !IsWs(Strip(a)[|Strip(a)| - 1])
  {
    StripLeftKeepsLast(a);
    StripRightOfWordEnd(StripLeft(a));
  }

  /** A string that ends with a word has nothing to strip on the right. */
  lemma StripRightOfWordEnd(l: string)
    requires l != [] && !IsWs(l[|l| - 1])
    ensures StripRight(l) == l
  {
  }

  /** A string starting with a word keeps that start, and only loses its trailing whitespace, when stripped. */
  lemma StripOfWordStart(b: string)
    requires b != [] && !IsWs(b[0])
    ensures Strip(b) == StripRight(b)
    ensures Strip(b) != [] && !IsWs(Strip(b)[0])
  {
    StripRightKeepsFirst(b);
  }

  lemma TailEndsInWord(a: string)
    requires a != [] && !IsWs(a[|a| - 1])
    ensures EndsInWord(a[1..])
  {
    assert a[1..] == [] || a[1..][|a[1..]| - 1] == a[|a| - 1];
  }

  // Associativity of three concatenations, stated once so that callers need not re-prove it.
  lemma Regroup(h: string, x: string, y: string)
    ensures h + (x + y) == (h + x) + y
  {
  }

  // The unfolding steps below are stated one per lemma, which keeps each
  // proof that combines them small.

  // One unfolding of CollapseRuns at a leading whitespace run, with text appended.
  lemma CollapseRunsRunStep(a: string, b: string)
    requires a != [] && IsWs(a[0]) && !IsWs(a[|a| - 1])
    ensures CollapseRuns(a + b) == " " + CollapseRuns(StripLeft(a) + b)
  {
    assert (a + b)[0] == a[0];
    StripLeftConcat(a, b);
  }

  // One unfolding of CollapseRuns at a leading whitespace run.
  lemma CollapseRunsRunUnfold(a: string)
    requires a != [] && IsWs(a[0])
    ensures CollapseRuns(a) == " " + CollapseRuns(StripLeft(a))
  {
  }

  // One unfolding of CollapseRuns at a leading non-whitespace character, with text appended.
  lemma CollapseRunsWordStep(a: string, b: string)
    requires a != [] && !IsWs(a[0])
    ensures CollapseRuns(a + b) == [a[0]] + CollapseRuns(a[1..] + b)
  {
    assert (a + b)[0] == a[0] && (a + b)[1..] == a[1..] + b;
  }

  // One unfolding of CollapseRuns at a leading non-whitespace character.
  lemma CollapseRunsWordUnfold(a: string)
    requires a != [] && !IsWs(a[0])
    ensures CollapseRuns(a) == [a[0]] + CollapseRuns(a[1..])
  {
  }

  /** `re.sub(r"\s+", " ", _)` distributes over a split just after a word. */
  lemma {:induction false} CollapseRunsConcat(a: string, b: string)
    requires EndsInWord(a)
    ensures CollapseRuns(a + b) == CollapseRuns(a) + CollapseRuns(b)
    decreases |a|, 1
  {
    if a == [] {
      assert a + b == b;
    } else if IsWs(a[0]) {
      CollapseRunsConcatRun(a, b);
    } else {
      CollapseRunsConcatWord(a, b);
    }
  }

  lemma {:induction false} CollapseRunsConcatRun(a: string, b: string)
    requires a != [] && IsWs(a[0]) && !IsWs(a[|a| - 1])
    ensures CollapseRuns(a + b) == CollapseRuns(a) + CollapseRuns(b)
    decreases |a|, 0
  {
    var t := StripLeft(a);
    StripLeftKeepsLast(a);
    StripLeftShorter(a);
    CollapseRunsRunStep(a, b);
    CollapseRunsRunUnfold(a);
    CollapseRunsConcat(t, b);
    Regroup(" ", CollapseRuns(t), CollapseRuns(b));
  }

  lemma {:induction false} CollapseRunsConcatWord(a: string, b: string)
    requires a != [] && !IsWs(a[0]) && !IsWs(a[|a| - 1])
    ensures CollapseRuns(a + b) == CollapseRuns(a) + CollapseRuns(b)
    decreases |a|, 0
  {
    var t := a[1..];
    TailEndsInWord(a);
    CollapseRunsWordStep(a, b);
    CollapseRunsWordUnfold(a);
    CollapseRunsConcat(t, b);
    Regroup([a[0]], CollapseRuns(t), CollapseRuns(b));
  }

  /** A leading whitespace run, however long, becomes one space. */
  lemma CollapseRunsOfRun(w: string, b: string)
    requires w != [] && AllWs(w) && StartsWithWord(b)
    ensures CollapseRuns(w + b) == " " + CollapseRuns(b)
  {
    assert (w + b)[0] == w[0];
    StripLeftPadding(w, b);
  }

  /** `re.sub(r"\s+", " ", _)` turns every whitespace run between two words into exactly one space. */
  lemma CollapseRunsBetweenWords(a: string, w: string, b: string)
    requires EndsInWord(a) && w != [] && AllWs(w) && StartsWithWord(b)
    ensures CollapseRuns(a + w + b) == CollapseRuns(a) + " " + CollapseRuns(b)
  {
    Regroup(a, w, b);
    CollapseRunsConcat(a, w + b);
    CollapseRunsOfRun(w, b);
    Regroup(CollapseRuns(a), " ", CollapseRuns(b));
  }

  // One unfolding of CollapseLongRuns at a leading run of two or more, with text appended.
  lemma CollapseLongRunsRunStep(a: string, b: string)
    requires |a| >= 2 && IsWs(a[0]) && IsWs(a[1]) && !IsWs(a[|a| - 1])
    ensures CollapseLongRuns(a + b) == " " + CollapseLongRuns(StripLeft(a) + b)
  {
    assert (a + b)[0] == a[0] && (a + b)[1] == a[1];
    StripLeftConcat(a, b);
  }

  // One unfolding of CollapseLongRuns at a leading run of two or more.
  lemma CollapseLongRunsRunUnfold(a: string)
    requires |a| >= 2 && IsWs(a[0]) && IsWs(a[1])
    ensures CollapseLongRuns(a) == " " + CollapseLongRuns(StripLeft(a))
  {
  }

  // One unfolding of CollapseLongRuns where the first character is kept, with text appended.
  lemma CollapseLongRunsKeepStep(a: string, b: string)
    requires a != [] && !(|a| >= 2 && IsWs(a[0]) && IsWs(a[1])) && !IsWs(a[|a| - 1])
    ensures CollapseLongRuns(a + b) == [a[0]] + CollapseLongRuns(a[1..] + b)
  {
    var s := a + b;
    assert s[0] == a[0] && s[1..] == a[1..] + b;
    if |a| >= 2 {
      assert s[1] == a[1];
    } else {
      assert !IsWs(s[0]);
    }
    assert !(|s| >= 2 && IsWs(s[0]) && IsWs(s[1]));
  }

  // One unfolding of CollapseLongRuns where the first character is kept.
  lemma CollapseLongRunsKeepUnfold(a: string)
    requires a != [] && !(|a| >= 2 && IsWs(a[0]) && IsWs(a[1]))
    ensures CollapseLongRuns(a) == [a[0]] + CollapseLongRuns(a[1..])
  {
  }

  /** `re.sub(r"\s{2,}", " ", _)` distributes over a split just after a word. */
  lemma {:induction false} CollapseLongRunsConcat(a: string, b: string)
    requires EndsInWord(a)
    ensures CollapseLongRuns(a + b) == CollapseLongRuns(a) + CollapseLongRuns(b)
    decreases |a|, 1
  {
    if a == [] {
      assert a + b == b;
    } else if |a| >= 2 && IsWs(a[0]) && IsWs(a[1]) {
      CollapseLongRunsConcatRun(a, b);
    } else {
      CollapseLongRunsConcatKeep(a, b);
    }
  }

  lemma {:induction false} CollapseLongRunsConcatRun(a: string, b: string)
    requires |a| >= 2 && IsWs(a[0]) && IsWs(a[1]) && !IsWs(a[|a| - 1])
    ensures CollapseLongRuns(a + b) == CollapseLongRuns(a) + CollapseLongRuns(b)
    decreases |a|, 0
  {
    var t := StripLeft(a);
    StripLeftKeepsLast(a);
    StripLeftShorter(a);
    CollapseLongRunsRunStep(a, b);
    CollapseLongRunsRunUnfold(a);
    CollapseLongRunsConcat(t, b);
    Regroup(" ", CollapseLongRuns(t), CollapseLongRuns(b));
  }

  lemma {:induction false} CollapseLongRunsConcatKeep(a: string, b: string)
    requires a != [] && !(|a| >= 2 && IsWs(a[0]) && IsWs(a[1])) && !IsWs(a[|a| - 1])
    ensures CollapseLongRuns(a + b) == CollapseLongRuns(a) + CollapseLongRuns(b)
    decreases |a|, 0
  {
    var t := a[1..];
    TailEndsInWord(a);
    CollapseLongRunsKeepStep(a, b);
    CollapseLongRunsKeepUnfold(a);
    CollapseLongRunsConcat(t, b);
    Regroup([a[0]], CollapseLongRuns(t), CollapseLongRuns(b));
  }

  /** A leading run of two or more whitespace characters becomes one space. */
  lemma CollapseLongRunsOfRun(w: string, b: string)
    requires |w| >= 2 && AllWs(w) && StartsWithWord(b)
    ensures CollapseLongRuns(w + b) == " " + CollapseLongRuns(b)
  {
    assert (w + b)[0] == w[0] && (w + b)[1] == w[1];
    StripLeftPadding(w, b);
  }

  /** A lone leading character followed by a word is kept. */
  lemma CollapseLongRunsOfLone(c: char, b: string)
    requires StartsWithWord(b)
    ensures CollapseLongRuns([c] + b) == [c] + CollapseLongRuns(b)
  {
    assert ([c] + b)[1..] == b;
    assert |[c] + b| >= 2 ==> ([c] + b)[1] == b[0];
  }

  /** `re.sub(r"\s{2,}", " ", _)` turns a run of two or more whitespace characters between words into one space. */
  lemma CollapseLongRunsBetweenWords(a: string, w: string, b: string)
    requires EndsInWord(a) && |w| >= 2 && AllWs(w) && StartsWithWord(b)
    ensures CollapseLongRuns(a + w + b) == CollapseLongRuns(a) + " " + CollapseLongRuns(b)
  {
    Regroup(a, w, b);
    CollapseLongRunsConcat(a, w + b);
    CollapseLongRunsOfRun(w, b);
    Regroup(CollapseLongRuns(a), " ", CollapseLongRuns(b));
  }

  /** `re.sub(r"\s{2,}", " ", _)` leaves a lone character between words where it is, whitespace or not. */
  lemma CollapseLongRunsKeepsLone(a: string, c: char, b: string)
    requires EndsInWord(a) && StartsWithWord(b)
    ensures CollapseLongRuns(a + [c] + b) == CollapseLongRuns(a) + [c] + CollapseLongRuns(b)
  {
    Regroup(a, [c], b);
    CollapseLongRunsConcat(a, [c] + b);
    CollapseLongRunsOfLone(c, b);
    Regroup(CollapseLongRuns(a), [c], CollapseLongRuns(b));
  }

  /** `re.sub(r"\s+", " ", _)` keeps a string's first and last character class, so word edges survive it. */
  lemma CollapseRunsWordEdges(a: string, b: string)
    requires a != [] && !IsWs(a[|a| - 1])
    requires b != [] && !IsWs(b[0])
    ensures CollapseRuns(a) != [] && !IsWs(CollapseRuns(a)[|CollapseRuns(a)| - 1])
    ensures CollapseRuns(b) != [] && !IsWs(CollapseRuns(b)[0])
  {
    CollapseRunsShape(a);
  }

  /** The whitespace normalisation puts exactly one space between two words, whatever run separated them. */
  lemma CollapseWsBetweenWords(a: string, w: string, b: string)
    requires a != [] && !IsWs(a[|a| - 1])
    requires w != [] && AllWs(w)
    requires b != [] && !IsWs(b[0])
    ensures CollapseWs(a + w + b) == CollapseWs(a) + " " + CollapseWs(b)
  {
    CollapseRunsBetweenWords(a, w, b);
    CollapseRunsWordEdges(a, b);
    StripAround(CollapseRuns(a), " ", CollapseRuns(b));
  }

  /**
   * Titles that differ only in the kind and length of one whitespace run
   * collapse alike, wherever the run is: at an end, between words, or next
   * to more whitespace.
   */
  lemma CollapseWsAnyRun(a: string, w: string, b: string)
    requires w != [] && AllWs(w)
    ensures CollapseWs(a + w + b) == CollapseWs(a + " " + b)
  {
    var space := " ";
    assert AllWs(space);
    CollapseRunsAnyGap(a, w, space, b);
  }

  /** `re.sub(r"\s+", " ", _)` sees only whether there is whitespace between `x` and `y`, not its kind or length. */
  lemma {:induction false} CollapseRunsAnyGap(x: string, w: string, v: string, y: string)
    requires w != [] && AllWs(w) && v != [] && AllWs(v)
    ensures CollapseRuns(x + w + y) == CollapseRuns(x + v + y)
    decreases |x|
  {
    if x == [] {
      assert x + w + y == w + y && x + v + y == v + y;
      CollapseRunsAfterGap(w, y);
      CollapseRunsAfterGap(v, y);
    } else if !IsWs(x[0]) {
      CollapseRunsAnyGap(x[1..], w, v, y);
      GapWordStep(x, w, y);
      GapWordStep(x, v, y);
    } else if AllWs(x) {
      GapAllWs(x, w, y);
      GapAllWs(x, v, y);
    } else {
      StripLeftShorter(x);
      CollapseRunsAnyGap(StripLeft(x), w, v, y);
      GapRunStep(x, w, y);
      GapRunStep(x, v, y);
    }
  }

  // The cases of `CollapseRunsAnyGap`, one per lemma.

  /** A leading whitespace run becomes one space, whatever follows. */
  lemma CollapseRunsAfterGap(g: string, y: string)
    requires g != [] && AllWs(g)
    ensures CollapseRuns(g + y) == " " + CollapseRuns(StripLeft(y))
  {
    assert (g + y)[0] == g[0];
    StripLeftPadding(g, y);
  }

  // The step of CollapseRunsAnyGap where x starts with a non-whitespace character.
  lemma GapWordStep(x: string, w: string, y: string)
    requires x != [] && !IsWs(x[0])
    ensures CollapseRuns(x + w + y) == [x[0]] + CollapseRuns(x[1..] + w + y)
  {
    var s := x + w + y;
    assert s[0] == x[0] && s[1..] == x[1..] + w + y;
  }

  lemma GapAllWs(x: string, w: string, y: string)
    requires x != [] && AllWs(x) && w != [] && AllWs(w)
    ensures CollapseRuns(x + w + y) == " " + CollapseRuns(StripLeft(y))
  {
    var g := x + w;
    assert AllWs(g) by {
      forall i | 0 <= i < |g| ensures IsWs(g[i]) {
        if i < |x| { assert g[i] == x[i]; } else { assert g[i] == w[i - |x|]; }
      }
    }
    CollapseRunsAfterGap(g, y);
  }

  // The step of CollapseRunsAnyGap where x starts with whitespace.
  lemma GapRunStep(x: string, w: string, y: string)
    requires x != [] && IsWs(x[0]) && !AllWs(x)
    ensures CollapseRuns(x + w + y) == " " + CollapseRuns(StripLeft(x) + w + y)
  {
    var z := w + y;
    var s := x + z;
    assert s == x + w + y;
    assert s[0] == x[0];
    CollapseRunsRunUnfold(s);
    StripLeftNotAllWs(x, z);
    Regroup(StripLeft(x), w, y);
  }

  /** Left-stripping stops inside `x` when `x` is not all whitespace. */
  lemma {:induction false} StripLeftNotAllWs(x: string, z: string)
    requires !AllWs(x)
    ensures StripLeft(x + z) == StripLeft(x) + z
    decreases |x|
  {
    if IsWs(x[0]) {
      assert (x + z)[1..] == x[1..] + z;
      assert !AllWs(x[1..]) by {
        var i :| 0 <= i < |x| && !IsWs(x[i]);
        assert x[1..][i - 1] == x[i];
      }
      StripLeftNotAllWs(x[1..], z);
    }
  }

  // ---------------------------------------------------------------------
  // re.sub(r"[...]", "", s)

  /** `re.sub("[" + chars + "]", "", s)`: drop every character of the class, keep the rest in order. */
  function RemoveChars(s: string, cs: set<char>): (r: string)
    ensures forall c :: c in r ==> c in s && c !in cs
    ensures forall c :: c !in cs ==> multiset(r)[c] == multiset(s)[c]
    ensures |r| <= |s|
  {
    if s == [] then []
    else
      assert s == [s[0]] + s[1..];
      (if s[0] in cs then [] else [s[0]]) + RemoveChars(s[1..], cs)
  }

  /** Removing characters distributes over concatenation. */
  lemma {:induction false} RemoveCharsConcat(a: string, b: string, cs: set<char>)
    ensures RemoveChars(a + b, cs) == RemoveChars(a, cs) + RemoveChars(b, cs)
  {
    if a == [] {
      assert a + b == b;
    } else {
      var head := if a[0] in cs then [] else [a[0]];
      RemoveCharsStep(a, b, cs);
      RemoveCharsConcat(a[1..], b, cs);
      Regroup(head, RemoveChars(a[1..], cs), RemoveChars(b, cs));
      RemoveCharsUnfold(a, cs);
    }
  }

  // One unfolding of RemoveChars, with text appended.
  lemma RemoveCharsStep(a: string, b: string, cs: set<char>)
    requires a != []
    ensures RemoveChars(a + b, cs) == (if a[0] in cs then [] else [a[0]]) + RemoveChars(a[1..] + b, cs)
  {
    var s := a + b;
    assert s[0] == a[0] && s[1..] == a[1..] + b;
  }

  // One unfolding of RemoveChars.
  lemma RemoveCharsUnfold(a: string, cs: set<char>)
    requires a != []
    ensures RemoveChars(a, cs) == (if a[0] in cs then [] else [a[0]]) + RemoveChars(a[1..], cs)
  {
  }

  /** A string none of whose characters is in the class is left unchanged. */
  lemma {:induction false} RemoveCharsNone(s: string, cs: set<char>)
    requires forall i :: 0 <= i < |s| ==> s[i] !in cs
    ensures RemoveChars(s, cs) == s
  {
    if s != [] {
      RemoveCharsNone(s[1..], cs);
    }
  }
}
