/**
 * `normalize_title`: the key under which wanted titles and scraped titles
 * are compared. A fixed chain of `str.replace` calls, a character-class
 * removal of star glyphs, and whitespace collapsing.
 */
module Normalizer {
  import opened Text

  /** RIGHT SINGLE QUOTATION MARK, rewritten to a plain apostrophe. */
  const CurlyApostrophe: char := '\U{2019}'

  /** The four removed sequences, in the order they are removed. */
  const MojibakeA: string := "A?\U{E2},\U{A2}"   // "A?â,¢"
  const MojibakeB: string := "A?\U{C5}\U{A1}"    // "A?Å¡"
  const MojibakeC: string := "\U{81}\U{2122}"    // U+0081 followed by TRADE MARK SIGN
  const MojibakeD: string := "\U{161}"           // LATIN SMALL LETTER S WITH CARON

  /** The removed star glyphs: black and white star, and eight dingbat stars. */
  const StarGlyphs: set<char> := {
    '\U{2605}', '\U{2606}', '\U{2726}', '\U{2729}', '\U{272A}',
    '\U{272B}', '\U{272C}', '\U{272D}', '\U{272E}', '\U{272F}'
  }

  /** The text after the apostrophe rewrite and the four removals. */
  function FixMojibake(s: string): (r: string)
    ensures CurlyApostrophe !in r && MojibakeD[0] !in r
    ensures forall c :: c in r ==> c in s || c == '\''
    ensures |r| <= |s|
  {
    var s1 := ReplaceAll(s, [CurlyApostrophe], "'");
    assert CurlyApostrophe !in s1;
    var s2 := ReplaceAll(s1, MojibakeA, "");
    var s3 := ReplaceAll(s2, MojibakeB, "");
    var s4 := ReplaceAll(s3, MojibakeC, "");
    assert CurlyApostrophe !in s4;
    ReplaceAll(s4, MojibakeD, "")
  }

  /**
   * `normalize_title`. The key never holds a curly apostrophe, an s-caron
   * or a star glyph; its only whitespace is single spaces between words.
   */
  function Normalize(s: string): (r: string)
    ensures CurlyApostrophe !in r && MojibakeD[0] !in r
    ensures forall c :: c in r ==> c !in StarGlyphs
    ensures NoEdgeWs(r) && NoAdjacentWs(r) && WsIsSpace(r)
    ensures forall c :: c in r ==> c in s || c == '\'' || c == ' '
    ensures |r| <= |s|
  {
    var f := FixMojibake(s);
    var g := RemoveChars(f, StarGlyphs);
    assert forall c :: c in g ==> c in f && c !in StarGlyphs;
    assert ' ' !in StarGlyphs;
    CollapseWs(g)
  }

  /** Normalising keeps the key's words: they are those of the title after the character fixes and star removal. */
  lemma NormalizeKeepsWords(s: string)
    ensures NonWs(Normalize(s)) == NonWs(RemoveChars(FixMojibake(s), StarGlyphs))
  {
    CollapseWsNonWs(RemoveChars(FixMojibake(s), StarGlyphs));
  }

  // ---------------------------------------------------------------------
  // Characters no character fix can span

  /** `c` occurs in none of the five replaced sequences. */
  predicate OutsideFixes(c: char) {
    c != CurlyApostrophe && c !in MojibakeA && c !in MojibakeB && c !in MojibakeC && c !in MojibakeD
  }

  /** A non-empty run of such characters splits the character fixes into its two sides. */
  lemma FixMojibakeAround(p: string, w: string, q: string)
    requires w != [] && forall i :: 0 <= i < |w| ==> OutsideFixes(w[i])
    ensures FixMojibake(p + w + q) == FixMojibake(p) + w + FixMojibake(q)
  {
    var p1, q1 := ReplaceAll(p, [CurlyApostrophe], "'"), ReplaceAll(q, [CurlyApostrophe], "'");
    ReplaceAllAroundGap(p, w, q, [CurlyApostrophe], "'");
    var p2, q2 := ReplaceAll(p1, MojibakeA, ""), ReplaceAll(q1, MojibakeA, "");
    ReplaceAllAroundGap(p1, w, q1, MojibakeA, "");
    var p3, q3 := ReplaceAll(p2, MojibakeB, ""), ReplaceAll(q2, MojibakeB, "");
    ReplaceAllAroundGap(p2, w, q2, MojibakeB, "");
    var p4, q4 := ReplaceAll(p3, MojibakeC, ""), ReplaceAll(q3, MojibakeC, "");
    ReplaceAllAroundGap(p3, w, q3, MojibakeC, "");
    ReplaceAllAroundGap(p4, w, q4, MojibakeD, "");
  }

  // ---------------------------------------------------------------------
  // Titles no character fix applies to

  /** `s` holds no character that a character fix starts with, so none of them applies. */
  predicate NoMojibakeStart(s: string) {
    CurlyApostrophe !in s && MojibakeA[0] !in s && MojibakeB[0] !in s && MojibakeC[0] !in s && MojibakeD[0] !in s
  }

  /** On such a title the apostrophe rewrite and the four removals change nothing. */
  lemma FixMojibakeNoop(s: string)
    requires NoMojibakeStart(s)
    ensures FixMojibake(s) == s
  {
    ReplaceAllAbsentHead(s, [CurlyApostrophe], "'");
    ReplaceAllAbsentHead(s, MojibakeA, "");
    ReplaceAllAbsentHead(s, MojibakeB, "");
    ReplaceAllAbsentHead(s, MojibakeC, "");
    ReplaceAllAbsentHead(s, MojibakeD, "");
  }

  /** So its key is its whitespace-collapsed text without star glyphs. */
  lemma NormalizeClean(s: string)
    requires NoMojibakeStart(s)
    ensures Normalize(s) == CollapseWs(RemoveChars(s, StarGlyphs))
  {
    FixMojibakeNoop(s);
  }

  /** Star-glyph removal passes over a middle part that holds no star. */
  lemma RemoveStarsAround(a: string, m: string, b: string)
    requires forall i :: 0 <= i < |m| ==> m[i] !in StarGlyphs
    ensures RemoveChars(a + m + b, StarGlyphs) == RemoveChars(a, StarGlyphs) + m + RemoveChars(b, StarGlyphs)
  {
    RemoveCharsConcat(a + m, b, StarGlyphs);
    RemoveCharsConcat(a, m, StarGlyphs);
    RemoveCharsNone(m, StarGlyphs);
  }

  /** A star glyph is never part of a fixed sequence. */
  lemma StarIsPlain(star: char)
    requires star in StarGlyphs
    ensures OutsideFixes(star)
  {
  }

  /**
   * A star glyph splits a title: the character fixes run on each side of it
   * on their own, and only then is the star removed.
   */
  lemma NormalizeStarSplits(a: string, star: char, b: string)
    requires star in StarGlyphs
    ensures Normalize(a + [star] + b) == CollapseWs(RemoveChars(FixMojibake(a) + FixMojibake(b), StarGlyphs))
  {
    StarIsPlain(star);
    FixMojibakeAround(a, [star], b);
    var fa, fb := FixMojibake(a), FixMojibake(b);
    RemoveCharsConcat(fa + [star], fb, StarGlyphs);
    RemoveCharsConcat(fa, [star], StarGlyphs);
    assert RemoveChars([star], StarGlyphs) == [];
    assert RemoveChars(fa, StarGlyphs) + [] == RemoveChars(fa, StarGlyphs);
    RemoveCharsConcat(fa, fb, StarGlyphs);
  }

  /**
   * So a star glyph does not change the key of a title whose character
   * fixes do not span the star's position.
   */
  lemma NormalizeIgnoresStar(a: string, star: char, b: string)
    requires star in StarGlyphs
    requires FixMojibake(a + b) == FixMojibake(a) + FixMojibake(b)
    ensures Normalize(a + [star] + b) == Normalize(a + b)
  {
    NormalizeStarSplits(a, star, b);
  }

  /**
   * The condition is needed: a star inside "A?â,¢" keeps the fix of line 35
   * from matching, and the two halves survive, while without the star the
   * whole sequence is removed.
   */
  lemma NormalizeStarSplitsMojibake(p: string, star: char, q: string)
    requires p == "A?" && star == '\U{2605}' && q == "\U{E2},\U{A2}"
    ensures Normalize(p + [star] + q) == p + q == MojibakeA
    ensures Normalize(p + q) == ""
  {
    NormalizeStarSplits(p, star, q);
    FixMojibakeHalves(p, q);
    var m := FixMojibake(p) + FixMojibake(q);
    MojibakeAHasNoStar(m);
    MojibakeAHasNoWs(m);
    NormalizeRemovesMojibakeA();
  }

  /** Each half of the split sequence is left alone by the fixes. */
  lemma FixMojibakeHalves(p: string, q: string)
    requires p == "A?" && q == "\U{E2},\U{A2}"
    ensures FixMojibake(p) + FixMojibake(q) == p + q == MojibakeA
  {
    FixMojibakeShortNoop(p);
    assert NoMojibakeStart(q);
    FixMojibakeNoop(q);
  }

  /** "A?" is too short for the two removals that start with 'A', and holds no other fix's first character. */
  lemma FixMojibakeShortNoop(p: string)
    requires p == "A?"
    ensures FixMojibake(p) == p
  {
    ReplaceAllAbsentHead(p, [CurlyApostrophe], "'");
    ReplaceAllAbsentHead(p, MojibakeC, "");
    ReplaceAllAbsentHead(p, MojibakeD, "");
  }

  /** A whitespace character is never a star glyph, nor a character a fix starts with. */
  lemma WsIsPlain(w: string)
    requires AllWs(w)
    ensures NoMojibakeStart(w)
    ensures forall i :: 0 <= i < |w| ==> w[i] !in StarGlyphs && OutsideFixes(w[i])
  {
    forall c | c in w ensures c != CurlyApostrophe && c != 'A' && c != '\U{81}' && c != '\U{161}' && c !in StarGlyphs {
      var i :| 0 <= i < |w| && w[i] == c;
      assert IsWs(c);
    }
    forall i | 0 <= i < |w| ensures OutsideFixes(w[i]) {
      assert IsWs(w[i]);
    }
  }

  /**
   * A whitespace run of any kind and length, anywhere in a title, gives the
   * same key as a single space: "Fellow  Fortifier" and "Fellow Fortifier"
   * match. No fixed sequence holds whitespace, so no fix can span the run.
   */
  lemma NormalizeAnyRun(a: string, w: string, b: string)
    requires w != [] && AllWs(w)
    ensures Normalize(a + w + b) == Normalize(a + " " + b)
  {
    var space := " ";
    assert AllWs(space);
    WsIsPlain(w);
    WsIsPlain(space);
    FixMojibakeAround(a, w, b);
    FixMojibakeAround(a, space, b);
    var fa, fb := FixMojibake(a), FixMojibake(b);
    RemoveStarsAround(fa, w, fb);
    RemoveStarsAround(fa, space, fb);
    CollapseWsAnyRun(RemoveChars(fa, StarGlyphs), w, RemoveChars(fb, StarGlyphs));
  }

  /**
   * Two spaces or a leading black star do not change the key of "Fellow Fortifier".
   * The example's texts are parameters fixed by the requires, as in the other examples below.
   */
  lemma NormalizeFellowFortifier(a: string, b: string, t: string)
    requires a == "Fellow" && b == "Fortifier" && t == "Fellow Fortifier"
    ensures Normalize(a + "  " + b) == Normalize(t)
    ensures Normalize(['\U{2605}'] + t) == Normalize(t)
  {
    assert a + " " + b == t;
    NormalizeAnyRun(a, "  ", b);
    NormalizeLeadingStar(t);
  }

  /** A leading star never changes a key: nothing comes before it for a fix to span. */
  lemma NormalizeLeadingStar(t: string)
    ensures Normalize(['\U{2605}'] + t) == Normalize(t)
  {
    assert [] + ['\U{2605}'] + t == ['\U{2605}'] + t && [] + t == t;
    assert FixMojibake([]) == [];
    NormalizeIgnoresStar([], '\U{2605}', t);
  }

  /** The title of the idempotence counterexample: "A?", then the second sequence, then the tail of the first. */
  const JoiningTitle: string := "A?A?\U{C5}\U{A1}\U{E2},\U{A2}"

  /**
   * Normalising is NOT idempotent: removing one mojibake sequence can
   * bring two halves of another together. The counterexample title is a
   * parameter fixed by the requires.
   */
  lemma NormalizeNotIdempotent(x: string)
    requires x == JoiningTitle
    ensures Normalize(x) == MojibakeA
    ensures Normalize(Normalize(x)) == ""
  {
    FixMojibakeJoins(x);
    MojibakeAHasNoStar(MojibakeA);
    MojibakeAHasNoWs(MojibakeA);
    NormalizeRemovesMojibakeA();
  }

  lemma MojibakeAHasNoStar(s: string)
    requires s == MojibakeA
    ensures RemoveChars(s, StarGlyphs) == s
  {
    assert forall i :: 0 <= i < |s| ==> s[i] !in StarGlyphs;
    RemoveCharsNone(s, StarGlyphs);
  }

  lemma MojibakeAHasNoWs(s: string)
    requires s == MojibakeA
    ensures CollapseWs(s) == s
  {
    assert forall i :: 0 <= i < |s| ==> !IsWs(s[i]);
    CollapseWsNoWs(s);
  }

  lemma FixMojibakeJoins(x: string)
    requires x == JoiningTitle
    ensures FixMojibake(x) == MojibakeA
  {
    ReplaceAllAbsentHead(x, [CurlyApostrophe], "'");
    MojibakeANotInExample(x);
    MojibakeBRemovalJoinsA(x);
    var a := ReplaceAll(x, MojibakeB, "");
    MojibakeAUntouched(a);
  }

  /** The last two removals do not touch "A?â,¢". */
  lemma MojibakeAUntouched(a: string)
    requires a == MojibakeA
    ensures ReplaceAll(a, MojibakeC, "") == a
    ensures ReplaceAll(a, MojibakeD, "") == a
  {
    ReplaceAllAbsentHead(a, MojibakeC, "");
    ReplaceAllAbsentHead(a, MojibakeD, "");
  }

  lemma NormalizeRemovesMojibakeA()
    ensures Normalize(MojibakeA) == ""
  {
    ReplaceAllAbsentHead(MojibakeA, [CurlyApostrophe], "'");
    assert ReplaceAll(MojibakeA, MojibakeA, "") == "";
    ReplaceAllAbsentHead([], MojibakeB, "");
    ReplaceAllAbsentHead([], MojibakeC, "");
    ReplaceAllAbsentHead([], MojibakeD, "");
    assert FixMojibake(MojibakeA) == "";
  }

  lemma MojibakeANotInExample(x: string)
    requires x == JoiningTitle
    ensures ReplaceAll(x, MojibakeA, "") == x
  {
    assert x[..5][2] != MojibakeA[2];
    assert x[1..][..5][0] != MojibakeA[0];
    assert x[2..][..5][2] != MojibakeA[2];
    assert x[3..][..5][0] != MojibakeA[0];
    assert x[4..][..5][0] != MojibakeA[0];
    assert |x[5..]| < 5;
    assert x[1..][1..] == x[2..] && x[2..][1..] == x[3..] && x[3..][1..] == x[4..] && x[4..][1..] == x[5..];
  }

  lemma MojibakeBRemovalJoinsA(x: string)
    requires x == JoiningTitle
    ensures ReplaceAll(x, MojibakeB, "") == MojibakeA
  {
    assert x[..4][2] != MojibakeB[2];
    assert x[1..][..4][0] != MojibakeB[0];
    assert x[1..][1..] == x[2..];
    assert x[2..][..4] == MojibakeB;
    assert x[2..][4..] == "\U{E2},\U{A2}";
  }

  /** A TRADE MARK SIGN that is not preceded by U+0081 survives normalisation. */
  lemma NormalizeKeepsLoneTradeMark()
    ensures Normalize("\U{2122}") == "\U{2122}"
  {
    var x := "\U{2122}";
    ReplaceAllAbsentHead(x, [CurlyApostrophe], "'");
    ReplaceAllAbsentHead(x, MojibakeA, "");
    ReplaceAllAbsentHead(x, MojibakeB, "");
    ReplaceAllAbsentHead(x, MojibakeC, "");
    ReplaceAllAbsentHead(x, MojibakeD, "");
    RemoveCharsNone(x, StarGlyphs);
    CollapseWsNoWs(x);
  }
}
