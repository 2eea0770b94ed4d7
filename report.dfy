/**
 * `add_enemy_tag` and the selection logic of `main`: keep the rows whose
 * normalised title is wanted, order them by the wanted list, tag them,
 * and report the wanted titles that matched nothing.
 */
module ReportBuilder {
  import opened Wrappers
  import opened Text
  import opened Normalizer
  import opened TableExtractor

  /** A kept entry with the `EnemyTag` column added. */
  datatype TaggedEntry = TaggedEntry(entry: TitleEntry, enemyTag: string)

  /** The outcome of a run: the report rows, and the wanted titles not found. */
  datatype Report = Report(rows: seq<TaggedEntry>, missing: seq<string>)

  const EnemyPrefix: string := "Enemy"
  const AbysseaNpc: string := "Zuah Lepahnyu"
  const AbysseaEnemy: string := "Abyssea Enemy"
  const NonAbysseaEnemy: string := "Non-Abyssea Enemy"

  /** The `_order` of a row whose key is not in the index (`10**9`). */
  const OrderDefault: nat := 1_000_000_000

  // ---------------------------------------------------------------------
  // add_enemy_tag

  /** `tag`: one of three labels, decided by the way to obtain the title and, for enemies, by the NPC. */
  function EnemyTag(howToObtain: string, titleNpc: string): (r: string)
    ensures r == "" || r == AbysseaEnemy || r == NonAbysseaEnemy
    ensures r == "" <==> !StartsWith(howToObtain, EnemyPrefix)
    ensures r == AbysseaEnemy <==> StartsWith(howToObtain, EnemyPrefix) && Strip(titleNpc) == AbysseaNpc
    ensures r == NonAbysseaEnemy <==> StartsWith(howToObtain, EnemyPrefix) && Strip(titleNpc) != AbysseaNpc
  {
    if StartsWith(howToObtain, EnemyPrefix) then
      (if Strip(titleNpc) == AbysseaNpc then AbysseaEnemy else NonAbysseaEnemy)
    else ""
  }

  /** Whitespace around the NPC name never changes the tag. */
  lemma EnemyTagIgnoresNpcPadding(howToObtain: string, pre: string, titleNpc: string, post: string)
    requires AllWs(pre) && AllWs(post)
    ensures EnemyTag(howToObtain, pre + titleNpc + post) == EnemyTag(howToObtain, titleNpc)
  {
    StripIgnoresPadding(pre, titleNpc, post);
  }

  /** `add_enemy_tag`: the same rows, in the same order, each with its tag. */
  function AddEnemyTag(entries: seq<TitleEntry>): (r: seq<TaggedEntry>)
    ensures |r| == |entries|
    ensures forall i :: 0 <= i < |r| ==> r[i].entry == entries[i]
    ensures forall i :: 0 <= i < |r| ==> r[i].enemyTag == EnemyTag(r[i].entry.howToObtain, r[i].entry.titleNpc)
  {
    seq(|entries|, i requires 0 <= i < |entries| =>
      TaggedEntry(entries[i], EnemyTag(entries[i].howToObtain, entries[i].titleNpc)))
  }

  /** The entries of the report, without their tags. */
  function Untag(report: seq<TaggedEntry>): (r: seq<TitleEntry>)
    ensures |r| == |report| && forall i :: 0 <= i < |r| ==> r[i] == report[i].entry
  {
    seq(|report|, i requires 0 <= i < |report| => report[i].entry)
  }

  // ---------------------------------------------------------------------
  // The wanted list

  /** `[x.strip() for x in lines if x.strip()]`. */
  function WantedRaw(lines: seq<string>): (r: seq<string>)
    ensures |r| <= |lines|
  {
    if lines == [] then [] else KeptLine(lines[0]) + WantedRaw(lines[1..])
  }

  /** What one line contributes to the wanted list: its strip, unless that is empty. */
  function KeptLine(line: string): seq<string> {
    var w := Strip(line);
    if w != [] then [w] else []
  }

  /** The wanted names are exactly the non-empty strips of the lines. */
  lemma {:induction false} WantedRawMembers(lines: seq<string>, w: string)
    ensures w in WantedRaw(lines) <==> w != [] && exists l :: l in lines && Strip(l) == w
  {
    if lines != [] {
      var rest := lines[1..];
      WantedRawUnfold(lines);
      WantedRawMembers(rest, w);
      KeptLineMember(lines[0], w);
      assert w in WantedRaw(lines) <==> w in KeptLine(lines[0]) || w in WantedRaw(rest);
      if l :| l in rest && Strip(l) == w {
        assert l in lines;
      }
      if l :| l in lines && Strip(l) == w {
        assert l == lines[0] || l in rest;
      }
    }
  }

  lemma KeptLineMember(line: string, w: string)
    ensures w in KeptLine(line) <==> w != [] && Strip(line) == w
  {
  }

  /** The wanted list is built line by line: it distributes over concatenated lines, so it keeps their order and repeats. */
  lemma {:induction false} WantedRawConcat(a: seq<string>, b: seq<string>)
    ensures WantedRaw(a + b) == WantedRaw(a) + WantedRaw(b)
  {
    if a == [] {
      assert a + b == b;
    } else {
      WantedRawStep(a, b);
      WantedRawConcat(a[1..], b);
      WantedRawUnfold(a);
      RegroupLines(KeptLine(a[0]), WantedRaw(a[1..]), WantedRaw(b));
    }
  }

  // One unfolding of WantedRaw, with lines appended.
  lemma WantedRawStep(a: seq<string>, b: seq<string>)
    requires a != []
    ensures WantedRaw(a + b) == KeptLine(a[0]) + WantedRaw(a[1..] + b)
  {
    var s := a + b;
    assert s[0] == a[0] && s[1..] == a[1..] + b;
  }

  // One unfolding of WantedRaw.
  lemma WantedRawUnfold(a: seq<string>)
    requires a != []
    ensures WantedRaw(a) == KeptLine(a[0]) + WantedRaw(a[1..])
  {
  }

  // Associativity of three concatenations of lines, stated once for the WantedRaw proofs.
  lemma RegroupLines(h: seq<string>, x: seq<string>, y: seq<string>)
    ensures h + (x + y) == (h + x) + y
  {
  }

  /** A single line gives its strip as the one wanted name, or nothing when it is blank. */
  lemma WantedRawOne(line: string)
    ensures WantedRaw([line]) == if Strip(line) != [] then [Strip(line)] else []
  {
    assert [line][1..] == [];
  }

  /** A wanted name is never empty and has no whitespace at either end. */
  lemma WantedRawStripped(lines: seq<string>, w: string)
    requires w in WantedRaw(lines)
    ensures w != [] && NoEdgeWs(w)
  {
    WantedRawMembers(lines, w);
    var l :| l in lines && Strip(l) == w;
  }

  // The functions below take the title normaliser as the parameter
  // `norm`; `BuildReport` passes `Normalize`. Keeping it a parameter keeps
  // the long contract of `Normalize` out of these proofs, which use
  // nothing about it.

  /** `[normalize_title(x) for x in wanted_raw]`. */
  function NormalizeAll(norm: string -> string, ws: seq<string>): (r: seq<string>)
    ensures |r| == |ws| && forall i :: 0 <= i < |ws| ==> r[i] == norm(ws[i])
  {
    seq(|ws|, i requires 0 <= i < |ws| => norm(ws[i]))
  }

  /**
   * `{t: i for i, t in enumerate(ws)}`: later entries overwrite earlier
   * ones, so a repeated key maps to its LAST position.
   */
  function OrderIndex(ws: seq<string>): (m: map<string, nat>)
    ensures m.Keys == set w | w in ws
    ensures forall t :: t in m ==> m[t] < |ws| && ws[m[t]] == t
    ensures forall t :: t in m ==> forall j :: m[t] < j < |ws| ==> ws[j] != t
  {
    if ws == [] then map[]
    else OrderIndex(ws[..|ws| - 1])[ws[|ws| - 1] := |ws| - 1]
  }

  // ---------------------------------------------------------------------
  // Filtering and ordering

  /** `df[df["_TitleNorm"].isin(wanted)]`: the rows whose normalised title is wanted, duplicates included. */
  function KeepWanted(norm: string -> string, entries: seq<TitleEntry>, wanted: set<string>): (r: seq<TitleEntry>)
    ensures forall e :: multiset(r)[e] == if norm(e.title) in wanted then multiset(entries)[e] else 0
  {
    if entries == [] then []
    else
      assert entries == [entries[0]] + entries[1..];
      (if norm(entries[0].title) in wanted then [entries[0]] else []) + KeepWanted(norm, entries[1..], wanted)
  }

  /** `order_index.get(normalize_title(t), 10**9)`. */
  function OrderKey(norm: string -> string, index: map<string, nat>, e: TitleEntry): nat {
    var t := norm(e.title);
    if t in index then index[t] else OrderDefault
  }

  ghost predicate SortedByKey(norm: string -> string, index: map<string, nat>, s: seq<TitleEntry>) {
    forall i, j :: 0 <= i < j < |s| ==> OrderKey(norm, index, s[i]) <= OrderKey(norm, index, s[j])
  }

  /** A head with the smallest key in front of a sorted list keeps it sorted. */
  lemma SortedCons(norm: string -> string, index: map<string, nat>, y: TitleEntry, t: seq<TitleEntry>)
    requires SortedByKey(norm, index, t)
    requires forall e :: e in t ==> OrderKey(norm, index, y) <= OrderKey(norm, index, e)
    ensures SortedByKey(norm, index, [y] + t)
  {
    var r := [y] + t;
    forall i, j | 0 <= i < j < |r| ensures OrderKey(norm, index, r[i]) <= OrderKey(norm, index, r[j]) {
      if i == 0 {
        assert r[j] == t[j - 1] && r[j] in t;
      } else {
        assert r[i] == t[i - 1] && r[j] == t[j - 1];
      }
    }
  }

  /** Place `x` before the first element with a larger key. */
  function Insert(norm: string -> string, index: map<string, nat>, x: TitleEntry, s: seq<TitleEntry>): (r: seq<TitleEntry>)
    ensures multiset(r) == multiset(s) + multiset{x}
  {
    if s == [] then [x]
    else if OrderKey(norm, index, x) <= OrderKey(norm, index, s[0]) then [x] + s
    else
      assert s == [s[0]] + s[1..];
      [s[0]] + Insert(norm, index, x, s[1..])
  }

  /** Inserting into a sorted list keeps it sorted. */
  lemma {:induction false} InsertKeepsSorted(norm: string -> string, index: map<string, nat>, x: TitleEntry, s: seq<TitleEntry>)
    requires SortedByKey(norm, index, s)
    ensures SortedByKey(norm, index, Insert(norm, index, x, s))
  {
    if s == [] {
    } else if OrderKey(norm, index, x) <= OrderKey(norm, index, s[0]) {
      forall e | e in s ensures OrderKey(norm, index, x) <= OrderKey(norm, index, e) {
        var k :| 0 <= k < |s| && s[k] == e;
        if k > 0 { assert OrderKey(norm, index, s[0]) <= OrderKey(norm, index, s[k]); }
      }
      SortedCons(norm, index, x, s);
    } else {
      var t := Insert(norm, index, x, s[1..]);
      assert s == [s[0]] + s[1..];
      assert SortedByKey(norm, index, s[1..]) by {
        forall i, j | 0 <= i < j < |s[1..]|
          ensures OrderKey(norm, index, s[1..][i]) <= OrderKey(norm, index, s[1..][j])
        {
          assert s[1..][i] == s[i + 1] && s[1..][j] == s[j + 1];
        }
      }
      InsertKeepsSorted(norm, index, x, s[1..]);
      forall e | e in t ensures OrderKey(norm, index, s[0]) <= OrderKey(norm, index, e) {
        assert e in multiset(t);
        if e != x {
          assert e in multiset(s[1..]);
          var k :| 0 <= k < |s[1..]| && s[1..][k] == e;
          assert s[k + 1] == e;
        }
      }
      SortedCons(norm, index, s[0], t);
    }
  }

  /**
   * `sort_values("_order")`. The model sorts by insertion, which is
   * stable; pandas' default sort is not, so nothing relies on the order
   * of rows with equal keys.
   */
  function SortByOrder(norm: string -> string, index: map<string, nat>, s: seq<TitleEntry>): (r: seq<TitleEntry>)
    ensures multiset(r) == multiset(s)
    ensures SortedByKey(norm, index, r)
  {
    if s == [] then []
    else
      assert s == [s[0]] + s[1..];
      var t := SortByOrder(norm, index, s[1..]);
      InsertKeepsSorted(norm, index, s[0], t);
      Insert(norm, index, s[0], t)
  }

  // ---------------------------------------------------------------------
  // The missing list

  /** `[t for t in ws if normalize_title(t) not in found]`. */
  function Missing(norm: string -> string, ws: seq<string>, found: set<string>): (r: seq<string>)
    ensures |r| <= |ws|
    ensures forall i :: 0 <= i < |r| ==> norm(r[i]) !in found
  {
    if ws == [] then []
    else (if norm(ws[0]) !in found then [ws[0]] else []) + Missing(norm, ws[1..], found)
  }

  /** A missing title is listed as often as it is wanted. */
  lemma {:induction false} MissingCounts(norm: string -> string, ws: seq<string>, found: set<string>)
    ensures forall t :: multiset(Missing(norm, ws, found))[t] == if norm(t) in found then 0 else multiset(ws)[t]
  {
    if ws != [] {
      assert ws == [ws[0]] + ws[1..];
      MissingCounts(norm, ws[1..], found);
    }
  }

  /** The missing list keeps the wanted order: it is computed item by item. */
  lemma {:induction false} MissingConcat(norm: string -> string, a: seq<string>, b: seq<string>, found: set<string>)
    ensures Missing(norm, a + b, found) == Missing(norm, a, found) + Missing(norm, b, found)
  {
    if a == [] {
      assert a + b == b;
    } else {
      var head := if norm(a[0]) !in found then [a[0]] else [];
      assert (a + b)[0] == a[0] && (a + b)[1..] == a[1..] + b;
      assert Missing(norm, a + b, found) == head + Missing(norm, a[1..] + b, found);
      assert Missing(norm, a, found) == head + Missing(norm, a[1..], found);
      MissingConcat(norm, a[1..], b, found);
      var x, y := Missing(norm, a[1..], found), Missing(norm, b, found);
      assert head + (x + y) == (head + x) + y;
    }
  }

  /** Only the found keys of the listed titles matter. */
  lemma {:induction false} MissingDependsOnListedKeys(norm: string -> string, ws: seq<string>, a: set<string>, b: set<string>)
    requires forall i :: 0 <= i < |ws| ==> (norm(ws[i]) in a <==> norm(ws[i]) in b)
    ensures Missing(norm, ws, a) == Missing(norm, ws, b)
  {
    if ws != [] {
      MissingDependsOnListedKeys(norm, ws[1..], a, b);
    }
  }

  /** The normalised titles of a list of entries. */
  function TitleKeys(norm: string -> string, entries: seq<TitleEntry>): (r: set<string>)
    ensures forall e :: e in entries ==> norm(e.title) in r
    ensures forall t :: t in r ==> exists e :: e in entries && norm(e.title) == t
  {
    set e | e in entries :: norm(e.title)
  }

  // ---------------------------------------------------------------------
  // main

  /** Every copy of a wanted entry is among `rows`, and nothing else is. */
  ghost predicate KeptExactly(norm: string -> string, index: map<string, nat>, entries: seq<TitleEntry>, rows: seq<TitleEntry>) {
    forall e :: multiset(rows)[e] == if norm(e.title) in index then multiset(entries)[e] else 0
  }

  /** The order key of every row comes from the index, never from the default. */
  ghost predicate KeyedByIndex(norm: string -> string, index: map<string, nat>, rows: seq<TitleEntry>) {
    forall i :: 0 <= i < |rows| ==> norm(rows[i].title) in index
  }

  /** Every row carries the tag of `tag`. */
  ghost predicate Tagged(rows: seq<TaggedEntry>) {
    forall i :: 0 <= i < |rows| ==> rows[i].enemyTag == EnemyTag(rows[i].entry.howToObtain, rows[i].entry.titleNpc)
  }

  /** What a report for `lines` over `entries` must be, with `norm` as the normaliser. */
  ghost predicate IsReportOf(norm: string -> string, lines: seq<string>, entries: seq<TitleEntry>, report: Report) {
    var index := OrderIndex(NormalizeAll(norm, WantedRaw(lines)));
    && KeptExactly(norm, index, entries, Untag(report.rows))
    && KeyedByIndex(norm, index, Untag(report.rows))
    && SortedByKey(norm, index, Untag(report.rows))
    && Tagged(report.rows)
    // the missing list: the wanted lines whose key is no entry's key
    && report.missing == Missing(norm, WantedRaw(lines), TitleKeys(norm, entries))
  }

  /** Kept rows are exactly the rows whose key is in the index. */
  lemma KeptAreKeyed(norm: string -> string, index: map<string, nat>, entries: seq<TitleEntry>, rows: seq<TitleEntry>)
    requires KeptExactly(norm, index, entries, rows)
    ensures KeyedByIndex(norm, index, rows)
  {
    forall i | 0 <= i < |rows| ensures norm(rows[i].title) in index {
      assert rows[i] in multiset(rows);
    }
  }

  /** For a wanted title, being found among the kept rows is being found among all entries. */
  lemma FoundAmongKept(norm: string -> string, index: map<string, nat>, entries: seq<TitleEntry>, rows: seq<TitleEntry>, ws: seq<string>)
    requires KeptExactly(norm, index, entries, rows)
    requires forall i :: 0 <= i < |ws| ==> norm(ws[i]) in index
    ensures Missing(norm, ws, TitleKeys(norm, rows)) == Missing(norm, ws, TitleKeys(norm, entries))
  {
    forall i | 0 <= i < |ws|
      ensures norm(ws[i]) in TitleKeys(norm, rows) <==> norm(ws[i]) in TitleKeys(norm, entries)
    {
      var t := norm(ws[i]);
      if t in TitleKeys(norm, entries) {
        var e :| e in entries && norm(e.title) == t;
        assert multiset(rows)[e] == multiset(entries)[e];
        assert e in multiset(rows);
      }
      if t in TitleKeys(norm, rows) {
        var e :| e in rows && norm(e.title) == t;
        assert e in multiset(rows);
      }
    }
    MissingDependsOnListedKeys(norm, ws, TitleKeys(norm, rows), TitleKeys(norm, entries));
  }

  /** The selection, given the normaliser. */
  method Select(norm: string -> string, lines: seq<string>, entries: seq<TitleEntry>) returns (report: Report)
    ensures IsReportOf(norm, lines, entries, report)
  {
    var wantedRaw := WantedRaw(lines);
    var wantedNorm := NormalizeAll(norm, wantedRaw);
    var wantedSet := set w | w in wantedNorm;
    var filtered := KeepWanted(norm, entries, wantedSet);
    var orderIndex := OrderIndex(wantedNorm);
    filtered := SortByOrder(norm, orderIndex, filtered);
    var tagged := AddEnemyTag(filtered);
    var foundNorm := TitleKeys(norm, filtered);
    var missing := Missing(norm, wantedRaw, foundNorm);
    report := Report(tagged, missing);

    assert Untag(tagged) == filtered;
    assert orderIndex.Keys == wantedSet;
    assert KeptExactly(norm, orderIndex, entries, filtered);
    KeptAreKeyed(norm, orderIndex, entries, filtered);
    assert forall i :: 0 <= i < |wantedRaw| ==> norm(wantedRaw[i]) in orderIndex by {
      forall i | 0 <= i < |wantedRaw| ensures norm(wantedRaw[i]) in orderIndex {
        assert wantedNorm[i] in wantedSet;
      }
    }
    FoundAmongKept(norm, orderIndex, entries, filtered, wantedRaw);
  }

  /** A wanted key is missing exactly when no kept row has it. */
  lemma MissingIffUnmatched(norm: string -> string, index: map<string, nat>, entries: seq<TitleEntry>,
                            rows: seq<TitleEntry>, ws: seq<string>, w: string)
    requires KeptExactly(norm, index, entries, rows)
    requires w in ws && norm(w) in index
    ensures w in Missing(norm, ws, TitleKeys(norm, entries)) <==> forall e :: e in rows ==> norm(e.title) != norm(w)
  {
    var missing := Missing(norm, ws, TitleKeys(norm, entries));
    MissingCounts(norm, ws, TitleKeys(norm, entries));
    assert w in multiset(ws);
    if w in missing {
      assert w in multiset(missing);
      forall e | e in rows ensures norm(e.title) != norm(w) {
        assert e in multiset(rows);
        assert e in multiset(entries);
      }
    } else {
      assert w !in multiset(missing);
      var e :| e in entries && norm(e.title) == norm(w);
      assert e in multiset(entries);
      assert e in multiset(rows);
    }
  }

  /**
   * Every wanted line is reported in exactly one way: some row of the
   * report has its key, or it is on the missing list.
   */
  lemma MissingIsComplement(norm: string -> string, lines: seq<string>, entries: seq<TitleEntry>, report: Report, w: string)
    requires IsReportOf(norm, lines, entries, report)
    requires w in WantedRaw(lines)
    ensures w in report.missing <==> forall e :: e in Untag(report.rows) ==> norm(e.title) != norm(w)
  {
    var ws := WantedRaw(lines);
    var wanted := NormalizeAll(norm, ws);
    var k :| 0 <= k < |ws| && ws[k] == w;
    assert wanted[k] == norm(w);
    MissingIffUnmatched(norm, OrderIndex(wanted), entries, Untag(report.rows), ws, w);
  }

  /** The selection part of `main`, from the wanted lines and the extracted entries. */
  method BuildReport(lines: seq<string>, entries: seq<TitleEntry>) returns (report: Report)
    ensures IsReportOf(Normalize, lines, entries, report)
  {
    report := Select(Normalize, lines, entries);
  }

  /**
   * The message `main` prints when the titles table has no three-cell row:
   * the loader then returns a DataFrame without columns, and `df["Title"]`
   * raises `KeyError('Title')`, whose text is the quoted column name.
   */
  const NoTitleColumnMessage: string := "'Title'"

  /**
   * `main` up to the writing of the outputs: load the table, then build
   * the report. Both errors are the ones `main` prints before exiting with
   * status 1: no titles table, or a titles table with no three-cell row.
   */
  method Run(lines: seq<string>, tables: seq<Table>, resolve: string -> string) returns (r: Result<Report, string>)
    ensures (forall t :: t in tables ==> !IsTitlesHeader(t.headers)) ==> r == Failure(NotFoundMessage)
    ensures forall k :: IsFirstTitlesTable(tables, k) ==>
      if EntriesOf(tables[k].rows, resolve) == [] then r == Failure(NoTitleColumnMessage)
      else r.Success? && IsReportOf(Normalize, lines, EntriesOf(tables[k].rows, resolve), r.value)
  {
    var loaded := LoadTitlesTable(tables, resolve);
    if loaded.Failure? {
      return Failure(loaded.error);
    }
    ghost var k :| IsFirstTitlesTable(tables, k) && loaded.value == EntriesOf(tables[k].rows, resolve);
    FirstTitlesTableUnique(tables, k);
    if loaded.value == [] {
      return Failure(NoTitleColumnMessage);
    }
    var report := BuildReport(lines, loaded.value);
    r := Success(report);
  }
}
