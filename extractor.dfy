/**
 * `load_titles_table_with_links` after the page has been fetched and
 * parsed: pick the titles table by its header cells, then turn every
 * three-cell row into a title entry.
 */
module TableExtractor {
  import opened Wrappers
  import opened Text
  import opened CellSanitizer

  /**
   * A `td` cell as the HTML library hands it over: its text
   * (`get_text(" ", strip=True)`), its serialised contents after every tag
   * but `a` and `br` was unwrapped and the hrefs were made absolute
   * (`decode_contents()`), and the raw `href` of each of its anchors, in
   * document order.
   */
  datatype Cell = Cell(text: string, html: string, hrefs: seq<string>)

  /** A table: the text of each of its `th` cells, and the `td` cells of each of its `tr` rows. */
  datatype Table = Table(headers: seq<string>, rows: seq<seq<Cell>>)

  /** One extracted row of the titles table. */
  datatype TitleEntry = TitleEntry(
    title: string,
    howToObtain: string,
    howToObtainHtml: string,
    howToObtainLinks: string,
    titleNpc: string)

  const NotFoundMessage: string := "Could not locate the Titles / How to obtain / Title NPC table."

  /** The link column separator. */
  const LinkSeparator: string := " | "

  /** The header test: at least three header cells, the first three being the expected labels. */
  predicate IsTitlesHeader(ths: seq<string>) {
    |ths| >= 3 && ths[0] == "Titles" && ths[1] == "How to obtain" && ths[2] == "Title NPC"
  }

  /** `k` is the position of the first titles table. */
  predicate IsFirstTitlesTable(tables: seq<Table>, k: int) {
    0 <= k < |tables| && IsTitlesHeader(tables[k].headers)
    && forall j :: 0 <= j < k ==> !IsTitlesHeader(tables[j].headers)
  }

  /** There is at most one first titles table. */
  lemma FirstTitlesTableUnique(tables: seq<Table>, k: int)
    requires IsFirstTitlesTable(tables, k)
    ensures forall j :: IsFirstTitlesTable(tables, j) ==> j == k
  {
  }

  /** The table loop of `load_titles_table_with_links`: the first table whose headers match, or none. */
  method FindTitlesTable(tables: seq<Table>) returns (found: Option<nat>)
    ensures found.Some? ==> IsFirstTitlesTable(tables, found.value)
    ensures found.None? <==> forall t :: t in tables ==> !IsTitlesHeader(t.headers)
  {
    found := None;
    var i := 0;
    while i < |tables|
      invariant 0 <= i <= |tables|
      invariant forall j :: 0 <= j < i ==> !IsTitlesHeader(tables[j].headers)
    {
      if IsTitlesHeader(tables[i].headers) {
        found := Some(i);
        return;
      }
      i := i + 1;
    }
  }

  /** `sep.join(xs)`. */
  function Join(xs: seq<string>, sep: string): (r: string)
    ensures xs == [] ==> r == []
    ensures |xs| == 1 ==> r == xs[0]
  {
    if xs == [] then []
    else if |xs| == 1 then xs[0]
    else xs[0] + sep + Join(xs[1..], sep)
  }

  /** Joining one more link appends the separator and that link. */
  lemma {:induction false} JoinAppend(xs: seq<string>, x: string, sep: string)
    requires xs != []
    ensures Join(xs + [x], sep) == Join(xs, sep) + sep + x
    decreases |xs|
  {
    var s := xs + [x];
    assert s[0] == xs[0] && s[1..] == xs[1..] + [x];
    if |xs| == 1 {
      assert s[1..] == [x];
    } else {
      JoinAppend(xs[1..], x, sep);
      var j := Join(xs[1..], sep);
      assert Join(s, sep) == xs[0] + sep + (j + sep + x);
      assert xs[0] + sep + (j + sep + x) == (xs[0] + sep + j) + sep + x;
    }
  }

  /** The entry `load_titles_table_with_links` builds from a three-cell row; `resolve` stands for `urljoin(BASE, _)`. */
  function EntryOf(tds: seq<Cell>, resolve: string -> string): (e: TitleEntry)
    requires |tds| == 3
    ensures '\n' !in e.howToObtainHtml && NoEdgeWs(e.howToObtainHtml) && NoAdjacentWs(e.howToObtainHtml)
  {
    TitleEntry(
      tds[0].text,
      tds[1].text,
      SanitizeTail(tds[1].html),
      Join(Dedup(Resolved(tds[1].hrefs, resolve)), LinkSeparator),
      tds[2].text)
  }

  /** The entries of a sequence of rows, built by appending in document order. */
  function EntriesOf(trs: seq<seq<Cell>>, resolve: string -> string): (r: seq<TitleEntry>)
    ensures |r| <= |trs|
  {
    if trs == [] then []
    else
      var tds := trs[|trs| - 1];
      EntriesOf(trs[..|trs| - 1], resolve) + (if |tds| == 3 then [EntryOf(tds, resolve)] else [])
  }

  /** The row loop of `load_titles_table_with_links`: skip every row without exactly three `td` cells. */
  method ExtractRows(trs: seq<seq<Cell>>, resolve: string -> string) returns (rows: seq<TitleEntry>)
    ensures rows == EntriesOf(trs, resolve)
  {
    rows := [];
    for i := 0 to |trs|
      invariant rows == EntriesOf(trs[..i], resolve)
    {
      assert trs[..i + 1][..i] == trs[..i];
      var tds := trs[i];
      if |tds| != 3 {
        continue;
      }
      var links := CellLinks(tds[1].hrefs, resolve);
      rows := rows + [TitleEntry(tds[0].text, tds[1].text, SanitizeTail(tds[1].html),
                                 Join(links, LinkSeparator), tds[2].text)];
    }
    assert trs[..|trs|] == trs;
  }

  /** Entries are produced row by row, in document order: extraction distributes over concatenation. */
  lemma {:induction false} EntriesOfConcat(a: seq<seq<Cell>>, b: seq<seq<Cell>>, resolve: string -> string)
    ensures EntriesOf(a + b, resolve) == EntriesOf(a, resolve) + EntriesOf(b, resolve)
    decreases |b|
  {
    if b == [] {
      assert a + b == a;
    } else {
      var b' := b[..|b| - 1];
      assert (a + b)[..|a + b| - 1] == a + b';
      assert (a + b)[|a + b| - 1] == b[|b| - 1];
      EntriesOfConcat(a, b', resolve);
    }
  }

  /** A single row yields one entry when it has exactly three cells, and none otherwise. */
  lemma EntriesOfOne(tds: seq<Cell>, resolve: string -> string)
    ensures EntriesOf([tds], resolve) == if |tds| == 3 then [EntryOf(tds, resolve)] else []
  {
    assert [tds][..0] == [];
  }

  /**
   * `load_titles_table_with_links` from the parsed tables on: the rows of
   * the first titles table, or the message of the `RuntimeError` it
   * raises when there is none.
   */
  method LoadTitlesTable(tables: seq<Table>, resolve: string -> string)
    returns (r: Result<seq<TitleEntry>, string>)
    ensures r.Failure? <==> forall t :: t in tables ==> !IsTitlesHeader(t.headers)
    ensures r.Failure? ==> r.error == NotFoundMessage
    ensures r.Success? ==> exists k :: IsFirstTitlesTable(tables, k) && r.value == EntriesOf(tables[k].rows, resolve)
  {
    var found := FindTitlesTable(tables);
    if found.None? {
      return Failure(NotFoundMessage);
    }
    var rows := ExtractRows(tables[found.value].rows, resolve);
    r := Success(rows);
  }
}
