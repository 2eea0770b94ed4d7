# TitleReportGenerator in Dafny

`titlereportgenerator.py` takes a list of FFXI title names and the "Titles" page of BG-Wiki. It finds the table whose headers are "Titles", "How to obtain" and "Title NPC", and keeps the rows whose title matches a wanted name. Matching happens after a normalisation that fixes mojibake, drops star glyphs and collapses whitespace. The script orders the kept rows as the wanted list orders them and tags enemy titles as Abyssea or not. It then writes a CSV file and a sortable HTML page, and prints the wanted names it could not find.

This project models the logic of that script and proves properties of it:

- `Text` (`text.dfy`) holds the string primitives the script uses:
  - Python's whitespace class (`str.isspace`, which is also `\s`);
  - `strip`;
  - `str.replace`, as one left-to-right pass of non-overlapping matches;
  - `re.sub(r"\s+", " ", _)` and `re.sub(r"\s{2,}", " ", _)`;
  - removal of a character class.
- `Normalizer` (`normalizer.dfy`) is `normalize_title`.
- `HtmlEscape` (`escape.dfy`) is `escape`, with an unescaper that serves as its inverse.
- `CellSanitizer` (`cells.dfy`) holds two things:
  - `cell_links`, as an imperative method with its two loops;
  - the string tail of `sanitize_td_keep_anchors`.
- `TableExtractor` (`extractor.dfy`) is `load_titles_table_with_links` after parsing. Its two loops, the table search and the row extraction, are methods.
- `ReportBuilder` (`report.dfy`) is `add_enemy_tag` and the selection part of `main`:
  - the wanted list;
  - the filter;
  - the order index and the sort;
  - the missing list.

  `Select` is a method that rebinds the DataFrame values step by step, where the script updates the DataFrame in place. `BuildReport` calls it with `Normalize`.

Where the code and its documentation disagree, the model follows the code:

- **The trademark sign.** Line 37 of the script removes the two-character sequence U+0081 U+2122, not a lone "™". A lone "™" survives normalisation (`Normalizer.NormalizeKeepsLoneTradeMark`); a "™" is removed only where it ends up right after U+0081, which an earlier removal on line 35 or 36 can bring about.
- **Idempotence.** `normalize_title` is not idempotent. Removing "A?Å¡" can join the pieces around it into a new "A?â,¢". That sequence is removed only by a second application (`Normalizer.NormalizeNotIdempotent`).
- **Duplicated wanted names.** The order index is a dict comprehension, so a wanted name that appears twice gets its LAST position, not its first (`ReportBuilder.OrderIndex`).
- **Stars.** The star glyphs are removed on line 40, after the character fixes of lines 34-38. A star can therefore split a sequence that would otherwise be removed: "A?★â,¢" keeps "A?â,¢", while "A?â,¢" normalises to the empty key (`Normalizer.NormalizeStarSplitsMojibake`). A star is ignored only where no fix spans its position (`Normalizer.NormalizeIgnoresStar`).
- **Equal keys.** `sort_values` uses pandas' default sort, which is not stable. The model therefore claims nothing about the order of rows with equal keys. It uses an insertion sort and proves only the sort's contract: it is a permutation and the keys never decrease.
- **A table with no three-cell row.** The loader then returns a DataFrame without columns, and `df["Title"]` on line 232 raises `KeyError('Title')`. `main` stops there and prints `ERROR: 'Title'` (`ReportBuilder.Run`).
- **The 10**9 default.** The default order value is never used. Every kept row's key is in the index (`ReportBuilder.KeyedByIndex`, part of `IsReportOf`).

In `ReportBuilder`, the filter, sort and missing-list functions take the normaliser as a parameter `norm`. `BuildReport` and `Run` instantiate it with `Normalizer.Normalize`.

## Model

| member | source | states |
|---|---|---|
| Text.StripLeft | titlereportgenerator.py:41 | `lstrip` half of `strip`: the result is a suffix of the input, the removed prefix is all whitespace, and the result does not start with whitespace |
| Text.StripRight | titlereportgenerator.py:41 | `rstrip` half of `strip`: the result is a prefix of the input, the removed suffix is all whitespace, and the result does not end with whitespace |
| Text.StripSpec | titlereportgenerator.py:41 | `strip` leaves no edge whitespace, keeps every non-whitespace character in order, and keeps the single-space shape of its input |
| Text.IsWs | titlereportgenerator.py:41 | the whitespace class of `str.isspace` and of `\s`: the 29 code points Python counts as whitespace |
| Text.Strip | titlereportgenerator.py:41 | `strip` leaves no whitespace at either end and never lengthens the text |
| Text.StripIgnoresPadding | titlereportgenerator.py:128 | stripping a text padded with whitespace on both sides gives the same as stripping the text |
| Text.ReplaceAll | titlereportgenerator.py:34-38 | a replacement introduces no characters other than those of the replacement; replacing a single character by text without it removes every occurrence; a replacement no longer than the pattern does not lengthen the text |
| Text.ReplaceAllAbsent | titlereportgenerator.py:34-38 | a text without an occurrence of the pattern is unchanged |
| Text.ReplaceAllLeftmost | titlereportgenerator.py:34-38 | the leftmost occurrence of the pattern is replaced, the text before it is kept, and the scan resumes right after it |
| Text.ReplaceAllSingle | titlereportgenerator.py:137-142 | replacing one character equals the character-wise substitution `ReplaceChar` |
| Text.ReplaceCharConcat | titlereportgenerator.py:137-142 | character substitution distributes over concatenation |
| Text.CollapseRuns | titlereportgenerator.py:41 | `re.sub(r"\s+", " ")`: empty exactly when the input is, starts with whitespace exactly when the input does, never longer |
| Text.CollapseRunsKeepsLast | titlereportgenerator.py:41 | a last character that is not whitespace survives the collapse |
| Text.CollapseRunsSpaces | titlereportgenerator.py:41 | the result has no two adjacent whitespace characters and its only whitespace is the plain space |
| Text.CollapseRunsChars | titlereportgenerator.py:41 | the collapse introduces no character but the space |
| Text.CollapseRunsShape | titlereportgenerator.py:41 | the three properties above together |
| Text.CollapseRunsNonWs | titlereportgenerator.py:41 | collapsing keeps every non-whitespace character in order |
| Text.CollapseRunsFixed | titlereportgenerator.py:41 | a text without adjacent whitespace whose whitespace is spaces is unchanged |
| Text.CollapseLongRuns | titlereportgenerator.py:79 | `re.sub(r"\s{2,}", " ")`: empty exactly when the input is, starts with whitespace exactly when the input does, never longer |
| Text.CollapseLongRunsKeepsLast | titlereportgenerator.py:79 | a last character that is not whitespace survives the long-run collapse |
| Text.CollapseLongRunsNoAdjacent | titlereportgenerator.py:79 | the result has no two adjacent whitespace characters |
| Text.CollapseLongRunsChars | titlereportgenerator.py:79 | the long-run collapse introduces no character but the space |
| Text.CollapseLongRunsShape | titlereportgenerator.py:79 | the three properties above together |
| Text.CollapseLongRunsNonWs | titlereportgenerator.py:79 | the long-run collapse keeps every non-whitespace character in order |
| Text.CollapseLongRunsFixed | titlereportgenerator.py:79 | a text without adjacent whitespace is unchanged |
| Text.CollapseWs | titlereportgenerator.py:41 | the whitespace normalisation of a title: no edge whitespace, no adjacent whitespace, all whitespace is a space, no new characters but space, never longer |
| Text.CollapseWsFixed | titlereportgenerator.py:41 | the whitespace normalisation leaves a text unchanged if and only if it already has those three properties |
| Text.CollapseWsIdempotent | titlereportgenerator.py:41 | the whitespace normalisation on its own is idempotent |
| Text.CollapseWsNonWs | titlereportgenerator.py:41 | the whitespace normalisation keeps every non-whitespace character in order |
| Text.CollapseRunsConcat | titlereportgenerator.py:41 | `re.sub(r"\s+", " ")` works piecewise: split just after a non-whitespace character, the pieces collapse on their own |
| Text.CollapseRunsBetweenWords | titlereportgenerator.py:41 | any whitespace run between two words becomes exactly one space, and the text on either side collapses on its own |
| Text.CollapseLongRunsConcat | titlereportgenerator.py:79 | `re.sub(r"\s{2,}", " ")` works piecewise: split just after a non-whitespace character, the pieces collapse on their own |
| Text.CollapseLongRunsBetweenWords | titlereportgenerator.py:79 | a whitespace run of two or more characters between two words becomes exactly one space |
| Text.CollapseLongRunsKeepsLone | titlereportgenerator.py:79 | a single character between two words, whitespace or not, stays where it is |
| Text.CollapseWsBetweenWords | titlereportgenerator.py:41 | after collapsing and stripping, any whitespace run between two words is exactly one space |
| Text.CollapseWsAnyRun | titlereportgenerator.py:41 | texts that differ only in the kind and length of one whitespace run, wherever it is, collapse alike |
| Text.CollapseRunsAnyGap | titlereportgenerator.py:41 | replacing one non-empty whitespace run by another, wherever it is, does not change the collapsed text |
| Text.ReplaceAllBarrier | titlereportgenerator.py:34-38 | a character not in the pattern splits the text: each side is rewritten on its own |
| Text.ReplaceAllAroundGap | titlereportgenerator.py:34-38 | a non-empty run of characters not in the pattern is kept, and each side of it is rewritten on its own |
| Text.RemoveChars | titlereportgenerator.py:40 | removing a character class leaves none of it, keeps the count of every other character, and never lengthens the text |
| Text.RemoveCharsNone | titlereportgenerator.py:40 | a text without class members is unchanged |
| Text.RemoveCharsConcat | titlereportgenerator.py:40 | removing a character class works piecewise, so the kept characters stay in their order |
| Normalizer.FixMojibake | titlereportgenerator.py:34-38 | after the apostrophe rewrite and the four removals, no curly apostrophe and no "š" remain, the only new character is the apostrophe, and the text is not longer |
| Normalizer.Normalize | titlereportgenerator.py:29-42 | the key has no curly apostrophe, no "š", no star glyph, no edge or adjacent whitespace and only spaces as whitespace; its characters come from the title plus apostrophe and space, and it is never longer than the title |
| Normalizer.NormalizeKeepsWords | titlereportgenerator.py:39-41 | the key's non-whitespace characters are exactly those left after the character fixes and the star removal |
| Normalizer.NormalizeNotIdempotent | titlereportgenerator.py:35-36 | "A?A?Å¡â,¢" normalises to "A?â,¢", which normalises again to the empty text |
| Normalizer.FixMojibakeJoins | titlereportgenerator.py:35-36 | the removal of "A?Å¡" joins a new "A?â,¢" that the earlier removal missed |
| Normalizer.NormalizeKeepsLoneTradeMark | titlereportgenerator.py:37 | a lone TRADE MARK SIGN is kept: only the pair U+0081 U+2122 is removed |
| Normalizer.NormalizeClean | titlereportgenerator.py:29-42 | for a title holding none of the characters a fix starts with, the key is its star-free text with whitespace collapsed |
| Normalizer.FixMojibakeAround | titlereportgenerator.py:34-38 | a non-empty run of characters that no fix involves is kept, and the fixes run on each side of it on their own |
| Normalizer.NormalizeStarSplits | titlereportgenerator.py:34-40 | a star glyph splits a title: the fixes run on each side of it, then the star is removed |
| Normalizer.NormalizeIgnoresStar | titlereportgenerator.py:34-40 | a star glyph does not change the key wherever the fixes do not span its position |
| Normalizer.NormalizeStarSplitsMojibake | titlereportgenerator.py:35-40 | "A?★â,¢" normalises to "A?â,¢", while "A?â,¢" normalises to the empty text |
| Normalizer.NormalizeLeadingStar | titlereportgenerator.py:34-40 | a leading star glyph never changes the key |
| Normalizer.NormalizeAnyRun | titlereportgenerator.py:34-41 | a whitespace run of any kind and length, anywhere in a title, gives the same key as a single space |
| Normalizer.NormalizeFellowFortifier | titlereportgenerator.py:39-41 | "Fellow  Fortifier" and "★Fellow Fortifier" have the key of "Fellow Fortifier" |
| HtmlEscape.Escape | titlereportgenerator.py:136-142 | the escaped text contains no `<`, `>`, `"` or `'` |
| HtmlEscape.EscapeChar | titlereportgenerator.py:136-142 | a character is left alone exactly when it is none of the five special characters |
| HtmlEscape.EscapeIsCharwise | titlereportgenerator.py:136-142 | the chain of five replacements, `&` first, equals escaping each character on its own (no double escaping) |
| HtmlEscape.EscapeSplits | titlereportgenerator.py:136-142 | escaping distributes over concatenation |
| HtmlEscape.UnescapeEscape | titlereportgenerator.py:136-142 | decoding the five entities gives back the original text |
| HtmlEscape.EscapeInjective | titlereportgenerator.py:136-142 | two texts with the same escape are equal |
| HtmlEscape.EscapeAmpersands | titlereportgenerator.py:136-142 | every `&` of an escaped text starts one of the five entities |
| CellSanitizer.Dedup | titlereportgenerator.py:50-57 | the de-duplicated list has no duplicates, the same members as its input, and is not longer |
| CellSanitizer.DedupFirstSeenOrder | titlereportgenerator.py:50-57 | the kept links are in the order of their first occurrence |
| CellSanitizer.DedupOfDistinct | titlereportgenerator.py:50-57 | a list without duplicates is unchanged |
| CellSanitizer.CellLinks | titlereportgenerator.py:45-57 | the two loops compute the de-duplicated absolute hrefs: no duplicates, exactly the resolved hrefs as members, in first-seen order, at most one per anchor |
| CellSanitizer.Resolved | titlereportgenerator.py:47-49 | one resolved href per anchor, in anchor order |
| CellSanitizer.SanitizeTail | titlereportgenerator.py:77-79 | the sanitised HTML has no newline, no edge whitespace, no two adjacent whitespace characters and is not longer |
| CellSanitizer.SanitizeTailKeepsText | titlereportgenerator.py:77-79 | the sanitisation keeps every non-whitespace character in order |
| CellSanitizer.SanitizeTailFixed | titlereportgenerator.py:77-79 | the sanitisation leaves the HTML unchanged if and only if it has no newline, no edge whitespace and no adjacent whitespace |
| CellSanitizer.SanitizeTailIdempotent | titlereportgenerator.py:77-79 | sanitising twice is sanitising once |
| CellSanitizer.SanitizeTailBetweenWords | titlereportgenerator.py:77-79 | a whitespace run of two or more characters between two words, newlines included, becomes exactly one space |
| CellSanitizer.SanitizeTailKeepsLone | titlereportgenerator.py:77-79 | a single character between two words is kept, except that a newline becomes a space; a lone tab stays a tab |
| TableExtractor.FindTitlesTable | titlereportgenerator.py:92-97 | the loop returns the first table with the three expected header labels, and none exactly when no table has them |
| TableExtractor.IsTitlesHeader | titlereportgenerator.py:94-95 | the header test: at least three header texts, the first three being "Titles", "How to obtain" and "Title NPC" |
| TableExtractor.FirstTitlesTableUnique | titlereportgenerator.py:93-97 | the first table passing the header test is unique |
| TableExtractor.Join | titlereportgenerator.py:111 | joining no links gives the empty text, joining one gives that link |
| TableExtractor.JoinAppend | titlereportgenerator.py:111 | joining one more link appends the separator and that link |
| TableExtractor.EntryOf | titlereportgenerator.py:108-120 | the entry of a three-cell row; its sanitised markup has no newline, no edge whitespace and no adjacent whitespace |
| TableExtractor.ExtractRows | titlereportgenerator.py:102-122 | the row loop yields one entry per row with exactly three cells, in document order (`EntriesOf`) |
| TableExtractor.EntriesOfConcat | titlereportgenerator.py:102-122 | extraction distributes over concatenated rows, so the document order is preserved |
| TableExtractor.EntriesOfOne | titlereportgenerator.py:104-106 | a single row yields its entry if it has three cells and nothing otherwise |
| TableExtractor.LoadTitlesTable | titlereportgenerator.py:92-122 | fails with the `RuntimeError` message of line 100 exactly when no table has the expected headers; otherwise returns the entries of the first such table |
| ReportBuilder.EnemyTag | titlereportgenerator.py:125-131 | the tag is empty exactly when the way to obtain does not start with "Enemy"; otherwise it is "Abyssea Enemy" exactly when the stripped NPC is "Zuah Lepahnyu", and "Non-Abyssea Enemy" otherwise |
| ReportBuilder.EnemyTagIgnoresNpcPadding | titlereportgenerator.py:128 | whitespace around the NPC name does not change the tag |
| ReportBuilder.AddEnemyTag | titlereportgenerator.py:125-132 | every row is kept, in order, and carries its tag |
| ReportBuilder.WantedRaw | titlereportgenerator.py:227 | there are no more wanted names than lines (order and repetition: `WantedRawConcat`) |
| ReportBuilder.WantedRawStripped | titlereportgenerator.py:227 | no wanted name is empty or has whitespace at either end |
| ReportBuilder.WantedRawMembers | titlereportgenerator.py:227 | a name is wanted exactly when it is non-empty and is the strip of some line |
| ReportBuilder.WantedRawConcat | titlereportgenerator.py:227 | the wanted list is built line by line: it keeps the order of the lines and repeats a repeated line |
| ReportBuilder.WantedRawOne | titlereportgenerator.py:227 | a single line gives its strip, or nothing when it is blank |
| ReportBuilder.NormalizeAll | titlereportgenerator.py:228 | one key per wanted name, at the same position |
| ReportBuilder.OrderIndex | titlereportgenerator.py:238 | the index has exactly the wanted keys, each mapped to a position holding it, and no later position holds it (the last occurrence wins) |
| ReportBuilder.KeepWanted | titlereportgenerator.py:232-234 | every copy of an entry whose key is wanted is kept, and no other entry |
| ReportBuilder.OrderKey | titlereportgenerator.py:239 | a row's order key: the index of its normalised title, or the 10**9 default when the title is not indexed |
| ReportBuilder.Insert | titlereportgenerator.py:240 | insertion adds exactly the one element |
| ReportBuilder.InsertKeepsSorted | titlereportgenerator.py:239-240 | inserting into a list sorted by order key keeps it sorted |
| ReportBuilder.SortByOrder | titlereportgenerator.py:239-240 | the sorted rows are a permutation of the kept rows with non-decreasing order keys |
| ReportBuilder.Missing | titlereportgenerator.py:254-255 | no missing name has a found key, and the list is not longer than the wanted list |
| ReportBuilder.MissingCounts | titlereportgenerator.py:254-255 | a wanted name with no found key is listed as often as it is wanted, and one with a found key not at all |
| ReportBuilder.MissingConcat | titlereportgenerator.py:255 | the missing list keeps the wanted order: it distributes over concatenation |
| ReportBuilder.MissingDependsOnListedKeys | titlereportgenerator.py:255 | only whether each wanted name's key is found matters |
| ReportBuilder.TitleKeys | titlereportgenerator.py:254 | the found keys are exactly the normalised titles of the given rows |
| ReportBuilder.FoundAmongKept | titlereportgenerator.py:232-255 | computing the found keys from the kept rows gives the same missing list as computing them from all entries |
| ReportBuilder.MissingIffUnmatched | titlereportgenerator.py:232-255 | a wanted name is missing exactly when no kept row has its key |
| ReportBuilder.MissingIsComplement | titlereportgenerator.py:227-255 | in any report, every wanted name either has a row with its key or is on the missing list, never both |
| ReportBuilder.KeptAreKeyed | titlereportgenerator.py:234-239 | every kept row's key is in the order index, so the 10**9 default is never used |
| ReportBuilder.Select | titlereportgenerator.py:227-255 | the selection yields a report with the properties of `IsReportOf`: exactly the wanted rows with all their copies, index keys only, non-decreasing order, correct tags, and the missing list as the script computes it |
| ReportBuilder.BuildReport | titlereportgenerator.py:227-255 | the selection with `normalize_title` as the normaliser meets `IsReportOf` |
| ReportBuilder.Run | titlereportgenerator.py:226-271 | `main` up to the writing: with no titles table it fails with the `RuntimeError` message; with a titles table that yields no entry it fails with `'Title'`, the text of the `KeyError` at line 232; otherwise it reports over the entries of the first titles table |

## Left out

- The HTTP request (`requests.get`, `raise_for_status`) is left out. The model takes the parsed tables as input.
- BeautifulSoup is left out. This covers parsing, `find_all`, `get_text(" ", strip=True)`, unwrapping every tag but `a` and `br`, and `decode_contents`. Their results are the fields of `Cell` and `Table`.
- `urljoin(BASE, href)` is the parameter `resolve`. The model assumes nothing about it beyond its being a function.
- `RAW_TITLES.splitlines()` is left out. The wanted lines are a parameter.
- The following output steps are left out:
  - writing the CSV file;
  - building and writing the HTML page in `make_sortable_html`, including its template and JavaScript sorter;
  - the `print` calls and `sys.exit`.

  `escape`, which that page uses, is modelled.
- The DataFrame is modelled as sequences of entries. Column drops and `copy()` need no model. In-place updates are value rebinding inside `Select`.
- ReportBuilder.SortByOrder: the model's insertion sort is stable, but pandas' default sort is not. The contract therefore fixes only the permutation and the key order, not the order of rows with equal keys.
- ReportBuilder.Missing: the order of the list is stated by `MissingConcat`, not by a single all-in-one ensures.
- ReportBuilder.WantedRaw: its own contract states only the length bound; order and repetition are stated by `WantedRawConcat` and `WantedRawOne`.
- TableExtractor.Join: its own contract covers only the empty and one-link cases; `JoinAppend` states the longer joins. No splitting inverse is modelled.
- Text.ReplaceAll: its own contract states which characters can appear and the length bound; which occurrences are replaced is stated by `ReplaceAllLeftmost` and `ReplaceAllAbsent`.
- Text.CollapseRuns: its own contract states only the empty case, the first character's kind and the length; the whitespace shape of the result is stated by `CollapseRunsShape`, and where a run between words goes is stated by `CollapseRunsBetweenWords` and `CollapseRunsConcat`.
- Text.CollapseLongRuns: its own contract states only the empty case, the first character's kind and the length; the whitespace shape of the result is stated by `CollapseLongRunsShape`, and runs and lone characters between words are stated by `CollapseLongRunsBetweenWords`, `CollapseLongRunsKeepsLone` and `CollapseLongRunsConcat`.
- Text.CollapseWs: its own contract states the whitespace shape of the result; a run between words is stated by `CollapseWsBetweenWords` and `CollapseWsAnyRun`.
- Text.RemoveChars: its own contract states the kept multiset; the order of the kept characters is stated by `RemoveCharsConcat`.
- Normalizer.NormalizeIgnoresStar: requires that the character fixes of the title without the star are those of its two sides, because a star can split a sequence a fix removes (`NormalizeStarSplitsMojibake`); `NormalizeStarSplits` states the general case.
- CellSanitizer.SanitizeTail: its own contract states the whitespace shape; runs and lone characters between words are stated by `SanitizeTailBetweenWords` and `SanitizeTailKeepsLone`.
