# aurora-box core, modelled in Dafny

aurora-box scrapes two League of Legends wiki pages: the ARAM page and the
Arena page. From each page it takes the table of per-champion balance
adjustments. Every table row is turned into a record. The record is resolved
against the CommunityDragon champion-summary feed, which supplies the
champion's id and alias. The records are then collected into two maps keyed
by alias. This project models the pure logic of that pipeline and proves
its properties:

- **`Text`**: the parts of Rust's `str` API the scraper relies on, over
  `seq<char>`. These are `trim` with Unicode White_Space, `contains` with a
  string pattern, `replace(c, "")` and character reversal.
- **`Search`**: `Iterator::find`, i.e. the first position that satisfies a
  predicate.
- **`Markup`**:
  - `strip_html` is the two-state tag scanner. It is proved equal to an
    independent, position-wise definition of the visible text.
  - `get_inner_html` is the pair of pass-flag loops plus `trim`. It is proved
    to return the trimmed text between the first `>` and the last `<`.
- **`Models`**:
  - The records `AramChampionStats`, `ArenaChampionStats` and
    `ChampionSummary`.
  - `parse_damage_stat`.
  - The two row mappers, `AramChampionStats::new` and
    `ArenaChampionStats::new`.
  - Every panic of the Rust code (`unwrap` on `None`, an out-of-range cell
    index) is an `Err` of `ScrapeError`. Errors are reported in the order the
    Rust code evaluates the struct fields.
- **`Resolver`**: the search inside both row closures. It finds the first feed
  entry with the record's name whose alias does not contain "Strawberry". A
  miss is an error.
- **`Pipeline`**:
  - `skip(1)`, then the map/resolve closure over every data row.
  - A fail-fast traversal, because any panic aborts the run.
  - `collect` into a `BTreeMap`, where a later entry with the same key
    replaces an earlier one.
  - The `Stats` assembly.

Two foreign calls are passed in as a `Library` value, so every contract holds
for any implementation of them:

- `html_escape::decode_html_entities`, as a function on strings.
- `str::parse::<f32>`, as a partial function to `real`.

A table cell is an abstract `Node`. It is either an element with an attribute
list or a non-element, and either way it carries its serialised markup.

## Model

| member | source | states |
|---|---|---|
| Text.IsWhitespace | src/models.rs:137 | A character counts as whitespace for `trim` exactly when it is one of the 25 Unicode White_Space code points listed in `WhiteSpaceTable`. |
| Text.Trim | src/models.rs:137 | The result is the input with a whitespace run cut from each end, and neither end of the result is whitespace. |
| Text.TrimUnique | src/models.rs:137 | Any cut of edge whitespace that leaves no edge whitespace is exactly `trim`'s result, so `trim` is fully determined. |
| Text.TrimIdentity | src/models.rs:137 | `trim` leaves a string without edge whitespace unchanged. |
| Text.TrimmedEmptyIffBlank | src/models.rs:137 | Trimming yields the empty string exactly when the whole input is whitespace. |
| Text.TrimmedEdges | src/models.rs:137 | Every character that trimming cuts off is whitespace. |
| Text.ReverseInvolution | src/models.rs:127-137 | Reversing the characters twice, as the second loop's `chars().rev()` and the final `rev().collect()` do, gives the same string back. |
| Text.Contains | src/main.rs:62 | The pattern is found only when it is no longer than the text searched. Its full meaning is given by `Text.ContainsIffOccurs`. |
| Text.ContainsIffOccurs | src/main.rs:62 | `alias.contains("Strawberry")` holds exactly when the pattern occurs at some position of the alias. |
| Text.RemoveAll | src/models.rs:81 | `replace("%", "")` leaves no `%`. It keeps the other characters in order, with the same count of every character other than `%`. |
| Search.First | src/main.rs:60-63 | `find` gives no result exactly when no element satisfies the predicate; otherwise it gives the first one that does. |
| Markup.Scan | src/models.rs:88-100 | For either initial flag, the loop's output is a subsequence of its input, no longer than it, and holds neither `<` nor `>`. |
| Markup.StripHtml | src/models.rs:84-103 | The output contains neither `<` nor `>` and is a subsequence of the input. |
| Markup.ScanState | src/models.rs:86-96 | On text without brackets the `inside` flag keeps its starting value. After a final `<` it is up and after a final `>` it is down, whatever came before. |
| Markup.ScanSnoc | src/models.rs:88-100 | One more input character adds at most that character to the output, and moves the flag as `<` and `>` dictate. |
| Markup.InsideTagSnoc | src/models.rs:88-96 | Appending a character leaves the text inside an open tag exactly when the character is `<`, or it is not `>` and the text before it was already inside one. This mirrors the loop's two flag updates. |
| Markup.ScanStateIsInsideTag | src/models.rs:86-96 | After any prefix, the loop's `inside` flag is set exactly when some `<` of the prefix has no `>` after it. |
| Markup.StripHtmlIsVisible | src/models.rs:84-103 | `strip_html` equals the independent definition of visible text: a character survives exactly when it is not a bracket and not inside an open tag. |
| Markup.ScanAppend | src/models.rs:88-100 | Scanning a concatenation is scanning the first part, then the second part from the flag the first left. |
| Markup.ScanIdentity | src/models.rs:88-100 | On input without brackets the loop copies every character and ends with the flag down. |
| Markup.StripHtmlIdentity | src/models.rs:84-103 | `strip_html` is the identity on text with no `<` and no `>`. |
| Markup.StripHtmlIdempotent | src/models.rs:84-103 | Stripping a stripped string changes nothing. |
| Markup.StripHtmlOfCell | src/models.rs:84-103 | Wrapping bracket-free text in `<td>`…`</td>` and stripping it gives the text back. |
| Markup.StrayCloseDropped | src/models.rs:93-96 | A `>` outside any tag is dropped too: "a>b" strips to "ab". |
| Markup.KeepAfterFirst | src/models.rs:106-121 | With the flag down, the loop yields the text after the first occurrence of the marker, or nothing when the marker is absent; with the flag up it copies everything. |
| Markup.KeepAfterFirstIsSuffix | src/models.rs:110-120 | Whatever the flag, the first loop returns a suffix of its input. |
| Markup.KeepBeforeLast | src/models.rs:123-137 | The reversed loop followed by reversal returns a prefix of its input. `Markup.KeepBeforeLastCut` and `Markup.KeepBeforeLastNone` say which prefix. |
| Markup.ReverseOfReversedSuffix | src/models.rs:127-137 | Reversing the last n characters of the reversal gives the first n characters. |
| Markup.KeepBeforeLastCut | src/models.rs:123-137 | The reversed loop followed by reversal keeps exactly the text before the last `<`. |
| Markup.KeepBeforeLastNone | src/models.rs:123-137 | Without any `<`, the second loop keeps nothing. |
| Markup.GetInnerHtml | src/models.rs:105-139 | The result never starts or ends with whitespace. |
| Markup.LastOpenInSuffix | src/models.rs:123-137 | On the text after the opening tag, the second loop stops at the markup's last `<`. |
| Markup.InnerHtmlBetween | src/models.rs:105-139 | With the first `>` at i and the last `<` at j > i, the result is the trimmed text strictly between them, nested markup included. |
| Markup.InnerHtmlWithoutTagEnd | src/models.rs:110-121 | Markup with no `>` yields the empty string. |
| Markup.InnerHtmlWithoutClosingTag | src/models.rs:127-137 | Markup with no `<` after the first `>` yields the empty string. |
| Markup.InnerHtmlOfElement | src/models.rs:105-139 | For opening tag + content + closing tag, the result is the trimmed content, whatever tags the content holds. |
| Markup.InnerHtmlOfCell | src/models.rs:105-139 | Round trip: content without edge whitespace, wrapped in `<td>`…`</td>`, is extracted verbatim. |
| Markup.InnerHtmlOfBold | src/models.rs:105-139 | A `<b>` element whose text has no edge whitespace gives its text back. |
| Markup.InnerHtmlNotIdempotent | src/models.rs:105-139 | Extraction is not idempotent: a cell holding `<b>x</b>` yields `<b>x</b>`, and a second extraction yields `x`. |
| Markup.InnerHtmlOfPlainCellNotIdempotent | src/models.rs:105-139 | A cell holding non-empty text with no `>` and no edge whitespace yields that text, and a second extraction yields the empty string. |
| Models.FindAttribute | src/models.rs:28-35 | The result is the value of the first attribute with the key, and is absent exactly when no attribute has that key. |
| Models.ParseDamageStat | src/models.rs:75-82 | Empty visible text is 100. Otherwise the result is 100 plus the parse of the visible text with every `%` removed, or a parse failure naming that text. |
| Models.BlankCellIsBaseline | src/models.rs:77-79 | An empty cell is worth exactly 100. |
| Models.NegativeOffsetCell | src/models.rs:81 | A cell showing `-12%` is worth 88, given a parser that reads `-12` as -12. |
| Models.WhitespaceCellIsParsed | src/models.rs:76-81 | A cell showing a single space is not blank. It goes to the parser, and the whole call fails when the parser rejects it. |
| Models.NewAram | src/models.rs:23-44 | See the NewAram note below this table. |
| Models.NewArena | src/models.rs:54-73 | See the NewArena note below this table. |
| Models.AramRowIsArenaRow | src/models.rs:23-73 | Every row the ARAM mapper accepts, the Arena mapper accepts too, reading the same name and trailing column. |
| Resolver.Resolve | src/main.rs:60-63 | Resolution fails with the name exactly when no entry has that name and a non-Strawberry alias. Otherwise it returns the first such entry in feed order. |
| Resolver.ResolvedIsEligible | src/main.rs:60-63 | The resolved entry is in the feed, carries the name, and its alias does not contain "Strawberry". |
| Resolver.OnlyPlaceholdersFail | src/main.rs:62-63 | When every entry with the name is a Strawberry placeholder, resolution fails instead of picking one. |
| Resolver.FirstEligibleUnique | src/main.rs:60-63 | The first eligible position is unique. |
| Resolver.ResolveStableUnderAppend | src/main.rs:60-63 | Appending entries to the feed never changes a successful resolution. |
| Resolver.PlaceholderNeverPicked | src/main.rs:62 | With a canonical entry and a Strawberry placeholder of the same name, in either order, the canonical one is chosen. |
| Resolver.StrawberrySubstring | src/main.rs:62 | An alias with "Strawberry" anywhere in it is excluded. |
| Pipeline.MapRow | src/main.rs:59 | A mapped row has its page's record shape and id 0. The Arena page's mapper is at src/main.rs:90. |
| Pipeline.ResolveRow | src/main.rs:58-66 | See the ResolveRow note below this table. |
| Pipeline.TryMap | src/main.rs:58-67 | Mapping with abort on failure succeeds exactly when every element succeeds, giving each element's result in order. Otherwise it reports the first failure. |
| Pipeline.CollectMap | src/main.rs:67 | Every entry's key is bound in the collected map. |
| Pipeline.CollectMapFromEntries | src/main.rs:67 | Every binding of the collected map is one of the entries. |
| Pipeline.CollectMapLastWins | src/main.rs:67 | The value kept for a key is that of the key's last entry. |
| Pipeline.CollectMapSize | src/main.rs:67 | The map has at most one key per entry, and exactly one per entry when no key repeats. |
| Pipeline.CollectedRowsKeyed | src/main.rs:58-67 | Every binding collected from resolved rows is keyed by its resolved alias and has its page's shape. |
| Pipeline.HeaderlessFailure | src/main.rs:57-58 | A first failure among the rows after the header is a first failure among all rows from position 1 on. |
| Pipeline.CollectTable | src/main.rs:55-67 | See the CollectTable note below this table. |
| Pipeline.TableKeyed | src/main.rs:64-67 | Every record of a table is stored under its resolved alias, with its resolved id and its page's shape. |
| Pipeline.HeaderIgnored | src/main.rs:57 | `skip(1)` never reads the header: replacing the first row by anything leaves the table unchanged. The Arena table's `skip(1)` is at src/main.rs:88. |
| Pipeline.TableEntries | src/main.rs:57-67 | A successful table is the map collected from one resolved entry per data row, in row order. |
| Pipeline.LaterRowsKeepEntry | src/main.rs:67 | When no later row yields row i's key, the collected map binds that key to row i's entry. |
| Pipeline.LastRowWins | src/main.rs:65-67 | See the LastRowWins note below this table. |
| Pipeline.DistinctAliasesKeepEveryRow | src/main.rs:57-67 | When the data rows resolve to pairwise distinct aliases, the table holds exactly n-1 records for n rows. |
| Pipeline.StoredRecordsMatchFeed | src/main.rs:60-67 | Every key is the alias of a non-Strawberry feed entry whose name and id the stored record carries. |
| Pipeline.BuildStats | src/main.rs:101-104 | See the BuildStats note below this table. |

Notes on the rows too long for the table:

- **Models.NewAram** (src/models.rs:23-44):
  - The mapper succeeds exactly when there are at least 4 cells, cell 0 is an
    element with a `data-sort-value` attribute, and cells 1 and 2 parse.
  - On success, the name is the decoded first sort value, the id is 0, the
    damage fields are cells 1 and 2 parsed, and `other` is cell 3's inner
    markup.
  - Errors follow the order in which the Rust code evaluates the fields. An
    empty row is missing cell 0. Then cell 0 must be an element with a sort
    value. Then cell 1 must exist and parse, then cell 2 must exist and
    parse, and then cell 3 must exist. The first step that fails gives the
    error: a missing cell is reported by its index, which is the row length,
    and a parse failure by the text that failed.
- **Models.NewArena** (src/models.rs:54-73):
  - The mapper succeeds exactly when there are at least 4 cells and cell 0
    has a sort value.
  - On success, the name is the decoded first sort value, the id is 0, and
    `other` is cell 3's inner markup.
  - An empty row is missing cell 0. Otherwise a cell 0 that is not an element
    or has no sort value gives NotAnElement or MissingSortValue. A shorter
    row whose cell 0 has a sort value is missing cell 3.
  - The mapper never fails on a parse.
- **Pipeline.ResolveRow** (src/main.rs:58-66):
  - A row resolves exactly when it maps and its name resolves.
  - A mapper error passes through unchanged, and a resolution miss names the
    record.
  - On success, the key is the resolved alias, the id is the resolved id, and
    every other field equals the mapped record.
- **Pipeline.CollectTable** (src/main.rs:55-67):
  - A table succeeds exactly when every row after the first resolves.
  - Otherwise it reports the first failing data row's error.
  - It holds at most n-1 records for n rows, and is empty when there are no
    data rows. The Arena table is at src/main.rs:86-98.
- **Pipeline.LastRowWins** (src/main.rs:65-67): a data row's record is stored
  under its alias whenever no later row resolves to the same alias. So among
  rows that share an alias, the last one wins.
- **Pipeline.BuildStats** (src/main.rs:101-104):
  - The output exists exactly when both tables do.
  - An ARAM failure is the one reported. When the ARAM table succeeds and the
    Arena table fails, the Arena table's error is reported.
  - The two maps are the two tables.
  - Every record sits under its resolved alias with its resolved id and its
    page's shape.

## Left out

- HTTP fetches of the feed and the two wiki pages (`ureq`). The feed is the
  `summaries` parameter, and each table is its rows, given as sequences of
  cells.
- HTML parsing and selector navigation (`html_editor`'s `parse`, `query`,
  `query_all`, `into_node`), and the serialisation behind `Node::html()`.
  - A cell is an abstract `Node` that carries its serialised markup.
  - The Arena table's rows come from the first `tbody` only, because that line
    uses `query`, which returns the first match. The model takes one row
    sequence per page and does not merge tables.
- `html_escape::decode_html_entities` and `str::parse::<f32>` are foreign
  calls. They are the uninterpreted fields of `Library`. Every general
  contract holds for any implementation of them. `Models.NegativeOffsetCell`
  and `Models.WhitespaceCellIsParsed` take the parser outputs they rely on as
  preconditions.
- Models.ParseDamageStat: f32 arithmetic is modelled as exact `real`
  arithmetic. Rounding of `100.0 + x` and the f32 parse format are not
  modelled. Rust's parser also accepts "inf", "NaN" and out-of-range literals,
  the last becoming an infinity. `Option<real>` has no such values, so the
  model's parser either rejects such a cell or reads it as a finite number.
- Pipeline.ResolveRow: the i32 `ChampionSummary.id` (src/models.rs:144) is
  an unbounded `int`. The id is only copied into the record, never computed
  with, so no overflow can arise.
- Command-line parsing (`clap`), JSON and MessagePack serialisation (`serde`,
  `rmp_serde`) and the file writes are plumbing over external crates and I/O.
- Key order of the `BTreeMap`s (src/main.rs:67, 98) is not modelled. A table
  is an unordered Dafny `map`, and the order is seen only by the serialisers,
  which are left out.
- Behaviour of the code that the model keeps:
  - `parse_damage_stat` tests the stripped text with `len() == 0` and does not
    trim it first, so whitespace-only text goes to the parser.
  - Nothing in the code ensures that a resolved id is nonzero. The model
    copies the feed's id as it is.
  - `get_inner_html` is not idempotent. A second application cuts into the
    nested tags a result can hold (see `Markup.InnerHtmlNotIdempotent`). It
    also empties any non-empty result that has no `>`, so even a plain
    `<td>x</td>` yields `x` and then the empty string (see
    `Markup.InnerHtmlOfPlainCellNotIdempotent`). The model proves the round
    trip on a single extraction from a cell.
