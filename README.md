# Reading-club dashboard: name reconciliation and selection filtering

This project models the data pipeline of a dashboard about community reading clubs. The dashboard reads three sheets:

- a membership roster with male, female and total counts per club;
- yearly membership totals for 2023 and 2024;
- yearly average reading-session values for 2023 and 2024.

At load time the dashboard makes the club names of the three sheets agree. The yearly sheets get a fixed alias table that maps variant spellings to the roster's spelling. Then every sheet has each occurrence of the word "community" removed. The distinct roster names, in order of first appearance, form the club list behind a multi-select dropdown. That dropdown has a "Select All" entry whose value is `all`. Callbacks then turn the current selection into:

- three cards (males, females, total);
- a two-slice gender pie chart;
- the rows of the two yearly sheets for the selected clubs.

Modules:

- `Names` (names.dfy): the alias table `ClubNameMapping`, the whole-value lookup `Alias`, the left-to-right removal `Strip` and their composition `Normalize`.
- `Tables` (tables.dfy): a generic sheet row `Row<D>` (club name plus other cells), and the column operations the dashboard uses:
  - rewriting the club-name column, both as a function and in place on an array;
  - the `isin` row filter;
  - the distinct values of a column in order of first appearance.
- `Dashboard` (dashboard.dfy): the three sheets' cell types, the load-time normalization, the club list and dropdown entries, `update_dropdown`, and the card, pie and line-chart callbacks.

The callbacks read global data frames in the source. Here they take the sheets as parameters. Session averages are `real` values that the model only carries through filters.

Facts about the code that the model makes explicit:

- A displayed name can still contain "community". `str.replace` makes one pass, so "commcommunityunity" becomes "community" (`StripOnePass`). `CanonicalNamesClean` proves that every alias key comes out clean.
- The 'Total' column is summed as recorded. It is never checked against males plus females (`CardsKeepRecordedTotal`).
- The selection is a list. `isin` ignores its order and repeats (`FilterDependsOnSet`, `CardsDependOnSet`).
- `all_clubs` is computed once, at load. The model passes it to `update_dropdown`.
- The roster gets only the strip pass, never the alias lookup.

## Model

| member | source | states |
|---|---|---|
| Names.MappingKeys | dashboard.py:11-22 | the alias table has exactly the ten variant spellings of the source as keys |
| Names.Alias | dashboard.py:25-26 | the lookup returns the name itself or one of the table's canonical spellings; under a table with no chains the result is never a key (see also AliasOnlyWholeKeys) |
| Names.AliasOnlyWholeKeys | dashboard.py:25-26 | the lookup changes a name only when the whole name is a key, and then to that key's value |
| Names.AliasIdempotent | dashboard.py:11-26 | for a table where no value is a key, a second lookup gives the same name as the first |
| Names.MappingHasNoChains | dashboard.py:11-22 | no canonical spelling in the dashboard's alias table is itself an alias key |
| Names.AliasIsWholeValue | dashboard.py:11-26 | a variant key is replaced; a canonical spelling that contains a key, and a key with a trailing blank, pass through unchanged |
| Names.VariantMeetsCanonical | dashboard.py:11-31 | under a table with no chains, a variant key and its canonical spelling both normalize to the stripped canonical spelling |
| Names.Normalize | dashboard.py:25-31 | alias then strip never lengthens the looked-up name, and leaves it unchanged when it has no "community" |
| Names.Strip | dashboard.py:29-31 | removing "community" never lengthens a name |
| Names.StripFixedPoint | dashboard.py:29-31 | a name is left unchanged exactly when it has no occurrence of "community" (both directions) |
| Names.StripLeftmost | dashboard.py:29-31 | the scan removes the leftmost occurrence and continues after it, so occurrences are removed left to right without overlap |
| Names.StripSplit | dashboard.py:29-31 | no removed occurrence spans a character outside "community": stripping splits at any such character |
| Names.StripIsCaseSensitive | dashboard.py:29 | "Community" is kept; only the lower-case word is removed |
| Names.StripOnePass | dashboard.py:29-31 | one pass can leave "community" behind: "commcommunityunity" becomes "community" |
| Names.CanonicalStrip | dashboard.py:28-31 | for a name `p` with no "community" (`Strip(p) == p`) and a last word shorter than "community", the spelling "<p> community reading <word>" loses exactly its one "community" and the result contains none |
| Names.CanonicalNamesClean | dashboard.py:11-31 | every alias key normalizes to a name without "community" |
| Tables.Relabel | dashboard.py:25-31 | the column rewrite keeps every row's position and other cells and passes only its club name through the rewrite |
| Tables.RelabelTwice | dashboard.py:25-31 | two successive rewrites of the column equal one rewrite by their composition |
| Tables.RelabelInPlace | dashboard.py:25-31 | rewriting the club-name column of an array of rows in place leaves it equal to the rewritten table |
| Tables.Filter | dashboard.py:111 | the `isin` mask keeps at most the table's rows, and every kept row is a row of the table whose club is selected (the same mask is applied at lines 122, 135 and 150) |
| Tables.FilterIsSubsequence | dashboard.py:111 | the boolean-mask filter keeps table order: its result is a subsequence of the table |
| Tables.FilterCount | dashboard.py:111 | each row with a selected club is kept as many times as the table holds it; no other row is kept |
| Tables.FilterAppend | dashboard.py:111 | filtering a concatenation of tables is the concatenation of the filtered parts |
| Tables.FilterDependsOnSet | dashboard.py:111 | the filter depends only on which names are selected, not on their order or repetition |
| Tables.FilterNone | dashboard.py:111 | a selection naming no club of the table keeps no row |
| Tables.FilterEverything | dashboard.py:111 | a selection that names every club of the table keeps the whole table |
| Tables.FilterNarrower | dashboard.py:134-135 | filtering by a smaller selection gives a subsequence of the larger one's result, and equals filtering that result again |
| Tables.IndexOf | dashboard.py:37 | the index returned holds the value and no earlier index does (the first appearance) |
| Tables.Unique | dashboard.py:37 | the result has the same values as the column, each once, ordered by first appearance |
| Dashboard.AliasName | dashboard.py:25-26 | the name each yearly sheet holds after the alias pass is unchanged or a canonical spelling, and looking it up again changes nothing |
| Dashboard.SheetName | dashboard.py:25-31 | the yearly sheets' final name is no longer than the aliased name, and contains no "community" when the sheet spelled the club by an alias key |
| Dashboard.Load | dashboard.py:24-31 | after loading, the roster names are stripped and the yearly sheets' names are aliased then stripped; the other cells and row order are unchanged |
| Dashboard.LoadedNamesAgree | dashboard.py:11-31 | after loading, a yearly-sheet row spelled by an alias key and one spelled canonically carry the stripped canonical name, which has no "community" |
| Dashboard.AllClubs | dashboard.py:37 | the club list holds every roster name, only roster names, each once, in order of first appearance |
| Dashboard.DropdownOptions | dashboard.py:38 | the entries are the "Select All"/`all` entry, then one entry per club in list order, with label and value both the club name |
| Dashboard.DropdownOffersEachClubOnce | dashboard.py:37-38 | every roster club is the value of an entry after the first, and no two such entries share a value |
| Dashboard.UpdateDropdown | dashboard.py:99-102 | the result is either the club list or the selection itself, and it holds `all` only if a club has that name (SelectAllResolves gives the full case split) |
| Dashboard.SelectAllResolves | dashboard.py:99-102 | a selection containing `all` resolves to the club list, alone or alongside other clubs; any other selection is returned unchanged; the result has no `all` unless a club is named so |
| Dashboard.UpdateDropdownIdempotent | dashboard.py:99-102 | resolving an already resolved selection changes nothing |
| Dashboard.ColumnSum | dashboard.py:112-114 | a column `.sum()` is at least every single row's cell in that column |
| Dashboard.UpdateCards | dashboard.py:110-115 | no card exceeds the whole roster's sum of its column; CardsAppend and CardsOfRow fix every card value |
| Dashboard.ColumnSumAppend | dashboard.py:112-114 | a column sum over concatenated rows is the sum of the parts' sums |
| Dashboard.ColumnSumSubsequence | dashboard.py:112-114 | dropping rows never raises a column sum |
| Dashboard.CardsAppend | dashboard.py:110-115 | the cards for a roster are the component-wise sum of the cards of its parts |
| Dashboard.CardsOfRow | dashboard.py:110-115 | one row contributes its own males, females and Total when its club is selected and nothing otherwise; with CardsAppend this fixes every card |
| Dashboard.CardsNothingSelected | dashboard.py:110-115 | an empty selection shows (0, 0, 0) |
| Dashboard.CardsDependOnSet | dashboard.py:111-114 | a club listed twice in the selection is counted once; only the set of names matters |
| Dashboard.CardsMonotone | dashboard.py:110-115 | selecting more clubs never lowers any card |
| Dashboard.CardsSelectAll | dashboard.py:99-102 | once "Select All" is resolved, the cards are the column sums of the whole roster |
| Dashboard.SentinelAloneSelectsNothing | dashboard.py:111 | the raw `all` value, before resolution is written back, matches no roster row when no club is named `all` |
| Dashboard.UpdateGenderPie | dashboard.py:121-124 | exactly two slices, "Males" then "Females", whose counts equal the males and females cards for the same selection |
| Dashboard.UpdateMembershipChart | dashboard.py:134-135 | the rows passed to the membership chart are a subsequence of the sheet, holding each row with a selected club as often as the sheet does and no other |
| Dashboard.UpdateSessionChart | dashboard.py:149-150 | the rows passed to the session chart are a subsequence of the sheet, holding each row with a selected club as often as the sheet does and no other |
| Dashboard.FilteredClubsAreSelected | dashboard.py:150 | every plotted row's club is in the selection |
| Dashboard.UnmatchedRowsNeverShown | dashboard.py:134-150 | for a selection taken from the dropdown, a yearly-sheet row whose name matches no roster club is never plotted |
| Dashboard.CardsOneClubExample | dashboard.py:110-115 | with two roster clubs (10/8/18 and 5/7/12), selecting the first shows (10, 8, 18) |
| Dashboard.CardsSelectAllExample | dashboard.py:99-115 | for the same roster, "Select All" shows (15, 15, 30) |
| Dashboard.CardsKeepRecordedTotal | dashboard.py:114 | a row recorded as 10 males, 8 females, total 20 shows total 20 |
| Dashboard.ChartKeepsDuplicates | dashboard.py:134-135 | two membership rows for one club both reach the chart, in sheet order |

## Left out

- Reading the three spreadsheets (dashboard.py:6-8) is file I/O. The sheets are given as sequences or arrays of rows.
- The Dash app, layout, styling and widgets (dashboard.py:33-92) and `app.run_server` (dashboard.py:161-162) are UI and HTTP serving. This includes the dropdown's initial value, which is the club list (line 55).
- Building the Plotly figures (dashboard.py:125-127, 136-142, 151-157) is an external library. The model stops at the data handed to it.
- The card text formatting (dashboard.py:115) is presentation. The model keeps the three numbers.
- Dash re-runs the callbacks after `update_dropdown` writes the resolved list back. That scheduling is the framework's, and no supersede or last-writer-wins logic exists in this file. The model states the callbacks for any selection, raw (`SentinelAloneSelectsNothing`) or resolved (`CardsSelectAll`).
- Missing or NaN cells, and the `.sum()` that skips them, are not modelled. Counts are `nat` and every cell is present.
- Non-string name cells are not modelled. For these `str.replace` yields NaN. Names are strings.
- The session averages are floats that the code never computes on. They are `real` and only carried.
- Errors for a missing column are not modelled. The code has no such check; pandas raises its own `KeyError`.
