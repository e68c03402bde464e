# Mazrica deals to Google Sheets: a verified model of the sync core

This project models, in Dafny, the core of the Mazrica-to-spreadsheet sync. It covers
four pieces:

- The API client turns Mazrica's JSON deal records into `Deal` values and walks the
  paginated `GET /deals` endpoint.
- The differential sync flattens every deal into 17-column rows, using the user count
  and contract period it scans from the deal name. It filters the deals by product name
  and phase, then reconciles the filtered deals against the ids already in the sheet's
  first column. That gives the rows to append, the ids to delete and the run statistics.
- The older clear-and-rewrite sync flattens deals into 15-column rows and writes a
  header row followed by every deal's rows.
- The settings come from the environment: `DEAL_TYPE_ID` is parsed, the required
  settings are validated, and `.env` lines are loaded with `setdefault`.

The HTTP responses are modelled as a sequence of pages, the sheet's id column as a
sequence of strings and the `.env` file as a sequence of lines. With those as inputs,
every operation is deterministic.

Files and modules:

| file | module | contents |
|---|---|---|
| base.dfy | `Base` | `Option`, `Result` |
| seqs.dfy | `Seqs` | `Filter` (Python's filtering list comprehension), element sets, distinctness |
| text.dfy | `Text` | `str.strip`, `str.lower`, `in` on strings, `str(int)` and `int(str)` |
| cells.dfy | `Cells` | spreadsheet cells and the two blanking idioms (`x or ""` and `x if x is not None else ""`) |
| client.dfy | `MazricaClient` | raw and parsed records, the parsers, response classification, the page loop |
| config.dfy | `MazricaConfig` | settings, `validate`, the `.env` loader over an `Environ` object |
| diff_sync.dfy | `DiffSync` | 17-column rows, name scanner, deal filter, reconciliation, statistics |
| rewrite_sync.dfy | `RewriteSync` | 15-column rows, header-plus-rows assembly |

JSON object members that the source reads with `data.get(key)` are modelled as
`Field<T> = Absent | Null | Present(value)`, because a missing member and a `null`
one behave alike there. The members it reads with a default are `Option`s.

## Model

| member | source | states |
|---|---|---|
| `Cells.TextOrBlank` | mazrica/sync_to_sheets.py:92-96 | `x or ""` on an optional string gives a blank cell exactly when the value is `None` or `""`, otherwise the text itself |
| `Cells.IntOrBlank` | mazrica/sync_to_sheets.py:93 | `customer_id or ""` blanks both `None` and `0`; any other id is kept as an integer cell |
| `Cells.NumOrBlank` | mazrica/sync_to_sheets.py:110-113 | `x if x is not None else ""` blanks only `None`; `0` is kept |
| `Cells.HeaderRow` | sync_to_sheets.py:138 | the header row has one text cell per header, in order |
| `Seqs.Filter` | mazrica/sync_to_sheets.py:227 | a filtering list comprehension keeps exactly the elements that satisfy the predicate, each as many times as it occurs in the input, and drops every other one |
| `Seqs.FilterAppend` | mazrica/sync_to_sheets.py:227 | the comprehension distributes over concatenation, so the kept elements stay in input order |
| `Seqs.FilterSplit` | mazrica/sync_to_sheets.py:244-248 | the elements a condition keeps and the elements its negation keeps add up to the whole list |
| `Text.StripTrims` | mazrica/config.py:56 | `str.strip()` is the slice of the string left after removing a run of whitespace at the start and one at the end, and the slice neither starts nor ends with whitespace; it is empty exactly when the string is all whitespace |
| `Text.StripUnpadded` | mazrica/config.py:56 | a string that neither starts nor ends with whitespace is left unchanged |
| `Text.StripKeepsOut` | mazrica/config.py:56-59 | stripping adds no character: a character absent from the string is absent from the result |
| `Text.Lower` | mazrica/sync_to_sheets.py:155 | the ASCII model of `lower()` maps each character separately, `A`–`Z` to `a`–`z`, and so keeps the length |
| `Text.Contains` | mazrica/sync_to_sheets.py:158 | `needle in hay` holds exactly when the needle occurs at some position of `hay` |
| `Text.ParseInt` | mazrica/config.py:22 | `int(s)` succeeds exactly on an optional `+` or `-` followed by at least one digit; the value is the decimal value of the digits, negated after `-` |
| `Text.IntToStringRoundTrip` | mazrica/sync_to_sheets.py:241 | `int(str(n)) == n` for every integer id |
| `Text.IntToStringCanonical` | mazrica/sync_to_sheets.py:241 | `str(n)` has no `+` and no leading zero except in "0", and a `-` only before a non-zero value |
| `Text.CanonicalRoundTrip` | mazrica/sync_to_sheets.py:241 | every string in that canonical form is `str` of the integer it parses to, so `str` is a bijection onto the canonical strings |
| `MazricaClient.ObjectOrEmpty` | mazrica_client.py:185-194 | `data.get(k, {}) or {}` reads a missing or `null` nested object as an empty one |
| `MazricaClient.ParseProductDetail` | mazrica_client.py:171-180 | a missing product name becomes `""`; quantity, unit price, amount and product id are present exactly when the JSON has them, and then hold the JSON's values |
| `MazricaClient.ParseDeal` | mazrica_client.py:182-217 | keeps the id; `name`, `createdAt` and `updatedAt` default to `""`; a missing or `null` customer, deal type, phase or user leaves its fields `None`; a missing `productDetails` gives no details, otherwise one parsed detail per raw one, in order |
| `MazricaClient.ClassifyStatus` | mazrica_client.py:87-98 | 429 means retry the same request; any other status of 400 or more raises with that status; anything below 400 returns the body |
| `MazricaClient.FirstStop` | mazrica_client.py:151-169 | the first page, from a given one on, after which the loop leaves |
| `MazricaClient.PagesRead` | mazrica_client.py:151-169 | the number of pages requested: at least one; the loop leaves after it and after no earlier page |
| `MazricaClient.DealsUpTo` | mazrica_client.py:158-163 | the deals of the first n pages are exactly the deals that occur on one of pages 1 to n |
| `MazricaClient.GetAllDeals` | mazrica_client.py:150-169 | requests pages 1, 2, 3, … with no gap or repeat, exactly `PagesRead` of them, and yields the deals of those pages in page order, each page in response order |
| `MazricaClient.PagesReadBound` | mazrica_client.py:165-167 | with a positive page size `L` and the same total `T` on every page, at most max(1, ⌈T/L⌉) pages are requested |
| `MazricaClient.MissingTotalReadsOnePage` | mazrica_client.py:165-166 | a first page without `totalCount` counts as total 0, so only that page is read |
| `MazricaClient.FetchDealsWithProducts` | mazrica_client.py:219-237 | one parsed `Deal` per deal the page loop yields, in the same order |
| `MazricaConfig.EnvGet` | mazrica/config.py:12-18 | `os.environ.get(key, default)` is the variable's value when it is set, and the default otherwise |
| `MazricaConfig.ParseDealTypeId` | mazrica/config.py:21-25 | `None` when `DEAL_TYPE_ID` is unset or empty; otherwise the integer the stripped value denotes; a value that is not an integer is an error |
| `MazricaConfig.DealTypeIdRoundTrip` | mazrica/config.py:21-25 | a `DEAL_TYPE_ID` holding `str(n)` reads back as `n` |
| `MazricaConfig.LoadSettings` | mazrica/config.py:11-33 | the settings load exactly when `DEAL_TYPE_ID` parses, and then hold that id; each other setting is its variable's value when set, else its default: `""` for the API key, the Apps Script URL and the secret, "案件一覧" for the sheet name, "civilink" and "受注" for the two filters; the base URL and the page size 100 are fixed |
| `MazricaConfig.Validate` | mazrica/config.py:35-46 | every missing setting is reported, the API key first and then the Apps Script URL; the list is empty exactly when both are set |
| `MazricaConfig.SplitOnce` | mazrica/config.py:58 | `split("=", 1)` cuts at the first `=`: the two parts with the `=` between them give back the line, and the key part has no `=` |
| `MazricaConfig.SplitOnceAt` | mazrica/config.py:58 | a string made of a part without `c`, then `c`, then any rest splits into exactly that part and that rest |
| `MazricaConfig.ParseEnvLine` | mazrica/config.py:56-59 | the key of a line that sets a variable never contains `=`, so it is never refused for that reason |
| `MazricaConfig.ParseEnvLineSpec` | mazrica/config.py:56-59 | stated on the raw line: it is skipped exactly when it is all whitespace, its first non-space character is `#`, or it has no `=`; otherwise there is a first `=` at some position j, and the line sets the stripped text before j to the stripped text after j |
| `MazricaConfig.SkippedLineIff` | mazrica/config.py:56-57 | the guard on the stripped line holds exactly when the raw line is blank, a comment, or has no `=` |
| `MazricaConfig.SetLineSplit` | mazrica/config.py:56-59 | a line that is not skipped has a first `=`, and the key and value are the stripped text on either side of it |
| `MazricaConfig.CommentIffHash` | mazrica/config.py:57 | a non-blank line starts with `#` once stripped exactly when its first non-space character is `#` |
| `MazricaConfig.EqualsInsideTrim` | mazrica/config.py:57 | stripping cannot remove an `=`: the stripped line has one exactly when the raw line has |
| `MazricaConfig.EnvLineRoundTrip` | mazrica/config.py:56-59 | writing `KEY=value` for a key and value without surrounding whitespace, a key without `=` and not starting with `#`, reads back as that key and value |
| `MazricaConfig.EnvLinePadded` | mazrica/config.py:56-59 | whitespace around the first `=` is dropped: `KEY` + spaces + `=` + spaces + value sets `KEY` to the value, whatever `=` the value itself holds |
| `MazricaConfig.ApplyLineAt` | mazrica/config.py:57-59 | one line never changes a variable that is already set, and sets an unset one exactly when the line parses to that key |
| `MazricaConfig.ApplyParsedAt` | mazrica/config.py:59 | `setdefault` on a parsed pair keeps a set variable, sets an unset one unless the environment refuses the name or value, and raises exactly on that refusal |
| `MazricaConfig.Environ.SetDefault` | mazrica/config.py:59 | `os.environ.setdefault` keeps a variable that is set and returns its value; for an unset one it raises, changing nothing, when `os.putenv` refuses the name or value, and otherwise stores the value and returns it |
| `MazricaConfig.LoadDotenv` | mazrica/config.py:50-59 | reading the lines in order leaves the environment, and whether an exception stopped the loop, as `Loaded(old environment, lines)` says |
| `MazricaConfig.LoadedKeepsExisting` | mazrica/config.py:59 | loading never overwrites a variable that was already in the environment |
| `MazricaConfig.LoadedAddsOnlyParsedKeys` | mazrica/config.py:55-59 | every variable loading adds is the key of some line of the file |
| `MazricaConfig.LoadedWithoutKey` | mazrica/config.py:55-59 | a variable the environment lacks stays unset when no line of the file sets it |
| `MazricaConfig.LoadedFirstWins` | mazrica/config.py:59 | for a variable the environment lacks, the first line that sets it decides its value, whatever later lines say |
| `MazricaConfig.LoadedStep` | mazrica/config.py:55-59 | while nothing has raised, reading one more line applies that line to the environment the earlier lines left |
| `MazricaConfig.LoadedNeverRaises` | mazrica/config.py:55-59 | a file none of whose lines parses to a refused name or value loads without raising |
| `MazricaConfig.LoadedRefusedRaises` | mazrica/config.py:55-59 | a line that parses to a refused pair for an unset key, with no earlier line for that key, makes loading raise |
| `MazricaConfig.EmptyKeyRaises` | mazrica/config.py:58-59 | a first line `=value` parses to the empty key; `setdefault` refuses it, so loading raises and leaves the environment as it was |
| `MazricaConfig.SampleDotenvLoads` | mazrica/config.py:50-59 | a file setting `MAZRICA_API_KEY` and `APPS_SCRIPT_URL` to values without surrounding whitespace or NUL loads both into an empty environment |
| `MazricaConfig.DotenvUnseenAsWritten` | mazrica/config.py:12-18 | as written, the settings come from the environment at import, before `main` loads `.env`: with both required values only in `.env`, `validate` still reports both missing |
| `MazricaConfig.DotenvReachesConfig` | mazrica/sync_to_sheets.py:293-299 | read after the `.env` file is loaded, the same settings hold both values and `validate` reports nothing |
| `MazricaConfig.StartupSeesDotenv` | mazrica/sync_to_sheets.py:293-299 | read after loading, the API key is the value of the first `.env` line that sets it, when the environment lacked it |
| `DiffSync.DigitRunEnd` | mazrica/sync_to_sheets.py:66 | greedy `\d+`: the end of the longest run of digits from a position |
| `DiffSync.UnitAt` | mazrica/sync_to_sheets.py:71 | the alternation of カ月, ヶ月 and か月 picks a listed unit that occurs there, and fails only if none occurs |
| `DiffSync.UnitAtIsFirst` | mazrica/sync_to_sheets.py:71 | the unit picked is the first listed one that occurs: no unit listed before it occurs there |
| `DiffSync.PeriodUnitsExclusive` | mazrica/sync_to_sheets.py:71 | カ月, ヶ月 and か月 start with different characters, so at most one of them occurs at a position |
| `DiffSync.MatchAt` | mazrica/sync_to_sheets.py:66-71 | a match at a position captures a digit run or `X`, followed by one of the units, and that text occurs there; a digit count is the whole digit run from that position |
| `DiffSync.MatchAtIff` | mazrica/sync_to_sheets.py:66-71 | the pattern matches at a position exactly when a count (the whole digit run or `X`) stands there followed by a unit, and the match captures that count |
| `DiffSync.CountIsWholeRun` | mazrica/sync_to_sheets.py:66-71 | a digit count followed by a unit is the whole run of digits from its position, since no unit starts with a digit |
| `DiffSync.SearchFrom` | mazrica/sync_to_sheets.py:66-71 | `re.search` returns the leftmost position where the pattern matches, and no match means no position matches |
| `DiffSync.SearchFindsFirst` | mazrica/sync_to_sheets.py:66-73 | `re.search` finds nothing exactly when no position holds a count followed by a unit; otherwise it returns the leftmost such position, its whole count and the unit found there |
| `DiffSync.FirstCountUnitUnique` | mazrica/sync_to_sheets.py:66-73 | there is only one leftmost count followed by a unit: the position and the count are determined by the name |
| `DiffSync.SearchFindsIff` | mazrica/sync_to_sheets.py:66-72 | the pattern matches somewhere exactly when some unit stands directly after a digit or `X` |
| `DiffSync.UsersCount` | mazrica/sync_to_sheets.py:66-68 | the user count is `""` or a digit run or `X` that occurs in the name followed by "ユーザー" |
| `DiffSync.UsersCountIsFirst` | mazrica/sync_to_sheets.py:66-68 | a non-empty user count is the whole count at the leftmost position where a count is followed by "ユーザー"; an empty one means there is no such position |
| `DiffSync.LeftmostUsersExample` | mazrica/sync_to_sheets.py:66-68 | the name "2ユーザー_10ユーザー" gives the user count "2" |
| `DiffSync.PeriodText` | mazrica/sync_to_sheets.py:71-73 | the period is `""` or a count followed by one of its units, and occurs in the name |
| `DiffSync.PeriodTextIsFirst` | mazrica/sync_to_sheets.py:71-73 | a non-empty period is the whole count at the leftmost position where a count is followed by a period unit, with the unit found there; an empty one means there is no such position |
| `DiffSync.ExtractUsersAndPeriod` | mazrica/sync_to_sheets.py:49-75 | each part is `""` or has the shape above; the period keeps its unit suffix |
| `DiffSync.UsersEmptyIff` | mazrica/sync_to_sheets.py:62-68 | the user count is `""` exactly when no digit or `X` stands directly before "ユーザー" |
| `DiffSync.PeriodEmptyIff` | mazrica/sync_to_sheets.py:63-73 | the period is `""` exactly when no digit or `X` stands directly before "カ月", "ヶ月" or "か月" |
| `DiffSync.ExtractDocExample` | mazrica/sync_to_sheets.py:53-54 | the documented example name gives `("10", "3カ月")` |
| `DiffSync.BaseCells` | mazrica/sync_to_sheets.py:89-97 | the shared leading cells are seven and start with the deal id; their contents are stated by `RowsDealColumns` |
| `DiffSync.Rows` | mazrica/sync_to_sheets.py:105-131 | one row per product detail, or exactly one row without details; every row has `len(HEADERS)` = 17 cells and starts with the deal id |
| `DiffSync.RowsDealColumns` | mazrica/sync_to_sheets.py:89-130 | every row holds the deal's id and name, then customer name and id, deal type, phase and user each blank when falsy, and in columns 11 to 14 the deal amount blank only when `None`, the expected date blank when falsy, and the creation and update times |
| `DiffSync.MakeRowDealCells` | mazrica/sync_to_sheets.py:108-130 | a row built from the shared cells, any four product cells and the shared tail holds those deal cells |
| `DiffSync.RowsShareDealColumns` | mazrica/sync_to_sheets.py:86-117 | the rows of a deal agree on every column outside the four product columns and end with the user count and period scanned from the deal name |
| `DiffSync.RowsProductCells` | mazrica/sync_to_sheets.py:100-131 | without details, the product name is `deal.product_name or ""` and quantity, unit price and product amount are blank; with details, row i carries detail i's cells, and an empty detail name falls back to the deal's product name |
| `DiffSync.DealToRows` | mazrica/sync_to_sheets.py:78-133 | the rows appended in the loop are `Rows(deal)` |
| `DiffSync.AnyDetailHit` | mazrica/sync_to_sheets.py:162-164 | the loop over the details succeeds exactly when some detail from that point on has a matching name |
| `DiffSync.FilterDeal` | mazrica/sync_to_sheets.py:136-168 | a deal passes exactly when its phase is in a non-empty phase list (or the list is empty) and a non-empty product filter hits, case-insensitively, the deal's product name or some detail's name (or the filter is empty) |
| `DiffSync.PhaseFilterMonotone` | mazrica/sync_to_sheets.py:148-151 | a deal that passes a non-empty phase list also passes any list containing it, or the empty list |
| `DiffSync.Selected` | mazrica/sync_to_sheets.py:226-231 | the selected deals are exactly the fetched deals that pass `filter_deal`, each as many times as fetched; with both filters empty that is every deal |
| `DiffSync.Key` | mazrica/sync_to_sheets.py:241 | `str(deal.id)` reads back as the id and is in the canonical form `str` writes |
| `DiffSync.KeyIdentifiesDeal` | mazrica/sync_to_sheets.py:241-244 | two deals have the same key exactly when they have the same id |
| `DiffSync.KeySet` | mazrica/sync_to_sheets.py:241 | a string is in the set exactly when it is `str(id)` of some filtered deal |
| `DiffSync.NonCanonicalIdDeleted` | mazrica/sync_to_sheets.py:241-248 | a sheet id not in `str`'s canonical form ("01", "+1") is the key of no deal and is always deleted, even when it parses to a deal's id |
| `DiffSync.PaddedIdExample` | mazrica/sync_to_sheets.py:241-248 | with deal 1 in the source, sheet ids "01" and "1" give the key set {"1"} and delete only "01" |
| `DiffSync.NewDeals` | mazrica/sync_to_sheets.py:244 | each filtered deal whose key is not in the sheet is kept as many times as it occurs, and no other deal |
| `DiffSync.DeleteIds` | mazrica/sync_to_sheets.py:248 | each sheet id that no filtered deal has is kept with all its repeats, and no other id |
| `DiffSync.ReconcileExact` | mazrica/sync_to_sheets.py:241-248 | a deal is new exactly when it is a filtered deal whose `str(id)` is not in the sheet; an id is deleted exactly when it is in the sheet and no filtered deal has it |
| `DiffSync.DeletePartition` | mazrica/sync_to_sheets.py:241-248 | the deleted ids are the sheet's ids minus the filtered keys; they are disjoint from the kept ids, and the two together make up the sheet's id set |
| `DiffSync.ReconcileIdempotent` | mazrica/sync_to_sheets.py:241-248 | when the sheet's id set equals the filtered id set, nothing is added and nothing is deleted |
| `DiffSync.ReconcileConverges` | mazrica/sync_to_sheets.py:241-248 | after the deletions and additions the sheet holds exactly the filtered ids |
| `DiffSync.EmptySourceDeletesAll` | mazrica/sync_to_sheets.py:244-248 | without source deals, nothing is added and every sheet id, in order and with repeats, is deleted |
| `DiffSync.NewDealsKeepOrder` | mazrica/sync_to_sheets.py:244 | the new deals keep source order: selecting from a concatenation concatenates the selections |
| `DiffSync.DeleteIdsKeepOrder` | mazrica/sync_to_sheets.py:248 | the ids to delete keep sheet order: selecting from a concatenation concatenates the selections |
| `DiffSync.AllRows` | mazrica/sync_to_sheets.py:255-258 | every row appended for the deals has 17 cells |
| `DiffSync.AllRowsIds` | mazrica/sync_to_sheets.py:255-258 | every appended row has 17 cells and starts with the id of one of the deals |
| `DiffSync.RowCount` | mazrica/sync_to_sheets.py:255-260 | there are at least as many rows as deals, and exactly as many when no deal has two or more product details |
| `DiffSync.AllRowsCount` | mazrica/sync_to_sheets.py:255-260 | the number of appended rows is the sum of the per-deal row counts |
| `DiffSync.NewRowsAreNew` | mazrica/sync_to_sheets.py:244-258 | no appended row carries an id that is already in the sheet |
| `DiffSync.BuildNewRows` | mazrica/sync_to_sheets.py:255-258 | `new_rows` is `deal_to_rows` of each new deal, concatenated in order, and its length is the sum of their row counts |
| `DiffSync.SkippedAsWrittenCanBeNegative` | mazrica/sync_to_sheets.py:252 | with the sheet ids `["3", "3"]` and no source deal, the statistic as written is -1 |
| `DiffSync.SkippedAsWrittenWithoutRepeats` | mazrica/sync_to_sheets.py:252 | when the sheet's id column has no repeats, the statistic as written equals the number of ids that are both in the sheet and in the filtered source |
| `DiffSync.SkippedRowsCountsKeptRows` | mazrica/sync_to_sheets.py:252 | the corrected statistic, `len(existing_ids) - len(delete_ids)`, is the number of sheet rows whose id a filtered deal has, so it is never negative |
| `DiffSync.KeptIds` | mazrica/sync_to_sheets.py:244-252 | the kept ids are the sheet's ids, with their repeats, that some filtered deal has |
| `DiffSync.SyncDealsToSheets` | mazrica/sync_to_sheets.py:225-261 | returns the rows of the new filtered deals, the ids to delete and the statistics: total, filtered and existing counts, new and deleted row counts, and the number of kept rows |
| `DiffSync.WonLostScenario` | mazrica/sync_to_sheets.py:225-252 | deals 1 (won) and 2 (lost), only won deals wanted, and sheet ids "1" and "3": "3" is deleted, nothing is added and one id is kept |
| `RewriteSync.Rows` | sync_to_sheets.py:63-89 | one row per product detail, or exactly one row without details; every row has `len(HEADERS)` = 15 cells and starts with the deal id |
| `RewriteSync.RowsDealColumns` | sync_to_sheets.py:53-88 | every row holds the same deal cells as the differential sync's rows: id, name, falsy-blanked customer, type, phase and user, the `None`-blanked deal amount, the falsy-blanked expected date and the two timestamps |
| `RewriteSync.RowsProductCells` | sync_to_sheets.py:63-89 | without details the four product cells are blank; with details, row i carries detail i's raw name, quantity, unit price and amount |
| `RewriteSync.RowsAreDiffRowsTruncated` | sync_to_sheets.py:53-89 | each row equals the differential sync's row with the user-count and period columns dropped, except the product name: blank without details, and the detail's own name with no fallback |
| `RewriteSync.DealToRows` | sync_to_sheets.py:45-91 | the rows appended in the loop are `Rows(deal)` |
| `RewriteSync.AllRows` | sync_to_sheets.py:139-141 | every row produced for the deals has 15 cells |
| `RewriteSync.AllRowsCount` | sync_to_sheets.py:138-143 | there is one row per product detail and one per deal without details |
| `RewriteSync.BuildSheetData` | sync_to_sheets.py:133-143 | the data is the header row followed by every deal's rows in fetch order; `total_rows` is `len(data) - 1`, which is the sum of the per-deal row counts |

## Left out

- HTTP transport, JSON decoding, headers and the API key are left out. The responses to `GET /deals` are given as a sequence of pages, and the pages after the last one given are empty.
- The rate-limit wait and the client's `_last_request_time` field are left out: they are wall-clock behaviour, and the float `API_RATE_LIMIT` never reaches the data.
- The 429 retry is not modelled: it recurses without bound. Only the status classification is modelled.
- The `MazricaClient` constructor's check for a missing API key is left out; the same condition is reported by `validate`.
- `get_deal_types` and `get_deals`' parameter building are left out: they only shape requests.
- `MazricaClient.GetAllDeals`: only terminating runs are modelled. A server that returned non-empty pages below the total forever would keep the source requesting; here pages past the given ones are empty.
- Monetary amounts and quantities are Python floats. They are modelled as opaque reals that are never computed on; only their `None` handling is stated.
- `custom_fields` is never written to a sheet, so it is not modelled.
- JSON `null` in `name`, `createdAt`, `updatedAt`, `productName`, `productDetails` or `totalCount` is not modelled. `.get` with a default returns `None` there, and the source then fails or mis-types; only a missing member is modelled. A deal whose `id` is not an integer is not modelled either.
- The regular expressions, `lower()` and `strip()` are modelled over ASCII only. Python's `\d` also matches non-ASCII digits, `lower()` also folds non-ASCII letters, and `strip()` also removes non-ASCII whitespace. Python's `lower()` can also change the length of a non-ASCII string (`"İ".lower()` has two characters); the ASCII model never does.
- `Text.ParseInt` does not accept the underscores between digits that Python's `int()` allows, nor non-ASCII decimal digits such as "１２", nor non-ASCII whitespace around the number, all of which `int()` accepts.
- The differential sync reads `deal.product_name`, a field of the `Deal` class of mazrica/mazrica_client.py, which it imports; mazrica/mazrica_client.py is not part of this model. The client modelled here, mazrica_client.py, has no such field, so `ParseDeal` leaves it `None`, and the row and filter functions take it as given.
- The phase filters and the product filter are parameters of `DiffSync.SyncDealsToSheets`; filling in omitted arguments from `Config` is left out. mazrica/config.py defines no `get_phase_name_list`, so a call of `sync_deals_to_sheets()` without phase filters, as `main` makes, raises `AttributeError` at mazrica/sync_to_sheets.py:192, before the `try` at :206; that failure is not modelled.
- mazrica/google_sheets_client.py (`get_existing_ids`, `sync_data`, `write_data`, formatting) is not part of this model. The existing ids are an input sequence of strings, already passed through `str()`. The returned rows and delete ids are what the sink receives.
- The `synced_at` timestamp, the `success` flag and the mapping of exceptions to the `error` field of the statistics are left out, and so are logging, `main` and `sys.exit`.
- civilink_org_users.py is browser automation and is not part of this model. mazrica/__init__.py only re-exports names.
- Reading the `.env` file from disk is left out: its lines are a parameter of `MazricaConfig.LoadDotenv`. `Config`'s class attributes are `MazricaConfig.LoadSettings` of the environment as it is when mazrica/sync_to_sheets.py:12 imports the module, which is before `main` loads `.env`; see Findings.
- `MazricaConfig.Refused` models the refusals of `os.putenv` on POSIX: an empty name, a name with `=`, and a NUL in the name or value. The Windows rules and a value that cannot be encoded are left out.
- `DiffSync.SyncDealsToSheets` stores the corrected `skipped_rows`, the number of kept rows `len(existing_ids) - len(delete_ids)`, not the expression at mazrica/sync_to_sheets.py:252, which can be negative; `DiffSync.SkippedAsWritten` is that expression, and Findings has both.

## Findings

| source | as written | input that shows it | evidently intended | confidence | as-written member | corrected member |
|---|---|---|---|---|---|---|
| mazrica/sync_to_sheets.py:252 | `skipped_rows = len(existing_id_set) - len(delete_ids)` subtracts the deleted ids counted with repeats from the sheet's ids counted once each. A deal with several product rows repeats its id in the sheet's first column. | sheet ids `["3", "3"]` (one deal with two product rows) and no source deal: `1 - 2 = -1` | the rows kept, `len(existing_ids) - len(delete_ids)`, here 0, as the log line "Rows skipped" and the row counts beside it suggest; counting kept distinct ids, `len(existing_id_set) - len(set(delete_ids))`, is the other reading, and both agree with the expression as written when no id repeats | not executed | `DiffSync.SkippedAsWrittenCanBeNegative` (about `DiffSync.SkippedAsWritten`; `DiffSync.SkippedAsWrittenWithoutRepeats` shows where it is right) | `DiffSync.SkippedRowsCountsKeptRows` (about `DiffSync.SkippedRows`, used by `DiffSync.SyncDealsToSheets`) |
| mazrica/sync_to_sheets.py:12 | `Config`'s class body reads `os.environ` (mazrica/config.py:12-29) when :12 imports it, and `main` calls `load_dotenv()` only later, at :296, so `Config.validate()` at :299 never sees the `.env` values | an empty environment and a `.env` file with `MAZRICA_API_KEY=k` and `APPS_SCRIPT_URL=u`: `validate` reports both settings missing and `main` exits | the settings read after `.env` has been loaded, so that the file's values are validated and used | not executed | `MazricaConfig.DotenvUnseenAsWritten` (about `MazricaConfig.StartupSettingsAsWritten`) | `MazricaConfig.DotenvReachesConfig` (about `MazricaConfig.StartupSettings`) |
