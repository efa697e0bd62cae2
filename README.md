# Price-list engine of the work-order service, in Dafny

This project models the price-list engine of `PriceListService`. The engine reads a loosely
structured spreadsheet into a deduplicated, ordered catalog of `PriceItem`s, then answers
look-ups and autocomplete searches over that catalog. The model covers:

- header detection: scoring, with a keyword fallback;
- column mapping: an ordered cascade of substring rules;
- structured and heuristic row extraction;
- the add-with-deduplication rule;
- the catalog state: a map and a list kept in step, rebuilt by `reload`;
- the two queries.

A spreadsheet is given as data. A workbook is a sequence of sheets, each with a name and a
sequence of rows. A row is a sequence of cells. A cell carries two things:

- the text `getCellString` yields for it;
- the number `getCellDoubleSafe` yields for it, if any.

A missing cell is a blank cell and a missing row is an empty row: every loop of the engine treats
missing cells and rows exactly like blank ones. A missing workbook resource is `None`.

Modules, one per file:

- `Wrappers`: `Option`.
- `JavaStrings`: the parts of `java.lang.String` and `java.util.regex` the engine relies on:
  - `trim` drops characters up to U+0020;
  - `isBlank` uses `Character.isWhitespace`;
  - the regex class `\s`, the regex `.` (which excludes line terminators) and ASCII `\d`;
  - `toUpperCase`/`toLowerCase` with `Locale.ROOT`;
  - `contains` and `startsWith`.
- `KeyNormalization`: `normalize`.
- `Seqs`: `Stream.filter/findFirst/limit` and `List.remove(Object)`.
- `Sheets`: rows and cells, the safe cell readers, and `parseDoubleFromString`. The price
  filter keeps only the characters `0-9 , . -`, so the strings that `Double.parseDouble`
  accepts after it are exactly the decimal grammar `-? (digits [. digits*] | . digits)`. That grammar is read
  into a `real`.
- `HeaderDetection`: `findHeaderRow`, `findHeaderRowByKeywords` and `looksLikeHeaderRowAgain`.
- `ColumnMapping`: `mapHeaderColumns`.
- `Catalog`: `PriceItem`, the item `addPriceItemIfValid` builds, the put/replace rule, and
  the invariant tying `byEm` to `allItems`.
- `Queries`: `findByArticleNumber` and `searchByPrefix`.
- `RowExtraction`: the `addPriceItemIfValid` calls each sheet gives rise to, from the structured
  pass or the heuristic pass.
- `Service`: the class `PriceListService`. Its fields `byEm` (a map) and `allItems` (a
  sequence) are updated in place by `reload`, `loadData`, `readSheetFlexible`,
  `processRowsHeuristically` and `addPriceItemIfValid`.
  - Every method is proved against the functional model in `Catalog` and `RowExtraction`.
  - Every method except the helper `PutItem` keeps the class invariant `Valid()`, which says the
    two structures agree.

Three behaviours of the code are easy to misread:

- The heuristic pass takes as unit the first cell whose text contains `st`, `kg`, `l`, `L`
  or `dag` anywhere. So for the row ("Oil filter", "199.50", "st") the unit is "Oil filter",
  which contains an `l`. The em is "199.50", which contains a digit and is at most 20 characters
  long.
- The structured pass takes the purchase price whenever the customer price is missing or not
  positive, whatever the purchase price's sign. Negative prices therefore reach the catalog.
- The fallback filter of `findByArticleNumber` also compares normalised emNrs. In a consistent
  catalog this part never matches: a key that is not in `byEm` is no item's key
  (`Queries.FallbackMatchesOnlyNames`).

## Model

| member | source | states |
|---|---|---|
| JavaStrings.Trim | src/main/java/com/swedtrac/workorder/pricelist/PriceListService.java:169 | `String.trim`: a contiguous slice of the input with only characters up to U+0020 before and after it, and none at either of its own ends; empty exactly when every input character is one up to U+0020 |
| JavaStrings.TrimOfUpper | src/main/java/com/swedtrac/workorder/pricelist/PriceListService.java:402 | trimming and upper-casing commute, since upper-casing maps no character to or from one up to U+0020 |
| JavaStrings.ContainsIff | src/main/java/com/swedtrac/workorder/pricelist/PriceListService.java:132-136 | `contains` holds exactly when the keyword occurs at some index of the text |
| JavaStrings.ContainsAnyIff | src/main/java/com/swedtrac/workorder/pricelist/PriceListService.java:172 | a chain of `contains` joined by `||` holds exactly when some keyword of the chain occurs in the text |
| JavaStrings.Utf16Length | src/main/java/com/swedtrac/workorder/pricelist/PriceListService.java:251 | `String.length()` counts code units: at least one and at most two per character |
| JavaStrings.Utf16LengthBmp | src/main/java/com/swedtrac/workorder/pricelist/PriceListService.java:251 | a string of characters up to U+FFFF has one code unit per character |
| JavaStrings.Utf16Prefix | src/main/java/com/swedtrac/workorder/pricelist/PriceListService.java:376 | the longest prefix within n code units: the whole string when it fits, and otherwise one more character would exceed n |
| KeyNormalization.Normalize | src/main/java/com/swedtrac/workorder/pricelist/PriceListService.java:400-403 | `normalize` is empty exactly when the trimmed input is empty; otherwise neither end is a character `trim` removes, the only `\s` character left is the space, no two of them are adjacent, and upper-casing it changes nothing |
| KeyNormalization.NormalizeIdempotent | src/main/java/com/swedtrac/workorder/pricelist/PriceListService.java:400-403 | normalising a normalised key gives the same key |
| KeyNormalization.NormalizeOfKey | src/main/java/com/swedtrac/workorder/pricelist/PriceListService.java:400-403 | a string already in key form (no character `trim` removes at either end, single spaces as its only whitespace, upper case) is its own key |
| KeyNormalization.NormalizeOfTrim | src/main/java/com/swedtrac/workorder/pricelist/PriceListService.java:400-403 | padding around a string does not change its key |
| KeyNormalization.NormalizeIgnoresCase | src/main/java/com/swedtrac/workorder/pricelist/PriceListService.java:400-403 | two strings with the same upper-cased form get the same key |
| KeyNormalization.NormalizeOfLower | src/main/java/com/swedtrac/workorder/pricelist/PriceListService.java:400-403 | a lower-cased string gets the key of the string itself |
| KeyNormalization.NormalizeRun | src/main/java/com/swedtrac/workorder/pricelist/PriceListService.java:400-403 | inside a string that begins and ends with characters `trim` keeps, any non-empty run of `\s` characters gives the key of a single space |
| KeyNormalization.CollapseRun | src/main/java/com/swedtrac/workorder/pricelist/PriceListService.java:402 | `replaceAll("\\s+", " ")` treats any non-empty run of `\s` characters, wherever it stands, like a single space |
| KeyNormalization.CollapseOfCollapsed | src/main/java/com/swedtrac/workorder/pricelist/PriceListService.java:402 | a string with single spaces as its only whitespace is left unchanged by the collapsing |
| KeyNormalization.CollapseIsCollapsed | src/main/java/com/swedtrac/workorder/pricelist/PriceListService.java:402 | `replaceAll("\\s+", " ")` leaves no whitespace character other than single spaces |
| Seqs.FindFirst | src/main/java/com/swedtrac/workorder/pricelist/PriceListService.java:416-419 | `filter(..).findFirst()`: None exactly when no element passes; otherwise an element that passes, with none passing before it |
| Seqs.Filter | src/main/java/com/swedtrac/workorder/pricelist/PriceListService.java:428-431 | `filter(..).collect`: a subsequence of the input holding exactly the elements that pass, in order, each passing element as often as in the input and no other element |
| Seqs.RemoveFirstAt | src/main/java/com/swedtrac/workorder/pricelist/PriceListService.java:394 | `List.remove(Object)` on an element first occurring at index i leaves everything before and after i in order |
| Sheets.CellStringSafe | src/main/java/com/swedtrac/workorder/pricelist/PriceListService.java:280-284 | null exactly for a negative column index; the cell's text for a column of the row; "" for a column past the end of the row |
| Sheets.CellDoubleSafe | src/main/java/com/swedtrac/workorder/pricelist/PriceListService.java:286-290 | the cell's number (null when the cell has none) for a column of the row; null for a negative index and for a column past the end of the row |
| Sheets.CommaDecimal | src/main/java/com/swedtrac/workorder/pricelist/PriceListService.java:316-325 | `parseDoubleFromString` on a price written "a,b" with digit strings a and b gives the decimal a.b |
| Sheets.DigitsParse | src/main/java/com/swedtrac/workorder/pricelist/PriceListService.java:316-325 | `parseDoubleFromString` on a plain digit string gives its integer value |
| Sheets.ParseDoubleFromString | src/main/java/com/swedtrac/workorder/pricelist/PriceListService.java:316-325 | null when nothing survives the filter; otherwise a number exactly when the filtered text has the decimal syntax (optional minus, digits, at most one point, some digit), null when `parseDouble` would throw |
| Sheets.FilteredBlankIffEmpty | src/main/java/com/swedtrac/workorder/pricelist/PriceListService.java:318-319 | the filtered text is blank exactly when it is empty, so `isBlank` and `isEmpty` agree on it |
| Sheets.ParseOfFiltered | src/main/java/com/swedtrac/workorder/pricelist/PriceListService.java:316-325 | on a text whose filtered form is not empty, `parseDoubleFromString` is `Double.parseDouble` of the filtered form |
| Sheets.ParseDecimalIff | src/main/java/com/swedtrac/workorder/pricelist/PriceListService.java:321-324 | `Double.parseDouble` on a filtered string succeeds exactly on the decimal syntax |
| Sheets.UnsignedDecimalIff | src/main/java/com/swedtrac/workorder/pricelist/PriceListService.java:321-324 | splitting at the first point accepts exactly digits with at most one point and at least one digit |
| Sheets.FilteredNeedsNoTrim | src/main/java/com/swedtrac/workorder/pricelist/PriceListService.java:318 | the filter leaves nothing for `trim` to remove |
| Sheets.SecondPointRejected | src/main/java/com/swedtrac/workorder/pricelist/PriceListService.java:320-324 | a filtered text with two points, such as "1.2.3", gives null |
| Sheets.InnerMinusRejected | src/main/java/com/swedtrac/workorder/pricelist/PriceListService.java:320-324 | a filtered text with a minus sign after its first character, such as "1-2", gives null |
| Sheets.LoneMinusRejected | src/main/java/com/swedtrac/workorder/pricelist/PriceListService.java:320-324 | the filtered text "-" gives null |
| Sheets.CheckRowEmpty | src/main/java/com/swedtrac/workorder/pricelist/PriceListService.java:261-267 | `isRowEmpty`'s cell loop answers true exactly when every cell's text is blank |
| HeaderDetection.CellScore | src/main/java/com/swedtrac/workorder/pricelist/PriceListService.java:129-137 | a cell scores at most 5 points, one per keyword family; a blank cell scores 0 |
| HeaderDetection.ScanBestIsEarliestMaximum | src/main/java/com/swedtrac/workorder/pricelist/PriceListService.java:125-143 | the `bestRow`/`bestScore` scan picks the earliest row of the window with the greatest score, and only when that score is at least 2; otherwise -1 |
| HeaderDetection.HeaderRowOf | src/main/java/com/swedtrac/workorder/pricelist/PriceListService.java:121-144 | `findHeaderRow` returns -1 or a row in `startRow..min(lastRow, startRow+max)` with score at least 2; no row of the window scores more, and no earlier row scores as much; -1 exactly when no row in the window scores 2 (stated over `Scores`, whose entries are the row scores by `ScoresAt`) |
| HeaderDetection.ScoresAt | src/main/java/com/swedtrac/workorder/pricelist/PriceListService.java:126-138 | entry r of the score sequence is the score row r gets from the cell loop |
| HeaderDetection.FindHeaderRow | src/main/java/com/swedtrac/workorder/pricelist/PriceListService.java:121-144 | the loop with `bestRow`/`bestScore` computes `HeaderRowOf` |
| HeaderDetection.ScoreRow | src/main/java/com/swedtrac/workorder/pricelist/PriceListService.java:128-137 | the per-row cell loop computes the row's score |
| HeaderDetection.KeywordRowFrom | src/main/java/com/swedtrac/workorder/pricelist/PriceListService.java:146-163 | `findHeaderRowByKeywords` returns the first row up to `min(lastRow, 40)` with a keyword hit, or -1 exactly when there is none |
| HeaderDetection.FindHeaderRowByKeywords | src/main/java/com/swedtrac/workorder/pricelist/PriceListService.java:146-163 | the row loop computes `KeywordRowFrom` over rows 0 to `min(lastRow, 40)` |
| HeaderDetection.CountRowHits | src/main/java/com/swedtrac/workorder/pricelist/PriceListService.java:151-159 | the per-row cell loop counts the keyword hits of the row |
| HeaderDetection.LooksLikeHeaderRowAgainIff | src/main/java/com/swedtrac/workorder/pricelist/PriceListService.java:269-278 | a row repeats the header exactly when some cell's lower-cased text has one of "material", "pris inköp", "pris till kund", "em nr", "art nr" at some index |
| HeaderDetection.CheckHeaderRowAgain | src/main/java/com/swedtrac/workorder/pricelist/PriceListService.java:269-278 | the cell loop with its early return answers `LooksLikeHeaderRowAgain` |
| ColumnMapping.TextRoles | src/main/java/com/swedtrac/workorder/pricelist/PriceListService.java:169-202 | a blank header text claims no column |
| ColumnMapping.PrimaryRole | src/main/java/com/swedtrac/workorder/pricelist/PriceListService.java:172-195 | defined as the role of the first of the six rules ending in `continue` whose keywords the text contains; proved to be one of those six roles, so a cell matching one of them claims exactly that role |
| ColumnMapping.ColumnMapIsLastClaim | src/main/java/com/swedtrac/workorder/pricelist/PriceListService.java:165-205 | the column map holds a role exactly when some header cell claims it, and then holds the last such cell's index |
| ColumnMapping.MapHeaderColumns | src/main/java/com/swedtrac/workorder/pricelist/PriceListService.java:165-205 | the cell loop builds the column map cell by cell; each later claim overwrites an earlier one |
| ColumnMapping.RecordHeaderCell | src/main/java/com/swedtrac/workorder/pricelist/PriceListService.java:169-202 | one pass of the cascade adds the cell's claimed roles, qty and service independently, and nothing else |
| ColumnMapping.ColumnOf | src/main/java/com/swedtrac/workorder/pricelist/PriceListService.java:100-105 | `getOrDefault(role, -1)`: -1 exactly when the role has no column |
| Catalog.NewItem | src/main/java/com/swedtrac/workorder/pricelist/PriceListService.java:362-381 | no item when both the trimmed emNr and the name (material, else article number) are null or blank; otherwise price 0 for a null price, unit "st" for a blank unit, the trimmed emNr or else "NAME:" plus at most 60 characters of the name, and name "" for a null name |
| Catalog.NameKey | src/main/java/com/swedtrac/workorder/pricelist/PriceListService.java:375-376 | the synthesised key is "NAME:" followed by a prefix of the name: the whole name when its length is at most 60 code units; otherwise the longest prefix within 60 code units, so adding the next character would pass 60 |
| Catalog.NameKeyBmp | src/main/java/com/swedtrac/workorder/pricelist/PriceListService.java:375-376 | for a name of more than 60 characters, none beyond U+FFFF, the key is "NAME:" followed by exactly its first 60 characters |
| Catalog.NewItemKey | src/main/java/com/swedtrac/workorder/pricelist/PriceListService.java:383 | every item built has a non-empty normalised key |
| Catalog.PutOutcome | src/main/java/com/swedtrac/workorder/pricelist/PriceListService.java:384-397 | a new key appends the item and files it; an existing key whose item has price below 0.0001 (or 0) gives way to a positive price: the old item leaves `allItems`, the others keep their order, and the new one comes last; in every other case nothing changes |
| Catalog.PutPreservesConsistency | src/main/java/com/swedtrac/workorder/pricelist/PriceListService.java:18-19 | a put under the item's own key keeps `byEm` and `allItems` in step: distinct keys in `allItems`, and `byEm[k]` is exactly the listed item whose key is k |
| Catalog.ApplyPreservesConsistency | src/main/java/com/swedtrac/workorder/pricelist/PriceListService.java:362-398 | every `addPriceItemIfValid` call keeps the catalog consistent |
| Catalog.ApplyAllPreservesConsistency | src/main/java/com/swedtrac/workorder/pricelist/PriceListService.java:32-59 | any run of calls from a consistent catalog leaves it consistent |
| Catalog.EmptyIsConsistent | src/main/java/com/swedtrac/workorder/pricelist/PriceListService.java:26-28 | the cleared catalog is consistent |
| Catalog.ConsistentSizes | src/main/java/com/swedtrac/workorder/pricelist/PriceListService.java:18-19 | in a consistent catalog `byEm` has exactly as many keys as `allItems` has items |
| Catalog.ApplyAllAppend | src/main/java/com/swedtrac/workorder/pricelist/PriceListService.java:47-53 | running the calls of one sheet after those of the earlier sheets is running them all in order |
| Queries.FindByArticleNumber | src/main/java/com/swedtrac/workorder/pricelist/PriceListService.java:410-420 | null for null; the item filed under the normalised query when there is one; otherwise the first item of `allItems` whose normalised emNr equals the key or whose normalised name contains it, and null exactly when there is none |
| Queries.FoundItemIsListed | src/main/java/com/swedtrac/workorder/pricelist/PriceListService.java:410-420 | in a consistent catalog every item found is in `allItems` |
| Queries.FallbackMatchesOnlyNames | src/main/java/com/swedtrac/workorder/pricelist/PriceListService.java:416-419 | in a consistent catalog the fallback filter matches exactly the items whose normalised name contains the key |
| Queries.BlankQueryFindsFirstItem | src/main/java/com/swedtrac/workorder/pricelist/PriceListService.java:410-420 | a blank non-null query on a non-empty consistent catalog returns the first item of `allItems` |
| Queries.SearchByPrefix | src/main/java/com/swedtrac/workorder/pricelist/PriceListService.java:425-432 | empty for a null prefix and for one that trims to ""; otherwise at most `limit` items, all matching, in `allItems` order, a prefix of the full filtered list, and all matching items when fewer than `limit` come back |
| RowExtraction.StructuredRow | src/main/java/com/swedtrac/workorder/pricelist/PriceListService.java:93-113 | empty rows and repeated header lines are skipped; the customer price is used when positive, else the purchase price whatever its sign; a row is dropped only when em, article number and material are blank and there is no price; the call gets the cells of the mapped columns |
| RowExtraction.HeuristicRow | src/main/java/com/swedtrac/workorder/pricelist/PriceListService.java:207-267 | a row gives a call exactly when it is not empty, some cell looks like a name or an em, and some cell gives a positive price; the call's material looks like a name, its em like an em, its unit like a unit, its price is positive and it has no article number |
| RowExtraction.HeuristicRowPicksFirst | src/main/java/com/swedtrac/workorder/pricelist/PriceListService.java:215-240 | the material, em and unit of a heuristic call are each present exactly when some cell looks like one, and then are the text of the first such cell; the price is that of the first cell offering a positive one |
| RowExtraction.NameTextFacts | src/main/java/com/swedtrac/workorder/pricelist/PriceListService.java:248-252 | `looksLikeName` holds only of a text with a character outside `[0-9\s\-\.,]`, and padding does not change it |
| RowExtraction.EmTextFacts | src/main/java/com/swedtrac/workorder/pricelist/PriceListService.java:254-259 | `looksLikeEm` holds only of a text with a digit and at most 20 characters after trimming, and padding does not change it |
| RowExtraction.CellPrice | src/main/java/com/swedtrac/workorder/pricelist/PriceListService.java:224-237 | the price of a cell is positive when present, and is the cell's number whenever that number is positive |
| RowExtraction.CellPriceFromText | src/main/java/com/swedtrac/workorder/pricelist/PriceListService.java:224-237 | a cell without a positive number is priced from its text: `parseDoubleFromString` of the text when that gives a positive value, and no price otherwise |
| RowExtraction.HeuristicRequestsPriced | src/main/java/com/swedtrac/workorder/pricelist/PriceListService.java:207-246 | every call of the heuristic pass has a positive price and the sheet's name |
| RowExtraction.HeaderIndex | src/main/java/com/swedtrac/workorder/pricelist/PriceListService.java:71-89 | defined as the scored header row of rows 0 to 12 when there is one, and otherwise the first keyword row of rows 0 to 40; proved to be -1 or a row of the sheet |
| RowExtraction.SheetRequests | src/main/java/com/swedtrac/workorder/pricelist/PriceListService.java:68-119 | a sheet without rows gives no calls |
| RowExtraction.SheetRequestsFrom | src/main/java/com/swedtrac/workorder/pricelist/PriceListService.java:74-118 | defined, once the header row and its column map are known, as the heuristic pass when there is no header or no mapped column and the structured pass below the header otherwise; proved to give no calls for a sheet without rows |
| RowExtraction.SheetRequestsAt | src/main/java/com/swedtrac/workorder/pricelist/PriceListService.java:71-89 | the calls of a sheet are those its header row and that row's column map give |
| RowExtraction.SheetRequestsStamped | src/main/java/com/swedtrac/workorder/pricelist/PriceListService.java:68-119 | every call a sheet gives rise to carries that sheet's name |
| Service.Loaded | src/main/java/com/swedtrac/workorder/pricelist/PriceListService.java:32-59 | the loaded catalog is consistent, and empty when the workbook resource is missing |
| Service.PriceListService.constructor | src/main/java/com/swedtrac/workorder/pricelist/PriceListService.java:21-24 | construction runs `reload` |
| Service.PriceListService.Reload | src/main/java/com/swedtrac/workorder/pricelist/PriceListService.java:26-30 | `reload` clears both structures and leaves the loaded catalog, consistent |
| Service.PriceListService.LoadData | src/main/java/com/swedtrac/workorder/pricelist/PriceListService.java:32-59 | every sheet in order goes through `readSheetFlexible`; nothing changes when the resource is missing |
| Service.PriceListService.ReadSheetFlexible | src/main/java/com/swedtrac/workorder/pricelist/PriceListService.java:68-119 | the catalog afterwards is the one the sheet's calls give, and stays consistent |
| Service.PriceListService.LocateHeader | src/main/java/com/swedtrac/workorder/pricelist/PriceListService.java:71-89 | the header search settles on `HeaderIndex` and the column map of that row, empty when there is none |
| Service.PriceListService.ReadSheetWithHeader | src/main/java/com/swedtrac/workorder/pricelist/PriceListService.java:74-118 | after the header search, the catalog is the one the sheet's calls from that header give, and stays consistent |
| Service.PriceListService.ReadRowsBelowHeader | src/main/java/com/swedtrac/workorder/pricelist/PriceListService.java:93-114 | the row loop makes the structured calls for the rows below the header, in order |
| Service.PriceListService.ReadStructuredRow | src/main/java/com/swedtrac/workorder/pricelist/PriceListService.java:94-113 | one row of the loop makes the call `StructuredRow` gives, or none |
| Service.PriceListService.ProcessRowsHeuristically | src/main/java/com/swedtrac/workorder/pricelist/PriceListService.java:207-246 | the row loop makes the heuristic calls for all rows, in order |
| Service.PriceListService.ReadHeuristicRow | src/main/java/com/swedtrac/workorder/pricelist/PriceListService.java:210-244 | one row of the loop makes the call `HeuristicRow` gives, or none |
| Service.PriceListService.ScanRow | src/main/java/com/swedtrac/workorder/pricelist/PriceListService.java:215-240 | the cell loop finds the text of the first name-like, em-like and unit-like cell and the price of the first priced cell |
| Service.PriceListService.ScanCell | src/main/java/com/swedtrac/workorder/pricelist/PriceListService.java:221-239 | each slot still empty takes the cell's text or price when it qualifies, and a filled slot is kept |
| Service.PriceListService.AddPriceItemIfValid | src/main/java/com/swedtrac/workorder/pricelist/PriceListService.java:362-398 | the new state is the one `Apply` gives for the call, and the structures stay in step |
| Service.PriceListService.PutItem | src/main/java/com/swedtrac/workorder/pricelist/PriceListService.java:383-397 | the map/list update is `Put` under the item's normalised key |
| Service.PriceListService.SearchByPrefixNormalize | src/main/java/com/swedtrac/workorder/pricelist/PriceListService.java:435-437 | at most 20 items, in `allItems` order |

## Left out

- Workbook acquisition is not modelled. That covers class-path resource loading, Apache POI's
  `WorkbookFactory`, the retry for the older format, closing the stream, and console output. The
  workbook is a parameter instead: `None` when the resource is missing.
- Exceptions thrown while loading are not modelled. Any exception ends `loadData` with what has
  been added so far, and the model has no such early exit.
- `synchronized` on `reload`: the model is sequential.
- `getCellString` and `getCellDoubleSafe` dispatch on POI cell types. That dispatch covers
  formula evaluation, date formatting and the rendering of numbers as text. Each cell is given by
  the two values these return. `Sheets.StringCell` shows the string-cell case.
- Prices are exact reals. `Double.parseDouble` rounding and the binary representation of
  `double` are not modelled.
- `JavaStrings.ToUpper`: case mapping covers ASCII and Latin-1 letters only. It does not model
  characters whose upper-case form is longer or lies outside Latin-1, such as ß→SS and ÿ→Ÿ.
  A character is a Unicode scalar value, so a character beyond U+FFFF is one character where Java
  holds a surrogate pair of two code units. Every `length()` test of the source is modelled in code
  units (`JavaStrings.Utf16Length`).
- `Catalog.NameKey`: when the 60th code unit of a name is the first half of a surrogate pair,
  `substring(0, 60)` keeps that lone half. A character of the model cannot be half a pair, so the
  key keeps the first 59 code units and drops the whole character. For names without such
  characters the key is exactly the first 60 (`Catalog.NameKeyBmp`).
- `normalize(null)` is not modelled: every caller passes a non-null string.
- `searchByPrefix` with a negative limit throws; the model's limit is a `nat`.
- A null sheet or header row cannot occur in the model's data, so the skip of a null sheet and
  `mapHeaderColumns(null)` are not modelled.
- `Service.PriceListService.GetAllItems` returns the sequence itself. Read-only wrapping of the
  list has no counterpart.
- Removal from `allItems` is by value, where the source removes by reference because
  `PriceItem` has no `equals`. Under the invariant the removed item is the only one with its
  key, so the two agree (`Catalog.PutOutcome`).
- The compatibility adapters `findByEmNrNormalize` and `findByEmNrNormalizeList` only forward,
  to `findByArticleNumber` and `searchByPrefixNormalize`.
- The controllers, JPA entities and the browser script lie outside this engine.
