# SLE Admin server — a Dafny model

The server in `server.js` scrapes a vendor's purchase-order page and files its
rows in a Firebase realtime database. Its core pieces are:

- a table extractor that turns the rows of an HTML table into header-keyed records;
- a grouping step that files each record under its "PO Ref" group and item key;
- the writes that store those groups, the vendor link and delivery statuses;
- the link handling shared by the `store-link`, `fetch-link` and `extract-table` endpoints.

The model has six modules:

- `Strings`: the JavaScript string operations the server relies on, and what each one computes.
  - `indexOf` and `includes`;
  - `split(...)[0]`;
  - `replace` with a string pattern (first occurrence only);
  - `substring`, including its clamping of bounds.
- `Http`: the values that cross the network.
  - `Page` is a fetched page (status, body text and the cell texts of its table rows) or an axios failure.
  - `Response` is a status code and a JSON body.
- `Table`: `extractTableData` as a method with its nested row and cell loops, proved against the function `TableRecords`.
  - It also holds the lemmas about records that the `/api/extract-table` loop builds.
- `Grouping`: the `forEach` of `/api/insertData` as the method `GroupRecords`, proved against the left fold `Grouped`.
  - `GroupKey` and `ItemKey` derive a record's slot.
  - `DateSplit` splits the date cell.
  - `Normalize` builds the 18-field item.
- `Store`: the database as a class `Database`, holding the `PORef` tree and the `VendorLinks` value.
  - Its methods are the three kinds of write the server performs.
  - The functions `SetGroups` and `WithStatus` give each write's effect on the tree.
- `Api`: the class `Server`, holding the process-wide `currentStoredLink`, with one method per endpoint.
  - The `validateLink` helper is a method of its own.

Fetching a URL is a parameter, `fetch: string -> Page`. A non-2xx answer is
represented as `FetchError`, because axios rejects it. A 500 reply's body
carries the kind of error rather than the JavaScript engine's message text.

Two consequences of the code are worth spelling out:

- `replace('/', '-')` replaces only the slash and keeps the spaces around it, so "1001 / A" gets the item key "1001 - A" (`Grouping.ScenarioItemKey`).
- A "PO Ref" without " / " is grouped under the whole string, since `split` then yields the string itself (`Grouping.GroupKeyShape`).

## Model

| member | source | states |
|---|---|---|
| Strings.FindSpec | server.js:193 | `indexOf` returns the first index at which the pattern occurs, and -1 only when it occurs nowhere |
| Strings.ContainsIff | server.js:193 | `includes` is true exactly when the pattern occurs at some index |
| Strings.FirstComponentSpec | server.js:91 | for a non-empty `d`, `split(d)[0]` is a prefix that contains no `d`. It is the whole string when `d` is absent; otherwise `d` follows it |
| Strings.IndexOfSpec | server.js:94 | the index of a character is -1 exactly when the character is absent; otherwise it holds the first occurrence |
| Strings.ReplaceFirstSpec | server.js:94 | `replace` with a one-character pattern changes only its first occurrence; a string without the pattern is returned unchanged |
| Strings.Substring | server.js:101-104 | `substring` clamps both bounds to the length, so its result is never longer than the requested span |
| Table.RowRecordKeys | server.js:46-53 | a data row's object has exactly the keys of its cell positions. A position past the headers is stored under the key "undefined" |
| Table.RowRecordAt | server.js:52 | when two cells share a header, the later cell's text is the value kept |
| Table.RowObject | server.js:46-54 | the cell loop of a data row builds exactly that row's record, keyed by header position |
| Table.HeaderCells | server.js:302-304 | the header loop yields the first row's cell texts, in order |
| Table.CollectShape | server.js:40-60 | the row loop yields one record per non-empty data row, in order, each of them that row's record |
| Table.ExtractTableData | server.js:28-70 | a status other than 200, or a failed fetch, gives null. Otherwise the result is the headers of row 0 applied to each later row that has cells |
| Table.TableRecordsCount | server.js:40-60 | the number of records is the number of non-empty rows after the first, i.e. all of them when none is empty |
| Table.WellFormedTable | server.js:40-60 | with distinct headers and non-empty rows no longer than the headers, record r maps exactly the headers of row r+1's cells to those cells |
| Table.VariantsAgree | server.js:302-313 | when every data row has cells, the endpoint's inline loop and `extractTableData` produce the same records |
| Table.InlineKeepsEmptyRows | server.js:307-313 | the endpoint's loop turns a row without cells into an empty record, which `extractTableData` drops |
| Grouping.GroupKeyShape | server.js:91 | the group key is the "PO Ref" up to the first " / ", or the whole "PO Ref" when there is none: no " / " starts inside the key, one follows it when the "PO Ref" has any, and the key never contains " / " |
| Grouping.GroupKeyEmpty | server.js:91-92 | the group key is empty exactly when the "PO Ref" is empty or begins with " / " |
| Grouping.SkipRule | server.js:91-92 | a record is skipped exactly when its "PO Ref" is missing, empty or begins with " / " |
| Grouping.ItemKeyShape | server.js:94 | the item key has the "PO Ref"'s length and characters, except that the first '/' becomes '-' |
| Grouping.DateSplit | server.js:97-109 | a cell of 16 or more characters gives a 10-character due date and the next (at most 10) characters as promised date; 8 to 15 characters give an 8-character due date and an empty promised date; shorter cells give two empty dates |
| Grouping.Normalize | server.js:97-100 | normalising fails (reading the date cell's length throws) exactly when the record lacks the date cell |
| Grouping.NormalizeSpec | server.js:112-131 | a normalised item has exactly the 18 fields: the 16 pass-through fields holding the record's text or '', plus the two split dates |
| Grouping.NormalizeDates | server.js:119-120 | the item's "Due Date" and "Promised Date" are the two halves of the date cell's split |
| Grouping.Grouped | server.js:89-139 | no group in the grouped object is empty |
| Grouping.GroupRecords | server.js:89-139 | the loop fails exactly when an included record lacks the date cell. Otherwise its result is the fold `Grouped` of the records |
| Grouping.GroupedLastWins | server.js:134-137 | an included record is the item stored at its slot unless a later included record shares that slot |
| Grouping.GroupedOrigin | server.js:134-137 | every stored item is the normalised form of some included record filed at that slot |
| Grouping.GroupedCovers | server.js:134-137 | every included record's slot is present in the grouped object |
| Grouping.LastForSpec | server.js:89-139 | `LastFor` is the index of the last included record with a given slot, or -1 when there is none |
| Grouping.GroupedAt | server.js:89-139 | a slot holds exactly the normalised form of its last included record, and is absent when no included record has it |
| Grouping.GroupedTwice | server.js:89-139 | grouping the records twice in a row yields the same object as grouping them once |
| Grouping.ScenarioGroupKey | server.js:91 | "1001 / A" has group key "1001" |
| Grouping.ScenarioItemKey | server.js:94 | "1001 / A" has item key "1001 - A" |
| Grouping.ScenarioDates | server.js:100-102 | "2024-01-012024-01-15" splits into "2024-01-01" and "2024-01-15" |
| Grouping.Scenario | server.js:91-131 | a worked record is included, is filed at ("1001", "1001 - A"), and gets both dates |
| Store.SetGroupsFrame | server.js:142-148 | every produced group's subtree is replaced wholesale, and every other group keeps its contents |
| Store.SetGroupsIdempotent | server.js:142-148 | setting the same groups a second time changes nothing |
| Store.WithStatus | server.js:334-339 | the status is readable at the item's DeliveryStatus path, which is created if missing. Every other path keeps its value, and the item keeps its other fields |
| Store.UpdateAfterInsert | server.js:328-339 | updating the status with the same "PO Ref" an insert used lands on the inserted item, which keeps its other fields |
| Store.Database.SetGroup | server.js:147 | the group's subtree becomes the given group; the vendor link is unchanged |
| Store.Database.SetDeliveryStatus | server.js:334-339 | the tree becomes `WithStatus` of the old tree; the vendor link is unchanged |
| Store.Database.SetVendorLink | server.js:195 | the vendor link becomes the given link; the tree is unchanged |
| Api.Server.InsertData | server.js:74-154 | failed extraction gives 500 and an included record without a date cell gives 500, neither writing anything. Otherwise the reply is 200 and every grouped subtree is set |
| Api.Server.WriteGroups | server.js:142-148 | after the write loop the tree is the old tree with every produced group set |
| Api.Server.ValidateLink | server.js:186-206 | a failed fetch rethrows and writes nothing. A body without the expiry phrase stores the link as the vendor link. A body with it leaves the vendor link as it was |
| Api.Server.StoreLink | server.js:208-222 | the link becomes `currentStoredLink` in every case. The reply is 200 when it was stored, 400 when the page shows the expiry phrase, and 500 when the fetch failed |
| Api.Server.FetchLink | server.js:234-251 | the reply is 404 "not_found" exactly when the stored vendor link is missing or empty, otherwise 200 "valid" |
| Api.Server.ExtractTable | server.js:284-319 | the cached link takes precedence over the query link. A missing or empty link gives 400, a failed fetch gives 500, and otherwise the reply is one record per row after the first |
| Api.Server.UpdateDeliveryStatus | server.js:323-345 | the DeliveryStatus at (selectedPoRef, item key of poRef) is set, nothing else changes, and the reply is 200 |

## Left out

- HTTP and HTML: the network request and the parsing of the page are not modelled. A page is given directly as a 2xx status, a body and the trimmed cell texts of its `tr` rows (`td` cells).
- Express: routing, CORS, JSON parsing, `console` logging and the `/api/ping` route are not modelled.
- Firebase initialisation is not modelled.
- Api.Server.InsertData: Firebase key validation is not modelled. A group key or item key that Firebase refuses makes `child()` or `set()` throw synchronously. Such keys contain '.', '#', '$', '[' or ']', or, for an item key, a second '/' (from a "PO Ref" such as "1001 / A / B"). The source then answers 500, and the sets already sent for earlier groups stay. The model answers 200 with every group set, its keys taken literally.
- Api.Server.UpdateDeliveryStatus: the same key validation is not modelled. An empty or refused `selectedPoRef`, or a refused item key, makes `child()` throw, and the source answers 500. The model answers 200 and writes the status, and a '/' in `selectedPoRef` is not split into path levels.
- The writes are not awaited: the group sets in the insert loop (server.js:147), the `VendorLinks` set in `validateLink` (server.js:195) and the status set (server.js:339). The model applies them immediately, the group sets in some order, and nothing reports a failed write.
- `/api/fetch-data` and `fetchDataFromFirebase` are not modelled. They only read the whole tree back.
- `containsTable` and `isLinkExpired` are not modelled. No route calls them, because the call is commented out.
- Concurrent requests, and the interleaving of awaited steps between them, are not modelled. Each handler runs to completion on the state it finds.
- Requests whose body lacks a field, or carries a non-string where a string is expected, are not modelled. Such a `poRef` would throw a `TypeError`, and so would a page body that is not text. Handler inputs are strings.
- Api.Server.StoreLink: a missing `link` would set `currentStoredLink` to undefined. The model always stores `Some(link)`.
- Api.Server.ExtractTable: `link` is an undeclared (implicit global) variable in the source. The model keeps it local, so its leakage between requests is not captured.
- Error texts: the JavaScript engine's exact messages are replaced by the `Failure` kinds.
- String lengths count UTF-16 code units in JavaScript but characters of `seq<char>` here. They agree for text in the Basic Multilingual Plane.
- Object keys such as `__proto__` are not modelled; records are plain maps. The key order of JSON objects is not modelled either.
- Grouping.Scenario: does not check the "Item" field of the worked record, only its slot and dates.
