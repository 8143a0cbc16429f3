# ORFEUS manager: metadata daemon and dashboard helpers, in Dafny

This project models two parts of the ORFEUS manager.

**The metadata daemon** (`lib/orfeus-metadaemon.js`, module `MetaDaemon` in
`metadaemon.dfy`). It takes a snapshot of the record store with a Mongo
aggregation. The snapshot groups records by `(network, station)`, keeps the
`$last` record of each group, then keeps only the groups whose status is
PENDING, CONVERTED or MERGED. The result is the daemon's work list. The daemon
pops records off the end of that list one at a time and dispatches each by
status:

- PENDING goes to the StationXML-to-SC3ML conversion;
- CONVERTED goes to the merge into the network prototype;
- MERGED goes to the catalog check against FDSNWS.

`metaDaemonCallback` writes the stage's outcome back to the store. An
UNCHANGED outcome skips the write. When the list is empty the daemon sleeps
and takes a fresh snapshot.

In the model:

- The store is a `seq<Record>` in store order, and `Snapshot` is a pure
  function over it.
- Each stage's decision is a pure function: `ConvertOutcome`, `MergeOutcome`
  and `CheckOutcome`.
- `metaDaemonCallback`'s write is `SetStatus` / `Apply`.
- The loop is the class `Driver`, with the store and the work list as fields.
  `Driver.Step` is one turn, and `Driver.RunCycle` works off a whole work list.
- `Drain` is the specification of a pass. The lemmas about it show that a
  pass only ever moves a record one step forward through the status machine
  (`Transition`).
- Collaborators enter as values. A `Reply` carries the subprocess exit code,
  the catalog's serialised Network element, whether the store write
  succeeded and whether a re-snapshot's aggregation succeeded. The SHA-256
  digest is an uninterpreted `hash` function.

**The dashboard's self-contained helpers** (`static/js/app.js`, module `App`
in `app.dfy`):

- `parseQuery` with `trimQueryString`, as an imperative method over the
  `forEach` loop, specified by the fold `Parsed`;
- `generateBreadcrumb` / `generateBreadcrumbs` and `String.prototype.capitalize`.
  The running `fullCrumb` closure variable becomes a loop variable;
- `getLatencyStatus`;
- the `unique` filter;
- `getCountryFlag`;
- `generateNotificationMessage`.

`decodeURIComponent` is an uninterpreted `decode` parameter. It returns `None`
where the JavaScript function throws a `URIError`.

`strings.dfy` (module `Strings`) gives the JavaScript string primitives these
helpers rely on:

- `split` on one character, with `JoinSplit` and `SplitJoin` as its
  round-trips against `join`;
- `join`;
- the decimal rendering of an integer, with `ParseNatToString` as its
  round-trip.

`catalog_query.dfy` (module `CatalogQuery`) relates the two parts: the
daemon's catalog query, read back with the dashboard's `parseQuery`.

`wrappers.dfy` holds the `Option` type.

## Model

| member | source | states |
|---|---|---|
| MetaDaemon.Snapshot | lib/orfeus-metadaemon.js:15-57 | the work list is no longer than the store and holds only stored records with status PENDING, CONVERTED or MERGED |
| MetaDaemon.SnapshotSound | lib/orfeus-metadaemon.js:15-57 | every work-list record has status PENDING, CONVERTED or MERGED and is the last record of its (network, station) in store order |
| MetaDaemon.SnapshotComplete | lib/orfeus-metadaemon.js:15-57 | every record that is last of its key and has an active status is on the work list |
| MetaDaemon.LastOfKeyUnique | lib/orfeus-metadaemon.js:15-37 | `$last` picks one record per key: two last-of-key records with the same key are the same record |
| MetaDaemon.SnapshotOnePerKey | lib/orfeus-metadaemon.js:15-37 | the work list holds at most one record per (network, station) |
| MetaDaemon.InactiveLastHidesKey | lib/orfeus-metadaemon.js:47-57 | the status filter runs after grouping: when a key's last record is inactive, no record of that key is on the work list, even if older ones are PENDING |
| MetaDaemon.SnapshotDistinctIds | lib/orfeus-metadaemon.js:15-37 | with unique store ids, the work list's records have pairwise distinct ids |
| MetaDaemon.SnapshotAllActive | lib/orfeus-metadaemon.js:47-57 | every work-list record has a status the dispatch switch handles |
| MetaDaemon.SnapshotOne | lib/orfeus-metadaemon.js:15-57 | a one-record store is its own work list exactly when the record's status is active |
| MetaDaemon.WorkListAsWritten | lib/orfeus-metadaemon.js:59-62 | as written: a failed aggregation gives no work list at all, because logging `results.length` throws; a successful one gives the snapshot |
| MetaDaemon.WorkList | lib/orfeus-metadaemon.js:59-70 | intended: a failed aggregation gives the empty work list, so the next turn sleeps and retries; a successful one gives the snapshot; every record on it is active |
| MetaDaemon.ReadErrorStopsAsWritten | lib/orfeus-metadaemon.js:59-70 | on a failed read the code as written stops the daemon while the intended rule yields the empty list; on a successful read the two agree |
| MetaDaemon.Dispatch | lib/orfeus-metadaemon.js:76-83 | the switch is total on the active statuses and picks the stage whose input is the record's status: PENDING to convert, CONVERTED to merge, MERGED to check |
| MetaDaemon.ConvertOutcome | lib/orfeus-metadaemon.js:255-263 | REJECTED exactly when the close code is 1; every other code, including other non-zero codes and a signal's null, gives CONVERTED |
| MetaDaemon.MergeOutcome | lib/orfeus-metadaemon.js:177-186 | REJECTED exactly when the close code is 1; otherwise MERGED |
| MetaDaemon.CheckOutcome | lib/orfeus-metadaemon.js:212-231 | COMPLETED exactly when a body came back and the hash of its Network element equals the stored fingerprint; otherwise UNCHANGED, never REJECTED |
| MetaDaemon.CheckOutcomeAsWritten | lib/orfeus-metadaemon.js:219-229 | as written: a reply with a body throws before any outcome is delivered; only the no-body reply gives UNCHANGED |
| MetaDaemon.CheckAsWrittenNeverCompletes | lib/orfeus-metadaemon.js:225-226 | for a body whose hash matches, the code as written never delivers COMPLETED while the intended rule does |
| MetaDaemon.Outcome | lib/orfeus-metadaemon.js:76-83 | every stage outcome is UNCHANGED or a forward move of the status machine, and a MERGED record is never rejected |
| MetaDaemon.SetStatus | lib/orfeus-metadaemon.js:145-149 | `updateOne({_id: id}, {$set: {status}})`: only the first record with that id gets the new status; everything else is as before |
| MetaDaemon.Apply | lib/orfeus-metadaemon.js:138-149 | `metaDaemonCallback` changes status fields only, and a record that changes has the dispatched record's id and gets the outcome, which is not UNCHANGED, and only when the write succeeds |
| MetaDaemon.SetStatusAt | lib/orfeus-metadaemon.js:145-149 | with unique ids, the write to a stored record's id changes exactly that record's status |
| MetaDaemon.UnchangedStaysQueued | lib/orfeus-metadaemon.js:138-141 | an UNCHANGED outcome writes nothing, so the record is selected again by the next snapshot |
| MetaDaemon.TerminalLeavesSnapshot | lib/orfeus-metadaemon.js:47-57 | after REJECTED or COMPLETED is written to a key's last record, the key drops out of the next snapshot |
| MetaDaemon.ApplyLandsOn | lib/orfeus-metadaemon.js:138-149 | the callback leaves the store unchanged for UNCHANGED or a failed write, and otherwise changes only the dispatched record's status; ids stay unique |
| MetaDaemon.Drain | lib/orfeus-metadaemon.js:65-83 | a pass pops the work list from its end, applying each record's outcome; the store keeps its length |
| MetaDaemon.DrainOne | lib/orfeus-metadaemon.js:138-149 | a pass over a one-record store writes that record's outcome, unless it is UNCHANGED or the write fails |
| MetaDaemon.DrainSameButStatus | lib/orfeus-metadaemon.js:145-149 | a whole pass changes status fields only: ids, keys, paths and fingerprints stay put |
| MetaDaemon.DrainAdvances | lib/orfeus-metadaemon.js:65-83 | in a pass over stored records with distinct ids, each stored record keeps its value or, if it was queued, moves one step of the status machine |
| MetaDaemon.StepAdvances | lib/orfeus-metadaemon.js:65-83 | one turn followed by the rest of the pass: the popped record moves to its outcome, and afterwards only records still queued change |
| MetaDaemon.CycleAdvances | lib/orfeus-metadaemon.js:47-83 | working off a full snapshot moves each record at most one step forward, and changes nothing but statuses |
| MetaDaemon.Driver.constructor | lib/orfeus-metadaemon.js:40-70 | on connection the daemon takes its first work list of the store: the snapshot, or the empty list when the read fails |
| MetaDaemon.Driver.Initialize | lib/orfeus-metadaemon.js:43-70 | `metaDaemonInit` replaces the work list by a fresh `WorkList` and leaves the store alone |
| MetaDaemon.Driver.Step | lib/orfeus-metadaemon.js:65-83 | an empty list gives sleep plus a fresh `WorkList`; otherwise it removes exactly the last record, dispatches it, and the store becomes the callback's write of the outcome |
| MetaDaemon.Driver.RunCycle | lib/orfeus-metadaemon.js:65-73 | the loop reaches the sleep branch after exactly as many turns as the work list had records; the store is then `Drain` of the old store |
| MetaDaemon.Prototype | lib/orfeus-metadaemon.js:153-155 | the prototype path is `prototypes/` + network + `.sc3ml` |
| MetaDaemon.PrototypeInjective | lib/orfeus-metadaemon.js:153-155 | distinct networks merge into distinct prototype files |
| MetaDaemon.ConvertArgs | lib/orfeus-metadaemon.js:243-249 | five arguments; the `.stationXML` input and the `.sc3ml` output both extend the record's file path, and they differ |
| MetaDaemon.MergeArgs | lib/orfeus-metadaemon.js:165-171 | five arguments; the fourth names the prototype of the record's own network, the fifth extends the record's file path |
| MetaDaemon.MergeReadsConvertOutput | lib/orfeus-metadaemon.js:165-171 | the merge reads the `.sc3ml` file the conversion writes, into the prototype of the record's own network; the conversion's input and output files differ |
| MetaDaemon.CheckQuery | lib/orfeus-metadaemon.js:205-209 | the query starts with `?`, then `network=` and the record's network |
| CatalogQuery.CheckQueryItems | lib/orfeus-metadaemon.js:205-209 | the catalog query, without its `?`, splits back into its three `&` items |
| CatalogQuery.CheckQueryItemsParse | lib/orfeus-metadaemon.js:205-209 | each item of the catalog query parses to its key and value |
| CatalogQuery.CheckQueryParses | lib/orfeus-metadaemon.js:205-209 | read back with the dashboard's own `parseQuery`, the catalog query holds exactly network, station and `level=response` |
| MetaDaemon.StatusInfo | lib/orfeus-metadaemon.js:112-127 | the name is UNKNOWN exactly for codes outside -1..4 |
| MetaDaemon.StatusInfoInjective | lib/orfeus-metadaemon.js:112-127 | distinct known codes have distinct names |
| MetaDaemon.EndToEnd | lib/orfeus-metadaemon.js:65-83 | a PENDING record whose tools exit 0 and whose catalog copy matches becomes CONVERTED, MERGED, then COMPLETED, one pass each, and then leaves the work list; exit code 1 rejects it for good |
| MetaDaemon.StepOne | lib/orfeus-metadaemon.js:65-83 | a one-record pass whose reply moves the record to a new status writes it, and the next work list keeps the record exactly when that status is active |
| App.TrimQueryString | static/js/app.js:2516-2529 | the input is the result with at most one `?` in front, and that `?` is there exactly when the input starts with one |
| App.DecodeAll | static/js/app.js:2534 | decoding every piece succeeds exactly when each piece decodes, and then gives the pieces' decodings in order |
| App.ParseItem | static/js/app.js:2534-2535 | an item parses exactly when every `=` piece decodes; the key is the first decoded piece, the value the second or `""` when there is none |
| App.Parsed | static/js/app.js:2533-2536 | when the parse succeeds, every item parsed |
| App.ParseQuery | static/js/app.js:2509-2539 | the `forEach` loop builds the object `Parsed` describes, or throws |
| App.ParsedStep | static/js/app.js:2535 | assigning one more parsed item sets its key to its value on top of the object so far |
| App.ParsedThree | static/js/app.js:2533-2536 | three parsing items give the object with their three assignments in order |
| App.ParsedFails | static/js/app.js:2533-2536 | the parse throws exactly when some item throws |
| App.ParsedKeys | static/js/app.js:2533-2536 | the object's keys are exactly the items' keys |
| App.ParsedLastWins | static/js/app.js:2535 | a key holds the value of its last item: later duplicates overwrite earlier ones |
| App.ItemWithoutValue | static/js/app.js:2534-2535 | an item with no `=` maps its key to `""` |
| App.ItemWithValue | static/js/app.js:2534-2535 | `key=value` maps the decoded key to the decoded value |
| App.SplitItemWithExtraPieces | static/js/app.js:2534 | `key=value=rest` splits into key, value and the pieces of rest |
| App.ParseItemOfPieces | static/js/app.js:2534-2535 | an item's key is its first piece, its value the second piece or `""` |
| App.ItemWithExtraPieces | static/js/app.js:2534-2535 | in `a=b=c` only the text between the first two `=` is the value |
| App.EmptyQuery | static/js/app.js:2533-2536 | `""` or `"?"` gives a single entry with key `""` and value `""` |
| App.UpperCase | static/js/app.js:1915 | a lower-case letter becomes its capital; any other character is kept |
| App.Capitalize | static/js/app.js:1908-1917 | same length; the first character is upper-cased and the rest is kept |
| App.Icon | static/js/app.js:1649-1657 | `getIcon`: the icon name and the colour can be read back from fixed places in the markup |
| App.HomeIconIsIcon | static/js/app.js:1961 | the breadcrumbs' home icon is `getIcon("home")` with the colour left undefined |
| App.CumulativePath | static/js/app.js:1954 | the running path has at least one character per segment and starts with `/` once there is a segment |
| App.Crumbs | static/js/app.js:1951-1969 | one crumb per segment; only the first carries the home icon and only the last has no link |
| App.RenderCrumb | static/js/app.js:1959-1969 | the list item is longer than the crumb's title and link together |
| App.RenderAll | static/js/app.js:1951-1971 | one list item per crumb, the first being the first crumb's item |
| App.BreadcrumbsHtml | static/js/app.js:1941-1973 | the joined items are empty exactly when there are no segments, and otherwise begin with the first crumb's item |
| App.RenderedStep | static/js/app.js:1951-1971 | rendering one more crumb appends its item to the items so far |
| App.BreadcrumbItems | static/js/app.js:1947-1971 | the `map` loop with its running path yields the items `RenderAll` describes |
| App.CumulativePathStep | static/js/app.js:1954 | each iteration extends the running path by `/` and the segment |
| App.CrumbAt | static/js/app.js:1951-1969 | crumb i is the capitalised segment, carries the home icon iff i = 0, and links to the running path unless it is the last |
| App.BreadcrumbItem | static/js/app.js:1951-1969 | the `map` callback renders exactly crumb i |
| App.GenerateBreadcrumbs | static/js/app.js:1941-1973 | the loop with its running path yields one item per segment, joined by newlines, as `BreadcrumbsHtml` describes |
| App.GenerateBreadcrumb | static/js/app.js:1919-1939 | empty exactly when the path has one `/`, otherwise the crumbs of the segments after the leading one inside `<ol>` |
| App.PathOfSegments | static/js/app.js:1926 | a path that starts with `/` is the running path of the segments after its first `/` |
| App.CumulativePathIsJoin | static/js/app.js:1954 | the running path is `"/" + s0 + … + "/" + si` |
| App.CumulativePathPrefix | static/js/app.js:1954 | each earlier running path is a prefix of a later one |
| App.BreadcrumbLinksArePathPrefixes | static/js/app.js:1949-1968 | for a path starting with `/`, the last running path is the path itself and every link is a prefix of it |
| App.LinkedItemIsNotFinal | static/js/app.js:1965-1968 | a linked item never opens as the final crumb |
| App.FinalItemIsFinal | static/js/app.js:1965-1966 | an item opened as the final crumb is recognised as final |
| App.RenderedFinalIffUnlinked | static/js/app.js:1965-1969 | an item is rendered as `final-crumb` exactly when it has no link |
| App.CrumbRoles | static/js/app.js:1959-1969 | only the last item is the active, unlinked final crumb, and only the first carries the home icon |
| App.LatencyStatus | static/js/app.js:1860-1906 | the grade is 0, 1 or 3, and 0 exactly when the channel's first letter is not V, L, B or H |
| App.Compare | static/js/app.js:1871-1884 | GREEN exactly when latency < rate, RED otherwise |
| App.BandRate | static/js/app.js:1886-1904 | a rate exactly for the band letters V, L, B and H, each at least 100 |
| App.CompareIsLess | static/js/app.js:1871-1884 | `latency / rate < 1` is GREEN exactly when latency < rate, RED otherwise |
| App.LatencyStatusByRate | static/js/app.js:1886-1904 | for bands V, L, B, H the grade is GREEN below the band rate (1E7, 1E6, 2.5E4, 1E2) and RED otherwise; ORANGE is never returned |
| App.IndexOf | static/js/app.js:2415 | `indexOf` gives the first index holding the value, or -1 exactly when it is absent |
| App.Unique | static/js/app.js:2407-2417 | `unique(v, i, a)` holds exactly when i is the first index holding v (or i is -1 and v is absent) |
| App.FilterUnique | static/js/app.js:2408-2417 | `a.filter(unique)`, as used at lines 751 and 2453, is no longer than the input |
| App.FilterUniqueCorrect | static/js/app.js:2408-2417 | filtering a prefix with `unique` gives no duplicates, the same set of values, and first-occurrence order |
| App.DedupCorrect | static/js/app.js:2408-2417 | `a.filter(unique)` has no duplicates, holds exactly the values of `a`, in first-occurrence order |
| App.CountryFlag | static/js/app.js:50-93 | the flag is `""` exactly for archives outside the listed twelve |
| App.CountryFlagFixed | static/js/app.js:75-76 | the intended table: as written except that the Swiss entity is closed |
| App.SwissFlagTruncated | static/js/app.js:60 | the Swiss constant is the CH flag minus its final `;` |
| App.NorthernFlagsSpellCountries | static/js/app.js:58-66 | the NL, DE, IT and RO constants are the regional-indicator entities of those codes |
| App.SouthernFlagsSpellCountries | static/js/app.js:58-66 | the FR, GR, TR and NO constants are the regional-indicator entities of those codes |
| App.CountryFlagFixedSpellsCountry | static/js/app.js:68-91 | every listed archive's flag spells its country's ISO code |
| App.NotificationMessage | static/js/app.js:274-290 | "No new messages" exactly for 0, "1 new message" exactly for 1, otherwise the number followed by " new messages" |
| App.NotificationCountRecoverable | static/js/app.js:286-287 | the count can be read back from the front of a plural message |
| Strings.Split | static/js/app.js:2533 | `split` on one character gives one more piece than there are separators |
| Strings.Join | static/js/app.js:1971 | `join` starts with the first part |
| Strings.JoinSplit | static/js/app.js:2533 | joining the pieces of a split with the same separator gives back the input |
| Strings.SplitJoin | static/js/app.js:2533 | splitting a join of separator-free parts gives back the parts |
| Strings.SplitWithoutSep | static/js/app.js:2534 | a string without the separator splits into itself alone |
| Strings.SplitAfterPiece | static/js/app.js:2534 | a separator-free piece followed by the separator splits off as the first piece |
| Strings.NatToString | static/js/app.js:287 | the decimal rendering of a natural number is non-empty and all digits |
| Strings.IntToString | static/js/app.js:287 | a number renders with a leading `-` exactly when negative, and its digits read back to its magnitude |
| Strings.ParseNatToString | static/js/app.js:287 | reading back the decimal rendering of a number gives the number |

## Left out

- Concurrency and time are not modelled: `setTimeout`, the sleep interval and the `GLOBAL_CALLBACK` continuation. The loop is flattened into sequential turns with one record in flight. The sleep itself is the `Slept` event.
- Subprocesses, HTTP and XML are not modelled: `childProcess.spawn`, `HTTPRequest`, `libxmljs` and the extraction of the Network element. Their results are inputs in `Reply`. The source has no rule for malformed XML or a missing Network element, and the model invents none.
- The database driver is not modelled. The aggregation is the pure `Snapshot`.
- MetaDaemon.Snapshot: Mongo does not specify the order of `$group` output. The model lists the work list in store order, so the pop order is one admissible order.
- MetaDaemon.Status: the numeric `METADATA_STATUS_*` values are defined in a database module that is not part of this model. The model uses an abstract enumeration, and `StatusInfo` keeps the daemon's own code numbering.
- MetaDaemon.Prototype: `path.join` normalisation (`..`, repeated `/`) is not modelled. The path is plain concatenation.
- The SHA-256 digest and `randomId` from `lib/orfeus-crypto.js` are not modelled. The digest is the uninterpreted `hash`.
- App.ParseQuery: `decodeURIComponent` is the uninterpreted `decode`. Keys such as `__proto__`, which a plain JavaScript object treats specially, are modelled as ordinary map keys.
- App.UpperCase: only ASCII letters are upper-cased. JavaScript's full Unicode case mapping is not modelled.
- App.LatencyStatus: latency is a mathematical real. JavaScript's NaN and infinities, and floating-point rounding of the division, are not modelled.
- App.NotificationMessage: the count is an integer. JavaScript's rendering of fractional or very large numbers is not modelled.
- The rest of `static/js/app.js` is not part of this model: the DOM, maps, charts, XHR, WebSocket and the other rendering helpers. This includes `getStatus`, which numbers statuses differently from `getStatusInfo`.

## Findings

| source | as written | input that shows it | evidently intended | confidence | as-written member | corrected member |
|---|---|---|---|---|---|---|
| lib/orfeus-metadaemon.js:6 | `SHA256` is bound to the whole crypto module `{SHA256, randomId}` (lib/orfeus-crypto.js:35-38), so the call at line 225 is a call of a non-function and throws | a MERGED record whose catalog request returns a body | call the module's `SHA256` function and compare its digest with the stored fingerprint | high; not executed | MetaDaemon.CheckAsWrittenNeverCompletes | MetaDaemon.CheckOutcome |
| lib/orfeus-metadaemon.js:62 | when the aggregation fails, `results` is undefined and `results.length` throws, so the `error \|\|` test at line 68 is never reached and the daemon stops | an aggregation that reports an error | an empty work list, so that the next turn sleeps and takes a fresh snapshot | high; not executed | MetaDaemon.WorkListAsWritten | MetaDaemon.WorkList |
| static/js/app.js:60 | the Swiss flag `&#x1F1E8;&#x1F1ED` lacks the `;` that closes its second entity, unlike the other eight constants | archive `SED` | `&#x1F1E8;&#x1F1ED;`, the CH regional-indicator pair | low (lenient HTML parsers still decode the entity); not executed | App.SwissFlagTruncated | App.CountryFlagFixedSpellsCountry |
