# Player roster cache — a Dafny model

The roster tool mirrors a Google Sheet of players into a browser-side
object store. Users look players up by ID, filter them by team and edit a
player's status. The edit is pushed back to the sheet when the browser is
online. This project models the logic under that browser glue, in
`script.js`:

- **Row decoding** (`Sheet`). A sheet row is an array of optional cells.
  Each cell carries a JSON scalar `v`. A row becomes a player record,
  column by column: team, name, surname, dob, image, playerID, status. A
  missing, null or falsy cell becomes `""`.
- **The object store** (`PlayerStore`). The store "players" is keyed by
  `playerID` and has a non-unique index on `team`. It is modelled the way
  the store enumerates it: its records in ascending key order (`Store`).
  `Contents` is the same store seen as a `map<string, Player>`. The
  enumeration order matters because the team dropdown keeps each team at
  its first occurrence in `getAll()`, which returns records in key order. Put,
  save-many (`forEach(put)`), get-by-key and the team index query are
  functions over it.
- **The team dropdown** (`TeamList`). The distinct teams of the stored
  records, each kept at its first occurrence in the store's enumeration.
- **Status edits and sync** (`StatusSync`). An edit rewrites one record's
  status and then publishes it. Publishing is a no-op offline and a single
  POST `{playerID, status}` online. The network is the list of requests
  sent, and `navigator.onLine` is a boolean parameter.
- **Flows** (`Roster`). A refresh from a sheet payload (`fetchData` after
  the network) and a search by ID that refreshes first when online.

Supporting modules: `Records` (the record type and `Option`), `KeyOrder`
(the store's string-key order) and `Decimal` (the text of a whole number,
used when a numeric cell is turned into a string).

The record fields are meant to be strings: the search box and the team
dropdown only ever supply strings. The code as written does not convert a
cell value to a string, though: a numeric cell stays a number. `Sheet.DecodeAsWritten` models that behaviour and
"## Findings" explains why it matters. The rest of the model uses the
converting decoder `Sheet.Decode`.

## Model

| member | source | states |
|---|---|---|
| Sheet.Field | script.js:127-139 | a field is `""` exactly when its cell is past the end of the row, null, or holds a falsy value (`""`, 0, false, null); a text cell gives its own text; with the correction under "## Findings", a numeric cell gives text that reads back as the same number and `true` gives "true" |
| Sheet.DecodeRows | script.js:125-141 | decoding is total and one-to-one: exactly one record per row, in row order, each the decoding of its own row |
| Sheet.Encode | script.js:125-141 | a row of seven text cells, laid out in the column order team, name, surname, dob, image, playerID, status, decodes back to the record it was built from, so no field is lost or moved to another column |
| Sheet.ExtraCellsIgnored | script.js:125-141 | cells after the seventh never reach the record |
| Sheet.TextRowsDecodeAlike | script.js:127-139 | for rows holding only strings and nulls, the converting decoder and the decoder as written give the same fields, so the conversion changes only numeric and boolean cells |
| Sheet.DecodeAsWritten | script.js:125-141 | as written, each column fills its own field (team, name, surname, dob, image, playerID, status for columns 0 to 6); a field is truthy exactly when its cell is present and truthy, and is then the cell's value with its JSON type unchanged, and the empty string otherwise |
| Sheet.Decode | script.js:125-141 | with the converting decoder, each column fills its own field; a field is "" exactly when its cell is missing, null or falsy, and a text cell gives its own text |
| Sheet.NumericIdAsWritten | script.js:127 | as written, an ID cell holding any non-zero number n yields a key that is the number n and not a string, while the converting decoder yields n's decimal text |
| Sheet.NumericTeamAsWritten | script.js:129 | as written, a team cell holding any non-zero number n yields a team that is the number n, not the text the dropdown offers for it, while the converting decoder yields n's decimal text |
| Decimal.IntRoundTrip | script.js:127 | in the corrected decoder, the text a numeric cell is converted to reads back as the same integer, so distinct numeric IDs stay distinct keys |
| PlayerStore.Contents | script.js:15 | every record in the store sits under its own `playerID` |
| PlayerStore.ContentsKeys | script.js:15 | the store's keys are exactly the IDs of the stored records |
| PlayerStore.Put | script.js:45 | a put inserts the record under its key, or overwrites the record already held there, and leaves every other key as it was |
| PlayerStore.SaveAll | script.js:39-47 | after saving a list, the keys are the old keys plus the list's IDs; each of those IDs holds the last record in the list with that ID; keys the list does not mention are unchanged |
| PlayerStore.SaveAllIdempotent | script.js:39-47 | saving the same list twice leaves the store equal to saving it once |
| PlayerStore.SavedRecordCount | script.js:15 | saving a list into an empty store yields one record per distinct ID, so rows sharing an ID (the empty ID included) collapse into one record |
| PlayerStore.SizeIsKeyCount | script.js:15 | the store holds one record per key: its number of records equals its number of keys |
| PlayerStore.MemberIffStored | script.js:87 | a record appears in the store's enumeration exactly when the store holds it under its key |
| PlayerStore.Get | script.js:51-61 | a lookup returns the record held under the key, and returns none, not an error, when the key is absent |
| PlayerStore.GetAfterSave | script.js:51-61 | after a save, a lookup of a saved ID returns the last saved record with that ID, equal in every field; a lookup of a key that was not saved returns what the store held before, so a key never held yields none |
| PlayerStore.ByTeam | script.js:65-77 | the team index query returns, in key order and each once, exactly the stored records whose team equals the argument |
| PlayerStore.ByTeamExact | script.js:17 | a record is in the team query's result exactly when the store holds it under its key and its team is the one asked for |
| TeamList.Distinct | script.js:91 | deduplication keeps every value once and adds no new one, and two values keep the order of their first occurrences |
| TeamList.TeamColumn | script.js:87-91 | the team column read from the store's enumeration holds a team exactly when some record held in the store, looked up by key, has that team |
| TeamList.Teams | script.js:81-91 | the dropdown's team list has no duplicates, holds exactly the team values of the stored records, and lists teams in the order of their first records in the store's enumeration |
| TeamList.TeamsMatchContents | script.js:91 | a team is offered exactly when some record held in the store has that team |
| TeamList.TeamsMatchFilter | script.js:277-283 | with the converting decoder, a team is offered exactly when filtering by it returns at least one player |
| StatusSync.Sync | script.js:247-273 | publishing sends nothing when offline; online it sends exactly one request, a POST of JSON `{playerID, status}` to the update URL, and it never retries |
| StatusSync.UpdateStatus | script.js:213-243 | for a held key, the edit rewrites that record's status and the edit is published once; for an absent key, the store is unchanged and nothing is sent |
| StatusSync.UpdateChangesOnlyStatus | script.js:227-233 | an edit keeps the set of keys, every other record, and every field of the edited record except its status, which becomes the new value |
| StatusSync.GetAfterUpdate | script.js:221-231 | a lookup after an edit returns the old record with the new status, or none when the key was absent |
| Roster.Refresh | script.js:115-153 | with the converting decoder, a refresh saves every row's record, with the last row for a key winning; it keeps records whose key the sheet no longer has; a failed fetch leaves the store unchanged |
| Roster.RefreshIdempotent | script.js:143 | with the converting decoder, refreshing twice from the same payload leaves the store equal to refreshing once |
| Roster.Search | script.js:157-171 | with the converting decoder: online a search reads the store as refreshed from the payload, and offline it reads the cache unchanged; it finds a record exactly when the store it reads holds the key, and then shows that key's stored record |
| Roster.SearchFindsSheetRow | script.js:161-163 | with the converting decoder, an online search for a key the sheet holds shows the record of that key's last row, whatever the cache held before |
| Roster.SearchMissesUnknownKey | script.js:165-167 | a search for a key the cache never held, offline or after a failed fetch, finds nothing |
| Roster.NumericIdsAreSearchable | script.js:127 | with the converting decoder, a row whose ID cell holds a non-zero number is found by searching for that number's decimal text |
| Roster.OfflineEditLostOnRefresh | script.js:249-255 | with the converting decoder, an edit made offline sends nothing and is not queued: the next refresh from a sheet that still has the row restores the sheet's status |
| Roster.RedCardExample | script.js:213-243 | worked example: player "7" held with status Clear and red-carded online reads back as "Red Carded", and exactly one POST `{"7", "Red Carded"}` is sent |
| Roster.OfflineRedCardExample | script.js:249-253 | the same edit made offline changes the local record and sends no request |
| Roster.EmptyStoreExample | script.js:57-59 | an empty store returns none for key "123" |

## Left out

- Opening the database, upgrading its schema, transactions and callbacks (script.js:9-35). These are browser API mechanics. The store is a value, and each operation is applied whole and in order.
- Storage failures, such as the database failing to open or a request failing. The model has no error path for the store.
- The network read: `fetch`, `response.text()`, `JSON.parse` and the fixed `substring(47, length - 2)` strip of the response wrapper (script.js:119-123). A refresh takes the parsed rows, or `FetchFailed` for any failure, as a parameter.
- A row whose `c` array is itself null, and cells holding JSON objects or arrays. The sheet service does not produce these.
- Numbers are modelled as integers. Fractional values, and the exponent form `String(n)` gives for very large numbers, are not modelled.
- A boolean `true` in an ID cell, as written, is not a valid store key: `put` throws, and the rest of that save is skipped. The converting decoder turns it into "true", and this path is not modelled.
- Key order compares characters by code point. The browser compares UTF-16 code units, so the two orders differ only for characters outside the Basic Multilingual Plane.
- All markup and DOM writes: `displayPlayer`, `displayPlayers`, the option elements and the placeholder of the team dropdown (script.js:93-107), `alert`, and `checkConnection` (script.js:175-209, 287-317, 345-349).
- The status text and the ID typed into the search box are read from the page. Both are parameters here.
- The `load`, `online` and `offline` listeners, and overlapping fetches racing each other (script.js:321-341). These are event-driven concurrency. The online flag is a parameter of each operation.
- The text produced by `JSON.stringify` for the request body. The body is kept as the structured pair `{playerID, status}`.
- Parsing and logging the POST response, and the offline console message (script.js:251, 267-271). These are logging side effects only.

## Findings

| source | as written | input that shows it | evidently intended | confidence | as-written member | corrected member |
|---|---|---|---|---|---|---|
| script.js:127 | the ID field keeps a truthy cell value with its own JSON type, so a numeric ID cell becomes a numeric store key | a row whose ID cell is `{v: 7}` is stored under the number 7, but the search box always supplies the string "7", and the store never equates a number key with a string key, so the player can never be found | each field, the key included, is the cell's text, so searching for "7" finds the row | medium; not executed | Sheet.NumericIdAsWritten | Roster.NumericIdsAreSearchable |
| script.js:129 | the team field keeps a truthy cell value with its own JSON type, so a numeric team cell becomes a numeric key in the team index | a row whose team cell is `{v: 7}` is indexed under the number 7; the dropdown option for it has the value "7", the filter queries the index with that string, and the number key never matches, so the filter shows no players for a team it offers | the team is the cell's text, so filtering by an offered team returns its players | medium; not executed | Sheet.NumericTeamAsWritten | TeamList.TeamsMatchFilter |
