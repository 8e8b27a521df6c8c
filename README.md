# Rotating-key proxy for a task API: credential pool and dispatch rules

This project models the core of a small Go service that fronts a
third-party generation API. The service keeps a pool of API keys and hands
them out round-robin, one per upstream call. It forwards task submissions
and task status queries, relays the upstream's answers, and charges a usage
weight to the key of every submission the upstream accepted.

- `KeyStore` (`keystore.dfy`): the SQLite `keys` table as an ordered
  sequence of rows, and the four statements the pool issues against it:
  the INSERT that the `UNIQUE` key column can refuse, the DELETE, the usage
  UPDATE, and the full scan. DELETE and UPDATE on an absent key match
  nothing and are not errors.
- `Keymanager` (`keymanager.dfy`): the `KeyManager` class. Its fields are
  the table, `validKeys` (the keys of the last successful scan) and
  `index` (the cursor, -1 before the first allocation). Its methods are
  `LoadKeys`, `CreateKey`, `DeleteKey`, `GetAllKeys`, `AllocateKey` and
  `IncreaseUsage`, plus `NewKeyManager`. The cursor arithmetic is
  specified by `NextIndex`, and runs of allocations by `CursorAfter` and
  `Allocations`. The lemmas prove the round-robin order.
- `Proxy` (`proxy.dfy`): the handlers `queryTaskHandler`,
  `textToModelHandler` and `imageToModelHandler`. The upstream is a script
  of answers, and each handler returns the reply it writes and the
  requests it sends. The `sync=1` long poll, which the Go code writes as
  recursion, is a loop over the script that allocates a fresh key on every
  pass.
- `Results` (`results.dfy`): `Option` and `Result`.

Database and network failures cannot be computed from the model's state,
so they are parameters: `execFault` for a failing statement, a
`ScanFault` for a failing scan, `initFault` for a failing open, and
`Unreachable` for an upstream call that fails.

Where the code does something other than what a reader of the handlers
might expect (strict modular round-robin, a "record not found" error, a
byte-for-byte relay), the model follows the code:
- When a reload has shrunk the pool below the cursor, the next allocation
  resets to the first key. It does not take the cursor modulo the new
  size (`NextIndex`).
- Adding usage to a key that has no row succeeds and changes nothing. It
  is not a "record not found" error (`AddUsage`, `IncreaseUsage`).
- A status query relays the upstream body decoded and encoded again. It
  does not relay the raw bytes. Without `sync=1`, a body that does not
  decode to an object is relayed as `null` (`Reencoded`). With `sync=1`,
  such a body is answered 500 "Failed to parse response body"
  (main.go:80-84, `QueryStep`).
- Both a failed key allocation and a failed request build answer 500
  "Failed to create request". So the caller cannot tell an empty pool
  apart from a failed request build.

There are two exceptions, both listed under "## Findings". In each, the
code as written is modelled beside a corrected version, and the rest of the
model uses the corrected version:
- `LoadKeys` reloads all or nothing: an iteration error is returned and
  the pool is kept. As written (keymanager/KeyManager.go:63-73), the error
  is never checked and the keys read so far become the pool
  (`ScanAsWritten`).
- `TextToModel` answers 400 for a `null` request body. As written
  (main.go:116-124), that body reaches a write into a nil map, which
  panics (`PrepareTextBodyAsWritten`).

## Model

| member | source | states |
|---|---|---|
| `KeyStore.Insert` | keymanager/KeyManager.go:79-82 | the insert is refused exactly when the key is already present (UNIQUE column); otherwise one row with usage 0 is appended, the keys grow by that key, and uniqueness is kept |
| `KeyStore.Delete` | keymanager/KeyManager.go:95-98 | afterwards no row holds the key, every other row is still there, and uniqueness is kept |
| `KeyStore.DeleteAbsent` | keymanager/KeyManager.go:95 | deleting a key that has no row leaves the table unchanged (no error) |
| `KeyStore.DeleteAt` | keymanager/KeyManager.go:95 | in a table with unique keys, deleting the key at position p removes exactly that row and keeps the others in scan order |
| `KeyStore.AddUsage` | keymanager/KeyManager.go:121 | every row keeps its key and memo; only rows holding the key gain the weight |
| `KeyStore.AddUsageCharges` | keymanager/KeyManager.go:120-126 | after the update the key's counter has grown by exactly the weight, other keys' counters are unchanged, and no key appears or disappears |
| `KeyStore.UsageOfFinds` | keymanager/KeyManager.go:121 | a key has a counter exactly when it has a row, and the counter is that row's usage |
| `KeyStore.Scan` | keymanager/KeyManager.go:56-69 | a successful scan yields every key of the table in scan order; it succeeds exactly when the query succeeds and no row fails to scan or to arrive; a failed query, a row that does not scan and an iteration error on an existing row each give their own error |
| `KeyStore.ScanAsWritten` | keymanager/KeyManager.go:62-69 | as written, a scan can report success with only a prefix of the keys; without an iteration fault it agrees with `Scan` |
| `KeyStore.IterationFaultTruncates` | keymanager/KeyManager.go:63-69 | an iteration error before the last row gives success with a strict prefix of `i` keys, where the all-or-nothing scan reports the error |
| `Keymanager.NextIndex` | keymanager/KeyManager.go:111-114 | the next cursor is in range; from an in-range cursor it is the cyclic successor `(cursor + 1) % n`; from a cursor beyond the end it is 0 |
| `Keymanager.Allocations` | keymanager/KeyManager.go:103-117 | k successive allocations hand out k keys, each one from the pool |
| `Keymanager.CursorAfter` | keymanager/KeyManager.go:111-114 | after at least one allocation the cursor is a valid index; after none it is unchanged |
| `Keymanager.CursorAfterIsModular` | keymanager/KeyManager.go:111-114 | from an in-range cursor, k allocations leave the cursor at `(cursor + k) % n` |
| `Keymanager.RoundRobin` | keymanager/KeyManager.go:103-117 | the j-th of successive allocations from an in-range cursor is the key j + 1 places after it, cyclically |
| `Keymanager.CursorFromFresh` | keymanager/KeyManager.go:29 | from a fresh manager (cursor -1), the k-th allocation over at least k keys leaves the cursor on key k - 1, so the first pass never wraps |
| `Keymanager.FreshPrefix` | keymanager/KeyManager.go:103-117 | from a fresh manager, the first k allocations over at least k keys are the first k keys in scan order |
| `Keymanager.FirstCycle` | keymanager/KeyManager.go:29 | from a fresh manager (cursor -1), N allocations over N keys return the keys in scan order, each once |
| `Keymanager.SecondCycleStarts` | keymanager/KeyManager.go:111-116 | from a fresh manager, allocation N + 1 returns the first key again |
| `Keymanager.KeyManager.constructor` | keymanager/KeyManager.go:26-30 | a new manager has no keys and the cursor at -1 |
| `Keymanager.NewKeyManager` | keymanager/KeyManager.go:20-43 | a manager exists exactly when opening and the first load succeed; it then holds the table's keys in scan order with the cursor at -1; a failed open returns its error, and a failed first load returns that load's own error |
| `Keymanager.KeyManager.LoadKeys` | keymanager/KeyManager.go:55-75 | on a complete scan the pool becomes exactly the table's keys in scan order; on a query or row failure the error is returned and the pool is unchanged; the cursor is never touched |
| `Keymanager.KeyManager.CreateKey` | keymanager/KeyManager.go:77-85 | a failed or duplicate insert returns its error without reloading; otherwise the row is appended and the pool is reloaded, and on success it contains the new key |
| `Keymanager.KeyManager.GetAllKeys` | keymanager/KeyManager.go:87-91 | returns the current pool and no error |
| `Keymanager.KeyManager.DeleteKey` | keymanager/KeyManager.go:93-101 | a failed delete returns its error without reloading; otherwise the rows go and the pool is reloaded, and on success the key is absent and the rest are in scan order |
| `Keymanager.KeyManager.AllocateKey` | keymanager/KeyManager.go:103-117 | an empty pool gives `NoRows` and moves nothing; otherwise the cursor moves to `NextIndex` and the key under it is returned |
| `Keymanager.KeyManager.IncreaseUsage` | keymanager/KeyManager.go:119-126 | on success returns the key and adds the usage to its counter; on failure returns the error and the table is unchanged; the pool and cursor never change |
| `Proxy.DecodeObject` | main.go:74-75 | only a JSON object decodes to a map; `null` decodes to a nil map without error; anything else is a decode error |
| `Proxy.DataObject` | main.go:85-90 | the `data` member is found exactly when the response is an object whose `data` is an object, and what is found is that object's members |
| `Proxy.StillRunning` | main.go:91 | the poll continues exactly when the answer's body is an object whose `data` member is an object whose `status` is the string "running" |
| `Proxy.QueryStep` | main.go:77-104 | polling continues exactly when `sync` is "1" and `data.status` is "running"; in sync mode an undecodable body or missing `data` object ends with 500; a transport failure ends with 500; every other answer is relayed with its status and Content-Type |
| `Proxy.Reencoded` | main.go:104 | the relayed query body is an object exactly when a map was decoded, and then holds the decoded members; otherwise it is `null` |
| `Proxy.StopAt` | main.go:91-95 | the poll ends at the first answer that is not asked about again; every earlier answer was "running" |
| `Proxy.PollEndsAfterRunning` | main.go:91-95 | with sync "1", k running answers followed by one that is not end the poll at answer k |
| `Proxy.SingleQueryWithoutSync` | main.go:77 | without sync "1" the first answer always ends the query |
| `Proxy.QueryTask` | main.go:47-105 | an empty pool answers 500 with no upstream call; otherwise StopAt + 1 calls are made, each with a freshly allocated key in round-robin order, and the last answer's reply is returned |
| `Proxy.SubmitReply` | main.go:155-158 | a submission relays the upstream's status, Content-Type and body bytes unchanged, or 500 when the upstream cannot be reached |
| `Proxy.Charge` | main.go:150-154 | usage changes only on a 200 answer, and keys never change |
| `Proxy.ChargeOnlyOnSuccess` | main.go:152-154 | after a submission the used key's counter has grown by the weight if the upstream answered 200 and by nothing otherwise; other keys' counters are unchanged |
| `Proxy.InjectType` | main.go:123-124 | `type` is set to the task kind, overwriting any previous value, and every other member is unchanged |
| `Proxy.PrepareTextBodyAsWritten` | main.go:116-124 | as written, a `null` body, and only that, reaches the write into a nil map |
| `Proxy.NullBodyPanics` | main.go:116-124 | a `null` request body reaches the nil-map write as written |
| `Proxy.PrepareTextBody` | main.go:116-124 | every body that is not a JSON object is refused; an object is forwarded with `type` set to "text_to_model" and its other members kept; apart from `null`, it agrees with the code as written |
| `Proxy.TextToModel` | main.go:107-159 | an empty pool answers 500 with no upstream call; otherwise one key is allocated before the body is read; a refused body answers 400 and still moves the cursor; a forwarded body carries the injected type; the reply is relayed; 20 is charged to the key only on a 200 answer |
| `Proxy.ImageToModel` | main.go:161-205 | an empty pool answers 500 with no upstream call; otherwise one key is allocated, the task names the client's file token, the reply is relayed, and 30 is charged to the key only on a 200 answer |

## Left out

- Concurrency: `sync.Mutex` and goroutine interleaving. The model is sequential, so no refresh can happen between the passes of one long poll.
- The HTML handlers `CreateKeyHandler`, `RemoveKeyHandler` and `ListKeysHandler`, and the `main` wiring and port binding. They are UI and process glue.
- `syncURLHandler` and packages/OssUploader.go. They are image download, temporary files, multipart upload and a vendor SDK, all I/O.
- SQL mechanics: the driver, `initDB`'s CREATE TABLE and the `id` column. A failed open or CREATE is the `initFault` parameter.
- Scan order: the model fixes the scan order as the table's sequence order, and an insert appends. `SELECT key FROM keys` has no ORDER BY, and SQLite may return another order.
- HTTP headers apart from `Authorization` and the relayed Content-Type; `io.Copy` and JSON encoding and decoding internals. A decoded JSON value is given with each scripted answer.
- JSON numbers: encoding/json decodes a number into `interface{}` as a float64 and encodes that float64 again, so `1.50` is relayed as `1.5` and integers above 2^53 lose digits. The model's `JNumber` carries the number as the relayed text and does not model that conversion.
- `time.Sleep(2 * time.Second)` between polls. It is timing only.
- `Proxy.QueryTask`: a task id that makes the upstream URL unparsable (`http.NewRequest` fails, 500 "Failed to create request") is not modelled. The model also requires the script to hold the answer that ends the poll, because the handler does not return against an upstream that reports "running" for ever.
- `Proxy.TextToModel`: the `json.Marshal` failure branch is not modelled. A map decoded from JSON always encodes again.
- `Proxy.ImageToModel`: the body is built by string formatting, with the file token spliced in unescaped. The model records only the token and does not model the JSON text, so a token containing a quote is not modelled.
- `KeyStore.AddUsage`: counters are unbounded integers. SQLite's 64-bit integer overflow is not modelled.

## Findings

| source | as written | input that shows it | evidently intended | confidence | as-written member | corrected member |
|---|---|---|---|---|---|---|
| keymanager/KeyManager.go:63-74 | `rows.Err()` is never checked after the `rows.Next()` loop. An iteration error ends the loop early, and the truncated key list is committed as a successful reload. | a table with keys `[a, b]` where `rows.Next()` fails before row 1: the pool becomes `[a]` and no error is returned | the reload is all-or-nothing: an iteration error is returned and the pool stays as it was | medium, not executed | `KeyStore.ScanAsWritten` (shown by `KeyStore.IterationFaultTruncates`) | `Keymanager.KeyManager.LoadKeys` |
| main.go:116-124 | A request body of `null` decodes without error into a nil map. `requestBody["type"] = ...` then panics. The key has already been allocated. | `POST /task/text_to_model` with body `null` | a body that is not a JSON object is answered 400 "Failed to parse request body" | high, not executed | `Proxy.PrepareTextBodyAsWritten` (shown by `Proxy.NullBodyPanics`) | `Proxy.PrepareTextBody` |
