# Certificate store and CSV row zipping

A Dafny model of the core of a small certificate-management HTTP service
written in Go. The repository holds two versions of the service:

- `TASK_2.go` routes with gin. Its certificate has eight fields: `ID`, `Name`, `Course`,
  `IssuedTo`, `IssueDate`, `ExpiryDate`, `Issuer` and `Content`. It also reads uploaded CSV files.
- `TASK_1.go` routes with gorilla/mux. Its certificate has three fields: `ID`, `Name` and `Content`.

Both keep every certificate in one process-wide slice guarded by one mutex.
Both implement the same four handlers:
- get by id: a linear scan for the first matching `ID`;
- create: `ID` forced to `len + 1`, then appended;
- list: the whole slice;
- update: a linear scan, then the first match is replaced wholesale, with `ID` forced back to the path id.

The model has six modules:

- `Wrappers` (`wrappers.dfy`): `Option` and `Result`.
- `Store` (`store.dfy`): the store, generic in the non-identifier fields.
  - A certificate is `Certificate<D>(id, details)`. The store is `seq<Certificate<D>>`.
  - `Get`, `Create`, `List` and `Update` are pure functions. `Get`, `Create` and `Update` each return the new store together with an `Outcome`: `Ok(cert)`, `NotFound`, `BadId` or `BadBody(message)`. `List` returns the store sequence itself.
  - `Serve` and `Run` replay any sequence of requests. The lemmas state the store invariant over them: identifiers are exactly `1..n` in insertion order.
- `Http` (`http.dfy`): the status codes and error texts the handlers send.
- `GinService` (`gin_service.dfy`) and `MuxService` (`mux_service.dfy`): each service's `Details` record. Each service's four handlers are modelled as the store operation followed by the response.
- `CsvImport` (`csv_import.dfy`): the part of `readCSVData` that runs after tokenisation. It rejects input with fewer than two rows. It zips every data row against the header into a `map<string, string>`.

The inputs that come from libraries are modelled as parameters:
- the path id after `strconv.Atoi` is an `Option<int>`, `None` when it is not an integer;
- the JSON body after decoding is a `Body<D>`, either `Decoded(cert)` or `Malformed(error text)`;
- the rows after `os.Open` and `csv.Reader.ReadAll` are a `Result<seq<seq<string>>>`.

Identifiers are unbounded integers.

## Model

| member | source | states |
|---|---|---|
| `Store.FirstIndexOf` | TASK_2.go:47-52 | the scan returns an index whose certificate has the identifier and no earlier certificate does; it returns none exactly when no certificate has the identifier |
| `Store.Get` | TASK_2.go:37-54 | get never changes the store; a non-integer id gives `BadId`; otherwise not-found exactly when no certificate has the id, and else the first certificate with that id |
| `Store.Create` | TASK_2.go:56-70 | a malformed body leaves the store unchanged; otherwise the stored record has id `|store|+1` whatever the body's id, keeps the body's other fields, and is appended last with every earlier record unchanged |
| `Store.List` | TASK_2.go:72-76 | list returns every record of the store, in insertion order |
| `Store.Update` | TASK_2.go:78-103 | update never changes the store's length; a bad id, then a malformed body, then an absent id each leave the store unchanged with their own outcome; otherwise only the first match changes, and it becomes the body with the path id |
| `Store.IdsAreIndicesGiveUniqueIds` | TASK_2.go:66-67 | when identifiers are `1..n` in order, no two certificates share one |
| `Store.GetFindsIndex` | TASK_2.go:47-53 | under the invariant, get of `k` returns the record at index `k-1` when `1 <= k <= n`, and not-found otherwise |
| `Store.ServeKeepsIdsAreIndices` | TASK_2.go:66-97 | every get, create, list or update keeps identifiers equal to `index + 1` |
| `Store.RunKeepsIdsAreIndices` | TASK_2.go:66-97 | from a store satisfying the invariant, the empty one included, any sequence of requests keeps the invariant, so identifiers stay unique |
| `Store.GetAfterCreate` | TASK_2.go:66-69 | under the invariant, getting the id a create just assigned returns the submitted fields under that id |
| `Store.GetAfterUpdate` | TASK_2.go:94-100 | after a successful update, get of the same id returns the updated record |
| `Store.CreatesAppendInOrder` | TASK_2.go:66-67 | N well-formed creates append N records in request order, numbered on from the current count, and leave earlier records untouched |
| `GinService.GetCertificateById` | TASK_2.go:37-54 | a non-integer id gives 400 "Invalid certificate ID"; an absent id gives 404 "Certificate not found"; otherwise 200 with the first match; the store is never changed |
| `GinService.CreateCertificate` | TASK_2.go:56-70 | a body that does not decode gives 400 with the decoder's text and no change; otherwise the body is appended with id `|store|+1` and sent with 201 |
| `GinService.GetAllCertificates` | TASK_2.go:72-76 | 200 with the whole store, unchanged |
| `GinService.UpdateCertificate` | TASK_2.go:78-103 | the id check comes before the body check, and both come before the scan, each answered with 400; an absent id gives 404 with no change; otherwise all seven non-id fields of the first match are overwritten, its id is the path id, and the record is sent with 200 |
| `MuxService.GetCertificateById` | TASK_1.go:30-48 | a non-integer id gives 400 "Invalid certificate ID"; an absent id gives 404 "Certificate not found"; otherwise 200 with the first match; the store is never changed |
| `MuxService.CreateCertificate` | TASK_1.go:50-64 | a body that does not decode gives 400 with the decoder's text and no change; otherwise the body is appended with id `|store|+1` and sent with 201 |
| `MuxService.GetAllCertificates` | TASK_1.go:66-70 | 200 with the whole store, unchanged, in insertion order |
| `MuxService.UpdateCertificate` | TASK_1.go:72-98 | the id check comes before the body check, and both come before the scan; an absent id gives 404 with no change; otherwise name and content of the first match are overwritten, its id is the path id, and the record is sent with 200 |
| `CsvImport.ZipColumns` | TASK_2.go:155-159 | after visiting the first `n` header columns, the keys are the names of those columns the row reaches, and each name maps to the cell of its last such column |
| `CsvImport.ZipRow` | TASK_2.go:154-159 | the keys are `{header[i] : i < min(|header|, |row|)}`; each key maps to the cell of the rightmost column with that name; cells past the header are dropped |
| `CsvImport.DistinctHeaderKeepsEveryCell` | TASK_2.go:155-159 | with no repeated header name, each column the row reaches keeps its own cell |
| `CsvImport.ReadCsvData` | TASK_2.go:133-163 | open and parse errors pass through unchanged; fewer than two rows is the "at least one data row" error; otherwise there is one map per data row, in order, `|records| - 1` of them, each the row zipped against the header |

## Left out

- HTTP routing, `main`, and the JSON encoding done by `sendJSONResponse` are not modelled. The TASK_1.go `Content-Type` header is also not modelled. A response is modelled only as a status code and the value it encodes. So the model cannot tell a nil slice from an empty one. Before the first create, the store is a nil slice (TASK_2.go:29, TASK_1.go:20), and `GET /certificates` answers JSON `null`. The model answers `All([])`, which it does not distinguish from `[]`.
- The mutex is not modelled. It only makes each handler atomic, so each handler is modelled as one step from store to store.
- `strconv.Atoi` is a parameter. It rejects values outside Go's `int`, which is 32 or 64 bits wide depending on the target platform. The figures here assume a 64-bit target. The model takes the already-parsed value and does not bound identifiers at all. A store of `2^63 - 1` records, the only case where `len + 1` would wrap, is not reachable in practice.
- JSON decoding (`ShouldBindJSON`, `json.NewDecoder`) is a parameter: the decoded certificate or the decoder's error text.
- `uploadCertificateData` is not modelled. Its multipart upload and its file save under `./uploads/` are file I/O. It also calls `fillTemplate` (TASK_2.go:124), but only `fillTemplates` is defined (TASK_2.go:167), so it is undefined. Go compiles a package as a whole, so this stops all of TASK_2.go from building. TASK_2.go also imports `encoding/json` (TASK_2.go:5) and never uses it, which is a second compile error. The four handlers and `readCSVData` of TASK_2.go are modelled as written, as if the file built.
- The opening and tokenising in `readCSVData` (`os.Open`, `csv.Reader.ReadAll`) are library I/O. Their result or error is the input to `ReadCsvData`. With `encoding/csv`'s default `FieldsPerRecord` of 0, `ReadAll` (TASK_2.go:141) fails on any row whose length differs from the header's. So in the program as written, the `i < len(row)` guard (TASK_2.go:156) never skips a column. `ZipRow` and `ReadCsvData` accept ragged rows anyway, which is a harmless generalisation. Their cases for cells past the header, and for header columns past the row, cannot arise from the program's own parse.
- `fillTemplates` is not modelled. It reads a template file from disk and delegates to `html/template`, whose parsing and escaping are not part of this model.
- The typed-record CSV import is not modelled. The same goes for its synthesised content sentence, the batch append into the store, and the header-only lenient variant. None of them appears in the service's source files, so there is no code to model.
