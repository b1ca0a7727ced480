# go-crawlb core in Dafny

A model of the core of go-crawlb, a polite HTTP client for crawlers. The model covers four parts:

- **The generational response cache** (`cache/cache.go`). A `Cache` holds a newest-first list of transactions, bounded by `numTx` and recorded in the control file `cache.json`. Each transaction is a directory of entry files. An entry file is named by the hex MD5 of method, URL and the first 256 payload bytes. It holds a JSON request descriptor, a newline, a JSON response descriptor, a newline and the raw body.
- **The access gate** (`mutex/mutex.go`). One slot, plus the earliest time the next request may go out.
- **The client** (`client.go`). It selects a transaction, and answers `Do` from the cache, fetching through the gate and storing first when the entry is missing.
- **The scanners** (`tools.go`). `ScanCsv` and `ScanZip` hand records or archive members to a callback, stop early on `SkipAll` or an error, and call `Done` at the end.

Modules:

- `Common`: bytes, paths, the error kinds, and `Option`/`Result`/`Outcome`.
- `Numerals`: `strconv.FormatInt` and hex encoding, with their inverses.
- `Codec`: a JSON encoder and decoder for the values the cache writes.
- `Disk`: the filesystem, as a map from path to directory or file, with a fixed set of paths whose operations fail.
- `Entry`: the cache key and the entry file.
- `Cache`: transactions and the control file.
- `Gate`, `Client` and `Scan`: the other three parts.

The filesystem, the clock, the network, cancellation and the callbacks are all inputs. A failing operation is one on a broken path. The current time is a parameter of each call. What a fetch returns and how long it takes are parameters. Whether the context is done when `Lock`'s select runs is a flag. Each callback is a function of its arguments.

Go's `Lock` keeps the slot when the context is cancelled, because it returns without `m.mu.Unlock()`. The model follows the code here: after a cancelled `Lock`, every later `Lock` is blocked.

## Model

| member | source | states |
|---|---|---|
| Common.Join | cache/cache.go:133 | joining a name to a directory gives a path inside that directory that ends in the name |
| Numerals.FormatInt | cache/cache.go:56 | the base-b rendering is non-empty and uses only lower-case digits and a minus sign, which is the first byte exactly when the number is negative and appears nowhere else |
| Numerals.ValueOfDigits | cache/cache.go:56 | the digits of n, read back as a numeral, denote n |
| Numerals.ParseFormatInt | cache/cache.go:56 | every integer's rendering parses back to that integer |
| Numerals.FormatIntInjective | cache/cache.go:56 | distinct integers have distinct renderings |
| Numerals.HexEncode | cache/cache.go:282 | hex encoding is two lower-case hex digits per byte |
| Numerals.HexRoundTrip | cache/cache.go:282 | hex decoding inverts hex encoding |
| Numerals.HexInjective | cache/cache.go:282 | distinct byte strings have distinct hex encodings |
| Codec.SkipBlanks | cache/cache.go:177-183 | the decoder drops a prefix of the input, every dropped byte is a blank, and what is left is empty or starts with a non-blank byte |
| Codec.EncodeStr | cache/cache.go:213-219 | a JSON string starts with a quote and has no raw newline |
| Codec.StrRoundTrip | cache/cache.go:213-219 | a JSON string decodes back to its bytes and leaves whatever follows it |
| Codec.IntRoundTrip | cache/cache.go:213-219 | a JSON number decodes back to its integer when a non-digit follows |
| Codec.BoolRoundTrip | cache/cache.go:213-219 | true and false decode back |
| Codec.SeqRoundTrip | cache/cache.go:213-219 | a JSON array of self-delimiting items decodes back to the items and leaves the rest |
| Codec.StrsRoundTrip | cache/cache.go:213-219 | a JSON array of strings (TransferEncoding) decodes back |
| Codec.HeaderRoundTrip | cache/cache.go:213-219 | a header object (name to list of values) decodes back |
| Codec.ValueRoundTrip | cache/cache.go:213-219 | each member value decodes back by its kind |
| Codec.MembersRoundTrip | cache/cache.go:213-219 | the members of an object, in order, decode back |
| Codec.ObjectRoundTrip | cache/cache.go:213-219 | an object decodes back to its values and leaves whatever follows: the encoding is self-delimiting |
| Codec.ObjectTail | cache/cache.go:177-183 | whatever an object decoder leaves unread is a suffix of its input |
| Codec.ObjectNoNewline | cache/cache.go:213-219 | an encoded object contains no raw newline |
| Disk.FileSystem.Read | cache/cache.go:171 | reading fails with not-exist for a missing path, fails on a broken path or a directory, and otherwise yields the file's bytes |
| Disk.MadeDirsNodes | cache/cache.go:134 | making a directory keeps every existing node, adds only directories, and when no ancestor is a file leaves the path and all its ancestors directories |
| Disk.FileSystem.MkdirAll | cache/cache.go:134 | the directory and every missing ancestor are made unless the path is broken or the path or an ancestor is a file; nothing changes on failure |
| Disk.FileSystem.RemoveAll | cache/cache.go:100 | the path and everything below it go, a missing path is not an error, and a broken path changes nothing |
| Disk.FileSystem.WriteFile | cache/cache.go:207-221 | the file is created with the data when the path is not broken, not a directory, and its parent directory exists; a missing parent is a not-exist error, any other failure an I/O error, and nothing changes on failure |
| Entry.GetPayload | cache/cache.go:250-269 | no GetBody gives a nil payload, a GetBody error is returned, and a payload holds at most 256 bytes |
| Entry.PayloadIsPrefix | cache/cache.go:250-269 | the payload is the body's first 256 bytes, or the whole body when it is shorter; EOF is not an error, and a read error before 256 bytes is returned |
| Entry.PayloadAgreesOnPrefix | cache/cache.go:250-269 | bodies that agree on their first 256 bytes give the same payload |
| Entry.NewCreq | cache/cache.go:232-243 | the request descriptor is the method, the URL and the payload; a payload error is returned |
| Entry.Digest | cache/cache.go:281 | the digest is 16 bytes |
| Entry.Ident | cache/cache.go:274-283 | the key is 32 lower-case hex characters |
| Entry.IdentNilIsEmpty | cache/cache.go:278-280 | a nil payload and an empty payload give the same key |
| Entry.IdentOfConcatenation | cache/cache.go:274-283 | the key depends only on Method ++ Url ++ Payload, and different keys mean different concatenations |
| Entry.NewFile | cache/cache.go:145-152 | the entry is dir joined with the key of the request descriptor; a payload error is returned |
| Entry.SamePrefixSameEntry | cache/cache.go:145-152 | requests with the same method, the same URL and the same first 256 body bytes share an entry file |
| Entry.NewCres | cache/cache.go:299-311 | the descriptor keeps the nine fields: rebuilding a response from it gives the original without body and request |
| Entry.NewResponse | cache/cache.go:314-326 | a response rebuilt from a descriptor has no body and no request yet |
| Entry.DescriptorRoundTrip | cache/cache.go:299-326 | newCres and newResponse are inverse copies of the nine fields |
| Entry.CReqRoundTrip | cache/cache.go:213-215 | the request descriptor decodes back and leaves whatever follows it |
| Entry.CResRoundTrip | cache/cache.go:217-219 | the response descriptor decodes back and leaves whatever follows it |
| Entry.EntryRoundTrip | cache/cache.go:167-222 | an entry file parses back to its request descriptor, its response descriptor and exactly its body bytes |
| Entry.ParseEntry | cache/cache.go:176-186 | the body that follows the two decoded descriptors is a suffix of the file |
| Entry.BodyTail | cache/cache.go:186 | seeking one byte past the response descriptor stays inside the file |
| Entry.LoadedResponse | cache/cache.go:192-198 | the loaded response carries the stored nine fields, the body, and the stored method and URL |
| Entry.Load | cache/cache.go:167-201 | an open error is returned, an entry that does not parse is an error, and Load succeeds exactly when the file reads and parses |
| Entry.IsExists | cache/cache.go:161-164 | an entry Load can read exists, an existing entry is on the disk, and a missing entry on a working path reads as not-exist |
| Entry.Store | cache/cache.go:204-222 | a create failure (not-exist for a missing transaction directory) is returned and writes nothing; otherwise the file holds both descriptors then the body, and a body read error is returned |
| Entry.LoadAfterStore | cache/cache.go:167-222 | after Store, the entry exists and Load returns the stored fields, the stored body bytes, and the request's method and URL |
| Cache.TxName | cache/cache.go:56 | a transaction name is the base-16 rendering of the millisecond timestamp |
| Cache.TxNamesDistinct | cache/cache.go:52-56 | distinct timestamps give distinct names and distinct directories |
| Cache.TxNameNotCtl | cache/cache.go:56 | no transaction name is the control file's name |
| Cache.NewTx | cache/cache.go:132-142 | the transaction directory is dir/name, made with its missing ancestors; a mkdir failure is returned with nothing made |
| Cache.Keep | cache/cache.go:95-106 | discard keeps a prefix of length min(numTx, len) |
| Cache.Evicted | cache/cache.go:95-106 | the kept prefix followed by the evicted suffix is the original list |
| Cache.FirstBroken | cache/cache.go:99-103 | the first directory whose removal fails, or none |
| Cache.RemoveEachClosedForm | cache/cache.go:99-103 | removing the evicted directories in order removes exactly those before the first failing one and returns that failure, or removes them all |
| Cache.RemoveEachAppend | cache/cache.go:99-103 | the removal loop runs over a concatenation as one run after the other, stopping at the first failure |
| Cache.Push | cache/cache.go:60-62 | after insertion and retention, the new transaction is first and at most numTx remain |
| Cache.ReplayKeepsNewest | cache/cache.go:52-73 | creating transactions one after another from none leaves the last numTx created, newest first |
| Cache.RecordRoundTrip | cache/cache.go:126-130 | a saved transaction record (name, create_at) decodes back |
| Cache.CtlRoundTrip | cache/cache.go:109-122 | the control file decodes back to the saved records |
| Cache.SaveLoadTransactions | cache/cache.go:109-122 | saving then loading the control file gives back the same transactions, with each dir rebuilt from its name |
| Cache.Find | cache/cache.go:84-91 | the position of the first transaction with the name, or the length when there is none |
| Cache.Cache.Discard | cache/cache.go:95-106 | the directories after position numTx are removed in order until one fails; on success the list becomes its first numTx, on failure the list is kept and that error is returned |
| Cache.Cache.SaveCtlFile | cache/cache.go:120-122 | the control file is written with the transaction records |
| Cache.Cache.LoadCtlFile | cache/cache.go:109-117 | a read error is returned, a malformed file is an error, otherwise the list becomes the saved records with dirs joined to their names |
| Cache.Cache.FixDirs | cache/cache.go:113-115 | every transaction's dir becomes the cache dir joined with its name |
| Cache.Created | cache/cache.go:52-73 | a mkdir failure changes nothing; a success returns the transaction named by the timestamp, the list becomes the new one followed by the old ones cut to numTx, and the control file holds that list's records; in every case the list is the old one, the old one with the new transaction in front, or that cut to numTx |
| Cache.CreatedFirst | cache/cache.go:76-80 | creating the first transaction of an empty cache leaves exactly that transaction, with its directory on disk |
| Cache.CreatedFollowsNames | cache/cache.go:52-73 | creating a transaction keeps every listed transaction in the directory named after it |
| Cache.Cache.NewTransaction | cache/cache.go:52-73 | the reply, the new list and the new filesystem are exactly Created's, covering the mkdir failure, the discard failure (new transaction kept in front, nothing saved), the save failure and success; the cache stays valid |
| Cache.Cache.GetLastTransaction | cache/cache.go:76-81 | a non-empty cache returns its first transaction and changes neither list nor disk; an empty one creates a transaction, returns it, holds only it, and leaves the disk as Created does, with the transaction's directory made |
| Cache.Cache.GetTransaction | cache/cache.go:84-91 | the first transaction with the name, or the no-such-transaction error exactly when none has it |
| Cache.New | cache/cache.go:38-49 | a missing control file is an empty cache, any other load error is returned, then discard runs and its error is returned, with no save |
| Gate.Step | mutex/mutex.go:28-43 | Lock never writes next, takes the slot, is blocked on a held slot, admits at or after next and now, is cancelled when the context is done; Unlock sets next to now + d and frees the slot |
| Gate.HeldPersists | mutex/mutex.go:28-43 | once the slot is held, every Lock is blocked until an Unlock |
| Gate.Exclusion | mutex/mutex.go:28-43 | after Lock takes the slot, no later Lock is admitted without an Unlock in between |
| Gate.CancelStarves | mutex/mutex.go:29-33 | after a cancelled Lock, every later Lock is blocked |
| Gate.NextAfterUnlock | mutex/mutex.go:41 | after an Unlock at t, next stays at least t + d while the clock does not go back |
| Gate.Spacing | mutex/mutex.go:34-41 | a Lock admitted after an Unlock at t is admitted no earlier than t + d |
| Gate.FirstLockImmediate | mutex/mutex.go:22-35 | on a new gate, the first uncancelled Lock is admitted at once |
| Gate.Mutex.constructor | mutex/mutex.go:22-24 | a new gate has the zero time in next and a free slot |
| Gate.Mutex.Lock | mutex/mutex.go:28-37 | the new state and the reply are one step of the gate |
| Gate.Mutex.Unlock | mutex/mutex.go:40-43 | next becomes now + d and the slot is freed |
| Client.Client.NewTransaction | client.go:59-66 | the cache's list and filesystem become Created's; the client switches to the new transaction exactly when the cache made one, and otherwise keeps its transaction and returns the cache's error |
| Client.Client.LastTransaction | client.go:69-76 | the client switches to the cache's newest transaction; with one present the disk is unchanged, with none a transaction is created and the disk becomes Created's, with its directory made |
| Client.Client.SetTransaction | client.go:79-86 | the client switches to the first transaction with the name, and keeps its transaction and returns the error when none has it |
| Client.Client.FetchAndStore | client.go:106-132 | an existing entry is a success that touches neither the gate nor the disk; a failed Lock returns its error with no fetch and no store; once admitted, a fetch error is returned with nothing stored, otherwise the response is stored, and the gate is released in both cases |
| Client.Client.Do | client.go:90-103 | no transaction or a payload error is returned with gate and disk unchanged; a cached entry is loaded with gate and disk unchanged; a held gate is Blocked, a cancelled Lock returns Cancel and keeps the slot; once admitted the slot is freed and next is the admission time plus the fetch time plus d; a fetch error is returned with nothing stored, a create failure returns its error, otherwise the entry file is written and the reply is the stored response (or the body read error) |
| Client.NewClient | client.go:46-56 | as Cache.New: a missing control file is an empty cache, another read error or a malformed file is returned, a discard failure is returned, and otherwise the list is the saved one cut to numTx with the disk after the removals; a new client has a new gate with interval d and no transaction |
| Scan.RowerFunc | tools.go:97-104 | ReadRow is fn(i, row) and Done is fn(-1, nil) |
| Scan.FilerFunc | tools.go:52-59 | ReadFile is fn(file) and Done is fn(nil) |
| Scan.FirstFail | tools.go:78-82 | the first callback reply that fails, or none |
| Scan.Stopped | tools.go:78-81 | SkipAll from a callback is success, any other error is returned |
| Scan.ScanCsv | tools.go:117-139 | ReadRow is called with 0, 1, 2, ... and the records in order; the first failing reply ends the scan (SkipAll as success) without Done; a read error is returned without Done; at end of file the result is Done's; Done is called exactly when every row passed and the reader reached EOF |
| Scan.ScanZip | tools.go:68-85 | an open error is returned at once; ReadFile is called per member in order, with the same early exits; Done is called exactly when every member passed |
| Scan.LoggedFullScan | tools_test.go:53-66 | a scan whose callback accepts every member logs the member names followed by "done" |

## Left out

- Real I/O is not modelled. `os.MkdirAll`, `RemoveAll`, `Create`, `Open`, `Stat` and `Seek` become operations on a map from path to directory or file. Failure comes from a fixed set of broken paths.
- `os.MkdirAll` and `os.Create` follow the POSIX rules the model needs: MkdirAll makes every missing ancestor and fails when one of them is a file; Create fails with not-exist when the parent directory is missing, and with an I/O error on a broken path or a directory. Permissions and the umask are not modelled.
- `Entry.Digest` is not MD5 (RFC 1321). It is some deterministic 16-byte function of its input. Only determinism and the length are used.
- `encoding/json` and the `jsonb` control-file save and load are a JSON subset with proved round trips.
  - Strings are escaped byte strings. The payload is written as an escaped string, not as base64.
  - The decoder accepts members only in the encoder's order and with the encoder's layout (no indentation, as `jsonb` might add).
  - `encoding/json` ignores unknown members and leaves missing ones at their zero value; the decoder here accepts only the members the encoder writes, so this is not modelled.
- Nil and empty are one value for `Transfer-Encoding`, header values and rows. The payload keeps the distinction, as `Option`.
- `url.Parse`, `URL.String` and `path.Join` cleaning are not modelled. A URL is its string, and joining appends a path component.
- `CreateAt` (`time.Now().Format`) is a parameter, not a wall-clock reading. The millisecond timestamp of `NewTransaction` is a parameter too.
- `sync.Mutex` blocking, goroutines, `time.After` and `context` are left out.
  - A Lock on a held slot answers `Blocked` instead of waiting.
  - When both select cases are ready, which one Go picks is random; the caller-supplied cancel flag decides.
  - Unlock of a free slot stops a Go program; the method requires a held slot, and `Gate.Step` answers `Fault`.
- `fileResponse`, `http.DefaultClient.Do` and the `Get`/`Head`/`Post`/`PostForm`/`PostJson` wrappers are left out: file and network I/O, RFC 1123 dates and thin wrappers. The fetch result is a parameter of `FetchAndStore` and `Do`.
- `Download` in tools.go is left out: network and temporary-file I/O.
- CSV parsing, zip reading and the Shift_JIS transform are left out: library decoders. A CSV source is its records followed by EOF or a read error. An archive is the result of opening it.
- Closing readers and files is not modelled. The body `Load` returns is its bytes, not an open file.
- Cache.Cache.GetLastTransaction: requires a non-empty cache, or numTx >= 1 and a directory that can be made. Without that, Go ignores the `NewTransaction` error and indexes an empty slice, which panics.
- Cache.Tx values are copied, not shared. Go hands out pointers into the `Trans` slice, and a later shift of the slice changes what they see; this aliasing is not modelled.
- Cache.Cache: numTx is a natural number. With a negative `numTx`, Go's `discard` panics on the index `c.Trans[i]` at cache/cache.go:100.
- Client.Client.FetchAndStore: the gate is released `elapsed` after admission. Any non-negative fetch time is allowed, and the clock is not modelled beyond that.
- Scan.ScanCsv: callbacks are functions of their arguments. This covers recording callbacks such as the tests', because the call at each index is fixed by the input.
- Entry.LoadAfterStore: strings are byte strings, so the exact round trip is proved for every string. Go's `encoding/json` writes each byte of invalid UTF-8 as U+FFFD, so in Go the round trip is exact only when the status, proto, header names and values, TransferEncoding, method and URL are valid UTF-8.
