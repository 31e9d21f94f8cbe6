# Segmented file store — a verified Dafny model

The OpenDXL file transfer service lets a client upload a file as a
sequence of numbered segments. The service assigns a transfer id and
accepts the segments strictly in order. It appends each payload to the
file and to a running content hash. It finishes the transfer on a `store`
request, which checks the declared size and hash, or on a `cancel`
request. A startup sweep deletes the transfers that a restart left
unfinished: each open transfer has a marker file in the `.workdir`
working directory.

The repository has two implementations of this protocol, and both are
modelled:

* `FileStoreManager` (`dxlfiletransferservice/store.py`) hashes with
  SHA-256. Segment 1 creates the transfer and later segments look it up.
* `FileStoreRequestCallback` (`dxlfiletransferservice/requesthandlers.py`)
  is the handler the service application registers. It hashes with MD5.
  Whether a `file_id` is present decides between create and lookup. Every
  request must carry `name`. Completed transfers are never removed from
  its registry.

## Layout

| file | module | contents |
|---|---|---|
| `wire.dfy` | `Wire` | request fields, failure reasons, `_get_value_as_int` with Python's `int()` on decimal strings |
| `storage.dfy` | `Storage` | the shared state and the steps both versions share: append a segment (`_write_file_segment`), the store/cancel body of `_complete_file`, the purge sweep |
| `store_model.dfy` | `StoreModel` | `store_segment` and its helpers as functions from state to (state, outcome), plus the invariant |
| `store_properties.dfy` | `StoreProperties` | what each kind of request does, the invariant kept, and the quirks |
| `store_upload.dfy` | `StoreUpload` | a whole upload of N segments stores exactly their concatenation |
| `store_manager.dfy` | `StoreManager` | class `FileStoreManager`, whose fields change in place; each method is proved equal to the model |
| `handler_model.dfy` | `HandlerModel` | `on_request` and its helpers as functions |
| `handler_properties.dfy` | `HandlerProperties` | the request callback's properties and its differences from the manager |
| `handler_upload.dfy` | `HandlerUpload` | a whole upload against the request callback |
| `handler_callback.dfy` | `HandlerCallback` | class `FileStoreRequestCallback`, proved equal to the model |

The state is `State(sessions, markers, dirs)`:

* `sessions` is the registry `_files`. Each entry holds the file name,
  `segments_received` and the bytes fed to the hash accumulator.
* `markers` is the set of marker files in the working directory.
* `dirs` maps each subdirectory of the storage directory to its files.

A transfer's file is at path (id, name). The hex digest of the hash is an
injected function `digest: seq<byte> -> string`. The generated uuid is a
parameter `freshId`. Each class method is proved to leave the object in
the state, with the outcome, that the model function gives. The
properties are proved about the model functions.

### Quirks of the code

The model keeps these behaviours of the code, which a client may not
expect:

* **Segment 1 and `file_id`.** `store.py` accepts a caller-supplied
  `file_id` on segment 1 and creates the transfer under that id. If a
  directory of that name exists, the transfer reuses it and appends to the
  file it holds (`StoreProperties.SuppliedIdAccepted`).
* **Deleting a reused directory.** When segment 1 under such an id asks
  for cancel, or asks for store and fails the integrity check, the whole
  reused directory is deleted, including the files stored there earlier
  (`StoreProperties.FirstSegmentCompletes`).
* **The hash of a reused file.** The size check counts the bytes the
  reused file already held, but the hash covers only the bytes sent, so
  a stored file that began non-empty is not covered by the hash check
  (`StoreProperties.FirstSegmentCompletes`; `StoreProperties.StoredFileIntact`
  needs an empty start).
* **Non-positive segment numbers.** `store.py` sends 0 and negative
  numbers down the create branch. The sequencing check then refuses the
  request, and the new marker, directory and entry are not rolled back
  (`StoreProperties.NonPositiveSegmentLeavesTransfer`).
* **A transfer stuck at count 0.** Such a transfer expects segment 1, but
  segment 1 takes the creation branch and is refused because the id is
  registered, and higher numbers fail sequencing. Only a cancel numbered
  above 1 removes it (`StoreProperties.ZeroCountTransferStuck`).
* **The marker.** Both versions remove the marker at the start of
  completion, before any check, so it is gone after a failed store too.
* **Empty files.** The hash is compared only when the stored file is not
  empty (`StoreProperties.EmptyFileSkipsHash`).
* **Integrity mismatch in `store.py`.** The error is raised before the
  registry entry is deleted. The entry therefore stays registered with
  neither marker nor directory, and no later request can finish it or
  reuse its id (`StoreProperties.StrandedTransfer`).
* **Registry entries in the request callback.** Entries are never
  removed:
  * After a store, further segments are appended to the stored file
    (`HandlerProperties.StoredFileStillGrows`).
  * After a cancel, the next segment is counted and then fails because
    the directory is gone, not as an unknown transfer
    (`HandlerProperties.CancelThenSegment`).
* **Failed requests that change state.** A generated id whose directory
  already exists fails after its marker was written
  (`HandlerProperties.GeneratedIdClash`). A first request whose number is
  not 1 leaves its new transfer in place
  (`HandlerProperties.NewTransferNotRolledBack`).

## Model

All source paths are relative to the repository root.

| member | source | states |
|---|---|---|
| Wire.AsInt | dxlfiletransferservice/store.py:13-33 | An absent key gives no value. A number gives itself. A decimal string with an optional sign gives its value. A null, or a string that is not an optional sign followed by ASCII digits, fails naming the key. Nothing else fails. |
| Wire.AsIntOfDecimal | dxlfiletransferservice/requesthandlers.py:17-26 | A segment number or size sent as the decimal text of an integer converts back to exactly that integer. |
| Storage.WriteSegment | dxlfiletransferservice/store.py:153-168 | Succeeds exactly when the transfer's directory exists. Then the segment goes to the end of the file and of the hash input, the count is unchanged, and nothing else moves. On failure nothing changes. |
| Storage.StoreAccepted | dxlfiletransferservice/store.py:287-299 | The reference acceptance condition of a store, to which `Storage.Finish` is proved equivalent: the directory exists, the file with the last segment has the declared size, and it is empty or the digest of all hashed bytes is the declared hash. |
| Storage.Finish | dxlfiletransferservice/requesthandlers.py:128-167 | The marker is removed. Store succeeds exactly when the file with the last segment has the declared size and is empty or hashes to the declared hash; then the file is that content. Cancel succeeds exactly when the directory exists, removes it and writes nothing. Every failure leaves no directory. No entry is added or removed and the count is unchanged. |
| Storage.Swept | dxlfiletransferservice/store.py:140-151 | No marker is left. A directory survives exactly when it had no marker, and it is unchanged. The registry is untouched. |
| StoreModel.ToDict | dxlfiletransferservice/store.py:87-99 | Always has `file_id` and `segments_received`. Has `result` exactly when the file result is a non-empty string. No other key. |
| StoreModel.RequestedFileResult | dxlfiletransferservice/store.py:185-198 | An absent or empty result asks for nothing. `cancel` needs nothing more. `store` gives the size and hash when both are given; otherwise it fails for the missing size, then for the missing or empty hash. Any other value fails. Each case holds in both directions. |
| StoreModel.CheckRequest | dxlfiletransferservice/store.py:337-360 | Passes exactly when all of these hold: the segment number converts; segment 1 has a name; any other number (absent included) has a file id; the size converts; the requested result is valid. On success it returns the converted number and the requested result. The checks run in that order: a bad number fails first, then a missing name or file id, then a bad size, then an invalid result with its own reason. |
| StoreModel.GetFileEntry | dxlfiletransferservice/store.py:200-251 | An absent number fails and changes nothing. A number above 1 looks the id up and changes nothing. Any other number refuses a registered id or an id with a marker, changing nothing. Otherwise it adds the marker, keeps or creates the directory, and registers an entry with count 0 and no hashed bytes only when a name is given. |
| StoreModel.CompleteFile | dxlfiletransferservice/store.py:253-315 | The entry leaves the registry exactly when completion succeeds. The marker is removed. Nothing outside this transfer's entry and directory changes. |
| StoreModel.ProcessEntry | dxlfiletransferservice/store.py:366-389 | A non-cancel request whose number is not count+1 fails naming the expected number, with nothing changed. With count+1, an ordinary segment appends exactly its payload to the file and the hash input and answers the new count without a result, or fails for a missing directory with only the count changed. A store removes the marker and succeeds exactly when the size and hash are accepted; then it answers `store` and the file is the old content plus the payload, otherwise the directory is gone and the counted entry stays. A cancel removes marker and directory, and the entry exactly when the directory existed, answering `cancel` with the count unchanged. Only this transfer's entry, directory and marker can change. |
| StoreModel.StoreSegment | dxlfiletransferservice/store.py:317-389 | A request that fails the checks fails with that reason and changes nothing. An accepted answer names the supplied id, or the generated one when none was given. Only that transfer's entry, directory and marker can change. |
| StoreProperties.ProcessEntryKeepsInvariant | dxlfiletransferservice/store.py:366-389 | Sequencing, appending and completing a found or created transfer keep the invariant. |
| StoreProperties.StoreSegmentKeepsInvariant | dxlfiletransferservice/store.py:317-389 | Every request keeps these true: every marker has a directory; a registered transfer has a marker exactly when it has a directory; its file is its content at creation followed by every hashed byte. |
| StoreProperties.WriteKeepsInvariant | dxlfiletransferservice/store.py:153-168 | Appending a segment keeps the invariant. |
| StoreProperties.CompleteKeepsInvariant | dxlfiletransferservice/store.py:253-315 | Store and cancel keep the invariant. |
| StoreProperties.GetFileEntryKeepsInvariant | dxlfiletransferservice/store.py:209-251 | Lookup and creation keep the invariant, with the new transfer's base being what its file already held. |
| StoreProperties.SweepEstablishesInvariant | dxlfiletransferservice/store.py:121-151 | After the startup purge: no marker; no directory for any id that had one; the invariant holds with an empty registry. |
| StoreProperties.CheckFailureChangesNothing | dxlfiletransferservice/store.py:337-360 | A request refused by the checks before `_get_file_entry` leaves registry, markers and directories unchanged. |
| StoreProperties.UnknownIdChangesNothing | dxlfiletransferservice/store.py:215-219 | A number above 1 with an unregistered id fails as unknown and changes nothing. |
| StoreProperties.SequencingRule | dxlfiletransferservice/store.py:366-375 | For a registered transfer and a number above 1, a non-cancel request with a number other than count+1 fails and changes nothing. With count+1 the count becomes exactly count+1. |
| StoreProperties.OrdinarySegment | dxlfiletransferservice/store.py:377-389 | The next segment for an active transfer appends exactly its payload to the file and the hash, counts one more, touches nothing else, and answers without `result`. |
| StoreProperties.StoreFinalisation | dxlfiletransferservice/store.py:280-315 | The marker is removed. Success holds exactly when size and hash are accepted; then the answer is `store`, the entry is gone and the file holds the old content plus the payload. On a mismatch the directory is gone and the entry stays, counted. No other transfer's entry or directory changes. |
| StoreProperties.FirstSegmentCompletes | dxlfiletransferservice/store.py:228-315 | Segment 1 that asks for cancel or store, under an unused id, is completed at once and the markers end as they began. Cancel answers `cancel` with count 0 and deletes the id's directory, including a reused one. Store succeeds exactly when the existing content plus the payload has the declared size and is empty or the payload hashes to the declared hash; then the file is that content and the other files stay. A failed store deletes the whole directory and leaves the entry registered with count 1. |
| StoreProperties.StoredFileIntact | dxlfiletransferservice/store.py:280-305 | Under the invariant, when a transfer whose file was empty at creation is stored successfully, the stored file itself has the declared size and is empty or hashes to the declared hash. |
| StoreProperties.EmptyFileSkipsHash | dxlfiletransferservice/store.py:287-299 | An empty file with declared size 0 is accepted whatever hash is declared. |
| StoreProperties.CancelTransfer | dxlfiletransferservice/store.py:307-315 | Cancel numbered above 1 for an active transfer skips the sequencing check and writes nothing. It removes exactly the directory, marker and entry, and answers `cancel` with the count unchanged. |
| StoreProperties.CancelThenUnknown | dxlfiletransferservice/store.py:215-219 | After a cancel, a later segment for that id fails as unknown. |
| StoreProperties.ReplayRejected | dxlfiletransferservice/store.py:366-375 | Resending a segment that was just accepted fails with the state unchanged. |
| StoreProperties.SuppliedIdAccepted | dxlfiletransferservice/store.py:209-247 | Segment 1 with an unused caller-supplied id creates the transfer under that id and appends after whatever the file already held. |
| StoreProperties.NonPositiveSegmentLeavesTransfer | dxlfiletransferservice/store.py:215-247 | A non-cancel request numbered 0 or below under an unused id creates the marker, the directory and (with a name) the entry, then fails sequencing; nothing is undone. Without a name it fails before registering. |
| StoreProperties.ZeroCountTransferStuck | dxlfiletransferservice/store.py:209-222 | A registered transfer with no segment counted refuses every non-cancel request and changes nothing: a number up to 1 fails because the id is registered, a number above 1 fails sequencing. |
| StoreProperties.StrandedTransfer | dxlfiletransferservice/store.py:300-313 | A registered transfer without marker or directory is refused on every request. It stays registered without either, and cancel fails with nothing changed. |
| StoreUpload.Run | dxlfiletransferservice/store.py:317-389 | One answer per request. A request that fails the checks is answered with that failure. An accepted answer names the supplied id, or the id generated for that request. |
| StoreUpload.Upload | dxlfiletransferservice/store.py:340-360 | The requests are numbered from 1 and carry the payloads in order. The first names the file and carries no id; the others carry the id and no name. |
| StoreUpload.UploadPrefix | dxlfiletransferservice/store.py:317-389 | After the first k segments of an upload, the transfer's file and hash input are the concatenation of their payloads and the count is k. Every answer reports the running count. |
| StoreUpload.UploadStores | dxlfiletransferservice/store.py:317-389 | Segments 1..N in order, the last asking for store with the total size and a matching hash, are all accepted. The last answer is `store`. The file is exactly the concatenation. Registry and markers end as they began. |
| StoreManager.FileStoreManager.constructor | dxlfiletransferservice/store.py:121-138 | Starts with an empty registry over the purged storage directory, and the invariant holds. |
| StoreManager.FileStoreManager.PurgeIncompleteFiles | dxlfiletransferservice/store.py:140-151 | The loop over the markers ends in the purged state. |
| StoreManager.FileStoreManager.WriteFileSegment | dxlfiletransferservice/store.py:153-168 | The in-place append ends in the state and outcome of `Storage.WriteSegment`. |
| StoreManager.FileStoreManager.GetFileEntry | dxlfiletransferservice/store.py:200-251 | The in-place lookup or creation matches `StoreModel.GetFileEntry`. |
| StoreManager.FileStoreManager.CompleteFile | dxlfiletransferservice/store.py:253-315 | The in-place completion matches `StoreModel.CompleteFile`. |
| StoreManager.FileStoreManager.ProcessEntry | dxlfiletransferservice/store.py:366-389 | The in-place sequencing, append or completion matches `StoreModel.ProcessEntry`. |
| StoreManager.FileStoreManager.StoreSegment | dxlfiletransferservice/store.py:317-389 | Handling a request in place matches `StoreModel.StoreSegment` and keeps the invariant. |
| HandlerModel.RequestedFileResult | dxlfiletransferservice/requesthandlers.py:80-99 | An absent or empty result asks for nothing. `cancel` needs a file id. `store` needs a size and a non-empty hash. Any other value fails. Each case holds in both directions. |
| HandlerModel.CheckRequest | dxlfiletransferservice/requesthandlers.py:207-221 | Passes exactly when all hold: non-empty name, integer size, valid requested result, integer or absent segment number. The checks run in that order: a missing name fails first; with a name, a bad size fails as the size; with both, a bad result fails with its own reason; only then does a bad segment number fail. |
| HandlerModel.GetFileEntry | dxlfiletransferservice/requesthandlers.py:101-126 | With a file id: lookup, nothing changes, and it fails exactly for an unregistered id. Without one: the generated id gets a marker. If its directory exists it fails. Otherwise it gets an empty new directory and an entry with count 0. |
| HandlerModel.Response | dxlfiletransferservice/requesthandlers.py:171-192 | The response holds `file_id` and `segments_received` with the given values, and `result` exactly when a result is given. No other key. |
| HandlerModel.ProcessSegment | dxlfiletransferservice/requesthandlers.py:169-194 | No entry is added or removed. A non-cancel request whose number is not count+1 fails naming the expected number, with nothing changed. An accepted request answers its id and the count plus one (unchanged for cancel), with `result` exactly when one was requested. Only this transfer's entry, directory and marker can change. |
| HandlerModel.OnRequest | dxlfiletransferservice/requesthandlers.py:196-236 | A request that fails the checks fails with that reason and changes nothing. No entry is ever removed. An accepted answer names the supplied id, or the generated one when none was given. Only that transfer's entry, directory and marker can change. |
| HandlerProperties.OnRequestKeepsInvariant | dxlfiletransferservice/requesthandlers.py:196-236 | Every request keeps these true: every marker has a directory; the file of a registered transfer whose directory exists holds exactly its hashed bytes. |
| HandlerProperties.WriteKeepsInvariant | dxlfiletransferservice/requesthandlers.py:70-78 | Appending a segment keeps the invariant. |
| HandlerProperties.FinishKeepsInvariant | dxlfiletransferservice/requesthandlers.py:128-167 | Store and cancel keep the invariant. |
| HandlerProperties.ProcessSegmentKeepsInvariant | dxlfiletransferservice/requesthandlers.py:169-194 | Processing a segment keeps the invariant. |
| HandlerProperties.SweepEstablishesInvariant | dxlfiletransferservice/requesthandlers.py:40-68 | After the startup purge: no marker; no directory for an id that had one; empty registry; the invariant holds. |
| HandlerProperties.CheckFailureChangesNothing | dxlfiletransferservice/requesthandlers.py:207-221 | A missing name, a non-integer size or segment number, or an invalid result combination fails with nothing changed. |
| HandlerProperties.UnknownIdChangesNothing | dxlfiletransferservice/requesthandlers.py:102-107 | An unregistered file id fails as unknown with nothing changed. |
| HandlerProperties.SequencingRule | dxlfiletransferservice/requesthandlers.py:173-182 | For a registered transfer, a non-cancel request whose number is not count+1 (an absent number included) fails with nothing changed. With count+1 the count becomes count+1 and is reported. |
| HandlerProperties.NewTransferNotRolledBack | dxlfiletransferservice/requesthandlers.py:108-123 | A request without a file id whose number is not 1 creates entry, marker and directory, then fails sequencing; they stay. |
| HandlerProperties.GeneratedIdClash | dxlfiletransferservice/requesthandlers.py:109-113 | A generated id whose directory exists fails, leaving only a new marker. |
| HandlerProperties.FirstSegment | dxlfiletransferservice/requesthandlers.py:108-126 | Segment 1 without a file id creates the transfer under the generated id, with the payload as its file and hash input and count 1. |
| HandlerProperties.FirstSegmentStores | dxlfiletransferservice/requesthandlers.py:108-161 | Segment 1 without a file id that asks for store creates the transfer under the generated id and completes it at once. The marker is gone and the entry stays with the payload hashed and count 1. It succeeds exactly when the payload has the declared size and is empty or hashes to the declared hash; then the new directory holds just the payload as the file. On a mismatch no directory is left. |
| HandlerProperties.OrdinarySegment | dxlfiletransferservice/requesthandlers.py:184-194 | The next segment appends exactly its payload to file and hash, counts one more, touches nothing else, and answers `file_id` and the new count without `result`. |
| HandlerProperties.StoreCompletion | dxlfiletransferservice/requesthandlers.py:134-161 | The marker is removed. The entry stays, counted once more, with the payload hashed. Success holds exactly when size and hash are accepted; then the answer is `store` and the file is the old content plus the payload. On a mismatch the directory is gone. No other transfer's entry or directory changes. |
| HandlerProperties.StoredFileIntact | dxlfiletransferservice/requesthandlers.py:134-161 | Under the invariant, whenever a store request succeeds, the transfer is registered and its stored file has the declared size and is empty or hashes to the declared hash. |
| HandlerProperties.CancelTransfer | dxlfiletransferservice/requesthandlers.py:162-167 | Cancel removes exactly the directory and the marker, writes nothing, keeps the entry, and answers `cancel` with the count unchanged. |
| HandlerProperties.CancelNeedsId | dxlfiletransferservice/requesthandlers.py:84-86 | Cancel without a file id is refused. |
| HandlerProperties.EntryNeverRemoved | dxlfiletransferservice/requesthandlers.py:128-167 | No request removes a registry entry. Entries other than the one named or created are untouched. |
| HandlerProperties.StoredFileStillGrows | dxlfiletransferservice/requesthandlers.py:101-107 | After a successful store, the next segment for that id is accepted and appended to the stored file. |
| HandlerProperties.CancelThenSegment | dxlfiletransferservice/requesthandlers.py:173-189 | After a cancel, the next segment for that id is counted, then fails because the directory is gone. |
| HandlerProperties.ResponseMatchesSegmentResult | dxlfiletransferservice/requesthandlers.py:171-192 | The callback's response dictionary equals what `FileStoreSegmentResult.to_dict` gives for the same id, count and result. |
| HandlerUpload.Run | dxlfiletransferservice/requesthandlers.py:196-236 | One answer per request, and no entry is lost. A request that fails the checks is answered with that failure. An accepted answer's `file_id` is the supplied id, or the id generated for that request. |
| HandlerUpload.Upload | dxlfiletransferservice/requesthandlers.py:207-223 | The requests are numbered from 1 and carry the payloads in order. Every request names the file, as the callback requires. The first carries no id and the others carry it. |
| HandlerUpload.UploadPrefix | dxlfiletransferservice/requesthandlers.py:196-230 | After the first k segments of an upload, file and hash input are the concatenation of their payloads and the count is k. Every answer reports the running count. |
| HandlerUpload.UploadStores | dxlfiletransferservice/requesthandlers.py:196-230 | Segments 1..N in order, each naming the file, the last asking for store with total size and matching hash, are all accepted. The last answer is `store`. The file is exactly the concatenation, the marker is gone, and the entry stays with count N. |
| HandlerCallback.FileStoreRequestCallback.constructor | dxlfiletransferservice/requesthandlers.py:40-58 | Starts with an empty registry over the purged storage directory, and the invariant holds. |
| HandlerCallback.FileStoreRequestCallback.PurgeIncompleteFiles | dxlfiletransferservice/requesthandlers.py:60-68 | The loop over the markers ends in the purged state. |
| HandlerCallback.FileStoreRequestCallback.WriteFileSegment | dxlfiletransferservice/requesthandlers.py:70-78 | The in-place append matches `Storage.WriteSegment`. |
| HandlerCallback.FileStoreRequestCallback.GetFileEntry | dxlfiletransferservice/requesthandlers.py:101-126 | The in-place lookup or creation matches `HandlerModel.GetFileEntry`. |
| HandlerCallback.FileStoreRequestCallback.CompleteFile | dxlfiletransferservice/requesthandlers.py:128-167 | The in-place completion matches `Storage.Finish`, with the entry kept. |
| HandlerCallback.FileStoreRequestCallback.ProcessSegment | dxlfiletransferservice/requesthandlers.py:169-194 | The in-place processing, building the response dictionary key by key, matches `HandlerModel.ProcessSegment`. |
| HandlerCallback.FileStoreRequestCallback.OnRequest | dxlfiletransferservice/requesthandlers.py:196-236 | The checks in their order, then lookup or creation and processing, match `HandlerModel.OnRequest` and keep the invariant. |

## Left out

- Concurrency: `threading.RLock` is dropped and requests are handled one at a time.
- Hash algorithms: SHA-256 and MD5 are an injected `digest` of the bytes fed so far. The model does not compute them.
- Id generation: `uuid.uuid4()` is a parameter of each request.
- The real filesystem. Directories and files are maps and markers are a set, so these are not modelled:
  - paths that contain separators or `..`;
  - a file id equal to `.workdir`;
  - an empty file name, which joins to the directory itself;
  - a directory path that is a plain file;
  - permission and disk errors.
- The work directory is created by each constructor if it is missing. That step is not modelled.
- Python's `int()`: only ASCII decimal text with an optional sign is modelled. Python also accepts surrounding whitespace (`" 5"`), underscores between digits (`"1_0"`) and non-ASCII decimal digits (`"٣"`); the model rejects these. Floats, booleans and other types are not modelled.
- Type errors: `int(None)` (a TypeError) and a rejected string (a ValueError) both become the same failure, `NotAnInt`.
- A non-string value in `file_id`, `name`, `result` or the hash field is not modelled. Those fields are optional strings.
- The model follows Python 3 comparison semantics. In `store.py`, an absent segment number that gets past the checks fails at `None > 1` (`SegmentNumberMissing`). Python 2 would take the create branch instead.
- Transport in `on_request`: building and sending `Response`/`ErrorResponse` is not modelled. The outcome is the response dictionary or the failure reason.
- Logging and the texts of error messages are not modelled. This includes the request callback's integrity message, which mixes `%s` with `.format` and so never shows the id.
- `dxlfiletransferservice/app.py` (bootstrap, configuration, registration) and `dxlfiletransferservice/constants.py` are not part of this model. Their key names are the constants in `Wire`.
- The sample programs and `tests/test_samples.py` are networked clients and are not part of this model.
- StoreModel.CompleteFile: its own contract states when the entry leaves the registry, the marker and the frame. What store and cancel do to the file is the `Storage.Finish` contract it builds on, and `StoreProperties.StoreFinalisation` and `StoreProperties.CancelTransfer`.
- HandlerModel.ProcessSegment: its own contract does not state the new file and hash input. Those are stated by `HandlerProperties.OrdinarySegment`, `HandlerProperties.StoreCompletion` and `HandlerProperties.CancelTransfer`.
- StoreModel.StoreSegment: its own contract states the check failures, the answered id and the frame. What each kind of request does is stated by `StoreProperties.SequencingRule`, `StoreProperties.OrdinarySegment`, `StoreProperties.StoreFinalisation`, `StoreProperties.CancelTransfer`, `StoreProperties.FirstSegmentCompletes`, `StoreProperties.SuppliedIdAccepted`, `StoreProperties.UnknownIdChangesNothing`, `StoreProperties.ZeroCountTransferStuck`, `StoreProperties.StoredFileIntact` and `StoreProperties.StoreSegmentKeepsInvariant`.
- HandlerModel.OnRequest: its own contract states the check failures, that no entry is removed, the answered id and the frame. What each kind of request does is stated by `HandlerProperties.SequencingRule`, `HandlerProperties.FirstSegment`, `HandlerProperties.FirstSegmentStores`, `HandlerProperties.OrdinarySegment`, `HandlerProperties.StoreCompletion`, `HandlerProperties.CancelTransfer`, `HandlerProperties.UnknownIdChangesNothing`, `HandlerProperties.StoredFileIntact` and `HandlerProperties.OnRequestKeepsInvariant`.
