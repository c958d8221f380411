# file-manager metadata core in Dafny

file-manager keeps uploaded files' bytes in an object store (local disk or a
cloud bucket). It keeps each file's metadata record in an embedded key-value
database that a consensus layer replicates across a cluster. This project
models the metadata side and proves properties of the model:

- **Records** (`models.dfy`). A record has system fields and optional CMS
  fields. A `FileType` is derived from the MIME type. A write operation
  (`WriteOp`) is replicated to every node. The three-state `Patch`
  distinguishes "leave unchanged", "clear" and "set".
- **The store** (`store.dfy`, `files.dfy`). The store has three tables:
  - records by id;
  - a permalink index mapping a permalink to an id;
  - a subject index mapping a subject id to a duplicate-free list of ids.

  Each repository operation commits one transaction, so each is a pure
  function from the store before to the store after. `Consistent` is the
  invariant that ties the three tables together:
  - every record is stored under its own id;
  - the permalink index is a bijection onto the records' permalinks;
  - each subject lists exactly its records, each once, and never an empty list.

  `files_proofs.dfy` shows which operations keep the invariant and under
  which pre-checks. Two concrete counterexamples show that the pre-checks
  cannot be dropped.
- **The state machine** (`state_machine.dfy`). It covers `apply`, `snapshot`
  and `restore`, replica convergence, and the snapshot-then-restore round
  trip.
- **The HTTP handlers** (`handlers.dfy`) for create, update, delete and list.
  They are modelled as decision procedures: the order of the checks, the
  error each check answers with, the side effects in order (blob upload,
  replication, blob delete), and the store afterwards.
- **Configuration** (`config.dfy`). It covers how environment variables are
  parsed, the peer-list filter, and validation.
- **Helpers.** `text.dfy` models the Rust string operations used above
  (`trim`, `split`, `to_lowercase` on ASCII, decimal `Display`). `key_order.dfy`
  models the byte-wise key order in which the database iterates a table.

The database iterates keys in byte order, which for UTF-8 keys is the same
as code-point order. `GetAllFiles` therefore returns records in id order.
`restore` re-inserts a snapshot's records one by one with the ordinary
`put_file`. One would expect a snapshot restored into an empty store to give
back identical indexes. The code does not quite do that:
- The records table and the permalink index come back identical
  (`StateMachine.SnapshotRestore`).
- Each subject list comes back with the same ids, but in id order rather than
  insertion order (`StateMachine.RestoreReordersSubjectList`).

The model follows the code. Likewise, an update that carries a `subject_id`
field always removes the id from the old subject's list and appends it to the
new one. It does so even when the subject is unchanged, which moves the id to
the end of its list.

## Model

| member | source | states |
|---|---|---|
| Models.DefaultPatch | src/storage/models.rs:8-37 | the default patch is the patch of a missing field (`Patch::from(None)`) and converts to "no change" (`None`) for the repository |
| StateMachine.DefaultUpdateTouchesClock | src/state_machine.rs:37-55 | an update whose fields all decoded to the default patch, with no permalink, changes only the record's update time |
| Models.PatchFrom | src/storage/models.rs:19-27 | `None` becomes `Absent`, `Some(None)` becomes `Null`, `Some(Some(v))` becomes `Value(v)`, each in both directions |
| Models.AsOption | src/storage/models.rs:29-37 | `Absent` gives `None`, `Null` gives `Some(None)`, `Value(v)` gives `Some(Some(v))`, each in both directions |
| Models.PatchFromAsOption | src/storage/models.rs:19-37 | converting a patch to the nested option and back returns the same patch |
| Models.AsOptionPatchFrom | src/storage/models.rs:19-37 | converting a nested option to a patch and back returns the same option |
| Models.FromMimeMedia | src/storage/models.rs:57-62 | a MIME type whose part before the first `/` is `audio`, `image` or `video` classifies as Audio, Image or Video, whatever follows |
| Models.FromMimeText | src/storage/models.rs:63-75 | every `text` MIME type is a Document, whatever its subtype |
| Models.FromMimeApplication | src/storage/models.rs:63-77 | an `application/<sub>` type is a Document exactly when `sub` (up to the next `/`) is one of the nine document subtypes, else Binary |
| Models.FromMimeApplicationBare | src/storage/models.rs:63-77 | a bare `application` with no subtype is Binary |
| Models.FromMimeOther | src/storage/models.rs:57-80 | any other primary type, including the empty one, is Binary |
| Text.Trim | src/api/handlers/files.rs:184 | the trimmed string is empty exactly when the input is all whitespace; otherwise it is a window of the input with non-whitespace ends and only whitespace cut off either side |
| Text.Split | src/storage/models.rs:58 | splitting yields at least one piece and no piece contains the separator |
| Text.JoinSplit | src/config.rs:106 | joining the pieces of a split with the separator gives back the string |
| Text.SplitJoin | src/config.rs:106 | splitting the join of separator-free pieces gives back the pieces |
| KeyOrder.SortedKeys | src/storage/files.rs:285 | the iteration order of a table's keys lists every key exactly once, in strictly increasing byte order |
| Store.Open | src/storage/db.rs:86-101 | a newly created database has three empty tables and is consistent |
| Store.ClearTable | src/storage/db.rs:128-140 | removing every listed key empties a table, and the removal count equals the number of keys it had |
| Store.PurgeAll | src/storage/db.rs:123-175 | purge empties all three tables and reports the number of records removed |
| Store.PurgeTwice | src/storage/db.rs:123-175 | a second purge removes nothing and reports zero files |
| Files.Without | src/storage/files.rs:150 | `retain` removes every occurrence of the id and keeps every other element with its multiplicity; a list without the id is unchanged |
| Files.WithoutAppend | src/storage/files.rs:150 | `retain` keeps order: removing the id from a concatenation concatenates the two results |
| Files.WithoutKeepsDistinct | src/storage/files.rs:150 | removing an id from a duplicate-free list leaves it duplicate-free |
| Files.Unlink | src/storage/files.rs:139-158 | the subject's list becomes the list without the id, in order; the key disappears exactly when that leaves it empty; other subjects are untouched |
| Files.Link | src/storage/files.rs:32-44 | the id ends up listed under the subject; it is appended at the end if new, the map is unchanged if already there; other subjects are untouched |
| Files.MoveSubject | src/storage/files.rs:222-263 | a subject change leaves the old subject's list without the id (dropping the key when that is empty) and appends the id to the new subject's list unless it is there; a change to the same subject moves the id to the end; other subjects keep their lists |
| Files.PutFile | src/storage/files.rs:15-48 | after a put the record is found by id and by permalink; its subject's list gains the id at the end, or is unchanged when it already lists it, or is created as just the id; every other id, permalink entry and subject list keeps its value; nothing is removed |
| Files.DeleteFile | src/storage/files.rs:110-167 | reports true exactly when the id had a record; then removes the record and its permalink entry, leaves its subject's list as the list without the id (dropping the key when that is empty) and every other subject list as it was; an unknown id changes nothing |
| Files.Patched | src/storage/files.rs:195-265 | each CMS field is unchanged when its patch is absent, otherwise takes the new value or none; the permalink changes only when given; the system fields never change; the update time is the clock |
| Files.UpdateFile | src/storage/files.rs:171-277 | reports true exactly when the id had a record; then the record is patched; the new permalink points at the id, the old entry is gone and every other entry keeps its value; with a subject change the old subject's list becomes the list without the id, the new subject's list gains the id at the end (a same-subject change moves it to the end), and every other subject list keeps its value; absent fields leave their index untouched |
| Files.GetFile | src/storage/files.rs:51-62 | a record is returned exactly when the id is stored; under the invariant the record carries that id |
| Files.GetFileByPermalink | src/storage/files.rs:65-85 | a record is returned exactly when the permalink is indexed and its id is stored; in a consistent store exactly when some record has that permalink, and it is that record |
| Files.Resolve | src/storage/files.rs:98-104 | the records of the listed ids, silently skipping ids with no record; when every id is stored, record i is the record of id i |
| Files.ResolveAppend | src/storage/files.rs:98-104 | resolution keeps list order: resolving a concatenation concatenates the resolutions |
| Files.GetFilesBySubject | src/storage/files.rs:88-107 | an unknown subject gives nothing; otherwise the resolution of the subject's list, so exactly the stored records it lists, in list order |
| Files.FileIds | src/storage/files.rs:285 | the records table's keys, each once, in strictly increasing order |
| Files.GetAllFiles | src/storage/files.rs:280-292 | every stored record exactly once, in id order |
| Files.InOrder | src/storage/files.rs:284-289 | reading every key in key order yields exactly the table's records, with strictly increasing ids when records are keyed by their own id |
| Files.FilterByType | src/storage/files.rs:306-316 | keeps exactly the records whose serialized file type equals the filter, and all of them when every record matches |
| Files.FilterByTypeAppend | src/storage/files.rs:306-316 | filtering keeps order: filtering a concatenation concatenates the filtered parts |
| Files.ListFiles | src/storage/files.rs:295-320 | with no filters the full listing, with a subject the subject's listing; with a type, the type filter of that listing, in order; every result is stored and matches the type filter |
| Files.PermalinkExists | src/storage/files.rs:323-327 | in a consistent store a permalink is in use exactly when some record has it |
| FilesProofs.PermalinksDrop | src/storage/files.rs:130-136 | removing a record and its permalink entry keeps the permalink index exact |
| FilesProofs.PermalinksAdd | src/storage/files.rs:24-29 | adding a record under a fresh id with an unused permalink keeps the permalink index exact |
| FilesProofs.SubjectsDrop | src/storage/files.rs:138-159 | removing a record and unlinking it from its subject keeps the subject index exact |
| FilesProofs.SubjectsAdd | src/storage/files.rs:31-44 | adding a record under a fresh id and linking it keeps the subject index exact |
| FilesProofs.SubjectsSame | src/storage/files.rs:222-223 | a record replaced without touching its subject needs no change to the subject index |
| FilesProofs.PutPreservesConsistent | src/storage/files.rs:15-48 | putting a record with an unused id and permalink keeps the store consistent |
| FilesProofs.DeletePreservesConsistent | src/storage/files.rs:110-167 | a delete, of a known or unknown id, keeps the store consistent |
| FilesProofs.UpdatePreservesConsistent | src/storage/files.rs:171-277 | an update keeps the store consistent when the new permalink is the record's own or unused |
| FilesProofs.PutKeepsListsDuplicateFree | src/storage/files.rs:39-43 | a put never lists an id twice under a subject, even when the id is already stored |
| FilesProofs.DeleteLeavesNoTrace | src/storage/files.rs:126-163 | after a delete the id has no record, no permalink points to it, and no subject lists it |
| FilesProofs.PermalinkMove | src/storage/files.rs:209-221 | moving to a free permalink: the old permalink stops resolving and the new one resolves to the updated record |
| FilesProofs.SubjectMove | src/storage/files.rs:223-263 | a subject change removes the id from the old subject (dropping the key when it empties) and lists it exactly once under the new one |
| FilesProofs.SubjectListing | src/storage/files.rs:88-107 | in a consistent store a subject's listing is exactly the records with that subject, one per listed id |
| FilesProofs.ListingMatchesFilters | src/storage/files.rs:295-320 | in a consistent store a listing holds exactly the records matching both filters, whichever table the subject filter reads |
| FilesProofs.PutOverwriteLeavesStalePermalink | src/storage/files.rs:26-29 | putting a stored id again with a new permalink leaves the old permalink pointing at it, breaking the invariant |
| FilesProofs.UpdateStealsPermalink | src/storage/files.rs:209-220 | updating a record to another record's permalink takes the index entry from its owner, breaking the invariant |
| StateMachine.Apply | src/state_machine.rs:29-58 | a create is a put, a delete is a delete, an update is the repository update with every patch converted by `as_option`; a delete or update of an unknown id changes nothing; an absent permalink or subject leaves that index untouched |
| StateMachine.ApplyUpdateFields | src/state_machine.rs:37-55 | an applied update sets each CMS field as its patch says, keeps the permalink unless one is given, and keeps the system fields |
| StateMachine.ApplyPreservesConsistent | src/state_machine.rs:29-58 | applying any operation the handlers admit keeps the store consistent |
| StateMachine.ApplyAgreesUpToClock | src/state_machine.rs:29-58 | two replicas that agree except for update times still agree after the same operation, whatever their clocks read |
| StateMachine.ReplicasConverge | src/state_machine.rs:25-58 | replicas that start alike and apply the same log end alike, up to update times |
| StateMachine.Snapshot | src/state_machine.rs:60-63 | the snapshot holds every stored record exactly once, with distinct ids |
| StateMachine.PutAllRecords | src/state_machine.rs:65-73 | replaying records with distinct ids stores each under its id, keeps the other records, and adds no other id |
| StateMachine.PutAllPreservesConsistent | src/state_machine.rs:65-73 | replaying records with fresh, pairwise distinct ids and permalinks keeps the store consistent |
| StateMachine.SnapshotOfConsistent | src/state_machine.rs:60-63 | a consistent store's snapshot has pairwise distinct ids and permalinks and lists each record under its own id |
| StateMachine.SnapshotRestore | src/state_machine.rs:60-73 | restoring a snapshot into an empty store gives a consistent store with the same records, the same permalink index and the same subject memberships |
| StateMachine.RestoreReorders | src/state_machine.rs:65-73 | two records of one subject put in descending id order come back from a snapshot listed in ascending id order |
| StateMachine.RestoreReordersSubjectList | src/state_machine.rs:65-73 | a concrete store whose subject list `["b","a"]` is restored as `["a","b"]` |
| Handlers.SelectMime | src/api/handlers/files.rs:199-208 | a declared content type other than the octet stream wins; otherwise the file-name guess when there is one; otherwise, with no file name or no guess, the octet stream |
| Handlers.SelectMimeIgnoresGuess | src/api/handlers/files.rs:199-208 | with a declared specific type or no file name, the extension table cannot change the type or the file type derived from it |
| Handlers.CheckCreate | src/api/handlers/files.rs:112-197 | an upload proceeds exactly when it has a file within the size limit and a non-blank permalink nobody uses; an oversized file is too large, with the limit in the message, before anything else; then a missing file, a missing permalink and a blank permalink are bad requests and a used permalink is a conflict, each with its own message |
| Handlers.NewRecord | src/api/handlers/files.rs:199-236 | the new record has the fresh id, the form's permalink and CMS fields, the upload's size, the MIME type chosen from the upload's content type and file name, the file type derived from that MIME type, and both timestamps equal to now |
| Handlers.HandleCreate | src/api/handlers/files.rs:180-247 | a failed check has no side effect; otherwise the blob is uploaded first; replication happens only after a successful upload; a failed replication replicates the record built from the form, then deletes the blob and answers with the replication's cause; success answers that record and stores it via put |
| Handlers.CreateOutcome | src/api/handlers/files.rs:215-243 | a create succeeds exactly when the checks, the upload and replication all succeed; a failed replication is answered with its cause |
| Handlers.CreatePreservesConsistent | src/api/handlers/files.rs:188-243 | a create under an unused id keeps the store consistent and makes the new record reachable by its permalink |
| Handlers.UpdateOp | src/api/handlers/files.rs:305-313 | the replicated operation carries the request's fields so that `apply` hands exactly the request to the repository |
| Handlers.CheckUpdate | src/api/handlers/files.rs:268-303 | an empty request is refused with the "at least one field" message, then an unknown id is not found, then a blank permalink is a bad request; it proceeds exactly when the permalink, if given, is non-blank and is the record's own or unused, else the permalink is a conflict |
| Handlers.HandleUpdate | src/api/handlers/files.rs:263-328 | a failed check has no side effect; it succeeds exactly when the checks and replication succeed, and a failed replication is answered with its cause; on success the store is the repository update and the answer is the patched record |
| Handlers.UpdatePreservesConsistent | src/api/handlers/files.rs:288-318 | every update the handler lets through keeps a consistent store consistent |
| Handlers.HandleDelete | src/api/handlers/files.rs:330-356 | an unknown id is not found without side effects; it succeeds exactly when replication succeeds, and only then deletes the blob; every part of the reply is fixed without reference to the blob delete's outcome |
| Handlers.DefaultPage | src/api/handlers/files.rs:52-66 | a listing request with no limit and no offset is answered with the first 20 records of the listing, or all of them when there are fewer |
| Handlers.Window | src/api/handlers/files.rs:372-377 | skip-then-take yields the elements from the offset on, at most the limit of them |
| Handlers.ConsecutivePages | src/api/handlers/files.rs:372-377 | two consecutive pages of one size together are the page of twice that size |
| Handlers.HandleList | src/api/handlers/files.rs:358-390 | a zero limit is refused, and only a zero limit; otherwise the total counts the whole filtered listing and the items are its requested window |
| Handlers.PageMatchesFilters | src/api/handlers/files.rs:366-377 | every item of a page is a stored record matching the request's filters |
| Config.KeepPeers | src/config.rs:108-109 | keeps exactly the non-empty entries that do not name this node, bare or with a port, and every entry when all qualify |
| Config.KeepPeersAppend | src/config.rs:108-110 | the filter keeps order and repeats: filtering a concatenation concatenates the filtered parts |
| Config.TrimmedPiecesShape | src/config.rs:106-107 | no trimmed piece holds a comma, and a non-empty one has non-whitespace ends |
| Config.ParsePeers | src/config.rs:104-112 | the peers are the trimmed pieces filtered in order, repeats kept; a peer is exactly a non-blank trimmed piece not naming this node; no peer holds a comma or has whitespace at either end |
| Config.ParseBackend | src/config.rs:134-141 | an unset backend is Local |
| Config.BackendIsGcs | src/config.rs:134-141 | the backend is Gcs exactly for `gcs` in any letter case |
| Config.TestModeCaseSensitive | src/config.rs:125-127 | test mode is decided case-sensitively: a value differing from `true` or `1` only in letter case leaves it off |
| Config.ParseUnsigned | src/config.rs:115-132 | a number parses exactly when, after an optional `+`, it is a non-empty digit string whose value is below the type's bound, and then its value is that of the digits |
| Config.DecimalValue | src/config.rs:129-132 | a number's decimal rendering is a non-empty digit string whose value is the number |
| Config.ParseDecimal | src/config.rs:129-132 | parsing a number's decimal rendering gives the number back |
| Config.ParseSigns | src/config.rs:115-132 | a leading `+` is accepted, a leading `-` never is, and a number at or over the bound does not parse |
| Config.NumberOr | src/config.rs:115-132 | a numeric setting is within its type's range; it is the parsed value when the text parses, and the default when unset or when it does not parse, overflow included |
| Config.LoadPortOverflow | src/config.rs:120-123 | a cluster port of 70000 is out of the 16-bit range, so the node uses port 9993 |
| Config.FromEnv | src/config.rs:96-172 | the assembled configuration: each setting is its variable or its default, each number goes through the fallback parse, the peers are the parsed `PEERS` list (none when unset) with no entry naming the node, and test mode is on exactly when `TEST_MODE` is `true` or `1` |
| Config.Load | src/config.rs:96-176 | loading succeeds exactly when the node id is non-empty and a Gcs backend has `GCS_BUCKET` set, and then gives the assembled configuration; otherwise the empty-id error, or else the missing-bucket error |
| Config.Validate | src/config.rs:178-202 | validation passes exactly when the node id is non-empty and the Gcs backend has a bucket; an empty id gives its own message |
| Config.ValidateIgnoresPeers | src/config.rs:192-201 | the peer count, and so the even-size warning, never decides validation |
| Config.NoPeers | src/config.rs:104-112 | the peer list is empty exactly when every trimmed piece is empty or names this node |
| Config.LoadSingleNode | src/config.rs:96-207 | a loaded node is single-node exactly when `DISCOVERY_DNS_NAME` is unset and every trimmed `PEERS` piece, if the variable is set, is empty or names this node |
| Config.LoadNodeId | src/config.rs:96-183 | an unset node id falls back to the fresh id; a set but empty one stops the node with the empty-id error |

## Left out

- Transactions, storage errors and serialization errors are not modelled. Every repository operation is one atomic step that succeeds. The `Result` error paths of redb and MessagePack never arise.
- The MessagePack decoding of a subject list falls back to an empty list when the bytes do not decode (`unwrap_or_default`). This is not modelled: a stored list is always the list written.
- Metadata values are opaque JSON renderings. Their structure is not modelled.
- Timestamps are integers passed in as parameters (`now`, `applied`). The wall clock is not modelled. Likewise, the UUIDs for new records and for an unset `NODE_ID` are parameters (`id`, `freshId`).
- The consensus layer is not modelled, and neither are leader election, log shipping and quorum. A replication call is a parameter saying whether it succeeded and why not. A successful call has applied the operation locally. `replication_error`'s mapping to HTTP status codes is not modelled either: `ReplicationFailed` carries the cause as given.
- A failed replication leaves the local store unchanged in the model. Whether a minority node applied the operation anyway is a property of the consensus layer.
- The race between the permalink pre-check and the replicated commit is outside the model. Two concurrent creates can both pass the check. The handlers read the same store the operation is applied to. `FilesProofs.PutOverwriteLeavesStalePermalink` and `FilesProofs.UpdateStealsPermalink` show what an unchecked operation does to the indexes.
- The object stores (local disk, cloud bucket) are not modelled. A blob upload is an outcome parameter, and so is a blob delete. Only the order of the calls and the compensating delete are modelled.
- HTTP routing, multipart parsing and JSON body parsing are not modelled, so a form is given already parsed. This leaves out:
  - field read errors;
  - malformed metadata JSON;
  - a later `file` field replacing an earlier one;
  - the size check firing before later fields are read.
- `mime_guess`'s extension table is the parameter `guess` of `Handlers.SelectMime`.
- The `get_file` handler is not modelled separately. It is `Files.GetFile` with a not-found error.
- The following are not modelled: the admin and static-file handlers, `main`, `lib` wiring, the test utilities and logging. The even-cluster warning exists only as the predicate `Config.EvenClusterWarning`.
- The `debug_assert!`s in `put_file` require a non-empty id and permalink. They are not preconditions of `Files.PutFile`: release builds do not check them.
- Store.Open: models creating a new database. Opening an existing database file keeps its data, which is not modelled.
- Store.PurgeAll: the file count is an unbounded natural rather than a `u64`. It cannot overflow here, because the count is at most the number of records.
- Config.ParseBackend: uses ASCII lower-casing, while Rust's `to_lowercase` is full Unicode. The two differ only on non-ASCII letters. No non-ASCII letter lower-cases to `g`, `c` or `s`, so the comparison with `gcs` is decided the same way.
- Config.Load: environment variables that are set but not valid Unicode are not modelled. Rust treats them as unset.
- Text.Trim: the whitespace set is Unicode `White_Space`. No other character classes are modelled.
