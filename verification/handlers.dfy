/**
 * The file endpoints as decision procedures: which checks run in which order,
 * which side effects (blob upload, replication, blob delete) happen, and what
 * the caller gets back. The blob store and the replication layer are not
 * modelled; each call to them is a parameter saying whether it succeeded.
 * A successful replication has applied the operation to the local store.
 */
module Handlers {
  import opened Wrappers
  import opened Models
  import opened Store
  import Files
  import FilesProofs
  import StateMachine
  import Text

  /** Why replication failed. */
  datatype ReplicationError = NotLeader | NoQuorum | OtherFailure(message: string)

  /** The errors the endpoints answer with, each with its message. */
  datatype ApiError =
    | BadRequest(message: string)
    | NotFound(message: string)
    | Conflict(message: string)
    | PayloadTooLarge(message: string)
    | Internal(message: string)
    | ReplicationFailed(cause: ReplicationError)

  /** A side effect outside the metadata store, in the order the handler causes it. */
  datatype Effect = PutBlob(id: Id) | Replicate(op: WriteOp) | DeleteBlob(id: Id)

  /** What a handler returns, what it did, and the local store afterwards. */
  datatype Reply<T> = Reply(result: Result<T, ApiError>, effects: seq<Effect>, store: Store)

  /** The conflict message for a permalink already in use. */
  function InUse(permalink: string): string {
    "permalink '" + permalink + "' is already in use"
  }

  // ---------------------------------------------------------------------------
  // create
  // ---------------------------------------------------------------------------

  /** The `file` part of an upload: its size, and the file name and content type the client sent. */
  datatype Upload = Upload(size: nat, fileName: Option<string>, contentType: Option<string>)

  /** The parsed multipart form of an upload. */
  datatype CreateForm = CreateForm(
    file: Option<Upload>,
    permalink: Option<string>,
    name: Option<string>,
    alt: Option<string>,
    description: Option<string>,
    metadata: Option<Metadata>,
    subjectId: Option<string>
  )

  const OctetStream: string := "application/octet-stream"

  /**
   * The MIME type of an upload: the declared content type unless it is missing
   * or the generic octet stream, else the guess from the file name, else the
   * generic octet stream. `guess` stands for the extension lookup table.
   */
  function SelectMime(contentType: Option<string>, fileName: Option<string>, guess: string -> Option<string>): (m: string)
    ensures contentType.Some? && contentType.value != OctetStream ==> m == contentType.value
    ensures m == OctetStream || m == contentType.GetOr(OctetStream) ||
            (fileName.Some? && guess(fileName.value) == Some(m))
    ensures (contentType.None? || contentType == Some(OctetStream)) && fileName.Some? && guess(fileName.value).Some? ==>
      m == guess(fileName.value).value
    ensures (contentType.None? || contentType == Some(OctetStream)) && (fileName.None? || guess(fileName.value).None?) ==>
      m == OctetStream
  {
    if contentType.Some? && contentType.value != OctetStream then contentType.value
    else if fileName.Some? && guess(fileName.value).Some? then guess(fileName.value).value
    else OctetStream
  }

  /**
   * A declared specific content type, or a missing file name, leaves nothing
   * for the extension table to decide: any two tables give the same type.
   */
  lemma SelectMimeIgnoresGuess(contentType: Option<string>, fileName: Option<string>, g: string -> Option<string>, h: string -> Option<string>)
    requires (contentType.Some? && contentType.value != OctetStream) || fileName.None?
    ensures SelectMime(contentType, fileName, g) == SelectMime(contentType, fileName, h)
    ensures FromMime(SelectMime(contentType, fileName, g)) == FromMime(SelectMime(contentType, fileName, h))
  {
  }

  /** The checks of an upload that come before any side effect, in order; `Pass` lets it proceed. */
  function CheckCreate(s: Store, form: CreateForm, maxUploadSize: U64): (r: Outcome<ApiError>)
    ensures r == Pass <==>
      && form.file.Some? && form.file.value.size <= maxUploadSize
      && form.permalink.Some? && Text.Trim(form.permalink.value) != []
      && !Files.PermalinkExists(s, form.permalink.value)
    ensures form.file.None? ==> r.Fail? && r.error == BadRequest("file field is required")
    ensures form.file.Some? && form.permalink.Some? && Text.IsBlank(form.permalink.value) &&
            form.file.value.size <= maxUploadSize ==>
      r == Fail(BadRequest("permalink must not be empty"))
    ensures form.file.Some? && form.file.value.size > maxUploadSize ==>
      r == Fail(PayloadTooLarge("File exceeds maximum upload size of " + Text.Decimal(maxUploadSize) + " bytes"))
    ensures form.file.Some? && form.file.value.size <= maxUploadSize && form.permalink.None? ==>
      r == Fail(BadRequest("permalink field is required"))
    ensures form.file.Some? && form.file.value.size <= maxUploadSize && form.permalink.Some? &&
            Text.Trim(form.permalink.value) != [] && Files.PermalinkExists(s, form.permalink.value) ==>
      r == Fail(Conflict(InUse(form.permalink.value)))
  {
    if form.file.Some? && form.file.value.size > maxUploadSize then
      Fail(PayloadTooLarge("File exceeds maximum upload size of " + Text.Decimal(maxUploadSize) + " bytes"))
    else if form.file.None? then Fail(BadRequest("file field is required"))
    else if form.permalink.None? then Fail(BadRequest("permalink field is required"))
    else if Text.Trim(form.permalink.value) == [] then Fail(BadRequest("permalink must not be empty"))
    else if Files.PermalinkExists(s, form.permalink.value) then Fail(Conflict(InUse(form.permalink.value)))
    else Pass
  }

  /** The record an accepted upload creates: new id, both timestamps `now`, type from the MIME type. */
  function NewRecord(form: CreateForm, maxUploadSize: U64, guess: string -> Option<string>, id: Id, now: Timestamp): (f: FileRecord)
    requires form.file.Some? && form.file.value.size <= maxUploadSize && form.permalink.Some?
    ensures f.id == id && f.permalink == form.permalink.value
    ensures f.createdAt == now && f.updatedAt == now
    ensures f.byteSize == form.file.value.size
    ensures f.mimeType == SelectMime(form.file.value.contentType, form.file.value.fileName, guess)
    ensures f.fileType == FromMime(f.mimeType)
    ensures f.subjectId == form.subjectId && f.name == form.name && f.alt == form.alt
    ensures f.description == form.description && f.metadata == form.metadata
  {
    var upload := form.file.value;
    var mime := SelectMime(upload.contentType, upload.fileName, guess);
    FileRecord(id, mime, FromMime(mime), upload.size, form.permalink.value, now, now,
               form.alt, form.description, form.metadata, form.name, form.subjectId)
  }

  /**
   * `create_file`: validate, upload the blob under a fresh id, then replicate
   * the new record; when replication fails, delete the blob again and report
   * the replication error. `blobPut` is the upload's outcome.
   */
  function HandleCreate(
    s: Store, form: CreateForm, maxUploadSize: U64, guess: string -> Option<string>,
    id: Id, now: Timestamp, blobPut: Outcome<string>, replication: Outcome<ReplicationError>
  ): (r: Reply<FileRecord>)
    ensures CheckCreate(s, form, maxUploadSize).Fail? <==> r.effects == []
    ensures CheckCreate(s, form, maxUploadSize).Fail? ==>
      r.result == Err(CheckCreate(s, form, maxUploadSize).error) && r.store == s
    ensures r.effects != [] ==> r.effects[0] == PutBlob(id)
    ensures r.effects != [] && blobPut.Fail? ==>
      r.effects == [PutBlob(id)] && r.result == Err(Internal("Failed to store file: " + blobPut.error))
    ensures (exists op :: Replicate(op) in r.effects) ==> blobPut == Pass && r.effects[0] == PutBlob(id)
    ensures DeleteBlob(id) in r.effects <==> r.effects != [] && blobPut == Pass && replication.Fail?
    ensures r.result.Err? ==> r.store == s
    ensures r.result.Ok? ==>
      && r.result.value.createdAt == r.result.value.updatedAt == now
      && r.result.value.id == id
      && r.effects == [PutBlob(id), Replicate(CreateFile(r.result.value))]
      && r.store == Files.PutFile(s, r.result.value)
    ensures r.result.Ok? ==>
      CheckCreate(s, form, maxUploadSize) == Pass && r.result.value == NewRecord(form, maxUploadSize, guess, id, now)
    ensures CheckCreate(s, form, maxUploadSize) == Pass && blobPut == Pass && replication.Fail? ==>
      && r.effects == [PutBlob(id), Replicate(CreateFile(NewRecord(form, maxUploadSize, guess, id, now))), DeleteBlob(id)]
      && r.result == Err(ReplicationFailed(replication.error))
  {
    match CheckCreate(s, form, maxUploadSize)
    case Fail(e) => Reply(Err(e), [], s)
    case Pass =>
      var f := NewRecord(form, maxUploadSize, guess, id, now);
      var op := CreateFile(f);
      match blobPut
      case Fail(msg) => Reply(Err(Internal("Failed to store file: " + msg)), [PutBlob(id)], s)
      case Pass =>
        match replication
        case Fail(e) => Reply(Err(ReplicationFailed(e)), [PutBlob(id), Replicate(op), DeleteBlob(id)], s)
        case Pass => Reply(Ok(f), [PutBlob(id), Replicate(op)], StateMachine.Apply(s, op, now))
  }

  /**
   * A create succeeds exactly when the checks, the upload and replication all
   * succeed; a failed replication is answered with its cause.
   */
  lemma CreateOutcome(
    s: Store, form: CreateForm, maxUploadSize: U64, guess: string -> Option<string>,
    id: Id, now: Timestamp, blobPut: Outcome<string>, replication: Outcome<ReplicationError>)
    ensures var r := HandleCreate(s, form, maxUploadSize, guess, id, now, blobPut, replication);
      && (r.result.Ok? <==> CheckCreate(s, form, maxUploadSize) == Pass && blobPut == Pass && replication == Pass)
      && (CheckCreate(s, form, maxUploadSize) == Pass && blobPut == Pass && replication.Fail? ==>
            r.result == Err(ReplicationFailed(replication.error)))
  {
  }

  /** A successful create in a consistent store, under an id not yet used, leaves it consistent and finds the record by permalink. */
  lemma CreatePreservesConsistent(
    s: Store, form: CreateForm, maxUploadSize: U64, guess: string -> Option<string>,
    id: Id, now: Timestamp, blobPut: Outcome<string>, replication: Outcome<ReplicationError>)
    requires Consistent(s) && id !in s.files
    ensures var r := HandleCreate(s, form, maxUploadSize, guess, id, now, blobPut, replication);
      && Consistent(r.store)
      && (r.result.Ok? ==> Files.GetFileByPermalink(r.store, form.permalink.value) == Some(r.result.value))
  {
    var r := HandleCreate(s, form, maxUploadSize, guess, id, now, blobPut, replication);
    if r.result.Ok? {
      FilesProofs.PutPreservesConsistent(s, r.result.value);
    }
  }

  // ---------------------------------------------------------------------------
  // update
  // ---------------------------------------------------------------------------

  /** An update request names no field at all. */
  predicate EmptyUpdate(req: Files.Changes) {
    && req.alt.None? && req.description.None? && req.metadata.None?
    && req.name.None? && req.permalink.None? && req.subjectId.None?
  }

  /** The operation an update request is replicated as: every field through `Patch::from`. */
  function UpdateOp(id: Id, req: Files.Changes): (op: WriteOp)
    ensures op.UpdateFile? && op.id == id && StateMachine.ChangesOf(op) == req
  {
    AsOptionPatchFrom(req.alt);
    AsOptionPatchFrom(req.description);
    AsOptionPatchFrom(req.metadata);
    AsOptionPatchFrom(req.name);
    AsOptionPatchFrom(req.subjectId);
    UpdateFile(id, PatchFrom(req.alt), PatchFrom(req.description), PatchFrom(req.metadata),
               PatchFrom(req.name), req.permalink, PatchFrom(req.subjectId))
  }

  /** The checks of an update request, in order; `Pass` lets it be replicated. */
  function CheckUpdate(s: Store, id: Id, req: Files.Changes): (r: Outcome<ApiError>)
    ensures EmptyUpdate(req) ==> r.Fail? && r.error.BadRequest?
    ensures EmptyUpdate(req) ==>
      r == Fail(BadRequest("at least one field (alt, description, metadata, name, permalink, subject_id) must be provided"))
    ensures !EmptyUpdate(req) && id in s.files && req.permalink.Some? && Text.IsBlank(req.permalink.value) ==>
      r == Fail(BadRequest("permalink must not be empty"))
    ensures !EmptyUpdate(req) && id !in s.files ==> r == Fail(NotFound("File not found"))
    ensures r == Pass <==>
      && !EmptyUpdate(req) && id in s.files
      && (req.permalink.Some? ==> Text.Trim(req.permalink.value) != [] && FilesProofs.PermalinkFree(s, id, req))
    ensures !EmptyUpdate(req) && id in s.files && req.permalink.Some? && Text.Trim(req.permalink.value) != [] ==>
      (r == Fail(Conflict(InUse(req.permalink.value))) <==>
         req.permalink.value != s.files[id].permalink && Files.PermalinkExists(s, req.permalink.value))
  {
    if EmptyUpdate(req) then
      Fail(BadRequest("at least one field (alt, description, metadata, name, permalink, subject_id) must be provided"))
    else if id !in s.files then Fail(NotFound("File not found"))
    else if req.permalink.Some? && Text.Trim(req.permalink.value) == [] then
      Fail(BadRequest("permalink must not be empty"))
    else if req.permalink.Some? && req.permalink.value != s.files[id].permalink
         && Files.PermalinkExists(s, req.permalink.value) then
      Fail(Conflict(InUse(req.permalink.value)))
    else Pass
  }

  /**
   * `update_file`: validate, replicate the patch (applied at the replica's
   * clock `applied`), then read the record back.
   */
  function HandleUpdate(
    s: Store, id: Id, req: Files.Changes, replication: Outcome<ReplicationError>, applied: Timestamp
  ): (r: Reply<FileRecord>)
    ensures CheckUpdate(s, id, req).Fail? <==> r.effects == []
    ensures CheckUpdate(s, id, req).Fail? ==> r.result == Err(CheckUpdate(s, id, req).error) && r.store == s
    ensures r.effects != [] ==> r.effects == [Replicate(UpdateOp(id, req))]
    ensures r.result.Err? ==> r.store == s
    ensures r.result.Ok? <==> CheckUpdate(s, id, req) == Pass && replication == Pass
    ensures CheckUpdate(s, id, req) == Pass && replication.Fail? ==>
      r.result == Err(ReplicationFailed(replication.error))
    ensures r.result.Ok? ==>
      && r.store == Files.UpdateFile(s, id, req, applied).0
      && r.result.value == Files.Patched(s.files[id], req, applied)
  {
    match CheckUpdate(s, id, req)
    case Fail(e) => Reply(Err(e), [], s)
    case Pass =>
      var op := UpdateOp(id, req);
      match replication
      case Fail(e) => Reply(Err(ReplicationFailed(e)), [Replicate(op)], s)
      case Pass =>
        var t := StateMachine.Apply(s, op, applied);
        match Files.GetFile(t, id)
        case None => Reply(Err(Internal("File not found after update")), [Replicate(op)], s)
        case Some(f) => Reply(Ok(f), [Replicate(op)], t)
  }

  /** Every update the handler lets through keeps a consistent store consistent. */
  lemma UpdatePreservesConsistent(
    s: Store, id: Id, req: Files.Changes, replication: Outcome<ReplicationError>, applied: Timestamp)
    requires Consistent(s)
    ensures Consistent(HandleUpdate(s, id, req, replication, applied).store)
  {
    if CheckUpdate(s, id, req) == Pass {
      FilesProofs.UpdatePreservesConsistent(s, id, req, applied);
    }
  }

  // ---------------------------------------------------------------------------
  // delete
  // ---------------------------------------------------------------------------

  /**
   * `delete_file`: a missing record is not found; otherwise replicate the
   * delete, then delete the blob. The blob delete's outcome `blobDeleted` is
   * only logged and never changes the answer.
   */
  function HandleDelete(
    s: Store, id: Id, replication: Outcome<ReplicationError>, blobDeleted: bool
  ): (r: Reply<()>)
    ensures id !in s.files ==> r == Reply(Err(NotFound("File not found")), [], s)
    ensures id in s.files && replication.Fail? ==>
      r == Reply(Err(ReplicationFailed(replication.error)), [Replicate(DeleteFile(id))], s)
    ensures DeleteBlob(id) in r.effects <==> r.result.Ok?
    ensures r.result.Ok? <==> id in s.files && replication == Pass
    ensures r.result.Ok? ==>
      r.effects == [Replicate(DeleteFile(id)), DeleteBlob(id)] && r.store == Files.DeleteFile(s, id).0
  {
    if id !in s.files then Reply(Err(NotFound("File not found")), [], s)
    else
      var op := DeleteFile(id);
      match replication
      case Fail(e) => Reply(Err(ReplicationFailed(e)), [Replicate(op)], s)
      case Pass =>
        var t := StateMachine.Apply(s, op, 0);
        Reply(Ok(()), [Replicate(op), DeleteBlob(id)], t)
  }

  // ---------------------------------------------------------------------------
  // list
  // ---------------------------------------------------------------------------

  /** Rust's `u32`. */
  type U32 = n: int | 0 <= n < 0x1_0000_0000

  /** The default page size. */
  const DefaultLimit: U32 := 20

  /** The query of a listing request. */
  datatype ListParams = ListParams(limit: U32, offset: U32, fileType: Option<string>, subjectId: Option<string>)

  /** The query as deserialized: a missing limit is the default page size, a missing offset is zero. */
  function ParamsFrom(limit: Option<U32>, offset: Option<U32>, fileType: Option<string>, subjectId: Option<string>): (p: ListParams)
  {
    ListParams(limit.GetOr(DefaultLimit), offset.GetOr(0), fileType, subjectId)
  }

  /** One page of a listing and the pagination block sent with it. */
  datatype Page = Page(items: seq<FileRecord>, limit: U32, offset: U32, total: nat)

  /** `skip(offset).take(limit)`. */
  function Window<T>(xs: seq<T>, offset: nat, limit: nat): (r: seq<T>)
    ensures |r| == if offset >= |xs| then 0 else if |xs| - offset < limit then |xs| - offset else limit
    ensures forall i :: 0 <= i < |r| ==> r[i] == xs[offset + i]
  {
    if offset >= |xs| then []
    else if |xs| - offset < limit then xs[offset..]
    else xs[offset..offset + limit]
  }

  /** Two consecutive pages together are one page of twice the size. */
  lemma ConsecutivePages<T>(xs: seq<T>, offset: nat, limit: nat)
    ensures Window(xs, offset, limit) + Window(xs, offset + limit, limit) == Window(xs, offset, 2 * limit)
  {
    var a := Window(xs, offset, limit);
    var b := Window(xs, offset + limit, limit);
    var c := Window(xs, offset, 2 * limit);
    assert |a + b| == |c|;
    forall i | 0 <= i < |c|
      ensures (a + b)[i] == c[i]
    {
      if i >= |a| {
        assert (a + b)[i] == b[i - |a|];
      }
    }
  }

  /**
   * `list_files`: a zero limit is refused; otherwise the filtered listing, its
   * full length as the total, and the requested window of it as the items.
   */
  function HandleList(s: Store, params: ListParams): (r: Result<Page, ApiError>)
    ensures params.limit == 0 <==> r == Err(BadRequest("limit must be greater than 0"))
    ensures r.Ok? ==>
      var all := Files.ListFiles(s, params.fileType, params.subjectId);
      && r.value.total == |all|
      && r.value.limit == params.limit && r.value.offset == params.offset
      && |r.value.items| <= params.limit
      && |r.value.items| == (if params.offset >= |all| then 0
                             else if |all| - params.offset < params.limit then |all| - params.offset
                             else params.limit)
      && forall i :: 0 <= i < |r.value.items| ==> r.value.items[i] == all[params.offset + i]
  {
    if params.limit == 0 then Err(BadRequest("limit must be greater than 0"))
    else
      var all := Files.ListFiles(s, params.fileType, params.subjectId);
      Ok(Page(Window(all, params.offset, params.limit), params.limit, params.offset, |all|))
  }

  /**
   * A request with neither a limit nor an offset is answered with the first
   * `DefaultLimit` records of the listing, or all of them when there are fewer.
   */
  lemma DefaultPage(s: Store, fileType: Option<string>, subjectId: Option<string>)
    ensures var r := HandleList(s, ParamsFrom(None, None, fileType, subjectId));
      var all := Files.ListFiles(s, fileType, subjectId);
      && r.Ok? && r.value.limit == 20 && r.value.offset == 0 && r.value.total == |all|
      && r.value.items == all[..if |all| < 20 then |all| else 20]
  {
    var params := ParamsFrom(None, None, fileType, subjectId);
    assert params == ListParams(20, 0, fileType, subjectId);
    var r := HandleList(s, params);
    var all := Files.ListFiles(s, fileType, subjectId);
    assert r.value.items == all[..|r.value.items|];
  }

  /** Every element of a window is an element of the whole sequence. */
  lemma WindowWithin<T>(xs: seq<T>, offset: nat, limit: nat)
    ensures forall x :: x in Window(xs, offset, limit) ==> x in xs
  {
    var w := Window(xs, offset, limit);
    forall x | x in w
      ensures x in xs
    {
      var i :| 0 <= i < |w| && w[i] == x;
      assert x == xs[offset + i];
    }
  }

  /** Every item of a page of a consistent store matches the request's filters. */
  lemma PageMatchesFilters(s: Store, params: ListParams)
    requires Consistent(s) && params.limit > 0
    ensures var page := HandleList(s, params).value;
      forall f :: f in page.items ==>
        && f in s.files.Values
        && (params.subjectId.None? || f.subjectId == params.subjectId)
        && (params.fileType.None? || TypeName(f.fileType) == params.fileType.value)
  {
    var all := Files.ListFiles(s, params.fileType, params.subjectId);
    FilesProofs.ListingMatchesFilters(s, params.fileType, params.subjectId);
    WindowWithin(all, params.offset, params.limit);
    assert HandleList(s, params).value.items == Window(all, params.offset, params.limit);
  }
}
