/**
 * The record model: the tri-state patch used for partial updates, the file-type
 * classification derived from a MIME type, the file record itself and the unit
 * of replication, `WriteOp`.
 */
module Models {
  import opened Wrappers
  import Text

  /** Opaque record identifier (a UUID string in the running service). */
  type Id = string

  /** An instant on the wall clock; the clock itself is a parameter of every operation that reads it. */
  type Timestamp = int

  /** Rust's `u64`. */
  type U64 = n: int | 0 <= n < 0x1_0000_0000_0000_0000

  /** A JSON value, known only by its canonical rendering and compared only for equality. */
  datatype JsonValue = JsonValue(rendering: string)

  /** The free-form `metadata` map of a record. */
  type Metadata = map<string, JsonValue>

  // ---------------------------------------------------------------------------
  // Patch<T>
  // ---------------------------------------------------------------------------

  /** A field of an update: omitted (no change), explicitly cleared, or set. */
  datatype Patch<T> = Absent | Null | Value(value: T)

  /** `Patch::from(Option<Option<T>>)`. */
  function PatchFrom<T>(o: Option<Option<T>>): (p: Patch<T>)
    ensures o.None? <==> p.Absent?
    ensures o == Some(None) <==> p.Null?
    ensures p.Value? <==> o.Some? && o.value.Some?
    ensures p.Value? ==> p.value == o.value.value
  {
    match o
    case None => Absent
    case Some(None) => Null
    case Some(Some(v)) => Value(v)
  }

  /** `Patch::as_option`: the two-level optional the repository's update takes. */
  function AsOption<T>(p: Patch<T>): (o: Option<Option<T>>)
    ensures p.Absent? <==> o.None?
    ensures p.Null? <==> o == Some(None)
    ensures p.Value? <==> o.Some? && o.value.Some?
    ensures p.Value? ==> o.value.value == p.value
  {
    match p
    case Absent => None
    case Null => Some(None)
    case Value(v) => Some(Some(v))
  }

  /** `Patch::is_absent`. */
  predicate IsAbsent<T>(p: Patch<T>) {
    p.Absent?
  }

  /**
   * The `Default` of `Patch`, used when a field is missing from an encoded
   * operation: it is the patch of a missing field and asks for no change.
   */
  function DefaultPatch<T>(): (p: Patch<T>)
    ensures IsAbsent(p)
    ensures p == PatchFrom<T>(None)
    ensures AsOption(p) == None
  {
    Absent
  }

  /** Converting a patch to the two-level optional and back gives the patch. */
  lemma PatchFromAsOption<T>(p: Patch<T>)
    ensures PatchFrom(AsOption(p)) == p
  {
  }

  /** Converting a two-level optional to a patch and back gives the optional. */
  lemma AsOptionPatchFrom<T>(o: Option<Option<T>>)
    ensures AsOption(PatchFrom(o)) == o
  {
  }

  // ---------------------------------------------------------------------------
  // FileType
  // ---------------------------------------------------------------------------

  /** Coarse classification of a blob, derived once from its MIME type. */
  datatype FileType = Audio | Binary | Document | Image | Video

  /** The lower-case name a file type is serialized as, and the name list filters match. */
  function TypeName(t: FileType): string {
    match t
    case Audio => "audio"
    case Binary => "binary"
    case Document => "document"
    case Image => "image"
    case Video => "video"
  }

  /** The subtypes of `application` and `text` classified as documents. */
  const DocumentSubtypes: set<string> := {
    "pdf",
    "msword",
    "rtf",
    "csv",
    "vnd.openxmlformats-officedocument.wordprocessingml.document",
    "vnd.openxmlformats-officedocument.spreadsheetml.sheet",
    "vnd.openxmlformats-officedocument.presentationml.presentation",
    "vnd.ms-excel",
    "vnd.ms-powerpoint"
  }

  /**
   * `FileType::from_mime`: classify by the piece before the first `/` and,
   * for `text` and `application`, by the piece after it (up to the next `/`).
   */
  function FromMime(mime: string): FileType {
    var parts := Text.Split(mime, '/');
    Classify(parts[0], if |parts| > 1 then parts[1] else "")
  }

  /** The decision `FromMime` takes once the primary type and subtype are known. */
  function Classify(primary: string, sub: string): FileType {
    if primary == "audio" then Audio
    else if primary == "image" then Image
    else if primary == "video" then Video
    else if primary == "text" || primary == "application" then
      if sub in DocumentSubtypes then Document
      else if primary == "text" then Document
      else Binary
    else Binary
  }

  /** What may follow a piece of a MIME string: nothing, or the next `/`. */
  predicate PieceEnd(rest: string) {
    rest == [] || rest[0] == '/'
  }

  /** A string without `/` is a single piece. */
  lemma OnePiece(p: string)
    requires '/' !in p
    ensures Text.Split(p, '/') == [p]
  {
    Text.SplitFirst(p, [], '/');
    assert p + [] == p;
  }

  /** The pieces of `p/sub...`: `p` first, then `sub`. */
  lemma TwoPieces(mime: string, p: string, sub: string, rest: string)
    requires mime == p + "/" + sub + rest && '/' !in p && '/' !in sub && PieceEnd(rest)
    ensures var parts := Text.Split(mime, '/'); |parts| > 1 && parts[0] == p && parts[1] == sub
  {
    var tail := "/" + sub + rest;
    assert mime == p + tail;
    assert tail[1..] == sub + rest;
    Text.SplitFirst(p, tail, '/');
    var after := Text.Split(sub + rest, '/');
    assert Text.Split(p + tail, '/') == [p] + after;
    Text.SplitFirst(sub, rest, '/');
    assert after[0] == sub;
  }

  /** The primary type of `mime` is `p`: everything before its first `/`, or all of it. */
  lemma PrimaryOf(mime: string, p: string, rest: string)
    requires mime == p + rest && '/' !in p && PieceEnd(rest)
    ensures Text.Split(mime, '/')[0] == p
  {
    Text.SplitFirst(p, rest, '/');
  }

  /** Audio, image and video are decided by the primary type alone. */
  lemma FromMimeMedia(mime: string, p: string, rest: string)
    requires mime == p + rest && '/' !in p && PieceEnd(rest)
    ensures FromMime(mime) == Audio <==> p == "audio"
    ensures FromMime(mime) == Image <==> p == "image"
    ensures FromMime(mime) == Video <==> p == "video"
  {
    PrimaryOf(mime, p, rest);
  }

  /** Every `text` MIME type, with or without a subtype, is a document. */
  lemma FromMimeText(mime: string, rest: string)
    requires mime == "text" + rest && PieceEnd(rest)
    ensures FromMime(mime) == Document
  {
    PrimaryOf(mime, "text", rest);
  }

  /** An `application` MIME type is a document exactly for the listed subtypes, and binary otherwise. */
  lemma FromMimeApplication(mime: string, sub: string, rest: string)
    requires mime == "application" + "/" + sub + rest && '/' !in sub && PieceEnd(rest)
    ensures FromMime(mime) == (if sub in DocumentSubtypes then Document else Binary)
  {
    TwoPieces(mime, "application", sub, rest);
  }

  /** `application` without a subtype is binary: the missing subtype is the empty string. */
  lemma FromMimeApplicationBare(mime: string)
    requires mime == "application"
    ensures FromMime(mime) == Binary
  {
    OnePiece(mime);
  }

  /** Any other primary type is binary, whatever follows it. */
  lemma FromMimeOther(mime: string, p: string, rest: string)
    requires mime == p + rest && '/' !in p && PieceEnd(rest)
    requires p !in {"audio", "image", "video", "text", "application"}
    ensures FromMime(mime) == Binary
  {
    PrimaryOf(mime, p, rest);
  }

  // ---------------------------------------------------------------------------
  // FileRecord and WriteOp
  // ---------------------------------------------------------------------------

  /** One blob's metadata. `id`, `mimeType`, `fileType`, `byteSize` and `createdAt` are fixed at creation. */
  datatype FileRecord = FileRecord(
    id: Id,
    mimeType: string,
    fileType: FileType,
    byteSize: U64,
    permalink: string,
    createdAt: Timestamp,
    updatedAt: Timestamp,
    alt: Option<string>,
    description: Option<string>,
    metadata: Option<Metadata>,
    name: Option<string>,
    subjectId: Option<string>
  )

  /** The unit of replication. An update's permalink is a plain optional: it can be changed but not cleared. */
  datatype WriteOp =
    | CreateFile(file: FileRecord)
    | DeleteFile(id: Id)
    | UpdateFile(
        id: Id,
        alt: Patch<string>,
        description: Patch<string>,
        metadata: Patch<Metadata>,
        name: Patch<string>,
        permalink: Option<string>,
        subjectId: Patch<string>
      )
}
