/**
 * The replicated state machine: every node applies the same log of write
 * operations to its own store; a lagging node is brought up to date by
 * replaying a snapshot of every record.
 */
module StateMachine {
  import opened Wrappers
  import opened Models
  import opened Store
  import Files
  import FilesProofs
  import KeyOrder

  // ---------------------------------------------------------------------------
  // apply
  // ---------------------------------------------------------------------------

  /** The arguments `apply` hands to `update_file` for an update: every patch through `as_option`. */
  function ChangesOf(op: WriteOp): Files.Changes
    requires op.UpdateFile?
  {
    Files.Changes(AsOption(op.alt), AsOption(op.description), AsOption(op.metadata),
                  AsOption(op.name), op.permalink, AsOption(op.subjectId))
  }

  /**
   * `apply`: dispatch one operation to the repository at wall-clock time `now`.
   * The found/not-found answer of a delete or an update is dropped, so an
   * operation on an unknown id succeeds and changes nothing.
   */
  function Apply(s: Store, op: WriteOp, now: Timestamp): (t: Store)
    ensures op.CreateFile? ==> t == Files.PutFile(s, op.file)
    ensures op.DeleteFile? ==> t == Files.DeleteFile(s, op.id).0
    ensures op.DeleteFile? && op.id !in s.files ==> t == s
    ensures op.UpdateFile? ==> t == Files.UpdateFile(s, op.id, ChangesOf(op), now).0
    ensures op.UpdateFile? && op.id !in s.files ==> t == s
    ensures op.UpdateFile? && op.permalink.None? ==> t.permalinks == s.permalinks
    ensures op.UpdateFile? && op.subjectId.Absent? ==> t.subjects == s.subjects
  {
    match op
    case CreateFile(f) => Files.PutFile(s, f)
    case DeleteFile(id) => Files.DeleteFile(s, id).0
    case UpdateFile(id, _, _, _, _, _, _) => Files.UpdateFile(s, id, ChangesOf(op), now).0
  }

  /** A field after a patch: unchanged when absent, cleared when null, set when given. */
  predicate PatchedField<T(==)>(before: Option<T>, p: Patch<T>, after: Option<T>) {
    match p
    case Absent => after == before
    case Null => after == None
    case Value(v) => after == Some(v)
  }

  /**
   * An applied update, field by field: each CMS field follows its patch, a
   * missing permalink keeps the old one, the update time is `now` and the
   * system fields never change.
   */
  lemma ApplyUpdateFields(s: Store, op: WriteOp, now: Timestamp)
    requires op.UpdateFile? && op.id in s.files
    ensures var f := s.files[op.id];
      var g := Apply(s, op, now).files[op.id];
      && PatchedField(f.alt, op.alt, g.alt)
      && PatchedField(f.description, op.description, g.description)
      && PatchedField(f.metadata, op.metadata, g.metadata)
      && PatchedField(f.name, op.name, g.name)
      && PatchedField(f.subjectId, op.subjectId, g.subjectId)
      && g.permalink == op.permalink.GetOr(f.permalink)
      && g.updatedAt == now
      && g.id == f.id && g.mimeType == f.mimeType && g.fileType == f.fileType
      && g.byteSize == f.byteSize && g.createdAt == f.createdAt
  {
  }

  /**
   * An update whose fields were all missing from the encoded operation (each
   * the default patch, no permalink) only moves the record's update time.
   */
  lemma DefaultUpdateTouchesClock(s: Store, id: Id, now: Timestamp)
    requires id in s.files
    ensures var op := UpdateFile(id, DefaultPatch(), DefaultPatch(), DefaultPatch(), DefaultPatch(), None, DefaultPatch());
      Apply(s, op, now) == s.(files := s.files[id := s.files[id].(updatedAt := now)])
  {
  }

  /** The operations the handlers submit: a create with an unused id and permalink, an update to a free permalink. */
  predicate Admissible(s: Store, op: WriteOp) {
    match op
    case CreateFile(f) => f.id !in s.files && f.permalink !in s.permalinks
    case DeleteFile(_) => true
    case UpdateFile(id, _, _, _, _, _, _) => FilesProofs.PermalinkFree(s, id, ChangesOf(op))
  }

  /** Applying an admissible operation keeps the store consistent. */
  lemma ApplyPreservesConsistent(s: Store, op: WriteOp, now: Timestamp)
    requires Consistent(s) && Admissible(s, op)
    ensures Consistent(Apply(s, op, now))
  {
    match op
    case CreateFile(f) => FilesProofs.PutPreservesConsistent(s, f);
    case DeleteFile(id) => FilesProofs.DeletePreservesConsistent(s, id);
    case UpdateFile(id, _, _, _, _, _, _) => FilesProofs.UpdatePreservesConsistent(s, id, ChangesOf(op), now);
  }

  // ---------------------------------------------------------------------------
  // Replicas
  // ---------------------------------------------------------------------------

  /** `f` with its update time blanked out: what replicas are expected to agree on. */
  function Unclocked(f: FileRecord): FileRecord {
    f.(updatedAt := 0)
  }

  /** Two stores that differ at most in the update times of their records. */
  predicate SameUpToClock(a: Store, b: Store) {
    && a.permalinks == b.permalinks
    && a.subjects == b.subjects
    && a.files.Keys == b.files.Keys
    && forall id :: id in a.files ==> Unclocked(a.files[id]) == Unclocked(b.files[id])
  }

  /**
   * Replicas that agree up to the clock still agree after applying the same
   * operation, whatever each one's clock reads.
   */
  lemma ApplyAgreesUpToClock(a: Store, b: Store, op: WriteOp, ta: Timestamp, tb: Timestamp)
    requires SameUpToClock(a, b)
    ensures SameUpToClock(Apply(a, op, ta), Apply(b, op, tb))
  {
    match op
    case CreateFile(f) =>
    case DeleteFile(id) =>
      if id in a.files {
        assert Unclocked(a.files[id]).permalink == Unclocked(b.files[id]).permalink;
        assert Unclocked(a.files[id]).subjectId == Unclocked(b.files[id]).subjectId;
      }
    case UpdateFile(id, _, _, _, _, _, _) =>
      if id in a.files {
        var fa := a.files[id];
        var fb := b.files[id];
        assert Unclocked(fa) == Unclocked(fb);
        assert fa.permalink == fb.permalink && fa.subjectId == fb.subjectId;
        var c := ChangesOf(op);
        assert Unclocked(Files.Patched(fa, c, ta)) == Unclocked(Files.Patched(fb, c, tb));
      }
  }

  /** `apply` over a log, one clock reading per operation. */
  function ApplyAll(s: Store, ops: seq<WriteOp>, clock: seq<Timestamp>): Store
    requires |clock| == |ops|
    decreases |ops|
  {
    if |ops| == 0 then s else ApplyAll(Apply(s, ops[0], clock[0]), ops[1..], clock[1..])
  }

  /** Replicas that start alike and apply the same log end alike, up to the clock. */
  lemma {:induction false} ReplicasConverge(
    a: Store, b: Store, ops: seq<WriteOp>, ca: seq<Timestamp>, cb: seq<Timestamp>)
    requires SameUpToClock(a, b) && |ca| == |ops| && |cb| == |ops|
    ensures SameUpToClock(ApplyAll(a, ops, ca), ApplyAll(b, ops, cb))
    decreases |ops|
  {
    if |ops| > 0 {
      ApplyAgreesUpToClock(a, b, ops[0], ca[0], cb[0]);
      ReplicasConverge(Apply(a, ops[0], ca[0]), Apply(b, ops[0], cb[0]), ops[1..], ca[1..], cb[1..]);
    }
  }

  // ---------------------------------------------------------------------------
  // snapshot and restore
  // ---------------------------------------------------------------------------

  /** `FileSnapshot`: the full state shipped to a lagging follower. */
  datatype FileSnapshot = FileSnapshot(files: seq<FileRecord>)

  /** `snapshot`: every record, in id order; each live record exactly once. */
  function Snapshot(s: Store): (snap: FileSnapshot)
    ensures |snap.files| == |s.files|
    ensures forall f :: f in snap.files <==> f in s.files.Values
    ensures KeyedById(s.files) ==> NoDuplicates(Ids(snap.files))
  {
    var r := Files.GetAllFiles(s);
    DistinctIds(r);
    FileSnapshot(r)
  }

  /** A strictly increasing sequence of ids repeats none. */
  lemma DistinctIds(r: seq<FileRecord>)
    ensures (forall i, j :: 0 <= i < j < |r| ==> KeyOrder.Before(r[i].id, r[j].id)) ==> NoDuplicates(Ids(r))
  {
    if forall i, j :: 0 <= i < j < |r| ==> KeyOrder.Before(r[i].id, r[j].id) {
      forall i, j | 0 <= i < j < |r|
        ensures r[i].id != r[j].id
      {
        KeyOrder.BeforeIrreflexive(r[i].id);
      }
    }
  }

  /** The ids of a list of records, in order. */
  function Ids(rs: seq<FileRecord>): (ids: seq<Id>)
    ensures |ids| == |rs| && forall i :: 0 <= i < |rs| ==> ids[i] == rs[i].id
  {
    seq(|rs|, i requires 0 <= i < |rs| => rs[i].id)
  }

  /** The permalinks of a list of records, in order. */
  function Permalinks(rs: seq<FileRecord>): (ps: seq<string>)
    ensures |ps| == |rs| && forall i :: 0 <= i < |rs| ==> ps[i] == rs[i].permalink
  {
    seq(|rs|, i requires 0 <= i < |rs| => rs[i].permalink)
  }

  /** Puts each record in order. */
  function PutAll(s: Store, rs: seq<FileRecord>): Store
    decreases |rs|
  {
    if |rs| == 0 then s else PutAll(Files.PutFile(s, rs[0]), rs[1..])
  }

  /** `restore`: replays `put_file` for every record of the snapshot on top of the current store. */
  function Restore(s: Store, snap: FileSnapshot): Store {
    PutAll(s, snap.files)
  }

  /**
   * Putting records with distinct ids: each is stored under its id, every
   * other record of the store is untouched, and nothing else appears.
   */
  lemma {:induction false} PutAllRecords(s: Store, rs: seq<FileRecord>)
    requires NoDuplicates(Ids(rs))
    ensures var t := PutAll(s, rs);
      && (forall i :: 0 <= i < |rs| ==> rs[i].id in t.files && t.files[rs[i].id] == rs[i])
      && (forall id :: id in t.files <==> id in s.files || id in Ids(rs))
      && (forall id :: id in s.files && id !in Ids(rs) ==> t.files[id] == s.files[id])
    decreases |rs|
  {
    if |rs| > 0 {
      var s1 := Files.PutFile(s, rs[0]);
      var tail := rs[1..];
      assert Ids(rs) == [rs[0].id] + Ids(tail);
      assert NoDuplicates(Ids(tail)) by {
        assert forall i :: 0 <= i < |tail| ==> Ids(tail)[i] == Ids(rs)[i + 1];
      }
      PutAllRecords(s1, tail);
      assert rs[0].id !in Ids(tail) by {
        assert forall i :: 0 <= i < |tail| ==> Ids(tail)[i] == Ids(rs)[i + 1];
      }
      forall i | 0 <= i < |rs|
        ensures rs[i].id in PutAll(s, rs).files && PutAll(s, rs).files[rs[i].id] == rs[i]
      {
        if i > 0 {
          assert rs[i] == tail[i - 1];
        }
      }
    }
  }

  /** Every record in the list has an id and a permalink unused in `s`, and no two share either. */
  predicate FreshRecords(s: Store, rs: seq<FileRecord>) {
    && NoDuplicates(Ids(rs))
    && NoDuplicates(Permalinks(rs))
    && forall i :: 0 <= i < |rs| ==> rs[i].id !in s.files && rs[i].permalink !in s.permalinks
  }

  /** Restoring fresh records into a consistent store keeps it consistent. */
  lemma {:induction false} PutAllPreservesConsistent(s: Store, rs: seq<FileRecord>)
    requires Consistent(s) && FreshRecords(s, rs)
    ensures Consistent(PutAll(s, rs))
    decreases |rs|
  {
    if |rs| > 0 {
      FilesProofs.PutPreservesConsistent(s, rs[0]);
      var s1 := Files.PutFile(s, rs[0]);
      var tail := rs[1..];
      assert forall i :: 0 <= i < |tail| ==> Ids(tail)[i] == Ids(rs)[i + 1];
      assert forall i :: 0 <= i < |tail| ==> Permalinks(tail)[i] == Permalinks(rs)[i + 1];
      forall i | 0 <= i < |tail|
        ensures tail[i].id !in s1.files && tail[i].permalink !in s1.permalinks
      {
        assert tail[i] == rs[i + 1];
        assert Ids(rs)[0] != Ids(rs)[i + 1];
        assert Permalinks(rs)[0] != Permalinks(rs)[i + 1];
      }
      PutAllPreservesConsistent(s1, tail);
    }
  }

  /** In a consistent store no two records share a permalink. */
  lemma DistinctPermalinks(s: Store, rs: seq<FileRecord>)
    requires Consistent(s)
    requires NoDuplicates(Ids(rs))
    requires forall i :: 0 <= i < |rs| ==> rs[i].id in s.files && s.files[rs[i].id] == rs[i]
    ensures NoDuplicates(Permalinks(rs))
  {
    forall i, j | 0 <= i < j < |rs|
      ensures rs[i].permalink != rs[j].permalink
    {
      assert Ids(rs)[i] != Ids(rs)[j];
    }
  }

  /** The permalink index is determined by the records it is exact for. */
  lemma PermalinksDetermined(files: map<Id, FileRecord>, p: map<string, Id>, q: map<string, Id>)
    requires PermalinksExact(files, p) && PermalinksExact(files, q)
    ensures p == q
  {
    assert p.Keys == q.Keys;
  }

  /** The subject index is determined, up to the order of each list, by the records it is exact for. */
  lemma SubjectsDetermined(files: map<Id, FileRecord>, a: map<string, seq<Id>>, b: map<string, seq<Id>>)
    requires SubjectsExact(files, a) && SubjectsExact(files, b)
    ensures a.Keys == b.Keys
    ensures forall sid, id :: sid in a && id in a[sid] <==> sid in b && id in b[sid]
  {
    forall sid | sid in a
      ensures sid in b
    {
      var id := a[sid][0];
      assert HasSubject(files, id, sid);
    }
    forall sid | sid in b
      ensures sid in a
    {
      var id := b[sid][0];
      assert HasSubject(files, id, sid);
    }
  }

  /**
   * The snapshot of a consistent store lists each record once, under its own
   * id, with pairwise distinct ids and permalinks.
   */
  lemma SnapshotOfConsistent(s: Store)
    requires Consistent(s)
    ensures var rs := Snapshot(s).files;
      && FreshRecords(Open(), rs)
      && (forall id :: id in s.files <==> id in Ids(rs))
      && (forall i :: 0 <= i < |rs| ==> rs[i].id in s.files && s.files[rs[i].id] == rs[i])
  {
    var rs := Snapshot(s).files;
    SnapshotIds(s);
    DistinctPermalinks(s, rs);
  }

  /** Under records keyed by id, the snapshot's ids are the table's keys in iteration order. */
  lemma SnapshotIds(s: Store)
    requires KeyedById(s.files)
    ensures var rs := Snapshot(s).files;
      && Ids(rs) == Files.FileIds(s)
      && forall i :: 0 <= i < |rs| ==> rs[i].id in s.files && s.files[rs[i].id] == rs[i]
  {
    var rs := Snapshot(s).files;
    var ids := Files.FileIds(s);
    assert forall i :: 0 <= i < |rs| ==> rs[i] == s.files[ids[i]];
    assert forall i :: 0 <= i < |rs| ==> rs[i].id == ids[i];
  }

  /** A table holding exactly the records of a list, each under its id, is the table the list came from. */
  lemma SameTable(files: map<Id, FileRecord>, rs: seq<FileRecord>, t: map<Id, FileRecord>)
    requires forall id :: id in files <==> id in Ids(rs)
    requires forall id :: id in t <==> id in Ids(rs)
    requires forall i :: 0 <= i < |rs| ==> rs[i].id in files && files[rs[i].id] == rs[i]
    requires forall i :: 0 <= i < |rs| ==> rs[i].id in t && t[rs[i].id] == rs[i]
    ensures t == files
  {
    forall id | id in t
      ensures t[id] == files[id]
    {
      var i :| 0 <= i < |rs| && Ids(rs)[i] == id;
    }
  }

  /**
   * Snapshot then restore into an empty store: the same records, the same
   * permalink index, a consistent store, and every subject listing the same
   * ids (possibly in another order).
   */
  lemma SnapshotRestore(s: Store)
    requires Consistent(s)
    ensures var t := Restore(Open(), Snapshot(s));
      && Consistent(t)
      && t.files == s.files
      && t.permalinks == s.permalinks
      && t.subjects.Keys == s.subjects.Keys
      && forall sid, id :: sid in t.subjects && id in t.subjects[sid] <==> sid in s.subjects && id in s.subjects[sid]
  {
    var rs := Snapshot(s).files;
    SnapshotOfConsistent(s);
    PutAllPreservesConsistent(Open(), rs);
    PutAllRecords(Open(), rs);
    var t := PutAll(Open(), rs);
    SameTable(s.files, rs, t.files);
    PermalinksDetermined(s.files, t.permalinks, s.permalinks);
    SubjectsDetermined(s.files, t.subjects, s.subjects);
  }

  // ---------------------------------------------------------------------------
  // Restore does not reproduce list order
  // ---------------------------------------------------------------------------

  /** The two-key table iterates its keys in order. */
  lemma SortedPair(x: string, y: string)
    requires KeyOrder.Before(x, y)
    ensures KeyOrder.SortedKeys({x, y}) == [x, y]
  {
    var r := KeyOrder.SortedKeys({x, y});
    KeyOrder.BeforeIrreflexive(x);
    assert x != y;
    assert |r| == 2;
    assert r[0] in {x, y} && r[1] in {x, y};
    assert KeyOrder.Before(r[0], r[1]);
    if r[0] == y {
      KeyOrder.BeforeAsymmetric(x, y);
      KeyOrder.BeforeIrreflexive(y);
    }
  }

  /** Two distinct records of one subject, put one after the other: the list is in put order. */
  lemma TwoPuts(f: FileRecord, g: FileRecord, sid: string)
    requires f.id != g.id && f.subjectId == Some(sid) && g.subjectId == Some(sid)
    ensures PutAll(Open(), [f, g]) == Files.PutFile(Files.PutFile(Open(), f), g)
    ensures Files.PutFile(Files.PutFile(Open(), f), g).subjects[sid] == [f.id, g.id]
  {
    var s1 := Files.PutFile(Open(), f);
    var s2 := Files.PutFile(s1, g);
    assert [f, g][1..] == [g];
    assert [g][1..] == [];
    assert PutAll(Open(), [f, g]) == PutAll(s1, [g]);
    assert PutAll(s1, [g]) == PutAll(s2, []);
    assert s1.subjects[sid] == [f.id];
  }

  /**
   * Records `f` then `g` of one subject, where `g` has the smaller id: the
   * store lists the subject's ids in put order, the restored copy in id order.
   */
  lemma RestoreReorders(f: FileRecord, g: FileRecord, sid: string)
    requires KeyOrder.Before(g.id, f.id) && f.permalink != g.permalink
    requires f.subjectId == Some(sid) && g.subjectId == Some(sid)
    ensures var s := Files.PutFile(Files.PutFile(Open(), f), g);
      && Consistent(s)
      && s.subjects[sid] == [f.id, g.id]
      && var t := Restore(Open(), Snapshot(s));
         sid in t.subjects && t.subjects[sid] == [g.id, f.id]
  {
    KeyOrder.BeforeIrreflexive(g.id);
    var s1 := Files.PutFile(Open(), f);
    var s := Files.PutFile(s1, g);
    FilesProofs.PutPreservesConsistent(Open(), f);
    FilesProofs.PutPreservesConsistent(s1, g);
    TwoPuts(f, g, sid);
    SnapshotOfTwo(s, f, g);
    TwoPuts(g, f, sid);
    assert Restore(Open(), Snapshot(s)) == PutAll(Open(), [g, f]);
  }

  /** The snapshot of a two-record table lists the record with the smaller id first. */
  lemma SnapshotOfTwo(s: Store, f: FileRecord, g: FileRecord)
    requires KeyOrder.Before(g.id, f.id)
    requires s.files == map[f.id := f, g.id := g]
    ensures Snapshot(s).files == [g, f]
  {
    KeyOrder.BeforeIrreflexive(g.id);
    assert s.files.Keys == {g.id, f.id};
    SortedPair(g.id, f.id);
    var rs := Snapshot(s).files;
    assert |rs| == 2 && rs[0] == s.files[g.id] && rs[1] == s.files[f.id];
  }

  /** Two records of one subject, put in descending id order. */
  function TwoOfSubject(): Store {
    Files.PutFile(Files.PutFile(Open(), Late()), Early())
  }

  /** The record put first: id `b`. */
  function Late(): FileRecord {
    FilesProofs.Plain("b", "p").(subjectId := Some("s"))
  }

  /** The record put second: id `a`. */
  function Early(): FileRecord {
    FilesProofs.Plain("a", "q").(subjectId := Some("s"))
  }

  /** Restore lists a subject's ids in id order, not in the order they were added. */
  lemma RestoreReordersSubjectList()
    ensures var s := TwoOfSubject();
      && Consistent(s)
      && s.subjects["s"] == ["b", "a"]
      && var t := Restore(Open(), Snapshot(s));
         "s" in t.subjects && t.subjects["s"] == ["a", "b"]
  {
    assert KeyOrder.Before("a", "b");
    RestoreReorders(Late(), Early(), "s");
  }
}
