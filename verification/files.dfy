/**
 * The repository operations on the three tables. Each write is one committed
 * transaction, so each is a pure transition from the store before it to the
 * store after it; each read is a pure function of the store.
 */
module Files {
  import opened Wrappers
  import opened Models
  import opened Store
  import KeyOrder

  // ---------------------------------------------------------------------------
  // Subject-list maintenance
  // ---------------------------------------------------------------------------

  /** `Vec::retain(|fid| fid != id)`: the list without `id`, in the same order. */
  function Without(ids: seq<Id>, id: Id): (r: seq<Id>)
    ensures forall x :: x in r <==> x in ids && x != id
    ensures multiset(r) == multiset(ids)[id := 0]
    ensures id !in ids ==> r == ids
  {
    if |ids| == 0 then []
    else
      var rest := Without(ids[1..], id);
      assert ids == [ids[0]] + ids[1..];
      assert multiset(ids) == multiset{ids[0]} + multiset(ids[1..]);
      if ids[0] == id then rest
      else
        assert multiset([ids[0]] + rest) == multiset{ids[0]} + multiset(rest);
        [ids[0]] + rest
  }

  /**
   * `retain` keeps order: removing the id from two lists one after the other
   * gives the two results one after the other. With the one-element case of
   * the contract above, this fixes the result completely.
   */
  lemma {:induction false} WithoutAppend(a: seq<Id>, b: seq<Id>, id: Id)
    ensures Without(a + b, id) == Without(a, id) + Without(b, id)
    decreases |a|
  {
    if |a| == 0 {
      assert a + b == b;
    } else {
      assert (a + b)[1..] == a[1..] + b;
      WithoutAppend(a[1..], b, id);
    }
  }

  /** Removing an id from a duplicate-free list leaves it duplicate-free. */
  lemma {:induction false} WithoutKeepsDistinct(ids: seq<Id>, id: Id)
    requires NoDuplicates(ids)
    ensures NoDuplicates(Without(ids, id))
    decreases |ids|
  {
    if |ids| > 0 {
      var tail := ids[1..];
      assert NoDuplicates(tail) by {
        assert forall i :: 0 <= i < |tail| ==> tail[i] == ids[i + 1];
      }
      WithoutKeepsDistinct(tail, id);
      if ids[0] != id {
        assert ids[0] !in tail by {
          assert forall i :: 0 <= i < |tail| ==> tail[i] == ids[i + 1];
        }
        var rest := Without(tail, id);
        var r := [ids[0]] + rest;
        forall i, j | 0 <= i < j < |r|
          ensures r[i] != r[j]
        {
          if i == 0 {
            assert r[j] == rest[j - 1];
          }
        }
      }
    }
  }

  /**
   * Takes `id` out of the list of subject `sid`, if that subject has a list,
   * and drops the key when the list becomes empty. Other subjects are untouched.
   */
  function Unlink(subjects: map<string, seq<Id>>, sid: string, id: Id): (r: map<string, seq<Id>>)
    ensures forall k :: k != sid ==> (k in r <==> k in subjects)
    ensures forall k :: k != sid && k in r ==> r[k] == subjects[k]
    ensures sid in r ==> sid in subjects && r[sid] != []
    ensures sid in r ==> forall x :: x in r[sid] <==> x in subjects[sid] && x != id
    ensures sid in subjects && (exists x :: x in subjects[sid] && x != id) ==> sid in r
    ensures sid in r <==> sid in subjects && Without(subjects[sid], id) != []
    ensures sid in r ==> r[sid] == Without(subjects[sid], id)
    ensures sid in r && NoDuplicates(subjects[sid]) ==> NoDuplicates(r[sid])
  {
    if sid !in subjects then subjects
    else
      var ids := Without(subjects[sid], id);
      assert NoDuplicates(subjects[sid]) ==> NoDuplicates(ids) by {
        if NoDuplicates(subjects[sid]) {
          WithoutKeepsDistinct(subjects[sid], id);
        }
      }
      if ids == [] then subjects - {sid} else subjects[sid := ids]
  }

  /**
   * Appends `id` to the list of subject `sid`, creating the list when there is
   * none, unless the id is already listed. Other subjects are untouched.
   */
  function Link(subjects: map<string, seq<Id>>, sid: string, id: Id): (r: map<string, seq<Id>>)
    ensures sid in r && id in r[sid]
    ensures forall x :: x in r[sid] <==> x == id || (sid in subjects && x in subjects[sid])
    ensures sid in subjects && id in subjects[sid] ==> r == subjects
    ensures sid in subjects && id !in subjects[sid] ==> r[sid] == subjects[sid] + [id]
    ensures sid !in subjects ==> r[sid] == [id]
    ensures forall k :: k != sid ==> (k in r <==> k in subjects)
    ensures forall k :: k != sid && k in r ==> r[k] == subjects[k]
    ensures sid in subjects && NoDuplicates(subjects[sid]) ==> NoDuplicates(r[sid])
  {
    var ids := if sid in subjects then subjects[sid] else [];
    if id in ids then subjects else subjects[sid := ids + [id]]
  }

  /** `Unlink` from a subject the record may not have. */
  function UnlinkFrom(subjects: map<string, seq<Id>>, sid: Option<string>, id: Id): map<string, seq<Id>> {
    if sid.Some? then Unlink(subjects, sid.value, id) else subjects
  }

  /** `Link` to a subject the record may not have. */
  function LinkTo(subjects: map<string, seq<Id>>, sid: Option<string>, id: Id): map<string, seq<Id>> {
    if sid.Some? then Link(subjects, sid.value, id) else subjects
  }

  /**
   * A subject change of record `id` from `was` to `now`: out of the old list,
   * then onto the end of the new one, even when the two are the same subject.
   */
  function MoveSubject(subjects: map<string, seq<Id>>, was: Option<string>, now: Option<string>, id: Id): (r: map<string, seq<Id>>)
    ensures forall k :: Some(k) != was && Some(k) != now ==>
      (k in r <==> k in subjects) && (k in subjects ==> r[k] == subjects[k])
    ensures was.Some? && was != now ==>
      && (was.value in r <==> was.value in subjects && Without(subjects[was.value], id) != [])
      && (was.value in r ==> r[was.value] == Without(subjects[was.value], id))
    ensures now.Some? ==> now.value in r && id in r[now.value]
    ensures now.Some? && now != was ==>
      var before := if now.value in subjects then subjects[now.value] else [];
      r[now.value] == if id in before then before else before + [id]
    ensures now.Some? && now == was ==>
      r[now.value] == (if now.value in subjects then Without(subjects[now.value], id) else []) + [id]
  {
    LinkTo(UnlinkFrom(subjects, was, id), now, id)
  }

  // ---------------------------------------------------------------------------
  // Writes
  // ---------------------------------------------------------------------------

  /**
   * `put_file`: stores the record under its id, points its permalink at it and
   * lists it under its subject. Nothing is removed: a record already stored
   * under the same id keeps its old permalink and subject entries.
   */
  function PutFile(s: Store, f: FileRecord): (t: Store)
    ensures GetFile(t, f.id) == Some(f)
    ensures GetFileByPermalink(t, f.permalink) == Some(f)
    ensures PermalinkExists(t, f.permalink)
    ensures forall id :: id != f.id ==> GetFile(t, id) == GetFile(s, id)
    ensures forall p :: p != f.permalink ==> (p in t.permalinks <==> p in s.permalinks)
    ensures forall p :: p != f.permalink && p in s.permalinks ==> t.permalinks[p] == s.permalinks[p]
    ensures f.subjectId.Some? ==> f.subjectId.value in t.subjects && f.id in t.subjects[f.subjectId.value]
    ensures f.subjectId.Some? && f.subjectId.value in s.subjects && f.id in s.subjects[f.subjectId.value] ==>
      t.subjects[f.subjectId.value] == s.subjects[f.subjectId.value]
    ensures f.subjectId.Some? && f.subjectId.value in s.subjects && f.id !in s.subjects[f.subjectId.value] ==>
      t.subjects[f.subjectId.value] == s.subjects[f.subjectId.value] + [f.id]
    ensures f.subjectId.Some? && f.subjectId.value !in s.subjects ==> t.subjects[f.subjectId.value] == [f.id]
    ensures forall sid :: Some(sid) != f.subjectId ==> (sid in t.subjects <==> sid in s.subjects)
    ensures forall sid :: Some(sid) != f.subjectId && sid in t.subjects ==> t.subjects[sid] == s.subjects[sid]
  {
    Store(
      s.files[f.id := f],
      s.permalinks[f.permalink := f.id],
      LinkTo(s.subjects, f.subjectId, f.id))
  }

  /**
   * `delete_file`: removes the record, its permalink entry and its id from its
   * subject's list (dropping the key when the list empties), and reports
   * whether there was a record to delete.
   */
  function DeleteFile(s: Store, id: Id): (r: (Store, bool))
    ensures r.1 <==> id in s.files
    ensures !r.1 ==> r.0 == s
    ensures r.1 ==> r.0.files == s.files - {id}
    ensures r.1 ==> r.0.permalinks == s.permalinks - {s.files[id].permalink}
    ensures r.1 && s.files[id].subjectId.Some? ==>
      var sid := s.files[id].subjectId.value;
      sid !in r.0.subjects || id !in r.0.subjects[sid]
    ensures r.1 && s.files[id].subjectId.Some? ==>
      var sid := s.files[id].subjectId.value;
      && (sid in r.0.subjects <==> sid in s.subjects && Without(s.subjects[sid], id) != [])
      && (sid in r.0.subjects ==> r.0.subjects[sid] == Without(s.subjects[sid], id))
    ensures r.1 ==> forall sid :: Some(sid) != s.files[id].subjectId ==>
      (sid in r.0.subjects <==> sid in s.subjects) && (sid in s.subjects ==> r.0.subjects[sid] == s.subjects[sid])
  {
    if id !in s.files then (s, false)
    else
      var f := s.files[id];
      (Store(s.files - {id}, s.permalinks - {f.permalink}, UnlinkFrom(s.subjects, f.subjectId, id)), true)
  }

  /**
   * The arguments of `update_file` after the id: for each CMS field, omitted
   * (`None`), cleared (`Some(None)`) or set; the permalink can only be set.
   */
  datatype Changes = Changes(
    alt: Option<Option<string>>,
    description: Option<Option<string>>,
    metadata: Option<Option<Metadata>>,
    name: Option<Option<string>>,
    permalink: Option<string>,
    subjectId: Option<Option<string>>
  )

  /** A field after an optional change: unchanged when the change is omitted, else the given value. */
  function Override<T>(current: Option<T>, change: Option<Option<T>>): Option<T> {
    if change.Some? then change.value else current
  }

  /** The record `f` after `c` at time `now`; the system fields other than the permalink stay. */
  function Patched(f: FileRecord, c: Changes, now: Timestamp): (g: FileRecord)
    ensures g.id == f.id && g.mimeType == f.mimeType && g.fileType == f.fileType
    ensures g.byteSize == f.byteSize && g.createdAt == f.createdAt
    ensures g.updatedAt == now
    ensures c.alt.None? ==> g.alt == f.alt
    ensures c.alt.Some? ==> g.alt == c.alt.value
    ensures c.description.None? ==> g.description == f.description
    ensures c.description.Some? ==> g.description == c.description.value
    ensures c.metadata.None? ==> g.metadata == f.metadata
    ensures c.metadata.Some? ==> g.metadata == c.metadata.value
    ensures c.name.None? ==> g.name == f.name
    ensures c.name.Some? ==> g.name == c.name.value
    ensures c.permalink.None? ==> g.permalink == f.permalink
    ensures c.permalink.Some? ==> g.permalink == c.permalink.value
    ensures c.subjectId.None? ==> g.subjectId == f.subjectId
    ensures c.subjectId.Some? ==> g.subjectId == c.subjectId.value
  {
    f.(alt := Override(f.alt, c.alt),
       description := Override(f.description, c.description),
       metadata := Override(f.metadata, c.metadata),
       name := Override(f.name, c.name),
       permalink := c.permalink.GetOr(f.permalink),
       subjectId := Override(f.subjectId, c.subjectId),
       updatedAt := now)
  }

  /**
   * `update_file`: applies `c` to the record `id` at time `now`. A new permalink
   * replaces the old index entry; a subject change (even to the same subject)
   * takes the id out of the old list and appends it to the new one. Reports
   * whether there was a record to update.
   */
  function UpdateFile(s: Store, id: Id, c: Changes, now: Timestamp): (r: (Store, bool))
    ensures r.1 <==> id in s.files
    ensures !r.1 ==> r.0 == s
    ensures r.1 ==> r.0.files == s.files[id := Patched(s.files[id], c, now)]
    ensures r.1 && c.permalink.None? ==> r.0.permalinks == s.permalinks
    ensures r.1 && c.permalink.Some? ==>
      && GetFileByPermalink(r.0, c.permalink.value) == Some(Patched(s.files[id], c, now))
      && (s.files[id].permalink != c.permalink.value ==> s.files[id].permalink !in r.0.permalinks)
    ensures c.subjectId.None? ==> r.0.subjects == s.subjects
    ensures r.1 && c.subjectId.Some? && c.subjectId.value.Some? ==>
      c.subjectId.value.value in r.0.subjects && id in r.0.subjects[c.subjectId.value.value]
    ensures r.1 && c.subjectId.Some? && s.files[id].subjectId.Some? && c.subjectId.value != s.files[id].subjectId ==>
      var was := s.files[id].subjectId.value;
      was !in r.0.subjects || id !in r.0.subjects[was]
    ensures r.1 && c.permalink.Some? ==> r.0.permalinks[c.permalink.value] == id
    ensures r.1 && c.permalink.Some? ==> forall p :: p != c.permalink.value && p != s.files[id].permalink ==>
      (p in r.0.permalinks <==> p in s.permalinks) && (p in s.permalinks ==> r.0.permalinks[p] == s.permalinks[p])
    ensures r.1 && c.subjectId.Some? ==>
      forall k :: Some(k) != s.files[id].subjectId && Some(k) != c.subjectId.value ==>
        (k in r.0.subjects <==> k in s.subjects) && (k in s.subjects ==> r.0.subjects[k] == s.subjects[k])
    ensures r.1 && c.subjectId.Some? && s.files[id].subjectId.Some? && c.subjectId.value != s.files[id].subjectId ==>
      var was := s.files[id].subjectId.value;
      && (was in r.0.subjects <==> was in s.subjects && Without(s.subjects[was], id) != [])
      && (was in r.0.subjects ==> r.0.subjects[was] == Without(s.subjects[was], id))
    ensures r.1 && c.subjectId.Some? && c.subjectId.value.Some? && c.subjectId.value != s.files[id].subjectId ==>
      var sid := c.subjectId.value.value;
      var before := if sid in s.subjects then s.subjects[sid] else [];
      r.0.subjects[sid] == if id in before then before else before + [id]
    ensures r.1 && c.subjectId.Some? && c.subjectId.value.Some? && c.subjectId.value == s.files[id].subjectId ==>
      var sid := c.subjectId.value.value;
      r.0.subjects[sid] == (if sid in s.subjects then Without(s.subjects[sid], id) else []) + [id]
  {
    if id !in s.files then (s, false)
    else
      var f := s.files[id];
      var g := Patched(f, c, now);
      var permalinks :=
        if c.permalink.Some? then (s.permalinks - {f.permalink})[c.permalink.value := id]
        else s.permalinks;
      var subjects :=
        if c.subjectId.Some? then MoveSubject(s.subjects, f.subjectId, g.subjectId, id)
        else s.subjects;
      (Store(s.files[id := g], permalinks, subjects), true)
  }

  // ---------------------------------------------------------------------------
  // Reads
  // ---------------------------------------------------------------------------

  /** `get_file`: the record stored under `id`, if any. */
  function GetFile(s: Store, id: Id): (r: Option<FileRecord>)
    ensures r.Some? <==> id in s.files
    ensures r.Some? ==> r.value in s.files.Values
    ensures r.Some? && KeyedById(s.files) ==> r.value.id == id
  {
    if id in s.files then Some(s.files[id]) else None
  }

  /**
   * `get_file_by_permalink`: resolves the permalink to an id and the id to a
   * record; nothing when either step finds nothing.
   */
  function GetFileByPermalink(s: Store, permalink: string): (r: Option<FileRecord>)
    ensures r.Some? <==> permalink in s.permalinks && s.permalinks[permalink] in s.files
    ensures r.Some? ==> r == GetFile(s, s.permalinks[permalink])
    ensures PermalinksExact(s.files, s.permalinks) ==>
      (r.Some? <==> exists id :: id in s.files && s.files[id].permalink == permalink)
    ensures PermalinksExact(s.files, s.permalinks) && r.Some? ==> r.value.permalink == permalink
  {
    if permalink !in s.permalinks then None
    else
      var id := s.permalinks[permalink];
      if id in s.files then Some(s.files[id]) else None
  }

  /** The records of `ids`, in list order, skipping ids that have no record. */
  function Resolve(files: map<Id, FileRecord>, ids: seq<Id>): (r: seq<FileRecord>)
    ensures |r| <= |ids|
    ensures forall f :: f in r <==> exists id :: id in ids && id in files && files[id] == f
    ensures (forall id :: id in ids ==> id in files) ==>
      |r| == |ids| && forall i :: 0 <= i < |ids| ==> r[i] == files[ids[i]]
  {
    if |ids| == 0 then []
    else
      var rest := Resolve(files, ids[1..]);
      assert forall id :: id in ids <==> id == ids[0] || id in ids[1..];
      if ids[0] in files then [files[ids[0]]] + rest else rest
  }

  /**
   * Resolution keeps the list order: resolving two lists one after the other
   * gives the two resolutions one after the other. With the single-id case of
   * the contract above, this fixes the result completely.
   */
  lemma {:induction false} ResolveAppend(files: map<Id, FileRecord>, a: seq<Id>, b: seq<Id>)
    ensures Resolve(files, a + b) == Resolve(files, a) + Resolve(files, b)
    decreases |a|
  {
    if |a| == 0 {
      assert a + b == b;
    } else {
      assert (a + b)[1..] == a[1..] + b;
      ResolveAppend(files, a[1..], b);
    }
  }

  /** `get_files_by_subject`: the records listed under `sid`, in list order; nothing for an unknown subject. */
  function GetFilesBySubject(s: Store, sid: string): (r: seq<FileRecord>)
    ensures sid !in s.subjects ==> r == []
    ensures sid in s.subjects ==> r == Resolve(s.files, s.subjects[sid])
    ensures forall f :: f in r ==> f in s.files.Values
    ensures sid in s.subjects ==>
      forall f :: f in r <==> exists id :: id in s.subjects[sid] && id in s.files && s.files[id] == f
  {
    if sid in s.subjects then Resolve(s.files, s.subjects[sid]) else []
  }

  /** The ids of the records table in the order the store iterates them. */
  function FileIds(s: Store): (ids: seq<Id>)
    ensures |ids| == |s.files|
    ensures forall id :: id in ids <==> id in s.files
    ensures KeyOrder.StrictlySorted(ids)
  {
    KeyOrder.SortedKeys(s.files.Keys)
  }

  /**
   * `get_all_files`: every record, in id order. Each record appears once, and
   * under a records table keyed by id the records come in strictly increasing id order.
   */
  function GetAllFiles(s: Store): (r: seq<FileRecord>)
    ensures |r| == |s.files|
    ensures forall i :: 0 <= i < |r| ==> r[i] == s.files[FileIds(s)[i]]
    ensures forall f :: f in r <==> f in s.files.Values
    ensures KeyedById(s.files) ==> forall i, j :: 0 <= i < j < |r| ==> KeyOrder.Before(r[i].id, r[j].id)
  {
    var ids := FileIds(s);
    var r := seq(|ids|, i requires 0 <= i < |ids| => s.files[ids[i]]);
    InOrder(s.files, ids, r);
    r
  }

  /** The records of a listing of every key, in key order, are the table's records. */
  lemma InOrder(files: map<Id, FileRecord>, ids: seq<Id>, r: seq<FileRecord>)
    requires forall id :: id in ids <==> id in files
    requires KeyOrder.StrictlySorted(ids)
    requires |r| == |ids| && forall i :: 0 <= i < |ids| ==> r[i] == files[ids[i]]
    ensures forall f :: f in r <==> f in files.Values
    ensures KeyedById(files) ==> forall i, j :: 0 <= i < j < |r| ==> KeyOrder.Before(r[i].id, r[j].id)
  {
    forall f | f in files.Values
      ensures f in r
    {
      var id :| id in files && files[id] == f;
      var i :| 0 <= i < |ids| && ids[i] == id;
      assert r[i] == f;
    }
  }

  /** The records whose file type serializes to `name`, in their original order. */
  function FilterByType(fs: seq<FileRecord>, name: string): (r: seq<FileRecord>)
    ensures |r| <= |fs|
    ensures forall f :: f in r <==> f in fs && TypeName(f.fileType) == name
    ensures (forall f :: f in fs ==> TypeName(f.fileType) == name) ==> r == fs
  {
    if |fs| == 0 then []
    else
      var rest := FilterByType(fs[1..], name);
      assert forall f :: f in fs <==> f == fs[0] || f in fs[1..];
      if TypeName(fs[0].fileType) == name then
        assert fs == [fs[0]] + fs[1..];
        [fs[0]] + rest
      else rest
  }

  /**
   * Filtering keeps the order: filtering two lists one after the other gives
   * the two filtered lists one after the other. With the one-record case of
   * the contract above, this fixes the result completely.
   */
  lemma {:induction false} FilterByTypeAppend(a: seq<FileRecord>, b: seq<FileRecord>, name: string)
    ensures FilterByType(a + b, name) == FilterByType(a, name) + FilterByType(b, name)
    decreases |a|
  {
    if |a| == 0 {
      assert a + b == b;
    } else {
      assert (a + b)[1..] == a[1..] + b;
      FilterByTypeAppend(a[1..], b, name);
    }
  }

  /**
   * `list_files`: the subject's records when a subject is given, otherwise all
   * records, then only those of the given type when a type is given.
   */
  function ListFiles(s: Store, fileType: Option<string>, subjectId: Option<string>): (r: seq<FileRecord>)
    ensures fileType.None? && subjectId.None? ==> r == GetAllFiles(s)
    ensures fileType.None? && subjectId.Some? ==> r == GetFilesBySubject(s, subjectId.value)
    ensures fileType.Some? ==>
      r == FilterByType(if subjectId.Some? then GetFilesBySubject(s, subjectId.value) else GetAllFiles(s), fileType.value)
    ensures forall f :: f in r ==> f in s.files.Values
    ensures fileType.Some? ==> forall f :: f in r ==> TypeName(f.fileType) == fileType.value
    ensures subjectId.None? ==> forall f :: f in r <==>
      f in s.files.Values && (fileType.None? || TypeName(f.fileType) == fileType.value)
  {
    var all := if subjectId.Some? then GetFilesBySubject(s, subjectId.value) else GetAllFiles(s);
    if fileType.Some? then FilterByType(all, fileType.value) else all
  }

  /** `permalink_exists`: the permalink has an index entry. */
  predicate PermalinkExists(s: Store, permalink: string)
    ensures PermalinksExact(s.files, s.permalinks) ==>
      (PermalinkExists(s, permalink) <==> exists id :: id in s.files && s.files[id].permalink == permalink)
  {
    permalink in s.permalinks
  }
}
