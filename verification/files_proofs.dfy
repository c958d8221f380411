/**
 * What the repository operations do to the consistency invariant, and the
 * lookups it makes exact. Puts and updates keep the invariant only under the
 * pre-checks the handlers perform (a fresh id, an unused permalink); the two
 * counterexamples at the end show that neither precondition can be dropped.
 */
module FilesProofs {
  import opened Wrappers
  import opened Models
  import opened Store
  import opened Files

  // ---------------------------------------------------------------------------
  // One index at a time
  // ---------------------------------------------------------------------------

  /** Dropping a record together with its permalink entry keeps the permalink index exact. */
  lemma PermalinksDrop(files: map<Id, FileRecord>, permalinks: map<string, Id>, id: Id)
    requires PermalinksExact(files, permalinks) && id in files
    ensures PermalinksExact(files - {id}, permalinks - {files[id].permalink})
  {
  }

  /** Adding a record under a fresh id with an unused permalink keeps the permalink index exact. */
  lemma PermalinksAdd(files: map<Id, FileRecord>, permalinks: map<string, Id>, id: Id, g: FileRecord)
    requires PermalinksExact(files, permalinks) && id !in files && g.permalink !in permalinks
    ensures PermalinksExact(files[id := g], permalinks[g.permalink := id])
  {
  }

  /** Dropping a record and unlinking it from its subject keeps the subject index exact. */
  lemma SubjectsDrop(files: map<Id, FileRecord>, subjects: map<string, seq<Id>>, id: Id)
    requires SubjectsExact(files, subjects) && id in files
    ensures SubjectsExact(files - {id}, UnlinkFrom(subjects, files[id].subjectId, id))
  {
    var rest := files - {id};
    var u := UnlinkFrom(subjects, files[id].subjectId, id);
    forall sid, x | sid in u && x in u[sid]
      ensures HasSubject(rest, x, sid)
    {
      assert sid in subjects && x in subjects[sid];
      assert HasSubject(files, x, sid);
    }
    forall x | x in rest && rest[x].subjectId.Some?
      ensures rest[x].subjectId.value in u && x in u[rest[x].subjectId.value]
    {
      var sid := rest[x].subjectId.value;
      assert sid in subjects && x in subjects[sid];
      assert x != id;
    }
  }

  /** Adding a record under a fresh id and linking it to its subject keeps the subject index exact. */
  lemma SubjectsAdd(files: map<Id, FileRecord>, subjects: map<string, seq<Id>>, id: Id, g: FileRecord)
    requires SubjectsExact(files, subjects) && id !in files
    ensures SubjectsExact(files[id := g], LinkTo(subjects, g.subjectId, id))
  {
    var more := files[id := g];
    var l := LinkTo(subjects, g.subjectId, id);
    forall sid | sid in l
      ensures l[sid] != [] && NoDuplicates(l[sid])
    {
      if g.subjectId == Some(sid) && sid !in subjects {
        assert l[sid] == [id];
      }
    }
    forall sid, x | sid in l && x in l[sid]
      ensures HasSubject(more, x, sid)
    {
      if x != id {
        assert sid in subjects && x in subjects[sid];
        assert HasSubject(files, x, sid);
      }
    }
  }

  /** Replacing a record by one with the same subject needs no change to the subject index. */
  lemma SubjectsSame(files: map<Id, FileRecord>, subjects: map<string, seq<Id>>, id: Id, g: FileRecord)
    requires SubjectsExact(files, subjects) && id in files && g.subjectId == files[id].subjectId
    ensures SubjectsExact(files[id := g], subjects)
  {
    var more := files[id := g];
    forall sid, x | sid in subjects && x in subjects[sid]
      ensures HasSubject(more, x, sid)
    {
      assert HasSubject(files, x, sid);
    }
  }

  // ---------------------------------------------------------------------------
  // Preservation of Consistent
  // ---------------------------------------------------------------------------

  /** `put_file` of a record whose id and permalink are both unused keeps the store consistent. */
  lemma PutPreservesConsistent(s: Store, f: FileRecord)
    requires Consistent(s)
    requires f.id !in s.files && f.permalink !in s.permalinks
    ensures Consistent(PutFile(s, f))
  {
    PermalinksAdd(s.files, s.permalinks, f.id, f);
    SubjectsAdd(s.files, s.subjects, f.id, f);
  }

  /** `delete_file` keeps the store consistent, whether or not the id exists. */
  lemma DeletePreservesConsistent(s: Store, id: Id)
    requires Consistent(s)
    ensures Consistent(Files.DeleteFile(s, id).0)
  {
    if id in s.files {
      PermalinksDrop(s.files, s.permalinks, id);
      SubjectsDrop(s.files, s.subjects, id);
    }
  }

  /** A permalink the update may move the record to: its own, or one nobody uses. */
  predicate PermalinkFree(s: Store, id: Id, c: Changes) {
    c.permalink.Some? && id in s.files ==>
      c.permalink.value == s.files[id].permalink || c.permalink.value !in s.permalinks
  }

  /** `update_file` keeps the store consistent when the new permalink, if any, is free. */
  lemma UpdatePreservesConsistent(s: Store, id: Id, c: Changes, now: Timestamp)
    requires Consistent(s)
    requires PermalinkFree(s, id, c)
    ensures Consistent(Files.UpdateFile(s, id, c, now).0)
  {
    if id in s.files {
      var f := s.files[id];
      var g := Patched(f, c, now);
      var rest := s.files - {id};
      assert s.files[id := g] == rest[id := g];
      PermalinksDrop(s.files, s.permalinks, id);
      PermalinksAdd(rest, s.permalinks - {f.permalink}, id, g);
      if c.permalink.None? {
        assert (s.permalinks - {f.permalink})[f.permalink := id] == s.permalinks;
      }
      if c.subjectId.Some? {
        SubjectsDrop(s.files, s.subjects, id);
        SubjectsAdd(rest, UnlinkFrom(s.subjects, f.subjectId, id), id, g);
      } else {
        SubjectsSame(s.files, s.subjects, id, g);
      }
    }
  }

  // ---------------------------------------------------------------------------
  // Effects on lookups
  // ---------------------------------------------------------------------------

  /** `put_file` never lists an id twice under a subject, fresh id or not. */
  lemma PutKeepsListsDuplicateFree(s: Store, f: FileRecord)
    requires forall sid :: sid in s.subjects ==> NoDuplicates(s.subjects[sid])
    ensures var t := PutFile(s, f);
      forall sid :: sid in t.subjects ==> NoDuplicates(t.subjects[sid])
  {
    var t := PutFile(s, f);
    if f.subjectId.Some? && f.subjectId.value !in s.subjects {
      assert t.subjects[f.subjectId.value] == [f.id];
    }
  }

  /** After a delete in a consistent store nothing refers to the id any more. */
  lemma DeleteLeavesNoTrace(s: Store, id: Id)
    requires Consistent(s)
    ensures var t := Files.DeleteFile(s, id).0;
      && GetFile(t, id) == None
      && (forall p :: p in t.permalinks ==> t.permalinks[p] != id)
      && (forall sid :: sid in t.subjects ==> id !in t.subjects[sid])
  {
    DeletePreservesConsistent(s, id);
    var t := Files.DeleteFile(s, id).0;
    assert forall sid :: sid in t.subjects && id in t.subjects[sid] ==> HasSubject(t.files, id, sid);
  }

  /**
   * Moving a record to a free permalink: the old permalink stops resolving and
   * the new one resolves to the same record.
   */
  lemma PermalinkMove(s: Store, id: Id, p: string, c: Changes, now: Timestamp)
    requires Consistent(s) && id in s.files
    requires c.permalink == Some(p) && p != s.files[id].permalink && p !in s.permalinks
    ensures var t := Files.UpdateFile(s, id, c, now).0;
      && GetFileByPermalink(t, s.files[id].permalink) == None
      && GetFileByPermalink(t, p).Some?
      && GetFileByPermalink(t, p).value.id == id
      && !PermalinkExists(t, s.files[id].permalink)
  {
  }

  /**
   * A subject change in a consistent store: the id leaves the old subject's
   * list (and the key goes when nothing else is listed) and is listed exactly
   * once under the new subject.
   */
  lemma SubjectMove(s: Store, id: Id, c: Changes, now: Timestamp)
    requires Consistent(s) && id in s.files && PermalinkFree(s, id, c)
    requires c.subjectId.Some?
    ensures var t := Files.UpdateFile(s, id, c, now).0;
      && (s.files[id].subjectId.Some? && c.subjectId.value != s.files[id].subjectId ==>
            var was := s.files[id].subjectId.value;
            was !in t.subjects || id !in t.subjects[was])
      && (c.subjectId.value.Some? ==>
            var sid := c.subjectId.value.value;
            sid in t.subjects && id in t.subjects[sid] && NoDuplicates(t.subjects[sid]))
      && (c.subjectId.value.None? ==> forall sid :: sid in t.subjects ==> id !in t.subjects[sid])
  {
    UpdatePreservesConsistent(s, id, c, now);
    var t := Files.UpdateFile(s, id, c, now).0;
    if c.subjectId.value.None? {
      assert forall sid :: sid in t.subjects && id in t.subjects[sid] ==> HasSubject(t.files, id, sid);
    }
  }

  /** In a consistent store a subject's records are exactly the records with that subject, each once. */
  lemma SubjectListing(s: Store, sid: string)
    requires Consistent(s)
    ensures var r := GetFilesBySubject(s, sid);
      && (forall f :: f in r <==> f in s.files.Values && f.subjectId == Some(sid))
      && |r| == (if sid in s.subjects then |s.subjects[sid]| else 0)
  {
    var r := GetFilesBySubject(s, sid);
    forall f | f in s.files.Values && f.subjectId == Some(sid)
      ensures f in r
    {
      var id :| id in s.files && s.files[id] == f;
      assert sid in s.subjects && id in s.subjects[sid];
    }
    if sid in s.subjects {
      assert forall id :: id in s.subjects[sid] ==> HasSubject(s.files, id, sid);
    }
  }

  /**
   * `list_files` in a consistent store: exactly the records matching both
   * filters, whichever table the subject filter reads.
   */
  lemma ListingMatchesFilters(s: Store, fileType: Option<string>, subjectId: Option<string>)
    requires Consistent(s)
    ensures forall f :: f in ListFiles(s, fileType, subjectId) <==>
      && f in s.files.Values
      && (subjectId.None? || f.subjectId == subjectId)
      && (fileType.None? || TypeName(f.fileType) == fileType.value)
  {
    if subjectId.Some? {
      SubjectListing(s, subjectId.value);
    }
  }

  // ---------------------------------------------------------------------------
  // The preconditions are needed
  // ---------------------------------------------------------------------------

  /** A record with id `id` and permalink `p`, and nothing else set. */
  function Plain(id: Id, p: string): (f: FileRecord)
    ensures f.id == id && f.permalink == p && f.subjectId.None?
  {
    FileRecord(id, "text/plain", Document, 0, p, 0, 0, None, None, None, None, None)
  }

  /** Putting a record again under its id with a new permalink leaves the old permalink pointing at it. */
  lemma PutOverwriteLeavesStalePermalink()
    ensures var s := PutFile(Open(), Plain("x", "a"));
      && Consistent(s)
      && !Consistent(PutFile(s, Plain("x", "b")))
  {
    var s := PutFile(Open(), Plain("x", "a"));
    PutPreservesConsistent(Open(), Plain("x", "a"));
    var t := PutFile(s, Plain("x", "b"));
    assert t.permalinks["a"] == "x" && t.files["x"].permalink == "b";
  }

  /** Updating a record to another record's permalink takes that permalink's entry away from its owner. */
  lemma UpdateStealsPermalink()
    ensures var s := PutFile(PutFile(Open(), Plain("x", "a")), Plain("y", "b"));
      var c := Changes(None, None, None, None, Some("b"), None);
      && Consistent(s)
      && !Consistent(Files.UpdateFile(s, "x", c, 1).0)
  {
    var s1 := PutFile(Open(), Plain("x", "a"));
    PutPreservesConsistent(Open(), Plain("x", "a"));
    var s := PutFile(s1, Plain("y", "b"));
    PutPreservesConsistent(s1, Plain("y", "b"));
    var c := Changes(None, None, None, None, Some("b"), None);
    var t := Files.UpdateFile(s, "x", c, 1).0;
    assert t.permalinks["b"] == "x" && t.files["y"].permalink == "b";
  }
}
