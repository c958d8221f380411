/**
 * The metadata database: three tables kept in one transactional store, the
 * consistency invariant that ties the two indexes to the records, and the
 * administrative purge.
 *
 * Every repository operation runs in one write transaction, so each is modelled
 * as one atomic transition from a `Store` to a `Store`.
 */
module Store {
  import opened Wrappers
  import opened Models

  /**
   * The three tables: records keyed by id, the permalink index
   * (permalink to id) and the subject index (subject id to an ordered list of ids).
   */
  datatype Store = Store(
    files: map<Id, FileRecord>,
    permalinks: map<string, Id>,
    subjects: map<string, seq<Id>>
  )

  /** A sequence with no element twice. */
  predicate NoDuplicates<T(==)>(xs: seq<T>) {
    forall i, j :: 0 <= i < j < |xs| ==> xs[i] != xs[j]
  }

  /** The live record `id` belongs to subject `sid`. */
  predicate HasSubject(files: map<Id, FileRecord>, id: Id, sid: string) {
    id in files && files[id].subjectId == Some(sid)
  }

  /** Every record is stored under its own id. */
  ghost predicate KeyedById(files: map<Id, FileRecord>) {
    forall id :: id in files ==> files[id].id == id
  }

  /** The permalink index holds exactly one entry per live record, naming that record. */
  ghost predicate PermalinksExact(files: map<Id, FileRecord>, permalinks: map<string, Id>) {
    && (forall p :: p in permalinks ==> permalinks[p] in files && files[permalinks[p]].permalink == p)
    && (forall id :: id in files ==> files[id].permalink in permalinks && permalinks[files[id].permalink] == id)
  }

  /**
   * The subject index lists, for each subject some live record belongs to,
   * exactly the ids of those records, without repetition; no list is empty.
   */
  ghost predicate SubjectsExact(files: map<Id, FileRecord>, subjects: map<string, seq<Id>>) {
    && (forall sid :: sid in subjects ==> subjects[sid] != [] && NoDuplicates(subjects[sid]))
    && (forall sid, id :: sid in subjects && id in subjects[sid] ==> HasSubject(files, id, sid))
    && (forall id :: id in files && files[id].subjectId.Some? ==>
          files[id].subjectId.value in subjects && id in subjects[files[id].subjectId.value])
  }

  /** Both indexes are exactly what the live records imply. */
  ghost predicate Consistent(s: Store) {
    && KeyedById(s.files)
    && PermalinksExact(s.files, s.permalinks)
    && SubjectsExact(s.files, s.subjects)
  }

  /** `Database::open` on a fresh directory: all three tables exist and are empty. */
  function Open(): (s: Store)
    ensures Consistent(s)
    ensures |s.files| == 0 && |s.permalinks| == 0 && |s.subjects| == 0
  {
    Store(map[], map[], map[])
  }

  /** `PurgeStats`: how many records a purge removed. */
  datatype PurgeStats = PurgeStats(files: nat)

  /** Removes every key of `table` one at a time, counting the removals. */
  method ClearTable<K, V>(table: map<K, V>) returns (cleared: map<K, V>, removed: nat)
    ensures cleared == map[]
    ensures removed == |table|
  {
    cleared := table;
    removed := 0;
    while |cleared| > 0
      invariant removed + |cleared| == |table|
      decreases |cleared|
    {
      var k :| k in cleared;
      cleared := cleared - {k};
      removed := removed + 1;
    }
  }

  /**
   * `Database::purge_all`: clears the records table, then the permalink
   * index, then the subject index, and reports how many records it removed.
   */
  method PurgeAll(s: Store) returns (t: Store, stats: PurgeStats)
    ensures t == Open()
    ensures stats.files == |s.files|
  {
    var files, count := ClearTable(s.files);
    var permalinks, _ := ClearTable(s.permalinks);
    var subjects, _ := ClearTable(s.subjects);
    t := Store(files, permalinks, subjects);
    stats := PurgeStats(count);
  }

  /** Purging twice: the second purge finds nothing to remove and leaves the empty store as it is. */
  method PurgeTwice(s: Store) returns (first: PurgeStats, second: PurgeStats, t: Store)
    ensures first.files == |s.files|
    ensures second.files == 0
    ensures t == Open()
  {
    var once;
    once, first := PurgeAll(s);
    t, second := PurgeAll(once);
  }
}
