/** The archive store (sttfast/db.py) as a state machine.

    The database holds three relations: `files` (rowid to file row, the path
    UNIQUE), `segments` (rowid to segment row, `file_id` a foreign key into
    `files`, enforced because the connection turns foreign keys on) and the
    full-text shadow index `seg_fts` (segment rowid to indexed text). The
    three triggers of the schema are the transition rules that keep the index
    in step with `segments`. Rowids are handed out from counters; the
    connection remembers the rowid of its last successful INSERT, which is
    what `cursor.lastrowid` reports. */
module Archive {
  import opened Wrappers
  import opened Segments

  datatype FileRow = FileRow(path: string, parent: string, duration: Option<real>, language: Option<string>)

  /** A stored segment; `tones` holds the JSON text of the tone list. */
  datatype SegRow = SegRow(fileId: int, start: real, end: real, text: string, sentiment: Option<string>, tones: string)

  datatype Db = Db(
    files: map<int, FileRow>,
    segments: map<int, SegRow>,
    fts: map<int, string>,
    nextFileId: int,
    nextSegId: int,
    lastInsertRowid: int)

  datatype DbError = ForeignKeyViolation

  // ---------------------------------------------------------------------------
  // Invariants
  // ---------------------------------------------------------------------------

  /** The UNIQUE constraint on `files.path`. */
  predicate UniquePaths(files: map<int, FileRow>) {
    forall a, b :: a in files && b in files && files[a].path == files[b].path ==> a == b
  }

  /** Every segment's `file_id` names an existing file. */
  predicate ForeignKeys(db: Db) {
    forall id :: id in db.segments ==> db.segments[id].fileId in db.files
  }

  /** The central consistency rule: one index entry per segment, carrying the
      segment's text, and no entry without a segment. */
  predicate IndexMirrorsSegments(db: Db) {
    && db.fts.Keys == db.segments.Keys
    && forall id :: id in db.segments ==> db.fts[id] == db.segments[id].text
  }

  /** Rowids are positive and below the next one to be handed out. */
  predicate RowidsBelowCounters(db: Db) {
    && 1 <= db.nextFileId && 1 <= db.nextSegId
    && (forall id :: id in db.files ==> 1 <= id < db.nextFileId)
    && (forall id :: id in db.segments ==> 1 <= id < db.nextSegId)
  }

  predicate Valid(db: Db) {
    && UniquePaths(db.files)
    && ForeignKeys(db)
    && IndexMirrorsSegments(db)
    && RowidsBelowCounters(db)
  }

  /** A freshly created database on a new connection. */
  function EmptyDb(): (db: Db)
    ensures Valid(db)
    ensures db.files == map[] && db.segments == map[] && db.fts == map[]
  {
    Db(map[], map[], map[], 1, 1, 0)
  }

  /** Opening a new connection (`open_db`): the stored data and counters
      stay, and the connection has inserted nothing yet. */
  function Reconnect(db: Db): (r: Db)
    ensures Valid(db) ==> Valid(r)
    ensures r.lastInsertRowid == 0
  {
    db.(lastInsertRowid := 0)
  }

  // ---------------------------------------------------------------------------
  // insert_file
  // ---------------------------------------------------------------------------

  predicate HasPath(files: map<int, FileRow>, path: string) {
    exists id :: id in files && files[id].path == path
  }

  /** Every row of `a` is still in `b`, under the same id. */
  predicate KeepsFiles(a: map<int, FileRow>, b: map<int, FileRow>) {
    forall id :: id in a ==> id in b && b[id] == a[id]
  }

  /** A path recorded in `a` is recorded in any table that keeps `a`'s rows. */
  lemma KeptPath(a: map<int, FileRow>, b: map<int, FileRow>, path: string)
    requires KeepsFiles(a, b) && HasPath(a, path)
    ensures HasPath(b, path)
  {
    var id :| id in a && a[id].path == path;
    assert id in b && b[id].path == path;
  }

  /** With unique paths, the row holding a path is the one `SELECT id`
      finds. */
  lemma FileIdIs(files: map<int, FileRow>, path: string, id: int)
    requires UniquePaths(files) && id in files && files[id].path == path
    ensures HasPath(files, path) && FileIdOf(files, path) == id
  {
    assert HasPath(files, path);
    var j := FileIdOf(files, path);
    assert files[j].path == files[id].path;
  }

  /** A table that keeps another's rows finds a recorded path under the
      same id. */
  lemma FileIdKept(a: map<int, FileRow>, b: map<int, FileRow>, path: string)
    requires UniquePaths(a) && UniquePaths(b) && KeepsFiles(a, b) && HasPath(a, path)
    ensures HasPath(b, path) && FileIdOf(b, path) == FileIdOf(a, path)
  {
    var id := FileIdOf(a, path);
    FileIdIs(b, path, id);
  }

  /** `SELECT id FROM files WHERE path=?` */
  function FileIdOf(files: map<int, FileRow>, path: string): (id: int)
    requires UniquePaths(files) && HasPath(files, path)
    ensures id in files && files[id].path == path
  {
    var id :| id in files && files[id].path == path; id
  }

  /** `INSERT OR IGNORE INTO files ...`: a new row under the next rowid, or
      nothing at all when the path is taken. */
  function InsertOrIgnoreFile(db: Db, row: FileRow): Db {
    if HasPath(db.files, row.path) then db
    else db.(files := db.files[db.nextFileId := row],
             nextFileId := db.nextFileId + 1,
             lastInsertRowid := db.nextFileId)
  }

  /** `insert_file` with the evidently intended two outcomes: a new path gets a
      new row and its id; a known path leaves the database alone and yields
      the existing id (stored parent, duration and language are kept). */
  function InsertFile(db: Db, path: string, parent: string, duration: Option<real>, language: Option<string>): (r: (Db, int))
    requires UniquePaths(db.files)
    ensures r.1 in r.0.files && r.0.files[r.1].path == path
    ensures var (db', id) := r;
      && (HasPath(db.files, path) ==>
        && db' == db
        && id in db.files && db.files[id].path == path)
      && (!HasPath(db.files, path) ==>
        && id == db.nextFileId
        && db'.files == db.files[id := FileRow(path, parent, duration, language)]
        && db'.segments == db.segments && db'.fts == db.fts
        && db'.nextSegId == db.nextSegId
        && db'.lastInsertRowid == id)
  {
    var db' := InsertOrIgnoreFile(db, FileRow(path, parent, duration, language));
    if !HasPath(db.files, path) then (db', db'.lastInsertRowid)
    else assert db' == db; (db', FileIdOf(db'.files, path))
  }

  /** `insert_file` as written: the new-row test is the truthiness of
      `cursor.lastrowid`, which after an ignored insert still holds the
      connection's previous INSERT rowid. */
  function InsertFileAsWritten(db: Db, path: string, parent: string, duration: Option<real>, language: Option<string>): (r: (Db, int))
    requires UniquePaths(db.files) && 1 <= db.nextFileId
    ensures r.0 == InsertFile(db, path, parent, duration, language).0
    ensures db.lastInsertRowid == 0 || !HasPath(db.files, path) ==>
      r.1 == InsertFile(db, path, parent, duration, language).1
    ensures db.lastInsertRowid != 0 && HasPath(db.files, path) ==> r.1 == db.lastInsertRowid
  {
    var db' := InsertOrIgnoreFile(db, FileRow(path, parent, duration, language));
    if db'.lastInsertRowid != 0 then (db', db'.lastInsertRowid)
    else assert db' == db; (db', FileIdOf(db'.files, path))
  }

  /** The discrepancy of the written `insert_file`: on one connection, ingest a
      file and its two segments, then ingest the same path again. The
      ignored insert leaves the last rowid at the second segment's id, which
      is returned as the file id although no file has it, so the following
      `insert_segments` fails the foreign-key check. The corrected version
      returns the stored id 1 and the insert succeeds. */
  lemma InsertFileAsWrittenReturnsSegmentId(encodeTones: seq<string> -> string)
    ensures var seg := Segment(0.0, 1.0, "hi", None, None);
      var (db1, id1) := InsertFile(EmptyDb(), "a.wav", "p", None, None);
      var db2 := AppendRows(db1, id1, [seg, seg], encodeTones);
      var (db3, id3) := InsertFileAsWritten(db2, "a.wav", "p", None, None);
      && InsertSegments(db1, id1, [seg, seg], encodeTones) == Ok(db2)
      && id3 == 2 && id3 !in db3.files
      && InsertSegments(db3, id3, [seg], encodeTones).Err?
      && InsertFile(db2, "a.wav", "p", None, None).1 == 1
      && InsertSegments(db3, 1, [seg], encodeTones).Ok?
  {
    var seg := Segment(0.0, 1.0, "hi", None, None);
    var row := FileRow("a.wav", "p", None, None);
    var (db1, id1) := InsertFile(EmptyDb(), "a.wav", "p", None, None);
    assert !HasPath(EmptyDb().files, "a.wav");
    assert id1 == 1 && db1.files == map[1 := row] && db1.nextFileId == 2;
    var db2 := AppendRows(db1, id1, [seg, seg], encodeTones);
    assert db2.files == db1.files && db2.nextFileId == 2 && db2.lastInsertRowid == 2;
    assert HasPath(db2.files, "a.wav") by { assert db2.files[1].path == "a.wav"; }
    var (db3, id3) := InsertFileAsWritten(db2, "a.wav", "p", None, None);
    assert db3 == db2 && id3 == 2;
    assert db3.files.Keys == {1};
  }

  lemma InsertFileValid(db: Db, path: string, parent: string, duration: Option<real>, language: Option<string>)
    requires Valid(db)
    ensures Valid(InsertFile(db, path, parent, duration, language).0)
    ensures KeepsFiles(db.files, InsertFile(db, path, parent, duration, language).0.files)
  {
  }

  /** Ingesting the same path twice: the second call changes nothing and
      returns the first call's id, and exactly one row carries the path. */
  lemma InsertFileIdempotent(db: Db, path: string, parent: string, duration: Option<real>, language: Option<string>,
                             parent2: string, duration2: Option<real>, language2: Option<string>)
    requires Valid(db)
    ensures var (db1, id1) := InsertFile(db, path, parent, duration, language);
      var (db2, id2) := InsertFile(db1, path, parent2, duration2, language2);
      && db2 == db1 && id2 == id1
      && forall id :: id in db2.files && db2.files[id].path == path <==> id == id1
  {
    var (db1, id1) := InsertFile(db, path, parent, duration, language);
    assert HasPath(db1.files, path) by {
      assert id1 in db1.files && db1.files[id1].path == path;
    }
    assert UniquePaths(db1.files);
  }

  // ---------------------------------------------------------------------------
  // insert_segments and the AFTER INSERT trigger
  // ---------------------------------------------------------------------------

  /** The row stored for one segment: sentiment None when absent, tones the
      JSON text of the list (of `[]` when absent). */
  function RowOf(fileId: int, s: Segment, encodeTones: seq<string> -> string): (row: SegRow)
    ensures row.fileId == fileId && row.start == s.start && row.end == s.end && row.text == s.text
    ensures row.sentiment == s.sentiment
    ensures row.tones == encodeTones(s.tones.GetOr([]))
  {
    SegRow(fileId, s.start, s.end, s.text, s.sentiment, encodeTones(s.tones.GetOr([])))
  }

  /** One `INSERT INTO segments`, followed by the `seg_ai` trigger's insert of
      the same rowid and text into the index. */
  function InsertSegmentRow(db: Db, row: SegRow): Db {
    var id := db.nextSegId;
    db.(segments := db.segments[id := row],
        fts := db.fts[id := row.text],
        nextSegId := id + 1,
        lastInsertRowid := id)
  }

  /** The segment that receives rowid `id` when the batch starts at `first`. */
  function SegmentAt(segs: seq<Segment>, first: int, id: int): Segment
    requires first <= id < first + |segs|
  {
    segs[id - first]
  }

  /** One value per segment, keyed by the rowid the segment receives when
      the batch starts at `first`. */
  function Rows<V>(first: int, segs: seq<Segment>, f: Segment -> V): map<int, V> {
    map id | first <= id < first + |segs| :: f(SegmentAt(segs, first, id))
  }

  /** The rows `insert_segments` adds, keyed by the rowids they receive. */
  function NewRows(first: int, fileId: int, segs: seq<Segment>, encodeTones: seq<string> -> string): map<int, SegRow> {
    Rows(first, segs, RowMaker(fileId, encodeTones))
  }

  function RowMaker(fileId: int, encodeTones: seq<string> -> string): Segment -> SegRow {
    s => RowOf(fileId, s, encodeTones)
  }

  /** The index entries the insert trigger adds for them. */
  function NewEntries(first: int, segs: seq<Segment>): map<int, string> {
    Rows(first, segs, SegText)
  }

  function SegText(s: Segment): string {
    s.text
  }

  /** Storing the first segment's value, then the rest's from the next rowid,
      stores them all. */
  lemma RowsStep<V>(m: map<int, V>, first: int, segs: seq<Segment>, f: Segment -> V)
    requires segs != []
    ensures m[first := f(segs[0])] + Rows(first + 1, segs[1..], f) == m + Rows(first, segs, f)
  {
    var lhs := m[first := f(segs[0])] + Rows(first + 1, segs[1..], f);
    var rhs := m + Rows(first, segs, f);
    assert lhs.Keys == rhs.Keys;
    forall k | k in lhs.Keys
      ensures lhs[k] == rhs[k]
    {
      if first + 1 <= k < first + |segs| {
        assert SegmentAt(segs[1..], first + 1, k) == SegmentAt(segs, first, k);
      }
    }
  }

  /** The rowids of a batch of `n` starting at `first`. */
  function RowIds(first: int, n: nat): (r: set<int>)
    ensures forall id :: id in r <==> first <= id < first + n
  {
    if n == 0 then {} else RowIds(first, n - 1) + {first + n - 1}
  }

  lemma {:induction false} RowIdsSize(first: int, n: nat)
    ensures |RowIds(first, n)| == n
    decreases n
  {
    if n > 0 {
      var a, last := RowIds(first, n - 1), first + n - 1;
      assert RowIds(first, n) == a + {last};
      assert last !in a;
      RowIdsSize(first, n - 1);
      assert |a + {last}| == |a| + 1;
    }
  }


  /** The loop of `insert_segments`: one insert per segment, in order. */
  function AppendRows(db: Db, fileId: int, segs: seq<Segment>, encodeTones: seq<string> -> string): (r: Db)
    ensures r.files == db.files
    ensures r.nextFileId == db.nextFileId
    ensures r.nextSegId == db.nextSegId + |segs|
    ensures r.lastInsertRowid == if segs == [] then db.lastInsertRowid else r.nextSegId - 1
    decreases |segs|
  {
    if segs == [] then db
    else AppendRows(InsertSegmentRow(db, RowOf(fileId, segs[0], encodeTones)), fileId, segs[1..], encodeTones)
  }

  /** The loop adds exactly the rows numbered from the segment counter, one
      per segment and in order. */
  lemma {:induction false} AppendRowsAddsRows(db: Db, fileId: int, segs: seq<Segment>, encodeTones: seq<string> -> string)
    ensures AppendRows(db, fileId, segs, encodeTones).segments == db.segments + NewRows(db.nextSegId, fileId, segs, encodeTones)
    decreases |segs|
  {
    var n := db.nextSegId;
    if segs == [] {
      assert NewRows(n, fileId, segs, encodeTones) == map[];
    } else {
      var row0 := RowOf(fileId, segs[0], encodeTones);
      var db1 := InsertSegmentRow(db, row0);
      var r := AppendRows(db1, fileId, segs[1..], encodeTones);
      assert AppendRows(db, fileId, segs, encodeTones) == r;
      assert db1.segments == db.segments[n := row0] && db1.nextSegId == n + 1;
      AppendRowsAddsRows(db1, fileId, segs[1..], encodeTones);
      RowsStep(db.segments, n, segs, RowMaker(fileId, encodeTones));
    }
  }

  /** ... and exactly the index entries the insert trigger writes for them. */
  lemma {:induction false} AppendRowsAddsEntries(db: Db, fileId: int, segs: seq<Segment>, encodeTones: seq<string> -> string)
    ensures AppendRows(db, fileId, segs, encodeTones).fts == db.fts + NewEntries(db.nextSegId, segs)
    decreases |segs|
  {
    var n := db.nextSegId;
    if segs == [] {
      assert NewEntries(n, segs) == map[];
    } else {
      var row0 := RowOf(fileId, segs[0], encodeTones);
      var db1 := InsertSegmentRow(db, row0);
      var r := AppendRows(db1, fileId, segs[1..], encodeTones);
      assert AppendRows(db, fileId, segs, encodeTones) == r;
      assert db1.fts == db.fts[n := segs[0].text] && db1.nextSegId == n + 1;
      AppendRowsAddsEntries(db1, fileId, segs[1..], encodeTones);
      RowsStep(db.fts, n, segs, SegText);
    }
  }

  /** `insert_segments`. All rows carry the same `file_id`, so with an unknown
      file the very first insert fails the foreign-key check and nothing is
      stored; an empty batch issues no insert and cannot fail. */
  function InsertSegments(db: Db, fileId: int, segs: seq<Segment>, encodeTones: seq<string> -> string): (r: Result<Db, DbError>)
    ensures r.Ok? <==> segs == [] || fileId in db.files
    ensures r.Ok? ==>
      && r.value.files == db.files
      && r.value.segments == db.segments + NewRows(db.nextSegId, fileId, segs, encodeTones)
      && r.value.fts == db.fts + NewEntries(db.nextSegId, segs)
  {
    if segs != [] && fileId !in db.files then Err(ForeignKeyViolation)
    else
      AppendRowsAddsRows(db, fileId, segs, encodeTones);
      AppendRowsAddsEntries(db, fileId, segs, encodeTones);
      Ok(AppendRows(db, fileId, segs, encodeTones))
  }

  /** `insert_segments` on a valid store leaves it valid: the insert trigger
      keeps the index a mirror of the segment table. */
  lemma InsertSegmentsValid(db: Db, fileId: int, segs: seq<Segment>, encodeTones: seq<string> -> string)
    requires Valid(db)
    requires InsertSegments(db, fileId, segs, encodeTones).Ok?
    ensures Valid(InsertSegments(db, fileId, segs, encodeTones).value)
  {
    var db' := InsertSegments(db, fileId, segs, encodeTones).value;
    var n := db.nextSegId;
    var rows := NewRows(n, fileId, segs, encodeTones);
    var entries := NewEntries(n, segs);
    assert rows.Keys == entries.Keys;
    assert db'.fts.Keys == db'.segments.Keys;
    forall id | id in db'.segments
      ensures db'.fts[id] == db'.segments[id].text
      ensures db'.segments[id].fileId in db'.files
      ensures 1 <= id < db'.nextSegId
    {
      if id in rows {
        assert db'.segments[id] == rows[id] && db'.fts[id] == entries[id];
      } else {
        assert db'.segments[id] == db.segments[id] && db'.fts[id] == db.fts[id];
      }
    }
  }

  /** `insert_segments` on a valid store adds exactly `|segs|` rows. */
  lemma InsertSegmentsCount(db: Db, fileId: int, segs: seq<Segment>, encodeTones: seq<string> -> string)
    requires Valid(db)
    requires InsertSegments(db, fileId, segs, encodeTones).Ok?
    ensures |InsertSegments(db, fileId, segs, encodeTones).value.segments| == |db.segments| + |segs|
  {
    var db' := InsertSegments(db, fileId, segs, encodeTones).value;
    var rows := NewRows(db.nextSegId, fileId, segs, encodeTones);
    assert rows.Keys !! db.segments.Keys;
    assert db'.segments.Keys == db.segments.Keys + rows.Keys;
    NewRowsSize(db.nextSegId, fileId, segs, encodeTones);
    assert |db'.segments.Keys| == |db.segments.Keys| + |rows.Keys|;
  }

  /** The i-th new row and index entry sit under rowid `first + i`. */
  lemma NewRowsAt(first: int, fileId: int, segs: seq<Segment>, encodeTones: seq<string> -> string, i: nat)
    requires i < |segs|
    ensures first + i in NewRows(first, fileId, segs, encodeTones)
    ensures NewRows(first, fileId, segs, encodeTones)[first + i] == RowOf(fileId, segs[i], encodeTones)
    ensures first + i in NewEntries(first, segs) && NewEntries(first, segs)[first + i] == segs[i].text
  {
    assert SegmentAt(segs, first, first + i) == segs[i];
  }

  /** `insert_segments` leaves every old row as it was. */
  lemma InsertSegmentsKeeps(db: Db, fileId: int, segs: seq<Segment>, encodeTones: seq<string> -> string)
    requires Valid(db)
    requires InsertSegments(db, fileId, segs, encodeTones).Ok?
    ensures var db' := InsertSegments(db, fileId, segs, encodeTones).value;
      forall id :: id in db.segments ==> id in db'.segments && db'.segments[id] == db.segments[id]
  {
    var rows := NewRows(db.nextSegId, fileId, segs, encodeTones);
    assert forall id :: id in db.segments ==> id !in rows;
  }

  /** What the new rows are: under rowids unused before, the i-th carries
      segment i and the given file id and is indexed under its text. */
  lemma InsertSegmentsAdds(db: Db, fileId: int, segs: seq<Segment>, encodeTones: seq<string> -> string, i: nat)
    requires Valid(db)
    requires InsertSegments(db, fileId, segs, encodeTones).Ok?
    requires i < |segs|
    ensures var db' := InsertSegments(db, fileId, segs, encodeTones).value;
      && db.nextSegId + i !in db.segments
      && db.nextSegId + i in db'.segments
      && db'.segments[db.nextSegId + i] == RowOf(fileId, segs[i], encodeTones)
      && db'.fts[db.nextSegId + i] == segs[i].text
  {
    NewRowsAt(db.nextSegId, fileId, segs, encodeTones, i);
  }


  /** Every row of `a` is still in `b`, under the same rowid. */
  predicate KeepsSegments(a: map<int, SegRow>, b: map<int, SegRow>) {
    forall id :: id in a ==> id in b && b[id] == a[id]
  }

  /** The rows `insert_segments` leaves for a batch: segment i under rowid
      `first + i`, filed under `fileId`, and indexed by its text. */
  predicate RowsAt(db: Db, first: int, fileId: int, segs: seq<Segment>, encodeTones: seq<string> -> string) {
    forall i :: 0 <= i < |segs| ==> StoredAt(db, first, fileId, segs, encodeTones, i)
  }

  /** Segment i of the batch is stored at rowid `first + i` and indexed by
      its text. */
  predicate StoredAt(db: Db, first: int, fileId: int, segs: seq<Segment>, encodeTones: seq<string> -> string, i: int)
    requires 0 <= i < |segs|
  {
    && first + i in db.segments && db.segments[first + i] == RowOf(fileId, segs[i], encodeTones)
    && first + i in db.fts && db.fts[first + i] == segs[i].text
  }

  /** `insert_segments` stores the batch from the next rowid on and keeps
      every old row. */
  lemma InsertSegmentsRowsAt(db: Db, fileId: int, segs: seq<Segment>, encodeTones: seq<string> -> string)
    requires Valid(db)
    requires InsertSegments(db, fileId, segs, encodeTones).Ok?
    ensures var db' := InsertSegments(db, fileId, segs, encodeTones).value;
      && RowsAt(db', db.nextSegId, fileId, segs, encodeTones)
      && KeepsSegments(db.segments, db'.segments)
  {
    var db' := InsertSegments(db, fileId, segs, encodeTones).value;
    forall i | 0 <= i < |segs|
      ensures StoredAt(db', db.nextSegId, fileId, segs, encodeTones, i)
    {
      StoredAfterInsert(db, db', fileId, segs, encodeTones, i);
    }
    InsertSegmentsKeeps(db, fileId, segs, encodeTones);
  }

  lemma StoredAfterInsert(db: Db, db': Db, fileId: int, segs: seq<Segment>, encodeTones: seq<string> -> string, i: nat)
    requires i < |segs|
    requires db'.segments == db.segments + NewRows(db.nextSegId, fileId, segs, encodeTones)
    requires db'.fts == db.fts + NewEntries(db.nextSegId, segs)
    ensures StoredAt(db', db.nextSegId, fileId, segs, encodeTones, i)
  {
    NewRowsAt(db.nextSegId, fileId, segs, encodeTones, i);
  }

  /** Stored rows stay where they are in any later valid state that keeps
      the segment table's rows. */
  lemma RowsAtKept(a: Db, b: Db, first: int, fileId: int, segs: seq<Segment>, encodeTones: seq<string> -> string)
    requires RowsAt(a, first, fileId, segs, encodeTones)
    requires KeepsSegments(a.segments, b.segments) && Valid(b)
    ensures RowsAt(b, first, fileId, segs, encodeTones)
  {
    forall i | 0 <= i < |segs|
      ensures StoredAt(b, first, fileId, segs, encodeTones, i)
    {
      assert StoredAt(a, first, fileId, segs, encodeTones, i);
      RowKept(a, b, first + i, RowOf(fileId, segs[i], encodeTones));
    }
  }

  /** One stored row stays, with its index entry, in a later valid state
      that keeps the segment table's rows. */
  lemma RowKept(a: Db, b: Db, id: int, row: SegRow)
    requires id in a.segments && a.segments[id] == row
    requires KeepsSegments(a.segments, b.segments) && Valid(b)
    ensures id in b.segments && b.segments[id] == row
    ensures id in b.fts && b.fts[id] == row.text
  {
  }

  lemma NewRowsSize(first: int, fileId: int, segs: seq<Segment>, encodeTones: seq<string> -> string)
    ensures |NewRows(first, fileId, segs, encodeTones).Keys| == |segs|
  {
    assert NewRows(first, fileId, segs, encodeTones).Keys == RowIds(first, |segs|);
    RowIdsSize(first, |segs|);
  }

  // ---------------------------------------------------------------------------
  // The delete and update triggers
  // ---------------------------------------------------------------------------

  /** `DELETE FROM segments WHERE id=?` with the `seg_ad` trigger, which issues
      the index's 'delete' command for the old rowid and text. */
  function DeleteSegment(db: Db, id: int): (db': Db)
    ensures db'.files == db.files
    ensures db'.segments.Keys == db.segments.Keys - {id}
    ensures forall k :: k in db'.segments ==> db'.segments[k] == db.segments[k]
    ensures id in db.segments ==> id !in db'.fts
    ensures forall k :: k in db.fts && k != id ==> k in db'.fts && db'.fts[k] == db.fts[k]
  {
    if id !in db.segments then db
    else db.(segments := db.segments - {id}, fts := db.fts - {id})
  }

  /** `UPDATE segments SET ... WHERE id=?` with the `seg_au` trigger: the old
      index entry is deleted and the new text indexed under the same rowid. A
      row whose new `file_id` names no file fails the foreign-key check. */
  function UpdateSegment(db: Db, id: int, row: SegRow): (r: Result<Db, DbError>)
    ensures r.Err? <==> id in db.segments && row.fileId !in db.files
    ensures r.Ok? && id in db.segments ==>
      && r.value.segments == db.segments[id := row]
      && r.value.fts == (db.fts - {id})[id := row.text]
    ensures r.Ok? && id !in db.segments ==> r.value == db
  {
    if id !in db.segments then Ok(db)
    else if row.fileId !in db.files then Err(ForeignKeyViolation)
    else Ok(db.(segments := db.segments[id := row], fts := (db.fts - {id})[id := row.text]))
  }

  /** Both triggers keep the index a mirror of the segment table. */
  lemma TriggersPreserveValid(db: Db, id: int, row: SegRow)
    requires Valid(db)
    ensures Valid(DeleteSegment(db, id))
    ensures UpdateSegment(db, id, row).Ok? ==> Valid(UpdateSegment(db, id, row).value)
  {
  }
}
