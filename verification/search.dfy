/** Phrase search over the archive (sttfast/search.py).

    The query joins the full-text index to the segment table and the segment
    to its file, keeps the entries whose indexed text the full-text engine
    matches against the query, and orders the hits by file path and then by
    start time. The engine's tokenisation and MATCH syntax are a parameter:
    `matches(query, text)`. */
module Search {
  import opened Wrappers
  import opened Text
  import opened Segments
  import opened Archive

  datatype Hit = Hit(segmentId: int, file: string, start: real, end: real, text: string)

  /** Index entry `id` survives both joins: its segment and that segment's
      file exist. */
  predicate Joined(db: Db, id: int) {
    id in db.fts && id in db.segments && db.segments[id].fileId in db.files
  }

  /** Segment `id` is a result of the query. */
  predicate Found(db: Db, query: string, matches: (string, string) -> bool, id: int) {
    Joined(db, id) && matches(query, db.fts[id])
  }

  /** The hit reported for a joined entry: the segment's own fields and the
      path of the file that owns it. */
  function HitOf(db: Db, id: int): (h: Hit)
    requires Joined(db, id)
    ensures h.segmentId == id && h.file == db.files[db.segments[id].fileId].path
    ensures h.start == db.segments[id].start && h.end == db.segments[id].end && h.text == db.segments[id].text
  {
    var row := db.segments[id];
    Hit(id, db.files[row.fileId].path, row.start, row.end, row.text)
  }

  /** `ORDER BY f.path, s.start`: paths compare character by character, and
      only equal paths fall through to the start time. */
  predicate HitLe(a: Hit, b: Hit) {
    if a.file == b.file then a.start <= b.start else LexLe(a.file, b.file)
  }

  lemma HitLeTotal(a: Hit, b: Hit)
    ensures HitLe(a, b) || HitLe(b, a)
  {
    if a.file != b.file {
      LexLeTotal(a.file, b.file);
    }
  }

  lemma HitLeTransitive(a: Hit, b: Hit, c: Hit)
    requires HitLe(a, b) && HitLe(b, c)
    ensures HitLe(a, c)
  {
    if a.file == c.file && a.file != b.file {
      LexLeAntisymmetric(a.file, b.file);
    } else if a.file != b.file || b.file != c.file {
      if a.file == b.file {
        assert LexLe(b.file, c.file);
      } else if b.file == c.file {
        assert LexLe(a.file, b.file);
      } else {
        LexLeTransitive(a.file, b.file, c.file);
      }
    }
  }

  predicate Sorted(hits: seq<Hit>) {
    forall i, j :: 0 <= i < j < |hits| ==> HitLe(hits[i], hits[j])
  }

  /** Places one hit into a sorted list, after every hit it does not precede. */
  function InsertHit(h: Hit, hits: seq<Hit>): (r: seq<Hit>)
    ensures multiset(r) == multiset(hits) + multiset{h}
    ensures |r| == |hits| + 1
  {
    if hits == [] then [h]
    else if HitLe(h, hits[0]) then [h] + hits
    else
      assert hits == [hits[0]] + hits[1..];
      [hits[0]] + InsertHit(h, hits[1..])
  }

  lemma {:induction false} InsertHitSorted(h: Hit, hits: seq<Hit>)
    requires Sorted(hits)
    ensures Sorted(InsertHit(h, hits))
    decreases |hits|
  {
    if hits == [] {
    } else if HitLe(h, hits[0]) {
      var r := [h] + hits;
      forall i, j | 0 <= i < j < |r|
        ensures HitLe(r[i], r[j])
      {
        if i == 0 && j > 1 {
          HitLeTransitive(h, hits[0], hits[j - 1]);
        }
      }
    } else {
      HitLeTotal(h, hits[0]);
      var tail := InsertHit(h, hits[1..]);
      InsertHitSorted(h, hits[1..]);
      var r := [hits[0]] + tail;
      forall j | 0 <= j < |tail|
        ensures HitLe(hits[0], tail[j])
      {
        assert tail[j] in multiset(tail);
        assert tail[j] in multiset(hits[1..]) + multiset{h};
        if tail[j] != h {
          var k :| 0 <= k < |hits[1..]| && hits[1..][k] == tail[j];
          assert hits[k + 1] == tail[j];
        }
      }
      forall i, j | 0 <= i < j < |r|
        ensures HitLe(r[i], r[j])
      {
        if i > 0 {
          assert r[i] == tail[i - 1] && r[j] == tail[j - 1];
        } else {
          assert r[j] == tail[j - 1];
        }
      }
    }
  }

  /** The sort of the result set: insertion of each hit in turn. */
  function SortHits(hits: seq<Hit>): (r: seq<Hit>)
    ensures multiset(r) == multiset(hits)
    ensures |r| == |hits|
  {
    if hits == [] then []
    else
      assert hits == [hits[0]] + hits[1..];
      InsertHit(hits[0], SortHits(hits[1..]))
  }

  lemma {:induction false} SortHitsSorted(hits: seq<Hit>)
    ensures Sorted(SortHits(hits))
  {
    if hits != [] {
      SortHitsSorted(hits[1..]);
      InsertHitSorted(hits[0], SortHits(hits[1..]));
    }
  }

  function Ids(hits: seq<Hit>): (r: seq<int>)
    ensures |r| == |hits|
    ensures forall i :: 0 <= i < |hits| ==> r[i] == hits[i].segmentId
  {
    seq(|hits|, i requires 0 <= i < |hits| => hits[i].segmentId)
  }

  /** Every hit is a found segment, reported with its segment's and file's
      fields. */
  predicate AllFound(db: Db, query: string, matches: (string, string) -> bool, hits: seq<Hit>) {
    forall i :: 0 <= i < |hits| ==> Found(db, query, matches, hits[i].segmentId) && hits[i] == HitOf(db, hits[i].segmentId)
  }

  predicate DistinctIds(hits: seq<Hit>) {
    forall i, j :: 0 <= i < j < |hits| ==> hits[i].segmentId != hits[j].segmentId
  }

  lemma {:induction false} InsertHitDistinct(h: Hit, hits: seq<Hit>)
    requires DistinctIds(hits)
    requires forall i :: 0 <= i < |hits| ==> hits[i].segmentId != h.segmentId
    ensures DistinctIds(InsertHit(h, hits))
    decreases |hits|
  {
    if hits != [] && !HitLe(h, hits[0]) {
      var tail := InsertHit(h, hits[1..]);
      InsertHitDistinct(h, hits[1..]);
      var r := [hits[0]] + tail;
      forall j | 0 <= j < |tail|
        ensures tail[j].segmentId != hits[0].segmentId
      {
        assert tail[j] in multiset(hits[1..]) + multiset{h};
        if tail[j] != h {
          var k :| 0 <= k < |hits[1..]| && hits[1..][k] == tail[j];
          assert hits[k + 1] == tail[j];
        }
      }
      forall i, j | 0 <= i < j < |r|
        ensures r[i].segmentId != r[j].segmentId
      {
        assert r[j] == tail[j - 1];
        if i > 0 {
          assert r[i] == tail[i - 1];
        }
      }
    }
  }

  lemma {:induction false} SortHitsDistinct(hits: seq<Hit>)
    requires DistinctIds(hits)
    ensures DistinctIds(SortHits(hits))
  {
    if hits != [] {
      var rest := SortHits(hits[1..]);
      assert DistinctIds(hits[1..]) by {
        forall i, j | 0 <= i < j < |hits[1..]|
          ensures hits[1..][i].segmentId != hits[1..][j].segmentId
        {
          assert hits[1..][i] == hits[i + 1] && hits[1..][j] == hits[j + 1];
        }
      }
      SortHitsDistinct(hits[1..]);
      forall i | 0 <= i < |rest|
        ensures rest[i].segmentId != hits[0].segmentId
      {
        assert rest[i] in multiset(hits[1..]);
        var k :| 0 <= k < |hits[1..]| && hits[1..][k] == rest[i];
        assert hits[k + 1] == rest[i];
      }
      InsertHitDistinct(hits[0], rest);
    }
  }

  /** Sorting reports the same hits: each is still found, under the same ids. */
  lemma PermutationKeepsFound(db: Db, query: string, matches: (string, string) -> bool, a: seq<Hit>, b: seq<Hit>)
    requires multiset(a) == multiset(b)
    requires AllFound(db, query, matches, a)
    ensures AllFound(db, query, matches, b)
    ensures forall id :: id in Ids(a) ==> id in Ids(b)
  {
    forall i | 0 <= i < |b|
      ensures Found(db, query, matches, b[i].segmentId) && b[i] == HitOf(db, b[i].segmentId)
    {
      assert b[i] in multiset(a);
      var k :| 0 <= k < |a| && a[k] == b[i];
    }
    forall id | id in Ids(a)
      ensures id in Ids(b)
    {
      var k :| 0 <= k < |a| && Ids(a)[k] == id;
      assert a[k] in multiset(b);
      var m :| 0 <= m < |b| && b[m] == a[k];
      assert Ids(b)[m] == id;
    }
  }

  /** Some element of a non-empty set; which one does not matter to the
      result, since the hits are sorted afterwards. */
  method Pick(s: set<int>) returns (x: int)
    requires |s| > 0
    ensures x in s
  {
    assert exists y :: y in s by {
      if forall y :: y !in s {
        assert false;
      }
    }
    x :| x in s;
  }

  /** `search_phrase`: scan the index, keep the entries that pass both joins
      and match, and order the hits by path and start. Nothing found gives an
      empty list, not an error. */
  method SearchPhrase(db: Db, query: string, matches: (string, string) -> bool) returns (hits: seq<Hit>)
    ensures AllFound(db, query, matches, hits)
    ensures forall id :: Found(db, query, matches, id) ==> id in Ids(hits)
    ensures DistinctIds(hits)
    ensures Sorted(hits)
  {
    var found := ScanIndex(db, query, matches);
    hits := SortHits(found);
    SortHitsSorted(found);
    SortHitsDistinct(found);
    PermutationKeepsFound(db, query, matches, found, hits);
  }

  /** The scan of the index, in no particular order: each matching entry
      that passes both joins yields one hit. */
  method ScanIndex(db: Db, query: string, matches: (string, string) -> bool) returns (found: seq<Hit>)
    ensures AllFound(db, query, matches, found)
    ensures forall id :: Found(db, query, matches, id) ==> id in Ids(found)
    ensures DistinctIds(found)
  {
    var pending := db.fts.Keys;
    found := [];
    while |pending| > 0
      invariant pending <= db.fts.Keys
      invariant AllFound(db, query, matches, found)
      invariant DistinctIds(found)
      invariant forall i :: 0 <= i < |found| ==> found[i].segmentId !in pending
      invariant forall id :: Found(db, query, matches, id) ==> id in pending || id in Ids(found)
      decreases |pending|
    {
      var id := Pick(pending);
      if Found(db, query, matches, id) {
        var before := found;
        found := found + [HitOf(db, id)];
        assert Ids(found) == Ids(before) + [id];
      }
      pending := pending - {id};
    }
  }

  /** After `insert_segments` on a valid store, every new segment whose text
      the engine matches is found, reported under the owning file's path; old
      segments are found exactly as before. */
  lemma SearchFindsInsertedSegments(db: Db, fileId: int, segs: seq<Segment>, encodeTones: seq<string> -> string,
                                    db': Db, query: string, matches: (string, string) -> bool)
    requires Valid(db)
    requires InsertSegments(db, fileId, segs, encodeTones) == Ok(db')
    ensures forall i :: 0 <= i < |segs| ==>
      (Found(db', query, matches, db.nextSegId + i) <==> matches(query, segs[i].text))
    ensures forall i :: 0 <= i < |segs| && Found(db', query, matches, db.nextSegId + i) ==>
      HitOf(db', db.nextSegId + i) == Hit(db.nextSegId + i, db.files[fileId].path, segs[i].start, segs[i].end, segs[i].text)
    ensures forall id :: id in db.segments ==> (Found(db', query, matches, id) <==> Found(db, query, matches, id))
  {
    InsertSegmentsValid(db, fileId, segs, encodeTones);
    InsertSegmentsKeeps(db, fileId, segs, encodeTones);
    forall i | 0 <= i < |segs|
      ensures Found(db', query, matches, db.nextSegId + i) <==> matches(query, segs[i].text)
      ensures Found(db', query, matches, db.nextSegId + i) ==>
        HitOf(db', db.nextSegId + i) == Hit(db.nextSegId + i, db.files[fileId].path, segs[i].start, segs[i].end, segs[i].text)
    {
      InsertSegmentsAdds(db, fileId, segs, encodeTones, i);
    }
    forall id | id in db.segments
      ensures Found(db', query, matches, id) <==> Found(db, query, matches, id)
    {
      assert db'.fts[id] == db'.segments[id].text;
    }
  }

  /** A deleted segment is never found again. */
  lemma SearchAfterDelete(db: Db, id: int, query: string, matches: (string, string) -> bool)
    requires Valid(db)
    ensures !Found(DeleteSegment(db, id), query, matches, id)
  {
    TriggersPreserveValid(db, id, SegRow(0, 0.0, 0.0, "", None, ""));
  }
}
