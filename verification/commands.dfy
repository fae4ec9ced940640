/** The commands of sttfast/cli.py, built from the helpers of module Cli.

    A command's effects are its results: the files it writes (path and
    content), the archive's state after it, and how it ends - normally, with
    an exit code, or with an exception raised from the recogniser or the
    store. Directory creation, moving or copying media, console output and
    the thread pool are not part of the model. */
module Commands {
  import opened Wrappers
  import opened Text
  import opened Segments
  import opened Paths
  import Asr
  import opened Sentiment
  import opened Archive
  import opened Export
  import opened Search
  import opened Cli

  datatype Write = Write(path: string, content: string)

  /** How a command ends when it does not end normally. */
  datatype Failure = Exit(code: int) | Raised(message: string)

  /** Everything outside the program a command consults. */
  datatype Env = Env(
    place: string -> string,
    probe: string -> Option<real>,
    recognize: (string, Asr.DecodeOptions) -> Result<Asr.Recognition, string>,
    eng: TextEngine,
    score: string -> real,
    fmt2: real -> string,
    encodeRows: seq<Row> -> string,
    encodeTones: seq<string> -> string,
    vad: bool)

  /** The options `transcribe` and `temporary` pass to the recogniser stage. */
  datatype Decoding = Decoding(mode: Mode, language: Option<string>, longBeam: int, longBestOf: int)

  function Recognise(path: string, d: Decoding, env: Env): Result<Asr.Transcript, string> {
    Asr.TranscribePath(path, env.vad, ModeValue(d.mode), d.language, d.longBeam, d.longBestOf,
                       env.probe(path), env.recognize)
  }

  // ---------------------------------------------------------------------------
  // Per-file output names in transcribe
  // ---------------------------------------------------------------------------

  /** The name of a per-file output as the source builds it: the stem of
      the placed file becomes a path, and `with_suffix` then replaces that
      stem's own suffix, if it has one, by the output's extension. */
  function OutputNameAsWritten(placedName: string, ext: string): string {
    Stem(Stem(placedName)) + ext
  }

  /** The evidently intended name: the stem of the placed file followed by
      the extension. */
  function OutputName(placedName: string, ext: string): string {
    Stem(placedName) + ext
  }

  /** `dir / name` in pathlib for a name without separators: an empty or `.`
      component adds nothing. */
  function JoinAsWritten(dir: string, name: string): string {
    if name == "" || name == "." then dir else dir + "/" + name
  }

  /** The path of a per-file output as the source builds it:
      `(trDir / stem).with_suffix(ext)`. When the stem is `.` (a media file
      named like `..wav`), the join collapses to `trDir` itself, and the
      suffix goes onto the folder's own name. */
  function OutputPathAsWritten(trDir: string, placedName: string, ext: string): string {
    var st := Stem(placedName);
    if st == "" || st == "." then Dir(trDir) + Stem(Name(trDir)) + ext
    else trDir + "/" + OutputNameAsWritten(placedName, ext)
  }

  /** `OutputPathAsWritten` is `with_suffix` applied to the pathlib join, for
      each of the three transcript extensions; none of these calls raises
      when the folder has a name. */
  lemma OutputPathAsWrittenIsWithSuffix(trDir: string, placedName: string, ext: string)
    requires Name(trDir) != "" && '/' !in placedName
    requires ext == ".srt" || ext == ".json" || ext == ".txt"
    ensures WithSuffix(JoinAsWritten(trDir, Stem(placedName)), ext) == Ok(OutputPathAsWritten(trDir, placedName, ext))
  {
    var st := Stem(placedName);
    var suf := ext;
    assert '/' !in suf && suf[0] == '.' && |suf| >= 4;
    if st == "" || st == "." {
      assert JoinAsWritten(trDir, st) == trDir;
      WithSuffixValue(trDir, suf);
    } else {
      assert '/' !in st by {
        StemSuffix(placedName);
        assert forall k :: 0 <= k < |st| ==> st[k] == placedName[k];
      }
      var base := trDir + "/" + st;
      assert JoinAsWritten(trDir, st) == base;
      assert Name(base) == st && Dir(base) == trDir + "/" by {
        assert base == (trDir + "/") + st;
        NameOfJoin(trDir + "/", st);
      }
      WithSuffixValue(base, suf);
    }
  }

  /** What `with_suffix` returns, when it returns. */
  lemma WithSuffixValue(p: string, suf: string)
    requires Name(p) != "" && '/' !in suf && |suf| >= 2 && suf[0] == '.'
    ensures WithSuffix(p, suf) == Ok(Dir(p) + Stem(Name(p)) + suf)
  {
    var r := WithSuffix(p, suf);
    assert Stem(Name(p)) + suf != "." by {
      assert |Stem(Name(p)) + suf| >= 2;
    }
    assert suf != ".";
    assert r.Ok?;
    assert r.value == Dir(r.value) + Name(r.value);
    assert Dir(p) + (Stem(Name(p)) + suf) == Dir(p) + Stem(Name(p)) + suf;
  }

  /** Counterexample: a media file named `..wav` has the stem `.`, so its
      subtitles land beside the transcripts folder, as `transcripts.srt`, and
      not inside it; the intended path is `transcripts/..srt`. */
  lemma TranscriptsEscapeFolder()
    ensures OutputPathAsWritten("p/transcripts", "..wav", ".srt") == "p/transcripts.srt"
    ensures "p/transcripts" + "/" + OutputName("..wav", ".srt") == "p/transcripts/..srt"
  {
    DotDotStem();
    TranscriptsFolderParts();
  }

  lemma DotDotStem()
    ensures Stem("..wav") == "."
  {
    LastIndexIs("..wav", '.', 1);
    assert "..wav"[..1] == ".";
  }

  lemma TranscriptsFolderParts()
    ensures Dir("p/transcripts") == "p/" && Stem(Name("p/transcripts")) == "transcripts"
  {
    LastIndexIs("p/transcripts", '/', 1);
    assert LastPart("p/transcripts") == "transcripts";
    assert Name("p/transcripts") == "transcripts";
    assert "p/transcripts"[..|"p/transcripts"| - |"transcripts"|] == "p/";
    assert '.' !in "transcripts";
  }

  /** Two media files whose names differ only before their last dot share
      all three outputs as written, so the second file's transcripts
      overwrite the first's; the intended names differ. */
  lemma OutputNameAsWrittenCollides()
    ensures OutputNameAsWritten("talk.part1.wav", ".srt") == OutputNameAsWritten("talk.part2.wav", ".srt") == "talk.srt"
    ensures OutputName("talk.part1.wav", ".srt") == "talk.part1.srt"
    ensures OutputName("talk.part2.wav", ".srt") == "talk.part2.srt"
  {
    LastIndexIs("talk.part1.wav", '.', 10);
    LastIndexIs("talk.part2.wav", '.', 10);
    assert "talk.part1.wav"[..10] == "talk.part1";
    assert "talk.part2.wav"[..10] == "talk.part2";
    LastIndexIs("talk.part1", '.', 4);
    LastIndexIs("talk.part2", '.', 4);
    assert "talk.part1"[..4] == "talk" && "talk.part2"[..4] == "talk";
  }

  /** With the intended names, media files with different stems never share
      an output, and each output keeps its extension. */
  lemma OutputNamesDistinct(a: string, b: string, ext: string)
    requires Stem(a) != Stem(b)
    ensures OutputName(a, ext) != OutputName(b, ext)
  {
    var x, y := OutputName(a, ext), OutputName(b, ext);
    if |Stem(a)| == |Stem(b)| {
      assert x[..|Stem(a)|] == Stem(a);
      assert y[..|Stem(b)|] == Stem(b);
    } else {
      assert |x| != |y|;
    }
  }

  lemma OutputNameSuffix(placedName: string, ext: string)
    requires placedName != ""
    requires |ext| >= 2 && ext[0] == '.' && forall k :: 0 < k < |ext| ==> ext[k] != '.'
    ensures Suffix(OutputName(placedName, ext)) == ext
    ensures Stem(OutputName(placedName, ext)) == Stem(placedName)
  {
    var st := Stem(placedName);
    StemNonEmpty(placedName);
    var n := st + ext;
    assert n[|st|] == '.';
    forall k | |st| < k < |n|
      ensures n[k] != '.'
    {
      assert n[k] == ext[k - |st|];
    }
    LastIndexIs(n, '.', |st|);
    assert n[|st|..] == ext;
    assert n[..|st|] == st;
  }

  // ---------------------------------------------------------------------------
  // transcribe
  // ---------------------------------------------------------------------------

  /** The segments a recognition yields, each merged with its labels. */
  function Enriched(t: Asr.Transcript, env: Env): seq<Segment> {
    EnrichAll(t.segments, env.eng, env.score)
  }

  /** The three transcripts of a list of segments, to the three given paths:
      SubRip, JSON with labels, and text with timestamps and tones. */
  function WritesFor(srt: string, json: string, txt: string, segs: seq<Segment>, env: Env): seq<Write> {
    [Write(srt, Asr.ToSrt(segs)),
     Write(json, ExportJson(segs, true, env.encodeRows)),
     Write(txt, ExportTxt(segs, true, true, env.fmt2))]
  }

  /** The three transcripts of one file, named after its stem in `dir`. */
  function TranscriptWrites(dir: string, placedName: string, segs: seq<Segment>, env: Env): (w: seq<Write>)
    ensures |w| == 3
    ensures w[0].content == Asr.ToSrt(segs)
    ensures w[1].content == ExportJson(segs, true, env.encodeRows)
    ensures w[2].content == ExportTxt(segs, true, true, env.fmt2)
    ensures w[0].path == dir + "/" + OutputName(placedName, ".srt")
    ensures w[1].path == dir + "/" + OutputName(placedName, ".json")
    ensures w[2].path == dir + "/" + OutputName(placedName, ".txt")
  {
    WritesFor(dir + "/" + OutputName(placedName, ".srt"), dir + "/" + OutputName(placedName, ".json"),
              dir + "/" + OutputName(placedName, ".txt"), segs, env)
  }

  /** Where the transcripts go: each path lies in `dir`, its name has the
      media file's stem and the transcript's suffix, so the three paths
      differ. */
  lemma TranscriptWritesNames(dir: string, placedName: string, segs: seq<Segment>, env: Env)
    requires placedName != "" && '/' !in placedName
    ensures var w := TranscriptWrites(dir, placedName, segs, env);
      && (forall k :: 0 <= k < 3 ==> Dir(w[k].path) == dir + "/" && Stem(Name(w[k].path)) == Stem(placedName))
      && Suffix(Name(w[0].path)) == ".srt"
      && Suffix(Name(w[1].path)) == ".json"
      && Suffix(Name(w[2].path)) == ".txt"
      && w[0].path != w[1].path && w[1].path != w[2].path && w[0].path != w[2].path
  {
    var w := TranscriptWrites(dir, placedName, segs, env);
    OutputNameIn(dir, placedName, ".srt");
    OutputNameIn(dir, placedName, ".json");
    OutputNameIn(dir, placedName, ".txt");
    forall k | 0 <= k < 3
      ensures Dir(w[k].path) == dir + "/" && Stem(Name(w[k].path)) == Stem(placedName)
    {
      if k == 0 {
      } else if k == 1 {
      } else {
      }
    }
  }

  lemma OutputNameIn(dir: string, placedName: string, ext: string)
    requires placedName != "" && '/' !in placedName
    requires ext in TranscriptExts
    ensures var p := dir + "/" + OutputName(placedName, ext);
      && Name(p) == OutputName(placedName, ext) && Dir(p) == dir + "/"
      && Suffix(Name(p)) == ext && Stem(Name(p)) == Stem(placedName)
  {
    var n := OutputName(placedName, ext);
    assert |ext| >= 2 && ext[0] == '.' && forall k :: 0 < k < |ext| ==> ext[k] != '.' && ext[k] != '/' by {
      if ext == ".srt" {
      } else if ext == ".json" {
      } else {
      }
    }
    OutputNameSuffix(placedName, ext);
    StemSuffix(placedName);
    assert '/' !in n by {
      forall k | 0 <= k < |n|
        ensures n[k] != '/'
      {
        if k < |Stem(placedName)| {
          assert n[k] == placedName[k];
        } else {
          assert n[k] == ext[k - |Stem(placedName)|];
        }
      }
    }
    assert (dir + "/") + n == dir + "/" + n;
    NameOfJoin(dir + "/", n);
  }

  /** The transcripts as the source names them. */
  function TranscriptWritesAsWritten(dir: string, placedName: string, segs: seq<Segment>, env: Env): (w: seq<Write>)
    ensures |w| == 3
    ensures w[0].content == Asr.ToSrt(segs)
    ensures w[1].content == ExportJson(segs, true, env.encodeRows)
    ensures w[2].content == ExportTxt(segs, true, true, env.fmt2)
    ensures w[0].path == OutputPathAsWritten(dir, placedName, ".srt")
    ensures w[1].path == OutputPathAsWritten(dir, placedName, ".json")
    ensures w[2].path == OutputPathAsWritten(dir, placedName, ".txt")
  {
    WritesFor(OutputPathAsWritten(dir, placedName, ".srt"), OutputPathAsWritten(dir, placedName, ".json"),
              OutputPathAsWritten(dir, placedName, ".txt"), segs, env)
  }

  /** When the media file's stem has no suffix of its own and is neither
      empty nor `.`, the transcripts as written are the intended ones. */
  lemma AsWrittenTranscriptsAgree(dir: string, placedName: string, segs: seq<Segment>, env: Env)
    ensures SuffixStart(Stem(placedName)).None? && Stem(placedName) != "" && Stem(placedName) != "." ==>
      TranscriptWritesAsWritten(dir, placedName, segs, env) == TranscriptWrites(dir, placedName, segs, env)
  {
    OutputNamesAgree(dir, placedName);
  }

  /** When the stem is `.` (or empty), all three transcripts as written land
      in the folder's parent, beside the folder. */
  lemma AsWrittenTranscriptsBesideFolder(dir: string, placedName: string, segs: seq<Segment>, env: Env)
    ensures (Stem(placedName) == "" || Stem(placedName) == ".") && Name(dir) != "" ==>
      forall k :: 0 <= k < 3 ==> Dir(TranscriptWritesAsWritten(dir, placedName, segs, env)[k].path) == Dir(dir)
  {
    if (Stem(placedName) == "" || Stem(placedName) == ".") && Name(dir) != "" {
      var w := TranscriptWritesAsWritten(dir, placedName, segs, env);
      CollapsedPathsBesideFolder(dir, placedName);
      forall k | 0 <= k < 3
        ensures Dir(w[k].path) == Dir(dir)
      {
        assert k == 0 || k == 1 || k == 2;
      }
    }
  }

  lemma CollapsedPathsBesideFolder(dir: string, placedName: string)
    ensures (Stem(placedName) == "" || Stem(placedName) == ".") && Name(dir) != "" ==>
      && Dir(OutputPathAsWritten(dir, placedName, ".srt")) == Dir(dir)
      && Dir(OutputPathAsWritten(dir, placedName, ".json")) == Dir(dir)
      && Dir(OutputPathAsWritten(dir, placedName, ".txt")) == Dir(dir)
  {
    if (Stem(placedName) == "" || Stem(placedName) == ".") && Name(dir) != "" {
      CollapsedPathBesideFolder(dir, placedName, ".srt");
      CollapsedPathBesideFolder(dir, placedName, ".json");
      CollapsedPathBesideFolder(dir, placedName, ".txt");
    }
  }

  /** With a collapsed join the output sits in the folder's parent. */
  lemma CollapsedPathBesideFolder(dir: string, placedName: string, ext: string)
    requires Stem(placedName) == "" || Stem(placedName) == "."
    requires Name(dir) != ""
    requires ext == ".srt" || ext == ".json" || ext == ".txt"
    ensures Dir(OutputPathAsWritten(dir, placedName, ext)) == Dir(dir)
  {
    assert WithSuffix(dir, ext).Ok?;
    assert JoinAsWritten(dir, Stem(placedName)) == dir;
    OutputPathAsWrittenIsWithSuffix(dir, "", ext);
    assert Stem("") == "" by {
      assert LastIndex("", '.') == -1;
    }
  }

  /** When the stem has no suffix of its own and is neither empty nor `.`,
      the source's names and paths are the intended ones. */
  lemma OutputNamesAgree(dir: string, placedName: string)
    ensures SuffixStart(Stem(placedName)).None? ==>
      forall ext :: OutputNameAsWritten(placedName, ext) == OutputName(placedName, ext)
    ensures SuffixStart(Stem(placedName)).None? && Stem(placedName) != "" && Stem(placedName) != "." ==>
      forall ext :: OutputPathAsWritten(dir, placedName, ext) == dir + "/" + OutputName(placedName, ext)
  {
  }

  /** One iteration of the `transcribe` loop: place, recognise, enrich,
      write the transcripts, then record the file and its segments. A
      recogniser failure ends the command with the archive as it was. */
  function ProcessFile(db: Db, f: string, d: Decoding, parent: string, trDir: string, env: Env):
    (r: (Db, seq<Write>, Option<Failure>))
    requires Valid(db)
    ensures Valid(r.0)
    ensures r.2.Some? <==> Recognise(env.place(f), d, env).Err?
    ensures r.2.Some? ==> r.0 == db && r.1 == [] && r.2.value == Raised(Recognise(env.place(f), d, env).error)
    ensures r.2.None? ==> |r.1| == 3 && HasPath(r.0.files, env.place(f))
    ensures r.2.None? ==>
      r.1 == TranscriptWrites(trDir, Name(env.place(f)), Enriched(Recognise(env.place(f), d, env).value, env), env)
    ensures KeepsFiles(db.files, r.0.files)
    ensures KeepsSegments(db.segments, r.0.segments)
    ensures r.2.None? ==>
      && RowsAt(r.0, db.nextSegId, FileIdOf(r.0.files, env.place(f)), FileSegments(f, d, env), env.encodeTones)
      && |r.0.segments| == |db.segments| + |FileSegments(f, d, env)|
      && r.0.nextSegId == db.nextSegId + |FileSegments(f, d, env)|
  {
    var placed := env.place(f);
    match Recognise(placed, d, env)
    case Err(e) => (db, [], Some(Raised(e)))
    case Ok(t) =>
      var segs := Enriched(t, env);
      var writes := TranscriptWrites(trDir, Name(placed), segs, env);
      var (db1, id) := InsertFile(db, placed, parent, Some(t.duration), Some(t.language));
      InsertFileValid(db, placed, parent, Some(t.duration), Some(t.language));
      match InsertSegments(db1, id, segs, env.encodeTones)
      case Err(_) => assert false; (db1, writes, Some(Raised("FOREIGN KEY constraint failed")))
      case Ok(db2) =>
        InsertSegmentsValid(db1, id, segs, env.encodeTones);
        InsertSegmentsRowsAt(db1, id, segs, env.encodeTones);
        InsertSegmentsCount(db1, id, segs, env.encodeTones);
        assert db1.segments == db.segments && db1.nextSegId == db.nextSegId;
        FileIdIs(db2.files, placed, id);
        (db2, writes, None)
  }

  /** The enriched segments of a file whose recognition succeeds; nothing
      otherwise. */
  function FileSegments(f: string, d: Decoding, env: Env): seq<Segment> {
    match Recognise(env.place(f), d, env)
    case Ok(t) => Enriched(t, env)
    case Err(_) => []
  }

  /** The same iteration as the source writes it: the transcripts are named
      by `OutputNameAsWritten` and the file id comes from
      `InsertFileAsWritten`. It agrees with `ProcessFile` on the archive
      whenever the connection has not inserted before or the path is new;
      but re-ingesting a recorded path on a connection whose last insert was
      not a file row raises the foreign-key error after the transcripts are
      written, with the archive unchanged. */
  function ProcessFileAsWritten(db: Db, f: string, d: Decoding, parent: string, trDir: string, env: Env):
    (r: (Db, seq<Write>, Option<Failure>))
    requires Valid(db)
    ensures Valid(r.0)
    ensures Recognise(env.place(f), d, env).Err? ==> r == ProcessFile(db, f, d, parent, trDir, env)
    ensures db.lastInsertRowid == 0 || !HasPath(db.files, env.place(f)) ==>
      r.0 == ProcessFile(db, f, d, parent, trDir, env).0 && r.2 == ProcessFile(db, f, d, parent, trDir, env).2
    ensures Recognise(env.place(f), d, env).Ok? && HasPath(db.files, env.place(f)) &&
            db.lastInsertRowid != 0 && db.lastInsertRowid !in db.files &&
            Recognise(env.place(f), d, env).value.segments != [] ==>
      r.0 == db && |r.1| == 3 && r.2 == Some(Raised("FOREIGN KEY constraint failed"))
    ensures Recognise(env.place(f), d, env).Ok? && HasPath(db.files, env.place(f)) &&
            db.lastInsertRowid in db.files && db.files[db.lastInsertRowid].path != env.place(f) ==>
      r.2.None? && RowsAt(r.0, db.nextSegId, db.lastInsertRowid, FileSegments(f, d, env), env.encodeTones)
    ensures Recognise(env.place(f), d, env).Ok? ==>
      r.1 == TranscriptWritesAsWritten(trDir, Name(env.place(f)), FileSegments(f, d, env), env)
  {
    var placed := env.place(f);
    match Recognise(placed, d, env)
    case Err(e) => (db, [], Some(Raised(e)))
    case Ok(t) =>
      var segs := Enriched(t, env);
      var writes := TranscriptWritesAsWritten(trDir, Name(placed), segs, env);
      var (db1, id) := InsertFileAsWritten(db, placed, parent, Some(t.duration), Some(t.language));
      InsertFileValid(db, placed, parent, Some(t.duration), Some(t.language));
      match InsertSegments(db1, id, segs, env.encodeTones)
      case Err(_) => (db1, writes, Some(Raised("FOREIGN KEY constraint failed")))
      case Ok(db2) =>
        InsertSegmentsValid(db1, id, segs, env.encodeTones);
        InsertSegmentsRowsAt(db1, id, segs, env.encodeTones);
        (db2, writes, None)
  }

  /** The loop over all gathered files; the first failure stops it, and the
      files before it stay recorded. */
  function ProcessFiles(db: Db, files: seq<string>, d: Decoding, parent: string, trDir: string, env: Env):
    (r: (Db, seq<Write>, Option<Failure>))
    requires Valid(db)
    ensures Valid(r.0)
    ensures r.2.None? ==> |r.1| == 3 * |files|
    ensures r.2.Some? ==> r.2.value.Raised?
    ensures KeepsFiles(db.files, r.0.files)
    ensures r.2.None? ==> forall k :: 0 <= k < |files| ==> HasPath(r.0.files, env.place(files[k]))
    ensures KeepsSegments(db.segments, r.0.segments)
    ensures r.2.None? ==> TranscriptsOf(r.1, files, d, trDir, env)
    ensures r.2.None? ==> ArchivedFrom(r.0, db.nextSegId, files, d, env)
    ensures r.2.None? ==> r.0.nextSegId == db.nextSegId + Before(files, |files|, SegCount(d, env))
    decreases |files|
  {
    if files == [] then (db, [], None)
    else
      var (db1, w1, f1) := ProcessFile(db, files[0], d, parent, trDir, env);
      if f1.Some? then (db1, w1, f1)
      else
        var (db2, w2, f2) := ProcessFiles(db1, files[1..], d, parent, trDir, env);
        if f2.Some? then (db2, w1 + w2, f2)
        else
          RecordedStep(db1.files, db2.files, files, env.place);
          TranscriptsStep(w1, w2, files, d, trDir, env);
          ArchivedStep(db.nextSegId, db1, db2, files, d, env);
          SegCountIs(files[0], d, env);
          CountStep(db.nextSegId, db1.nextSegId, db2.nextSegId, files, SegCount(d, env));
          (db2, w1 + w2, f2)
  }

  /** The writes of the loop: three per file, in file order, each triple
      being that file's transcripts. */
  predicate TranscriptsOf(ws: seq<Write>, files: seq<string>, d: Decoding, trDir: string, env: Env) {
    && |ws| == 3 * |files|
    && forall k :: 0 <= k < |files| ==>
         ws[3 * k .. 3 * k + 3] == TranscriptWrites(trDir, Name(env.place(files[k])), FileSegments(files[k], d, env), env)
  }

  /** File f is recorded, and its enriched segments sit in order from
      rowid `first` on, filed under the row holding its placed path. */
  predicate FileArchived(db: Db, first: int, f: string, d: Decoding, env: Env) {
    && UniquePaths(db.files)
    && HasPath(db.files, env.place(f))
    && RowsAt(db, first, FileIdOf(db.files, env.place(f)), FileSegments(f, d, env), env.encodeTones)
  }

  function SegCount(d: Decoding, env: Env): string -> nat {
    f => |FileSegments(f, d, env)|
  }

  function ArchivedIn(db: Db, d: Decoding, env: Env): (int, string) -> bool {
    (first, f) => FileArchived(db, first, f, d, env)
  }

  /** The archive after the loop: each file is archived, its segments
      right after those of the file before it. */
  predicate ArchivedFrom(db: Db, first: int, files: seq<string>, d: Decoding, env: Env) {
    AllFrom(first, files, SegCount(d, env), ArchivedIn(db, d, env))
  }

  /** `P` holds of every item at its offset: the first item at `first`,
      each later one `size` of its predecessor further on. */
  predicate AllFrom<T>(first: int, xs: seq<T>, size: T -> nat, P: (int, T) -> bool)
    decreases |xs|
  {
    xs != [] ==> P(first, xs[0]) && AllFrom(first + size(xs[0]), xs[1..], size, P)
  }

  /** The total size of the first k items. */
  function Before<T>(xs: seq<T>, k: int, size: T -> nat): nat
    requires 0 <= k <= |xs|
    decreases k
  {
    if k == 0 then 0 else size(xs[0]) + Before(xs[1..], k - 1, size)
  }

  /** The pointwise reading of `AllFrom`: item k sits after the first k
      items. */
  lemma {:induction false} AllFromAt<T>(first: int, xs: seq<T>, size: T -> nat, P: (int, T) -> bool, k: int)
    requires 0 <= k < |xs| && AllFrom(first, xs, size, P)
    ensures P(first + Before(xs, k, size), xs[k])
    decreases k
  {
    if k > 0 {
      AllFromAt(first + size(xs[0]), xs[1..], size, P, k - 1);
      assert xs[1..][k - 1] == xs[k];
    }
  }

  lemma TranscriptsStep(w1: seq<Write>, w2: seq<Write>, files: seq<string>, d: Decoding, trDir: string, env: Env)
    requires files != []
    requires w1 == TranscriptWrites(trDir, Name(env.place(files[0])), FileSegments(files[0], d, env), env)
    requires TranscriptsOf(w2, files[1..], d, trDir, env)
    ensures TranscriptsOf(w1 + w2, files, d, trDir, env)
  {
    TriplesStep(w1, w2, files, f => TranscriptWrites(trDir, Name(env.place(f)), FileSegments(f, d, env), env));
  }

  /** Prepending the first file's triple to the rest's triples gives the
      triples of all files. */
  lemma TriplesStep<T>(w1: seq<T>, w2: seq<T>, files: seq<string>, g: string -> seq<T>)
    requires files != [] && w1 == g(files[0]) && |w1| == 3
    requires |w2| == 3 * |files[1..]| && forall k :: 0 <= k < |files[1..]| ==> w2[3 * k .. 3 * k + 3] == g(files[1..][k])
    ensures |w1 + w2| == 3 * |files| && forall k :: 0 <= k < |files| ==> (w1 + w2)[3 * k .. 3 * k + 3] == g(files[k])
  {
    var ws := w1 + w2;
    forall k | 0 <= k < |files|
      ensures ws[3 * k .. 3 * k + 3] == g(files[k])
    {
      if k == 0 {
        assert ws[..3] == w1;
      } else {
        assert files[1..][k - 1] == files[k];
        assert ws[3 * k .. 3 * k + 3] == w2[3 * (k - 1) .. 3 * (k - 1) + 3];
      }
    }
  }

  lemma ArchivedStep(first: int, db1: Db, db2: Db, files: seq<string>, d: Decoding, env: Env)
    requires files != [] && Valid(db1) && Valid(db2)
    requires KeepsFiles(db1.files, db2.files) && KeepsSegments(db1.segments, db2.segments)
    requires HasPath(db1.files, env.place(files[0]))
    requires RowsAt(db1, first, FileIdOf(db1.files, env.place(files[0])), FileSegments(files[0], d, env), env.encodeTones)
    requires db1.nextSegId == first + |FileSegments(files[0], d, env)|
    requires ArchivedFrom(db2, db1.nextSegId, files[1..], d, env)
    ensures ArchivedFrom(db2, first, files, d, env)
  {
    var f := files[0];
    var segs := FileSegments(f, d, env);
    var id := FileIdOf(db1.files, env.place(f));
    FileIdKept(db1.files, db2.files, env.place(f));
    RowsAtKept(db1, db2, first, id, segs, env.encodeTones);
    FileArchivedIntro(db2, first, f, d, env, id, segs);
    assert SegCount(d, env)(f) == |segs|;
    AllFromCons(first, db1.nextSegId, files, SegCount(d, env), ArchivedIn(db2, d, env));
  }

  lemma FileArchivedIntro(db: Db, first: int, f: string, d: Decoding, env: Env, id: int, segs: seq<Segment>)
    requires UniquePaths(db.files) && HasPath(db.files, env.place(f))
    requires id == FileIdOf(db.files, env.place(f)) && segs == FileSegments(f, d, env)
    requires RowsAt(db, first, id, segs, env.encodeTones)
    ensures ArchivedIn(db, d, env)(first, f)
  {
  }

  /** `AllFrom` of a non-empty list from its head and its tail. */
  lemma AllFromCons<T>(first: int, next: int, xs: seq<T>, size: T -> nat, P: (int, T) -> bool)
    requires xs != [] && P(first, xs[0]) && next == first + size(xs[0])
    requires AllFrom(next, xs[1..], size, P)
    ensures AllFrom(first, xs, size, P)
  {
  }

  /** The step of a running total: the first item's size, then the rest's. */
  lemma CountStep<T>(first: int, mid: int, last: int, xs: seq<T>, size: T -> nat)
    requires xs != [] && mid == first + size(xs[0])
    requires last == mid + Before(xs[1..], |xs[1..]|, size)
    ensures last == first + Before(xs, |xs|, size)
  {
  }

  lemma SegCountIs(f: string, d: Decoding, env: Env)
    ensures SegCount(d, env)(f) == |FileSegments(f, d, env)|
  {
  }

  /** The step of the loop's bookkeeping: the first file recorded before the
      rest of the loop, and the rest recorded by it, means all are recorded. */
  lemma RecordedStep(before: map<int, FileRow>, after: map<int, FileRow>, files: seq<string>, place: string -> string)
    requires files != []
    requires HasPath(before, place(files[0])) && KeepsFiles(before, after)
    requires forall k :: 0 <= k < |files[1..]| ==> HasPath(after, place(files[1..][k]))
    ensures forall k :: 0 <= k < |files| ==> HasPath(after, place(files[k]))
  {
    KeptPath(before, after, place(files[0]));
    forall k | 1 <= k < |files|
      ensures HasPath(after, place(files[k]))
    {
      assert files[k] == files[1..][k - 1];
    }
  }

  /** Every file's recognition succeeds. */
  predicate AllRecognised(files: seq<string>, d: Decoding, env: Env)
    decreases |files|
  {
    files == [] || (Recognise(env.place(files[0]), d, env).Ok? && AllRecognised(files[1..], d, env))
  }

  /** The loop fails exactly when some file's recognition fails. */
  lemma {:induction false} ProcessFilesFails(db: Db, files: seq<string>, d: Decoding, parent: string, trDir: string, env: Env)
    requires Valid(db)
    ensures ProcessFiles(db, files, d, parent, trDir, env).2.None? <==> AllRecognised(files, d, env)
    decreases |files|
  {
    if files != [] {
      var r1 := ProcessFile(db, files[0], d, parent, trDir, env);
      if r1.2.None? {
        ProcessFilesFails(r1.0, files[1..], d, parent, trDir, env);
      }
    }
  }

  /** `AllRecognised` says that no file fails. */
  lemma {:induction false} AllRecognisedAt(files: seq<string>, d: Decoding, env: Env)
    ensures AllRecognised(files, d, env) <==> forall k :: 0 <= k < |files| ==> Recognise(env.place(files[k]), d, env).Ok?
    decreases |files|
  {
    if files != [] {
      AllRecognisedAt(files[1..], d, env);
      assert forall k :: 0 < k < |files| ==> files[1..][k - 1] == files[k];
    }
  }

  /** The `transcribe` command. Out-of-range beam options are a usage error
      (exit 2); no media among the inputs ends it with exit code 1. */
  function Transcribe(db: Db, inputs: seq<InputPath>, d: Decoding, parent: string, trDir: string, env: Env):
    (r: (Db, seq<Write>, Option<Failure>))
    requires Valid(db)
    ensures Valid(r.0)
    ensures r.2 == Some(Exit(2)) <==> !BeamOptionsValid(d.longBeam, d.longBestOf)
    ensures r.2 == Some(Exit(1)) <==> BeamOptionsValid(d.longBeam, d.longBestOf) && Gather(inputs) == []
    ensures r.2.None? ==> |r.1| == 3 * |Gather(inputs)|
    ensures KeepsFiles(db.files, r.0.files) && KeepsSegments(db.segments, r.0.segments)
    ensures r.2.None? ==> TranscriptsOf(r.1, Gather(inputs), d, trDir, env)
    ensures r.2.None? ==> ArchivedFrom(r.0, db.nextSegId, Gather(inputs), d, env)
  {
    if !BeamOptionsValid(d.longBeam, d.longBestOf) then (db, [], Some(Exit(2)))
    else
      var files := Gather(inputs);
      if files == [] then (db, [], Some(Exit(1)))
      else
        ProcessFiles(Reconnect(db), files, d, parent, trDir, env)
  }

  // ---------------------------------------------------------------------------
  // temporary
  // ---------------------------------------------------------------------------

  /** The `temporary` command: the beam bounds and the input check, then one
      recognition whose enriched segments go to the three cache files. */
  function Temporary(file: string, present: bool, d: Decoding, cache: string, env: Env): (r: Result<seq<Write>, Failure>)
    ensures r == Err(Exit(2)) <==>
      !BeamOptionsValid(d.longBeam, d.longBestOf) || TemporaryInputError(file, present).Some?
    ensures r.Ok? ==>
      && |r.value| == 3
      && r.value[0].path == cache + "/temp.srt"
      && r.value[1].path == cache + "/temp.json"
      && r.value[2].path == cache + "/temp.txt"
    ensures BeamOptionsValid(d.longBeam, d.longBestOf) && TemporaryInputError(file, present).None? ==>
      (r.Err? <==> Recognise(file, d, env).Err?)
    ensures r.Ok? ==> Recognise(file, d, env).Ok?
    ensures r.Ok? ==>
      var segs := Enriched(Recognise(file, d, env).value, env);
      && r.value[0].content == Asr.ToSrt(segs)
      && r.value[1].content == ExportJson(segs, true, env.encodeRows)
      && r.value[2].content == ExportTxt(segs, true, true, env.fmt2)
  {
    if !BeamOptionsValid(d.longBeam, d.longBestOf) then Err(Exit(2))
    else if TemporaryInputError(file, present).Some? then Err(Exit(2))
    else match Recognise(file, d, env)
      case Err(e) => Err(Raised(e))
      case Ok(t) =>
        Ok(WritesFor(cache + "/temp.srt", cache + "/temp.json", cache + "/temp.txt", Enriched(t, env), env))
  }

  // ---------------------------------------------------------------------------
  // dry-run
  // ---------------------------------------------------------------------------

  datatype DryRunRow = DryRunRow(path: string, duration: string, preset: string)

  /** The `dry-run` command: one row per gathered file with its formatted
      duration and the preset the transcriber would use. */
  function DryRun(inputs: seq<InputPath>, mode: Mode, probe: string -> Option<real>): (r: Result<seq<DryRunRow>, Failure>)
    ensures r.Err? <==> Gather(inputs) == []
    ensures r.Err? ==> r.error == Exit(1)
    ensures r.Ok? ==> |r.value| == |Gather(inputs)|
  {
    var files := Gather(inputs);
    if files == [] then Err(Exit(1))
    else Ok(seq(|files|, i requires 0 <= i < |files| =>
      var (p, dur) := Asr.ChoosePresetFor(ModeValue(mode), probe(files[i]));
      DryRunRow(files[i], FmtDur(dur), Asr.ProfileName(p))))
  }

  /** Each row names its file in gathered order, shows the probed duration,
      and announces exactly the preset `transcribe` would pick for that file
      and mode. */
  lemma DryRunAgreesWithTranscribe(inputs: seq<InputPath>, mode: Mode, probe: string -> Option<real>)
    requires Gather(inputs) != []
    ensures var files := Gather(inputs);
      var rows := DryRun(inputs, mode, probe).value;
      forall i :: 0 <= i < |files| ==>
        && rows[i].path == files[i]
        && rows[i].duration == FmtDur(probe(files[i]))
        && rows[i].preset == Asr.ProfileName(Asr.ChoosePreset(ModeValue(mode), probe(files[i])))
  {
  }

  // ---------------------------------------------------------------------------
  // export
  // ---------------------------------------------------------------------------

  /** The inputs `export` reads: those whose extension, ignoring ASCII case, is
      `.json`, in order. */
  function JsonInputs(paths: seq<string>): (r: seq<string>)
    ensures |r| <= |paths|
    ensures forall x :: x in r <==> x in paths && Extension(x) == ".json"
  {
    Filter(paths, IsJson)
  }

  predicate IsJson(p: string) {
    Extension(p) == ".json"
  }

  function Flatten(lists: seq<seq<Segment>>): (r: seq<Segment>) {
    if lists == [] then [] else lists[0] + Flatten(lists[1..])
  }

  /** The text of a split export's parts, one after the other. */
  function ConcatExports(lists: seq<seq<Segment>>, includeTs: bool, includeTone: bool, fmt2: real -> string): string {
    if lists == [] then "" else ExportTxt(lists[0], includeTs, includeTone, fmt2) + ConcatExports(lists[1..], includeTs, includeTone, fmt2)
  }

  /** The `export` command. `load` reads a JSON transcript. With nothing to
      read it writes nothing; merged, it writes one file; split, it writes
      the i-th list to `stem_i` plus suffix next to `out`, which needs `out`
      to have a name. */
  function ExportCommand(paths: seq<string>, out: string, merged: bool, noTs: bool, noTone: bool,
                         load: string -> seq<Segment>, fmt2: real -> string): (r: Result<seq<Write>, string>)
    ensures JsonInputs(paths) == [] ==> r == Ok([])
    ensures r.Err? <==> JsonInputs(paths) != [] && !merged && Name(out) == ""
    ensures r.Ok? && JsonInputs(paths) != [] ==> |r.value| == if merged then 1 else |JsonInputs(paths)|
    ensures r.Ok? && !merged ==>
      forall i :: 0 <= i < |r.value| ==>
        && r.value[i].path == SplitTargets(out, |JsonInputs(paths)|)[i]
        && r.value[i].content == ExportTxt(load(JsonInputs(paths)[i]), !noTs, !noTone, fmt2)
    ensures r.Ok? && merged && JsonInputs(paths) != [] ==>
      && r.value[0].path == out
      && r.value[0].content == ConcatExports(Loaded(JsonInputs(paths), load), !noTs, !noTone, fmt2)
  {
    var inputs := JsonInputs(paths);
    if inputs == [] then Ok([])
    else if merged then Ok([ExportMerged(inputs, out, noTs, noTone, load, fmt2)])
    else if Name(out) == "" then Err("empty name")
    else Ok(ExportSplit(inputs, out, noTs, noTone, load, fmt2))
  }

  /** The merged export: every transcript's segments in one text file. */
  function ExportMerged(inputs: seq<string>, out: string, noTs: bool, noTone: bool,
                        load: string -> seq<Segment>, fmt2: real -> string): (w: Write)
    ensures w.path == out
    ensures w.content == ConcatExports(Loaded(inputs, load), !noTs, !noTone, fmt2)
  {
    var lists := Loaded(inputs, load);
    MergedIsConcatenation(lists, !noTs, !noTone, fmt2);
    Write(out, ExportTxt(Flatten(lists), !noTs, !noTone, fmt2))
  }

  /** The split export: one text file per transcript, at the split targets. */
  function ExportSplit(inputs: seq<string>, out: string, noTs: bool, noTone: bool,
                       load: string -> seq<Segment>, fmt2: real -> string): (r: seq<Write>)
    ensures |r| == |inputs|
    ensures forall i :: 0 <= i < |r| ==>
      && r[i].path == SplitTargets(out, |inputs|)[i]
      && r[i].content == ExportTxt(load(inputs[i]), !noTs, !noTone, fmt2)
  {
    var lists := Loaded(inputs, load);
    Parts(SplitTargets(out, |lists|), lists, l => ExportTxt(l, !noTs, !noTone, fmt2))
  }

  /** The transcripts read from the inputs, in order. */
  function Loaded(inputs: seq<string>, load: string -> seq<Segment>): (lists: seq<seq<Segment>>)
    ensures |lists| == |inputs|
    ensures forall i :: 0 <= i < |inputs| ==> lists[i] == load(inputs[i])
  {
    seq(|inputs|, i requires 0 <= i < |inputs| => load(inputs[i]))
  }

  /** One write per part: the i-th rendered list goes to the i-th target. */
  function Parts<T>(targets: seq<string>, lists: seq<T>, render: T -> string): (r: seq<Write>)
    requires |targets| == |lists|
    ensures |r| == |lists|
    ensures forall i :: 0 <= i < |r| ==> r[i] == Write(targets[i], render(lists[i]))
  {
    seq(|lists|, i requires 0 <= i < |lists| => Write(targets[i], render(lists[i])))
  }

  /** A merged export is the split exports' texts laid end to end. */
  lemma {:induction false} MergedIsConcatenation(lists: seq<seq<Segment>>, includeTs: bool, includeTone: bool, fmt2: real -> string)
    ensures ExportTxt(Flatten(lists), includeTs, includeTone, fmt2) == ConcatExports(lists, includeTs, includeTone, fmt2)
  {
    if lists != [] {
      MergedIsConcatenation(lists[1..], includeTs, includeTone, fmt2);
      ExportTxtAppend(lists[0], Flatten(lists[1..]), includeTs, includeTone, fmt2);
    }
  }

  /** The merged export holds exactly the split exports' contents, laid end
      to end in input order. */
  lemma MergedJoinsSplit(paths: seq<string>, out: string, noTs: bool, noTone: bool,
                         load: string -> seq<Segment>, fmt2: real -> string)
    requires JsonInputs(paths) != [] && Name(out) != ""
    ensures var m := ExportCommand(paths, out, true, noTs, noTone, load, fmt2).value;
      var p := ExportCommand(paths, out, false, noTs, noTone, load, fmt2).value;
      |m| == 1 && m[0].content == Contents(p)
  {
    var inputs := JsonInputs(paths);
    var lists := Loaded(inputs, load);
    var p := ExportCommand(paths, out, false, noTs, noTone, load, fmt2).value;
    MergedIsConcatenation(lists, !noTs, !noTone, fmt2);
    ContentsOfParts(p, lists, !noTs, !noTone, fmt2);
  }

  /** The contents of a sequence of writes, one after the other. */
  function Contents(ws: seq<Write>): string {
    if ws == [] then "" else ws[0].content + Contents(ws[1..])
  }

  lemma {:induction false} ContentsOfParts(ws: seq<Write>, lists: seq<seq<Segment>>, includeTs: bool, includeTone: bool, fmt2: real -> string)
    requires |ws| == |lists|
    requires forall i :: 0 <= i < |ws| ==> ws[i].content == ExportTxt(lists[i], includeTs, includeTone, fmt2)
    ensures Contents(ws) == ConcatExports(lists, includeTs, includeTone, fmt2)
    decreases |ws|
  {
    if ws != [] {
      assert forall i :: 0 <= i < |ws[1..]| ==> ws[1..][i] == ws[i + 1] && lists[1..][i] == lists[i + 1];
      ContentsOfParts(ws[1..], lists[1..], includeTs, includeTone, fmt2);
    }
  }

  /** The i-th split name is a valid name for `with_name`. */
  lemma SplitNameValid(outName: string, i: nat)
    requires '/' !in outName
    ensures var n := SplitName(outName, i);
      n != "" && n != "." && '/' !in n
  {
    var n := SplitName(outName, i);
    var st, suf := Stem(outName), Suffix(outName);
    StemSuffix(outName);
    var digits := DecimalDigits(i);
    forall k | 0 <= k < |n|
      ensures n[k] != '/'
    {
      if k < |st| {
        assert n[k] == st[k] == outName[k];
      } else if k == |st| {
        assert n[k] == '_';
      } else if k < |st| + 1 + |digits| {
        assert n[k] == digits[k - |st| - 1];
        assert IsDigit(digits[k - |st| - 1]);
      } else {
        assert n[k] == suf[k - |st| - 1 - |digits|] == outName[|st| + (k - |st| - 1 - |digits|)];
      }
    }
  }

  /** Where a split export of `n` parts writes: part i (from 0) goes to
      `stem_{i+1}` plus suffix next to `out`. */
  function SplitTargets(out: string, n: nat): (r: seq<string>)
    ensures |r| == n
  {
    SplitPaths(Dir(out), Name(out), n)
  }

  /** Part i (from 0) of a split of `name` in directory `dir`. */
  function SplitPaths(dir: string, name: string, n: nat): (r: seq<string>)
    ensures |r| == n
  {
    seq(n, i requires 0 <= i < n => dir + SplitName(name, i + 1))
  }

  lemma SplitPathAt(dir: string, name: string, n: nat, i: nat)
    requires i < n
    ensures SplitPaths(dir, name, n)[i] == dir + SplitName(name, i + 1)
  {
  }

  /** Each target is where `out.with_name(stem + "_" + i + suffix)` points. */
  lemma SplitExportTargets(out: string, n: nat, i: nat)
    requires Name(out) != "" && i < n
    ensures WithName(out, SplitName(Name(out), i + 1)) == Ok(SplitTargets(out, n)[i])
  {
    SplitTargetAt(out, n, i);
    SplitNameWith(out, i + 1);
  }

  lemma SplitTargetAt(out: string, n: nat, i: nat)
    requires i < n
    ensures SplitTargets(out, n)[i] == Dir(out) + SplitName(Name(out), i + 1)
  {
    SplitPathAt(Dir(out), Name(out), n, i);
  }

  /** `with_name` accepts every split name. */
  lemma SplitNameWith(out: string, k: nat)
    requires Name(out) != ""
    ensures WithName(out, SplitName(Name(out), k)) == Ok(Dir(out) + SplitName(Name(out), k))
  {
    SplitNameValid(Name(out), k);
    WithNameIs(out, SplitName(Name(out), k));
  }

  /** No two parts of a split export share a path. */
  lemma SplitExportDistinct(out: string, n: nat, i: nat, j: nat)
    requires i < j < n
    ensures SplitTargets(out, n)[i] != SplitTargets(out, n)[j]
  {
    SplitNamesDistinct(Name(out), i + 1, j + 1);
    var d := Dir(out);
    var a, b := SplitName(Name(out), i + 1), SplitName(Name(out), j + 1);
    SplitTargetAt(out, n, i);
    SplitTargetAt(out, n, j);
    assert (d + a)[|d|..] == a;
    assert (d + b)[|d|..] == b;
  }

  // ---------------------------------------------------------------------------
  // find
  // ---------------------------------------------------------------------------

  /** The first 120 characters of a text, or all of it. */
  function Preview(t: string): (r: string)
    ensures |r| == if |t| <= 120 then |t| else 120
    ensures r == t[..|r|]
  {
    if |t| <= 120 then t else t[..120]
  }

  /** The lines `find` prints: one per hit, in the search's order, or the
      single notice that nothing matched. */
  function FindReport(hits: seq<Hit>, fmt2: real -> string): (lines: seq<string>)
    ensures hits == [] ==> lines == ["No matches."]
    ensures hits != [] ==> |lines| == |hits|
    ensures hits != [] ==> forall i :: 0 <= i < |hits| ==> lines[i] == FindLine(hits[i], fmt2)
  {
    if hits == [] then ["No matches."]
    else seq(|hits|, i requires 0 <= i < |hits| => FindLine(hits[i], fmt2))
  }

  /** The line `find` prints for one hit. */
  function FindLine(h: Hit, fmt2: real -> string): string {
    h.file + "  [" + fmt2(h.start) + "s]  " + Preview(h.text)
  }

  /** Reading a line back: the file comes first, the start time's text sits
      between `  [` and `s]  `, and the preview of the segment's text ends
      the line. */
  lemma FindLineReadBack(h: Hit, fmt2: real -> string)
    ensures var line, f, t, p := FindLine(h, fmt2), h.file, fmt2(h.start), Preview(h.text);
      && |line| == |f| + |t| + |p| + 7
      && line[..|f|] == f
      && line[|f|..|f| + 3] == "  ["
      && line[|f| + 3..|f| + 3 + |t|] == t
      && line[|f| + 3 + |t|..|f| + 7 + |t|] == "s]  "
      && line[|line| - |p|..] == p
  {
    var f, t, p := h.file, fmt2(h.start), Preview(h.text);
    var line := FindLine(h, fmt2);
    assert line == f + "  [" + t + "s]  " + p;
    assert line[..|f|] == f;
    assert line[|f|..|f| + 3] == "  [";
    assert line[|f| + 3..|f| + 3 + |t|] == t;
    assert line[|f| + 3 + |t|..|f| + 7 + |t|] == "s]  ";
    assert line[|line| - |p|..] == p;
  }
}
