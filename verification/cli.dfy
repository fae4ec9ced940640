/** The command-line layer (sttfast/cli.py): the decoding mode option, the
    media filter, per-segment enrichment, the duration format of the dry run,
    the checks of the `temporary` command, split-export naming, and the
    commands built from them.

    Everything the commands do to the outside world is a parameter or an
    output value: the directory listing, placement of the media, the probe,
    the recogniser, the scorer and pattern engine, number formatting and JSON
    serialisation come in; the files to write and the archive's new state go
    out. */
module Cli {
  import opened Wrappers
  import opened Text
  import opened Segments
  import opened Paths
  import Asr
  import opened Sentiment
  import opened Archive
  import opened Export
  import opened Search

  // ---------------------------------------------------------------------------
  // The --mode option
  // ---------------------------------------------------------------------------

  datatype Mode = Auto | Short | Standard | Long

  /** The option's value string, which is what reaches the preset policy. */
  function ModeValue(m: Mode): string {
    match m
    case Auto => "auto"
    case Short => "short"
    case Standard => "standard"
    case Long => "long"
  }

  /** Parsing the option: the four value strings and nothing else. */
  function ParseMode(s: string): (r: Option<Mode>)
    ensures r.Some? ==> ModeValue(r.value) == s
    ensures r.None? ==> forall m :: ModeValue(m) != s
  {
    if s == "auto" then Some(Auto)
    else if s == "short" then Some(Short)
    else if s == "standard" then Some(Standard)
    else if s == "long" then Some(Long)
    else None
  }

  /** Every mode parses back from its value, so the four values are distinct
      and the option accepts exactly them. */
  lemma ModeRoundTrip(m: Mode)
    ensures ParseMode(ModeValue(m)) == Some(m)
  {
  }

  /** A forced mode decodes with the profile of the same name whatever the
      duration; "auto" leaves the choice to the duration. */
  lemma ModeSelectsProfile(m: Mode, dur: Option<real>)
    ensures m == Short ==> Asr.ChoosePreset(ModeValue(m), dur) == Asr.Short
    ensures m == Standard ==> Asr.ChoosePreset(ModeValue(m), dur) == Asr.Standard
    ensures m == Long ==> Asr.ChoosePreset(ModeValue(m), dur) == Asr.Long
  {
  }

  /** The `min=1, max=8` bounds on `--long-beam` and `--long-best-of`;
      a value outside them is a usage error, exit code 2. */
  predicate BeamOptionsValid(longBeam: int, longBestOf: int) {
    1 <= longBeam <= 8 && 1 <= longBestOf <= 8
  }

  // ---------------------------------------------------------------------------
  // _gather
  // ---------------------------------------------------------------------------

  const AudioExts: set<string> := {".wav", ".mp3", ".m4a", ".flac", ".aac", ".ogg", ".wma"}
  const VideoExts: set<string> := {".mp4", ".mkv", ".mov", ".m4v", ".avi", ".webm"}
  const MediaExts: set<string> := AudioExts + VideoExts

  /** The lower-cased suffix of a path's name: empty, or a dot followed by
      at least one character that is neither a dot nor a separator. */
  function Extension(p: string): (e: string)
    ensures e == "" <==> Suffix(Name(p)) == ""
    ensures e != "" ==> |e| >= 2 && e[0] == '.' && forall k :: 0 < k < |e| ==> e[k] != '.' && e[k] != '/'
  {
    var suf := Suffix(Name(p));
    assert forall k :: 0 <= k < |suf| ==> suf[k] != '/' by {
      StemSuffix(Name(p));
      forall k | 0 <= k < |suf|
        ensures suf[k] != '/'
      {
        assert suf[k] == Name(p)[|Stem(Name(p))| + k];
      }
    }
    Lower(suf)
  }

  predicate IsMedia(p: string) {
    Extension(p) in MediaExts
  }

  /** A command-line input: a directory comes with the paths its recursive
      listing yields, in the listing's order. */
  datatype InputPath = InputPath(path: string, isDir: bool, listing: seq<string>)

  /** The elements of `xs` that `keep` accepts, in order. */
  function Filter<T(!new)>(xs: seq<T>, keep: T -> bool): (r: seq<T>)
    ensures |r| <= |xs|
    ensures forall x :: x in r <==> x in xs && keep(x)
  {
    if xs == [] then []
    else (if keep(xs[0]) then [xs[0]] else []) + Filter(xs[1..], keep)
  }

  /** `_gather` with the test on paths as a parameter: a directory
      contributes the accepted paths of its listing, a file itself when
      accepted. */
  function GatherBy(inputs: seq<InputPath>, keep: string -> bool): (r: seq<string>)
    ensures forall k :: 0 <= k < |r| ==> keep(r[k])
  {
    if inputs == [] then []
    else
      var p := inputs[0];
      (if p.isDir then Filter(p.listing, keep) else if keep(p.path) then [p.path] else []) + GatherBy(inputs[1..], keep)
  }

  lemma {:induction false} GatherByAppend(a: seq<InputPath>, b: seq<InputPath>, keep: string -> bool)
    ensures GatherBy(a + b, keep) == GatherBy(a, keep) + GatherBy(b, keep)
    decreases |a|
  {
    if a == [] {
      assert a + b == b;
    } else {
      assert (a + b)[1..] == a[1..] + b;
      GatherByAppend(a[1..], b, keep);
    }
  }

  lemma {:induction false} GatherByMembers(inputs: seq<InputPath>, keep: string -> bool, x: string)
    ensures x in GatherBy(inputs, keep) <==>
      exists i :: 0 <= i < |inputs| && keep(x) &&
        (if inputs[i].isDir then x in inputs[i].listing else x == inputs[i].path)
    decreases |inputs|
  {
    if inputs != [] {
      GatherByMembers(inputs[1..], keep, x);
      if x in GatherBy(inputs[1..], keep) {
        var i :| 0 <= i < |inputs[1..]| && keep(x) &&
          (if inputs[1..][i].isDir then x in inputs[1..][i].listing else x == inputs[1..][i].path);
        assert inputs[i + 1] == inputs[1..][i];
      }
      if exists i :: 0 <= i < |inputs| && keep(x) &&
          (if inputs[i].isDir then x in inputs[i].listing else x == inputs[i].path) {
        var i :| 0 <= i < |inputs| && keep(x) &&
          (if inputs[i].isDir then x in inputs[i].listing else x == inputs[i].path);
        if i > 0 {
          assert inputs[1..][i - 1] == inputs[i];
        }
      }
    }
  }

  /** `_gather`. */
  function Gather(inputs: seq<InputPath>): (r: seq<string>)
    ensures forall k :: 0 <= k < |r| ==> IsMedia(r[k])
  {
    GatherBy(inputs, IsMedia)
  }

  /** Inputs are gathered in order: the result for a list of inputs is the
      results for its parts, one after the other. */
  lemma GatherAppend(a: seq<InputPath>, b: seq<InputPath>)
    ensures Gather(a + b) == Gather(a) + Gather(b)
  {
    GatherByAppend(a, b, IsMedia);
  }

  /** What is gathered: a file input is kept iff its extension, ignoring ASCII case,
      is a media extension; a directory contributes exactly the media paths
      of its listing. */
  lemma GatherMembers(inputs: seq<InputPath>, x: string)
    ensures x in Gather(inputs) <==>
      exists i :: 0 <= i < |inputs| && IsMedia(x) &&
        (if inputs[i].isDir then x in inputs[i].listing else x == inputs[i].path)
  {
    GatherByMembers(inputs, IsMedia, x);
  }

  // ---------------------------------------------------------------------------
  // Enrichment (_analyze_segments and the pool.map in transcribe)
  // ---------------------------------------------------------------------------

  /** `{**s, **label}`: the label's two keys replace whatever the segment had
      under them. */
  function Merge(s: Segment, lab: Label): (r: Segment)
    ensures r.start == s.start && r.end == s.end && r.text == s.text
    ensures r.sentiment == Some(PolarityName(lab.sentiment))
    ensures r.tones.Some? && |r.tones.value| == |lab.tones|
    ensures forall k :: 0 <= k < |lab.tones| ==> r.tones.value[k] == ToneName(lab.tones[k])
  {
    var names := seq(|lab.tones|, k requires 0 <= k < |lab.tones| => ToneName(lab.tones[k]));
    s.(sentiment := Some(PolarityName(lab.sentiment)), tones := Some(names))
  }

  /** One segment merged with the label of its own text. */
  function Enrich(s: Segment, eng: TextEngine, score: string -> real): Segment {
    Merge(s, LabelText(Some(s.text), eng, score))
  }

  /** The order-preserving map both commands apply. */
  function EnrichAll(segs: seq<Segment>, eng: TextEngine, score: string -> real): (r: seq<Segment>)
    ensures |r| == |segs|
    ensures forall i :: 0 <= i < |segs| ==> r[i] == Enrich(segs[i], eng, score)
  {
    seq(|segs|, i requires 0 <= i < |segs| => Enrich(segs[i], eng, score))
  }

  /** `_analyze_segments`, the loop `temporary` runs. */
  method AnalyzeSegments(segs: seq<Segment>, eng: TextEngine, score: string -> real) returns (out: seq<Segment>)
    ensures out == EnrichAll(segs, eng, score)
  {
    out := MapInOrder(segs, s => Enrich(s, eng, score));
  }

  /** The loop of `_analyze_segments`, for any per-element step. */
  method MapInOrder<T, U>(xs: seq<T>, f: T -> U) returns (out: seq<U>)
    ensures |out| == |xs|
    ensures forall k :: 0 <= k < |xs| ==> out[k] == f(xs[k])
  {
    out := [];
    var i := 0;
    while i < |xs|
      invariant 0 <= i <= |xs|
      invariant |out| == i
      invariant forall k :: 0 <= k < i ==> out[k] == f(xs[k])
    {
      out := out + [f(xs[i])];
      i := i + 1;
    }
  }

  /** Enriching keeps timing and text, and the labels are those of the text:
      enriching an enriched segment changes nothing. */
  lemma EnrichIdempotent(s: Segment, eng: TextEngine, score: string -> real)
    ensures Enrich(Enrich(s, eng, score), eng, score) == Enrich(s, eng, score)
  {
  }

  /** Every enriched segment carries a sentiment label and at most two tone
      names, and a blank text gets no tone names. */
  lemma EnrichedLabels(s: Segment, eng: TextEngine, score: string -> real)
    ensures var e := Enrich(s, eng, score);
      && e.sentiment.Some?
      && e.sentiment.value in {"positive", "neutral", "negative"}
      && e.tones.Some? && |e.tones.value| <= 2
      && (AllSpace(s.text) ==> e.tones.value == [])
      && var tags := ToneTagsSpec(Strip(s.text), eng);
        |e.tones.value| == |tags| && forall k :: 0 <= k < |tags| ==> e.tones.value[k] == ToneName(tags[k])
  {
    if AllSpace(s.text) {
      LabelOfBlank(s.text, eng, score);
      LabelOfBlank("", eng, score);
    }
  }

  // ---------------------------------------------------------------------------
  // fmt_dur (dry run)
  // ---------------------------------------------------------------------------

  /** The three fields of `fmt_dur`: `divmod` by 3600 and then by 60 of the
      truncated seconds. With a positive divisor Python's floor division and
      Dafny's division agree, negative counts included. */
  datatype Hms = Hms(h: int, m: int, s: int)

  function DurFields(secs: int): (c: Hms)
    ensures 0 <= c.m < 60 && 0 <= c.s < 60
    ensures c.h * 3600 + c.m * 60 + c.s == secs
  {
    var h := secs / 3600;
    var r := secs % 3600;
    Hms(h, r / 60, r % 60)
  }

  /** `fmt_dur`: a known duration always prints with colons, so it never
      reads as `unknown`. */
  function FmtDur(d: Option<real>): (r: string)
    ensures r == "unknown" <==> d.None?
    ensures d.Some? ==> ':' in r
  {
    match d
    case None => "unknown"
    case Some(x) =>
      var c := DurFields(Asr.Trunc(x));
      var hh := ZeroPad(c.h, 2);
      var r := hh + ":" + ZeroPad(c.m, 2) + ":" + ZeroPad(c.s, 2);
      assert r[|hh|] == ':';
      assert ':' !in "unknown";
      r
  }

  /** Reading the dry run's duration back: for a duration under 100 hours the
      text is exactly `HH:MM:SS`, minutes and seconds are below 60, and the
      three numbers add up to the whole seconds of the duration. */
  lemma FmtDurReadBack(x: real)
    requires 0.0 <= x < 360000.0
    ensures var r := FmtDur(Some(x));
      && |r| == 8 && r[2] == ':' && r[5] == ':'
      && AllDigits(r[0..2]) && AllDigits(r[3..5]) && AllDigits(r[6..8])
      && ParseDecimal(r[3..5]) < 60 && ParseDecimal(r[6..8]) < 60
      && ParseDecimal(r[0..2]) * 3600 + ParseDecimal(r[3..5]) * 60 + ParseDecimal(r[6..8]) == x.Floor
  {
    var secs := Asr.Trunc(x);
    assert secs == x.Floor;
    var c := DurFields(secs);
    assert 0 <= c.h < 100;
    assert Pow10(2) == 100;
    ZeroPadFixedWidth(c.h, 2);
    ZeroPadFixedWidth(c.m, 2);
    ZeroPadFixedWidth(c.s, 2);
    var hh, mm, ss := ZeroPad(c.h, 2), ZeroPad(c.m, 2), ZeroPad(c.s, 2);
    var r := FmtDur(Some(x));
    assert r == hh + ":" + mm + ":" + ss;
    assert r[0..2] == hh;
    assert r[3..5] == mm;
    assert r[6..8] == ss;
  }

  lemma FmtDurUnknown()
    ensures FmtDur(None) == "unknown"
  {
  }

  // ---------------------------------------------------------------------------
  // temporary: input check
  // ---------------------------------------------------------------------------

  const TranscriptExts: set<string> := {".json", ".txt", ".srt"}

  /** The check at the top of `temporary`: a missing file, or one whose
      extension, ignoring ASCII case, is a transcript's, ends the command with exit
      code 2. */
  function TemporaryInputError(file: string, present: bool): (code: Option<int>)
    ensures code.Some? <==> !present || Extension(file) in TranscriptExts
    ensures code.Some? ==> code.value == 2
  {
    if !present || Extension(file) in TranscriptExts then Some(2) else None
  }

  /** No media file is refused as a transcript. */
  lemma MediaPassesTemporaryCheck(file: string)
    requires IsMedia(file)
    ensures TemporaryInputError(file, true).None?
  {
    MediaIsNotTranscript(Extension(file));
  }

  lemma MediaIsNotTranscript(e: string)
    requires e in MediaExts
    ensures e !in TranscriptExts
  {
  }

  // ---------------------------------------------------------------------------
  // export: split naming
  // ---------------------------------------------------------------------------

  /** The name of the i-th output of a split export: `stem_i` with the
      output's suffix. */
  function SplitName(outName: string, i: nat): (r: string)
    ensures |r| == |outName| + 1 + |DecimalDigits(i)|
  {
    StemSuffix(outName);
    Stem(outName) + "_" + DecimalDigits(i) + Suffix(outName)
  }

  lemma LastIndexIs(s: string, c: char, i: nat)
    requires i < |s| && s[i] == c
    requires forall k :: i < k < |s| ==> s[k] != c
    ensures LastIndex(s, c) == i
  {
  }

  /** A split output keeps the output's suffix, and its stem is the output's
      stem with `_i` appended. A name ending in a dot is left out: it has no
      suffix, but `_i` after that dot makes one. */
  lemma SplitNameParts(outName: string, i: nat)
    requires outName == "" || outName[|outName| - 1] != '.'
    ensures Suffix(SplitName(outName, i)) == Suffix(outName)
    ensures Stem(SplitName(outName, i)) == Stem(outName) + "_" + DecimalDigits(i)
  {
    var st, suf := Stem(outName), Suffix(outName);
    StemSuffix(outName);
    var tail := "_" + DecimalDigits(i);
    assert SplitName(outName, i) == st + tail + suf;
    TailHasNoDot(i);
    if suf == "" {
      assert st == outName && st + tail + suf == outName + tail;
      AppendWithoutSuffix(outName, tail);
    } else {
      AppendBeforeSuffix(st + tail, suf);
    }
  }

  lemma TailHasNoDot(i: nat)
    ensures '.' !in "_" + DecimalDigits(i)
  {
    var tail := "_" + DecimalDigits(i);
    forall k | 0 < k < |tail|
      ensures tail[k] != '.'
    {
      assert tail[k] == DecimalDigits(i)[k - 1];
      assert IsDigit(DecimalDigits(i)[k - 1]);
    }
  }

  /** Appending dot-free text to a name without a suffix (and not ending in a
      dot) makes no suffix. */
  lemma AppendWithoutSuffix(n: string, tail: string)
    requires Suffix(n) == "" && (n == "" || n[|n| - 1] != '.') && '.' !in tail
    ensures Suffix(n + tail) == "" && Stem(n + tail) == n + tail
  {
    LastIndexOfPrefix(n, tail, '.');
  }

  /** Text in front of a suffix is the stem, and the suffix stays. */
  lemma AppendBeforeSuffix(front: string, suf: string)
    requires front != [] && |suf| >= 2 && suf[0] == '.'
    requires forall k :: 0 < k < |suf| ==> suf[k] != '.'
    ensures Suffix(front + suf) == suf && Stem(front + suf) == front
  {
    var n := front + suf;
    forall k | |front| < k < |n|
      ensures n[k] != '.'
    {
      assert n[k] == suf[k - |front|];
    }
    LastIndexIs(n, '.', |front|);
    assert n[|front|..] == suf;
    assert n[..|front|] == front;
  }

  lemma CancelAround(a: string, x: string, y: string, b: string)
    requires a + x + b == a + y + b
    ensures x == y
  {
    var l := a + x + b;
    assert |x| == |y|;
    assert x == l[|a|..|a| + |x|];
    assert y == (a + y + b)[|a|..|a| + |y|];
  }

  /** Distinct positions give distinct names, so the outputs of one split
      export never overwrite each other. */
  lemma SplitNamesDistinct(outName: string, i: nat, j: nat)
    requires i != j
    ensures SplitName(outName, i) != SplitName(outName, j)
  {
    if SplitName(outName, i) == SplitName(outName, j) {
      var a := Stem(outName) + "_";
      assert SplitName(outName, i) == a + DecimalDigits(i) + Suffix(outName);
      assert SplitName(outName, j) == a + DecimalDigits(j) + Suffix(outName);
      CancelAround(a, DecimalDigits(i), DecimalDigits(j), Suffix(outName));
      DecimalInjective(i, j);
    }
  }
}
