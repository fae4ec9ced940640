/** Preset policy and recognition-call configuration (sttfast/asr.py).

    The speech recogniser is an oracle: given the media path and the decoding
    options it either fails or returns the detected language, the duration and
    the timed spans. The duration probe is represented by the value it
    returned for the path (`None` when ffprobe is missing or fails). */
module Asr {
  import opened Wrappers
  import opened Text
  import opened Segments

  /** Durations up to and including this many seconds decode as "short". */
  const ShortMaxS: real := 15.0
  /** Durations of at least this many seconds (30 minutes) decode as "long". */
  const LongMinS: real := 1800.0

  datatype Profile = Short | Standard | Long

  function ProfileName(p: Profile): string {
    match p
    case Short => "short"
    case Standard => "standard"
    case Long => "long"
  }

  /** Profile selection exactly as `ASR._choose_preset` writes it: a preset
      other than "auto" names the profile (anything unrecognised meaning
      "standard") and the duration is not consulted. */
  function ChoosePreset(preset: string, dur: Option<real>): (p: Profile)
    ensures preset != "auto" ==>
      && (p == Short <==> preset == "short")
      && (p == Long <==> preset == "long")
      && (p == Standard <==> preset != "short" && preset != "long")
    ensures preset == "auto" && dur.None? ==> p == Standard
    ensures preset == "auto" && dur.Some? ==>
      && (p == Short <==> dur.value <= ShortMaxS)
      && (p == Long <==> dur.value >= LongMinS)
      && (p == Standard <==> ShortMaxS < dur.value < LongMinS)
  {
    if preset != "auto" then
      (if preset == "short" then Short else if preset == "long" then Long else Standard)
    else if dur.None? then Standard
    else if dur.value <= ShortMaxS then Short
    else if dur.value >= LongMinS then Long
    else Standard
  }

  /** `choose_preset_for`, the dry-run helper: the profile together with the
      probed duration, written out separately in the source. */
  function ChoosePresetFor(preset: string, probed: Option<real>): (r: (Profile, Option<real>))
    ensures r.0 == ChoosePreset(preset, probed)
    ensures r.1 == probed
  {
    if preset != "auto" then
      var forced := if preset == "short" then Short else if preset == "long" then Long else Standard;
      (forced, probed)
    else if probed.None? then (Standard, None)
    else if probed.value <= ShortMaxS then (Short, probed)
    else if probed.value >= LongMinS then (Long, probed)
    else (Standard, probed)
  }

  // ---------------------------------------------------------------------------
  // Decoding options (the keyword arguments of model.transcribe)
  // ---------------------------------------------------------------------------

  /** The keyword arguments handed to the recogniser. Optional fields are the
      keys that only some profiles set. */
  datatype DecodeOptions = DecodeOptions(
    vadFilter: bool,
    wordTimestamps: bool,
    temperature: real,
    language: Option<string>,
    minSilenceDurationMs: nat,
    beamSize: int,
    bestOf: int,
    conditionOnPreviousText: bool,
    noSpeechThreshold: Option<real>,
    logProbThreshold: Option<real>)

  /** The fixed parameter bundle of each profile. */
  function OptionsFor(choice: Profile, vad: bool, language: Option<string>,
                      longBeamSize: int, longBestOf: int): (o: DecodeOptions)
    ensures o.vadFilter == vad && !o.wordTimestamps && o.temperature == 0.0
    ensures o.language.Some? <==> language.Some? && language.value != ""
    ensures o.language.Some? ==> o.language == language
    ensures choice == Short ==>
      && o.minSilenceDurationMs == 150 && o.beamSize == 1 && o.bestOf == 1
      && !o.conditionOnPreviousText
      && o.noSpeechThreshold == Some(0.6) && o.logProbThreshold == Some(-1.0)
    ensures choice == Long ==>
      && o.minSilenceDurationMs == 400 && o.beamSize == longBeamSize && o.bestOf == longBestOf
      && o.conditionOnPreviousText
      && o.noSpeechThreshold.None? && o.logProbThreshold.None?
    ensures choice == Standard ==>
      && o.minSilenceDurationMs == 250 && o.beamSize == 1 && o.bestOf == 1
      && o.conditionOnPreviousText
      && o.noSpeechThreshold.None? && o.logProbThreshold.None?
  {
    var lang := if language.Some? && language.value != "" then language else None;
    match choice
    case Short => DecodeOptions(vad, false, 0.0, lang, 150, 1, 1, false, Some(0.6), Some(-1.0))
    case Long => DecodeOptions(vad, false, 0.0, lang, 400, longBeamSize, longBestOf, true, None, None)
    case Standard => DecodeOptions(vad, false, 0.0, lang, 250, 1, 1, true, None, None)
  }

  /** A span as the recogniser yields it. */
  datatype Span = Span(start: real, end: real, text: string)

  /** What the recogniser reports for one file. */
  datatype Recognition = Recognition(language: string, duration: real, spans: seq<Span>)

  /** The dict `transcribe_path` returns. */
  datatype Transcript = Transcript(language: string, duration: real, segments: seq<Segment>, presetUsed: Profile)

  function SegmentOf(s: Span): Segment {
    RawSegment(s.start, s.end, Strip(s.text))
  }

  /** `ASR.transcribe_path`: choose the profile, build its options, run the
      recogniser and keep its spans with stripped text. A recogniser failure
      propagates unchanged. */
  function TranscribePath(
    path: string, vad: bool, preset: string, language: Option<string>,
    longBeamSize: int, longBestOf: int,
    probed: Option<real>,
    recognize: (string, DecodeOptions) -> Result<Recognition, string>): (r: Result<Transcript, string>)
    ensures var choice := ChoosePreset(preset, probed);
      var rec := recognize(path, OptionsFor(choice, vad, language, longBeamSize, longBestOf));
      && (rec.Err? <==> r.Err?)
      && (rec.Err? ==> r.error == rec.error)
      && (rec.Ok? ==>
        && r.value.presetUsed == choice
        && r.value.language == rec.value.language
        && r.value.duration == rec.value.duration
        && |r.value.segments| == |rec.value.spans|
        && forall i :: 0 <= i < |rec.value.spans| ==>
          && r.value.segments[i].start == rec.value.spans[i].start
          && r.value.segments[i].end == rec.value.spans[i].end
          && r.value.segments[i].text == Strip(rec.value.spans[i].text)
          && r.value.segments[i].sentiment.None?
          && r.value.segments[i].tones.None?)
  {
    var choice := ChoosePreset(preset, probed);
    var kw := OptionsFor(choice, vad, language, longBeamSize, longBestOf);
    match recognize(path, kw)
    case Err(e) => Err(e)
    case Ok(rec) =>
      var out := seq(|rec.spans|, i requires 0 <= i < |rec.spans| => SegmentOf(rec.spans[i]));
      Ok(Transcript(rec.language, rec.duration, out, choice))
  }

  // ---------------------------------------------------------------------------
  // SubRip rendering
  // ---------------------------------------------------------------------------

  /** Python's `int(x)` on a float: truncation towards zero. */
  function Trunc(x: real): int {
    if x >= 0.0 then x.Floor else -((-x).Floor)
  }

  /** Python's float `x % d` for a positive divisor: never negative. */
  function FloatMod(x: real, d: real): real
    requires d > 0.0
  {
    x - d * (x / d).Floor as real
  }

  /** The four fields `fmt` prints. */
  datatype Clock = Clock(h: int, m: int, s: int, ms: int)

  /** The arithmetic of `to_srt`'s inner `fmt`, for any real. */
  function SrtClock(t: real): Clock {
    Clock((t / 3600.0).Floor,
          (FloatMod(t, 3600.0) / 60.0).Floor,
          Trunc(FloatMod(t, 60.0)),
          Trunc((t - Trunc(t) as real) * 1000.0))
  }

  /** `fmt(t)`: `HH:MM:SS,mmm` with at least two digits for hours. */
  function SrtTime(t: real): (r: string)
    ensures t >= 0.0 ==> |r| >= 12 && r[|r| - 4] == ',' && r[|r| - 7] == ':' && r[|r| - 10] == ':'
  {
    var c := SrtClock(t);
    var hh, mm, ss, mss := ZeroPad(c.h, 2), ZeroPad(c.m, 2), ZeroPad(c.s, 2), ZeroPad(c.ms, 3);
    if t >= 0.0 then
      SrtClockBounds(t);
      assert Pow10(2) == 100 && Pow10(3) == 1000;
      ZeroPadFixedWidth(c.m, 2);
      ZeroPadFixedWidth(c.s, 2);
      ZeroPadFixedWidth(c.ms, 3);
      ZeroPadAtLeast(c.h, 2);
      hh + ":" + mm + ":" + ss + "," + mss
    else
      hh + ":" + mm + ":" + ss + "," + mss
  }

  /** Floor division of a non-negative real by 60 or 3600 agrees with integer
      division of its whole part. */
  lemma FloorDivision(t: real, d: int)
    requires t >= 0.0 && (d == 60 || d == 3600)
    ensures (t / d as real).Floor == t.Floor / d
  {
    var n := t.Floor;
    var q := n / d;
    assert q * d <= n < q * d + d;
    if d == 60 {
      assert q as real * 60.0 <= t < (q + 1) as real * 60.0;
      assert q as real <= t / 60.0 < (q + 1) as real;
    } else {
      assert q as real * 3600.0 <= t < (q + 1) as real * 3600.0;
      assert q as real <= t / 3600.0 < (q + 1) as real;
    }
  }

  /** The whole part of `t % d` is the whole part of `t` modulo `d`. */
  lemma FloatModWhole(t: real, d: int)
    requires t >= 0.0 && (d == 60 || d == 3600)
    ensures FloatMod(t, d as real) >= 0.0
    ensures FloatMod(t, d as real).Floor == t.Floor % d
  {
    FloorDivision(t, d);
    var n := t.Floor;
    var r := FloatMod(t, d as real);
    assert r == t - (d * (n / d)) as real;
    assert n - d * (n / d) == n % d;
  }

  /** Hours, minutes of the hour and seconds of the minute make up the whole. */
  lemma HmsSum(n: int)
    requires n >= 0
    ensures (n % 3600) % 60 == n % 60
    ensures (n / 3600) * 3600 + ((n % 3600) / 60) * 60 + n % 60 == n
  {
    var a, r := n / 3600, n % 3600;
    var m, s := r / 60, r % 60;
    assert n == 3600 * a + r;
    assert r == 60 * m + s && 0 <= s < 60;
    ModOfSum(n, 60 * a + m, s);
  }

  /** The remainder modulo 60 of `60 * q + s` is `s` when `0 <= s < 60`. */
  lemma ModOfSum(n: int, q: int, s: int)
    requires n == 60 * q + s && 0 <= s < 60
    ensures n % 60 == s
  {
  }

  /** The milliseconds field is below 1000 for a non-negative time. */
  lemma MillisBound(t: real)
    requires t >= 0.0
    ensures 0 <= SrtClock(t).ms < 1000
  {
    var f := t - Trunc(t) as real;
    assert 0.0 <= f < 1.0;
    assert 0.0 <= f * 1000.0 < 1000.0;
  }

  /** For a non-negative time the clock fields are in range and add up to
      the whole seconds of `t`. */
  lemma SrtClockBounds(t: real)
    requires t >= 0.0
    ensures var c := SrtClock(t);
      && c.h >= 0 && 0 <= c.m < 60 && 0 <= c.s < 60 && 0 <= c.ms < 1000
      && c.h * 3600 + c.m * 60 + c.s == t.Floor
  {
    var n := t.Floor;
    var c := SrtClock(t);
    FloorDivision(t, 3600);
    FloatModWhole(t, 3600);
    FloorDivision(FloatMod(t, 3600.0), 60);
    FloatModWhole(t, 60);
    assert c.h == n / 3600 && c.m == (n % 3600) / 60 && c.s == n % 60;
    HmsSum(n);
    MillisBound(t);
  }

  /** Reading `fmt(t)` back: for times under 100 hours the string is exactly
      `HH:MM:SS,mmm` and its digit groups give the clock fields back. */
  lemma SrtTimeReadBack(t: real)
    requires 0.0 <= t < 360000.0
    ensures var r := SrtTime(t);
      var c := SrtClock(t);
      && |r| == 12 && r[2] == ':' && r[5] == ':' && r[8] == ','
      && AllDigits(r[0..2]) && AllDigits(r[3..5]) && AllDigits(r[6..8]) && AllDigits(r[9..12])
      && ParseDecimal(r[0..2]) == c.h
      && ParseDecimal(r[3..5]) == c.m
      && ParseDecimal(r[6..8]) == c.s
      && ParseDecimal(r[9..12]) == c.ms
      && ParseDecimal(r[0..2]) * 3600 + ParseDecimal(r[3..5]) * 60 + ParseDecimal(r[6..8]) == t.Floor
  {
    var c := SrtClock(t);
    SrtClockBounds(t);
    FloorDivision(t, 3600);
    assert c.h < 100;
    assert Pow10(2) == 100 && Pow10(3) == 1000;
    ZeroPadFixedWidth(c.h, 2);
    ZeroPadFixedWidth(c.m, 2);
    ZeroPadFixedWidth(c.s, 2);
    ZeroPadFixedWidth(c.ms, 3);
    var hh, mm, ss, mss := ZeroPad(c.h, 2), ZeroPad(c.m, 2), ZeroPad(c.s, 2), ZeroPad(c.ms, 3);
    TimeFields(hh, mm, ss, mss);
  }

  /** The fields of `HH:MM:SS,mmm` sit at fixed positions. */
  lemma TimeFields(hh: string, mm: string, ss: string, mss: string)
    requires |hh| == 2 && |mm| == 2 && |ss| == 2 && |mss| == 3
    ensures var r := hh + ":" + mm + ":" + ss + "," + mss;
      && |r| == 12 && r[2] == ':' && r[5] == ':' && r[8] == ','
      && r[0..2] == hh && r[3..5] == mm && r[6..8] == ss && r[9..12] == mss
  {
    var r := hh + ":" + mm + ":" + ss + "," + mss;
    assert r[0..2] == hh;
    assert r[3..5] == mm;
    assert r[6..8] == ss;
    assert r[9..12] == mss;
  }

  /** Four lines of text. */
  datatype Quad = Quad(a: string, b: string, c: string, d: string)

  function QuadLines(q: Quad): (r: seq<string>)
    ensures |r| == 4
  {
    [q.a, q.b, q.c, q.d]
  }

  /** The four lines of one SubRip block: index, time range, text, blank. */
  function SrtBlock(index: nat, s: Segment): Quad {
    Quad(DecimalDigits(index), SrtTime(s.start) + " --> " + SrtTime(s.end), s.text, "")
  }

  /** Consecutive blocks of four lines, numbered from `first`. */
  function Blocks<T>(xs: seq<T>, first: nat, block: (nat, T) -> Quad): (r: seq<string>)
    ensures |r| == 4 * |xs|
    decreases |xs|
  {
    if xs == [] then [] else QuadLines(block(first, xs[0])) + Blocks(xs[1..], first + 1, block)
  }

  /** `to_srt`: the blocks of all segments, numbered from 1, joined by
      newlines. */
  function ToSrt(segs: seq<Segment>): (r: string)
    ensures r == "" <==> segs == []
  {
    var lines := Blocks(segs, 1, SrtBlock);
    if segs != [] then
      assert lines[0] == "1";
      JoinStartsWith("\n", lines);
      Join("\n", lines)
    else
      Join("\n", lines)
  }

  /** Lines `k..k+3` of `lines` are the block `q`. */
  predicate BlockAt(lines: seq<string>, k: nat, q: Quad) {
    k + 4 <= |lines| && lines[k..k + 4] == QuadLines(q)
  }

  predicate QuadNoNewline(q: Quad) {
    '\n' !in q.a && '\n' !in q.b && '\n' !in q.c && '\n' !in q.d
  }

  lemma ToSrtEmpty()
    ensures ToSrt([]) == ""
  {
  }

  lemma DecimalHasNoNewline(n: nat)
    ensures '\n' !in DecimalDigits(n)
  {
    var d := DecimalDigits(n);
    assert forall i :: 0 <= i < |d| ==> d[i] != '\n';
  }

  lemma ZeroPadHasNoNewline(n: int, width: nat)
    ensures '\n' !in ZeroPad(n, width)
  {
    DecimalHasNoNewline(if n >= 0 then n else -n);
    var w := if n >= 0 then width else if width > 0 then width - 1 else 0;
    var p := PadZeros(DecimalDigits(if n >= 0 then n else -n), w);
    assert forall i :: 0 <= i < |p| ==> p[i] != '\n';
  }

  lemma SrtTimeHasNoNewline(t: real)
    ensures '\n' !in SrtTime(t)
  {
    var c := SrtClock(t);
    ZeroPadHasNoNewline(c.h, 2);
    ZeroPadHasNoNewline(c.m, 2);
    ZeroPadHasNoNewline(c.s, 2);
    ZeroPadHasNoNewline(c.ms, 3);
  }

  lemma SrtBlockHasNoNewline(index: nat, s: Segment)
    requires '\n' !in s.text
    ensures QuadNoNewline(SrtBlock(index, s))
  {
    SrtTimeHasNoNewline(s.start);
    SrtTimeHasNoNewline(s.end);
    DecimalHasNoNewline(index);
  }

  /** When no segment text contains a newline, the SubRip text splits back
      into exactly the block lines: index i+1, the time range, the text and a
      blank line for the i-th segment. */
  lemma ToSrtLines(segs: seq<Segment>)
    requires |segs| >= 1
    requires forall i :: 0 <= i < |segs| ==> '\n' !in segs[i].text
    ensures var lines := Split(ToSrt(segs), '\n');
      && |lines| == 4 * |segs|
      && forall i :: 0 <= i < |segs| ==> BlockAt(lines, 4 * i, SrtBlock(i + 1, segs[i]))
  {
    var lines := Blocks(segs, 1, SrtBlock);
    forall i | 0 <= i < |segs|
      ensures QuadNoNewline(SrtBlock(1 + i, segs[i]))
    {
      SrtBlockHasNoNewline(1 + i, segs[i]);
    }
    BlocksNoNewline(segs, 1, SrtBlock);
    SplitJoin(lines, '\n');
    BlocksAt(segs, 1, SrtBlock);
  }

  /** Block i of the lines is the block of element i, numbered from `first`. */
  lemma {:induction false} BlocksAt<T>(xs: seq<T>, first: nat, block: (nat, T) -> Quad)
    ensures forall i :: 0 <= i < |xs| ==> BlockAt(Blocks(xs, first, block), 4 * i, block(first + i, xs[i]))
    decreases |xs|
  {
    if xs != [] {
      var lines := Blocks(xs, first, block);
      var b := QuadLines(block(first, xs[0]));
      var rest := Blocks(xs[1..], first + 1, block);
      BlocksAt(xs[1..], first + 1, block);
      assert lines == b + rest;
      forall i | 0 <= i < |xs|
        ensures BlockAt(lines, 4 * i, block(first + i, xs[i]))
      {
        if i == 0 {
          assert lines[0..4] == b;
        } else {
          assert xs[1..][i - 1] == xs[i];
          QuadShift(b, rest, i);
        }
      }
    }
  }

  /** Past a leading block of four, the i-th group of four lines is the
      (i-1)-th group of the rest. */
  lemma QuadShift<T>(b: seq<T>, rest: seq<T>, i: nat)
    requires |b| == 4 && 1 <= i && 4 * i + 4 <= |b| + |rest|
    ensures (b + rest)[4 * i..4 * i + 4] == rest[4 * (i - 1)..4 * (i - 1) + 4]
  {
  }

  lemma {:induction false} BlocksNoNewline<T>(xs: seq<T>, first: nat, block: (nat, T) -> Quad)
    requires forall i :: 0 <= i < |xs| ==> QuadNoNewline(block(first + i, xs[i]))
    ensures forall k :: 0 <= k < 4 * |xs| ==> '\n' !in Blocks(xs, first, block)[k]
    decreases |xs|
  {
    if xs != [] {
      var b := QuadLines(block(first, xs[0]));
      var rest := Blocks(xs[1..], first + 1, block);
      assert QuadNoNewline(block(first + 0, xs[0]));
      forall i | 0 <= i < |xs[1..]|
        ensures QuadNoNewline(block(first + 1 + i, xs[1..][i]))
      {
        assert xs[1..][i] == xs[i + 1];
      }
      BlocksNoNewline(xs[1..], first + 1, block);
      assert Blocks(xs, first, block) == b + rest;
      forall k | 4 <= k < 4 * |xs|
        ensures (b + rest)[k] == rest[k - 4]
      {
      }
    }
  }

  // ---------------------------------------------------------------------------
  // JSON Lines rendering
  // ---------------------------------------------------------------------------

  /** `to_jsonl`: one encoded object per segment, newline separated. The JSON
      encoder is a parameter. */
  function ToJsonl(segs: seq<Segment>, encode: Segment -> string): (r: string)
    ensures segs == [] ==> r == ""
    ensures segs != [] && (forall i :: 0 <= i < |segs| ==> '\n' !in encode(segs[i])) ==>
      |Split(r, '\n')| == |segs| && forall i :: 0 <= i < |segs| ==> Split(r, '\n')[i] == encode(segs[i])
  {
    var lines := seq(|segs|, i requires 0 <= i < |segs| => encode(segs[i]));
    if segs != [] && (forall i :: 0 <= i < |segs| ==> '\n' !in encode(segs[i])) then
      SplitJoin(lines, '\n');
      Join("\n", lines)
    else
      Join("\n", lines)
  }

  /** The reader matching `to_jsonl`: no lines for an empty text, otherwise one
      decoded object per newline-separated line. */
  function ParseJsonl(text: string, decode: string -> Segment): (r: seq<Segment>)
  {
    if text == "" then []
    else
      var lines := Split(text, '\n');
      seq(|lines|, i requires 0 <= i < |lines| => decode(lines[i]))
  }

  /** JSON Lines round trip: with an encoder that never emits a raw newline
      or an empty object text (true of `json.dumps`) and a decoder inverse to
      it, reading back the export gives the segments back, in order. */
  lemma JsonlRoundTrip(segs: seq<Segment>, encode: Segment -> string, decode: string -> Segment)
    requires forall s :: decode(encode(s)) == s
    requires forall s :: '\n' !in encode(s) && encode(s) != ""
    ensures ParseJsonl(ToJsonl(segs, encode), decode) == segs
  {
    var lines := seq(|segs|, i requires 0 <= i < |segs| => encode(segs[i]));
    if segs != [] {
      SplitJoin(lines, '\n');
      if |segs| == 1 {
        assert ToJsonl(segs, encode) == encode(segs[0]);
      } else {
        assert ToJsonl(segs, encode) == lines[0] + "\n" + Join("\n", lines[1..]);
      }
    }
  }
}
