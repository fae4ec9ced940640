/** The plain-text and JSON exporters (sttfast/export.py).

    A text export writes one line per segment: an optional `[start-end] `
    prefix, the text verbatim, and an optional `  (sentiment; tone, tone)`
    suffix. A JSON export projects every segment onto the keys a transcript
    file keeps. Number formatting (`.2f`) and JSON serialisation are
    parameters: `fmt2` renders a time, `encode` a list of rows. */
module Export {
  import opened Wrappers
  import opened Text
  import opened Segments

  /** `f"{x}"` of the sentiment value: the label, or `None` when absent. */
  function SentimentText(sentiment: Option<string>): string {
    if sentiment.Some? then sentiment.value else "None"
  }

  /** The `[start-end] ` prefix. */
  function TimePrefix(s: Segment, fmt2: real -> string): (r: string)
    ensures |r| >= 4 && r[0] == '[' && r[|r| - 2..] == "] "
  {
    "[" + fmt2(s.start) + "-" + fmt2(s.end) + "] "
  }

  /** The `  (sentiment; t1, t2)` suffix; the `; ...` part only when the
      segment has at least one tone. */
  function ToneSuffix(s: Segment): (r: string)
    ensures |r| >= 4 && r[..3] == "  (" && r[|r| - 1] == ')'
  {
    var tones := s.tones.GetOr([]);
    "  (" + SentimentText(s.sentiment) + (if tones != [] then "; " + Join(", ", tones) else "") + ")"
  }

  /** Reading the prefix back: the start's text sits between the bracket
      and the dash, the end's between the dash and the closing `] `. */
  lemma TimePrefixReadBack(s: Segment, fmt2: real -> string)
    ensures var r := TimePrefix(s, fmt2);
      var a, b := fmt2(s.start), fmt2(s.end);
      && |r| == |a| + |b| + 4
      && r[1..1 + |a|] == a
      && r[1 + |a|] == '-'
      && r[2 + |a|..|r| - 2] == b
  {
    var a, b := fmt2(s.start), fmt2(s.end);
    var r := TimePrefix(s, fmt2);
    assert r == "[" + a + "-" + b + "] ";
    assert r[1..1 + |a|] == a;
    assert r[2 + |a|..|r| - 2] == b;
  }

  /** Reading the suffix back: the sentiment's text follows the opening
      `  (`, and, when there are tones, `; ` and the tone names joined by
      `, ` fill the rest up to the closing parenthesis. */
  lemma ToneSuffixReadBack(s: Segment)
    ensures var r := ToneSuffix(s);
      var t, tones := SentimentText(s.sentiment), s.tones.GetOr([]);
      && r[3..3 + |t|] == t
      && (tones == [] ==> |r| == |t| + 4)
      && (tones != [] ==> r[3 + |t|..5 + |t|] == "; " && r[5 + |t|..|r| - 1] == Join(", ", tones))
  {
    var t, tones := SentimentText(s.sentiment), s.tones.GetOr([]);
    var mid := if tones != [] then "; " + Join(", ", tones) else "";
    var r := ToneSuffix(s);
    assert r == "  (" + t + mid + ")";
    assert r[3..3 + |t|] == t;
    assert r[3 + |t|..|r| - 1] == mid;
    if tones != [] {
      assert mid[..2] == "; " && mid[2..] == Join(", ", tones);
      assert r[3 + |t|..5 + |t|] == mid[..2];
      assert r[5 + |t|..|r| - 1] == mid[2..];
    }
  }

  /** The prefix when timestamps are asked for, else nothing. */
  function OptPrefix(s: Segment, includeTs: bool, fmt2: real -> string): string {
    if includeTs then TimePrefix(s, fmt2) else ""
  }

  /** The suffix when tones are asked for, else nothing. */
  function OptSuffix(s: Segment, includeTone: bool): string {
    if includeTone then ToneSuffix(s) else ""
  }

  /** A line of the text export without its newline. */
  function LineBody(s: Segment, includeTs: bool, includeTone: bool, fmt2: real -> string): string {
    OptPrefix(s, includeTs, fmt2) + s.text + OptSuffix(s, includeTone)
  }

  /** One line of `export_txt`, newline included. */
  function TxtLine(s: Segment, includeTs: bool, includeTone: bool, fmt2: real -> string): (line: string)
    ensures |line| >= |s.text| + 1 && line[|line| - 1] == '\n'
  {
    LineBody(s, includeTs, includeTone, fmt2) + "\n"
  }

  /** The whole text export: the lines of all segments, in order. */
  function ExportTxt(segs: seq<Segment>, includeTs: bool, includeTone: bool, fmt2: real -> string): (r: string)
    ensures segs == [] <==> r == []
    ensures |r| >= |segs|
  {
    if segs == [] then ""
    else TxtLine(segs[0], includeTs, includeTone, fmt2) + ExportTxt(segs[1..], includeTs, includeTone, fmt2)
  }

  /** A line splits into its three parts: the prefix is there iff asked for,
      the suffix likewise, and the text sits between them unchanged. */
  lemma TxtLineLayout(s: Segment, includeTs: bool, includeTone: bool, fmt2: real -> string)
    ensures var line := TxtLine(s, includeTs, includeTone, fmt2);
      var p, q := OptPrefix(s, includeTs, fmt2), OptSuffix(s, includeTone);
      && (p == "" <==> !includeTs) && (q == "" <==> !includeTone)
      && |line| == |p| + |s.text| + |q| + 1
      && line[..|p|] == p
      && line[|p|..|p| + |s.text|] == s.text
      && line[|p| + |s.text|..|line| - 1] == q
  {
    PartsOf(OptPrefix(s, includeTs, fmt2), s.text, OptSuffix(s, includeTone));
  }

  /** The three parts of a line can be read back by position. */
  lemma PartsOf(p: string, t: string, q: string)
    ensures var l := p + t + q + "\n";
      && |l| == |p| + |t| + |q| + 1
      && l[..|p|] == p
      && l[|p|..|p| + |t|] == t
      && l[|p| + |t|..|l| - 1] == q
  {
    var l := p + t + q + "\n";
    assert l[..|p|] == p;
    assert l[|p|..|p| + |t|] == t;
    assert l[|p| + |t|..|l| - 1] == q;
  }

  /** Exporting a concatenation is concatenating the exports, so a merged
      export is the separate exports laid end to end. */
  lemma {:induction false} ExportTxtAppend(a: seq<Segment>, b: seq<Segment>, includeTs: bool, includeTone: bool, fmt2: real -> string)
    ensures ExportTxt(a + b, includeTs, includeTone, fmt2)
      == ExportTxt(a, includeTs, includeTone, fmt2) + ExportTxt(b, includeTs, includeTone, fmt2)
    decreases |a|
  {
    if a != [] {
      var line := TxtLine(a[0], includeTs, includeTone, fmt2);
      assert (a + b)[0] == a[0] && (a + b)[1..] == a[1..] + b;
      assert ExportTxt(a + b, includeTs, includeTone, fmt2) == line + ExportTxt(a[1..] + b, includeTs, includeTone, fmt2);
      assert ExportTxt(a, includeTs, includeTone, fmt2) == line + ExportTxt(a[1..], includeTs, includeTone, fmt2);
      ExportTxtAppend(a[1..], b, includeTs, includeTone, fmt2);
      ConcatAssoc(line, ExportTxt(a[1..], includeTs, includeTone, fmt2), ExportTxt(b, includeTs, includeTone, fmt2));
    } else {
      assert a + b == b;
    }
  }

  lemma ConcatAssoc(a: string, b: string, c: string)
    ensures a + (b + c) == (a + b) + c
  {
  }

  predicate NoNewline(t: string) {
    forall k :: 0 <= k < |t| ==> t[k] != '\n'
  }

  /** Segment fields that cannot break a line. */
  predicate SingleLine(s: Segment, fmt2: real -> string) {
    && NoNewline(s.text)
    && NoNewline(fmt2(s.start)) && NoNewline(fmt2(s.end))
    && NoNewline(SentimentText(s.sentiment))
    && forall k :: 0 <= k < |s.tones.GetOr([])| ==> NoNewline(s.tones.GetOr([])[k])
  }

  lemma JoinNoNewline(sep: string, parts: seq<string>)
    requires NoNewline(sep)
    requires forall k :: 0 <= k < |parts| ==> NoNewline(parts[k])
    ensures NoNewline(Join(sep, parts))
  {
    if |parts| > 1 {
      JoinNoNewline(sep, parts[1..]);
      var t := Join(sep, parts[1..]);
      assert Join(sep, parts) == parts[0] + sep + t;
      forall k | 0 <= k < |parts[0] + sep + t|
        ensures (parts[0] + sep + t)[k] != '\n'
      {
        if k < |parts[0]| {
        } else if k < |parts[0]| + |sep| {
          assert (parts[0] + sep + t)[k] == sep[k - |parts[0]|];
        } else {
          assert (parts[0] + sep + t)[k] == t[k - |parts[0]| - |sep|];
        }
      }
    }
  }

  lemma ConcatNoNewline(a: string, b: string)
    requires NoNewline(a) && NoNewline(b)
    ensures NoNewline(a + b)
  {
    forall k | 0 <= k < |a + b|
      ensures (a + b)[k] != '\n'
    {
      if k >= |a| {
        assert (a + b)[k] == b[k - |a|];
      }
    }
  }

  lemma LineBodyNoNewline(s: Segment, includeTs: bool, includeTone: bool, fmt2: real -> string)
    requires SingleLine(s, fmt2)
    ensures NoNewline(LineBody(s, includeTs, includeTone, fmt2))
  {
    var pre := OptPrefix(s, includeTs, fmt2);
    if includeTs {
      ConcatNoNewline("[", fmt2(s.start));
      ConcatNoNewline("[" + fmt2(s.start), "-");
      ConcatNoNewline("[" + fmt2(s.start) + "-", fmt2(s.end));
      ConcatNoNewline("[" + fmt2(s.start) + "-" + fmt2(s.end), "] ");
    }
    var post := OptSuffix(s, includeTone);
    if includeTone {
      var tones := s.tones.GetOr([]);
      var tail := if tones != [] then "; " + Join(", ", tones) else "";
      if tones != [] {
        JoinNoNewline(", ", tones);
        ConcatNoNewline("; ", Join(", ", tones));
      }
      ConcatNoNewline("  (", SentimentText(s.sentiment));
      ConcatNoNewline("  (" + SentimentText(s.sentiment), tail);
      ConcatNoNewline("  (" + SentimentText(s.sentiment) + tail, ")");
    }
    ConcatNoNewline(pre, s.text);
    ConcatNoNewline(pre + s.text, post);
  }

  lemma SplitAtLine(body: string, rest: string)
    requires NoNewline(body)
    ensures Split(body + "\n" + rest, '\n') == [body] + Split(rest, '\n')
  {
    SplitFirst(body, rest, '\n');
  }

  function Bodies(segs: seq<Segment>, includeTs: bool, includeTone: bool, fmt2: real -> string): (r: seq<string>)
    ensures |r| == |segs|
  {
    seq(|segs|, i requires 0 <= i < |segs| => LineBody(segs[i], includeTs, includeTone, fmt2))
  }

  /** Reading a text export back line by line: splitting at newlines gives
      exactly one line per segment, in order, and a final empty piece after
      the last newline. */
  lemma ExportTxtCons(segs: seq<Segment>, includeTs: bool, includeTone: bool, fmt2: real -> string)
    requires segs != []
    ensures ExportTxt(segs, includeTs, includeTone, fmt2)
      == LineBody(segs[0], includeTs, includeTone, fmt2) + "\n" + ExportTxt(segs[1..], includeTs, includeTone, fmt2)
  {
  }

  predicate AllSingleLine(segs: seq<Segment>, fmt2: real -> string) {
    forall i :: 0 <= i < |segs| ==> SingleLine(segs[i], fmt2)
  }

  lemma ExportTxtLines(segs: seq<Segment>, includeTs: bool, includeTone: bool, fmt2: real -> string)
    requires AllSingleLine(segs, fmt2)
    ensures Split(ExportTxt(segs, includeTs, includeTone, fmt2), '\n') == Bodies(segs, includeTs, includeTone, fmt2) + [""]
  {
    ExportTxtIsLines(segs, includeTs, includeTone, fmt2);
    var b := Bodies(segs, includeTs, includeTone, fmt2);
    forall k | 0 <= k < |b|
      ensures NoNewline(b[k])
    {
      LineBodyNoNewline(segs[k], includeTs, includeTone, fmt2);
    }
    SplitLines(b);
  }

  /** Newline-terminated lines laid end to end. */
  function Lines(bodies: seq<string>): string {
    if bodies == [] then "" else bodies[0] + "\n" + Lines(bodies[1..])
  }

  /** Splitting newline-terminated, newline-free lines at newlines gives the
      lines and an empty rest. */
  lemma {:induction false} SplitLines(bodies: seq<string>)
    requires forall k :: 0 <= k < |bodies| ==> NoNewline(bodies[k])
    ensures Split(Lines(bodies), '\n') == bodies + [""]
    decreases |bodies|
  {
    if bodies == [] {
      assert Split("", '\n') == [""];
    } else {
      var rest := Lines(bodies[1..]);
      assert Lines(bodies) == bodies[0] + "\n" + rest;
      assert NoNewline(bodies[0]);
      SplitAtLine(bodies[0], rest);
      assert forall k :: 0 <= k < |bodies[1..]| ==> bodies[1..][k] == bodies[k + 1];
      SplitLines(bodies[1..]);
      assert [bodies[0]] + (bodies[1..] + [""]) == bodies + [""];
    }
  }

  /** The text export is the line bodies, each closed by a newline. */
  lemma {:induction false} ExportTxtIsLines(segs: seq<Segment>, includeTs: bool, includeTone: bool, fmt2: real -> string)
    ensures ExportTxt(segs, includeTs, includeTone, fmt2) == Lines(Bodies(segs, includeTs, includeTone, fmt2))
    decreases |segs|
  {
    if segs != [] {
      ExportTxtIsLines(segs[1..], includeTs, includeTone, fmt2);
      var b := Bodies(segs, includeTs, includeTone, fmt2);
      assert b[1..] == Bodies(segs[1..], includeTs, includeTone, fmt2);
      ExportTxtCons(segs, includeTs, includeTone, fmt2);
    }
  }

  // ---------------------------------------------------------------------------
  // export_json
  // ---------------------------------------------------------------------------

  /** The sentiment and tone keys of an exported row. */
  datatype ToneFields = ToneFields(sentiment: Option<string>, tones: seq<string>)

  /** An exported row: `start`, `end` and `text`, and the tone keys when
      they were asked for. */
  datatype Row = Row(start: real, end: real, text: string, tone: Option<ToneFields>)

  /** One row of `export_json`: sentiment `None` when absent, tones `[]`
      when absent. */
  function ProjectRow(s: Segment, includeTone: bool): (row: Row)
    ensures row.start == s.start && row.end == s.end && row.text == s.text
    ensures row.tone.Some? <==> includeTone
    ensures includeTone ==> row.tone.value.sentiment == s.sentiment && row.tone.value.tones == s.tones.GetOr([])
  {
    Row(s.start, s.end, s.text, if includeTone then Some(ToneFields(s.sentiment, s.tones.GetOr([]))) else None)
  }

  /** A row read back as a segment: its keys, nothing more. */
  function RowSegment(row: Row): Segment {
    match row.tone
    case None => Segment(row.start, row.end, row.text, None, None)
    case Some(t) => Segment(row.start, row.end, row.text, t.sentiment, Some(t.tones))
  }

  function ProjectRows(segs: seq<Segment>, includeTone: bool): (rows: seq<Row>)
    ensures |rows| == |segs|
    ensures forall i :: 0 <= i < |segs| ==> rows[i] == ProjectRow(segs[i], includeTone)
  {
    seq(|segs|, i requires 0 <= i < |segs| => ProjectRow(segs[i], includeTone))
  }

  /** `export_json`: the serialised rows, one per segment, in order. */
  function ExportJson(segs: seq<Segment>, includeTone: bool, encode: seq<Row> -> string): string {
    encode(ProjectRows(segs, includeTone))
  }

  /** Reading the JSON export back with a decoder that inverts the encoder
      gives one row per segment, in order, with the segment's start, end and
      text, and the label keys exactly when tones are asked for. */
  lemma ExportJsonReadBack(segs: seq<Segment>, includeTone: bool, encode: seq<Row> -> string, decode: string -> seq<Row>)
    requires forall rows :: decode(encode(rows)) == rows
    ensures var rows := decode(ExportJson(segs, includeTone, encode));
      && |rows| == |segs|
      && forall i :: 0 <= i < |segs| ==>
        && rows[i].start == segs[i].start && rows[i].end == segs[i].end && rows[i].text == segs[i].text
        && (rows[i].tone.Some? <==> includeTone)
        && (includeTone ==> rows[i].tone.value.sentiment == segs[i].sentiment
                            && rows[i].tone.value.tones == segs[i].tones.GetOr([]))
  {
  }

  /** Projecting an exported row again gives the same row. */
  lemma ProjectRowIdempotent(s: Segment, includeTone: bool)
    ensures ProjectRow(RowSegment(ProjectRow(s, includeTone)), includeTone) == ProjectRow(s, includeTone)
  {
  }

  /** A JSON transcript with tones loses nothing the text export shows:
      exporting the rows read back gives the same text as exporting the
      original segments. */
  lemma {:induction false} ExportTxtOfRows(segs: seq<Segment>, includeTs: bool, includeTone: bool, fmt2: real -> string)
    ensures var back := seq(|segs|, i requires 0 <= i < |segs| => RowSegment(ProjectRow(segs[i], true)));
      ExportTxt(back, includeTs, includeTone, fmt2) == ExportTxt(segs, includeTs, includeTone, fmt2)
    decreases |segs|
  {
    var back := seq(|segs|, i requires 0 <= i < |segs| => RowSegment(ProjectRow(segs[i], true)));
    if segs != [] {
      var back' := seq(|segs[1..]|, i requires 0 <= i < |segs[1..]| => RowSegment(ProjectRow(segs[1..][i], true)));
      assert back[1..] == back';
      ExportTxtOfRows(segs[1..], includeTs, includeTone, fmt2);
      assert TxtLine(back[0], includeTs, includeTone, fmt2) == TxtLine(segs[0], includeTs, includeTone, fmt2);
    }
  }
}
