/** The transcript segment that flows from the recogniser through enrichment
    into the exporters and the archive. In the program it is a dict; here it is
    a fixed record whose optional fields stand for keys that are absent (or
    hold `None`) until enrichment adds them. */
module Segments {
  import opened Wrappers

  datatype Segment = Segment(
    start: real,
    end: real,
    text: string,
    sentiment: Option<string>,
    tones: Option<seq<string>>)

  /** A segment as the recogniser stage produces it: timing and text only. */
  function RawSegment(start: real, end: real, text: string): Segment
  {
    Segment(start, end, text, None, None)
  }
}
