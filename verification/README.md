# sttfast core in Dafny

A model of the core of sttfast. sttfast is a command-line tool that does the following:

- transcribes audio and video files with a Whisper recogniser;
- labels every transcript segment with a sentiment and up to two tones;
- writes SubRip, JSON and text transcripts;
- indexes the segments in an SQLite archive with a full-text shadow table;
- searches that archive and opens media at a timestamp.

The model covers the decision and formatting logic around the external engines and the archive as a state machine.

| file | module | models |
|---|---|---|
| `wrappers.dfy` | `Wrappers` | `Option` and `Result` |
| `text.dfy` | `Text` | Python's `str.strip`, ASCII `lower`, decimal rendering and parsing, zero padding, `join`/`split`, code-point string order |
| `segments.dfy` | `Segments` | the segment record shared by all stages |
| `asr.dfy` | `Asr` | `sttfast/asr.py`: the preset policy, the decoding options of each profile, `transcribe_path` around a recogniser oracle, `to_srt` and its clock, `to_jsonl` |
| `sentiment.dfy` | `Sentiment` | `sttfast/sentiment.py`: the tone table, `_tone_tags`, both as a specification and as the loops the source runs; the ±0.3 buckets of `label_text` |
| `archive.dfy` | `Archive` | `sttfast/db.py`: the `files`, `segments` and `seg_fts` tables, the foreign key, the three triggers, `insert_file` and `insert_segments` |
| `search.dfy` | `Search` | `sttfast/search.py`: the join of index, segments and files, the match filter and the `(path, start)` order |
| `export.dfy` | `Export` | `sttfast/export.py`: the text line layout and the JSON row projection |
| `media.dfy` | `Media` | `sttfast/media.py`: start clamping and player selection |
| `paths.dfy` | `Paths` | the parts of `pathlib` that the command layer uses: `name`, `suffix`, `stem`, `with_name`, `with_suffix` |
| `cli.dfy` | `Cli` | the helpers of `sttfast/cli.py`: `Mode`, the media filter `_gather`, enrichment, `fmt_dur`, the `temporary` input check, split-export names |
| `commands.dfy` | `Commands` | the commands `transcribe`, `temporary`, `dry_run`, `export` and `find` |

Inputs from outside the program are function-typed parameters:

- the recogniser;
- the duration probe;
- the regular-expression engine and the `str.lower` that tone tagging applies;
- the VADER compound score;
- the `.2f` and `str(float)` number formats;
- the JSON encoders and decoders;
- `shutil.which`;
- media placement;
- directory listings.

All `.dfy` files form one program and are checked together with `dafny verify *.dfy` (Dafny 4.11).

Floats are `real`. Python's `int()` truncation and `//`/`%` are written out (`Asr.Trunc`, `Asr.FloatMod`). The archive assigns rowids from counters, and `lastInsertRowid` models the connection's last-insert rowid.

## Model

| member | source | states |
|---|---|---|
| Asr.ChoosePreset | sttfast/asr.py:36-47 | A forced mode yields its own profile (short, long, or standard for anything else) whatever the duration. Under auto, an unknown duration is standard, the profile is short iff the duration is at most 15 s, long iff at least 1800 s, and standard strictly between. |
| Asr.ChoosePresetFor | sttfast/asr.py:14-29 | The dry-run helper picks the same profile as the transcriber's policy `ChoosePreset` for every mode and duration, and returns the probed duration unchanged. |
| Asr.OptionsFor | sttfast/asr.py:62-99 | Every profile sets vad_filter to the flag, no word timestamps and temperature 0. The language key is present iff the hint is non-empty. short: 150 ms silence, beam 1, best_of 1, no conditioning, no-speech 0.6, log-prob -1.0. long: 400 ms, the caller's beam and best_of, conditioning. standard: 250 ms, beam 1, best_of 1, conditioning. |
| Asr.TranscribePath | sttfast/asr.py:49-105 | A recogniser error propagates unchanged. On success the result reports the chosen profile, the recogniser's language and duration, and one segment per recognised span with the same times and stripped text. |
| Asr.FloatModWhole | sttfast/asr.py:109 | For a non-negative time, Python's float `%` by 60 or 3600 is non-negative, and its whole part is the whole seconds modulo the divisor. |
| Asr.FloorDivision | sttfast/asr.py:109 | For a non-negative time, flooring the quotient by 60 or 3600 equals integer division of the whole seconds. This is what `int(t//3600)` computes. |
| Asr.SrtClockBounds | sttfast/asr.py:108-110 | For a non-negative time, minutes and seconds are below 60 and milliseconds below 1000. Hours, minutes and seconds add up to the whole seconds. |
| Asr.SrtTime | sttfast/asr.py:108-110 | For every non-negative time, also beyond 99 hours, the timestamp has at least two hour digits and ends in `:MM:SS,mmm`: the comma sits four characters from the end and the colons seven and ten. |
| Asr.SrtTimeReadBack | sttfast/asr.py:108-110 | For a time under 100 hours the timestamp is `HH:MM:SS,mmm`. Its four decimal fields read back as the clock's fields and as the whole seconds. |
| Asr.ToSrtEmpty | sttfast/asr.py:111-114 | No segments give the empty document. |
| Asr.ToSrt | sttfast/asr.py:111-114 | The document is empty iff there are no segments. |
| Asr.ToSrtLines | sttfast/asr.py:111-114 | For single-line texts, splitting the document at newlines gives four lines per segment: the 1-based index, `start --> end`, the text and an empty line. |
| Asr.BlocksAt | sttfast/asr.py:112-113 | In the lines generated block by block, lines 4i to 4i+3 are the block of element i, numbered from the first index plus i. |
| Asr.BlocksNoNewline | sttfast/asr.py:112-114 | When no block line holds a newline, none of the generated lines does. |
| Asr.ToJsonl | sttfast/asr.py:116-117 | No segments give the empty text. When no encoding holds a newline, the lines of the text are the encoded segments, one per line, in order. |
| Asr.JsonlRoundTrip | sttfast/asr.py:116-117 | With an encoder that a decoder inverts and that emits one non-empty line, splitting the JSON Lines text and decoding every line gives back the segments. |
| Sentiment.Rank | sttfast/sentiment.py:10-37 | Every tone has a position in the declared order doubtful, annoyed, sad, angry, confident, happy. |
| Sentiment.AnyPatternMatches | sttfast/sentiment.py:45-48 | The inner loop reports a match iff some pattern of the label matches. |
| Sentiment.CollectTones | sttfast/sentiment.py:42-48 | The outer loop collects exactly the labels, in declared order, that have a matching pattern, each once. |
| Sentiment.DedupInOrder | sttfast/sentiment.py:49-54 | The de-duplication loop keeps the first occurrence of each element, in order. |
| Sentiment.DedupMembers | sttfast/sentiment.py:49-54 | De-duplication keeps exactly the elements of its input. |
| Sentiment.DedupNoDuplicates | sttfast/sentiment.py:49-54 | The de-duplication pass leaves no element twice. |
| Sentiment.DedupIdentity | sttfast/sentiment.py:44-54 | On a list without duplicates de-duplication is the identity, so the pass is redundant after the `break`. |
| Sentiment.ToneTags | sttfast/sentiment.py:39-56 | `_tone_tags` equals the first two labels, in declared order, that match the lower-cased text, and is empty for empty text. |
| Sentiment.MatchingTonesIncreasing | sttfast/sentiment.py:44-48 | Collecting from any order whose ranks increase keeps only labels of that order, and their ranks still increase. |
| Sentiment.MatchingTonesOrdered | sttfast/sentiment.py:44-48 | Collected labels are strictly increasing in declared order, hence without duplicates. |
| Sentiment.ToneTagsShape | sttfast/sentiment.py:40-56 | At most two tags, in declared order, no duplicates, none for empty text. |
| Sentiment.MatchingTonesAppend | sttfast/sentiment.py:44-48 | Collecting over a concatenated order is collecting over each part. |
| Sentiment.MatchingTonesMembers | sttfast/sentiment.py:44-48 | Every collected label is in the order and has a matching pattern. |
| Sentiment.TaggedAt | sttfast/sentiment.py:44-56 | A label is kept iff it matches and fewer than two earlier labels match. |
| Sentiment.ToneTagged | sttfast/sentiment.py:39-56 | The same for the source's table: a tone is tagged iff the text is non-empty, the tone matches the lower-cased text, and fewer than two tones declared before it match. |
| Sentiment.Bucket | sttfast/sentiment.py:63-68 | positive iff compound ≥ 0.3, negative iff ≤ -0.3, neutral iff strictly between. Exactly one applies. |
| Sentiment.LabelText | sttfast/sentiment.py:58-70 | The sentiment is the bucket of the score of the stripped text, with None treated as empty. The tones are exactly `_tone_tags` of the stripped text (`ToneTagsSpec`, characterised by `ToneTagged`): at most two, in declared order, and none for a blank text. |
| Sentiment.LabelOfBlank | sttfast/sentiment.py:59 | None, the empty text and any all-whitespace text get the same label. |
| Text.StripCharacterization | sttfast/asr.py:104 | `strip` removes exactly the leading and trailing whitespace: stripping whitespace + m + whitespace gives m when m has no whitespace at either end. |
| Text.StripIdempotent | sttfast/sentiment.py:59 | Stripping a stripped text changes nothing. |
| Text.SplitJoin | sttfast/asr.py:114 | Joining newline-free lines with newline and splitting again gives the lines back. |
| Text.JoinSplit | sttfast/asr.py:114 | Splitting at a character and joining with it gives the text back. |
| Text.DecimalRoundTrip | sttfast/asr.py:110 | The decimal rendering of a number parses back to it. |
| Text.ZeroPadFixedWidth | sttfast/asr.py:110 | Zero padding a number below 10^w gives exactly w digits that parse back to the number. |
| Text.LexLeTotal | sttfast/search.py:11 | The string order used for `ORDER BY f.path` is total. |
| Text.LexLeTransitive | sttfast/search.py:11 | The string order is transitive. |
| Text.LexLeAntisymmetric | sttfast/search.py:11 | The string order is antisymmetric. |
| Archive.EmptyDb | sttfast/db.py:4-41 | A freshly opened archive has empty tables and satisfies the invariant. |
| Archive.FileIdOf | sttfast/db.py:50-51 | The lookup by path returns the id of the row holding that path. |
| Archive.InsertFile | sttfast/db.py:43-51 | A new path gets one new row with the next id, which is returned. Segments and index stay unchanged. A known path leaves the archive untouched and returns the stored id, so stored parent, duration and language are never overwritten. |
| Archive.InsertFileAsWritten | sttfast/db.py:48-49 | The source's truthiness test on `lastrowid` agrees with the intended result on a new path, or on a connection with no previous insert. |
| Archive.InsertFileAsWrittenReturnsSegmentId | sttfast/db.py:44-51 | Counterexample: re-ingesting a path right after inserting two segments returns id 2, which is a segment id and no file's id. The next `insert_segments` then fails its foreign key, while the intended version returns 1 and succeeds. |
| Archive.InsertFileValid | sttfast/db.py:43-51 | `insert_file` preserves the archive invariant: unique paths, foreign keys, the index mirrors the segments, and rowids are below the counters. Every existing file row stays under its id. |
| Archive.InsertFileIdempotent | sttfast/db.py:43-51 | Inserting a path twice: the second call changes nothing, returns the first id, and exactly one row holds the path. |
| Archive.AppendRows | sttfast/db.py:53-59 | Appending rows leaves the files and the file counter alone and advances the segment counter by the number of segments. The last-insert rowid is the last new row, or unchanged when nothing is inserted. |
| Archive.RowOf | sttfast/db.py:56-58 | The stored row carries the file id, times and text. The sentiment is None when absent, and the tones are the encoded list (of `[]` when absent). |
| Archive.AppendRowsAddsRows | sttfast/db.py:54-59 | Appending rows adds exactly the new rows, at consecutive rowids, to the segment table. |
| Archive.AppendRowsAddsEntries | sttfast/db.py:24-26 | The insert trigger adds exactly one index entry per new row, with the row's text. |
| Archive.InsertSegments | sttfast/db.py:53-59 | The insert succeeds iff there is nothing to insert or the file id names a file. |
| Archive.InsertSegmentsValid | sttfast/db.py:53-59 | `insert_segments` preserves the archive invariant. |
| Archive.InsertSegmentsCount | sttfast/db.py:54-59 | Exactly `len(segments)` rows are added. |
| Archive.InsertSegmentsKeeps | sttfast/db.py:53-59 | Every old segment row stays under its id, unchanged. |
| Archive.InsertSegmentsRowsAt | sttfast/db.py:53-59 | The whole batch: segment i is stored at rowid `first + i` as the given file's row and indexed by its text, and every old row is kept (`RowsAt`, `KeepsSegments`). |
| Archive.InsertSegmentsAdds | sttfast/db.py:54-59 | The i-th segment lands, in input order, at the i-th rowid from the counter, which no old row uses, as the row of the given file. Its index entry holds its text. |
| Archive.DeleteSegment | sttfast/db.py:27-29 | Deleting removes exactly that row and its index entry. Files, every other row and every other index entry are left alone. |
| Archive.UpdateSegment | sttfast/db.py:30-33 | An update fails iff the new file id names no file. Otherwise it replaces the row and its index entry with the new text. Updating a missing row changes nothing. |
| Archive.TriggersPreserveValid | sttfast/db.py:27-33 | The delete and update triggers preserve the archive invariant. |
| Search.HitOf | sttfast/search.py:6-14 | A hit carries the segment's id, times and text and its file's path. |
| Search.HitLeTotal | sttfast/search.py:11 | The `(path, start)` order is total. |
| Search.HitLeTransitive | sttfast/search.py:11 | The `(path, start)` order is transitive. |
| Search.InsertHit | sttfast/search.py:11 | Insertion into the ordered list is a permutation of the list plus the new hit. |
| Search.InsertHitSorted | sttfast/search.py:11 | Insertion keeps the list ordered. |
| Search.SortHits | sttfast/search.py:11 | Sorting permutes the hits. |
| Search.SortHitsSorted | sttfast/search.py:11 | The sorted list is ordered by `(path, start)`. |
| Search.SortHitsDistinct | sttfast/search.py:11 | Sorting keeps segment ids distinct. |
| Search.PermutationKeepsFound | sttfast/search.py:5-12 | Reordering results keeps every result a match and loses no id. |
| Search.ScanIndex | sttfast/search.py:4-10 | The scan yields a hit for every matching, joined index entry and for nothing else, each id once. |
| Search.SearchPhrase | sttfast/search.py:4-14 | Every result is an indexed segment whose file exists and whose index text matches. Every such segment appears exactly once. Results are ordered by `(path, start)`, and no match gives no results. |
| Search.SearchFindsInsertedSegments | sttfast/search.py:7-10 | After `insert_segments`, a new segment is found iff its text matches, and is reported under its file's path. Old segments are found exactly as before. |
| Search.SearchAfterDelete | sttfast/db.py:27-29 | A deleted segment is never found. |
| Export.TimePrefix | sttfast/export.py:8 | The timestamp prefix is bracketed and ends in `] `. |
| Export.TimePrefixReadBack | sttfast/export.py:8 | The prefix reads back by position: the start's `.2f` text after the bracket, a dash, then the end's text before `] `. |
| Export.ToneSuffix | sttfast/export.py:10-14 | The tone suffix opens with two spaces and `(` and closes with `)`. |
| Export.ToneSuffixReadBack | sttfast/export.py:10-14 | The suffix reads back by position: the sentiment's text (`None` when absent) after `  (`. With tones, `; ` and the tone names joined by `, ` follow up to the `)`; without, the `)` follows at once. |
| Export.TxtLineLayout | sttfast/export.py:8-15 | A line is the prefix, which is non-empty iff timestamps are on, then the text verbatim, then the suffix, non-empty iff tones are on, then a newline. Each part reads back by position. |
| Export.PartsOf | sttfast/export.py:15 | The parts of a line laid end to end read back by position. |
| Export.ExportTxt | sttfast/export.py:7-15 | No segments give an empty file. Each segment adds at least its newline. |
| Export.ExportTxtAppend | sttfast/export.py:7-15 | Exporting a concatenation is concatenating the exports. |
| Export.ExportTxtIsLines | sttfast/export.py:7-15 | The text export is the line bodies, in segment order, each followed by a newline. |
| Export.SplitLines | sttfast/export.py:15 | Newline-free lines, each followed by a newline, split back into the lines and an empty rest. |
| Export.ExportTxtLines | sttfast/export.py:7-15 | For single-line texts and formats, the file splits at newlines into one line body per segment in input order, followed by the empty rest. |
| Export.JoinNoNewline | sttfast/export.py:13 | Joining newline-free tones with `, ` gives a newline-free text. |
| Export.ProjectRow | sttfast/export.py:19-23 | A row copies start, end and text. With tones on it adds the sentiment (None when absent) and the tones (`[]` when absent); with tones off it adds nothing else. |
| Export.ProjectRows | sttfast/export.py:17-24 | One row per segment, in order. |
| Export.ExportJsonReadBack | sttfast/export.py:17-26 | Decoding the JSON export with an inverse of the encoder gives one row per segment, in order, with the segment's start, end and text, plus its sentiment and tones (`[]` when absent) exactly when tones are on. |
| Export.ProjectRowIdempotent | sttfast/export.py:19-23 | Projecting a projected row gives the same row. |
| Export.ExportTxtOfRows | sttfast/export.py:4-24 | Re-exporting, as text, the rows of a JSON export gives the same text as exporting the segments. |
| Media.ClampStart | sttfast/media.py:9 | The start is never negative. It is the requested start, or 0 when that is negative. |
| Media.SelectPlayer | sttfast/media.py:13-20 | vlc always gives vlc and mpv always gives mpv. auto gives vlc iff it is installed, otherwise mpv iff that is installed, otherwise ffplay. Anything else gives ffplay. |
| Media.OpenAtCommand | sttfast/media.py:13-20 | The command starts with the selected program and ends with the file. |
| Media.OpenAtStart | sttfast/media.py:9-20 | Every player receives the clamped start in its own option form. |
| Media.AutoUsesInstalled | sttfast/media.py:13-16 | Under auto, vlc or mpv runs only if installed. |
| Paths.Name | sttfast/cli.py:34-35 | A name has no separator and is never `.`. |
| Paths.NameOfDot | sttfast/cli.py:197 | As in `pathlib`, the path `.` has the empty name, so `with_name` refuses it. |
| Paths.Dir | sttfast/cli.py:197 | A path is its directory part followed by its name. |
| Paths.StemSuffix | sttfast/cli.py:197 | A name is its stem followed by its suffix. |
| Paths.WithName | sttfast/cli.py:197 | `with_name` fails iff the path has no name or the new name is empty, `.` or contains a separator. Otherwise it keeps the directory and has the new name. |
| Paths.WithNameIs | sttfast/cli.py:197 | A valid new name takes the place of the path's name, keeping the directory. |
| Paths.WithSuffix | sttfast/cli.py:88-90 | `with_suffix` keeps the directory and replaces the name's suffix. It fails on an invalid suffix, an empty name, or a resulting name `.`. |
| Cli.ParseMode | sttfast/cli.py:17-21 | A string parses iff it is one of the four option values, and it parses to the mode with that value. |
| Cli.ModeRoundTrip | sttfast/cli.py:17-21 | Every mode's value parses back to the mode. |
| Cli.ModeSelectsProfile | sttfast/asr.py:37-38 | A forced mode selects the profile of the same name. |
| Cli.Extension | sttfast/cli.py:34-35 | The extension is empty iff the name has no suffix. Otherwise it is a dot followed by at least one character that is neither a dot nor a separator. |
| Cli.Filter | sttfast/cli.py:34 | A filtered listing holds exactly the listed paths that pass the test, and is no longer than the listing. |
| Cli.GatherBy | sttfast/cli.py:30-37 | Every gathered path passes the test. |
| Cli.GatherByAppend | sttfast/cli.py:30-37 | Gathering over concatenated inputs is gathering over each part, in order. |
| Cli.GatherByMembers | sttfast/cli.py:30-37 | A path is gathered iff it passes the test and is a file input or is in a directory input's listing. |
| Cli.Gather | sttfast/cli.py:30-37 | Everything gathered has a media extension. |
| Cli.GatherAppend | sttfast/cli.py:30-37 | Inputs are gathered in input order. |
| Cli.GatherMembers | sttfast/cli.py:30-37 | A path is gathered iff it has a media extension, ignoring ASCII case, and is a file input or appears in a directory input's listing. |
| Cli.Merge | sttfast/cli.py:43 | The merged segment keeps its times and text and takes the label's sentiment and tones. |
| Cli.EnrichAll | sttfast/cli.py:39-44 | Enrichment keeps length and order, and segment i is segment i enriched. |
| Cli.MapInOrder | sttfast/cli.py:39-44 | The loop yields one result per input, result k being the function applied to input k. |
| Cli.AnalyzeSegments | sttfast/cli.py:39-44 | The loop computes the order-preserving enrichment. |
| Cli.EnrichIdempotent | sttfast/cli.py:43 | Enriching twice is enriching once. |
| Cli.EnrichedLabels | sttfast/sentiment.py:63-70 | An enriched segment has one of the three sentiment names and at most two tones, and none for blank text. Its tone names are the names of `_tone_tags` of its stripped text, in order. |
| Cli.DurFields | sttfast/cli.py:158-160 | Minutes and seconds are below 60, and the fields add up to the whole seconds. |
| Cli.FmtDur | sttfast/cli.py:155-161 | The text is `unknown` iff there is no duration. A known duration always prints with colons. |
| Cli.FmtDurReadBack | sttfast/cli.py:155-161 | For durations under 100 hours the text is `HH:MM:SS`. The fields read back with minutes and seconds below 60, and they add up to the whole seconds. |
| Cli.FmtDurUnknown | sttfast/cli.py:156-157 | An unknown duration prints as `unknown`. |
| Cli.TemporaryInputError | sttfast/cli.py:106-108 | `temporary` refuses a missing file, or one whose extension, ignoring ASCII case, is `.json`, `.txt` or `.srt`, with exit code 2. |
| Cli.MediaPassesTemporaryCheck | sttfast/cli.py:106-108 | No existing media file is refused. |
| Cli.SplitName | sttfast/cli.py:197 | The i-th split name is the output name lengthened by exactly `_` and the digits of i. |
| Cli.SplitNameParts | sttfast/cli.py:197 | The i-th split name keeps the output's suffix, empty or not, and its stem is `stem_i`. A name ending in a dot is excluded, because `_i` after that dot creates a suffix. |
| Cli.SplitNamesDistinct | sttfast/cli.py:196-197 | Different parts get different names. |
| Commands.OutputNameAsWrittenCollides | sttfast/cli.py:87-90 | Counterexample: `talk.part1.wav` and `talk.part2.wav` both get `talk.srt` as written. The intended names are `talk.part1.srt` and `talk.part2.srt`. |
| Commands.OutputNamesDistinct | sttfast/cli.py:87-90 | With the intended names, files with different stems never share an output. |
| Commands.OutputNameSuffix | sttfast/cli.py:87-90 | An intended output name has the output's extension as suffix and the media file's stem as stem. (Intended naming; see Findings.) |
| Commands.TranscriptWrites | sttfast/cli.py:86-90 | The three transcripts of the enriched segments: SubRip, JSON with labels, and text with timestamps and tones, at `<stem>.srt`, `<stem>.json` and `<stem>.txt` in the transcripts folder. (Intended naming; see Findings.) |
| Commands.OutputNameIn | sttfast/cli.py:87-90 | An intended output path lies in the folder and has the media file's stem and the output's extension. (Intended naming; see Findings.) |
| Commands.TranscriptWritesNames | sttfast/cli.py:87-90 | The three transcript paths lie in the transcripts folder, keep the media file's stem, carry the suffixes `.srt`, `.json` and `.txt`, and differ. (Intended naming; see Findings.) |
| Commands.OutputNamesAgree | sttfast/cli.py:87-90 | When the media file's stem has no suffix of its own, the names as written are the intended ones. When the stem is also neither empty nor `.`, so is every path as written. |
| Commands.TranscriptWritesAsWritten | sttfast/cli.py:86-90 | The transcripts as the source names them have the same three contents as the intended ones. Their paths are `(tr_dir / stem).with_suffix(ext)`. |
| Commands.OutputPathAsWrittenIsWithSuffix | sttfast/cli.py:87-88 | For the three extensions and a folder with a name, the as-written path is what `with_suffix` returns for the pathlib join of folder and stem, an empty or `.` stem adding nothing to the join, and the call never raises. |
| Commands.TranscriptsEscapeFolder | sttfast/cli.py:87-88 | Counterexample: for `..wav` in `p/transcripts` the subtitles go to `p/transcripts.srt`, beside the folder. The intended path is `p/transcripts/..srt`. |
| Commands.AsWrittenTranscriptsAgree | sttfast/cli.py:86-90 | The transcripts as written are the intended ones whenever the stem has no suffix of its own and is neither empty nor `.`. |
| Commands.AsWrittenTranscriptsBesideFolder | sttfast/cli.py:86-90 | When the stem is `.` or empty, all three transcripts as written land in the folder's parent, not in the folder. |
| Commands.ProcessFile | sttfast/cli.py:70-94 | One file: the command fails iff recognition fails, and then the archive is unchanged and nothing is written. Otherwise the writes are exactly the three transcripts of the recognised segments enriched with their labels, and the placed file is recorded. Enriched segment i is then stored at rowid `nextSegId + i`, as the row of the file holding the placed path, with its times, text, sentiment and tones, and is indexed by its text. Exactly that many rows are added, and the counter moves past them. The archive invariant holds either way, and every file and segment row already stored stays under its id. |
| Commands.ProcessFileAsWritten | sttfast/cli.py:70-94 | The iteration with the source's output names and `insert_file`: it keeps the invariant and equals `ProcessFile` on a recogniser error. On a new path or a connection without an earlier insert, it leaves the same archive and outcome. Re-ingesting a recorded path when the last insert was no file row raises the foreign-key error, with the transcripts written and the archive unchanged. When the last insert was another file's row, nothing fails: the segments are stored under that other file's id. On a successful recognition its writes are `TranscriptWritesAsWritten` of the enriched segments. |
| Commands.ProcessFiles | sttfast/cli.py:69-96 | The loop keeps the invariant and every stored file and segment row. Without a failure, writes 3k to 3k+2 are file k's three transcripts (`TranscriptsOf`). Every placed file is recorded, and its enriched segments are stored in file order from the counter on, each file's right after the previous file's (`ArchivedFrom`; `AllFromAt` reads it pointwise). The counter ends past all of them. A failure is the recogniser's exception. |
| Commands.ProcessFilesFails | sttfast/cli.py:70-79 | The loop fails iff some file's recognition fails. |
| Commands.AllRecognisedAt | sttfast/cli.py:70-79 | That is, iff not every file's recognition succeeds. |
| Commands.Transcribe | sttfast/cli.py:47-96 | The command exits with 2 iff the beam options are outside 1..8, and with 1 iff they are valid and no media is gathered. It runs on a fresh connection and keeps every stored row. When it completes without failure, the writes are each gathered file's three transcripts in order, and each file's enriched segments are archived as in `ProcessFiles`. |
| Commands.Temporary | sttfast/cli.py:98-127 | The command exits with 2 iff the beam options are invalid or the input check refuses the file. Otherwise it fails iff recognition fails. On success it writes the SubRip, JSON and text renderings of the enriched recognised segments to `temp.srt`, `temp.json` and `temp.txt` in the cache. |
| Commands.DryRun | sttfast/cli.py:145-166 | The dry run exits with 1 iff nothing is gathered. Otherwise it prints one row per gathered file. |
| Commands.DryRunAgreesWithTranscribe | sttfast/cli.py:164-166 | Row i names file i, shows its probed duration and announces the profile that `transcribe` would use. |
| Commands.JsonInputs | sttfast/cli.py:181-185 | `export` reads exactly the inputs whose extension, ignoring ASCII case, is `.json`. |
| Commands.ExportCommand | sttfast/cli.py:169-199 | Nothing to read writes nothing. Merged writes one file, at `out`, holding the text exports of the inputs end to end. Split writes one file per input and fails only when `out` has no name: part i goes to the i-th split target and holds the text export of input i. |
| Commands.ExportMerged | sttfast/cli.py:190-193 | The merged export is one write at `out` whose content is the text exports of the loaded transcripts end to end. |
| Commands.ExportSplit | sttfast/cli.py:194-198 | The split export has one write per input. Write i goes to the i-th split target and holds the text export of input i. |
| Commands.MergedJoinsSplit | sttfast/cli.py:192-198 | The merged export's content is the split exports' contents laid end to end, in input order. |
| Commands.ContentsOfParts | sttfast/cli.py:196-198 | Writes holding the text exports of the lists have, laid end to end, the concatenated exports. |
| Commands.Parts | sttfast/cli.py:196-198 | One write per list, the i-th rendered list going to the i-th target. |
| Commands.MergedIsConcatenation | sttfast/cli.py:190-193 | The merged text is the separate texts laid end to end. |
| Commands.SplitNameValid | sttfast/cli.py:197 | A split name is always accepted by `with_name`. |
| Commands.SplitExportTargets | sttfast/cli.py:196-198 | Part i is written where `out.with_name(stem + "_" + i + suffix)` points, i from 1. |
| Commands.SplitNameWith | sttfast/cli.py:197 | `with_name` accepts every split name and keeps the directory. |
| Commands.SplitExportDistinct | sttfast/cli.py:196-198 | No two parts of a split export share a path. |
| Commands.Preview | sttfast/cli.py:143 | The preview is the first 120 characters of the text, or all of it. |
| Commands.FindReport | sttfast/cli.py:138-143 | No hits print the no-match notice. Otherwise there is one line per hit, in the search's order, and line i is the line of hit i. |
| Commands.FindLineReadBack | sttfast/cli.py:143 | A hit's line reads back by position: the file, then `  [`, the start's `.2f` text, `s]  `, and the first 120 characters of the text at the end. |

## Left out

- Recognition, VADER scoring, the regular-expression engine and the `str.lower` of tone tagging are foreign code. They are parameters, and no property of theirs is assumed.
- Cli.Extension: `.suffix.lower()` is modelled with the ASCII-only `Text.Lower`. Python's full Unicode case mapping is not modelled: a suffix such as `.MKV` written with the Kelvin sign is a media extension to Python, but not here. The same holds for Cli.Gather, Cli.TemporaryInputError and Commands.JsonInputs.
- Number formatting (`.2f`, `str(float)`), JSON encoding and decoding, and the probe are parameters. Floating-point rounding is not modelled: reals are exact.
- SQLite internals are not modelled: WAL, commits, durability, FTS5 tokenisation and the `MATCH` syntax.
  - The match test is a parameter applied to the query and the index text.
  - Rowids come from counters rather than from `max(rowid)+1`. This agrees with SQLite while no row is deleted.
- Archive.DeleteSegment and Archive.UpdateSegment model the triggers only. No command of the source deletes or updates segments.
- Commands.ProcessFile, Commands.ProcessFiles and Commands.Transcribe compose the corrected helpers of the Findings rows: `OutputName` instead of `OutputNameAsWritten`, paths inside the folder instead of `OutputPathAsWritten`, and `InsertFile` instead of `InsertFileAsWritten`. The same holds for the rows of Commands.OutputNameSuffix, Commands.TranscriptWrites, Commands.OutputNameIn and Commands.TranscriptWritesNames: they state the intended naming, not the source's. The iteration as written is Commands.ProcessFileAsWritten. The loop over it is not modelled separately.
- Commands.ProcessFiles: the thread pool is modelled as an order-preserving map. `pool.map` returns results in input order, and the label function has no effects the model would see.
- Commands.ProcessFiles: an exception in the recogniser ends the whole command. Per-file isolation of failures is not in the code, so it is not modelled. A failing label computation is not modelled either, because the scorer is total here.
- Commands.Transcribe does not model the following: creating the parent folder, moving or copying the media (`place_media` is a parameter), loading the model, creating the schema and console output. Opening the archive is modelled only as the fresh connection `Archive.Reconnect`, which has no last insert. `sttfast/folders.py`, `sttfast/probe.py` and `sttfast/config.py` are not part of this model.
- Commands.Temporary does not model clearing and creating the cache directory. The cache root is a parameter.
- Commands.ExportCommand:
  - `json.loads` failures and malformed transcripts are not modelled. `load` always yields segments.
  - A JSON `null` and a missing key are not told apart (`Option.None` for both).
  - Creating `out.parent` is not modelled.
- `openat` only launches the player. The launch (`subprocess.Popen`) is left out. Media.OpenAtCommand is the command it would run.
- Paths covers normalised POSIX paths only: no trailing separators, no `..` handling, no Windows drive letters.
- Paths.WithSuffix: a result whose name would be `.` (a name such as `..x` with the empty suffix) is an error here. Some Python versions build that non-normal path instead. No command calls `with_suffix` with the empty suffix.
- Cli.Gather takes a directory's recursive listing as given. It does not model the traversal order of `rglob`, or directories inside the listing whose names look like media.
- Sentiment.LabelText takes the scorer on the stripped text. VADER's own tokenisation is not modelled.
- Rich console markup and the printed messages of `find`, `dry_run` and `export` are not modelled beyond the lines they print.
- The `whisperx` option of `transcribe` has no effect in the source and is not modelled.
- `to_jsonl` is not called by any command. It is modelled only for its round trip.

## Findings

| source | as written | input that shows it | evidently intended | confidence | as-written member | corrected member |
|---|---|---|---|---|---|---|
| sttfast/db.py:48-49 | `insert_file` treats a truthy `cursor.lastrowid` as "a row was inserted". After an ignored `INSERT OR IGNORE`, the driver can report the connection's previous insert rowid. | On one connection: insert `a.wav` (id 1) and two of its segments (ids 1 and 2), then insert `a.wav` again. The call returns 2, which is a segment id and no file's id, and the next `insert_segments` fails the foreign key. | An ignored insert returns the stored id of the path. | not executed; depends on the driver reporting the previous rowid for an ignored insert | Archive.InsertFileAsWritten, Archive.InsertFileAsWrittenReturnsSegmentId | Archive.InsertFile, Archive.InsertFileIdempotent |
| sttfast/cli.py:87-90 | `(tr_dir / placed.stem).with_suffix(".srt")` replaces the stem's own last suffix, so a media name with two dots loses a part. | `talk.part1.wav` and `talk.part2.wav` both produce `talk.srt`, `talk.json` and `talk.txt`. The second file overwrites the first file's transcripts. | The outputs are named after the whole stem: `talk.part1.srt`. | not executed | Commands.OutputNameAsWritten, Commands.OutputNameAsWrittenCollides | Commands.OutputName, Commands.OutputNamesDistinct |
| sttfast/cli.py:87-88 | `tr_dir / placed.stem` drops a stem that is `.`, so `with_suffix` then renames the transcripts folder itself. | A media file named `..wav` in `p/` gets its transcripts written to `p/transcripts.srt`, `p/transcripts.json` and `p/transcripts.txt`, beside the folder. | The transcripts go inside the folder: `p/transcripts/..srt`. | not executed | Commands.OutputPathAsWritten, Commands.TranscriptsEscapeFolder, Commands.AsWrittenTranscriptsBesideFolder | Commands.TranscriptWrites, Commands.TranscriptWritesNames |
