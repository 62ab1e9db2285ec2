# silence_i_kill_you, modelled in Dafny

`silence_i_kill_you` removes the silent stretches from a video. ffmpeg's
`silencedetect` filter writes a log of `silence_start: …` / `silence_end: …`
lines to a sidecar file; `parse_silences` scans that log into `(start, end)`
pairs; `compose` keeps the non-silent gaps between them and has moviepy cut
and join those gaps into `<stem>_silences_removed<ext>`.

This project models the two pieces of logic the tool computes itself, plus
the file names it derives:

- `text_search.dfy` (module `TextSearch`): the substring test `"silencedetect" in line`
  and `re.search(marker + "([0-9.]+)", line)`: the leftmost index where the
  marker is followed by a digit or dot, and the maximal run of digits and dots
  captured there.
- `silence_parser.dfy` (module `SilenceParser`): the scan loop of `parse_silences`
  as the method `ParseSilences`, proved equal to the state machine `ScanLines`
  (the pending start, `None` while awaiting a start, and the pairs emitted so
  far). Timestamps are kept as the captured text (`Token`); a pair's end is an
  `Option`, `None` when the closing tagged line had no `silence_end:` match.
- `composer.dfy` (module `Composer`): the loop of `compose` as the method
  `Compose`, proved equal to `Kept`, and `Kept` proved equal to an independent
  definition (the non-empty candidate gaps `Gaps`), to conserve total length,
  and to keep ordered silences' gaps ordered. Times are `real`s: the source
  only copies and compares them with `!=`.
- `file_names.dfy` (module `FileNames`): the sidecar name, POSIX
  `os.path.splitext`, and the output name.
- `wrappers.dfy` (module `Wrappers`): `Option`.

Two behaviours of the code that the model keeps as written:

- The trailing segment is kept when `previous_end != duration`
  (silence_i_kill_you/silence_i_kill_you.py:125), not only when it is smaller.
- A pair closed by a tagged line without `silence_end:` gets the end `None`:
  `end` is reset to `None` after every emission (line 83), so no earlier end
  is reused.

## Model

| member | source | states |
|---|---|---|
| TextSearch.NumeralRun | silence_i_kill_you/silence_i_kill_you.py:73 | the greedy group `[0-9.]+` stops exactly at the first character that is not a digit or dot |
| TextSearch.FirstMatch | silence_i_kill_you/silence_i_kill_you.py:73 | the result is a match position and no position before it (from the starting index) matches; None means no match at all |
| TextSearch.SearchSpec | silence_i_kill_you/silence_i_kill_you.py:73-74 | `re.search` yields a value exactly when some position matches; the value is a non-empty run of digits/dots, captured at the leftmost match and maximal |
| TextSearch.CaptureUnique | silence_i_kill_you/silence_i_kill_you.py:73 | the greedy group's capture at a given match position is unique |
| TextSearch.SearchFindsLeftmost | silence_i_kill_you/silence_i_kill_you.py:77-79 | whenever a leftmost match and its capture exist, `re.search` returns exactly that capture |
| SilenceParser.ParseSilences | silence_i_kill_you/silence_i_kill_you.py:66-84 | the loop, with its `start`/`end` locals and `out` list, returns exactly the pairs of the two-state machine `ScanLines` over the lines (`end` is None at every iteration start) |
| SilenceParser.ScanAppend | silence_i_kill_you/silence_i_kill_you.py:69 | lines are processed one after another, each by one step of the machine |
| SilenceParser.UntaggedLineIgnored | silence_i_kill_you/silence_i_kill_you.py:70-71 | a line without `silencedetect` changes neither the pending start nor the output |
| SilenceParser.AwaitingStartTransition | silence_i_kill_you/silence_i_kill_you.py:72-75 | awaiting a start, a tagged line emits nothing and the new pending start is the `silence_start: ` capture, present exactly when the marker is followed by a digit or dot |
| SilenceParser.NegativeStartDoesNotMatch | silence_i_kill_you/silence_i_kill_you.py:73 | `silence_start: -0.5` does not match the start pattern |
| SilenceParser.AwaitingEndTransition | silence_i_kill_you/silence_i_kill_you.py:76-83 | awaiting an end, every tagged line appends exactly one pair (pending start, `silence_end: ` capture) and returns to awaiting a start; the end is None exactly when the end pattern matches nowhere |
| SilenceParser.OnlyTaggedLinesMatter | silence_i_kill_you/silence_i_kill_you.py:69-71 | scanning only the tagged lines gives the same state as scanning all lines |
| SilenceParser.UntaggedTailIgnored | silence_i_kill_you/silence_i_kill_you.py:66-84 | lines after the last tagged one change nothing, so a start still pending at the end is discarded |
| SilenceParser.PairCountBound | silence_i_kill_you/silence_i_kill_you.py:66-84 | twice the number of pairs, plus one for a pending start, is at most the number of tagged lines; so empty input gives no pairs |
| SilenceParser.TokensAreNumerals | silence_i_kill_you/silence_i_kill_you.py:73-79 | every captured start and end is a non-empty run of digits and dots |
| SilenceParser.StartThenEnd | silence_i_kill_you/silence_i_kill_you.py:72-83 | from awaiting a start, a well-formed start line then end line emit their pair with the end present and return to awaiting a start |
| SilenceParser.ScanAppendTwo | silence_i_kill_you/silence_i_kill_you.py:69 | scanning two more lines is two more steps |
| SilenceParser.WellFormedPairsParsed | silence_i_kill_you/silence_i_kill_you.py:69-84 | N alternating tagged start/end lines yield exactly those N pairs in line order, with no start left pending |
| SilenceParser.WellFormedLogParsed | silence_i_kill_you/silence_i_kill_you.py:66-84 | in a log where untagged ffmpeg lines surround tagged lines that alternate start and end, exactly those pairs are parsed, in order, each with its end |
| FileNames.LastIndex | silence_i_kill_you/silence_i_kill_you.py:103 | `str.rfind` as `splitext` uses it: the index holds the character and none follows it |
| FileNames.SplitExt | silence_i_kill_you/silence_i_kill_you.py:103 | POSIX `os.path.splitext`: root and extension concatenate to the path; the extension is empty exactly when the path has no extension, otherwise it starts at the last dot of the last component that follows a non-dot character |
| FileNames.ExtensionUnique | silence_i_kill_you/silence_i_kill_you.py:103 | a path has at most one extension position |
| FileNames.SidecarNameInjective | silence_i_kill_you/silence_i_kill_you.py:44 | different inputs never share a sidecar file |
| FileNames.SidecarNameIsText | silence_i_kill_you/silence_i_kill_you.py:44 | the sidecar `<input>.silences.txt` has extension `.txt` and is never the input itself |
| FileNames.OutputNameKeepsExtension | silence_i_kill_you/silence_i_kill_you.py:103-134 | the output keeps the input's extension, its stem is the input's stem plus `_silences_removed`, and it never overwrites the input |
| FileNames.ExampleLastIndices | silence_i_kill_you/silence_i_kill_you.py:103 | in `talk.mp4` the last dot is at index 4 and there is no `/` |
| FileNames.SplitExtExample | silence_i_kill_you/silence_i_kill_you.py:44-103 | `talk.mp4` splits into `talk` and `.mp4` (so, by OutputNameKeepsExtension, its output is `talk_silences_removed.mp4`), and its sidecar is `talk.mp4.silences.txt` |
| Composer.Compose | silence_i_kill_you/silence_i_kill_you.py:103-134 | the loop's kept segments are exactly `Kept(silences, duration)`, and the output name keeps the extension with `_silences_removed` added to the stem |
| Composer.WalkSilences | silence_i_kill_you/silence_i_kill_you.py:106-120 | the gap loop keeps at most one segment per silence |
| Composer.WalkAppend | silence_i_kill_you/silence_i_kill_you.py:107 | silences are processed one after another, each by one loop step |
| Composer.PreviousEndIsLastEnd | silence_i_kill_you/silence_i_kill_you.py:106-120 | after the loop has processed silence i, `previous_end` is that silence's end (0 before the first) |
| Composer.SegmentCountBound | silence_i_kill_you/silence_i_kill_you.py:106-132 | at most one more segment than silences |
| Composer.DropEmptyAppend | silence_i_kill_you/silence_i_kill_you.py:111 | an interval is kept exactly when its two ends differ |
| Composer.WalkKeepsInnerGaps | silence_i_kill_you/silence_i_kill_you.py:106-120 | the loop keeps, in silence order, the non-empty gaps from the previous end (0 first) to each silence's start |
| Composer.KeptIsNonEmptyGaps | silence_i_kill_you/silence_i_kill_you.py:106-132 | the kept segments are the non-empty candidate gaps, defined without the loop, in order, the trailing gap to `duration` last |
| Composer.TotalLengthAppend | silence_i_kill_you/silence_i_kill_you.py:118 | appending a segment adds its length |
| Composer.WalkLength | silence_i_kill_you/silence_i_kill_you.py:106-120 | the segments kept by the loop last as long as the last silence's end minus the silences' total length |
| Composer.KeptLength | silence_i_kill_you/silence_i_kill_you.py:106-132 | kept segments last as long as the video minus the silences, whatever the silences |
| Composer.OrderedAppend | silence_i_kill_you/silence_i_kill_you.py:118 | a segment starting after every kept one ends keeps the list ordered |
| Composer.OrderedWiden | silence_i_kill_you/silence_i_kill_you.py:120 | an ordered list within a range is ordered within a wider one |
| Composer.OrderedInit | silence_i_kill_you/silence_i_kill_you.py:107 | the silences before the last one are ordered and end before the last one starts |
| Composer.WalkOrdered | silence_i_kill_you/silence_i_kill_you.py:106-120 | for ordered silences the loop keeps ordered, non-empty segments that end by the last silence's end |
| Composer.EndsByLastEnd | silence_i_kill_you/silence_i_kill_you.py:120 | in ordered silences every silence has ended by the last one's end, the final `previous_end` |
| Composer.ApartExtend | silence_i_kill_you/silence_i_kill_you.py:107-120 | a segment clear of the earlier silences that ends by the next one's start is clear of that one too |
| Composer.ApartAfter | silence_i_kill_you/silence_i_kill_you.py:109-110 | a segment starting at or after every silence's end overlaps none of them |
| Composer.WalkApart | silence_i_kill_you/silence_i_kill_you.py:106-120 | for ordered silences, every segment the loop keeps overlaps no silence |
| Composer.KeptOrdered | silence_i_kill_you/silence_i_kill_you.py:106-132 | for ordered silences within the video, the kept segments are ordered, non-empty, within `[0, duration]`, and each ends before or starts after every silence |
| Composer.NoSilenceKeepsWholeVideo | silence_i_kill_you/silence_i_kill_you.py:122-132 | with no silence the whole video `[0, duration]` is one segment (none when the duration is 0) |
| Composer.TwoSilencesExample | silence_i_kill_you/silence_i_kill_you.py:106-132 | silences (2, 4), (6, 7.5) in 10 seconds leave (0, 2), (4, 6), (7.5, 10) |
| Composer.FullSilenceExample | silence_i_kill_you/silence_i_kill_you.py:106-132 | a silence (0, 10) in 10 seconds leaves no segment |
| Composer.UnorderedSilencesExample | silence_i_kill_you/silence_i_kill_you.py:109-120 | silences are not checked for order: (5, 8), (3, 4) yield the reversed segment (8, 3) |

## Left out

- Running ffmpeg and writing its output to the sidecar (silence_i_kill_you/silence_i_kill_you.py:42-46): an external process and file I/O. Only the sidecar's name is modelled.
- Reading the sidecar (lines 63-64): file I/O; `ParseSilences` starts from the list of lines.
- `float(...)` on captured tokens (lines 75, 79): floating-point parsing is not modelled; tokens stay text. A token such as `.` or `1.2.3` matches `[0-9.]+` but would make `float` raise.
- The moviepy calls (lines 104, 117, 131, 135-142): decoding, sub-clipping, concatenating and encoding are a foreign media library. `Compose` returns the kept intervals instead of clips, and takes the video's duration as a parameter. What moviepy does with an empty list of clips is not modelled.
- Compose: takes silences as pairs of times, as its signature declares; a parsed pair whose end is None reaching `compose` is not modelled, nor is the conversion of tokens into times between the two stages.
- Logging (lines 22, 80, 112-116, 126-130) and the docopt command line (lines 146-157): side effects and argument plumbing.
- SplitExt: models POSIX `os.path.splitext` only (separator `/`); the Windows variant with drive letters and `\` is not modelled.
- setup.py: packaging metadata.
