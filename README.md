# Slide-transition marker detection

This project models the scan inside `detect_marker_timestamps` of the video
generator (`src/detect_markers.py`). The narration of every slide ends with the
spoken phrase 「次のスライドに進んでください。」. A speech recogniser turns the
narration audio into a transcript of segments. Each segment has a `text` and a
list of `words`, and each word has its text and the time at which it ends. The
scan returns, in order, the end times of the words that close a marker phrase.

The rule, per segment:

- A segment whose text does not contain 「スライド」 is skipped, and so is a
  segment without words.
- Otherwise the words are scanned in order. A word qualifies when it contains
  「ください」 and the texts of the (at most) eight words before it, joined
  without separator, contain 「スライド」. The window is words
  `max(0, i - 8) .. i - 1`; word `i` itself is not part of it. Joining is what
  lets the rule find the marker noun when the recogniser splits it into
  sub-word tokens such as 「ス」「ライ」「ド」.
- The end time of the first qualifying word is emitted and the rest of the
  segment is skipped.

`detect_markers.dfy` holds one module, `MarkerDetection`:

- `Word` and `Segment` are the transcript records; `Contains` is substring
  containment (Python's `in` on strings); `Join`, `WindowStart` and
  `Preceding` build the joined window.
- `Qualifies`, `FirstMatchFrom`, `Contribution` and `Detect` are the pure
  specification: what one word, one segment and a whole transcript yield.
- `DetectMarkerTimestamps` is the scan as the program runs it: two nested
  loops over the segments and their words, with `continue`, the `found` flag
  and the `break` after the first append. It is proved equal to `Detect`.
- The lemmas state the window, first-match, ordering and concatenation
  properties of the rule, plus two concrete transcripts.

The recogniser call is replaced by an input parameter: the transcript is given
as a sequence of `Segment` values. A segment that the recogniser returns with
no `words` entry (`seg.get('words', [])`) is a `Segment` whose `words` is empty.

## Model

| member | source | states |
|---|---|---|
| `MarkerDetection.DetectMarkerTimestamps` | src/detect_markers.py:29-63 | For every transcript, including the empty one, the nested scan (skips, `found` flag, `break`) returns exactly `Detect(segments)`. It has no precondition, so the scan is total. |
| `MarkerDetection.Detect` | src/detect_markers.py:29-58 | The transcript's output holds at most one timestamp per segment: its length is at most the number of segments. |
| `MarkerDetection.Contribution` | src/detect_markers.py:32-58 | A segment adds at most one timestamp, because the scan breaks after the first append. |
| `MarkerDetection.ContributionSpec` | src/detect_markers.py:36-58 | A segment adds nothing exactly when its text lacks 「スライド」 or no word qualifies, so a segment with no words adds nothing. When word `i` is the first qualifying word and the text has the marker, the segment adds exactly `[words[i].end]`. |
| `MarkerDetection.FirstMatchFrom` | src/detect_markers.py:47-58 | Returns the least qualifying index at or after `from`. Every word before it, including a 「ください」 word whose window lacks 「スライド」, is passed over. `None` means that no word from `from` on qualifies. |
| `MarkerDetection.Contains` | src/detect_markers.py:36 | Substring containment, as Python's `in` on `str`. The empty pattern is in every string, and a pattern longer than the string is never in it. |
| `MarkerDetection.Join` | src/detect_markers.py:52-54 | The joined text of no words is empty, and one word joins to itself. Otherwise the join starts with the first word's text. |
| `MarkerDetection.JoinSameWords` | src/detect_markers.py:52-54 | The join reads only the words' texts: two word lists with equal texts position by position join to the same string. |
| `MarkerDetection.JoinContainsEach` | src/detect_markers.py:52-54 | Every joined word's text occurs in the joined string. |
| `MarkerDetection.WindowStart` | src/detect_markers.py:53 | The window before word `i` starts at word 0 when `i < 8` and exactly 8 words back once `i >= 8`. It never starts after `i`. |
| `MarkerDetection.Preceding` | src/detect_markers.py:52-54 | Word 0 has an empty window. For `i < 8` the window is all of words `0 .. i-1`, joined; for `i >= 8` it is words `i-8 .. i-1`, joined. |
| `MarkerDetection.Qualifies` | src/detect_markers.py:48-55 | A qualifying word is never word 0, because its window is empty. Its text is at least as long as 「ください」. |
| `MarkerDetection.PrecedingDependsOnlyOnWindow` | src/detect_markers.py:52-54 | Two word lists that agree on words `max(0, i-8) .. i-1` have the same joined window at `i`. Neither word `i` nor any word more than 8 back can affect it. |
| `MarkerDetection.WindowWordInPreceding` | src/detect_markers.py:52-54 | Every word in `max(0, i-8) .. i-1` occurs in the joined window of word `i`. |
| `MarkerDetection.QualifiesOnPrefix` | src/detect_markers.py:47-55 | Whether word `j` qualifies depends only on words `0 .. j`. |
| `MarkerDetection.LaterWordsIgnored` | src/detect_markers.py:47-58 | After a qualifying word `i`, replacing all later words with anything leaves the segment's contribution unchanged. Later qualifying words are ignored. |
| `MarkerDetection.DetectAppend` | src/detect_markers.py:29-31 | The output for two transcripts concatenated is the concatenation of their outputs. |
| `MarkerDetection.DetectFront` | src/detect_markers.py:29-56 | The output is the first segment's contribution followed by the output for the remaining segments. |
| `MarkerDetection.OriginsOrdered` | src/detect_markers.py:29-58 | The segment index each emitted timestamp comes from is a valid index, and these indices strictly increase. The output follows segment order, with at most one timestamp per segment. |
| `MarkerDetection.OriginsMatchOutput` | src/detect_markers.py:29-58 | There is one origin per emitted timestamp. Timestamp `m` is the whole contribution of segment `Origins(segs)[m]`. |
| `MarkerDetection.SubwordWindowJoined` | src/detect_markers.py:52-54 | In the example segment `SubwordSegment()`, whose tokens are 「次の」「ス」「ライ」「ド」「に」「進んで」「ください。」, the window before 「ください。」 joins to 「次のスライドに進んで」. |
| `MarkerDetection.SubwordMarkerFound` | src/detect_markers.py:42-56 | Take a segment where 「スライド」 is split into the tokens 「ス」「ライ」「ド」. The joined window still finds the marker, and the end of 「ください。」 is emitted. |
| `MarkerDetection.WindowReachesEightBack` | src/detect_markers.py:51-56 | With 「スライド」 nine words before 「ください」 the segment emits nothing. With it eight words before, the 「ください」 word's end is emitted. |

## Left out

- The speech recogniser (`whisper.load_model`, `model.transcribe`, src/detect_markers.py:26-27): a foreign machine-learning library working on audio. The transcript is an input parameter instead.
- `round(w['end'], 2)` (src/detect_markers.py:56): floating-point rounding to two decimals. End times are `real` values passed through unchanged.
- `main()` (src/detect_markers.py:66-85): argument parsing, the file-existence check, JSON output and `sys.exit`. All of it is I/O.
- The trailing `if found: continue` (src/detect_markers.py:60-61) is kept as written in `DetectMarkerTimestamps`. It is the last statement of the loop body, so both of its branches go on to the next segment with the same state. The method's ensures is proved with the statement in place. No separate member states that removing it changes nothing, because that would need a second copy of the method.
- The output is in segment order (`OriginsOrdered`). That the emitted times ascend is not proved: the end times come from the recogniser as given, so they ascend only if its times do.
- The transcript records are taken as well formed. Every segment has a `text`, and every word has a `word` and an `end`. The program raises `KeyError` when one of these keys is missing (src/detect_markers.py:32, 48, 53, 56); the model's datatypes cannot express a missing key.
- Text is a sequence of Unicode code points, as in Python 3 `str`. There is no normalisation, so 「スライド」 written with other code points (half-width katakana, say) does not match, in the program or in the model.
