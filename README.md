# Speech, transcript and sentiment app: a Dafny model of its string and list logic

The repository holds three versions of one small Flask application. It records
speech, has it transcribed by Google's recogniser (first and second versions)
or by a Gemini model (third version), attaches a sentiment score and label, and
lists the recordings newest first. Most of each `main.py` is web and cloud
glue. This project models the sequential logic that lies between those calls:

* **`parse_llm_response` (third version).** It pulls a transcript, a label and
  a score out of the model's free-text reply. Its three regular expressions
  (`re.search` with `MULTILINE | IGNORECASE`) are modelled character by
  character. This module is `Reply`.
* **The two-line sentiment sidecar.** The module `Sidecar` covers the writers
  (the third version's `{:.4f}` record and the second version's `str(score)`
  record) and the readers (the per-line loops of `get_stt_files`). Round trips
  between them are proved.
* **The catalog.** The `Catalog` module covers the third and second versions'
  `get_stt_files` and the plain name listings: the first version's
  `get_stt_files` and `get_tts_files`, and the second version's
  `get_tts_files`. They are modelled as loops that build a list, followed by an
  in-place descending insertion sort on an array (`Sorting`) under Python's
  code-point string order (`Lex`).
* **Small pieces.**
  * `allowed_file`, `os.path.splitext` and the traversal guard of the file
    route (`Naming`).
  * The ±0.1 threshold labeller (`Sentiment`).
  * `recognize_speech`'s join loop (`Transcripts`).
  * The `strftime` timestamps (`Stamps`).
  * The number formats: `float()`, `round(x, 2)` and `{:.4f}` (`Numbers`).
  * What the upload routes write and how the catalog reads it back
    (`Uploads`).

A folder is modelled as a map from file names to contents, plus, for listings,
the sequence `os.listdir` returns. Everything that comes from outside is a
parameter:
* the clock reading;
* the recogniser's first alternatives;
* the language model's reply (or its failure);
* the analysed score and its printed text;
* the uploaded and synthesised audio.

Characters are ASCII. `\s` is Python's `isspace` on ASCII, `\d` is `0`-`9`,
and case folding is ASCII lower-casing.

## Model

| member | source | states |
|---|---|---|
| Text.Strip | project3/main.py:54 | `strip(chars)` treats its argument as a set: the result is no longer than the input and has no character of the set at either end |
| Text.StripIsSlice | project3/main.py:54 | stripping only removes characters from the two ends: the result is a contiguous slice of the input |
| Text.StripSurrounded | project3/main.py:54 | stripping a set from text whose ends are outside the set, padded on both sides with characters of the set, gives back that text |
| Text.Trim | project3/main.py:68 | `strip()` leaves no whitespace at either end |
| Text.SecondField | project2/main.py:94 | `line.split(":")[1]` contains no colon and is the text after the first colon up to the second colon, or to the end when there is none |
| Text.ReadLinesPartition | project3/main.py:178 | `readlines()` on the translated text loses nothing: the lines concatenate to it, none is empty, each but the last ends in `\n`, and no line has a `\n` before its end |
| Text.Universal | project3/main.py:177 | text-mode `open(path, 'r')` turns `\r\n` and a lone `\r` into `\n`; the second version opens its sidecar the same way at project2/main.py:89 (definition; its properties are in Text.UniversalClean and Text.UniversalLine) |
| Text.UniversalClean | project3/main.py:177 | no `\r` survives the translation, and text without `\r` is read unchanged |
| Text.UniversalLine | project3/main.py:177 | a line ended by `\n`, `\r\n` or a lone `\r` is read as that line ended by `\n`, followed by the rest read on its own |
| Text.ReadTextLines | project3/main.py:177-178 | `open(path, 'r').readlines()`: the lines of the translated contents (definition; used by every sidecar reader) |
| Lex.LessTotal | project3/main.py:211 | Python's string order is total: of two different strings one comes first |
| Lex.LessTransitive | project3/main.py:211 | Python's string order is transitive |
| Lex.LessSameLengthHeads | project3/main.py:211 | strings whose first parts have equal length compare by those parts, and by the rest only when the parts are equal |
| Sorting.SortDescending | project1/main.py:60 | `sort(reverse=True)` in place: the array ends in descending order and holds the same elements as before |
| Sorting.DescendingDistinctIsStrict | project3/main.py:211 | with no repeated key, a descending order is strictly descending |
| Sorting.DistinctKeysPermutation | project3/main.py:211 | a permutation keeps keys distinct |
| Numbers.RoundHalfEven | project3/main.py:185 | rounding is to the nearest integer, with ties going to the even one |
| Numbers.Round2 | project3/main.py:185 | `round(x, ndigits=2)` is within 0.005 of `x` |
| Numbers.Fixed4 | project3/main.py:274 | the value `{:.4f}` prints is within 0.00005 of the score |
| Numbers.ParseDecimalText | project3/main.py:90 | `float()` accepts every plain decimal `-?digits(.digits)?` and gives its exact value |
| Numbers.ParseFloat | project3/main.py:90 | `float()` of a stripped string (definition; what it accepts is Numbers.ParseDecimalText and Numbers.FormatThenParse); also at project2/main.py:95 |
| Numbers.FormatThenParse | project3/main.py:274 | `float()` of what `{:.4f}` writes never fails and gives the four-decimal value |
| Numbers.FormatShape | project3/main.py:274 | `{:.4f}` writes only a sign, digits and a point, ending in a digit (so no blank, colon or newline) |
| Numbers.Format4 | project3/main.py:274 | `{:.4f}` (definition; its value is Numbers.Fixed4, its characters Numbers.FormatShape) |
| Sentiment.ThresholdLabel | project2/main.py:156-161 | each score gets exactly one label: above 0.1 Positive, below -0.1 Negative, and the closed band [-0.1, 0.1] Neutral |
| Sentiment.ThresholdMonotone | project2/main.py:156-161 | a higher score never gets a lower label (Negative < Neutral < Positive) |
| Sentiment.NameInjective | project3/main.py:275 | distinct labels are written as distinct texts |
| Naming.AllowedFileIffWavSuffix | project3/main.py:36-39 | `allowed_file` (a dot, and the text after the last dot lowercases to `wav`) holds exactly when the name ends in `.wav` in any case; the same check is at project2/main.py:75-77 and project1/main.py:51-53 |
| Naming.AllowedFile | project3/main.py:36-39 | `allowed_file`: a dot, and the text after the last dot lowercases to `wav` (definition; its meaning is Naming.AllowedFileIffWavSuffix) |
| Naming.WavNameAllowed | project2/main.py:134 | any name ending in `.wav` passes `allowed_file` |
| Naming.TxtNameNotAllowed | project1/main.py:97 | no name ending in `.txt` passes `allowed_file` |
| Naming.SplitExt | project3/main.py:168 | `os.path.splitext` splits the path into root and extension that concatenate back to it; the extension is empty or a dot followed by no dot and no slash |
| Naming.SplitExtOfStem | project3/main.py:168 | a stem with no slash and a non-dot character, followed by `.ext`, splits into exactly that stem and `.ext` |
| Naming.SplitExtOfName | project3/main.py:168 | for a name without a slash, there is an extension exactly when some dot has a non-dot character somewhere before it |
| Naming.LeadingDotOnly | project3/main.py:168 | a name whose only dot is its first character has no extension |
| Naming.HiddenWavName | project3/main.py:36-39 | a hidden name such as `.wav` passes `allowed_file`, yet `os.path.splitext` (project3/main.py:168) gives it no extension |
| Naming.ServedNameStaysInside | project3/main.py:297-298 | a name the guard lets through is relative and has no `..` path component |
| Naming.ServeRejected | project3/main.py:297 | the guard of `stt_file`: a name containing `..` or starting with `/` is refused (definition; what it lets through is Naming.ServedNameStaysInside) |
| Reply.SkipSpace | project3/main.py:58 | `\s*` consumes exactly the run of whitespace at the position |
| Reply.TextAt | project3/main.py:58 | `^\s*Text:(.*)` at one position: the rest of the line after the header (definition; Reply.TranscriptFound states the result) |
| Reply.LabelAt | project3/main.py:61 | the label pattern at one position: `Sentiment Label:` after blanks at a line start, then `positive`, `neutral` or `negative` alone on the rest of the line (definition; its meaning is Reply.LabelAtIsWord) |
| Reply.ScoreAt | project3/main.py:64 | `^\s*Sentiment Score:\s*(-?\d+(\.\d+)?)\s*$` at one position: the number's text (definition; its meaning is Reply.NumberTokenIsDecimal) |
| Reply.Search | project3/main.py:58-64 | `re.search`: the match at the leftmost position that has one (definition; its meaning is Reply.SearchMeaning) |
| Reply.LineEnd | project3/main.py:58 | `(.*)` runs to the next newline or the end of the text |
| Reply.BlankRestMeaning | project3/main.py:61 | `\s*$` under MULTILINE holds exactly when only whitespace follows up to the end of the line or of the text (it may cross newlines) |
| Reply.HeaderEndMeaning | project3/main.py:61 | the greedy `^\s*Header:` match is exactly the backtracking one: some whitespace run at a line start followed by the header, case-insensitively |
| Reply.SearchMeaning | project3/main.py:58-64 | `re.search` returns the match at the first position where the pattern matches, and nothing when it matches nowhere |
| Reply.SearchFindsFirst | project3/main.py:58-64 | the match at the first matching position is the one `re.search` returns |
| Reply.CleanFenced | project3/main.py:54 | a reply wrapped in a backtick fence with blanks around it is cleaned to its body |
| Reply.Clean | project3/main.py:54 | `strip()`, then `strip('```')` as a set of backticks, then `strip()` (definition; Reply.CleanFenced states what it does to a fenced reply) |
| Reply.Transcript | project3/main.py:66-76 | the transcript is never empty, never begins or ends with `'`, and spans one line |
| Reply.TranscriptOf | project3/main.py:66-76 | with or without a captured group, the transcript is non-empty and not wrapped in `'` |
| Reply.Unquoted | project3/main.py:68-73 | strip, then strip `"`, then strip `'`, with the empty result replaced: never empty, never begins or ends with `'` |
| Reply.PlaceholdersPlain | project3/main.py:49 | the two placeholder transcripts are one line and not quoted |
| Reply.TranscriptFound | project3/main.py:66-73 | with a `Text:` line, the transcript is the rest of the first such line stripped of blanks and quotes, or `[Empty Transcript Received]` when nothing is left |
| Reply.TranscriptMissing | project3/main.py:49 | with no `Text:` line, the transcript is `Error: Could not parse transcript.` |
| Reply.FinalLabel | project3/main.py:108-114 | the label is Positive exactly for `positive`, Negative exactly for `negative`, and Neutral otherwise |
| Reply.LabelAtIsWord | project3/main.py:61 | a label match captures one of the three words, in any case |
| Reply.LabelFirstMatch | project3/main.py:61 | the label is Positive (Negative) exactly when the first line fully matching the label pattern says positive (negative) in any case; an earlier malformed line does not block a later good one |
| Reply.Clamp | project3/main.py:92 | `max(-1, min(1, x))` lies in [-1, 1], is the identity there and saturates outside |
| Reply.ClampIdempotent | project3/main.py:92 | clamping twice is clamping once |
| Reply.NumberTokenIsDecimal | project3/main.py:64 | text matching `-?\d+(\.\d+)?` is a plain decimal |
| Reply.ScoreTokenParses | project3/main.py:90-96 | `float()` of a matched score never raises, so the `ValueError` branch is unreachable |
| Reply.ScoreFound | project3/main.py:87-92 | with a score line, the score is the first match's value clamped to [-1, 1] |
| Reply.ScoreMissing | project3/main.py:51 | with no line matching the score pattern, the score is 0.0 |
| Reply.Score | project3/main.py:87-92 | the score always lies in [-1, 1] |
| Reply.ParseCleaned | project3/main.py:41-116 | the parsed reply has a score in [-1, 1] and a non-empty one-line transcript not wrapped in `'` |
| Reply.Parse | project3/main.py:41-116 | `parse_llm_response`: clean the reply, then read the three fields; the guarantees are those of Reply.ParseCleaned |
| Sidecar.ReadSentiment3 | project3/main.py:178-194 | the line loop computes the fold `Read3` over the lines: a score line sets the score (0.0 when it does not parse), a label line sets the label |
| Sidecar.LastLabelWins3 | project3/main.py:189-191 | the last label line decides the label |
| Sidecar.NoLabelLine3 | project3/main.py:173 | with no label line the label stays `None` |
| Sidecar.LastScoreWins3 | project3/main.py:181-188 | the last score line decides the score |
| Sidecar.NoScoreLine3 | project3/main.py:172 | with no score line the score stays `None` |
| Sidecar.ScoreLineReadsBack3 | project3/main.py:274 | the written score line is taken by the score branch only and reads back as the `{:.4f}` value rounded to two decimals |
| Sidecar.LabelLineReadsBack3 | project3/main.py:275 | the written label line is taken by the label branch, not the score branch, and reads back as the label's name |
| Sidecar.Record3Lines | project3/main.py:274-275 | `readlines()` splits the written record into its two lines |
| Sidecar.Record3 | project3/main.py:274-275 | the record `upload_audio` writes: `Sentiment Score: <score:.4f>` and `Sentiment: <label>`, each on its own line (definition; read back by Sidecar.RoundTrip3) |
| Sidecar.Record3Plain | project3/main.py:274-275 | the written record holds no `\r`, so reading it in text mode leaves it unchanged |
| Sidecar.CarriageReturns3 | project3/main.py:177-194 | a record saved with `\r\n` or lone `\r` line endings reads back exactly like the one written with `\n` |
| Sidecar.RoundTrip3 | project3/main.py:274-275 | reading back a written record in text mode gives the written label exactly and the written score as printed, rounded to two decimals |
| Sidecar.ReadSentiment2 | project2/main.py:90-98 | the second version's line loop computes the fold `Read2` over the unstripped lines: a score that does not parse resets the score to `None` |
| Sidecar.BadScoreResets2 | project2/main.py:95-96 | an unparsable score line leaves `None`, even after a good one |
| Sidecar.LastLabelWins2 | project2/main.py:97-98 | the last label line decides the label |
| Sidecar.NoLabelLine2 | project2/main.py:86 | with no label line the label stays `None` |
| Sidecar.LastScoreWins2 | project2/main.py:92-96 | the last score line decides the score |
| Sidecar.ScoreLineReadsBack2 | project2/main.py:168 | the written score line is a score line whose second field, stripped, is the written score text |
| Sidecar.LabelLineReadsBack2 | project2/main.py:168 | the written label line is a label line and reads back as the label's name |
| Sidecar.Record2 | project2/main.py:168 | the record the second version writes: `Sentiment Score: <str(score)>` and `Sentiment: <label>`, each on its own line (definition; read back by Sidecar.RoundTrip2) |
| Sidecar.RoundTrip2 | project2/main.py:168 | reading back a written record in text mode gives the written label exactly, and the score its text spells rounded to two decimals (`None` when it spells none) |
| Catalog.GetSttFiles3 | project3/main.py:159-212 | a missing folder gives no rows; otherwise the rows are the loop's rows, a permutation of them, in descending name order, strictly so when the listing has no repeats |
| Catalog.EntryFor3 | project3/main.py:168-208 | the row built for one listed name: that name, and what its sidecar says when it exists (`0.0` and `Error Reading` when it cannot be read); its contents are stated by Catalog.RowsMembers3 |
| Catalog.SortRows | project3/main.py:211 | sorting by file name, newest first, keeps the rows and orders them descending |
| Catalog.RowNames3 | project3/main.py:165-167 | the rows' names are exactly the listing's names that pass `allowed_file`, in listing order |
| Catalog.RowsMembers3 | project3/main.py:165-208 | a row is present exactly when its name is a listed `.wav` file and it holds what that file's sidecar says |
| Catalog.NoSidecarNoSentiment3 | project3/main.py:172-175 | a recording without a sidecar shows score and label `None` |
| Catalog.SidecarNotListed3 | project3/main.py:169 | sidecar files never get a row |
| Catalog.HiddenWavSidecar3 | project3/main.py:167-169 | a hidden recording such as `.wav` gets a row, and its sidecar is looked for under the whole name followed by `_sentiment.txt` |
| Catalog.GetSttFiles2 | project2/main.py:79-106 | the rows are a permutation of the loop's rows, in descending name order, strictly so when the listing has no repeats |
| Catalog.EntryFor2 | project2/main.py:83-103 | the row built for one listed name: that name, and what its sidecar says when it exists; its contents are stated by Catalog.RowsMembers2 |
| Catalog.RowNames2 | project2/main.py:81-82 | the rows' names are the listed names that pass `allowed_file` |
| Catalog.RowsMembers2 | project2/main.py:81-103 | a row is present exactly when its name is a listed `.wav` file and it holds what its sidecar (name plus `_sentiment.txt`) says |
| Catalog.NoSidecarNoSentiment2 | project2/main.py:85-87 | a recording without a sidecar shows score and label `None` |
| Catalog.SidecarNotListed2 | project2/main.py:83 | sidecar files never get a row |
| Catalog.GetAllowedFiles | project1/main.py:55-61 | the result is a permutation of the allowed names of the listing, descending, and strictly so when the listing has no repeats; `get_tts_files` at project1/main.py:64-70 and project2/main.py:109-115 is the same code |
| Catalog.AllowedNamesMembers | project1/main.py:57-59 | a name is listed exactly when it is in the folder and passes `allowed_file` |
| Catalog.AllowedNamesDistinct | project1/main.py:57-59 | a listing without repeats gives each name once |
| Transcripts.RecognizeSpeech | project2/main.py:68-72 | the loop returns the in-order concatenation of the first alternatives, each followed by `\n`; the first version has the same loop at project1/main.py:44-48 |
| Transcripts.Joined | project2/main.py:68-72 | each first alternative followed by `\n`, in order (definition; its read-back is Transcripts.JoinedReadsBack) |
| Transcripts.JoinedCons | project2/main.py:68-70 | seen from the front, the first transcript and its newline come first |
| Transcripts.JoinedReadsBack | project1/main.py:44-48 | reading the text back line by line gives each transcript with its newline, in order, when none spans lines; no results give `""` and only they do |
| Stamps.Hour12 | project2/main.py:134 | `%I` is the hour on a 12-hour clock, from 1 to 12 |
| Stamps.Stamp24 | project3/main.py:238 | `strftime("%Y%m%d-%H%M%S")` with zero-padded fields (definition; its order is Stamps.Stamp24Chronological) |
| Stamps.Stamp12 | project2/main.py:134 | `strftime("%Y%m%d-%I%M%S%p")` with a 12-hour clock and `AM`/`PM`; also at project1/main.py:88 (definition; its order is Stamps.Stamp12NotChronological) |
| Stamps.PadOrder | project3/main.py:238 | zero-padded numbers of one width compare, and are equal, as the numbers are |
| Stamps.Stamp24Chronological | project3/main.py:238 | for valid moments, `%Y%m%d-%H%M%S` stamps compare exactly as the moments do in time |
| Stamps.Stamp12NotChronological | project2/main.py:134 | on any day, the `%Y%m%d-%I%M%S%p` stamp of 13:00 sorts before that of 11:00 |
| Uploads.ProcessAudio | project3/main.py:119-156 | the model's result always has a score in [-1, 1] and a non-empty transcript; with no model or on an exception it is Neutral with 0.0 |
| Uploads.UploadAudio3 | project3/main.py:224-290 | `upload_audio`: a `.wav` upload is stored under `audio_<stamp>.wav`, with the transcript and the sentiment record beside it; anything else leaves the folder unchanged (definition; stated by Uploads.UploadNames3, Uploads.UploadServed3 and Uploads.UploadThenCatalog3) |
| Uploads.UploadNames3 | project3/main.py:238-257 | the audio name passes `allowed_file`, the transcript and sentiment names do not, and the catalog's sidecar name for the audio is the one the upload writes |
| Uploads.UploadServed3 | project3/main.py:297-298 | the traversal guard lets all three written names through |
| Uploads.UploadThenCatalog3 | project3/main.py:168-194 | after an upload, the recording's catalog row shows the written label exactly and the written score as printed, rounded to two decimals |
| Uploads.UploadNames12 | project2/main.py:134-164 | whatever the uploaded name, the audio name ends in `.wav` and passes `allowed_file`, its `.txt` and `_sentiment.txt` files do not, and the catalog looks for the sidecar under the written name |
| Uploads.UploadAudio2 | project2/main.py:125-172 | `upload`: any named upload is stored under `<stamp>.wav` with the joined transcript and the `str(score)` record beside it (definition; stated by Uploads.UploadNames12 and Uploads.UploadThenCatalog2) |
| Uploads.UploadThenCatalog2 | project2/main.py:152-168 | after an upload, the row shows the score's threshold label exactly and the score rounded to two decimals |
| Uploads.UploadAudio1 | project1/main.py:79-106 | `upload`: any named upload is stored under `<stamp>.wav` with the joined transcript beside it (definition; stated by Uploads.UploadAudioListed1) |
| Uploads.UploadText | project1/main.py:113-147 | `upload_text`: non-empty text writes the synthesised audio under `<stamp>.wav` and the text beside it (definition; stated by Uploads.UploadTextListed) |
| Uploads.UploadAudioListed1 | project1/main.py:87-104 | after an audio upload the recording is listed and its transcript never; without an audio part or name the folder is unchanged |
| Uploads.UploadTextListed | project1/main.py:113-147 | empty text leaves the folder unchanged; otherwise the synthesised audio is listed, its text file never, and the text file holds the text; the second version's route at project2/main.py:179-213 is the same |

## Left out

- Flask routing, `render_template`, `redirect`, `send_from_directory` and the
  parsing of `request`: web glue. The request's audio part and file name are
  parameters. The undefined `flash` at project2/main.py:127 and
  project1/main.py:81 only fails in that glue.
- The cloud calls (`long_running_recognize`, `analyze_sentiment`,
  `synthesize_speech`, `generate_content`, Vertex AI initialisation) are
  foreign code. Their results are parameters: the first alternatives, the
  score and its printed text, the synthesised audio, and the model's reply or
  the type of the exception it raised.
- Filesystem operations become a map from names to contents plus a listing.
  `os.path.exists` is membership in the map. The third version's `IOError`
  while reading a sidecar is a set of unreadable names. Write failures
  (`IOError` on `open(..., 'w')`) are not modelled: every write succeeds.
- Upload functions such as Uploads.UploadAudio3 return the new folder rather
  than writing files one by one. A failure partway through, which would leave
  only some of the three files, is not captured.
- `datetime.now()` is a parameter. Stamps.Stamp24Chronological covers
  four-digit years and in-range fields only, and does not check the calendar
  (any day 1-31 is allowed).
- IEEE doubles: scores are reals. `round(x, 2)` and `{:.4f}` round the exact
  real half-to-even, not the nearest binary double.
- The second version's `str(score)` is the parameter `scoreText`.
  Uploads.UploadThenCatalog2 assumes it has no blank at its ends, no colon, no
  `\n` and no `\r`, and that `float()` reads it back as the score. Python's
  `repr` of a finite float has this property.
- Catalog.GetSttFiles2: the second version opens an existing sidecar with no
  `try` (project2/main.py:89), so an unreadable sidecar raises and the page
  fails. The model treats every existing sidecar as readable.
- Catalog.GetAllowedFiles: `os.listdir` on a missing folder raises at
  project1/main.py:57 and :66 and at project2/main.py:111 (and the second
  version's `get_stt_files` at project2/main.py:81 likewise). The model takes
  the listing as given and has no missing-folder case for these routes.
- Numbers.ParseDecimalText: `float()` is modelled for signed decimals with an
  optional exponent. Underscores, `inf` and `nan` are not accepted, and
  nothing in the model writes them.
- Unicode: characters are ASCII. Case folding, `\s` and `\d` use their ASCII
  meanings.
- The catch-all `except Exception` at project3/main.py:102-105 is not
  modelled, because the string operations modelled here cannot raise.
- `print` logging is not modelled.
- Listings are assumed free of repeats for the strictness clauses only. Python's
  stable sort of equal names is covered by the descending and permutation
  clauses alone, not by an order among equal names.

## Findings

| source | as written | input that shows it | evidently intended | confidence | as-written member | corrected member |
|---|---|---|---|---|---|---|
| project2/main.py:134 | files are named with `%Y%m%d-%I%M%S%p` (the same at project1/main.py:88), then sorted by name with `reverse=True` to list "newest to oldest" (project2/main.py:104-105) | recordings at 11:00 and 13:00 on the same day are named `...-110000AM.wav` and `...-010000PM.wav`, and the later one sorts below the earlier one | a stamp whose text order is time order, as the third version's `%Y%m%d-%H%M%S` (project3/main.py:238) is | high (not executed) | Stamps.Stamp12NotChronological | Stamps.Stamp24Chronological |

The first and second versions are modelled as written, with the twelve-hour
stamp (Uploads.AudioName12). The corrected stamp is the one the third version's
uploads use (Uploads.Base3).
