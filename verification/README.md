# KaraLuxer notes transcoder in Dafny

KaraLuxer converts a karaoke-timed ASS subtitle file into the notes section of
an UltraStar song file. The core is `parse_subtitles`. It keeps the Dialogue
events. For each line it finds the karaoke timing tags (`{\k..}`, `{\kf..}`,
`{\ko..}`, `{\K..}`) with one regular expression. Each tag becomes a
(duration in centiseconds, sound) pair. The function then walks a beat cursor
through the line at 20 beats per second. It writes `: start duration 19 sound `
for every syllable with a sound, and `- beat ` after every line.

The project models that function and proves what it computes:

- `wrappers.dfy` (`Wrappers`): the `Option` type.
- `text.dfy` (`Text`): the Python string operations the converter uses.
  - `str(int)` and `int(str)` on decimal digits.
  - `re.sub(r'[^0-9]', '', s)`.
  - `str.split` with a one-character separator.
- `seqs.dfy` (`Seqs`): concatenating per-item sequences, with its append laws.
- `scanner.dfy` (`Scanner`): `re.findall(TIMING_REGEX, text)` and the
  per-match conversion into syllables.
  - The two regex alternatives are stated as languages (`InAlt1`, `InAlt2`).
  - It is proved that the matcher's choice at a position (`FindAt`) is the
    longest text of the first alternative there, otherwise the only text of
    the second alternative there, otherwise nothing. That this is the choice
    of Python's backtracking matcher (first alternative first, greedy
    repetitions) is argued from the pattern's shape, not proved.
  - An encoder of syllables is proved to be inverted by the scan.
- `transcoder.dfy` (`Transcoder`): the beat arithmetic, the cursor fold over
  a line, and the line-by-line structure of the output, as records.
- `notes_format.dfy` (`NotesFormat`): the textual form of the records
  (`NOTE_LINE`, `SEP_LINE`), and a reader that recovers the records from it.
- `karaluxer.dfy` (`Karaluxer`): `parse_subtitles` as an imperative program
  with the source's loops. It is proved equal to the functional model.

Modelling decisions:

- Times are integer centiseconds. An ASS time `h:mm:ss.cc` is a whole number
  of centiseconds, and `\k` durations are whole centiseconds. So
  `floor(total_seconds * 20)` and `floor(cs / 100 * 20)` are modelled as exact
  floors (`Beats`).
- An event is its kind (Dialogue or Comment), its start time and its raw text.
- A syllable's sound is `Option<string>`.
  - `None` for the second tag shape, where the source sets `sound = None`.
  - Possibly `Some("")` for the first shape. Python treats that as false, so
    it gives no note but still moves the cursor.

## Model

| member | source | states |
|---|---|---|
| Transcoder.Beats | karaluxer.py:41 | the start beat is the floor of seconds times BEATS_PER_SECOND: beats·100 ≤ centis·20 < (beats+1)·100 |
| Transcoder.BeatsAreFifths | karaluxer.py:61 | a syllable of c centiseconds lasts exactly c div 5 beats, never negative for c ≥ 0 |
| Transcoder.NoteDurationNegative | karaluxer.py:61-66 | the written note duration (beats − 1) is at least −1, and is −1 exactly when the syllable is shorter than 5 centiseconds |
| Transcoder.Sounding | karaluxer.py:63 | `if sound:`: a syllable writes a note exactly when its sound is present and non-empty (definition, no contract) |
| Transcoder.NoteFor | karaluxer.py:61-66 | the note one syllable writes at the cursor: start = cursor, duration = its beats − 1, pitch 19, its sound; nothing for a silent syllable (definition; its properties are stated by NotePlacement and SilentSyllable) |
| Transcoder.EmitNotes | karaluxer.py:59-68 | after a line's syllables the cursor is the start beat plus the sum of their beats; one note per syllable with a non-empty sound; every note has pitch 19 and a non-empty text |
| Transcoder.SumBeatsAppend | karaluxer.py:68 | the cursor's advance and the note count are additive over consecutive runs of syllables |
| Transcoder.EmitNotesAppend | karaluxer.py:59-68 | the notes of a + b are a's notes followed by b's notes emitted from the cursor a left behind |
| Transcoder.NotePlacement | karaluxer.py:63-68 | the syllable at index k with a sound gives the note at index "number of sounding syllables before k": it starts at the start beat plus the beats of the syllables before it, lasts beats − 1, pitch 19, text = the sound |
| Transcoder.SilentSyllable | karaluxer.py:63-68 | one-syllable rewrite rule: a syllable without a sound (absent or empty) writes nothing but still advances the cursor by its beats |
| Transcoder.LineRecords | karaluxer.py:59-71 | a line's records from its start beat and syllables: the notes of the syllable loop, then the separator at the cursor it ends on (definition; its shape is stated by LineShape) |
| Transcoder.LineShape | karaluxer.py:59-71 | a line's records are its notes (one per sounding syllable, all pitch 19) followed by exactly one separator at start beat + all syllables' beats |
| Transcoder.TranscodeLine | karaluxer.py:40-71 | one Dialogue line: the records of its scanned syllables with the cursor starting at the line's own start beat (definition; stated by EventSeparator, UntimedEvent and WorkedExample) |
| Transcoder.UntimedEvent | karaluxer.py:41-71 | a line whose text holds no match of the timing pattern anywhere (`{\i1}hello`, `{\k}x`, plain text) yields only a separator, at the beat the line starts on |
| Transcoder.Dialogues | karaluxer.py:36 | only Dialogue events are kept, in order; all-Dialogue input is kept whole; all-Comment input yields nothing |
| Transcoder.DialoguesAppend | karaluxer.py:36 | filtering commutes with concatenation of event lists |
| Transcoder.Lines | karaluxer.py:39-71 | the `for line in dialogue_lines` loop: each line's records, in line order (definition; stated by LinesAppend and OneSeparatorPerLine) |
| Transcoder.LinesAppend | karaluxer.py:39-71 | the records of lines a + b are those of a followed by those of b |
| Transcoder.Transcode | karaluxer.py:36-71 | the records `parse_subtitles` writes: those of every Dialogue event's line, in input order (definition; stated by TranscodeAppend, TranscodeSingle and TranscodeSeparators) |
| Transcoder.TranscodeAppend | karaluxer.py:36-71 | the output for events a + b is the output for a followed by the output for b: each line's cursor starts from its own start time, never from the previous line |
| Transcoder.TranscodeSingle | karaluxer.py:36-41 | a Comment event contributes nothing; a Dialogue event contributes exactly its own line's records |
| Transcoder.LineSeparator | karaluxer.py:68-71 | a line's records hold exactly one separator, at the cursor the line ends on |
| Transcoder.EventSeparator | karaluxer.py:40-71 | a dialogue line's records hold exactly one separator, at the beat where the line ends |
| Transcoder.OneSeparatorPerLine | karaluxer.py:39-71 | the output holds one separator per line, in order, the k-th at the beat the k-th line ends on |
| Transcoder.TranscodeSeparators | karaluxer.py:36-71 | the whole output holds one separator per Dialogue event and none for comments, each at its line's end beat |
| Transcoder.WorkedExampleScan | karaluxer.py:45-56 | `{\k200}la{\k50 }` scans to (200, "la") and (50, no sound) |
| Transcoder.WorkedExampleRecords | karaluxer.py:59-71 | syllables (200, "la"), (50, none) from beat 20 give the note (20, 39, 19, "la") and the separator 70 |
| Transcoder.WorkedExample | karaluxer.py:39-71 | a Dialogue line at 1.00 s with text `{\k200}la{\k50 }` gives the note (20, 39, 19, "la") and the separator 70 |
| Scanner.DigitsStart | karaluxer.py:16 | the position where the duration digits of a tag opening `{\` + marker (k, kf, ko, K) begin; it is the only position with an opening before it and a digit at it |
| Scanner.DigitEnd | karaluxer.py:16 | end of the maximal digit run (`[0-9]+` is greedy) |
| Scanner.DigitEndAt | karaluxer.py:16 | any position that ends a digit run from i is the one DigitEnd finds |
| Scanner.SoundEnd | karaluxer.py:16 | end of the maximal `[a-z\|A-Z]` run |
| Scanner.SoundEndAt | karaluxer.py:16 | any position that ends a letter run from i is the one SoundEnd finds |
| Scanner.CloseFrom | karaluxer.py:16 | the first `}` at or after a position, with no `}` before it; none when there is none |
| Scanner.FindAt | karaluxer.py:16 | the findall pair at a position: exactly one group non-empty, and the matched text is a non-empty prefix of the remaining line |
| Scanner.FindAtTagged | karaluxer.py:16 | a group-1 result is in the first alternative's language and is the longest text of that language at the position |
| Scanner.FindAtBare | karaluxer.py:16 | a group-2 result occurs only where no text of the first alternative starts, and is the only text of the second alternative there |
| Scanner.FindAtNone | karaluxer.py:16 | where no pair is reported, no text of either alternative starts |
| Scanner.MatchConverts | karaluxer.py:45-56 | every reported pair converts without a failed unpacking, a missing second piece or `int('')`: the `}`-split gives exactly two pieces, the `\`-split has a second piece, and at least one digit is kept; the warning branch is never reached; a sound is made of `[a-z\|A-Z]` only |
| Scanner.ToSyllable | karaluxer.py:46-56 | the conversion of one findall pair: group 1 split at `}` into timing and sound, group 2 split at `\` for the timing, non-digits removed and the rest read as the duration; the warning branch, both groups empty, gives nothing (definition; stated by MatchConverts, TaggedSyllable and BareSyllable) |
| Scanner.TaggedSyllable | karaluxer.py:46-56 | a group-1 match `timing}sound` gives the duration read from the digits of the timing part and the sound after the `}` |
| Scanner.BareSyllable | karaluxer.py:48-56 | a group-2 match gives the duration read from the digits between the first and the second backslash only, and no sound |
| Scanner.SpacedDigitsJoin | karaluxer.py:49-56 | `{\k5 2}` gives one syllable of 52 centiseconds with no sound |
| Scanner.SecondOverrideIgnored | karaluxer.py:49-56 | `{\k5\blur2}` gives one syllable of 5 centiseconds: digits after a second override do not count |
| Scanner.Scan | karaluxer.py:45-56 | the syllables of a line: at most one per character, every sound made of `[a-z\|A-Z]` only |
| Scanner.ScanSkips | karaluxer.py:45 | rewrite rule of the scan: where no match starts, it moves on by one character |
| Scanner.NoMatchScansEmpty | karaluxer.py:45-56 | text where no match starts at any position yields no syllables: text outside a match never reaches the output |
| Scanner.ScanTakes | karaluxer.py:45-56 | rewrite rule of the scan: where a match starts, its pair converts, its syllable comes first and the scan resumes after the whole match |
| Scanner.StepAt | karaluxer.py:45-56 | one attempt of the matcher moves on by at least one character and never past the end, yields at most one syllable, and the scan of the line is that syllable followed by the scan from the new position |
| Scanner.Advance | karaluxer.py:45-56 | "syllables so far + scan of the rest = scan of the line" survives one attempt of the matcher |
| Scanner.MatchAt | karaluxer.py:45-56 | one matcher attempt advances the position and keeps "syllables so far + scan of the rest = scan of the line" |
| Scanner.FindSyllables | karaluxer.py:44-56 | the loop that collects syllables left to right computes exactly the scan of the line |
| Scanner.PlainTextIgnored | karaluxer.py:45 | text without `{` contributes no syllables and does not disturb what follows |
| Scanner.ScanEncode | karaluxer.py:45-56 | scanning the tags `{\kD}sound` / `{\kD }` written for a list of syllables gives that list back |
| Text.KeepDigits | karaluxer.py:55 | deleting non-digits leaves only digits, leaves a digit string unchanged, empties a digit-free string, and keeps at least one digit when there was one |
| Text.KeepDigitsAppend | karaluxer.py:55 | digit filtering distributes over concatenation |
| Text.SplitOn | karaluxer.py:47-49 | `str.split(c)`: at least one piece, no piece holds c, and a string without c is its own single piece |
| Text.JoinSplit | karaluxer.py:47-49 | joining the pieces with c gives the string back |
| Text.SplitJoin | karaluxer.py:47-49 | splitting pieces joined by c, none of which holds c, gives the pieces back |
| Text.SplitAtSeparator | karaluxer.py:47 | the first separator ends the first piece and the rest is split on its own |
| Text.SplitKeepsHead | karaluxer.py:49 | a separator-free prefix stays at the head of the first piece |
| Text.DigitsValue | karaluxer.py:56 | `int(timing)` on the kept digits: their decimal value, leading zeros allowed (definition; stated by ValueOfNatToString, NatToStringOfValue, TaggedSyllable and BareSyllable) |
| Text.ValueOfNatToString | karaluxer.py:56 | `int(str(n)) == n` |
| Text.NatToStringOfValue | karaluxer.py:56 | `str(int(ds)) == ds` for a digit string without leading zeros |
| Text.IntToString | karaluxer.py:13-14 | the printed integer is non-empty, holds no space or newline, and starts with `-` exactly when the number is negative |
| Text.IntToStringRoundTrip | karaluxer.py:13-14 | a printed integer (negative ones included) reads back as itself |
| NotesFormat.RecordText | karaluxer.py:13-14 | `NOTE_LINE` and `SEP_LINE` filled in, trailing space and newline included (definition; stated by RecordTextFields and ParseRecordLine) |
| NotesFormat.Render | karaluxer.py:66-71 | `notes_string +=` over the records: their lines in order (definition; stated by RenderAppend, RenderAsLines and ParseRender) |
| NotesFormat.RenderAppend | karaluxer.py:66-71 | the text of a + b is the text of a followed by the text of b |
| NotesFormat.RecordTextFields | karaluxer.py:13-14 | a note line is `:`, start, duration, pitch, sound and an empty field joined by spaces plus a newline; a separator line is `-`, beat and an empty field joined the same way |
| NotesFormat.ParseRecordLine | karaluxer.py:13-14 | every note or separator line reads back as its record when the sound holds no space or newline |
| NotesFormat.RenderAsLines | karaluxer.py:66-71 | the notes text is the record lines joined by newlines, with a final newline |
| NotesFormat.ParseRender | karaluxer.py:13-14 | reading the text of any readable record list gives exactly that list |
| NotesFormat.WorkedExampleText | karaluxer.py:13-14 | the records (20, 39, 19, "la") and separator 70 are written `: 20 39 19 la \n- 70 \n` |
| Karaluxer.WriteNotes | karaluxer.py:58-68 | the loop over a line's syllables writes exactly the text of the line's notes and leaves the cursor at start + the sum of the beats |
| Karaluxer.WriteLine | karaluxer.py:40-71 | the body of the line loop writes exactly the text of that line's records |
| Karaluxer.ParseSubtitles | karaluxer.py:33-73 | the returned string is the text of the records of every Dialogue event, in order |
| Karaluxer.NotesReadable | karaluxer.py:47-66 | given syllables whose sounds are `[a-z\|A-Z]` only, every note written carries such a sound, so no note text holds a space or newline |
| Karaluxer.NotesTextReadsBack | karaluxer.py:33-73 | the notes text for any events reads back as exactly the transcoded records: the output is an unambiguous encoding |

## Left out

- Reading the file: `open(..., encoding='utf-8-sig')` and `ass.parse` (lines 29-30).
  - The model starts from the parsed event list.
  - An event's start time is given as integer centiseconds.
  - An event's kind is Dialogue or Comment, since every other ASS event kind is dropped at line 36 like a comment.
- `main`, argument parsing and the path checks: `check_arg_paths`, the output folder (`OUTPUT_FOLDER`), media copying, the header and the BPM line. These are file-system and command-line handling outside the conversion.
- Floating point: `total_seconds() * 20` and `(cs / 100) * 20` are modelled as exact rational floors (`Beats`). Any rounding error of binary floating point is not modelled.
- The warning `print` at line 52: the branch is modelled (`ToSyllable` returns `None`, and the scan skips the pair) and proved unreachable (`Scanner.MatchConverts`). The console output is not modelled.
- Exceptions of the conversion (a failed unpacking, a missing second piece, `int('')`) are not modelled as outcomes. `Scanner.MatchConverts` proves that no regex match can raise them.
- Durations too large for the source's arithmetic: these raise in the source, while the model's exact floor (`Transcoder.Beats`, `Transcoder.BeatsAreFifths`) still gives a value and a note is written.
  - On Python 3.11 and later, a timing with more than 4300 digits makes `int` at line 56 raise `ValueError`.
  - `(duration_cs / 100) * 20` at line 61 overflows to infinity from about 9·10^308 centiseconds. `floor` then raises `OverflowError`. From about 1.8·10^310 the division itself raises.
  - Either way `parse_subtitles` aborts. The model has no error outcome for this.
- Non-ASCII digits: `[0-9]` and `re.sub(r'[^0-9]', ...)` are ASCII-only in the source. `int` would also accept other Unicode digits, but none can reach it.
- The single loop nest of `parse_subtitles` is split into methods (`WriteLine`, `WriteNotes`, `MatchAt`). They compute the same text.
