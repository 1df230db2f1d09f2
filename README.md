# SubRip writing and translation, modelled in Dafny

This project models the two text-processing parts of a subtitle tool. The
tool transcribes a video with Whisper, writes the transcript as a SubRip
(`.srt`) file and can translate that file line by line with a language
model.

- **utils.py**:
  - `format_timestamp` writes a millisecond count as `[HH:]MM:SS,mmm`.
  - `write_srt` writes the numbered SubRip blocks.
  - `str2bool` parses command-line flags.
  - `filename` gives `os.path.splitext(os.path.basename(path))[0]`.
  - `format_seconds` writes a duration as days, hours, minutes and seconds.
- **csrt.py**: `translateSrt` is the translation pass. It keeps the current
  cue index and copies index, timing and blank lines. Every other line
  becomes the oracle's answer, or a failure marker; a failure also appends
  the current index to the caller's error list.

Modules:

| module | file | models |
|---|---|---|
| `Wrappers` | wrappers.dfy | `Option`, `Result` |
| `PyStr` | pystr.dfy | the Python string operations the code relies on: `isspace`, `strip`, `lower`, `in`, `replace(c, '')`, `isnumeric`, `int`, `str`, `{:0Nd}` |
| `Timestamps` | timestamps.dfy | `format_timestamp`, and a reader for its output |
| `SrtWriter` | srt_writer.dfy | `write_srt`, and a SubRip reader for its output |
| `Durations` | durations.dfy | `format_seconds`, and a reader for its output |
| `PathNames` | pathnames.dfy | `filename` with POSIX `basename` and `splitext` |
| `BoolArgs` | boolargs.dfy | `str2bool` |
| `SrtTranslator` | translator.dfy | `translateSrt` |

Each operation has a partner:
- **Formatters** come with a reader. The round trip is proved: the reader
  recovers the count, the cues or the fields. For the cues this holds when no
  cleaned cue text holds an empty line (two newlines in a row); multi-line
  texts are read back whole, and a text with an empty line is provably cut
  short, since SubRip ends a cue's text at its first empty line.
- **`str2bool`** is checked against an independent case-insensitive spelling
  predicate.
- **`filename`** is characterised by how it splits the basename, in both
  directions.
- **The translation loop** (`SrtTranslator.TranslateSrt`) is a method. It is
  proved equal to a left fold (`Translation`), and the properties of
  `translateSrt` are lemmas about that fold.

How the environment is handled:
- Times come in already rounded to integer milliseconds.
- Files are sequences of lines or one string.
- The call to the language model is a function parameter `ask`, where `""`
  means failure.

## Model

| member | source | states |
|---|---|---|
| `Timestamps.Decompose` | utils.py:20-29 | hours·3 600 000 + minutes·60 000 + seconds·1 000 + ms gives back the count; minutes and seconds are below 60 and ms below 1000 |
| `Timestamps.DecomposeUnique` | utils.py:22-29 | any clock reading with those bounds that adds up to the count is the one computed |
| `Timestamps.HoursPositive` | utils.py:31 | the hours field is non-zero exactly from 3 600 000 ms on |
| `Timestamps.FieldWidths` | utils.py:31-32 | minutes and seconds are written with exactly 2 digits, ms with 3, and hours with at least 2 |
| `Timestamps.TimestampLayout` | utils.py:31-32 | the last nine characters are `MM:SS,mmm` holding the minutes, seconds and ms; the `HH:` prefix (at least two digits, the hours value, not capped) is present iff `always_include_hours` or the count is at least one hour |
| `Timestamps.ParseFormatTimestamp` | utils.py:18-32 | reading the text back gives the millisecond count, with or without the hours field |
| `Timestamps.FormatTimestampInjective` | utils.py:18-32 | two counts with the same text are equal, whatever the hours setting |
| `Timestamps.TimestampChars` | utils.py:31-32 | the text holds only digits, `:` and `,` |
| `Timestamps.FormatTimestampExampleHours` | utils.py:18-32 | 3 725 400 ms is written `01:02:05,400` with either hours setting |
| `Timestamps.FormatTimestampExampleMinutes` | utils.py:31-32 | 65 004 ms is written `01:05,004`, or `00:01:05,004` when hours are asked for |
| `PyStr.ZeroPad` | utils.py:31-32 | `{n:0Wd}` has max(W, digits of n) digits and the value n |
| `PyStr.NatToString` | utils.py:38 | `str(n)` is a non-empty digit string with no leading zero whose value is n |
| `PyStr.Strip` | utils.py:41 | `strip()` removes only whitespace from the two ends, leaves no whitespace at either end, and is empty iff the text is all whitespace |
| `SrtWriter.CleanText` | utils.py:41 | the written text is never longer than the segment's text |
| `SrtWriter.ReplaceArrowUnchanged` | utils.py:41 | a text without `-->` is written as it is |
| `SrtWriter.EscapeRemovesArrows` | utils.py:41 | with no `--->` in the text, the written text holds no `-->` |
| `SrtWriter.EscapeIsSinglePass` | utils.py:41 | the replacement is a single pass: `--->` is written as `-->`, which still holds an arrow |
| `SrtWriter.ReplaceArrowExample` | utils.py:41 | `a --> b` is written `a -> b` |
| `SrtWriter.TimingLineFacts` | utils.py:39-40 | the timing line has no newline and reads back as the segment's start and end |
| `SrtWriter.ReadBlock` | utils.py:37-43 | when the cleaned text holds no empty line (it may hold several lines), one printed block reads back as cue (index, start, end, cleaned text), and reading stops right after its blank line |
| `SrtWriter.ReadBlockCutShort` | utils.py:37-43 | when the cleaned text does hold an empty line, the block does not read back as its cue: the reader's text stops at that line |
| `SrtWriter.BlocksAppend` | utils.py:36-44 | each loop step appends block i+1 for segment i after the blocks already written |
| `SrtWriter.WriteSrt` | utils.py:35-44 | the output is the blocks numbered 1..N in transcript order, one after the other, and when no cleaned text holds an empty line a SubRip reader recovers exactly cues 1..N with their times and (possibly multi-line) texts |
| `SrtWriter.ReadWrittenSrt` | utils.py:36-44 | when no cleaned text holds an empty line, reading the whole output gives the cue list, numbered contiguously from 1 in input order |
| `BoolArgs.LowerIsWord` | utils.py:8 | the lower-cased text equals a lower-case word iff the text spells the word with letters in any case |
| `BoolArgs.Str2BoolSpec` | utils.py:7-15 | the result is `True` iff the text spells `true` in any case and `False` iff it spells `false`; any other text raises `ValueError` carrying the lower-cased text |
| `BoolArgs.Str2BoolExamples` | utils.py:7-15 | `TRUE` and `fAlSe` are accepted; `yes` and the empty text raise the error |
| `PathNames.LastIndexOf` | utils.py:48 | `rfind`: the position holds the character and none comes after it, or -1 |
| `PathNames.Basename` | utils.py:48 | the basename is a suffix of the path with no `/`, and a `/` comes right before it unless it is the whole path |
| `PathNames.SplitExt` | utils.py:48 | root + extension is the path |
| `PathNames.FilenameSplit` | utils.py:47-48 | the result plus the extension is the basename; the result has no `/`; the extension is empty or a `.` with no other `.`, and then the result is not all dots |
| `PathNames.FilenameUnique` | utils.py:47-48 | conversely, a basename that is a non-all-dots name, a `.` and a dot-free tail has exactly that name as its `filename` |
| `PathNames.FilenameNoExtension` | utils.py:47-48 | a basename with no `.` after its first character is returned whole |
| `PathNames.FilenameExampleNested` | utils.py:47-48 | `videos/talk.final.mp4` gives `talk.final` |
| `PathNames.FilenameExampleHidden` | utils.py:47-48 | `home/.bashrc` gives `.bashrc`: a leading dot starts no extension |
| `PathNames.FilenameExampleTrailingDot` | utils.py:47-48 | `archive.` gives `archive` |
| `Durations.SplitSeconds` | utils.py:86-88 | days·86 400 + hours·3 600 + minutes·60 + seconds gives back the count; hours are below 24, minutes and seconds below 60, for negative counts too (floor `divmod`) |
| `Durations.SplitSecondsUnique` | utils.py:86-88 | that in-range split is the only one |
| `Durations.ReadFormatSeconds` | utils.py:90-97 | a reader of the text finds the days, hours and minutes parts exactly when they are positive, with their values, and always finds the seconds |
| `Durations.FormatSecondsRoundTrip` | utils.py:85-99 | for a non-negative count the parts read back add up to the count |
| `Durations.FormatSecondsNegative` | utils.py:85-99 | a negative count has no days part and is written as the count modulo one day |
| `Durations.FormatSecondsExampleSeconds` | utils.py:90-99 | 59 is written `59.00 seconds` |
| `Durations.FormatSecondsExampleHour` | utils.py:90-99 | 3 600 is written `1 hours, 0.00 seconds`: the zero minutes part is left out, the zero seconds part is not |
| `Durations.FormatSecondsExampleDay` | utils.py:90-99 | 90 061 is written `1 days, 1 hours, 1 minutes, 1.00 seconds` |
| `PyStr.RemoveAll` | csrt.py:19 | `replace('\n', '')` leaves no `\n`, keeps every other character's count, and changes nothing when there is no `\n` |
| `PyStr.RemoveAllConcat` | csrt.py:19 | removing from `a + b` is removing from `a` then from `b`, so with the clauses above the kept characters stay in their order |
| `SrtTranslator.Clean` | csrt.py:19 | the classified line has no `\n`; it is the raw line itself when that had none, and the raw line without its last character when that was its only `\n` (the shape `readlines` gives) |
| `SrtTranslator.Translation` | csrt.py:18-30 | exactly one write per input line, and no more reported indices than lines (the per-line statement is `FailuresReported`) |
| `SrtTranslator.ErrorList.Append` | csrt.py:26 | `errors.append(n)` adds n at the end and keeps the list before it |
| `SrtTranslator.TranslateSrt` | csrt.py:12-30 | the writes are the pass's writes, and `errors` is its old contents followed by the pass's reported indices |
| `SrtTranslator.TranslationPrefix` | csrt.py:18-30 | the pass over the first n lines writes the first n writes of the whole pass and reports a prefix of its indices: the output keeps input order |
| `SrtTranslator.WrittenLine` | csrt.py:18-30 | the write for line i is determined by line i alone |
| `SrtTranslator.OutputCases` | csrt.py:19-30 | each write ends in one `\n`. It is a copied line unchanged, the oracle's non-empty answer to the prompt, or `[TRANSATION-FAIL]: ` and the line. Copied and failed writes hold no other `\n` |
| `SrtTranslator.CopiedReadLine` | csrt.py:19-30 | a line as `readlines` gives it (text and one final `\n`) that is numeric, a timing line or empty is written back exactly as it was read |
| `SrtTranslator.CopiedLine` | csrt.py:19-30 | a final line without `\n` that is numeric, a timing line or empty is written back with a `\n` added |
| `SrtTranslator.TimingLinesCopied` | csrt.py:22 | any line containing `-->` is copied, whatever the oracle answers |
| `SrtTranslator.CurrentIndex` | csrt.py:17-21 | the current index is `int` of the last numeric line so far, or 0 before any; a numeric subtitle text counts as an index |
| `SrtTranslator.FailuresReported` | csrt.py:25-27 | one index is reported per failing line, in line order, each the index current at that line |
| `SrtTranslator.NoFailureNoReport` | csrt.py:25-26 | when no oracle call comes back empty, nothing is reported and `errors` is unchanged |
| `SrtTranslator.TwoFailuresInACue` | csrt.py:20-27 | a cue whose two text lines both fail reports its index twice and writes both lines behind the marker |

## Left out

- `autosubtitle.py` is not part of this model. It is argument parsing, file copying, Whisper transcription, ffmpeg command lines, progress bars, tables and timing: orchestration with no logic of its own.
- `constants.py` is not part of this model: it holds string constants only.
- `run_ffmpeg_command` (utils.py:51-74) is not modelled. It runs a shell subprocess.
- `sizeof_fmt` (utils.py:77-82) is not modelled. It is floating-point division and float formatting.
- Timestamps.FormatTimestamp: takes the millisecond count after `round(seconds * 1000.0)`. Float rounding (banker's rounding, representation error) is not modelled. A negative input is a precondition, as the source's `assert` makes it; it is not an error result.
- Durations.FormatSeconds: takes whole seconds only. For whole seconds `{:.2f}` is the numeral followed by `.00`; fractional seconds and float formatting are not modelled.
- `__askGemini` (csrt.py:32-43) is not modelled as code. The network call, the API key, the one-second sleep, the swallowed exception and the verbose printing are all behind the oracle `ask`. So is `model_name`.
- SrtTranslator.TranslateSrt: the oracle is a function, so a prompt asked twice gets the same answer. The real model may answer differently each time.
- SrtTranslator.TranslateSrt: `verbose` printing and the `tqdm` progress bar are left out.
- SrtTranslator.TranslateSrt: the output is the sequence of `write` calls. An oracle answer that itself holds `\n` spreads one write over several file lines; this is stated per write in `OutputCases`.
- SrtTranslator.TranslateSrt: `errors` is always passed explicitly. The shared mutable default `errors=[]` (csrt.py:12) would carry indices from one call to the next.
- File opening, `readlines` and writing are left out. Input lines are a sequence of strings, and `write_srt`'s file is one string.
- `str.isnumeric` is modelled as a non-empty string of ASCII digits. Unicode digits and numerals are not modelled, and this changes behaviour on them: a line `isnumeric` accepts but `int` rejects (`²`, `½`, `五`) makes `int(line)` at csrt.py:21 raise `ValueError` and end the whole pass, while the model sends it to the oracle; a line of non-ASCII decimal digits (`٣`) becomes the current index in the source but is translated in the model.
- BoolArgs.Str2BoolSpec: `lower()` is ASCII lower-casing. The true/false decision is the same as Python's, since no non-ASCII character lower-cases into `true` or `false`. The text carried by the error is lower-cased in ASCII only.
- BoolArgs.Str2Bool: the error's message text, whose `set` display order Python leaves open, is reduced to the lower-cased input it reports.
- SrtWriter.ReadWrittenSrt: the read-back is promised only for transcripts whose cleaned texts hold no empty line; `WriteSrt`'s first `ensures` still gives the exact output for every transcript. A text with an empty line is cut short by any SubRip reader (`ReadBlockCutShort`).
- SrtWriter.ReadBlock: the same condition, for one block.
- PathNames.Filename: POSIX path rules only. Windows separators and drive letters are not modelled.
