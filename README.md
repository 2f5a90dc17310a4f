# Offline transcription with diarization: transcript rendering, verified

This project is a Dafny model of the logic that surrounds the speech-recognition calls in the
offline transcription app (michaelcoe/offline-transcription-diarization). After whisperx has
transcribed, aligned and diarized an audio file, `transcribe` holds a list of merged segments.
Each segment has a start and an end offset, its text, and a speaker label; the label is absent
when no diarization interval overlapped the segment. From that list `transcribe` writes one of
two transcript files next to the audio file:

- a WebVTT-like cue file (`.vtt`). It has one numbered block per segment: the time range as
  `HH:MM:SS.mmm --> HH:MM:SS.mmm`, then the text inside a `<v.SPEAKER>` voice tag. A segment
  whose speaker is missing is skipped, and the numbering closes up behind it.
- a paragraph file (`.txt`). Consecutive segments of one speaker are joined into a paragraph,
  with the speaker's label above it.

The model also covers three decisions:
- the device and precision the model is loaded with;
- which file is written;
- the main form's rule that turns the chosen model size into the whisperx model id.

Modules, in dependency order:

- `Wrappers`: `Option`.
- `Text`: the string behaviour of Python that the code relies on: `str.lstrip()`, `str(n)`,
  `f"{n:0w}"` and `s.split(sep)[0]`. It also holds a generic `Map` over sequences.
- `TimeFormat`: `convert_to_hms`.
- `Segments`: the segment record, `convert_seg`, and the filter that
  keeps the segments whose speaker lookup succeeds.
- `Runs`: the maximal runs of consecutive same-speaker segments. This is the reference grouping
  the paragraph loop is proved against.
- `Paragraphs`: `convert_segs_par`, a method whose loop mirrors the source statement by
  statement, and the paragraph writer.
- `CueFile`: the cue-numbering loop of `transcribe`, as written and with its counter initialised.
- `App`: the model radio, the fixed English-only flag, the output radio and the model-id rule of
  `app/main.py`.
- `Transcribe`: device selection, the output path and the dispatch between the two files.

Offsets are whole milliseconds (`nat`), so `divmod` is exact. `TimeFormat.HmsOfSeconds` takes a
real number of seconds, runs the divmod chain on it (`DivmodFields`), and is proved to agree
with the offset truncated to whole milliseconds by `MillisOf`, as
`math.floor((seconds % 1) * 1000)` truncates. A raised exception is `None` in an `Option` result. The
cue file is the sequence of strings the loop passes to `write`, and the paragraph file is the
concatenated text of its writes (`WriteParagraphs` returns that text).

Behaviour modelled as the code has it, including where it departs from what the code evidently
means to do:
- The paragraph file drops the final run when there is more than one speaker.
- The hour field of a timestamp grows past two digits from 100 hours on, and from there the
  timestamps no longer sort as text in time order.
- The host (CPU) branch loads the model with `int8` (app/transcribers/whisperx.py:70-76).
- The cue counter is never initialised; see Findings (the dispatch uses the corrected loop).

## Model

| member | source | states |
|---|---|---|
| TimeFormat.Split | app/transcribers/whisperx.py:11-13 | the `divmod` chain gives minutes and seconds in 0..59 and milliseconds in 0..999, and h*3600000 + m*60000 + s*1000 + ms is the input |
| TimeFormat.SplitUnique | app/transcribers/whisperx.py:11-13 | those fields are determined by the offset: any in-range clock with the same total is the one computed |
| TimeFormat.Hms | app/transcribers/whisperx.py:9-16 | the rendering is at least 12 characters, exactly 12 iff the offset is below 100 hours, with `:`, `:` and `.` at fixed places from the end |
| TimeFormat.HmsRoundTrip | app/transcribers/whisperx.py:9-16 | reading a rendered timestamp back gives the offset again, so formatting loses nothing |
| TimeFormat.HmsZero | app/transcribers/whisperx.py:14 | offset 0 renders as `00:00:00.000` |
| TimeFormat.MillisOf | app/transcribers/whisperx.py:13 | a real offset in seconds becomes the largest whole number of milliseconds not above it |
| TimeFormat.Truncation | app/transcribers/whisperx.py:11-13 | the millisecond field is the floor of the fractional second times 1000 (truncated, never rounded), and the whole seconds are floor(x) |
| TimeFormat.HmsExample | app/transcribers/whisperx.py:9-16 | 3725.4567 s renders as `01:02:05.456` |
| TimeFormat.HmsOfSeconds | app/transcribers/whisperx.py:9-16 | on a real number of seconds the result is the f-string of the fields the divmod chain computes from it, and it reads back as the offset truncated to whole milliseconds |
| TimeFormat.DivmodAgrees | app/transcribers/whisperx.py:11-13 | `divmod` by 3600, then by 60, then the truncated fraction, applied to the real offset, gives the same fields as the integer split of its whole milliseconds |
| TimeFormat.ClockOrder | app/transcribers/whisperx.py:11-13 | an earlier offset has fields that are smaller in hour-minute-second-millisecond order |
| TimeFormat.HmsMonotone | app/transcribers/whisperx.py:9-16 | below 100 hours a later offset never renders as a string that sorts before an earlier one |
| TimeFormat.HmsOrderBreaks | app/transcribers/whisperx.py:14 | at 100 hours the hour field gets three digits, and `100:00:00.000` sorts before `99:59:59.999` |
| Text.LStrip | app/transcribers/whisperx.py:22 | the result is a suffix of the text, everything removed is whitespace, and what remains does not start with whitespace |
| Text.Decimal | app/transcribers/whisperx.py:14 | `str(n)` is a non-empty digit string without a leading zero |
| Text.DecimalRoundTrip | app/transcribers/whisperx.py:14 | the digits of `str(n)` denote `n` |
| Text.ZeroPad | app/transcribers/whisperx.py:14 | `{n:0w}` has width `w`, or more when `n` needs more digits (never truncated), and denotes `n` |
| Text.BeforeFirst | app/main.py:144 | `split(sep)[0]` is the prefix up to the first separator: it holds no separator and is followed by one or by the end |
| Text.DigitsOrder | app/transcribers/whisperx.py:14 | for the equally wide digit strings that `{n:02}` and `{n:03}` produce, a smaller number is a string that sorts first |
| Segments.ConvertSeg | app/transcribers/whisperx.py:19-22 | a block exists exactly when the segment has a speaker, and it is `start --> end`, newline, `<v.SPEAKER>`, the left-stripped text, `</v>` and a blank line |
| Segments.CueTextLayout | app/transcribers/whisperx.py:21-22 | the block reads back field by field (both times, the arrow, the speaker, the stripped text, the tags), and below 100 hours its time line is 29 characters |
| Segments.CueTimesReadBack | app/transcribers/whisperx.py:21 | the time line of a block parses back to the segment's start and end |
| Segments.ResolvedCount | app/transcribers/whisperx.py:35-46 | every segment is either kept (has a speaker) or counted as skipped |
| Segments.ResolvedAppend | app/transcribers/whisperx.py:35-46 | skipping keeps the order: the kept segments of a concatenation are those of each part in turn |
| Segments.ResolvedSkip | app/transcribers/whisperx.py:45-46 | a segment without a speaker contributes nothing, wherever it stands |
| Segments.ResolvedKeep | app/transcribers/whisperx.py:37-44 | a segment with a speaker contributes exactly its own cue, in place |
| Segments.ResolvedAll | app/transcribers/whisperx.py:35-46 | with every speaker present nothing is dropped: the k-th cue is the k-th segment |
| Runs.GroupCorrect | app/transcribers/whisperx.py:37-44 | the runs are maximal (non-empty, neighbours have different speakers) and, read back in order, give every speaker/text pair of the input |
| Runs.GroupUnique | app/transcribers/whisperx.py:37-44 | any split into maximal runs that reads back as the input is this one: grouping is by consecutive run, not by speaker |
| Runs.GroupKeepsText | app/transcribers/whisperx.py:38-44 | the paragraphs of all runs, concatenated, are all the texts in order |
| Runs.GroupEnds | app/transcribers/whisperx.py:29-44 | the first run is the first cue's speaker and the last run the last cue's |
| Runs.SingleRunIff | app/transcribers/whisperx.py:37-40 | there is one run exactly when every cue has the first cue's speaker |
| Runs.SingleRunText | app/transcribers/whisperx.py:38 | a single run's paragraph is every text concatenated |
| Paragraphs.ParagraphSpec | app/transcribers/whisperx.py:26-52 | `convert_segs_par` raises exactly on an empty list or a first segment without a speaker (line 29); otherwise the flag matches the output's shape and the two lists have equal length |
| Paragraphs.ConvertSegsPar | app/transcribers/whisperx.py:26-52 | the loop over speaker, paragraph, `more_than_one`, `decrement` and the two lists computes `ParagraphSpec` |
| Paragraphs.SingleSpeakerCase | app/transcribers/whisperx.py:48-50 | `more_than_one` is false exactly when every kept segment has the first speaker, and then the output is that speaker with all kept texts concatenated |
| Paragraphs.ManySpeakersCase | app/transcribers/whisperx.py:35-52 | otherwise the lists have one entry per speaker change, neighbouring speakers differ, the first is the first segment's speaker, and the emitted paragraphs followed by the dropped final run give every kept text |
| Paragraphs.AllButLastRun | app/transcribers/whisperx.py:39-44 | the lists are the runs before the last one: lengths, alternation, first speaker, and the last emitted speaker differs from the dropped run's |
| Paragraphs.DroppedRunText | app/transcribers/whisperx.py:48-52 | the emitted paragraphs plus the last run's paragraph are all the texts in order |
| Paragraphs.SkipsUnresolved | app/transcribers/whisperx.py:45-46 | a segment without a speaker after the first changes neither the speaker nor the paragraph: the result is as if it were absent |
| Paragraphs.SameIteration | app/transcribers/whisperx.py:37-38 | one iteration with the current speaker extends the last run's paragraph |
| Paragraphs.NewIteration | app/transcribers/whisperx.py:39-44 | one iteration with another speaker flushes the run into the lists and starts a new one (never on the first segment) |
| Paragraphs.SkipIteration | app/transcribers/whisperx.py:45-46 | one iteration without a speaker only bumps `decrement`, which stays the number of skipped segments |
| Paragraphs.WriteParagraphs | app/transcribers/whisperx.py:118-124 | the writes give one block `speaker \n lstrip(paragraph) \n\n` in the single-speaker case and one per list entry, in order, otherwise |
| Paragraphs.ParagraphFileOfSegments | app/transcribers/whisperx.py:113-124 | the written file is one block per maximal run with one speaker, and lacks exactly the final run's block otherwise |
| Paragraphs.DropsFinalRun | app/transcribers/whisperx.py:35-52 | two segments of speaker A then one of B (as "hi ", "there", "ok"): the runs are A's and B's, but the output is only `[A]` with A's texts joined, and the file is A's block alone |
| CueFile.CueLoop | app/transcribers/whisperx.py:129-133 | with the counter unbound any non-empty list raises and nothing is written; with it bound to 0 the writes are the numbered blocks of the kept segments |
| CueFile.WriteCuesAsWritten | app/transcribers/whisperx.py:129-133 | the loop as written writes nothing before it raises, for every non-empty list |
| CueFile.WriteCues | app/transcribers/whisperx.py:129-133 | with `decrement = 0` the writes are `CueWrites` of the kept segments |
| CueFile.SkipStep | app/transcribers/whisperx.py:132-133 | a failed block writes nothing and `decrement` stays the number of skipped segments so far |
| CueFile.KeepStep | app/transcribers/whisperx.py:131 | a block that succeeds is written under `i - decrement`, one more than the blocks so far, and `decrement` still counts the skipped segments |
| CueFile.NumberedIndex | app/transcribers/whisperx.py:129-133 | the k-th block written carries number k + 1 and the k-th kept segment |
| CueFile.CueWritesIndex | app/transcribers/whisperx.py:131 | the k-th write is the number k + 1, a newline and the k-th kept segment's cue block |
| CueFile.GaplessNumbering | app/transcribers/whisperx.py:129-133 | the number written in the k-th block reads back as k + 1, whatever was skipped before it |
| CueFile.BlockReadBack | app/transcribers/whisperx.py:131 | the digits before the first newline of a block are its number |
| CueFile.BlockCount | app/transcribers/whisperx.py:129-133 | there are as many blocks as segments minus skipped segments |
| CueFile.SkippedWritesNothing | app/transcribers/whisperx.py:132-133 | a segment without a speaker leaves the file as if it were absent |
| CueFile.BlocksInOrder | app/transcribers/whisperx.py:129-131 | the blocks of a concatenation are the first part's, then the second part's, numbered on after them |
| CueFile.SkipRenumbers | app/transcribers/whisperx.py:129-133 | five segments whose third has no speaker give blocks 1 to 4, the fourth segment being number 3 |
| Transcribe.FreeThreshold | app/transcribers/whisperx.py:60-63 | at least 5.0 GiB free is exactly at least 5 * 2^30 free bytes |
| Transcribe.SelectDevice | app/transcribers/whisperx.py:63-76 | CUDA exactly when it is available with at least 5.0 GiB free; `float16` exactly on CUDA and `int8` exactly on the CPU; language `en` exactly when `eo` is `'yes'` |
| Transcribe.DeviceIndependentOfLanguage | app/transcribers/whisperx.py:63-76 | the device and precision do not depend on `eo`, and the language does not depend on the hardware |
| Transcribe.AppLanguage | app/transcribers/whisperx.py:66-74 | with `eo` fixed to `'yes'` by the app (app/main.py line 117) the model is always loaded for English |
| Transcribe.OutputPath | app/transcribers/whisperx.py:113-126 | the audio path with four characters appended: `.txt` exactly when `par` is `'paragaph'`, `.vtt` exactly otherwise |
| Transcribe.RenderSpec | app/transcribers/whisperx.py:113-133 | no file exactly when the paragraph branch is taken and `convert_segs_par` raises; otherwise the file is at `OutputPath` |
| Transcribe.Render | app/transcribers/whisperx.py:113-133 | the dispatch into the paragraph writer or the cue loop produces `RenderSpec` |
| Transcribe.AppAlwaysWritesCues | app/main.py:121-125 | neither option of the output radio is `'paragaph'`, so from the app every run writes the cue file |
| App.DeriveModelId | app/main.py:143-149 | the id is the selection or the selection plus `.en`, and it is the latter exactly when `eo` is `'yes'` and the selection is not a large variant |
| App.LargeVariantIff | app/main.py:144 | the text before the first `-` is `large` exactly for `large` and names starting with `large-` |
| App.SmallChoicesMapping | app/main.py:108 | with `eo = 'yes'` (line 117) the radio options `tiny`, `base`, `small` and `medium` load as `tiny.en`, `base.en`, `small.en` and `medium.en` |
| App.LargeChoicesMapping | app/main.py:108 | with `eo = 'yes'` the options `large`, `large-v2` and `large-v3` load unchanged |

## Defects modelled as written

- `convert_segs_par` reads the first segment's speaker unguarded (app/transcribers/whisperx.py:29). It raises on an empty list, or when the first segment has no speaker (`Paragraphs.ParagraphSpec` returns `None`).
- With more than one speaker, nothing after the loop appends the last run (app/transcribers/whisperx.py:48-52). The paragraph file therefore lacks its final paragraph (`Paragraphs.ManySpeakersCase`, `Paragraphs.ParagraphFileOfSegments`, `Paragraphs.DropsFinalRun`).
- The paragraph branch is selected by `par == 'paragaph'` (app/transcribers/whisperx.py:113), while the app offers `'VTT'` and `'paragraph'`. From the app the paragraph file is never produced (`Transcribe.AppAlwaysWritesCues`). Called directly with `'paragaph'`, the branch is modelled as it stands.
- `{int(hours):02}` pads but never truncates (app/transcribers/whisperx.py:14). From 100 hours on the hour field has three digits, so the timestamps stop sorting as text in time order. `TimeFormat.HmsMonotone` proves the order below 100 hours, and `TimeFormat.HmsOrderBreaks` shows `100:00:00.000` sorting before `99:59:59.999`.

## Findings

| source | as written | input that shows it | evidently intended | confidence | as-written member | corrected member |
|---|---|---|---|---|---|---|
| app/transcribers/whisperx.py:131-133 | `decrement` is read at line 131 and incremented at line 133, but never assigned in `transcribe`. Being assigned in the function makes it local. So the first write raises, and the handler's `decrement += 1` raises again out of the loop | any non-empty list of segments: the `.vtt` file is opened and left empty | `decrement = 0` before the loop, as `convert_segs_par` does at line 31, so blocks are numbered 1, 2, … over the segments with a speaker | not executed | CueFile.WriteCuesAsWritten | CueFile.WriteCues |

The dispatch (`Transcribe.Render`, `Transcribe.RenderSpec`) uses the corrected loop.

## Left out

- The whisperx and torch calls are foreign library calls. They are `load_model`, `load_audio`, the transcription, `load_align_model`/`align`, `DiarizationPipeline` and `assign_word_speakers`. Their merged segments are the input of the model.
- The speaker-overlap merge runs inside whisperx, which is not part of this model.
- `torch.cuda.mem_get_info` is a foreign call (app/transcribers/whisperx.py:60-61). It runs before `torch.cuda.is_available()` is checked, so on a machine without CUDA it can raise before the CPU branch is reached. The model takes availability and free memory as parameters, so it does not capture that failure. The unused `total` is not modelled.
- Transcribe.SelectDevice: takes the free memory as an exact real. The Python float division at line 60 is not modelled.
- The speaker bounds are overwritten and diarization runs twice, with the second, unbounded result used (app/transcribers/whisperx.py:101-104). This orchestration around foreign calls is not modelled.
- The `gc.collect`, `torch.cuda.empty_cache` and `del` calls and the `print` messages are resource plumbing and console output.
- File handles: the model produces the rendered strings, not the opening or writing of files. When the as-written cue loop raises, the empty `.vtt` file it has already opened is not represented.
- Transcribe.OutputPath: appends the suffix to the path string. `Path(...)` at lines 115 and 126 also normalises it (`a//b` becomes `a/b`, a leading `./` is dropped), which is not modelled.
- Floating-point `divmod` and `% 1` on Python floats are not modelled. Timestamps are whole non-negative milliseconds; `TimeFormat.HmsOfSeconds` and `TimeFormat.DivmodFields` run the divmod chain on exact reals.
- TimeFormat.Hms: does not cover negative offsets, which Python's `divmod` would floor toward more negative hours. Offsets are `nat`.
- Segments.Segment: only the `speaker` key can be missing; a segment without `text`, `start` or `end` is not modelled. `convert_segs_par` never reads `start` or `end` (app/transcribers/whisperx.py:35-46). A missing `text` there is not a plain skip. For a segment of the current speaker, the `KeyError` at line 38 is swallowed before `paragraph` changes. On a speaker change, lines 40-43 have already set `more_than_one`, appended the run and switched `speaker` when line 44 raises. In the cue loop, `convert_seg` raising on any missing key is caught like a missing speaker.
- The Streamlit user interface, session state, IP logging, secrets, temporary-file staging and the download button, and the `transcription` wrapper (app/main.py:64-76), are UI and I/O. The `converters` module is not part of this model.
