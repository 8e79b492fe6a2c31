# soundclient: a verified model of the recorder's decision logic

`soundclient/main.py` is a command-line recorder. It captures microphone audio
until Enter is pressed, sends it to Google Cloud Speech-to-Text, prints the
transcript and can POST it as `{"message": ...}` to an HTTP endpoint. Almost
all of it calls libraries: sounddevice, the speech client and requests. This
project models the parts where the program itself decides what happens:

- how the capture buffer accumulates blocks, and the fatal empty capture;
- the choice between the synchronous and the long-running recognition call;
- how the result segments become one transcript: first alternatives,
  `strip()`, `" ".join(...)`, `strip()`;
- the guard that stops a blank transcript from being posted, and the one
  request that is sent otherwise;
- the input-device filter;
- the forward-only run of `main`, which ends at the first fatal outcome.

Every foreign facility is an input of the model. The audio stream is the
sequence of blocks it delivered. The recogniser is a function from the chosen
backend to its result segments, or to nothing when the call raises. The HTTP
transport is a function from the request to its reply. Device enumeration is
the list of device records each library yields.

Modules, one file each:

- `Outcomes`: option and result types, and the fatal outcomes.
- `Seqs`: in-order concatenation and the ascending filter of indices.
- `Text`: Python's `str.strip()` and `str.join`.
- `Capture`: `record_until_enter`.
- `Transcription`: `transcribe_gcloud_linear16`.
- `Publish`: `post_message`.
- `Devices`: `list_input_devices`.
- `Session`: `main`.

`strip()` uses the exact set of characters for which Python's `str.isspace`
holds. Its two scans follow CPython's index loops. The audio duration
`len(audio) / (2 * rate)` is an exact real quotient. A lemma turns it, for a
positive rate, into the integer test `len(audio) > 120 * rate`.

## Model

| member | source | states |
|---|---|---|
| `Text.Strip` | soundclient/main.py:126-127 | `strip()` returns a string with no whitespace at either end and no longer than its input |
| `Text.AsciiWhitespace` | soundclient/main.py:126 | the whitespace set `IsSpace` of `strip()`, on ASCII, is exactly space, tab, newline, vertical tab, form feed, carriage return and the separators 0x1C to 0x1F |
| `Text.SkipLeft` | soundclient/main.py:126 | the left scan of `strip()` stops at the first non-whitespace index and passes only whitespace |
| `Text.SkipRight` | soundclient/main.py:126 | the right scan of `strip()` stops after the last non-whitespace character and passes only whitespace |
| `Text.StripIsSlice` | soundclient/main.py:126-127 | the stripped result is a contiguous slice of the input with only whitespace before and after it |
| `Text.StripEmptyIffAllSpace` | soundclient/main.py:32 | `s.strip()` is empty exactly when every character of `s` is whitespace |
| `Text.StripStripped` | soundclient/main.py:127 | stripping a string with no whitespace at its ends returns it unchanged |
| `Text.StripIdempotent` | soundclient/main.py:126-127 | stripping twice is the same as stripping once |
| `Text.StripOfSeparatedWords` | soundclient/main.py:127 | two words without edge whitespace joined around any separator survive the final `strip()` unchanged |
| `Text.Join` | soundclient/main.py:127 | `" ".join(parts)` is empty for no parts, starts with the first part and ends with the last |
| `Text.JoinLength` | soundclient/main.py:127 | a join of n parts has their total length plus n - 1 separators, even when some parts are empty |
| `Text.JoinOfStrippedIsStripped` | soundclient/main.py:126-127 | joining non-empty stripped parts gives a string with no edge whitespace |
| `Seqs.ConcatAppend` | soundclient/main.py:61 | the buffer after two runs of callbacks is the first run's bytes followed by the second's |
| `Seqs.ConcatPrefix` | soundclient/main.py:55-61 | the buffer only grows: its contents after i callbacks are a prefix of its contents after j >= i |
| `Seqs.ConcatLength` | soundclient/main.py:61-85 | the buffer length is the sum of the block lengths, and it is empty exactly when every block was empty |
| `Seqs.IndicesWhere` | soundclient/main.py:135-137 | the kept indices ascend strictly, each passes the test, and every index that passes is kept |
| `Capture.Recorded` | soundclient/main.py:50-89 | a failed open or a closed input gives `MicOpenFailed`; after Enter or Ctrl-C any delivered audio makes a success; every failure is `MicOpenFailed` or `NoAudio`; a success is the non-empty in-order concatenation of the delivered blocks |
| `Capture.CaptureBuffer.constructor` | soundclient/main.py:55 | the buffer starts empty with nothing delivered |
| `Capture.CaptureBuffer.Append` | soundclient/main.py:57-61 | one callback appends its block to the end of the buffer and changes nothing else |
| `Capture.CaptureBuffer.Finish` | soundclient/main.py:85-89 | an empty buffer is the fatal `NoAudio` outcome; otherwise the delivered bytes are returned, in order and non-empty |
| `Capture.RecordUntilEnter` | soundclient/main.py:50-89 | the callback loop over the delivered blocks followed by the empty check gives exactly `Recorded`, including the exit when `input()` fails after blocks arrived |
| `Capture.RecordedIsConcatenation` | soundclient/main.py:74-89 | when `input()` returns or is interrupted, a recording succeeds exactly when some delivered block is non-empty, and a success holds every delivered byte |
| `Capture.StopSignalOutcomes` | soundclient/main.py:74-83 | stopping with Enter and with Ctrl-C give the same recording; a closed input ends with `MicOpenFailed` however much audio was delivered |
| `Transcription.DurationSeconds` | soundclient/main.py:115 | the duration times `2 * rate` is the byte count, and it is never negative for a positive rate |
| `Transcription.ChooseBackend` | soundclient/main.py:115-121 | for a positive rate the long-running call is chosen exactly when there are more than `120 * rate` bytes; a negative rate always gives the synchronous call |
| `Transcription.DurationThreshold` | soundclient/main.py:115-116 | the real duration exceeds 60 s exactly when the byte count exceeds `120 * rate`; for a negative rate the duration is never positive |
| `Transcription.SixtySecondsBoundary` | soundclient/main.py:116 | exactly 60 s of audio takes the synchronous call, and one more byte takes the long-running call |
| `Transcription.Parts` | soundclient/main.py:123-126 | there are never more parts than result segments |
| `Transcription.PartsAreFirstAlternatives` | soundclient/main.py:124-126 | part j is the stripped first alternative of the j-th segment that has alternatives, in ascending segment order |
| `Transcription.TranscriptOf` | soundclient/main.py:127 | the transcript never starts or ends with whitespace and is no longer than the joined parts |
| `Transcription.PartsIgnoreEmptySegments` | soundclient/main.py:125 | removing any one segment that has no alternatives leaves the parts unchanged |
| `Transcription.NoAlternativesGiveNoParts` | soundclient/main.py:123-126 | when no segment has alternatives the parts list stays empty |
| `Transcription.NoAlternativesGiveEmptyTranscript` | soundclient/main.py:123-127 | no results, or no result with alternatives, give the empty transcript |
| `Transcription.TranscriptIsJoinWhenNoPartBlank` | soundclient/main.py:126-127 | when no kept part is empty after stripping, the final strip changes nothing |
| `Transcription.EveryKeptSegmentAddsSeparator` | soundclient/main.py:125-127 | before the final strip, the joined text is as long as the parts together plus one separator fewer than there are segments with alternatives, blank ones included |
| `Transcription.TwoSegments` | soundclient/main.py:123-127 | the transcript of `[[a], [b, c]]` is built from `a` and `b` only |
| `Transcription.FirstAlternativeOnlyExample` | soundclient/main.py:123-127 | `[[a], [b, c]]` gives `a + " " + b` for words `a` and `b`; the second alternative is ignored |
| `Transcription.ThreeSegments` | soundclient/main.py:123-127 | the transcript of `[[a], [w], [b]]` is the strip of the three stripped parts joined by spaces |
| `Transcription.BlankPartKeepsSeparatorExample` | soundclient/main.py:126-127 | a blank middle alternative leaves two spaces between its neighbours |
| `Transcription.JoinAroundBlank` | soundclient/main.py:126-127 | the stripped parts `a`, blank, `b` join to `a`, two spaces, `b` |
| `Transcription.TwoWordsExample` | soundclient/main.py:123-127 | results `[["a"], ["b", "c"]]` give `"a b"` |
| `Transcription.AssembleTranscript` | soundclient/main.py:123-127 | the loop and the join give the stripped, space-joined, stripped first alternatives of the segments that have them |
| `Transcription.Transcribe` | soundclient/main.py:92-127 | missing credentials are fatal first, then a failing speech client, then a zero rate, with no backend called; otherwise exactly the backend the duration selects is called and reported, its failure is fatal, and its results become the stripped transcript |
| `Publish.IsBlank` | soundclient/main.py:32 | the guard `not t or not t.strip()` holds exactly when `t` is all whitespace, the empty string included |
| `Publish.MessageRequest` | soundclient/main.py:41 | the request body has the single key `message`, holding the transcript, and the timeout is 15 s |
| `Publish.PostMessage` | soundclient/main.py:31-47 | a blank transcript issues nothing; otherwise, if the client is installed, exactly one request with the transcript is issued, and a response is returned only if it arrived with a status below 400 or of 600 and above |
| `Publish.BlankNeverPosted` | soundclient/main.py:32-34 | a whitespace-only transcript issues no request and returns `None`, whatever the transport would answer |
| `Publish.GuardAgreesWithReport` | soundclient/main.py:191-200 | for a stripped transcript, the publish guard and the report's `if text:` make the same decision |
| `Devices.InputIndices` | soundclient/main.py:135-137 | the listed indices are exactly those of devices with more than zero input channels, each once, ascending |
| `Devices.ListInputIndices` | soundclient/main.py:135-139 | the enumeration loop lists exactly the filtered indices, in order |
| `Devices.ListingOf` | soundclient/main.py:130-149 | the listing comes from PyAudio when it yields its records, otherwise from sounddevice, and it fails only when both fail; its indices are those of the input devices of the library used, each once, in ascending order |
| `Devices.ListInputDevices` | soundclient/main.py:130-149 | the listing uses PyAudio's records, or sounddevice's when PyAudio is unavailable, or warns when neither is available |
| `Session.ReportAndPublish` | soundclient/main.py:190-200 | exactly one report, then one POST exactly when `--post` is set, the text is not blank and the HTTP client is installed, carrying the text to the endpoint, and nothing else |
| `Session.AfterRecording` | soundclient/main.py:184-200 | after a recording: a zero rate, missing credentials and a failing speech client abort with no recognition call; otherwise the backend the duration selects is called and recorded once, its failure is fatal, and its transcript goes to `ReportAndPublish` |
| `Session.RunOnce` | soundclient/main.py:170-200 | the whole run for every case: listing devices attempts no stream; recording, rate, credential and client failures end the run before recognition; otherwise the backend the duration selects is called once, its failure is fatal, and its transcript is reported and published as `ReportAndPublish` says; no POST carries a blank message |

## Left out

- Audio capture: `sounddevice.RawInputStream`, the blocking `input()` and the callback thread are foreign I/O. The model takes the delivered blocks as given and leaves out the order in which the callback runs against the main thread.
- Other exceptions inside the stream block: lines 79-83 turn any exception except Ctrl-C into the "Mic open failed" exit. The model names two sources of it: the stream failing to open (`OpenFailed`) and end of input at `input()` (`InputClosed`). Any other exception maps to the same `MicOpenFailed` outcome.
- Stream status printing in the callback (lines 58-60) is console output and does not affect the buffer.
- Cloud recognition: the speech client, `RecognitionConfig` (language, LINEAR16, punctuation) and `op.result(timeout=300)` are a remote service. The model takes the response as a function of the backend. `LongRunningTimeoutSeconds` only records the 300 s bound.
- HTTP: `requests.post` and its 15 s timeout are network I/O. The transport is a parameter. The rule that `raise_for_status()` rejects statuses 400-599 is the requests library's behaviour, not part of this file.
- Device enumeration internals: an exception raised by PyAudio part-way through the loop, after some lines were printed, is not modelled. PyAudio is taken to either yield all of its records or none.
- Device listing lines: the printed name, channel count and `int(defaultSampleRate)` are console output. The listing returns indices only.
- Configuration, console output and exits: argparse, `os.getenv`, the `.env` load, the printed lines and `sys.exit(1)` are not modelled. Fatal exits are the `Fatal` outcomes.
- Transcription.DurationSeconds: the source divides in floating point, and the model divides exactly over the reals. They agree for every buffer size that fits in memory, but rounding of doubles is not modelled.
- Transcription.Transcribe: importing the speech library (line 101) or creating its client (line 103) can raise and end the process; both are the one `SpeechClientFailed` outcome. The model does not tell them apart and does not model the traceback. Building the audio and configuration objects (lines 105-113) is taken never to fail.
- Session.RunOnce: a zero `--rate` makes line 184 raise `ZeroDivisionError` after the recording. The model ends the run there as `Aborted(ZeroRate)` and does not model the traceback.
