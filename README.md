# Video compressor: a Dafny model of its decision logic

The video compressor is a command-line wrapper around ffmpeg and ffprobe.
It squeezes a video into a size budget (`--max_size_mb`). It asks ffprobe
for the stream's duration, width, height and bit depth. It turns the
budget and the duration into a target bitrate in kbit/s. It builds an
ffmpeg command line with that bitrate. It asks before overwriting an
existing output file, then polls the growing output file to draw a
progress bar.

This project models the parts of `main.py` that decide something:

- **Probe parsing** (`Probe`, `ProbeReport`, `ProbeSamples`). The four
  `re.search` calls of `get_video_info` are modelled character by
  character. A search takes the leftmost `key=` that is followed by a value
  character. It captures the longest run of such characters: `\d` for
  width, height and bit depth, `[\d\.]` for duration. Then comes Python's
  `float()`/`int()` on the captured run, and the bit-depth default of 8.
  `ProbeReport` proves what the search returns on a well-formed
  `label=value` report: the value run of the first line whose label ENDS
  with the key and whose value starts with a value character. So a
  `duration=N/A` line is skipped, and a `coded_width=` line would serve
  `width`.
- **Bitrate** (`Bitrate`). `calculate_bitrate` is modelled over exact
  reals, including its detour through bits per pixel. Whenever it is
  defined, the pixel count cancels and the result is
  `max_size_mb * 8192 / duration`.
- **Command** (`Command`). The f-string
  `ffmpeg -i <input> -b:v <rate>k -bufsize <rate>k -threads <n> <extra> <output>`
  is modelled as concatenation. The same rate text fills both slots.
- **Overwrite prompt** (`Overwrite`). The job goes on only when the reply
  lower-cases to exactly `y`.
- **The job** (`Compressor`). This module covers the constructor's thread
  fallback (`cpu_limit if cpu_limit else os.cpu_count()`). It also covers
  the order of steps in `compress_video` and `start_compression` up to the
  launch of ffmpeg: prompt, delete the old output, encoder check, probe,
  rate, command.

The outside world comes in as parameters:

- whether the output file exists;
- the user's reply;
- whether `ffmpeg -version` succeeds;
- ffprobe's standard output, or `None` when ffprobe exits non-zero;
- the CPU count;
- the function that renders a float as text (Python's float `repr`).

Three behaviours of `main.py` that the model keeps:

- Width and height have no default. A report without them makes
  `get_video_info` fail (`.group` on `None`).
- No check rejects a non-positive duration or budget up front. A duration
  of 0, or a width or height of 0, fails as a division by zero in
  `calculate_bitrate`. A zero or negative budget gives a zero or negative
  rate.
- A confirmed overwrite deletes the old output before the ffmpeg check. So
  the old file is lost even when ffmpeg is missing
  (`Compressor.OverwriteDeletesBeforeEncoderCheck`).

## Model

| member | source | states |
|---|---|---|
| `Text.NatToText` | main.py:115 | the decimal text of a natural number is a non-empty digit string without a leading zero that reads back (`DigitsValue`) as the number |
| `Text.IntToText` | main.py:115 | `str()` of an int: a leading minus exactly for negatives, followed by digits without a leading zero that read back as the absolute value |
| `Text.ReadIntToText` | main.py:115 | the decimal text of every int reads back as that int |
| `Text.DigitsValue` | main.py:85-86 | `int()` of a run of n digits is a natural number below 10^n |
| `Probe.FindFrom` | main.py:79-82 | the scan of `re.search`: the result is a match position, and no position between the start and the result (or the end) matches |
| `Probe.Search` | main.py:79-82 | a search succeeds exactly when the text has a match, and then returns the leftmost one |
| `Probe.RunFrom` | main.py:79-82 | the greedy capture: every character of the run is in the value class, and the character after it is not (or the text ends) |
| `Probe.Lookup` | main.py:79-88 | a field lookup succeeds exactly when `key=` followed by a value character occurs, and then yields a non-empty run of value characters |
| `Probe.LookupIsLeftmostGreedy` | main.py:79-88 | given the leftmost match, the lookup returns v exactly when v is the maximal value run right after `key=`; occurrences of `key=` without a value character are skipped |
| `Probe.ParseDecimal` | main.py:84 | `float()` of a digits-and-dots run yields a non-negative number when it succeeds |
| `Probe.ParseDecimalAccepts` | main.py:84 | `float()` accepts a digits-and-dots run exactly when it has at most one dot and at least one digit (so a lone `.` or `1.2.3` fails) |
| `Probe.ParseDecimalOfDigits` | main.py:84 | a plain digit run reads as the integer it denotes |
| `Probe.ParseDecimalOfParts` | main.py:84 | `w.f` reads as w + f / 10^len(f), which lies in [w, w + 1) |
| `Probe.Assemble` | main.py:84-91 | succeeds exactly when duration was found and parses and width and height were found; then the fields are the parsed values and the bit depth is the found value or 8 |
| `Probe.ParseProbe` | main.py:72-91 | success implies matches for duration, width and height; the duration is non-negative; with no bit-depth match the bit depth is 8 |
| `Probe.ParseProbeErrors` | main.py:84-86 | no duration match fails on the duration; a duration run fails `float()` exactly when it has two dots or is a lone dot; a missing width or height fails |
| `ProbeReport.FirstValue` | main.py:79-82 | the line-level reading yields a non-empty value run, and yields nothing exactly when no line selects the key |
| `ProbeReport.MatchInLine` | main.py:79-82 | on a line of plain text, `key=<value char>` matches only at the line's own `=` and only when the label ends with the key and the value starts with a value character |
| `ProbeReport.LookupSkip` | main.py:79-82 | when no match starts in a prefix, the lookup reads past it unchanged |
| `ProbeReport.LookupReport` | main.py:79-88 | on a well-formed report the character-level lookup equals the line-level reading `FirstValue` |
| `ProbeReport.ParseReport` | main.py:79-91 | on a well-formed report `get_video_info` reads each field from the first line that selects it |
| `ProbeReport.MissingDurationReport` | main.py:84 | a well-formed report with no line that selects `duration` fails with no duration match |
| `ProbeSamples.SampleReportParses` | main.py:84-89 | a report with width 1920, height 1080 and duration 120.5, and no bit-depth line, reads as (120.5, 1920, 1080, 8) |
| `ProbeSamples.DurationNotAvailable` | main.py:84 | a report whose duration is `N/A` fails with no duration match |
| `ProbeSamples.BadDurations` | main.py:84 | `float()` rejects `.` and `1.2.3` |
| `Bitrate.CalculateBitrate` | main.py:93-101 | fails exactly when duration or pixel count is zero; otherwise the pixel count cancels and the rate is max_size_mb * 8192 / duration, the bit depth being unused |
| `Bitrate.BitrateFillsBudget` | main.py:97-100 | the rate in kbit/s, times 1024, times the duration, is exactly the budget in bits |
| `Bitrate.BitrateIgnoresPictureSize` | main.py:98-100 | any two non-zero pixel counts and any two bit depths give the same rate |
| `Bitrate.BitrateDecreasesWithDuration` | main.py:93-101 | for a positive budget a longer duration gives a strictly lower rate |
| `Bitrate.BitrateIncreasesWithBudget` | main.py:93-101 | for a positive duration a larger budget gives a strictly higher rate |
| `Bitrate.TenMegabytesOverAMinute` | main.py:93-101 | 10 MB over 60 s gives 4096/3 kbit/s (about 1365.33) |
| `Command.OptionalIntText` | main.py:115 | the thread count renders as `None` exactly when it is unknown; otherwise its text reads back as the count |
| `Command.EncoderCommand` | main.py:115 | the command starts with `ffmpeg -i ` and the input, ends with a space and the output, and carries the same rate text at the `-b:v` slot and again at the `-bufsize` slot |
| `Command.CommandDeterminesRate` | main.py:115 | with the other fields fixed, equal commands have equal rate texts |
| `Overwrite.ConfirmsExactly` | main.py:140 | `reply.lower() == 'y'` holds exactly for the replies `y` and `Y` |
| `Overwrite.Decide` | main.py:138-146 | cancels exactly when the output exists and the reply is neither `y` nor `Y`; otherwise deletes the old output exactly when it exists |
| `Compressor.NewCompressor` | main.py:24-35 | a thread cap of None or 0 falls back to the CPU count, any other cap is kept; the other settings are stored as given |
| `Compressor.LaunchFor` | main.py:111-115 | starts exactly when duration, width and height are non-zero, with rate max_size_mb * 8192 / duration and the command built from that rate's text |
| `Compressor.StartCompression` | main.py:103-116 | a missing encoder stops the job first, a failing probe tool next, then an unparsable report with its own error; the job starts exactly when the encoder is there, the report parses and duration, width and height are non-zero, and then runs at max_size_mb * 8192 / duration kbit/s with the command built from that rate's text |
| `Compressor.CompressVideo` | main.py:132-146 | cancels, with nothing deleted or launched, exactly when the output exists and the reply is neither `y` nor `Y`; otherwise deletes an existing output and starts |
| `Compressor.OverwriteDeletesBeforeEncoderCheck` | main.py:138-146 | a confirmed overwrite deletes the old output even when the encoder is missing |
| `Compressor.CommandIgnoresPictureSize` | main.py:111-115 | two inputs with equal durations get the same encoder command |
| `Compressor.DegenerateInputsStopAtBitrate` | main.py:98-99 | a zero duration, width or height stops the job with a division by zero before any launch |
| `Compressor.SampleJob` | main.py:111-115 | the sample stream with a 10 MB budget is started at 81920 / 120.5 kbit/s |

## Left out

- Running ffprobe and ffmpeg (main.py:67, 77, 116): their outcomes are parameters. The bytes ffprobe prints are taken as already-decoded text; a UTF-8 decoding failure is not modelled.
- The output-draining thread `log_output` and the progress loop with its 0.25 s sleep (main.py:119-130, 148-154): concurrency and terminal output. The loop can read `output_file_size_mb` before assigning it, and its final update counts the size twice. The progress value is not clamped to the budget.
- File-system effects and timing (main.py:38, 138, 144, 150-151, 157-160). Deleting the old output is recorded as a flag in the outcome. `start` is bound only in the overwrite branch, so the completion message at line 157 raises when the output did not exist before. Removing the original after encoding is not modelled.
- Logging set-up, the `TqdmToLogger` handler and the log text (main.py:12-18, 40-60, 117). The log line calls the kbit/s value "Mbps".
- Argument parsing and the KeyboardInterrupt handler (main.py:163-180).
- Bitrate.CalculateBitrate: exact real arithmetic; IEEE-754 rounding of the float divisions is not modelled, and neither is overflow of `duration * resolution`.
- Probe.ParseDecimal: exact decimal value; the rounding of `float()` to the nearest double is not modelled. Only runs of ASCII digits and dots are in its domain, since the regular expression captures nothing else.
- Probe.Assemble: `int()` is taken without a length limit. Python 3.11 and later (and the 3.7-3.10 security releases) raise ValueError on a digit run longer than 4300 digits (`sys.get_int_max_str_digits()`), so a width, height or bit depth that long fails at main.py:85, 86 or 89 where the model succeeds. The limit is a setting of the interpreter, not of `main.py`.
- Probe.InClass: `\d` is taken as the ASCII digits 0-9. Python also matches other Unicode decimal digits, which `int()` accepts too.
- Overwrite.LowerChar: only ASCII letters are lower-cased. Python's `str.lower` also maps other letters, but no other single character lowers to `y`.
- Command.EncoderCommand: the float's text (`{bitrate}`) is an abstract function parameter. How a shell splits and quotes the `shell=True` string is not modelled.
- `additional_ffmpeg_args` is taken as a string. The constructor also accepts `None`, which the f-string would render as `None`.
