/**
 * `VideoCompressor`: its settings, and what `compress_video` and
 * `start_compression` decide before the encoder runs. The file system, the
 * prompt, the probe tool and the encoder check are replaced by their
 * answers, passed in as parameters; rendering a float as text is a
 * function parameter too.
 */
module Compressor {
  import opened Wrappers
  import opened Probe
  import opened Bitrate
  import opened Command
  import opened Overwrite
  import opened ProbeReport
  import opened ProbeSamples

  /** The fields of a `VideoCompressor` that the modelled logic reads. */
  datatype Settings = Settings(
    inputFile: string,
    outputFile: string,
    maxSizeMb: int,
    extraArgs: string,
    threads: Option<int>,
    removeOriginal: bool)

  /**
   * The constructor, without the log set-up: a thread cap of None or 0 is
   * falsy and falls back to the CPU count (itself None when unknown).
   */
  function NewCompressor(inputFile: string, outputFile: string, maxSizeMb: int, extraArgs: string,
                         cpuLimit: Option<int>, removeOriginal: bool, cpuCount: Option<nat>): (c: Settings)
    ensures cpuLimit.Some? && cpuLimit.value != 0 ==> c.threads == cpuLimit
    ensures cpuLimit == None || cpuLimit == Some(0) ==>
      c.threads == (if cpuCount.Some? then Some(cpuCount.value as int) else None)
    ensures c.inputFile == inputFile && c.outputFile == outputFile && c.maxSizeMb == maxSizeMb
    ensures c.extraArgs == extraArgs && c.removeOriginal == removeOriginal
  {
    var threads :=
      if cpuLimit.Some? && cpuLimit.value != 0 then cpuLimit
      else if cpuCount.Some? then Some(cpuCount.value as int) else None;
    Settings(inputFile, outputFile, maxSizeMb, extraArgs, threads, removeOriginal)
  }

  /** How far `start_compression` gets. */
  datatype Launch =
    | EncoderMissing                 // `check_ffmpeg` failed: exit(1)
    | ProbeToolFailed                // the probe tool exited non-zero
    | ProbeFailed(probeError: ProbeError) // its output lacks a field, or the duration is no number
    | BitrateFailed(rateError: BitrateError)
    | Started(info: MediaInfo, bitrate: real, command: string)

  /** What `compress_video` does up to launching the encoder. */
  datatype Outcome = Cancelled | Proceeded(removedExisting: bool, launch: Launch)

  /** The rate and command step of `start_compression`, for probed media info. */
  function LaunchFor(c: Settings, info: MediaInfo, showFloat: real -> string): (l: Launch)
    ensures l.Started? <==> info.duration != 0.0 && info.width > 0 && info.height > 0
    ensures l.BitrateFailed? <==> !l.Started?
    ensures l.Started? ==>
      && l.info == info
      && l.bitrate == c.maxSizeMb as real * 8192.0 / info.duration
      && l.command == EncoderCommand(c.inputFile, showFloat(l.bitrate), OptionalIntText(c.threads),
                                     c.extraArgs, c.outputFile)
  {
    var resolution := info.width * info.height;
    assert resolution == 0 <==> info.width == 0 || info.height == 0;
    match CalculateBitrate(c.maxSizeMb, info.duration, resolution, info.bitDepth)
    case Failure(e) => BitrateFailed(e)
    case Success(bitrate) =>
      Started(info, bitrate, EncoderCommand(c.inputFile, showFloat(bitrate), OptionalIntText(c.threads),
                                            c.extraArgs, c.outputFile))
  }

  /** `start_compression` up to the launch: the encoder check, the probe, the rate, the command. */
  function StartCompression(c: Settings, encoderAvailable: bool, probeOutput: Option<string>,
                            showFloat: real -> string): (l: Launch)
    ensures !encoderAvailable ==> l == EncoderMissing
    ensures encoderAvailable && probeOutput.None? ==> l == ProbeToolFailed
    ensures encoderAvailable && probeOutput.Some? && ParseProbe(probeOutput.value).Failure? ==>
      l == ProbeFailed(ParseProbe(probeOutput.value).error)
    ensures l.Started? <==>
      && encoderAvailable && probeOutput.Some? && ParseProbe(probeOutput.value).Success?
      && var info := ParseProbe(probeOutput.value).value;
         info.duration != 0.0 && info.width > 0 && info.height > 0
    ensures l.Started? ==>
      && l.info == ParseProbe(probeOutput.value).value
      && l.bitrate == c.maxSizeMb as real * 8192.0 / l.info.duration
      && l.command == EncoderCommand(c.inputFile, showFloat(l.bitrate), OptionalIntText(c.threads),
                                     c.extraArgs, c.outputFile)
  {
    if !encoderAvailable then EncoderMissing
    else if probeOutput.None? then ProbeToolFailed
    else
      match ParseProbe(probeOutput.value)
      case Failure(e) => ProbeFailed(e)
      case Success(info) => LaunchFor(c, info, showFloat)
  }

  /**
   * `compress_video` up to the launch: ask about an existing output, delete
   * it on a yes, then start.
   */
  function CompressVideo(c: Settings, outputExists: bool, reply: string, encoderAvailable: bool,
                         probeOutput: Option<string>, showFloat: real -> string): (o: Outcome)
    ensures o.Cancelled? <==> outputExists && reply != "y" && reply != "Y"
    ensures o.Proceeded? ==> o.removedExisting == outputExists
    ensures o.Proceeded? ==> o.launch == StartCompression(c, encoderAvailable, probeOutput, showFloat)
  {
    match Decide(outputExists, reply)
    case Cancel => Cancelled
    case Proceed(remove) => Proceeded(remove, StartCompression(c, encoderAvailable, probeOutput, showFloat))
  }

  /**
   * The existing output is deleted before the encoder check: a confirmed
   * overwrite loses the old file even when no encoder is installed.
   */
  lemma OverwriteDeletesBeforeEncoderCheck(c: Settings, reply: string, probeOutput: Option<string>,
                                           showFloat: real -> string)
    requires reply == "y" || reply == "Y"
    ensures CompressVideo(c, true, reply, false, probeOutput, showFloat) == Proceeded(true, EncoderMissing)
  {
  }

  /**
   * Two inputs with the same duration get the same encoder command, however
   * their picture sizes and bit depths differ.
   */
  lemma CommandIgnoresPictureSize(c: Settings, out1: string, out2: string, showFloat: real -> string)
    requires StartCompression(c, true, Some(out1), showFloat).Started?
    requires StartCompression(c, true, Some(out2), showFloat).Started?
    requires ParseProbe(out1).value.duration == ParseProbe(out2).value.duration
    ensures StartCompression(c, true, Some(out1), showFloat).command
         == StartCompression(c, true, Some(out2), showFloat).command
  {
  }

  /** A zero duration or an empty picture ends the job in the rate step, never at the encoder. */
  lemma DegenerateInputsStopAtBitrate(c: Settings, output: string, showFloat: real -> string)
    requires ParseProbe(output).Success?
    requires var info := ParseProbe(output).value; info.duration == 0.0 || info.width == 0 || info.height == 0
    ensures StartCompression(c, true, Some(output), showFloat) == BitrateFailed(ZeroDivision)
  {
  }

  /**
   * The sample stream (120.5 s, 1920x1080) with a 10 MB budget is encoded
   * at 81920 / 120.5 kbit/s, about 679.8 kbit/s.
   */
  lemma SampleJob(c: Settings, showFloat: real -> string)
    requires c.maxSizeMb == 10
    ensures StartCompression(c, true, Some(Report(Sample())), showFloat).Started?
    ensures StartCompression(c, true, Some(Report(Sample())), showFloat).bitrate == 81920.0 / 120.5
  {
    SampleReportParses();
  }
}
