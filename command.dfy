/**
 * The encoder command line that `start_compression` hands to the shell.
 * Only the string is modelled; how a shell splits it into words is not.
 */
module Command {
  import opened Wrappers
  import opened Text

  /**
   * How an f-string renders an `Optional[int]`: `None`, or the number's
   * decimal text, which reads back as the number.
   */
  function OptionalIntText(t: Option<int>): (s: string)
    ensures t.None? <==> s == "None"
    ensures t.Some? ==> ReadIntText(s) == Some(t.value)
  {
    match t
    case None => "None"
    case Some(n) =>
      ReadIntToText(n);
      IntToText(n)
  }

  const Program: string := "ffmpeg -i "
  const RateFlag: string := " -b:v "
  const BufferFlag: string := "k -bufsize "
  const ThreadsFlag: string := "k -threads "

  /** The middle piece of a three-piece concatenation is found at the length of the first. */
  lemma PieceAt(a: string, b: string, c: string)
    ensures (a + b + c)[|a|..|a| + |b|] == b
    ensures (a + b + c)[..|a|] == a
    ensures c == [] ==> (a + b)[|a|..] == b
  {
  }

  /** Where the first rate slot starts. */
  function RateAt(input: string): nat {
    |Program| + |input| + |RateFlag|
  }

  /** The command line begins with the program and the input and ends with the output. */
  lemma FrameLayout(input: string, rate: string, threads: string, extra: string, output: string)
    ensures var cmd := Program + input + RateFlag + rate + BufferFlag + rate + ThreadsFlag + threads + " " + extra + " " + output;
      && |Program + input| <= |cmd| && cmd[..|Program + input|] == Program + input
      && |output| < |cmd| && cmd[|cmd| - |output| - 1..] == " " + output
  {
    var cmd := Program + input + RateFlag + rate + BufferFlag + rate + ThreadsFlag + threads + " " + extra + " " + output;
    var head := Program + input;
    var mid := RateFlag + rate + BufferFlag + rate + ThreadsFlag + threads + " " + extra;
    assert cmd == head + mid + (" " + output);
    PieceAt(head, mid, " " + output);
    PieceAt(head + mid, " " + output, []);
  }

  /** The rate text sits at the rate position and again right after the buffer-size flag. */
  lemma RateLayout(input: string, rate: string, threads: string, extra: string, output: string)
    ensures var cmd := Program + input + RateFlag + rate + BufferFlag + rate + ThreadsFlag + threads + " " + extra + " " + output;
      var a := RateAt(input);
      var b := a + |rate| + |BufferFlag|;
      && b + |rate| <= |cmd|
      && cmd[a..a + |rate|] == rate
      && cmd[b..b + |rate|] == rate
  {
    var cmd := Program + input + RateFlag + rate + BufferFlag + rate + ThreadsFlag + threads + " " + extra + " " + output;
    var p1 := Program + input + RateFlag;
    var p2 := p1 + rate + BufferFlag;
    var tail := ThreadsFlag + threads + " " + extra + " " + output;
    assert cmd == p1 + rate + BufferFlag + rate + tail;
    assert cmd == p2 + rate + tail;
    assert cmd == p1 + rate + (BufferFlag + rate + tail);
    PieceAt(p1, rate, BufferFlag + rate + tail);
    PieceAt(p2, rate, tail);
  }

  /**
   * `ffmpeg -i <input> -b:v <rate>k -bufsize <rate>k -threads <threads> <extra> <output>`,
   * where rate is the text of the bitrate. The command begins with the
   * program and the input, ends with the output, and the same rate text
   * can be read back at the rate position and again right after the
   * buffer-size flag.
   */
  function EncoderCommand(input: string, rate: string, threads: string, extra: string, output: string): (cmd: string)
    ensures |Program + input| <= |cmd| && cmd[..|Program + input|] == Program + input
    ensures |output| < |cmd| && cmd[|cmd| - |output| - 1..] == " " + output
    ensures var a := RateAt(input);
      var b := a + |rate| + |BufferFlag|;
      && b + |rate| <= |cmd|
      && cmd[a..a + |rate|] == rate
      && cmd[b..b + |rate|] == rate
  {
    FrameLayout(input, rate, threads, extra, output);
    RateLayout(input, rate, threads, extra, output);
    Program + input + RateFlag + rate + BufferFlag + rate + ThreadsFlag + threads + " " + extra + " " + output
  }

  /** With the other fields fixed, the command determines the rate text. */
  lemma CommandDeterminesRate(input: string, r1: string, r2: string, threads: string, extra: string, output: string)
    requires EncoderCommand(input, r1, threads, extra, output) == EncoderCommand(input, r2, threads, extra, output)
    ensures r1 == r2
  {
    var cmd := EncoderCommand(input, r1, threads, extra, output);
    assert |cmd| == |EncoderCommand(input, r2, threads, extra, output)|;
    assert |r1| == |r2|;
  }
}
