/**
 * `VideoCompressor.calculate_bitrate` and the resolution fed to it by
 * `start_compression`, over exact reals: Python's floating-point rounding
 * is not modelled.
 */
module Bitrate {
  import opened Wrappers

  /** `required_file_size_bits / total_pixels` raises ZeroDivisionError when total_pixels is 0. */
  datatype BitrateError = ZeroDivision

  /** The size budget in bits: megabytes of 1024 * 1024 bytes, 8 bits each. */
  function BudgetBits(maxSizeMb: int): int {
    maxSizeMb * 1024 * 1024 * 8
  }

  lemma CancelResolution(bits: real, duration: real, resolution: real)
    requires duration != 0.0 && resolution != 0.0
    ensures bits / (duration * resolution) * resolution / 1024.0 == bits / 1024.0 / duration
  {
    var x := bits / (duration * resolution);
    assert x * (duration * resolution) == bits;
    assert (x * resolution) * duration == bits;
  }

  /**
   * The target bitrate in kbit/s for a budget of maxSizeMb megabytes over
   * `duration` seconds. The pixel count cancels out of the formula and the
   * bit depth is never read: when the division is defined the result is
   * maxSizeMb * 8192 / duration.
   */
  function CalculateBitrate(maxSizeMb: int, duration: real, resolution: int, bitDepth: int): (r: Result<real, BitrateError>)
    ensures r.Failure? <==> duration == 0.0 || resolution == 0
    ensures r.Success? ==> r.value == maxSizeMb as real * 8192.0 / duration
  {
    var requiredFileSizeBits := BudgetBits(maxSizeMb);
    var totalPixels := duration * resolution as real;
    if totalPixels == 0.0 then Failure(ZeroDivision)
    else
      var bitsPerPixel := requiredFileSizeBits as real / totalPixels;
      CancelResolution(requiredFileSizeBits as real, duration, resolution as real);
      Success(bitsPerPixel * resolution as real / 1024.0)
  }

  /**
   * The budget round trip: a stream encoded at the computed rate for the
   * whole duration has exactly the budget's size, in bits.
   */
  lemma BitrateFillsBudget(maxSizeMb: int, duration: real, resolution: int, bitDepth: int)
    requires CalculateBitrate(maxSizeMb, duration, resolution, bitDepth).Success?
    ensures CalculateBitrate(maxSizeMb, duration, resolution, bitDepth).value * 1024.0 * duration
            == BudgetBits(maxSizeMb) as real
  {
    var r := CalculateBitrate(maxSizeMb, duration, resolution, bitDepth).value;
    var m := maxSizeMb as real;
    assert r * duration == m * 8192.0;
  }

  /** Two jobs with the same budget and duration get the same rate, whatever their pixel counts and bit depths. */
  lemma BitrateIgnoresPictureSize(maxSizeMb: int, duration: real, res1: int, res2: int, depth1: int, depth2: int)
    requires duration != 0.0 && res1 != 0 && res2 != 0
    ensures CalculateBitrate(maxSizeMb, duration, res1, depth1) == CalculateBitrate(maxSizeMb, duration, res2, depth2)
  {
  }

  /** For a positive budget, a longer video gets a strictly lower rate. */
  lemma BitrateDecreasesWithDuration(maxSizeMb: int, d1: real, d2: real, resolution: int, bitDepth: int)
    requires maxSizeMb > 0 && 0.0 < d1 < d2 && resolution != 0
    ensures CalculateBitrate(maxSizeMb, d2, resolution, bitDepth).value
          < CalculateBitrate(maxSizeMb, d1, resolution, bitDepth).value
  {
    var b := maxSizeMb as real * 8192.0;
    var q1, q2 := b / d1, b / d2;
    assert q2 * d2 == b && q1 * d1 == b;
    assert q2 > 0.0;
    assert q2 * d1 < q2 * d2;
    assert q2 * d1 < q1 * d1;
    assert q2 < q1;
  }

  /** For a positive duration, a larger budget gets a strictly higher rate. */
  lemma BitrateIncreasesWithBudget(m1: int, m2: int, duration: real, resolution: int, bitDepth: int)
    requires m1 < m2 && duration > 0.0 && resolution != 0
    ensures CalculateBitrate(m1, duration, resolution, bitDepth).value
          < CalculateBitrate(m2, duration, resolution, bitDepth).value
  {
    assert m1 as real * 8192.0 < m2 as real * 8192.0;
  }

  /** 10 MB over 60 seconds: 4096/3, about 1365.33 kbit/s. */
  lemma TenMegabytesOverAMinute(resolution: int, bitDepth: int)
    requires resolution != 0
    ensures CalculateBitrate(10, 60.0, resolution, bitDepth) == Success(4096.0 / 3.0)
  {
  }
}
