/**
 * The parsing half of `VideoCompressor.get_video_info`: the probe tool's
 * standard output is taken as a parameter, and the four regular-expression
 * searches `duration=([\d\.]+)`, `width=(\d+)`, `height=(\d+)` and
 * `bits_per_raw_sample=(\d+)`, together with the `float`/`int` conversions
 * and the bit-depth default that follow them, are modelled over exact
 * decimals and ASCII digits.
 */
module Probe {
  import opened Wrappers
  import opened Text

  /** The value pattern after `key=`: `\d` (width, height, bit depth) or `[\d\.]` (duration). */
  datatype CharClass = Digits | DigitsOrDots

  predicate InClass(cls: CharClass, c: char) {
    match cls
    case Digits => IsDigit(c)
    case DigitsOrDots => IsDigit(c) || c == '.'
  }

  /** The literal head of a field's pattern. */
  function Tag(key: string): string {
    key + "="
  }

  /** The pattern `<tag><cls>+` matches s at start position j (it needs one value character). */
  predicate MatchAt(s: string, tag: string, cls: CharClass, j: nat) {
    j + |tag| < |s| && s[j..j + |tag|] == tag && InClass(cls, s[j + |tag|])
  }

  predicate HasMatch(s: string, tag: string, cls: CharClass) {
    exists j: nat :: j < |s| && MatchAt(s, tag, cls, j)
  }

  /** j is where `re.search` reports its match: the leftmost start position that matches. */
  predicate IsFirstMatch(s: string, tag: string, cls: CharClass, j: nat) {
    MatchAt(s, tag, cls, j) && forall k: nat :: k < j ==> !MatchAt(s, tag, cls, k)
  }

  /** v is the greedy capture starting at a: a run of cls characters that cannot be extended. */
  predicate IsMaximalRun(s: string, cls: CharClass, a: nat, v: string) {
    && a + |v| <= |s|
    && s[a..a + |v|] == v
    && (forall k :: 0 <= k < |v| ==> InClass(cls, v[k]))
    && (a + |v| == |s| || !InClass(cls, s[a + |v|]))
  }

  /** The scan of `re.search`: the first start position at or after i where the pattern matches. */
  function FindFrom(s: string, tag: string, cls: CharClass, i: nat): (r: Option<nat>)
    requires i <= |s|
    decreases |s| - i
    ensures r.Some? ==> i <= r.value && MatchAt(s, tag, cls, r.value)
    ensures forall j: nat :: i <= j < (if r.Some? then r.value else |s|) ==> !MatchAt(s, tag, cls, j)
  {
    if i == |s| then None
    else if MatchAt(s, tag, cls, i) then Some(i)
    else FindFrom(s, tag, cls, i + 1)
  }

  function Search(s: string, tag: string, cls: CharClass): (r: Option<nat>)
    ensures r.Some? <==> HasMatch(s, tag, cls)
    ensures r.Some? ==> IsFirstMatch(s, tag, cls, r.value)
  {
    FindFrom(s, tag, cls, 0)
  }

  /** The length of the greedy run of cls characters starting at i. */
  function RunFrom(s: string, cls: CharClass, i: nat): (n: nat)
    requires i <= |s|
    decreases |s| - i
    ensures i + n <= |s|
    ensures forall k :: i <= k < i + n ==> InClass(cls, s[k])
    ensures i + n == |s| || !InClass(cls, s[i + n])
  {
    if i < |s| && InClass(cls, s[i]) then 1 + RunFrom(s, cls, i + 1) else 0
  }

  /** The text of the greedy run of cls characters starting at a: the capture group. */
  function Capture(s: string, cls: CharClass, a: nat): string
    requires a <= |s|
  {
    s[a..a + RunFrom(s, cls, a)]
  }

  /**
   * `re.search(key + "=(" + cls + "+)", s).group(1)`, or None where the
   * search returns None.
   */
  function Lookup(s: string, key: string, cls: CharClass): (r: Option<string>)
    ensures r.Some? <==> HasMatch(s, Tag(key), cls)
    ensures r.Some? ==> r.value != [] && forall k :: 0 <= k < |r.value| ==> InClass(cls, r.value[k])
  {
    match Search(s, Tag(key), cls)
    case None => None
    case Some(j) =>
      var a := j + |Tag(key)|;
      Some(Capture(s, cls, a))
  }

  /** Two greedy runs from the same place are the same run. */
  lemma MaximalRunUnique(s: string, cls: CharClass, a: nat, v: string, w: string)
    requires IsMaximalRun(s, cls, a, v) && IsMaximalRun(s, cls, a, w)
    ensures v == w
  {
    assert forall k :: a <= k < a + |v| ==> InClass(cls, s[k]) by {
      forall k | a <= k < a + |v| ensures InClass(cls, s[k]) { assert s[k] == v[k - a]; }
    }
    assert forall k :: a <= k < a + |w| ==> InClass(cls, s[k]) by {
      forall k | a <= k < a + |w| ensures InClass(cls, s[k]) { assert s[k] == w[k - a]; }
    }
    assert |v| == |w|;
  }

  /**
   * Lookup reads the text after the leftmost matching `key=`, and exactly
   * the maximal run of value characters there: occurrences of `key=` not
   * followed by a value character are skipped.
   */
  lemma LookupIsLeftmostGreedy(s: string, key: string, cls: CharClass, j: nat, v: string)
    requires IsFirstMatch(s, Tag(key), cls, j)
    ensures Lookup(s, key, cls) == Some(v) <==> IsMaximalRun(s, cls, j + |Tag(key)|, v)
  {
    SearchFindsFirst(s, Tag(key), cls, j);
    LookupCapturesRun(s, key, cls, j, j + |Tag(key)|);
    var u := Lookup(s, key, cls).value;
    if IsMaximalRun(s, cls, j + |Tag(key)|, v) {
      MaximalRunUnique(s, cls, j + |Tag(key)|, u, v);
    }
  }

  /** The search reports the leftmost match. */
  lemma SearchFindsFirst(s: string, tag: string, cls: CharClass, j: nat)
    requires IsFirstMatch(s, tag, cls, j)
    ensures Search(s, tag, cls) == Some(j)
  {
    var r := Search(s, tag, cls);
    assert r.Some? by { assert j < |s| && MatchAt(s, tag, cls, j); }
    assert MatchAt(s, tag, cls, r.value);
  }

  /** After a match at j, Lookup captures the run that starts right after `key=`. */
  lemma LookupAt(s: string, key: string, cls: CharClass, j: nat, a: nat)
    requires Search(s, Tag(key), cls) == Some(j) && a == j + |Tag(key)|
    ensures a < |s|
    ensures Lookup(s, key, cls) == Some(Capture(s, cls, a))
  {
    assert MatchAt(s, Tag(key), cls, j);
  }

  /** After a match at j, Lookup captures the maximal run that follows `key=`. */
  lemma LookupCapturesRun(s: string, key: string, cls: CharClass, j: nat, a: nat)
    requires Search(s, Tag(key), cls) == Some(j) && a == j + |Tag(key)|
    ensures Lookup(s, key, cls).Some?
    ensures IsMaximalRun(s, cls, a, Lookup(s, key, cls).value)
  {
    LookupAt(s, key, cls, j, a);
    CaptureIsMaximal(s, cls, a);
  }

  /** The capture is a maximal run. */
  lemma CaptureIsMaximal(s: string, cls: CharClass, a: nat)
    requires a <= |s|
    ensures IsMaximalRun(s, cls, a, Capture(s, cls, a))
  {
    var u := Capture(s, cls, a);
    assert forall k :: 0 <= k < |u| ==> InClass(cls, u[k]) by {
      forall k | 0 <= k < |u| ensures InClass(cls, u[k]) {
        assert u[k] == s[a + k];
      }
    }
  }

  // ----- Python's float() on a run of digits and dots -----

  predicate DecimalChars(t: string) {
    forall k :: 0 <= k < |t| ==> InClass(DigitsOrDots, t[k])
  }

  function CountDots(t: string): nat {
    if t == [] then 0 else (if t[0] == '.' then 1 else 0) + CountDots(t[1..])
  }

  predicate HasDigit(t: string) {
    exists k :: 0 <= k < |t| && IsDigit(t[k])
  }

  /** The position of the first '.', or |t| when there is none. */
  function DotIndex(t: string): (k: nat)
    ensures k <= |t|
    ensures k < |t| ==> t[k] == '.'
    ensures forall i :: 0 <= i < k ==> t[i] != '.'
  {
    if t == [] || t[0] == '.' then 0 else 1 + DotIndex(t[1..])
  }

  /**
   * `float(t)` for a text of digits and dots: an optional whole part, an
   * optional '.', an optional fraction, with at least one digit in all.
   * Values are exact; IEEE rounding is not modelled.
   */
  function ParseDecimal(t: string): (r: Option<real>)
    requires DecimalChars(t)
    ensures r.Some? ==> r.value >= 0.0
  {
    var k := DotIndex(t);
    var whole := t[..k];
    var frac := if k < |t| then t[k + 1..] else [];
    if !AllDigits(frac) || (whole == [] && frac == []) then None
    else Some(DigitsValue(whole) as real + DigitsValue(frac) as real / Pow10(|frac|) as real)
  }

  lemma {:induction false} CountDotsAppend(a: string, b: string)
    ensures CountDots(a + b) == CountDots(a) + CountDots(b)
  {
    if a != [] {
      assert (a + b)[0] == a[0];
      assert (a + b)[1..] == a[1..] + b;
      CountDotsAppend(a[1..], b);
    } else {
      assert a + b == b;
    }
  }

  lemma {:induction false} NoDotsCountZero(t: string)
    ensures CountDots(t) == 0 <==> forall k :: 0 <= k < |t| ==> t[k] != '.'
  {
    if t != [] {
      NoDotsCountZero(t[1..]);
      assert forall k :: 1 <= k < |t| ==> t[k] == t[1..][k - 1];
    }
  }

  /** Among digits and dots, "no dot" and "all digits" are the same. */
  lemma DigitsIffNoDots(x: string)
    requires DecimalChars(x)
    ensures AllDigits(x) <==> CountDots(x) == 0
    ensures AllDigits(x) ==> (HasDigit(x) <==> x != [])
  {
    NoDotsCountZero(x);
    if x != [] && AllDigits(x) {
      assert IsDigit(x[0]);
    }
  }

  /** The text before the first dot holds digits only. */
  lemma WholePartDigits(t: string)
    requires DecimalChars(t)
    ensures AllDigits(t[..DotIndex(t)])
  {
    var k := DotIndex(t);
    assert forall i :: 0 <= i < k ==> t[..k][i] == t[i];
  }

  lemma SplitAt(t: string, k: nat)
    requires k < |t|
    ensures t == t[..k] + ([t[k]] + t[k + 1..])
  {
  }

  lemma OneDot(c: char)
    requires c == '.'
    ensures CountDots([c]) == 1
  {
    assert [c][1..] == [];
  }

  /** A dot with no dot before it: it, plus the dots after it. */
  lemma CountAround(t: string, k: nat)
    requires k < |t| && t[k] == '.'
    requires forall i :: 0 <= i < k ==> t[i] != '.'
    ensures CountDots(t) == 1 + CountDots(t[k + 1..])
  {
    NoDotsCountZero(t[..k]);
    SplitAt(t, k);
    CountDotsAppend(t[..k], [t[k]] + t[k + 1..]);
    CountDotsAppend([t[k]], t[k + 1..]);
    OneDot(t[k]);
  }

  /** A digit of t lies before or after its first dot. */
  lemma DotSplitDigit(t: string)
    requires DecimalChars(t)
    requires DotIndex(t) < |t|
    ensures HasDigit(t) <==> t[..DotIndex(t)] != [] || HasDigit(t[DotIndex(t) + 1..])
  {
    var k := DotIndex(t);
    if HasDigit(t) {
      DigitBeforeOrAfter(t);
    }
    if k > 0 {
      assert IsDigit(t[0]);
    }
    if HasDigit(t[k + 1..]) {
      DigitAfterDot(t);
    }
  }

  lemma DigitBeforeOrAfter(t: string)
    requires DotIndex(t) < |t| && HasDigit(t)
    ensures DotIndex(t) > 0 || HasDigit(t[DotIndex(t) + 1..])
  {
    var k := DotIndex(t);
    var i :| 0 <= i < |t| && IsDigit(t[i]);
    assert t[k] == '.';
    assert i != k;
    if i > k {
      var frac := t[k + 1..];
      assert frac[i - k - 1] == t[i];
      assert IsDigit(frac[i - k - 1]);
    }
  }

  lemma DigitAfterDot(t: string)
    requires DotIndex(t) < |t| && HasDigit(t[DotIndex(t) + 1..])
    ensures HasDigit(t)
  {
    var k := DotIndex(t);
    var frac := t[k + 1..];
    var i :| 0 <= i < |frac| && IsDigit(frac[i]);
    assert t[k + 1 + i] == frac[i];
  }

  /** The case of ParseDecimalAccepts with a dot: the parts on both sides of the first dot decide. */
  lemma AcceptsWithDot(t: string)
    requires DecimalChars(t) && DotIndex(t) < |t|
    ensures ParseDecimal(t).Some? <==> CountDots(t) <= 1 && HasDigit(t)
  {
    var k := DotIndex(t);
    var whole, frac := t[..k], t[k + 1..];
    WholePartDigits(t);
    CountAround(t, k);
    assert DecimalChars(frac);
    DigitsIffNoDots(frac);
    DotSplitDigit(t);
    assert ParseDecimal(t).Some? <==> AllDigits(frac) && (whole != [] || frac != []);
    assert CountDots(t) <= 1 <==> AllDigits(frac);
  }

  /** The case of ParseDecimalAccepts without a dot: the whole run is the integer part. */
  lemma AcceptsWithoutDot(t: string)
    requires DecimalChars(t) && DotIndex(t) == |t|
    ensures ParseDecimal(t).Some? <==> CountDots(t) <= 1 && HasDigit(t)
  {
    WholePartDigits(t);
    assert t[..|t|] == t;
    DigitsIffNoDots(t);
  }

  /** `float` accepts a digits-and-dots run exactly when it has at most one dot and some digit. */
  lemma ParseDecimalAccepts(t: string)
    requires DecimalChars(t)
    ensures ParseDecimal(t).Some? <==> CountDots(t) <= 1 && HasDigit(t)
  {
    if DotIndex(t) < |t| {
      AcceptsWithDot(t);
    } else {
      AcceptsWithoutDot(t);
    }
  }

  /** A run with no digit and more than one character holds at least two dots. */
  lemma DotsOnly(t: string)
    requires DecimalChars(t) && !HasDigit(t) && |t| >= 2
    ensures CountDots(t) >= 2
  {
    assert t[0] == '.' && t[1] == '.';
    assert t == [t[0]] + ([t[1]] + t[2..]);
    CountDotsAppend([t[0]], [t[1]] + t[2..]);
    CountDotsAppend([t[1]], t[2..]);
  }

  lemma DotIndexOfDigits(w: string, rest: string)
    requires AllDigits(w)
    requires rest == [] || rest[0] == '.'
    ensures DotIndex(w + rest) == |w|
  {
    var t := w + rest;
    assert forall i :: 0 <= i < |w| ==> t[i] == w[i];
    if rest != [] {
      assert t[|w|] == '.';
    }
  }

  /** A plain digit string reads back as the integer it denotes. */
  lemma ParseDecimalOfDigits(w: string)
    requires w != [] && AllDigits(w)
    ensures DecimalChars(w)
    ensures ParseDecimal(w) == Some(DigitsValue(w) as real)
  {
    DotIndexOfDigits(w, []);
    assert w + [] == w;
    assert w[..|w|] == w;
  }

  /** A whole part plus a proper fraction lies in [x, x + 1). */
  lemma FractionBelowOne(v: real, x: real, y: real, p: real)
    requires 0.0 <= y < p
    requires v == x + y / p
    ensures x <= v < x + 1.0
  {
    assert y / p < 1.0;
  }

  lemma PartsChars(w: string, f: string)
    requires AllDigits(w) && AllDigits(f)
    ensures DecimalChars(w + "." + f)
  {
    var t := w + "." + f;
    forall i | 0 <= i < |t| ensures InClass(DigitsOrDots, t[i]) {
      if i < |w| {
        assert t[i] == w[i];
      } else if i > |w| {
        assert t[i] == f[i - |w| - 1];
      }
    }
  }

  /** ParseDecimal once the split at the first dot is known. */
  lemma ParseDecimalAt(t: string, w: string, f: string)
    requires DecimalChars(t)
    requires AllDigits(w) && AllDigits(f) && (w != [] || f != [])
    requires DotIndex(t) == |w| < |t| && t[..|w|] == w && t[|w| + 1..] == f
    ensures ParseDecimal(t).Some?
    ensures ParseDecimal(t).value == DigitsValue(w) as real + DigitsValue(f) as real / Pow10(|f|) as real
  {
  }

  /** The whole part and the fraction of t = `w.f` are w and f. */
  lemma SplitOfParts(w: string, f: string, t: string)
    requires AllDigits(w) && AllDigits(f) && (w != [] || f != [])
    requires t == w + "." + f
    ensures DecimalChars(t)
    ensures ParseDecimal(t).Some?
    ensures ParseDecimal(t).value ==
      DigitsValue(w) as real + DigitsValue(f) as real / Pow10(|f|) as real
  {
    PartsChars(w, f);
    assert t == w + ("." + f);
    DotIndexOfDigits(w, "." + f);
    assert t[..|w|] == w;
    assert t[|w| + 1..] == f;
    ParseDecimalAt(t, w, f);
  }

  /**
   * t = `w.f` reads back as w + f / 10^|f|, which lies in [w, w + 1): the
   * fraction never carries into the whole part.
   */
  lemma ParseDecimalOfParts(w: string, f: string, t: string)
    requires AllDigits(w) && AllDigits(f) && (w != [] || f != [])
    requires t == w + "." + f
    ensures DecimalChars(t)
    ensures ParseDecimal(t).Some?
    ensures ParseDecimal(t).value == DigitsValue(w) as real + DigitsValue(f) as real / Pow10(|f|) as real
    ensures DigitsValue(w) as real <= ParseDecimal(t).value < DigitsValue(w) as real + 1.0
  {
    SplitOfParts(w, f, t);
    FractionBelowOne(ParseDecimal(t).value, DigitsValue(w) as real, DigitsValue(f) as real, Pow10(|f|) as real);
  }

  // ----- get_video_info -----

  /** What `get_video_info` returns: (duration, width, height, bit_depth). */
  datatype MediaInfo = MediaInfo(duration: real, width: nat, height: nat, bitDepth: nat)

  /**
   * How `get_video_info` raises: `.group` on a search that found nothing
   * (for the named key), or `float()` of a run that is not a number.
   */
  datatype ProbeError = NoMatch(key: string) | NotAFloat(text: string)

  /** The bit depth assumed when the probe reports none. */
  const DefaultBitDepth: nat := 8

  /**
   * The statements after the searches: convert the duration, then width,
   * then height (the first failure wins), and default the bit depth.
   */
  function Assemble(duration: Option<string>, width: Option<string>, height: Option<string>,
                    bitDepth: Option<string>): (r: Result<MediaInfo, ProbeError>)
    requires duration.Some? ==> DecimalChars(duration.value)
    requires width.Some? ==> AllDigits(width.value)
    requires height.Some? ==> AllDigits(height.value)
    requires bitDepth.Some? ==> AllDigits(bitDepth.value)
    ensures r.Success? <==>
      duration.Some? && ParseDecimal(duration.value).Some? && width.Some? && height.Some?
    ensures r.Success? ==>
      && Some(r.value.duration) == ParseDecimal(duration.value)
      && r.value.width == DigitsValue(width.value)
      && r.value.height == DigitsValue(height.value)
      && r.value.bitDepth == (if bitDepth.Some? then DigitsValue(bitDepth.value) else DefaultBitDepth)
  {
    match duration
    case None => Failure(NoMatch("duration"))
    case Some(dt) =>
      match ParseDecimal(dt)
      case None => Failure(NotAFloat(dt))
      case Some(d) =>
        match width
        case None => Failure(NoMatch("width"))
        case Some(wt) =>
          match height
          case None => Failure(NoMatch("height"))
          case Some(ht) =>
            var b := if bitDepth.Some? then DigitsValue(bitDepth.value) else DefaultBitDepth;
            Success(MediaInfo(d, DigitsValue(wt), DigitsValue(ht), b))
  }

  /** `get_video_info` on the probe tool's output text. */
  function ParseProbe(output: string): (r: Result<MediaInfo, ProbeError>)
    ensures r.Success? ==>
      HasMatch(output, Tag("duration"), DigitsOrDots) &&
      HasMatch(output, Tag("width"), Digits) && HasMatch(output, Tag("height"), Digits)
    ensures r.Success? ==> r.value.duration >= 0.0
    ensures !HasMatch(output, Tag("bits_per_raw_sample"), Digits) && r.Success? ==>
      r.value.bitDepth == DefaultBitDepth
  {
    Assemble(Lookup(output, "duration", DigitsOrDots), Lookup(output, "width", Digits),
             Lookup(output, "height", Digits), Lookup(output, "bits_per_raw_sample", Digits))
  }

  /**
   * Which error `get_video_info` raises: no duration match first, then a
   * duration run that `float` rejects, then no width, then no height.
   */
  lemma ParseProbeErrors(output: string)
    ensures !HasMatch(output, Tag("duration"), DigitsOrDots) ==>
      ParseProbe(output) == Failure(NoMatch("duration"))
    ensures HasMatch(output, Tag("duration"), DigitsOrDots) ==>
      var dt := Lookup(output, "duration", DigitsOrDots).value;
      (ParseProbe(output) == Failure(NotAFloat(dt)) <==> CountDots(dt) > 1 || dt == ".")
    ensures HasMatch(output, Tag("duration"), DigitsOrDots) && !HasMatch(output, Tag("width"), Digits) ==>
      ParseProbe(output).Failure?
    ensures HasMatch(output, Tag("duration"), DigitsOrDots) && !HasMatch(output, Tag("height"), Digits) ==>
      ParseProbe(output).Failure?
  {
    var d := Lookup(output, "duration", DigitsOrDots);
    if d.Some? {
      ParseDecimalAccepts(d.value);
      if !HasDigit(d.value) && |d.value| >= 2 {
        DotsOnly(d.value);
      }
      if |d.value| == 1 && !HasDigit(d.value) {
        assert d.value == ".";
      }
    }
  }
}
