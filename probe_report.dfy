/**
 * What the field lookup of `get_video_info` reads from a well-formed probe
 * report. With `-of default=noprint_wrappers=1` the probe tool prints one
 * `name=value` line per reported field; this module relates the
 * character-level regular-expression search to a reading of those lines.
 */
module ProbeReport {
  import opened Wrappers
  import opened Probe

  datatype Entry = Entry(name: string, value: string)

  function Line(e: Entry): string {
    e.name + "=" + e.value + "\n"
  }

  function Report(es: seq<Entry>): string {
    if es == [] then [] else Line(es[0]) + Report(es[1..])
  }

  /** Text that can stand in a name or a value: no '=' and no line break. */
  predicate Plain(t: string) {
    forall i :: 0 <= i < |t| ==> t[i] != '=' && t[i] != '\n'
  }

  predicate WellFormed(es: seq<Entry>) {
    forall i :: 0 <= i < |es| ==> Plain(es[i].name) && Plain(es[i].value)
  }

  predicate EndsWith(t: string, suffix: string) {
    |suffix| <= |t| && t[|t| - |suffix|..] == suffix
  }

  /**
   * The pattern for key matches on e's line: the name ENDS with key (so a
   * `coded_width` line would serve `width`), and the value starts with a
   * value character (so `duration=N/A` is passed over).
   */
  predicate Selects(e: Entry, key: string, cls: CharClass) {
    EndsWith(e.name, key) && e.value != [] && InClass(cls, e.value[0])
  }

  /** The line-level reading: the leading run of value characters of the first selected line. */
  function FirstValue(es: seq<Entry>, key: string, cls: CharClass): (r: Option<string>)
    ensures r.Some? ==> r.value != [] && forall k :: 0 <= k < |r.value| ==> InClass(cls, r.value[k])
    ensures r.None? <==> forall i :: 0 <= i < |es| ==> !Selects(es[i], key, cls)
  {
    if es == [] then None
    else if Selects(es[0], key, cls) then
      var n := RunFrom(es[0].value, cls, 0);
      Some(es[0].value[..n])
    else
      var r := FirstValue(es[1..], key, cls);
      assert forall i :: 1 <= i < |es| ==> es[i] == es[1..][i - 1];
      r
  }

  // ----- character-level facts about one line -----

  /** Where each character of a line comes from. */
  lemma LineChars(e: Entry, rest: string)
    ensures var s, L, V := Line(e) + rest, |e.name|, |e.value|;
      && |Line(e)| == L + V + 2
      && (forall i :: 0 <= i < L ==> s[i] == e.name[i])
      && s[L] == '='
      && (forall i :: 0 <= i < V ==> s[L + 1 + i] == e.value[i])
      && s[L + 1 + V] == '\n'
  {
  }

  /**
   * On a line of plain text the pattern `key=<cls>` can only match where
   * the name's '=' is, and only when the line selects key.
   */
  lemma MatchInLine(e: Entry, rest: string, key: string, cls: CharClass, j: nat)
    requires Plain(e.name) && Plain(e.value) && Plain(key)
    requires j < |Line(e)|
    ensures MatchAt(Line(e) + rest, Tag(key), cls, j) <==> j + |key| == |e.name| && Selects(e, key, cls)
  {
    if MatchAt(Line(e) + rest, Tag(key), cls, j) {
      MatchOnlyAtEquals(e, rest, key, cls, j);
    }
    if j + |key| == |e.name| && Selects(e, key, cls) {
      MatchAtEquals(e, rest, key, cls, j);
    }
  }

  /** A match inside a line sits at the line's '=' and the line selects key. */
  lemma MatchOnlyAtEquals(e: Entry, rest: string, key: string, cls: CharClass, j: nat)
    requires Plain(e.name) && Plain(e.value) && Plain(key)
    requires j < |Line(e)| && MatchAt(Line(e) + rest, Tag(key), cls, j)
    ensures j + |key| == |e.name| && Selects(e, key, cls)
  {
    var s, L, V := Line(e) + rest, |e.name|, |e.value|;
    var tag := Tag(key);
    LineChars(e, rest);
    var m := j + |key|;
    assert s[j..j + |tag|] == tag;
    assert s[m] == '=' by {
      assert tag[|key|] == '=';
      assert s[m] == s[j..j + |tag|][|key|];
    }
    assert forall i :: j <= i < m ==> s[i] == key[i - j] by {
      forall i | j <= i < m ensures s[i] == key[i - j] {
        assert s[i] == s[j..j + |tag|][i - j];
      }
    }
    assert m <= L + 1 + V;
    assert m == L;
    assert e.name[j..] == key by {
      forall i | 0 <= i < |key| ensures e.name[j..][i] == key[i] {
        assert s[j + i] == key[i];
      }
    }
    assert V > 0;
  }

  /** A line that selects key matches at the start of the key's suffix of the name. */
  lemma MatchAtEquals(e: Entry, rest: string, key: string, cls: CharClass, j: nat)
    requires j + |key| == |e.name| && Selects(e, key, cls)
    ensures MatchAt(Line(e) + rest, Tag(key), cls, j)
  {
    var s, tag := Line(e) + rest, Tag(key);
    LineChars(e, rest);
    assert s[j..j + |tag|] == tag by {
      forall i | 0 <= i < |tag| ensures s[j..j + |tag|][i] == tag[i] {
        if i < |key| {
          assert e.name[j..][i] == key[i];
        }
      }
    }
    assert s[j + |tag|] == e.value[0];
  }

  /** Shifting a text behind a prefix shifts its matches. */
  lemma MatchShift(p: string, q: string, tag: string, cls: CharClass, j: nat)
    ensures MatchAt(p + q, tag, cls, |p| + j) <==> MatchAt(q, tag, cls, j)
  {
    var s := p + q;
    if j + |tag| < |q| {
      assert s[|p| + j..|p| + j + |tag|] == q[j..j + |tag|];
      assert s[|p| + j + |tag|] == q[j + |tag|];
    }
  }

  lemma MaximalRunShift(p: string, q: string, cls: CharClass, a: nat, v: string)
    requires IsMaximalRun(q, cls, a, v)
    ensures IsMaximalRun(p + q, cls, |p| + a, v)
  {
    var s := p + q;
    assert s[|p| + a..|p| + a + |v|] == q[a..a + |v|];
    if a + |v| < |q| {
      assert s[|p| + a + |v|] == q[a + |v|];
    }
  }

  /** When q has no match and none starts inside the prefix p, p + q has none. */
  lemma NoMatchSkip(p: string, q: string, tag: string, cls: CharClass)
    requires forall j: nat :: j < |p| ==> !MatchAt(p + q, tag, cls, j)
    requires !HasMatch(q, tag, cls)
    ensures !HasMatch(p + q, tag, cls)
  {
    forall j: nat | j < |p + q| ensures !MatchAt(p + q, tag, cls, j) {
      if j >= |p| {
        MatchShift(p, q, tag, cls, j - |p|);
      }
    }
  }

  /** A first match of q is a first match of p + q, shifted, when none starts inside p. */
  lemma FirstMatchSkip(p: string, q: string, tag: string, cls: CharClass, j: nat)
    requires forall k: nat :: k < |p| ==> !MatchAt(p + q, tag, cls, k)
    requires IsFirstMatch(q, tag, cls, j)
    ensures IsFirstMatch(p + q, tag, cls, |p| + j)
  {
    MatchShift(p, q, tag, cls, j);
    forall k: nat | k < |p| + j ensures !MatchAt(p + q, tag, cls, k) {
      if k >= |p| {
        MatchShift(p, q, tag, cls, k - |p|);
      }
    }
  }

  /** When no match starts inside the prefix p, Lookup reads p + q as it reads q. */
  lemma LookupSkip(p: string, q: string, key: string, cls: CharClass)
    requires forall j: nat :: j < |p| ==> !MatchAt(p + q, Tag(key), cls, j)
    ensures Lookup(p + q, key, cls) == Lookup(q, key, cls)
  {
    if HasMatch(q, Tag(key), cls) {
      var j := Search(q, Tag(key), cls).value;
      FirstMatchSkip(p, q, Tag(key), cls, j);
      SearchFindsFirst(p + q, Tag(key), cls, |p| + j);
      LookupSkipFound(p, q, key, cls, j);
    } else {
      NoMatchSkip(p, q, Tag(key), cls);
    }
  }

  /** The step of LookupSkip where the search finds q's first match at j, shifted by |p| in p + q. */
  lemma LookupSkipFound(p: string, q: string, key: string, cls: CharClass, j: nat)
    requires Search(q, Tag(key), cls) == Some(j)
    requires Search(p + q, Tag(key), cls) == Some(|p| + j)
    ensures Lookup(p + q, key, cls) == Lookup(q, key, cls)
  {
    var s := p + q;
    var a, b := j + |Tag(key)|, |p| + j + |Tag(key)|;
    LookupAt(q, key, cls, j, a);
    LookupAt(s, key, cls, |p| + j, b);
    CaptureShift(p, q, s, cls, a, b);
    SameCapture(Lookup(s, key, cls), Lookup(q, key, cls), Capture(s, cls, b), Capture(q, cls, a));
  }

  lemma SameCapture(x: Option<string>, y: Option<string>, u: string, w: string)
    requires x == Some(u) && y == Some(w) && u == w
    ensures x == y
  {
  }

  /** A capture behind a prefix is the capture without it. */
  lemma CaptureShift(p: string, q: string, s: string, cls: CharClass, a: nat, b: nat)
    requires s == p + q && a <= |q| && b == |p| + a
    ensures Capture(s, cls, b) == Capture(q, cls, a)
  {
    RunFromShift(p, q, cls, a);
    SliceShift(p, q, a, a + RunFrom(q, cls, a));
  }

  /** A run behind a prefix is as long as the run without it. */
  lemma {:induction false} RunFromShift(p: string, q: string, cls: CharClass, i: nat)
    requires i <= |q|
    decreases |q| - i
    ensures RunFrom(p + q, cls, |p| + i) == RunFrom(q, cls, i)
  {
    if i < |q| {
      assert (p + q)[|p| + i] == q[i];
      RunFromShift(p, q, cls, i + 1);
    }
  }

  lemma SliceShift(p: string, q: string, x: nat, y: nat)
    requires x <= y <= |q|
    ensures (p + q)[|p| + x..|p| + y] == q[x..y]
  {
  }

  /** On a line that selects key, the match is at the label's '=' and nowhere before. */
  lemma FirstMatchInLine(e: Entry, rest: string, key: string, cls: CharClass)
    requires Plain(e.name) && Plain(e.value) && Plain(key)
    requires Selects(e, key, cls)
    ensures IsFirstMatch(Line(e) + rest, Tag(key), cls, |e.name| - |key|)
  {
    var j := |e.name| - |key|;
    forall k: nat | k <= j ensures MatchAt(Line(e) + rest, Tag(key), cls, k) <==> k == j {
      MatchInLine(e, rest, key, cls, k);
    }
  }

  /** The leading run of a value is maximal in the text that follows the '=': a line break ends it. */
  lemma RunOfValue(e: Entry, rest: string, cls: CharClass)
    ensures IsMaximalRun(e.value + "\n" + rest, cls, 0, e.value[..RunFrom(e.value, cls, 0)])
  {
    var q := e.value + "\n" + rest;
    var n := RunFrom(e.value, cls, 0);
    assert q[..n] == e.value[..n];
    if n == |e.value| {
      assert q[n] == '\n';
    } else {
      assert q[n] == e.value[n];
    }
  }

  lemma LineSplit(e: Entry, rest: string)
    ensures Line(e) + rest == (e.name + "=") + (e.value + "\n" + rest)
  {
  }

  /** On a line that selects key, Lookup reads the leading run of the line's value. */
  lemma LookupSelectedLine(e: Entry, rest: string, key: string, cls: CharClass)
    requires Plain(e.name) && Plain(e.value) && Plain(key)
    requires Selects(e, key, cls)
    ensures Lookup(Line(e) + rest, key, cls) == Some(e.value[..RunFrom(e.value, cls, 0)])
  {
    var u := e.value[..RunFrom(e.value, cls, 0)];
    var head, q := e.name + "=", e.value + "\n" + rest;
    RunOfValue(e, rest, cls);
    MaximalRunShift(head, q, cls, 0, u);
    LineSplit(e, rest);
    ValueRunAfterMatch(e, rest, key, cls, u);
  }

  lemma ValueRunAfterMatch(e: Entry, rest: string, key: string, cls: CharClass, u: string)
    requires Plain(e.name) && Plain(e.value) && Plain(key)
    requires Selects(e, key, cls)
    requires IsMaximalRun(Line(e) + rest, cls, |e.name| + 1, u)
    ensures Lookup(Line(e) + rest, key, cls) == Some(u)
  {
    FirstMatchInLine(e, rest, key, cls);
    LookupIsLeftmostGreedy(Line(e) + rest, key, cls, |e.name| - |key|, u);
  }

  /**
   * On a well-formed report, the regular-expression lookup returns exactly
   * the line-level reading: the leading value run of the first line whose
   * name ends with key and whose value starts with a value character.
   */
  lemma {:induction false} LookupReport(es: seq<Entry>, key: string, cls: CharClass)
    requires WellFormed(es) && Plain(key)
    ensures Lookup(Report(es), key, cls) == FirstValue(es, key, cls)
  {
    if es == [] {
      assert !HasMatch(Report(es), Tag(key), cls);
    } else {
      var e, rest := es[0], Report(es[1..]);
      assert WellFormed(es[1..]) by {
        assert forall i :: 1 <= i < |es| ==> es[i] == es[1..][i - 1];
      }
      assert Plain(e.name) && Plain(e.value);
      if Selects(e, key, cls) {
        LookupSelectedLine(e, rest, key, cls);
      } else {
        forall j: nat | j < |Line(e)| ensures !MatchAt(Line(e) + rest, Tag(key), cls, j) {
          MatchInLine(e, rest, key, cls, j);
        }
        LookupSkip(Line(e), rest, key, cls);
        LookupReport(es[1..], key, cls);
      }
    }
  }

  /** `get_video_info` on a well-formed report reads each field from its first selecting line. */
  lemma ParseReport(es: seq<Entry>)
    requires WellFormed(es)
    ensures ParseProbe(Report(es)) ==
      Assemble(FirstValue(es, "duration", DigitsOrDots), FirstValue(es, "width", Digits),
               FirstValue(es, "height", Digits), FirstValue(es, "bits_per_raw_sample", Digits))
  {
    assert Plain("duration") && Plain("width") && Plain("height") && Plain("bits_per_raw_sample");
    LookupReport(es, "duration", DigitsOrDots);
    LookupReport(es, "width", Digits);
    LookupReport(es, "height", Digits);
    LookupReport(es, "bits_per_raw_sample", Digits);
  }

  /** A well-formed report with no line that selects `duration` fails on the duration. */
  lemma MissingDurationReport(es: seq<Entry>)
    requires WellFormed(es)
    requires forall i :: 0 <= i < |es| ==> !Selects(es[i], "duration", DigitsOrDots)
    ensures ParseProbe(Report(es)) == Failure(NoMatch("duration"))
  {
    ParseReport(es);
  }
}

/** Worked readings of sample probe reports. */
module ProbeSamples {
  import opened Wrappers
  import opened Text
  import opened Probe
  import opened ProbeReport

  /** A report for a 1920x1080 stream of 120.5 seconds that gives no bit depth. */
  function Sample(): seq<Entry> {
    [Entry("width", "1920"), Entry("height", "1080"), Entry("duration", "120.5")]
  }

  /** The same stream when the probe cannot tell the duration. */
  function SampleWithoutDuration(): seq<Entry> {
    [Entry("width", "1920"), Entry("height", "1080"), Entry("duration", "N/A")]
  }

  lemma SamplesWellFormed()
    ensures WellFormed(Sample()) && WellFormed(SampleWithoutDuration())
  {
    assert Plain("width") && Plain("height") && Plain("duration");
    assert Plain("1920") && Plain("1080") && Plain("120.5") && Plain("N/A");
  }

  lemma SampleWidth()
    ensures FirstValue(Sample(), "width", Digits) == Some("1920")
  {
    var v := "1920";
    assert Selects(Sample()[0], "width", Digits);
    assert RunFrom(v, Digits, 0) == 4;
    assert v[..4] == v;
  }

  lemma SampleHeight()
    ensures FirstValue(Sample(), "height", Digits) == Some("1080")
  {
    var v := "1080";
    assert !Selects(Sample()[0], "height", Digits);
    assert Selects(Sample()[1], "height", Digits);
    assert Sample()[1..][0] == Sample()[1];
    assert RunFrom(v, Digits, 0) == 4;
    assert v[..4] == v;
  }

  lemma SampleDuration()
    ensures FirstValue(Sample(), "duration", DigitsOrDots) == Some("120.5")
  {
    var v := "120.5";
    assert !Selects(Sample()[0], "duration", DigitsOrDots);
    assert !Selects(Sample()[1], "duration", DigitsOrDots);
    assert Selects(Sample()[2], "duration", DigitsOrDots);
    assert Sample()[1..][1..] == [Sample()[2]];
    assert RunFrom(v, DigitsOrDots, 0) == 5;
    assert v[..5] == v;
  }

  lemma SampleDecimal()
    ensures ParseDecimal("120.5") == Some(120.5)
  {
    ParseDecimalOfParts("120", "5", "120.5");
    assert DigitsValue("120") == 120;
    assert DigitsValue("5") == 5;
    assert Pow10(1) == 10;
  }

  lemma SampleIntegers()
    ensures DigitsValue("1920") == 1920 && DigitsValue("1080") == 1080
  {
    assert "1920"[..3] == "192" && "192"[..2] == "19" && "19"[..1] == "1";
    assert DigitsValue("19") == 19;
    assert "1080"[..3] == "108" && "108"[..2] == "10" && "10"[..1] == "1";
    assert DigitsValue("10") == 10;
  }

  lemma SampleAssembled()
    ensures Assemble(Some("120.5"), Some("1920"), Some("1080"), None) == Success(MediaInfo(120.5, 1920, 1080, 8))
  {
    SampleDecimal();
    SampleIntegers();
  }

  lemma SampleBitDepth()
    ensures FirstValue(Sample(), "bits_per_raw_sample", Digits) == None
  {
  }

  /** The sample reads as duration 120.5, 1920 by 1080, and the default bit depth 8. */
  lemma SampleReportParses()
    ensures ParseProbe(Report(Sample())) == Success(MediaInfo(120.5, 1920, 1080, 8))
  {
    SamplesWellFormed();
    ParseReport(Sample());
    SampleWidth();
    SampleHeight();
    SampleDuration();
    SampleBitDepth();
    SampleAssembled();
  }

  lemma NoDurationLine()
    ensures FirstValue(SampleWithoutDuration(), "duration", DigitsOrDots) == None
  {
    var es := SampleWithoutDuration();
    assert !Selects(es[0], "duration", DigitsOrDots);
    assert !Selects(es[1], "duration", DigitsOrDots);
    assert !Selects(es[2], "duration", DigitsOrDots);
  }

  /** `duration=N/A` is no match for `duration=([\d\.]+)`, so the probe step fails on the duration. */
  lemma DurationNotAvailable()
    ensures ParseProbe(Report(SampleWithoutDuration())) == Failure(NoMatch("duration"))
  {
    SamplesWellFormed();
    NoDurationLine();
    MissingDurationReport(SampleWithoutDuration());
  }

  /** `float` rejects a lone dot and a run with two dots. */
  lemma BadDurations()
    ensures ParseDecimal(".") == None
    ensures ParseDecimal("1.2.3") == None
  {
    ParseDecimalAccepts(".");
    ParseDecimalAccepts("1.2.3");
    assert !HasDigit(".");
    assert CountDots("1.2.3") == 2;
  }
}
