/**
 * The windowed anomaly detector of the analysis stage, as functions over
 * values: validation of a raw row, the bounded FIFO window with one-at-a-time
 * eviction, the smoothed value and z-score of the newest point, and the
 * effect of a whole stream of rows on the window and on the emitted records.
 * The processor class in module Processor is proved against these functions.
 */
module Detector {
  import opened Wrappers
  import opened Statistics

  /** A raw row from the source; `value` is None when the key is absent or holds NaN. */
  datatype Row = Row(timestamp: string, value: Option<real>)

  /** A row that passed validation, as the window holds it. */
  datatype Reading = Reading(timestamp: string, value: real)

  /**
   * A z-score kept exact without a square root: Scaled(d, v) stands for
   * d / sqrt(v) with v > 0 the sample variance; Zero is the fallback 0.0.
   */
  datatype ZScore = Zero | Scaled(deviation: real, variance: real) {

    /** |z| > t, compared in squared form: z^2 == d^2 / v against t^2 when t >= 0. */
    predicate AbsExceeds(t: real)
    {
      match this
      case Zero => t < 0.0
      case Scaled(d, v) => t < 0.0 || (v > 0.0 && Square(d) / v > Square(t))
    }
  }

  /** What the statistics block computes for the newest point of the window. */
  datatype Detection = Detection(smoothedValue: real, zScore: ZScore, isAnomaly: bool)

  /** An emitted record: the raw fields of the newest point plus the three computed ones. */
  datatype Enriched = Enriched(
    timestamp: string,
    value: real,
    smoothedValue: real,
    zScore: ZScore,
    isAnomaly: bool)

  /** The point an emitted record was made from. */
  function SourceReading(e: Enriched): Reading
  {
    Reading(e.timestamp, e.value)
  }

  /** Validation: a row without a usable value is discarded. */
  function Validate(row: Row): Option<Reading>
  {
    match row.value
    case None => None
    case Some(v) => Some(Reading(row.timestamp, v))
  }

  /** The readings of a row sequence that pass validation, in arrival order. */
  function ValidReadings(rows: seq<Row>): (v: seq<Reading>)
    ensures |v| <= |rows|
  {
    if rows == [] then []
    else
      var prev := ValidReadings(rows[..|rows| - 1]);
      match Validate(rows[|rows| - 1])
      case None => prev
      case Some(r) => prev + [r]
  }

  /** Values of a window, oldest first. */
  function Values(window: seq<Reading>): (v: seq<real>)
    ensures |v| == |window|
    ensures forall i :: 0 <= i < |window| ==> v[i] == window[i].value
  {
    seq(|window|, i requires 0 <= i < |window| => window[i].value)
  }

  /**
   * The most entries the window can hold: the configured size, or none at
   * all when the size is zero or negative (every push is evicted at once).
   */
  function Capacity(w: int): nat
  {
    if w < 0 then 0 else w
  }

  /** The last `k` elements of `s` (all of `s` when it is shorter). */
  function LastN<T>(s: seq<T>, k: nat): (r: seq<T>)
    ensures |r| == if |s| <= k then |s| else k
    ensures r == s[|s| - |r|..]
  {
    if |s| <= k then s else s[|s| - k..]
  }

  /**
   * Appending to a window already cut to `k` and cutting again is the same
   * as cutting the longer history once.
   */
  lemma LastNSnoc<T>(s: seq<T>, x: T, k: nat)
    ensures LastN(LastN(s, k) + [x], k) == LastN(s + [x], k)
  {
    if |s| > k > 0 {
      var n := |s|;
      var tail := s[n - k + 1..];
      assert LastN(s, k) == s[n - k..];
      assert LastN(s, k) + [x] == [s[n - k]] + tail + [x];
      assert LastN(LastN(s, k) + [x], k) == tail + [x];
      assert s + [x] == s[..n - k + 1] + (tail + [x]);
      assert LastN(s + [x], k) == tail + [x];
    }
  }

  /**
   * Push: append the reading, then evict the oldest entry once if the
   * window has grown past its size. From a window within its capacity this
   * keeps exactly the most recent entries, so only the oldest is ever lost.
   */
  function Push(window: seq<Reading>, r: Reading, w: int): (b: seq<Reading>)
    ensures |window| <= Capacity(w) ==> b == LastN(window + [r], Capacity(w))
    ensures |window| <= Capacity(w) ==> |window| <= |b| + 1 && |b| <= |window| + 1
  {
    var grown := window + [r];
    if |grown| > w then grown[1..] else grown
  }

  /**
   * The statistics block for a window of 2 to `w` values: smooth with the
   * rolling mean of span `w`, take the newest smoothed value, and compare it
   * with the mean and sample standard deviation of all smoothed values.
   * The smoothed value is the mean of the whole window, and a zero standard
   * deviation yields z-score 0 and no anomaly; DetectZScore states the rest.
   */
  function Detect(values: seq<real>, w: int, t: real): (d: Detection)
    requires 2 <= |values| <= w
    ensures d.smoothedValue == Mean(values)
    ensures d.zScore.Zero? ==> !d.isAnomaly
  {
    var smoothed := RollingMean(values, w);
    var last := smoothed[|smoothed| - 1];
    assert values[..|values|] == values;
    var mean := Mean(smoothed);
    var variance := SampleVariance(smoothed);
    if variance > 0.0 then
      var z := Scaled(last - mean, variance);
      Detection(last, z, z.AbsExceeds(t))
    else
      Detection(last, Zero, false)
  }

  /**
   * The z-score of the newest point: zero exactly when the smoothed values
   * have zero variance; otherwise the deviation of the newest smoothed value
   * (the window mean) from the mean of the smoothed values, over their
   * sample standard deviation, and the point is an anomaly exactly when
   * that z-score exceeds the threshold in magnitude.
   */
  lemma DetectZScore(values: seq<real>, w: int, t: real)
    requires 2 <= |values| <= w
    ensures var d, smoothed := Detect(values, w, t), PrefixMeans(values);
      && (d.zScore.Zero? <==> SampleVariance(smoothed) == 0.0)
      && (d.zScore.Scaled? ==>
        && d.zScore.deviation == Mean(values) - Mean(smoothed)
        && d.zScore.variance == SampleVariance(smoothed) > 0.0
        && (d.isAnomaly <==> d.zScore.AbsExceeds(t)))
  {
    assert values[..|values|] == values;
  }

  /** The record emitted for a window: its newest row, enriched. */
  function Emission(window: seq<Reading>, w: int, t: real): (e: Enriched)
    requires 2 <= |window| <= w
    ensures SourceReading(e) == window[|window| - 1]
    ensures e.smoothedValue == Mean(Values(window))
  {
    var d := Detect(Values(window), w, t);
    var newest := window[|window| - 1];
    Enriched(newest.timestamp, newest.value, d.smoothedValue, d.zScore, d.isAnomaly)
  }

  /** The window after one row, and the record emitted for it if any. */
  datatype StepResult = StepResult(buffer: seq<Reading>, emitted: Option<Enriched>)

  /**
   * One message of the analysis loop. An invalid row changes nothing and
   * emits nothing; a valid row is pushed, and a record is emitted exactly
   * when the window then holds at least two entries. The record carries
   * the row's own fields.
   */
  function Step(window: seq<Reading>, row: Row, w: int, t: real): (s: StepResult)
    requires |window| <= Capacity(w)
    ensures |s.buffer| <= Capacity(w)
    ensures row.value.None? ==> s == StepResult(window, None)
    ensures row.value.Some? ==>
      s.buffer == LastN(window + [Reading(row.timestamp, row.value.value)], Capacity(w))
    ensures s.emitted.Some? <==> row.value.Some? && |s.buffer| >= 2
    ensures s.emitted.Some? ==>
      && s.emitted.value.timestamp == row.timestamp
      && Some(s.emitted.value.value) == row.value
      && s.emitted.value == Emission(s.buffer, w, t)
  {
    match Validate(row)
    case None => StepResult(window, None)
    case Some(r) =>
      var b := Push(window, r, w);
      if |b| >= 2 then StepResult(b, Some(Emission(b, w, t))) else StepResult(b, None)
  }

  /** The window after a run, and the records emitted during it, in order. */
  datatype RunResult = RunResult(buffer: seq<Reading>, outputs: seq<Enriched>)

  /** The analysis loop over a sequence of rows, one Step per row. */
  function Run(window: seq<Reading>, rows: seq<Row>, w: int, t: real): (r: RunResult)
    requires |window| <= Capacity(w)
    ensures |r.buffer| <= Capacity(w)
    ensures |r.outputs| <= |rows|
    decreases |rows|
  {
    if rows == [] then RunResult(window, [])
    else
      var prev := Run(window, rows[..|rows| - 1], w, t);
      var s := Step(prev.buffer, rows[|rows| - 1], w, t);
      match s.emitted
      case None => RunResult(s.buffer, prev.outputs)
      case Some(e) => RunResult(s.buffer, prev.outputs + [e])
  }

  /** Run over one more row is Run over the prefix followed by one Step. */
  lemma RunSnoc(window: seq<Reading>, rows: seq<Row>, row: Row, w: int, t: real)
    requires |window| <= Capacity(w)
    ensures var prev := Run(window, rows, w, t);
      var s := Step(prev.buffer, row, w, t);
      Run(window, rows + [row], w, t)
        == RunResult(s.buffer, prev.outputs + (if s.emitted.Some? then [s.emitted.value] else []))
  {
    assert (rows + [row])[..|rows|] == rows;
  }

  /** A non-empty sequence is its prefix followed by its last element. */
  lemma SplitLast<T>(s: seq<T>)
    requires |s| > 0
    ensures s == s[..|s| - 1] + [s[|s| - 1]]
  {
  }

  /** An element of a prefix is the element of the whole sequence at the same index. */
  lemma PrefixElement<T>(s: seq<T>, p: seq<T>, k: int)
    requires |p| <= |s| && s[..|p|] == p
    requires 0 <= k < |p|
    ensures s[k] == p[k]
  {
    assert s[..|p|][k] == s[k];
  }

  /** Appending one element after a concatenation. */
  lemma AppendAssoc<T>(a: seq<T>, b: seq<T>, x: T)
    ensures a + b + [x] == a + (b + [x])
  {
  }

  /** ValidReadings over one more row. */
  lemma ValidReadingsSnoc(rows: seq<Row>, row: Row)
    ensures ValidReadings(rows + [row])
      == ValidReadings(rows) + (if row.value.Some? then [Reading(row.timestamp, row.value.value)] else [])
  {
    assert (rows + [row])[..|rows|] == rows;
  }

  /**
   * FIFO window: after any run the window is exactly the most recent valid
   * readings, in arrival order, at most Capacity(w) of them.
   */
  lemma {:induction false} RunBuffer(window: seq<Reading>, rows: seq<Row>, w: int, t: real)
    requires |window| <= Capacity(w)
    ensures Run(window, rows, w, t).buffer == LastN(window + ValidReadings(rows), Capacity(w))
  {
    if rows == [] {
      assert window + [] == window;
    } else {
      var prefix, row := rows[..|rows| - 1], rows[|rows| - 1];
      SplitLast(rows);
      RunBuffer(window, prefix, w, t);
      RunSnoc(window, prefix, row, w, t);
      ValidReadingsSnoc(prefix, row);
      if row.value.Some? {
        var r := Reading(row.timestamp, row.value.value);
        LastNSnoc(window + ValidReadings(prefix), r, Capacity(w));
        AppendAssoc(window, ValidReadings(prefix), r);
      } else {
        assert ValidReadings(rows) == ValidReadings(prefix) + [];
      }
    }
  }

  /** How many of the valid readings are skipped before the first emission. */
  function Skip(window: seq<Reading>): nat
  {
    if window == [] then 1 else 0
  }

  /**
   * How many records a run emits: none when the window can hold fewer than
   * two entries; otherwise one per valid reading, except the very first one
   * when the run starts from an empty window.
   */
  function EmittedCount(window: seq<Reading>, valid: nat, w: int): nat
  {
    if Capacity(w) < 2 then 0
    else if valid < Skip(window) then 0
    else valid - Skip(window)
  }

  /** How many records a run emits, by the emission rule. */
  lemma {:induction false} RunCount(window: seq<Reading>, rows: seq<Row>, w: int, t: real)
    requires |window| <= Capacity(w)
    ensures |Run(window, rows, w, t).outputs| == EmittedCount(window, |ValidReadings(rows)|, w)
  {
    if rows != [] {
      var prefix, row := rows[..|rows| - 1], rows[|rows| - 1];
      SplitLast(rows);
      RunCount(window, prefix, w, t);
      RunSnoc(window, prefix, row, w, t);
      ValidReadingsSnoc(prefix, row);
      RunBuffer(window, prefix, w, t);
    }
  }

  /** The window just after valid reading j arrived, in a run that started from `window`. */
  function WindowAt(window: seq<Reading>, v: seq<Reading>, j: int, w: int): seq<Reading>
    requires 0 <= j < |v|
  {
    LastN(window + v[..j + 1], Capacity(w))
  }

  /**
   * Record k of a run was made from valid reading k + Skip(window), and the
   * window it was computed over held between 2 and w entries.
   */
  predicate EmittedFrom(window: seq<Reading>, v: seq<Reading>, out: seq<Enriched>, k: int, w: int)
  {
    var j := k + Skip(window);
    && 0 <= k < |out|
    && j < |v|
    && SourceReading(out[k]) == v[j]
    && 2 <= |WindowAt(window, v, j, w)| <= w
  }

  /** Record k of a run is the enrichment computed over that window. */
  predicate EmittedAs(window: seq<Reading>, v: seq<Reading>, out: seq<Enriched>, k: int, w: int, t: real)
    requires EmittedFrom(window, v, out, k, w)
  {
    out[k] == Emission(WindowAt(window, v, k + Skip(window), w), w, t)
  }

  /** The window after reading j does not depend on readings that came later. */
  lemma WindowAtExtend(window: seq<Reading>, pv: seq<Reading>, v: seq<Reading>, j: int, w: int)
    requires 0 <= j < |pv| <= |v|
    requires v[..|pv|] == pv
    ensures WindowAt(window, v, j, w) == WindowAt(window, pv, j, w)
  {
    assert v[..j + 1] == pv[..j + 1];
  }

  /** What is known of a record of a shorter run stays true once the run goes on. */
  lemma EmittedFromExtend(window: seq<Reading>, pv: seq<Reading>, v: seq<Reading>,
                          prevOut: seq<Enriched>, out: seq<Enriched>, k: int, w: int)
    requires EmittedFrom(window, pv, prevOut, k, w)
    requires |pv| <= |v| && v[..|pv|] == pv
    requires |prevOut| <= |out| && out[..|prevOut|] == prevOut
    ensures EmittedFrom(window, v, out, k, w)
  {
    var j := k + Skip(window);
    PrefixElement(out, prevOut, k);
    PrefixElement(v, pv, j);
    WindowAtExtend(window, pv, v, j, w);
  }

  /** The same, for the computed fields of the record. */
  lemma EmittedAsExtend(window: seq<Reading>, pv: seq<Reading>, v: seq<Reading>,
                        prevOut: seq<Enriched>, out: seq<Enriched>, k: int, w: int, t: real)
    requires EmittedFrom(window, pv, prevOut, k, w) && EmittedAs(window, pv, prevOut, k, w, t)
    requires EmittedFrom(window, v, out, k, w)
    requires |pv| <= |v| && v[..|pv|] == pv
    requires |prevOut| <= |out| && out[..|prevOut|] == prevOut
    ensures EmittedAs(window, v, out, k, w, t)
  {
    var j := k + Skip(window);
    assert out[k] == prevOut[k] by {
      PrefixElement(out, prevOut, k);
    }
    assert WindowAt(window, v, j, w) == WindowAt(window, pv, j, w) by {
      WindowAtExtend(window, pv, v, j, w);
    }
  }

  /** The window after pushing the newest reading, seen as WindowAt of the readings so far. */
  lemma PushedWindow(window: seq<Reading>, pv: seq<Reading>, r: Reading, w: int)
    ensures LastN(LastN(window + pv, Capacity(w)) + [r], Capacity(w)) == WindowAt(window, pv + [r], |pv|, w)
  {
    LastNSnoc(window + pv, r, Capacity(w));
    assert (pv + [r])[..|pv| + 1] == pv + [r];
    assert window + pv + [r] == window + (pv + [r]);
  }

  /** The record emitted for the newest reading is the one the emission rule names. */
  lemma EmittedNewest(window: seq<Reading>, pv: seq<Reading>, r: Reading,
                      prevOut: seq<Enriched>, out: seq<Enriched>, w: int, t: real)
    requires |prevOut| + Skip(window) == |pv|
    requires 2 <= |LastN(LastN(window + pv, Capacity(w)) + [r], Capacity(w))| <= w
    requires out == prevOut + [Emission(LastN(LastN(window + pv, Capacity(w)) + [r], Capacity(w)), w, t)]
    ensures EmittedFrom(window, pv + [r], out, |prevOut|, w)
    ensures EmittedAs(window, pv + [r], out, |prevOut|, w, t)
  {
    PushedWindow(window, pv, r, w);
  }

  /**
   * Emission rule for one record: record k of a run is the enrichment of
   * valid reading k + Skip(window) over the window as it stood just after
   * that reading arrived.
   */
  lemma {:induction false} RunOutputAt(window: seq<Reading>, rows: seq<Row>, w: int, t: real, k: int)
    requires |window| <= Capacity(w)
    requires 0 <= k < |Run(window, rows, w, t).outputs|
    ensures EmittedFrom(window, ValidReadings(rows), Run(window, rows, w, t).outputs, k, w)
    ensures EmittedAs(window, ValidReadings(rows), Run(window, rows, w, t).outputs, k, w, t)
  {
    assert |rows| > 0;
    var prefix, row := rows[..|rows| - 1], rows[|rows| - 1];
    SplitLast(rows);
    RunSnoc(window, prefix, row, w, t);
    ValidReadingsSnoc(prefix, row);
    var prev := Run(window, prefix, w, t);
    var out, v := Run(window, rows, w, t).outputs, ValidReadings(rows);
    var pv := ValidReadings(prefix);
    if k < |prev.outputs| {
      RunOutputAt(window, prefix, w, t, k);
      assert v[..|pv|] == pv;
      assert out[..|prev.outputs|] == prev.outputs;
      EmittedFromExtend(window, pv, v, prev.outputs, out, k, w);
      EmittedAsExtend(window, pv, v, prev.outputs, out, k, w, t);
    } else {
      var s := Step(prev.buffer, row, w, t);
      assert s.emitted.Some? && k == |prev.outputs|;
      RunCount(window, prefix, w, t);
      RunBuffer(window, prefix, w, t);
      var r := Reading(row.timestamp, row.value.value);
      assert v == pv + [r];
      assert |prev.outputs| + Skip(window) == |pv|;
      EmittedNewest(window, pv, r, prev.outputs, out, w, t);
    }
  }

  /**
   * Emission rule over a whole run: every record is the one RunOutputAt
   * names, so with RunCount the records come out in arrival order, one per
   * valid reading after the skipped one.
   */
  lemma RunOutputs(window: seq<Reading>, rows: seq<Row>, w: int, t: real)
    requires |window| <= Capacity(w)
    ensures forall k :: 0 <= k < |Run(window, rows, w, t).outputs| ==>
      && EmittedFrom(window, ValidReadings(rows), Run(window, rows, w, t).outputs, k, w)
      && EmittedAs(window, ValidReadings(rows), Run(window, rows, w, t).outputs, k, w, t)
  {
    forall k | 0 <= k < |Run(window, rows, w, t).outputs|
      ensures EmittedFrom(window, ValidReadings(rows), Run(window, rows, w, t).outputs, k, w)
      ensures EmittedAs(window, ValidReadings(rows), Run(window, rows, w, t).outputs, k, w, t)
    {
      RunOutputAt(window, rows, w, t, k);
    }
  }

  /**
   * One record of a run, spelled out: it carries the fields of valid reading
   * k + Skip(window), and it is the enrichment of the window as it stood
   * just after that reading arrived, so its smoothed value is that window's mean.
   */
  lemma RunRecord(window: seq<Reading>, rows: seq<Row>, w: int, t: real, k: int)
    requires |window| <= Capacity(w)
    requires 0 <= k < |Run(window, rows, w, t).outputs|
    ensures k + Skip(window) < |ValidReadings(rows)|
    ensures 2 <= |WindowAt(window, ValidReadings(rows), k + Skip(window), w)| <= w
    ensures SourceReading(Run(window, rows, w, t).outputs[k]) == ValidReadings(rows)[k + Skip(window)]
    ensures Run(window, rows, w, t).outputs[k]
      == Emission(WindowAt(window, ValidReadings(rows), k + Skip(window), w), w, t)
    ensures Run(window, rows, w, t).outputs[k].smoothedValue
      == Mean(Values(WindowAt(window, ValidReadings(rows), k + Skip(window), w)))
  {
    RunOutputAt(window, rows, w, t, k);
  }

  /**
   * Rows without a usable value leave no trace: two row streams with the
   * same valid readings give the same window and the same records.
   */
  lemma RunIgnoresInvalidRows(window: seq<Reading>, rows1: seq<Row>, rows2: seq<Row>, w: int, t: real)
    requires |window| <= Capacity(w)
    requires ValidReadings(rows1) == ValidReadings(rows2)
    ensures Run(window, rows1, w, t) == Run(window, rows2, w, t)
  {
    RunBuffer(window, rows1, w, t);
    RunBuffer(window, rows2, w, t);
    RunCount(window, rows1, w, t);
    RunCount(window, rows2, w, t);
    var out1, out2 := Run(window, rows1, w, t).outputs, Run(window, rows2, w, t).outputs;
    forall k | 0 <= k < |out1| ensures out1[k] == out2[k] {
      RunRecord(window, rows1, w, t, k);
      RunRecord(window, rows2, w, t, k);
    }
  }

  /** A run from an empty window over n valid readings emits max(0, n - 1) records when w >= 2, and none when w <= 1. */
  lemma FreshRunCount(rows: seq<Row>, w: int, t: real)
    ensures var n := |ValidReadings(rows)|;
      |Run([], rows, w, t).outputs| == if w < 2 || n == 0 then 0 else n - 1
  {
    RunCount([], rows, w, t);
  }

  /**
   * The squared form of the anomaly test is exactly |z| > t: for any real z
   * with the sign of the deviation and z^2 * v == deviation^2 (that is,
   * z == deviation / sqrt(v)), AbsExceeds(t) holds iff |z| > t.
   */
  lemma AbsExceedsMeansAbove(z: real, d: real, v: real, t: real)
    requires v > 0.0
    requires Square(z) * v == Square(d)
    ensures Scaled(d, v).AbsExceeds(t) <==> (if z < 0.0 then -z else z) > t
  {
    var a := if z < 0.0 then -z else z;
    assert Square(a) == Square(z) by {
      assert Square(a) == a * a;
      assert Square(z) == z * z;
    }
    assert Square(d) / v == Square(z);
    if t >= 0.0 {
      SquareStrictlyMonotone(a, t);
    }
  }

  /** For non-negative reals, a > b exactly when a^2 > b^2. */
  lemma SquareStrictlyMonotone(a: real, b: real)
    requires a >= 0.0 && b >= 0.0
    ensures a > b <==> Square(a) > Square(b)
  {
    assert Square(a) - Square(b) == Product(a - b, a + b) by {
      assert Square(a) == a * a;
      assert Square(b) == b * b;
      assert Product(a - b, a + b) == (a - b) * (a + b);
    }
    if a <= b && a + b > 0.0 {
      if a < b {
        assert Product(b - a, a + b) > 0.0;
        assert Product(b - a, a + b) == (b - a) * (a + b);
        assert Product(a - b, a + b) == -((b - a) * (a + b));
      }
    }
    if a + b == 0.0 {
      assert a == 0.0 && b == 0.0;
    }
  }

  /** The threshold is strict: a z-score whose magnitude equals the threshold is not flagged. */
  lemma ThresholdIsStrict(z: real, d: real, v: real, t: real)
    requires v > 0.0
    requires Square(z) * v == Square(d)
    requires (if z < 0.0 then -z else z) == t
    ensures !Scaled(d, v).AbsExceeds(t)
  {
    AbsExceedsMeansAbove(z, d, v, t);
  }

  /**
   * A window of n points can never put its newest smoothed value more than
   * (n - 1) / sqrt(n) standard deviations from the mean (Samuelson's
   * inequality), so a threshold t >= 0 with t^2 * n >= (n - 1)^2 never flags.
   */
  lemma DetectNeverFlagsBelowBound(values: seq<real>, w: int, t: real)
    requires 2 <= |values| <= w
    requires t >= 0.0
    requires Square(t) * (|values| as real) >= Square((|values| - 1) as real)
    ensures !Detect(values, w, t).isAnomaly
  {
    var smoothed := PrefixMeans(values);
    PrefixMeansLast(values);
    NewestWithinBound(smoothed, t);
    DetectZScore(values, w, t);
  }

  /**
   * Samuelson's bound on the z-score of the newest of n values: with
   * t >= 0 and t^2 * n >= (n - 1)^2 it never exceeds t in magnitude.
   */
  lemma NewestWithinBound(s: seq<real>, t: real)
    requires |s| >= 2
    requires t >= 0.0
    requires Square(t) * (|s| as real) >= Square((|s| - 1) as real)
    ensures !Scaled(s[|s| - 1] - Mean(s), SampleVariance(s)).AbsExceeds(t)
  {
    var n, nr := |s|, |s| as real;
    var m := Mean(s);
    LastDeviationBound(s);
    var ss := SumSquares(Deviations(s, m));
    assert ((n - 1) as real) == nr - 1.0;
    NoFlagArithmetic(Square(s[n - 1] - m), ss, Square(t), nr, SampleVariance(s));
  }

  /** The arithmetic behind DetectNeverFlagsBelowBound. */
  lemma NoFlagArithmetic(dd: real, ss: real, tt: real, n: real, v: real)
    requires n >= 2.0
    requires ss >= 0.0
    requires v == ss / (n - 1.0)
    requires n * dd <= (n - 1.0) * ss
    requires tt * n >= Square(n - 1.0)
    ensures v > 0.0 ==> !(dd / v > tt)
  {
    assert Square(n - 1.0) == (n - 1.0) * (n - 1.0);
    assert ss == v * (n - 1.0);
    // n * dd <= (n - 1)^2 * v <= tt * n * v
    assert n * dd <= (n - 1.0) * (n - 1.0) * v;
    assert v >= 0.0;
    assert (n - 1.0) * (n - 1.0) * v <= tt * n * v by {
      assert (tt * n - (n - 1.0) * (n - 1.0)) * v >= 0.0;
    }
    CancelPositiveFactor(dd, tt * v, n);
    if v > 0.0 {
      assert dd / v <= tt * v / v;
    }
  }

  /**
   * With a threshold t >= 0 such that t^2 * w >= (w - 1)^2, no record of any
   * run is ever flagged as an anomaly, whatever the data.
   */
  lemma {:induction false} RunNeverFlagsBelowBound(window: seq<Reading>, rows: seq<Row>, w: int, t: real)
    requires |window| <= Capacity(w)
    requires t >= 0.0
    requires Square(t) * (w as real) >= Square((w - 1) as real)
    ensures forall e :: e in Run(window, rows, w, t).outputs ==> !e.isAnomaly
  {
    if rows != [] {
      var prefix, row := rows[..|rows| - 1], rows[|rows| - 1];
      RunNeverFlagsBelowBound(window, prefix, w, t);
      var prev := Run(window, prefix, w, t);
      var s := Step(prev.buffer, row, w, t);
      if s.emitted.Some? {
        WindowNeverFlags(s.buffer, w, t);
      }
    }
  }

  /** The Samuelson bound for one emitted record, from the bound on the full span. */
  lemma WindowNeverFlags(window: seq<Reading>, w: int, t: real)
    requires 2 <= |window| <= w
    requires t >= 0.0
    requires Square(t) * (w as real) >= Square((w - 1) as real)
    ensures !Emission(window, w, t).isAnomaly
  {
    var vals := Values(window);
    SquareBoundMonotone(|vals|, w, t);
    DetectNeverFlagsBelowBound(vals, w, t);
  }

  /** A window of equal values yields z-score 0, no anomaly, and that value as the smoothed value. */
  lemma ConstantWindow(window: seq<Reading>, w: int, t: real, c: real)
    requires 2 <= |window| <= w
    requires forall i :: 0 <= i < |window| ==> window[i].value == c
    ensures var e := Emission(window, w, t);
      e.zScore == Zero && !e.isAnomaly && e.smoothedValue == c
  {
    var vals := Values(window);
    MeanOfConstant(vals, c);
    PrefixMeansOfConstant(vals, c);
    VarianceZeroIffConstant(PrefixMeans(vals));
    DetectZScore(vals, w, t);
  }

  /** The bound t^2 * n >= (n - 1)^2 carries over from the full span w to every n <= w. */
  lemma SquareBoundMonotone(n: int, w: int, t: real)
    requires 1 <= n <= w
    requires Square(t) * (w as real) >= Square((w - 1) as real)
    ensures Square(t) * (n as real) >= Square((n - 1) as real)
  {
    assert Square(t) == t * t;
    assert Square((w - 1) as real) == ((w - 1) as real) * ((w - 1) as real);
    assert Square((n - 1) as real) == ((n - 1) as real) * ((n - 1) as real);
    SamuelsonBoundMonotone(n, w, t);
  }

  /** If every valid row carries the value c, so does every valid reading. */
  lemma {:induction false} ValidReadingsConstant(rows: seq<Row>, c: real)
    requires forall row :: row in rows && row.value.Some? ==> row.value.value == c
    ensures forall i :: 0 <= i < |ValidReadings(rows)| ==> ValidReadings(rows)[i].value == c
  {
    if rows != [] {
      var prefix := rows[..|rows| - 1];
      assert forall row :: row in prefix ==> row in rows;
      ValidReadingsConstant(prefix, c);
    }
  }

  /**
   * Degenerate variance: if every valid row carries the same value c (and
   * the window starts empty or holds only c), every emitted record has
   * z-score 0, is not an anomaly, and has smoothed value c.
   */
  lemma ConstantStreamNeverFlags(window: seq<Reading>, rows: seq<Row>, w: int, t: real, c: real)
    requires |window| <= Capacity(w)
    requires forall i :: 0 <= i < |window| ==> window[i].value == c
    requires forall row :: row in rows && row.value.Some? ==> row.value.value == c
    ensures forall e :: e in Run(window, rows, w, t).outputs ==>
      e.zScore == Zero && !e.isAnomaly && e.smoothedValue == c
  {
    var out, v := Run(window, rows, w, t).outputs, ValidReadings(rows);
    RunOutputs(window, rows, w, t);
    ValidReadingsConstant(rows, c);
    forall k | 0 <= k < |out|
      ensures out[k].zScore == Zero && !out[k].isAnomaly && out[k].smoothedValue == c
    {
      ConstantRecord(window, v, out, k, w, t, c);
    }
  }

  /** If the starting window and the valid readings all carry c, so does every window of the run. */
  lemma WindowAtConstant(window: seq<Reading>, v: seq<Reading>, j: int, w: int, c: real)
    requires 0 <= j < |v|
    requires forall i :: 0 <= i < |window| ==> window[i].value == c
    requires forall i :: 0 <= i < |v| ==> v[i].value == c
    ensures forall i :: 0 <= i < |WindowAt(window, v, j, w)| ==> WindowAt(window, v, j, w)[i].value == c
  {
    var all := window + v[..j + 1];
    assert forall i :: 0 <= i < |all| ==> all[i].value == c;
    var win := WindowAt(window, v, j, w);
    assert win == all[|all| - |win|..];
    forall i | 0 <= i < |win| ensures win[i].value == c {
      assert win[i] == all[|all| - |win| + i];
    }
  }

  /** One record of a run over constant values. */
  lemma ConstantRecord(window: seq<Reading>, v: seq<Reading>, out: seq<Enriched>, k: int, w: int, t: real, c: real)
    requires EmittedFrom(window, v, out, k, w) && EmittedAs(window, v, out, k, w, t)
    requires forall i :: 0 <= i < |window| ==> window[i].value == c
    requires forall i :: 0 <= i < |v| ==> v[i].value == c
    ensures out[k].zScore == Zero && !out[k].isAnomaly && out[k].smoothedValue == c
  {
    var win := WindowAt(window, v, k + Skip(window), w);
    WindowAtConstant(window, v, k + Skip(window), w, c);
    ConstantWindow(win, w, t, c);
  }
}
