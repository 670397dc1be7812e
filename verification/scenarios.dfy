/**
 * Worked streams for the detector: a level run of readings followed by a
 * spike, analysed with a span of 3 and of 5, and a stream with a row that
 * has no value.
 */
module Scenarios {
  import opened Wrappers
  import opened Statistics
  import opened Detector

  /** Four readings of 10 followed by a spike to 100. */
  function SpikeRows(): seq<Row>
  {
    [Row("t1", Some(10.0)), Row("t2", Some(10.0)), Row("t3", Some(10.0)),
     Row("t4", Some(10.0)), Row("t5", Some(100.0))]
  }

  /** The readings of the spike rows. */
  function SpikeValid(): seq<Reading>
  {
    [Reading("t1", 10.0), Reading("t2", 10.0), Reading("t3", 10.0),
     Reading("t4", 10.0), Reading("t5", 100.0)]
  }

  /** Every spike row is valid. */
  lemma SpikeReadings()
    ensures ValidReadings(SpikeRows()) == SpikeValid()
  {
    var rows := SpikeRows();
    assert rows[..1][..0] == [];
    assert ValidReadings(rows[..1]) == [Reading("t1", 10.0)];
    assert rows[..2][..1] == rows[..1];
    assert ValidReadings(rows[..2]) == [Reading("t1", 10.0), Reading("t2", 10.0)];
    assert rows[..3][..2] == rows[..2];
    assert ValidReadings(rows[..3]) == [Reading("t1", 10.0), Reading("t2", 10.0), Reading("t3", 10.0)];
    assert rows[..4][..3] == rows[..3];
    assert rows[..4] == rows[..|rows| - 1];
  }

  /** The sum of three values, unfolded. */
  lemma SumOfThree(a: real, b: real, c: real)
    ensures Sum([a, b, c]) == a + b + c
  {
    assert [a, b, c][..2] == [a, b];
    assert [a, b][..1] == [a];
    assert [a][..0] == [];
    assert Sum([a]) == a;
    assert Sum([a, b]) == a + b;
  }

  /** A threshold of 1.5 clears Samuelson's bound for a span of 3: 1.5^2 * 3 >= 2^2. */
  lemma SpanThreeBound()
    ensures Square(1.5) * (3 as real) >= Square((3 - 1) as real)
  {
    assert Square(1.5) == 2.25;
    assert Square(2.0) == 4.0;
  }

  /**
   * With a span of 3 and threshold 1.5 the spike is not flagged: a window
   * of n <= 3 points bounds |z| by (n - 1) / sqrt(n) <= 2 / sqrt(3) < 1.5.
   * Every reading after the first emits a record.
   */
  lemma SpikeNotFlaggedWithSpanThree()
    ensures |Run([], SpikeRows(), 3, 1.5).outputs| == 4
    ensures forall e :: e in Run([], SpikeRows(), 3, 1.5).outputs ==> !e.isAnomaly
  {
    SpikeReadings();
    FreshRunCount(SpikeRows(), 3, 1.5);
    SpanThreeBound();
    RunNeverFlagsBelowBound([], SpikeRows(), 3, 1.5);
  }

  /** With a span of 3, the window after the spike holds the last three readings, whose mean is 40. */
  lemma SpikeWindowMean()
    ensures 0 < |WindowAt([], SpikeValid(), 4, 3)|
    ensures Mean(Values(WindowAt([], SpikeValid(), 4, 3))) == 40.0
  {
    var v := SpikeValid();
    assert [] + v[..5] == v;
    var win := WindowAt([], v, 4, 3);
    assert win == v[2..];
    assert Values(win) == [10.0, 10.0, 100.0];
    SumOfThree(10.0, 10.0, 100.0);
  }

  /** The record for the spike carries its own fields and the mean of the last three readings, 40. */
  lemma SpikeRecordWithSpanThree()
    ensures |Run([], SpikeRows(), 3, 1.5).outputs| == 4
    ensures var e := Run([], SpikeRows(), 3, 1.5).outputs[3];
      e.timestamp == "t5" && e.value == 100.0 && e.smoothedValue == 40.0
  {
    SpikeNotFlaggedWithSpanThree();
    SpikeReadings();
    RunRecord([], SpikeRows(), 3, 1.5, 3);
    SpikeWindowMean();
  }

  /** Sum over one more value. */
  lemma SumSnoc(s: seq<real>, x: real)
    ensures Sum(s + [x]) == Sum(s) + x
  {
    assert (s + [x])[..|s|] == s;
  }

  /** The smoothed values of the spike with a span of 5: the running means 10, 10, 10, 10, 28. */
  lemma SpikePrefixMeans()
    ensures PrefixMeans([10.0, 10.0, 10.0, 10.0, 100.0]) == [10.0, 10.0, 10.0, 10.0, 28.0]
  {
    var vals := [10.0, 10.0, 10.0, 10.0, 100.0];
    assert vals[..1] == [] + [10.0];
    assert vals[..2] == vals[..1] + [10.0];
    assert vals[..3] == vals[..2] + [10.0];
    assert vals[..4] == vals[..3] + [10.0];
    assert vals[..5] == vals[..4] + [100.0];
    SumSnoc([], 10.0);
    SumSnoc(vals[..1], 10.0);
    SumSnoc(vals[..2], 10.0);
    SumSnoc(vals[..3], 10.0);
    SumSnoc(vals[..4], 100.0);
  }

  /** The mean and the sample variance of those smoothed values: 13.6 and 64.8. */
  lemma SpikeSmoothedStatistics()
    ensures Mean([10.0, 10.0, 10.0, 10.0, 28.0]) == 13.6
    ensures SampleVariance([10.0, 10.0, 10.0, 10.0, 28.0]) == 64.8
  {
    var s := [10.0, 10.0, 10.0, 10.0, 28.0];
    SumSnoc([], 10.0);
    assert [] + [10.0] == [10.0];
    SumSnoc([10.0], 10.0);
    assert [10.0] + [10.0] == [10.0, 10.0];
    SumSnoc([10.0, 10.0], 10.0);
    assert [10.0, 10.0] + [10.0] == [10.0, 10.0, 10.0];
    SumSnoc([10.0, 10.0, 10.0], 10.0);
    assert [10.0, 10.0, 10.0] + [10.0] == [10.0, 10.0, 10.0, 10.0];
    SumSnoc([10.0, 10.0, 10.0, 10.0], 28.0);
    assert [10.0, 10.0, 10.0, 10.0] + [28.0] == s;
    assert Sum(s) == 68.0;
    var d := Deviations(s, 13.6);
    assert d == [-3.6, -3.6, -3.6, -3.6, 14.4];
    SumSquaresOfSpikeDeviations();
  }

  /** The squared deviations from 13.6 add up to 4 * 12.96 + 207.36. */
  lemma SumSquaresOfSpikeDeviations()
    ensures SumSquares([-3.6, -3.6, -3.6, -3.6, 14.4]) == 259.2
  {
    var d := [-3.6, -3.6, -3.6, -3.6, 14.4];
    assert Square(-3.6) == 12.96;
    assert Square(14.4) == 207.36;
    assert d[..4] == [-3.6, -3.6, -3.6, -3.6];
    assert d[..4][..3] == [-3.6, -3.6, -3.6];
    assert d[..4][..3][..2] == [-3.6, -3.6];
    assert d[..4][..3][..2][..1] == [-3.6];
    assert d[..4][..3][..2][..1][..0] == [];
    assert SumSquares([-3.6]) == 12.96;
    assert SumSquares([-3.6, -3.6]) == 25.92;
    assert SumSquares([-3.6, -3.6, -3.6]) == 38.88;
    assert SumSquares([-3.6, -3.6, -3.6, -3.6]) == 51.84;
  }

  /** The values of the spike readings. */
  lemma SpikeValues()
    ensures Values(SpikeValid()) == [10.0, 10.0, 10.0, 10.0, 100.0]
  {
  }

  /** The mean of the spike values, which is also the newest smoothed value with a span of 5: 28. */
  lemma SpikeMean()
    ensures Mean([10.0, 10.0, 10.0, 10.0, 100.0]) == 28.0
  {
    SumSnoc([], 10.0);
    SumSnoc([10.0], 10.0);
    SumSnoc([10.0, 10.0], 10.0);
    SumSnoc([10.0, 10.0, 10.0], 10.0);
    SumSnoc([10.0, 10.0, 10.0, 10.0], 100.0);
    assert [] + [10.0] == [10.0];
    assert [10.0] + [10.0] == [10.0, 10.0];
    assert [10.0, 10.0] + [10.0] == [10.0, 10.0, 10.0];
    assert [10.0, 10.0, 10.0] + [10.0] == [10.0, 10.0, 10.0, 10.0];
    assert [10.0, 10.0, 10.0, 10.0] + [100.0] == [10.0, 10.0, 10.0, 10.0, 100.0];
  }

  /** The squared z-score of the spike with a span of 5, 14.4^2 / 64.8 = 3.2, exceeds 1.5^2. */
  lemma SpikeZScoreExceeds()
    ensures Scaled(28.0 - 13.6, 64.8).AbsExceeds(1.5)
  {
    assert 28.0 - 13.6 == 14.4;
    assert Square(14.4) == 207.36;
    assert Square(1.5) == 2.25;
    assert 207.36 / 64.8 == 3.2;
  }

  /**
   * With a span of 5 the same spike is flagged: its smoothed value 28 lies
   * 14.4 above the mean 13.6 of the smoothed values, whose variance is
   * 64.8, so z^2 = 3.2 > 1.5^2.
   */
  lemma SpikeWindowFlaggedWithSpanFive()
    ensures Emission(SpikeValid(), 5, 1.5).isAnomaly
  {
    SpikeValues();
    SpikePrefixMeans();
    SpikeSmoothedStatistics();
    SpikeMean();
    SpikeZScoreExceeds();
    DetectZScore(Values(SpikeValid()), 5, 1.5);
  }

  /** Over the whole stream with a span of 5, the record for the spike is flagged as an anomaly. */
  lemma SpikeFlaggedWithSpanFive()
    ensures |Run([], SpikeRows(), 5, 1.5).outputs| == 4
    ensures Run([], SpikeRows(), 5, 1.5).outputs[3].isAnomaly
  {
    SpikeReadings();
    FreshRunCount(SpikeRows(), 5, 1.5);
    RunRecord([], SpikeRows(), 5, 1.5, 3);
    SpikeWindowSpanFive();
    SpikeWindowFlaggedWithSpanFive();
  }

  /** With a span of 5 the window after the spike holds all five readings. */
  lemma SpikeWindowSpanFive()
    ensures WindowAt([], SpikeValid(), 4, 5) == SpikeValid()
  {
    assert [] + SpikeValid()[..5] == SpikeValid();
  }

  /** A row without a value, then four readings of 10. */
  function GapThenLevelRows(): seq<Row>
  {
    [Row("t0", None), Row("t1", Some(10.0)), Row("t2", Some(10.0)),
     Row("t3", Some(10.0)), Row("t4", Some(10.0))]
  }

  /** Only the four readings of 10 are valid. */
  lemma GapThenLevelReadings()
    ensures |ValidReadings(GapThenLevelRows())| == 4
  {
    var rows := GapThenLevelRows();
    assert rows[..1][..0] == [];
    assert ValidReadings(rows[..1]) == [];
    assert rows[..2][..1] == rows[..1];
    assert |ValidReadings(rows[..2])| == 1;
    assert rows[..3][..2] == rows[..2];
    assert |ValidReadings(rows[..3])| == 2;
    assert rows[..4][..3] == rows[..3];
    assert rows[..4] == rows[..|rows| - 1];
  }

  /** Every row of that stream that has a value has the value 10. */
  lemma GapThenLevelValues()
    ensures forall row :: row in GapThenLevelRows() && row.value.Some? ==> row.value.value == 10.0
  {
  }

  /**
   * The row without a value contributes nothing: from an empty window with
   * a span of 3, the four valid readings give three records, all with
   * z-score 0, none flagged, each with smoothed value 10.
   */
  lemma GapThenLevel()
    ensures |Run([], GapThenLevelRows(), 3, 1.5).outputs| == 3
    ensures forall e :: e in Run([], GapThenLevelRows(), 3, 1.5).outputs ==>
      e.zScore == Zero && !e.isAnomaly && e.smoothedValue == 10.0
  {
    GapThenLevelReadings();
    FreshRunCount(GapThenLevelRows(), 3, 1.5);
    GapThenLevelValues();
    ConstantStreamNeverFlags([], GapThenLevelRows(), 3, 1.5, 10.0);
  }
}
