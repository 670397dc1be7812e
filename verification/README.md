# Windowed anomaly detection pipeline — a Dafny model

`DataProcessor` (data_processor.py) reads sensor rows, keeps a sliding
window of the most recent valid readings, smooths them with a rolling mean,
and flags a reading as an anomaly when the z-score of its smoothed value,
taken against all smoothed values in the window, exceeds a threshold. Three
stages hand data to each other through queues closed by a `None` end marker:

- the reader puts the source's rows on a queue and always ends with the marker;
- the analysis stage drops rows without a usable value, pushes valid readings
  into a bounded FIFO window (`data_buffer`), and once the window holds two
  readings emits the newest one enriched with `smoothed_value`, `z_score` and
  `is_anomaly`;
- the collector gathers the records in order and reports the anomalies.

The model has these modules:

- `Wrappers` holds `Option`.
- `Statistics` holds sums, means, the causal rolling mean, the sample
  variance (divisor n − 1), and Samuelson's bound on how far the newest value
  can lie from the mean.
- `Channel` holds the queues as sequences of messages, the end marker and
  what a consumer receives.
- `Detector` holds validation, the window push and the statistics block as
  functions. It also has `Step` (one message) and `Run` (a stream of
  messages), and lemmas about whole runs.
- `Processor` holds the class `DataProcessor`:
  - a `dataBuffer` field that its methods update in place;
  - a reader, an analysis loop and a collector loop, each proved against the
    `Detector` and `Channel` functions.
- `Scenarios` holds worked streams.

Values are reals. A NaN or absent value is `None`. The z-score is never
computed as a real number, because that needs a square root. `Scaled(d, v)`
stands for d / sqrt(v), where v > 0 is the sample variance. The anomaly test
compares z² = d² / v with t² for t ≥ 0. `Detector.AbsExceedsMeansAbove` proves
that this squared test is exactly |z| > t for the real z = d / sqrt(v).

Behaviour the model follows from the code:

- A record is emitted as soon as the window holds two readings. From an
  empty window with `window_size` ≥ 2, n valid readings give max(0, n − 1)
  records, so the second reading already emits. A `window_size` ≤ 1 never
  emits.
- Because the window never holds more than `window_size` readings and the
  rolling mean has `min_periods=1`, the smoothed values are the running
  means of the window. The emitted smoothed value is therefore the mean of
  the whole window.
- The z-score of the newest point in a window of n points is at most
  (n − 1)/√n in magnitude (Samuelson's inequality). So with `window_size=3`
  and `z_score_threshold=1.5` nothing can ever be flagged, because
  2/√3 ≈ 1.155 < 1.5 (`Detector.RunNeverFlagsBelowBound`). In the stream
  10, 10, 10, 10, 100:
  - `Scenarios.SpikeNotFlaggedWithSpanThree` and
    `Scenarios.SpikeRecordWithSpanThree` show four records, none flagged,
    the last with smoothed value 40;
  - `Scenarios.SpikeFlaggedWithSpanFive` shows that the same spike is
    flagged with `window_size=5`.
- The window is created once, in the constructor, and is not cleared between
  pipelines. A second pipeline therefore starts from the previous window,
  and its first valid reading can already emit. `Run` and its lemmas take
  the starting window as a parameter.

## Model

| member | source | states |
|---|---|---|
| `Statistics.RollingMean` | data_processor.py:75 | the causal rolling mean of span w with min_periods=1; on a sequence no longer than the span it equals the running (prefix) means |
| `Statistics.SampleVariance` | data_processor.py:81 | the square of pandas' `std()` (divisor n − 1) is never negative |
| `Statistics.VarianceZeroIffConstant` | data_processor.py:81-83 | the standard deviation is zero exactly when all values are equal (both directions) |
| `Statistics.LastDeviationBound` | data_processor.py:80-84 | Samuelson: n·(last − mean)² ≤ (n − 1)·Σ(x − mean)², which bounds the newest point's z-score |
| `Statistics.SquaredSumBound` | data_processor.py:80-81 | (Σx)² ≤ n·Σx², the step behind the bound above |
| `Statistics.SamuelsonBoundMonotone` | data_processor.py:68-72 | a threshold that clears (w − 1)²/w also clears (n − 1)²/n for every window size n ≤ w |
| `Detector.Push` | data_processor.py:65-69 | append then evict at most one: from a window within its capacity the result is exactly the last Capacity(w) readings |
| `Detector.LastNSnoc` | data_processor.py:65-69 | cutting to the last k after every push is the same as cutting the whole history once |
| `Detector.Detect` | data_processor.py:73-88 | the smoothed value is the mean of the window; a zero-variance window gets no anomaly |
| `Detector.DetectZScore` | data_processor.py:80-88 | z-score is Zero exactly when the smoothed values have zero variance; otherwise it is (last smoothed − mean of smoothed) / std and the flag holds exactly when \|z\| > t |
| `Detector.Emission` | data_processor.py:77-90 | the record carries the timestamp and value of the newest reading in the window, and the window's mean as its smoothed value |
| `Detector.Step` | data_processor.py:55-90 | one message: a row without value leaves the window unchanged and emits nothing; a valid row is pushed, FIFO; a record is emitted exactly when the window then holds ≥ 2 readings, carrying that row's fields |
| `Detector.Run` | data_processor.py:54-90 | the window stays within Capacity(w), and at most one record is emitted per row |
| `Detector.RunBuffer` | data_processor.py:65-69 | after any run the window is exactly the last Capacity(w) of (old window ++ valid readings), in arrival order |
| `Detector.RunCount` | data_processor.py:68-72 | records emitted: none if w < 2; one per valid reading, minus one when the run starts from an empty window |
| `Detector.FreshRunCount` | data_processor.py:68-72 | from an empty window, n valid readings give max(0, n − 1) records when w ≥ 2 and none when w ≤ 1 |
| `Detector.RunOutputAt` | data_processor.py:65-90 | by induction over the rows: record k is the enrichment of valid reading k + Skip, computed over the window as it stood just after that reading was pushed |
| `Detector.RunOutputs` | data_processor.py:72-90 | record k is made from valid reading k + Skip, over the window as it stood just after that reading arrived, so records come out in arrival order |
| `Detector.RunRecord` | data_processor.py:75-90 | record k carries the fields of valid reading k + Skip, is the enrichment of that window, and its smoothed value is that window's mean |
| `Detector.RunIgnoresInvalidRows` | data_processor.py:61-62 | two row streams with the same valid readings give the same window and the same records |
| `Detector.AbsExceedsMeansAbove` | data_processor.py:84-85 | the squared-form test is exactly \|z\| > t for z = deviation / sqrt(variance), whatever the sign of t |
| `Detector.ThresholdIsStrict` | data_processor.py:85 | a z-score whose magnitude equals the threshold is not flagged |
| `Detector.NewestWithinBound` | data_processor.py:80-85 | with t ≥ 0 and t²·n ≥ (n − 1)², the newest of n smoothed values never exceeds t |
| `Detector.DetectNeverFlagsBelowBound` | data_processor.py:73-88 | the statistics block never flags a window of n points when t ≥ 0 and t²·n ≥ (n − 1)² |
| `Detector.WindowNeverFlags` | data_processor.py:72-90 | the same for any emitted window, given the bound for the full span w |
| `Detector.RunNeverFlagsBelowBound` | data_processor.py:54-92 | with t ≥ 0 and t²·w ≥ (w − 1)², no record of any run is ever flagged |
| `Detector.ConstantWindow` | data_processor.py:83-88 | a window of equal values gets z-score 0, no anomaly, and that value as smoothed value |
| `Detector.ConstantStreamNeverFlags` | data_processor.py:54-92 | if every valid value of a run (and of the starting window) is c, every record has z-score 0, no anomaly and smoothed value c |
| `Channel.Frame` | data_processor.py:40-47 | a producer's queue: every item in order, then exactly one end marker |
| `Channel.ConsumeOne` | data_processor.py:54-58 | taking one message that is not the end marker moves it, unchanged, from what is still to come to what has been received |
| `Channel.PayloadOfFrame` | data_processor.py:54-58 | a consumer of a framed queue receives exactly the items, whatever follows the end marker |
| `Processor.Alerts` | data_processor.py:112-113 | the reported records are exactly the collected records flagged as anomalies |
| `Processor.CollectResults` | data_processor.py:104-113 | the collector returns the records before the end marker, in order, and the anomalies among them |
| `Processor.DataProcessor.constructor` | data_processor.py:20-25 | stores window size and threshold; the window starts empty |
| `Processor.DataProcessor.ReadDataFromSource` | data_processor.py:27-47 | the queue is the delivered rows in order followed by one end marker: none on a missing file, all rows on success, the rows already sent on an error |
| `Processor.DataProcessor.ProcessData` | data_processor.py:49-92 | consumes up to the first end marker; the new window and the records put on the processed queue (followed by one end marker) are those of Run from the old window |
| `Processor.DataProcessor.StartProcessingPipeline` | data_processor.py:94-118 | the collected records are Run's records for the delivered rows from the current window, the window is Run's window, and the alerts are the flagged records |
| `Scenarios.SpikeNotFlaggedWithSpanThree` | data_processor.py:68-90 | w = 3, t = 1.5 over 10, 10, 10, 10, 100: four records, none flagged |
| `Scenarios.SpikeRecordWithSpanThree` | data_processor.py:75-77 | in that run the spike's record has value 100 and smoothed value 40 |
| `Scenarios.SpikeWindowFlaggedWithSpanFive` | data_processor.py:80-85 | a window of 10, 10, 10, 10, 100 with w = 5, t = 1.5 is flagged (z² = 3.2 > 2.25) |
| `Scenarios.SpikeFlaggedWithSpanFive` | data_processor.py:68-90 | over the whole stream with w = 5, the spike's record is flagged |
| `Scenarios.GapThenLevel` | data_processor.py:61-72 | a row without value and then four readings of 10 give three records, all with z-score 0 and not flagged |

## Left out

- main.py is not part of this model: configuration loading, CSV writing, plotting and sample-data generation.
- Reading the CSV file, `os.path.exists` and `iterrows` are not modelled. The source is an abstract outcome (`Missing`, `Loaded(rows)`, `FailedAfter(rows)`), and `input_file` and the `config` object are not fields of the class.
- Rows carry only `timestamp` and `value`; other CSV columns, which the source copies into each record, are not modelled.
- Threads, `join` and the blocking of `queue.Queue` are left out. The queues are single-producer, single-consumer and FIFO, so the stages are modelled as running one after another over sequences.
- `time.sleep` and every `print` are left out. The anomaly message is modelled only as the list of alerted records; its formatting is not modelled.
- Floating-point rounding, infinities, NaN propagation inside pandas and the square root in `std()` are left out. Arithmetic is over reals, and the z-score is kept as a deviation and a variance rather than a number.
- A value that is present but not numeric is not modelled: a row's value is either a real or absent/NaN (`None`). In the source such a value passes the check at data_processor.py:61, is appended to the window, and makes the rolling mean at :75 raise inside the analysis thread. That thread then never puts its end marker (:92), so the collector blocks forever at :106 and the joins at :115-116 are never reached. The model's `ProcessData` is total for that reason and always passes the end marker on.
- The final `pd.DataFrame` is not built; the pipeline returns the sequence of records.
- The rolling mean over more points than the window span is defined but never needed, because the window never outgrows the span.
