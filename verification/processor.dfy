/**
 * The DataProcessor: a reader stage that puts the source's rows on a
 * queue, an analysis stage that keeps a sliding window of valid readings
 * and emits one enriched record per reading once the window holds two, and
 * a collector that gathers the records and picks out the anomalies it
 * reports. The stages run one after another here; each hand-off is a
 * queue closed by an end-of-stream marker.
 */
module Processor {
  import opened Wrappers
  import opened Channel
  import opened Detector

  /**
   * What reading the input file yields: no file at all, every row, or the
   * rows read before a read or parse error ended the stream.
   */
  datatype Source = Missing | Loaded(rows: seq<Row>) | FailedAfter(rows: seq<Row>)

  /** The rows the reader stage puts on the queue for a given source. */
  function Delivered(source: Source): seq<Row>
  {
    match source
    case Missing => []
    case Loaded(rows) => rows
    case FailedAfter(rows) => rows
  }

  /** The records the collector reports as anomalies, in arrival order. */
  function Alerts(records: seq<Enriched>): (alerts: seq<Enriched>)
    ensures |alerts| <= |records|
    ensures forall e :: e in alerts <==> e in records && e.isAnomaly
  {
    if records == [] then []
    else
      var prev := Alerts(records[..|records| - 1]);
      var last := records[|records| - 1];
      assert forall e :: e in records <==> e in records[..|records| - 1] || e == last;
      if last.isAnomaly then prev + [last] else prev
  }

  /** Alerts over one more record. */
  lemma AlertsSnoc(records: seq<Enriched>, e: Enriched)
    ensures Alerts(records + [e]) == Alerts(records) + (if e.isAnomaly then [e] else [])
  {
    assert (records + [e])[..|records|] == records;
  }

  /**
   * Collector: takes records off the processed queue until the end marker,
   * keeping every record and noting each one flagged as an anomaly.
   */
  method CollectResults(processedQueue: seq<Option<Enriched>>) returns (results: seq<Enriched>, alerts: seq<Enriched>)
    requires Terminated(processedQueue)
    ensures results == Payload(processedQueue)
    ensures alerts == Alerts(results)
  {
    var pending := processedQueue;
    results, alerts := [], [];
    while true
      invariant Terminated(pending)
      invariant Payload(processedQueue) == results + Payload(pending)
      invariant alerts == Alerts(results)
      decreases |pending|
    {
      var resultData := pending[0];
      if resultData.None? {
        assert Payload(pending) == [];
        assert results + [] == results;
        break;
      }
      TerminatedTail(pending);
      ConsumeOne(results, pending);
      pending := pending[1..];
      AlertsSnoc(results, resultData.value);
      results := results + [resultData.value];
      if resultData.value.isAnomaly {
        alerts := alerts + [resultData.value];
      }
    }
  }

  class DataProcessor {
    /** Span of the sliding window and of the rolling mean. */
    const windowSize: int
    /** A record is an anomaly when its z-score exceeds this in magnitude. */
    const zScoreThreshold: real
    /** The sliding window of valid readings, oldest first. */
    var dataBuffer: seq<Reading>

    /** The window never holds more than the configured span (nothing at all for a span <= 0). */
    ghost predicate Valid()
      reads this
    {
      |dataBuffer| <= Capacity(windowSize)
    }

    /** A processor starts with an empty window. */
    constructor (windowSize: int, zScoreThreshold: real)
      ensures this.windowSize == windowSize && this.zScoreThreshold == zScoreThreshold
      ensures dataBuffer == []
      ensures Valid()
    {
      this.windowSize := windowSize;
      this.zScoreThreshold := zScoreThreshold;
      dataBuffer := [];
    }

    /**
     * Reader: puts each delivered row on the queue, in file order, and
     * then the end marker, which is sent on every path (missing file, read
     * error or success).
     */
    method ReadDataFromSource(source: Source) returns (dataQueue: seq<Option<Row>>)
      ensures dataQueue == Frame(Delivered(source))
      ensures Payload(dataQueue) == Delivered(source)
    {
      dataQueue := [];
      match source {
        case Missing =>
        case Loaded(rows) =>
          for i := 0 to |rows|
            invariant dataQueue == Wrapped(rows[..i])
          {
            dataQueue := dataQueue + [Some(rows[i])];
          }
          assert rows[..|rows|] == rows;
        case FailedAfter(rows) =>
          for i := 0 to |rows|
            invariant dataQueue == Wrapped(rows[..i])
          {
            dataQueue := dataQueue + [Some(rows[i])];
          }
          assert rows[..|rows|] == rows;
      }
      dataQueue := dataQueue + [None];
      PayloadOfFrame(Delivered(source), []);
      assert Frame(Delivered(source)) + [] == Frame(Delivered(source));
    }

    /**
     * Analysis stage: takes rows off the queue until the end marker. A row
     * without a usable value is skipped; a valid one is appended to the
     * window, the oldest entry is dropped if the window outgrew its span,
     * and once the window holds two readings the newest is enriched and
     * put on the processed queue. The end marker is passed on at the end.
     * The window afterwards and the records sent are those of Run.
     */
    method ProcessData(dataQueue: seq<Option<Row>>) returns (processedQueue: seq<Option<Enriched>>)
      requires Valid()
      requires Terminated(dataQueue)
      modifies this
      ensures Valid()
      ensures dataBuffer == Run(old(dataBuffer), Payload(dataQueue), windowSize, zScoreThreshold).buffer
      ensures processedQueue == Frame(Run(old(dataBuffer), Payload(dataQueue), windowSize, zScoreThreshold).outputs)
    {
      var pending := dataQueue;
      processedQueue := [];
      ghost var consumed: seq<Row> := [];
      while true
        invariant Valid()
        invariant Terminated(pending)
        invariant Payload(dataQueue) == consumed + Payload(pending)
        invariant dataBuffer == Run(old(dataBuffer), consumed, windowSize, zScoreThreshold).buffer
        invariant processedQueue == Wrapped(Run(old(dataBuffer), consumed, windowSize, zScoreThreshold).outputs)
        decreases |pending|
      {
        var dataPoint := pending[0];
        if dataPoint.None? {
          assert Payload(pending) == [];
          assert consumed + [] == consumed;
          break;
        }
        TerminatedTail(pending);
        var row := dataPoint.value;
        ConsumeOne(consumed, pending);
        pending := pending[1..];
        RunSnoc(old(dataBuffer), consumed, row, windowSize, zScoreThreshold);
        consumed := consumed + [row];
        if row.value.None? {
          continue;
        }
        dataBuffer := dataBuffer + [Reading(row.timestamp, row.value.value)];
        if |dataBuffer| > windowSize {
          dataBuffer := dataBuffer[1..];
        }
        if |dataBuffer| >= 2 {
          var record := Emission(dataBuffer, windowSize, zScoreThreshold);
          WrappedSnoc(Run(old(dataBuffer), consumed[..|consumed| - 1], windowSize, zScoreThreshold).outputs, record);
          processedQueue := processedQueue + [Some(record)];
        }
      }
      processedQueue := processedQueue + [None];
    }

    /**
     * The whole pipeline: reader, analysis and collector in turn. The
     * records collected are those Run emits for the delivered rows, starting
     * from the window the processor already holds (it is not cleared between
     * pipelines), and the alerts are the records flagged as anomalies.
     */
    method StartProcessingPipeline(source: Source) returns (results: seq<Enriched>, alerts: seq<Enriched>)
      requires Valid()
      modifies this
      ensures Valid()
      ensures dataBuffer == Run(old(dataBuffer), Delivered(source), windowSize, zScoreThreshold).buffer
      ensures results == Run(old(dataBuffer), Delivered(source), windowSize, zScoreThreshold).outputs
      ensures alerts == Alerts(results)
    {
      var dataQueue := ReadDataFromSource(source);
      FrameTerminated(Delivered(source));
      var processedQueue := ProcessData(dataQueue);
      ghost var outputs := Run(old(dataBuffer), Delivered(source), windowSize, zScoreThreshold).outputs;
      FrameTerminated(outputs);
      results, alerts := CollectResults(processedQueue);
      PayloadOfFrame(outputs, []);
      assert Frame(outputs) + [] == Frame(outputs);
    }
  }
}
