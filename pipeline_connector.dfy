/** `PipelineConnector`: the plugin that joins two pipelines, acting as the sink
    of one and the source of the other. `output` writes the records it is given
    into the buffer of the downstream pipeline, once that pipeline has started
    it and as long as nobody has stopped it. */
module Connector {
  import opened Java

  /** The timeout `output` passes to every write: `Integer.MAX_VALUE` milliseconds. */
  const DefaultWriteTimeout: int := IntMax

  /** The downstream pipeline's `Buffer`: what it holds and how many writes it was
      asked for. Whether a write times out is decided by `timesOut`, given the
      number of earlier writes and the timeout, since the readers emptying the
      buffer are not part of this model. */
  class ConnectorBuffer<T> {
    var records: seq<T>
    var writes: nat
    const timesOut: (nat, int) -> bool

    constructor (timesOut: (nat, int) -> bool)
      ensures records == [] && writes == 0 && this.timesOut == timesOut
    {
      records := [];
      writes := 0;
      this.timesOut := timesOut;
    }

    /** `write(record, timeoutInMillis)`: the record is appended unless the write
        times out (`TimeoutException`), in which case nothing is added. */
    method Write(record: T, timeoutInMillis: int) returns (timedOut: bool)
      modifies this
      ensures writes == old(writes) + 1
      ensures timedOut == timesOut(old(writes), timeoutInMillis)
      ensures records == if timedOut then old(records) else old(records) + [record]
    {
      timedOut := timesOut(writes, timeoutInMillis);
      if !timedOut {
        records := records + [record];
      }
      writes := writes + 1;
    }
  }

  /** How `output` ended: every record was written; the connector had no buffer or
      was stopped (a RuntimeException, nothing written); or the write of the
      `index`-th record timed out (a RuntimeException wrapping the TimeoutException). */
  datatype OutputResult = Delivered | NotActive | TimedOut(index: nat)

  class PipelineConnector<T> {
    var sourcePipelineName: Option<string>
    var sinkPipelineName: Option<string>
    var buffer: ConnectorBuffer?<T>
    var isStopRequested: bool

    /** `PipelineConnector()`: no buffer, not stopped, no names. */
    constructor ()
      ensures buffer == null && !isStopRequested
      ensures sourcePipelineName == None && sinkPipelineName == None
    {
      sourcePipelineName := None;
      sinkPipelineName := None;
      buffer := null;
      isStopRequested := false;
    }

    /** `PipelineConnector(sinkPipelineName)`: as the constructor above, with the
        name of the pipeline this connector is the sink of. */
    constructor ForSink(sinkPipelineName: Option<string>)
      ensures buffer == null && !isStopRequested
      ensures sourcePipelineName == None && this.sinkPipelineName == sinkPipelineName
    {
      sourcePipelineName := None;
      this.sinkPipelineName := sinkPipelineName;
      buffer := null;
      isStopRequested := false;
    }

    /** `start(buffer)`: attaches the buffer and nothing else; in particular a
        stopped connector stays stopped. */
    method Start(buffer: ConnectorBuffer?<T>)
      modifies this
      ensures this.buffer == buffer
      ensures isStopRequested == old(isStopRequested)
      ensures sourcePipelineName == old(sourcePipelineName) && sinkPipelineName == old(sinkPipelineName)
    {
      this.buffer := buffer;
    }

    /** `stop()`: raises the stop flag, whatever it was, and changes nothing else;
        a second call leaves the state as the first one did. */
    method Stop()
      modifies this
      ensures isStopRequested
      ensures buffer == old(buffer)
      ensures sourcePipelineName == old(sourcePipelineName) && sinkPipelineName == old(sinkPipelineName)
    {
      isStopRequested := true;
    }

    /** `output(records)`. Without a buffer or once stopped it writes nothing, even
        for no records. Otherwise it writes the records in order, each with the
        default timeout, and stops at the first write that times out: the records
        before it are in the buffer, and the ones after it are never tried. The
        connector's own fields do not change. */
    method Output(records: seq<T>) returns (result: OutputResult)
      modifies buffer
      ensures buffer == null || isStopRequested ==> result == NotActive
      ensures result == NotActive ==> buffer == null || isStopRequested
      ensures buffer != null && result == NotActive ==> buffer.records == old(buffer.records) && buffer.writes == old(buffer.writes)
      ensures result.TimedOut? ==>
        && result.index < |records|
        && buffer.writes == old(buffer.writes) + result.index + 1
        && buffer.records == old(buffer.records) + records[..result.index]
        && buffer.timesOut(old(buffer.writes) + result.index, DefaultWriteTimeout)
      ensures result.Delivered? ==>
        && buffer != null
        && buffer.writes == old(buffer.writes) + |records|
        && buffer.records == old(buffer.records) + records
      ensures result.Delivered? ==>
        forall k :: old(buffer.writes) <= k < old(buffer.writes) + |records| ==> !buffer.timesOut(k, DefaultWriteTimeout)
      ensures result.TimedOut? ==>
        forall k :: old(buffer.writes) <= k < old(buffer.writes) + result.index ==> !buffer.timesOut(k, DefaultWriteTimeout)
    {
      if buffer == null || isStopRequested {
        return NotActive;
      }
      ghost var start := buffer.writes;
      var i := 0;
      while i < |records|
        invariant i <= |records|
        invariant buffer.writes == start + i
        invariant buffer.records == old(buffer.records) + records[..i]
        invariant forall k :: start <= k < start + i ==> !buffer.timesOut(k, DefaultWriteTimeout)
      {
        var timedOut := buffer.Write(records[i], DefaultWriteTimeout);
        if timedOut {
          return TimedOut(i);
        }
        assert records[..i + 1] == records[..i] + [records[i]];
        i := i + 1;
      }
      assert records[..i] == records;
      result := Delivered;
    }

    /** `setSourcePipelineName`: replaces that name only. */
    method SetSourcePipelineName(sourcePipelineName: Option<string>)
      modifies this
      ensures this.sourcePipelineName == sourcePipelineName
      ensures sinkPipelineName == old(sinkPipelineName) && buffer == old(buffer) && isStopRequested == old(isStopRequested)
    {
      this.sourcePipelineName := sourcePipelineName;
    }

    /** `setSinkPipelineName`: replaces that name only. */
    method SetSinkPipelineName(sinkPipelineName: Option<string>)
      modifies this
      ensures this.sinkPipelineName == sinkPipelineName
      ensures sourcePipelineName == old(sourcePipelineName) && buffer == old(buffer) && isStopRequested == old(isStopRequested)
    {
      this.sinkPipelineName := sinkPipelineName;
    }
  }
}
