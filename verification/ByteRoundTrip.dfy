/** Bytes written at a position of a memory sink are the bytes a memory source reads back from there. */
module ByteRoundTrip {
  import Sinks = ByteSinks
  import Sources = ByteSources
  import opened Cancellation
  import opened Outcomes

  lemma OverlayHolds(bytes: Bytes, position: nat, data: Bytes)
    requires position <= |bytes|
    ensures var after := Sinks.Overlay(bytes, position, data);
            position + |data| <= |after| && after[position..position + |data|] == data
  {
    assert (bytes[..position] + data)[position..] == data;
  }

  /**
   * A positioned write succeeds exactly when it starts within the written bytes and ends within the limit.
   * One that starts beyond them is refused and changes nothing; one that ends beyond the limit fills the sink.
   */
  lemma MemoryWriteAt(s: Sinks.Sink, position: U64, data: Bytes)
    requires Sinks.Bounded(s)
    ensures var run := Sinks.WriteAtOf(s, Never, position, data);
            && (run.status.Ok? <==> position <= |s.bytes| && position + |data| <= s.maximumSize)
            && (run.status.Ok? ==> run.sink == Sinks.Put(s.(position := position), data))
            && (position > |s.bytes| ==> run == Sinks.WriteRun(Err(IoWriteFailed), s, Never))
            && (position <= |s.bytes| && position + |data| > s.maximumSize ==>
                  && run.status == Err(LimitExceeded)
                  && run.sink == Sinks.Put(s.(position := position), data[..s.maximumSize - position]))
  {
    if position <= |s.bytes| {
      Sinks.MemoryWriteAll(s.(position := position), data);
      if position + |data| <= s.maximumSize {
        assert data[..|data|] == data;
      }
    }
  }

  /** Whatever the two chunk sizes, reading back where a write succeeded gives the written data. */
  lemma WriteThenRead(s: Sinks.Sink, position: U64, data: Bytes, maximumRead: nat, from: nat)
    requires Sinks.Bounded(s) && 0 < maximumRead
    requires Sinks.WriteAtOf(s, Never, position, data).status.Ok?
    ensures var written := Sinks.WriteAtOf(s, Never, position, data).sink;
            written.MemorySink? && (from <= |written.bytes| ==>
              var source := Sources.MemorySource(written.bytes, maximumRead, from);
              var read := Sources.ReadAtOf(source, Never, position, |data|);
              read.status.Ok? && read.delivered == data)
  {
    MemoryWriteAt(s, position, data);
    var written := Sinks.WriteAtOf(s, Never, position, data).sink;
    OverlayHolds(s.bytes, position, data);
    Sources.MemoryReadExact(Sources.MemorySource(written.bytes, maximumRead, position), |data|);
  }
}
