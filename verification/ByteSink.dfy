/**
 * Complete writes over sinks that may accept less than they are offered.
 *
 * A sink is either in memory or scripted. A scripted one answers call after call with whatever its
 * script says and remembers the bytes it took, so a script stands for any behaviour an adapter can show.
 */
module ByteSinks {
  import opened Cancellation
  import opened Outcomes

  /** What a scripted sink does on one call: the count it reports, or an error. */
  datatype Response = Accepted(count: nat) | Refused(error: ErrorCode)

  datatype Sink =
    | MemorySink(bytes: Bytes, position: nat, maximumSize: U64, maximumWrite: nat)
    | ScriptedSink(responses: seq<Response>, received: Bytes)

  predicate ValidSink(s: Sink) {
    s.MemorySink? ==> 0 < s.maximumWrite && s.position <= |s.bytes|
  }

  /** What every memory sink satisfies from creation on. */
  predicate Bounded(s: Sink) {
    s.MemorySink? && ValidSink(s) && |s.bytes| <= s.maximumSize
  }

  function Min(a: nat, b: nat): nat {
    if a < b then a else b
  }

  /** A vector resized to at least `size`: new bytes are zero. */
  function Grown(bytes: Bytes, size: nat): (r: Bytes)
    ensures |r| >= size
  {
    if size > |bytes| then bytes + seq(size - |bytes|, _ => 0) else bytes
  }

  /** The vector after a chunk is copied in at `position`, grown first if the chunk ends beyond it. */
  function Stored(bytes: Bytes, position: nat, chunk: Bytes): Bytes {
    var grown := Grown(bytes, position + |chunk|);
    grown[..position] + chunk + grown[position + |chunk|..]
  }

  /** The old bytes with `data` laid over them at `position`. */
  function Overlay(bytes: Bytes, position: nat, data: Bytes): Bytes
    requires position <= |bytes|
  {
    bytes[..position] + data + bytes[Min(position + |data|, |bytes|)..]
  }

  /** The sink after the bytes `data` were laid over its own from its position on. */
  function Put(s: Sink, data: Bytes): (r: Sink)
    requires s.MemorySink? && ValidSink(s)
    ensures r.MemorySink? && ValidSink(r)
  {
    s.(bytes := Overlay(s.bytes, s.position, data), position := s.position + |data|)
  }

  datatype WriteStep = WriteStep(answer: Response, sink: Sink, schedule: Schedule)

  function WriteOnce(s: Sink, c: Schedule, data: Bytes): (r: WriteStep)
    requires ValidSink(s)
    ensures ValidSink(r.sink)
  {
    match s
    case MemorySink(bytes, position, maximumSize, maximumWrite) =>
      if Raised(c) then WriteStep(Refused(OperationCancelled), s, Polled(c))
      else if position > maximumSize then WriteStep(Refused(InvariantViolation), s, Polled(c))
      else if |data| != 0 && position == maximumSize then WriteStep(Refused(LimitExceeded), s, Polled(c))
      else
        var count := Min(|data|, Min(maximumWrite, maximumSize - position));
        WriteStep(Accepted(count), Put(s, data[..count]), Polled(c))
    case ScriptedSink(responses, received) =>
      if |responses| == 0 then WriteStep(Refused(IoWriteFailed), s, c)
      else if responses[0].Refused? then WriteStep(responses[0], ScriptedSink(responses[1..], received), c)
      else WriteStep(responses[0],
                     ScriptedSink(responses[1..], received + data[..Min(responses[0].count, |data|)]), c)
  }

  /** A whole write: how it ends, and the state after it. */
  datatype WriteRun = WriteRun(status: Status, sink: Sink, schedule: Schedule)

  /** How one round of the loop judges the answer it got. */
  function Judge(answer: Response, offered: nat): (r: Status)
    ensures r.Ok? <==> answer.Accepted? && 0 < answer.count <= offered
  {
    match answer
    case Refused(error) => Err(error)
    case Accepted(count) =>
      if count > offered then Err(PluginContractViolation)
      else if count == 0 then Err(IoNoProgress)
      else Ok(Unit)
  }

  function WriteRunOf(s: Sink, c: Schedule, data: Bytes): (r: WriteRun)
    requires ValidSink(s)
    ensures ValidSink(r.sink)
    decreases |data|
  {
    if |data| == 0 then WriteRun(Ok(Unit), s, c)
    else if Raised(c) then WriteRun(Err(OperationCancelled), s, Polled(c))
    else
      var step := WriteOnce(s, Polled(c), data);
      var verdict := Judge(step.answer, |data|);
      if verdict.Err? then WriteRun(verdict, step.sink, step.schedule)
      else WriteRunOf(step.sink, step.schedule, data[step.answer.count..])
  }

  function SinkSeek(s: Sink, position: U64, c: Schedule): (Status, Sink, Schedule) {
    if Raised(c) then (Err(OperationCancelled), s, Polled(c))
    else if s.ScriptedSink? then (Err(UnsupportedFeature), s, Polled(c))
    else if position > |s.bytes| then (Err(IoWriteFailed), s, Polled(c))
    else (Ok(Unit), s.(position := position), Polled(c))
  }

  lemma StoredIsOverlay(bytes: Bytes, position: nat, chunk: Bytes)
    requires position <= |bytes|
    ensures Stored(bytes, position, chunk) == Overlay(bytes, position, chunk)
  {
    var grown := Grown(bytes, position + |chunk|);
    assert grown[..position] == bytes[..position];
    if position + |chunk| < |bytes| {
      assert grown == bytes;
    } else {
      assert grown[position + |chunk|..] == [];
    }
  }

  class ByteSink {
    var state: Sink

    constructor (state: Sink)
      requires ValidSink(state)
      ensures this.state == state
    {
      this.state := state;
    }

    method Write(source: Bytes, token: CancellationToken) returns (answer: Response)
      requires ValidSink(state)
      modifies this, token
      ensures WriteStep(answer, state, token.schedule) == WriteOnce(old(state), old(token.schedule), source)
    {
      match state {
        case MemorySink(bytes, position, maximumSize, maximumWrite) =>
          var cancelled := token.IsCancelled();
          if cancelled {
            return Refused(OperationCancelled);
          }
          if position > maximumSize {
            return Refused(InvariantViolation);
          }
          var available := maximumSize - position;
          if |source| != 0 && available == 0 {
            return Refused(LimitExceeded);
          }
          var count := Min(|source|, Min(maximumWrite, available));
          StoredIsOverlay(bytes, position, source[..count]);
          state := state.(bytes := Stored(bytes, position, source[..count]), position := position + count);
          return Accepted(count);
        case ScriptedSink(responses, received) =>
          if |responses| == 0 {
            return Refused(IoWriteFailed);
          }
          answer := responses[0];
          var taken := if answer.Accepted? then source[..Min(answer.count, |source|)] else [];
          state := ScriptedSink(responses[1..], received + taken);
      }
    }

    method Seek(position: U64, token: CancellationToken) returns (r: Status)
      requires ValidSink(state)
      modifies this, token
      ensures ValidSink(state)
      ensures (r, state, token.schedule) == SinkSeek(old(state), position, old(token.schedule))
    {
      var cancelled := token.IsCancelled();
      if cancelled {
        return Err(OperationCancelled);
      }
      if state.ScriptedSink? {
        return Err(UnsupportedFeature);
      }
      if position > |state.bytes| {
        return Err(IoWriteFailed);
      }
      state := state.(position := position);
      return Ok(Unit);
    }
  }

  /** One round of the loop from byte `completed` on: it ends the run, or carries it further. */
  method WriteRound(sink: ByteSink, source: Bytes, completed: nat, token: CancellationToken)
    returns (r: Status, count: nat)
    requires ValidSink(sink.state) && completed < |source|
    modifies sink, token
    ensures ValidSink(sink.state) && completed + count <= |source|
    ensures var run := WriteRunOf(old(sink.state), old(token.schedule), source[completed..]);
            if r.Err? then run == WriteRun(r, sink.state, token.schedule)
            else 0 < count && run == WriteRunOf(sink.state, token.schedule, source[completed + count..])
  {
    count := 0;
    var cancelled := token.IsCancelled();
    if cancelled {
      return Err(OperationCancelled), 0;
    }
    var written := sink.Write(source[completed..], token);
    if written.Refused? {
      return Err(written.error), 0;
    }
    var remaining := |source| - completed;
    if written.count > remaining {
      return Err(PluginContractViolation), 0;
    }
    if written.count == 0 {
      return Err(IoNoProgress), 0;
    }
    assert source[completed..][written.count..] == source[completed + written.count..];
    return Ok(Unit), written.count;
  }

  /** The loop: how it ends and what it leaves in the sink are those of the run. */
  method WriteAll(sink: ByteSink, source: Bytes, token: CancellationToken) returns (r: Status)
    requires ValidSink(sink.state)
    modifies sink, token
    ensures ValidSink(sink.state)
    ensures WriteRun(r, sink.state, token.schedule) == WriteRunOf(old(sink.state), old(token.schedule), source)
  {
    var completed := 0;
    while completed < |source|
      invariant 0 <= completed <= |source|
      invariant ValidSink(sink.state)
      invariant WriteRunOf(old(sink.state), old(token.schedule), source)
             == WriteRunOf(sink.state, token.schedule, source[completed..])
      decreases |source| - completed
    {
      var status, count := WriteRound(sink, source, completed, token);
      if status.Err? {
        return status;
      }
      completed := completed + count;
    }
    return Ok(Unit);
  }

  /** A positioned write: capability, one poll, seek, then the loop. */
  function WriteAtOf(s: Sink, c: Schedule, position: U64, data: Bytes): (r: WriteRun)
    requires ValidSink(s)
    ensures ValidSink(r.sink)
  {
    if s.ScriptedSink? then WriteRun(Err(UnsupportedFeature), s, c)
    else if Raised(c) then WriteRun(Err(OperationCancelled), s, Polled(c))
    else
      var (status, sought, left) := SinkSeek(s, position, Polled(c));
      if status.Err? then WriteRun(status, sought, left) else WriteRunOf(sought, left, data)
  }

  method WriteAllAt(sink: ByteSink, position: U64, source: Bytes, token: CancellationToken) returns (r: Status)
    requires ValidSink(sink.state)
    modifies sink, token
    ensures WriteRun(r, sink.state, token.schedule)
         == WriteAtOf(old(sink.state), old(token.schedule), position, source)
  {
    if sink.state.ScriptedSink? {
      return Err(UnsupportedFeature);
    }
    var cancelled := token.IsCancelled();
    if cancelled {
      return Err(OperationCancelled);
    }
    r := sink.Seek(position, token);
    if r.Err? {
      return r;
    }
    r := WriteAll(sink, source, token);
  }

  // ---------- complete writes to memory ----------

  /** Chunk after chunk lays down the same bytes as all at once. */
  lemma OverlayTwice(bytes: Bytes, position: nat, first: Bytes, second: Bytes)
    requires position <= |bytes|
    ensures position + |first| <= |Overlay(bytes, position, first)|
    ensures Overlay(Overlay(bytes, position, first), position + |first|, second)
         == Overlay(bytes, position, first + second)
  {
    var once := Overlay(bytes, position, first);
    assert once[..position + |first|] == bytes[..position] + first;
    var end := position + |first| + |second|;
    if end < |once| {
      assert once[end..] == bytes[end..];
    }
  }

  lemma OverlayNothing(bytes: Bytes, position: nat)
    requires position <= |bytes|
    ensures Overlay(bytes, position, []) == bytes
  {
  }

  lemma PutKeepsBound(s: Sink, data: Bytes)
    requires Bounded(s) && s.position + |data| <= s.maximumSize
    ensures Bounded(Put(s, data))
  {
  }

  lemma PutTwice(s: Sink, first: Bytes, second: Bytes)
    requires Bounded(s) && s.position + |first| <= s.maximumSize
    ensures Bounded(Put(s, first)) && Put(Put(s, first), second) == Put(s, first + second)
  {
    OverlayTwice(s.bytes, s.position, first, second);
  }

  /** One uncancelled call either finds the sink full or lays down a nonempty chunk. */
  lemma OneMemoryWrite(s: Sink, c: Schedule, data: Bytes) returns (count: nat)
    requires Bounded(s) && !Raised(c) && 0 < |data|
    ensures count <= |data| && s.position + count <= s.maximumSize
    ensures count == 0 <==> s.position == s.maximumSize
    ensures WriteOnce(s, c, data)
         == if count == 0 then WriteStep(Refused(LimitExceeded), s, Polled(c))
            else WriteStep(Accepted(count), Put(s, data[..count]), Polled(c))
  {
    if s.position == s.maximumSize {
      count := 0;
    } else {
      count := Min(|data|, Min(s.maximumWrite, s.maximumSize - s.position));
    }
  }

  /** One uncancelled round against memory. */
  lemma OneMemoryRound(s: Sink, c: Schedule, data: Bytes) returns (count: nat)
    requires Bounded(s) && 0 < |data| && !Raised(c) && !Raised(Polled(c))
    ensures count <= |data| && s.position + count <= s.maximumSize
    ensures count == 0 <==> s.position == s.maximumSize
    ensures Bounded(Put(s, data[..count]))
    ensures WriteRunOf(s, c, data)
         == if count == 0 then WriteRun(Err(LimitExceeded), s, Polled(Polled(c)))
            else WriteRunOf(Put(s, data[..count]), Polled(Polled(c)), data[count..])
  {
    count := OneMemoryWrite(s, Polled(c), data);
    PutKeepsBound(s, data[..count]);
  }

  lemma Prefixes(data: Bytes, count: nat, more: nat)
    requires count <= |data| && more <= |data| - count
    ensures data[..count] + data[count..][..more] == data[..count + more]
  {
  }

  lemma PutPrefixes(s: Sink, data: Bytes, count: nat, more: nat)
    requires Bounded(s) && count <= |data| && more <= |data| - count && s.position + count <= s.maximumSize
    ensures Bounded(Put(s, data[..count]))
    ensures Put(Put(s, data[..count]), data[count..][..more]) == Put(s, data[..count + more])
  {
    Prefixes(data, count, more);
    PutTwice(s, data[..count], data[count..][..more]);
  }

  lemma PutNothing(s: Sink, data: Bytes)
    requires Bounded(s)
    ensures Put(s, data[..0]) == s
  {
    OverlayNothing(s.bytes, s.position);
    assert data[..0] == [];
  }

  /** How many of the bytes fit between the position and the maximum size. */
  function Fitting(s: Sink, data: Bytes): (n: nat)
    requires Bounded(s)
    ensures n <= |data| && s.position + n <= s.maximumSize
  {
    Min(|data|, s.maximumSize - s.position)
  }

  /** A run that laid down the first `count` bytes and stopped for the right reason. */
  ghost predicate WritesPrefix(s: Sink, c: Schedule, data: Bytes, run: WriteRun, count: nat)
    requires Bounded(s)
  {
    && count <= |data| && s.position + count <= s.maximumSize
    && Bounded(run.sink) && run.sink == Put(s, data[..count])
    && (c == Never ==> run.schedule == Never)
    && StopsRightly(c, run.status, count, |data|, s.maximumSize - s.position)
  }

  /** Success means everything was written; an error is a cancellation that was asked for, or a full sink. */
  predicate StopsRightly(c: Schedule, status: Status, count: nat, offered: nat, room: nat) {
    match status
    case Ok(_) => count == offered
    case Err(error) =>
      count < offered && ((error == OperationCancelled && c != Never) || (error == LimitExceeded && count == room))
  }

  lemma PrefixFurther(s: Sink, c: Schedule, data: Bytes, run: WriteRun, count: nat, more: nat)
    requires Bounded(s) && count <= |data| && s.position + count <= s.maximumSize && Bounded(Put(s, data[..count]))
    requires WritesPrefix(Put(s, data[..count]), Polled(Polled(c)), data[count..], run, more)
    ensures WritesPrefix(s, c, data, run, count + more)
  {
    PutPrefixes(s, data, count, more);
  }

  lemma PrefixNone(s: Sink, c: Schedule, data: Bytes, run: WriteRun)
    requires Bounded(s) && run.sink == s && (c == Never ==> run.schedule == Never)
    requires StopsRightly(c, run.status, 0, |data|, s.maximumSize - s.position)
    ensures WritesPrefix(s, c, data, run, 0)
  {
    PutNothing(s, data);
  }

  lemma PrefixIsAllThatFits(s: Sink, data: Bytes, run: WriteRun, count: nat)
    requires Bounded(s) && WritesPrefix(s, Never, data, run, count)
    ensures run == WriteRun(if s.position + |data| <= s.maximumSize then Ok(Unit) else Err(LimitExceeded),
                            Put(s, data[..Fitting(s, data)]), Never)
  {
    assert count == Fitting(s, data);
    match run.status {
      case Ok(unit) => assert unit == Unit;
      case Err(error) => assert error == LimitExceeded;
    }
  }

  /** A write with nothing to do, or cancelled before its first chunk, leaves the sink as it was. */
  lemma WriteStopsAtOnce(s: Sink, c: Schedule, data: Bytes)
    requires Bounded(s) && (|data| == 0 || Raised(c) || Raised(Polled(c)))
    ensures var run := WriteRunOf(s, c, data);
            && run.sink == s && (c == Never ==> run.schedule == Never)
            && StopsRightly(c, run.status, 0, |data|, s.maximumSize - s.position)
  {
  }

  lemma {:induction false} WriteRunIsPrefix(s: Sink, c: Schedule, data: Bytes, run: WriteRun)
    requires Bounded(s) && run == WriteRunOf(s, c, data)
    ensures exists count: nat :: WritesPrefix(s, c, data, run, count)
    decreases |data|
  {
    if |data| == 0 || Raised(c) || Raised(Polled(c)) {
      WriteStopsAtOnce(s, c, data);
      PrefixNone(s, c, data, run);
      return;
    }
    var first := OneMemoryRound(s, c, data);
    if first == 0 {
      PrefixNone(s, c, data, run);
      return;
    }
    var next := Put(s, data[..first]);
    WriteRunIsPrefix(next, Polled(Polled(c)), data[first..], run);
    var more: nat :| WritesPrefix(next, Polled(Polled(c)), data[first..], run, more);
    PrefixFurther(s, c, data, run, first, more);
  }

  /**
   * Cancelled at any poll or not at all, a write leaves a prefix of the data over the old bytes, keeps
   * `position <= size <= maximum size`, and never meets the violated-invariant branch.
   */
  lemma MemoryWriteIsPrefix(s: Sink, c: Schedule, data: Bytes)
    requires Bounded(s)
    ensures exists count: nat :: WritesPrefix(s, c, data, WriteRunOf(s, c, data), count)
  {
    WriteRunIsPrefix(s, c, data, WriteRunOf(s, c, data));
  }

  /**
   * A write to memory lays the longest fitting prefix over the old bytes, whatever the chunk size, and
   * succeeds exactly when that prefix is everything.
   */
  lemma MemoryWriteAll(s: Sink, data: Bytes)
    requires Bounded(s)
    ensures WriteRunOf(s, Never, data)
         == WriteRun(if s.position + |data| <= s.maximumSize then Ok(Unit) else Err(LimitExceeded),
                     Put(s, data[..Fitting(s, data)]), Never)
  {
    var run := WriteRunOf(s, Never, data);
    WriteRunIsPrefix(s, Never, data, run);
    var count: nat :| WritesPrefix(s, Never, data, run, count);
    PrefixIsAllThatFits(s, data, run, count);
  }

  /** The chunk size shows neither in the outcome nor in the bytes. */
  lemma ChunkSizeIsInvisible(s: Sink, maximumWrite: nat, data: Bytes)
    requires Bounded(s) && 0 < maximumWrite
    ensures var one := WriteRunOf(s, Never, data);
            var other := WriteRunOf(s.(maximumWrite := maximumWrite), Never, data);
            one.sink.MemorySink? && other == one.(sink := one.sink.(maximumWrite := maximumWrite))
  {
    MemoryWriteAll(s, data);
    MemoryWriteAll(s.(maximumWrite := maximumWrite), data);
  }

  // ---------- positions ----------

  /** One call on memory lays down what fits in the chunk size and the room, whichever is least. */
  lemma MemoryChunk(s: Sink, c: Schedule, data: Bytes)
    requires Bounded(s) && !Raised(c)
    ensures var step, room := WriteOnce(s, c, data), s.maximumSize - s.position;
            if |data| != 0 && room == 0 then step.answer == Refused(LimitExceeded) && step.sink == s
            else
              && step.answer.Accepted?
              && var n := step.answer.count;
              && n <= |data| && n <= s.maximumWrite && n <= room
              && (n == |data| || n == s.maximumWrite || n == room)
  {
  }

  /** Seeking past the written bytes is refused and moves nothing; seeking to their end or before it moves there. */
  lemma SeekExactly(s: Sink, position: U64, c: Schedule)
    requires Bounded(s) && !Raised(c)
    ensures SinkSeek(s, position, c)
         == if position <= |s.bytes| then (Ok(Unit), s.(position := position), Polled(c))
            else (Err(IoWriteFailed), s, Polled(c))
  {
  }

  /** A sink that cannot seek is neither polled for nor offered anything. */
  lemma ScriptedWriteAt(s: Sink, c: Schedule, position: U64, data: Bytes)
    requires s.ScriptedSink?
    ensures WriteAtOf(s, c, position, data) == WriteRun(Err(UnsupportedFeature), s, c)
  {
  }

  // ---------- cancellation ----------

  /** A cancelled write of at least one byte offers nothing to any adapter. */
  lemma CancelledWriteDoesNothing(s: Sink, c: Schedule, data: Bytes)
    requires ValidSink(s) && Raised(c) && 0 < |data|
    ensures WriteRunOf(s, c, data) == WriteRun(Err(OperationCancelled), s, c)
  {
  }

  /** A cancelled positioned write of anything leaves the position alone as well. */
  lemma CancelledWriteAtDoesNothing(s: Sink, c: Schedule, position: U64, data: Bytes)
    requires ValidSink(s) && s.MemorySink? && (Raised(c) || Raised(Polled(c)))
    ensures WriteAtOf(s, c, position, data) == WriteRun(Err(OperationCancelled), s, AfterPolls(0))
  {
  }

  // ---------- complete writes to any adapter ----------

  /** An answer that takes some of what is offered and no more. */
  predicate Advances(answer: Response, offered: nat) {
    answer.Accepted? && 0 < answer.count <= offered
  }

  /** Answers that take the data chunk by chunk to the last byte, and no further. */
  predicate Takes(responses: seq<Response>, offered: nat)
    decreases |responses|
  {
    if offered == 0 then |responses| == 0
    else |responses| > 0 && Advances(responses[0], offered) && Takes(responses[1..], offered - responses[0].count)
  }

  /** How many bytes the answers take, of those offered, when all of them advance and leave some. */
  function TakenBy(responses: seq<Response>): nat
    decreases |responses|
  {
    if |responses| == 0 then 0
    else (if responses[0].Accepted? then responses[0].count else 0) + TakenBy(responses[1..])
  }

  predicate Unfinished(responses: seq<Response>, offered: nat)
    decreases |responses|
  {
    && 0 < offered
    && (|responses| > 0 ==>
          Advances(responses[0], offered) && Unfinished(responses[1..], offered - responses[0].count))
  }

  /** What is left of a schedule after `n` polls that did not see the flag. */
  function AfterRounds(c: Schedule, n: nat): Schedule {
    if c.AfterPolls? && c.polls >= n then AfterPolls(c.polls - n) else c
  }

  predicate Outlasts(c: Schedule, n: nat) {
    c == Never || c.polls >= n
  }

  lemma OneScriptedRound(responses: seq<Response>, received: Bytes, c: Schedule, data: Bytes)
    requires 0 < |responses| && Advances(responses[0], |data|) && !Raised(c)
    ensures WriteRunOf(ScriptedSink(responses, received), c, data)
         == WriteRunOf(ScriptedSink(responses[1..], received + data[..responses[0].count]), Polled(c),
                       data[responses[0].count..])
  {
  }

  lemma FirstAnswer(answers: seq<Response>, later: seq<Response>)
    requires 0 < |answers|
    ensures (answers + later)[0] == answers[0] && (answers + later)[1..] == answers[1..] + later
  {
  }

  lemma TwoChunks(received: Bytes, data: Bytes, first: nat, more: nat)
    requires first <= |data| && more <= |data| - first
    ensures (received + data[..first]) + data[first..][..more] == received + data[..first + more]
    ensures data[first..][more..] == data[first + more..]
  {
  }

  /** `run` is what the loop does once the answers have taken their bytes and it offers the rest. */
  ghost predicate Resumes(run: WriteRun, answers: seq<Response>, later: seq<Response>, received: Bytes, c: Schedule,
                          data: Bytes)
  {
    && TakenBy(answers) < |data|
    && run == WriteRunOf(ScriptedSink(later, received + data[..TakenBy(answers)]), AfterRounds(c, |answers|),
                         data[TakenBy(answers)..])
  }

  lemma ResumesEarlier(answers: seq<Response>, later: seq<Response>, received: Bytes, c: Schedule, data: Bytes,
                       run: WriteRun)
    requires Unfinished(answers, |data|) && 0 < |answers| && Outlasts(c, |answers|)
    requires var n := answers[0].count;
             Resumes(run, answers[1..], later, received + data[..n], Polled(c), data[n..])
    ensures Resumes(run, answers, later, received, c, data)
  {
    TwoChunks(received, data, answers[0].count, TakenBy(answers[1..]));
  }

  lemma {:induction false} UnfinishedResumes(answers: seq<Response>, later: seq<Response>, received: Bytes, c: Schedule,
                                             data: Bytes, run: WriteRun)
    requires Unfinished(answers, |data|) && Outlasts(c, |answers|)
    requires run == WriteRunOf(ScriptedSink(answers + later, received), c, data)
    ensures Resumes(run, answers, later, received, c, data)
    decreases |answers|
  {
    if |answers| == 0 {
      assert answers + later == later && received + data[..0] == received && data[0..] == data;
    } else {
      var n := answers[0].count;
      FirstAnswer(answers, later);
      OneScriptedRound(answers + later, received, c, data);
      UnfinishedResumes(answers[1..], later, received + data[..n], Polled(c), data[n..], run);
      ResumesEarlier(answers, later, received, c, data, run);
    }
  }

  /** As long as the answers advance and the flag is not seen, the adapter has their bytes and is offered the rest. */
  lemma UnfinishedWrite(answers: seq<Response>, later: seq<Response>, received: Bytes, c: Schedule, data: Bytes)
    requires Unfinished(answers, |data|) && Outlasts(c, |answers|)
    ensures TakenBy(answers) < |data|
    ensures WriteRunOf(ScriptedSink(answers + later, received), c, data)
         == WriteRunOf(ScriptedSink(later, received + data[..TakenBy(answers)]), AfterRounds(c, |answers|),
                       data[TakenBy(answers)..])
  {
    UnfinishedResumes(answers, later, received, c, data, WriteRunOf(ScriptedSink(answers + later, received), c, data));
  }

  /** How one call ends an uncancelled write of `rest`, unless it advances. */
  ghost predicate StopsAs(run: WriteRun, last: Response, later: seq<Response>, received: Bytes, rest: Bytes) {
    match last
    case Refused(error) => run == WriteRun(Err(error), ScriptedSink(later, received), Never)
    case Accepted(count) =>
      if count > |rest| then run == WriteRun(Err(PluginContractViolation), ScriptedSink(later, received + rest), Never)
      else if count == |rest| then run == WriteRun(Ok(Unit), ScriptedSink(later, received + rest), Never)
      else if count == 0 then run == WriteRun(Err(IoNoProgress), ScriptedSink(later, received), Never)
      else Advances(last, |rest|)
  }

  lemma OneStoppingCall(last: Response, later: seq<Response>, received: Bytes, rest: Bytes)
    requires 0 < |rest|
    ensures StopsAs(WriteRunOf(ScriptedSink([last] + later, received), Never, rest), last, later, received, rest)
  {
    assert ([last] + later)[1..] == later;
    assert rest[..|rest|] == rest;
    assert received + rest[..0] == received;
  }

  /**
   * The answer that stops an uncancelled write. An adapter's error is passed on; a count above what was
   * offered breaks the contract; a count of zero is a lack of progress; the count that completes the data
   * is the success.
   */
  lemma StoppingAnswer(answers: seq<Response>, last: Response, later: seq<Response>, received: Bytes, data: Bytes)
    requires Unfinished(answers, |data|)
    ensures TakenBy(answers) < |data|
    ensures StopsAs(WriteRunOf(ScriptedSink(answers + [last] + later, received), Never, data),
                    last, later, received + data[..TakenBy(answers)], data[TakenBy(answers)..])
  {
    assert answers + [last] + later == answers + ([last] + later);
    UnfinishedWrite(answers, [last] + later, received, Never, data);
    OneStoppingCall(last, later, received + data[..TakenBy(answers)], data[TakenBy(answers)..]);
  }

  lemma {:induction false} TakenWriteSucceeds(answers: seq<Response>, later: seq<Response>, received: Bytes,
                                              data: Bytes)
    requires Takes(answers, |data|)
    ensures WriteRunOf(ScriptedSink(answers + later, received), Never, data)
         == WriteRun(Ok(Unit), ScriptedSink(later, received + data), Never)
    decreases |answers|
  {
    if |data| == 0 {
      assert answers + later == later && received + data == received;
    } else {
      var count := answers[0].count;
      assert (answers + later)[0] == answers[0];
      assert (answers + later)[1..] == answers[1..] + later;
      TakenWriteSucceeds(answers[1..], later, received + data[..count], data[count..]);
      assert (received + data[..count]) + data[count..] == received + data;
    }
  }

  lemma {:induction false} SuccessWasTaken(responses: seq<Response>, received: Bytes, data: Bytes) returns (used: nat)
    requires WriteRunOf(ScriptedSink(responses, received), Never, data).status.Ok?
    ensures used <= |responses| && Takes(responses[..used], |data|)
    decreases |responses|
  {
    used := 0;
    if |data| > 0 {
      var count := responses[0].count;
      var rest := SuccessWasTaken(responses[1..], received + data[..count], data[count..]);
      used := rest + 1;
      assert responses[..used][0] == responses[0];
      assert responses[..used][1..] == responses[1..][..rest];
    }
  }

  /**
   * Against any adapter, a write succeeds exactly when the adapter's first answers take everything, and
   * then the adapter has received the data once and in order.
   */
  lemma ScriptedWriteAll(responses: seq<Response>, received: Bytes, data: Bytes)
    ensures var run := WriteRunOf(ScriptedSink(responses, received), Never, data);
            && (run.status.Ok? <==> exists used: nat :: used <= |responses| && Takes(responses[..used], |data|))
            && forall used: nat | used <= |responses| && Takes(responses[..used], |data|) ::
                 run.sink == ScriptedSink(responses[used..], received + data)
  {
    if WriteRunOf(ScriptedSink(responses, received), Never, data).status.Ok? {
      var used := SuccessWasTaken(responses, received, data);
    }
    forall used: nat | used <= |responses| && Takes(responses[..used], |data|)
      ensures WriteRunOf(ScriptedSink(responses, received), Never, data)
           == WriteRun(Ok(Unit), ScriptedSink(responses[used..], received + data), Never)
    {
      assert responses == responses[..used] + responses[used..];
      TakenWriteSucceeds(responses[..used], responses[used..], received, data);
    }
  }

  /** A write that still has bytes to offer after `polls` answers, when the flag is seen at the next poll. */
  predicate NeedsMore(responses: seq<Response>, polls: nat, offered: nat) {
    polls <= |responses| && Unfinished(responses[..polls], offered)
  }

  /** What a run consumed of a script. */
  ghost predicate Consumed(responses: seq<Response>, run: WriteRun, used: nat) {
    used <= |responses| && run.sink.ScriptedSink? && run.sink.responses == responses[used..]
  }

  /** The runs differ in nothing but what is left of their schedules. */
  predicate Agree(run: WriteRun, other: WriteRun) {
    run.status == other.status && run.sink == other.sink
  }

  lemma StopsAtFirst(responses: seq<Response>, received: Bytes, c: Schedule, d: Schedule, data: Bytes)
    requires !Raised(c) && !Raised(d) && 0 < |data|
    requires |responses| == 0 || !Advances(responses[0], |data|)
    ensures Agree(WriteRunOf(ScriptedSink(responses, received), c, data),
                  WriteRunOf(ScriptedSink(responses, received), d, data))
    ensures Consumed(responses, WriteRunOf(ScriptedSink(responses, received), c, data),
                     if |responses| == 0 then 0 else 1)
  {
  }

  lemma ConsumedOneMore(responses: seq<Response>, run: WriteRun, used: nat)
    requires 0 < |responses| && Consumed(responses[1..], run, used)
    ensures Consumed(responses, run, used + 1)
  {
    assert responses[1..][used..] == responses[used + 1..];
  }

  lemma NeedsMoreLater(responses: seq<Response>, polls: nat, offered: nat)
    requires 0 < |responses| && 0 < polls && Advances(responses[0], offered)
    ensures NeedsMore(responses, polls, offered) <==>
            NeedsMore(responses[1..], polls - 1, offered - responses[0].count)
  {
    if polls <= |responses| {
      assert responses[..polls][0] == responses[0];
      assert responses[..polls][1..] == responses[1..][..polls - 1];
    }
  }

  lemma {:induction false} FinishedInTime(responses: seq<Response>, received: Bytes, polls: nat, data: Bytes,
                                          run: WriteRun, other: WriteRun)
    requires !NeedsMore(responses, polls, |data|)
    requires run == WriteRunOf(ScriptedSink(responses, received), AfterPolls(polls), data)
    requires other == WriteRunOf(ScriptedSink(responses, received), Never, data)
    ensures Agree(run, other)
    ensures exists used: nat :: used <= polls && Consumed(responses, run, used)
    decreases |responses|
  {
    if |data| == 0 {
      assert responses[0..] == responses;
      assert Consumed(responses, run, 0);
      return;
    }
    if |responses| == 0 || !Advances(responses[0], |data|) {
      StopsAtFirst(responses, received, AfterPolls(polls), Never, data);
      return;
    }
    OneScriptedRound(responses, received, AfterPolls(polls), data);
    OneScriptedRound(responses, received, Never, data);
    NeedsMoreLater(responses, polls, |data|);
    var n := responses[0].count;
    FinishedInTime(responses[1..], received + data[..n], polls - 1, data[n..], run, other);
    var used: nat :| used <= polls - 1 && Consumed(responses[1..], run, used);
    ConsumedOneMore(responses, run, used);
  }

  /**
   * Cancellation against any adapter. A write makes at most as many calls as polls pass before the flag
   * is seen. One that would need more ends as cancelled with exactly the bytes taken so far received; one
   * that would not ends as if nobody had cancelled.
   */
  lemma CancelledWriteAll(responses: seq<Response>, received: Bytes, polls: nat, data: Bytes)
    ensures NeedsMore(responses, polls, |data|) ==> TakenBy(responses[..polls]) < |data|
    ensures var run, uncancelled := WriteRunOf(ScriptedSink(responses, received), AfterPolls(polls), data),
                                    WriteRunOf(ScriptedSink(responses, received), Never, data);
            && (exists used: nat :: used <= polls && Consumed(responses, run, used))
            && (if NeedsMore(responses, polls, |data|) then
                  run == WriteRun(Err(OperationCancelled),
                                  ScriptedSink(responses[polls..], received + data[..TakenBy(responses[..polls])]),
                                  AfterPolls(0))
                else Agree(run, uncancelled))
  {
    if NeedsMore(responses, polls, |data|) {
      var answers, later := responses[..polls], responses[polls..];
      assert responses == answers + later;
      UnfinishedWrite(answers, later, received, AfterPolls(polls), data);
      CancelledWriteDoesNothing(ScriptedSink(later, received + data[..TakenBy(answers)]), AfterPolls(0),
                                data[TakenBy(answers)..]);
      assert Consumed(responses, WriteRunOf(ScriptedSink(responses, received), AfterPolls(polls), data), polls);
    } else {
      FinishedInTime(responses, received, polls, data,
                     WriteRunOf(ScriptedSink(responses, received), AfterPolls(polls), data),
                     WriteRunOf(ScriptedSink(responses, received), Never, data));
    }
  }

  /** However it ends, an adapter never receives a byte twice or out of order. */
  lemma {:induction false} ScriptedWriteIsPrefix(responses: seq<Response>, received: Bytes, c: Schedule, data: Bytes)
    returns (count: nat)
    ensures var run := WriteRunOf(ScriptedSink(responses, received), c, data);
            && count <= |data| && run.sink.ScriptedSink? && run.sink.received == received + data[..count]
            && (run.status.Ok? ==> count == |data|)
    decreases |data|
  {
    count := 0;
    assert received + data[..0] == received;
    if |data| > 0 && !Raised(c) && |responses| > 0 && responses[0].Accepted? {
      var first := Min(responses[0].count, |data|);
      count := first;
      if Judge(responses[0], |data|).Ok? {
        var more := ScriptedWriteIsPrefix(responses[1..], received + data[..first], Polled(c), data[first..]);
        count := first + more;
        Prefixes(data, first, more);
        assert (received + data[..first]) + data[first..][..more] == received + data[..count];
      }
    }
  }
}
