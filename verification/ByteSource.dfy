/**
 * Exact reads over sources that may deliver less than they are asked for.
 *
 * A source is either in memory or scripted: a scripted one answers call after call with whatever its
 * script says, so a script stands for any behaviour an adapter can show.
 */
module ByteSources {
  import opened Cancellation
  import opened Outcomes

  /** What a scripted source does on one call: the bytes it reports, or an error. */
  datatype Response = Delivered(data: Bytes, eof: bool) | Failed(error: ErrorCode)

  datatype Source =
    | MemorySource(bytes: Bytes, maximumRead: nat, position: nat)
    | ScriptedSource(responses: seq<Response>)

  predicate ValidSource(s: Source) {
    s.MemorySource? ==> 0 < s.maximumRead && s.position <= |s.bytes|
  }

  function Min(a: nat, b: nat): nat {
    if a < b then a else b
  }

  /** One call: the answer, the source after it and what is left of the schedule. */
  datatype ReadStep = ReadStep(answer: Response, source: Source, schedule: Schedule)

  function ReadOnce(s: Source, c: Schedule, requested: nat): (r: ReadStep)
    requires ValidSource(s)
    ensures ValidSource(r.source)
  {
    match s
    case MemorySource(bytes, maximumRead, position) =>
      if Raised(c) then ReadStep(Failed(OperationCancelled), s, Polled(c))
      else
        var count := Min(requested, Min(maximumRead, |bytes| - position));
        ReadStep(Delivered(bytes[position..position + count], position + count == |bytes|),
                 s.(position := position + count), Polled(c))
    case ScriptedSource(responses) =>
      if |responses| == 0 then ReadStep(Failed(IoReadFailed), s, c)
      else ReadStep(responses[0], ScriptedSource(responses[1..]), c)
  }

  /** A whole exact read: how it ends, what reached the destination, and the state after it. */
  datatype ReadRun = ReadRun(status: Status, delivered: Bytes, source: Source, schedule: Schedule)

  function After(before: Bytes, run: ReadRun): ReadRun {
    run.(delivered := before + run.delivered)
  }

  /** How one round of the retry loop judges the answer it got. */
  function Judge(answer: Response, wanted: nat): (r: Status) {
    match answer
    case Failed(error) => Err(error)
    case Delivered(data, eof) =>
      if |data| > wanted then Err(PluginContractViolation)
      else if |data| == 0 then Err(if eof then UnexpectedEnd else IoNoProgress)
      else if eof && |data| != wanted then Err(UnexpectedEnd)
      else Ok(Unit)
  }

  /** What one answer leaves in the destination. */
  function Usable(answer: Response, wanted: nat): (b: Bytes)
    ensures |b| <= wanted
    ensures Judge(answer, wanted).Ok? ==> 0 < |b|
    ensures Judge(answer, wanted).Ok? && |b| < wanted ==> !answer.eof
  {
    if answer.Delivered? && |answer.data| <= wanted then answer.data else []
  }

  function ReadRunOf(s: Source, c: Schedule, wanted: nat): (r: ReadRun)
    requires ValidSource(s)
    ensures ValidSource(r.source)
    ensures |r.delivered| <= wanted
    ensures r.status.Ok? ==> |r.delivered| == wanted
    decreases wanted
  {
    if wanted == 0 then ReadRun(Ok(Unit), [], s, c)
    else if Raised(c) then ReadRun(Err(OperationCancelled), [], s, Polled(c))
    else
      var step := ReadOnce(s, Polled(c), wanted);
      var data := Usable(step.answer, wanted);
      if Judge(step.answer, wanted).Err? then ReadRun(Judge(step.answer, wanted), data, step.source, step.schedule)
      else After(data, ReadRunOf(step.source, step.schedule, wanted - |data|))
  }

  /** A run that has put `before` into the destination and still has `rest` to go. */
  ghost predicate Reached(whole: ReadRun, before: Bytes, rest: ReadRun) {
    whole == After(before, rest)
  }

  lemma ReachedFurther(whole: ReadRun, before: Bytes, data: Bytes, rest: ReadRun)
    requires Reached(whole, before, After(data, rest))
    ensures Reached(whole, before + data, rest)
  {
    assert before + (data + rest.delivered) == (before + data) + rest.delivered;
  }

  class ByteSource {
    var state: Source

    constructor (state: Source)
      requires ValidSource(state)
      ensures this.state == state
    {
      this.state := state;
    }

    /** Reads at most what fits in the destination from `offset` on. */
    method Read(destination: array<Byte>, offset: nat, token: CancellationToken) returns (answer: Response)
      requires ValidSource(state) && offset <= destination.Length
      modifies this, token, destination
      ensures ReadStep(answer, state, token.schedule)
           == ReadOnce(old(state), old(token.schedule), destination.Length - offset)
      ensures destination[..offset] == old(destination[..offset])
      ensures answer.Delivered? && |answer.data| <= destination.Length - offset ==>
                destination[offset..offset + |answer.data|] == answer.data
    {
      var requested := destination.Length - offset;
      match state {
        case MemorySource(bytes, maximumRead, position) =>
          var cancelled := token.IsCancelled();
          if cancelled {
            return Failed(OperationCancelled);
          }
          var available := |bytes| - position;
          var count := Min(requested, Min(maximumRead, available));
          var data := bytes[position..position + count];
          CopyInto(destination, offset, data);
          state := MemorySource(bytes, maximumRead, position + count);
          return Delivered(data, position + count == |bytes|);
        case ScriptedSource(responses) =>
          if |responses| == 0 {
            return Failed(IoReadFailed);
          }
          answer := responses[0];
          if answer.Delivered? {
            CopyInto(destination, offset, answer.data[..Min(requested, |answer.data|)]);
          }
          state := ScriptedSource(responses[1..]);
      }
    }

    method Seek(position: U64, token: CancellationToken) returns (r: Status)
      requires ValidSource(state)
      modifies this, token
      ensures ValidSource(state)
      ensures (r, state, token.schedule) == SourceSeek(old(state), position, old(token.schedule))
    {
      var cancelled := token.IsCancelled();
      if cancelled {
        return Err(OperationCancelled);
      }
      if state.ScriptedSource? {
        return Err(UnsupportedFeature);
      }
      if position > |state.bytes| {
        return Err(IoReadFailed);
      }
      state := state.(position := position);
      return Ok(Unit);
    }
  }

  function SourceSeek(s: Source, position: nat, c: Schedule): (Status, Source, Schedule) {
    if Raised(c) then (Err(OperationCancelled), s, Polled(c))
    else if s.ScriptedSource? then (Err(UnsupportedFeature), s, Polled(c))
    else if position > |s.bytes| then (Err(IoReadFailed), s, Polled(c))
    else (Ok(Unit), s.(position := position), Polled(c))
  }

  method CopyInto(destination: array<Byte>, offset: nat, data: Bytes)
    requires offset + |data| <= destination.Length
    modifies destination
    ensures destination[..offset] == old(destination[..offset])
    ensures destination[offset..offset + |data|] == data
    ensures destination[offset + |data|..] == old(destination[offset + |data|..])
  {
    for i := 0 to |data|
      invariant destination[..offset] == old(destination[..offset])
      invariant destination[offset..offset + i] == data[..i]
      invariant destination[offset + |data|..] == old(destination[offset + |data|..])
    {
      destination[offset + i] := data[i];
    }
  }

  /** One round of the retry loop from byte `completed` on: it ends the run, or carries it further. */
  method ReadRound(source: ByteSource, destination: array<Byte>, completed: nat, token: CancellationToken,
                   ghost whole: ReadRun)
    returns (r: Status, count: nat)
    requires ValidSource(source.state) && completed < destination.Length
    requires Reached(whole, destination[..completed],
                     ReadRunOf(source.state, token.schedule, destination.Length - completed))
    modifies source, token, destination
    ensures ValidSource(source.state) && completed + count <= destination.Length
    ensures r.Err? ==> whole == ReadRun(r, destination[..completed + count], source.state, token.schedule)
    ensures r.Ok? ==>
              && 0 < count
              && Reached(whole, destination[..completed + count],
                         ReadRunOf(source.state, token.schedule, destination.Length - completed - count))
  {
    var wanted := destination.Length - completed;
    ghost var before := destination[..completed];
    var cancelled := token.IsCancelled();
    if cancelled {
      return Err(OperationCancelled), 0;
    }
    var outcome := source.Read(destination, completed, token);
    if outcome.Failed? {
      return Err(outcome.error), 0;
    }
    count := |outcome.data|;
    if count > wanted {
      return Err(PluginContractViolation), 0;
    }
    if count == 0 {
      return Err(if outcome.eof then UnexpectedEnd else IoNoProgress), 0;
    }
    assert destination[..completed + count] == before + outcome.data;
    if outcome.eof && count != wanted {
      return Err(UnexpectedEnd), count;
    }
    ReachedFurther(whole, before, outcome.data, ReadRunOf(source.state, token.schedule, wanted - count));
    return Ok(Unit), count;
  }

  /** The retry loop: what it leaves in the destination and how it ends are those of the run. */
  method ReadExact(source: ByteSource, destination: array<Byte>, token: CancellationToken) returns (r: Status)
    requires ValidSource(source.state)
    modifies source, token, destination
    ensures var run := ReadRunOf(old(source.state), old(token.schedule), destination.Length);
            && r == run.status
            && destination[..|run.delivered|] == run.delivered
            && source.state == run.source && token.schedule == run.schedule
  {
    ghost var whole := ReadRunOf(source.state, token.schedule, destination.Length);
    var completed := 0;
    while completed < destination.Length
      invariant 0 <= completed <= destination.Length
      invariant ValidSource(source.state)
      invariant Reached(whole, destination[..completed],
                        ReadRunOf(source.state, token.schedule, destination.Length - completed))
      decreases destination.Length - completed
    {
      var status, count := ReadRound(source, destination, completed, token, whole);
      if status.Err? {
        return status;
      }
      completed := completed + count;
    }
    return Ok(Unit);
  }

  /** A positioned read: capability, one poll, seek, then the retry loop. */
  function ReadAtOf(s: Source, c: Schedule, position: U64, wanted: nat): (r: ReadRun)
    requires ValidSource(s)
    ensures ValidSource(r.source)
    ensures r.status.Ok? ==> |r.delivered| == wanted
  {
    if s.ScriptedSource? then ReadRun(Err(UnsupportedFeature), [], s, c)
    else if Raised(c) then ReadRun(Err(OperationCancelled), [], s, Polled(c))
    else
      var (status, sought, left) := SourceSeek(s, position, Polled(c));
      if status.Err? then ReadRun(status, [], sought, left) else ReadRunOf(sought, left, wanted)
  }

  method ReadExactAt(source: ByteSource, position: U64, destination: array<Byte>, token: CancellationToken)
    returns (r: Status)
    requires ValidSource(source.state)
    modifies source, token, destination
    ensures var run := ReadAtOf(old(source.state), old(token.schedule), position, destination.Length);
            && r == run.status
            && |run.delivered| <= destination.Length && destination[..|run.delivered|] == run.delivered
            && source.state == run.source && token.schedule == run.schedule
  {
    if source.state.ScriptedSource? {
      return Err(UnsupportedFeature);
    }
    var cancelled := token.IsCancelled();
    if cancelled {
      return Err(OperationCancelled);
    }
    r := source.Seek(position, token);
    if r.Err? {
      return r;
    }
    r := ReadExact(source, destination, token);
  }

  // ---------- exact reads from memory ----------

  /** An uncancelled call on memory delivers the next bytes, and delivers none only at the end. */
  lemma OneMemoryRead(s: Source, c: Schedule, wanted: nat) returns (end: nat)
    requires ValidSource(s) && s.MemorySource? && 0 < wanted && !Raised(c)
    ensures s.position <= end <= |s.bytes| && end - s.position <= wanted
    ensures s.position == end ==> end == |s.bytes|
    ensures ReadOnce(s, c, wanted)
         == ReadStep(Delivered(s.bytes[s.position..end], end == |s.bytes|), s.(position := end), Polled(c))
  {
    end := s.position + Min(wanted, Min(s.maximumRead, |s.bytes| - s.position));
  }

  /** One uncancelled round against memory: the end came too early, or the run goes on after the chunk. */
  lemma OneMemoryRound(s: Source, c: Schedule, wanted: nat) returns (end: nat)
    requires ValidSource(s) && s.MemorySource? && 0 < wanted && !Raised(c) && !Raised(Polled(c))
    ensures s.position <= end <= |s.bytes| && end - s.position <= wanted
    ensures end < s.position + wanted ==> s.position < end || end == |s.bytes|
    ensures ReadRunOf(s, c, wanted)
         == if end == |s.bytes| && end - s.position < wanted
            then ReadRun(Err(UnexpectedEnd), s.bytes[s.position..end], s.(position := end), Polled(Polled(c)))
            else After(s.bytes[s.position..end],
                       ReadRunOf(s.(position := end), Polled(Polled(c)), wanted - (end - s.position)))
  {
    end := OneMemoryRead(s, Polled(c), wanted);
  }

  /** Success means everything came; an error is a cancellation that was asked for, or the end of the bytes. */
  predicate StopsRightly(c: Schedule, status: Status, count: nat, wanted: nat, remaining: nat) {
    match status
    case Ok(_) => count == wanted
    case Err(error) =>
      count <= wanted
      && ((error == OperationCancelled && c != Never) || (error == UnexpectedEnd && count == remaining < wanted))
  }

  /** A run that delivered the bytes up to `end`, moved there, and stopped for the right reason. */
  ghost predicate ReadsUpTo(s: Source, c: Schedule, wanted: nat, run: ReadRun, end: nat)
    requires ValidSource(s) && s.MemorySource?
  {
    && s.position <= end <= |s.bytes|
    && run.source == s.(position := end)
    && run.delivered == s.bytes[s.position..end]
    && (c == Never ==> run.schedule == Never)
    && StopsRightly(c, run.status, end - s.position, wanted, |s.bytes| - s.position)
  }

  lemma Slices<T>(s: seq<T>, from: nat, middle: nat, to: nat)
    requires from <= middle <= to <= |s|
    ensures s[from..middle] + s[middle..to] == s[from..to]
  {
  }

  lemma UpToFurther(s: Source, c: Schedule, wanted: nat, middle: nat, run: ReadRun, end: nat)
    requires ValidSource(s) && s.MemorySource?
    requires s.position <= middle <= |s.bytes| && middle - s.position <= wanted
    requires ReadsUpTo(s.(position := middle), Polled(Polled(c)), wanted - (middle - s.position), run, end)
    ensures ReadsUpTo(s, c, wanted, After(s.bytes[s.position..middle], run), end)
  {
    Slices(s.bytes, s.position, middle, end);
  }

  lemma UpToHere(s: Source, c: Schedule, wanted: nat, run: ReadRun)
    requires ValidSource(s) && s.MemorySource?
    requires run.source == s && run.delivered == [] && (c == Never ==> run.schedule == Never)
    requires StopsRightly(c, run.status, 0, wanted, |s.bytes| - s.position)
    ensures ReadsUpTo(s, c, wanted, run, s.position)
  {
  }

  lemma UpToTheEnd(s: Source, c: Schedule, wanted: nat, run: ReadRun)
    requires ValidSource(s) && s.MemorySource? && s.position + wanted > |s.bytes|
    requires run == ReadRun(Err(UnexpectedEnd), s.bytes[s.position..|s.bytes|], s.(position := |s.bytes|),
                            Polled(Polled(c)))
    ensures ReadsUpTo(s, c, wanted, run, |s.bytes|)
  {
  }

  /** A read with nothing to do, or cancelled before its first chunk, leaves the source as it was. */
  lemma ReadStopsAtOnce(s: Source, c: Schedule, wanted: nat)
    requires ValidSource(s) && s.MemorySource? && (wanted == 0 || Raised(c) || Raised(Polled(c)))
    ensures var run := ReadRunOf(s, c, wanted);
            && run.source == s && run.delivered == [] && (c == Never ==> run.schedule == Never)
            && StopsRightly(c, run.status, 0, wanted, |s.bytes| - s.position)
  {
  }

  lemma {:induction false} ReadRunIsNext(s: Source, c: Schedule, wanted: nat, run: ReadRun)
    requires ValidSource(s) && s.MemorySource? && run == ReadRunOf(s, c, wanted)
    ensures exists end: nat :: ReadsUpTo(s, c, wanted, run, end)
    decreases wanted
  {
    if wanted == 0 || Raised(c) || Raised(Polled(c)) {
      ReadStopsAtOnce(s, c, wanted);
      UpToHere(s, c, wanted, run);
      return;
    }
    var middle := OneMemoryRound(s, c, wanted);
    var remaining := wanted - (middle - s.position);
    if middle == |s.bytes| && remaining > 0 {
      UpToTheEnd(s, c, wanted, run);
      return;
    }
    var next := s.(position := middle);
    var rest := ReadRunOf(next, Polled(Polled(c)), remaining);
    ReadRunIsNext(next, Polled(Polled(c)), remaining, rest);
    var end: nat :| ReadsUpTo(next, Polled(Polled(c)), remaining, rest, end);
    UpToFurther(s, c, wanted, middle, rest, end);
  }

  /** Cancelled at any poll or not at all, a read from memory neither loses nor repeats a byte. */
  lemma MemoryReadIsContiguous(s: Source, c: Schedule, wanted: nat)
    requires ValidSource(s) && s.MemorySource?
    ensures exists end: nat :: ReadsUpTo(s, c, wanted, ReadRunOf(s, c, wanted), end)
  {
    ReadRunIsNext(s, c, wanted, ReadRunOf(s, c, wanted));
  }

  /** All or nothing in one step: the next `wanted` bytes, or what there is and the report of the end. */
  function ExactMemoryRead(s: Source, wanted: nat): ReadRun
    requires ValidSource(s) && s.MemorySource?
  {
    if s.position + wanted <= |s.bytes|
    then ReadRun(Ok(Unit), s.bytes[s.position..s.position + wanted], s.(position := s.position + wanted), Never)
    else ReadRun(Err(UnexpectedEnd), s.bytes[s.position..], s.(position := |s.bytes|), Never)
  }

  lemma UpToIsExact(s: Source, wanted: nat, run: ReadRun, end: nat)
    requires ValidSource(s) && s.MemorySource? && ReadsUpTo(s, Never, wanted, run, end)
    ensures run == ExactMemoryRead(s, wanted)
  {
    match run.status {
      case Ok(unit) => assert unit == Unit;
      case Err(error) => assert error == UnexpectedEnd;
    }
  }

  /** An exact read from memory succeeds exactly when the bytes are there, whatever the chunk size. */
  lemma MemoryReadExact(s: Source, wanted: nat)
    requires ValidSource(s) && s.MemorySource?
    ensures ReadRunOf(s, Never, wanted) == ExactMemoryRead(s, wanted)
  {
    var run := ReadRunOf(s, Never, wanted);
    ReadRunIsNext(s, Never, wanted, run);
    var end: nat :| ReadsUpTo(s, Never, wanted, run, end);
    UpToIsExact(s, wanted, run, end);
  }

  // ---------- positions ----------

  /** One call on memory asks for what fits in the chunk size and what is left, whichever is least. */
  lemma MemoryChunk(s: Source, c: Schedule, requested: nat)
    requires ValidSource(s) && s.MemorySource? && !Raised(c)
    ensures var step, remaining := ReadOnce(s, c, requested), |s.bytes| - s.position;
            && step.answer.Delivered?
            && var n := |step.answer.data|;
            && n <= requested && n <= s.maximumRead && n <= remaining
            && (n == requested || n == s.maximumRead || n == remaining)
            && (step.answer.eof <==> n == remaining)
  {
  }

  /** Seeking past the end is refused and moves nothing; seeking to the end or before it moves there. */
  lemma SeekExactly(s: Source, position: nat, c: Schedule)
    requires ValidSource(s) && s.MemorySource? && !Raised(c)
    ensures SourceSeek(s, position, c)
         == if position <= |s.bytes| then (Ok(Unit), s.(position := position), Polled(c))
            else (Err(IoReadFailed), s, Polled(c))
  {
  }

  /**
   * A positioned read succeeds exactly when all its bytes lie before the end; past the end it is refused
   * with nothing delivered and the position left alone, never clamped to the end.
   */
  lemma MemoryReadAt(s: Source, position: U64, wanted: nat)
    requires ValidSource(s) && s.MemorySource?
    ensures ReadAtOf(s, Never, position, wanted)
         == if position > |s.bytes| then ReadRun(Err(IoReadFailed), [], s, Never)
            else if position + wanted > |s.bytes| then
              ReadRun(Err(UnexpectedEnd), s.bytes[position..], s.(position := |s.bytes|), Never)
            else ReadRun(Ok(Unit), s.bytes[position..position + wanted], s.(position := position + wanted), Never)
  {
    if position <= |s.bytes| {
      MemoryReadExact(s.(position := position), wanted);
    }
  }

  /** A source that cannot seek is neither polled for nor asked anything. */
  lemma ScriptedReadAt(responses: seq<Response>, c: Schedule, position: U64, wanted: nat)
    ensures ReadAtOf(ScriptedSource(responses), c, position, wanted)
         == ReadRun(Err(UnsupportedFeature), [], ScriptedSource(responses), c)
  {
  }

  // ---------- cancellation ----------

  /** A cancelled read of at least one byte asks no adapter for anything, and delivers nothing. */
  lemma CancelledReadDoesNothing(s: Source, c: Schedule, wanted: nat)
    requires ValidSource(s) && Raised(c) && 0 < wanted
    ensures ReadRunOf(s, c, wanted) == ReadRun(Err(OperationCancelled), [], s, c)
  {
  }

  /** A cancelled positioned read of anything leaves the position alone as well. */
  lemma CancelledReadAtDoesNothing(s: Source, c: Schedule, position: U64, wanted: nat)
    requires ValidSource(s) && s.MemorySource? && (Raised(c) || Raised(Polled(c)))
    ensures ReadAtOf(s, c, position, wanted) == ReadRun(Err(OperationCancelled), [], s, AfterPolls(0))
  {
  }

  // ---------- exact reads from any adapter ----------

  function Concatenated(responses: seq<Response>): Bytes
    decreases |responses|
  {
    if |responses| == 0 then []
    else (if responses[0].Delivered? then responses[0].data else []) + Concatenated(responses[1..])
  }

  /** An answer that brings some of what is wanted, no more, and does not end too early. */
  predicate Advances(answer: Response, wanted: nat) {
    answer.Delivered? && 0 < |answer.data| <= wanted && (answer.eof ==> |answer.data| == wanted)
  }

  /** Answers that let the loop go on until `wanted` bytes have come, and no further. */
  predicate Serves(responses: seq<Response>, wanted: nat)
    decreases |responses|
  {
    if wanted == 0 then |responses| == 0
    else |responses| > 0 && Advances(responses[0], wanted) && Serves(responses[1..], wanted - |responses[0].data|)
  }

  /** Answers that all advance the read and leave it wanting more. */
  predicate Unfinished(responses: seq<Response>, wanted: nat)
    decreases |responses|
  {
    && 0 < wanted
    && (|responses| > 0 ==>
          Advances(responses[0], wanted) && Unfinished(responses[1..], wanted - |responses[0].data|))
  }

  /** What is left of a schedule after `n` polls that did not see the flag. */
  function AfterRounds(c: Schedule, n: nat): Schedule {
    if c.AfterPolls? && c.polls >= n then AfterPolls(c.polls - n) else c
  }

  predicate Outlasts(c: Schedule, n: nat) {
    c == Never || c.polls >= n
  }

  lemma OneScriptedRound(responses: seq<Response>, c: Schedule, wanted: nat)
    requires 0 < |responses| && Advances(responses[0], wanted) && !Raised(c)
    ensures ReadRunOf(ScriptedSource(responses), c, wanted)
         == After(responses[0].data, ReadRunOf(ScriptedSource(responses[1..]), Polled(c), wanted - |responses[0].data|))
  {
  }

  lemma AfterBoth(data: Bytes, more: Bytes, run: ReadRun)
    ensures After(data, After(more, run)) == After(data + more, run)
  {
    assert data + (more + run.delivered) == (data + more) + run.delivered;
  }

  lemma AfterNothing(run: ReadRun)
    ensures After([], run) == run
  {
  }

  lemma FirstAnswer(answers: seq<Response>, later: seq<Response>)
    requires 0 < |answers|
    ensures (answers + later)[0] == answers[0] && (answers + later)[1..] == answers[1..] + later
  {
  }

  /** `whole` is what the loop does once it has the answers' bytes and asks again. */
  ghost predicate Resumes(whole: ReadRun, answers: seq<Response>, later: seq<Response>, c: Schedule, wanted: nat)
    requires |Concatenated(answers)| <= wanted
  {
    whole == After(Concatenated(answers),
                   ReadRunOf(ScriptedSource(later), AfterRounds(c, |answers|), wanted - |Concatenated(answers)|))
  }

  lemma ResumesEarlier(answers: seq<Response>, later: seq<Response>, c: Schedule, wanted: nat, rest: ReadRun)
    requires Unfinished(answers, wanted) && 0 < |answers| && Outlasts(c, |answers|)
    requires |Concatenated(answers[1..])| < wanted - |answers[0].data|
    requires Resumes(rest, answers[1..], later, Polled(c), wanted - |answers[0].data|)
    ensures |Concatenated(answers)| < wanted
    ensures Resumes(After(answers[0].data, rest), answers, later, c, wanted)
  {
    AfterBoth(answers[0].data, Concatenated(answers[1..]),
              ReadRunOf(ScriptedSource(later), AfterRounds(c, |answers|), wanted - |Concatenated(answers)|));
  }

  lemma {:induction false} UnfinishedResumes(answers: seq<Response>, later: seq<Response>, c: Schedule, wanted: nat,
                                             run: ReadRun)
    requires Unfinished(answers, wanted) && Outlasts(c, |answers|)
    requires run == ReadRunOf(ScriptedSource(answers + later), c, wanted)
    ensures |Concatenated(answers)| < wanted && Resumes(run, answers, later, c, wanted)
    decreases |answers|
  {
    if |answers| == 0 {
      assert answers + later == later;
      AfterNothing(run);
    } else {
      FirstAnswer(answers, later);
      OneScriptedRound(answers + later, c, wanted);
      var rest := ReadRunOf(ScriptedSource(answers[1..] + later), Polled(c), wanted - |answers[0].data|);
      UnfinishedResumes(answers[1..], later, Polled(c), wanted - |answers[0].data|, rest);
      ResumesEarlier(answers, later, c, wanted, rest);
    }
  }

  /** As long as the answers advance and the flag is not seen, the loop has the answers' bytes and asks again. */
  lemma UnfinishedRead(answers: seq<Response>, later: seq<Response>, c: Schedule, wanted: nat)
    requires Unfinished(answers, wanted) && Outlasts(c, |answers|)
    ensures |Concatenated(answers)| < wanted
    ensures ReadRunOf(ScriptedSource(answers + later), c, wanted)
         == After(Concatenated(answers),
                  ReadRunOf(ScriptedSource(later), AfterRounds(c, |answers|), wanted - |Concatenated(answers)|))
  {
    UnfinishedResumes(answers, later, c, wanted, ReadRunOf(ScriptedSource(answers + later), c, wanted));
  }

  /** How one call ends an uncancelled read that has `before` and misses `missing` bytes, unless it advances. */
  ghost predicate StopsAs(run: ReadRun, last: Response, later: seq<Response>, before: Bytes, missing: nat) {
    match last
    case Failed(error) => run == ReadRun(Err(error), before, ScriptedSource(later), Never)
    case Delivered(data, eof) =>
      if |data| > missing then run == ReadRun(Err(PluginContractViolation), before, ScriptedSource(later), Never)
      else if |data| == missing then run == ReadRun(Ok(Unit), before + data, ScriptedSource(later), Never)
      else if eof then run == ReadRun(Err(UnexpectedEnd), before + data, ScriptedSource(later), Never)
      else if |data| == 0 then run == ReadRun(Err(IoNoProgress), before, ScriptedSource(later), Never)
      else Advances(last, missing)
  }

  lemma OneStoppingCall(last: Response, later: seq<Response>, missing: nat)
    requires 0 < missing
    ensures StopsAs(ReadRunOf(ScriptedSource([last] + later), Never, missing), last, later, [], missing)
  {
    assert ([last] + later)[1..] == later;
    if last.Delivered? {
      assert [] + last.data == last.data;
    }
  }

  lemma StopsAfter(run: ReadRun, last: Response, later: seq<Response>, before: Bytes, missing: nat)
    requires StopsAs(run, last, later, [], missing)
    ensures StopsAs(After(before, run), last, later, before, missing)
  {
    if last.Delivered? {
      assert [] + last.data == last.data;
    }
  }

  /**
   * The answer that stops an uncancelled read. An adapter's error is passed on; more bytes than wanted
   * break the contract and count for nothing; no bytes are the end or a lack of progress; a short answer
   * at the end keeps its bytes; the answer that completes the request is the success.
   */
  lemma StoppingAnswer(answers: seq<Response>, last: Response, later: seq<Response>, wanted: nat)
    requires Unfinished(answers, wanted)
    ensures |Concatenated(answers)| < wanted
    ensures StopsAs(ReadRunOf(ScriptedSource(answers + [last] + later), Never, wanted),
                    last, later, Concatenated(answers), wanted - |Concatenated(answers)|)
  {
    assert answers + [last] + later == answers + ([last] + later);
    UnfinishedRead(answers, [last] + later, Never, wanted);
    var missing := wanted - |Concatenated(answers)|;
    OneStoppingCall(last, later, missing);
    StopsAfter(ReadRunOf(ScriptedSource([last] + later), Never, missing), last, later, Concatenated(answers), missing);
  }

  /** Answers that serve the request are read to the last byte, and nothing after them is consumed. */
  lemma {:induction false} ServedReadSucceeds(answers: seq<Response>, later: seq<Response>, wanted: nat)
    requires Serves(answers, wanted)
    ensures ReadRunOf(ScriptedSource(answers + later), Never, wanted)
         == ReadRun(Ok(Unit), Concatenated(answers), ScriptedSource(later), Never)
    decreases |answers|
  {
    if wanted == 0 {
      assert answers + later == later;
    } else {
      assert (answers + later)[0] == answers[0];
      assert (answers + later)[1..] == answers[1..] + later;
      ServedReadSucceeds(answers[1..], later, wanted - |answers[0].data|);
    }
  }

  /** A read that succeeds was served by the adapter's first answers. */
  lemma {:induction false} SuccessWasServed(responses: seq<Response>, wanted: nat) returns (used: nat)
    requires ReadRunOf(ScriptedSource(responses), Never, wanted).status.Ok?
    ensures used <= |responses| && Serves(responses[..used], wanted)
    decreases |responses|
  {
    used := 0;
    if wanted > 0 {
      var rest := SuccessWasServed(responses[1..], wanted - |responses[0].data|);
      used := rest + 1;
      assert responses[..used][0] == responses[0];
      assert responses[..used][1..] == responses[1..][..rest];
    }
  }

  /**
   * Against any adapter, an exact read succeeds exactly when the adapter's first answers serve the
   * request, and then the destination holds precisely their bytes.
   */
  lemma ScriptedReadExact(responses: seq<Response>, wanted: nat)
    ensures var run := ReadRunOf(ScriptedSource(responses), Never, wanted);
            && (run.status.Ok? <==> exists used: nat :: used <= |responses| && Serves(responses[..used], wanted))
            && forall used: nat | used <= |responses| && Serves(responses[..used], wanted) ::
                 run.delivered == Concatenated(responses[..used]) && run.source == ScriptedSource(responses[used..])
  {
    if ReadRunOf(ScriptedSource(responses), Never, wanted).status.Ok? {
      var used := SuccessWasServed(responses, wanted);
    }
    forall used: nat | used <= |responses| && Serves(responses[..used], wanted)
      ensures ReadRunOf(ScriptedSource(responses), Never, wanted)
           == ReadRun(Ok(Unit), Concatenated(responses[..used]), ScriptedSource(responses[used..]), Never)
    {
      assert responses == responses[..used] + responses[used..];
      ServedReadSucceeds(responses[..used], responses[used..], wanted);
    }
  }

  /** A read that still wants bytes after `polls` answers, when the flag is seen at the next poll. */
  predicate NeedsMore(responses: seq<Response>, polls: nat, wanted: nat) {
    polls <= |responses| && Unfinished(responses[..polls], wanted)
  }

  /** What a run consumed of a script. */
  ghost predicate Consumed(responses: seq<Response>, run: ReadRun, used: nat) {
    used <= |responses| && run.source == ScriptedSource(responses[used..])
  }

  /** The runs differ in nothing but what is left of their schedules. */
  predicate Agree(run: ReadRun, other: ReadRun) {
    run.status == other.status && run.delivered == other.delivered && run.source == other.source
  }

  lemma StopsAtFirst(responses: seq<Response>, c: Schedule, d: Schedule, wanted: nat)
    requires !Raised(c) && !Raised(d) && 0 < wanted
    requires |responses| == 0 || !Advances(responses[0], wanted)
    ensures Agree(ReadRunOf(ScriptedSource(responses), c, wanted), ReadRunOf(ScriptedSource(responses), d, wanted))
    ensures Consumed(responses, ReadRunOf(ScriptedSource(responses), c, wanted), if |responses| == 0 then 0 else 1)
  {
  }

  lemma ConsumedOneMore(responses: seq<Response>, run: ReadRun, used: nat)
    requires 0 < |responses| && responses[0].Delivered? && Consumed(responses[1..], run, used)
    ensures Consumed(responses, After(responses[0].data, run), used + 1)
  {
    assert responses[1..][used..] == responses[used + 1..];
  }

  lemma NeedsMoreLater(responses: seq<Response>, polls: nat, wanted: nat)
    requires 0 < |responses| && 0 < polls && Advances(responses[0], wanted) && 0 < wanted
    ensures NeedsMore(responses, polls, wanted) <==>
            NeedsMore(responses[1..], polls - 1, wanted - |responses[0].data|)
  {
    if polls <= |responses| {
      assert responses[..polls][0] == responses[0];
      assert responses[..polls][1..] == responses[1..][..polls - 1];
    }
  }

  lemma {:induction false} FinishedInTime(responses: seq<Response>, polls: nat, wanted: nat, run: ReadRun,
                                          other: ReadRun)
    requires !NeedsMore(responses, polls, wanted)
    requires run == ReadRunOf(ScriptedSource(responses), AfterPolls(polls), wanted)
    requires other == ReadRunOf(ScriptedSource(responses), Never, wanted)
    ensures Agree(run, other)
    ensures exists used: nat :: used <= polls && Consumed(responses, run, used)
    decreases |responses|
  {
    if wanted == 0 {
      assert responses[0..] == responses;
      assert Consumed(responses, run, 0);
      return;
    }
    if |responses| == 0 || !Advances(responses[0], wanted) {
      StopsAtFirst(responses, AfterPolls(polls), Never, wanted);
      return;
    }
    OneScriptedRound(responses, AfterPolls(polls), wanted);
    OneScriptedRound(responses, Never, wanted);
    NeedsMoreLater(responses, polls, wanted);
    var missing := wanted - |responses[0].data|;
    var next := ReadRunOf(ScriptedSource(responses[1..]), AfterPolls(polls - 1), missing);
    FinishedInTime(responses[1..], polls - 1, missing, next, ReadRunOf(ScriptedSource(responses[1..]), Never, missing));
    var used: nat :| used <= polls - 1 && Consumed(responses[1..], next, used);
    ConsumedOneMore(responses, next, used);
  }

  /**
   * Cancellation against any adapter. A read consumes at most as many answers as polls pass before the
   * flag is seen. One that would need more ends as cancelled with exactly the bytes of the answers it
   * consumed; one that would not ends as if nobody had cancelled.
   */
  lemma CancelledReadExact(responses: seq<Response>, polls: nat, wanted: nat)
    ensures var run, uncancelled := ReadRunOf(ScriptedSource(responses), AfterPolls(polls), wanted),
                                    ReadRunOf(ScriptedSource(responses), Never, wanted);
            && (exists used: nat :: used <= polls && Consumed(responses, run, used))
            && (if NeedsMore(responses, polls, wanted) then
                  run == ReadRun(Err(OperationCancelled), Concatenated(responses[..polls]),
                                 ScriptedSource(responses[polls..]), AfterPolls(0))
                else Agree(run, uncancelled))
  {
    if NeedsMore(responses, polls, wanted) {
      var answers, later := responses[..polls], responses[polls..];
      assert responses == answers + later;
      UnfinishedRead(answers, later, AfterPolls(polls), wanted);
      CancelledReadDoesNothing(ScriptedSource(later), AfterPolls(0), wanted - |Concatenated(answers)|);
      assert Concatenated(answers) + [] == Concatenated(answers);
      assert Consumed(responses, ReadRunOf(ScriptedSource(responses), AfterPolls(polls), wanted), polls);
    } else {
      FinishedInTime(responses, polls, wanted, ReadRunOf(ScriptedSource(responses), AfterPolls(polls), wanted),
                     ReadRunOf(ScriptedSource(responses), Never, wanted));
    }
  }
}
