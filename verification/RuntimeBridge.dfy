/** The stdio bridge to the runtime API: thread map, sequence cursors and streamed turns. */
module RuntimeBridge {
  import opened Wrappers
  import opened Search
  import opened Text
  import opened Binary
  import opened SseFrames
  import SseEvents

  datatype Payload = Payload(kind: Option<string>, delta: Option<string>, status: Option<string>, error: Option<string>)

  /** The JSON fields of an event that the bridge reads. */
  datatype Envelope = Envelope(seqNo: Option<nat>, turnId: Option<string>, payload: Payload)

  /** UTF-8 and JSON decoding; both may refuse. */
  datatype Codec = Codec(decode: Bytes -> Option<string>, json: string -> Option<Envelope>)

  datatype TurnStatus = Completed | Failed | Interrupted | Canceled

  function TurnTerminalStatus(p: Payload): TurnStatus {
    var status := Lower(if p.status.Some? then p.status.value else "completed");
    if status == "failed" then Failed
    else if status == "interrupted" then Interrupted
    else if status == "canceled" || status == "cancelled" then Canceled
    else Completed
  }

  datatype StdioEvent = ResponseStart(id: string) | ResponseDelta(id: string, delta: string) | ResponseEnd(id: string)

  /** Events written so far, and how many writes were tried. */
  datatype Out = Out(log: seq<StdioEvent>, attempts: nat)

  function Emitted(broken: nat -> bool, out: Out, e: StdioEvent): Out {
    Out(if broken(out.attempts) then out.log else out.log + [e], out.attempts + 1)
  }

  class StdioWriter {
    const broken: nat -> bool
    var log: seq<StdioEvent>
    var attempts: nat

    constructor (broken: nat -> bool)
      ensures this.broken == broken && Written() == Out([], 0)
    {
      this.broken := broken;
      log, attempts := [], 0;
    }

    function Written(): Out reads this { Out(log, attempts) }

    method Emit(e: StdioEvent) returns (ok: bool)
      modifies this
      ensures Written() == Emitted(broken, old(Written()), e) && ok == !broken(old(attempts))
    {
      ok := !broken(attempts);
      if ok { log := log + [e]; }
      attempts := attempts + 1;
    }
  }

  /** The events endpoint: refused, or chunks followed by end of stream or a read error. */
  datatype Response = Refused | Streaming(chunks: seq<Bytes>)

  /** A frame is ignored, is bad JSON, or carries an event. */
  datatype Decoded = Ignored | BadJson | Event(name: string, envelope: Envelope)

  datatype Progress =
    | Reading(lastSeq: nat, out: Out)
    | Ended(lastSeq: nat, out: Out, status: TurnStatus, error: Option<string>)
    | Aborted(out: Out)

  function Max(a: nat, b: nat): nat { if a < b then b else a }

  /** What stays fixed while one turn is streamed. */
  datatype Session = Session(codec: Codec, broken: nat -> bool, turnId: string, responseId: string) {
    function Decode(frame: Bytes): Decoded {
      match SseEvents.ParseFrame(codec.decode, frame)
      case None => Ignored
      case Some(event) =>
        match codec.json(event.data)
        case None => BadJson
        case Some(envelope) => Event(event.name, envelope)
    }

    predicate Own(d: Decoded) { d.Event? && d.envelope.turnId == Some(turnId) }

    predicate Stops(d: Decoded) { d.BadJson? || (Own(d) && d.name == "turn.completed") }

    /** The non-empty agent text an event of this turn carries. */
    function Delta(d: Decoded): (r: Option<string>)
      ensures r.Some? ==> Own(d) && !Stops(d)
    {
      if Own(d) && d.name == "item.delta" && d.envelope.payload.kind == Some("agent_message")
         && d.envelope.payload.delta.Some? && d.envelope.payload.delta.value != ""
      then d.envelope.payload.delta
      else None
    }

    function Advance(d: Decoded, lastSeq: nat): nat {
      if d.Event? && d.envelope.seqNo.Some? then Max(lastSeq, d.envelope.seqNo.value) else lastSeq
    }

    function DecodeAll(frames: seq<Bytes>): (r: seq<Decoded>)
      ensures |r| == |frames| && forall i :: 0 <= i < |r| ==> r[i] == Decode(frames[i])
    {
      if frames == [] then [] else [Decode(frames[0])] + DecodeAll(frames[1..])
    }

    function OnEvent(d: Decoded, lastSeq: nat, out: Out): Progress {
      var last := Advance(d, lastSeq);
      if d.BadJson? then Aborted(out)
      else if Stops(d) then Ended(last, out, TurnTerminalStatus(d.envelope.payload), d.envelope.payload.error)
      else match Delta(d)
        case None => Reading(last, out)
        case Some(text) =>
          var sent := Emitted(broken, out, ResponseDelta(responseId, text));
          if broken(out.attempts) then Aborted(sent) else Reading(last, sent)
    }

    function OnEvents(events: seq<Decoded>, p: Progress): Progress
      decreases |events|
    {
      if events == [] || !p.Reading? then p else OnEvents(events[1..], OnEvent(events[0], p.lastSeq, p.out))
    }

    function StreamTurn(response: Response, since: nat, out: Out): (p: Progress)
      ensures !p.Reading?
    {
      match response
      case Refused => Aborted(out)
      case Streaming(chunks) =>
        match OnEvents(DecodeAll(Feed([], chunks).frames), Reading(since, out))
        case Reading(_, sent) => Aborted(sent)
        case p => p
    }

    lemma {:induction false} OnEventsAppend(a: seq<Decoded>, b: seq<Decoded>, p: Progress)
      ensures OnEvents(a + b, p) == OnEvents(b, OnEvents(a, p))
      decreases |a|
    {
      if a == [] {
        assert a + b == b;
      } else if p.Reading? {
        assert (a + b)[1..] == a[1..] + b;
        OnEventsAppend(a[1..], b, OnEvent(a[0], p.lastSeq, p.out));
      }
    }

    lemma {:induction false} DecodeAppend(a: seq<Bytes>, b: seq<Bytes>)
      ensures DecodeAll(a + b) == DecodeAll(a) + DecodeAll(b)
    {
      if a == [] {
        assert a + b == b;
      } else {
        assert (a + b)[1..] == a[1..] + b;
        DecodeAppend(a[1..], b);
      }
    }
  }

  method StreamTurnEvents(s: Session, since: nat, response: Response, writer: StdioWriter) returns (result: Progress)
    requires writer.broken == s.broken
    modifies writer
    ensures result == s.StreamTurn(response, since, old(writer.Written())) && writer.Written() == result.out
  {
    if response.Refused? { return Aborted(writer.Written()); }
    var buffer := new SseBuffer();
    result := Reading(since, writer.Written());
    var chunks := response.chunks;
    ghost var final := s.OnEvents(s.DecodeAll(Feed([], chunks).frames), result);
    for i := 0 to |chunks|
      invariant fresh(buffer) && result.Reading? && writer.Written() == result.out
      invariant final == s.OnEvents(s.DecodeAll(Feed(buffer.bytes, chunks[i..]).frames), result)
    {
      assert chunks[i..][0] == chunks[i] && chunks[i..][1..] == chunks[i + 1..];
      buffer.Extend(chunks[i]);
      ghost var cut := DrainAll(buffer.bytes);
      ghost var later := Feed(cut.rest, chunks[i + 1..]).frames;
      s.DecodeAppend(cut.frames, later);
      s.OnEventsAppend(s.DecodeAll(cut.frames), s.DecodeAll(later), result);
      result := HandleBuffered(s, result.lastSeq, buffer, writer);
      if !result.Reading? { return; }
    }
    result := Aborted(writer.Written());
  }

  /** The inner loop: act on every complete frame of the buffer, or stop early. */
  method HandleBuffered(s: Session, lastSeq: nat, buffer: SseBuffer, writer: StdioWriter) returns (p: Progress)
    requires writer.broken == s.broken
    modifies buffer, writer
    ensures p == s.OnEvents(s.DecodeAll(DrainAll(old(buffer.bytes)).frames), Reading(lastSeq, old(writer.Written())))
    ensures writer.Written() == p.out && (p.Reading? ==> buffer.bytes == DrainAll(old(buffer.bytes)).rest)
  {
    p := Reading(lastSeq, writer.Written());
    ghost var cut := DrainAll(buffer.bytes);
    ghost var final := s.OnEvents(s.DecodeAll(cut.frames), p);
    while true
      invariant p.Reading? && writer.Written() == p.out
      invariant final == s.OnEvents(s.DecodeAll(DrainAll(buffer.bytes).frames), p)
      invariant cut.rest == DrainAll(buffer.bytes).rest
      decreases |buffer.bytes|
    {
      ghost var before := buffer.bytes;
      var next := buffer.TakeSseFrame();
      if next.None? { return; }
      DrainTakes(s, next.value, before, buffer.bytes);
      p := HandleFrame(s, next.value, p.lastSeq, writer);
      if !p.Reading? { return; }
    }
  }

  lemma DrainTakes(s: Session, frame: Bytes, before: Bytes, after: Bytes)
    requires FrameEnd(before) == Some(|frame|) && frame + after == before
    ensures DrainAll(before) == PrependAll([frame], DrainAll(after))
    ensures s.DecodeAll(DrainAll(before).frames)[..1] == [s.Decode(frame)]
    ensures s.DecodeAll(DrainAll(before).frames)[1..] == s.DecodeAll(DrainAll(after).frames)
  {
    assert before[..|frame|] == frame && before[|frame|..] == after;
    var frames := DrainAll(after).frames;
    assert ([frame] + frames)[1..] == frames;
  }

  method HandleFrame(s: Session, frame: Bytes, lastSeq: nat, writer: StdioWriter) returns (p: Progress)
    requires writer.broken == s.broken
    modifies writer
    ensures p == s.OnEvent(s.Decode(frame), lastSeq, old(writer.Written())) && writer.Written() == p.out
  {
    var parsed := SseEvents.ParseSseFrame(s.codec.decode, frame);
    if parsed.None? { return Reading(lastSeq, writer.Written()); }
    var envelope := s.codec.json(parsed.value.data);
    if envelope.None? { return Aborted(writer.Written()); }
    var last := lastSeq;
    if envelope.value.seqNo.Some? { last := Max(last, envelope.value.seqNo.value); }
    var payload := envelope.value.payload;
    if envelope.value.turnId != Some(s.turnId) { return Reading(last, writer.Written()); }
    if parsed.value.name == "item.delta" {
      if payload.kind == Some("agent_message") && payload.delta.Some? && payload.delta.value != "" {
        var ok := writer.Emit(ResponseDelta(s.responseId, payload.delta.value));
        if !ok { return Aborted(writer.Written()); }
      }
    } else if parsed.value.name == "turn.completed" {
      return Ended(last, writer.Written(), TurnTerminalStatus(payload), payload.error);
    }
    p := Reading(last, writer.Written());
  }

  // ---- The bridge and its messages.

  datatype BridgeState = BridgeState(threadMap: map<string, string>, lastSeq: map<string, nat>)

  /** One stdio message with the outside world's answers: the new thread's id, the turn's id, the stream. */
  datatype Message = Message(stdioId: string, created: Option<string>, turnId: Option<string>, response: Response)

  datatype Reply = Accepted(turnId: string) | Rejected

  function Cursor(st: BridgeState, thread: string): nat { if thread in st.lastSeq then st.lastSeq[thread] else 0 }

  function Ensured(st: BridgeState, m: Message): (BridgeState, Option<string>) {
    if m.stdioId in st.threadMap then (st, Some(st.threadMap[m.stdioId]))
    else match m.created
      case None => (st, None)
      case Some(thread) =>
        var seqs := if thread in st.lastSeq then st.lastSeq else st.lastSeq[thread := 0];
        (BridgeState(st.threadMap[m.stdioId := thread], seqs), Some(thread))
  }

  function SessionFor(codec: Codec, broken: nat -> bool, thread: string, turnId: string): Session {
    Session(codec, broken, turnId, thread + ":" + turnId)
  }

  datatype Handled = Handled(st: BridgeState, out: Out, reply: Reply)

  function Messaged(codec: Codec, broken: nat -> bool, st: BridgeState, thread: string, m: Message, out: Out): Handled {
    match m.turnId
    case None => Handled(st, out, Rejected)
    case Some(turnId) =>
      var s := SessionFor(codec, broken, thread, turnId);
      var started := Emitted(broken, out, ResponseStart(s.responseId));
      if broken(out.attempts) then Handled(st, started, Rejected)
      else
        var p := s.StreamTurn(m.response, Cursor(st, thread), started);
        var closed := Emitted(broken, p.out, ResponseEnd(s.responseId));
        if p.Aborted? then Handled(st, closed, Rejected)
        else Handled(st.(lastSeq := st.lastSeq[thread := p.lastSeq]), closed,
                     if p.status.Completed? then Accepted(turnId) else Rejected)
  }

  function HandleOne(codec: Codec, broken: nat -> bool, st: BridgeState, m: Message, out: Out): Handled {
    match Ensured(st, m)
    case (st', None) => Handled(st', out, Rejected)
    case (st', Some(thread)) => Messaged(codec, broken, st', thread, m, out)
  }

  class RuntimeBridge {
    var threadMap: map<string, string>
    var lastSeqByThread: map<string, nat>

    constructor ()
      ensures State() == BridgeState(map[], map[])
    {
      threadMap, lastSeqByThread := map[], map[];
    }

    function State(): BridgeState reads this { BridgeState(threadMap, lastSeqByThread) }

    method CreateRuntimeThread(created: Option<string>) returns (thread: Option<string>)
      modifies this`lastSeqByThread
      ensures thread == created
      ensures lastSeqByThread ==
              if created.Some? && created.value !in old(lastSeqByThread)
              then old(lastSeqByThread)[created.value := 0] else old(lastSeqByThread)
    {
      if created.Some? && created.value !in lastSeqByThread {
        lastSeqByThread := lastSeqByThread[created.value := 0];
      }
      thread := created;
    }

    method EnsureRuntimeThread(m: Message) returns (thread: Option<string>)
      modifies this
      ensures (State(), thread) == Ensured(old(State()), m)
    {
      if m.stdioId in threadMap { return Some(threadMap[m.stdioId]); }
      thread := CreateRuntimeThread(m.created);
      if thread.Some? { threadMap := threadMap[m.stdioId := thread.value]; }
    }

    method MessageThread(codec: Codec, thread: string, m: Message, writer: StdioWriter) returns (reply: Reply)
      modifies this, writer
      ensures Handled(State(), writer.Written(), reply)
           == Messaged(codec, writer.broken, old(State()), thread, m, old(writer.Written()))
    {
      if m.turnId.None? { return Rejected; }
      var turnId := m.turnId.value;
      var s := SessionFor(codec, writer.broken, thread, turnId);
      var ok := writer.Emit(ResponseStart(s.responseId));
      if !ok { return Rejected; }
      var since := if thread in lastSeqByThread then lastSeqByThread[thread] else 0;
      var result := StreamTurnEvents(s, since, m.response, writer);
      var _ := writer.Emit(ResponseEnd(s.responseId));
      if result.Aborted? { return Rejected; }
      lastSeqByThread := lastSeqByThread[thread := result.lastSeq];
      reply := if result.status.Completed? then Accepted(turnId) else Rejected;
    }

    method HandleMessage(codec: Codec, m: Message, writer: StdioWriter) returns (reply: Reply)
      modifies this, writer
      ensures Handled(State(), writer.Written(), reply)
           == HandleOne(codec, writer.broken, old(State()), m, old(writer.Written()))
    {
      var thread := EnsureRuntimeThread(m);
      if thread.None? { return Rejected; }
      reply := MessageThread(codec, thread.value, m, writer);
    }
  }

  /** A whole run of messages on one bridge. */
  function RunAll(codec: Codec, broken: nat -> bool, st: BridgeState, out: Out,
                  messages: seq<Message>): (BridgeState, Out)
    decreases |messages|
  {
    if messages == [] then (st, out)
    else
      var h := HandleOne(codec, broken, st, messages[0], out);
      RunAll(codec, broken, h.st, h.out, messages[1..])
  }

  /** No cursor goes back or is lost, and no stdio thread is remapped. */
  predicate Extends(before: BridgeState, after: BridgeState) {
    && (forall t :: t in before.lastSeq ==> t in after.lastSeq && before.lastSeq[t] <= after.lastSeq[t])
    && (forall id :: id in before.threadMap ==> id in after.threadMap && after.threadMap[id] == before.threadMap[id])
  }

  lemma {:induction false} EventsRaise(s: Session, events: seq<Decoded>, p: Progress)
    requires p.Reading?
    ensures !s.OnEvents(events, p).Aborted? ==> s.OnEvents(events, p).lastSeq >= p.lastSeq
    decreases |events|
  {
    if events != [] {
      var q := s.OnEvent(events[0], p.lastSeq, p.out);
      if q.Reading? { EventsRaise(s, events[1..], q); }
    }
  }

  lemma EnsuredExtends(st: BridgeState, m: Message)
    ensures Extends(st, Ensured(st, m).0)
  {
  }

  /** A turn that reaches its end does not move the cursor back. */
  lemma TurnRaises(s: Session, response: Response, since: nat, out: Out)
    ensures var p := s.StreamTurn(response, since, out); !p.Aborted? ==> p.lastSeq >= since
  {
    if response.Streaming? { EventsRaise(s, s.DecodeAll(Feed([], response.chunks).frames), Reading(since, out)); }
  }

  lemma MessagedExtends(codec: Codec, broken: nat -> bool, st: BridgeState, thread: string, m: Message, out: Out)
    ensures Extends(st, Messaged(codec, broken, st, thread, m, out).st)
  {
    if m.turnId.Some? {
      var s := SessionFor(codec, broken, thread, m.turnId.value);
      TurnRaises(s, m.response, Cursor(st, thread), Emitted(broken, out, ResponseStart(s.responseId)));
    }
  }

  lemma ExtendsTransitive(a: BridgeState, b: BridgeState, c: BridgeState)
    requires Extends(a, b) && Extends(b, c)
    ensures Extends(a, c)
  {
  }

  lemma MessageExtends(codec: Codec, broken: nat -> bool, st: BridgeState, m: Message, out: Out)
    ensures Extends(st, HandleOne(codec, broken, st, m, out).st)
  {
    var (st', thread) := Ensured(st, m);
    EnsuredExtends(st, m);
    if thread.Some? {
      MessagedExtends(codec, broken, st', thread.value, m, out);
      ExtendsTransitive(st, st', Messaged(codec, broken, st', thread.value, m, out).st);
    }
  }

  lemma {:induction false} RunExtends(codec: Codec, broken: nat -> bool, st: BridgeState, out: Out,
                                      messages: seq<Message>)
    ensures Extends(st, RunAll(codec, broken, st, out, messages).0)
    decreases |messages|
  {
    if messages != [] {
      var h := HandleOne(codec, broken, st, messages[0], out);
      MessageExtends(codec, broken, st, messages[0], out);
      RunExtends(codec, broken, h.st, h.out, messages[1..]);
    }
  }

  // ---- What one turn reads and writes.

  /** The first event that ends the stream: bad JSON, or this turn's turn.completed. */
  function StopAt(s: Session, events: seq<Decoded>): (n: nat)
    ensures n <= |events| && (n < |events| ==> s.Stops(events[n]))
    ensures forall i :: 0 <= i < n ==> !s.Stops(events[i])
  {
    if events == [] || s.Stops(events[0]) then 0 else 1 + StopAt(s, events[1..])
  }

  /** The turn's non-empty agent texts, as stdio events, in order. */
  function Deltas(s: Session, events: seq<Decoded>): seq<StdioEvent> {
    if events == [] then []
    else match s.Delta(events[0])
      case None => Deltas(s, events[1..])
      case Some(text) => [ResponseDelta(s.responseId, text)] + Deltas(s, events[1..])
  }

  lemma DeltasFirst(s: Session, events: seq<Decoded>, n: nat)
    requires n < |events|
    ensures Deltas(s, events[..n + 1]) == Deltas(s, [events[0]]) + Deltas(s, events[1..][..n])
  {
    assert events[..n + 1][0] == events[0] && events[..n + 1][1..] == events[1..][..n];
    assert [events[0]][1..] == [];
    assert [] + Deltas(s, events[1..][..n]) == Deltas(s, events[1..][..n]);
  }

  lemma EventWrites(s: Session, d: Decoded, lastSeq: nat, out: Out)
    requires !s.broken(out.attempts) && !s.Stops(d)
    ensures var q := s.OnEvent(d, lastSeq, out); q.Reading? && q.out.log == out.log + Deltas(s, [d])
  {
    assert [d][1..] == [];
    assert out.log + [] == out.log;
  }

  /** With a working writer a turn writes exactly its deltas before the stop, and ends as the stop says. */
  lemma {:induction false} TurnWrites(s: Session, events: seq<Decoded>, p: Progress)
    requires p.Reading? && forall n :: !s.broken(n)
    ensures s.OnEvents(events, p).out.log == p.out.log + Deltas(s, events[..StopAt(s, events)])
    ensures s.OnEvents(events, p).Reading? <==> StopAt(s, events) == |events|
    ensures s.OnEvents(events, p).Aborted? <==> StopAt(s, events) < |events| && events[StopAt(s, events)].BadJson?
    decreases |events|
  {
    if events != [] && !s.Stops(events[0]) {
      var q := s.OnEvent(events[0], p.lastSeq, p.out);
      var n := StopAt(s, events[1..]);
      EventWrites(s, events[0], p.lastSeq, p.out);
      TurnWrites(s, events[1..], q);
      DeltasFirst(s, events, n);
      Regroup(p.out.log, Deltas(s, [events[0]]), Deltas(s, events[1..][..n]));
    } else {
      assert p.out.log + [] == p.out.log;
    }
  }

  // ---- The same with a writer that may fail.

  /** Writing events in a row up to the first write that fails: the output, and whether all worked. */
  function WriteAll(broken: nat -> bool, out: Out, es: seq<StdioEvent>): (Out, bool)
    decreases |es|
  {
    if es == [] then (out, true)
    else
      var sent := Emitted(broken, out, es[0]);
      if broken(out.attempts) then (sent, false) else WriteAll(broken, sent, es[1..])
  }

  lemma WriteAllCons(broken: nat -> bool, out: Out, e: StdioEvent, es: seq<StdioEvent>)
    ensures WriteAll(broken, out, [e] + es)
         == if broken(out.attempts) then (Emitted(broken, out, e), false)
            else WriteAll(broken, Emitted(broken, out, e), es)
  {
    assert ([e] + es)[1..] == es;
  }

  /** Exactly the first `k` were written, and the next one, if any, was tried in vain. */
  predicate WroteFirst(broken: nat -> bool, before: Out, es: seq<StdioEvent>, k: nat, after: Out)
    requires k <= |es|
  {
    && (forall n :: before.attempts <= n < before.attempts + k ==> !broken(n))
    && (k < |es| ==> broken(before.attempts + k))
    && after.log == before.log + es[..k] && after.attempts == before.attempts + if k < |es| then k + 1 else k
  }

  lemma {:induction false} WriteAllExact(broken: nat -> bool, out: Out, es: seq<StdioEvent>) returns (k: nat)
    ensures k <= |es| && WroteFirst(broken, out, es, k, WriteAll(broken, out, es).0)
    ensures WriteAll(broken, out, es).1 <==> k == |es|
    decreases |es|
  {
    k := 0;
    assert out.log + es[..0] == out.log;
    if es != [] && !broken(out.attempts) {
      var sent := Emitted(broken, out, es[0]);
      k := WriteAllExact(broken, sent, es[1..]);
      assert out.log + [es[0]] + es[1..][..k] == out.log + es[..k + 1];
      k := k + 1;
    }
  }

  /** How a stream can leave a turn: stopped at its end or at bad JSON, or still reading. */
  predicate Leaves(s: Session, events: seq<Decoded>, written: (Out, bool), p: Progress) {
    var n := StopAt(s, events);
    && p.out == written.0
    && (p.Ended? <==> n < |events| && events[n].Event? && written.1)
    && (p.Reading? <==> n == |events| && written.1)
  }

  lemma EventLeaves(s: Session, d: Decoded, lastSeq: nat, out: Out)
    requires !s.Stops(d)
    ensures var q := s.OnEvent(d, lastSeq, out);
            match s.Delta(d)
            case None => q.Reading? && q.out == out
            case Some(text) => q.out == Emitted(s.broken, out, ResponseDelta(s.responseId, text))
                               && !q.Ended? && (q.Reading? <==> !s.broken(out.attempts))
  {
  }

  lemma DeltasOfFirst(s: Session, events: seq<Decoded>, n: nat)
    requires n < |events|
    ensures Deltas(s, events[..n + 1])
         == match s.Delta(events[0])
            case None => Deltas(s, events[1..][..n])
            case Some(text) => [ResponseDelta(s.responseId, text)] + Deltas(s, events[1..][..n])
  {
    assert events[..n + 1][0] == events[0] && events[..n + 1][1..] == events[1..][..n];
  }

  /** With any writer: the deltas before the stop are written up to the first that fails, which aborts the turn. */
  lemma {:induction false} TurnWritesAny(s: Session, events: seq<Decoded>, p: Progress)
    requires p.Reading?
    ensures Leaves(s, events, WriteAll(s.broken, p.out, Deltas(s, events[..StopAt(s, events)])), s.OnEvents(events, p))
    decreases |events|
  {
    if events != [] && !s.Stops(events[0]) {
      var q := s.OnEvent(events[0], p.lastSeq, p.out);
      var n := StopAt(s, events[1..]);
      EventLeaves(s, events[0], p.lastSeq, p.out);
      DeltasOfFirst(s, events, n);
      if s.Delta(events[0]).Some? {
        var e := ResponseDelta(s.responseId, s.Delta(events[0]).value);
        WriteAllCons(s.broken, p.out, e, Deltas(s, events[1..][..n]));
      }
      if q.Reading? { TurnWritesAny(s, events[1..], q); }
    }
  }

  predicate Carries(d: Decoded, n: nat) { d.Event? && d.envelope.seqNo == Some(n) }

  /** At the terminal event the cursor is at least every sequence number read, and is one of them or the start. */
  lemma {:induction false} CursorCovers(s: Session, events: seq<Decoded>, p: Progress)
    requires p.Reading? && s.OnEvents(events, p).Ended?
    ensures StopAt(s, events) < |events|
    ensures forall i: nat, n: nat :: i <= StopAt(s, events) && Carries(events[i], n) ==>
              n <= s.OnEvents(events, p).lastSeq
    ensures s.OnEvents(events, p).lastSeq == p.lastSeq ||
            exists i :: 0 <= i <= StopAt(s, events) && Carries(events[i], s.OnEvents(events, p).lastSeq)
    decreases |events|
  {
    var q := s.OnEvent(events[0], p.lastSeq, p.out);
    if q.Reading? {
      CursorCovers(s, events[1..], q);
      EventsRaise(s, events[1..], q);
      assert forall i :: 0 < i < |events| ==> events[i] == events[1..][i - 1];
      var last := s.OnEvents(events, p).lastSeq;
      if last != q.lastSeq {
        var j :| 0 <= j <= StopAt(s, events[1..]) && Carries(events[1..][j], last);
        assert Carries(events[j + 1], last);
      }
    }
  }

  /** The events a turn's response stream decodes to. */
  function StreamEvents(s: Session, response: Response): seq<Decoded> {
    if response.Refused? then [] else s.DecodeAll(Feed([], response.chunks).frames)
  }

  /** The block of events one accepted turn writes, whatever its stream does. */
  function Block(s: Session, response: Response): seq<StdioEvent> {
    var events := StreamEvents(s, response);
    [ResponseStart(s.responseId)] + Deltas(s, events[..StopAt(s, events)]) + [ResponseEnd(s.responseId)]
  }

  lemma StreamWrites(s: Session, response: Response, since: nat, out: Out)
    requires forall n :: !s.broken(n)
    ensures s.StreamTurn(response, since, out).out.log
         == out.log + Deltas(s, StreamEvents(s, response)[..StopAt(s, StreamEvents(s, response))])
  {
    TurnWrites(s, StreamEvents(s, response), Reading(since, out));
  }

  // ---- What the bridge remembers of a turn.

  /** The outcome of the turn a message starts: none when nothing could be streamed. */
  function TurnOutcome(codec: Codec, broken: nat -> bool, st: BridgeState, m: Message, out: Out): Option<Progress> {
    match (Ensured(st, m), m.turnId)
    case ((st', Some(thread)), Some(turnId)) =>
      var s := SessionFor(codec, broken, thread, turnId);
      if broken(out.attempts) then None
      else Some(s.StreamTurn(m.response, Cursor(st', thread), Emitted(broken, out, ResponseStart(s.responseId))))
    case _ => None
  }

  predicate ReachesEnd(codec: Codec, broken: nat -> bool, st: BridgeState, m: Message, out: Out) {
    TurnOutcome(codec, broken, st, m, out).Some? && TurnOutcome(codec, broken, st, m, out).value.Ended?
  }

  /** A sequence number read by the message's turn, its terminal event included. */
  ghost predicate ReadBy(codec: Codec, broken: nat -> bool, thread: string, m: Message, n: nat) {
    m.turnId.Some? &&
    var s := SessionFor(codec, broken, thread, m.turnId.value);
    var events := StreamEvents(s, m.response);
    exists i :: 0 <= i < |events| && i <= StopAt(s, events) && Carries(events[i], n)
  }

  /** The message's stdio thread is mapped, and the cursor of its runtime thread is at least `n`. */
  predicate CursorAtLeast(st: BridgeState, stdioId: string, n: nat) {
    stdioId in st.threadMap && st.threadMap[stdioId] in st.lastSeq && n <= st.lastSeq[st.threadMap[stdioId]]
  }

  lemma StreamCovers(s: Session, response: Response, since: nat, out: Out, i: nat, n: nat)
    requires s.StreamTurn(response, since, out).Ended?
    requires i < |StreamEvents(s, response)| && i <= StopAt(s, StreamEvents(s, response))
    requires Carries(StreamEvents(s, response)[i], n)
    ensures n <= s.StreamTurn(response, since, out).lastSeq
  {
    CursorCovers(s, StreamEvents(s, response), Reading(since, out));
  }

  lemma MessagedStores(codec: Codec, broken: nat -> bool, st: BridgeState, thread: string, m: Message, out: Out)
    requires m.turnId.Some? && !broken(out.attempts)
    ensures var s := SessionFor(codec, broken, thread, m.turnId.value);
            var p := s.StreamTurn(m.response, Cursor(st, thread), Emitted(broken, out, ResponseStart(s.responseId)));
            var after := Messaged(codec, broken, st, thread, m, out).st;
            p.Ended? ==> after.threadMap == st.threadMap && after.lastSeq == st.lastSeq[thread := p.lastSeq]
  {
  }

  /** With a working writer a turn reaches its end exactly when its stream stops at an event that decodes. */
  lemma ReachesEndExact(codec: Codec, broken: nat -> bool, st: BridgeState, m: Message, out: Out)
    requires (forall n :: !broken(n)) && Ensured(st, m).1.Some? && m.turnId.Some?
    ensures var s := SessionFor(codec, broken, Ensured(st, m).1.value, m.turnId.value);
            var events := StreamEvents(s, m.response);
            ReachesEnd(codec, broken, st, m, out) <==>
            StopAt(s, events) < |events| && !events[StopAt(s, events)].BadJson?
  {
    var (st', thread) := (Ensured(st, m).0, Ensured(st, m).1.value);
    var s := SessionFor(codec, broken, thread, m.turnId.value);
    var started := Emitted(broken, out, ResponseStart(s.responseId));
    TurnWrites(s, StreamEvents(s, m.response), Reading(Cursor(st', thread), started));
  }

  lemma EnsuredMaps(st: BridgeState, m: Message)
    requires Ensured(st, m).1.Some?
    ensures m.stdioId in Ensured(st, m).0.threadMap && Ensured(st, m).0.threadMap[m.stdioId] == Ensured(st, m).1.value
  {
  }

  /** When a turn reaches its end, the cursor the bridge stores covers every sequence number read. */
  lemma MessageCovers(codec: Codec, broken: nat -> bool, st: BridgeState, m: Message, out: Out, n: nat)
    requires ReachesEnd(codec, broken, st, m, out) && ReadBy(codec, broken, Ensured(st, m).1.value, m, n)
    ensures CursorAtLeast(HandleOne(codec, broken, st, m, out).st, m.stdioId, n)
  {
    var (st', thread) := (Ensured(st, m).0, Ensured(st, m).1.value);
    var s := SessionFor(codec, broken, thread, m.turnId.value);
    var events := StreamEvents(s, m.response);
    var i :| 0 <= i < |events| && i <= StopAt(s, events) && Carries(events[i], n);
    var started := Emitted(broken, out, ResponseStart(s.responseId));
    EnsuredMaps(st, m);
    StreamCovers(s, m.response, Cursor(st', thread), started, i, n);
    MessagedStores(codec, broken, st', thread, m, out);
  }

  lemma CoveredStays(before: BridgeState, after: BridgeState, stdioId: string, n: nat)
    requires Extends(before, after) && CursorAtLeast(before, stdioId, n)
    ensures CursorAtLeast(after, stdioId, n)
  {
  }

  lemma {:induction false} RunSplit(codec: Codec, broken: nat -> bool, st: BridgeState, out: Out,
                                    a: seq<Message>, b: seq<Message>)
    ensures var mid := RunAll(codec, broken, st, out, a);
            RunAll(codec, broken, st, out, a + b) == RunAll(codec, broken, mid.0, mid.1, b)
    decreases |a|
  {
    if a == [] {
      assert a + b == b;
    } else {
      assert (a + b)[1..] == a[1..] + b;
      var h := HandleOne(codec, broken, st, a[0], out);
      RunSplit(codec, broken, h.st, h.out, a[1..], b);
    }
  }

  /**
   * Over a run: the cursor stored at the end of any turn that reached its end covers every sequence
   * number that turn read, whatever messages come before and after.
   */
  lemma RunCovers(codec: Codec, broken: nat -> bool, st: BridgeState, out: Out,
                  earlier: seq<Message>, m: Message, later: seq<Message>, n: nat)
    requires var mid := RunAll(codec, broken, st, out, earlier);
             ReachesEnd(codec, broken, mid.0, m, mid.1) && ReadBy(codec, broken, Ensured(mid.0, m).1.value, m, n)
    ensures CursorAtLeast(RunAll(codec, broken, st, out, earlier + ([m] + later)).0, m.stdioId, n)
  {
    var mid := RunAll(codec, broken, st, out, earlier);
    var h := HandleOne(codec, broken, mid.0, m, mid.1);
    MessageCovers(codec, broken, mid.0, m, mid.1, n);
    RunSplit(codec, broken, st, out, earlier, [m] + later);
    assert ([m] + later)[1..] == later;
    RunExtends(codec, broken, h.st, h.out, later);
    CoveredStays(h.st, RunAll(codec, broken, h.st, h.out, later).0, m.stdioId, n);
  }

  // ---- What a message is answered.

  /** The frame is text, and the text is this event. */
  predicate Says(codec: Codec, frame: Bytes, event: SseEvents.SseEvent) {
    codec.decode(frame).Some? && SseEvents.ParseText(codec.decode(frame).value) == Some(event)
  }

  /** The event of a frame and its decoded JSON, when it has both. */
  predicate Holds(codec: Codec, frame: Bytes, event: SseEvents.SseEvent, envelope: Envelope) {
    Says(codec, frame, event) && codec.json(event.data) == Some(envelope)
  }

  /** An event whose data is no JSON, or the end of this turn. */
  ghost predicate FrameStops(codec: Codec, turnId: string, frame: Bytes) {
    exists event :: Says(codec, frame, event) &&
      (codec.json(event.data).None? || FrameEnds(codec, turnId, frame, event, codec.json(event.data).value))
  }

  predicate FrameEnds(codec: Codec, turnId: string, frame: Bytes, event: SseEvents.SseEvent, envelope: Envelope) {
    Holds(codec, frame, event, envelope) && event.name == "turn.completed" && envelope.turnId == Some(turnId)
  }

  /** The status text, "completed" when there is none, names no failure in any case of its letters. */
  predicate EndsWell(payload: Payload) {
    var status := Lower(if payload.status.Some? then payload.status.value else "completed");
    status != "failed" && status != "interrupted" && status != "canceled" && status != "cancelled"
  }

  /** What a frame means to a turn: whether it stops it, the text it adds, and the sequence number it carries. */
  lemma FrameExact(s: Session, frame: Bytes, text: string, n: nat)
    ensures s.Stops(s.Decode(frame)) <==> FrameStops(s.codec, s.turnId, frame)
    ensures s.Delta(s.Decode(frame)) == Some(text) <==>
            exists event, envelope ::
              && Holds(s.codec, frame, event, envelope) && event.name == "item.delta"
              && envelope.turnId == Some(s.turnId) && envelope.payload.kind == Some("agent_message")
              && envelope.payload.delta == Some(text) && text != ""
    ensures Carries(s.Decode(frame), n) <==>
            exists event, envelope :: Holds(s.codec, frame, event, envelope) && envelope.seqNo == Some(n)
  {
    var event := SseEvents.ParseFrame(s.codec.decode, frame);
    assert event.Some? ==> Says(s.codec, frame, event.value);
    if event.Some? && s.codec.json(event.value.data).Some? {
      assert Holds(s.codec, frame, event.value, s.codec.json(event.value.data).value);
    }
  }

  /** A turn that ends does so with the status and error of the event it stops at. */
  lemma {:induction false} EndStatus(s: Session, events: seq<Decoded>, p: Progress)
    requires p.Reading? && s.OnEvents(events, p).Ended?
    ensures StopAt(s, events) < |events| && events[StopAt(s, events)].Event?
    ensures var payload := events[StopAt(s, events)].envelope.payload;
            && s.OnEvents(events, p).error == payload.error
            && (s.OnEvents(events, p).status.Completed? <==> EndsWell(payload))
    decreases |events|
  {
    var q := s.OnEvent(events[0], p.lastSeq, p.out);
    if q.Reading? { EndStatus(s, events[1..], q); }
  }

  /** With any writer: accepted exactly when the turn reaches its end, and the event there tells of no failure. */
  lemma ReplyAtEnd(codec: Codec, broken: nat -> bool, st: BridgeState, m: Message, out: Out)
    ensures var reply := HandleOne(codec, broken, st, m, out).reply;
            if !ReachesEnd(codec, broken, st, m, out) then reply == Rejected
            else
              var s := SessionFor(codec, broken, Ensured(st, m).1.value, m.turnId.value);
              var events := StreamEvents(s, m.response);
              && StopAt(s, events) < |events| && events[StopAt(s, events)].Event?
              && reply == if EndsWell(events[StopAt(s, events)].envelope.payload) then Accepted(m.turnId.value)
                          else Rejected
  {
    if ReachesEnd(codec, broken, st, m, out) {
      var (st', thread) := (Ensured(st, m).0, Ensured(st, m).1.value);
      var s := SessionFor(codec, broken, thread, m.turnId.value);
      var started := Emitted(broken, out, ResponseStart(s.responseId));
      EndStatus(s, StreamEvents(s, m.response), Reading(Cursor(st', thread), started));
    }
  }

  /** The frames at which a turn ends well: the first that stops it, with no failure told. */
  ghost predicate CompletesAt(codec: Codec, turnId: string, frames: seq<Bytes>, i: nat) {
    && i < |frames| && (forall j :: 0 <= j < i ==> !FrameStops(codec, turnId, frames[j]))
    && exists event, envelope :: FrameEnds(codec, turnId, frames[i], event, envelope) && EndsWell(envelope.payload)
  }

  /** The frames a response brings. */
  function FramesOf(response: Response): seq<Bytes> {
    if response.Refused? then [] else Feed([], response.chunks).frames
  }

  lemma StopsExact(s: Session, frames: seq<Bytes>)
    ensures forall j :: 0 <= j < |frames| ==>
              (s.Stops(s.DecodeAll(frames)[j]) <==> FrameStops(s.codec, s.turnId, frames[j]))
  {
    forall j | 0 <= j < |frames|
      ensures s.Stops(s.DecodeAll(frames)[j]) <==> FrameStops(s.codec, s.turnId, frames[j])
    {
      FrameExact(s, frames[j], "", 0);
    }
  }

  lemma CompletesHere(s: Session, frames: seq<Bytes>, i: nat)
    requires CompletesAt(s.codec, s.turnId, frames, i)
    ensures i == StopAt(s, s.DecodeAll(frames)) && s.DecodeAll(frames)[i].Event?
    ensures EndsWell(s.DecodeAll(frames)[i].envelope.payload)
  {
    StopsExact(s, frames);
    var event, envelope :| FrameEnds(s.codec, s.turnId, frames[i], event, envelope) && EndsWell(envelope.payload);
    assert s.Decode(frames[i]) == Event(event.name, envelope);
  }

  lemma EndFrame(s: Session, frame: Bytes)
    requires s.Stops(s.Decode(frame)) && s.Decode(frame).Event?
    ensures exists event :: FrameEnds(s.codec, s.turnId, frame, event, s.Decode(frame).envelope)
  {
    var event := SseEvents.ParseFrame(s.codec.decode, frame).value;
    assert FrameEnds(s.codec, s.turnId, frame, event, s.Decode(frame).envelope);
  }

  lemma CompletesExact(s: Session, frames: seq<Bytes>)
    ensures var events := s.DecodeAll(frames);
            var n := StopAt(s, events);
            (exists i: nat :: CompletesAt(s.codec, s.turnId, frames, i)) <==>
            n < |events| && events[n].Event? && EndsWell(events[n].envelope.payload)
  {
    var events := s.DecodeAll(frames);
    var n := StopAt(s, events);
    if n < |events| && events[n].Event? && EndsWell(events[n].envelope.payload) {
      StopsExact(s, frames);
      EndFrame(s, frames[n]);
      assert CompletesAt(s.codec, s.turnId, frames, n);
    }
    if i: nat :| CompletesAt(s.codec, s.turnId, frames, i) { CompletesHere(s, frames, i); }
  }

  /** With a working writer, on the frames: accepted exactly when a thread is there and the turn completes. */
  lemma ReplyExact(codec: Codec, broken: nat -> bool, st: BridgeState, m: Message, out: Out)
    requires forall n :: !broken(n)
    ensures var accepted := && m.turnId.Some? && (m.stdioId in st.threadMap || m.created.Some?)
                            && exists i: nat :: CompletesAt(codec, m.turnId.value, FramesOf(m.response), i);
            HandleOne(codec, broken, st, m, out).reply
            == if accepted then Accepted(m.turnId.value) else Rejected
  {
    ReplyAtEnd(codec, broken, st, m, out);
    if m.turnId.Some? && (m.stdioId in st.threadMap || m.created.Some?) {
      var s := SessionFor(codec, broken, Ensured(st, m).1.value, m.turnId.value);
      ReachesEndExact(codec, broken, st, m, out);
      CompletesExact(s, FramesOf(m.response));
    }
  }

  /** With any writer: once started, the deltas up to the first failing write, and the end event tried regardless. */
  lemma MessageWritesAny(codec: Codec, broken: nat -> bool, st: BridgeState, m: Message, out: Out)
    requires Ensured(st, m).1.Some? && m.turnId.Some? && !broken(out.attempts)
    ensures var id := Ensured(st, m).1.value + ":" + m.turnId.value;
            var s := SessionFor(codec, broken, Ensured(st, m).1.value, m.turnId.value);
            var events := StreamEvents(s, m.response);
            var written := WriteAll(broken, Emitted(broken, out, ResponseStart(id)),
                                    Deltas(s, events[..StopAt(s, events)]));
            && HandleOne(codec, broken, st, m, out).out == Emitted(broken, written.0, ResponseEnd(id))
            && (ReachesEnd(codec, broken, st, m, out) <==>
                StopAt(s, events) < |events| && events[StopAt(s, events)].Event? && written.1)
  {
    var (st', thread) := (Ensured(st, m).0, Ensured(st, m).1.value);
    var s := SessionFor(codec, broken, thread, m.turnId.value);
    var started := Emitted(broken, out, ResponseStart(s.responseId));
    TurnWritesAny(s, StreamEvents(s, m.response), Reading(Cursor(st', thread), started));
  }

  /** A write that fails at the start: nothing is written, nothing remembered but the thread. */
  lemma StartFails(codec: Codec, broken: nat -> bool, st: BridgeState, m: Message, out: Out)
    requires broken(out.attempts)
    ensures var h := HandleOne(codec, broken, st, m, out);
            h.out.log == out.log && h.reply == Rejected && h.st == Ensured(st, m).0
  {
  }

  // ---- What a message leaves in the bridge.

  /** A known stdio thread keeps its runtime thread; a new one is mapped to the thread created, if one was. */
  lemma ThreadExact(codec: Codec, broken: nat -> bool, st: BridgeState, m: Message, out: Out)
    ensures HandleOne(codec, broken, st, m, out).st.threadMap
         == if m.stdioId in st.threadMap || m.created.None? then st.threadMap
            else st.threadMap[m.stdioId := m.created.value]
  {
  }

  /** Only a turn that reaches its end moves a cursor, only its thread's, and only to a number it read. */
  lemma CursorExact(codec: Codec, broken: nat -> bool, st: BridgeState, m: Message, out: Out, t: string)
    ensures var after := HandleOne(codec, broken, st, m, out).st;
            Cursor(after, t) != Cursor(st, t) ==>
              && ReachesEnd(codec, broken, st, m, out) && after.threadMap[m.stdioId] == t
              && ReadBy(codec, broken, t, m, Cursor(after, t))
  {
    if ReachesEnd(codec, broken, st, m, out) {
      var (st', thread) := (Ensured(st, m).0, Ensured(st, m).1.value);
      var s := SessionFor(codec, broken, thread, m.turnId.value);
      var started := Emitted(broken, out, ResponseStart(s.responseId));
      EnsuredMaps(st, m);
      MessagedStores(codec, broken, st', thread, m, out);
      CursorCovers(s, StreamEvents(s, m.response), Reading(Cursor(st', thread), started));
    }
  }

  /** Nothing without a thread and a turn, else exactly that turn's block. */
  function MessageBlock(codec: Codec, broken: nat -> bool, st: BridgeState, m: Message): seq<StdioEvent> {
    match (Ensured(st, m).1, m.turnId)
    case (Some(thread), Some(turnId)) => Block(SessionFor(codec, broken, thread, turnId), m.response)
    case _ => []
  }

  /** One stdio event for each event with a text, none for any other, in the order of the stream. */
  lemma {:induction false} DeltasExact(s: Session, a: seq<Decoded>, d: Decoded)
    ensures Deltas(s, []) == []
    ensures Deltas(s, a + [d]) == Deltas(s, a)
                                + if s.Delta(d).Some? then [ResponseDelta(s.responseId, s.Delta(d).value)] else []
    decreases |a|
  {
    if a == [] {
      assert a + [d] == [d] && [d][1..] == [];
    } else {
      assert (a + [d])[1..] == a[1..] + [d];
      DeltasExact(s, a[1..], d);
    }
  }

  lemma {:induction false} DeltasNamed(s: Session, events: seq<Decoded>)
    ensures forall i :: 0 <= i < |Deltas(s, events)| ==>
              Deltas(s, events)[i].ResponseDelta? && Deltas(s, events)[i].id == s.responseId
  {
    if events != [] { DeltasNamed(s, events[1..]); }
  }

  /** A block opens and closes with the id made of its thread and turn, and has only texts under it in between. */
  lemma BlockExact(codec: Codec, broken: nat -> bool, st: BridgeState, m: Message)
    requires Ensured(st, m).1.Some? && m.turnId.Some?
    ensures var (block, id) := (MessageBlock(codec, broken, st, m), Ensured(st, m).1.value + ":" + m.turnId.value);
            && |block| >= 2 && block[0] == ResponseStart(id) && block[|block| - 1] == ResponseEnd(id)
            && forall i :: 0 < i < |block| - 1 ==> block[i].ResponseDelta? && block[i].id == id
  {
    var s := SessionFor(codec, broken, Ensured(st, m).1.value, m.turnId.value);
    var events := StreamEvents(s, m.response);
    DeltasNamed(s, events[..StopAt(s, events)]);
  }

  lemma Enclosed(a: seq<StdioEvent>, first: StdioEvent, mid: seq<StdioEvent>, last: StdioEvent)
    ensures a + [first] + mid + [last] == a + ([first] + mid + [last])
  {
  }

  lemma TurnBlock(s: Session, response: Response, since: nat, out: Out)
    requires forall n :: !s.broken(n)
    ensures var p := s.StreamTurn(response, since, Emitted(s.broken, out, ResponseStart(s.responseId)));
            Emitted(s.broken, p.out, ResponseEnd(s.responseId)).log == out.log + Block(s, response)
  {
    var events := StreamEvents(s, response);
    StreamWrites(s, response, since, Emitted(s.broken, out, ResponseStart(s.responseId)));
    Enclosed(out.log, ResponseStart(s.responseId), Deltas(s, events[..StopAt(s, events)]), ResponseEnd(s.responseId));
  }

  lemma MessageWrites(codec: Codec, broken: nat -> bool, st: BridgeState, m: Message, out: Out)
    requires forall n :: !broken(n)
    ensures HandleOne(codec, broken, st, m, out).out.log == out.log + MessageBlock(codec, broken, st, m)
  {
    var (st', thread) := Ensured(st, m);
    if thread.Some? && m.turnId.Some? {
      TurnBlock(SessionFor(codec, broken, thread.value, m.turnId.value), m.response, Cursor(st', thread.value), out);
    } else {
      assert out.log + [] == out.log;
    }
  }

  /** The blocks of a run, one per message, in order. */
  function Transcript(codec: Codec, broken: nat -> bool, st: BridgeState, out: Out,
                      messages: seq<Message>): seq<StdioEvent>
    decreases |messages|
  {
    if messages == [] then []
    else
      var h := HandleOne(codec, broken, st, messages[0], out);
      MessageBlock(codec, broken, st, messages[0]) + Transcript(codec, broken, h.st, h.out, messages[1..])
  }

  lemma {:induction false} RunWrites(codec: Codec, broken: nat -> bool, st: BridgeState, out: Out,
                                     messages: seq<Message>)
    requires forall n :: !broken(n)
    ensures RunAll(codec, broken, st, out, messages).1.log == out.log + Transcript(codec, broken, st, out, messages)
    decreases |messages|
  {
    if messages == [] {
      assert out.log + [] == out.log;
    } else {
      var h := HandleOne(codec, broken, st, messages[0], out);
      MessageWrites(codec, broken, st, messages[0], out);
      var block := MessageBlock(codec, broken, st, messages[0]);
      var later := Transcript(codec, broken, h.st, h.out, messages[1..]);
      RunWrites(codec, broken, h.st, h.out, messages[1..]);
      Regroup(out.log, block, later);
    }
  }

  lemma Regroup(a: seq<StdioEvent>, b: seq<StdioEvent>, c: seq<StdioEvent>)
    ensures (a + b) + c == a + (b + c)
  {
  }

  /** How an unmixed stream is cut into chunks changes neither the events nor the outcome. */
  lemma ChunkingInvisible(s: Session, a: seq<Bytes>, b: seq<Bytes>, since: nat, out: Out)
    requires Flatten(a) == Flatten(b) && Unmixed(Flatten(a))
    ensures s.StreamTurn(Streaming(a), since, out) == s.StreamTurn(Streaming(b), since, out)
  {
    ChunkingExact(Flatten(a));
  }
}
