/** Tallies from session files: the message walk and the fold over a directory. */
module SessionMetrics {
  import opened Wrappers
  import opened Folding

  // ---- What a session file holds, after JSON: absent fields already have their defaults.

  datatype Role = Assistant | User | OtherRole

  datatype Block = ToolUse(id: string, name: string, elapsedMs: Option<nat>)
                 | ToolResult(toolUseId: string, isError: bool)
                 | OtherBlock

  /** `compaction` is present or not, and when present carries a ratio or not. */
  datatype Message = Message(role: Role, content: Option<seq<Block>>, compaction: Option<Option<real>>)

  datatype Session = Session(ts: Option<int>, messages: Option<seq<Message>>)

  datatype File = Unreadable | Malformed | Readable(session: Session)

  datatype Entry = Entry(isDir: bool, isJson: bool, file: File)

  datatype ToolStats = ToolStats(calls: nat, autoApproved: nat, prompted: nat, totalElapsedMs: nat, elapsedSamples: nat,
                                 successes: nat, failures: nat)

  const NO_STATS := ToolStats(0, 0, 0, 0, 0, 0, 0)

  type Tools = map<string, ToolStats>

  datatype Compaction = Compaction(events: nat, ratioSum: real, ratioSamples: nat)

  datatype Totals = Totals(earliest: Option<int>, latest: Option<int>, tools: Tools, compaction: Compaction,
                           totalLines: nat, parsedLines: nat)

  // ---- The walk over the messages.

  /** A use waiting for its result. */
  datatype Use = Use(name: string, elapsedMs: Option<nat>)

  datatype Event = Used(id: string, use: Use) | Resulted(toolUseId: string, isError: bool)

  /** A result that met its use. */
  datatype Call = Call(use: Use, isError: bool)

  function EventOf(role: Role, block: Block): seq<Event> {
    match (role, block)
    case (Assistant, ToolUse(id, name, ms)) => [Used(id, Use(name, ms))]
    case (User, ToolResult(id, isError)) => [Resulted(id, isError)]
    case _ => []
  }

  function BlockEvents(role: Role, blocks: seq<Block>): seq<Event> {
    if blocks == [] then [] else BlockEvents(role, blocks[..|blocks| - 1]) + EventOf(role, blocks[|blocks| - 1])
  }

  function MessageEvents(m: Message): seq<Event> {
    if m.content.None? then [] else BlockEvents(m.role, m.content.value)
  }

  function Events(messages: seq<Message>): seq<Event> {
    if messages == [] then [] else Events(messages[..|messages| - 1]) + MessageEvents(messages[|messages| - 1])
  }

  /** The uses still waiting, by id. */
  function Pending(events: seq<Event>): map<string, Use> {
    if events == [] then map[] else PendingAfter(Pending(events[..|events| - 1]), events[|events| - 1])
  }

  function PendingAfter(pending: map<string, Use>, e: Event): map<string, Use> {
    match e
    case Used(id, use) => if id == "" then pending else pending[id := use]
    case Resulted(id, _) => if id in pending then pending - {id} else pending
  }

  function Counted(pending: map<string, Use>, e: Event): seq<Call> {
    if e.Resulted? && e.toolUseId in pending then [Call(pending[e.toolUseId], e.isError)] else []
  }

  /** The calls counted, in order. */
  function Calls(events: seq<Event>): seq<Call> {
    if events == [] then []
    else Calls(events[..|events| - 1]) + Counted(Pending(events[..|events| - 1]), events[|events| - 1])
  }

  function StatsOf(tools: Tools, name: string): ToolStats { if name in tools then tools[name] else NO_STATS }

  /** What one call adds to the counters of its tool. */
  function One(c: Call): ToolStats {
    var (ms, samples) := match c.use.elapsedMs case None => (0, 0) case Some(ms) => (ms, 1);
    ToolStats(1, 0, 0, ms, samples, if c.isError then 0 else 1, if c.isError then 1 else 0)
  }

  function Plus(a: ToolStats, b: ToolStats): ToolStats {
    ToolStats(a.calls + b.calls, a.autoApproved + b.autoApproved, a.prompted + b.prompted,
              a.totalElapsedMs + b.totalElapsedMs, a.elapsedSamples + b.elapsedSamples,
              a.successes + b.successes, a.failures + b.failures)
  }

  function AddCall(tools: Tools, c: Call): Tools {
    tools[c.use.name := Plus(StatsOf(tools, c.use.name), One(c))]
  }

  function AddCalls(tools: Tools, calls: seq<Call>): Tools {
    if calls == [] then tools else AddCall(AddCalls(tools, calls[..|calls| - 1]), calls[|calls| - 1])
  }

  function AddCompaction(c: Compaction, ratio: Option<real>): Compaction {
    Compaction(c.events + 1,
      c.ratioSum + (if ratio.Some? then ratio.value else 0.0), c.ratioSamples + (if ratio.Some? then 1 else 0))
  }

  function Compactions(messages: seq<Message>): seq<Option<real>> {
    if messages == [] then []
    else
      var c := messages[|messages| - 1].compaction;
      Compactions(messages[..|messages| - 1]) + if c.Some? then [c.value] else []
  }

  function AddCompactions(c: Compaction, ratios: seq<Option<real>>): Compaction {
    if ratios == [] then c else AddCompaction(AddCompactions(c, ratios[..|ratios| - 1]), ratios[|ratios| - 1])
  }

  // ---- One file as an effect on the totals.

  datatype Effect = Effect(lines: nat, parsed: nat, ts: Option<int>, calls: seq<Call>, ratios: seq<Option<real>>)

  function EffectOf(file: File, since: Option<int>): Effect {
    match file
    case Unreadable => Effect(0, 0, None, [], [])
    case Malformed => Effect(1, 0, None, [], [])
    case Readable(s) => SessionEffect(s, since).(lines := 1, parsed := 1)
  }

  function SessionEffect(s: Session, since: Option<int>): Effect {
    if since.Some? && s.ts.Some? && s.ts.value < since.value then Effect(0, 0, None, [], [])
    else if s.messages.None? then Effect(0, 0, s.ts, [], [])
    else Effect(0, 0, s.ts, Calls(Events(s.messages.value)), Compactions(s.messages.value))
  }

  function EntryEffect(e: Entry, since: Option<int>): Effect {
    if e.isDir || !e.isJson then Effect(0, 0, None, [], []) else EffectOf(e.file, since)
  }

  function Earlier(cur: Option<int>, ts: int): Option<int> {
    if cur.None? || ts < cur.value then Some(ts) else cur
  }

  function Later(cur: Option<int>, ts: int): Option<int> {
    if cur.None? || ts > cur.value then Some(ts) else cur
  }

  function Apply(t: Totals, e: Effect): Totals {
    Totals(if e.ts.Some? then Earlier(t.earliest, e.ts.value) else t.earliest,
           if e.ts.Some? then Later(t.latest, e.ts.value) else t.latest,
           AddCalls(t.tools, e.calls), AddCompactions(t.compaction, e.ratios),
           t.totalLines + e.lines, t.parsedLines + e.parsed)
  }

  /** Reading one directory entry. */
  function ReadEntry(since: Option<int>): (Totals, Entry) -> Totals {
    (t: Totals, e: Entry) => Apply(t, EntryEffect(e, since))
  }

  function ReadAll(t: Totals, entries: seq<Entry>, since: Option<int>): Totals {
    Fold(ReadEntry(since), t, entries)
  }

  class Rollup {
    var earliest: Option<int>
    var latest: Option<int>
    var tools: Tools
    var compaction: Compaction
    var totalLines: nat
    var parsedLines: nat

    constructor ()
      ensures Contents() == Totals(None, None, map[], Compaction(0, 0.0, 0), 0, 0)
    {
      earliest, latest, tools := None, None, map[];
      compaction, totalLines, parsedLines := Compaction(0, 0.0, 0), 0, 0;
    }

    function Contents(): Totals
      reads this
    {
      Totals(earliest, latest, tools, compaction, totalLines, parsedLines)
    }

    method TouchTs(ts: int)
      modifies this`earliest, this`latest
      ensures earliest == Earlier(old(earliest), ts) && latest == Later(old(latest), ts)
    {
      match earliest {
        case None => earliest := Some(ts);
        case Some(cur) => if ts < cur { earliest := Some(ts); }
      }
      match latest {
        case None => latest := Some(ts);
        case Some(cur) => if ts > cur { latest := Some(ts); }
      }
    }

    method ReadSessionFiles(entries: seq<Entry>, since: Option<int>)
      modifies this
      ensures Contents() == ReadAll(old(Contents()), entries, since)
    {
      for i := 0 to |entries|
        invariant ReadAll(Contents(), entries[i..], since) == ReadAll(old(Contents()), entries, since)
      {
        var e := entries[i];
        assert entries[i..][1..] == entries[i + 1..];
        if !e.isDir && e.isJson { ReadSessionFile(e.file, since); }
      }
    }

    method ReadSessionFile(file: File, since: Option<int>)
      modifies this
      ensures Contents() == Apply(old(Contents()), EffectOf(file, since))
    {
      if file.Unreadable? { return; }
      totalLines := totalLines + 1;
      if file.Malformed? { return; }
      parsedLines := parsedLines + 1;
      ReadSession(file.session, since);
    }

    method ReadSession(session: Session, since: Option<int>)
      modifies this
      ensures Contents() == Apply(old(Contents()), SessionEffect(session, since))
    {
      if since.Some? && session.ts.Some? && session.ts.value < since.value { return; }
      if session.ts.Some? { TouchTs(session.ts.value); }
      if session.messages.None? { return; }
      WalkToolCalls(session.messages.value);
      WalkCompactions(session.messages.value);
    }

    method WalkToolCalls(messages: seq<Message>)
      modifies this`tools
      ensures tools == AddCalls(old(tools), Calls(Events(messages)))
    {
      var pending: map<string, Use> := map[];
      for i := 0 to |messages|
        invariant pending == Pending(Events(messages[..i]))
        invariant tools == AddCalls(old(tools), Calls(Events(messages[..i])))
      {
        EventsNext(messages, i);
        if messages[i].content.Some? {
          var m := messages[i];
          pending := WalkBlocks(m.role, m.content.value, pending, Events(messages[..i]), old(tools));
        }
      }
      assert messages[..|messages|] == messages;
    }

    /** The inner loop; `seen` is what came before and `start` what the counters were then. */
    method WalkBlocks(role: Role, blocks: seq<Block>, before: map<string, Use>,
                      ghost seen: seq<Event>, ghost start: Tools)
      returns (pending: map<string, Use>)
      requires before == Pending(seen) && tools == AddCalls(start, Calls(seen))
      modifies this`tools
      ensures pending == Pending(seen + BlockEvents(role, blocks))
      ensures tools == AddCalls(start, Calls(seen + BlockEvents(role, blocks)))
    {
      pending := before;
      ghost var done := seen;
      assert seen + [] == seen;
      for j := 0 to |blocks|
        invariant done == seen + BlockEvents(role, blocks[..j])
        invariant pending == Pending(done) && tools == AddCalls(start, Calls(done))
      {
        BlockEventsNext(seen, role, blocks, j);
        AppendEvent(done, role, blocks[j], start);
        done := done + EventOf(role, blocks[j]);
        pending := WalkBlock(role, blocks[j], pending);
      }
      assert blocks[..|blocks|] == blocks;
    }

    method WalkBlock(role: Role, block: Block, before: map<string, Use>) returns (pending: map<string, Use>)
      modifies this`tools
      ensures (pending, tools) == AfterBlock(before, old(tools), role, block)
    {
      pending := before;
      match (role, block) {
        case (Assistant, ToolUse(id, name, elapsedMs)) =>
          if id != "" { pending := pending[id := Use(name, elapsedMs)]; }
        case (User, ToolResult(id, isError)) =>
          if id in pending {
            var use := pending[id];
            pending := pending - {id};
            var stats := CountCall(StatsOf(tools, use.name), use, isError);
            tools := tools[use.name := stats];
          }
        case _ =>
      }
    }

    static method CountCall(was: ToolStats, use: Use, isError: bool) returns (stats: ToolStats)
      ensures stats == Plus(was, One(Call(use, isError)))
    {
      stats := was.(calls := was.calls + 1);
      if use.elapsedMs.Some? {
        stats := stats.(totalElapsedMs := stats.totalElapsedMs + use.elapsedMs.value,
                        elapsedSamples := stats.elapsedSamples + 1);
      }
      if isError {
        stats := stats.(failures := stats.failures + 1);
      } else {
        stats := stats.(successes := stats.successes + 1);
      }
    }

    method WalkCompactions(messages: seq<Message>)
      modifies this`compaction
      ensures compaction == AddCompactions(old(compaction), Compactions(messages))
    {
      for i := 0 to |messages|
        invariant compaction == AddCompactions(old(compaction), Compactions(messages[..i]))
      {
        CompactionsNext(messages, i, old(compaction));
        match messages[i].compaction {
          case None =>
          case Some(ratio) =>
            compaction := compaction.(events := compaction.events + 1);
            if ratio.Some? {
              compaction := compaction.(ratioSum := compaction.ratioSum + ratio.value,
                                        ratioSamples := compaction.ratioSamples + 1);
            }
        }
      }
      assert messages[..|messages|] == messages;
    }
  }

  lemma CompactionsNext(messages: seq<Message>, i: nat, start: Compaction)
    requires i < |messages|
    ensures var (c, was) := (messages[i].compaction, AddCompactions(start, Compactions(messages[..i])));
            AddCompactions(start, Compactions(messages[..i + 1]))
            == if c.Some? then AddCompaction(was, c.value) else was
  {
    var (c, done) := (messages[i].compaction, Compactions(messages[..i]));
    assert messages[..i + 1][..i] == messages[..i];
    if c.Some? { assert (done + [c.value])[..|done|] == done; } else { assert done + [] == done; }
  }

  lemma AppendOne(events: seq<Event>, e: Event)
    ensures Pending(events + [e]) == PendingAfter(Pending(events), e)
    ensures Calls(events + [e]) == Calls(events) + Counted(Pending(events), e)
  {
    assert (events + [e])[..|events|] == events;
  }

  lemma AddCallsAppend(tools: Tools, calls: seq<Call>, c: Call)
    ensures AddCalls(tools, calls + [c]) == AddCall(AddCalls(tools, calls), c)
  {
    assert (calls + [c])[..|calls|] == calls;
  }

  lemma EventsNext(messages: seq<Message>, i: nat)
    requires i < |messages|
    ensures Events(messages[..i + 1]) == Events(messages[..i]) + MessageEvents(messages[i])
    ensures messages[i].content.None? ==> Events(messages[..i + 1]) == Events(messages[..i])
  {
    assert messages[..i + 1][..i] == messages[..i];
  }

  lemma BlockEventsNext(seen: seq<Event>, role: Role, blocks: seq<Block>, j: nat)
    requires j < |blocks|
    ensures seen + BlockEvents(role, blocks[..j + 1])
         == seen + BlockEvents(role, blocks[..j]) + EventOf(role, blocks[j])
  {
    assert blocks[..j + 1][..j] == blocks[..j];
  }

  /** The pending map and the counters after a block. */
  function AfterBlock(pending: map<string, Use>, tools: Tools, role: Role, block: Block): (map<string, Use>, Tools) {
    var es := EventOf(role, block);
    if es == [] then (pending, tools)
    else
      (PendingAfter(pending, es[0]),
       if Counted(pending, es[0]) == [] then tools else AddCall(tools, Counted(pending, es[0])[0]))
  }

  lemma AppendEvent(events: seq<Event>, role: Role, block: Block, start: Tools)
    ensures var after := events + EventOf(role, block);
            (Pending(after), AddCalls(start, Calls(after))) ==
            AfterBlock(Pending(events), AddCalls(start, Calls(events)), role, block)
  {
    var (es, p) := (EventOf(role, block), Pending(events));
    if es == [] {
      assert events + es == events;
    } else {
      assert es == [es[0]];
      AppendOne(events, es[0]);
      if Counted(p, es[0]) == [] {
        assert Calls(events) + [] == Calls(events);
      } else {
        AddCallsAppend(start, Calls(events), Counted(p, es[0])[0]);
      }
    }
  }

  // ---- Which results count.

  predicate About(e: Event, id: string) { if e.Used? then e.id == id else e.toolUseId == id }

  /** The last event that names an id. */
  function LastAbout(events: seq<Event>, id: string): Option<Event> {
    if events == [] then None
    else if About(events[|events| - 1], id) then Some(events[|events| - 1])
    else LastAbout(events[..|events| - 1], id)
  }

  /** A use is pending exactly when it is the last event about its non-empty id. */
  lemma {:induction false} PendingExact(events: seq<Event>, id: string, use: Use)
    ensures (id in Pending(events) && Pending(events)[id] == use)
            <==> (id != "" && LastAbout(events, id) == Some(Used(id, use)))
  {
    if events != [] { PendingExact(events[..|events| - 1], id, use); }
  }

  /** A result is counted, under the name of a use, exactly when that use is the last event about its id. */
  lemma CountedExact(events: seq<Event>, id: string, isError: bool, use: Use)
    ensures Calls(events + [Resulted(id, isError)]) == Calls(events) + [Call(use, isError)] <==>
            id != "" && LastAbout(events, id) == Some(Used(id, use))
  {
    var e := Resulted(id, isError);
    AppendOne(events, e);
    PendingExact(events, id, use);
    var counted := Counted(Pending(events), e);
    if Calls(events) + counted == Calls(events) + [Call(use, isError)] {
      assert (Calls(events) + counted)[|Calls(events)|..] == counted;
      assert (Calls(events) + [Call(use, isError)])[|Calls(events)|..] == [Call(use, isError)];
    }
  }

  // ---- How much they add.

  function CallsNamed(calls: seq<Call>, name: string): nat {
    if calls == [] then 0
    else CallsNamed(calls[..|calls| - 1], name) + if calls[|calls| - 1].use.name == name then 1 else 0
  }

  function UsesNamed(events: seq<Event>, name: string): nat {
    if events == [] then 0
    else
      var e := events[|events| - 1];
      UsesNamed(events[..|events| - 1], name) + if e.Used? && e.use.name == name then 1 else 0
  }

  function Results(events: seq<Event>): nat {
    if events == [] then 0 else Results(events[..|events| - 1]) + if events[|events| - 1].Resulted? then 1 else 0
  }

  function Waiting(pending: map<string, Use>, name: string): set<string> {
    set id | id in pending && pending[id].name == name
  }

  lemma WaitingAfter(pending: map<string, Use>, e: Event, name: string)
    ensures |Waiting(PendingAfter(pending, e), name)|
          + (if e.Resulted? && e.toolUseId in Waiting(pending, name) then 1 else 0)
         <= |Waiting(pending, name)| + (if e.Used? && e.use.name == name then 1 else 0)
  {
    var (was, now) := (Waiting(pending, name), Waiting(PendingAfter(pending, e), name));
    match e
    case Used(id, use) =>
      if use.name == name { Fewer(now, was + {id}); Larger(was, id); } else { Fewer(now, was); }
    case Resulted(id, _) =>
      assert now == was - {id};
  }

  lemma {:induction false} Fewer(a: set<string>, b: set<string>)
    requires a <= b
    ensures |a| <= |b|
  {
    if a != {} {
      var x :| x in a;
      Fewer(a - {x}, b - {x});
    }
  }

  lemma Larger(a: set<string>, x: string)
    ensures |a + {x}| <= |a| + 1
  {
    if x in a { assert a + {x} == a; }
  }

  /** Every counted call used up a use of its name that nothing else used up. */
  lemma {:induction false} CallsNamedBound(events: seq<Event>, name: string)
    ensures CallsNamed(Calls(events), name) + |Waiting(Pending(events), name)| <= UsesNamed(events, name)
  {
    if events != [] {
      var (front, e) := (events[..|events| - 1], events[|events| - 1]);
      CallsNamedBound(front, name);
      WaitingAfter(Pending(front), e, name);
      if Counted(Pending(front), e) != [] {
        var c := Counted(Pending(front), e)[0];
        assert (Calls(front) + [c])[..|Calls(front)|] == Calls(front);
      } else {
        assert Calls(front) + [] == Calls(front);
      }
    }
  }

  lemma {:induction false} CallsBound(events: seq<Event>)
    ensures |Calls(events)| <= Results(events)
  {
    if events != [] { CallsBound(events[..|events| - 1]); }
  }

  lemma {:induction false} NamedAtMostAll(calls: seq<Call>, name: string)
    ensures CallsNamed(calls, name) <= |calls|
  {
    if calls != [] { NamedAtMostAll(calls[..|calls| - 1], name); }
  }

  /** What a list of calls adds to one tool. */
  function Added(calls: seq<Call>, name: string): (s: ToolStats)
    ensures s.calls == s.successes + s.failures == CallsNamed(calls, name)
    ensures s.elapsedSamples <= s.calls && s.autoApproved == s.prompted == 0
  {
    if calls == [] then NO_STATS
    else
      var (s, c) := (Added(calls[..|calls| - 1], name), calls[|calls| - 1]);
      if c.use.name == name then Plus(s, One(c)) else s
  }

  lemma PlusRegroup(a: ToolStats, b: ToolStats, c: ToolStats)
    ensures Plus(Plus(a, b), c) == Plus(a, Plus(b, c)) && Plus(a, NO_STATS) == a && Plus(a, b) == Plus(b, a)
  {
  }

  lemma AddCallExact(tools: Tools, c: Call, name: string)
    ensures var got := AddCall(tools, c);
            if c.use.name == name then name in got && StatsOf(got, name) == Plus(StatsOf(tools, name), One(c))
            else (name in got <==> name in tools) && StatsOf(got, name) == StatsOf(tools, name)
  {
  }

  /** One tool's counters after some calls. */
  function StatsAfter(s: ToolStats, calls: seq<Call>, name: string): ToolStats {
    if calls == [] then s
    else
      var (r, c) := (StatsAfter(s, calls[..|calls| - 1], name), calls[|calls| - 1]);
      if c.use.name == name then Plus(r, One(c)) else r
  }

  lemma {:induction false} AddCallsPointwise(tools: Tools, calls: seq<Call>, name: string)
    ensures var got := AddCalls(tools, calls);
            && (name in got <==> name in tools || CallsNamed(calls, name) > 0)
            && StatsOf(got, name) == StatsAfter(StatsOf(tools, name), calls, name)
    decreases |calls|
  {
    if calls != [] {
      var (front, c) := (calls[..|calls| - 1], calls[|calls| - 1]);
      AddCallsPointwise(tools, front, name);
      AddCallExact(AddCalls(tools, front), c, name);
    }
  }

  lemma {:induction false} StatsAfterExact(s: ToolStats, calls: seq<Call>, name: string)
    ensures StatsAfter(s, calls, name) == Plus(s, Added(calls, name))
  {
    if calls == [] {
      PlusRegroup(s, NO_STATS, NO_STATS);
    } else {
      var (front, c) := (calls[..|calls| - 1], calls[|calls| - 1]);
      StatsAfterExact(s, front, name);
      PlusRegroup(s, Added(front, name), One(c));
    }
  }

  lemma AddCallsExact(tools: Tools, calls: seq<Call>, name: string)
    ensures var got := AddCalls(tools, calls);
            && (name in got <==> name in tools || CallsNamed(calls, name) > 0)
            && StatsOf(got, name) == Plus(StatsOf(tools, name), Added(calls, name))
  {
    AddCallsPointwise(tools, calls, name);
    StatsAfterExact(StatsOf(tools, name), calls, name);
  }

  /** A walk raises a tool's calls by its successes plus its failures, at most once per use and once per result. */
  lemma WalkExact(tools: Tools, messages: seq<Message>, name: string)
    ensures var events := Events(messages);
            var (was, now) := (StatsOf(tools, name), StatsOf(AddCalls(tools, Calls(events)), name));
            && now.calls - was.calls == (now.successes - was.successes) + (now.failures - was.failures)
            && 0 <= now.calls - was.calls <= UsesNamed(events, name)
            && now.calls - was.calls <= Results(events)
            && was.successes <= now.successes && was.failures <= now.failures
            && 0 <= now.elapsedSamples - was.elapsedSamples <= now.calls - was.calls
            && now.autoApproved == was.autoApproved && now.prompted == was.prompted
  {
    var events := Events(messages);
    AddCallsExact(tools, Calls(events), name);
    CallsNamedBound(events, name);
    CallsBound(events);
    NamedAtMostAll(Calls(events), name);
  }

  // ---- Exactly how much a walk adds to a tool.

  /** The use that the result at a position answers: the last event about its non-empty id, when that is a use. */
  function UseAt(events: seq<Event>, i: nat): Option<Use>
    requires i < |events|
  {
    match events[i]
    case Used(_, _) => None
    case Resulted(id, _) =>
      match LastAbout(events[..i], id)
      case Some(Used(_, use)) => if id != "" then Some(use) else None
      case _ => None
  }

  /** The result at a position answers a use of this tool. */
  predicate AnswersAt(events: seq<Event>, i: nat, name: string) {
    i < |events| && UseAt(events, i).Some? && UseAt(events, i).value.name == name
  }

  /** The positions of the results that answer a use of a tool, with an error or without. */
  function Answers(events: seq<Event>, name: string, isError: bool): set<nat> {
    set i: nat | i < |events| && AnswersAt(events, i, name) && events[i].isError == isError
  }

  /** Those whose use states how long it took. */
  function Timed(events: seq<Event>, name: string): set<nat> {
    set i: nat | i < |events| && AnswersAt(events, i, name) && UseAt(events, i).value.elapsedMs.Some?
  }

  /** What their uses took together. */
  function Elapsed(events: seq<Event>, name: string): nat {
    if events == [] then 0
    else
      var last := |events| - 1;
      Elapsed(events[..last], name)
      + if AnswersAt(events, last, name) && UseAt(events, last).value.elapsedMs.Some?
        then UseAt(events, last).value.elapsedMs.value else 0
  }

  /** The counters that a list of events should add to a tool. */
  predicate CountsAre(events: seq<Event>, name: string, s: ToolStats) {
    && s.successes == |Answers(events, name, false)| && s.failures == |Answers(events, name, true)|
    && s.calls == s.successes + s.failures && s.autoApproved == s.prompted == 0
    && s.totalElapsedMs == Elapsed(events, name) && s.elapsedSamples == |Timed(events, name)|
  }

  lemma UseAtFront(events: seq<Event>, i: nat, name: string)
    requires i < |events| - 1
    ensures var front := events[..|events| - 1];
            && UseAt(front, i) == UseAt(events, i) && front[i] == events[i]
            && (AnswersAt(front, i, name) <==> AnswersAt(events, i, name))
  {
    assert events[..|events| - 1][..i] == events[..i];
  }

  lemma Grown(small: set<nat>, large: set<nat>, last: nat, added: bool)
    requires last !in small && forall i :: i in large <==> i in small || (added && i == last)
    ensures |large| == |small| + if added then 1 else 0
  {
    assert large == if added then small + {last} else small;
  }

  lemma AnswersNext(events: seq<Event>, name: string, isError: bool)
    requires events != []
    ensures var last := |events| - 1;
            |Answers(events, name, isError)|
            == |Answers(events[..last], name, isError)|
             + if AnswersAt(events, last, name) && events[last].isError == isError then 1 else 0
  {
    var (last, front) := (|events| - 1, events[..|events| - 1]);
    var now := AnswersAt(events, last, name) && events[last].isError == isError;
    var (small, large) := (Answers(front, name, isError), Answers(events, name, isError));
    forall i: nat ensures i in large <==> i in small || (now && i == last) {
      if i < last { UseAtFront(events, i, name); }
    }
    Grown(small, large, last, now);
  }

  lemma TimedNext(events: seq<Event>, name: string)
    requires events != []
    ensures var last := |events| - 1;
            |Timed(events, name)|
            == |Timed(events[..last], name)|
             + if AnswersAt(events, last, name) && UseAt(events, last).value.elapsedMs.Some? then 1 else 0
  {
    var (last, front) := (|events| - 1, events[..|events| - 1]);
    var now := AnswersAt(events, last, name) && UseAt(events, last).value.elapsedMs.Some?;
    var (small, large) := (Timed(front, name), Timed(events, name));
    forall i: nat ensures i in large <==> i in small || (now && i == last) {
      if i < last { UseAtFront(events, i, name); }
    }
    Grown(small, large, last, now);
  }

  /** What the last event adds, when it answers a use and when it does not. */
  lemma CountsNext(events: seq<Event>, name: string, s: ToolStats)
    requires events != [] && CountsAre(events[..|events| - 1], name, s)
    ensures var last := |events| - 1;
            CountsAre(events, name, if AnswersAt(events, last, name)
                                    then Plus(s, One(Call(UseAt(events, last).value, events[last].isError))) else s)
  {
    AnswersNext(events, name, true);
    AnswersNext(events, name, false);
    TimedNext(events, name);
  }

  lemma CountedLast(events: seq<Event>)
    requires events != []
    ensures var (last, front) := (|events| - 1, events[..|events| - 1]);
            Counted(Pending(front), events[last])
            == match UseAt(events, last) case None => [] case Some(use) => [Call(use, events[last].isError)]
  {
    var (last, front) := (|events| - 1, events[..|events| - 1]);
    match events[last] {
      case Used(_, _) =>
      case Resulted(id, _) =>
        if id in Pending(front) { PendingExact(front, id, Pending(front)[id]); }
        if UseAt(events, last).Some? {
          LastNamed(front, id);
          PendingExact(front, id, UseAt(events, last).value);
        }
    }
  }

  lemma {:induction false} LastNamed(events: seq<Event>, id: string)
    ensures LastAbout(events, id).Some? ==> About(LastAbout(events, id).value, id)
  {
    if events != [] { LastNamed(events[..|events| - 1], id); }
  }

  lemma AddedAppend(calls: seq<Call>, c: Call, name: string)
    ensures Added(calls + [c], name)
         == if c.use.name == name then Plus(Added(calls, name), One(c)) else Added(calls, name)
  {
    assert (calls + [c])[..|calls|] == calls;
  }

  lemma {:induction false} AddedExact(events: seq<Event>, name: string)
    ensures CountsAre(events, name, Added(Calls(events), name))
  {
    if events == [] {
      assert Answers(events, name, true) == {} && Answers(events, name, false) == {} && Timed(events, name) == {};
    } else {
      var (last, front) := (|events| - 1, events[..|events| - 1]);
      AddedExact(front, name);
      CountedLast(events);
      CountsNext(events, name, Added(Calls(front), name));
      if UseAt(events, last).Some? {
        AddedAppend(Calls(front), Call(UseAt(events, last).value, events[last].isError), name);
      } else {
        assert Calls(front) + [] == Calls(front);
      }
    }
  }

  /**
   * A walk raises a tool's successes and failures by the numbers of results without and with an error that
   * answer a use of the tool, its elapsed time by what those uses took, and its samples by how many say so.
   */
  lemma WalkCounts(tools: Tools, messages: seq<Message>, name: string)
    ensures var events := Events(messages);
            var (was, now) := (StatsOf(tools, name), StatsOf(AddCalls(tools, Calls(events)), name));
            && now.successes == was.successes + |Answers(events, name, false)|
            && now.failures == was.failures + |Answers(events, name, true)|
            && now.calls == was.calls + |Answers(events, name, false)| + |Answers(events, name, true)|
            && now.totalElapsedMs == was.totalElapsedMs + Elapsed(events, name)
            && now.elapsedSamples == was.elapsedSamples + |Timed(events, name)|
            && now.autoApproved == was.autoApproved && now.prompted == was.prompted
  {
    AddedExact(Events(messages), name);
    AddCallsExact(tools, Calls(Events(messages)), name);
  }

  /** What a block means to the walk: uses count in the assistant's messages, results in the user's. */
  lemma EventExact(role: Role, block: Block)
    ensures role.Assistant? && block.ToolUse? ==>
              EventOf(role, block) == [Used(block.id, Use(block.name, block.elapsedMs))]
    ensures role.User? && block.ToolResult? ==> EventOf(role, block) == [Resulted(block.toolUseId, block.isError)]
    ensures !(role.Assistant? && block.ToolUse?) && !(role.User? && block.ToolResult?) ==> EventOf(role, block) == []
  {
  }

  /** The messages that mark a compaction. */
  function Compacted(messages: seq<Message>): set<nat> {
    set i: nat | i < |messages| && messages[i].compaction.Some?
  }

  /** Those that state its ratio. */
  function Rated(messages: seq<Message>): set<nat> {
    set i: nat | i < |messages| && messages[i].compaction.Some? && messages[i].compaction.value.Some?
  }

  function RatioTotal(messages: seq<Message>): real {
    if messages == [] then 0.0
    else match messages[|messages| - 1].compaction
      case Some(Some(ratio)) => RatioTotal(messages[..|messages| - 1]) + ratio
      case _ => RatioTotal(messages[..|messages| - 1])
  }

  lemma CompactedNext(messages: seq<Message>)
    requires messages != []
    ensures var (front, c) := (messages[..|messages| - 1], messages[|messages| - 1].compaction);
            && |Compacted(messages)| == |Compacted(front)| + (if c.Some? then 1 else 0)
            && |Rated(messages)| == |Rated(front)| + (if c.Some? && c.value.Some? then 1 else 0)
  {
    var (last, front, c) := (|messages| - 1, messages[..|messages| - 1], messages[|messages| - 1].compaction);
    Grown(Compacted(front), Compacted(messages), last, c.Some?);
    Grown(Rated(front), Rated(messages), last, c.Some? && c.value.Some?);
  }

  /** The walk for compactions counts the messages that mark one, and averages over those that state a ratio. */
  lemma {:induction false} CompactionExact(c: Compaction, messages: seq<Message>)
    ensures AddCompactions(c, Compactions(messages))
         == Compaction(c.events + |Compacted(messages)|, c.ratioSum + RatioTotal(messages),
                       c.ratioSamples + |Rated(messages)|)
    decreases |messages|
  {
    if messages == [] {
      assert Compacted(messages) == {} && Rated(messages) == {};
    } else {
      var last := |messages| - 1;
      var front := messages[..last];
      CompactionExact(c, front);
      CompactionsNext(messages, last, c);
      assert messages[..last + 1] == messages;
      CompactedNext(messages);
    }
  }

  // ---- The order of the files.

  lemma StatsCommute(s: ToolStats, a: seq<Call>, b: seq<Call>, name: string)
    ensures StatsAfter(StatsAfter(s, a, name), b, name) == StatsAfter(StatsAfter(s, b, name), a, name)
  {
    var (x, y) := (Added(a, name), Added(b, name));
    StatsAfterExact(s, a, name);
    StatsAfterExact(s, b, name);
    StatsAfterExact(Plus(s, x), b, name);
    StatsAfterExact(Plus(s, y), a, name);
  }

  lemma CallsCommuteAt(tools: Tools, a: seq<Call>, b: seq<Call>, name: string)
    ensures var (ab, ba) := (AddCalls(AddCalls(tools, a), b), AddCalls(AddCalls(tools, b), a));
            (name in ab <==> name in ba) && StatsOf(ab, name) == StatsOf(ba, name)
  {
    AddCallsPointwise(tools, a, name);
    AddCallsPointwise(tools, b, name);
    AddCallsPointwise(AddCalls(tools, a), b, name);
    AddCallsPointwise(AddCalls(tools, b), a, name);
    StatsCommute(StatsOf(tools, name), a, b, name);
  }

  lemma CallsCommute(tools: Tools, a: seq<Call>, b: seq<Call>)
    ensures AddCalls(AddCalls(tools, a), b) == AddCalls(AddCalls(tools, b), a)
  {
    var (ab, ba) := (AddCalls(AddCalls(tools, a), b), AddCalls(AddCalls(tools, b), a));
    forall name ensures (name in ab <==> name in ba) && StatsOf(ab, name) == StatsOf(ba, name) {
      CallsCommuteAt(tools, a, b, name);
    }
    assert forall name :: name in ab ==> ab[name] == StatsOf(ab, name) == StatsOf(ba, name) == ba[name];
  }

  function Sum(ratios: seq<Option<real>>): Compaction { AddCompactions(Compaction(0, 0.0, 0), ratios) }

  lemma {:induction false} AddCompactionsExact(c: Compaction, ratios: seq<Option<real>>)
    ensures var s := Sum(ratios);
            AddCompactions(c, ratios)
            == Compaction(c.events + s.events, c.ratioSum + s.ratioSum, c.ratioSamples + s.ratioSamples)
  {
    if ratios != [] { AddCompactionsExact(c, ratios[..|ratios| - 1]); }
  }

  lemma EffectsCommute(t: Totals, a: Effect, b: Effect)
    ensures Apply(Apply(t, a), b) == Apply(Apply(t, b), a)
  {
    CallsCommute(t.tools, a.calls, b.calls);
    AddCompactionsExact(t.compaction, a.ratios);
    AddCompactionsExact(t.compaction, b.ratios);
    AddCompactionsExact(AddCompactions(t.compaction, a.ratios), b.ratios);
    AddCompactionsExact(AddCompactions(t.compaction, b.ratios), a.ratios);
  }

  /** The totals do not depend on the order in which the directory lists its files. */
  lemma ListingOrderIrrelevant(t: Totals, xs: seq<Entry>, ys: seq<Entry>, since: Option<int>)
    requires multiset(xs) == multiset(ys)
    ensures ReadAll(t, xs, since) == ReadAll(t, ys, since)
  {
    var step := ReadEntry(since);
    forall s, a, b ensures step(step(s, a), b) == step(step(s, b), a) {
      EffectsCommute(s, EntryEffect(a, since), EntryEffect(b, since));
    }
    Permute(step, t, xs, ys);
  }

  predicate Balanced(s: ToolStats) { s.calls == s.successes + s.failures && s.elapsedSamples <= s.calls }

  /** What a rollup built only from session files keeps. */
  ghost predicate Consistent(t: Totals) {
    && (forall name :: name in t.tools ==> Balanced(t.tools[name]))
    && t.parsedLines <= t.totalLines && t.compaction.ratioSamples <= t.compaction.events
    && (t.earliest.None? <==> t.latest.None?) && (t.earliest.Some? ==> t.earliest.value <= t.latest.value)
  }

  lemma {:induction false} SamplesBound(ratios: seq<Option<real>>)
    ensures Sum(ratios).ratioSamples <= Sum(ratios).events
  {
    if ratios != [] { SamplesBound(ratios[..|ratios| - 1]); }
  }

  lemma EffectConsistent(t: Totals, e: Effect)
    requires Consistent(t) && e.parsed <= e.lines
    ensures Consistent(Apply(t, e))
  {
    forall name | name in AddCalls(t.tools, e.calls)
      ensures Balanced(AddCalls(t.tools, e.calls)[name])
    {
      AddCallsExact(t.tools, e.calls, name);
    }
    AddCompactionsExact(t.compaction, e.ratios);
    SamplesBound(e.ratios);
  }

  /** Over every directory, whatever its files hold. */
  lemma {:induction false} ReadAllConsistent(t: Totals, entries: seq<Entry>, since: Option<int>)
    requires Consistent(t)
    ensures Consistent(ReadAll(t, entries, since))
    decreases |entries|
  {
    if entries != [] {
      var e := EntryEffect(entries[0], since);
      EffectConsistent(t, e);
      ReadAllConsistent(Apply(t, e), entries[1..], since);
    }
  }

  /** A readable JSON file of the directory whose session is not older than the cutoff. */
  predicate TakenIn(e: Entry, since: Option<int>) {
    && !e.isDir && e.isJson && e.file.Readable?
    && (since.Some? && e.file.session.ts.Some? ==> e.file.session.ts.value >= since.value)
  }

  /** What each kind of entry does to the totals; only those taken in reach the counters and the range. */
  lemma EntryExact(t: Totals, e: Entry, since: Option<int>)
    ensures var got := ReadEntry(since)(t, e);
            var listed := !e.isDir && e.isJson && !e.file.Unreadable?;
            var read := !e.isDir && e.isJson && e.file.Readable?;
            && got.totalLines == t.totalLines + (if listed then 1 else 0)
            && got.parsedLines == t.parsedLines + (if read then 1 else 0)
            && (!TakenIn(e, since) ==> got == t.(totalLines := got.totalLines, parsedLines := got.parsedLines))
            && (TakenIn(e, since) && e.file.session.messages.Some? ==>
                  got.tools == AddCalls(t.tools, Calls(Events(e.file.session.messages.value)))
                  && got.compaction == AddCompactions(t.compaction, Compactions(e.file.session.messages.value)))
            && (TakenIn(e, since) && e.file.session.messages.None? ==>
                  got.tools == t.tools && got.compaction == t.compaction)
  {
  }

  /** `x` is the time of an entry that was taken in. */
  ghost predicate Touched(entries: seq<Entry>, since: Option<int>, x: int) {
    exists i :: 0 <= i < |entries| && TakenIn(entries[i], since) && entries[i].file.session.ts == Some(x)
  }

  lemma TouchedNext(entries: seq<Entry>, since: Option<int>, x: int)
    requires entries != []
    ensures Touched(entries, since, x)
            <==> EntryEffect(entries[0], since).ts == Some(x) || Touched(entries[1..], since, x)
  {
    if i :| 0 < i < |entries| && TakenIn(entries[i], since) && entries[i].file.session.ts == Some(x) {
      assert entries[1..][i - 1] == entries[i];
    }
    if Touched(entries[1..], since, x) {
      var i :| 0 <= i < |entries[1..]| && TakenIn(entries[1..][i], since) && entries[1..][i].file.session.ts == Some(x);
      assert entries[i + 1] == entries[1..][i];
    }
  }

  /** The range ends are the least and the greatest of the times taken in and the ends before. */
  lemma {:induction false} RangeExact(t: Totals, entries: seq<Entry>, since: Option<int>, x: int)
    ensures var got := ReadAll(t, entries, since);
            && (Touched(entries, since, x) || t.earliest == Some(x) ==> got.earliest.Some? && got.earliest.value <= x)
            && (Touched(entries, since, x) || t.latest == Some(x) ==> got.latest.Some? && x <= got.latest.value)
            && (got.earliest == Some(x) ==> Touched(entries, since, x) || t.earliest == Some(x))
            && (got.latest == Some(x) ==> Touched(entries, since, x) || t.latest == Some(x))
    decreases |entries|
  {
    if entries != [] {
      var e := EntryEffect(entries[0], since);
      TouchedNext(entries, since, x);
      RangeStep(Apply(t, e), t, e, x);
      RangeExact(Apply(t, e), entries[1..], since, x);
      var next := Apply(t, e);
      if next.earliest.Some? { RangeExact(next, entries[1..], since, next.earliest.value); }
      if next.latest.Some? { RangeExact(next, entries[1..], since, next.latest.value); }
    }
  }

  lemma RangeStep(next: Totals, t: Totals, e: Effect, x: int)
    requires next == Apply(t, e)
    ensures e.ts == Some(x) || t.earliest == Some(x) ==> next.earliest.Some? && next.earliest.value <= x
    ensures e.ts == Some(x) || t.latest == Some(x) ==> next.latest.Some? && x <= next.latest.value
    ensures next.earliest == Some(x) ==> e.ts == Some(x) || t.earliest == Some(x)
    ensures next.latest == Some(x) ==> e.ts == Some(x) || t.latest == Some(x)
  {
  }
}
