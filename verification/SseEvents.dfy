/** Reading one server-sent event: `parse_sse_frame` and the printer it undoes. */
module SseEvents {
  import opened Wrappers
  import opened Text
  import opened Binary
  import opened SseFrames

  datatype SseEvent = SseEvent(name: string, data: string)

  function StripPrefix(s: string, prefix: string): (r: Option<string>)
    ensures r.Some? ==> s == prefix + r.value
  {
    if prefix <= s then Some(s[|prefix|..]) else None
  }

  /** What one line of a frame is. */
  datatype Field = Event(value: string) | Data(value: string) | Other

  function Classify(raw: string): Field {
    var line := TrimEndBy(IsCr, raw);
    match StripPrefix(line, "event:")
    case Some(value) => Event(Trim(value))
    case None =>
      match StripPrefix(line, "data:")
      case Some(value) => Data(TrimStartBy(IsWhitespace, value))
      case None => Other
  }

  function ClassifyAll(lines: seq<string>): (r: seq<Field>)
    ensures |r| == |lines| && forall i :: 0 <= i < |r| ==> r[i] == Classify(lines[i])
  {
    seq(|lines|, i requires 0 <= i < |lines| => Classify(lines[i]))
  }

  /** The last event name and all data values, in order. */
  datatype Seen = Seen(name: Option<string>, data: seq<string>)

  function Collect(seen: Seen, fields: seq<Field>): Seen
    decreases |fields|
  {
    if fields == [] then seen
    else match fields[0]
      case Event(value) => Collect(seen.(name := Some(value)), fields[1..])
      case Data(value) => Collect(seen.(data := seen.data + [value]), fields[1..])
      case Other => Collect(seen, fields[1..])
  }

  function Finish(seen: Seen): Option<SseEvent> {
    if seen.name.Some? && seen.data != [] then Some(SseEvent(seen.name.value, Join(seen.data, "\n"))) else None
  }

  function ParseText(text: string): Option<SseEvent> {
    Finish(Collect(Seen(None, []), ClassifyAll(Lines(text))))
  }

  /** `decode` is UTF-8 decoding, which may refuse the bytes. */
  function ParseFrame(decode: Bytes -> Option<string>, frame: Bytes): Option<SseEvent> {
    match decode(frame) case None => None case Some(text) => ParseText(text)
  }

  method ParseSseFrame(decode: Bytes -> Option<string>, frame: Bytes) returns (event: Option<SseEvent>)
    ensures event == ParseFrame(decode, frame)
  {
    match decode(frame) {
      case None => event := None;
      case Some(text) =>
        var eventName: Option<string> := None;
        var dataLines: seq<string> := [];
        var lines := Lines(text);
        ghost var fields := ClassifyAll(lines);
        for i := 0 to |lines|
          invariant Collect(Seen(eventName, dataLines), fields[i..]) == Collect(Seen(None, []), fields)
        {
          assert fields[i..][1..] == fields[i + 1..];
          match Classify(lines[i]) {
            case Event(value) => eventName := Some(value);
            case Data(value) => dataLines := dataLines + [value];
            case Other =>
          }
        }
        event :=
          if eventName.Some? && dataLines != [] then Some(SseEvent(eventName.value, Join(dataLines, "\n"))) else None;
    }
  }

  // ---- What a frame parses to, on its lines.

  /** The line without the carriage returns at its end. */
  function Bare(line: string): string { TrimEndBy(IsCr, line) }

  predicate IsEventLine(line: string) { "event:" <= Bare(line) }

  predicate IsDataLine(line: string) { "data:" <= Bare(line) }

  predicate LastEventLine(lines: seq<string>, i: nat) {
    i < |lines| && IsEventLine(lines[i]) && forall j :: i < j < |lines| ==> !IsEventLine(lines[j])
  }

  /** What follows `data:`, less white space in front, or nothing on any other line. */
  function DataOn(line: string): seq<string> {
    if IsDataLine(line) then [TrimStartBy(IsWhitespace, Bare(line)[5..])] else []
  }

  /** The data of every line, in order. */
  function DataValues(lines: seq<string>): seq<string> {
    if lines == [] then [] else DataOn(lines[0]) + DataValues(lines[1..])
  }

  lemma ClassifyExact(line: string)
    ensures IsEventLine(line) ==> Classify(line) == Event(Trim(Bare(line)[6..])) && !IsDataLine(line)
    ensures IsDataLine(line) ==> Classify(line) == Data(TrimStartBy(IsWhitespace, Bare(line)[5..]))
    ensures !IsEventLine(line) && !IsDataLine(line) ==> Classify(line) == Other
  {
    if IsEventLine(line) { assert Bare(line)[0] == 'e'; }
  }

  function DataIn(field: Field): seq<string> { if field.Data? then [field.value] else [] }

  lemma DataExact(line: string)
    ensures DataIn(Classify(line)) == DataOn(line)
  {
    ClassifyExact(line);
  }

  function Datas(fields: seq<Field>): seq<string> {
    if fields == [] then []
    else DataIn(fields[0]) + Datas(fields[1..])
  }

  lemma {:induction false} CollectDatas(seen: Seen, fields: seq<Field>)
    ensures Collect(seen, fields).data == seen.data + Datas(fields)
    decreases |fields|
  {
    if fields == [] {
      assert seen.data + [] == seen.data;
    } else {
      var v := if fields[0].Data? then [fields[0].value] else [];
      assert seen.data + v + Datas(fields[1..]) == seen.data + (v + Datas(fields[1..]));
      var next := if fields[0].Event? then Seen(Some(fields[0].value), seen.data) else Seen(seen.name, seen.data + v);
      assert seen.data + [] == seen.data;
      CollectDatas(next, fields[1..]);
    }
  }

  lemma DatasCons(field: Field, fields: seq<Field>)
    ensures Datas([field] + fields) == DataIn(field) + Datas(fields)
  {
    assert ([field] + fields)[1..] == fields;
  }

  lemma {:induction false} DatasExact(lines: seq<string>)
    ensures Datas(ClassifyAll(lines)) == DataValues(lines)
  {
    if lines != [] {
      DataExact(lines[0]);
      DatasExact(lines[1..]);
      DatasCons(Classify(lines[0]), ClassifyAll(lines[1..]));
      assert ClassifyAll(lines) == [Classify(lines[0])] + ClassifyAll(lines[1..]);
    }
  }

  lemma {:induction false} DataValuesSome(lines: seq<string>)
    ensures DataValues(lines) != [] <==> exists i :: 0 <= i < |lines| && IsDataLine(lines[i])
  {
    if lines != [] {
      DataValuesSome(lines[1..]);
      if i :| 0 < i < |lines| && IsDataLine(lines[i]) { assert lines[1..][i - 1] == lines[i]; }
    }
  }

  lemma {:induction false} NameKept(seen: Seen, fields: seq<Field>)
    requires forall i :: 0 <= i < |fields| ==> !fields[i].Event?
    ensures Collect(seen, fields).name == seen.name
    decreases |fields|
  {
    if fields != [] {
      NameKept(if fields[0].Data? then seen.(data := seen.data + [fields[0].value]) else seen, fields[1..]);
    }
  }

  lemma {:induction false} NameLast(seen: Seen, fields: seq<Field>, i: nat)
    requires i < |fields| && fields[i].Event? && forall j :: i < j < |fields| ==> !fields[j].Event?
    ensures Collect(seen, fields).name == Some(fields[i].value)
    decreases |fields|
  {
    var next := match fields[0]
      case Event(value) => seen.(name := Some(value))
      case Data(value) => seen.(data := seen.data + [value])
      case Other => seen;
    if i == 0 { NameKept(next, fields[1..]); } else { NameLast(next, fields[1..], i - 1); }
  }

  /** No `event:` line, or no `data:` line. */
  predicate Incomplete(lines: seq<string>) {
    (forall i :: 0 <= i < |lines| ==> !IsEventLine(lines[i])) || forall i :: 0 <= i < |lines| ==> !IsDataLine(lines[i])
  }

  /** What follows `event:`, trimmed. */
  function NameOn(line: string): string
    requires IsEventLine(line)
  {
    Trim(Bare(line)[6..])
  }

  lemma NamesExact(lines: seq<string>)
    ensures forall i :: 0 <= i < |lines| ==> (ClassifyAll(lines)[i].Event? <==> IsEventLine(lines[i]))
    ensures forall i :: 0 <= i < |lines| && IsEventLine(lines[i]) ==> ClassifyAll(lines)[i].value == NameOn(lines[i])
  {
    forall i | 0 <= i < |lines| ensures ClassifyAll(lines)[i].Event? <==> IsEventLine(lines[i])
                                ensures IsEventLine(lines[i]) ==> ClassifyAll(lines)[i] == Event(NameOn(lines[i])) {
      ClassifyExact(lines[i]);
    }
  }

  lemma NameAt(lines: seq<string>, i: nat)
    requires LastEventLine(lines, i)
    ensures Collect(Seen(None, []), ClassifyAll(lines)).name == Some(NameOn(lines[i]))
  {
    NamesExact(lines);
    NameLast(Seen(None, []), ClassifyAll(lines), i);
  }

  lemma NameNone(lines: seq<string>)
    requires forall i :: 0 <= i < |lines| ==> !IsEventLine(lines[i])
    ensures Collect(Seen(None, []), ClassifyAll(lines)).name == None
  {
    NamesExact(lines);
    NameKept(Seen(None, []), ClassifyAll(lines));
  }

  lemma {:induction false} LastEvent(lines: seq<string>) returns (i: nat)
    requires exists j :: 0 <= j < |lines| && IsEventLine(lines[j])
    ensures LastEventLine(lines, i)
  {
    i := |lines| - 1;
    if !IsEventLine(lines[i]) {
      var j :| 0 <= j < |lines| && IsEventLine(lines[j]);
      assert lines[..i][j] == lines[j];
      i := LastEvent(lines[..i]);
    }
  }

  lemma SeenData(lines: seq<string>)
    ensures Collect(Seen(None, []), ClassifyAll(lines)).data == DataValues(lines)
    ensures DataValues(lines) == [] <==> forall i :: 0 <= i < |lines| ==> !IsDataLine(lines[i])
  {
    CollectDatas(Seen(None, []), ClassifyAll(lines));
    DatasExact(lines);
    DataValuesSome(lines);
  }

  lemma ParseIncomplete(lines: seq<string>)
    ensures Finish(Collect(Seen(None, []), ClassifyAll(lines))).None? <==> Incomplete(lines)
  {
    SeenData(lines);
    if forall i :: 0 <= i < |lines| ==> !IsEventLine(lines[i]) {
      NameNone(lines);
    } else {
      var i := LastEvent(lines);
      NameAt(lines, i);
    }
  }

  lemma ParseComplete(lines: seq<string>, i: nat)
    requires !Incomplete(lines) && LastEventLine(lines, i)
    ensures Finish(Collect(Seen(None, []), ClassifyAll(lines)))
         == Some(SseEvent(NameOn(lines[i]), Join(DataValues(lines), "\n")))
  {
    SeenData(lines);
    NameAt(lines, i);
  }

  /**
   * Any text: it is no event exactly when it lacks an `event:` or a `data:` line. Otherwise its name is that of
   * its last `event:` line, and its data is the values of all its `data:` lines in order.
   */
  lemma ParseExact(text: string, i: nat)
    ensures ParseText(text).None? <==> Incomplete(Lines(text))
    ensures !Incomplete(Lines(text)) && LastEventLine(Lines(text), i) ==>
              ParseText(text) == Some(SseEvent(NameOn(Lines(text)[i]), Join(DataValues(Lines(text)), "\n")))
  {
    var lines := Lines(text);
    ParseIncomplete(lines);
    if !Incomplete(lines) && LastEventLine(lines, i) { ParseComplete(lines, i); }
  }

  lemma EventLineStart(line: string)
    ensures IsEventLine(line) ==> line != "" && line[0] == 'e'
  {
    if IsEventLine(line) { assert Bare(line)[0] == 'e'; }
  }

  /** A frame of comments is no event. */
  lemma CommentsIgnored(text: string)
    requires forall i :: 0 <= i < |Lines(text)| ==> Lines(text)[i] == "" || Lines(text)[i][0] == ':'
    ensures ParseText(text).None?
  {
    forall i | 0 <= i < |Lines(text)| ensures !IsEventLine(Lines(text)[i]) { EventLineStart(Lines(text)[i]); }
    ParseExact(text, 0);
  }

  /** The runtime's keep-alive is one comment line and a blank line. */
  lemma KeepAliveIgnored(comment: string)
    requires '\n' !in comment
    ensures ParseText(":" + comment + "\n" + ("\n" + "")).None?
  {
    LinesCons(":" + comment, "\n" + "");
    LinesCons("", "");
    assert "" + "\n" + "" == "\n" + "";
    CommentsIgnored(":" + comment + "\n" + ("\n" + ""));
  }

  function PrintData(lines: seq<string>): string {
    if lines == [] then "\n" else "data: " + lines[0] + "\n" + PrintData(lines[1..])
  }

  function PrintFrame(name: string, lines: seq<string>): string {
    "event: " + name + "\n" + PrintData(lines)
  }

  predicate PlainName(name: string) { Trimmed(name) && '\n' !in name }

  predicate PlainLine(line: string) {
    '\n' !in line && (line != "" ==> !IsWhitespace(line[0]) && line[|line| - 1] != '\r')
  }

  lemma SkipOneSpace(line: string)
    requires line != "" ==> !IsWhitespace(line[0])
    ensures TrimStartBy(IsWhitespace, " " + line) == line
  {
    var s := " " + line;
    var n := SkipFrom(IsWhitespace, s, 0);
    assert IsWhitespace(s[0]);
    if line != "" { assert s[1] == line[0]; }
    assert n == 1;
  }

  lemma PlainDataLine(line: string)
    requires PlainLine(line)
    ensures StripCr("data: " + line) == "data: " + line && '\n' !in "data: " + line
    ensures Classify("data: " + line) == Data(line)
  {
    var raw := "data: " + line;
    assert raw[|raw| - 1] != '\r';
    assert TrimEndBy(IsCr, raw) == raw && raw[0] == 'd' && "data:" <= raw && raw[5..] == " " + line;
    SkipOneSpace(line);
  }

  lemma PlainNameLine(name: string)
    requires PlainName(name)
    ensures StripCr("event: " + name) == "event: " + name && '\n' !in "event: " + name
    ensures Classify("event: " + name) == Event(name)
  {
    var raw := "event: " + name;
    assert raw[|raw| - 1] == if name == "" then ' ' else name[|name| - 1];
    assert TrimEndBy(IsCr, raw) == raw && "event:" <= raw && raw[6..] == " " + name;
    SkipOneSpace(name);
  }

  function DataFields(lines: seq<string>): seq<Field> {
    if lines == [] then [Other] else [Data(lines[0])] + DataFields(lines[1..])
  }

  lemma ClassifyFirst(raw: string, rest: string)
    requires '\n' !in raw && StripCr(raw) == raw
    ensures ClassifyAll(Lines(raw + "\n" + rest)) == [Classify(raw)] + ClassifyAll(Lines(rest))
  {
    LinesCons(raw, rest);
  }

  lemma {:induction false} PrintedFields(lines: seq<string>)
    requires forall i :: 0 <= i < |lines| ==> PlainLine(lines[i])
    ensures ClassifyAll(Lines(PrintData(lines))) == DataFields(lines)
  {
    if lines == [] {
      ClassifyFirst("", "");
      assert "" + "\n" + "" == "\n" && TrimEndBy(IsCr, "") == "";
    } else {
      PlainDataLine(lines[0]);
      ClassifyFirst("data: " + lines[0], PrintData(lines[1..]));
      PrintedFields(lines[1..]);
    }
  }

  lemma {:induction false} CollectData(seen: Seen, lines: seq<string>)
    ensures Collect(seen, DataFields(lines)) == Seen(seen.name, seen.data + lines)
    decreases |lines|
  {
    if lines == [] {
      assert seen.data + lines == seen.data;
    } else {
      CollectData(seen.(data := seen.data + [lines[0]]), lines[1..]);
      assert seen.data + [lines[0]] + lines[1..] == seen.data + lines;
    }
  }

  lemma FrameFields(name: string, lines: seq<string>)
    requires PlainName(name) && forall i :: 0 <= i < |lines| ==> PlainLine(lines[i])
    ensures ClassifyAll(Lines(PrintFrame(name, lines))) == [Event(name)] + DataFields(lines)
  {
    PlainNameLine(name);
    ClassifyFirst("event: " + name, PrintData(lines));
    PrintedFields(lines);
  }

  lemma CollectFrame(name: string, lines: seq<string>)
    ensures Collect(Seen(None, []), [Event(name)] + DataFields(lines)) == Seen(Some(name), lines)
  {
    CollectData(Seen(Some(name), []), lines);
    assert ([Event(name)] + DataFields(lines))[1..] == DataFields(lines);
    assert [] + lines == lines;
  }

  /** Parsing a printed frame gives back its name and its data lines joined by line feeds. */
  lemma FrameRoundTrip(name: string, lines: seq<string>)
    requires PlainName(name) && lines != [] && forall i :: 0 <= i < |lines| ==> PlainLine(lines[i])
    ensures ParseText(PrintFrame(name, lines)) == Some(SseEvent(name, Join(lines, "\n")))
  {
    FrameFields(name, lines);
    CollectFrame(name, lines);
  }
}
