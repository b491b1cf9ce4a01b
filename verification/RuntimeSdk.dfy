/** The runtime SDK's incremental event-stream parser. */
module RuntimeSdk {
  import opened Wrappers
  import opened Search
  import opened Text

  const BLANK_LINE := "\n\n"

  /** The characters JavaScript's `trim` family removes. */
  predicate IsJsWhitespace(c: char) {
    var n := c as int;
    9 <= n <= 13 || n == 0x20 || n == 0xA0 || n == 0x1680 || 0x2000 <= n <= 0x200A ||
    n == 0x2028 || n == 0x2029 || n == 0x202F || n == 0x205F || n == 0x3000 || n == 0xFEFF
  }

  /** `split(/\r?\n/)`. */
  function FrameLines(frame: string): seq<string>
    decreases |frame|
  {
    match Index(frame, '\n')
    case None => [frame]
    case Some(i) => [StripCr(frame[..i])] + FrameLines(frame[i + 1..])
  }

  function DataValues(lines: seq<string>): seq<string> {
    if lines == [] then []
    else if "data:" <= lines[0] then [TrimStartBy(IsJsWhitespace, lines[0][5..])] + DataValues(lines[1..])
    else DataValues(lines[1..])
  }

  function FrameData(frame: string): string { Join(DataValues(FrameLines(frame)), "\n") }

  /** What a frame gives: nothing, an event, or an exception from `JSON.parse`. */
  datatype Parsed<E> = Nothing | Event(event: E) | Throws

  function ParseSseFrame<E>(json: string -> Option<E>, frame: string): Parsed<E> {
    var data := FrameData(frame);
    if data == "" || data == "[DONE]" then Nothing
    else match json(data) case None => Throws case Some(event) => Event(event)
  }

  /** What the generator did: the events it yielded, and whether it ended with an exception. */
  datatype Yielded<E> = Yielded(events: seq<E>, threw: bool)

  function OnPiece<E>(json: string -> Option<E>, y: Yielded<E>, frame: string): Yielded<E> {
    match ParseSseFrame(json, frame)
    case Nothing => y
    case Event(event) => y.(events := y.events + [event])
    case Throws => y.(threw := true)
  }

  /** Parsing pieces in order, up to the first exception. */
  function ParsePieces<E>(json: string -> Option<E>, y: Yielded<E>, pieces: seq<string>): Yielded<E>
    decreases |pieces|
  {
    if pieces == [] || y.threw then y else ParsePieces(json, OnPiece(json, y, pieces[0]), pieces[1..])
  }

  /** `split("\n\n")`. */
  function Pieces(text: string): seq<string>
    decreases |text|
  {
    match Find(text, BLANK_LINE)
    case None => [text]
    case Some(i) => [text[..i]] + Pieces(text[i + 2..])
  }

  /** The specification: split the whole text on blank lines and parse every piece, the last included. */
  function ParseWhole<E>(json: string -> Option<E>, text: string): Yielded<E> {
    ParsePieces(json, Yielded([], false), Pieces(text))
  }

  lemma PiecesStep(buffer: string, i: nat, later: string)
    requires Find(buffer, BLANK_LINE) == Some(i)
    ensures Pieces(buffer + later) == [buffer[..i]] + Pieces(buffer[i + 2..] + later)
    ensures ([buffer[..i]] + Pieces(buffer[i + 2..] + later))[1..] == Pieces(buffer[i + 2..] + later)
  {
    FindStable(buffer, later, BLANK_LINE);
    assert (buffer + later)[..i] == buffer[..i];
    assert (buffer + later)[i + 2..] == buffer[i + 2..] + later;
  }

  lemma NoStraddle(buffer: string, tail: string, i: nat)
    requires '\n' !in tail && OccursAt(buffer + tail, BLANK_LINE, i)
    ensures OccursAt(buffer, BLANK_LINE, i)
  {
    var s := buffer + tail;
    assert s[i..i + 2][1] == s[i + 1] == '\n';
    OccursInLonger(buffer, tail, BLANK_LINE, i);
  }

  lemma LastPiece(buffer: string, tail: string)
    requires Find(buffer, BLANK_LINE).None? && '\n' !in tail
    ensures Pieces(buffer + tail) == [buffer + tail]
  {
    if Find(buffer + tail, BLANK_LINE).Some? {
      NoStraddle(buffer, tail, Find(buffer + tail, BLANK_LINE).value);
    }
  }

  /**
   * The body's chunks as decoded text; `tail` is what the decoder's final flush adds, at most
   * replacement characters.
   */
  method ParseEventStream<E>(json: string -> Option<E>, chunks: seq<string>, tail: string) returns (y: Yielded<E>)
    requires '\n' !in tail
    ensures y == ParseWhole(json, Flatten(chunks) + tail)
  {
    var buffer := "";
    y := Yielded([], false);
    ghost var goal := ParseWhole(json, Flatten(chunks) + tail);
    assert chunks[0..] == chunks && "" + (Flatten(chunks) + tail) == Flatten(chunks) + tail;
    for i := 0 to |chunks|
      invariant !y.threw && Find(buffer, BLANK_LINE).None?
      invariant goal == ParsePieces(json, y, Pieces(buffer + (Flatten(chunks[i..]) + tail)))
    {
      ghost var later := Flatten(chunks[i + 1..]) + tail;
      NextChunk(buffer, chunks, i, tail);
      y, buffer := DrainBuffer(json, y, buffer + chunks[i], later);
      if y.threw { return; }
    }
    assert chunks[|chunks|..] == [] && Flatten(chunks[|chunks|..]) + tail == tail;
    LastPiece(buffer, tail);
    y := OnPiece(json, y, buffer + tail);
  }

  lemma NextChunk(buffer: string, chunks: seq<string>, i: nat, tail: string)
    requires i < |chunks|
    ensures buffer + (Flatten(chunks[i..]) + tail) == (buffer + chunks[i]) + (Flatten(chunks[i + 1..]) + tail)
  {
    FlattenCons(chunks[i], chunks[i + 1..]);
    assert chunks[i..] == [chunks[i]] + chunks[i + 1..];
  }

  /** The inner loop: parse and drop every piece that a blank line in the buffer completes. */
  method DrainBuffer<E>(json: string -> Option<E>, start: Yielded<E>, text: string, ghost later: string)
    returns (y: Yielded<E>, buffer: string)
    requires !start.threw
    ensures y.threw ==> y == ParsePieces(json, start, Pieces(text + later))
    ensures !y.threw ==> Find(buffer, BLANK_LINE).None?
    ensures !y.threw ==>
              ParsePieces(json, y, Pieces(buffer + later)) == ParsePieces(json, start, Pieces(text + later))
  {
    y, buffer := start, text;
    var boundary := Find(buffer, BLANK_LINE);
    while boundary.Some?
      invariant boundary == Find(buffer, BLANK_LINE) && !y.threw
      invariant ParsePieces(json, y, Pieces(buffer + later)) == ParsePieces(json, start, Pieces(text + later))
      decreases |buffer|
    {
      PiecesStep(buffer, boundary.value, later);
      var frame := buffer[..boundary.value];
      buffer := buffer[boundary.value + 2..];
      y := OnPiece(json, y, frame);
      if y.threw { return; }
      boundary := Find(buffer, BLANK_LINE);
    }
  }

  // ---- Server to client: one `data:` line per payload comes back as that payload's event.

  predicate PlainPayload(p: string) {
    p != "" && p != "[DONE]" && '\n' !in p && !IsJsWhitespace(p[0])
  }

  function Wire(payloads: seq<string>): string {
    if payloads == [] then "" else "data: " + payloads[0] + "\n\n" + Wire(payloads[1..])
  }

  lemma PayloadData(p: string)
    requires PlainPayload(p)
    ensures FrameData("data: " + p) == p
  {
    var frame := "data: " + p;
    assert FrameLines(frame) == [frame];
    assert "data:" <= frame && frame[5..] == " " + p;
    assert IsJsWhitespace((" " + p)[0]) && !IsJsWhitespace((" " + p)[1]);
    assert SkipFrom(IsJsWhitespace, " " + p, 0) == 1;
    assert DataValues([frame][1..]) == [];
    assert DataValues([frame]) == [p];
  }

  lemma NoEarlierBlank(head: string, rest: string, i: nat)
    requires '\n' !in head && OccursAt(head + ("\n\n" + rest), BLANK_LINE, i)
    ensures i >= |head|
  {
    var s := head + ("\n\n" + rest);
    assert s[i..i + 2][0] == s[i];
  }

  lemma WirePieces(p: string, rest: string)
    requires '\n' !in p
    ensures Pieces("data: " + p + "\n\n" + rest) == ["data: " + p] + Pieces(rest)
    ensures (["data: " + p] + Pieces(rest))[1..] == Pieces(rest)
  {
    var head := "data: " + p;
    var s := head + ("\n\n" + rest);
    assert head + "\n\n" + rest == s;
    assert s[|head|..|head| + 2] == BLANK_LINE;
    assert OccursAt(s, BLANK_LINE, |head|);
    NoEarlierBlank(head, rest, Find(s, BLANK_LINE).value);
    assert s[..|head|] == head && s[|head| + 2..] == rest;
  }

  /** The events of the payloads, in order. */
  function Values<E>(json: string -> Option<E>, payloads: seq<string>): seq<E>
    requires forall i :: 0 <= i < |payloads| ==> json(payloads[i]).Some?
  {
    if payloads == [] then [] else [json(payloads[0]).value] + Values(json, payloads[1..])
  }

  lemma EmptyPieceIgnored<E>(json: string -> Option<E>, y: Yielded<E>)
    ensures ParsePieces(json, y, Pieces("")) == y
  {
    assert Pieces("") == [""] && FrameLines("") == [""] && DataValues([""]) == [];
    assert ParseSseFrame(json, "") == Nothing;
  }

  lemma WireStep<E>(json: string -> Option<E>, y: Yielded<E>, p: string, rest: string)
    requires !y.threw && PlainPayload(p) && json(p).Some?
    ensures ParsePieces(json, y, Pieces("data: " + p + "\n\n" + rest))
         == ParsePieces(json, y.(events := y.events + [json(p).value]), Pieces(rest))
  {
    WirePieces(p, rest);
    assert OnPiece(json, y, "data: " + p) == y.(events := y.events + [json(p).value]) by { PayloadData(p); }
  }

  lemma Regroup<E>(a: seq<E>, b: E, c: seq<E>)
    ensures (a + [b]) + c == a + ([b] + c)
  {
  }

  lemma {:induction false} WireRoundTrip<E>(json: string -> Option<E>, y: Yielded<E>, payloads: seq<string>)
    requires !y.threw && forall i :: 0 <= i < |payloads| ==> PlainPayload(payloads[i]) && json(payloads[i]).Some?
    ensures ParsePieces(json, y, Pieces(Wire(payloads))) == Yielded(y.events + Values(json, payloads), false)
    decreases |payloads|
  {
    if payloads == [] {
      EmptyPieceIgnored(json, y);
      assert y.events + [] == y.events;
    } else {
      var value := json(payloads[0]).value;
      WireStep(json, y, payloads[0], Wire(payloads[1..]));
      WireRoundTrip(json, Yielded(y.events + [value], false), payloads[1..]);
      Regroup(y.events, value, Values(json, payloads[1..]));
    }
  }

  // ---- Whole frames: event lines, several data lines, `[DONE]`, and data that is no JSON.

  /** A line of a frame: data, or anything else, such as an event name or a comment. */
  datatype FrameLine = DataLine(payload: string) | OtherLine(text: string) {
    function Text(): string { if DataLine? then "data: " + payload else text }

    predicate Plain() {
      && Text() != "" && '\n' !in Text() && Text()[|Text()| - 1] != '\r'
      && if DataLine? then payload == "" || !IsJsWhitespace(payload[0]) else !("data:" <= text)
    }
  }

  function Texts(lines: seq<FrameLine>): (r: seq<string>)
    ensures |r| == |lines|
  {
    if lines == [] then [] else [lines[0].Text()] + Texts(lines[1..])
  }

  function Payloads(lines: seq<FrameLine>): seq<string> {
    if lines == [] then []
    else (if lines[0].DataLine? then [lines[0].payload] else []) + Payloads(lines[1..])
  }

  predicate PlainFrame(lines: seq<FrameLine>) { lines != [] && forall i :: 0 <= i < |lines| ==> lines[i].Plain() }

  lemma SkipOneSpace(p: string)
    requires p == "" || !IsJsWhitespace(p[0])
    ensures TrimStartBy(IsJsWhitespace, " " + p) == p
  {
    var s := " " + p;
    assert IsJsWhitespace(s[0]);
    if p != "" { assert s[1] == p[0]; }
    assert SkipFrom(IsJsWhitespace, s, 0) == 1;
  }

  function DataOn(text: string): seq<string> {
    if "data:" <= text then [TrimStartBy(IsJsWhitespace, text[5..])] else []
  }

  lemma DataValuesCons(text: string, rest: seq<string>)
    ensures DataValues([text] + rest) == DataOn(text) + DataValues(rest)
  {
    assert ([text] + rest)[1..] == rest;
    assert [] + DataValues(rest) == DataValues(rest);
  }

  lemma DataOnLine(line: FrameLine)
    requires line.Plain()
    ensures DataOn(line.Text()) == if line.DataLine? then [line.payload] else []
  {
    if line.DataLine? {
      var text := line.Text();
      assert "data:" <= text && text[5..] == " " + line.payload;
      SkipOneSpace(line.payload);
    }
  }

  lemma {:induction false} PayloadsBack(lines: seq<FrameLine>)
    requires forall i :: 0 <= i < |lines| ==> lines[i].Plain()
    ensures DataValues(Texts(lines)) == Payloads(lines)
  {
    if lines != [] {
      DataOnLine(lines[0]);
      DataValuesCons(lines[0].Text(), Texts(lines[1..]));
      PayloadsBack(lines[1..]);
    }
  }

  lemma LineCons(raw: string, rest: string)
    requires '\n' !in raw
    ensures FrameLines(raw + "\n" + rest) == [StripCr(raw)] + FrameLines(rest)
  {
    var s := raw + "\n" + rest;
    IndexUnique(raw, '\n', rest);
    assert s == raw + ['\n'] + rest;
    assert s[..|raw|] == raw && s[|raw| + 1..] == rest;
  }

  lemma LineThen(line: string, rest: string)
    requires '\n' !in line && (line == "" || line[|line| - 1] != '\r')
    ensures FrameLines(line + "\n" + rest) == [line] + FrameLines(rest)
  {
    LineCons(line, rest);
    assert StripCr(line) == line;
  }

  lemma LastLine(line: string)
    requires '\n' !in line
    ensures FrameLines(line) == [line]
  {
  }

  /** A line may also end in a carriage return and a line feed; one carriage return belongs to the ending. */
  lemma LineEndings(line: string, rest: string)
    requires '\n' !in line
    ensures FrameLines(line + "\r" + "\n" + rest) == [line] + FrameLines(rest)
    ensures line == "" || line[|line| - 1] != '\r' ==> FrameLines(line + "\n" + rest) == [line] + FrameLines(rest)
  {
    LineCons(line + "\r", rest);
    assert StripCr(line + "\r") == line by { assert (line + "\r")[..|line|] == line; }
    if line == "" || line[|line| - 1] != '\r' { LineThen(line, rest); }
  }

  lemma JoinTexts(lines: seq<FrameLine>)
    requires |lines| > 1
    ensures Join(Texts(lines), "\n") == lines[0].Text() + "\n" + Join(Texts(lines[1..]), "\n")
  {
    assert Texts(lines)[1..] == Texts(lines[1..]);
  }

  lemma {:induction false} LinesBack(lines: seq<FrameLine>)
    requires PlainFrame(lines)
    ensures FrameLines(Join(Texts(lines), "\n")) == Texts(lines)
  {
    var line := lines[0].Text();
    if |lines| == 1 {
      LastLine(line);
      assert Texts(lines) == [line];
    } else {
      LinesBack(lines[1..]);
      LineThen(line, Join(Texts(lines[1..]), "\n"));
      JoinTexts(lines);
    }
  }

  /** The data of a frame is that of its data lines, joined by line feeds, whatever lines stand between them. */
  lemma FrameDataExact(lines: seq<FrameLine>)
    requires PlainFrame(lines)
    ensures FrameData(Join(Texts(lines), "\n")) == Join(Payloads(lines), "\n")
  {
    LinesBack(lines);
    PayloadsBack(lines);
  }

  /** Text without an empty line in it or at its end. */
  predicate Solid(s: string) {
    s != "" && s[0] != '\n' && s[|s| - 1] != '\n' && forall i :: 0 < i < |s| ==> !(s[i - 1] == '\n' == s[i])
  }

  lemma SolidThen(line: string, rest: string)
    requires '\n' !in line && line != "" && Solid(rest)
    ensures Solid(line + "\n" + rest)
  {
    var s := line + "\n" + rest;
    assert forall i :: 0 <= i < |line| ==> s[i] == line[i] && s[i] != '\n';
    assert forall i :: |line| < i < |s| ==> s[i] == rest[i - |line| - 1];
  }

  lemma {:induction false} FrameSolid(lines: seq<FrameLine>)
    requires PlainFrame(lines)
    ensures Solid(Join(Texts(lines), "\n"))
  {
    var line := lines[0].Text();
    if |lines| == 1 {
      assert Texts(lines) == [line];
    } else {
      FrameSolid(lines[1..]);
      SolidThen(line, Join(Texts(lines[1..]), "\n"));
      JoinTexts(lines);
    }
  }

  lemma NoBlankInside(head: string, rest: string, i: nat)
    requires Solid(head) && OccursAt(head + ("\n\n" + rest), BLANK_LINE, i)
    ensures i >= |head|
  {
    var s := head + ("\n\n" + rest);
    assert s[i..i + 2][0] == s[i] && s[i..i + 2][1] == s[i + 1];
  }

  lemma SolidPiece(head: string, rest: string)
    requires Solid(head)
    ensures Pieces(head + "\n\n" + rest) == [head] + Pieces(rest)
    ensures ([head] + Pieces(rest))[1..] == Pieces(rest)
  {
    var s := head + ("\n\n" + rest);
    assert head + "\n\n" + rest == s;
    assert s[|head|..|head| + 2] == BLANK_LINE;
    assert OccursAt(s, BLANK_LINE, |head|);
    NoBlankInside(head, rest, Find(s, BLANK_LINE).value);
    assert s[..|head|] == head && s[|head| + 2..] == rest;
  }

  function WireFrames(frames: seq<seq<FrameLine>>): string {
    if frames == [] then "" else Join(Texts(frames[0]), "\n") + "\n\n" + WireFrames(frames[1..])
  }

  /** The values of the frames' data, less the empty ones and `[DONE]`, up to the first that is no JSON. */
  function Expected<E>(json: string -> Option<E>, frames: seq<seq<FrameLine>>): Yielded<E> {
    if frames == [] then Yielded([], false)
    else
      var data := Join(Payloads(frames[0]), "\n");
      if data == "" || data == "[DONE]" then Expected(json, frames[1..])
      else match json(data)
        case None => Yielded([], true)
        case Some(value) =>
          var later := Expected(json, frames[1..]);
          Yielded([value] + later.events, later.threw)
  }

  lemma FrameStep<E>(json: string -> Option<E>, y: Yielded<E>, lines: seq<FrameLine>, rest: string)
    requires !y.threw && PlainFrame(lines)
    ensures var data := Join(Payloads(lines), "\n");
            ParsePieces(json, y, Pieces(Join(Texts(lines), "\n") + "\n\n" + rest))
            == if data == "" || data == "[DONE]" then ParsePieces(json, y, Pieces(rest))
               else if json(data).None? then Yielded(y.events, true)
               else ParsePieces(json, Yielded(y.events + [json(data).value], false), Pieces(rest))
  {
    var head := Join(Texts(lines), "\n");
    FrameSolid(lines);
    SolidPiece(head, rest);
    FrameDataExact(lines);
  }

  /** Frames written to the wire give exactly the values of their data, in order, until one is no JSON. */
  lemma {:induction false} FramesRoundTrip<E>(json: string -> Option<E>, y: Yielded<E>, frames: seq<seq<FrameLine>>)
    requires !y.threw && forall i :: 0 <= i < |frames| ==> PlainFrame(frames[i])
    ensures var got := Expected(json, frames);
            ParsePieces(json, y, Pieces(WireFrames(frames))) == Yielded(y.events + got.events, got.threw)
    decreases |frames|
  {
    if frames == [] {
      EmptyPieceIgnored(json, y);
      assert y.events + [] == y.events;
    } else {
      var data := Join(Payloads(frames[0]), "\n");
      FrameStep(json, y, frames[0], WireFrames(frames[1..]));
      if data == "" || data == "[DONE]" {
        FramesRoundTrip(json, y, frames[1..]);
      } else if json(data).Some? {
        FramesRoundTrip(json, Yielded(y.events + [json(data).value], false), frames[1..]);
        Regroup(y.events, json(data).value, Expected(json, frames[1..]).events);
      } else {
        assert y.events + [] == y.events;
      }
    }
  }

  /** So does the whole stream. */
  lemma StreamRoundTrip<E>(json: string -> Option<E>, frames: seq<seq<FrameLine>>)
    requires forall i :: 0 <= i < |frames| ==> PlainFrame(frames[i])
    ensures ParseWhole(json, WireFrames(frames)) == Expected(json, frames)
  {
    var start: Yielded<E> := Yielded([], false);
    FramesRoundTrip(json, start, frames);
    NothingBefore(start, Expected(json, frames));
  }

  lemma NothingBefore<E>(start: Yielded<E>, y: Yielded<E>)
    requires start.events == []
    ensures Yielded(start.events + y.events, y.threw) == y
  {
    assert start.events + y.events == y.events;
  }

  /** The white space and line terminators of ECMA-262: Unicode's but for next line, and the byte order mark. */
  lemma JsWhitespaceExact(c: char)
    ensures IsJsWhitespace(c) <==> (IsWhitespace(c) && c != '\U{85}') || c == '\U{FEFF}'
  {
  }
}
