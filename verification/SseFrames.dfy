/** Server-sent event framing on bytes: cutting frames off a growing buffer. */
module SseFrames {
  import opened Wrappers
  import opened Search
  import opened Binary

  const CRLF2: Bytes := [13, 10, 13, 10]
  const LF2: Bytes := [10, 10]

  predicate NoDelimiter(s: Bytes) { Find(s, CRLF2).None? && Find(s, LF2).None? }

  /** The length of the frame taken from the front of the buffer: a CRLF blank line anywhere wins. */
  function FrameEnd(s: Bytes): (r: Option<nat>)
    ensures r.Some? ==> 0 < r.value <= |s|
    ensures r.None? <==> NoDelimiter(s)
  {
    match Find(s, CRLF2)
    case Some(pos) => Some(pos + 4)
    case None =>
      match Find(s, LF2)
      case Some(pos) => Some(pos + 2)
      case None => None
  }

  /** The byte buffer of one response stream. */
  class SseBuffer {
    var bytes: Bytes

    constructor ()
      ensures bytes == []
    {
      bytes := [];
    }

    method Extend(chunk: Bytes)
      modifies this
      ensures bytes == old(bytes) + chunk
    {
      bytes := bytes + chunk;
    }

    method TakeSseFrame() returns (frame: Option<Bytes>)
      modifies this
      ensures frame.None? ==> bytes == old(bytes) && NoDelimiter(bytes)
      ensures frame.Some? ==> frame.value != [] && frame.value + bytes == old(bytes)
                              && FrameEnd(old(bytes)) == Some(|frame.value|)
    {
      match Find(bytes, CRLF2) {
        case Some(pos) =>
          frame := Some(bytes[..pos + 4]);
          bytes := bytes[pos + 4..];
        case None =>
          match Find(bytes, LF2) {
            case Some(pos) =>
              frame := Some(bytes[..pos + 2]);
              bytes := bytes[pos + 2..];
            case None =>
              frame := None;
          }
      }
    }

    /** The inner loop: take frames until none is left. */
    method Drain() returns (frames: seq<Bytes>)
      modifies this
      ensures Cut(frames, bytes) == DrainAll(old(bytes))
    {
      frames := [];
      ghost var all := DrainAll(bytes);
      while true
        invariant all == PrependAll(frames, DrainAll(bytes))
        decreases |bytes|
      {
        ghost var before, taken := bytes, frames;
        var next := TakeSseFrame();
        if next.None? { break; }
        frames := frames + [next.value];
        assert before[..|next.value|] == next.value && before[|next.value|..] == bytes;
        PrependAssoc(taken, [next.value], DrainAll(bytes));
      }
    }
  }

  /** Frames cut off so far and the bytes left in the buffer. */
  datatype Cut = Cut(frames: seq<Bytes>, rest: Bytes)

  function PrependAll(frames: seq<Bytes>, c: Cut): Cut { Cut(frames + c.frames, c.rest) }

  /** Every byte accounted for by a cut, in order. */
  function Whole(c: Cut): Bytes { Flatten(c.frames) + c.rest }

  lemma Assoc(a: Bytes, b: Bytes, c: Bytes)
    ensures (a + b) + c == a + (b + c)
  {
  }

  lemma WholePrepend(frames: seq<Bytes>, c: Cut)
    ensures Whole(PrependAll(frames, c)) == Flatten(frames) + Whole(c)
  {
    FlattenAppend(frames, c.frames);
    Assoc(Flatten(frames), Flatten(c.frames), c.rest);
  }

  lemma WholeStep(s: Bytes, n: nat, c: Cut)
    requires n <= |s| && Whole(c) == s[n..]
    ensures Whole(PrependAll([s[..n]], c)) == s
  {
    FlattenCons(s[..n], c.frames);
    Assoc(s[..n], Flatten(c.frames), c.rest);
    assert s[..n] + s[n..] == s;
  }

  function DrainAll(s: Bytes): Cut
    decreases |s|
  {
    match FrameEnd(s)
    case None => Cut([], s)
    case Some(n) => PrependAll([s[..n]], DrainAll(s[n..]))
  }

  lemma {:induction false} DrainConserves(s: Bytes)
    ensures Whole(DrainAll(s)) == s
    decreases |s|
  {
    match FrameEnd(s) {
      case None =>
      case Some(n) =>
        DrainConserves(s[n..]);
        WholeStep(s, n, DrainAll(s[n..]));
    }
  }

  lemma {:induction false} DrainLeavesNone(s: Bytes)
    ensures NoDelimiter(DrainAll(s).rest)
    decreases |s|
  {
    if FrameEnd(s).Some? { DrainLeavesNone(s[FrameEnd(s).value..]); }
  }

  /** The outer loop: every chunk is appended to the leftover and drained. */
  function Feed(buffer: Bytes, chunks: seq<Bytes>): (c: Cut)
    decreases |chunks|
  {
    if chunks == [] then Cut([], buffer)
    else
      var first := DrainAll(buffer + chunks[0]);
      PrependAll(first.frames, Feed(first.rest, chunks[1..]))
  }

  /** Nothing is lost, duplicated or reordered. */
  lemma {:induction false} FeedConserves(buffer: Bytes, chunks: seq<Bytes>)
    ensures Whole(Feed(buffer, chunks)) == buffer + Flatten(chunks)
    decreases |chunks|
  {
    if chunks == [] {
      assert buffer + [] == buffer && [] + buffer == buffer;
    } else {
      var first := DrainAll(buffer + chunks[0]);
      var tail := Flatten(chunks[1..]);
      DrainConserves(buffer + chunks[0]);
      FeedConserves(first.rest, chunks[1..]);
      WholePrepend(first.frames, Feed(first.rest, chunks[1..]));
      Assoc(Flatten(first.frames), first.rest, tail);
      Assoc(buffer, chunks[0], tail);
    }
  }

  /** No complete frame is left behind. */
  lemma {:induction false} FeedLeavesNone(buffer: Bytes, chunks: seq<Bytes>)
    requires NoDelimiter(buffer)
    ensures NoDelimiter(Feed(buffer, chunks).rest)
    decreases |chunks|
  {
    if chunks != [] {
      DrainLeavesNone(buffer + chunks[0]);
      FeedLeavesNone(DrainAll(buffer + chunks[0]).rest, chunks[1..]);
    }
  }

  // ---- The chunk-free reading: cut at the blank line that is complete first.

  function EarlierEnd(s: Bytes): (r: Option<nat>)
    ensures r.Some? ==> 0 < r.value <= |s|
    ensures r.None? <==> NoDelimiter(s)
  {
    match (Find(s, CRLF2), Find(s, LF2))
    case (None, None) => None
    case (Some(p), None) => Some(p + 4)
    case (None, Some(q)) => Some(q + 2)
    case (Some(p), Some(q)) => Some(if p + 4 < q + 2 then p + 4 else q + 2)
  }

  function Eager(s: Bytes): Cut
    decreases |s|
  {
    match EarlierEnd(s)
    case None => Cut([], s)
    case Some(n) => PrependAll([s[..n]], Eager(s[n..]))
  }

  /** Whenever the CRLF branch fires, the frame it takes has no LF blank line in it. */
  predicate Unmixed(s: Bytes)
    decreases |s|
  {
    match (Find(s, CRLF2), Find(s, LF2))
    case (None, _) => true
    case (Some(p), None) => Unmixed(s[p + 4..])
    case (Some(p), Some(q)) => p + 4 < q + 2 && Unmixed(s[p + 4..])
  }

  lemma EndStable(a: Bytes, b: Bytes)
    requires EarlierEnd(a).Some?
    ensures EarlierEnd(a + b) == EarlierEnd(a)
    ensures var n := EarlierEnd(a).value; (a + b)[..n] == a[..n] && (a + b)[n..] == a[n..] + b
  {
    FindStable(a, b, CRLF2);
    FindStable(a, b, LF2);
    var n := EarlierEnd(a).value;
    assert EarlierEnd(a + b) == Some(n);
    assert (a + b)[..n] == a[..n] && (a + b)[n..] == a[n..] + b;
  }

  lemma PrependAssoc(f: seq<Bytes>, g: seq<Bytes>, c: Cut)
    ensures PrependAll(f, PrependAll(g, c)) == PrependAll(f + g, c)
  {
    assert f + (g + c.frames) == (f + g) + c.frames;
  }

  /** Reading can stop anywhere and go on from the leftover. */
  lemma {:induction false} EagerSplit(a: Bytes, b: Bytes)
    ensures Eager(a + b) == PrependAll(Eager(a).frames, Eager(Eager(a).rest + b))
    decreases |a|
  {
    match EarlierEnd(a) {
      case None => assert [] + Eager(a + b).frames == Eager(a + b).frames;
      case Some(n) =>
        EndStable(a, b);
        EagerSplit(a[n..], b);
        PrependAssoc([a[..n]], Eager(a[n..]).frames, Eager(Eager(a).rest + b));
    }
  }

  lemma {:induction false} UnmixedSplit(a: Bytes, b: Bytes)
    requires Unmixed(a + b)
    ensures Unmixed(a) && Unmixed(Eager(a).rest + b)
    decreases |a|
  {
    FindStable(a, b, CRLF2);
    FindStable(a, b, LF2);
    if EarlierEnd(a).Some? {
      var n := EarlierEnd(a).value;
      EndStable(a, b);
      if Find(a + b, CRLF2).None? { NoneInSuffix(a + b, CRLF2, n); }
      UnmixedSplit(a[n..], b);
    }
  }

  lemma PrependOneInjective(f: Bytes, g: Bytes, c: Cut, d: Cut)
    ensures PrependAll([f], c) == PrependAll([g], d) <==> f == g && c == d
  {
    assert ([f] + c.frames)[0] == f && ([g] + d.frames)[0] == g;
    assert ([f] + c.frames)[1..] == c.frames && ([g] + d.frames)[1..] == d.frames;
  }

  lemma EndsDiffer(s: Bytes)
    requires Find(s, CRLF2).Some? && Find(s, LF2).Some?
    ensures Find(s, CRLF2).value + 4 != Find(s, LF2).value + 2
  {
    var p, q := Find(s, CRLF2).value, Find(s, LF2).value;
    assert s[p..p + 4][2] == s[p + 2] && s[q..q + 2][0] == s[q];
  }

  lemma {:induction false} EagerLeavesNone(s: Bytes)
    ensures NoDelimiter(Eager(s).rest)
    decreases |s|
  {
    if EarlierEnd(s).Some? { EagerLeavesNone(s[EarlierEnd(s).value..]); }
  }

  lemma {:induction false} DrainIsEager(s: Bytes)
    ensures DrainAll(s) == Eager(s) <==> Unmixed(s)
    decreases |s|
  {
    if EarlierEnd(s).Some? {
      var m, n := FrameEnd(s).value, EarlierEnd(s).value;
      PrependOneInjective(s[..m], s[..n], DrainAll(s[m..]), Eager(s[n..]));
      if m == n {
        DrainIsEager(s[n..]);
        if Find(s, CRLF2).None? { NoneInSuffix(s, CRLF2, n); }
        if Find(s, CRLF2).Some? && Find(s, LF2).Some? { EndsDiffer(s); }
      } else {
        assert |s[..m]| != |s[..n]|;
      }
    }
  }

  lemma {:induction false} FeedIsEager(buffer: Bytes, chunks: seq<Bytes>)
    requires Unmixed(buffer + Flatten(chunks)) && NoDelimiter(buffer)
    ensures Feed(buffer, chunks) == Eager(buffer + Flatten(chunks))
    decreases |chunks|
  {
    if chunks == [] {
      assert buffer + Flatten(chunks) == buffer;
    } else {
      var a, b := buffer + chunks[0], Flatten(chunks[1..]);
      assert buffer + Flatten(chunks) == a + b;
      UnmixedSplit(a, b);
      DrainIsEager(a);
      EagerLeavesNone(a);
      FeedIsEager(Eager(a).rest, chunks[1..]);
      EagerSplit(a, b);
    }
  }

  function Singles(s: Bytes): (r: seq<Bytes>)
    ensures Flatten(r) == s
  {
    if s == [] then [] else
      assert [s[0]] + s[1..] == s;
      [[s[0]]] + Singles(s[1..])
  }

  /** One more byte completes at most one frame, so byte-wise feeding is always the eager reading. */
  lemma OneByteUnmixed(buffer: Bytes, x: byte)
    requires NoDelimiter(buffer)
    ensures Unmixed(buffer + [x])
  {
    var s := buffer + [x];
    FindStable(buffer, [x], CRLF2);
    FindStable(buffer, [x], LF2);
    if Find(s, CRLF2).Some? {
      var p := Find(s, CRLF2).value;
      assert s[p..p + 4][2] == s[|s| - 2] == 13 && s[p + 4..] == [];
      assert !OccursAt(s, LF2, |s| - 2) by { assert s[|s| - 2..][0] == 13; }
      assert Unmixed([]);
    }
  }

  lemma {:induction false} BytewiseIsEager(buffer: Bytes, s: Bytes)
    requires NoDelimiter(buffer)
    ensures Feed(buffer, Singles(s)) == Eager(buffer + s)
    decreases |s|
  {
    if s == [] {
      assert buffer + s == buffer;
    } else {
      var a := buffer + [s[0]];
      assert buffer + s == a + s[1..];
      OneByteUnmixed(buffer, s[0]);
      DrainIsEager(a);
      EagerLeavesNone(a);
      BytewiseIsEager(Eager(a).rest, s[1..]);
      EagerSplit(a, s[1..]);
      assert Singles(s)[1..] == Singles(s[1..]);
    }
  }

  /** Every way of cutting the stream gives the same frames and leftover, exactly when it is unmixed. */
  lemma ChunkingExact(s: Bytes)
    ensures (forall chunks :: Flatten(chunks) == s ==> Feed([], chunks) == DrainAll(s)) <==> Unmixed(s)
  {
    assert NoDelimiter([]);
    assert [] + s == s;
    if Unmixed(s) {
      forall chunks | Flatten(chunks) == s ensures Feed([], chunks) == DrainAll(s) {
        FeedIsEager([], chunks);
        DrainIsEager(s);
      }
    } else {
      BytewiseIsEager([], s);
      DrainIsEager(s);
      assert Flatten(Singles(s)) == s;
    }
  }

  /** A stream that uses only one of the two blank lines is unmixed. */
  lemma {:induction false} OneDelimiterUnmixed(s: Bytes)
    requires Find(s, CRLF2).None? || Find(s, LF2).None?
    ensures Unmixed(s)
    decreases |s|
  {
    if Find(s, CRLF2).Some? {
      NoneInSuffix(s, LF2, Find(s, CRLF2).value + 4);
      OneDelimiterUnmixed(s[Find(s, CRLF2).value + 4..]);
    }
  }

  // ---- A mixed stream.

  const MIXED: Bytes := [10, 10, 13, 10, 13, 10]

  lemma MixedEnds()
    ensures Find(MIXED, CRLF2) == Some(2) && Find(MIXED, LF2) == Some(0)
  {
    var s := MIXED;
    assert s[2..6] == CRLF2 && s[0..2] == LF2;
    assert OccursAt(s, CRLF2, 2) && OccursAt(s, LF2, 0);
    assert s[0..4][0] == 10 && s[1..5][0] == 10;
  }

  lemma LfEnd()
    ensures Find(LF2, CRLF2).None? && Find(LF2, LF2) == Some(0)
  {
    assert LF2[0..2] == LF2 && OccursAt(LF2, LF2, 0);
  }

  /**
   * An LF blank line and then a CRLF one: read at once, the first frame is all six bytes; when only
   * the LF blank line has arrived it is a frame of its own.
   */
  lemma MixedExample()
    ensures FrameEnd(MIXED) == Some(6) && LF2 + CRLF2 == MIXED && FrameEnd(LF2) == Some(2)
    ensures !Unmixed(MIXED)
    ensures exists chunks :: Flatten(chunks) == MIXED && Feed([], chunks) != DrainAll(MIXED)
  {
    MixedEnds();
    LfEnd();
    ChunkingExact(MIXED);
  }

  /** One LF frame: its only blank line is the LF one that ends it. */
  predicate OneFrame(f: Bytes) { Find(f, LF2) == Some(|f| - 2) && Find(f, CRLF2).None? }

  /** A CRLF blank line cannot straddle the end of an LF frame. */
  lemma CrlfAcross(f: Bytes, rest: Bytes, i: nat)
    requires |f| >= 2 && f[|f| - 2] == 10 && f[|f| - 1] == 10
    ensures OccursAt(f + rest, CRLF2, i) ==> OccursAt(f, CRLF2, i) || OccursAt(rest, CRLF2, i - |f|)
  {
    var s := f + rest;
    OccursInLonger(f, rest, CRLF2, i);
    if OccursAt(s, CRLF2, i) {
      assert s[i] == s[i..i + 4][0] && s[i + 2] == s[i..i + 4][2];
      if i >= |f| {
        OccursInSuffix(s, CRLF2, |f|, i - |f|);
        assert s[|f|..] == rest;
      }
    }
  }

  lemma NoCrlfAcross(f: Bytes, rest: Bytes)
    requires OneFrame(f) && Find(rest, CRLF2).None?
    ensures Find(f + rest, CRLF2).None?
  {
    assert f[|f| - 2..|f|][0] == f[|f| - 2] && f[|f| - 2..|f|][1] == f[|f| - 1];
    if Find(f + rest, CRLF2).Some? {
      CrlfAcross(f, rest, Find(f + rest, CRLF2).value);
    }
  }

  lemma {:induction false} NoCrlfIn(frames: seq<Bytes>)
    requires forall i :: 0 <= i < |frames| ==> OneFrame(frames[i])
    ensures Find(Flatten(frames), CRLF2).None?
  {
    if frames != [] {
      NoCrlfIn(frames[1..]);
      NoCrlfAcross(frames[0], Flatten(frames[1..]));
    }
  }

  lemma OneFrameTaken(f: Bytes, rest: Bytes)
    requires OneFrame(f)
    ensures Eager(f + rest) == PrependAll([f], Eager(rest))
  {
    EndStable(f, rest);
    assert f[..|f|] == f && f[|f|..] + rest == rest;
  }

  lemma {:induction false} EagerFrames(frames: seq<Bytes>)
    requires forall i :: 0 <= i < |frames| ==> OneFrame(frames[i])
    ensures Eager(Flatten(frames)) == Cut(frames, [])
  {
    if frames != [] {
      OneFrameTaken(frames[0], Flatten(frames[1..]));
      EagerFrames(frames[1..]);
    }
  }

  /** Well-formed frames come out one by one, however the stream is cut. */
  lemma FramesRecovered(frames: seq<Bytes>, chunks: seq<Bytes>)
    requires forall i :: 0 <= i < |frames| ==> OneFrame(frames[i])
    requires Flatten(chunks) == Flatten(frames)
    ensures Feed([], chunks) == Cut(frames, [])
  {
    NoCrlfIn(frames);
    OneDelimiterUnmixed(Flatten(frames));
    assert [] + Flatten(chunks) == Flatten(frames);
    assert NoDelimiter([]);
    FeedIsEager([], chunks);
    EagerFrames(frames);
  }
}
