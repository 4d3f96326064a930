/** The frames of a connection: a reader that takes one octet at a time, survives
  reads that time out, and finds the next line after one that was too long. */
module Frames {
  import opened Options
  import opened Bytes
  import Utf8

  const NEWLINE: byte := 10

  datatype Frame =
    | End
    | Pending
    | Complete(line: seq<byte>)
    | Incomplete(tail: seq<byte>)
    | InvalidUtf8(terminal: bool)
    | Oversized(prefix: seq<byte>)

  /** What the stream answers to one read; after the last answer it is at its end. */
  datatype Read = Got(octet: byte) | Blocked | Broken

  // The line splitter

  predicate IsText(b: seq<byte>) { Utf8.Decode(b).Some? }

  /** The length of the first line without its newline, if there is one. */
  function FirstLine(b: seq<byte>): (n: Option<nat>)
    ensures n.Some? ==> n.value < |b| && b[n.value] == NEWLINE && NEWLINE !in b[..n.value]
    ensures n.None? ==> NEWLINE !in b
  {
    if b == [] then None
    else if b[0] == NEWLINE then Some(0)
    else
      var n := FirstLine(b[1..]);
      if n.None? then None else
        assert b[..n.value + 1] == [b[0]] + b[1..][..n.value];
        Some(n.value + 1)
  }

  function LineFrame(line: seq<byte>, max: nat): Frame {
    if |line| > max then Oversized(line[..max]) else if IsText(line) then Complete(line) else InvalidUtf8(false)
  }

  function TailFrames(tail: seq<byte>, max: nat): seq<Frame> {
    if tail == [] then []
    else if |tail| > max then [Oversized(tail[..max])]
    else if IsText(tail) then [Incomplete(tail)]
    else [InvalidUtf8(true)]
  }

  /** The frames of a whole stream. */
  function Split(b: seq<byte>, max: nat): seq<Frame>
    decreases |b|
  {
    var n := FirstLine(b);
    if n.None? then TailFrames(b, max) + [End]
    else [LineFrame(b[..n.value + 1], max)] + Split(b[n.value + 1..], max)
  }

  function Contents(fs: seq<Frame>): seq<byte> {
    if fs == [] then []
    else (if fs[0].Complete? then fs[0].line else if fs[0].Incomplete? then fs[0].tail else []) + Contents(fs[1..])
  }

  predicate Refused(f: Frame) { f.Oversized? || f.InvalidUtf8? }

  lemma TailIsKept(tail: seq<byte>, max: nat)
    requires forall f :: f in TailFrames(tail, max) + [End] ==> !Refused(f)
    ensures Contents(TailFrames(tail, max) + [End]) == tail
  {
    hide IsText;
    var fs := TailFrames(tail, max) + [End];
    assert Contents([End]) == [];
    if tail == [] {
      assert fs == [End];
    } else {
      assert fs[0] in fs && fs[1..] == [End];
    }
  }

  /** A line that is not refused is kept whole. */
  lemma LineIsKept(line: seq<byte>, max: nat, fs: seq<Frame>)
    requires !Refused(LineFrame(line, max))
    ensures Contents([LineFrame(line, max)] + fs) == line + Contents(fs)
  {
    hide IsText;
    assert ([LineFrame(line, max)] + fs)[1..] == fs;
  }

  lemma FirstIn(f: Frame, fs: seq<Frame>)
    requires forall g :: g in [f] + fs ==> !Refused(g)
    ensures !Refused(f) && forall g :: g in fs ==> !Refused(g)
  {
    assert ([f] + fs)[0] in [f] + fs;
  }

  /** Nothing is lost: where no line is refused, the frames hold the stream octet by octet. */
  lemma {:induction false} NothingIsLost(b: seq<byte>, max: nat)
    requires forall f :: f in Split(b, max) ==> !Refused(f)
    ensures Contents(Split(b, max)) == b
    decreases |b|
  {
    hide FirstLine, LineFrame, TailFrames, Contents, Refused;
    var n := FirstLine(b);
    if n.None? {
      TailIsKept(b, max);
    } else {
      var line, rest := b[..n.value + 1], b[n.value + 1..];
      var f, fs := LineFrame(line, max), Split(rest, max);
      hide Split;
      FirstIn(f, fs);
      LineIsKept(line, max, fs);
      NothingIsLost(rest, max);
      assert b == line + rest;
    }
  }

  // The reader

  datatype Reader = Reader(frame: seq<byte>, discarding: bool, script: seq<Read>)

  predicate Valid(r: Reader, max: nat) {
    |r.frame| <= max && NEWLINE !in r.frame && (r.discarding ==> |r.frame| == max)
  }

  /** What one call hands out: a frame, or nothing when the stream is broken. */
  function Next(r: Reader, max: nat): (Reader, Option<Frame>)
    decreases |r.script|
  {
    if r.script == [] then AtEnd(r)
    else
      var rest := r.script[1..];
      match r.script[0]
      case Blocked => (r.(script := rest), Some(Pending))
      case Broken => (r.(script := rest), None)
      case Got(octet) =>
        if r.discarding then
          if octet == NEWLINE then (Reader([], false, rest), Some(Oversized(r.frame)))
          else Next(r.(script := rest), max)
        else if |r.frame| >= max then
          if octet == NEWLINE then (Reader([], false, rest), Some(Oversized(r.frame)))
          else Next(Reader(r.frame, true, rest), max)
        else if octet == NEWLINE then
          var line := r.frame + [octet];
          (Reader([], false, rest), Some(if IsText(line) then Complete(line) else InvalidUtf8(false)))
        else Next(Reader(r.frame + [octet], false, rest), max)
  }

  function AtEnd(r: Reader): (Reader, Option<Frame>)
    requires r.script == []
  {
    (Reader([], false, []),
     Some(if r.discarding then Oversized(r.frame)
          else if r.frame == [] then End
          else if IsText(r.frame) then Incomplete(r.frame)
          else InvalidUtf8(true)))
  }

  class FrameReader {
    var frame: seq<byte>
    var discarding: bool
    var script: seq<Read>

    function State(): Reader
      reads this
    {
      Reader(frame, discarding, script)
    }

    constructor (script: seq<Read>)
      ensures State() == Reader([], false, script)
    {
      frame, discarding, this.script := [], false, script;
    }

    /** `next`; the buffer never holds more than `max` octets. */
    method NextFrame(max: nat) returns (f: Option<Frame>)
      requires Valid(State(), max)
      modifies this
      ensures (State(), f) == Next(old(State()), max)
      ensures Valid(State(), max)
    {
      while script != []
        invariant Valid(State(), max)
        invariant Next(State(), max) == Next(old(State()), max)
        decreases |script|
      {
        var read := script[0];
        script := script[1..];
        if read.Blocked? {
          return Some(Pending);
        }
        if read.Broken? {
          return None;
        }
        var octet := read.octet;
        if discarding {
          if octet == NEWLINE {
            discarding := false;
            f := Some(Oversized(frame));
            frame := [];
            return;
          }
          continue;
        }
        if |frame| >= max {
          discarding := octet != NEWLINE;
          if !discarding {
            f := Some(Oversized(frame));
            frame := [];
            return;
          }
          continue;
        }
        frame := frame + [octet];
        if octet == NEWLINE {
          var line := frame;
          frame := [];
          return if IsText(line) then Some(Complete(line)) else Some(InvalidUtf8(false));
        }
      }
      var rest := frame;
      frame := [];
      if discarding {
        discarding := false;
        return Some(Oversized(rest));
      }
      if rest == [] {
        return Some(End);
      }
      return if IsText(rest) then Some(Incomplete(rest)) else Some(InvalidUtf8(true));
    }
  }

  // Refinement

  predicate Unbroken(script: seq<Read>) { forall i :: 0 <= i < |script| ==> !script[i].Broken? }

  /** The octets that the script delivers. */
  function Octets(script: seq<Read>): seq<byte> {
    if script == [] then [] else (if script[0].Got? then [script[0].octet] else []) + Octets(script[1..])
  }

  /** The stream as far as it has not been handed out. Of a line that is being
    thrown away the reader keeps the beginning, so one octet stands for the rest. */
  function Ahead(r: Reader): seq<byte> {
    r.frame + ((if r.discarding then [0] else []) + Octets(r.script))
  }

  lemma LineAhead(line: seq<byte>, rest: seq<byte>, max: nat)
    requires NEWLINE !in line
    ensures Split(line + [NEWLINE] + rest, max) == [LineFrame(line + [NEWLINE], max)] + Split(rest, max)
  {
    hide LineFrame;
    var b := line + [NEWLINE] + rest;
    FirstLineOf(line, rest);
    assert b[..|line| + 1] == line + [NEWLINE] && b[|line| + 1..] == rest;
  }

  lemma {:induction false} FirstLineOf(line: seq<byte>, rest: seq<byte>)
    requires NEWLINE !in line
    ensures FirstLine(line + [NEWLINE] + rest) == Some(|line|)
    decreases |line|
  {
    var b := line + [NEWLINE] + rest;
    if line == [] {
      assert b[0] == NEWLINE;
    } else {
      assert b[0] == line[0] && b[1..] == line[1..] + [NEWLINE] + rest;
      FirstLineOf(line[1..], rest);
    }
  }

  lemma {:induction false} NoLine(b: seq<byte>)
    requires NEWLINE !in b
    ensures FirstLine(b).None?
  {
  }

  /** What a line holds beyond the limit does not matter. */
  lemma ExcessDoesNotMatter(frame: seq<byte>, xs: seq<byte>, ys: seq<byte>, rest: seq<byte>, max: nat)
    requires |frame| == max && NEWLINE !in frame && NEWLINE !in xs && NEWLINE !in ys && xs != [] && ys != []
    ensures Split(frame + (xs + rest), max) == Split(frame + (ys + rest), max)
  {
    ExcessIsCut(frame, xs, rest, max);
    ExcessIsCut(frame, ys, rest, max);
  }

  lemma Regrouped(frame: seq<byte>, xs: seq<byte>, rest: seq<byte>, n: nat)
    requires n < |rest|
    ensures frame + (xs + rest) == frame + (xs + rest[..n]) + [rest[n]] + rest[n + 1..]
  {
    var head, tail := rest[..n], [rest[n]] + rest[n + 1..];
    assert rest == head + tail;
    assert xs + (head + tail) == (xs + head) + tail;
    assert frame + ((xs + head) + tail) == (frame + (xs + head)) + tail;
  }

  lemma ExcessIsCut(frame: seq<byte>, xs: seq<byte>, rest: seq<byte>, max: nat)
    requires |frame| == max && NEWLINE !in frame && NEWLINE !in xs && xs != []
    ensures var n := FirstLine(rest);
      Split(frame + (xs + rest), max) ==
        [Oversized(frame)] + if n.Some? then Split(rest[n.value + 1..], max) else [End]
  {
    hide FirstLine, IsText, Split;
    var n := FirstLine(rest);
    var b := frame + (xs + rest);
    if n.Some? {
      var line, more := frame + (xs + rest[..n.value]), rest[n.value + 1..];
      Regrouped(frame, xs, rest, n.value);
      LineAhead(line, more, max);
      assert (line + [NEWLINE])[..max] == frame;
    } else {
      NothingButExcess(frame, xs + rest, max);
    }
  }

  lemma NothingButExcess(frame: seq<byte>, xs: seq<byte>, max: nat)
    requires |frame| == max && NEWLINE !in frame && NEWLINE !in xs && xs != []
    ensures Split(frame + xs, max) == [Oversized(frame), End]
  {
    hide FirstLine, IsText;
    NoLine(frame + xs);
    assert (frame + xs)[..max] == frame;
  }

  /** What one call hands out is the next frame of the stream, and the rest is
    ahead; a pending one leaves everything ahead. */
  ghost predicate HandsOut(stream: seq<Frame>, u: Reader, f: Frame, max: nat) {
    if f.Pending? then Split(Ahead(u), max) == stream
    else if f.End? then stream == [End]
    else stream == [f] + Split(Ahead(u), max)
  }

  lemma EndHandsOut(r: Reader, max: nat)
    requires Valid(r, max) && r.script == []
    ensures var (u, f) := AtEnd(r); HandsOut(Split(Ahead(r), max), u, f.value, max)
  {
    hide IsText, FirstLine;
    var b := Ahead(r);
    assert b == r.frame + if r.discarding then [0] else [];
    assert NEWLINE !in b;
    NoLine(b);
    NoLine([]);
    assert Split([], max) == [End];
    assert Ahead(Reader([], false, [])) == [];
    if r.discarding {
      assert b[..max] == r.frame;
    } else {
      assert b == r.frame;
      assert [] + [End] == [End];
    }
  }

  lemma LineHandsOut(r: Reader, max: nat)
    requires Valid(r, max) && r.script != [] && r.script[0] == Got(NEWLINE)
    ensures var (u, f) := Next(r, max);
      u == Reader([], false, r.script[1..]) && f.Some? && HandsOut(Split(Ahead(r), max), u, f.value, max)
  {
    hide IsText, Split;
    var rest := Octets(r.script[1..]);
    var line := r.frame + if r.discarding then [0] else [];
    assert Ahead(r) == line + [NEWLINE] + rest;
    LineAhead(line, rest, max);
    assert Ahead(Reader([], false, r.script[1..])) == rest;
    if !r.discarding { assert line == r.frame; }
    if |r.frame| == max { assert (line + [NEWLINE])[..max] == r.frame; }
    assert Next(r, max).1 == Some(LineFrame(line + [NEWLINE], max));
  }

  /** Where the reader goes on after an octet that ends no line. */
  function Absorb(r: Reader, max: nat): Reader
    requires r.script != [] && r.script[0].Got?
  {
    if r.discarding then r.(script := r.script[1..])
    else if |r.frame| >= max then Reader(r.frame, true, r.script[1..])
    else Reader(r.frame + [r.script[0].octet], false, r.script[1..])
  }

  lemma AbsorbLosesNothing(r: Reader, max: nat)
    requires Valid(r, max) && r.script != [] && r.script[0].Got? && r.script[0].octet != NEWLINE
    ensures Valid(Absorb(r, max), max) && Split(Ahead(Absorb(r, max)), max) == Split(Ahead(r), max)
  {
    hide Split;
    var x, rest := r.script[0].octet, Octets(r.script[1..]);
    assert Octets(r.script) == [x] + rest;
    if r.discarding {
      ExcessDoesNotMatter(r.frame, [0, x], [0], rest, max);
      assert Ahead(r) == r.frame + ([0, x] + rest);
    } else if |r.frame| >= max {
      ExcessDoesNotMatter(r.frame, [x], [0], rest, max);
      assert Ahead(r) == r.frame + ([x] + rest);
    } else {
      assert Ahead(Absorb(r, max)) == Ahead(r);
    }
  }

  lemma BlockedLosesNothing(r: Reader)
    requires r.script != [] && r.script[0].Blocked?
    ensures Ahead(r.(script := r.script[1..])) == Ahead(r)
  {
  }

  lemma {:induction false} NextRefines(r: Reader, max: nat)
    requires Valid(r, max) && Unbroken(r.script)
    ensures var (u, f) := Next(r, max);
      Valid(u, max) && Unbroken(u.script) && f.Some? && HandsOut(Split(Ahead(r), max), u, f.value, max)
    decreases |r.script|
  {
    hide Ahead, IsText, Split;
    if r.script == [] {
      EndHandsOut(r, max);
    } else if r.script[0].Blocked? {
      BlockedLosesNothing(r);
    } else if r.script[0].octet == NEWLINE {
      LineHandsOut(r, max);
    } else {
      AbsorbLosesNothing(r, max);
      NextRefines(Absorb(r, max), max);
    }
  }

  /** How much a reader can still hand out. */
  function Effort(r: Reader): nat { 2 * |r.script| + if r.frame == [] && !r.discarding then 0 else 1 }

  lemma {:induction false} NextAdvances(r: Reader, max: nat)
    ensures var (u, f) := Next(r, max); f != Some(End) ==> Effort(u) < Effort(r)
    decreases |r.script|
  {
    hide IsText;
    if r.script != [] && r.script[0].Got? && r.script[0].octet != NEWLINE { NextAdvances(Absorb(r, max), max); }
  }

  /** Everything a reader hands out until the end or a broken stream. */
  function Drain(r: Reader, max: nat): seq<Frame>
    decreases Effort(r)
  {
    var (u, f) := Next(r, max);
    if f.None? then []
    else if f.value.End? then [End]
    else
      NextAdvances(r, max);
      [f.value] + Drain(u, max)
  }

  function WithoutPending(fs: seq<Frame>): seq<Frame> {
    if fs == [] then [] else (if fs[0].Pending? then [] else [fs[0]]) + WithoutPending(fs[1..])
  }

  /** The frames that are not pending are those of the line splitter: for every
    stream, and wherever reads time out. */
  lemma {:induction false} DrainRefines(r: Reader, max: nat)
    requires Valid(r, max) && Unbroken(r.script)
    ensures WithoutPending(Drain(r, max)) == Split(Ahead(r), max)
    decreases Effort(r)
  {
    hide Next, Split, Ahead, Valid, Unbroken;
    NextRefines(r, max);
    var (u, f) := Next(r, max);
    if f.value.End? {
      assert WithoutPending([End]) == [End] + WithoutPending([]);
    } else {
      NextAdvances(r, max);
      DrainRefines(u, max);
      assert ([f.value] + Drain(u, max))[1..] == Drain(u, max);
    }
  }

  lemma ReaderIsSplitter(script: seq<Read>, max: nat)
    requires Unbroken(script)
    ensures WithoutPending(Drain(Reader([], false, script), max)) == Split(Octets(script), max)
  {
    DrainRefines(Reader([], false, script), max);
    assert Ahead(Reader([], false, script)) == Octets(script);
  }

  // What becomes of a line

  /** The frame of the first line: cut to the limit if it is longer, its newline
    included; whole if it is UTF-8; refused if not. What follows is split by itself. */
  lemma FirstLineExactly(line: seq<byte>, rest: seq<byte>, max: nat)
    requires 10 !in line
    ensures var fs := Split(line + [10] + rest, max);
      && fs != [] && fs[1..] == Split(rest, max)
      && fs[0] ==
        if |line| + 1 > max then Oversized((line + [10])[..max])
        else if exists text :: Utf8.Encode(text) == line + [10] then Complete(line + [10])
        else InvalidUtf8(false)
  {
    hide Utf8.Encode, Utf8.Decode;
    LineAhead(line, rest, max);
    IsTextExactly(line + [10]);
  }

  /** The frames of what follows the last newline: nothing, or one that ends the stream. */
  lemma LastPartExactly(tail: seq<byte>, max: nat)
    requires 10 !in tail
    ensures Split(tail, max) ==
      if tail == [] then [End]
      else if |tail| > max then [Oversized(tail[..max]), End]
      else if exists text :: Utf8.Encode(text) == tail then [Incomplete(tail), End]
      else [InvalidUtf8(true), End]
  {
    hide Utf8.Encode, Utf8.Decode;
    NoLine(tail);
    IsTextExactly(tail);
  }

  lemma IsTextExactly(b: seq<byte>)
    ensures IsText(b) <==> exists text :: Utf8.Encode(text) == b
  {
    hide Utf8.Encode, Utf8.Decode;
    if IsText(b) { Utf8.DecodedIsEncoded(b); }
    if text :| Utf8.Encode(text) == b { Utf8.EncodedIsDecoded(text); }
  }
}
