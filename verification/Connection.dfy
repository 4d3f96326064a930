/** One client connection of the daemon, from its first octet to its last response. */
module Connection {
  import opened Options
  import opened Bytes
  import Utf8
  import opened JsonReading
  import opened JsonQuote
  import opened JsonPrinter
  import opened JsonPrefix
  import opened Protocol
  import opened ProtocolTheorems
  import opened Exchange
  import opened Framing
  import opened Frames

  predicate Answered(f: Frame) { !f.Pending? && !f.End? }

  predicate Terminal(f: Frame) { f.Incomplete? || f == InvalidUtf8(true) }

  /** `frame_error` and `handle_request`. */
  function Respond(f: Frame, handshaken: bool, daemon: string, ids: Supply, drawn: nat): Served
    requires Answered(f)
  {
    match f
    case Complete(line) => HandleRequest(line, handshaken, daemon, ids, drawn)
    case Oversized(prefix) =>
      var (correlation, n) := CorrelationPrefix(prefix, ids, drawn);
      Refuse(correlation, "protocol.oversized", "request too large", ids, n)
    case Incomplete(tail) =>
      var (correlation, n) := CorrelationPrefix(tail, ids, drawn);
      Malformed(correlation, ids, n)
    case InvalidUtf8(_) => Malformed(NewId(ids(drawn)), ids, drawn + 1)
  }

  /** The responses to a sequence of frames, as long as nothing stops them. */
  function Replies(fs: seq<Frame>, handshaken: bool, daemon: string, ids: Supply, drawn: nat): seq<string>
    decreases |fs|
  {
    if fs == [] || fs[0].End? then []
    else if fs[0].Pending? then Replies(fs[1..], handshaken, daemon, ids, drawn)
    else
      var served := Respond(fs[0], handshaken, daemon, ids, drawn);
      [served.response]
      + if Terminal(fs[0]) then [] else Replies(fs[1..], handshaken || served.completed, daemon, ids, served.drawn)
  }

  /** What happens in one turn of the loop beside the read. */
  datatype Turn = Normal | Stopping | Unwritable

  /** `handle_client`: the responses it writes. Without a stop and without a failing
    write they are the replies to everything the reader hands out; with one they
    are the first of them. */
  method HandleClient(script: seq<Read>, max: nat, daemon: string, ids: Supply, turns: nat -> Turn)
    returns (written: seq<string>)
    ensures written <= Replies(Drain(Reader([], false, script), max), false, daemon, ids, 0)
    ensures (forall t :: turns(t) == Normal) ==>
      written == Replies(Drain(Reader([], false, script), max), false, daemon, ids, 0)
  {
    hide Next, Respond, Drain, Replies, NewId, Terminal;
    var reader := new FrameReader(script);
    var handshaken, drawn, turn := false, 0, 0;
    ghost var all := Replies(Drain(reader.State(), max), false, daemon, ids, 0);
    written := [];
    assert written + all == all;
    while true
      invariant Valid(reader.State(), max)
      invariant written + Replies(Drain(reader.State(), max), handshaken, daemon, ids, drawn) == all
      decreases Effort(reader.State())
    {
      if turns(turn) == Stopping {
        return;
      }
      ghost var r := reader.State();
      NextAdvances(r, max);
      RepliesStep(r, max, handshaken, daemon, ids, drawn);
      var f := reader.NextFrame(max);
      if f.None? || f.value.End? {
        return;
      }
      var frame := f.value;
      if frame.Pending? {
        turn := turn + 1;
        continue;
      }
      var served := Respond(frame, handshaken, daemon, ids, drawn);
      if turns(turn) == Unwritable {
        return;
      }
      ghost var rest := if Terminal(frame) then []
        else Replies(Drain(reader.State(), max), handshaken || served.completed, daemon, ids, served.drawn);
      assert written + ([served.response] + rest) == (written + [served.response]) + rest;
      written := written + [served.response];
      if Terminal(frame) {
        return;
      }
      handshaken, drawn, turn := handshaken || served.completed, served.drawn, turn + 1;
    }
  }

  /** The replies to what a reader hands out, by its next frame. */
  lemma RepliesStep(r: Reader, max: nat, handshaken: bool, daemon: string, ids: Supply, drawn: nat)
    ensures var (u, f) := Next(r, max);
      var all := Replies(Drain(r, max), handshaken, daemon, ids, drawn);
      if f.None? || f.value.End? then all == []
      else if f.value.Pending? then all == Replies(Drain(u, max), handshaken, daemon, ids, drawn)
      else
        var served := Respond(f.value, handshaken, daemon, ids, drawn);
        all == [served.response]
          + if Terminal(f.value) then []
            else Replies(Drain(u, max), handshaken || served.completed, daemon, ids, served.drawn)
  {
    hide Next, Respond, Terminal;
    var (u, f) := Next(r, max);
    if f.Some? && !f.value.End? { DrainStep(r, max); }
  }

  lemma DrainStep(r: Reader, max: nat)
    requires var f := Next(r, max).1; f.Some? && !f.value.End?
    ensures Drain(r, max) == [Next(r, max).1.value] + Drain(Next(r, max).0, max)
    ensures Drain(r, max)[0] == Next(r, max).1.value && Drain(r, max)[1..] == Drain(Next(r, max).0, max)
  {
    hide Next;
  }

  // Timing

  lemma {:induction false} PendingIsIgnored(fs: seq<Frame>, handshaken: bool, daemon: string, ids: Supply, drawn: nat)
    ensures Replies(fs, handshaken, daemon, ids, drawn) == Replies(WithoutPending(fs), handshaken, daemon, ids, drawn)
    decreases |fs|
  {
    hide Respond;
    if fs != [] && !fs[0].End? {
      if fs[0].Pending? {
        PendingIsIgnored(fs[1..], handshaken, daemon, ids, drawn);
        assert WithoutPending(fs) == WithoutPending(fs[1..]);
      } else {
        var served := Respond(fs[0], handshaken, daemon, ids, drawn);
        PendingIsIgnored(fs[1..], handshaken || served.completed, daemon, ids, served.drawn);
        assert WithoutPending(fs)[1..] == WithoutPending(fs[1..]);
      }
    }
  }

  /** The replies depend on the octets that arrive, not on when they arrive. */
  lemma TimingDoesNotMatter(script: seq<Read>, max: nat, daemon: string, ids: Supply)
    requires Unbroken(script)
    ensures Replies(Drain(Reader([], false, script), max), false, daemon, ids, 0) ==
      Replies(Split(Octets(script), max), false, daemon, ids, 0)
  {
    PendingIsIgnored(Drain(Reader([], false, script), max), false, daemon, ids, 0);
    ReaderIsSplitter(script, max);
  }

  lemma RepliesMore(f: Frame, fs: seq<Frame>, handshaken: bool, daemon: string, ids: Supply, drawn: nat)
    requires Answered(f)
    ensures var served := Respond(f, handshaken, daemon, ids, drawn);
      Replies([f] + fs, handshaken, daemon, ids, drawn) == [served.response]
        + if Terminal(f) then [] else Replies(fs, handshaken || served.completed, daemon, ids, served.drawn)
  {
    hide Respond;
    assert ([f] + fs)[1..] == fs;
  }

  lemma RepliesToEnd(handshaken: bool, daemon: string, ids: Supply, drawn: nat)
    ensures Replies([End], handshaken, daemon, ids, drawn) == []
  {
  }

  lemma LineIsAnswered(line: seq<byte>, max: nat)
    ensures Answered(LineFrame(line, max)) && !Terminal(LineFrame(line, max))
  {
  }

  lemma OneReplyToTail(tail: seq<byte>, max: nat, handshaken: bool, daemon: string, ids: Supply, drawn: nat)
    ensures |Replies(TailFrames(tail, max) + [End], handshaken, daemon, ids, drawn)| == |TailFrames(tail, max)|
  {
    hide Respond, IsText, Replies;
    RepliesToEnd(handshaken, daemon, ids, drawn);
    var fs := TailFrames(tail, max);
    if fs == [] {
      assert fs + [End] == [End];
    } else {
      var served := Respond(fs[0], handshaken, daemon, ids, drawn);
      RepliesMore(fs[0], [End], handshaken, daemon, ids, drawn);
      RepliesToEnd(handshaken || served.completed, daemon, ids, served.drawn);
      assert fs + [End] == [fs[0]] + [End];
    }
  }

  /** Exactly one response for each frame of the stream but its end. */
  lemma {:induction false} OneReplyPerFrame(b: seq<byte>, max: nat, handshaken: bool, daemon: string, ids: Supply,
      drawn: nat)
    ensures |Replies(Split(b, max), handshaken, daemon, ids, drawn)| == |Split(b, max)| - 1
    decreases |b|
  {
    hide Respond, IsText, Replies, TailFrames, LineFrame, Answered, Terminal;
    var n := FirstLine(b);
    if n.None? {
      OneReplyToTail(b, max, handshaken, daemon, ids, drawn);
    } else {
      var f, rest := LineFrame(b[..n.value + 1], max), b[n.value + 1..];
      LineIsAnswered(b[..n.value + 1], max);
      var served := Respond(f, handshaken, daemon, ids, drawn);
      RepliesMore(f, Split(rest, max), handshaken, daemon, ids, drawn);
      OneReplyPerFrame(rest, max, handshaken || served.completed, daemon, ids, served.drawn);
    }
  }

  // The order of the responses

  /** What a response says that it is. */
  function KindOf(response: string): Option<string> {
    var e := ReadEnvelope(response);
    if e.Some? then e.value.kind else None
  }

  lemma HandshakeKind(id: nat, correlation: string, daemon: string)
    ensures KindOf(HandshakeResponse(NewId(id), correlation, daemon)) == Some("handshake.response")
  {
    hide ReadEnvelope, Line, Label, Quote, Print, Printable, PlainText, NewId;
    NewIdIsClean(id);
    KindsArePlain();
    HandshakeIsPrinted(daemon);
    ResultsArePrintable(daemon);
    PayloadResponse("handshake.response", NewId(id), correlation, HandshakeValue(daemon));
  }

  lemma HealthKind(id: nat, correlation: string, daemon: string)
    ensures KindOf(HealthResponse(NewId(id), correlation, daemon)) == Some("health.response")
  {
    hide ReadEnvelope, Line, Label, Quote, Print, Printable, PlainText, NewId;
    NewIdIsClean(id);
    KindsArePlain();
    HealthIsPrinted(daemon);
    ResultsArePrintable(daemon);
    PayloadResponse("health.response", NewId(id), correlation, HealthValue(daemon));
  }

  lemma ErrorKind(id: nat, correlation: string, code: string, message: string)
    ensures KindOf(ErrorResponse(NewId(id), correlation, code, message)) == Some("error.response")
  {
    hide ReadEnvelope, Line, Label, Quote, Print, Printable, PlainText, NewId, ErrorText;
    NewIdIsClean(id);
    ErrorIsPrinted(code, message);
    ErrorIsPrintable(code, message);
    ErrorResponseIsRead(NewId(id), correlation, ErrorValue(code, message));
  }

  /** A response completes the handshake just when it is a handshake response,
    which only a connection without a handshake gives; a health response only one with it. */
  lemma RespondKind(f: Frame, handshaken: bool, daemon: string, ids: Supply, drawn: nat)
    requires Answered(f)
    ensures var served := Respond(f, handshaken, daemon, ids, drawn);
      && (served.completed <==> KindOf(served.response) == Some("handshake.response"))
      && (served.completed ==> !handshaken)
      && (KindOf(served.response) == Some("health.response") ==> handshaken)
      && KindOf(served.response) in [Some("handshake.response"), Some("health.response"), Some("error.response")]
  {
    hide KindOf, HandshakeResponse, HealthResponse, ErrorResponse, NewId, HandleRequest, CorrelationPrefix;
    match f
    case Complete(line) =>
      var form := ResponseForm(line, handshaken, daemon, ids, drawn);
      HandshakeKind(ids(form.id), form.correlation, daemon);
      HealthKind(ids(form.id), form.correlation, daemon);
      ErrorKind(ids(form.id), form.correlation, form.code, form.message);
    case Oversized(prefix) =>
      var (correlation, n) := CorrelationPrefix(prefix, ids, drawn);
      ErrorKind(ids(n), correlation, "protocol.oversized", "request too large");
    case Incomplete(tail) =>
      var (correlation, n) := CorrelationPrefix(tail, ids, drawn);
      ErrorKind(ids(n), correlation, "protocol.malformed", "malformed request");
    case InvalidUtf8(_) =>
      ErrorKind(ids(drawn + 1), NewId(ids(drawn)), "protocol.malformed", "malformed request");
  }

  predicate IsHandshake(response: string) { KindOf(response) == Some("handshake.response") }

  predicate IsHealth(response: string) { KindOf(response) == Some("health.response") }

  /** At most one handshake response, none if there has been one; no health response before it. */
  ghost predicate InOrder(rs: seq<string>, handshaken: bool) {
    && (forall i :: 0 <= i < |rs| && IsHandshake(rs[i]) ==>
          !handshaken && forall j :: 0 <= j < i ==> !IsHandshake(rs[j]))
    && (forall i :: 0 <= i < |rs| && IsHealth(rs[i]) ==> handshaken || exists j :: 0 <= j < i && IsHandshake(rs[j]))
  }

  lemma InOrderMore(r: string, rs: seq<string>, handshaken: bool)
    requires IsHandshake(r) ==> !handshaken
    requires IsHealth(r) ==> handshaken
    requires InOrder(rs, handshaken || IsHandshake(r))
    ensures InOrder([r] + rs, handshaken)
  {
    hide IsHandshake, IsHealth;
    var all := [r] + rs;
    forall i | 0 <= i < |all| && IsHandshake(all[i])
      ensures !handshaken && forall j :: 0 <= j < i ==> !IsHandshake(all[j])
    {
      if i > 0 {
        assert all[i] == rs[i - 1];
        forall j | 0 <= j < i ensures !IsHandshake(all[j]) {
          if j > 0 { assert all[j] == rs[j - 1]; }
        }
      }
    }
    forall i | 0 <= i < |all| && IsHealth(all[i]) ensures handshaken || exists j :: 0 <= j < i && IsHandshake(all[j]) {
      if i > 0 && !handshaken {
        assert all[i] == rs[i - 1];
        if IsHandshake(r) {
          assert IsHandshake(all[0]);
        } else {
          var j :| 0 <= j < i - 1 && IsHandshake(rs[j]);
          assert IsHandshake(all[j + 1]);
        }
      }
    }
  }

  /** On every connection, whatever it is sent: at most one handshake response and
    no health response before it, and errors do not change that. */
  lemma {:induction false} RepliesAreInOrder(fs: seq<Frame>, handshaken: bool, daemon: string, ids: Supply, drawn: nat)
    ensures InOrder(Replies(fs, handshaken, daemon, ids, drawn), handshaken)
    decreases |fs|
  {
    hide InOrder, Respond, KindOf;
    NothingIsInOrder(handshaken);
    if fs != [] && !fs[0].End? {
      if fs[0].Pending? {
        RepliesAreInOrder(fs[1..], handshaken, daemon, ids, drawn);
      } else {
        var served := Respond(fs[0], handshaken, daemon, ids, drawn);
        RespondKind(fs[0], handshaken, daemon, ids, drawn);
        RepliesAreInOrder(fs[1..], handshaken || served.completed, daemon, ids, served.drawn);
        NothingIsInOrder(handshaken || served.completed);
        var rest := if Terminal(fs[0]) then []
          else Replies(fs[1..], handshaken || served.completed, daemon, ids, served.drawn);
        DistinctKinds(served.response);
        InOrderMore(served.response, rest, handshaken);
      }
    }
  }

  lemma NothingIsInOrder(handshaken: bool)
    ensures InOrder([], handshaken)
  {
  }

  lemma DistinctKinds(response: string)
    ensures !(IsHandshake(response) && IsHealth(response))
  {
    hide KindOf;
    assert |"handshake.response"| != |"health.response"|;
  }

  // Every response is understood

  /** What the response to a frame refers to. */
  function CorrelationOf(f: Frame, ids: Supply, drawn: nat): string {
    match f
    case Complete(line) => CorrelationOfLine(line, ids, drawn)
    case Oversized(prefix) => if ShownBy(prefix).Some? then ShownBy(prefix).value else NewId(ids(drawn))
    case Incomplete(tail) => if ShownBy(tail).Some? then ShownBy(tail).value else NewId(ids(drawn))
    case _ => NewId(ids(drawn))
  }

  lemma ResponseIsUnderstood(f: Frame, handshaken: bool, daemon: string, ids: Supply, drawn: nat)
    requires Answered(f) && Supplies(ids) && ValidUuid(daemon)
    ensures Understood(Respond(f, handshaken, daemon, ids, drawn).response, CorrelationOf(f, ids, drawn))
  {
    hide Understood, Refuse, NewId, HandleRequest, CorrelationPrefix, CorrelationOfLine, ValidUuid;
    match f
    case Complete(line) => EveryAnswerIsUnderstood(line, handshaken, daemon, ids, drawn);
    case Oversized(prefix) =>
      var (correlation, n) := CorrelationPrefix(prefix, ids, drawn);
      PrefixShows(prefix, ids, drawn);
      RefusalIsUnderstood(correlation, "protocol.oversized", "request too large", ids, n);
    case Incomplete(tail) =>
      var (correlation, n) := CorrelationPrefix(tail, ids, drawn);
      PrefixShows(tail, ids, drawn);
      RefusalIsUnderstood(correlation, "protocol.malformed", "malformed request", ids, n);
    case InvalidUtf8(_) =>
      RefusalIsUnderstood(NewId(ids(drawn)), "protocol.malformed", "malformed request", ids, drawn + 1);
  }

  /** What the responses to a sequence of frames refer to. */
  function Correlations(fs: seq<Frame>, handshaken: bool, daemon: string, ids: Supply, drawn: nat): seq<string>
    decreases |fs|
  {
    if fs == [] || fs[0].End? then []
    else if fs[0].Pending? then Correlations(fs[1..], handshaken, daemon, ids, drawn)
    else
      var served := Respond(fs[0], handshaken, daemon, ids, drawn);
      [CorrelationOf(fs[0], ids, drawn)]
      + if Terminal(fs[0]) then []
        else Correlations(fs[1..], handshaken || served.completed, daemon, ids, served.drawn)
  }

  ghost predicate AllUnderstood(rs: seq<string>, cs: seq<string>) {
    |rs| == |cs| && forall i :: 0 <= i < |rs| ==> Understood(rs[i], cs[i])
  }

  lemma OneMoreUnderstood(r: string, c: string, rs: seq<string>, cs: seq<string>)
    requires Understood(r, c) && AllUnderstood(rs, cs)
    ensures AllUnderstood([r] + rs, [c] + cs)
  {
    hide Understood;
  }

  /** Whatever a connection is sent, the client understands every response, each as
    an answer to its frame. */
  lemma {:induction false} EveryReplyIsUnderstood(fs: seq<Frame>, handshaken: bool, daemon: string, ids: Supply,
      drawn: nat)
    requires Supplies(ids) && ValidUuid(daemon)
    ensures AllUnderstood(Replies(fs, handshaken, daemon, ids, drawn), Correlations(fs, handshaken, daemon, ids, drawn))
    decreases |fs|
  {
    hide Understood, Respond, CorrelationOf, Terminal, ValidUuid, Supplies;
    if fs != [] && !fs[0].End? {
      if fs[0].Pending? {
        EveryReplyIsUnderstood(fs[1..], handshaken, daemon, ids, drawn);
      } else {
        var served := Respond(fs[0], handshaken, daemon, ids, drawn);
        var now := handshaken || served.completed;
        ResponseIsUnderstood(fs[0], handshaken, daemon, ids, drawn);
        EveryReplyIsUnderstood(fs[1..], now, daemon, ids, served.drawn);
        var rs := if Terminal(fs[0]) then [] else Replies(fs[1..], now, daemon, ids, served.drawn);
        var cs := if Terminal(fs[0]) then [] else Correlations(fs[1..], now, daemon, ids, served.drawn);
        OneMoreUnderstood(served.response, CorrelationOf(fs[0], ids, drawn), rs, cs);
      }
    }
  }

  // A whole session

  function Requests(ids: seq<string>): seq<byte> {
    if ids == [] then [] else Utf8.Encode(HealthRequest(ids[0])) + Requests(ids[1..])
  }

  function Session(role: string, id: string, instance: string, healths: seq<string>): seq<byte> {
    Utf8.Encode(HandshakeRequest(role, id, instance)) + Requests(healths)
  }

  ghost predicate AllUuids(ids: seq<string>) { forall i :: 0 <= i < |ids| ==> ValidUuid(ids[i]) }

  /** A request that is one line is answered first. */
  lemma RequestIsAnswered(
      request: string, rest: seq<byte>, max: nat, handshaken: bool, daemon: string, ids: Supply, drawn: nat)
    requires OneLine(request) && |Utf8.Encode(request)| <= max
    ensures var served := HandleRequest(Utf8.Encode(request), handshaken, daemon, ids, drawn);
      Replies(Split(Utf8.Encode(request) + rest, max), handshaken, daemon, ids, drawn) ==
        [served.response] + Replies(Split(rest, max), handshaken || served.completed, daemon, ids, served.drawn)
  {
    hide HandleRequest, Split, Replies, OneLine, Utf8.Encode;
    OneLineIsOneFrame(request, rest, max);
    RepliesMore(Complete(Utf8.Encode(request)), Split(rest, max), handshaken, daemon, ids, drawn);
  }

  lemma {:induction false} HealthSession(healths: seq<string>, max: nat, daemon: string, ids: Supply, drawn: nat)
    requires AllUuids(healths) && ValidUuid(daemon) && Supplies(ids) && max >= 1024
    ensures var rs := Replies(Split(Requests(healths), max), true, daemon, ids, drawn);
      && |rs| == |healths|
      && forall i :: 0 <= i < |rs| ==> ResponseMatches(rs[i], "health.response", healths[i])
    decreases |healths|
  {
    hide HealthRequest, HealthResponse, ResponseMatches, ValidUuid, HandleRequest, NewId, Replies, Split, OneLine;
    hide Utf8.Encode;
    if healths == [] {
      NothingIsAnswered(max, true, daemon, ids, drawn);
    } else {
      assert ValidUuid(healths[0]);
      HealthFits(healths[0]);
      RequestIsAnswered(HealthRequest(healths[0]), Requests(healths[1..]), max, true, daemon, ids, drawn);
      HealthIsAccepted(healths[0], daemon, ids, drawn);
      HealthSession(healths[1..], max, daemon, ids, drawn + 1);
      NewIdIsUuid(ids(drawn));
      HealthResponseMatches(NewId(ids(drawn)), healths[0], daemon);
    }
  }

  lemma NothingIsAnswered(max: nat, handshaken: bool, daemon: string, ids: Supply, drawn: nat)
    ensures Replies(Split([], max), handshaken, daemon, ids, drawn) == []
  {
    assert Split([], max) == [End];
  }

  lemma HealthFits(id: string)
    requires ValidUuid(id)
    ensures OneLine(HealthRequest(id)) && |Utf8.Encode(HealthRequest(id))| <= 1024
  {
    RequestsFit("tui", id, id);
  }

  /** The client's handshake and any number of health requests, at any line limit
    that may be configured and however the octets arrive, are all answered, in
    order, with responses that the client accepts. */
  lemma SessionSucceeds(
      role: string, id: string, instance: string, healths: seq<string>, script: seq<Read>, max: nat, daemon: string,
      ids: Supply)
    requires role in ["tui", "jsonl", "doctor"] && ValidUuid(id) && ValidUuid(instance) && AllUuids(healths)
    requires ValidUuid(daemon) && Supplies(ids) && 1024 <= max <= 1048576
    requires Unbroken(script) && Octets(script) == Session(role, id, instance, healths)
    ensures var rs := Replies(Drain(Reader([], false, script), max), false, daemon, ids, 0);
      && |rs| == 1 + |healths| && ResponseMatches(rs[0], "handshake.response", id)
      && forall i :: 0 <= i < |healths| ==> ResponseMatches(rs[i + 1], "health.response", healths[i])
  {
    hide HealthRequest, ResponseMatches, ValidUuid, HandleRequest, NewId, HandshakeRequest, HandshakeResponse, Replies;
    hide Split, Drain, OneLine, Utf8.Encode, Requests, Octets;
    TimingDoesNotMatter(script, max, daemon, ids);
    RequestsFit(role, id, instance);
    RequestIsAnswered(HandshakeRequest(role, id, instance), Requests(healths), max, false, daemon, ids, 0);
    HandshakeIsAccepted(role, id, instance, daemon, ids, 0);
    HealthSession(healths, max, daemon, ids, 1);
    NewIdIsUuid(ids(0));
    HandshakeResponseMatches(NewId(ids(0)), id, daemon);
  }

  // Lines that do not arrive whole

  lemma {:induction false} DecodedPrefix(p: seq<byte>, q: seq<byte>)
    requires Utf8.Decode(p).Some? && Utf8.Decode(p + q).Some?
    ensures Utf8.Decode(p).value <= Utf8.Decode(p + q).value
    decreases |p|
  {
    hide Utf8.DecodeChar, Utf8.EncodeChar;
    if p != [] {
      var (c, n) := Utf8.DecodeChar(p).value;
      Utf8.CharIsWritten(p);
      assert p == p[..n] + p[n..];
      assert p + q == p[..n] + (p[n..] + q);
      Utf8.CharIsRead(c, p[n..] + q);
      assert (p + q)[n..] == p[n..] + q;
      DecodedPrefix(p[n..], q);
    }
  }

  /** An identifier that is read from the beginning of a line, because the line is
    too long or not finished, is the one by which the line names itself, for every
    line that begins like that and can be read. */
  lemma PrefixNamesTheLine(p: seq<byte>, q: seq<byte>, ids: Supply, drawn: nat)
    requires Utf8.Decode(p).Some? && ScanPrefix(Utf8.Decode(p).value, "id").Some?
    requires Utf8.Decode(p + q).Some? && ReadEnvelope(Utf8.Decode(p + q).value).Some?
    ensures var id := ScanPrefix(Utf8.Decode(p).value, "id").value;
      && ReadEnvelope(Utf8.Decode(p + q).value).value.id == Some(id)
      && (ValidUuid(id) ==> NamedBy(p + q) == Some(id) && CorrelationPrefix(p, ids, drawn) == (id, drawn))
  {
    hide ValidUuid, ScanPrefix, Field, Parse;
    DecodedPrefix(p, q);
    var line := Utf8.Decode(p + q).value;
    PrefixFieldIsTheField(Utf8.Decode(p).value, line, Parse(line).value.fields, "id");
  }
}
