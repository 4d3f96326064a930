/** Which responses the client accepts, stated of the fields that they spell. */
module Responses {
  import opened Options
  import opened JsonGrammar
  import opened JsonReading
  import Theorems = JsonTheorems
  import opened JsonPrinter
  import Semver
  import opened Protocol
  import opened ProtocolTheorems
  import opened Requests

  /** A message of this protocol and version, with an identifier, that answers `correlation`. */
  ghost predicate Answers(fs: FieldList, kind: string, correlation: string) {
    && NoOther(fs, KEYS) && Supported(fs) && ("kind", Str(kind)) in fs
    && (exists id :: ("id", Str(id)) in fs && IsUuid(id))
    && ("correlation_id", Str(correlation)) in fs
  }

  ghost predicate IsDaemon(fs: FieldList) {
    && |fs| == 4 && ("protocol_version", Number("1")) in fs
    && (exists version :: IsVersion(version) && ("daemon_version", Str(version)) in fs)
    && (exists instance :: IsUuid(instance) && ("daemon_instance_id", Str(instance)) in fs)
  }

  ghost predicate IsHandshakeBody(fs: FieldList) { IsDaemon(fs) && ("capabilities", Array([Str("health")])) in fs }

  ghost predicate IsHealthBody(fs: FieldList) { IsDaemon(fs) && ("status", Str("ok")) in fs }

  /** The errors, and whether a request may be repeated after them. */
  const ERRORS := [
    ("usage.invalid", false), ("config.invalid", false), ("config.unsupported_version", false),
    ("config.secret_forbidden", false), ("protocol.malformed", false), ("protocol.unsupported_version", false),
    ("protocol.oversized", false), ("authorization.peer_uid", false), ("lifecycle.daemon_running", true),
    ("lifecycle.daemon_unavailable", true), ("lifecycle.shutdown_timeout", true), ("internal.unexpected", true)]

  ghost predicate IsError(fs: FieldList, code: string) {
    && |fs| == 3 && ("code", Str(code)) in fs && (exists message :: ("message", Str(message)) in fs)
    && exists again :: ("retryable", Bool(again)) in fs && (code, again) in ERRORS
  }

  // The check of a response

  lemma InnerIsDistinct(text: string, fs: FieldList, key: string, inner: FieldList)
    requires Parse(text) == Some(Object(fs)) && (key, Object(inner)) in fs
    ensures Distinct(inner)
  {
    hide Parse, Print;
    ReadIsPrintable(text, Object(fs));
    var i :| 0 <= i < |fs| && fs[i] == (key, Object(inner));
    assert Printable(fs[i].1);
  }

  lemma ParsedIsDistinct(text: string, fs: FieldList)
    requires Parse(text) == Some(Object(fs))
    ensures Distinct(fs)
  {
    hide Parse, Print;
    ReadIsPrintable(text, Object(fs));
  }

  predicate Answering(e: Envelope, kind: string, correlation: string) {
    && Current(e) && e.kind == Some(kind) && e.id.Some? && ValidUuid(e.id.value) && e.correlation == Some(correlation)
  }

  lemma AnswersExactly(fs: FieldList, kind: string, correlation: string)
    requires Distinct(fs)
    ensures Answers(fs, kind, correlation) <==>
      EnvelopeOf(fs).Some? && Answering(EnvelopeOf(fs).value, kind, correlation)
  {
    hide Field, Distinct, IsUuid, ValidUuid, NoOther, EnvelopeKey;
    EnvelopeExactly(fs);
    FieldIsMember(fs, "protocol");
    FieldIsMember(fs, "version");
    FieldIsMember(fs, "kind");
    FieldIsMember(fs, "id");
    FieldIsMember(fs, "correlation_id");
    forall id ensures ValidUuid(id) <==> IsUuid(id) { UuidIsFiveGroups(id); }
  }

  lemma BodyExactly(fs: FieldList)
    requires Distinct(fs)
    ensures PayloadMatches(fs, "handshake.response") <==> IsHandshakeBody(fs)
    ensures PayloadMatches(fs, "health.response") <==> IsHealthBody(fs)
  {
    hide Field, Distinct, IsUuid, ValidUuid, IsVersion, Semver.ValidSemver;
    FieldIsMember(fs, "daemon_version");
    FieldIsMember(fs, "daemon_instance_id");
    forall id ensures ValidUuid(id) <==> IsUuid(id) { UuidIsFiveGroups(id); }
    forall version ensures Semver.ValidSemver(version) <==> IsVersion(version) { VersionExactly(version); }
    KeyOf(fs, "protocol_version", Number("1"));
    KeyOf(fs, "capabilities", Array([Str("health")]));
    KeyOf(fs, "status", Str("ok"));
    assert |"handshake.response"| != |"health.response"|;
  }

  lemma KeyOf(fs: FieldList, key: string, v: Value)
    ensures (key, v) in fs ==> exists i :: 0 <= i < |fs| && fs[i].0 == key
  {
  }

  /** A response is accepted exactly when its text spells an answer of that kind, with
    the body of that kind and no error. */
  lemma MatchesExactly(response: string, correlation: string)
    ensures ResponseMatches(response, "handshake.response", correlation) <==>
      exists fs, body ::
        && Spells(response, Object(fs)) && Answers(fs, "handshake.response", correlation) && Lacks(fs, "error")
        && ("payload", Object(body)) in fs && IsHandshakeBody(body)
    ensures ResponseMatches(response, "health.response", correlation) <==>
      exists fs, body ::
        && Spells(response, Object(fs)) && Answers(fs, "health.response", correlation) && Lacks(fs, "error")
        && ("payload", Object(body)) in fs && IsHealthBody(body)
  {
    hide *;
    forall fs, body
      ensures MatchingFields(response, fs, body, "handshake.response", correlation) <==>
        && Spells(response, Object(fs)) && Answers(fs, "handshake.response", correlation) && Lacks(fs, "error")
        && ("payload", Object(body)) in fs && IsHandshakeBody(body)
      ensures MatchingFields(response, fs, body, "health.response", correlation) <==>
        && Spells(response, Object(fs)) && Answers(fs, "health.response", correlation) && Lacks(fs, "error")
        && ("payload", Object(body)) in fs && IsHealthBody(body)
    {
      MatchingExactly(response, fs, body, "handshake.response", correlation);
      MatchingExactly(response, fs, body, "health.response", correlation);
    }
    MatchesSomeFields(response, "handshake.response", correlation);
    MatchesSomeFields(response, "health.response", correlation);
  }

  predicate MatchingFields(response: string, fs: FieldList, body: FieldList, kind: string, correlation: string) {
    && Parse(response) == Some(Object(fs)) && EnvelopeOf(fs).Some? && Answering(EnvelopeOf(fs).value, kind, correlation)
    && EnvelopeOf(fs).value.error.None? && EnvelopeOf(fs).value.payload == Some(Object(body))
    && PayloadMatches(body, kind)
  }

  lemma MatchesSomeFields(response: string, kind: string, correlation: string)
    ensures ResponseMatches(response, kind, correlation) <==>
      exists fs, body :: MatchingFields(response, fs, body, kind, correlation)
  {
    hide Parse, EnvelopeOf, PayloadMatches, ValidUuid;
    if ResponseMatches(response, kind, correlation) {
      var fs := Parse(response).value.fields;
      assert MatchingFields(response, fs, EnvelopeOf(fs).value.payload.value.fields, kind, correlation);
    }
  }

  lemma MatchingExactly(response: string, fs: FieldList, body: FieldList, kind: string, correlation: string)
    requires kind in ["handshake.response", "health.response"]
    ensures MatchingFields(response, fs, body, kind, correlation) <==>
      && Spells(response, Object(fs)) && Answers(fs, kind, correlation) && Lacks(fs, "error")
      && ("payload", Object(body)) in fs
      && if kind == "handshake.response" then IsHandshakeBody(body) else IsHealthBody(body)
  {
    hide Parse, Field, Answers, Answering, PayloadMatches, IsHandshakeBody, IsHealthBody, Spells, Distinct, Lacks;
    Theorems.ParseIsTheDialect(response, Object(fs));
    if Parse(response) == Some(Object(fs)) {
      ParsedIsDistinct(response, fs);
      AnswersExactly(fs, kind, correlation);
      FieldIsMember(fs, "error");
      FieldIsMember(fs, "payload");
      if ("payload", Object(body)) in fs {
        InnerIsDistinct(response, fs, "payload", body);
        BodyExactly(body);
      }
    }
  }

  // The check of an error

  lemma LockedExactly(code: string, again: bool)
    ensures code in CODES && LockedRetryable(code) == Some(again) <==> (code, again) in ERRORS
  {
    assert forall i :: 0 <= i < 12 ==> ERRORS[i].0 == CODES[i];
    forall i | 0 <= i < 12 ensures LockedRetryable(CODES[i]) == Some(ERRORS[i].1) { LockedAt(i); }
    hide LockedRetryable;
    if code in CODES {
      var i :| 0 <= i < 12 && CODES[i] == code;
      assert ERRORS[i] == (code, ERRORS[i].1);
    }
    if (code, again) in ERRORS {
      var i :| 0 <= i < 12 && ERRORS[i] == (code, again);
      assert CODES[i] == code;
    }
  }

  lemma LockedAt(i: nat)
    requires i < 12
    ensures LockedRetryable(CODES[i]) == Some(ERRORS[i].1)
  {
    hide LockedRetryable, StartsWith;
    if i == 0 {
      LockedFor("usage.invalid", "usage.");
    } else if i == 1 {
      LockedFor("config.invalid", "config.");
    } else if i == 2 {
      LockedFor("config.unsupported_version", "config.");
    } else if i == 3 {
      LockedFor("config.secret_forbidden", "config.");
    } else if i == 4 {
      LockedFor("protocol.malformed", "protocol.");
    } else if i == 5 {
      LockedFor("protocol.unsupported_version", "protocol.");
    } else if i == 6 {
      LockedFor("protocol.oversized", "protocol.");
    } else if i == 7 {
      LockedFor("authorization.peer_uid", "authorization.");
    } else if i == 8 {
      LockedFor("lifecycle.daemon_running", "lifecycle.");
    } else if i == 9 {
      LockedFor("lifecycle.daemon_unavailable", "lifecycle.");
    } else if i == 10 {
      LockedFor("lifecycle.shutdown_timeout", "lifecycle.");
    } else {
      LockedFor("internal.unexpected", "internal.");
    }
  }

  lemma LockedFor(code: string, prefix: string)
    requires |prefix| <= |code| && code[..|prefix|] == prefix
    ensures code == "usage.invalid" || prefix in ["config.", "protocol.", "authorization."] ==>
      LockedRetryable(code) == Some(false)
    ensures code == "internal.unexpected" || prefix == "lifecycle." ==> LockedRetryable(code) == Some(true)
  {
    assert prefix != "" ==> code[0] == prefix[0];
    assert StartsWith(code, "config.") ==> code[0] == 'c';
    assert StartsWith(code, "protocol.") ==> code[0] == 'p';
    assert StartsWith(code, "authorization.") ==> code[0] == 'a';
  }

  /** What is read of an error, by its members. */
  ghost predicate ReadsAs(fs: FieldList, code: string, again: bool) {
    && |fs| == 3 && NoOther(fs, ["code", "message", "retryable"])
    && ("code", Str(code)) in fs && (exists message :: ("message", Str(message)) in fs)
    && ("retryable", Bool(again)) in fs && code in CODES && LockedRetryable(code) == Some(again)
  }

  lemma ErrorMembers(fs: FieldList, code: string)
    requires Distinct(fs)
    ensures ErrorCodeOf(fs) == Some(code) <==> exists again :: ReadsAs(fs, code, again)
  {
    hide Field, Distinct, LockedRetryable, CODES;
    FieldIsMember(fs, "code");
    FieldIsMember(fs, "message");
    FieldIsMember(fs, "retryable");
    if ErrorCodeOf(fs) == Some(code) {
      var again := Field(fs, "retryable").value.b;
      assert ("message", Str(StringField(fs, "message").value)) in fs;
      assert ReadsAs(fs, code, again);
    }
  }

  lemma ErrorBodyExactly(fs: FieldList, code: string)
    requires Distinct(fs)
    ensures ErrorCodeOf(fs) == Some(code) <==> IsError(fs, code)
  {
    hide ErrorCodeOf, Distinct, LockedRetryable, CODES, ERRORS, NoOther;
    ErrorMembers(fs, code);
    if again :| ReadsAs(fs, code, again) { LockedExactly(code, again); }
    if IsError(fs, code) {
      var again :| ("retryable", Bool(again)) in fs && (code, again) in ERRORS;
      LockedExactly(code, again);
      OnlyThree(fs, code, again);
      assert ReadsAs(fs, code, again);
    }
  }

  /** Three distinct keys among three are all of them. */
  lemma OnlyThree(fs: FieldList, code: string, again: bool)
    requires Distinct(fs) && |fs| == 3 && ("code", Str(code)) in fs && ("retryable", Bool(again)) in fs
    requires exists message :: ("message", Str(message)) in fs
    ensures NoOther(fs, ["code", "message", "retryable"])
  {
    var message :| ("message", Str(message)) in fs;
    var a :| 0 <= a < 3 && fs[a] == ("code", Str(code));
    var b :| 0 <= b < 3 && fs[b] == ("message", Str(message));
    var c :| 0 <= c < 3 && fs[c] == ("retryable", Bool(again));
    assert |"code"| != |"message"| && |"code"| != |"retryable"| && |"message"| != |"retryable"|;
    assert a != b && b != c && a != c;
    forall i | 0 <= i < 3 ensures fs[i].0 in ["code", "message", "retryable"] { assert i == a || i == b || i == c; }
  }

  /** A response is read as an error exactly when its text spells an error answer, and
    as the code that stands in it: one of the twelve, marked as the table says. */
  lemma ErrorExactly(response: string, correlation: string, code: string)
    ensures ResponseErrorCode(response, correlation) == Some(code) <==>
      exists fs, error ::
        && Spells(response, Object(fs)) && Answers(fs, "error.response", correlation) && Lacks(fs, "payload")
        && ("error", Object(error)) in fs && IsError(error, code)
  {
    hide Parse, EnvelopeOf, ErrorCodeOf, Answers, IsError, Spells, Distinct, Lacks, ValidUuid;
    if fs, error :|
      && Spells(response, Object(fs)) && Answers(fs, "error.response", correlation) && Lacks(fs, "payload")
      && ("error", Object(error)) in fs && IsError(error, code)
    {
      ErrorFields(response, fs, correlation, error, code);
    }
    if ResponseErrorCode(response, correlation) == Some(code) {
      var fs := Parse(response).value.fields;
      ErrorFields(response, fs, correlation, EnvelopeOf(fs).value.error.value.fields, code);
    }
  }

  lemma ErrorFields(response: string, fs: FieldList, correlation: string, error: FieldList, code: string)
    ensures Spells(response, Object(fs)) <==> Parse(response) == Some(Object(fs))
    ensures Parse(response) == Some(Object(fs)) ==>
      (Answers(fs, "error.response", correlation) && Lacks(fs, "payload") && ("error", Object(error)) in fs
       && IsError(error, code)
       <==> EnvelopeOf(fs).Some? && Answering(EnvelopeOf(fs).value, "error.response", correlation)
            && EnvelopeOf(fs).value.payload.None? && EnvelopeOf(fs).value.error == Some(Object(error))
            && ErrorCodeOf(error) == Some(code))
  {
    hide Parse, Field, Answers, Answering, ErrorCodeOf, IsError, Spells, Distinct, Lacks;
    Theorems.ParseIsTheDialect(response, Object(fs));
    if Parse(response) == Some(Object(fs)) {
      ParsedIsDistinct(response, fs);
      AnswersExactly(fs, "error.response", correlation);
      FieldIsMember(fs, "error");
      FieldIsMember(fs, "payload");
      if ("error", Object(error)) in fs {
        InnerIsDistinct(response, fs, "error", error);
        ErrorBodyExactly(error, code);
      }
    }
  }
}
