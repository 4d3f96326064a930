/** The versioned artifact store: explicit imports, their rejections, and the
  relations between the tables that reopening the store insists on. */
module Lineage {
  import opened Options

  // Tables. A primary key is the key of a map; versions keep their insertion
  // order. Every row has schema version 1.

  datatype Artifact = Artifact(owner: string, source: string)

  datatype Origin = Native | Legacy

  datatype Version = Version(
    id: string, artifact: string, hash: string, canonical: string, ancestry: Option<string>, operation: string,
    actor: string, source: string, identity: Option<string>, expectedHash: Option<string>, origin: Origin,
    path: Option<string>)

  datatype Operation =
    | Accepted(fingerprint: string, version: string, lineage: Option<string>)
    | Rejected(fingerprint: string, code: Code)

  datatype Code = ConflictCode | DriftCode

  datatype Edge = Edge(version: string, parent: Option<string>)

  datatype Discrepancy = Discrepancy(
    actor: string, artifact: string, source: string, ancestry: Option<string>, reason: string, resultId: string,
    expectedHash: Option<string>, observedHash: Option<string>,
    expectedIdentity: Option<string>, observedIdentity: Option<string>, proposedHash: string,
    observedOwner: Option<string>, observedSource: Option<string>, observedAncestry: Option<string>)

  datatype Tables = Tables(
    artifacts: map<string, Artifact>, versions: seq<Version>, operations: map<string, Operation>,
    lineage: map<string, Edge>, discrepancies: map<string, Discrepancy>)

  const FRESH := Tables(map[], [], map[], map[], map[])

  /** Digests, of which nothing is assumed: of contents, of the parts of a request,
    of those with a logical path, and of what names a version. */
  datatype Digests = Digests(
    content: string -> string,
    parts: (string, string, string, string, Option<string>) -> string,
    withPath: (string, Option<string>) -> string,
    version: (string, string, string, string, string) -> string)

  // Requests

  datatype Request = Request(
    operation: string, actor: string, source: string, content: string, file: Option<string>,
    expectedHash: Option<string>, ancestry: Option<string>, artifact: Option<string>, expectedIdentity: Option<string>)
  {
    function Target(): string { if artifact.Some? then artifact.value else source }

    /** Discovery of an artifact from its file, which is forbidden. */
    predicate Implicit() { file.Some? && artifact.None? }
  }

  /** What the world answers while one import runs: the normal form of the path,
    the file as it is seen at four moments, and whether the database fails. */
  datatype Answers = Answers(
    normal: Option<string>, durable: Option<(string, string)>, before: Option<(string, string)>,
    after: Option<(string, string)>, atRejection: Option<(string, string)>, fails: bool)

  datatype Error = Conflict | Drift | Database

  datatype Info = Info(artifact: string, version: string, hash: string, canonical: string, ancestry: Option<string>)

  datatype Reply = Done(info: Info) | Failed(error: Error)

  /** `observe(path, expected)`: identity and hash, if the identity is the expected one. */
  function Observe(seen: Option<(string, string)>, expected: Option<string>): Option<(string, string)> {
    if seen.Some? && expected.Some? && seen.value.0 != expected.value then None else seen
  }

  function Parts(g: Digests, r: Request): string {
    g.parts(r.actor, r.source, r.Target(), g.content(r.content), r.ancestry)
  }

  function Fingerprint(g: Digests, r: Request, path: Option<string>): string { g.withPath(Parts(g, r), path) }

  /** The versions of an artifact in insertion order. */
  function VersionsOf(vs: seq<Version>, artifact: string): (h: seq<Version>)
    ensures forall v :: v in h <==> v in vs && v.artifact == artifact
  {
    if vs == [] then []
    else
      var last := vs[|vs| - 1];
      assert vs == vs[..|vs| - 1] + [last];
      VersionsOf(vs[..|vs| - 1], artifact) + if last.artifact == artifact then [last] else []
  }

  function Latest(vs: seq<Version>, artifact: string): Option<Version> {
    var h := VersionsOf(vs, artifact);
    if h == [] then None else Some(h[|h| - 1])
  }

  /** The first logical path in a history. */
  function FirstPath(h: seq<Version>): Option<string> {
    if h == [] then None else if h[0].path.Some? then h[0].path else FirstPath(h[1..])
  }

  function VersionById(vs: seq<Version>, id: string): (v: Option<Version>)
    ensures v.Some? ==> v.value in vs && v.value.id == id
    ensures v.None? ==> forall w :: w in vs ==> w.id != id
  {
    if vs == [] then None else if vs[0].id == id then Some(vs[0]) else VersionById(vs[1..], id)
  }

  /** `Store::version`. */
  function Lookup(t: Tables, id: string): Reply {
    var v := VersionById(t.versions, id);
    if v.None? then Failed(Database)
    else Done(Info(v.value.artifact, id, v.value.hash, v.value.canonical, v.value.ancestry))
  }

  function ErrorOf(c: Code): Error { if c == DriftCode then Drift else Conflict }

  function Put<K, V>(m: map<K, V>, k: K, v: V): map<K, V> { if k in m then m else m[k := v] }

  /** `Store::reject`: records the operation unless it is known, and one
    discrepancy per operation. */
  function Reject(g: Digests, t: Tables, r: Request, e: Answers, reason: string, code: Code, fp: string)
    : (Tables, Reply)
  {
    if e.fails then (t, Failed(Database))
    else
      var accepted := r.operation in t.operations && t.operations[r.operation].Accepted?;
      var seen := if r.file.Some? then e.atRejection else None;
      var owner := if r.Target() in t.artifacts then Some(t.artifacts[r.Target()].owner) else None;
      var source := if r.Target() in t.artifacts then Some(t.artifacts[r.Target()].source) else None;
      var latest := Latest(t.versions, r.Target());
      var d := Discrepancy(r.actor, r.Target(), r.source, r.ancestry, reason,
        if accepted then t.operations[r.operation].version else r.operation,
        r.expectedHash, if seen.Some? then Some(seen.value.1) else None,
        r.expectedIdentity, if seen.Some? then Some(seen.value.0) else None, g.content(r.content),
        owner, source, if latest.Some? then Some(latest.value.id) else None);
      (t.(operations := Put(t.operations, r.operation, Rejected(fp, code)),
          discrepancies := Put(t.discrepancies, r.operation, d)),
       Failed(ErrorOf(code)))
  }

  /** Is the file of the artifact's latest version still what was recorded? */
  predicate Undrifted(latest: Version, e: Answers) {
    var current := Observe(e.durable, latest.identity);
    && (if current.Some? then Some(current.value.0) else None) == latest.identity
    && current.Some? && current.value.1 == latest.hash
  }

  /** The version that a request names as its parent. */
  predicate Fathers(v: Version, r: Request) {
    r.ancestry == Some(v.id) && v.artifact == r.Target() && v.actor == r.actor && v.source == r.source
  }

  datatype Verdict = Proceed | Object(reason: string, code: Code, expected: Option<Version>)

  /** What is wrong with the content or the file, given what the caller expects. */
  function ContentObjection(g: Digests, r: Request, e: Answers, path: Option<string>): Option<string> {
    if r.expectedHash.Some? && r.expectedHash.value != g.content(r.content) then Some("expected hash mismatch")
    else if path.Some? && Observe(e.before, r.expectedIdentity).None? then Some("file observation failed")
    else if path.Some? && Observe(e.before, r.expectedIdentity).value.1 != g.content(r.content) then
      Some("file content drift")
    else None
  }

  /** The checks between the operation lookup and the transaction, in order. */
  function Judge(g: Digests, t: Tables, r: Request, e: Answers, path: Option<string>): Verdict {
    var artifact := r.Target();
    var h := VersionsOf(t.versions, artifact);
    var latest := Latest(t.versions, artifact);
    var bound := FirstPath(h);
    if artifact in t.artifacts && t.artifacts[artifact] != Artifact(r.actor, r.source) then
      Object("artifact owner/source conflict", ConflictCode, None)
    else if path.None? && bound.Some? then Object("file binding conflict", ConflictCode, None)
    else if path.Some? && latest.Some? && bound.Some? && bound != path then
      Object("logical path conflict", ConflictCode, None)
    else if path.Some? && latest.Some? && !Undrifted(latest.value, e) then
      Object("durable file identity drift", DriftCode, latest)
    else if (if latest.Some? then Some(latest.value.id) else None) != r.ancestry then
      Object("lineage conflict", ConflictCode, None)
    else if r.ancestry.Some? && !(exists v :: v in t.versions && Fathers(v, r)) then
      Object("invalid version ancestry", ConflictCode, None)
    else
      var objection := ContentObjection(g, r, e, path);
      if objection.Some? then Object(objection.value, DriftCode, None) else Proceed
  }

  /** The request as a rejection records it. */
  function Blamed(r: Request, v: Verdict): Request
    requires v.Object?
  {
    if v.expected.Some? then
      r.(expectedHash := Some(v.expected.value.hash), expectedIdentity := v.expected.value.identity)
    else r
  }

  function NewVersion(g: Digests, r: Request, e: Answers, path: Option<string>): Version {
    var seen := if path.Some? then Observe(e.before, r.expectedIdentity) else None;
    Version(g.version(r.Target(), g.content(r.content), r.operation, r.actor, r.source), r.Target(),
      g.content(r.content), r.content, r.ancestry, r.operation, r.actor, r.source,
      if seen.Some? then Some(seen.value.0) else None, r.expectedHash, Native, path)
  }

  /** The four rows of an accepted version. */
  function AddVersion(t: Tables, v: Version, fp: string): Tables {
    Tables(
      Put(t.artifacts, v.artifact, Artifact(v.actor, v.source)),
      t.versions + [v],
      t.operations[v.operation := Accepted(fp, v.id, v.ancestry)],
      t.lineage[v.operation := Edge(v.id, v.ancestry)],
      t.discrepancies)
  }

  predicate IdTaken(t: Tables, v: Version) {
    (exists w :: w in t.versions && (w.id == v.id || w.operation == v.operation)) || v.operation in t.lineage
  }

  /** The transaction: all four rows, or none. */
  function Accept(g: Digests, t: Tables, r: Request, e: Answers, path: Option<string>): (Tables, Reply) {
    var v := NewVersion(g, r, e, path);
    if e.fails || IdTaken(t, v) then (t, Failed(Database))
    else if path.Some? && Observe(e.after, v.identity) != Observe(e.before, r.expectedIdentity) then (t, Failed(Drift))
    else
      var t' := AddVersion(t, v, Fingerprint(g, r, path));
      (t', Lookup(t', v.id))
  }

  /** What a request finds when its operation is already known. */
  function Repeat(g: Digests, t: Tables, r: Request, e: Answers, path: Option<string>): (Tables, Reply)
    requires r.operation in t.operations
  {
    var known := t.operations[r.operation];
    var fp := Fingerprint(g, r, path);
    if known.fingerprint != fp && !(r.file.None? && known.fingerprint == Parts(g, r)) then
      Reject(g, t, r, e, "operation fingerprint conflict", ConflictCode, fp)
    else if known.Rejected? then (t, Failed(ErrorOf(known.code)))
    else (t, Lookup(t, known.version))
  }

  /** `Store::import`: the tables afterwards, and the answer. */
  function Import(g: Digests, t: Tables, r: Request, e: Answers): (Tables, Reply) {
    if r.file.Some? && e.normal.None? then (t, Failed(Conflict))
    else
      var path := if r.file.Some? then e.normal else None;
      var fp := Fingerprint(g, r, path);
      if r.Implicit() then Reject(g, t, r, e, "implicit artifact discovery is forbidden", ConflictCode, fp)
      else if r.operation in t.operations then Repeat(g, t, r, e, path)
      else
        var verdict := Judge(g, t, r, e, path);
        if verdict.Object? then Reject(g, t, Blamed(r, verdict), e, verdict.reason, verdict.code, fp)
        else Accept(g, t, r, e, path)
  }

  function ImportAll(g: Digests, t: Tables, calls: seq<(Request, Answers)>): Tables
    decreases |calls|
  {
    if calls == [] then t else ImportAll(g, Import(g, t, calls[0].0, calls[0].1).0, calls[1..])
  }

  // What reopening checks

  predicate IsParent(p: Version, v: Version) {
    v.ancestry == Some(p.id) && p.artifact == v.artifact && p.actor == v.actor && p.source == v.source
  }

  /** Every version has its content's hash, its artifact's owner and source, and a
    parent of the same artifact, actor and source if it names one. */
  ghost predicate VersionOk(g: Digests, t: Tables, v: Version) {
    && v.hash == g.content(v.canonical)
    && v.artifact in t.artifacts && t.artifacts[v.artifact] == Artifact(v.actor, v.source)
    && (v.ancestry.Some? ==> exists p :: p in t.versions && IsParent(p, v))
  }

  /** An accepted operation has its version and its edge; a rejected one has the
    discrepancy that explains it. */
  ghost predicate OperationOk(t: Tables, id: string)
    requires id in t.operations
  {
    match t.operations[id]
    case Accepted(_, version, lineage) =>
      && (exists v :: v in t.versions && v.id == version && v.operation == id)
      && id in t.lineage && t.lineage[id] == Edge(version, lineage)
    case Rejected(_, _) => id in t.discrepancies && t.discrepancies[id].resultId == id
  }

  ghost predicate EdgeOk(t: Tables, id: string)
    requires id in t.lineage
  {
    && id in t.operations && t.operations[id].Accepted?
    && t.operations[id].version == t.lineage[id].version && t.operations[id].lineage == t.lineage[id].parent
  }

  ghost predicate VersionLinked(t: Tables, v: Version) {
    && v.operation in t.operations && t.operations[v.operation].Accepted?
    && t.operations[v.operation].version == v.id && t.operations[v.operation].lineage == v.ancestry
    && v.operation in t.lineage && t.lineage[v.operation] == Edge(v.id, v.ancestry)
  }

  ghost predicate DiscrepancyOk(t: Tables, id: string)
    requires id in t.discrepancies
  {
    && id in t.operations
    && t.discrepancies[id].resultId == match t.operations[id] case Accepted(_, v, _) => v case Rejected(_, _) => id
  }

  /** The keys of the version table. */
  ghost predicate Keyed(vs: seq<Version>) {
    forall i, j :: 0 <= i < j < |vs| ==> vs[i].id != vs[j].id && vs[i].operation != vs[j].operation
  }

  ghost predicate CoreValid(g: Digests, t: Tables) {
    && Keyed(t.versions)
    && (forall v :: v in t.versions ==> VersionOk(g, t, v) && VersionLinked(t, v))
    && (forall id :: id in t.operations ==> OperationOk(t, id))
    && (forall id :: id in t.lineage ==> EdgeOk(t, id))
    && (forall id :: id in t.discrepancies ==> DiscrepancyOk(t, id))
  }

  /** More rows, none changed. */
  ghost predicate Grows(t: Tables, t': Tables) {
    && (forall id :: id in t.artifacts ==> id in t'.artifacts && t'.artifacts[id] == t.artifacts[id])
    && t.versions <= t'.versions
    && (forall id :: id in t.operations ==> id in t'.operations && t'.operations[id] == t.operations[id])
    && (forall id :: id in t.lineage ==> id in t'.lineage && t'.lineage[id] == t.lineage[id])
    && (forall id :: id in t.discrepancies ==> id in t'.discrepancies && t'.discrepancies[id] == t.discrepancies[id])
  }

  lemma VersionCarriesOver(g: Digests, t: Tables, t': Tables, v: Version)
    requires Grows(t, t') && VersionOk(g, t, v) && VersionLinked(t, v)
    ensures VersionOk(g, t', v) && VersionLinked(t', v)
  {
    if v.ancestry.Some? {
      var p :| p in t.versions && IsParent(p, v);
      assert p in t'.versions;
    }
  }

  lemma OperationCarriesOver(t: Tables, t': Tables, id: string)
    requires Grows(t, t') && id in t.operations && OperationOk(t, id)
    ensures OperationOk(t', id)
  {
    if t.operations[id].Accepted? {
      var v :| v in t.versions && v.id == t.operations[id].version && v.operation == id;
      assert v in t'.versions;
    }
  }

  /** Enough to check the rows that are new. */
  lemma NewRowsSuffice(g: Digests, t: Tables, t': Tables)
    requires CoreValid(g, t) && Grows(t, t') && Keyed(t'.versions)
    requires forall v :: v in t'.versions && v !in t.versions ==> VersionOk(g, t', v) && VersionLinked(t', v)
    requires forall id :: id in t'.operations && id !in t.operations ==> OperationOk(t', id)
    requires forall id :: id in t'.lineage && id !in t.lineage ==> EdgeOk(t', id)
    requires forall id :: id in t'.discrepancies && id !in t.discrepancies ==> DiscrepancyOk(t', id)
    ensures CoreValid(g, t')
  {
    hide VersionOk, VersionLinked, OperationOk;
    forall v | v in t'.versions ensures VersionOk(g, t', v) && VersionLinked(t', v) {
      if v in t.versions { VersionCarriesOver(g, t, t', v); }
    }
    forall id | id in t'.operations ensures OperationOk(t', id) {
      if id in t.operations { OperationCarriesOver(t, t', id); }
    }
    forall id | id in t.lineage ensures EdgeOk(t', id) { assert EdgeOk(t, id); }
    forall id | id in t.discrepancies ensures DiscrepancyOk(t', id) { assert DiscrepancyOk(t, id); }
  }

  lemma RejectGrows(g: Digests, t: Tables, r: Request, e: Answers, reason: string, code: Code, fp: string)
    ensures var t' := Reject(g, t, r, e, reason, code, fp).0; Grows(t, t') && t'.versions == t.versions
  {
  }

  lemma RejectKeepsCore(g: Digests, t: Tables, r: Request, e: Answers, reason: string, code: Code, fp: string)
    requires CoreValid(g, t)
    ensures CoreValid(g, Reject(g, t, r, e, reason, code, fp).0)
  {
    RejectGrows(g, t, r, e, reason, code, fp);
    assert r.operation in t.discrepancies ==> DiscrepancyOk(t, r.operation);
    hide VersionOk, VersionLinked, Latest, CoreValid;
    NewRowsSuffice(g, t, Reject(g, t, r, e, reason, code, fp).0);
  }

  /** The version fits into the store. */
  ghost predicate Fits(g: Digests, t: Tables, v: Version) {
    && v.hash == g.content(v.canonical)
    && (v.artifact in t.artifacts ==> t.artifacts[v.artifact] == Artifact(v.actor, v.source))
    && (v.ancestry.Some? ==> exists p :: p in t.versions && IsParent(p, v))
    && !IdTaken(t, v) && v.operation !in t.operations
  }

  lemma AddVersionGrows(t: Tables, v: Version, fp: string)
    requires !IdTaken(t, v) && v.operation !in t.operations
    ensures Grows(t, AddVersion(t, v, fp)) && (Keyed(t.versions) ==> Keyed(AddVersion(t, v, fp).versions))
  {
    forall i | 0 <= i < |t.versions| ensures t.versions[i] in t.versions {}
  }

  lemma AddedVersionOk(g: Digests, t: Tables, v: Version, fp: string)
    requires Fits(g, t, v)
    ensures var t' := AddVersion(t, v, fp);
      VersionOk(g, t', v) && VersionLinked(t', v) && OperationOk(t', v.operation) && EdgeOk(t', v.operation)
  {
    hide IdTaken;
    var t' := AddVersion(t, v, fp);
    assert v in t'.versions;
    if v.ancestry.Some? {
      var p :| p in t.versions && IsParent(p, v);
      assert p in t'.versions;
    }
  }

  lemma AddVersionKeepsCore(g: Digests, t: Tables, v: Version, fp: string)
    requires CoreValid(g, t) && Fits(g, t, v)
    ensures CoreValid(g, AddVersion(t, v, fp)) && Grows(t, AddVersion(t, v, fp))
  {
    hide IdTaken, VersionOk, VersionLinked, OperationOk, EdgeOk, Keyed;
    AddVersionGrows(t, v, fp);
    AddedVersionOk(g, t, v, fp);
    assert Keyed(t.versions);
    hide CoreValid, Fits;
    NewRowsSuffice(g, t, AddVersion(t, v, fp));
  }

  lemma ProceedFits(g: Digests, t: Tables, r: Request, e: Answers, path: Option<string>)
    requires Judge(g, t, r, e, path).Proceed? && r.operation !in t.operations
    ensures var v := NewVersion(g, r, e, path); !IdTaken(t, v) ==> Fits(g, t, v)
  {
    hide Latest, VersionsOf, FirstPath, Undrifted, IdTaken;
    if r.ancestry.Some? {
      var p :| p in t.versions && Fathers(p, r);
      assert IsParent(p, NewVersion(g, r, e, path));
    }
  }

  lemma AcceptKeepsCore(g: Digests, t: Tables, r: Request, e: Answers, path: Option<string>)
    requires CoreValid(g, t) && r.operation !in t.operations && Judge(g, t, r, e, path).Proceed?
    ensures CoreValid(g, Accept(g, t, r, e, path).0) && Grows(t, Accept(g, t, r, e, path).0)
  {
    hide CoreValid, Judge, Fits, IdTaken, AddVersion;
    ProceedFits(g, t, r, e, path);
    var v := NewVersion(g, r, e, path);
    if !IdTaken(t, v) { AddVersionKeepsCore(g, t, v, Fingerprint(g, r, path)); }
  }

  lemma ImportKeepsCore(g: Digests, t: Tables, r: Request, e: Answers)
    requires CoreValid(g, t)
    ensures CoreValid(g, Import(g, t, r, e).0)
  {
    hide CoreValid, Reject, Accept, Judge, Lookup;
    if !(r.file.Some? && e.normal.None?) {
      var path := if r.file.Some? then e.normal else None;
      var fp := Fingerprint(g, r, path);
      RejectKeepsCore(g, t, r, e, "implicit artifact discovery is forbidden", ConflictCode, fp);
      RejectKeepsCore(g, t, r, e, "operation fingerprint conflict", ConflictCode, fp);
      var verdict := Judge(g, t, r, e, path);
      if verdict.Object? {
        RejectKeepsCore(g, t, Blamed(r, verdict), e, verdict.reason, verdict.code, fp);
      } else if r.operation !in t.operations {
        AcceptKeepsCore(g, t, r, e, path);
      }
    }
  }

  /** A store built by imports, of whatever outcome, always reopens. */
  lemma {:induction false} RunsKeepCore(g: Digests, t: Tables, calls: seq<(Request, Answers)>)
    requires CoreValid(g, t)
    ensures CoreValid(g, ImportAll(g, t, calls))
    decreases |calls|
  {
    hide CoreValid, Import;
    if calls != [] {
      ImportKeepsCore(g, t, calls[0].0, calls[0].1);
      RunsKeepCore(g, Import(g, t, calls[0].0, calls[0].1).0, calls[1..]);
    }
  }

  // The history of one artifact

  lemma {:induction false} FirstPathMore(h: seq<Version>, v: Version)
    ensures FirstPath(h + [v]) == if FirstPath(h).Some? then FirstPath(h) else v.path
    decreases |h|
  {
    if h != [] {
      assert (h + [v])[1..] == h[1..] + [v];
      FirstPathMore(h[1..], v);
    } else {
      assert FirstPath([v]) == if v.path.Some? then v.path else FirstPath([]);
    }
  }

  lemma VersionsOfMore(vs: seq<Version>, v: Version, artifact: string)
    ensures VersionsOf(vs + [v], artifact) == VersionsOf(vs, artifact) + if v.artifact == artifact then [v] else []
  {
    assert (vs + [v])[..|vs|] == vs;
  }

  /** One linear chain with one owner, one source, and one logical path or none:
    the first version has no ancestry, each later one names its predecessor. */
  ghost predicate Linear(t: Tables, artifact: string, h: seq<Version>) {
    && (h != [] ==> h[0].ancestry.None? && artifact in t.artifacts)
    && (forall i :: 1 <= i < |h| ==> h[i].ancestry == Some(h[i - 1].id))
    && (forall i :: 0 <= i < |h| ==> Artifact(h[i].actor, h[i].source) == t.artifacts[artifact])
    && (forall i :: 0 <= i < |h| ==> h[i].path == h[0].path && h[i].path.Some? == h[i].identity.Some?)
  }

  ghost predicate AllLinear(t: Tables) {
    forall artifact :: Linear(t, artifact, VersionsOf(t.versions, artifact))
  }

  lemma {:induction false} FirstPathOfUniform(h: seq<Version>)
    requires h != [] && forall i :: 0 <= i < |h| ==> h[i].path == h[0].path
    ensures FirstPath(h) == h[0].path
    decreases |h|
  {
    if h[0].path.None? && |h| > 1 {
      assert h[1].path == None;
      FirstPathOfUniform(h[1..]);
    } else if h[0].path.None? {
      assert h[1..] == [];
    }
  }

  /** What the checks let through continues the artifact's chain: in particular a
    content-only artifact never becomes file-backed, nor the reverse, whatever
    the file looks like. */
  lemma ProceedContinues(g: Digests, t: Tables, r: Request, e: Answers, path: Option<string>)
    requires Judge(g, t, r, e, path).Proceed? && Linear(t, r.Target(), VersionsOf(t.versions, r.Target()))
    ensures var h := VersionsOf(t.versions, r.Target());
      if h == [] then r.ancestry.None?
      else
        && r.ancestry == Some(h[|h| - 1].id) && path == h[0].path
        && r.Target() in t.artifacts && t.artifacts[r.Target()] == Artifact(r.actor, r.source)
  {
    hide VersionsOf;
    var h := VersionsOf(t.versions, r.Target());
    if h != [] { FirstPathOfUniform(h); }
  }

  /** The version continues the history of its artifact. */
  ghost predicate Continues(t: Tables, h: seq<Version>, v: Version) {
    && (v.artifact in t.artifacts ==> t.artifacts[v.artifact] == Artifact(v.actor, v.source))
    && v.path.Some? == v.identity.Some?
    && (if h == [] then v.ancestry.None? else v.ancestry == Some(h[|h| - 1].id) && v.path == h[0].path)
  }

  lemma LinearExtends(t: Tables, v: Version, fp: string, h: seq<Version>)
    requires Linear(t, v.artifact, h) && Continues(t, h, v)
    ensures Linear(AddVersion(t, v, fp), v.artifact, h + [v])
  {
    var t', h' := AddVersion(t, v, fp), h + [v];
    assert t'.artifacts[v.artifact] == Artifact(v.actor, v.source);
    assert h' != [] && h'[0].ancestry.None?;
    forall i | 0 <= i < |h'| ensures Artifact(h'[i].actor, h'[i].source) == t'.artifacts[v.artifact] {
      if i < |h| { assert h'[i] == h[i]; }
    }
    forall i | 0 <= i < |h'| ensures h'[i].path == h'[0].path && h'[i].path.Some? == h'[i].identity.Some? {
      if i < |h| { assert h'[i] == h[i]; }
    }
  }

  lemma LinearElsewhere(t: Tables, v: Version, fp: string, artifact: string, h: seq<Version>)
    requires Linear(t, artifact, h)
    ensures Linear(AddVersion(t, v, fp), artifact, h)
  {
  }

  lemma AddVersionKeepsLinear(t: Tables, v: Version, fp: string)
    requires AllLinear(t) && Continues(t, VersionsOf(t.versions, v.artifact), v)
    ensures AllLinear(AddVersion(t, v, fp))
  {
    hide Continues, VersionsOf, Linear;
    var t' := AddVersion(t, v, fp);
    forall artifact ensures Linear(t', artifact, VersionsOf(t'.versions, artifact)) {
      var h := VersionsOf(t.versions, artifact);
      assert Linear(t, artifact, h) && h + [] == h;
      VersionsOfMore(t.versions, v, artifact);
      LinearElsewhere(t, v, fp, artifact, h);
      if artifact == v.artifact { LinearExtends(t, v, fp, h); }
    }
  }

  lemma AcceptKeepsLinear(g: Digests, t: Tables, r: Request, e: Answers, path: Option<string>)
    requires AllLinear(t) && Judge(g, t, r, e, path).Proceed?
    ensures AllLinear(Accept(g, t, r, e, path).0)
  {
    var v := NewVersion(g, r, e, path);
    ProceedContinues(g, t, r, e, path);
    NewIdentity(g, t, r, e, path);
    if r.Target() in t.artifacts { ProceedOwns(g, t, r, e, path); }
    hide Judge, IdTaken, Lookup, VersionsOf, Linear, AllLinear, AddVersion;
    AddVersionKeepsLinear(t, v, Fingerprint(g, r, path));
  }

  lemma ProceedOwns(g: Digests, t: Tables, r: Request, e: Answers, path: Option<string>)
    requires Judge(g, t, r, e, path).Proceed? && r.Target() in t.artifacts
    ensures t.artifacts[r.Target()] == Artifact(r.actor, r.source)
  {
    hide VersionsOf, Latest, FirstPath, Undrifted;
  }

  lemma NewIdentity(g: Digests, t: Tables, r: Request, e: Answers, path: Option<string>)
    requires Judge(g, t, r, e, path).Proceed?
    ensures path.Some? == NewVersion(g, r, e, path).identity.Some?
  {
    hide VersionsOf, Latest, FirstPath, Undrifted;
  }

  lemma ImportKeepsLinear(g: Digests, t: Tables, r: Request, e: Answers)
    requires AllLinear(t)
    ensures AllLinear(Import(g, t, r, e).0)
  {
    hide AllLinear, Reject, Judge, Accept, Lookup;
    if !(r.file.Some? && e.normal.None?) {
      var path := if r.file.Some? then e.normal else None;
      var t' := Import(g, t, r, e).0;
      var verdict := Judge(g, t, r, e, path);
      if verdict.Proceed? { AcceptKeepsLinear(g, t, r, e, path); }
      if verdict.Object? {
        RejectKeepsLinear(g, t, Blamed(r, verdict), e, verdict.reason, verdict.code, Fingerprint(g, r, path));
      }
      RejectKeepsLinear(g, t, r, e, "implicit artifact discovery is forbidden", ConflictCode, Fingerprint(g, r, path));
      RejectKeepsLinear(g, t, r, e, "operation fingerprint conflict", ConflictCode, Fingerprint(g, r, path));
    }
  }

  lemma RejectKeepsLinear(g: Digests, t: Tables, r: Request, e: Answers, reason: string, code: Code, fp: string)
    requires AllLinear(t)
    ensures AllLinear(Reject(g, t, r, e, reason, code, fp).0)
  {
    hide Latest, VersionsOf;
    var t' := Reject(g, t, r, e, reason, code, fp).0;
    forall artifact ensures Linear(t', artifact, VersionsOf(t'.versions, artifact)) {
      assert Linear(t, artifact, VersionsOf(t.versions, artifact));
    }
  }

  lemma {:induction false} RunsStayLinear(g: Digests, t: Tables, calls: seq<(Request, Answers)>)
    requires AllLinear(t)
    ensures AllLinear(ImportAll(g, t, calls))
    decreases |calls|
  {
    hide AllLinear, Import;
    if calls != [] {
      ImportKeepsLinear(g, t, calls[0].0, calls[0].1);
      RunsStayLinear(g, Import(g, t, calls[0].0, calls[0].1).0, calls[1..]);
    }
  }

  /** From a fresh store every run builds linear, uniformly bound chains, in a
    store that reopens. */
  lemma FreshRuns(g: Digests, calls: seq<(Request, Answers)>, artifact: string)
    ensures var t := ImportAll(g, FRESH, calls);
      CoreValid(g, t) && Linear(t, artifact, VersionsOf(t.versions, artifact))
  {
    RunsKeepCore(g, FRESH, calls);
    RunsStayLinear(g, FRESH, calls);
  }

  // Retries

  /** The request carries the fingerprint its operation is recorded with. */
  predicate SameRequest(g: Digests, t: Tables, r: Request, e: Answers) {
    && r.operation in t.operations
    && (var known := t.operations[r.operation].fingerprint;
        || known == Fingerprint(g, r, if r.file.Some? then e.normal else None)
        || (r.file.None? && known == Parts(g, r)))
  }

  /** A retry of an accepted operation finds its version and changes nothing. */
  lemma AcceptedRetry(g: Digests, t: Tables, r: Request, e: Answers)
    requires CoreValid(g, t) && SameRequest(g, t, r, e) && t.operations[r.operation].Accepted?
    requires r.file.Some? ==> e.normal.Some?
    requires !r.Implicit()
    ensures Import(g, t, r, e) == (t, Lookup(t, t.operations[r.operation].version))
    ensures Import(g, t, r, e).1.Done? && Import(g, t, r, e).1.info.version == t.operations[r.operation].version
  {
    assert OperationOk(t, r.operation);
    var v :| v in t.versions && v.id == t.operations[r.operation].version && v.operation == r.operation;
    hide CoreValid, Reject;
  }

  /** Retries are idempotent exactly for requests that name their artifact or have
    no file: a request that leaves the artifact of its file open carries the
    same fingerprint, but is refused before the operation is looked up. */
  lemma RetryIdempotentExactly(g: Digests, t: Tables, r: Request, e: Answers)
    requires CoreValid(g, t) && SameRequest(g, t, r, e) && t.operations[r.operation].Accepted?
    requires r.file.Some? ==> e.normal.Some?
    ensures Import(g, t, r, e) == (t, Lookup(t, t.operations[r.operation].version)) <==> !r.Implicit()
  {
    if !r.Implicit() {
      AcceptedRetry(g, t, r, e);
    } else {
      AcceptedRetry(g, t, r.(artifact := Some(r.source)), e);
      hide CoreValid;
    }
  }

  const WITH_FILE := Request("o", "a", "s", "x", Some("p"), None, None, Some("s"), None)

  function FileSeen(g: Digests): Answers {
    var seen := Some(("i", g.content("x")));
    Answers(Some("p"), None, seen, seen, None, false)
  }

  /** A file imported under the name of its source, and the same request with the
    artifact left open: the same fingerprint, and a conflict. */
  lemma ImplicitRetryIsRefused(g: Digests)
    ensures var (t, reply) := Import(g, FRESH, WITH_FILE, FileSeen(g));
      var again := WITH_FILE.(artifact := None);
      && reply.Done? && SameRequest(g, t, again, FileSeen(g)) && t.operations["o"].Accepted?
      && Import(g, t, again, FileSeen(g)).1 == Failed(Conflict)
  {
    hide Judge;
    var e := FileSeen(g);
    FreshFileProceeds(g);
    assert !IdTaken(FRESH, NewVersion(g, WITH_FILE, e, Some("p")));
  }

  lemma FreshFileProceeds(g: Digests)
    ensures Judge(g, FRESH, WITH_FILE, FileSeen(g), Some("p")).Proceed?
  {
  }

  /** An operation reused for another request is a conflict: no version is added,
    no recorded operation changes, and at most one discrepancy is added. */
  lemma ReusedOperation(g: Digests, t: Tables, r: Request, e: Answers)
    requires r.operation in t.operations && !SameRequest(g, t, r, e) && !e.fails
    ensures var (t', reply) := Import(g, t, r, e);
      && reply == Failed(Conflict)
      && t'.versions == t.versions && t'.operations == t.operations && t'.lineage == t.lineage
      && t'.artifacts == t.artifacts
      && t'.discrepancies.Keys <= t.discrepancies.Keys + {r.operation}
      && (forall id :: id in t.discrepancies ==> t'.discrepancies[id] == t.discrepancies[id])
  {
    hide Latest;
  }

  /** Every answer but a success leaves the versions alone; a success adds at most one. */
  lemma OneVersionPerSuccess(g: Digests, t: Tables, r: Request, e: Answers)
    ensures var (t', reply) := Import(g, t, r, e);
      || t'.versions == t.versions
      || (reply.Done? && r.operation !in t.operations && exists v :: t'.versions == t.versions + [v])
  {
    hide Judge, Latest, IdTaken, NewVersion, Fingerprint, Parts;
    if Import(g, t, r, e).0.versions != t.versions {
      var path := if r.file.Some? then e.normal else None;
      var v := NewVersion(g, r, e, path);
      assert Import(g, t, r, e).0.versions == t.versions + [v];
      assert v in t.versions + [v];
    }
  }

  lemma ImportGrows(g: Digests, t: Tables, r: Request, e: Answers)
    requires CoreValid(g, t)
    ensures Grows(t, Import(g, t, r, e).0)
  {
    hide CoreValid, Reject, Accept, Judge, Lookup, Grows;
    GrowsItself(t);
    if !(r.file.Some? && e.normal.None?) {
      var path := if r.file.Some? then e.normal else None;
      var fp := Fingerprint(g, r, path);
      RejectGrows(g, t, r, e, "implicit artifact discovery is forbidden", ConflictCode, fp);
      RejectGrows(g, t, r, e, "operation fingerprint conflict", ConflictCode, fp);
      var verdict := Judge(g, t, r, e, path);
      if verdict.Object? {
        RejectGrows(g, t, Blamed(r, verdict), e, verdict.reason, verdict.code, fp);
      } else if r.operation !in t.operations {
        AcceptKeepsCore(g, t, r, e, path);
      }
    }
  }

  lemma GrowsItself(t: Tables)
    ensures Grows(t, t)
  {
  }

  lemma {:induction false} RunsGrow(g: Digests, t: Tables, calls: seq<(Request, Answers)>)
    requires CoreValid(g, t)
    ensures Grows(t, ImportAll(g, t, calls))
    decreases |calls|
  {
    if calls != [] {
      var u := Import(g, t, calls[0].0, calls[0].1).0;
      ImportGrows(g, t, calls[0].0, calls[0].1);
      ImportKeepsCore(g, t, calls[0].0, calls[0].1);
      RunsGrow(g, u, calls[1..]);
    }
  }

  /** A recorded rejection is repeated with its original class, after any further imports. */
  lemma RejectedForever(g: Digests, t: Tables, r: Request, e: Answers, calls: seq<(Request, Answers)>, e': Answers)
    requires CoreValid(g, t) && SameRequest(g, t, r, e) && t.operations[r.operation].Rejected? && !r.Implicit()
    requires r.file.Some? ==> e.normal.Some? && e'.normal == e.normal
    ensures var u := ImportAll(g, t, calls); Import(g, u, r, e') == (u, Failed(ErrorOf(t.operations[r.operation].code)))
  {
    hide CoreValid, Reject, ImportAll, Judge, Accept;
    RunsGrow(g, t, calls);
  }

  lemma VersionIsUnique(vs: seq<Version>, v: Version, w: Version)
    requires Keyed(vs) && v in vs && w in vs && v.id == w.id
    ensures v == w
  {
    var i :| 0 <= i < |vs| && vs[i] == v;
    var j :| 0 <= j < |vs| && vs[j] == w;
  }

  /** An accepted version is what the operation returns in every later state,
    after any further imports: idempotent, and immutable. */
  lemma AcceptedForever(g: Digests, t: Tables, r: Request, e: Answers, calls: seq<(Request, Answers)>, e': Answers)
    requires CoreValid(g, t) && SameRequest(g, t, r, e) && t.operations[r.operation].Accepted? && !r.Implicit()
    requires r.file.Some? ==> e.normal.Some? && e'.normal == e.normal
    ensures var u := ImportAll(g, t, calls); Import(g, u, r, e') == (u, Import(g, t, r, e).1)
  {
    hide Import, ImportAll;
    var u := ImportAll(g, t, calls);
    RunsKeepCore(g, t, calls);
    RunsGrow(g, t, calls);
    AcceptedRetry(g, t, r, e);
    AcceptedRetry(g, u, r, e');
    var id := t.operations[r.operation].version;
    var v, w := VersionById(t.versions, id).value, VersionById(u.versions, id).value;
    assert v in u.versions;
    VersionIsUnique(u.versions, v, w);
  }
}
