/** When an import is accepted, what it stores and returns, and what a refusal
  records, stated of the request, the rows and the file alone. */
module LineageImports {
  import opened Options
  import opened Lineage

  // What there is of an artifact

  predicate IsOf(v: Version, artifact: string) { v.artifact == artifact }

  ghost predicate HasVersions(t: Tables, artifact: string) { exists v :: v in t.versions && v.artifact == artifact }

  /** The version of an artifact after which there is no other. */
  ghost predicate IsLatest(vs: seq<Version>, artifact: string, v: Version) {
    exists i :: IsLatestAt(vs, artifact, v, i)
  }

  ghost predicate IsLatestAt(vs: seq<Version>, artifact: string, v: Version, i: int) {
    && 0 <= i < |vs| && vs[i] == v && v.artifact == artifact
    && forall j :: i < j < |vs| ==> vs[j].artifact != artifact
  }

  /** The first version of an artifact that has a path has this one. */
  ghost predicate IsBound(vs: seq<Version>, artifact: string, path: string) {
    exists i :: IsBoundAt(vs, artifact, path, i)
  }

  ghost predicate IsBoundAt(vs: seq<Version>, artifact: string, path: string, i: int) {
    && 0 <= i < |vs| && vs[i].artifact == artifact && vs[i].path == Some(path)
    && forall j :: 0 <= j < i && vs[j].artifact == artifact ==> vs[j].path.None?
  }

  ghost predicate Unbound(vs: seq<Version>, artifact: string) {
    forall v :: v in vs && v.artifact == artifact ==> v.path.None?
  }

  lemma LatestMore(vs: seq<Version>, v: Version, artifact: string)
    ensures Latest(vs + [v], artifact) == if v.artifact == artifact then Some(v) else Latest(vs, artifact)
  {
    hide VersionsOf;
    VersionsOfMore(vs, v, artifact);
    assert VersionsOf(vs, artifact) + [] == VersionsOf(vs, artifact);
  }

  lemma IsLatestMore(vs: seq<Version>, v: Version, artifact: string, w: Version)
    ensures IsLatest(vs + [v], artifact, w) <==> if v.artifact == artifact then w == v else IsLatest(vs, artifact, w)
  {
    var more := vs + [v];
    if v.artifact == artifact && w == v { assert IsLatestAt(more, artifact, v, |vs|); }
    if v.artifact != artifact {
      if i :| IsLatestAt(vs, artifact, w, i) { assert IsLatestAt(more, artifact, w, i); }
      if i :| IsLatestAt(more, artifact, w, i) {
        assert i < |vs|;
        forall j | i < j < |vs| ensures vs[j].artifact != artifact { assert more[j] == vs[j]; }
        assert IsLatestAt(vs, artifact, w, i);
      }
    }
    if i :| IsLatestAt(more, artifact, w, i) { assert v.artifact == artifact ==> more[|vs|] == v; }
  }

  lemma {:induction false} LatestExactly(vs: seq<Version>, artifact: string)
    ensures Latest(vs, artifact).None? <==> forall v :: v in vs ==> v.artifact != artifact
    ensures forall v :: Latest(vs, artifact) == Some(v) <==> IsLatest(vs, artifact, v)
    decreases |vs|
  {
    hide Latest, IsLatest;
    if vs == [] {
      NoneLatest(artifact);
    } else {
      var rest, last := vs[..|vs| - 1], vs[|vs| - 1];
      assert vs == rest + [last];
      LatestExactly(rest, artifact);
      LatestMore(rest, last, artifact);
      forall v ensures Latest(vs, artifact) == Some(v) <==> IsLatest(vs, artifact, v) {
        IsLatestMore(rest, last, artifact, v);
      }
    }
  }

  lemma NoneLatest(artifact: string)
    ensures Latest([], artifact).None? && forall v :: !IsLatest([], artifact, v)
  {
  }

  lemma BoundMore(vs: seq<Version>, v: Version, artifact: string, path: string)
    ensures IsBound(vs + [v], artifact, path) <==>
      IsBound(vs, artifact, path) || (Unbound(vs, artifact) && v.artifact == artifact && v.path == Some(path))
  {
    var more := vs + [v];
    if i :| IsBoundAt(vs, artifact, path, i) { assert IsBoundAt(more, artifact, path, i); }
    if i :| IsBoundAt(more, artifact, path, i) {
      if i < |vs| {
        forall j | 0 <= j < i && vs[j].artifact == artifact ensures vs[j].path.None? { assert more[j] == vs[j]; }
        assert IsBoundAt(vs, artifact, path, i);
      } else {
        forall w | w in vs && w.artifact == artifact ensures w.path.None? {
          var j :| 0 <= j < |vs| && vs[j] == w;
          assert more[j] == w;
        }
      }
    }
    if Unbound(vs, artifact) && v.artifact == artifact && v.path == Some(path) {
      assert IsBoundAt(more, artifact, path, |vs|);
    }
  }

  lemma {:induction false} BoundExactly(vs: seq<Version>, artifact: string)
    ensures FirstPath(VersionsOf(vs, artifact)).None? <==> Unbound(vs, artifact)
    ensures forall p :: FirstPath(VersionsOf(vs, artifact)) == Some(p) <==> IsBound(vs, artifact, p)
    decreases |vs|
  {
    hide VersionsOf, FirstPath, Unbound, IsBound;
    if vs == [] {
      NoneBound(artifact);
    } else {
      var rest, last := vs[..|vs| - 1], vs[|vs| - 1];
      var h := VersionsOf(rest, artifact);
      assert vs == rest + [last] && h + [] == h;
      BoundExactly(rest, artifact);
      VersionsOfMore(rest, last, artifact);
      FirstPathMore(h, last);
      UnboundMore(rest, last, artifact);
      forall p ensures FirstPath(VersionsOf(vs, artifact)) == Some(p) <==> IsBound(vs, artifact, p) {
        BoundMore(rest, last, artifact, p);
      }
    }
  }

  lemma NoneBound(artifact: string)
    ensures FirstPath(VersionsOf([], artifact)).None? && Unbound([], artifact)
    ensures forall p :: !IsBound([], artifact, p)
  {
  }

  lemma UnboundMore(vs: seq<Version>, v: Version, artifact: string)
    ensures Unbound(vs + [v], artifact) <==> Unbound(vs, artifact) && (v.artifact == artifact ==> v.path.None?)
  {
    assert v in vs + [v];
  }

  // The grounds on which a request is refused

  function PathOf(r: Request, e: Answers): Option<string> { if r.file.Some? then e.normal else None }

  predicate OwnerAgrees(t: Tables, r: Request) {
    r.Target() in t.artifacts ==> t.artifacts[r.Target()].owner == r.actor && t.artifacts[r.Target()].source == r.source
  }

  /** The file of the latest version is the one that was recorded with it, and holds what it held. */
  ghost predicate FileIsDurable(t: Tables, r: Request, e: Answers) {
    forall v :: IsLatest(t.versions, r.Target(), v) ==>
      v.identity.Some? && e.durable == Some((v.identity.value, v.hash))
  }

  /** The request names the latest version as its parent, or none where there is none. */
  ghost predicate ParentIsLatest(t: Tables, r: Request) {
    match r.ancestry
    case None => !HasVersions(t, r.Target())
    case Some(id) => exists v :: IsLatest(t.versions, r.Target(), v) && v.id == id
  }

  ghost predicate ParentFits(t: Tables, r: Request) {
    r.ancestry.Some? ==>
      exists v :: v in t.versions && v.id == r.ancestry.value && v.artifact == r.Target() && v.actor == r.actor
                  && v.source == r.source
  }

  predicate HashAgrees(g: Digests, r: Request) { r.expectedHash.Some? ==> r.expectedHash.value == g.content(r.content) }

  predicate FileIsSeen(r: Request, e: Answers) {
    e.before.Some? && (r.expectedIdentity.Some? ==> r.expectedIdentity.value == e.before.value.0)
  }

  datatype Ground = Owner | Filed | Elsewhere | Drifted | Superseded | Orphan | Mishashed | Unseen | Altered

  /** The first ground on which a request with this path is refused. */
  ghost function GroundOf(g: Digests, t: Tables, r: Request, e: Answers, path: Option<string>): Option<Ground> {
    if !OwnerAgrees(t, r) then Some(Owner)
    else if path.None? && !Unbound(t.versions, r.Target()) then Some(Filed)
    else if path.Some? && !Unbound(t.versions, r.Target()) && !IsBound(t.versions, r.Target(), path.value) then
      Some(Elsewhere)
    else if path.Some? && !FileIsDurable(t, r, e) then Some(Drifted)
    else if !ParentIsLatest(t, r) then Some(Superseded)
    else if !ParentFits(t, r) then Some(Orphan)
    else if !HashAgrees(g, r) then Some(Mishashed)
    else if path.Some? && !FileIsSeen(r, e) then Some(Unseen)
    else if path.Some? && e.before.value.1 != g.content(r.content) then Some(Altered)
    else None
  }

  function ReasonFor(ground: Ground): string {
    match ground
    case Owner => "artifact owner/source conflict"
    case Filed => "file binding conflict"
    case Elsewhere => "logical path conflict"
    case Drifted => "durable file identity drift"
    case Superseded => "lineage conflict"
    case Orphan => "invalid version ancestry"
    case Mishashed => "expected hash mismatch"
    case Unseen => "file observation failed"
    case Altered => "file content drift"
  }

  predicate IsDrift(ground: Ground) { ground in {Drifted, Mishashed, Unseen, Altered} }

  lemma DurableExactly(v: Version, e: Answers)
    ensures Undrifted(v, e) <==> v.identity.Some? && e.durable == Some((v.identity.value, v.hash))
  {
  }

  lemma LatestIsUnique(vs: seq<Version>, artifact: string, v: Version)
    requires Latest(vs, artifact) == Some(v)
    ensures IsLatest(vs, artifact, v) && forall w :: IsLatest(vs, artifact, w) ==> w == v
  {
    hide Latest, IsLatest;
    LatestExactly(vs, artifact);
  }

  lemma NoLatest(t: Tables, artifact: string)
    ensures Latest(t.versions, artifact).None? <==> !HasVersions(t, artifact)
    ensures Latest(t.versions, artifact).None? ==> forall w :: !IsLatest(t.versions, artifact, w)
  {
    hide Latest, IsLatest;
    LatestExactly(t.versions, artifact);
  }

  lemma HistoryGrounds(g: Digests, t: Tables, r: Request, e: Answers)
    ensures var latest := Latest(t.versions, r.Target());
      && (FileIsDurable(t, r, e) <==> (latest.Some? ==> Undrifted(latest.value, e)))
      && (ParentIsLatest(t, r) <==> (if latest.Some? then Some(latest.value.id) else None) == r.ancestry)
      && (ParentFits(t, r) <==> (r.ancestry.Some? ==> exists v :: v in t.versions && Fathers(v, r)))
  {
    hide Latest, IsLatest, Undrifted, HasVersions;
    var latest := Latest(t.versions, r.Target());
    NoLatest(t, r.Target());
    if latest.Some? {
      LatestIsUnique(t.versions, r.Target(), latest.value);
      DurableExactly(latest.value, e);
    }
    if v :| v in t.versions && Fathers(v, r) {
      assert v.id == r.ancestry.value;
    }
    if r.ancestry.Some? {
      if v :| v in t.versions && v.id == r.ancestry.value && v.artifact == r.Target() && v.actor == r.actor
              && v.source == r.source
      {
        assert Fathers(v, r);
      }
    }
  }

  /** The checks refuse a request on the first ground there is, and let it through if there is none. */
  lemma JudgedByGround(g: Digests, t: Tables, r: Request, e: Answers, path: Option<string>)
    ensures var verdict, ground := Judge(g, t, r, e, path), GroundOf(g, t, r, e, path);
      if ground.None? then verdict.Proceed?
      else
        && verdict.Object? && verdict.reason == ReasonFor(ground.value)
        && verdict.code == (if IsDrift(ground.value) then DriftCode else ConflictCode)
        && verdict.expected == if ground == Some(Drifted) then Latest(t.versions, r.Target()) else None
  {
    hide Latest, VersionsOf, FirstPath, FileIsDurable, ParentIsLatest, ParentFits, Undrifted, Fathers, IsBound, Unbound;
    hide ContentObjection, HashAgrees, FileIsSeen;
    ContentGrounds(g, r, e, path);
    HistoryGrounds(g, t, r, e);
    BoundExactly(t.versions, r.Target());
    NoLatestIsUnbound(t.versions, r.Target());
  }

  lemma ContentGrounds(g: Digests, r: Request, e: Answers, path: Option<string>)
    ensures ContentObjection(g, r, e, path) ==
      if !HashAgrees(g, r) then Some(ReasonFor(Mishashed))
      else if path.Some? && !FileIsSeen(r, e) then Some(ReasonFor(Unseen))
      else if path.Some? && e.before.value.1 != g.content(r.content) then Some(ReasonFor(Altered))
      else None
  {
  }

  lemma NoLatestIsUnbound(vs: seq<Version>, artifact: string)
    ensures Latest(vs, artifact).None? ==> Unbound(vs, artifact)
  {
    hide Latest, IsLatest;
    LatestExactly(vs, artifact);
  }

  // What is accepted

  function NewId(g: Digests, r: Request): string {
    g.version(r.Target(), g.content(r.content), r.operation, r.actor, r.source)
  }

  /** No row has one of the keys that the new version needs. */
  ghost predicate KeysAreFree(g: Digests, t: Tables, r: Request) {
    && (forall v :: v in t.versions ==> v.id != NewId(g, r) && v.operation != r.operation)
    && r.operation !in t.lineage
  }

  /** The request may be looked at: a file comes with the name of its artifact, in a
    directory that there is. */
  predicate Addressable(r: Request, e: Answers) { r.file.Some? ==> r.artifact.Some? && e.normal.Some? }

  lemma KeysExactly(g: Digests, t: Tables, r: Request, e: Answers, path: Option<string>)
    ensures KeysAreFree(g, t, r) <==> !IdTaken(t, NewVersion(g, r, e, path))
  {
  }

  /** Nothing stands against a request with a new operation: the database works, there
    is no ground to refuse it, its keys are free, and its file is still the same
    after the version is written. */
  ghost predicate MayImport(g: Digests, t: Tables, r: Request, e: Answers) {
    && Addressable(r, e) && !e.fails && GroundOf(g, t, r, e, PathOf(r, e)).None? && KeysAreFree(g, t, r)
    && (r.file.Some? ==> e.after == e.before)
  }

  lemma AcceptedExactly(g: Digests, t: Tables, r: Request, e: Answers)
    requires r.operation !in t.operations
    ensures Import(g, t, r, e).1.Done? <==> MayImport(g, t, r, e)
  {
    hide Judge, GroundOf, IdTaken, KeysAreFree, NewVersion, Lookup;
    var path := PathOf(r, e);
    JudgedByGround(g, t, r, e, path);
    KeysExactly(g, t, r, e, path);
    if GroundOf(g, t, r, e, path).None? && path.Some? { SeenTwice(g, t, r, e, path); }
    if !IdTaken(t, NewVersion(g, r, e, path)) {
      AddedIsFound(g, t, r, e, path);
    }
  }

  lemma SeenTwice(g: Digests, t: Tables, r: Request, e: Answers, path: Option<string>)
    requires GroundOf(g, t, r, e, path).None? && path.Some?
    ensures e.before.Some? && e.before.value.1 == g.content(r.content)
    ensures Observe(e.before, r.expectedIdentity) == e.before
    ensures NewVersion(g, r, e, path).identity == Some(e.before.value.0)
    ensures Observe(e.after, NewVersion(g, r, e, path).identity) == e.before <==> e.after == e.before
  {
    hide FileIsDurable, ParentIsLatest, ParentFits, IsBound, Unbound;
  }

  /** The row of an accepted request. */
  predicate IsStored(g: Digests, r: Request, e: Answers, v: Version) {
    && v.canonical == r.content && v.hash == g.content(r.content)
    && v.artifact == r.Target() && v.operation == r.operation && v.actor == r.actor && v.source == r.source
    && v.ancestry == r.ancestry && v.expectedHash == r.expectedHash && v.origin == Native
    && v.id == g.version(r.Target(), g.content(r.content), r.operation, r.actor, r.source)
    && (if r.file.Some? then v.path == e.normal && e.before.Some? && v.identity == Some(e.before.value.0)
        else v.path.None? && v.identity.None?)
  }

  lemma {:induction false} LastIsFound(vs: seq<Version>, v: Version)
    requires forall w :: w in vs ==> w.id != v.id
    ensures VersionById(vs + [v], v.id) == Some(v)
    decreases |vs|
  {
    if vs == [] {
      assert [] + [v] == [v];
    } else {
      assert (vs + [v])[1..] == vs[1..] + [v];
      LastIsFound(vs[1..], v);
    }
  }

  lemma AddedIsFound(g: Digests, t: Tables, r: Request, e: Answers, path: Option<string>)
    requires !IdTaken(t, NewVersion(g, r, e, path))
    ensures var v := NewVersion(g, r, e, path);
      forall fp :: Lookup(AddVersion(t, v, fp), v.id) == Done(Info(v.artifact, v.id, v.hash, v.canonical, v.ancestry))
  {
    LastIsFound(t.versions, NewVersion(g, r, e, path));
  }

  lemma AddedByImport(g: Digests, t: Tables, r: Request, e: Answers)
    requires r.operation !in t.operations && Import(g, t, r, e).1.Done?
    ensures var path := PathOf(r, e);
      var v := NewVersion(g, r, e, path);
      && !IdTaken(t, v)
      && Import(g, t, r, e).0 == AddVersion(t, v, Fingerprint(g, r, path))
      && Import(g, t, r, e).1 == Lookup(Import(g, t, r, e).0, v.id)
  {
    hide Judge, IdTaken, Lookup, Fingerprint, NewVersion, AddVersion;
  }

  /** What identifies a request: its parts, and its path if it has one. */
  function PrintOf(g: Digests, r: Request, path: Option<string>): string {
    g.withPath(g.parts(r.actor, r.source, r.Target(), g.content(r.content), r.ancestry), path)
  }

  lemma PrintIsFingerprint(g: Digests, r: Request, path: Option<string>)
    ensures Fingerprint(g, r, path) == PrintOf(g, r, path)
    ensures Parts(g, r) == g.parts(r.actor, r.source, r.Target(), g.content(r.content), r.ancestry)
  {
  }

  /** One version more, with the content that was given and that content's digest, and
    every other field of the request; the answer repeats it; nothing else changes. */
  ghost predicate Stores(g: Digests, t: Tables, r: Request, e: Answers, t': Tables, info: Info) {
    && |t'.versions| == |t.versions| + 1 && t.versions <= t'.versions
    && var v := t'.versions[|t.versions|];
       && IsStored(g, r, e, v)
       && info == Info(r.Target(), v.id, g.content(r.content), r.content, r.ancestry)
       && t'.operations == t.operations[r.operation := Accepted(PrintOf(g, r, PathOf(r, e)), v.id, r.ancestry)]
       && t'.lineage == t.lineage[r.operation := Edge(v.id, r.ancestry)]
       && t'.artifacts == (if r.Target() in t.artifacts then t.artifacts
                           else t.artifacts[r.Target() := Artifact(r.actor, r.source)])
       && t'.discrepancies == t.discrepancies
  }

  lemma ImportStores(g: Digests, t: Tables, r: Request, e: Answers)
    requires r.operation !in t.operations && Import(g, t, r, e).1.Done?
    ensures Stores(g, t, r, e, Import(g, t, r, e).0, Import(g, t, r, e).1.info)
  {
    hide Import, GroundOf, IdTaken, Lookup, Fingerprint, KeysAreFree;
    var path := PathOf(r, e);
    AcceptedExactly(g, t, r, e);
    AddedByImport(g, t, r, e);
    PrintIsFingerprint(g, r, path);
    if path.Some? { SeenTwice(g, t, r, e, path); }
    AddedIsFound(g, t, r, e, path);
  }

  /** A request with a new operation is accepted exactly when nothing stands against it,
    and then it is stored as it was given. */
  lemma ImportExactly(g: Digests, t: Tables, r: Request, e: Answers)
    requires r.operation !in t.operations
    ensures var (t', reply) := Import(g, t, r, e);
      && (reply.Done? <==> MayImport(g, t, r, e))
      && (reply.Done? ==> Stores(g, t, r, e, t', reply.info))
  {
    hide Import, MayImport, Stores;
    AcceptedExactly(g, t, r, e);
    if Import(g, t, r, e).1.Done? { ImportStores(g, t, r, e); }
  }

  /** An accepted content stays what it is: the same request is answered with it
    after any further imports. */
  lemma ContentIsForever(
      g: Digests, t: Tables, r: Request, e: Answers, calls: seq<(Request, Answers)>, e': Answers)
    requires CoreValid(g, t) && r.operation !in t.operations && Import(g, t, r, e).1.Done?
    requires r.file.Some? ==> e'.normal == e.normal
    ensures var u := ImportAll(g, Import(g, t, r, e).0, calls);
      Import(g, u, r, e') == (u, Done(Info(r.Target(), NewId(g, r), g.content(r.content), r.content, r.ancestry)))
  {
    hide CoreValid, Import, ImportAll, GroundOf, KeysAreFree;
    ImportStores(g, t, r, e);
    AcceptedExactly(g, t, r, e);
    ImportKeepsCore(g, t, r, e);
    var t' := Import(g, t, r, e).0;
    StoredIsLookedUp(g, t, r, e);
    AcceptedForever(g, t', r, e, calls, e');
  }

  lemma StoredIsLookedUp(g: Digests, t: Tables, r: Request, e: Answers)
    requires CoreValid(g, t) && r.operation !in t.operations && Import(g, t, r, e).1.Done? && !r.Implicit()
    requires r.file.Some? ==> e.normal.Some?
    ensures var t' := Import(g, t, r, e).0;
      && SameRequest(g, t', r, e) && t'.operations[r.operation].Accepted?
      && Import(g, t', r, e) == (t', Import(g, t, r, e).1)
  {
    hide CoreValid, Import, IdTaken, KeysAreFree, GroundOf;
    var t' := Import(g, t, r, e).0;
    ImportStores(g, t, r, e);
    ImportKeepsCore(g, t, r, e);
    AcceptedRetry(g, t', r, e);
    AcceptedExactly(g, t, r, e);
    var v := t'.versions[|t.versions|];
    assert t'.versions == t.versions + [v];
    KeysAreNew(g, t, r);
    LastIsFound(t.versions, v);
  }

  lemma KeysAreNew(g: Digests, t: Tables, r: Request)
    requires KeysAreFree(g, t, r)
    ensures forall v :: v in t.versions ==> v.id != NewId(g, r)
  {
  }

  // What a refusal records

  const UNNAMED := "implicit artifact discovery is forbidden"

  /** The row that explains a refusal: what was asked, what was expected, and what was found. */
  ghost predicate Explains(
      g: Digests, t: Tables, r: Request, e: Answers, reason: string, result: string, hash: Option<string>,
      identity: Option<string>, d: Discrepancy)
  {
    && d.actor == r.actor && d.artifact == r.Target() && d.source == r.source && d.ancestry == r.ancestry
    && d.reason == reason && d.resultId == result && d.proposedHash == g.content(r.content)
    && d.expectedHash == hash && d.expectedIdentity == identity
    && (if r.file.Some? && e.atRejection.Some?
        then d.observedIdentity == Some(e.atRejection.value.0) && d.observedHash == Some(e.atRejection.value.1)
        else d.observedIdentity.None? && d.observedHash.None?)
    && (if r.Target() in t.artifacts
        then d.observedOwner == Some(t.artifacts[r.Target()].owner)
             && d.observedSource == Some(t.artifacts[r.Target()].source)
        else d.observedOwner.None? && d.observedSource.None?)
    && (if HasVersions(t, r.Target())
        then exists v :: IsLatest(t.versions, r.Target(), v) && d.observedAncestry == Some(v.id)
        else d.observedAncestry.None?)
  }

  /** The operation is recorded as rejected and explained, unless it was explained before; no more. */
  ghost predicate IsRefused(
      g: Digests, t: Tables, t': Tables, r: Request, e: Answers, reason: string, code: Code, hash: Option<string>,
      identity: Option<string>)
  {
    && t'.versions == t.versions && t'.artifacts == t.artifacts && t'.lineage == t.lineage
    && t'.operations == t.operations[r.operation := Rejected(PrintOf(g, r, PathOf(r, e)), code)]
    && (if r.operation in t.discrepancies then t'.discrepancies == t.discrepancies
        else
          && r.operation in t'.discrepancies
          && t'.discrepancies == t.discrepancies[r.operation := t'.discrepancies[r.operation]]
          && Explains(g, t, r, e, reason, r.operation, hash, identity, t'.discrepancies[r.operation]))
  }

  lemma RejectRefuses(
      g: Digests, t: Tables, r: Request, e: Answers, reason: string, code: Code, hash: Option<string>,
      identity: Option<string>)
    requires r.operation !in t.operations && !e.fails
    ensures var q := r.(expectedHash := hash, expectedIdentity := identity);
      var (t', reply) := Reject(g, t, q, e, reason, code, Fingerprint(g, r, PathOf(r, e)));
      && IsRefused(g, t, t', r, e, reason, code, hash, identity)
      && reply == Failed(if code == DriftCode then Drift else Conflict)
  {
    hide Latest, IsLatest, Fingerprint, HasVersions;
    NoLatest(t, r.Target());
    PrintIsFingerprint(g, r, PathOf(r, e));
    var latest := Latest(t.versions, r.Target());
    if latest.Some? { LatestIsUnique(t.versions, r.Target(), latest.value); }
  }

  /** How a request with a new operation is refused, and what is recorded of it. A
    drift of the file behind the latest version is recorded with what that
    version expects; a taken key, a failing database and a file that moved
    while the version was written leave everything as it was. */
  lemma RefusedExactly(g: Digests, t: Tables, r: Request, e: Answers)
    requires r.operation !in t.operations && Import(g, t, r, e).1.Failed?
    ensures var (t', reply) := Import(g, t, r, e);
      var ground := GroundOf(g, t, r, e, PathOf(r, e));
      if r.file.Some? && e.normal.None? then t' == t && reply == Failed(Conflict)
      else if e.fails then t' == t && reply == Failed(Database)
      else if r.file.Some? && r.artifact.None? then
        && reply == Failed(Conflict)
        && IsRefused(g, t, t', r, e, UNNAMED, ConflictCode, r.expectedHash, r.expectedIdentity)
      else if ground == Some(Drifted) then
        && reply == Failed(Drift)
        && exists v :: IsLatest(t.versions, r.Target(), v)
             && IsRefused(g, t, t', r, e, ReasonFor(Drifted), DriftCode, Some(v.hash), v.identity)
      else if ground.Some? then
        && reply == Failed(if IsDrift(ground.value) then Drift else Conflict)
        && IsRefused(g, t, t', r, e, ReasonFor(ground.value), if IsDrift(ground.value) then DriftCode else ConflictCode,
                     r.expectedHash, r.expectedIdentity)
      else t' == t && reply == Failed(if KeysAreFree(g, t, r) then Drift else Database)
  {
    hide Import, GroundOf, KeysAreFree, IsLatest, IsRefused, IsDrift;
    var ground := GroundOf(g, t, r, e, PathOf(r, e));
    if r.file.Some? && e.normal.None? {
      PathIsMissing(g, t, r, e);
    } else if r.Implicit() {
      UnnamedIsRefused(g, t, r, e);
    } else if ground.Some? {
      GroundIsRefused(g, t, r, e);
    } else {
      NotAccepted(g, t, r, e);
    }
  }

  lemma PathIsMissing(g: Digests, t: Tables, r: Request, e: Answers)
    requires r.file.Some? && e.normal.None?
    ensures Import(g, t, r, e) == (t, Failed(Conflict))
  {
  }

  lemma RejectFails(g: Digests, t: Tables, r: Request, e: Answers, reason: string, code: Code, fp: string)
    requires e.fails
    ensures Reject(g, t, r, e, reason, code, fp) == (t, Failed(Database))
  {
  }

  lemma UnnamedIsRefused(g: Digests, t: Tables, r: Request, e: Answers)
    requires r.operation !in t.operations && r.Implicit() && e.normal.Some?
    ensures var (t', reply) := Import(g, t, r, e);
      if e.fails then t' == t && reply == Failed(Database)
      else
        && reply == Failed(Conflict)
        && IsRefused(g, t, t', r, e, UNNAMED, ConflictCode, r.expectedHash, r.expectedIdentity)
  {
    hide Reject, IsRefused, Fingerprint;
    if e.fails {
      RejectFails(g, t, r, e, UNNAMED, ConflictCode, Fingerprint(g, r, PathOf(r, e)));
    } else {
      RejectRefuses(g, t, r, e, UNNAMED, ConflictCode, r.expectedHash, r.expectedIdentity);
    }
  }

  lemma DriftHasLatest(g: Digests, t: Tables, r: Request, e: Answers, path: Option<string>)
    requires GroundOf(g, t, r, e, path) == Some(Drifted)
    ensures Latest(t.versions, r.Target()).Some?
    ensures IsLatest(t.versions, r.Target(), Latest(t.versions, r.Target()).value)
  {
    hide Latest, IsLatest, HasVersions, IsBound, Unbound, ParentIsLatest, ParentFits;
    NoLatest(t, r.Target());
    var latest := Latest(t.versions, r.Target());
    if latest.Some? { LatestIsUnique(t.versions, r.Target(), latest.value); }
  }

  lemma GroundIsRefused(g: Digests, t: Tables, r: Request, e: Answers)
    requires r.operation !in t.operations && !r.Implicit() && !(r.file.Some? && e.normal.None?)
    requires GroundOf(g, t, r, e, PathOf(r, e)).Some?
    ensures var (t', reply) := Import(g, t, r, e);
      var ground := GroundOf(g, t, r, e, PathOf(r, e)).value;
      if e.fails then t' == t && reply == Failed(Database)
      else if ground == Drifted then
        && reply == Failed(Drift)
        && exists v :: IsLatest(t.versions, r.Target(), v)
             && IsRefused(g, t, t', r, e, ReasonFor(Drifted), DriftCode, Some(v.hash), v.identity)
      else
        && reply == Failed(if IsDrift(ground) then Drift else Conflict)
        && IsRefused(g, t, t', r, e, ReasonFor(ground), if IsDrift(ground) then DriftCode else ConflictCode,
                     r.expectedHash, r.expectedIdentity)
  {
    hide Judge, GroundOf, Reject, Latest, IsLatest, IsRefused, Fingerprint, ReasonFor;
    var path := PathOf(r, e);
    var ground := GroundOf(g, t, r, e, path).value;
    JudgedByGround(g, t, r, e, path);
    var code := if IsDrift(ground) then DriftCode else ConflictCode;
    var q := Blamed(r, Judge(g, t, r, e, path));
    if e.fails {
      RejectFails(g, t, q, e, ReasonFor(ground), code, Fingerprint(g, r, path));
    } else if ground == Drifted {
      DriftHasLatest(g, t, r, e, path);
      var v := Latest(t.versions, r.Target()).value;
      RejectRefuses(g, t, r, e, ReasonFor(ground), code, Some(v.hash), v.identity);
    } else {
      RejectRefuses(g, t, r, e, ReasonFor(ground), code, r.expectedHash, r.expectedIdentity);
    }
  }

  lemma NotAccepted(g: Digests, t: Tables, r: Request, e: Answers)
    requires r.operation !in t.operations && !r.Implicit() && !(r.file.Some? && e.normal.None?)
    requires GroundOf(g, t, r, e, PathOf(r, e)).None? && Import(g, t, r, e).1.Failed?
    ensures Import(g, t, r, e).0 == t
    ensures Import(g, t, r, e).1 == Failed(if !e.fails && KeysAreFree(g, t, r) then Drift else Database)
  {
    hide Judge, GroundOf, KeysAreFree, IdTaken, NewVersion, Lookup, Reject;
    var path := PathOf(r, e);
    JudgedByGround(g, t, r, e, path);
    KeysExactly(g, t, r, e, path);
    if !IdTaken(t, NewVersion(g, r, e, path)) { AddedIsFound(g, t, r, e, path); }
  }

  // Requests whose operation is known

  /** The request is the recorded one; operations that were recorded without a path are
    recognised by their parts alone. */
  predicate IsRecalled(g: Digests, t: Tables, r: Request, e: Answers)
    requires r.operation in t.operations
  {
    var known := t.operations[r.operation].fingerprint;
    || known == PrintOf(g, r, PathOf(r, e))
    || (r.file.None? && known == g.parts(r.actor, r.source, r.Target(), g.content(r.content), r.ancestry))
  }

  lemma RecalledExactly(g: Digests, t: Tables, r: Request, e: Answers)
    requires r.operation in t.operations
    ensures SameRequest(g, t, r, e) <==> IsRecalled(g, t, r, e)
  {
    PrintIsFingerprint(g, r, PathOf(r, e));
  }

  const REUSED := "operation fingerprint conflict"

  /** What is written of a request that conflicts with what its operation is known for: an
    explanation, unless there is one. No version and no operation changes. */
  ghost predicate IsConflict(g: Digests, t: Tables, t': Tables, r: Request, e: Answers, reason: string) {
    && t' == t.(discrepancies := t'.discrepancies)
    && if e.fails || r.operation in t.discrepancies then t'.discrepancies == t.discrepancies
       else
         && r.operation in t'.discrepancies && r.operation in t.operations
         && t'.discrepancies == t.discrepancies[r.operation := t'.discrepancies[r.operation]]
         && var known := t.operations[r.operation];
            Explains(g, t, r, e, reason, if known.Accepted? then known.version else r.operation,
              r.expectedHash, r.expectedIdentity, t'.discrepancies[r.operation])
  }

  lemma RejectConflicts(g: Digests, t: Tables, r: Request, e: Answers, reason: string, fp: string)
    requires r.operation in t.operations
    ensures var (t', reply) := Reject(g, t, r, e, reason, ConflictCode, fp);
      IsConflict(g, t, t', r, e, reason) && reply == Failed(if e.fails then Database else Conflict)
  {
    hide Latest, IsLatest, HasVersions;
    NoLatest(t, r.Target());
    var latest := Latest(t.versions, r.Target());
    if latest.Some? { LatestIsUnique(t.versions, r.Target(), latest.value); }
  }

  /** How a request with a known operation is answered: with its version or with its
    rejection if it is the recorded one, and as a conflict, which is explained
    once, if it is not, or if it comes with a file and no artifact. */
  lemma KnownExactly(g: Digests, t: Tables, r: Request, e: Answers)
    requires CoreValid(g, t) && r.operation in t.operations
    ensures var (t', reply) := Import(g, t, r, e);
      var known := t.operations[r.operation];
      if r.file.Some? && e.normal.None? then t' == t && reply == Failed(Conflict)
      else if r.file.Some? && r.artifact.None? then
        IsConflict(g, t, t', r, e, UNNAMED) && reply == Failed(if e.fails then Database else Conflict)
      else if !IsRecalled(g, t, r, e) then
        IsConflict(g, t, t', r, e, REUSED) && reply == Failed(if e.fails then Database else Conflict)
      else if known.Rejected? then t' == t && reply == Failed(if known.code == DriftCode then Drift else Conflict)
      else
        && t' == t && reply.Done?
        && exists v :: v in t.versions && v.operation == r.operation && v.id == known.version
             && reply.info == Info(v.artifact, v.id, v.hash, v.canonical, v.ancestry)
  {
    hide CoreValid, IsRecalled, IsConflict, Latest, Fingerprint, Parts, Judge, Accept, Lookup, Reject;
    RecalledExactly(g, t, r, e);
    var fp := Fingerprint(g, r, PathOf(r, e));
    RejectConflicts(g, t, r, e, UNNAMED, fp);
    RejectConflicts(g, t, r, e, REUSED, fp);
    if SameRequest(g, t, r, e) && t.operations[r.operation].Accepted? { VersionIsReturned(g, t, r.operation); }
  }

  lemma VersionIsReturned(g: Digests, t: Tables, operation: string)
    requires CoreValid(g, t) && operation in t.operations && t.operations[operation].Accepted?
    ensures var id := t.operations[operation].version;
      && Lookup(t, id).Done?
      && exists v :: v in t.versions && v.operation == operation && v.id == id
           && Lookup(t, id).info == Info(v.artifact, v.id, v.hash, v.canonical, v.ancestry)
  {
    assert OperationOk(t, operation);
    var id := t.operations[operation].version;
    var v :| v in t.versions && v.id == id && v.operation == operation;
    VersionIsUnique(t.versions, v, VersionById(t.versions, id).value);
  }

  // What reopening insists on, relation by relation

  /** Each version has the digest of its content, its artifact's owner and source, and
    an earlier or later row as parent that agrees with it, if it names one. */
  ghost predicate VersionsAgree(g: Digests, t: Tables) {
    forall i :: 0 <= i < |t.versions| ==> VersionAgrees(g, t, t.versions[i])
  }

  ghost predicate VersionAgrees(g: Digests, t: Tables, v: Version) {
    && v.hash == g.content(v.canonical)
    && v.artifact in t.artifacts
    && t.artifacts[v.artifact].owner == v.actor && t.artifacts[v.artifact].source == v.source
    && (v.ancestry.Some? ==>
          exists p :: p in t.versions && p.id == v.ancestry.value && p.artifact == v.artifact && p.actor == v.actor
                      && p.source == v.source)
  }

  ghost predicate IdsAreUnique(vs: seq<Version>) {
    forall i, j :: 0 <= i < |vs| && 0 <= j < |vs| && i != j ==>
      vs[i].id != vs[j].id && vs[i].operation != vs[j].operation
  }

  /** Versions, accepted operations and edges stand for each other, one to one. */
  ghost predicate RowsMatch(t: Tables) {
    && (forall v :: v in t.versions ==>
          v.operation in t.operations && exists fp :: t.operations[v.operation] == Accepted(fp, v.id, v.ancestry))
    && (forall o :: o in t.operations && t.operations[o].Accepted? ==>
          exists v :: v in t.versions && v.operation == o && v.id == t.operations[o].version)
    && (forall o :: o in t.lineage <==> o in t.operations && t.operations[o].Accepted?)
    && (forall o :: o in t.lineage ==> t.lineage[o].version == t.operations[o].version)
    && (forall o :: o in t.lineage ==> t.lineage[o].parent == t.operations[o].lineage)
  }

  /** Each rejected operation is explained, and each explanation names what its
    operation resulted in: a version, or nothing but itself. */
  ghost predicate RejectionsMatch(t: Tables) {
    && (forall o :: o in t.operations && t.operations[o].Rejected? ==> o in t.discrepancies)
    && (forall o :: o in t.discrepancies ==>
          && o in t.operations
          && t.discrepancies[o].resultId == if t.operations[o].Accepted? then t.operations[o].version else o)
  }

  /** The relations that every run of imports keeps are these, no more and no less. */
  lemma CoreExactly(g: Digests, t: Tables)
    ensures CoreValid(g, t) <==>
      VersionsAgree(g, t) && IdsAreUnique(t.versions) && RowsMatch(t) && RejectionsMatch(t)
  {
    if CoreValid(g, t) { CoreIsMatching(g, t); }
    if VersionsAgree(g, t) && IdsAreUnique(t.versions) && RowsMatch(t) && RejectionsMatch(t) { MatchingIsCore(g, t); }
  }

  lemma VersionAgreesExactly(g: Digests, t: Tables, v: Version)
    ensures VersionAgrees(g, t, v) <==> VersionOk(g, t, v)
  {
    if v.ancestry.Some? {
      if p :| p in t.versions && IsParent(p, v) {
        assert p.id == v.ancestry.value;
      }
      if p :| p in t.versions && p.id == v.ancestry.value && p.artifact == v.artifact && p.actor == v.actor
              && p.source == v.source
      {
        assert IsParent(p, v);
      }
    }
  }

  lemma CoreIsMatching(g: Digests, t: Tables)
    requires CoreValid(g, t)
    ensures VersionsAgree(g, t) && IdsAreUnique(t.versions) && RowsMatch(t) && RejectionsMatch(t)
  {
    hide VersionOk, VersionAgrees;
    forall i | 0 <= i < |t.versions| ensures VersionAgrees(g, t, t.versions[i]) {
      assert t.versions[i] in t.versions;
      VersionAgreesExactly(g, t, t.versions[i]);
    }
    forall v | v in t.versions
      ensures v.operation in t.operations && exists fp :: t.operations[v.operation] == Accepted(fp, v.id, v.ancestry)
    {
      assert VersionLinked(t, v);
      assert t.operations[v.operation] == Accepted(t.operations[v.operation].fingerprint, v.id, v.ancestry);
    }
    forall o | o in t.operations
      ensures t.operations[o].Accepted? ==> o in t.lineage
      ensures t.operations[o].Accepted? ==>
        exists v :: v in t.versions && v.operation == o && v.id == t.operations[o].version
      ensures t.operations[o].Rejected? ==> o in t.discrepancies
    {
      assert OperationOk(t, o);
    }
    forall o | o in t.lineage
      ensures o in t.operations && t.operations[o].Accepted?
      ensures t.lineage[o] == Edge(t.operations[o].version, t.operations[o].lineage)
    {
      assert EdgeOk(t, o);
    }
    forall o | o in t.discrepancies ensures DiscrepancyOk(t, o) {}
  }

  lemma MatchingIsCore(g: Digests, t: Tables)
    requires VersionsAgree(g, t) && IdsAreUnique(t.versions) && RowsMatch(t) && RejectionsMatch(t)
    ensures CoreValid(g, t)
  {
    hide VersionOk, VersionAgrees;
    forall v | v in t.versions ensures VersionOk(g, t, v) && VersionLinked(t, v) {
      var i :| 0 <= i < |t.versions| && t.versions[i] == v;
      VersionAgreesExactly(g, t, t.versions[i]);
    }
    forall o | o in t.operations ensures OperationOk(t, o) {
      if t.operations[o].Accepted? {
        assert t.lineage[o] == Edge(t.operations[o].version, t.operations[o].lineage);
      }
    }
    forall o | o in t.lineage ensures EdgeOk(t, o) {}
    forall o | o in t.discrepancies ensures DiscrepancyOk(t, o) {}
  }
}
