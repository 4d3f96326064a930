/** The artifact store as its methods run: queries, early returns, and one
  transaction that either adds all its rows or none. */
module LineageStore {
  import opened Options
  import opened Lineage
  import opened LineageImports

  class Store {
    const digests: Digests
    var artifacts: map<string, Artifact>
    var versions: seq<Version>
    var operations: map<string, Operation>
    var lineage: map<string, Edge>
    var discrepancies: map<string, Discrepancy>

    function Rows(): Tables
      reads this
    {
      Tables(artifacts, versions, operations, lineage, discrepancies)
    }

    constructor (digests: Digests)
      ensures this.digests == digests && Rows() == FRESH
    {
      this.digests := digests;
      artifacts, versions, operations, lineage, discrepancies := map[], [], map[], map[], map[];
    }

    /** The latest version of an artifact, and the first path it was bound to. */
    method History(artifact: string) returns (latest: Option<Version>, bound: Option<string>)
      ensures latest == Latest(versions, artifact)
      ensures bound == FirstPath(VersionsOf(versions, artifact))
    {
      hide Latest, FirstPath, VersionsOf;
      HistoryOfNothing(artifact);
      latest, bound := None, None;
      var i := 0;
      assert versions[..0] == [];
      while i < |versions|
        invariant 0 <= i <= |versions|
        invariant latest == Latest(versions[..i], artifact)
        invariant bound == FirstPath(VersionsOf(versions[..i], artifact))
      {
        var v := versions[i];
        assert versions[..i + 1] == versions[..i] + [v];
        HistoryMore(versions[..i], v, artifact);
        if v.artifact == artifact {
          latest := Some(v);
          if bound.None? {
            bound := v.path;
          }
        }
        i := i + 1;
      }
      assert versions[..i] == versions;
    }

    method Find(id: string) returns (reply: Reply)
      ensures reply == Lookup(Rows(), id)
    {
      var i := 0;
      while i < |versions|
        invariant 0 <= i <= |versions|
        invariant VersionById(versions, id) == VersionById(versions[i..], id)
      {
        var v := versions[i];
        assert versions[i..][0] == v && versions[i..][1..] == versions[i + 1..];
        if v.id == id {
          return Done(Info(v.artifact, id, v.hash, v.canonical, v.ancestry));
        }
        i := i + 1;
      }
      reply := Failed(Database);
    }

    method Reject(r: Request, e: Answers, reason: string, code: Code, fp: string) returns (reply: Reply)
      modifies this
      ensures (Rows(), reply) == Lineage.Reject(digests, old(Rows()), r, e, reason, code, fp)
    {
      if e.fails {
        return Failed(Database);
      }
      var seen := if r.file.Some? then e.atRejection else None;
      var accepted := None;
      if r.operation in operations && operations[r.operation].Accepted? {
        accepted := Some(operations[r.operation].version);
      }
      if accepted.None? && r.operation !in operations {
        operations := operations[r.operation := Rejected(fp, code)];
      }
      var owner, source := None, None;
      if r.Target() in artifacts {
        owner, source := Some(artifacts[r.Target()].owner), Some(artifacts[r.Target()].source);
      }
      var latest, bound := History(r.Target());
      if r.operation !in discrepancies {
        discrepancies := discrepancies[r.operation := Discrepancy(
          r.actor, r.Target(), r.source, r.ancestry, reason, if accepted.Some? then accepted.value else r.operation,
          r.expectedHash, if seen.Some? then Some(seen.value.1) else None,
          r.expectedIdentity, if seen.Some? then Some(seen.value.0) else None, digests.content(r.content),
          owner, source, if latest.Some? then Some(latest.value.id) else None)];
      }
      reply := Failed(ErrorOf(code));
    }

    /** Is a key of the version's rows taken? */
    method Clashes(v: Version) returns (taken: bool)
      ensures taken == IdTaken(Rows(), v)
    {
      for i := 0 to |versions|
        invariant forall w :: w in versions[..i] ==> w.id != v.id && w.operation != v.operation
      {
        if versions[i].id == v.id || versions[i].operation == v.operation {
          assert versions[i] in versions;
          return true;
        }
      }
      assert versions[..|versions|] == versions;
      taken := v.operation in lineage;
    }

    /** The transaction of an accepted import. The rows go in one after another; a
      key that is taken, a failing database or a file that moved takes all of
      them back. */
    method Transact(r: Request, e: Answers, path: Option<string>, observed: Option<(string, string)>)
      returns (reply: Reply)
      requires observed == (if path.Some? then Observe(e.before, r.expectedIdentity) else None)
      requires path.Some? ==> observed.Some?
      modifies this
      ensures (Rows(), reply) == Accept(digests, old(Rows()), r, e, path)
    {
      hide Lookup, IdTaken;
      var before := Rows();
      var v := Version(digests.version(r.Target(), digests.content(r.content), r.operation, r.actor, r.source),
        r.Target(), digests.content(r.content), r.content, r.ancestry, r.operation, r.actor, r.source,
        if observed.Some? then Some(observed.value.0) else None, r.expectedHash, Native, path);
      assert v == NewVersion(digests, r, e, path);
      var clash := Clashes(v);
      if v.artifact !in artifacts {
        artifacts := artifacts[v.artifact := Artifact(r.actor, r.source)];
      }
      if e.fails || clash {
        artifacts := before.artifacts;
        return Failed(Database);
      }
      versions := versions + [v];
      if path.Some? {
        var final := Observe(e.after, v.identity);
        if final != observed {
          artifacts, versions := before.artifacts, before.versions;
          return Failed(Drift);
        }
      }
      operations := operations[r.operation := Accepted(Fingerprint(digests, r, path), v.id, r.ancestry)];
      lineage := lineage[r.operation := Edge(v.id, r.ancestry)];
      reply := Find(v.id);
    }

    /** `import`: its answer and the tables it leaves are those of the specification. */
    method Import(r: Request, e: Answers) returns (reply: Reply)
      modifies this
      ensures (Rows(), reply) == Lineage.Import(digests, old(Rows()), r, e)
      ensures r.operation !in old(operations) ==>
        && (reply.Done? <==> MayImport(digests, old(Rows()), r, e))
        && (reply.Done? ==> Stores(digests, old(Rows()), r, e, Rows(), reply.info))
    {
      hide Lineage.Reject, Lookup, Latest, VersionsOf, FirstPath, Accept, Judge, MayImport, Stores;
      if r.operation !in operations { ImportExactly(digests, Rows(), r, e); }
      if r.file.Some? && e.normal.None? {
        return Failed(Conflict);
      }
      var path := if r.file.Some? then e.normal else None;
      var fp := Fingerprint(digests, r, path);
      if r.file.Some? && r.artifact.None? {
        reply := Reject(r, e, "implicit artifact discovery is forbidden", ConflictCode, fp);
        return;
      }
      if r.operation in operations {
        var known := operations[r.operation];
        var legacy := r.file.None? && known.fingerprint == Parts(digests, r);
        if known.fingerprint != fp && !legacy {
          reply := Reject(r, e, "operation fingerprint conflict", ConflictCode, fp);
          return;
        }
        if known.Rejected? {
          return Failed(if known.code == DriftCode then Drift else Conflict);
        }
        reply := Find(known.version);
        return;
      }
      var drift, reason, code := Check(r, e, path);
      if reason.Some? {
        reply := Reject(drift, e, reason.value, code, fp);
        return;
      }
      var observed := if path.Some? then Observe(e.before, r.expectedIdentity) else None;
      if path.Some? { ProceedObserves(digests, Rows(), r, e, path); }
      reply := Transact(r, e, path, observed);
    }

    /** Content and file as the caller expects them. */
    method CheckContent(r: Request, e: Answers, path: Option<string>) returns (reason: Option<string>)
      ensures reason == ContentObjection(digests, r, e, path)
    {
      if r.expectedHash.Some? && r.expectedHash.value != digests.content(r.content) {
        return Some("expected hash mismatch");
      }
      if path.Some? {
        var observed := Observe(e.before, r.expectedIdentity);
        if observed.None? {
          return Some("file observation failed");
        }
        if observed.value.1 != digests.content(r.content) {
          return Some("file content drift");
        }
      }
      return None;
    }

    /** The checks between the lookup of the operation and the transaction: the
      reason to reject, if there is one, and the request to record with it. */
    method Check(r: Request, e: Answers, path: Option<string>)
      returns (blamed: Request, reason: Option<string>, code: Code)
      ensures var verdict := Judge(digests, Rows(), r, e, path);
        if verdict.Proceed? then reason.None?
        else reason == Some(verdict.reason) && code == verdict.code && blamed == Blamed(r, verdict)
    {
      hide Latest, VersionsOf, FirstPath, Fathers, ContentObjection;
      blamed := r;
      var artifact := r.Target();
      if artifact in artifacts && artifacts[artifact] != Artifact(r.actor, r.source) {
        return r, Some("artifact owner/source conflict"), ConflictCode;
      }
      var latest, bound := History(artifact);
      if path.None? && bound.Some? {
        return r, Some("file binding conflict"), ConflictCode;
      }
      if path.Some? && latest.Some? {
        var durable := latest.value;
        if bound.Some? && bound != path {
          return r, Some("logical path conflict"), ConflictCode;
        }
        var current := Observe(e.durable, durable.identity);
        var identity := if current.Some? then Some(current.value.0) else None;
        if identity != durable.identity || current.None? || current.value.1 != durable.hash {
          return r.(expectedHash := Some(durable.hash), expectedIdentity := durable.identity),
            Some("durable file identity drift"), DriftCode;
        }
      }
      if (if latest.Some? then Some(latest.value.id) else None) != r.ancestry {
        return r, Some("lineage conflict"), ConflictCode;
      }
      if r.ancestry.Some? && !exists v :: v in versions && Fathers(v, r) {
        return r, Some("invalid version ancestry"), ConflictCode;
      }
      reason := CheckContent(r, e, path);
      return r, reason, DriftCode;
    }
  }

  lemma HistoryOfNothing(artifact: string)
    ensures Latest([], artifact) == None && FirstPath(VersionsOf([], artifact)) == None
  {
  }

  lemma HistoryMore(vs: seq<Version>, v: Version, artifact: string)
    ensures Latest(vs + [v], artifact) == if v.artifact == artifact then Some(v) else Latest(vs, artifact)
    ensures FirstPath(VersionsOf(vs + [v], artifact)) ==
      if v.artifact == artifact && FirstPath(VersionsOf(vs, artifact)).None? then v.path
      else FirstPath(VersionsOf(vs, artifact))
  {
    hide VersionsOf, FirstPath;
    VersionsOfMore(vs, v, artifact);
    if v.artifact == artifact {
      FirstPathMore(VersionsOf(vs, artifact), v);
    } else {
      assert VersionsOf(vs, artifact) + [] == VersionsOf(vs, artifact);
    }
  }

  lemma ProceedObserves(g: Digests, t: Tables, r: Request, e: Answers, path: Option<string>)
    requires Judge(g, t, r, e, path).Proceed? && path.Some?
    ensures Observe(e.before, r.expectedIdentity).Some?
  {
    hide Latest, VersionsOf, FirstPath, Undrifted;
  }
}
