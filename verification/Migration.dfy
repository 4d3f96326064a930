/** The upgrade of a version-0 store, which knew artifacts and versions only. */
module Migration {
  import opened Options
  import opened Lineage

  datatype LegacyVersion = LegacyVersion(
    id: string, artifact: string, hash: string, canonical: string, ancestry: Option<string>, operation: string,
    actor: string, source: string)

  datatype LegacyStore = LegacyStore(artifacts: map<string, Artifact>, versions: seq<LegacyVersion>)
  {
    /** The key of the legacy version table and its unique index. */
    ghost predicate Keyed() {
      forall i, j :: 0 <= i < j < |versions| ==>
        versions[i].id != versions[j].id && versions[i].operation != versions[j].operation
    }
  }

  predicate IsLegacyParent(p: LegacyVersion, v: LegacyVersion) {
    v.ancestry == Some(p.id) && p.artifact == v.artifact && p.actor == v.actor && p.source == v.source
  }

  /** The relations of a legacy row that the upgrade insists on. */
  predicate RowOk(s: LegacyStore, v: LegacyVersion) {
    && v.artifact in s.artifacts && s.artifacts[v.artifact] == Artifact(v.actor, v.source)
    && v.id != "" && v.operation != ""
    && (v.ancestry.Some? ==> exists p :: p in s.versions && IsLegacyParent(p, v))
  }

  ghost predicate Acceptable(g: Digests, s: LegacyStore) {
    forall v :: v in s.versions ==> RowOk(s, v) && v.hash == g.content(v.canonical)
  }

  function Upgraded(v: LegacyVersion): Version {
    Version(v.id, v.artifact, v.hash, v.canonical, v.ancestry, v.operation, v.actor, v.source, None, None, Legacy, None)
  }

  function AllUpgraded(vs: seq<LegacyVersion>): (r: seq<Version>)
    ensures |r| == |vs| && forall i :: 0 <= i < |vs| ==> r[i] == Upgraded(vs[i])
  {
    if vs == [] then [] else AllUpgraded(vs[..|vs| - 1]) + [Upgraded(vs[|vs| - 1])]
  }

  function LegacyPrint(g: Digests, v: LegacyVersion): string {
    g.parts(v.actor, v.source, v.artifact, g.content(v.canonical), v.ancestry)
  }

  function OperationOf(g: Digests, v: LegacyVersion): Operation { Accepted(LegacyPrint(g, v), v.id, v.ancestry) }

  function Operations(g: Digests, vs: seq<LegacyVersion>): map<string, Operation> {
    if vs == [] then map[]
    else var v := vs[|vs| - 1]; Operations(g, vs[..|vs| - 1])[v.operation := OperationOf(g, v)]
  }

  function Edges(vs: seq<LegacyVersion>): map<string, Edge> {
    if vs == [] then map[] else var v := vs[|vs| - 1]; Edges(vs[..|vs| - 1])[v.operation := Edge(v.id, v.ancestry)]
  }

  /** The upgraded store. */
  function Migrated(g: Digests, s: LegacyStore): Tables {
    Tables(s.artifacts, AllUpgraded(s.versions), Operations(g, s.versions), Edges(s.versions), map[])
  }

  /** The checks before anything is written: first the relations of all rows, then all hashes. */
  method CheckLegacy(g: Digests, s: LegacyStore) returns (ok: bool)
    ensures ok == Acceptable(g, s)
  {
    hide RowOk;
    for i := 0 to |s.versions|
      invariant forall v :: v in s.versions[..i] ==> RowOk(s, v)
    {
      if !RowOk(s, s.versions[i]) {
        assert s.versions[i] in s.versions;
        return false;
      }
    }
    assert s.versions[..|s.versions|] == s.versions;
    for i := 0 to |s.versions|
      invariant forall v :: v in s.versions[..i] ==> v.hash == g.content(v.canonical)
    {
      if s.versions[i].hash != g.content(s.versions[i].canonical) {
        assert s.versions[i] in s.versions;
        return false;
      }
    }
    ok := true;
  }

  /** One more row in each of the upgraded tables. */
  lemma OneMoreRow(g: Digests, vs: seq<LegacyVersion>, i: nat)
    requires i < |vs|
    ensures AllUpgraded(vs[..i + 1]) == AllUpgraded(vs[..i]) + [Upgraded(vs[i])]
    ensures Operations(g, vs[..i + 1]) == Operations(g, vs[..i])[vs[i].operation := OperationOf(g, vs[i])]
    ensures Edges(vs[..i + 1]) == Edges(vs[..i])[vs[i].operation := Edge(vs[i].id, vs[i].ancestry)]
  {
    assert vs[..i + 1][..i] == vs[..i];
  }

  lemma NoRows(g: Digests)
    ensures AllUpgraded([]) == [] && Operations(g, []) == map[] && Edges([]) == map[]
  {
  }

  /** `migrate` for version 0: a store that is not acceptable is left alone. */
  method Migrate(g: Digests, s: LegacyStore) returns (r: Option<Tables>)
    ensures r == if Acceptable(g, s) then Some(Migrated(g, s)) else None
  {
    hide RowOk, Acceptable, AllUpgraded, Operations, Edges;
    var ok := CheckLegacy(g, s);
    if !ok {
      return None;
    }
    NoRows(g);
    var versions: seq<Version> := [];
    for i := 0 to |s.versions|
      invariant versions == AllUpgraded(s.versions[..i])
    {
      OneMoreRow(g, s.versions, i);
      versions := versions + [Upgraded(s.versions[i])];
    }
    var operations: map<string, Operation>, lineage: map<string, Edge> := map[], map[];
    for i := 0 to |s.versions|
      invariant operations == Operations(g, s.versions[..i]) && lineage == Edges(s.versions[..i])
    {
      var v := s.versions[i];
      OneMoreRow(g, s.versions, i);
      var mark := g.parts(v.actor, v.source, v.artifact, g.content(v.canonical), v.ancestry);
      operations := operations[v.operation := Accepted(mark, v.id, v.ancestry)];
      lineage := lineage[v.operation := Edge(v.id, v.ancestry)];
    }
    assert s.versions[..|s.versions|] == s.versions;
    r := Some(Tables(s.artifacts, versions, operations, lineage, map[]));
  }

  // What the operations and edges hold

  ghost predicate DistinctOperations(vs: seq<LegacyVersion>) {
    forall i, j :: 0 <= i < j < |vs| ==> vs[i].operation != vs[j].operation
  }

  lemma {:induction false} RowsOfVersion(g: Digests, vs: seq<LegacyVersion>, i: nat)
    requires DistinctOperations(vs) && i < |vs|
    ensures vs[i].operation in Operations(g, vs) && Operations(g, vs)[vs[i].operation] == OperationOf(g, vs[i])
    ensures vs[i].operation in Edges(vs) && Edges(vs)[vs[i].operation] == Edge(vs[i].id, vs[i].ancestry)
    decreases |vs|
  {
    if i < |vs| - 1 {
      RowsOfVersion(g, vs[..|vs| - 1], i);
    }
  }

  lemma {:induction false} VersionOfRow(g: Digests, vs: seq<LegacyVersion>, id: string) returns (i: nat)
    requires id in Operations(g, vs) || id in Edges(vs)
    ensures i < |vs| && vs[i].operation == id
    decreases |vs|
  {
    if vs[|vs| - 1].operation == id {
      i := |vs| - 1;
    } else {
      i := VersionOfRow(g, vs[..|vs| - 1], id);
    }
  }

  lemma UpgradedIn(vs: seq<LegacyVersion>, v: LegacyVersion)
    requires v in vs
    ensures Upgraded(v) in AllUpgraded(vs)
  {
    var i :| 0 <= i < |vs| && vs[i] == v;
    assert AllUpgraded(vs)[i] == Upgraded(v);
  }

  lemma UpgradedFrom(vs: seq<LegacyVersion>, w: Version) returns (v: LegacyVersion)
    requires w in AllUpgraded(vs)
    ensures v in vs && w == Upgraded(v)
  {
    var i :| 0 <= i < |vs| && AllUpgraded(vs)[i] == w;
    v := vs[i];
  }

  lemma LinkedRow(g: Digests, s: LegacyStore, i: nat)
    requires s.Keyed() && i < |s.versions|
    ensures var t, v := Migrated(g, s), Upgraded(s.versions[i]);
      v in t.versions && VersionLinked(t, v) && OperationOk(t, v.operation) && EdgeOk(t, v.operation)
  {
    hide Operations, Edges, AllUpgraded;
    RowsOfVersion(g, s.versions, i);
    UpgradedIn(s.versions, s.versions[i]);
    var t, v := Migrated(g, s), Upgraded(s.versions[i]);
    assert t.operations[v.operation] == Accepted(LegacyPrint(g, s.versions[i]), v.id, v.ancestry);
  }

  lemma RowIsVersion(g: Digests, s: LegacyStore, v: LegacyVersion)
    requires s.Keyed() && v in s.versions && v.id != "" && v.operation != ""
    ensures RowOk(s, v) && v.hash == g.content(v.canonical) <==> VersionOk(g, Migrated(g, s), Upgraded(v))
  {
    hide Operations, Edges, AllUpgraded;
    var t := Migrated(g, s);
    if p :| p in s.versions && IsLegacyParent(p, v) {
      UpgradedIn(s.versions, p);
      assert IsParent(Upgraded(p), Upgraded(v));
    }
    if w :| w in t.versions && IsParent(w, Upgraded(v)) {
      var p := UpgradedFrom(s.versions, w);
      assert IsLegacyParent(p, v);
    }
  }

  ghost predicate Named(s: LegacyStore) {
    forall v :: v in s.versions ==> v.id != "" && v.operation != ""
  }

  lemma MigratedRowsAreLinked(g: Digests, s: LegacyStore)
    requires s.Keyed()
    ensures var t := Migrated(g, s);
      && Keyed(t.versions)
      && (forall v :: v in t.versions ==> VersionLinked(t, v))
      && (forall id :: id in t.operations ==> OperationOk(t, id))
      && (forall id :: id in t.lineage ==> EdgeOk(t, id))
  {
    hide VersionLinked, OperationOk, EdgeOk, Operations, Edges;
    var t := Migrated(g, s);
    forall v | v in t.versions ensures VersionLinked(t, v) {
      var i :| 0 <= i < |t.versions| && t.versions[i] == v;
      LinkedRow(g, s, i);
    }
    forall id | id in t.operations ensures OperationOk(t, id) {
      var i := VersionOfRow(g, s.versions, id);
      LinkedRow(g, s, i);
    }
    forall id | id in t.lineage ensures EdgeOk(t, id) {
      var i := VersionOfRow(g, s.versions, id);
      LinkedRow(g, s, i);
    }
  }

  /** The upgrade accepts exactly the stores whose rows, once upgraded, satisfy
    everything that reopening checks, and in which no name is empty. */
  lemma AcceptsExactlyTheValid(g: Digests, s: LegacyStore)
    requires s.Keyed()
    ensures Acceptable(g, s) <==> Named(s) && CoreValid(g, Migrated(g, s))
  {
    hide VersionOk, VersionLinked, OperationOk, EdgeOk, Keyed, Operations, Edges, AllUpgraded, RowOk;
    var t := Migrated(g, s);
    MigratedRowsAreLinked(g, s);
    if Acceptable(g, s) {
      NamesOf(g, s);
      forall w | w in t.versions ensures VersionOk(g, t, w) {
        var v := UpgradedFrom(s.versions, w);
        RowIsVersion(g, s, v);
      }
    }
    if Named(s) && CoreValid(g, t) {
      forall v | v in s.versions ensures RowOk(s, v) && v.hash == g.content(v.canonical) {
        UpgradedIn(s.versions, v);
        RowIsVersion(g, s, v);
      }
    }
  }

  lemma NamesOf(g: Digests, s: LegacyStore)
    requires Acceptable(g, s)
    ensures Named(s)
  {
    forall v | v in s.versions ensures v.id != "" && v.operation != "" { assert RowOk(s, v); }
  }

  /** Nothing is lost: the same versions in the same order, column by column, marked
    as legacy; the columns that the old store did not have are empty. */
  lemma NothingIsLost(g: Digests, s: LegacyStore, i: nat)
    requires i < |s.versions|
    ensures var t, v := Migrated(g, s), s.versions[i];
      && |t.versions| == |s.versions| && t.artifacts == s.artifacts && t.discrepancies == map[]
      && var w := t.versions[i];
         && w.id == v.id && w.canonical == v.canonical && w.hash == v.hash && w.ancestry == v.ancestry
         && w.operation == v.operation && w.artifact == v.artifact && w.actor == v.actor && w.source == v.source
         && w.origin == Legacy && w.path.None? && w.identity.None? && w.expectedHash.None?
  {
  }

  /** The request that made a legacy version, with its artifact named or left to the source. */
  predicate Recalls(r: Request, v: LegacyVersion) {
    && r.operation == v.operation && r.actor == v.actor && r.source == v.source && r.content == v.canonical
    && r.ancestry == v.ancestry && r.Target() == v.artifact && r.file.None?
  }

  /** Importing a legacy version again, without a file, finds it and changes
    nothing: right after the upgrade and after any further imports. */
  lemma LegacyRetry(g: Digests, s: LegacyStore, i: nat, r: Request, calls: seq<(Request, Answers)>, e: Answers)
    requires s.Keyed() && Acceptable(g, s) && i < |s.versions| && Recalls(r, s.versions[i])
    ensures var v, u := s.versions[i], ImportAll(g, Migrated(g, s), calls);
      && CoreValid(g, u)
      && Import(g, u, r, e) == (u, Done(Info(v.artifact, v.id, v.hash, v.canonical, v.ancestry)))
  {
    hide CoreValid, Operations, Edges, AllUpgraded, ImportAll, Import;
    var t, v := Migrated(g, s), s.versions[i];
    AcceptsExactlyTheValid(g, s);
    LinkedRow(g, s, i);
    RowsOfVersion(g, s.versions, i);
    assert SameRequest(g, t, r, e);
    AcceptedForever(g, t, r, e, calls, e);
    AcceptedRetry(g, t, r, e);
    RunsKeepCore(g, t, calls);
    TheVersion(t, Upgraded(v)) by { KeyedOf(g, t); }
  }

  lemma KeyedOf(g: Digests, t: Tables)
    requires CoreValid(g, t)
    ensures Keyed(t.versions)
  {
  }

  lemma TheVersion(t: Tables, v: Version)
    requires Keyed(t.versions) && v in t.versions
    ensures Lookup(t, v.id) == Done(Info(v.artifact, v.id, v.hash, v.canonical, v.ancestry))
  {
    VersionIsUnique(t.versions, v, VersionById(t.versions, v.id).value);
  }

  // When the upgraded histories are chains

  /** The id of the latest of these rows that belongs to the artifact. */
  function LatestOf(vs: seq<LegacyVersion>, artifact: string): Option<string> {
    if vs == [] then None
    else if vs[|vs| - 1].artifact == artifact then Some(vs[|vs| - 1].id)
    else LatestOf(vs[..|vs| - 1], artifact)
  }

  /** Every row names the latest earlier row of its artifact as its parent, if there is one. */
  predicate Chain(vs: seq<LegacyVersion>) { forall i :: 0 <= i < |vs| ==> Follows(vs, i) }

  predicate Follows(vs: seq<LegacyVersion>, i: nat)
    requires i < |vs|
  {
    vs[i].ancestry == LatestOf(vs[..i], vs[i].artifact)
  }

  /** The part of a linear history that the row checks leave open. */
  ghost predicate Consecutive(h: seq<Version>) {
    && (h != [] ==> h[0].ancestry.None?)
    && (forall i :: 1 <= i < |h| ==> h[i].ancestry == Some(h[i - 1].id))
  }

  function Upgrades(vs: seq<LegacyVersion>, artifact: string): seq<Version> { VersionsOf(AllUpgraded(vs), artifact) }

  lemma OneMoreUpgrade(vs: seq<LegacyVersion>, artifact: string)
    requires vs != []
    ensures var v := vs[|vs| - 1];
      Upgrades(vs, artifact)
        == Upgrades(vs[..|vs| - 1], artifact) + if v.artifact == artifact then [Upgraded(v)] else []
  {
    VersionsOfMore(AllUpgraded(vs[..|vs| - 1]), Upgraded(vs[|vs| - 1]), artifact);
  }

  lemma {:induction false} LatestUpgrade(vs: seq<LegacyVersion>, artifact: string)
    ensures var h := Upgrades(vs, artifact); LatestOf(vs, artifact) == if h == [] then None else Some(h[|h| - 1].id)
    decreases |vs|
  {
    hide Upgrades;
    if vs != [] {
      OneMoreUpgrade(vs, artifact);
      LatestUpgrade(vs[..|vs| - 1], artifact);
    } else {
      NoUpgrade(artifact);
    }
  }

  lemma NoUpgrade(artifact: string)
    ensures Upgrades([], artifact) == []
  {
  }

  lemma ConsecutiveMore(h: seq<Version>, v: Version)
    ensures Consecutive(h + [v]) <==>
      Consecutive(h) && v.ancestry == if h == [] then None else Some(h[|h| - 1].id)
  {
    var more := h + [v];
    assert h != [] ==> more[0] == h[0] && more[|h| - 1] == h[|h| - 1];
    assert more[|h|] == v;
    if Consecutive(more) {
      forall i | 1 <= i < |h| ensures h[i].ancestry == Some(h[i - 1].id) {
        assert more[i] == h[i] && more[i - 1] == h[i - 1];
      }
      assert h != [] ==> more[|h|].ancestry == Some(more[|h| - 1].id);
    }
  }

  lemma ChainMore(vs: seq<LegacyVersion>)
    requires vs != []
    ensures var (prefix, v) := (vs[..|vs| - 1], vs[|vs| - 1]);
      Chain(vs) <==> Chain(prefix) && v.ancestry == LatestOf(prefix, v.artifact)
  {
    hide LatestOf;
    var prefix := vs[..|vs| - 1];
    forall i | 0 <= i < |prefix| ensures Follows(prefix, i) == Follows(vs, i) { assert prefix[..i] == vs[..i]; }
    assert Follows(vs, |prefix|) <==> vs[|prefix|].ancestry == LatestOf(prefix, vs[|prefix|].artifact);
    hide Follows;
    if Chain(prefix) && Follows(vs, |prefix|) {
      forall i | 0 <= i < |vs| ensures Follows(vs, i) { assert i < |prefix| ==> Follows(prefix, i); }
    }
    if Chain(vs) {
      forall i | 0 <= i < |prefix| ensures Follows(prefix, i) { assert Follows(vs, i); }
    }
  }

  lemma {:induction false} ChainIsConsecutive(vs: seq<LegacyVersion>)
    ensures Chain(vs) <==> forall artifact :: Consecutive(Upgrades(vs, artifact))
    decreases |vs|
  {
    hide Upgrades, Chain, Consecutive;
    if vs == [] {
      NoUpgrades();
    } else {
      var prefix, v := vs[..|vs| - 1], vs[|vs| - 1];
      ChainIsConsecutive(prefix);
      ChainMore(vs);
      LatestUpgrade(prefix, v.artifact);
      OneMoreUpgrade(vs, v.artifact);
      ConsecutiveMore(Upgrades(prefix, v.artifact), Upgraded(v));
      forall artifact | artifact != v.artifact
        ensures Upgrades(vs, artifact) == Upgrades(prefix, artifact)
      {
        OneMoreUpgrade(vs, artifact);
      }
    }
  }

  lemma NoUpgrades()
    ensures Chain([]) && forall artifact :: Consecutive(Upgrades([], artifact))
  {
    forall artifact ensures Consecutive(Upgrades([], artifact)) { NoUpgrade(artifact); }
  }

  /** The part of a linear history that the row checks do settle. */
  predicate InOrder(t: Tables, artifact: string, v: Version) {
    && artifact in t.artifacts && Artifact(v.actor, v.source) == t.artifacts[artifact]
    && v.path.None? && v.identity.None?
  }

  lemma UpgradeInOrder(g: Digests, s: LegacyStore, artifact: string, v: Version)
    requires Acceptable(g, s) && v in Upgrades(s.versions, artifact)
    ensures InOrder(Migrated(g, s), artifact, v)
  {
    var w := UpgradedFrom(s.versions, v);
    assert RowOk(s, w);
  }

  lemma LinearIsConsecutive(t: Tables, artifact: string, h: seq<Version>)
    requires forall v :: v in h ==> InOrder(t, artifact, v)
    ensures Linear(t, artifact, h) <==> Consecutive(h)
  {
    assert forall i :: 0 <= i < |h| ==> h[i] in h;
  }

  /** An upgraded store has linear histories exactly when in the old store every row
    named the latest earlier row of its artifact, and none where there was none;
    what the upgrade checks does not ask for that. */
  lemma LinearExactlyForChains(g: Digests, s: LegacyStore)
    requires Acceptable(g, s)
    ensures AllLinear(Migrated(g, s)) <==> Chain(s.versions)
  {
    hide Linear, Consecutive, Chain, Acceptable, InOrder;
    ChainIsConsecutive(s.versions);
    forall artifact
      ensures Linear(Migrated(g, s), artifact, VersionsOf(Migrated(g, s).versions, artifact))
        <==> Consecutive(Upgrades(s.versions, artifact))
    {
      forall v | v in Upgrades(s.versions, artifact) ensures InOrder(Migrated(g, s), artifact, v) {
        UpgradeInOrder(g, s, artifact, v);
      }
      LinearIsConsecutive(Migrated(g, s), artifact, Upgrades(s.versions, artifact));
    }
  }

  lemma {:induction false} EarlierVersions(vs: seq<Version>, ws: seq<Version>, artifact: string)
    requires vs <= ws
    ensures VersionsOf(vs, artifact) <= VersionsOf(ws, artifact)
    decreases |ws|
  {
    if vs != ws {
      var fewer, last := ws[..|ws| - 1], ws[|ws| - 1];
      EarlierVersions(vs, fewer, artifact);
      assert ws == fewer + [last];
      VersionsOfMore(fewer, last, artifact);
    } else {
      assert vs == ws;
    }
  }

  /** What has become linear always was. */
  lemma LinearBefore(g: Digests, t: Tables, u: Tables)
    requires CoreValid(g, t) && Grows(t, u) && AllLinear(u)
    ensures AllLinear(t)
  {
    forall artifact ensures Linear(t, artifact, VersionsOf(t.versions, artifact)) {
      EarlierVersions(t.versions, u.versions, artifact);
      assert Linear(u, artifact, VersionsOf(u.versions, artifact));
      LinearPrefix(g, t, u, artifact, VersionsOf(t.versions, artifact), VersionsOf(u.versions, artifact));
    }
  }

  lemma OwnerStays(g: Digests, t: Tables, u: Tables, v: Version)
    requires CoreValid(g, t) && Grows(t, u) && v in t.versions
    ensures v.artifact in t.artifacts && v.artifact in u.artifacts && u.artifacts[v.artifact] == t.artifacts[v.artifact]
  {
    assert VersionOk(g, t, v);
  }

  lemma LinearPrefix(g: Digests, t: Tables, u: Tables, artifact: string, h: seq<Version>, more: seq<Version>)
    requires CoreValid(g, t) && Grows(t, u) && h <= more && Linear(u, artifact, more)
    requires forall v :: v in h ==> v in t.versions && v.artifact == artifact
    ensures Linear(t, artifact, h)
  {
    hide CoreValid, Grows;
    if h != [] {
      assert h[0] in h;
      OwnerStays(g, t, u, h[0]);
      forall i | 0 <= i < |h|
        ensures Artifact(h[i].actor, h[i].source) == t.artifacts[artifact]
        ensures h[i].path == h[0].path && h[i].path.Some? == h[i].identity.Some?
      {
        assert h[i] == more[i];
      }
      forall i | 1 <= i < |h| ensures h[i].ancestry == Some(h[i - 1].id) {
        assert h[i] == more[i] && h[i - 1] == more[i - 1];
      }
    }
  }

  /** Whatever is imported afterwards keeps a well-chained old store linear, in a
    store that reopens; a history that was no chain stays none. */
  lemma UpgradedRuns(g: Digests, s: LegacyStore, calls: seq<(Request, Answers)>)
    requires s.Keyed() && Acceptable(g, s)
    ensures var t := ImportAll(g, Migrated(g, s), calls); CoreValid(g, t) && (AllLinear(t) <==> Chain(s.versions))
  {
    hide AllLinear, CoreValid, Acceptable, Chain, Migrated;
    AcceptsExactlyTheValid(g, s);
    LinearExactlyForChains(g, s);
    RunsKeepCore(g, Migrated(g, s), calls);
    if Chain(s.versions) { RunsStayLinear(g, Migrated(g, s), calls); }
    if AllLinear(ImportAll(g, Migrated(g, s), calls)) {
      RunsGrow(g, Migrated(g, s), calls);
      LinearBefore(g, Migrated(g, s), ImportAll(g, Migrated(g, s), calls));
    }
  }

  /** The row checks do not look at the shape of the ancestry: a legacy version
    that is its own parent is upgraded, although no run of imports builds one. */
  lemma SelfParentIsAccepted(g: Digests)
    ensures var v := LegacyVersion("v", "a", g.content("c"), "c", Some("v"), "o", "x", "y");
      var s := LegacyStore(map["a" := Artifact("x", "y")], [v]);
      s.Keyed() && Acceptable(g, s) && !Linear(Migrated(g, s), "a", VersionsOf(Migrated(g, s).versions, "a"))
  {
    hide VersionsOf, Operations, Edges;
    var v := LegacyVersion("v", "a", g.content("c"), "c", Some("v"), "o", "x", "y");
    var s := LegacyStore(map["a" := Artifact("x", "y")], [v]);
    assert IsLegacyParent(v, v) && v in s.versions;
    assert RowOk(s, v);
    var t := Migrated(g, s);
    assert s.versions[..0] == [] && t.versions == [] + [Upgraded(v)];
    VersionsOfMore([], Upgraded(v), "a");
  }
}
