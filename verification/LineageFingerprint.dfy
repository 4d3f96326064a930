/** The text behind the fingerprint of an import: which requests it tells apart. */
module LineageFingerprint {
  import opened Options
  import opened Lineage

  const NUL := '\0'

  const SEPARATOR := "\0source="

  function Joined(actor: string, source: string): string { actor + SEPARATOR + source }

  /** `fingerprint_parts` before it is hashed. `debug` prints an optional text
    between quotes, with escapes. */
  function PartsText(
      debug: Option<string> -> string, actor: string, source: string, artifact: string, content: string,
      ancestry: Option<string>): string
  {
    "actor=" + actor + SEPARATOR + source + "\0artifact=" + debug(Some(artifact)) + "\0content=" + content
    + "\0ancestry=" + debug(ancestry)
  }

  /** What is printed holds no NUL, and can be told apart. */
  ghost predicate Renders(debug: Option<string> -> string) {
    && (forall o :: NUL !in debug(o))
    && (forall o, p :: debug(o) == debug(p) ==> o == p)
  }

  predicate OccursAt(s: string, i: nat) { i + |SEPARATOR| <= |s| && s[i..i + |SEPARATOR|] == SEPARATOR }

  predicate Contains(s: string) { exists i :: 0 <= i < |s| && OccursAt(s, i) }

  // From the end, every part is found behind its name

  lemma NulShows(u: string, y: string)
    requires NUL !in y
    ensures var t := u + [NUL] + y; t[|u|] == NUL && forall i :: |u| < i < |t| ==> t[i] != NUL
  {
    var t := u + [NUL] + y;
    forall i | |u| < i < |t| ensures t[i] != NUL { assert t[i] == y[i - |u| - 1]; }
  }

  lemma LastNul(u: string, y: string, v: string, z: string)
    requires u + [NUL] + y == v + [NUL] + z && NUL !in y && NUL !in z
    ensures u == v && y == z
  {
    var t, r := u + [NUL] + y, v + [NUL] + z;
    NulShows(u, y);
    NulShows(v, z);
    assert |u| == |v|;
    assert u == t[..|u|] && v == r[..|v|];
    assert y == t[|u| + 1..] && z == r[|v| + 1..];
  }

  lemma LastLabel(u: string, name: string, y: string, v: string, z: string)
    requires u + ([NUL] + name) + y == v + ([NUL] + name) + z
    requires NUL !in name && NUL !in y && NUL !in z
    ensures u == v && y == z
  {
    assert u + ([NUL] + name) + y == u + [NUL] + (name + y);
    assert v + ([NUL] + name) + z == v + [NUL] + (name + z);
    LastNul(u, name + y, v, name + z);
    assert y == (name + y)[|name|..] && z == (name + z)[|name|..];
  }

  lemma PartsAreFound(
      debug: Option<string> -> string, actor: string, source: string, artifact: string, content: string,
      ancestry: Option<string>, actor': string, source': string, artifact': string, content': string,
      ancestry': Option<string>)
    requires Renders(debug) && NUL !in content && NUL !in content'
    ensures PartsText(debug, actor, source, artifact, content, ancestry)
        == PartsText(debug, actor', source', artifact', content', ancestry')
      <==> Joined(actor, source) == Joined(actor', source') && artifact == artifact' && content == content'
           && ancestry == ancestry'
  {
    var head, head' := "actor=" + actor + SEPARATOR + source, "actor=" + actor' + SEPARATOR + source';
    assert head == "actor=" + (actor + SEPARATOR + source) && head' == "actor=" + (actor' + SEPARATOR + source');
    var one, one' := head + "\0artifact=" + debug(Some(artifact)), head' + "\0artifact=" + debug(Some(artifact'));
    var two, two' := one + "\0content=" + content, one' + "\0content=" + content';
    assert [NUL] + "artifact=" == "\0artifact=" && [NUL] + "content=" == "\0content="
      && [NUL] + "ancestry=" == "\0ancestry=";
    if two + "\0ancestry=" + debug(ancestry) == two' + "\0ancestry=" + debug(ancestry') {
      LastLabel(two, "ancestry=", debug(ancestry), two', debug(ancestry'));
      LastLabel(one, "content=", content, one', content');
      LastLabel(head, "artifact=", debug(Some(artifact)), head', debug(Some(artifact')));
      assert actor + SEPARATOR + source == head[6..] && actor' + SEPARATOR + source' == head'[6..];
    }
  }

  // The two parts in front

  /** The separator cannot overlap itself: it begins with its only NUL. */
  lemma NoOverlap(actor: string, source: string, i: nat)
    requires OccursAt(actor + SEPARATOR + source, i)
    ensures i == |actor| || i + |SEPARATOR| <= |actor| || |actor| + |SEPARATOR| <= i
  {
    var w, n := actor + SEPARATOR + source, |SEPARATOR|;
    assert forall j :: |actor| <= j < |actor| + n ==> w[j] == SEPARATOR[j - |actor|];
    forall j | i <= j < i + n ensures w[j] == SEPARATOR[j - i] { assert w[i..i + n][j - i] == w[j]; }
    assert forall k :: 0 < k < n ==> SEPARATOR[k] != NUL;
    assert SEPARATOR[0] == NUL && w[i] == NUL && w[|actor|] == NUL;
  }

  lemma OccursInside(actor: string, source: string, i: nat)
    requires OccursAt(actor + SEPARATOR + source, i) && i != |actor|
    ensures Contains(actor) || Contains(source)
  {
    var w, n := actor + SEPARATOR + source, |SEPARATOR|;
    NoOverlap(actor, source, i);
    if i < |actor| {
      assert w[i..i + n] == actor[i..i + n];
      assert OccursAt(actor, i);
    } else {
      assert w[i..i + n] == source[i - |actor| - n..i - |actor|];
      assert OccursAt(source, i - |actor| - n);
    }
  }

  lemma OneReading(actor: string, source: string, otherActor: string, otherSource: string)
    requires actor + SEPARATOR + source == otherActor + SEPARATOR + otherSource
    ensures Contains(actor) || Contains(source) || (actor == otherActor && source == otherSource)
  {
    var w := otherActor + SEPARATOR + otherSource;
    assert w[|otherActor|..|otherActor| + |SEPARATOR|] == SEPARATOR;
    if |otherActor| != |actor| {
      OccursInside(actor, source, |otherActor|);
    } else {
      assert actor == w[..|actor|] && source == w[|actor| + |SEPARATOR|..];
      assert otherActor == w[..|actor|] && otherSource == w[|actor| + |SEPARATOR|..];
    }
  }

  /** Another actor and source are joined in the same way. */
  ghost predicate Confused(actor: string, source: string) {
    exists a, s :: (a, s) != (actor, source) && Joined(a, s) == Joined(actor, source)
  }

  lemma ConfusedByActor(actor: string, source: string, i: nat)
    requires OccursAt(actor, i)
    ensures Confused(actor, source)
  {
    var a, s := actor[..i], actor[i + |SEPARATOR|..] + SEPARATOR + source;
    assert actor == a + SEPARATOR + actor[i + |SEPARATOR|..];
    assert Joined(a, s) == Joined(actor, source) && |a| != |actor|;
  }

  lemma ConfusedBySource(actor: string, source: string, i: nat)
    requires OccursAt(source, i)
    ensures Confused(actor, source)
  {
    var a, s := actor + SEPARATOR + source[..i], source[i + |SEPARATOR|..];
    assert source == source[..i] + SEPARATOR + s;
    assert Joined(a, s) == Joined(actor, source) && |a| != |actor|;
  }

  lemma ConfusedExactly(actor: string, source: string)
    ensures Confused(actor, source) <==> Contains(actor) || Contains(source)
  {
    hide OccursAt;
    if i :| 0 <= i < |actor| && OccursAt(actor, i) {
      ConfusedByActor(actor, source, i);
    } else if i :| 0 <= i < |source| && OccursAt(source, i) {
      ConfusedBySource(actor, source, i);
    } else if a, s :| (a, s) != (actor, source) && Joined(a, s) == Joined(actor, source) {
      OneReading(actor, source, a, s);
    }
  }

  /** The text of a request is that of no other request exactly when neither its
    actor nor its source contains the separator between the two. */
  lemma PartsTellExactly(
      debug: Option<string> -> string, actor: string, source: string, artifact: string, content: string,
      ancestry: Option<string>)
    requires Renders(debug) && NUL !in content
    ensures (forall a, s, r, c, n :: NUL !in c
               && PartsText(debug, a, s, r, c, n) == PartsText(debug, actor, source, artifact, content, ancestry)
               ==> (a, s, r, c, n) == (actor, source, artifact, content, ancestry))
      <==> !Contains(actor) && !Contains(source)
  {
    hide PartsText, Renders, Contains;
    ConfusedExactly(actor, source);
    forall a, s, r, c, n | NUL !in c
      ensures PartsText(debug, a, s, r, c, n) == PartsText(debug, actor, source, artifact, content, ancestry)
        <==> Joined(a, s) == Joined(actor, source) && r == artifact && c == content && n == ancestry
    {
      PartsAreFound(debug, a, s, r, c, n, actor, source, artifact, content, ancestry);
    }
    if a, s :| (a, s) != (actor, source) && Joined(a, s) == Joined(actor, source) {
      assert PartsText(debug, a, s, artifact, content, ancestry)
        == PartsText(debug, actor, source, artifact, content, ancestry);
    }
  }

  // What that means for imports

  /** The fingerprint of the parts is a hash of their text. */
  ghost predicate HashesText(g: Digests, debug: Option<string> -> string, hash: string -> string) {
    forall a, s, r, c, n :: g.parts(a, s, r, c, n) == hash(PartsText(debug, a, s, r, c, n))
  }

  /** An accepted operation that is used again by another actor with another source
    is taken for a retry, and answered with the first actor's version, when the
    two are joined to the same text. */
  lemma ConfusedIsRetry(
      g: Digests, debug: Option<string> -> string, hash: string -> string, t: Tables, r: Request, e: Answers,
      actor: string, source: string)
    requires CoreValid(g, t) && HashesText(g, debug, hash) && r.artifact.Some? && (r.file.Some? ==> e.normal.Some?)
    requires SameRequest(g, t, r, e) && t.operations[r.operation].Accepted?
    requires Joined(actor, source) == Joined(r.actor, r.source)
    ensures var q := r.(actor := actor, source := source);
      Import(g, t, q, e) == Import(g, t, r, e) && Import(g, t, q, e).1.Done?
  {
    hide CoreValid, HashesText, Import, Parts;
    var q := r.(actor := actor, source := source);
    SameParts(g, debug, hash, r, q);
    AcceptedRetry(g, t, r, e);
    AcceptedRetry(g, t, q, e);
  }

  lemma SameParts(g: Digests, debug: Option<string> -> string, hash: string -> string, r: Request, q: Request)
    requires HashesText(g, debug, hash) && q == r.(actor := q.actor, source := q.source) && r.artifact.Some?
    requires Joined(q.actor, q.source) == Joined(r.actor, r.source)
    ensures Parts(g, q) == Parts(g, r)
  {
    var c := g.content(r.content);
    assert "actor=" + q.actor + SEPARATOR + q.source == "actor=" + (q.actor + SEPARATOR + q.source);
    assert "actor=" + r.actor + SEPARATOR + r.source == "actor=" + (r.actor + SEPARATOR + r.source);
    assert PartsText(debug, q.actor, q.source, r.Target(), c, r.ancestry)
      == PartsText(debug, r.actor, r.source, r.Target(), c, r.ancestry);
    hide PartsText;
  }

  const FIRST := Request("o", "a\0source=b", "c", "x", None, None, None, Some("f"), None)

  const SECOND := FIRST.(actor := "a", source := "b\0source=c")

  const NO_FILE := Answers(None, None, None, None, None, false)

  /** Two such imports into a fresh store: the second adds no version and is no conflict. */
  lemma TwoActorsOneVersion(g: Digests, debug: Option<string> -> string, hash: string -> string)
    requires HashesText(g, debug, hash)
    ensures var (t, reply) := Import(g, FRESH, FIRST, NO_FILE);
      && reply.Done? && |t.versions| == 1 && t.versions[0].actor != SECOND.actor
      && Import(g, t, SECOND, NO_FILE) == (t, reply)
  {
    FreshImport(g);
    var t := Import(g, FRESH, FIRST, NO_FILE).0;
    RunsKeepCore(g, FRESH, []);
    ImportKeepsCore(g, FRESH, FIRST, NO_FILE);
    BothJoined();
    hide CoreValid, HashesText, Import, ImportAll, Joined, SameRequest, Lookup;
    ConfusedIsRetry(g, debug, hash, t, FIRST, NO_FILE, "a", "b\0source=c");
    AcceptedRetry(g, t, FIRST, NO_FILE);
  }

  lemma BothJoined()
    ensures Joined(SECOND.actor, SECOND.source) == Joined(FIRST.actor, FIRST.source)
  {
    assert "a" + SEPARATOR + "b\0source=c" == "a\0source=b" + SEPARATOR + "c";
  }

  lemma FreshImport(g: Digests)
    ensures var (t, reply) := Import(g, FRESH, FIRST, NO_FILE);
      && SameRequest(g, t, FIRST, NO_FILE) && t.operations["o"].Accepted? && |t.versions| == 1
      && t.versions[0].actor == FIRST.actor && reply == Lookup(t, t.operations["o"].version)
  {
    assert Judge(g, FRESH, FIRST, NO_FILE, None).Proceed?;
    hide Judge;
  }
}
