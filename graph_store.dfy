/** The versioning and publication store of the simulator server: the
    `graphs`, `graph_versions` and `published` tables, each store function
    as one atomic transition of them, and the constraints the schema and
    the numbering rule keep. */
module GraphStore {
  import opened Values

  type GraphId = string
  type Env = string

  /** What a `graph_versions` row holds besides its key `(graph_id, version)`. */
  datatype VersionRow = VersionRow(content: Json, comment: Option<Json>)

  /** The three tables. Keying `versions` by `(graph_id, version)` is
      `UNIQUE(graph_id, version)`; keying `published` by `(graph_id, env)`
      is its `PRIMARY KEY`. */
  datatype Tables = Tables(
    graphs: set<GraphId>,
    versions: map<(GraphId, int), VersionRow>,
    published: map<(GraphId, Env), int>)

  /** The database errors the store functions can raise. */
  datatype DbError =
    | IntegerOutOfRange(value: int)
    | ForeignKeyViolation(graph: GraphId)

  /** The range of the `INT` columns `graph_versions.version` and
      `published.version`. */
  const INT4_MIN: int := -0x8000_0000
  const INT4_MAX: int := 0x7fff_ffff

  predicate IsInt4(v: int) {
    INT4_MIN <= v <= INT4_MAX
  }

  /** The schema's foreign keys, the range of the version columns, and the
      numbering rule: every graph's versions are 1, 2, ..., n without gaps. */
  ghost predicate Consistent(t: Tables) {
    && (forall k | k in t.versions :: k.0 in t.graphs)
    && (forall k | k in t.published :: k.0 in t.graphs)
    && (forall k | k in t.published :: IsInt4(t.published[k]))
    && (forall k | k in t.versions :: 1 <= k.1 <= INT4_MAX)
    && (forall g, v, w | (g, v) in t.versions && 1 <= w <= v :: (g, w) in t.versions)
  }

  /** The keys of the rows stored for graph `id`. */
  function KeysOf(t: Tables, id: GraphId): set<(GraphId, int)>
  {
    set k | k in t.versions && k.0 == id
  }

  /** The version numbers stored for graph `id`. */
  function VersionsOf(t: Tables, id: GraphId): set<int>
  {
    set k | k in KeysOf(t, id) :: k.1
  }

  predicate IsMax(s: set<int>, m: int) {
    m in s && forall y | y in s :: y <= m
  }

  lemma VersionInVersionsOf(t: Tables, id: GraphId, v: int)
    ensures v in VersionsOf(t, id) <==> (id, v) in t.versions
  {
    if (id, v) in t.versions {
      assert (id, v) in KeysOf(t, id);
    }
  }

  /** Every non-empty finite set of keys has one with the largest version. */
  lemma {:induction false} TopKeyExists(ks: set<(GraphId, int)>)
    requires ks != {}
    ensures exists m :: m in ks && forall k | k in ks :: k.1 <= m.1
    decreases |ks|
  {
    var x :| x in ks;
    var rest := ks - {x};
    if rest == {} {
      assert ks == {x};
    } else {
      TopKeyExists(rest);
      var r :| r in rest && forall k | k in rest :: k.1 <= r.1;
      if x.1 > r.1 {
        assert forall k | k in ks :: k.1 <= x.1;
      } else {
        assert forall k | k in ks :: k.1 <= r.1;
      }
    }
  }

  /** `MAX(version)` over the graph's rows, `None` (SQL NULL) for none. */
  ghost function Highest(t: Tables, id: GraphId): (h: Option<int>)
    ensures h.None? <==> VersionsOf(t, id) == {}
    ensures h.Some? ==> IsMax(VersionsOf(t, id), h.value) && (id, h.value) in t.versions
  {
    var ks := KeysOf(t, id);
    if ks == {} then
      assert VersionsOf(t, id) == {};
      None
    else
      TopKeyExists(ks);
      var m :| m in ks && forall k | k in ks :: k.1 <= m.1;
      assert m.1 in VersionsOf(t, id);
      Some(m.1)
  }

  /** The largest element of a set is unique: whatever maximum a scan
      finds is `Highest`. */
  lemma HighestIsTheMax(t: Tables, id: GraphId, m: int)
    requires IsMax(VersionsOf(t, id), m)
    ensures Highest(t, id) == Some(m)
  {
  }

  /** `COALESCE(MAX(version), 0) + 1`: the number the next version gets. */
  ghost function NextVersion(t: Tables, id: GraphId): int
  {
    match Highest(t, id)
    case None => 1
    case Some(h) => h + 1
  }

  /** `comment || null` */
  function StoredComment(comment: Option<Json>): Option<Json>
  {
    if Present(comment) then comment else None
  }

  /** `upsertGraphNewVersion` as one transaction: the graph row is inserted
      if missing, the new version is numbered `max + 1`; a number outside
      the `INT` range makes the insert fail and the whole transaction roll
      back. */
  ghost function AddVersion(t: Tables, id: GraphId, content: Json, comment: Option<Json>)
    : (Result<int, DbError>, Tables)
  {
    var v := NextVersion(t, id);
    if !IsInt4(v) then (Err(IntegerOutOfRange(v)), t)
    else (Ok(v), t.(graphs := t.graphs + {id},
                    versions := t.versions[(id, v) := VersionRow(content, StoredComment(comment))]))
  }

  /** `getGraphVersion`: the stored content, or null when the row is
      missing or its content is falsy (`rows[0]?.content || null`). A number
      outside the `INT` range is rejected by the database. */
  function LookupVersion(t: Tables, id: GraphId, version: int): Result<Option<Json>, DbError>
  {
    if !IsInt4(version) then Err(IntegerOutOfRange(version))
    else if (id, version) in t.versions && Truthy(t.versions[(id, version)].content)
    then Ok(Some(t.versions[(id, version)].content))
    else Ok(None)
  }

  /** The row `getLatestGraph` returns. */
  datatype Latest = Latest(version: int, content: Json)

  /** `getLatestGraph`: the highest-numbered version and its content. */
  ghost function LatestGraph(t: Tables, id: GraphId): Option<Latest>
  {
    match Highest(t, id)
    case None => None
    case Some(h) => Some(Latest(h, t.versions[(id, h)].content))
  }

  /** `getPublishedVersion`: the published version, or null when there is
      none or it is 0 (`rows[0]?.version || null`). */
  function PublishedVersion(t: Tables, id: GraphId, env: Env): Option<int>
  {
    if (id, env) in t.published && t.published[(id, env)] != 0
    then Some(t.published[(id, env)])
    else None
  }

  /** `setPublished`: an insert that updates the row on a `(graph_id, env)`
      conflict. It fails when the version is outside the `INT` range or the
      graph row does not exist (the foreign key); it does not check that the
      version exists. */
  function SetPublication(t: Tables, id: GraphId, env: Env, version: int): (Outcome<DbError>, Tables)
  {
    if !IsInt4(version) then (Fail(IntegerOutOfRange(version)), t)
    else if id !in t.graphs then (Fail(ForeignKeyViolation(id)), t)
    else (Pass, t.(published := t.published[(id, env) := version]))
  }

  /** `deleteGraph`: the graph row goes, and `ON DELETE CASCADE` takes its
      versions and its published rows with it. */
  function RemoveGraph(t: Tables, id: GraphId): Tables
  {
    Tables(t.graphs - {id},
           map k | k in t.versions && k.0 != id :: t.versions[k],
           map k | k in t.published && k.0 != id :: t.published[k])
  }

  /** The set {1, ..., n}. */
  function UpTo(n: nat): set<int>
  {
    if n == 0 then {} else UpTo(n - 1) + {n}
  }

  lemma {:induction false} UpToSpec(n: nat)
    ensures forall v :: v in UpTo(n) <==> 1 <= v <= n
    ensures |UpTo(n)| == n
  {
    if n > 0 {
      UpToSpec(n - 1);
    }
  }

  /** The number of versions a graph has: its highest version number, 0
      when it has none. */
  ghost function VersionCount(t: Tables, id: GraphId): nat
    requires Consistent(t)
  {
    match Highest(t, id)
    case None => 0
    case Some(h) =>
      VersionInVersionsOf(t, id, h);
      h
  }

  /** With no per-version delete and every new version numbered `max + 1`,
      a graph's versions are exactly 1, ..., n, and n is how many it has. */
  lemma VersionsAreOneToN(t: Tables, id: GraphId)
    requires Consistent(t)
    ensures VersionsOf(t, id) == UpTo(VersionCount(t, id))
    ensures |VersionsOf(t, id)| == VersionCount(t, id)
  {
    var n := VersionCount(t, id);
    UpToSpec(n);
    forall v | v in VersionsOf(t, id)
      ensures v in UpTo(n)
    {
      VersionInVersionsOf(t, id, v);
    }
    forall v | v in UpTo(n)
      ensures v in VersionsOf(t, id)
    {
      VersionInVersionsOf(t, id, n);
      VersionInVersionsOf(t, id, v);
    }
  }

  /** Adding a version keeps the foreign keys, the `INT` range and the
      1..n numbering. */
  lemma AddVersionKeepsConsistent(t: Tables, id: GraphId, content: Json, comment: Option<Json>)
    requires Consistent(t)
    ensures Consistent(AddVersion(t, id, content, comment).1)
  {
    var (r, t') := AddVersion(t, id, content, comment);
    if r.Ok? {
      var v := r.value;
      forall g, a, w | (g, a) in t'.versions && 1 <= w <= a
        ensures (g, w) in t'.versions
      {
        if (g, a) !in t.versions {
          assert g == id && a == v;
          if w < v {
            var h := Highest(t, id).value;
            VersionInVersionsOf(t, id, h);
            assert (id, h) in t.versions && w <= h;
          }
        }
      }
      if Highest(t, id).Some? {
        VersionInVersionsOf(t, id, Highest(t, id).value);
      }
    }
  }

  /** `upsertGraphNewVersion` numbers the new version one past the highest
      (so a graph's first version is 1) and fails only when that number
      would leave the `INT` range. */
  lemma AddVersionNumbering(t: Tables, id: GraphId, content: Json, comment: Option<Json>)
    requires Consistent(t)
    ensures var r := AddVersion(t, id, content, comment).0;
            && (r.Ok? <==> VersionCount(t, id) < INT4_MAX)
            && (VersionsOf(t, id) == {} ==> r == Ok(1))
            && (r.Ok? ==> r.value == VersionCount(t, id) + 1 && r.value !in VersionsOf(t, id))
  {
    VersionsAreOneToN(t, id);
    UpToSpec(VersionCount(t, id));
  }

  /** After a successful add, the graph's versions are the old ones plus
      the new one, which is the latest and reads back with its content. */
  lemma AddVersionMakesLatest(t: Tables, id: GraphId, content: Json, comment: Option<Json>)
    requires Consistent(t)
    ensures var (r, t') := AddVersion(t, id, content, comment);
            r.Ok? ==>
              && VersionsOf(t', id) == VersionsOf(t, id) + {r.value}
              && LatestGraph(t', id) == Some(Latest(r.value, content))
              && LookupVersion(t', id, r.value) == Ok(if Truthy(content) then Some(content) else None)
  {
    var (r, t') := AddVersion(t, id, content, comment);
    if r.Ok? {
      var v := r.value;
      AddVersionNumbering(t, id, content, comment);
      forall w | w in VersionsOf(t', id)
        ensures w in VersionsOf(t, id) + {v}
      {
        VersionInVersionsOf(t', id, w);
        VersionInVersionsOf(t, id, w);
      }
      forall w | w in VersionsOf(t, id) + {v}
        ensures w in VersionsOf(t', id)
      {
        VersionInVersionsOf(t', id, w);
        VersionInVersionsOf(t, id, w);
      }
      assert IsMax(VersionsOf(t', id), v);
      HighestIsTheMax(t', id, v);
    }
  }

  /** Adding a version creates the graph row if it is missing, leaves every
      stored version as it was, and touches neither other graphs' versions
      nor any publication. */
  lemma AddVersionFrame(t: Tables, id: GraphId, content: Json, comment: Option<Json>)
    requires Consistent(t)
    ensures var (r, t') := AddVersion(t, id, content, comment);
            && t'.graphs == (if r.Ok? then t.graphs + {id} else t.graphs)
            && t'.published == t.published
            && (forall k | k in t.versions :: k in t'.versions && t'.versions[k] == t.versions[k])
            && (forall k | k in t'.versions && k.0 != id :: k in t.versions)
  {
    var (r, t') := AddVersion(t, id, content, comment);
    if r.Ok? {
      var v := r.value;
      AddVersionNumbering(t, id, content, comment);
      VersionInVersionsOf(t, id, v);
    }
  }

  /** `setPublished` succeeds exactly when the version fits the `INT`
      column and the graph row exists; afterwards `getPublishedVersion`
      reads the version back (null for 0), and no other `(graph, env)`
      pair and no version changes. */
  lemma SetPublicationSpec(t: Tables, id: GraphId, env: Env, version: int)
    ensures var (r, t') := SetPublication(t, id, env, version);
            && (r.Pass? <==> IsInt4(version) && id in t.graphs)
            && (r.Pass? ==> PublishedVersion(t', id, env) == (if version == 0 then None else Some(version)))
            && (r.Fail? ==> t' == t)
            && t'.graphs == t.graphs && t'.versions == t.versions
            && (forall g, e | (g, e) != (id, env) :: PublishedVersion(t', g, e) == PublishedVersion(t, g, e))
  {
  }

  /** Publishing the same version twice is the same as publishing it once. */
  lemma SetPublicationIdempotent(t: Tables, id: GraphId, env: Env, version: int)
    ensures var (r1, t1) := SetPublication(t, id, env, version);
            SetPublication(t1, id, env, version) == (r1, t1)
  {
    var (r1, t1) := SetPublication(t, id, env, version);
    if r1.Pass? {
      assert t1.published[(id, env) := version] == t1.published;
    }
  }

  lemma SetPublicationKeepsConsistent(t: Tables, id: GraphId, env: Env, version: int)
    requires Consistent(t)
    ensures Consistent(SetPublication(t, id, env, version).1)
  {
  }

  /** `deleteGraph` removes the graph with all its versions and all its
      publications, leaves every other graph's rows as they were, and keeps
      the tables consistent. */
  lemma RemoveGraphCascades(t: Tables, id: GraphId)
    requires Consistent(t)
    ensures var t' := RemoveGraph(t, id);
            && id !in t'.graphs
            && VersionsOf(t', id) == {}
            && Highest(t', id) == None
            && (forall e :: PublishedVersion(t', id, e) == None)
            && (forall g | g != id :: (g in t'.graphs <==> g in t.graphs))
            && (forall k | k in t.versions && k.0 != id :: k in t'.versions && t'.versions[k] == t.versions[k])
            && (forall g, e | g != id :: PublishedVersion(t', g, e) == PublishedVersion(t, g, e))
            && Consistent(t')
  {
    var t' := RemoveGraph(t, id);
    forall v | v in VersionsOf(t', id)
      ensures false
    {
      VersionInVersionsOf(t', id, v);
    }
  }

  /** A row of `listVersions` (`created_at` is not modelled). */
  datatype VersionInfo = VersionInfo(version: int, comment: Option<Json>)

  /** A row of `listGraphs` (`updated_at` is not modelled). */
  datatype GraphSummary = GraphSummary(id: GraphId, name: string, latestVersion: Option<int>)

  /** The database, with the three tables as fields that each store
      function updates in place. */
  class Store {
    var graphs: set<GraphId>
    var versions: map<(GraphId, int), VersionRow>
    var published: map<(GraphId, Env), int>

    function State(): Tables
      reads this
    {
      Tables(graphs, versions, published)
    }

    ghost predicate Valid()
      reads this
    {
      Consistent(State())
    }

    /** `migrate()` on an empty database: the three tables, empty. */
    constructor ()
      ensures Valid()
      ensures State() == Tables({}, map[], map[])
    {
      graphs := {};
      versions := map[];
      published := map[];
    }

    /** Scans the graph's rows for the highest version number
        (`MAX(version)`, and `ORDER BY version DESC LIMIT 1`). */
    method HighestVersion(id: GraphId) returns (top: Option<int>)
      ensures top == Highest(State(), id)
      ensures top.None? <==> VersionsOf(State(), id) == {}
      ensures top.Some? ==> (id, top.value) in versions
                            && forall v | v in VersionsOf(State(), id) :: v <= top.value
    {
      var rest := versions.Keys;
      top := None;
      while rest != {}
        invariant rest <= versions.Keys
        invariant top.None? ==> forall k | k in versions.Keys - rest :: k.0 != id
        invariant top.Some? ==> (id, top.value) in versions.Keys - rest
        invariant top.Some? ==> forall k | k in versions.Keys - rest && k.0 == id :: k.1 <= top.value
        decreases rest
      {
        var k :| k in rest;
        rest := rest - {k};
        if k.0 == id && (top.None? || k.1 > top.value) {
          top := Some(k.1);
        }
      }
      var vs := VersionsOf(State(), id);
      if top.Some? {
        assert IsMax(vs, top.value);
        HighestIsTheMax(State(), id, top.value);
      } else {
        assert vs == {};
      }
    }

    /** `upsertGraphNewVersion(id, content, comment)`: returns the new
        version number, or the error that rolled the transaction back. */
    method UpsertGraphNewVersion(id: GraphId, content: Json, comment: Option<Json>)
      returns (r: Result<int, DbError>)
      modifies this
      ensures (r, State()) == AddVersion(old(State()), id, content, comment)
      ensures old(Valid()) ==> Valid()
    {
      ghost var before := State();
      var graphsBefore := graphs;
      graphs := graphs + {id};
      var top := HighestVersion(id);
      var version := (if top.Some? then top.value else 0) + 1;
      if !IsInt4(version) {
        graphs := graphsBefore;
        r := Err(IntegerOutOfRange(version));
        return;
      }
      versions := versions[(id, version) := VersionRow(content, if Present(comment) then comment else None)];
      r := Ok(version);
      if Consistent(before) {
        AddVersionKeepsConsistent(before, id, content, comment);
      }
    }

    /** `getGraphVersion(id, version)` */
    method GetGraphVersion(id: GraphId, version: int) returns (r: Result<Option<Json>, DbError>)
      ensures r == LookupVersion(State(), id, version)
      ensures r.Ok? && r.value.Some? ==> version in VersionsOf(State(), id)
    {
      if !IsInt4(version) {
        return Err(IntegerOutOfRange(version));
      }
      if (id, version) in versions {
        var row := versions[(id, version)];
        if Truthy(row.content) {
          return Ok(Some(row.content));
        }
      }
      r := Ok(None);
    }

    /** `getLatestGraph(id)` */
    method GetLatestGraph(id: GraphId) returns (r: Option<Latest>)
      ensures r == LatestGraph(State(), id)
      ensures r.None? <==> VersionsOf(State(), id) == {}
      ensures r.Some? ==> (id, r.value.version) in versions
                          && r.value.content == versions[(id, r.value.version)].content
                          && forall v | v in VersionsOf(State(), id) :: v <= r.value.version
    {
      var top := HighestVersion(id);
      if top.None? {
        return None;
      }
      r := Some(Latest(top.value, versions[(id, top.value)].content));
    }

    /** `listVersions(id)`: one row per stored version, highest first. */
    method ListVersions(id: GraphId) returns (rows: seq<VersionInfo>)
      requires Valid()
      ensures forall i, j | 0 <= i < j < |rows| :: rows[i].version > rows[j].version
      ensures (set i | 0 <= i < |rows| :: rows[i].version) == VersionsOf(State(), id)
      ensures forall i | 0 <= i < |rows| ::
                (id, rows[i].version) in versions
                && rows[i].comment == versions[(id, rows[i].version)].comment
    {
      var top := HighestVersion(id);
      var n := if top.Some? then top.value else 0;
      rows := [];
      var v := n;
      while v >= 1
        invariant 0 <= v <= n
        invariant |rows| == n - v
        invariant forall i | 0 <= i < |rows| :: rows[i].version == n - i
        invariant forall i | 0 <= i < |rows| ::
                    (id, rows[i].version) in versions
                    && rows[i].comment == versions[(id, rows[i].version)].comment
      {
        if (id, v) in versions {
          rows := rows + [VersionInfo(v, versions[(id, v)].comment)];
        }
        v := v - 1;
      }
      var listed := set i | 0 <= i < |rows| :: rows[i].version;
      forall w | w in VersionsOf(State(), id)
        ensures w in listed
      {
        assert rows[n - w].version == w;
      }
    }

    /** `deleteGraph(id)` */
    method DeleteGraph(id: GraphId)
      modifies this
      ensures State() == RemoveGraph(old(State()), id)
      ensures old(Valid()) ==> Valid()
    {
      if Valid() {
        RemoveGraphCascades(State(), id);
      }
      graphs := graphs - {id};
      versions := map k | k in versions && k.0 != id :: versions[k];
      published := map k | k in published && k.0 != id :: published[k];
    }

    /** `setPublished(id, env, version)` */
    method SetPublished(id: GraphId, env: Env, version: int) returns (r: Outcome<DbError>)
      modifies this
      ensures (r, State()) == SetPublication(old(State()), id, env, version)
      ensures old(Valid()) ==> Valid()
    {
      if Valid() {
        SetPublicationKeepsConsistent(State(), id, env, version);
      }
      if !IsInt4(version) {
        return Fail(IntegerOutOfRange(version));
      }
      if id !in graphs {
        return Fail(ForeignKeyViolation(id));
      }
      published := published[(id, env) := version];
      r := Pass;
    }

    /** `getPublishedVersion(id, env)` */
    method GetPublishedVersion(id: GraphId, env: Env) returns (r: Option<int>)
      ensures r == PublishedVersion(State(), id, env)
      ensures r.Some? ==> r.value != 0 && published[(id, env)] == r.value
    {
      if (id, env) in published && published[(id, env)] != 0 {
        return Some(published[(id, env)]);
      }
      r := None;
    }

    /** `listGraphs()`: one row per graph with its name (the id it was
        created with) and its highest version, null when it has none. */
    method ListGraphs() returns (rows: seq<GraphSummary>)
      ensures forall i, j | 0 <= i < j < |rows| :: rows[i].id != rows[j].id
      ensures forall i | 0 <= i < |rows| :: rows[i].id in graphs
      ensures forall g | g in graphs :: exists i | 0 <= i < |rows| :: rows[i].id == g
      ensures forall i | 0 <= i < |rows| ::
                rows[i].name == rows[i].id && rows[i].latestVersion == Highest(State(), rows[i].id)
    {
      var rest := graphs;
      rows := [];
      while rest != {}
        invariant rest <= graphs
        invariant forall i | 0 <= i < |rows| :: rows[i].id in graphs - rest
        invariant forall i, j | 0 <= i < j < |rows| :: rows[i].id != rows[j].id
        invariant forall h | h in graphs - rest :: exists i | 0 <= i < |rows| :: rows[i].id == h
        invariant forall i | 0 <= i < |rows| ::
                    rows[i].name == rows[i].id && rows[i].latestVersion == Highest(State(), rows[i].id)
        decreases rest
      {
        var g :| g in rest;
        var top := HighestVersion(g);
        ghost var listed, unlisted := rows, rest;
        rows := rows + [GraphSummary(g, g, top)];
        rest := rest - {g};
        forall h | h in graphs - rest
          ensures exists i | 0 <= i < |rows| :: rows[i].id == h
        {
          if h == g {
            assert rows[|rows| - 1].id == h;
          } else {
            assert h in graphs - unlisted;
            var i :| 0 <= i < |listed| && listed[i].id == h;
            assert rows[i].id == h;
          }
        }
      }
      assert graphs - rest == graphs;
    }
  }
}
