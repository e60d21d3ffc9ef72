/** The HTTP handlers of the simulator server over the graph store: saving a
    new version, reading a graph, listing versions, publishing a version to
    an environment, reading the publication, deleting a graph, and the
    simulation handler that decides which graph to run. */
module Server {
  import opened Values
  import opened JsText
  import opened Requests
  import opened GraphStore

  /** The `source` tag of a simulation: which rule chose the graph. */
  datatype Source = SourceInline | SourceVersion | SourcePublished | SourceLatest

  /** Why a request ended in a 500: the database raised, or the decision
      engine did. */
  datatype Failure = Database(dbError: DbError) | Engine(message: string)

  /** The replies the handlers send. Every constructor but the last three
      is a 200. */
  datatype Reply =
    | Saved(id: GraphId, version: int)
    | GraphContent(content: Json)
    | VersionList(rows: seq<VersionInfo>)
    | PublishedAs(id: GraphId, env: Env, version: int)
    | PublishedInfo(id: GraphId, env: Env, current: Option<int>)
    | Deleted(id: GraphId)
    | Simulated(id: GraphId, env: Env, usedVersion: Option<int>, source: Source, result: Json)
    | BadRequest(message: string)
    | NotFound(message: string)
    | ServerError(failure: Failure)

  const GRAPH_IS_REQUIRED: string := "graph is required"
  const GRAPH_NOT_FOUND: string := "graph not found"
  const NEEDS_NODES_AND_EDGES: string :=
    "graph is required (inline or stored) and must contain nodes/edges"

  /** A version given as a query parameter or body field, as the handlers
      read it: `raw ? parseInt(String(raw), 10) : null`, and then only a
      truthy number (not NaN, not 0) counts as a version. `raw` is the text
      `String(raw)` yields, `None` when the value is missing. */
  function VersionParam(raw: Option<string>): (v: Option<int>)
    ensures v.Some? ==> v.value != 0
  {
    if !Given(raw) then None
    else match ParseInt(raw.value)
      case None => None
      case Some(n) => if n == 0 then None else Some(n)
  }

  /** A version written in decimal, optionally followed by text that does
      not start with a digit, reads back as that version; 0 reads as no
      version at all. */
  lemma VersionParamOfDecimal(n: int, rest: string)
    requires rest == [] || !IsDigit(rest[0])
    ensures VersionParam(Some(ToDecimal(n) + rest)) == if n == 0 then None else Some(n)
  {
    ParseIntOfDecimal(n, rest);
    assert ToDecimal(n) != [] by {
      NatToDecimalDigits(if n < 0 then -n else n);
    }
  }

  // ---------- POST /api/graphs/:id ----------

  /** Saving: the body's graph (see `ExtractGraphForSave`) is stored as a
      new version with the body's `comment`; a body without one is a 400. */
  ghost function SaveSpec(t: Tables, id: GraphId, body: Option<Json>): (Reply, Tables)
  {
    var model := ExtractGraphForSave(body);
    if model.None? then (BadRequest(GRAPH_IS_REQUIRED), t)
    else
      var (r, t') := AddVersion(t, id, model.value, FieldOf(body, "comment"));
      (match r
       case Ok(v) => Saved(id, v)
       case Err(e) => ServerError(Database(e)), t')
  }

  method SaveGraph(store: Store, id: GraphId, body: Option<Json>) returns (reply: Reply)
    modifies store
    ensures (reply, store.State()) == SaveSpec(old(store.State()), id, body)
  {
    var model := ExtractGraphForSave(body);
    if model.None? {
      return BadRequest(GRAPH_IS_REQUIRED);
    }
    var comment := FieldOf(body, "comment");
    var r := store.UpsertGraphNewVersion(id, model.value, comment);
    match r
    case Ok(v) => reply := Saved(id, v);
    case Err(e) => reply := ServerError(Database(e));
  }

  /** A save is rejected exactly when the body carries no graph, and then
      nothing changes; otherwise the graph is stored as version n + 1,
      which fails only past the `INT` range. The tables stay consistent. */
  lemma SaveOutcome(t: Tables, id: GraphId, body: Option<Json>)
    requires Consistent(t)
    ensures var (reply, t') := SaveSpec(t, id, body);
            && (reply.BadRequest? <==> ExtractGraphForSave(body).None?)
            && (reply.BadRequest? ==> t' == t)
            && (reply.Saved? <==> ExtractGraphForSave(body).Some? && VersionCount(t, id) < INT4_MAX)
            && (reply.Saved? ==> reply.id == id && reply.version == VersionCount(t, id) + 1)
            && Consistent(t')
  {
    var model := ExtractGraphForSave(body);
    if model.Some? {
      AddVersionNumbering(t, id, model.value, FieldOf(body, "comment"));
      AddVersionKeepsConsistent(t, id, model.value, FieldOf(body, "comment"));
    }
  }

  // ---------- GET /api/graphs/:id ----------

  /** Reading a graph: with a truthy `?version`, that version's content;
      otherwise the latest version's content; `{}` when there is none. The
      published version plays no part. */
  ghost function GetGraphSpec(t: Tables, id: GraphId, versionText: Option<string>): Reply
  {
    match VersionParam(versionText)
    case Some(v) =>
      (match LookupVersion(t, id, v)
       case Err(e) => ServerError(Database(e))
       case Ok(c) => GraphContent(if c.Some? then c.value else EmptyObject))
    case None =>
      var latest := LatestGraph(t, id);
      GraphContent(if latest.Some? && Truthy(latest.value.content) then latest.value.content else EmptyObject)
  }

  method GetGraph(store: Store, id: GraphId, versionText: Option<string>) returns (reply: Reply)
    ensures reply == GetGraphSpec(store.State(), id, versionText)
    ensures reply.GraphContent? || reply.ServerError?
  {
    var vq := VersionParam(versionText);
    if vq.Some? {
      var r := store.GetGraphVersion(id, vq.value);
      match r
      case Err(e) => return ServerError(Database(e));
      case Ok(c) => return GraphContent(if c.Some? then c.value else EmptyObject);
    }
    var latest := store.GetLatestGraph(id);
    reply := GraphContent(if latest.Some? && Truthy(latest.value.content) then latest.value.content else EmptyObject);
  }

  /** What was saved reads back: after a successful save, reading the graph
      by the returned version yields the saved graph. */
  lemma SaveThenGetVersion(t: Tables, id: GraphId, body: Option<Json>)
    requires Consistent(t)
    ensures var (reply, t') := SaveSpec(t, id, body);
            reply.Saved? ==>
              GetGraphSpec(t', id, Some(ToDecimal(reply.version))) == GraphContent(ExtractGraphForSave(body).value)
  {
    var (reply, t') := SaveSpec(t, id, body);
    if reply.Saved? {
      var model := ExtractGraphForSave(body).value;
      AddVersionMakesLatest(t, id, model, FieldOf(body, "comment"));
      assert LookupVersion(t', id, reply.version) == Ok(Some(model));
      VersionParamOfDecimal(reply.version, []);
      assert ToDecimal(reply.version) + [] == ToDecimal(reply.version);
    }
  }

  /** After a successful save, reading the graph without a version yields
      the saved graph. */
  lemma SaveThenGetLatest(t: Tables, id: GraphId, body: Option<Json>)
    requires Consistent(t)
    ensures var (reply, t') := SaveSpec(t, id, body);
            reply.Saved? ==> GetGraphSpec(t', id, None) == GraphContent(ExtractGraphForSave(body).value)
  {
    var (reply, t') := SaveSpec(t, id, body);
    if reply.Saved? {
      AddVersionMakesLatest(t, id, ExtractGraphForSave(body).value, FieldOf(body, "comment"));
    }
  }

  /** Reading a graph does not look at the publications at all. */
  lemma GetIgnoresPublications(t: Tables, id: GraphId, versionText: Option<string>,
                               published: map<(GraphId, Env), int>)
    ensures GetGraphSpec(t.(published := published), id, versionText) == GetGraphSpec(t, id, versionText)
  {
    var t2 := t.(published := published);
    assert VersionsOf(t2, id) == VersionsOf(t, id);
  }

  // ---------- GET /api/graphs/:id/versions ----------

  method ListVersionsHandler(store: Store, id: GraphId) returns (reply: Reply)
    requires store.Valid()
    ensures reply.VersionList?
    ensures forall i, j | 0 <= i < j < |reply.rows| :: reply.rows[i].version > reply.rows[j].version
    ensures (set i | 0 <= i < |reply.rows| :: reply.rows[i].version) == VersionsOf(store.State(), id)
    ensures forall i | 0 <= i < |reply.rows| ::
              (id, reply.rows[i].version) in store.versions
              && reply.rows[i].comment == store.versions[(id, reply.rows[i].version)].comment
  {
    var rows := store.ListVersions(id);
    reply := VersionList(rows);
  }

  // ---------- POST /api/graphs/:id/publish ----------

  /** Publishing: the body's truthy `version`, or else the latest version
      (404 when the graph has none), becomes the environment's published
      version. Whether that version exists is not checked. */
  ghost function PublishSpec(t: Tables, id: GraphId, queryEnv: Option<string>, headerEnv: Option<string>,
                             bodyVersion: Option<string>): (Reply, Tables)
  {
    var env := GetEnv(queryEnv, headerEnv);
    var chosen :=
      match VersionParam(bodyVersion)
      case Some(v) => Some(v)
      case None =>
        (match LatestGraph(t, id)
         case Some(l) => Some(l.version)
         case None => None);
    if chosen.None? then (NotFound(GRAPH_NOT_FOUND), t)
    else
      var (r, t') := SetPublication(t, id, env, chosen.value);
      (match r
       case Pass => PublishedAs(id, env, chosen.value)
       case Fail(e) => ServerError(Database(e)), t')
  }

  method Publish(store: Store, id: GraphId, queryEnv: Option<string>, headerEnv: Option<string>,
                 bodyVersion: Option<string>) returns (reply: Reply)
    modifies store
    ensures (reply, store.State()) == PublishSpec(old(store.State()), id, queryEnv, headerEnv, bodyVersion)
  {
    var env := GetEnv(queryEnv, headerEnv);
    var version := VersionParam(bodyVersion);
    if version.None? {
      var latest := store.GetLatestGraph(id);
      if latest.None? {
        return NotFound(GRAPH_NOT_FOUND);
      }
      version := Some(latest.value.version);
    }
    var r := store.SetPublished(id, env, version.value);
    match r
    case Pass => reply := PublishedAs(id, env, version.value);
    case Fail(e) => reply := ServerError(Database(e));
  }

  /** Without a body version, publishing picks the latest version, or
      answers 404 and changes nothing when the graph has no versions. */
  lemma PublishDefaultsToLatest(t: Tables, id: GraphId, queryEnv: Option<string>, headerEnv: Option<string>,
                                bodyVersion: Option<string>)
    requires Consistent(t)
    requires VersionParam(bodyVersion).None?
    ensures var env := GetEnv(queryEnv, headerEnv);
            var (reply, t') := PublishSpec(t, id, queryEnv, headerEnv, bodyVersion);
            && (VersionsOf(t, id) == {} ==> reply == NotFound(GRAPH_NOT_FOUND) && t' == t)
            && (VersionsOf(t, id) != {} ==>
                  && reply == PublishedAs(id, env, VersionCount(t, id))
                  && PublishedVersion(t', id, env) == Some(VersionCount(t, id))
                  && Consistent(t'))
  {
    var env := GetEnv(queryEnv, headerEnv);
    if VersionsOf(t, id) != {} {
      var h := Highest(t, id).value;
      assert (id, h) in t.versions;
      SetPublicationSpec(t, id, env, h);
      SetPublicationKeepsConsistent(t, id, env, h);
    }
  }

  /** An explicit body version is published without checking that it is
      stored: any version in the `INT` range of an existing graph becomes
      the published one. */
  lemma PublishDoesNotCheckVersion(t: Tables, id: GraphId, queryEnv: Option<string>, headerEnv: Option<string>,
                                   bodyVersion: Option<string>)
    requires VersionParam(bodyVersion).Some?
    ensures var v := VersionParam(bodyVersion).value;
            var env := GetEnv(queryEnv, headerEnv);
            var (reply, t') := PublishSpec(t, id, queryEnv, headerEnv, bodyVersion);
            && (reply.PublishedAs? <==> IsInt4(v) && id in t.graphs)
            && (reply.PublishedAs? ==> reply.version == v && PublishedVersion(t', id, env) == Some(v))
            && t'.versions == t.versions
  {
    var v := VersionParam(bodyVersion).value;
    SetPublicationSpec(t, id, GetEnv(queryEnv, headerEnv), v);
  }

  lemma PublishKeepsConsistent(t: Tables, id: GraphId, queryEnv: Option<string>, headerEnv: Option<string>,
                               bodyVersion: Option<string>)
    requires Consistent(t)
    ensures Consistent(PublishSpec(t, id, queryEnv, headerEnv, bodyVersion).1)
  {
    var env := GetEnv(queryEnv, headerEnv);
    var (reply, t') := PublishSpec(t, id, queryEnv, headerEnv, bodyVersion);
    if reply.PublishedAs? {
      SetPublicationKeepsConsistent(t, id, env, reply.version);
    }
  }

  // ---------- GET /api/graphs/:id/published ----------

  method GetPublished(store: Store, id: GraphId, queryEnv: Option<string>, headerEnv: Option<string>)
    returns (reply: Reply)
    ensures var env := GetEnv(queryEnv, headerEnv);
            reply == PublishedInfo(id, env, PublishedVersion(store.State(), id, env))
    ensures reply.current.Some? ==> reply.current.value != 0
  {
    var env := GetEnv(queryEnv, headerEnv);
    var version := store.GetPublishedVersion(id, env);
    reply := PublishedInfo(id, env, version);
  }

  // ---------- DELETE /api/graphs/:id ----------

  method DeleteGraphHandler(store: Store, id: GraphId) returns (reply: Reply)
    modifies store
    ensures reply == Deleted(id)
    ensures store.State() == RemoveGraph(old(store.State()), id)
  {
    store.DeleteGraph(id);
    reply := Deleted(id);
  }

  // ---------- POST /api/simulate/:id ----------

  /** The graph a simulation runs against, the version it came from and
      the rule that chose it. */
  datatype Resolution = Resolution(model: Option<Json>, usedVersion: Option<int>, source: Source)

  /** First match wins: an inline `graph` in the body, then a truthy
      `?version`, then the version published for the environment, then the
      latest version. A published version is read as is: when it is not
      stored the model is null, with no fallback to the latest. */
  ghost function Resolve(t: Tables, id: GraphId, env: Env, versionText: Option<string>, body: Option<Json>)
    : Result<Resolution, DbError>
  {
    var inline := ExtractGraphForSim(body);
    if inline.Some? then Ok(Resolution(inline, None, SourceInline))
    else match VersionParam(versionText)
      case Some(v) =>
        (match LookupVersion(t, id, v)
         case Ok(m) => Ok(Resolution(m, Some(v), SourceVersion))
         case Err(e) => Err(e))
      case None =>
        match PublishedVersion(t, id, env)
        case Some(p) =>
          (match LookupVersion(t, id, p)
           case Ok(m) => Ok(Resolution(m, Some(p), SourcePublished))
           case Err(e) => Err(e))
        case None =>
          var latest := LatestGraph(t, id);
          Ok(Resolution(
               if latest.Some? && Truthy(latest.value.content) then Some(latest.value.content) else None,
               if latest.Some? && latest.value.version != 0 then Some(latest.value.version) else None,
               SourceLatest))
  }

  /** The defences after resolution: a string model is parsed as JSON (and
      kept as it is when it does not parse), then one `{graph: …}` wrapper
      is removed. `parse` stands for `JSON.parse`, `None` for a throw. */
  function Normalize(model: Option<Json>, parse: string -> Option<Json>): (r: Option<Json>)
    ensures model.None? ==> r.None?
    ensures model.Some? && !model.value.JString? && Present(Field(model.value, "graph")) ==>
              r == Field(model.value, "graph")
    ensures model.Some? && !model.value.JString? && !Present(Field(model.value, "graph")) ==> r == model
    ensures model.Some? && model.value.JString? && parse(model.value.s).None? ==> r == model
    ensures model.Some? && model.value.JString? && parse(model.value.s).Some? ==>
              var j := parse(model.value.s).value;
              r == if Present(Field(j, "graph")) then Field(j, "graph") else Some(j)
  {
    var parsed :=
      if model.Some? && model.value.JString? then
        (match parse(model.value.s)
         case Some(j) => Some(j)
         case None => model)
      else model;
    if Present(parsed) && Present(FieldOf(parsed, "graph")) then FieldOf(parsed, "graph") else parsed
  }

  /** The graph can be simulated: it is truthy and has truthy `nodes` and
      `edges`. */
  predicate HasNodesAndEdges(model: Option<Json>): (b: bool)
    ensures b <==> && model.Some? && model.value.JObject?
                   && "nodes" in model.value.fields && Truthy(model.value.fields["nodes"])
                   && "edges" in model.value.fields && Truthy(model.value.fields["edges"])
  {
    Present(model) && Present(FieldOf(model, "nodes")) && Present(FieldOf(model, "edges"))
  }

  /** `req.body?.payload ?? {}` */
  function Payload(body: Option<Json>): (p: Json)
    ensures FieldOf(body, "payload").Some? && FieldOf(body, "payload").value != JNull ==>
              p == FieldOf(body, "payload").value
    ensures FieldOf(body, "payload").None? || FieldOf(body, "payload").value == JNull ==> p == EmptyObject
  {
    var p := FieldOf(body, "payload");
    if p.Some? && p.value != JNull then p.value else EmptyObject
  }

  /** The whole simulation: resolve, normalise, reject a graph without
      nodes and edges, and run the decision engine (`evaluate`, which
      stands for `createDecision(…).evaluate(payload)`) on the rest. */
  ghost function SimulateSpec(t: Tables, id: GraphId, queryEnv: Option<string>, headerEnv: Option<string>,
                              versionText: Option<string>, body: Option<Json>,
                              parse: string -> Option<Json>, evaluate: (Json, Json) -> Result<Json, string>)
    : Reply
  {
    var env := GetEnv(queryEnv, headerEnv);
    match Resolve(t, id, env, versionText, body)
    case Err(e) => ServerError(Database(e))
    case Ok(res) =>
      var model := Normalize(res.model, parse);
      if !HasNodesAndEdges(model) then BadRequest(NEEDS_NODES_AND_EDGES)
      else match evaluate(model.value, Payload(body))
        case Err(m) => ServerError(Engine(m))
        case Ok(result) => Simulated(id, env, res.usedVersion, res.source, result)
  }

  /** The first half of `simulateHandler`: reassigns the model, the
      version used and the source tag as it walks the precedence. */
  method ResolveModel(store: Store, id: GraphId, env: Env, versionText: Option<string>, body: Option<Json>)
    returns (r: Result<Resolution, DbError>)
    ensures r == Resolve(store.State(), id, env, versionText, body)
  {
    var model := ExtractGraphForSim(body);
    var usedVersion: Option<int> := None;
    var source := SourceInline;
    if model.None? {
      var qv := VersionParam(versionText);
      if qv.Some? {
        var stored := store.GetGraphVersion(id, qv.value);
        if stored.Err? {
          return Err(stored.error);
        }
        model, usedVersion, source := stored.value, qv, SourceVersion;
      } else {
        var pubV := store.GetPublishedVersion(id, env);
        if pubV.Some? {
          var stored := store.GetGraphVersion(id, pubV.value);
          if stored.Err? {
            return Err(stored.error);
          }
          model, usedVersion, source := stored.value, pubV, SourcePublished;
        } else {
          var latest := store.GetLatestGraph(id);
          model := if latest.Some? && Truthy(latest.value.content) then Some(latest.value.content) else None;
          usedVersion := if latest.Some? && latest.value.version != 0 then Some(latest.value.version) else None;
          source := SourceLatest;
        }
      }
    }
    r := Ok(Resolution(model, usedVersion, source));
  }

  /** `simulateHandler`: resolves the model, then normalises and checks it
      before handing it to the engine. */
  method Simulate(store: Store, id: GraphId, queryEnv: Option<string>, headerEnv: Option<string>,
                  versionText: Option<string>, body: Option<Json>,
                  parse: string -> Option<Json>, evaluate: (Json, Json) -> Result<Json, string>)
    returns (reply: Reply)
    ensures reply == SimulateSpec(store.State(), id, queryEnv, headerEnv, versionText, body, parse, evaluate)
    ensures reply.Simulated? ==> reply.id == id && reply.env == GetEnv(queryEnv, headerEnv)
  {
    var env := GetEnv(queryEnv, headerEnv);
    var payload := Payload(body);
    var resolved := ResolveModel(store, id, env, versionText, body);
    if resolved.Err? {
      return ServerError(Database(resolved.error));
    }
    var model := resolved.value.model;
    if model.Some? && model.value.JString? {
      var parsed := parse(model.value.s);
      if parsed.Some? {
        model := parsed;
      }
    }
    if Present(model) && Present(FieldOf(model, "graph")) {
      model := FieldOf(model, "graph");
    }
    assert model == Normalize(resolved.value.model, parse);
    if !HasNodesAndEdges(model) {
      return BadRequest(NEEDS_NODES_AND_EDGES);
    }
    var result := evaluate(model.value, payload);
    match result
    case Err(m) => reply := ServerError(Engine(m));
    case Ok(res) => reply := Simulated(id, env, resolved.value.usedVersion, resolved.value.source, res);
  }

  /** `POST /api/simulate`: the same handler for the graph "default". */
  method SimulateDefault(store: Store, queryEnv: Option<string>, headerEnv: Option<string>,
                         versionText: Option<string>, body: Option<Json>,
                         parse: string -> Option<Json>, evaluate: (Json, Json) -> Result<Json, string>)
    returns (reply: Reply)
    ensures reply == SimulateSpec(store.State(), "default", queryEnv, headerEnv, versionText, body, parse, evaluate)
  {
    reply := Simulate(store, "default", queryEnv, headerEnv, versionText, body, parse, evaluate);
  }

  // ---------- Properties of the simulation ----------

  /** The source tag names the first rule whose input is present, and only
      a version number outside the `INT` range makes resolution fail. */
  lemma SourceFollowsPrecedence(t: Tables, id: GraphId, env: Env, versionText: Option<string>, body: Option<Json>)
    ensures var r := Resolve(t, id, env, versionText, body);
            var inline := ExtractGraphForSim(body).Some?;
            var asked := VersionParam(versionText).Some?;
            var published := PublishedVersion(t, id, env).Some?;
            && (r.Err? <==> !inline && ((asked && !IsInt4(VersionParam(versionText).value))
                                        || (!asked && published && !IsInt4(PublishedVersion(t, id, env).value))))
            && (r.Ok? ==>
                  && (r.value.source == SourceInline <==> inline)
                  && (r.value.source == SourceVersion <==> !inline && asked)
                  && (r.value.source == SourcePublished <==> !inline && !asked && published)
                  && (r.value.source == SourceLatest <==> !inline && !asked && !published))
  {
  }

  /** A rule that fires makes every later input irrelevant: an inline graph
      ignores the tables, the environment and `?version`; a `?version`
      ignores the environment and the publications. */
  lemma HigherRuleIgnoresLowerInputs(t: Tables, t2: Tables, id: GraphId, env: Env, env2: Env,
                                     versionText: Option<string>, versionText2: Option<string>, body: Option<Json>)
    ensures ExtractGraphForSim(body).Some? ==>
              Resolve(t, id, env, versionText, body) == Resolve(t2, id, env2, versionText2, body)
    ensures VersionParam(versionText).Some? && t2.versions == t.versions ==>
              Resolve(t, id, env, versionText, body) == Resolve(t2, id, env2, versionText, body)
  {
  }

  /** Every graph taken from the store is the content stored under the
      version the reply reports. */
  lemma ResolvedModelIsStored(t: Tables, id: GraphId, env: Env, versionText: Option<string>, body: Option<Json>)
    requires Consistent(t)
    ensures var r := Resolve(t, id, env, versionText, body);
            r.Ok? && r.value.source != SourceInline && r.value.model.Some? ==>
              && r.value.usedVersion.Some?
              && (id, r.value.usedVersion.value) in t.versions
              && r.value.model.value == t.versions[(id, r.value.usedVersion.value)].content
  {
    var r := Resolve(t, id, env, versionText, body);
    if r.Ok? && r.value.source == SourceLatest && r.value.model.Some? {
      var h := Highest(t, id).value;
      assert (id, h) in t.versions;
    }
  }

  /** A publication wins over the latest version: once a stored version is
      published for an environment, a simulation there without an inline
      graph or `?version` resolves to that version. */
  lemma PublishThenResolve(t: Tables, id: GraphId, env: Env, v: int, versionText: Option<string>, body: Option<Json>)
    requires Consistent(t)
    requires v in VersionsOf(t, id)
    requires ExtractGraphForSim(body).None? && VersionParam(versionText).None?
    ensures var (r, t') := SetPublication(t, id, env, v);
            && r.Pass?
            && Resolve(t', id, env, versionText, body)
               == Ok(Resolution(LookupVersion(t, id, v).value, Some(v), SourcePublished))
  {
    VersionInVersionsOf(t, id, v);
    assert (id, v) in t.versions;
  }

  /** With nothing published for the environment, a simulation without an
      inline graph or `?version` resolves to the graph just saved, reporting its
      new version. */
  lemma SaveThenResolve(t: Tables, id: GraphId, saveBody: Option<Json>, env: Env,
                        versionText: Option<string>, body: Option<Json>)
    requires Consistent(t)
    requires PublishedVersion(t, id, env).None?
    requires ExtractGraphForSim(body).None? && VersionParam(versionText).None?
    ensures var (reply, t') := SaveSpec(t, id, saveBody);
            reply.Saved? ==>
              Resolve(t', id, env, versionText, body)
              == Ok(Resolution(ExtractGraphForSave(saveBody), Some(reply.version), SourceLatest))
  {
    var (reply, t') := SaveSpec(t, id, saveBody);
    if reply.Saved? {
      var model := ExtractGraphForSave(saveBody).value;
      AddVersionMakesLatest(t, id, model, FieldOf(saveBody, "comment"));
      AddVersionFrame(t, id, model, FieldOf(saveBody, "comment"));
    }
  }

  /** A published version that is not stored (publishing does not check)
      makes the simulation a 400, even when the graph has other versions:
      there is no fallback to the latest. */
  lemma DanglingPublicationIsBadRequest(t: Tables, id: GraphId, queryEnv: Option<string>, headerEnv: Option<string>,
                                        versionText: Option<string>, body: Option<Json>,
                                        parse: string -> Option<Json>, evaluate: (Json, Json) -> Result<Json, string>)
    requires Consistent(t)
    requires ExtractGraphForSim(body).None? && VersionParam(versionText).None?
    requires PublishedVersion(t, id, GetEnv(queryEnv, headerEnv)).Some?
    requires PublishedVersion(t, id, GetEnv(queryEnv, headerEnv)).value !in VersionsOf(t, id)
    ensures SimulateSpec(t, id, queryEnv, headerEnv, versionText, body, parse, evaluate)
            == BadRequest(NEEDS_NODES_AND_EDGES)
  {
    var env := GetEnv(queryEnv, headerEnv);
    var p := PublishedVersion(t, id, env).value;
    VersionInVersionsOf(t, id, p);
    assert (id, env) in t.published;
  }

  /** After a delete, a simulation without an inline graph finds nothing,
      whatever was published or asked for, and is a 400; reading the graph
      gives `{}`. The one exception is a `?version` outside the INT range,
      which both requests still turn into a database error. */
  lemma DeleteThenNothingResolves(t: Tables, id: GraphId, queryEnv: Option<string>, headerEnv: Option<string>,
                                  versionText: Option<string>, body: Option<Json>,
                                  parse: string -> Option<Json>, evaluate: (Json, Json) -> Result<Json, string>)
    requires Consistent(t)
    requires ExtractGraphForSim(body).None?
    ensures var t' := RemoveGraph(t, id);
            var v := VersionParam(versionText);
            && (v.None? ==>
                  Resolve(t', id, GetEnv(queryEnv, headerEnv), versionText, body) == Ok(Resolution(None, None, SourceLatest)))
            && (v.None? || IsInt4(v.value) ==>
                  && SimulateSpec(t', id, queryEnv, headerEnv, versionText, body, parse, evaluate)
                     == BadRequest(NEEDS_NODES_AND_EDGES)
                  && GetGraphSpec(t', id, versionText) == GraphContent(EmptyObject))
            && (v.Some? && !IsInt4(v.value) ==>
                  && SimulateSpec(t', id, queryEnv, headerEnv, versionText, body, parse, evaluate)
                     == ServerError(Database(IntegerOutOfRange(v.value)))
                  && GetGraphSpec(t', id, versionText) == ServerError(Database(IntegerOutOfRange(v.value))))
  {
    RemoveGraphCascades(t, id);
    var v := VersionParam(versionText);
    if v.Some? {
      VersionInVersionsOf(RemoveGraph(t, id), id, v.value);
    }
  }

  /** A simulation only ever reaches the engine with a graph that has
      truthy nodes and edges, and with the request's payload or `{}`. */
  lemma SimulatedGraphHasNodesAndEdges(t: Tables, id: GraphId, queryEnv: Option<string>, headerEnv: Option<string>,
                                       versionText: Option<string>, body: Option<Json>,
                                       parse: string -> Option<Json>, evaluate: (Json, Json) -> Result<Json, string>)
    ensures var reply := SimulateSpec(t, id, queryEnv, headerEnv, versionText, body, parse, evaluate);
            var r := Resolve(t, id, GetEnv(queryEnv, headerEnv), versionText, body);
            && (reply.Simulated? ==>
                  && r.Ok?
                  && HasNodesAndEdges(Normalize(r.value.model, parse))
                  && evaluate(Normalize(r.value.model, parse).value, Payload(body)) == Ok(reply.result))
            && (reply.BadRequest? <==> r.Ok? && !HasNodesAndEdges(Normalize(r.value.model, parse)))
  {
  }

  /** Reading a graph and simulating it disagree once a version older than
      the latest is published: the read shows the latest content, the
      simulation resolves to the published one and reports that older version, so
      the two differ whenever the latest content is truthy and differs from
      the published one. */
  lemma GetAndSimulateDisagree(t: Tables, id: GraphId, env: Env, body: Option<Json>)
    requires Consistent(t)
    requires ExtractGraphForSim(body).None?
    requires PublishedVersion(t, id, env).Some?
    requires PublishedVersion(t, id, env).value in VersionsOf(t, id)
    requires Truthy(t.versions[(id, PublishedVersion(t, id, env).value)].content)
    requires PublishedVersion(t, id, env).value != Highest(t, id).value
    ensures var p := PublishedVersion(t, id, env).value;
            var latest := LatestGraph(t, id).value;
            var simulated := t.versions[(id, p)].content;
            && p < latest.version
            && Resolve(t, id, env, None, body) == Ok(Resolution(Some(simulated), Some(p), SourcePublished))
            && GetGraphSpec(t, id, None)
               == GraphContent(if Truthy(latest.content) then latest.content else EmptyObject)
            && (Truthy(latest.content) && simulated != latest.content ==> GetGraphSpec(t, id, None) != GraphContent(simulated))
  {
    var p := PublishedVersion(t, id, env).value;
    VersionInVersionsOf(t, id, p);
  }

  // ---------- Properties of the normalisation ----------

  /** `{graph: g}` with a truthy `g`. */
  function Wrapped(g: Json): Json
  {
    JObject(map["graph" := g])
  }

  /** Only one `{graph: …}` wrapper is removed: a doubly wrapped graph
      keeps its inner wrapper. */
  lemma NormalizeUnwrapsOnce(g: Json, parse: string -> Option<Json>)
    requires Truthy(g)
    ensures Normalize(Some(Wrapped(g)), parse) == Some(g)
    ensures Normalize(Some(Wrapped(Wrapped(g))), parse) == Some(Wrapped(g))
  {
  }

  /** A model in string form is simulated as the JSON it parses to; one
      that does not parse stays a string and has no nodes or edges. */
  lemma NormalizeParsesStringForm(text: string, parse: string -> Option<Json>)
    ensures parse(text).Some? && !parse(text).value.JString? ==>
              Normalize(Some(JString(text)), parse) == Normalize(parse(text), parse)
    ensures parse(text).None? ==>
              Normalize(Some(JString(text)), parse) == Some(JString(text))
              && !HasNodesAndEdges(Normalize(Some(JString(text)), parse))
  {
  }

  /** A graph with nodes and edges and no truthy `graph` field passes the
      normalisation unchanged. */
  lemma NormalizeKeepsPlainGraphs(m: Json, parse: string -> Option<Json>)
    requires HasNodesAndEdges(Some(m))
    requires !Present(Field(m, "graph"))
    ensures Normalize(Some(m), parse) == Some(m)
  {
  }
}
