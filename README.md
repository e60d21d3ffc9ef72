# Graph versioning, publication and simulation resolution

This project is a Dafny model of the back end of a small business-rules
simulator (`services/simulator/server.js`). The server keeps rule graphs in
three Postgres tables:

- `graphs` holds one row per graph id;
- `graph_versions` holds the numbered, immutable versions of each graph;
- `published` holds, per graph and environment, the version that is live there.

On top of the tables the server offers these operations:

- save a new version;
- read a graph, either a given version or the latest;
- list a graph's versions;
- publish a version to an environment, and read the publication back;
- delete a graph;
- simulate, which decides which graph to run and hands it to a decision engine.

## Files

- `values.dfy` (module `Values`) holds the shared values:
  - `Option`, `Result` and `Outcome`;
  - a JSON value type;
  - JavaScript truthiness on JSON values;
  - property access on objects.
- `js_text.dfy` (module `JsText`) holds the JavaScript string built-ins the server relies on:
  - `String.prototype.trim`, with the ECMAScript white-space set;
  - `split` on a one-character separator, with its inverse `Join`;
  - `parseInt(s, 10)`;
  - the decimal text of an integer, which is what `String(n)` gives while abs(n) < 1e21 (JavaScript switches to exponent form from 1e21 upward).
- `requests.dfy` (module `Requests`) holds the pure request helpers:
  - `getEnv`;
  - `extractGraphForSave` and `extractGraphForSim`;
  - the `ORIGINS` pipeline (split, trim, drop empties);
  - the CORS origin predicate.
- `graph_store.dfy` (module `GraphStore`) holds the store:
  - the tables as a value (`Tables`);
  - each store function as one atomic transition on that value;
  - the schema constraints and the numbering rule as the predicate `Consistent`;
  - a `Store` class whose three fields are the tables. Its methods update those fields in place. Each method that changes the tables, and each single-row read, is proved equal to its transition or lookup on `Tables`. `ListVersions` and `ListGraphs` are proved against properties of the rows they return.
- `server.dfy` (module `Server`) holds the HTTP handlers. Each handler is a module-level method that takes the `Store` as a parameter. Save, read, publish, read publication, delete and simulate are proved against a specification function. The list-versions handler is proved against properties of its reply (each stored version once, in descending order). The handlers are:
  - save, read, list versions, publish, read publication, delete;
  - `simulateHandler`, with its resolution precedence, its normalisation and its nodes/edges check;
  - the compatibility route for the graph `"default"`.

The database is modelled in enough detail to reproduce the error paths that the schema's constraints cause:

- the `INT` range of the version columns: a version outside it makes the query fail, and the handler answers 500;
- the foreign keys: publishing for a graph with no `graphs` row fails;
- `ON DELETE CASCADE`;
- `COALESCE(MAX(version), 0) + 1` numbering, including overflow past `INT` and the rollback that follows.

`getGraphVersion` and `getPublishedVersion` read through `|| null`. The model keeps the consequences: a version 0 reads back as none, and falsy content reads back as none.

### Two behaviours of the code worth knowing

- **Reading and simulating use different precedences.** `GET /api/graphs/:id` (server.js:191-204) returns the requested or the latest version and never consults `published`. The simulation prefers the version published for the environment over the latest one (server.js:275-279). `GetIgnoresPublications` and `GetAndSimulateDisagree` state this.
- **Publishing does not check that the version exists.** An explicit version is published as given (server.js:222-228), whether or not it was ever saved. `PublishDoesNotCheckVersion` states this. A simulation in that environment without an inline graph or `?version` then resolves to no graph and answers 400, with no fallback to the latest version (`DanglingPublicationIsBadRequest`).

## Model

| member | source | states |
|---|---|---|
| Values.Field | services/simulator/server.js:68-69 | Property access yields a value exactly when the value is an object with that key, and then it is the key's value. |
| Values.FieldOf | services/simulator/server.js:182 | Optional chaining yields nothing on a missing value, and on a present value exactly that value's property. |
| JsText.TrimStartSpec | services/simulator/server.js:16 | Trimming the start drops a prefix of white space only. The result is a suffix of the input and does not start with white space. |
| JsText.TrimEndSpec | services/simulator/server.js:16 | Trimming the end drops a suffix of white space only. The result is a prefix of the input and does not end with white space. |
| JsText.TrimSpec | services/simulator/server.js:16 | `trim()` yields a contiguous piece of its input, with no white space at either end. |
| JsText.DigitPrefix | services/simulator/server.js:194 | The digit run `parseInt` reads is no longer than its input and is all digits. |
| JsText.NatToDecimalDigits | services/simulator/server.js:194 | The decimal text of a natural number is a non-empty digit string whose value is that number. |
| JsText.DigitPrefixStopsAt | services/simulator/server.js:194 | The digit run stops at the first non-digit. |
| JsText.ParseIntOfDigits | services/simulator/server.js:194 | `parseInt` reads an unsigned digit run as its value. |
| JsText.ParseIntOfNegativeDigits | services/simulator/server.js:194 | `parseInt` reads `-` followed by digits as the negated value. |
| JsText.ParseIntOfDecimal | services/simulator/server.js:194 | `parseInt(ToDecimal(n) + rest)` is `n` for every integer `n`, when `rest` is empty or does not start with a digit; `ToDecimal(n)` is what `String(n)` gives while abs(n) < 1e21. |
| JsText.ParseIntSkipsSpace | services/simulator/server.js:194 | Leading white space does not change what `parseInt` reads. |
| JsText.Split | services/simulator/server.js:15 | `split` always yields at least one piece. |
| JsText.SplitPiecesAvoidSeparator | services/simulator/server.js:15 | No piece of a split contains the separator. |
| JsText.SplitPiecesFromInput | services/simulator/server.js:15 | Every character of every piece of a split comes from the split string. |
| JsText.JoinSplit | services/simulator/server.js:15 | Joining the pieces of a split with the separator gives back the input. |
| JsText.SplitJoin | services/simulator/server.js:15 | Splitting the join of separator-free pieces gives back the pieces. |
| Requests.GetEnv | services/simulator/server.js:63 | The environment is the `env` query, else the `x-env` header, else `"dev"`. It is never empty. |
| Requests.ExtractGraphForSave | services/simulator/server.js:66-71 | The result is present exactly when the body has a truthy `graph`, or truthy `nodes` and `edges`. It is then `graph`, or the body itself. It is always truthy. |
| Requests.ExtractGraphForSim | services/simulator/server.js:74-77 | The result is present exactly when the body has a truthy `graph`, and then it is that `graph`. |
| Requests.InlineGraphIsSavedGraph | services/simulator/server.js:66-77 | A body with an inline graph for simulation would save that same graph. A body that saves without an inline graph saves itself. |
| Requests.TrimAll | services/simulator/server.js:16 | `.map(s => s.trim())` keeps the length and trims every element. |
| Requests.NonEmptyOnly | services/simulator/server.js:17 | `.filter(Boolean)` keeps exactly the non-empty elements, each as many times as it occurs. |
| Requests.NonEmptyOnlyAppend | services/simulator/server.js:17 | `.filter(Boolean)` keeps the order: filtering a concatenation concatenates the filtered halves. |
| Requests.NonEmptyOnlyOfEmpties | services/simulator/server.js:17 | Filtering a list of empty strings leaves nothing. |
| Requests.TrimOfSpace | services/simulator/server.js:16 | `.trim()` of a string made only of white space is empty. |
| Requests.ParseOriginsWellFormed | services/simulator/server.js:14-17 | Every configured origin is non-empty, has no comma and has no white space at either end. |
| Requests.ParseOrigins | services/simulator/server.js:14-17 | `ORIGINS` has at most one entry per comma-separated piece of the setting, and no entry is empty. |
| Requests.OriginAllowed | services/simulator/server.js:20-23 | A request without an origin is always allowed; one whose origin is not listed, with no "*" listed, is not allowed (no CORS headers are sent; the server still handles the request). |
| Requests.OriginAllowedIff | services/simulator/server.js:14-23 | For every setting, a request with an origin is allowed (gets CORS headers) exactly when some comma-separated piece of the setting trims to "*" or to that origin. |
| Requests.ParseOriginsMembership | services/simulator/server.js:14-17 | A string is a configured origin exactly when it is a non-empty, trimmed, comma-separated piece of the setting. |
| Requests.DefaultAllowsEveryOrigin | services/simulator/server.js:14-24 | With `ALLOW_ORIGINS` unset or empty, the origins are `["*"]` and every request origin is allowed. |
| Requests.OnlyCommasAllowOnlyMissingOrigin | services/simulator/server.js:14-24 | A non-empty setting made only of commas and white space configures no origin, so only requests without an origin are allowed. |
| GraphStore.Highest | services/simulator/server.js:100-104 | `MAX(version)` is none exactly when the graph has no versions. Otherwise it is the largest stored version, and that row exists. |
| GraphStore.VersionsAreOneToN | services/simulator/server.js:46 | Under the constraints, a graph's versions are exactly 1..n, and n is their count. |
| GraphStore.AddVersionKeepsConsistent | services/simulator/server.js:92-117 | Adding a version keeps the foreign keys, the `INT` range and the gap-free numbering. |
| GraphStore.AddVersionNumbering | services/simulator/server.js:100-108 | The new version is n + 1, so a graph's first version is 1. It is not already stored. The add fails only when n + 1 leaves the `INT` range. |
| GraphStore.AddVersionMakesLatest | services/simulator/server.js:105-108 | After an add, the versions are the old ones plus the new one. The new one is the latest and reads back with its content. |
| GraphStore.AddVersionFrame | services/simulator/server.js:96-99 | The graph row is created if missing. Every stored version is unchanged. No other graph gains versions. The publications are untouched. |
| GraphStore.SetPublicationSpec | services/simulator/server.js:147-161 | Publishing succeeds exactly when the version fits `INT` and the graph exists. It then reads back (0 reads as none). No other (graph, env) pair and no version changes. |
| GraphStore.SetPublicationIdempotent | services/simulator/server.js:147-153 | Publishing the same version twice equals publishing it once. |
| GraphStore.SetPublicationKeepsConsistent | services/simulator/server.js:51-57 | Publishing keeps the constraints. |
| GraphStore.RemoveGraphCascades | services/simulator/server.js:143-145 | Deleting removes the graph, all its versions and all its publications. Other graphs' rows are unchanged. The constraints still hold. |
| GraphStore.Store.constructor | services/simulator/server.js:30-57 | The migrated database is three empty tables that satisfy the constraints. |
| GraphStore.Store.HighestVersion | services/simulator/server.js:100-104 | The scan returns `MAX(version)`: none for no rows, otherwise a stored version that no other version exceeds. |
| GraphStore.Store.UpsertGraphNewVersion | services/simulator/server.js:92-117 | The new state and result are the add-version transition: max + 1, or an error with the graph row rolled back. The store invariant is kept. |
| GraphStore.Store.GetGraphVersion | services/simulator/server.js:119-125 | Returns the stored truthy content of exactly `(id, version)`, else null. A version outside `INT` is an error. |
| GraphStore.Store.GetLatestGraph | services/simulator/server.js:127-133 | Returns the highest version and its content, or null exactly when the graph has no versions. |
| GraphStore.Store.ListVersions | services/simulator/server.js:135-141 | One row per stored version, in strictly descending order, each with its stored comment. |
| GraphStore.Store.DeleteGraph | services/simulator/server.js:143-145 | The new state is the cascading delete. The store invariant is kept. |
| GraphStore.Store.SetPublished | services/simulator/server.js:147-153 | The new state and outcome are the publication upsert. The store invariant is kept. |
| GraphStore.Store.GetPublishedVersion | services/simulator/server.js:155-161 | Returns the published version, or null when there is none or it is 0. |
| GraphStore.Store.ListGraphs | services/simulator/server.js:79-90 | Exactly one row per graph. Its name is its id, and its latest version is `MAX(version)`. |
| Server.VersionParam | services/simulator/server.js:194-195 | A version parameter counts only as a non-zero number. |
| Server.VersionParamOfDecimal | services/simulator/server.js:194-195 | A decimal version, optionally followed by a non-digit, reads back as that version. 0 reads as no version. |
| Server.SaveGraph | services/simulator/server.js:177-188 | The reply and new state are the save transition. |
| Server.SaveOutcome | services/simulator/server.js:177-188 | A save is a 400 exactly when the body has no graph, and then nothing changes. Otherwise it stores version n + 1. It fails only past `INT`. Consistency is kept. |
| Server.GetGraph | services/simulator/server.js:191-204 | The reply is the requested version's content, else the latest's, else `{}`. A database error is a 500. |
| Server.SaveThenGetVersion | services/simulator/server.js:191-198 | After a save, reading by the returned version yields the saved graph. |
| Server.SaveThenGetLatest | services/simulator/server.js:199-200 | After a save, reading without a version yields the saved graph. |
| Server.GetIgnoresPublications | services/simulator/server.js:191-204 | Reading a graph does not depend on the publications. |
| Server.ListVersionsHandler | services/simulator/server.js:207-215 | The reply lists every stored version once, in descending order, each row with the comment stored for that version. |
| Server.Publish | services/simulator/server.js:218-233 | The reply and new state are the publish transition. |
| Server.PublishDefaultsToLatest | services/simulator/server.js:222-229 | Without a body version, the latest version is published. A graph without versions gives a 404 and no change. |
| Server.PublishDoesNotCheckVersion | services/simulator/server.js:222-228 | An explicit version is published exactly when it fits `INT` and the graph exists, whether or not it is stored. |
| Server.PublishKeepsConsistent | services/simulator/server.js:218-233 | Publishing keeps the constraints. |
| Server.GetPublished | services/simulator/server.js:236-245 | The reply carries the environment and its published version, never 0. |
| Server.DeleteGraphHandler | services/simulator/server.js:248-256 | The new state is the cascading delete, and the reply names the graph. |
| Server.Normalize | services/simulator/server.js:288-292 | No model stays no model. A non-string model with a truthy `graph` field is replaced by that field, whatever other fields it has; one without is kept. A string is replaced by what it parses to, unwrapped the same way; a string that does not parse is kept as it is. |
| Server.HasNodesAndEdges | services/simulator/server.js:294 | The check passes exactly for an object whose `nodes` and `edges` fields exist and are truthy. |
| Server.Payload | services/simulator/server.js:264 | The payload is the body's non-null `payload`, else `{}`. |
| Server.ResolveModel | services/simulator/server.js:265-286 | The model, version and source tag the handler settles on are those of the resolution precedence. |
| Server.Simulate | services/simulator/server.js:259-315 | The reply is resolution, then normalisation, then the nodes/edges check, then the engine. |
| Server.SimulateDefault | services/simulator/server.js:319-322 | The compatibility route simulates the graph `"default"`. |
| Server.SourceFollowsPrecedence | services/simulator/server.js:265-286 | The source tag names the first rule whose input is present: inline, then `?version`, then published, then latest. Resolution fails only on a version outside `INT`. |
| Server.HigherRuleIgnoresLowerInputs | services/simulator/server.js:265-278 | An inline graph ignores the tables, the environment and `?version`. A `?version` ignores the environment and the publications. |
| Server.ResolvedModelIsStored | services/simulator/server.js:269-286 | Every graph taken from the store is the content stored under the reported version. |
| Server.PublishThenResolve | services/simulator/server.js:275-279 | Once a stored version is published, a simulation without an inline graph or `?version` resolves to it. |
| Server.SaveThenResolve | services/simulator/server.js:280-284 | With nothing published, a simulation resolves to the graph just saved, under its new version. |
| Server.DanglingPublicationIsBadRequest | services/simulator/server.js:275-296 | Without an inline graph or `?version`, a published version that is not stored gives a 400, with no fallback to the latest version. |
| Server.DeleteThenNothingResolves | services/simulator/server.js:143-145 | After a delete, a simulation without an inline graph is a 400 and reading the graph gives `{}`, whatever `?version` asks for; a `?version` outside the INT range makes both a database error instead. |
| Server.SimulatedGraphHasNodesAndEdges | services/simulator/server.js:294-300 | The engine only runs on a graph with truthy nodes and edges. Exactly the other resolved models give a 400. |
| Server.GetAndSimulateDisagree | services/simulator/server.js:191-204 | When a stored version older than the latest one is published, the simulation resolves to it, while a read returns the latest content, so the two differ when that content is truthy and different. |
| Server.NormalizeUnwrapsOnce | services/simulator/server.js:292 | One `{graph: …}` wrapper is removed, and only one. |
| Server.NormalizeParsesStringForm | services/simulator/server.js:289-291 | A string model is used as the JSON it parses to. One that does not parse stays a string and is rejected. |
| Server.NormalizeKeepsPlainGraphs | services/simulator/server.js:289-296 | A graph with nodes and edges and no `graph` field passes unchanged. |

## Left out

- Timestamps (`created_at`, `updated_at`, `published_at`): they depend on the clock. So `listGraphs` is modelled without its `updated_at` ordering; `Store.ListGraphs` states the set of rows, not their order.
- The `name` column: it is always set to the id on insert and never updated, so `COALESCE(name, id)` is the id.
- The `comment` column is `TEXT`. The model stores the JSON value the body carried, without Postgres's conversion to text.
- JSONB normalisation and `JSON.stringify` of stored content: content is stored and read back as the same JSON value.
- Connection pooling, `BEGIN`/`COMMIT`/`ROLLBACK` and concurrency: each store function is one atomic transition. The concurrent `max + 1` race, which the unique constraint would catch, is not modelled.
- Express routing, the CORS middleware wiring (a request whose origin is not allowed is still handled; only the CORS headers are left off), `express.json`, `express.static` and `app.listen`: plumbing around the modelled handlers.
- `app.js`, the browser admin console.
- The decision engine (`createDecision`, `evaluate`): a function parameter of the simulation. `JSON.parse` is a parameter too.
- The `hrtime` timing and the `performance` string in the simulation reply: they depend on the clock and on floating point.
- Query parameters, headers and body fields that arrive as arrays or other non-string values. Version parameters are modelled by the text `String(value)` gives, and the raw value's truthiness by that text being non-empty. Every falsy raw value yields text that `parseInt` reads as NaN or 0, so the outcome is the same.
- Numbers beyond the exact range of JavaScript doubles in version parameters: such values are far outside `INT`, so the database rejects them either way.
- `GET /api/health` and `GET /api/graphs` wiring: `listGraphs` itself is modelled.
- GraphStore.Store.ListGraphs: states which rows are returned, not their `updated_at DESC, id ASC` order, because timestamps are not modelled.
- GraphStore.Store.ListVersions: requires the store invariant `Valid()`, which the migrated store establishes and every state-changing store method keeps. It walks the versions from the highest down to 1, and under the invariant those are all the versions. On tables that broke the invariant, the SQL would also list versions below 1.
- Server.SaveGraph: stores every string it is given. Postgres rejects the character U+0000 in `TEXT` and `JSONB` values. So a save whose id, comment or content holds it fails with a 500 in the code, while the model answers that it was saved. The same holds for publishing with such an id or environment.
- Generic database failures: a lost connection, an exhausted pool, or any other query failure that is not a range or foreign-key error. In the code each of these makes any handler answer 500. The model has no such failure, so every handler reply it states assumes the database answers.
