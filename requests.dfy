/** The pure request helpers of the simulator server: which environment a
    request names, which graph a request body carries, and which browser
    origins the CORS check allows (sends CORS headers for). */
module Requests {
  import opened Values
  import opened JsText

  /** A query-string value or header that may be missing; present and
      non-empty is what JavaScript treats as truthy. */
  predicate Given(o: Option<string>) {
    o.Some? && o.value != ""
  }

  /** `getEnv`: the `env` query parameter, else the `x-env` header, else
      "dev". The environment is never empty. */
  function GetEnv(queryEnv: Option<string>, headerEnv: Option<string>): (env: string)
    ensures env != ""
    ensures Given(queryEnv) ==> env == queryEnv.value
    ensures !Given(queryEnv) && Given(headerEnv) ==> env == headerEnv.value
    ensures !Given(queryEnv) && !Given(headerEnv) ==> env == "dev"
  {
    if Given(queryEnv) then queryEnv.value
    else if Given(headerEnv) then headerEnv.value
    else "dev"
  }

  /** `extractGraphForSave`: a body `{graph: …}` saves its `graph`; a raw
      body with both `nodes` and `edges` saves itself; anything else saves
      nothing. What it returns is always truthy. */
  function ExtractGraphForSave(body: Option<Json>): (r: Option<Json>)
    ensures r.Some? ==> Truthy(r.value)
    ensures r.Some? <==>
              Present(body)
              && (Present(FieldOf(body, "graph"))
                  || (Present(FieldOf(body, "nodes")) && Present(FieldOf(body, "edges"))))
    ensures Present(body) && Present(FieldOf(body, "graph")) ==> r == FieldOf(body, "graph")
    ensures r.Some? && !Present(FieldOf(body, "graph")) ==> r == body
  {
    if !Present(body) then None
    else if Present(Field(body.value, "graph")) then Field(body.value, "graph")
    else if Present(Field(body.value, "nodes")) && Present(Field(body.value, "edges")) then body
    else None
  }

  /** `extractGraphForSim`: only an explicit truthy `graph` in the body is
      an inline graph. */
  function ExtractGraphForSim(body: Option<Json>): (r: Option<Json>)
    ensures r.Some? <==> Present(body) && Present(FieldOf(body, "graph"))
    ensures r.Some? ==> Truthy(r.value) && r == FieldOf(body, "graph")
  {
    if !Present(body) then None
    else if Present(Field(body.value, "graph")) then Field(body.value, "graph")
    else None
  }

  /** A body that carries an inline graph for simulation would save that
      same graph; the converse fails for raw `{nodes, edges}` bodies. */
  lemma InlineGraphIsSavedGraph(body: Option<Json>)
    ensures ExtractGraphForSim(body).Some? ==> ExtractGraphForSave(body) == ExtractGraphForSim(body)
    ensures ExtractGraphForSave(body).Some? && ExtractGraphForSim(body).None? ==>
              ExtractGraphForSave(body) == body
  {
  }

  /** `.map(s => s.trim())` */
  function TrimAll(parts: seq<string>): (r: seq<string>)
    ensures |r| == |parts|
    ensures forall i | 0 <= i < |parts| :: r[i] == Trim(parts[i])
  {
    if parts == [] then [] else [Trim(parts[0])] + TrimAll(parts[1..])
  }

  /** `.filter(Boolean)`: keeps the non-empty strings, in order. */
  function NonEmptyOnly(parts: seq<string>): (r: seq<string>)
    ensures |r| <= |parts|
    ensures forall x :: x in r <==> x in parts && x != ""
    ensures multiset(r) == multiset(parts)["" := 0]
  {
    if parts == [] then []
    else
      assert parts == [parts[0]] + parts[1..];
      if parts[0] == "" then NonEmptyOnly(parts[1..])
      else [parts[0]] + NonEmptyOnly(parts[1..])
  }

  /** `.filter(Boolean)` keeps the order: filtering a concatenation is
      concatenating the filtered halves. */
  lemma {:induction false} NonEmptyOnlyAppend(a: seq<string>, b: seq<string>)
    ensures NonEmptyOnly(a + b) == NonEmptyOnly(a) + NonEmptyOnly(b)
  {
    if a == [] {
      assert a + b == b;
    } else {
      assert (a + b)[0] == a[0];
      assert (a + b)[1..] == a[1..] + b;
      NonEmptyOnlyAppend(a[1..], b);
    }
  }

  /** `ORIGINS`: the `ALLOW_ORIGINS` setting (or "*" when it is unset or
      empty) split at commas, each piece trimmed, empty pieces dropped. */
  function ParseOrigins(setting: Option<string>): (r: seq<string>)
    ensures |r| <= |OriginPieces(setting)|
    ensures "" !in r
  {
    var raw := if Given(setting) then setting.value else "*";
    NonEmptyOnly(TrimAll(Split(raw, ',')))
  }

  /** The boolean the CORS `origin` callback passes on: a request without
      an origin, or any origin when "*" is listed, or a listed origin, is
      allowed and gets CORS headers. A request that is not allowed still
      reaches its handler; only the CORS headers are left off. */
  function OriginAllowed(origins: seq<string>, origin: Option<string>): (ok: bool)
    ensures !Given(origin) ==> ok
    ensures Given(origin) && "*" !in origins && origin.value !in origins ==> !ok
  {
    !Given(origin) || "*" in origins || origin.value in origins
  }

  /** The comma-separated pieces of the `ALLOW_ORIGINS` setting. */
  function OriginPieces(setting: Option<string>): seq<string>
  {
    Split(if Given(setting) then setting.value else "*", ',')
  }

  /** Every entry of `ORIGINS` is non-empty, carries no comma and has no
      white space at either end. */
  lemma ParseOriginsWellFormed(setting: Option<string>, x: string)
    requires x in ParseOrigins(setting)
    ensures x != "" && ',' !in x
    ensures !IsJsSpace(x[0]) && !IsJsSpace(x[|x| - 1])
  {
    var raw := if Given(setting) then setting.value else "*";
    var pieces := Split(raw, ',');
    var trimmed := TrimAll(pieces);
    SplitPiecesAvoidSeparator(raw, ',');
    var i :| 0 <= i < |trimmed| && trimmed[i] == x;
    var p := pieces[i];
    assert ',' !in p;
    TrimSpec(p);
    var k :| TrimmedAt(p, x, k);
    forall j | 0 <= j < |x|
      ensures x[j] != ','
    {
      assert x[j] == p[k + j];
    }
  }

  /** A string is an entry of `ORIGINS` exactly when it is a non-empty,
      trimmed comma-separated piece of the setting. */
  lemma ParseOriginsMembership(setting: Option<string>, o: string)
    ensures o in ParseOrigins(setting) <==>
              o != "" && exists p | p in OriginPieces(setting) :: Trim(p) == o
  {
    var pieces := OriginPieces(setting);
    var trimmed := TrimAll(pieces);
    assert ParseOrigins(setting) == NonEmptyOnly(trimmed);
    if o in ParseOrigins(setting) {
      var i :| 0 <= i < |trimmed| && trimmed[i] == o;
      assert pieces[i] in pieces;
    }
    if o != "" && exists p | p in pieces :: Trim(p) == o {
      var p :| p in pieces && Trim(p) == o;
      var i :| 0 <= i < |pieces| && pieces[i] == p;
      assert trimmed[i] == o;
    }
  }

  /** For any setting, a request with an origin is allowed exactly when
      some comma-separated piece of the setting trims to "*" or to that
      origin. */
  lemma OriginAllowedIff(setting: Option<string>, o: string)
    requires o != ""
    ensures OriginAllowed(ParseOrigins(setting), Some(o)) <==>
              (exists p | p in OriginPieces(setting) :: Trim(p) == "*") ||
              (exists p | p in OriginPieces(setting) :: Trim(p) == o)
  {
    ParseOriginsMembership(setting, "*");
    ParseOriginsMembership(setting, o);
  }

  /** With `ALLOW_ORIGINS` unset or empty, every origin is allowed. */
  lemma DefaultAllowsEveryOrigin(setting: Option<string>, origin: Option<string>)
    requires !Given(setting)
    ensures ParseOrigins(setting) == ["*"]
    ensures OriginAllowed(ParseOrigins(setting), origin)
  {
    assert "*"[1..] == "" && "*"[0] == '*';
    assert ['*'] + "" == "*";
    assert Split("*", ',') == ["*"];
    assert !IsJsSpace('*');
    assert TrimStart("*") == "*";
    assert TrimEnd("*") == "*";
    assert TrimAll(["*"]) == ["*"];
  }

  /** A string of white space only trims to the empty string. */
  lemma {:induction false} TrimOfSpace(p: string)
    requires forall j | 0 <= j < |p| :: IsJsSpace(p[j])
    ensures TrimStart(p) == "" && Trim(p) == ""
  {
    if p != [] {
      TrimOfSpace(p[1..]);
    }
  }

  /** Filtering a list of empty strings leaves nothing. */
  lemma {:induction false} NonEmptyOnlyOfEmpties(parts: seq<string>)
    requires forall i | 0 <= i < |parts| :: parts[i] == ""
    ensures NonEmptyOnly(parts) == []
  {
    if parts != [] {
      NonEmptyOnlyOfEmpties(parts[1..]);
    }
  }

  /** A non-empty setting made only of commas and white space (such as ","
      or ",, ,") lists nothing, so only requests without an origin are let
      through. */
  lemma OnlyCommasAllowOnlyMissingOrigin(setting: string, origin: Option<string>)
    requires setting != ""
    requires forall i | 0 <= i < |setting| :: setting[i] == ',' || IsJsSpace(setting[i])
    ensures ParseOrigins(Some(setting)) == []
    ensures OriginAllowed(ParseOrigins(Some(setting)), origin) <==> !Given(origin)
  {
    var pieces := Split(setting, ',');
    var trimmed := TrimAll(pieces);
    SplitPiecesAvoidSeparator(setting, ',');
    SplitPiecesFromInput(setting, ',');
    forall i | 0 <= i < |trimmed|
      ensures trimmed[i] == ""
    {
      var p := pieces[i];
      forall j | 0 <= j < |p|
        ensures IsJsSpace(p[j])
      {
        assert p[j] in p;
        assert p[j] in setting;
        var k :| 0 <= k < |setting| && setting[k] == p[j];
      }
      TrimOfSpace(p);
    }
    NonEmptyOnlyOfEmpties(trimmed);
  }
}
