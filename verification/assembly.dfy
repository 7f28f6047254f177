/**
 * The first half of main.go's `main`: the grammar pool read from the JSON
 * schema includes, and the assembly of one WADLMethod per declared method
 * (arguments from the request, results, example and acceptable status
 * codes from the responses), stored in the method map by name.  Reading a
 * schema file and dereferencing an example are the parameters
 * `loadSchema` and `loadExample`; `None` is a read that fails.
 */
module Assembly {
  import opened Text
  import opened Json
  import opened Wadl
  import opened Outcome
  import opened Variables

  // ----- grammar pool -----

  /**
   * path.Ext: the suffix of the final path element that starts at its last
   * '.', or "" when that element has no '.'.
   */
  function Ext(path: string): (r: string)
    ensures r == "" || (r[0] == '.' && EndsWith(path, r) && '.' !in r[1..] && '/' !in r)
    ensures r == "" ==> forall i :: 0 <= i < |path| && path[i] == '.' ==> '/' in path[i + 1..]
  {
    if |path| == 0 || path[|path| - 1] == '/' then ""
    else if path[|path| - 1] == '.' then "."
    else
      var e := Ext(path[..|path| - 1]);
      if e == "" then "" else
        assert path == path[..|path| - 1] + [path[|path| - 1]];
        e + [path[|path| - 1]]
  }

  /** A name whose final element has no '.' has no extension. */
  lemma {:induction false} ExtWithoutDot(path: string)
    requires '.' !in path
    ensures Ext(path) == ""
  {
    if |path| > 0 && path[|path| - 1] != '/' {
      var front := path[..|path| - 1];
      assert '.' !in front by {
        forall c | c in front ensures c != '.' {
          assert c in path;
        }
      }
      ExtWithoutDot(front);
    }
  }

  /** The extension of `<name>.json` is ".json" whatever the name. */
  lemma JsonExtension(name: string)
    ensures Ext(name + ".json") == ".json"
  {
    var p1, p2, p3, p4, p5 := name + ".", name + ".j", name + ".js", name + ".jso", name + ".json";
    assert Ext(p1) == ".";
    assert p2[..|p2| - 1] == p1;
    assert Ext(p2) == ".j";
    assert p3[..|p3| - 1] == p2;
    assert Ext(p3) == ".js";
    assert p4[..|p4| - 1] == p3;
    assert Ext(p4) == ".jso";
    assert p5[..|p5| - 1] == p4;
  }

  /** Does an include name a JSON schema? */
  predicate IsJsonInclude(href: string)
  {
    Ext(href) == ".json"
  }

  /**
   * The grammar loop of main: the variables of every `.json` include, in
   * include order; other includes are skipped; a schema that cannot be read
   * aborts.
   */
  function GrammarPool(includes: seq<string>, loadSchema: string -> Option<seq<Member>>): (r: Result<seq<Variable>>)
    ensures r.Fail? ==> exists i :: 0 <= i < |includes| && IsJsonInclude(includes[i])
    decreases |includes|
  {
    if |includes| == 0 then Ok([])
    else
      var last := includes[|includes| - 1];
      var pool :- GrammarPool(includes[..|includes| - 1], loadSchema);
      if !IsJsonInclude(last) then Ok(pool)
      else
        match loadSchema(last)
        case None => Fail(SchemaUnreadable(last))
        case Some(schema) =>
          var vars :- SchemaToVariables(schema);
          Ok(pool + vars)
  }

  /** The include can be read and its schema converted. */
  predicate SchemaLoads(href: string, loadSchema: string -> Option<seq<Member>>)
  {
    loadSchema(href).Some? && SchemaToVariables(loadSchema(href).value).Ok?
  }

  /** What one include puts in the pool: its schema's variables when it is a JSON include that loads. */
  function IncludeVariables(href: string, loadSchema: string -> Option<seq<Member>>): seq<Variable>
  {
    if IsJsonInclude(href) && SchemaLoads(href, loadSchema)
    then SchemaToVariables(loadSchema(href).value).value
    else []
  }

  /** The concatenation of `parts`, from the first on. */
  function Flatten<T>(parts: seq<seq<T>>): (r: seq<T>)
    decreases |parts|
  {
    if |parts| == 0 then [] else parts[0] + Flatten(parts[1..])
  }

  lemma {:induction false} FlattenSnoc<T>(parts: seq<seq<T>>, last: seq<T>)
    ensures Flatten(parts + [last]) == Flatten(parts) + last
    decreases |parts|
  {
    if |parts| == 0 {
      assert parts + [last] == [last];
      assert [last][1..] == [];
    } else {
      assert (parts + [last])[1..] == parts[1..] + [last];
      FlattenSnoc(parts[1..], last);
    }
  }

  /** The includes' variables concatenated from the first include on. */
  function PoolOf(includes: seq<string>, loadSchema: string -> Option<seq<Member>>): seq<Variable>
  {
    Flatten(seq(|includes|, i requires 0 <= i < |includes| => IncludeVariables(includes[i], loadSchema)))
  }

  lemma PoolOfSnoc(includes: seq<string>, href: string, loadSchema: string -> Option<seq<Member>>)
    ensures PoolOf(includes + [href], loadSchema) == PoolOf(includes, loadSchema) + IncludeVariables(href, loadSchema)
  {
    var parts := seq(|includes|, i requires 0 <= i < |includes| => IncludeVariables(includes[i], loadSchema));
    var last := IncludeVariables(href, loadSchema);
    assert seq(|includes + [href]|, i requires 0 <= i < |includes + [href]| => IncludeVariables((includes + [href])[i], loadSchema))
           == parts + [last];
    FlattenSnoc(parts, last);
  }

  /** One more include: the loop fails when it did already or this JSON include does not load, and otherwise appends. */
  lemma GrammarPoolStep(includes: seq<string>, href: string, loadSchema: string -> Option<seq<Member>>)
    ensures GrammarPool(includes + [href], loadSchema).Fail?
            <==> GrammarPool(includes, loadSchema).Fail? || (IsJsonInclude(href) && !SchemaLoads(href, loadSchema))
    ensures GrammarPool(includes + [href], loadSchema).Ok?
            ==> GrammarPool(includes + [href], loadSchema).value
                == GrammarPool(includes, loadSchema).value + IncludeVariables(href, loadSchema)
  {
    assert (includes + [href])[..|includes|] == includes;
  }

  /**
   * The grammar loop reads exactly the JSON includes: it fails exactly
   * when one of them cannot be read or converted, and otherwise its pool
   * is their variables in include order.
   */
  lemma {:induction false} GrammarPoolIsPoolOf(includes: seq<string>, loadSchema: string -> Option<seq<Member>>)
    ensures GrammarPool(includes, loadSchema).Fail?
            <==> exists i :: 0 <= i < |includes| && IsJsonInclude(includes[i]) && !SchemaLoads(includes[i], loadSchema)
    ensures GrammarPool(includes, loadSchema).Ok? ==> GrammarPool(includes, loadSchema).value == PoolOf(includes, loadSchema)
    decreases |includes|
  {
    if |includes| > 0 {
      var n := |includes| - 1;
      var front, last := includes[..n], includes[n];
      assert includes == front + [last];
      GrammarPoolIsPoolOf(front, loadSchema);
      GrammarPoolStep(front, last, loadSchema);
      PoolOfSnoc(front, last, loadSchema);
      SomeIncludeFails(front, last, loadSchema);
    }
  }

  /** Some include of `front + [last]` fails to load exactly when one of `front` does or `last` does. */
  lemma SomeIncludeFails(front: seq<string>, last: string, loadSchema: string -> Option<seq<Member>>)
    ensures (exists i :: 0 <= i < |front + [last]| && IsJsonInclude((front + [last])[i]) && !SchemaLoads((front + [last])[i], loadSchema))
            <==> (exists i :: 0 <= i < |front| && IsJsonInclude(front[i]) && !SchemaLoads(front[i], loadSchema))
                 || (IsJsonInclude(last) && !SchemaLoads(last, loadSchema))
  {
    var all := front + [last];
    if exists i :: 0 <= i < |all| && IsJsonInclude(all[i]) && !SchemaLoads(all[i], loadSchema) {
      var i :| 0 <= i < |all| && IsJsonInclude(all[i]) && !SchemaLoads(all[i], loadSchema);
      if i < |front| {
        assert front[i] == all[i];
      }
    }
    if exists i :: 0 <= i < |front| && IsJsonInclude(front[i]) && !SchemaLoads(front[i], loadSchema) {
      var i :| 0 <= i < |front| && IsJsonInclude(front[i]) && !SchemaLoads(front[i], loadSchema);
      assert all[i] == front[i];
    }
    if IsJsonInclude(last) && !SchemaLoads(last, loadSchema) {
      assert all[|front|] == last;
    }
  }

  // ----- request assembly -----

  /** The pool variables whose URI is exactly `ref`, in pool order. */
  function PoolMatches(pool: seq<Variable>, ref: string): (r: seq<Variable>)
    ensures |r| <= |pool|
    ensures forall v :: v in r <==> v in pool && v.uri == ref
  {
    if |pool| == 0 then []
    else (if pool[0].uri == ref then [pool[0]] else []) + PoolMatches(pool[1..], ref)
  }

  /** How many pool variables carry `ref` as their URI. */
  function CountUri(pool: seq<Variable>, ref: string): nat
  {
    if |pool| == 0 then 0 else (if pool[0].uri == ref then 1 else 0) + CountUri(pool[1..], ref)
  }

  /** Every match is kept, not only the first. */
  lemma {:induction false} PoolMatchesAll(pool: seq<Variable>, ref: string)
    ensures |PoolMatches(pool, ref)| == CountUri(pool, ref)
  {
    if |pool| > 0 {
      PoolMatchesAll(pool[1..], ref);
    }
  }

  /**
   * What one request representation adds: nothing unless its media type is
   * exactly application/json; otherwise the pool variables its `json:ref`
   * names (when it has one), then its own parameters.
   */
  function RepresentationArguments(rep: RawRepresentation, pool: seq<Variable>): (r: seq<Variable>)
    ensures rep.mediaType != JsonMediaType ==> r == []
    ensures rep.mediaType == JsonMediaType && rep.jsonRef == "" ==> r == ParamsToVariables(rep.params)
    ensures rep.mediaType == JsonMediaType && rep.jsonRef != ""
            ==> |r| >= |rep.params| && r[..|r| - |rep.params|] == PoolMatches(pool, rep.jsonRef)
                && r[|r| - |rep.params|..] == ParamsToVariables(rep.params)
  {
    if rep.mediaType != JsonMediaType then []
    else
      var matched := if rep.jsonRef != "" then PoolMatches(pool, rep.jsonRef) else [];
      var own := ParamsToVariables(rep.params);
      assert (matched + own)[..|matched|] == matched;
      matched + own
  }

  function RepresentationsArguments(reps: seq<RawRepresentation>, pool: seq<Variable>): (r: seq<Variable>)
    decreases |reps|
  {
    if |reps| == 0 then []
    else RepresentationsArguments(reps[..|reps| - 1], pool) + RepresentationArguments(reps[|reps| - 1], pool)
  }

  /**
   * The request part of the method loop: the request's own parameters come
   * first, then the contributions of its representations in order.
   */
  function RequestArguments(request: RawRequestOption, pool: seq<Variable>): (r: seq<Variable>)
    ensures request.NoRequest? ==> r == []
    ensures request.SomeRequest? ==>
              |r| >= |request.request.params|
              && r[..|request.request.params|] == ParamsToVariables(request.request.params)
  {
    match request
    case NoRequest => []
    case SomeRequest(req) =>
      var own := ParamsToVariables(req.params);
      var rest := RepresentationsArguments(req.representations, pool);
      assert (own + rest)[..|own|] == own;
      own + rest
  }

  /** Representations that are not JSON contribute nothing. */
  lemma {:induction false} NonJsonRepresentationsIgnored(reps: seq<RawRepresentation>, pool: seq<Variable>)
    requires forall i :: 0 <= i < |reps| ==> reps[i].mediaType != JsonMediaType
    ensures RepresentationsArguments(reps, pool) == []
    decreases |reps|
  {
    if |reps| > 0 {
      NonJsonRepresentationsIgnored(reps[..|reps| - 1], pool);
    }
  }

  /**
   * The representation brings the variable `v` to the arguments: it is a
   * JSON representation and `v` is one of its parameters, or a pool
   * variable carrying its non-empty `json:ref` as URI.
   */
  predicate Contributes(rep: RawRepresentation, pool: seq<Variable>, v: Variable)
  {
    rep.mediaType == JsonMediaType
    && (v in ParamsToVariables(rep.params) || (rep.jsonRef != "" && v in pool && v.uri == rep.jsonRef))
  }

  /** One representation's arguments are exactly what it contributes. */
  lemma RepresentationArgumentsMembers(rep: RawRepresentation, pool: seq<Variable>, v: Variable)
    ensures v in RepresentationArguments(rep, pool) <==> Contributes(rep, pool, v)
  {
    var r := RepresentationArguments(rep, pool);
    if rep.mediaType == JsonMediaType && rep.jsonRef != "" {
      assert r == r[..|r| - |rep.params|] + r[|r| - |rep.params|..];
    }
  }

  /** Every argument of the representations was contributed by one of them. */
  lemma {:induction false} RepresentationsArgumentsOrigin(reps: seq<RawRepresentation>, pool: seq<Variable>, v: Variable)
    requires v in RepresentationsArguments(reps, pool)
    ensures exists i :: 0 <= i < |reps| && Contributes(reps[i], pool, v)
    decreases |reps|
  {
    var n := |reps| - 1;
    var front := RepresentationsArguments(reps[..n], pool);
    assert RepresentationsArguments(reps, pool) == front + RepresentationArguments(reps[n], pool);
    if v in front {
      RepresentationsArgumentsOrigin(reps[..n], pool, v);
      var i :| 0 <= i < n && Contributes(reps[..n][i], pool, v);
      assert reps[..n][i] == reps[i];
    } else {
      RepresentationArgumentsMembers(reps[n], pool, v);
    }
  }

  /** Conversely, whatever a representation contributes is among the arguments. */
  lemma {:induction false} RepresentationsArgumentsComplete(reps: seq<RawRepresentation>, pool: seq<Variable>, i: nat, v: Variable)
    requires i < |reps| && Contributes(reps[i], pool, v)
    ensures v in RepresentationsArguments(reps, pool)
    decreases |reps|
  {
    var n := |reps| - 1;
    var front, last := RepresentationsArguments(reps[..n], pool), RepresentationArguments(reps[n], pool);
    assert RepresentationsArguments(reps, pool) == front + last;
    if i == n {
      RepresentationArgumentsMembers(reps[n], pool, v);
      assert v in last;
    } else {
      assert reps[..n][i] == reps[i];
      RepresentationsArgumentsComplete(reps[..n], pool, i, v);
      assert v in front;
    }
  }

  /**
   * The arguments of a request are exactly its own parameters and what its
   * JSON representations contribute.
   */
  lemma RequestArgumentsMembers(req: RawRequest, pool: seq<Variable>, v: Variable)
    ensures v in RequestArguments(SomeRequest(req), pool)
            <==> v in ParamsToVariables(req.params)
                 || exists i :: 0 <= i < |req.representations| && Contributes(req.representations[i], pool, v)
  {
    var reps := req.representations;
    if v in RepresentationsArguments(reps, pool) {
      RepresentationsArgumentsOrigin(reps, pool, v);
    }
    if exists i :: 0 <= i < |reps| && Contributes(reps[i], pool, v) {
      var i :| 0 <= i < |reps| && Contributes(reps[i], pool, v);
      RepresentationsArgumentsComplete(reps, pool, i, v);
    }
  }

  // ----- response assembly -----

  /** The index of the first JSON representation, or |reps| when there is none. */
  function FirstJson(reps: seq<RawRepresentation>): (i: nat)
    ensures i <= |reps|
    ensures i < |reps| ==> reps[i].mediaType == JsonMediaType
    ensures forall j :: 0 <= j < i ==> reps[j].mediaType != JsonMediaType
  {
    if |reps| == 0 then 0
    else if reps[0].mediaType == JsonMediaType then 0
    else 1 + FirstJson(reps[1..])
  }

  /** What one response adds: results, the example (when it has a JSON representation) and status codes. */
  datatype Contribution = Contribution(results: seq<Variable>, example: Option<string>, status: seq<string>)

  /**
   * One iteration of the response loop: the response's parameters, its
   * status attribute split on single spaces, and from its first JSON
   * representation only the example (named by the first `<doc>` of that
   * representation) and that representation's parameters.  A JSON
   * representation without a `<doc>`, or whose example cannot be read,
   * aborts.
   */
  function ResponseContribution(methodId: string, resp: RawResponse, loadExample: string -> Option<string>): (r: Result<Contribution>)
    ensures r.Ok? ==> r.value.status == Split(resp.status, ' ')
    ensures r.Ok? ==> |r.value.results| >= |resp.params| && r.value.results[..|resp.params|] == ParamsToVariables(resp.params)
    ensures r.Ok? && r.value.example.None? <==> FirstJson(resp.representations) == |resp.representations|
    ensures r.Ok? && r.value.example.Some? ==>
              var rep := resp.representations[FirstJson(resp.representations)];
              |rep.docs| > 0 && loadExample(rep.docs[0]) == r.value.example
              && r.value.results == ParamsToVariables(resp.params) + ParamsToVariables(rep.params)
    ensures r.Fail? ==> FirstJson(resp.representations) < |resp.representations|
  {
    var own := ParamsToVariables(resp.params);
    var status := Split(resp.status, ' ');
    var j := FirstJson(resp.representations);
    if j == |resp.representations| then Ok(Contribution(own, None, status))
    else
      var rep := resp.representations[j];
      if |rep.docs| == 0 then Fail(ExampleDocMissing(methodId))
      else
        match loadExample(rep.docs[0])
        case None => Fail(ExampleUnreadable(methodId))
        case Some(example) =>
          var results := own + ParamsToVariables(rep.params);
          assert results[..|own|] == own;
          Ok(Contribution(results, Some(example), status))
  }

  /** The three fields the response loop fills. */
  datatype ResponseFields = ResponseFields(results: seq<Variable>, example: string, status: seq<string>)

  /**
   * The response loop: results and status codes accumulate in response
   * order; the example of the last response with a JSON representation
   * wins; the first failing response aborts.
   */
  function AssembleResponses(methodId: string, responses: seq<RawResponse>, loadExample: string -> Option<string>)
    : (r: Result<ResponseFields>)
    ensures r.Ok? ==> r.value.status == StatusCodes(responses)
    ensures r.Ok? && (forall i :: 0 <= i < |responses| ==> FirstJson(responses[i].representations) == |responses[i].representations|)
            ==> r.value.example == ""
    decreases |responses|
  {
    if |responses| == 0 then Ok(ResponseFields([], "", []))
    else
      var fields :- AssembleResponses(methodId, responses[..|responses| - 1], loadExample);
      var c :- ResponseContribution(methodId, responses[|responses| - 1], loadExample);
      Ok(ResponseFields(
        fields.results + c.results,
        if c.example.Some? then c.example.value else fields.example,
        fields.status + c.status))
  }

  /** The parameters of the responses, in order. */
  function ResponseParams(responses: seq<RawResponse>): seq<Variable>
    decreases |responses|
  {
    if |responses| == 0 then []
    else ResponseParams(responses[..|responses| - 1]) + ParamsToVariables(responses[|responses| - 1].params)
  }

  /** Without JSON representations, the results are the responses' parameters and nothing can fail. */
  lemma {:induction false} ResultsWithoutJson(methodId: string, responses: seq<RawResponse>, loadExample: string -> Option<string>)
    requires forall i :: 0 <= i < |responses| ==> FirstJson(responses[i].representations) == |responses[i].representations|
    ensures AssembleResponses(methodId, responses, loadExample).Ok?
    ensures AssembleResponses(methodId, responses, loadExample).value.results == ResponseParams(responses)
    decreases |responses|
  {
    if |responses| > 0 {
      var n := |responses| - 1;
      var last := responses[n];
      assert forall i :: 0 <= i < n ==> responses[..n][i] == responses[i];
      ResultsWithoutJson(methodId, responses[..n], loadExample);
      ContributionWithoutJson(methodId, last, loadExample);
      var prev := AssembleResponses(methodId, responses[..n], loadExample).value;
      assert AssembleResponses(methodId, responses, loadExample)
          == Ok(ResponseFields(prev.results + ParamsToVariables(last.params), prev.example,
                               prev.status + Split(last.status, ' ')));
    }
  }

  /** A response without a JSON representation contributes its own parameters and its status codes. */
  lemma ContributionWithoutJson(methodId: string, resp: RawResponse, loadExample: string -> Option<string>)
    requires FirstJson(resp.representations) == |resp.representations|
    ensures ResponseContribution(methodId, resp, loadExample)
            == Ok(Contribution(ParamsToVariables(resp.params), None, Split(resp.status, ' ')))
  {
  }

  /** The example comes from the last response, when that response has a JSON representation. */
  lemma ExampleOfLastResponse(methodId: string, responses: seq<RawResponse>, loadExample: string -> Option<string>)
    requires |responses| > 0
    requires AssembleResponses(methodId, responses, loadExample).Ok?
    requires FirstJson(responses[|responses| - 1].representations) < |responses[|responses| - 1].representations|
    ensures var rep := responses[|responses| - 1].representations[FirstJson(responses[|responses| - 1].representations)];
            |rep.docs| > 0 && loadExample(rep.docs[0]) == Some(AssembleResponses(methodId, responses, loadExample).value.example)
  {
  }

  /** Does the response have a JSON representation? */
  predicate HasJson(resp: RawResponse)
  {
    FirstJson(resp.representations) < |resp.representations|
  }

  /** The response's first JSON representation gives no example: it has no `<doc>`, or the example cannot be read. */
  predicate ExampleFails(resp: RawResponse, loadExample: string -> Option<string>)
  {
    HasJson(resp)
    && var rep := resp.representations[FirstJson(resp.representations)];
       |rep.docs| == 0 || loadExample(rep.docs[0]).None?
  }

  /** A response's results: its parameters, then those of its first JSON representation. */
  function ResponseResults(resp: RawResponse): seq<Variable>
  {
    ParamsToVariables(resp.params)
    + (if HasJson(resp) then ParamsToVariables(resp.representations[FirstJson(resp.representations)].params) else [])
  }

  /** One response on its own: it fails exactly when its example does, and its results are the ones above. */
  lemma ContributionOutcome(methodId: string, resp: RawResponse, loadExample: string -> Option<string>)
    ensures ResponseContribution(methodId, resp, loadExample).Fail? <==> ExampleFails(resp, loadExample)
    ensures ResponseContribution(methodId, resp, loadExample).Ok?
            ==> ResponseContribution(methodId, resp, loadExample).value.results == ResponseResults(resp)
  {
    if !HasJson(resp) {
      assert ParamsToVariables(resp.params) + [] == ParamsToVariables(resp.params);
    }
  }

  /** The index of the last response with a JSON representation, or -1 when there is none. */
  function LastJsonResponse(responses: seq<RawResponse>): (j: int)
    ensures -1 <= j < |responses|
    ensures j >= 0 ==> HasJson(responses[j])
    ensures forall k :: j < k < |responses| ==> !HasJson(responses[k])
    decreases |responses|
  {
    if |responses| == 0 then -1
    else if HasJson(responses[|responses| - 1]) then |responses| - 1
    else
      var j := LastJsonResponse(responses[..|responses| - 1]);
      assert forall k :: 0 <= k < |responses| - 1 ==> responses[..|responses| - 1][k] == responses[k];
      j
  }

  /** One more response: the loop fails when it did already or this response's example fails. */
  lemma AssembleResponsesStep(methodId: string, responses: seq<RawResponse>, resp: RawResponse, loadExample: string -> Option<string>)
    ensures AssembleResponses(methodId, responses + [resp], loadExample).Fail?
            <==> AssembleResponses(methodId, responses, loadExample).Fail? || ExampleFails(resp, loadExample)
    ensures AssembleResponses(methodId, responses + [resp], loadExample).Ok? ==>
              AssembleResponses(methodId, responses + [resp], loadExample).value.results
              == AssembleResponses(methodId, responses, loadExample).value.results + ResponseResults(resp)
  {
    assert (responses + [resp])[..|responses|] == responses;
    ContributionOutcome(methodId, resp, loadExample);
  }

  /**
   * The response loop fails exactly when some response's example fails,
   * and otherwise its results are every response's results in order.
   */
  lemma {:induction false} AssembleResponsesOutcome(methodId: string, responses: seq<RawResponse>, loadExample: string -> Option<string>)
    ensures AssembleResponses(methodId, responses, loadExample).Fail?
            <==> exists i :: 0 <= i < |responses| && ExampleFails(responses[i], loadExample)
    ensures AssembleResponses(methodId, responses, loadExample).Ok?
            ==> AssembleResponses(methodId, responses, loadExample).value.results
                == Flatten(seq(|responses|, i requires 0 <= i < |responses| => ResponseResults(responses[i])))
    decreases |responses|
  {
    if |responses| > 0 {
      var n := |responses| - 1;
      var front, last := responses[..n], responses[n];
      assert responses == front + [last];
      AssembleResponsesOutcome(methodId, front, loadExample);
      AssembleResponsesStep(methodId, front, last, loadExample);
      var parts := seq(n, i requires 0 <= i < n => ResponseResults(front[i]));
      assert seq(|responses|, i requires 0 <= i < |responses| => ResponseResults(responses[i]))
             == parts + [ResponseResults(last)];
      FlattenSnoc(parts, ResponseResults(last));
      SomeExampleFails(front, last, loadExample);
    }
  }

  /** Some response of `front + [last]` fails exactly when one of `front` does or `last` does. */
  lemma SomeExampleFails(front: seq<RawResponse>, last: RawResponse, loadExample: string -> Option<string>)
    ensures (exists i :: 0 <= i < |front + [last]| && ExampleFails((front + [last])[i], loadExample))
            <==> (exists i :: 0 <= i < |front| && ExampleFails(front[i], loadExample)) || ExampleFails(last, loadExample)
  {
    var all := front + [last];
    if exists i :: 0 <= i < |all| && ExampleFails(all[i], loadExample) {
      var i :| 0 <= i < |all| && ExampleFails(all[i], loadExample);
      if i < |front| {
        assert front[i] == all[i];
      }
    }
    if exists i :: 0 <= i < |front| && ExampleFails(front[i], loadExample) {
      var i :| 0 <= i < |front| && ExampleFails(front[i], loadExample);
      assert all[i] == front[i];
    }
    if ExampleFails(last, loadExample) {
      assert all[|front|] == last;
    }
  }

  /**
   * The example the response loop keeps is the one of the last response
   * with a JSON representation, read through that representation's first
   * `<doc>`; it is "" when no response has one.
   */
  lemma {:induction false} AssembleResponsesExample(methodId: string, responses: seq<RawResponse>, loadExample: string -> Option<string>)
    requires AssembleResponses(methodId, responses, loadExample).Ok?
    ensures var example := AssembleResponses(methodId, responses, loadExample).value.example;
            var j := LastJsonResponse(responses);
            (j < 0 ==> example == "")
            && (j >= 0 ==> var rep := responses[j].representations[FirstJson(responses[j].representations)];
                           |rep.docs| > 0 && loadExample(rep.docs[0]) == Some(example))
    decreases |responses|
  {
    if |responses| > 0 {
      var n := |responses| - 1;
      if HasJson(responses[n]) {
        ExampleOfLastResponse(methodId, responses, loadExample);
      } else {
        AssembleResponsesExample(methodId, responses[..n], loadExample);
        var j := LastJsonResponse(responses[..n]);
        if j >= 0 {
          assert responses[..n][j] == responses[j];
        }
      }
    }
  }

  /** The acceptable status codes: every response's status split on single spaces, in order. */
  function StatusCodes(responses: seq<RawResponse>): (r: seq<string>)
    ensures forall i :: 0 <= i < |r| ==> ' ' !in r[i]
    decreases |responses|
  {
    if |responses| == 0 then []
    else
      var front := StatusCodes(responses[..|responses| - 1]);
      var last := Split(responses[|responses| - 1].status, ' ');
      assert forall i :: 0 <= i < |front + last| ==> (front + last)[i] in front || (front + last)[i] in last;
      front + last
  }

  /** For one response, joining its codes with a space gives back the status attribute. */
  lemma StatusCodesRoundTrip(resp: RawResponse)
    ensures Join(StatusCodes([resp]), " ") == resp.status
  {
    assert [resp][..0] == [];
    assert StatusCodes([resp]) == [] + Split(resp.status, ' ');
    assert [] + Split(resp.status, ' ') == Split(resp.status, ' ');
    JoinSplit(resp.status, ' ');
  }

  /** A status attribute with single spaces between codes yields exactly those codes. */
  lemma {:induction false} StatusOfCodes(a: string, b: string)
    requires ' ' !in a && ' ' !in b
    ensures Split(a + " " + b, ' ') == [a, b]
  {
    SplitAround(a, ' ', b);
    SplitWithoutSeparator(a, ' ');
    SplitWithoutSeparator(b, ' ');
  }

  // ----- method assembly -----

  /**
   * One iteration of the method loop: the method is named by the raw id,
   * its verb is the raw name, its URL is left for the resource walk.
   */
  function AssembleMethod(raw: RawMethod, pool: seq<Variable>, loadExample: string -> Option<string>): (r: Result<Method>)
    ensures r.Ok? ==> r.value.name == raw.id && r.value.verb == raw.verb && r.value.url == ""
    ensures r.Ok? ==> r.value.documentation == RawDocsToDoc(raw.docs)
    ensures r.Ok? ==> r.value.arguments == RequestArguments(raw.request, pool)
    ensures r.Ok? ==> r.value.acceptableStatus == StatusCodes(raw.responses)
    ensures r.Fail? <==> AssembleResponses(raw.id, raw.responses, loadExample).Fail?
    ensures r.Ok? ==> AssembleResponses(raw.id, raw.responses, loadExample).Ok?
                      && r.value.results == AssembleResponses(raw.id, raw.responses, loadExample).value.results
                      && r.value.resultsExample == AssembleResponses(raw.id, raw.responses, loadExample).value.example
  {
    var fields :- AssembleResponses(raw.id, raw.responses, loadExample);
    Ok(Method(RawDocsToDoc(raw.docs), raw.id, raw.verb, "", RequestArguments(raw.request, pool),
              fields.results, fields.example, fields.status))
  }

  /** The ids of the raw methods. */
  function Ids(raws: seq<RawMethod>): (r: set<string>)
    ensures forall i :: 0 <= i < |raws| ==> raws[i].id in r
    decreases |raws|
  {
    if |raws| == 0 then {} else Ids(raws[..|raws| - 1]) + {raws[|raws| - 1].id}
  }

  /** The index of the last raw method with a given id. */
  function LastWithId(raws: seq<RawMethod>, id: string): (i: nat)
    requires id in Ids(raws)
    ensures i < |raws| && raws[i].id == id
    ensures forall j :: i < j < |raws| ==> raws[j].id != id
    decreases |raws|
  {
    var n := |raws| - 1;
    if raws[n].id == id then n
    else
      var i := LastWithId(raws[..n], id);
      assert raws[..n][i] == raws[i];
      i
  }

  /**
   * The method loop of main: every raw method is assembled in order and
   * stored under its name, a later method replacing an earlier one of the
   * same name; the first failing method aborts.
   */
  function BuildDocument(raws: seq<RawMethod>, pool: seq<Variable>, loadExample: string -> Option<string>): (r: Result<Document>)
    ensures r.Ok? ==> r.value.Keys == Ids(raws)
    ensures r.Ok? ==> forall id :: id in r.value ==>
              AssembleMethod(raws[LastWithId(raws, id)], pool, loadExample) == Ok(r.value[id])
    decreases |raws|
  {
    if |raws| == 0 then Ok(map[])
    else
      var n := |raws| - 1;
      var doc :- BuildDocument(raws[..n], pool, loadExample);
      var m :- AssembleMethod(raws[n], pool, loadExample);
      var r := doc[m.name := m];
      BuildDocumentStep(raws, raw => AssembleMethod(raw, pool, loadExample), doc, m);
      Ok(r)
  }

  /** Storing the method assembled from the last raw method keeps the map's invariant. */
  lemma BuildDocumentStep(raws: seq<RawMethod>, assemble: RawMethod -> Result<Method>, doc: Document, m: Method)
    requires |raws| > 0 && m.name == raws[|raws| - 1].id
    requires doc.Keys == Ids(raws[..|raws| - 1])
    requires forall id :: id in doc ==>
               assemble(raws[..|raws| - 1][LastWithId(raws[..|raws| - 1], id)]) == Ok(doc[id])
    requires assemble(raws[|raws| - 1]) == Ok(m)
    ensures doc[m.name := m].Keys == Ids(raws)
    ensures forall id :: id in doc[m.name := m] ==> assemble(raws[LastWithId(raws, id)]) == Ok(doc[m.name := m][id])
  {
    var n := |raws| - 1;
    var front := raws[..n];
    var r := doc[m.name := m];
    assert Ids(raws) == Ids(front) + {m.name};
    assert r.Keys == doc.Keys + {m.name};
    forall id | id in r ensures assemble(raws[LastWithId(raws, id)]) == Ok(r[id]) {
      if id != m.name {
        var i := LastWithId(front, id);
        assert LastWithId(raws, id) == i;
        assert front[i] == raws[i];
        assert r[id] == doc[id];
      } else {
        assert LastWithId(raws, id) == n;
      }
    }
  }
}
