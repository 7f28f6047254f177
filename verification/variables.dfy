/**
 * The conversions of main.go that turn parsed WADL and JSON schema data
 * into WADLVariables: `rawDocsToDoc`, `rawParamToVariable` and the
 * recursive `rawJSONSchemaParamToParam` with its required-flagging pass.
 */
module Variables {
  import opened Text
  import opened Json
  import opened Wadl
  import opened Outcome

  // ----- rawDocsToDoc -----

  /** Every documentation fragment, trimmed. */
  function TrimmedAll(docs: seq<string>): (r: seq<string>)
    ensures |r| == |docs|
    ensures forall i :: 0 <= i < |docs| ==> r[i] == TrimSpace(docs[i])
  {
    seq(|docs|, i requires 0 <= i < |docs| => TrimSpace(docs[i]))
  }

  /** Every string followed by a newline, in order. */
  function Lines(parts: seq<string>): (r: string)
    ensures |parts| == 0 ==> r == ""
  {
    if |parts| == 0 then "" else parts[0] + "\n" + Lines(parts[1..])
  }

  /** The buffer rawDocsToDoc fills: each trimmed fragment followed by a newline. */
  function DocBuffer(docs: seq<string>): (r: string)
    ensures |docs| == 0 ==> r == ""
  {
    Lines(TrimmedAll(docs))
  }

  /** rawDocsToDoc: the documentation of a node, without white space on either end. */
  function RawDocsToDoc(docs: seq<string>): (r: string)
    ensures r == [] || (!IsSpace(r[0]) && !IsSpace(r[|r| - 1]))
    ensures |docs| == 0 ==> r == ""
  {
    TrimSpace(DocBuffer(docs))
  }

  /** Terminating every line with a newline is joining them with newlines, plus one final newline. */
  lemma {:induction false} LinesIsJoin(parts: seq<string>)
    requires |parts| > 0
    ensures Lines(parts) == Join(parts, "\n") + "\n"
  {
    if |parts| == 1 {
      assert Lines(parts[1..]) == "";
      assert Join(parts, "\n") == parts[0];
    } else {
      LinesIsJoin(parts[1..]);
      var j := Join(parts[1..], "\n");
      assert Lines(parts) == parts[0] + "\n" + (j + "\n");
      assert Join(parts, "\n") == parts[0] + "\n" + j;
      assert parts[0] + "\n" + (j + "\n") == (parts[0] + "\n" + j) + "\n";
    }
  }

  lemma {:induction false} TrimLeftAppendSpace(x: string, w: string)
    requires AllSpace(w)
    ensures TrimLeft(x) != [] ==> TrimLeft(x + w) == TrimLeft(x) + w
    ensures TrimLeft(x) == [] ==> TrimLeft(x + w) == []
  {
    if |x| == 0 {
      assert x + w == w;
      TrimLeftOfSpace(w);
    } else {
      assert (x + w)[1..] == x[1..] + w;
      if IsSpace(x[0]) {
        TrimLeftAppendSpace(x[1..], w);
      }
    }
  }

  lemma {:induction false} TrimLeftOfSpace(w: string)
    requires AllSpace(w)
    ensures TrimLeft(w) == []
  {
    if |w| > 0 {
      TrimLeftOfSpace(w[1..]);
    }
  }

  lemma {:induction false} TrimRightAppendSpace(y: string, w: string)
    requires AllSpace(w)
    ensures TrimRight(y + w) == TrimRight(y)
    decreases |w|
  {
    if |w| > 0 {
      assert (y + w)[..|y + w| - 1] == y + w[..|w| - 1];
      TrimRightAppendSpace(y, w[..|w| - 1]);
    } else {
      assert y + w == y;
    }
  }

  /** Trailing white space does not survive strings.TrimSpace. */
  lemma TrimSpaceAppendSpace(x: string, w: string)
    requires AllSpace(w)
    ensures TrimSpace(x + w) == TrimSpace(x)
  {
    TrimLeftAppendSpace(x, w);
    if TrimLeft(x) != [] {
      TrimRightAppendSpace(TrimLeft(x), w);
    }
  }

  /**
   * rawDocsToDoc trims each fragment, joins the fragments with newlines and
   * trims the result.
   */
  lemma RawDocsToDocIsTrimmedJoin(docs: seq<string>)
    ensures RawDocsToDoc(docs) == TrimSpace(Join(TrimmedAll(docs), "\n"))
  {
    if |docs| > 0 {
      LinesIsJoin(TrimmedAll(docs));
      TrimSpaceAppendSpace(Join(TrimmedAll(docs), "\n"), "\n");
    }
  }

  /** A single fragment becomes its own trimming. */
  lemma RawDocsToDocSingle(d: string)
    ensures RawDocsToDoc([d]) == TrimSpace(d)
  {
    RawDocsToDocIsTrimmedJoin([d]);
    TrimSpaceIdempotent(d);
  }

  // ----- rawParamToVariable -----

  /**
   * rawParamToVariable for one parameter: the WADL style becomes the
   * request type, the `<doc>` texts the documentation; no URI and no
   * embedded variables.
   */
  function RawParamToVariable(p: RawParam): (v: Variable)
    ensures v.name == p.name && v.valueType == p.valueType && v.required == p.required
    ensures v.requestType == p.style && v.path == p.path
    ensures v.documentation == RawDocsToDoc(p.docs)
    ensures v.uri == "" && v.embeddedVar == []
  {
    Variable("", RawDocsToDoc(p.docs), p.name, p.valueType, p.style, p.required, p.path, [])
  }

  /** rawParamToVariable: one variable per raw parameter, in order. */
  function ParamsToVariables(ps: seq<RawParam>): (r: seq<Variable>)
    ensures |r| == |ps|
    ensures forall i :: 0 <= i < |ps| ==> r[i] == RawParamToVariable(ps[i])
  {
    seq(|ps|, i requires 0 <= i < |ps| => RawParamToVariable(ps[i]))
  }

  /** Converting a concatenation is concatenating the conversions. */
  lemma ParamsToVariablesAppend(a: seq<RawParam>, b: seq<RawParam>)
    ensures ParamsToVariables(a + b) == ParamsToVariables(a) + ParamsToVariables(b)
  {
    var l, r := ParamsToVariables(a + b), ParamsToVariables(a) + ParamsToVariables(b);
    assert |l| == |r|;
    forall i | 0 <= i < |l| ensures l[i] == r[i] {
      if i < |a| {
        assert (a + b)[i] == a[i];
      } else {
        assert (a + b)[i] == b[i - |a|];
      }
    }
  }

  /** The names of the converted parameters are the raw names, in order. */
  lemma ParamsToVariablesNames(ps: seq<RawParam>, name: string)
    ensures (exists i :: 0 <= i < |ps| && ps[i].name == name)
        <==> (exists i :: 0 <= i < |ParamsToVariables(ps)| && ParamsToVariables(ps)[i].name == name)
  {
    var vs := ParamsToVariables(ps);
    if exists i :: 0 <= i < |ps| && ps[i].name == name {
      var i :| 0 <= i < |ps| && ps[i].name == name;
      assert vs[i].name == name;
    }
  }

  // ----- rawJSONSchemaParamToParam -----

  /** The members of the `properties` object of a schema; none when it is absent or not an object. */
  function Properties(schema: seq<Member>): (r: seq<Member>)
  {
    var k := KeyIndex(schema, "properties");
    if k < |schema| && schema[k].value.JObject? then schema[k].value.members else []
  }

  /** The items of the `required` array of a schema; none when it is absent or not an array. */
  function RequiredItems(schema: seq<Member>): (r: seq<Json>)
  {
    var k := KeyIndex(schema, "required");
    if k < |schema| && schema[k].value.JArray? then schema[k].value.items else []
  }

  /** A fresh schema variable: named after its property, sent in the body. */
  function NewSchemaVariable(name: string): (v: Variable)
    ensures v.name == name && v.requestType == PlainStyle && !v.required
  {
    Variable("", "", name, "", PlainStyle, false, "", [])
  }

  /**
   * rawJSONSchemaParamToParam: one variable per property, in order, each
   * sent in the body and required exactly when its name is a string of the
   * `required` array.  A property that is not an object, or an `id`,
   * `type` or `documentation` attribute that is not a string, aborts.
   */
  function SchemaToVariables(schema: seq<Member>): (r: Result<seq<Variable>>)
    ensures r.Ok? ==> |r.value| == |Properties(schema)|
    ensures r.Ok? ==> forall i :: 0 <= i < |r.value| ==>
              r.value[i].name == Properties(schema)[i].key && r.value[i].requestType == PlainStyle
              && (r.value[i].required <==> JString(r.value[i].name) in RequiredItems(schema))
    ensures r.Fail? ==> r.error.PropertyNotObject? || r.error.AttributeNotString?
    decreases schema, 0
  {
    var k := KeyIndex(schema, "properties");
    var discovered :- if k < |schema| && schema[k].value.JObject?
                      then DiscoverProperties(schema[k].value.members, 0)
                      else Ok([]);
    Ok(MarkRequired(discovered, RequiredItems(schema)))
  }

  /**
   * Each variable of a schema is the one its property's attributes build,
   * with the required flag of the `required` array.
   */
  lemma SchemaVariablesFromAttributes(schema: seq<Member>)
    requires SchemaToVariables(schema).Ok?
    ensures var vars := SchemaToVariables(schema).value;
            |vars| == |Properties(schema)|
            && forall i :: 0 <= i < |vars| ==> BuiltFrom(Properties(schema)[i], vars[i].(required := false))
  {
    SchemaDiscovery(schema);
    var props := Properties(schema);
    if |props| > 0 {
      DiscoverFromAttributes(props, 0);
      assert props[0..] == props;
      AllBuiltAt(props, DiscoverProperties(props, 0).value);
      SchemaFromDiscovered(schema, DiscoverProperties(props, 0).value);
    } else {
      SchemaFromDiscovered(schema, []);
    }
  }

  /** A schema's variables are its discovered properties with the required flags set. */
  lemma SchemaDiscovery(schema: seq<Member>)
    requires SchemaToVariables(schema).Ok?
    ensures var props := Properties(schema);
            (|props| > 0 ==> DiscoverProperties(props, 0).Ok?)
            && SchemaToVariables(schema).value
               == MarkRequired(if |props| == 0 then [] else DiscoverProperties(props, 0).value, RequiredItems(schema))
  {
  }

  /** The last step of the proof above, with the discovered variables given. */
  lemma SchemaFromDiscovered(schema: seq<Member>, discovered: seq<Variable>)
    requires SchemaToVariables(schema).Ok?
    requires |discovered| == |Properties(schema)|
    requires forall i :: 0 <= i < |discovered| ==> BuiltFrom(Properties(schema)[i], discovered[i])
    requires SchemaToVariables(schema).value == MarkRequired(discovered, RequiredItems(schema))
    ensures var vars := SchemaToVariables(schema).value;
            |vars| == |Properties(schema)|
            && forall i :: 0 <= i < |vars| ==> BuiltFrom(Properties(schema)[i], vars[i].(required := false))
  {
    Unmark(Properties(schema), discovered, RequiredItems(schema));
  }

  /** Flagging variables built from properties, then clearing the flag, gives back the built variables. */
  lemma Unmark(props: seq<Member>, vars: seq<Variable>, items: seq<Json>)
    requires |vars| == |props| && forall i :: 0 <= i < |vars| ==> BuiltFrom(props[i], vars[i])
    ensures var marked := MarkRequired(vars, items);
            |marked| == |props| && forall i :: 0 <= i < |marked| ==> BuiltFrom(props[i], marked[i].(required := false))
  {
    var marked := MarkRequired(vars, items);
    forall i | 0 <= i < |marked|
      ensures BuiltFrom(props[i], marked[i].(required := false))
    {
      assert BuiltFrom(props[i], vars[i]);
      assert marked[i].(required := false) == vars[i];
    }
  }

  /** The discovery loop over the properties from index `k` on. */
  function DiscoverProperties(props: seq<Member>, k: nat): (r: Result<seq<Variable>>)
    requires k <= |props|
    ensures r.Ok? ==> |r.value| == |props| - k
    ensures r.Ok? ==> forall i :: 0 <= i < |r.value| ==>
              r.value[i].name == props[k + i].key && r.value[i].requestType == PlainStyle && !r.value[i].required
    ensures r.Fail? ==> r.error.PropertyNotObject? || r.error.AttributeNotString?
    decreases props, 2, |props| - k
  {
    if k == |props| then Ok([])
    else
      match props[k].value
      case JObject(attrs) =>
        var v :- VariableFromAttributes(props[k].key, attrs);
        var rest :- DiscoverProperties(props, k + 1);
        Ok([v] + rest)
      case _ => Fail(PropertyNotObject(props[k].key))
  }

  /** The property `p` is an object whose attributes build the variable `v`. */
  predicate BuiltFrom(p: Member, v: Variable)
  {
    p.value.JObject? && VariableFromAttributes(p.key, p.value.members) == Ok(v)
  }

  /** Each property of `props` builds the variable at the same position of `vars`. */
  predicate AllBuilt(props: seq<Member>, vars: seq<Variable>)
    decreases |props|
  {
    |props| == |vars| && (|props| == 0 || (BuiltFrom(props[0], vars[0]) && AllBuilt(props[1..], vars[1..])))
  }

  lemma {:induction false} AllBuiltAt(props: seq<Member>, vars: seq<Variable>)
    requires AllBuilt(props, vars)
    ensures |vars| == |props| && forall i :: 0 <= i < |vars| ==> BuiltFrom(props[i], vars[i])
    decreases |props|
  {
    if |props| > 0 {
      AllBuiltAt(props[1..], vars[1..]);
      forall i | 1 <= i < |vars|
        ensures BuiltFrom(props[i], vars[i])
      {
        assert props[1..][i - 1] == props[i] && vars[1..][i - 1] == vars[i];
      }
    }
  }

  /**
   * Every property the discovery loop accepts is an object, and its
   * variable is the one its attributes build.
   */
  lemma {:induction false} DiscoverFromAttributes(props: seq<Member>, k: nat)
    requires k <= |props| && DiscoverProperties(props, k).Ok?
    ensures AllBuilt(props[k..], DiscoverProperties(props, k).value)
    decreases |props| - k
  {
    if k < |props| {
      DiscoverStep(props, k);
      DiscoverFromAttributes(props, k + 1);
      assert props[k..][1..] == props[k + 1..];
    }
  }

  /** One turn of the discovery loop: the first variable comes from the first property. */
  lemma DiscoverStep(props: seq<Member>, k: nat)
    requires k < |props| && DiscoverProperties(props, k).Ok?
    ensures DiscoverProperties(props, k + 1).Ok?
    ensures var vars := DiscoverProperties(props, k).value;
            |vars| > 0 && BuiltFrom(props[k], vars[0])
            && vars[1..] == DiscoverProperties(props, k + 1).value
  {
  }

  /**
   * The variable of one property, built from its attributes: named after
   * the property, sent in the body, not required, with no path; its URI,
   * type and documentation are those of the last `id`, `type` and
   * `documentation` attributes ("" without one), and a `properties`
   * attribute makes the attribute object itself the schema of its embedded
   * variables.
   */
  function VariableFromAttributes(name: string, attrs: seq<Member>): (r: Result<Variable>)
    ensures r.Ok? ==> r.value.name == name && r.value.requestType == PlainStyle && !r.value.required
    ensures r.Ok? ==> r.value.path == ""
    ensures r.Ok? ==> SetFrom(attrs, 0, "id", r.value.uri, "")
    ensures r.Ok? ==> SetFrom(attrs, 0, "type", r.value.valueType, "")
    ensures r.Ok? ==> SetFrom(attrs, 0, "documentation", r.value.documentation, "")
    ensures r.Fail? ==> r.error.PropertyNotObject? || r.error.AttributeNotString?
    decreases attrs, 1, |attrs| + 1
  {
    ApplyAttributes(NewSchemaVariable(name), attrs, 0)
  }

  /**
   * The rest of what the attributes decide: the embedded variables are
   * those of the attribute object read as a schema when a `properties`
   * attribute is present (none otherwise), and the conversion fails
   * exactly when an `id`, `type` or `documentation` attribute is not a
   * string or the embedded conversion fails.
   */
  lemma AttributesOutcome(name: string, attrs: seq<Member>)
    ensures var r := VariableFromAttributes(name, attrs);
            r.Ok? ==> EmbeddedFrom(attrs, 0, SchemaToVariables(attrs), r.value.embeddedVar, [])
    ensures VariableFromAttributes(name, attrs).Fail?
            <==> AttributesFail(attrs, 0, SchemaToVariables(attrs).Fail?)
  {
    ApplyAttributesOutcome(NewSchemaVariable(name), attrs, 0);
  }

  /** The attribute keys the conversion reads, compared after lower-casing. */
  predicate IsSchemaAttribute(key: string)
  {
    LowerString(key) in {"id", "type", "properties", "documentation"}
  }

  /**
   * The index of the last attribute from index `k` on whose lower-cased
   * key is `key`, or |attrs| when there is none: the one whose value a
   * loop that overwrites on every match leaves behind.
   */
  function LastAttr(attrs: seq<Member>, k: nat, key: string): (j: nat)
    requires k <= |attrs|
    ensures k <= j <= |attrs|
    ensures j < |attrs| ==> LowerString(attrs[j].key) == key
    ensures forall i :: k <= i < |attrs| && LowerString(attrs[i].key) == key ==> i <= j < |attrs|
    decreases |attrs| - k
  {
    if k == |attrs| then |attrs|
    else
      var j := LastAttr(attrs, k + 1, key);
      if j < |attrs| then j
      else if LowerString(attrs[k].key) == key then k
      else |attrs|
  }

  /**
   * A string field after the attribute loop: the string of the last `key`
   * attribute from index `k` on, or its value `before` the loop when there
   * is none.
   */
  predicate SetFrom(attrs: seq<Member>, k: nat, key: string, field: string, before: string)
    requires k <= |attrs|
  {
    var j := LastAttr(attrs, k, key);
    if j < |attrs| then attrs[j].value == JString(field) else field == before
  }

  /** An `id`, `type` or `documentation` attribute whose value is not a string: the type assertion panics. */
  predicate NotStringAttribute(m: Member)
  {
    LowerString(m.key) in {"id", "type", "documentation"} && !m.value.JString?
  }

  /**
   * Does the attribute loop from index `k` abort?  Exactly when some
   * attribute is a non-string `id`, `type` or `documentation`, or there is
   * a `properties` attribute and converting the attribute object fails
   * (`embeddedFails`).
   */
  predicate AttributesFail(attrs: seq<Member>, k: nat, embeddedFails: bool)
    requires k <= |attrs|
  {
    (exists j :: k <= j < |attrs| && NotStringAttribute(attrs[j]))
    || (LastAttr(attrs, k, "properties") < |attrs| && embeddedFails)
  }

  /**
   * The embedded variables after the attribute loop: the conversion
   * `embedded` of the attribute object when some attribute from index `k`
   * on is `properties`, their value `before` the loop otherwise.
   */
  predicate EmbeddedFrom(attrs: seq<Member>, k: nat, embedded: Result<seq<Variable>>, field: seq<Variable>, before: seq<Variable>)
    requires k <= |attrs|
  {
    if LastAttr(attrs, k, "properties") < |attrs| then embedded == Ok(field) else field == before
  }

  /**
   * What the attribute loop from index `k` makes of the scalar fields of
   * `v`: name, style, required flag and path untouched, the string fields
   * set by the last attribute of their key.
   */
  predicate FieldsResult(attrs: seq<Member>, k: nat, v: Variable, w: Variable)
    requires k <= |attrs|
  {
    && w.name == v.name && w.requestType == v.requestType && w.required == v.required && w.path == v.path
    && SetFrom(attrs, k, "id", w.uri, v.uri)
    && SetFrom(attrs, k, "type", w.valueType, v.valueType)
    && SetFrom(attrs, k, "documentation", w.documentation, v.documentation)
  }

  /** One turn of the attribute loop; `embedded` is the conversion of the attribute object. */
  function AttributeStep(v: Variable, m: Member, embedded: Result<seq<Variable>>): (r: Result<Variable>)
    ensures r.Fail? <==> NotStringAttribute(m) || (LowerString(m.key) == "properties" && embedded.Fail?)
    ensures r.Fail? ==> r.error.AttributeNotString? || (embedded.Fail? && r.error == embedded.error)
  {
    var key := LowerString(m.key);
    if key == "id" then
      if m.value.JString? then Ok(v.(uri := m.value.s)) else Fail(AttributeNotString(m.key))
    else if key == "type" then
      if m.value.JString? then Ok(v.(valueType := m.value.s)) else Fail(AttributeNotString(m.key))
    else if key == "properties" then
      match embedded
      case Ok(vars) => Ok(v.(embeddedVar := vars))
      case Fail(e) => Fail(e)
    else if key == "documentation" then
      if m.value.JString? then Ok(v.(documentation := m.value.s)) else Fail(AttributeNotString(m.key))
    else Ok(v)
  }

  /** A turn that succeeds, followed by the rest of the loop, is the loop from this index. */
  lemma FieldsResultStep(attrs: seq<Member>, k: nat, embedded: Result<seq<Variable>>, v: Variable, next: Variable, w: Variable)
    requires k < |attrs|
    requires AttributeStep(v, attrs[k], embedded) == Ok(next)
    requires FieldsResult(attrs, k + 1, next, w)
    ensures FieldsResult(attrs, k, v, w)
  {
    var key := LowerString(attrs[k].key);
    SetFromStep(attrs, k, "id", w.uri, v.uri, next.uri);
    SetFromStep(attrs, k, "type", w.valueType, v.valueType, next.valueType);
    SetFromStep(attrs, k, "documentation", w.documentation, v.documentation, next.documentation);
  }

  /**
   * A string field across one turn: the turn leaves `mid`, set from this
   * attribute when its key is `key` and kept otherwise.
   */
  lemma SetFromStep(attrs: seq<Member>, k: nat, key: string, field: string, before: string, mid: string)
    requires k < |attrs|
    requires if LowerString(attrs[k].key) == key then attrs[k].value == JString(mid) else mid == before
    requires SetFrom(attrs, k + 1, key, field, mid)
    ensures SetFrom(attrs, k, key, field, before)
  {
  }

  /** The same for the embedded variables. */
  lemma EmbeddedFromStep(attrs: seq<Member>, k: nat, embedded: Result<seq<Variable>>, v: Variable, next: Variable, w: Variable)
    requires k < |attrs|
    requires AttributeStep(v, attrs[k], embedded) == Ok(next)
    requires EmbeddedFrom(attrs, k + 1, embedded, w.embeddedVar, next.embeddedVar)
    ensures EmbeddedFrom(attrs, k, embedded, w.embeddedVar, v.embeddedVar)
  {
  }

  /** The loop from index `k` aborts when this turn does or the rest of the loop does. */
  lemma AttributesFailStep(attrs: seq<Member>, k: nat, embeddedFails: bool)
    requires k < |attrs|
    ensures AttributesFail(attrs, k, embeddedFails)
            <==> NotStringAttribute(attrs[k]) || (LowerString(attrs[k].key) == "properties" && embeddedFails)
                 || AttributesFail(attrs, k + 1, embeddedFails)
  {
    if NotStringAttribute(attrs[k]) {
      assert exists j :: k <= j < |attrs| && NotStringAttribute(attrs[j]);
    }
    if exists j :: k + 1 <= j < |attrs| && NotStringAttribute(attrs[j]) {
      var j :| k + 1 <= j < |attrs| && NotStringAttribute(attrs[j]);
      assert k <= j;
    }
    if exists j :: k <= j < |attrs| && NotStringAttribute(attrs[j]) {
      var j :| k <= j < |attrs| && NotStringAttribute(attrs[j]);
      assert j == k || k + 1 <= j;
    }
  }

  /**
   * The loop over the attributes from index `k` on: `id`, `type` and
   * `documentation` set the URI, type and documentation (the last such
   * attribute wins), `properties` converts the attribute object itself as
   * a schema, and any other key is ignored.  It aborts exactly on a
   * non-string `id`, `type` or `documentation`, or on a `properties`
   * attribute whose conversion aborts.
   */
  function ApplyAttributes(v: Variable, attrs: seq<Member>, k: nat): (r: Result<Variable>)
    requires k <= |attrs|
    ensures r.Ok? ==> FieldsResult(attrs, k, v, r.value)
    ensures r.Fail? ==> r.error.PropertyNotObject? || r.error.AttributeNotString?
    decreases attrs, 1, |attrs| - k
  {
    if k == |attrs| then Ok(v)
    else
      match AttributeStep(v, attrs[k], SchemaToVariables(attrs))
      case Fail(e) => Fail(e)
      case Ok(next) =>
        var r := ApplyAttributes(next, attrs, k + 1);
        if r.Ok? then
          FieldsResultStep(attrs, k, SchemaToVariables(attrs), v, next, r.value);
          r
        else r
  }

  /**
   * The embedded variables the loop leaves, and when it aborts: exactly
   * on a non-string `id`, `type` or `documentation`, or on a `properties`
   * attribute whose conversion aborts.
   */
  lemma {:induction false} ApplyAttributesOutcome(v: Variable, attrs: seq<Member>, k: nat)
    requires k <= |attrs|
    ensures var r := ApplyAttributes(v, attrs, k);
            r.Ok? ==> EmbeddedFrom(attrs, k, SchemaToVariables(attrs), r.value.embeddedVar, v.embeddedVar)
    ensures ApplyAttributes(v, attrs, k).Fail? <==> AttributesFail(attrs, k, SchemaToVariables(attrs).Fail?)
    decreases |attrs| - k
  {
    if k < |attrs| {
      var embedded := SchemaToVariables(attrs);
      AttributesFailStep(attrs, k, embedded.Fail?);
      var step := AttributeStep(v, attrs[k], embedded);
      if step.Ok? {
        ApplyAttributesOutcome(step.value, attrs, k + 1);
        var r := ApplyAttributes(step.value, attrs, k + 1);
        if r.Ok? {
          EmbeddedFromStep(attrs, k, embedded, v, step.value, r.value);
        }
      }
    }
  }

  /** Attributes whose keys the conversion does not read leave the variable unchanged. */
  lemma {:induction false} UnknownAttributesIgnored(v: Variable, attrs: seq<Member>, k: nat)
    requires k <= |attrs|
    requires forall j :: k <= j < |attrs| ==> !IsSchemaAttribute(attrs[j].key)
    ensures ApplyAttributes(v, attrs, k) == Ok(v)
    decreases |attrs| - k
  {
    if k < |attrs| {
      assert AttributeStep(v, attrs[k], SchemaToVariables(attrs)) == Ok(v);
      UnknownAttributesIgnored(v, attrs, k + 1);
    }
  }

  /** One pass of the required-flagging loop: every variable named `item` becomes required. */
  function MarkName(vars: seq<Variable>, item: Json): (r: seq<Variable>)
    ensures |r| == |vars|
    ensures forall i :: 0 <= i < |vars| ==>
              r[i] == vars[i].(required := vars[i].required || item == JString(vars[i].name))
  {
    seq(|vars|, i requires 0 <= i < |vars| =>
      if item == JString(vars[i].name) then vars[i].(required := true) else vars[i])
  }

  /**
   * The required-flagging loop over the `required` items: a variable ends
   * up required exactly when it was, or a string item equals its name.
   */
  function MarkRequired(vars: seq<Variable>, items: seq<Json>): (r: seq<Variable>)
    ensures |r| == |vars|
    ensures forall i :: 0 <= i < |vars| ==>
              r[i] == vars[i].(required := vars[i].required || JString(vars[i].name) in items)
    decreases |items|
  {
    if |items| == 0 then vars
    else
      var r := MarkRequired(MarkName(vars, items[0]), items[1..]);
      assert forall x :: x in items <==> x == items[0] || x in items[1..];
      r
  }

  /** The `required` items that name no variable: the warnings of the flagging loop. */
  function UnknownRequired(vars: seq<Variable>, items: seq<Json>): (r: seq<Json>)
    ensures forall x :: x in r <==> x in items && forall i :: 0 <= i < |vars| ==> x != JString(vars[i].name)
  {
    if |items| == 0 then []
    else
      (if forall i :: 0 <= i < |vars| ==> items[0] != JString(vars[i].name) then [items[0]] else [])
      + UnknownRequired(vars, items[1..])
  }

  /** A required name that matches no property adds no variable and changes none. */
  lemma UnknownRequiredChangesNothing(vars: seq<Variable>, item: Json)
    requires forall i :: 0 <= i < |vars| ==> item != JString(vars[i].name)
    ensures MarkName(vars, item) == vars
  {
  }

  /** A schema without a `properties` object yields no variables. */
  lemma NoPropertiesNoVariables(schema: seq<Member>)
    requires KeyIndex(schema, "properties") == |schema|
    ensures SchemaToVariables(schema) == Ok([])
  {
  }
}
