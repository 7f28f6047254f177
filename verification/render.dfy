/**
 * The data decisions render.go makes before any template runs: the Go type
 * of a WADL type (`renderType`), the JSON field tag of a variable, the
 * URL-template and query snippets and the body fields of a method's
 * arguments, and the nested types generated for variables with embedded
 * variables (`renderVariableCollection`).  The templates' exact text and
 * white space are not modelled; each generated struct is a `TypeDecl`.
 */
module Render {
  import opened Text
  import opened Identifiers
  import opened Wadl
  import opened Documentation
  import opened Outcome

  // ----- renderType -----

  const StringAliases: seq<string> := ["string", "xsd:string", "csapi:uuid", "csapi:string"]
  const IntAliases: seq<string> := ["xsd:int", "integer"]
  const BoolAliases: seq<string> := ["xsd:boolean", "boolean"]

  /** `t` equals one of `names`, ignoring case. */
  predicate FoldsToOneOf(t: string, names: seq<string>)
  {
    exists i :: 0 <= i < |names| && EqualFold(t, names[i])
  }

  /** The WADL types renderType knows. */
  predicate IsKnownType(t: string)
  {
    EqualFold(t, "object") || EqualFold(t, "xsd:datetime")
    || FoldsToOneOf(t, StringAliases) || FoldsToOneOf(t, IntAliases) || FoldsToOneOf(t, BoolAliases)
  }

  /** For a lower-case name, case-insensitive equality is equality after lower-casing. */
  lemma EqualFoldLower(t: string, name: string)
    requires LowerString(name) == name
    ensures EqualFold(t, name) <==> LowerString(t) == name
  {
    if EqualFold(t, name) {
      assert forall i :: 0 <= i < |t| ==> LowerString(t)[i] == name[i] by {
        forall i | 0 <= i < |t| ensures LowerString(t)[i] == name[i] {
          assert ToLower(t[i]) == ToLower(name[i]);
          assert ToLower(name[i]) == LowerString(name)[i];
        }
      }
    }
    if LowerString(t) == name {
      forall i | 0 <= i < |t| ensures ToLower(t[i]) == ToLower(name[i]) {
        assert ToLower(name[i]) == LowerString(name)[i];
      }
    }
  }

  lemma FoldsToOneOfLower(t: string, names: seq<string>)
    requires forall i :: 0 <= i < |names| ==> LowerString(names[i]) == names[i]
    ensures FoldsToOneOf(t, names) <==> LowerString(t) in names
  {
    forall i | 0 <= i < |names| ensures EqualFold(t, names[i]) <==> LowerString(t) == names[i] {
      EqualFoldLower(t, names[i]);
    }
  }

  /** `s` has no upper-case ASCII letter. */
  predicate NoUpper(s: string)
  {
    forall i :: 0 <= i < |s| ==> !('A' <= s[i] <= 'Z')
  }

  lemma LowerOfNoUpper(s: string)
    requires NoUpper(s)
    ensures LowerString(s) == s
  {
  }

  /** Every name renderType compares against is already lower case. */
  lemma KnownNamesLower()
    ensures LowerString("object") == "object" && LowerString("xsd:datetime") == "xsd:datetime"
    ensures forall i :: 0 <= i < |StringAliases| ==> LowerString(StringAliases[i]) == StringAliases[i]
    ensures forall i :: 0 <= i < |IntAliases| ==> LowerString(IntAliases[i]) == IntAliases[i]
    ensures forall i :: 0 <= i < |BoolAliases| ==> LowerString(BoolAliases[i]) == BoolAliases[i]
  {
    LowerOfNoUpper("object");
    LowerOfNoUpper("xsd:datetime");
    forall i | 0 <= i < |StringAliases| ensures LowerString(StringAliases[i]) == StringAliases[i] {
      LowerOfNoUpper(StringAliases[i]);
    }
    forall i | 0 <= i < |IntAliases| ensures LowerString(IntAliases[i]) == IntAliases[i] {
      LowerOfNoUpper(IntAliases[i]);
    }
    forall i | 0 <= i < |BoolAliases| ensures LowerString(BoolAliases[i]) == BoolAliases[i] {
      LowerOfNoUpper(BoolAliases[i]);
    }
  }

  /**
   * renderType: the Go type for a WADL or schema type, matched without
   * regard to case; a type it does not know is passed through verbatim.
   */
  function RenderType(wadlType: string): (r: string)
    ensures EqualFold(wadlType, "object") ==> r == "interface{}"
    ensures EqualFold(wadlType, "xsd:datetime") ==> r == "time.Time"
    ensures FoldsToOneOf(wadlType, StringAliases) ==> r == "string"
    ensures FoldsToOneOf(wadlType, IntAliases) ==> r == "int"
    ensures FoldsToOneOf(wadlType, BoolAliases) ==> r == "bool"
    ensures !IsKnownType(wadlType) ==> r == wadlType
  {
    KnownNamesLower();
    EqualFoldLower(wadlType, "object");
    EqualFoldLower(wadlType, "xsd:datetime");
    FoldsToOneOfLower(wadlType, StringAliases);
    FoldsToOneOfLower(wadlType, IntAliases);
    FoldsToOneOfLower(wadlType, BoolAliases);
    var lower := LowerString(wadlType);
    if lower == "object" then "interface{}"
    else if lower == "xsd:datetime" then "time.Time"
    else if lower in StringAliases then "string"
    else if lower in IntAliases then "int"
    else if lower in BoolAliases then "bool"
    else wadlType
  }

  /** No name renderType knows has a length outside 6, 7 and 10 to 12. */
  lemma UnknownByLength(t: string)
    requires |t| < 6 || |t| == 8 || |t| == 9 || |t| > 12
    ensures !IsKnownType(t)
  {
    assert forall i :: 0 <= i < |StringAliases| ==> |StringAliases[i]| in {6, 10, 12};
    assert forall i :: 0 <= i < |IntAliases| ==> |IntAliases[i]| == 7;
    assert forall i :: 0 <= i < |BoolAliases| ==> |BoolAliases[i]| in {7, 11};
  }

  /** The Go types renderType produces render to themselves. */
  lemma GoTypesFixed()
    ensures RenderType("interface{}") == "interface{}" && RenderType("time.Time") == "time.Time"
    ensures RenderType("string") == "string" && RenderType("int") == "int" && RenderType("bool") == "bool"
  {
    UnknownByLength("time.Time");
    UnknownByLength("int");
    UnknownByLength("bool");
    assert EqualFold("string", StringAliases[0]);
    assert !IsKnownType("interface{}") by {
      assert !EqualFold("interface{}", "xsd:boolean") by {
        assert ToLower("interface{}"[0]) != ToLower("xsd:boolean"[0]);
      }
    }
  }

  /** Rendering a rendered type again changes nothing. */
  lemma RenderTypeIdempotent(wadlType: string)
    ensures RenderType(RenderType(wadlType)) == RenderType(wadlType)
  {
    GoTypesFixed();
  }

  /** Two spellings that differ only in case render to the same Go type, or both pass through. */
  lemma RenderTypeIgnoresCase(a: string, b: string)
    requires EqualFold(a, b)
    ensures RenderType(a) == RenderType(b) || (RenderType(a) == a && RenderType(b) == b)
  {
    assert LowerString(a) == LowerString(b);
  }

  /** No WADL type renderType knows ends in `s`, so generated collection names pass through. */
  lemma PluralNamePassesThrough(t: string)
    requires |t| > 0 && t[|t| - 1] == 's'
    ensures RenderType(t) == t
  {
    var lower := LowerString(t);
    assert lower[|lower| - 1] == 's';
    assert lower != "object" && lower != "xsd:datetime";
    assert lower !in StringAliases && lower !in IntAliases && lower !in BoolAliases;
  }

  // ----- collection names -----

  /** Which of the two generated types a collection is. */
  datatype CollectionKind = ParamsCollection | ResultsCollection

  /** renderCollectionName: renderMethodParamName or renderMethodResultsName. */
  function CollectionName(kind: CollectionKind, stem: string): (r: string)
    ensures kind == ParamsCollection ==> EndsWith(r, "Params")
    ensures kind == ResultsCollection ==> EndsWith(r, "Results")
    ensures DelimiterFree(r) && ToUpper(r[0]) == r[0]
  {
    match kind
    case ParamsCollection => ParamsName(stem)
    case ResultsCollection => ResultsName(stem)
  }

  lemma CollectionNamePassesThrough(kind: CollectionKind, stem: string)
    ensures RenderType(CollectionName(kind, stem)) == CollectionName(kind, stem)
  {
    var r := CollectionName(kind, stem);
    assert r[|r| - 1] == 's';
    PluralNamePassesThrough(r);
  }

  // ----- JSON field tags -----

  /**
   * The struct tag of a generated field: a body field is keyed by its WADL
   * name and may be omitted when empty unless it is required; any other
   * field is never serialized.
   */
  function FieldTag(v: Variable): (r: string)
    ensures StartsWith(r, "json:\"") && EndsWith(r, "\"")
    ensures v.requestType != PlainStyle ==> FieldEncoding(r) == Omitted
    ensures v.requestType == PlainStyle && TagSafeName(v.name) ==> FieldEncoding(r) == Encoded(v.name, !v.required)
  {
    var value := if v.requestType == PlainStyle then v.name + (if v.required then "" else ",omitempty") else "-";
    var r := "json:\"" + value + "\"";
    assert r[6..|r| - 1] == value;
    if v.requestType == PlainStyle && TagSafeName(v.name) then
      TagValueOfPlain(v.name, v.required);
      r
    else
      r
  }

  /** How encoding/json treats a struct field. */
  datatype Encoding = Omitted | Encoded(key: string, omitEmpty: bool)

  /** A name that survives as a tag key: non-empty, not "-", without ',' or '"'. */
  predicate TagSafeName(name: string)
  {
    |name| > 0 && name != "-" && ',' !in name && '"' !in name
  }

  /**
   * encoding/json's reading of a tag `json:"<value>"`: "-" omits the
   * field; otherwise the key runs up to the first ',' and "omitempty" may
   * appear among the options after it.
   */
  function FieldEncoding(tag: string): Encoding
  {
    if !(StartsWith(tag, "json:\"") && EndsWith(tag, "\"") && |tag| >= 7) then Encoded("", false)
    else
      var value := tag[6..|tag| - 1];
      if value == "-" then Omitted
      else
        var parts := Split(value, ',');
        Encoded(parts[0], "omitempty" in parts[1..])
  }

  lemma TagValueOfPlain(name: string, required: bool)
    requires TagSafeName(name)
    ensures var value := name + (if required then "" else ",omitempty");
            value != "-" && Split(value, ',')[0] == name && ("omitempty" in Split(value, ',')[1..] <==> !required)
  {
    SplitWithoutSeparator(name, ',');
    if !required {
      assert name + ",omitempty" == name + [','] + "omitempty";
      SplitAround(name, ',', "omitempty");
      SplitWithoutSeparator("omitempty", ',');
    } else {
      assert name + "" == name;
    }
  }

  /**
   * A required body field named "-" gets the tag `json:"-"`, which
   * encoding/json reads as "never serialize".
   */
  lemma DashNamedBodyFieldIsOmitted(v: Variable)
    requires v.requestType == PlainStyle && v.required && v.name == "-"
    ensures FieldEncoding(FieldTag(v)) == Omitted
  {
    assert FieldTag(v) == "json:\"-\"";
  }

  // ----- argument partition -----

  /** The arguments of one request style, in their original order. */
  function OfStyle(args: seq<Variable>, style: string): (r: seq<Variable>)
    ensures |r| <= |args|
    ensures forall v :: v in r <==> v in args && v.requestType == style
  {
    if |args| == 0 then []
    else (if args[0].requestType == style then [args[0]] else []) + OfStyle(args[1..], style)
  }

  lemma {:induction false} OfStyleAppend(a: seq<Variable>, b: seq<Variable>, style: string)
    ensures OfStyle(a + b, style) == OfStyle(a, style) + OfStyle(b, style)
  {
    if |a| == 0 {
      assert a + b == b;
    } else {
      assert (a + b)[1..] == a[1..] + b;
      OfStyleAppend(a[1..], b, style);
    }
  }

  /**
   * Every argument lands in at most one of the three groups, and in exactly
   * one exactly when its style is template, query or plain.
   */
  lemma {:induction false} PartitionSizes(args: seq<Variable>)
    ensures |OfStyle(args, TemplateStyle)| + |OfStyle(args, QueryStyle)| + |OfStyle(args, PlainStyle)|
            == |args| - |OtherStyles(args)|
  {
    if |args| > 0 {
      PartitionSizes(args[1..]);
    }
  }

  /** The arguments whose style is none of the three the generator handles. */
  function OtherStyles(args: seq<Variable>): (r: seq<Variable>)
    ensures forall v :: v in r <==> v in args && v.requestType !in {TemplateStyle, QueryStyle, PlainStyle}
  {
    if |args| == 0 then []
    else (if args[0].requestType !in {TemplateStyle, QueryStyle, PlainStyle} then [args[0]] else [])
         + OtherStyles(args[1..])
  }

  /** The URL-encoded `{name}` a template argument replaces. */
  function Placeholder(name: string): string
  {
    "%7B" + name + "%7D"
  }

  /** How the generated function reads an argument: the public field of the Params struct. */
  function ArgumentAccess(v: Variable): string
  {
    "args." + RenderIdentifier(v.name, true)
  }

  lemma ContainsMiddle(a: string, b: string, c: string)
    ensures Contains(a + b + c, b)
  {
    assert (a + b + c)[|a|..] == b + c;
    assert StartsWith((a + b + c)[|a|..], b);
  }

  /** The snippet `templateVarReplaceTmpl` produces for a template argument. */
  function TemplateSnippet(v: Variable): (r: string)
    ensures Contains(r, Placeholder(v.name))
    ensures Contains(r, ArgumentAccess(v))
  {
    var head := "\nurl = strings.Replace(url, \"";
    var tail := ", -1)";
    var r := head + Placeholder(v.name) + "\", " + ArgumentAccess(v) + tail;
    assert r == head + Placeholder(v.name) + ("\", " + ArgumentAccess(v) + tail);
    ContainsMiddle(head, Placeholder(v.name), "\", " + ArgumentAccess(v) + tail);
    ContainsMiddle(head + Placeholder(v.name) + "\", ", ArgumentAccess(v), tail);
    r
  }

  /** The snippet `queryVarReplaceTmpl` produces for a query argument. */
  function QuerySnippet(v: Variable): (r: string)
    ensures Contains(r, "query.Add(\"" + v.name + "\"")
    ensures Contains(r, ArgumentAccess(v))
  {
    var head := "\n";
    var key := "query.Add(\"" + v.name + "\"";
    var tail := "))";
    var r := head + key + ", fmt.Sprintf(\"%v\", " + ArgumentAccess(v) + tail;
    assert r == head + key + (", fmt.Sprintf(\"%v\", " + ArgumentAccess(v) + tail);
    ContainsMiddle(head, key, ", fmt.Sprintf(\"%v\", " + ArgumentAccess(v) + tail);
    ContainsMiddle(head + key + ", fmt.Sprintf(\"%v\", ", ArgumentAccess(v), tail);
    r
  }

  function TemplateSnippets(vs: seq<Variable>): (r: seq<string>)
    ensures |r| == |vs|
    ensures forall i :: 0 <= i < |vs| ==> r[i] == TemplateSnippet(vs[i])
  {
    seq(|vs|, i requires 0 <= i < |vs| => TemplateSnippet(vs[i]))
  }

  function QuerySnippets(vs: seq<Variable>): (r: seq<string>)
    ensures |r| == |vs|
    ensures forall i :: 0 <= i < |vs| ==> r[i] == QuerySnippet(vs[i])
  {
    seq(|vs|, i requires 0 <= i < |vs| => QuerySnippet(vs[i]))
  }

  /** The arguments of `style` among the first k+1 are those among the first k, and maybe the next one. */
  lemma OfStyleStep(args: seq<Variable>, k: nat, style: string)
    requires k < |args|
    ensures OfStyle(args[..k + 1], style)
            == OfStyle(args[..k], style) + (if args[k].requestType == style then [args[k]] else [])
  {
    assert args[..k + 1] == args[..k] + [args[k]];
    OfStyleAppend(args[..k], [args[k]], style);
  }

  lemma TemplateSnippetsAppend(a: seq<Variable>, v: Variable)
    ensures TemplateSnippets(a + [v]) == TemplateSnippets(a) + [TemplateSnippet(v)]
  {
  }

  lemma QuerySnippetsAppend(a: seq<Variable>, v: Variable)
    ensures QuerySnippets(a + [v]) == QuerySnippets(a) + [QuerySnippet(v)]
  {
  }

  /**
   * The loop over a method's arguments in RenderMethodWithBulkTypes: one
   * template snippet per template argument, one query snippet per query
   * argument, each plain argument kept as a body field, in order; any other
   * style contributes nothing.
   */
  method PartitionArguments(args: seq<Variable>)
    returns (templateCode: seq<string>, queryCode: seq<string>, bodyParams: seq<Variable>)
    ensures templateCode == TemplateSnippets(OfStyle(args, TemplateStyle))
    ensures queryCode == QuerySnippets(OfStyle(args, QueryStyle))
    ensures bodyParams == OfStyle(args, PlainStyle)
  {
    templateCode, queryCode, bodyParams := [], [], [];
    ghost var templates: seq<Variable> := [];
    ghost var queries: seq<Variable> := [];
    var k := 0;
    while k < |args|
      invariant 0 <= k <= |args|
      invariant templates == OfStyle(args[..k], TemplateStyle) && templateCode == TemplateSnippets(templates)
      invariant queries == OfStyle(args[..k], QueryStyle) && queryCode == QuerySnippets(queries)
      invariant bodyParams == OfStyle(args[..k], PlainStyle)
    {
      var param := args[k];
      OfStyleStep(args, k, TemplateStyle);
      OfStyleStep(args, k, QueryStyle);
      OfStyleStep(args, k, PlainStyle);
      if param.requestType == TemplateStyle {
        TemplateSnippetsAppend(templates, param);
        templates := templates + [param];
        templateCode := templateCode + [TemplateSnippet(param)];
      } else if param.requestType == QueryStyle {
        QuerySnippetsAppend(queries, param);
        queries := queries + [param];
        queryCode := queryCode + [QuerySnippet(param)];
      } else if param.requestType == PlainStyle {
        bodyParams := bodyParams + [param];
      }
      k := k + 1;
    }
    assert args[..|args|] == args;
  }

  // ----- renderVariableCollection -----

  /** One field of a generated struct: name, Go type, tag, the "is required" note and the doc comment. */
  datatype Field = Field(name: string, goType: string, tag: string, requiredNote: bool, doc: string)

  /** One generated struct declaration. */
  datatype TypeDecl = TypeDecl(name: string, fields: seq<Field>)

  /** The field the collection template emits for a variable. */
  function FieldOf(v: Variable): (f: Field)
    ensures f.name == RenderIdentifier(v.name, true) && f.goType == RenderType(v.valueType)
    ensures f.tag == FieldTag(v) && f.requiredNote == v.required
  {
    Field(RenderIdentifier(v.name, true), RenderType(v.valueType), FieldTag(v), v.required,
          if v.documentation == "" then "" else RenderDocumentation(v.documentation))
  }

  function FieldsOf(vs: seq<Variable>): (r: seq<Field>)
    ensures |r| == |vs|
    ensures forall i :: 0 <= i < |vs| ==> r[i] == FieldOf(vs[i])
  {
    seq(|vs|, i requires 0 <= i < |vs| => FieldOf(vs[i]))
  }

  /** A variable with embedded variables gets a generated type of its own. */
  predicate IsNested(v: Variable)
  {
    |v.embeddedVar| > 0
  }

  /** Everything but the type and the embedded variables is the same. */
  predicate SameExceptType(a: Variable, b: Variable)
  {
    a.uri == b.uri && a.documentation == b.documentation && a.name == b.name
    && a.requestType == b.requestType && a.required == b.required && a.path == b.path
    && |a.embeddedVar| == |b.embeddedVar|
  }

  /**
   * The in-place rewrite of renderVariableCollection: each variable with
   * embedded variables gets the name of its generated type as its type
   * (and its embedded variables are rewritten the same way, one level
   * down); every other variable is left exactly as it was.
   */
  function RewriteNested(methName: string, params: seq<Variable>, kind: CollectionKind): (r: seq<Variable>)
    ensures |r| == |params|
    decreases params
  {
    if |params| == 0 then []
    else
      var p := params[0];
      var stem := NestedStem(methName, p.name);
      [RewriteOne(p, CollectionName(kind, stem), RewriteNested(stem, p.embeddedVar, kind))]
        + RewriteNested(methName, params[1..], kind)
  }

  /** One variable of the rewrite, given its generated type's name and its rewritten embedded variables. */
  function RewriteOne(p: Variable, typeName: string, embedded: seq<Variable>): (q: Variable)
    requires |embedded| == |p.embeddedVar|
    ensures RewrittenAs(p, q, typeName)
  {
    if |p.embeddedVar| == 0 then p else p.(valueType := typeName, embeddedVar := embedded)
  }

  /**
   * `q` is what the rewrite makes of `p` when a nested `p` gets the type
   * `name`: a variable with embedded variables keeps everything but its
   * type (and embedded variables), any other variable is unchanged.
   */
  predicate RewrittenAs(p: Variable, q: Variable, name: string)
  {
    SameExceptType(q, p) && (!IsNested(p) ==> q == p) && (IsNested(p) ==> q.valueType == name)
  }

  /** Each variable is rewritten with the name of its own generated type. */
  lemma {:induction false} RewriteNestedSpec(methName: string, params: seq<Variable>, kind: CollectionKind)
    ensures forall i :: 0 <= i < |params| ==>
              RewrittenAs(params[i], RewriteNested(methName, params, kind)[i], CollectionName(kind, NestedStem(methName, params[i].name)))
    decreases params
  {
    if |params| > 0 {
      RewriteNestedSpec(methName, params[1..], kind);
      RewriteTail(methName, params, kind);
    }
  }

  /** The rewrite of all but the first variable carries over to the whole sequence. */
  lemma RewriteTail(methName: string, params: seq<Variable>, kind: CollectionKind)
    requires |params| > 0
    requires forall i :: 0 <= i < |params| - 1 ==>
               RewrittenAs(params[1..][i], RewriteNested(methName, params[1..], kind)[i],
                           CollectionName(kind, NestedStem(methName, params[1..][i].name)))
    ensures forall i :: 0 <= i < |params| ==>
              RewrittenAs(params[i], RewriteNested(methName, params, kind)[i], CollectionName(kind, NestedStem(methName, params[i].name)))
  {
    var r := RewriteNested(methName, params, kind);
    var rest := RewriteNested(methName, params[1..], kind);
    assert r[1..] == rest;
    forall i | 1 <= i < |params|
      ensures RewrittenAs(params[i], r[i], CollectionName(kind, NestedStem(methName, params[i].name)))
    {
      assert r[i] == rest[i - 1] && params[i] == params[1..][i - 1];
    }
  }

  /** How many variables of the forest have embedded variables. */
  function NestedCount(params: seq<Variable>): nat
    decreases params
  {
    if |params| == 0 then 0
    else (if |params[0].embeddedVar| == 0 then 0 else 1 + NestedCount(params[0].embeddedVar))
         + NestedCount(params[1..])
  }

  /** Some declaration in `decls` has the given name. */
  predicate Declares(decls: seq<TypeDecl>, name: string)
  {
    exists j :: 0 <= j < |decls| && decls[j].name == name
  }

  lemma DeclaresAppend(a: seq<TypeDecl>, b: seq<TypeDecl>, name: string)
    ensures Declares(a, name) ==> Declares(a + b, name)
    ensures Declares(b, name) ==> Declares(a + b, name)
  {
    if Declares(a, name) {
      var j :| 0 <= j < |a| && a[j].name == name;
      assert (a + b)[j].name == name;
    }
    if Declares(b, name) {
      var j :| 0 <= j < |b| && b[j].name == name;
      assert (a + b)[|a| + j].name == name;
    }
  }

  /**
   * The declarations emitted for the nested types of `params`, in the
   * order the source writes them: for each variable with embedded
   * variables, that variable's whole collection (its own nested types
   * first).  One declaration per nested variable of the forest.
   */
  function NestedDecls(methName: string, params: seq<Variable>, kind: CollectionKind): (r: seq<TypeDecl>)
    ensures |r| == NestedCount(params)
    decreases params
  {
    if |params| == 0 then []
    else
      var p := params[0];
      var own :=
        if |p.embeddedVar| == 0 then []
        else
          var stem := NestedStem(methName, p.name);
          NestedDecls(stem, p.embeddedVar, kind)
            + [TypeDecl(CollectionName(kind, stem), FieldsOf(RewriteNested(stem, p.embeddedVar, kind)))];
      own + NestedDecls(methName, params[1..], kind)
  }

  /** Every variable with embedded variables gets its generated type declared. */
  lemma {:induction false} NestedDeclsSpec(methName: string, params: seq<Variable>, kind: CollectionKind)
    ensures forall i :: 0 <= i < |params| && IsNested(params[i])
              ==> Declares(NestedDecls(methName, params, kind), CollectionName(kind, NestedStem(methName, params[i].name)))
    decreases params
  {
    if |params| > 0 {
      NestedDeclsSpec(methName, params[1..], kind);
      var p := params[0];
      var rest := NestedDecls(methName, params[1..], kind);
      var own :=
        if |p.embeddedVar| == 0 then []
        else
          var stem := NestedStem(methName, p.name);
          NestedDecls(stem, p.embeddedVar, kind)
            + [TypeDecl(CollectionName(kind, stem), FieldsOf(RewriteNested(stem, p.embeddedVar, kind)))];
      assert NestedDecls(methName, params, kind) == own + rest;
      NestedDeclsStep(methName, params, kind, own, rest);
    }
  }

  lemma NestedDeclsStep(methName: string, params: seq<Variable>, kind: CollectionKind,
                        own: seq<TypeDecl>, rest: seq<TypeDecl>)
    requires |params| > 0
    requires IsNested(params[0]) ==> |own| > 0 && own[|own| - 1].name == CollectionName(kind, NestedStem(methName, params[0].name))
    requires forall i :: 0 <= i < |params| - 1 && IsNested(params[1..][i])
               ==> Declares(rest, CollectionName(kind, NestedStem(methName, params[1..][i].name)))
    ensures forall i :: 0 <= i < |params| && IsNested(params[i])
              ==> Declares(own + rest, CollectionName(kind, NestedStem(methName, params[i].name)))
  {
    forall i | 0 <= i < |params| && IsNested(params[i])
      ensures Declares(own + rest, CollectionName(kind, NestedStem(methName, params[i].name)))
    {
      var name := CollectionName(kind, NestedStem(methName, params[i].name));
      if i == 0 {
        assert own[|own| - 1].name == name;
        DeclaresAppend(own, rest, name);
      } else {
        assert params[1..][i - 1] == params[i];
        DeclaresAppend(own, rest, name);
      }
    }
  }

  /** The last declaration of `decls` is the type named `name`. */
  predicate NamedLast(decls: seq<TypeDecl>, name: string)
  {
    |decls| >= 1 && decls[|decls| - 1].name == name
  }

  /**
   * renderVariableCollection: the nested types first, then the collection's
   * own struct, named after the stem, whose fields are the rewritten
   * variables in their original order.  A field with embedded variables has
   * as its Go type the generated type, which is declared earlier.
   */
  function Collection(methName: string, params: seq<Variable>, kind: CollectionKind): (r: seq<TypeDecl>)
    ensures |r| == 1 + NestedCount(params)
    ensures NamedLast(r, CollectionName(kind, methName))
    ensures r[|r| - 1].fields == FieldsOf(RewriteNested(methName, params, kind))
    ensures r[..|r| - 1] == NestedDecls(methName, params, kind)
  {
    var nested := NestedDecls(methName, params, kind);
    var r := nested + [TypeDecl(CollectionName(kind, methName), FieldsOf(RewriteNested(methName, params, kind)))];
    assert r[..|r| - 1] == nested;
    r
  }

  /**
   * The field types of a collection's own struct: a field with embedded
   * variables has as its Go type the generated type, which is declared
   * earlier; any other field has the Go type of its WADL type.
   */
  lemma CollectionFieldTypes(methName: string, params: seq<Variable>, kind: CollectionKind)
    ensures var r := Collection(methName, params, kind);
            forall i :: 0 <= i < |params| && IsNested(params[i])
              ==> r[|r| - 1].fields[i].goType == CollectionName(kind, NestedStem(methName, params[i].name))
                  && Declares(r[..|r| - 1], CollectionName(kind, NestedStem(methName, params[i].name)))
    ensures var r := Collection(methName, params, kind);
            forall i :: 0 <= i < |params| && !IsNested(params[i])
              ==> r[|r| - 1].fields[i].goType == RenderType(params[i].valueType)
  {
    var rewritten := RewriteNested(methName, params, kind);
    RewriteNestedSpec(methName, params, kind);
    NestedDeclsSpec(methName, params, kind);
    forall i | 0 <= i < |params| && IsNested(params[i])
      ensures RenderType(rewritten[i].valueType) == rewritten[i].valueType
    {
      CollectionNamePassesThrough(kind, NestedStem(methName, params[i].name));
    }
  }

  /** What occurs in one snippet occurs in the concatenated code, which is then not empty. */
  lemma SnippetInCode(snippets: seq<string>, i: nat, a: string, b: string)
    requires i < |snippets| && Contains(snippets[i], a) && Contains(snippets[i], b) && |a| > 0
    ensures Contains(Concat(snippets), a) && Contains(Concat(snippets), b) && Concat(snippets) != ""
  {
    ConcatContains(snippets, i);
    ContainsTransitive(Concat(snippets), snippets[i], a);
    ContainsTransitive(Concat(snippets), snippets[i], b);
    ContainsLength(Concat(snippets), a);
  }

  /**
   * The URL-template replacement code: every template argument has its
   * placeholder replaced by its field, and the code is empty exactly when
   * the method has no template argument.
   */
  lemma TemplateCode(args: seq<Variable>)
    ensures var code := Concat(TemplateSnippets(OfStyle(args, TemplateStyle)));
            && (forall v :: v in args && v.requestType == TemplateStyle ==>
                  Contains(code, Placeholder(v.name)) && Contains(code, ArgumentAccess(v)))
            && (code == "" <==> forall v :: v in args ==> v.requestType != TemplateStyle)
  {
    var sel := OfStyle(args, TemplateStyle);
    var snippets := TemplateSnippets(sel);
    var code := Concat(snippets);
    forall v | v in args && v.requestType == TemplateStyle
      ensures Contains(code, Placeholder(v.name)) && Contains(code, ArgumentAccess(v)) && code != ""
    {
      var i :| 0 <= i < |sel| && sel[i] == v;
      SnippetInCode(snippets, i, Placeholder(v.name), ArgumentAccess(v));
    }
    if |sel| > 0 {
      assert sel[0] in sel;
    }
  }

  /**
   * The query code: every query argument is added to the query under its
   * name, read from its field, and the code is empty exactly when the
   * method has no query argument.
   */
  lemma QueryCode(args: seq<Variable>)
    ensures var code := Concat(QuerySnippets(OfStyle(args, QueryStyle)));
            && (forall v :: v in args && v.requestType == QueryStyle ==>
                  Contains(code, "query.Add(\"" + v.name + "\"") && Contains(code, ArgumentAccess(v)))
            && (code == "" <==> forall v :: v in args ==> v.requestType != QueryStyle)
  {
    var sel := OfStyle(args, QueryStyle);
    var snippets := QuerySnippets(sel);
    var code := Concat(snippets);
    forall v | v in args && v.requestType == QueryStyle
      ensures Contains(code, "query.Add(\"" + v.name + "\"") && Contains(code, ArgumentAccess(v)) && code != ""
    {
      var i :| 0 <= i < |sel| && sel[i] == v;
      SnippetInCode(snippets, i, "query.Add(\"" + v.name + "\"", ArgumentAccess(v));
    }
    if |sel| > 0 {
      assert sel[0] in sel;
    }
  }

  // ----- RenderMethodWithBulkTypes -----

  /**
   * The results type of a method: the text the `gojson` tool inferred from
   * the response example when it produced any, the declared results
   * collection otherwise.
   */
  datatype ResultsDecl = InferredResults(text: string) | DeclaredResults(decls: seq<TypeDecl>)

  /** The values the function template is executed with. */
  datatype FunctionData = FunctionData(
    documentation: string,
    funName: string,
    argType: string,
    responseType: string,
    verb: string,
    url: string,
    templateCode: string,
    queryCode: string,
    statusCsv: string)

  // ----- executing the function template -----

  /** The fields of the struct the function template is executed with (render.go:146-156). */
  const FunctionDataFields: seq<string> := ["Documentation", "FunName", "ArgType", "ResponseType", "MethodType",
                                            "URL", "ReplaceTemplateVarsCode", "ReplaceQueryVarsCode",
                                            "AcceptableStatusCodesCsv"]

  /**
   * text/template's `.Name` on that struct: the field of exactly that name
   * (the lookup is case-sensitive), or nothing.
   */
  function FieldValue(data: FunctionData, name: string): (r: Option<string>)
    ensures name == "URL" ==> r == Some(data.url)
  {
    if name == "Documentation" then Some(data.documentation)
    else if name == "FunName" then Some(data.funName)
    else if name == "ArgType" then Some(data.argType)
    else if name == "ResponseType" then Some(data.responseType)
    else if name == "MethodType" then Some(data.verb)
    else if name == "URL" then Some(data.url)
    else if name == "ReplaceTemplateVarsCode" then Some(data.templateCode)
    else if name == "ReplaceQueryVarsCode" then Some(data.queryCode)
    else if name == "AcceptableStatusCodesCsv" then Some(data.statusCsv)
    else None
  }

  /**
   * The fields funBodyTmpl reads outside any `{{if}}` body, in execution
   * order (render.go:37-86), every execution reads these; `urlField` is
   * how the template spells the URL field.
   */
  function FunBodyReads(urlField: string): (r: seq<string>)
    ensures |r| == 11 && r[4] == urlField
  {
    ["Documentation", "FunName", "ArgType", "ResponseType", urlField, "ReplaceTemplateVarsCode",
     "MethodType", "MethodType", "ReplaceQueryVarsCode", "AcceptableStatusCodesCsv", "ResponseType"]
  }

  /** The reads as written: the template spells the field `Url` (render.go:45). */
  const FunBodyFields: seq<string> := FunBodyReads("Url")

  /** The same reads with the URL field spelled as the struct declares it. */
  const FunBodyFieldsCorrected: seq<string> := FunBodyReads("URL")

  /**
   * Executing the reads in order: the values read, or an error for the
   * first field the struct lacks, on which render.go panics.
   */
  function ExecuteFields(data: FunctionData, fields: seq<string>): (r: Result<seq<string>>)
    ensures r.Ok? ==> |r.value| == |fields|
    ensures r.Fail? ==> r.error.TemplateFieldMissing? && r.error.field in fields
  {
    if |fields| == 0 then Ok([])
    else
      match FieldValue(data, fields[0])
      case None => Fail(TemplateFieldMissing(fields[0]))
      case Some(v) =>
        var rest :- ExecuteFields(data, fields[1..]);
        Ok([v] + rest)
  }

  /** A field is found exactly when the struct declares it. */
  lemma FieldValueDefined(data: FunctionData, name: string)
    ensures FieldValue(data, name).Some? <==> name in FunctionDataFields
  {
  }

  /**
   * Executing reads succeeds exactly when every field read is declared;
   * then each value is the field read, and otherwise the error names an
   * undeclared field.
   */
  lemma {:induction false} ExecuteFieldsOutcome(data: FunctionData, fields: seq<string>)
    ensures var r := ExecuteFields(data, fields);
            r.Ok? ==> forall i :: 0 <= i < |fields| ==> FieldValue(data, fields[i]) == Some(r.value[i])
    ensures ExecuteFields(data, fields).Fail? <==> exists i :: 0 <= i < |fields| && fields[i] !in FunctionDataFields
    ensures var r := ExecuteFields(data, fields);
            r.Fail? ==> r.error.field !in FunctionDataFields
  {
    if |fields| > 0 {
      FieldValueDefined(data, fields[0]);
      ExecuteFieldsOutcome(data, fields[1..]);
      var r := ExecuteFields(data, fields);
      var rest := ExecuteFields(data, fields[1..]);
      if r.Ok? {
        forall i | 0 <= i < |fields| ensures FieldValue(data, fields[i]) == Some(r.value[i]) {
          if i > 0 {
            assert fields[i] == fields[1..][i - 1];
          }
        }
      }
      if exists i :: 0 <= i < |fields| && fields[i] !in FunctionDataFields {
        var i :| 0 <= i < |fields| && fields[i] !in FunctionDataFields;
        if i > 0 {
          assert fields[1..][i - 1] == fields[i];
        }
      }
      if rest.Fail? {
        var i :| 0 <= i < |fields[1..]| && fields[1..][i] !in FunctionDataFields;
        assert fields[i + 1] == fields[1..][i];
      }
    }
  }

  /** One read, then the rest. */
  lemma ExecuteCons(data: FunctionData, name: string, rest: seq<string>)
    ensures FieldValue(data, name).None? ==> ExecuteFields(data, [name] + rest) == Fail(TemplateFieldMissing(name))
    ensures FieldValue(data, name).Some? && ExecuteFields(data, rest).Ok?
            ==> ExecuteFields(data, [name] + rest) == Ok([FieldValue(data, name).value] + ExecuteFields(data, rest).value)
    ensures FieldValue(data, name).Some? && ExecuteFields(data, rest).Fail?
            ==> ExecuteFields(data, [name] + rest) == ExecuteFields(data, rest)
  {
    assert ([name] + rest)[1..] == rest;
  }

  /**
   * As written, executing funBodyTmpl fails for every method: `.Url` names
   * no field of the struct, whose field is `URL`.
   */
  lemma FunBodyAsWrittenFails(data: FunctionData)
    ensures ExecuteFields(data, FunBodyFields) == Fail(TemplateFieldMissing("Url"))
  {
    FunBodyReadsMissing(data, "Url");
  }

  /** Whatever undeclared field the template reads in the URL's place, execution fails on it. */
  lemma FunBodyReadsMissing(data: FunctionData, urlField: string)
    requires FieldValue(data, urlField).None?
    ensures ExecuteFields(data, FunBodyReads(urlField)) == Fail(TemplateFieldMissing(urlField))
  {
    var head := ["Documentation", "FunName", "ArgType", "ResponseType"];
    var tail := ["ReplaceTemplateVarsCode", "MethodType", "MethodType", "ReplaceQueryVarsCode",
                 "AcceptableStatusCodesCsv", "ResponseType"];
    assert FunBodyReads(urlField) == head + ([urlField] + tail);
    ExecuteCons(data, urlField, tail);
    ExecuteDeclaredThenFail(data, head, [urlField] + tail);
  }

  /** Corrected, execution succeeds and writes the method's data, its URL in particular. */
  lemma FunBodyReadsData(data: FunctionData)
    ensures ExecuteFields(data, FunBodyFieldsCorrected)
            == Ok([data.documentation, data.funName, data.argType, data.responseType, data.url,
                   data.templateCode, data.verb, data.verb, data.queryCode, data.statusCsv, data.responseType])
  {
    FunBodyReadsField(data, "URL", data.url);
    assert [data.documentation, data.funName, data.argType, data.responseType, data.url]
           + [data.templateCode, data.verb, data.verb, data.queryCode, data.statusCsv, data.responseType]
           == [data.documentation, data.funName, data.argType, data.responseType, data.url,
               data.templateCode, data.verb, data.verb, data.queryCode, data.statusCsv, data.responseType];
  }

  /** Whatever declared field the template reads in the URL's place, execution succeeds and writes it. */
  lemma FunBodyReadsField(data: FunctionData, urlField: string, url: string)
    requires FieldValue(data, urlField) == Some(url)
    ensures ExecuteFields(data, FunBodyReads(urlField))
            == Ok([data.documentation, data.funName, data.argType, data.responseType, url]
                  + [data.templateCode, data.verb, data.verb, data.queryCode, data.statusCsv, data.responseType])
  {
    var head := ["Documentation", "FunName", "ArgType", "ResponseType", urlField];
    var heads := [data.documentation, data.funName, data.argType, data.responseType, url];
    var tail := ["ReplaceTemplateVarsCode", "MethodType", "MethodType", "ReplaceQueryVarsCode",
                 "AcceptableStatusCodesCsv", "ResponseType"];
    var tails := [data.templateCode, data.verb, data.verb, data.queryCode, data.statusCsv, data.responseType];
    assert FunBodyReads(urlField) == head + tail;
    assert tail + [] == tail;
    ExecuteDeclared(data, tail, tails, []);
    assert tails + [] == tails;
    ExecuteDeclared(data, head, heads, tail);
  }

  /** Declared reads, then others: their values, then the others' outcome. */
  lemma {:induction false} ExecuteDeclared(data: FunctionData, fields: seq<string>, values: seq<string>, rest: seq<string>)
    requires |values| == |fields|
    requires forall i :: 0 <= i < |fields| ==> FieldValue(data, fields[i]) == Some(values[i])
    requires ExecuteFields(data, rest).Ok?
    ensures ExecuteFields(data, fields + rest) == Ok(values + ExecuteFields(data, rest).value)
  {
    var after := ExecuteFields(data, rest).value;
    if |fields| == 0 {
      assert fields + rest == rest;
      assert values + after == after;
    } else {
      var tail, more := fields[1..], values[1..];
      assert forall i :: 0 <= i < |tail| ==> tail[i] == fields[i + 1] && more[i] == values[i + 1];
      ExecuteDeclared(data, tail, more, rest);
      ConsAppend(fields, rest);
      ExecuteCons(data, fields[0], tail + rest);
      ConsAppend(values, after);
    }
  }

  /** Declared reads, then a failing execution: the same failure. */
  lemma {:induction false} ExecuteDeclaredThenFail(data: FunctionData, fields: seq<string>, rest: seq<string>)
    requires forall i :: 0 <= i < |fields| ==> FieldValue(data, fields[i]).Some?
    requires ExecuteFields(data, rest).Fail?
    ensures ExecuteFields(data, fields + rest) == ExecuteFields(data, rest)
  {
    if |fields| == 0 {
      assert fields + rest == rest;
    } else {
      var tail := fields[1..];
      assert forall i :: 0 <= i < |tail| ==> tail[i] == fields[i + 1];
      ExecuteDeclaredThenFail(data, tail, rest);
      ConsAppend(fields, rest);
      ExecuteCons(data, fields[0], tail + rest);
    }
  }


  /** Everything RenderMethodWithBulkTypes decides for one method. */
  datatype MethodOutput = MethodOutput(paramDecls: seq<TypeDecl>, results: ResultsDecl, call: FunctionData)

  /**
   * RenderMethodWithBulkTypes without the template execution.  The
   * external `gojson` conversion of the response example is the parameter
   * `inferStruct` (example, type name) -> text; the inferred text replaces
   * the declared results collection exactly when it is not empty.  The
   * generated function is private, and its argument and response types are
   * the Params and Results names of the method.  The types the signature
   * names are the ones the declarations define: the argument type is the
   * struct declared last among the parameter declarations, the response
   * type the one declared last among the results declarations when no type
   * was inferred.
   */
  function MethodOutputOf(m: Method, inferStruct: (string, string) -> string): (out: MethodOutput)
    ensures |out.call.funName| >= 1 && ToLower(out.call.funName[0]) == out.call.funName[0]
    ensures EndsWith(out.call.argType, "Params") && EndsWith(out.call.responseType, "Results")
    ensures out.results.InferredResults? <==> inferStruct(m.resultsExample, out.call.responseType) != ""
    ensures out.call.documentation == m.documentation && out.call.verb == m.verb && out.call.url == m.url
    ensures NamedLast(out.paramDecls, out.call.argType)
    ensures out.results.DeclaredResults? ==> NamedLast(out.results.decls, out.call.responseType)
  {
    var methName := RenderIdentifier(m.name, false);
    var argType := CollectionName(ParamsCollection, methName);
    var responseType := CollectionName(ResultsCollection, methName);
    var returnStruct := inferStruct(m.resultsExample, responseType);
    MethodOutput(
      Collection(methName, m.arguments, ParamsCollection),
      if returnStruct != "" then InferredResults(returnStruct)
      else DeclaredResults(Collection(methName, m.results, ResultsCollection)),
      FunctionData(m.documentation, methName, argType, responseType, m.verb, m.url,
                   Concat(TemplateSnippets(OfStyle(m.arguments, TemplateStyle))),
                   Concat(QuerySnippets(OfStyle(m.arguments, QueryStyle))),
                   Join(m.acceptableStatus, ",")))
  }

  /**
   * What the function's data does with the method's arguments and status
   * codes: the URL-template and query code cover exactly the arguments of
   * those styles (and are empty without them), and the comma-joined status
   * list reads back as the acceptable status codes; with none it is empty,
   * so the generated function checks no status.
   */
  lemma MethodCode(m: Method, inferStruct: (string, string) -> string)
    ensures var call := MethodOutputOf(m, inferStruct).call;
            && (forall v :: v in m.arguments && v.requestType == TemplateStyle ==>
                  Contains(call.templateCode, Placeholder(v.name)) && Contains(call.templateCode, ArgumentAccess(v)))
            && (call.templateCode == "" <==> forall v :: v in m.arguments ==> v.requestType != TemplateStyle)
    ensures var call := MethodOutputOf(m, inferStruct).call;
            && (forall v :: v in m.arguments && v.requestType == QueryStyle ==>
                  Contains(call.queryCode, "query.Add(\"" + v.name + "\"") && Contains(call.queryCode, ArgumentAccess(v)))
            && (call.queryCode == "" <==> forall v :: v in m.arguments ==> v.requestType != QueryStyle)
    ensures m.acceptableStatus == [] ==> MethodOutputOf(m, inferStruct).call.statusCsv == ""
    ensures |m.acceptableStatus| > 0 && (forall i :: 0 <= i < |m.acceptableStatus| ==> ',' !in m.acceptableStatus[i])
            ==> Split(MethodOutputOf(m, inferStruct).call.statusCsv, ',') == m.acceptableStatus
  {
    CallCode(m, inferStruct);
    TemplateCode(m.arguments);
    QueryCode(m.arguments);
    if |m.acceptableStatus| > 0 && (forall i :: 0 <= i < |m.acceptableStatus| ==> ',' !in m.acceptableStatus[i]) {
      SplitJoin(m.acceptableStatus, ',');
    }
  }

  lemma CallCode(m: Method, inferStruct: (string, string) -> string)
    ensures var call := MethodOutputOf(m, inferStruct).call;
            && call.templateCode == Concat(TemplateSnippets(OfStyle(m.arguments, TemplateStyle)))
            && call.queryCode == Concat(QuerySnippets(OfStyle(m.arguments, QueryStyle)))
            && call.statusCsv == Join(m.acceptableStatus, ",")
  {
  }

  /**
   * render.go's per-method rendering, step by step: the parameter
   * declarations, the inferred or declared results, then the partition
   * loop's snippet code and the status list go into the function's data.
   * It agrees with the declarative definition above.
   */
  method RenderMethod(m: Method, inferStruct: (string, string) -> string) returns (out: MethodOutput)
    ensures out == MethodOutputOf(m, inferStruct)
  {
    var methName := RenderIdentifier(m.name, false);
    var paramDecls := Collection(methName, m.arguments, ParamsCollection);
    var returnStruct := inferStruct(m.resultsExample, ResultsName(methName));
    var results;
    if returnStruct != "" {
      results := InferredResults(returnStruct);
    } else {
      results := DeclaredResults(Collection(methName, m.results, ResultsCollection));
    }
    var templateCode, queryCode, bodyParams := PartitionArguments(m.arguments);
    var call := FunctionData(m.documentation, methName, ParamsName(methName), ResultsName(methName), m.verb, m.url,
                             Concat(templateCode), Concat(queryCode), Join(m.acceptableStatus, ","));
    out := MethodOutput(paramDecls, results, call);
  }
}
