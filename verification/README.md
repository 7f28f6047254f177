# wadl2go core, modelled in Dafny

wadl2go reads a WADL description of a REST API and writes Go client code:
one request function per WADL method, a `<Method>Params` struct for its
arguments, and a `<Method>Results` struct for its results (or a struct that
the external `gojson` tool infers from a JSON response example).

This project models the generator's deterministic core. It follows the two
source files:

- **main.go** builds the semantic model. That covers the grammar pool of
  variables read from JSON-schema includes (`rawJSONSchemaParamToParam`,
  with its required-flagging pass) and `rawParamToVariable` /
  `rawDocsToDoc`. It also covers the method loop, which assembles the
  arguments, results, example and acceptable status codes of every method
  and stores them by name. Last comes `recurseResources`, which walks each
  `<resources>` tree and binds methods to their URL and inherited parameters.
- **render.go** makes the data decisions that feed the code templates:
  - `renderIdentifiers` and `caseFirstChar`;
  - the `Params`/`Results` names and `renderType`;
  - the JSON field-tag rule;
  - the split of a method's arguments into URL-template snippets, query
    snippets and body fields;
  - the rewrite of fields with embedded variables into references to
    generated nested types;
  - the DocBook scrub of `renderDocumentation`;
  - the fields `funBodyTmpl` reads from its data, and whether executing it
    succeeds.

Modules:

| module | file | what it holds |
|---|---|---|
| `Text` | text.dfy | ASCII case mapping, Go's white space, `strings.TrimSpace`, `Split`, `Join` |
| `Outcome` | outcome.dfy | the fatal errors, `Option`, `Result` |
| `Json` | json.dfy | decoded JSON values; objects as member sequences |
| `Wadl` | wadl.dfy | `Variable`, `Method`, the method map, the raw WADL nodes the core reads |
| `Identifiers` | identifiers.dfy | `caseFirstChar`, `renderIdentifiers` (loop as written and a one-pass reference), derived names |
| `Render` | render.dfy | `renderType`, field tags, argument partition, nested-type rewrite, collections, per-method output |
| `Documentation` | documentation.dfy | `renderDocumentation` |
| `Variables` | variables.dfy | `rawDocsToDoc`, `rawParamToVariable`, JSON schema conversion |
| `Assembly` | assembly.dfy | grammar pool, request and response assembly, the method map |
| `Resources` | resources.dfy | URLs as segment sequences, method binding, the resource walk as written and scoped |
| `Pipeline` | pipeline.dfy | `main` from the grammar pool to the resolved method map |

Things the Go program aborts on become `Fail` values of `Outcome.Result`:
- a panic on a failed type assertion;
- `Docs[0]` on a representation without documentation;
- `href[1:]` on an empty href;
- `log.Fatal` on an unreadable file or an unparsable base URL.

Calls into code the model cannot see are function parameters:
- `loadSchema`: reading and decoding a schema file;
- `loadExample`: dereferencing an example document;
- `parseUrl`: `url.Parse`;
- `inferStruct`: the `gojson` subprocess.

Points where the code's behaviour may be surprising (the model follows the
code):
- A status attribute is split on single spaces (`strings.Split(status, " ")`),
  not on white space. Empty tokens from repeated spaces are kept.
- A method reference is looked up with its first character dropped, whatever
  that character is (normally `#`), not with a leading slash stripped.
- A resource's accumulated parameters leak to its later siblings; see
  Findings. The resolved document uses the scoped walk; the walk as written
  is modelled too, and `Resources.WalkApply` states its outcome.

## Model

| member | source | states |
|---|---|---|
| `Text.TrimSpace` | main.go:338-341 | the result has no white space at either end and is a block of the input with only white space before and after it |
| `Text.TrimSpaceIdempotent` | main.go:338-341 | trimming an already trimmed string changes nothing |
| `Text.Split` | main.go:134 | a split yields at least one piece and no piece contains the separator |
| `Text.JoinSplit` | main.go:134 | joining the pieces of a split with the separator gives back the input |
| `Text.SplitAround` | main.go:134 | splitting `p + sep + q` is splitting `p`, then splitting `q` |
| `Text.SplitWithoutSeparator` | main.go:134 | a string without the separator splits into itself alone |
| `Identifiers.CaseFirstChar` | render.go:331-339 | only the first character changes, to the requested case; the empty string becomes U+FFFD |
| `Identifiers.CaseFirstCharKeepsDelimiters` | render.go:331-339 | changing the first character's case keeps the number of `_` and `-` |
| `Identifiers.FirstIndex` | render.go:293 | the index holds the character and no earlier position does |
| `Identifiers.CamelStep` | render.go:297 | one step removes exactly one occurrence of the delimiter and keeps the count of the other |
| `Identifiers.CamelLoop` | render.go:292-298 | the loop for one delimiter removes all of it and keeps every occurrence of the other |
| `Identifiers.CamelPass` | render.go:290-299 | the one-pass reading leaves no occurrence of the delimiter |
| `Identifiers.LoopIsPass` | render.go:291-299 | the source's find-and-replace loop equals the one-pass reading: drop each delimiter and upper-case the next character kept |
| `Identifiers.RenderIdentifier` | render.go:290-302 | the identifier has no `_` or `-`, is never empty, and its first character has the requested case |
| `Identifiers.RenderIdentifierIsOnePass` | render.go:290-302 | renderIdentifiers is the `_` pass, then the `-` pass, then the first-character case change |
| `Identifiers.RenderIdempotent` | render.go:290-302 | rendering an already rendered identifier again changes nothing |
| `Identifiers.RenderOfPlainConcat` | render.go:290-302 | a delimiter-free name plus a delimiter-free suffix renders as the name with a capital first letter, then the suffix |
| `Identifiers.RenderKeepsSuffix` | render.go:304-310 | a capitalised delimiter-free suffix such as `Params` survives at the end of any rendered public name |
| `Identifiers.ParamsName` | render.go:304-306 | the parameter type name ends in `Params`, has no delimiter and starts with a capital |
| `Identifiers.ParamsNameOfPlain` | render.go:304-306 | for a delimiter-free stem the name is the stem capitalised, then `Params` |
| `Identifiers.ResultsName` | render.go:308-310 | the results type name ends in `Results`, has no delimiter and starts with a capital |
| `Identifiers.ResultsNameOfPlain` | render.go:308-310 | for a delimiter-free stem the name is the stem capitalised, then `Results` |
| `Identifiers.NestedStem` | render.go:266 | the stem of a nested type is non-empty, delimiter-free and capitalised |
| `Identifiers.NestedStemOfPlain` | render.go:266 | for plain names the nested stem is the method stem and the field name, both capitalised, run together |
| `Render.RenderType` | render.go:312-329 | `object`, `xsd:datetime` and the string, int and bool aliases map to their Go types regardless of case; any other type is returned verbatim |
| `Render.GoTypesFixed` | render.go:317-328 | every Go type renderType produces maps to itself |
| `Render.RenderTypeIdempotent` | render.go:312-329 | rendering a rendered type again changes nothing |
| `Render.RenderTypeIgnoresCase` | render.go:313 | two type names that differ only in case render to the same Go type, unless both are unknown and pass through |
| `Render.PluralNamePassesThrough` | render.go:312-329 | a type name ending in `s` is not one renderType knows, so it passes through unchanged |
| `Render.CollectionName` | render.go:207-215 | a collection is named with the `Params` or `Results` suffix of its kind, delimiter-free and capitalised |
| `Render.CollectionNamePassesThrough` | render.go:257-268 | the generated type name written into a rewritten field passes through renderType unchanged |
| `Render.FieldTag` | render.go:257 | a non-plain field is never serialized; a plain field is keyed by its WADL name and is `omitempty` exactly when not required |
| `Render.TagValueOfPlain` | render.go:257 | the tag value of a plain field reads back as its name, with `omitempty` present exactly when it is not required |
| `Render.DashNamedBodyFieldIsOmitted` | render.go:257 | a required body field named `-` gets the tag `json:"-"`, which encoding/json reads as never serialized |
| `Render.OfStyle` | render.go:109-141 | the arguments of one style are exactly the arguments with that request type, none added |
| `Render.OfStyleAppend` | render.go:109-141 | selecting by style distributes over concatenation, so the original order is kept |
| `Render.OtherStyles` | render.go:112-140 | the arguments whose style is none of template, query and plain |
| `Render.PartitionSizes` | render.go:111-140 | each argument lands in at most one group, and arguments of any other style in none |
| `Render.TemplateSnippet` | render.go:103-104 | a template snippet mentions the `%7B<name>%7D` placeholder and the public field `args.<Name>` |
| `Render.QuerySnippet` | render.go:105-106 | a query snippet adds the key `<name>` and reads the public field `args.<Name>` |
| `Render.PartitionArguments` | render.go:108-141 | the loop yields one template snippet per template argument and one query snippet per query argument, in order, and keeps the plain arguments in order |
| `Render.FieldOf` | render.go:254-257 | a field's name is the rendered public name, its Go type the rendered type, its tag the field-tag rule |
| `Render.FieldsOf` | render.go:254-258 | one field per variable, in order |
| `Render.RewriteOne` | render.go:263-268 | a variable with embedded variables takes the generated type name; any other variable is unchanged |
| `Render.RewriteNestedSpec` | render.go:262-269 | every variable of a collection is rewritten with the name of its own generated type when nested, and left alone otherwise |
| `Render.NestedDecls` | render.go:262-269 | one nested declaration is emitted per nested variable of the whole variable tree |
| `Render.NestedDeclsSpec` | render.go:262-269 | every nested variable's generated type is among the declarations emitted before the collection |
| `Render.Collection` | render.go:250-288 | a collection is its nested declarations, then its own struct named after the stem, whose fields are the rewritten variables in order |
| `Render.CollectionFieldTypes` | render.go:257-269 | a nested field's Go type is its generated type, declared earlier; any other field's Go type is the rendered WADL type |
| `Render.TemplateCode` | render.go:103-125 | every template argument's `%7B<name>%7D` placeholder and public field access occur in the collected template code, which is empty exactly when no argument is a template argument |
| `Render.QueryCode` | render.go:105-136 | every query argument's `query.Add("<name>"` key and public field access occur in the collected query code, which is empty exactly when no argument is a query argument |
| `Render.MethodCode` | render.go:108-164 | the method's template code and query code mention every template and query argument as above; the status list is empty without status codes, and splits on `,` back into the codes when none contains a comma |
| `Render.MethodOutputOf` | render.go:91-165 | the function is private, its argument and response types are the last declared Params and Results structs, and the inferred struct replaces the declared results exactly when `gojson` returns text |
| `Render.RenderMethod` | render.go:91-165 | built step by step as render.go does (parameter declarations, inferred or declared results, the partition loop's snippets, the status list), the output is the declarative definition `Render.MethodOutputOf` |
| `Render.FieldValueDefined` | render.go:146-156 | a template field is found exactly when its name, compared case-sensitively, is one of the nine fields the data struct declares |
| `Render.FieldValue` | render.go:146-163 | the field `URL` holds the method's URL |
| `Render.ExecuteFields` | render.go:146-168 | executing the reads gives one value per field read, or an error that names a field read |
| `Render.ExecuteFieldsOutcome` | render.go:146-168 | execution fails exactly when some field read is not declared, and the error names such a field; on success each value is its field's value |
| `Render.FunBodyAsWrittenFails` | render.go:45-168 | as written, executing funBodyTmpl fails on `Url` for every method, so render.go:167 panics |
| `Render.FunBodyReadsMissing` | render.go:45-168 | any undeclared spelling of the URL field makes the execution fail on that field |
| `Render.FunBodyReadsData` | render.go:35-165 | with the field spelled `URL`, execution succeeds and writes the documentation, function name, argument and response types, URL, template code, verb, query code and status list, in template order |
| `Render.FunBodyReadsField` | render.go:35-165 | the same for any declared spelling, which writes that field's value in the URL's place |
| `Documentation.DocLines` | render.go:219-221 | the lines hold no newline, and empty documentation has none |
| `Documentation.JoinedLines` | render.go:220-232 | the trimmed lines run together hold no newline |
| `Documentation.ReplaceOpenTagWithoutTags` | render.go:236-242 | an opening-tag rewrite leaves text without `<` unchanged |
| `Documentation.ReplaceLiteralWithoutTags` | render.go:237-243 | a closing-tag rewrite leaves text without `<` unchanged |
| `Documentation.StripTrailingMarker` | render.go:244 | cuts the text at the leftmost `//` followed only by white space, and at no other place |
| `Documentation.ScrubWithoutTags` | render.go:235-244 | on text without `<` the whole scrub only removes a trailing comment marker |
| `Documentation.RenderDocumentation` | render.go:217-248 | the result is a Go line comment |
| `Documentation.PlainDocumentation` | render.go:217-248 | documentation without markup becomes `// ` and its trimmed lines run together, minus a trailing marker |
| `Variables.RawDocsToDoc` | main.go:334-342 | the documentation has no white space at either end; no fragments give `""` |
| `Variables.LinesIsJoin` | main.go:336-339 | writing each fragment followed by a newline is joining them with newlines plus a final newline |
| `Variables.TrimSpaceAppendSpace` | main.go:341 | trailing white space does not survive the final trim |
| `Variables.RawDocsToDocIsTrimmedJoin` | main.go:334-342 | rawDocsToDoc trims each fragment, joins them with newlines and trims the result |
| `Variables.RawDocsToDocSingle` | main.go:334-342 | a single fragment becomes its own trimming |
| `Variables.RawParamToVariable` | main.go:322-329 | name, type, required flag and path are copied, the style becomes the request type, the docs become the documentation |
| `Variables.ParamsToVariables` | main.go:320-332 | exactly one variable per raw parameter, in order |
| `Variables.ParamsToVariablesAppend` | main.go:320-332 | converting a concatenation is concatenating the conversions |
| `Variables.ParamsToVariablesNames` | main.go:320-332 | a name occurs among the variables exactly when it occurs among the raw parameters |
| `Variables.NewSchemaVariable` | main.go:204 | a schema variable starts as a body (`plain`) variable with the property's name, not required |
| `Variables.SchemaToVariables` | main.go:199-243 | one plain variable per property, in order, named by its key and required exactly when its name is a string of `required`; a non-object property or non-string attribute aborts |
| `Variables.SchemaVariablesFromAttributes` | main.go:199-222 | every property is an object, and each variable is, apart from its required flag, exactly the variable its property's attributes build, in property order |
| `Variables.DiscoverProperties` | main.go:202-222 | the discovery loop yields one unrequired plain variable per property, named by its key |
| `Variables.DiscoverFromAttributes` | main.go:203-221 | every property the loop accepts is an object and yields the variable its attributes build, in order |
| `Variables.VariableFromAttributes` | main.go:204-220 | a property's variable keeps its name, the plain style, is not required and has no path; its URI, type and documentation are the strings of the last `id`, `type` and `documentation` attributes (keys compared lower-cased), and "" without one |
| `Variables.AttributesOutcome` | main.go:204-220 | a `properties` attribute makes the embedded variables the conversion of the attribute object itself, otherwise there are none; the conversion fails exactly when an `id`, `type` or `documentation` attribute is not a string or the embedded conversion fails |
| `Variables.LastAttr` | main.go:206-218 | the attribute found is the last one whose lower-cased key matches, or there is none: the one whose value an overwriting loop leaves |
| `Variables.AttributeStep` | main.go:207-217 | one attribute aborts exactly when it is a non-string `id`, `type` or `documentation`, or a `properties` attribute whose conversion fails |
| `Variables.ApplyAttributes` | main.go:206-218 | from any starting variable, the loop keeps name, style, required flag and path; the last `id`, `type` and `documentation` attribute sets URI, type and documentation, and without one the field keeps its value |
| `Variables.ApplyAttributesOutcome` | main.go:206-218 | the last `properties` attribute sets the embedded variables to the conversion of the attribute object, which are otherwise kept; the loop aborts exactly on a non-string `id`, `type` or `documentation` or a failing embedded conversion |
| `Variables.UnknownAttributesIgnored` | main.go:206-218 | attributes with other keys leave the variable unchanged |
| `Variables.MarkName` | main.go:228-234 | one pass marks required exactly the variables named by the item and changes nothing else |
| `Variables.MarkRequired` | main.go:225-239 | a variable ends up required exactly when it was or a `required` item names it |
| `Variables.UnknownRequired` | main.go:235-237 | the warnings are exactly the `required` items that name no variable |
| `Variables.UnknownRequiredChangesNothing` | main.go:226-237 | a `required` item that names no variable marks nothing |
| `Variables.NoPropertiesNoVariables` | main.go:202 | a schema without a `properties` member gives no variables |
| `Json.KeyIndex` | main.go:202 | the lookup finds the first member with the key, or reports it absent |
| `Assembly.Ext` | main.go:80 | the extension is empty or a `.` suffix of the path holding no other `.` and no `/`; when it is empty, every `.` of the path has a `/` after it |
| `Assembly.ExtWithoutDot` | main.go:80-83 | a path without `.` has no extension, so it is skipped |
| `Assembly.JsonExtension` | main.go:80-84 | any name ending in `.json` is read as a JSON schema |
| `Assembly.GrammarPool` | main.go:78-91 | the pool can only fail because of a JSON include |
| `Assembly.GrammarPoolStep` | main.go:79-90 | one more include fails the loop exactly when it is a JSON include that cannot be read or converted, and otherwise appends what it contributes |
| `Assembly.GrammarPoolIsPoolOf` | main.go:79-91 | the loop fails exactly when some JSON include cannot be read or converted; otherwise the pool is the variables of the JSON includes, concatenated in include order, and other includes add nothing |
| `Assembly.PoolMatches` | main.go:118-124 | the matches are exactly the pool variables whose URI equals the reference |
| `Assembly.PoolMatchesAll` | main.go:118-124 | every match is kept, not only the first |
| `Assembly.RepresentationArguments` | main.go:104-128 | a non-JSON representation adds nothing; a JSON one adds the pool matches of its `json:ref` (when present), then its own parameters |
| `Assembly.RequestArguments` | main.go:101-129 | the arguments start with the request's own parameters; without a request there are none |
| `Assembly.NonJsonRepresentationsIgnored` | main.go:104-109 | representations that are not JSON contribute nothing |
| `Assembly.RepresentationArgumentsMembers` | main.go:104-128 | a variable is among one representation's arguments exactly when the representation is JSON and the variable is one of its parameters or a pool variable under its non-empty `json:ref` |
| `Assembly.RepresentationsArgumentsOrigin` | main.go:104-128 | every representation argument is contributed by some JSON representation: one of its parameters or a pool variable under its `json:ref` |
| `Assembly.RepresentationsArgumentsComplete` | main.go:104-128 | conversely, whatever any JSON representation contributes is among the arguments |
| `Assembly.RequestArgumentsMembers` | main.go:101-129 | a variable is an argument of a request exactly when it is one of the request's own parameters or contributed by one of its representations |
| `Assembly.FirstJson` | main.go:137-155 | the first representation whose media type is exactly application/json |
| `Assembly.ResponseContribution` | main.go:130-156 | a response gives its parameters, its status split on single spaces, and the example and parameters of its first JSON representation only |
| `Assembly.AssembleResponses` | main.go:130-156 | the acceptable status codes are all responses' codes in order; without JSON representations the example stays empty |
| `Assembly.ResultsWithoutJson` | main.go:130-156 | without JSON representations assembly cannot fail and the results are the responses' parameters in order |
| `Assembly.ExampleOfLastResponse` | main.go:144-154 | when the last response has a JSON representation, its example is the method's |
| `Assembly.ContributionOutcome` | main.go:130-156 | a single response fails exactly when its first JSON representation has no `<doc>` or an unreadable example, and otherwise gives its parameters, then that representation's |
| `Assembly.LastJsonResponse` | main.go:137-154 | the last response that has a JSON representation, or none |
| `Assembly.AssembleResponsesStep` | main.go:130-156 | one more response fails the loop exactly when its example fails, and otherwise appends its results |
| `Assembly.AssembleResponsesOutcome` | main.go:130-156 | the loop fails exactly when some response's example fails; otherwise the results are every response's parameters followed by its first JSON representation's, in response order |
| `Assembly.AssembleResponsesExample` | main.go:137-154 | the example is the one read through the first `<doc>` of the last response that has a JSON representation, and "" when no response has one |
| `Assembly.StatusCodes` | main.go:132-135 | no status code contains a space |
| `Assembly.StatusCodesRoundTrip` | main.go:132-135 | joining one response's codes with a space gives back its status attribute |
| `Assembly.StatusOfCodes` | main.go:134 | `"a b"` yields exactly the codes `a` and `b` |
| `Assembly.AssembleMethod` | main.go:96-156 | the method is named by the raw id, its verb is the raw name, its URL is unset, its documentation comes from its docs; its arguments, results, example and status codes are the assembled ones, and it fails exactly when the response loop does |
| `Assembly.LastWithId` | main.go:157 | the last raw method with the id |
| `Assembly.BuildDocument` | main.go:94-158 | the map has one key per method id, and each entry is the method assembled from the last declaration with that id |
| `Assembly.BuildDocumentStep` | main.go:157 | storing a later method by name keeps that invariant |
| `Resources.Segments` | main.go:301 | a resource path contributes only non-empty segments without `/` |
| `Resources.JoinPath` | main.go:300-301 | joining keeps the origin and the host, appends the resource path's non-empty segments, and the joined path is rooted exactly when the base path is, or when the base path is empty and the resource path starts with `/` (filepath.Join ignores empty elements) |
| `Resources.JoinPathAssociative` | main.go:300-301 | joining `a` and then `b` is joining `a/b`, or just `b` when `a` is empty |
| `Resources.EscapeSegment` | main.go:314 | a written segment holds no brace |
| `Resources.EscapeTemplateSegment` | main.go:314 | a `{name}` segment is written as `%7Bname%7D` |
| `Resources.TemplateSegmentInUrl` | main.go:299-314 | the URL of a resource ending in `{name}` contains the placeholder the generated code replaces |
| `Resources.UrlContainsLastSegment` | main.go:301-314 | the URL of a resource ends with, and so contains, its last path segment, escaped |
| `Resources.UrlString` | main.go:314 | a written URL starts with its origin; with no path segments it is the origin alone, or the origin and `/` when the path is rooted |
| `Resources.UrlStringPath` | main.go:314 | after the origin, url.URL.String writes a leading `/` exactly when the path is rooted, or is not empty and the URL has a host; the `/`-separated pieces it writes are the escaped segments, in order |
| `Resources.RelativeBaseUrl` | main.go:300-314 | with no host and an empty base path, a plain one-segment resource path `p` is written as `p`, with no leading `/` |
| `Resources.HostBaseUrl` | main.go:300-314 | with a host and an empty base path, the same resource path is written as the origin, `/`, then `p` |
| `Resources.RootedEmptyUrl` | main.go:300-314 | a base path `/` joined with an empty resource path is written as the origin and `/` |
| `Resources.BindOne` | main.go:308-316 | a known method gets the URL and the parameters appended, an unknown reference changes nothing, and an empty href aborts |
| `Resources.BindMethods` | main.go:308-316 | binding fails exactly when some href is empty, and otherwise only sets URLs and extends arguments |
| `Resources.BindMethodsUnbound` | main.go:309-313 | a method no reference names is left exactly as it was |
| `Resources.BindMethodsBound` | main.go:308-316 | a method some reference names gets the resource's URL and ends with the accumulated parameters |
| `Resources.Walk` | main.go:293-318 | the walk as written only sets URLs and extends arguments, and fails only on an empty href |
| `Resources.WalkScoped` | main.go:293-318 | the scoped walk only sets URLs and extends arguments, and fails only on an empty href |
| `Resources.WalkAppend` | main.go:299-303 | as written, a later group of siblings inherits the earlier group's own parameters too |
| `Resources.WalkLeaf` | main.go:299-316 | a resource without children binds its references with its accumulated parameters |
| `Resources.ApplyAppend` | main.go:314-315 | applying two runs of bindings one after the other is applying both: the URL of the last, the parameters of all in order |
| `Resources.BindMethodsApply` | main.go:308-316 | after a resource's references, each method has the resource's URL if some reference names it, and its arguments followed by the accumulated parameters once per reference naming it |
| `Resources.WalkApply` | main.go:293-318 | at any depth, the walk as written leaves each method with the URL of the last resource that binds it and its arguments followed by the accumulated parameters of every binding, in walk order (descendants, then the resource's own references, then later siblings, which carry the earlier siblings' parameters) |
| `Resources.WalkScopedApply` | main.go:293-318 | the same for the scoped walk, where later siblings start again from the inherited parameters |
| `Resources.Unbound` | main.go:308-316 | a method no resource binds, at any depth, comes out of either walk unchanged |
| `Resources.WalkScopedOwnBinding` | main.go:306-316 | a method bound at a resource ends with that resource's URL and accumulated parameters, whatever its children bound first |
| `Resources.SiblingParamsLeak` | main.go:299-316 | as written, a method bound at a second sibling receives the first sibling's parameter |
| `Resources.WalkScopedAppend` | main.go:299-306 | with scoped parameters, every group of siblings starts from the same inherited parameters |
| `Resources.SiblingParamsScoped` | main.go:299-316 | with scoped parameters, that method receives nothing from its sibling |
| `Pipeline.BaseUrlOf` | main.go:161-164 | the override wins when it is not empty; otherwise the group's declared base is used |
| `Pipeline.WalkGroups` | main.go:160-172 | walking all groups only sets URLs and extends arguments, and fails only on an empty href or an unparsable base URL |
| `Pipeline.WalkGroupsApply` | main.go:160-172 | after all groups, each method has the URL of the last resource that binds it and its arguments followed by the parameters of every binding, group after group, each group walked from its own base with nothing inherited, under the scoped walk |
| `Pipeline.ResolveDocumentApply` | main.go:75-172 | each resolved method is the one assembled from the last declaration with its id, after the scoped walk's bindings of every group |
| `Pipeline.NoResourcesNoChange` | main.go:160-172 | without resource groups the resolved map is the assembled method map |
| `Pipeline.ResolveDocument` | main.go:75-172 | the resolved map has one method per method id, each an extension of the method assembled from the last declaration with that id |

## Left out

- The exact text and white space that `text/template` writes for
  `funBodyTmpl` and `collectionType` are not modelled. The values the
  templates receive are modelled (`Render.FunctionData`, `Render.TypeDecl`).
  For `funBodyTmpl`, the fields it reads outside `{{if}}` bodies are
  modelled, in order, and so is the failure on a field the data struct
  lacks (see Findings).
- `Render` (render.go:19-31) is not modelled: the package header and the
  loop over methods. Neither is the collection of methods out of the map
  (main.go:174-177), whose order is Go's map iteration order.
- `exampleToStruct` (render.go:174-205) runs the `gojson` subprocess. It is
  the parameter `inferStruct`.
- Flag parsing and validation, file reads and writes, XML decoding, the
  `wadl.WalkErrors` check, `debug` output and `os.Exit` (main.go:32-73,
  182-197, 275-291) are not modelled. Reading a schema and dereferencing an
  example are the parameters `loadSchema` and `loadExample`.
- Log warnings are not modelled, except the unknown-`required` warning
  (`Variables.UnknownRequired`). Informational log lines are not modelled
  either.
- `url.Parse` is the parameter `parseUrl`. It reports the origin (scheme,
  user information and host as written), whether there is a host, whether
  the path is rooted, and the path's segments. `url.URL.String` is modelled
  only for the `{`/`}` escaping the generated code relies on; other percent
  escaping is not modelled.
- `filepath.Join` is modelled as appending non-empty path segments and
  keeping track of whether the path is rooted. Its cleaning of `.` and `..`
  is not modelled.
- Case mapping is ASCII only, in `caseFirstChar`, `strings.ToLower` and
  `strings.EqualFold`. Unicode case mapping is not modelled, and neither is
  invalid UTF-8 decoding.
- Go map iteration order (main.go:203, 206) is replaced by the order of a
  JSON object's members. A JSON object with duplicate keys is not modelled:
  encoding/json keeps the last value, while `Json.KeyIndex` finds the first.
- Pointer aliasing is not modelled; variables and methods are immutable
  values. For example, a grammar variable appended to several methods
  (main.go:123) is mutated in place by the nested rewrite (render.go:268).
- The body parameters collected by the partition loop are not modelled
  further, since no template reads them (render.go:139).
- `bufio.Reader.ReadLine` splits a line longer than its buffer into several
  pieces. `Documentation.DocLines` keeps every line whole.
- Render.TemplateSnippet: states that the snippet contains the placeholder
  and the argument access, not its exact text, because template white space
  is not modelled.
- Render.QuerySnippet: states that the snippet contains the query key and
  the argument access, not its exact text, for the same reason.
- Resources.UrlString: a `Url` holds no query or fragment, so those parts of
  the base URL are not written. The `./` that url.URL.String puts before a
  relative path with no scheme and no host, when its first segment contains
  `:`, is not modelled. The path written after the origin is stated by
  `Resources.UrlStringPath`.
- Pipeline.WalkGroups: walks each group with the scoped walk
  (`Resources.WalkScoped`), the corrected form of recurseResources
  (main.go:171, 302). The walk as written is `Resources.Walk`, and its
  outcome at any depth is stated by `Resources.WalkApply`.
- Pipeline.ResolveDocument: resolves with `Pipeline.WalkGroups`, so with the
  scoped walk too, for the same reason.
- Pipeline.WalkGroupsApply: states the bindings of the scoped walk, in which
  a resource's later siblings start again from the inherited parameters. The
  code as written (main.go:302) passes each resource's parameters on to its
  later siblings; that outcome is stated for one group by
  `Resources.WalkApply`.
- Pipeline.ResolveDocumentApply: states the resolved map under the scoped
  walk's bindings too, for the same reason.
- Documentation.RenderDocumentation: states only the comment prefix. The
  content is stated for markup-free documentation by
  `Documentation.PlainDocumentation`. The tag rewrites are modelled exactly,
  but no general lemma is stated about them.

## Findings

| source | as written | input that shows it | evidently intended | confidence | as-written member | corrected member |
|---|---|---|---|---|---|---|
| main.go:299-316 | `params = append(params, …)` (line 302) reassigns the sibling loop's accumulated list, so each resource passes its own parameters on to every later sibling and that sibling's subtree | two sibling resources: `a` declares one parameter `p`; `b` declares none and binds method `m`; `m` receives `p` | every resource inherits exactly the parameters of its ancestors, as the per-resource copy of `base` (line 300) does for the URL | medium; not executed | `Resources.SiblingParamsLeak` | `Resources.WalkScopedAppend` |
| render.go:45 | funBodyTmpl reads `{{.Url}}`, but the data struct's field is `URL` (line 152); text/template looks fields up case-sensitively, so Execute fails and line 167 panics | any method: the template reaches `{{.Url}}` after the documentation, function name, argument and response types | the template reads `{{.URL}}` and writes the method's URL | high; not executed | `Render.FunBodyAsWrittenFails` | `Render.FunBodyReadsData` |
