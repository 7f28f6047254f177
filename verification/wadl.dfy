/**
 * The data model of the generator: the semantic records it builds
 * (WADLVariable, WADLMethod and the method map WADLDoc of main.go) and the
 * parts of the parsed WADL tree that the core reads.  Pointers become
 * immutable values and Go maps become Dafny maps.
 */
module Wadl {

  /** The three request styles the generator distinguishes. */
  const TemplateStyle: string := "template"
  const QueryStyle: string := "query"
  const PlainStyle: string := "plain"

  /** The only media type whose representations the generator reads. */
  const JsonMediaType: string := "application/json"

  /**
   * A parameter or field (WADLVariable).  `valueType` is the WADL or
   * schema type name, later replaced by a generated type name for fields
   * that carry embedded variables; `requestType` is the WADL style.
   */
  datatype Variable = Variable(
    uri: string,
    documentation: string,
    name: string,
    valueType: string,
    requestType: string,
    required: bool,
    path: string,
    embeddedVar: seq<Variable>)

  /** One generated operation (WADLMethod); `verb` is the HTTP method. */
  datatype Method = Method(
    documentation: string,
    name: string,
    verb: string,
    url: string,
    arguments: seq<Variable>,
    results: seq<Variable>,
    resultsExample: string,
    acceptableStatus: seq<string>)

  /** The method map of WADLDoc, keyed by method name. */
  type Document = map<string, Method>

  /** A `<param>` element; `docs` are the texts of its `<doc>` children. */
  datatype RawParam = RawParam(
    name: string,
    valueType: string,
    required: bool,
    style: string,
    path: string,
    docs: seq<string>)

  /**
   * A `<representation>`: its media type, its `json:ref` attribute ("" when
   * absent), its parameters and the texts of its `<doc>` children.
   */
  datatype RawRepresentation = RawRepresentation(
    mediaType: string,
    jsonRef: string,
    params: seq<RawParam>,
    docs: seq<string>)

  datatype RawRequest = RawRequest(params: seq<RawParam>, representations: seq<RawRepresentation>)

  /** A `<response>`; `status` is the raw status attribute. */
  datatype RawResponse = RawResponse(status: string, params: seq<RawParam>, representations: seq<RawRepresentation>)

  /** A top-level `<method>`: `id` names the operation and `verb` is its HTTP method. */
  datatype RawMethod = RawMethod(
    id: string,
    verb: string,
    docs: seq<string>,
    request: RawRequestOption,
    responses: seq<RawResponse>)

  /** The optional `<request>` of a method (a nil pointer in the source). */
  datatype RawRequestOption = NoRequest | SomeRequest(request: RawRequest)

  /**
   * A `<resource>`: its path, its own parameters, the hrefs of the methods
   * it binds (each "#<id>") and its child resources.
   */
  datatype RawResource = RawResource(
    path: string,
    params: seq<RawParam>,
    methodRefs: seq<string>,
    children: seq<RawResource>)

  /** A `<resources>` group with its declared base URL. */
  datatype RawResources = RawResources(base: string, resources: seq<RawResource>)

  /** The parts of `<application>` the generator reads. */
  datatype RawApplication = RawApplication(
    grammarIncludes: seq<string>,
    methods: seq<RawMethod>,
    resourceGroups: seq<RawResources>)
}
