/**
 * The model-building part of main.go's `main`, end to end: the grammar
 * pool, the method map, then the resource walk of every `<resources>`
 * group.  The group's base URL is the command-line override when one is
 * given; parsing it is the parameter `parseUrl` (`None` when url.Parse
 * rejects it).  The walk used is the one that scopes inherited parameters
 * to a resource's descendants.
 */
module Pipeline {
  import opened Json
  import opened Wadl
  import opened Outcome
  import opened Variables
  import opened Assembly
  import opened Resources

  /** The base URL of a group: the override when it is not empty, the declared base otherwise. */
  function BaseUrlOf(baseOverride: string, group: RawResources): (r: string)
    ensures baseOverride != "" ==> r == baseOverride
    ensures baseOverride == "" ==> r == group.base
  {
    if baseOverride == "" then group.base else baseOverride
  }

  /**
   * The resource loop of main: the groups in order, each walked from its
   * parsed base URL with no inherited parameters.  An unparsable base URL
   * aborts.
   */
  function WalkGroups(methods: Document, groups: seq<RawResources>, baseOverride: string,
                      parseUrl: string -> Option<Url>): (r: Result<Document>)
    ensures r.Ok? ==> DocumentExtends(methods, r.value)
    ensures r.Fail? ==> r.error.EmptyMethodReference? || r.error.BaseUrlInvalid?
    ensures |groups| == 0 ==> r == Ok(methods)
    decreases |groups|
  {
    if |groups| == 0 then Ok(methods)
    else
      var n := |groups| - 1;
      var before :- WalkGroups(methods, groups[..n], baseOverride, parseUrl);
      var baseUrl := BaseUrlOf(baseOverride, groups[n]);
      match parseUrl(baseUrl)
      case None => Fail(BaseUrlInvalid(baseUrl))
      case Some(base) =>
        var after :- WalkScoped(before, base, [], groups[n].resources);
        DocumentExtendsTransitive(methods, before, after);
        Ok(after)
  }

  /** The bindings of `key` over all groups, in group order; a group whose base does not parse has none. */
  function GroupsBindings(groups: seq<RawResources>, baseOverride: string, parseUrl: string -> Option<Url>,
                          key: string): seq<Binding>
    decreases |groups|
  {
    if |groups| == 0 then []
    else
      var n := |groups| - 1;
      GroupsBindings(groups[..n], baseOverride, parseUrl, key)
      + match parseUrl(BaseUrlOf(baseOverride, groups[n]))
        case None => []
        case Some(base) => ScopedBindings(base, [], groups[n].resources, key)
  }

  /**
   * After all groups, each method has the URL of the last resource that
   * binds it and its arguments followed by the parameters of every
   * binding, group after group.
   */
  lemma {:induction false} WalkGroupsApply(methods: Document, groups: seq<RawResources>, baseOverride: string,
                                           parseUrl: string -> Option<Url>, key: string)
    requires WalkGroups(methods, groups, baseOverride, parseUrl).Ok? && key in methods
    ensures key in WalkGroups(methods, groups, baseOverride, parseUrl).value
    ensures WalkGroups(methods, groups, baseOverride, parseUrl).value[key]
            == Apply(methods[key], GroupsBindings(groups, baseOverride, parseUrl, key))
    decreases |groups|
  {
    if |groups| == 0 {
      assert AllParams([]) == [];
    } else {
      var n := |groups| - 1;
      WalkGroupsApply(methods, groups[..n], baseOverride, parseUrl, key);
      var before := WalkGroups(methods, groups[..n], baseOverride, parseUrl).value;
      var base := parseUrl(BaseUrlOf(baseOverride, groups[n])).value;
      WalkScopedApply(before, base, [], groups[n].resources, key);
      ApplyAppend(methods[key], GroupsBindings(groups[..n], baseOverride, parseUrl, key),
                  ScopedBindings(base, [], groups[n].resources, key));
    }
  }

  /**
   * `resolved` holds one method per id of `raws`, each an extension of the
   * method `assemble` makes of the last raw method with that id.
   */
  predicate ResolvedFrom(raws: seq<RawMethod>, assemble: RawMethod -> Result<Method>, resolved: Document)
  {
    resolved.Keys == Ids(raws)
    && forall id :: id in resolved ==>
         assemble(raws[LastWithId(raws, id)]).Ok? && Extends(assemble(raws[LastWithId(raws, id)]).value, resolved[id])
  }

  /** A walk over the built method map keeps every method tied to its declaration. */
  lemma WalkKeepsOrigin(raws: seq<RawMethod>, assemble: RawMethod -> Result<Method>, doc: Document, resolved: Document)
    requires doc.Keys == Ids(raws)
    requires forall id :: id in doc ==> assemble(raws[LastWithId(raws, id)]) == Ok(doc[id])
    requires DocumentExtends(doc, resolved)
    ensures ResolvedFrom(raws, assemble, resolved)
  {
  }

  /**
   * The semantic model of a WADL application: one method per distinct
   * method id, each the method assembled from the last declaration with
   * that id, with only its URL set and its arguments extended by the walk.
   */
  function ResolveDocument(app: RawApplication, baseOverride: string, parseUrl: string -> Option<Url>,
                           loadSchema: string -> Option<seq<Member>>, loadExample: string -> Option<string>)
    : (r: Result<Document>)
    ensures r.Ok? ==> GrammarPool(app.grammarIncludes, loadSchema).Ok?
    ensures r.Ok? ==> ResolvedFrom(app.methods,
                                   raw => AssembleMethod(raw, GrammarPool(app.grammarIncludes, loadSchema).value, loadExample),
                                   r.value)
  {
    var pool :- GrammarPool(app.grammarIncludes, loadSchema);
    var doc :- BuildDocument(app.methods, pool, loadExample);
    var resolved :- WalkGroups(doc, app.resourceGroups, baseOverride, parseUrl);
    WalkKeepsOrigin(app.methods, raw => AssembleMethod(raw, pool, loadExample), doc, resolved);
    Ok(resolved)
  }

  /**
   * Each method of the resolved document is the one assembled from the
   * last declaration with its id, after the bindings of every group.
   */
  lemma ResolveDocumentApply(app: RawApplication, baseOverride: string, parseUrl: string -> Option<Url>,
                             loadSchema: string -> Option<seq<Member>>, loadExample: string -> Option<string>, id: string)
    requires ResolveDocument(app, baseOverride, parseUrl, loadSchema, loadExample).Ok?
    requires id in ResolveDocument(app, baseOverride, parseUrl, loadSchema, loadExample).value
    ensures GrammarPool(app.grammarIncludes, loadSchema).Ok?
    ensures var assembled := AssembleMethod(app.methods[LastWithId(app.methods, id)],
                                            GrammarPool(app.grammarIncludes, loadSchema).value, loadExample);
            assembled.Ok?
            && ResolveDocument(app, baseOverride, parseUrl, loadSchema, loadExample).value[id]
               == Apply(assembled.value, GroupsBindings(app.resourceGroups, baseOverride, parseUrl, id))
  {
    var pool := GrammarPool(app.grammarIncludes, loadSchema).value;
    var doc := BuildDocument(app.methods, pool, loadExample).value;
    WalkGroupsApply(doc, app.resourceGroups, baseOverride, parseUrl, id);
  }

  /** Without resource groups, the document is the method map as assembled. */
  lemma NoResourcesNoChange(app: RawApplication, baseOverride: string, parseUrl: string -> Option<Url>,
                            loadSchema: string -> Option<seq<Member>>, loadExample: string -> Option<string>)
    requires app.resourceGroups == []
    requires GrammarPool(app.grammarIncludes, loadSchema).Ok?
    ensures ResolveDocument(app, baseOverride, parseUrl, loadSchema, loadExample)
            == BuildDocument(app.methods, GrammarPool(app.grammarIncludes, loadSchema).value, loadExample)
  {
  }
}
