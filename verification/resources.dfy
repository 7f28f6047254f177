/**
 * recurseResources (main.go): the walk over a `<resources>` tree that
 * gives every bound method its URL and the parameters inherited from the
 * resources above it.  URLs are an origin (scheme and host, as parsed),
 * whether there is a host, whether the path is rooted, and the path's
 * segments; filepath.Join is modelled by splitting the resource path on
 * '/' and dropping empty segments.
 */
module Resources {
  import opened Text
  import opened Wadl
  import opened Outcome
  import opened Variables

  // ----- URLs -----

  /**
   * A parsed URL: everything url.URL.String writes before the path, whether
   * the URL has a host, whether its path is rooted (starts with '/'), and
   * the path's segments.
   */
  datatype Url = Url(origin: string, hasHost: bool, rooted: bool, segments: seq<string>)

  /** Path segments as `Segments` makes them: non-empty and free of '/'. */
  predicate CleanSegments(segments: seq<string>)
  {
    forall i :: 0 <= i < |segments| ==> segments[i] != "" && '/' !in segments[i]
  }

  /** The non-empty '/'-separated segments of a path. */
  function Segments(path: string): (r: seq<string>)
    ensures forall i :: 0 <= i < |r| ==> r[i] != "" && '/' !in r[i]
  {
    NonEmpty(Split(path, '/'))
  }

  function NonEmpty(parts: seq<string>): (r: seq<string>)
    ensures forall i :: 0 <= i < |r| ==> r[i] != "" && r[i] in parts
    ensures forall p :: p in parts && p != "" ==> p in r
  {
    if |parts| == 0 then []
    else (if parts[0] == "" then [] else [parts[0]]) + NonEmpty(parts[1..])
  }

  lemma {:induction false} NonEmptyAppend(a: seq<string>, b: seq<string>)
    ensures NonEmpty(a + b) == NonEmpty(a) + NonEmpty(b)
  {
    if |a| == 0 {
      assert a + b == b;
    } else {
      assert (a + b)[1..] == a[1..] + b;
      NonEmptyAppend(a[1..], b);
    }
  }

  /**
   * filepath.Join of the URL's path and a resource path: empty elements are
   * ignored and separators collapse, so the joined path is rooted when the
   * URL's path is, or, when the URL's path is empty, when the resource path
   * starts with '/'.
   */
  function JoinPath(base: Url, path: string): (r: Url)
    ensures r.origin == base.origin && r.hasHost == base.hasHost
    ensures r.segments == base.segments + Segments(path)
    ensures r.rooted <==> base.rooted || (|base.segments| == 0 && Rooted(path))
    ensures CleanSegments(base.segments) ==> CleanSegments(r.segments)
  {
    base.(rooted := base.rooted || (|base.segments| == 0 && Rooted(path)),
          segments := base.segments + Segments(path))
  }

  /** The path starts with '/'. */
  predicate Rooted(path: string)
  {
    |path| > 0 && path[0] == '/'
  }

  /**
   * filepath.Join ignores empty elements: joining "a" and then "b" is
   * joining "a/b", or just "b" when "a" is empty.
   */
  lemma JoinPathAssociative(base: Url, a: string, b: string)
    ensures JoinPath(JoinPath(base, a), b) == JoinPath(base, if a == "" then b else a + "/" + b)
  {
    if a == "" {
      assert Segments(a) == [];
      assert JoinPath(base, a) == base;
    } else {
      var ab := a + "/" + b;
      assert ab == a + ['/'] + b;
      SegmentsAround(a, b);
      var sa, sb := Segments(a), Segments(b);
      assert Segments(ab) == sa + sb;
      assert (base.segments + sa) + sb == base.segments + (sa + sb);
      assert Rooted(ab) == Rooted(a);
      if !Rooted(a) {
        UnrootedSegments(a);
      }
    }
  }

  /** A non-empty path that does not start with '/' has a segment. */
  lemma UnrootedSegments(a: string)
    requires a != "" && a[0] != '/'
    ensures Segments(a) != []
  {
    var parts := Split(a, '/');
    assert parts[0] == [a[0]] + Split(a[1..], '/')[0];
    assert parts[0] in parts;
  }

  lemma SegmentsAround(a: string, b: string)
    ensures Segments(a + ['/'] + b) == Segments(a) + Segments(b)
  {
    SplitAround(a, '/', b);
    NonEmptyAppend(Split(a, '/'), Split(b, '/'));
  }

  /** url.URL.String escapes the braces of a path; other escaping is not modelled. */
  function EscapeSegment(s: string): (r: string)
    ensures '{' !in r && '}' !in r
  {
    if |s| == 0 then ""
    else (if s[0] == '{' then "%7B" else if s[0] == '}' then "%7D" else [s[0]]) + EscapeSegment(s[1..])
  }

  /** A segment without braces is written as it is. */
  lemma {:induction false} EscapeSegmentPlain(s: string)
    requires '{' !in s && '}' !in s
    ensures EscapeSegment(s) == s
  {
    if |s| > 0 {
      assert '{' !in s[1..] && '}' !in s[1..] by {
        forall c | c in s[1..] ensures c != '{' && c != '}' {
          assert c in s;
        }
      }
      EscapeSegmentPlain(s[1..]);
      assert [s[0]] + s[1..] == s;
    }
  }

  /** The `{name}` segment of a URL template is written as the placeholder render.go replaces. */
  lemma EscapeTemplateSegment(name: string)
    requires '{' !in name && '}' !in name
    ensures EscapeSegment("{" + name + "}") == "%7B" + name + "%7D"
  {
    var s := "{" + name + "}";
    assert s[1..] == name + "}";
    EscapeAppendClose(name);
  }

  lemma {:induction false} EscapeAppendClose(name: string)
    requires '{' !in name && '}' !in name
    ensures EscapeSegment(name + "}") == name + "%7D"
  {
    if |name| == 0 {
      assert name + "}" == "}";
    } else {
      assert (name + "}")[1..] == name[1..] + "}";
      assert '{' !in name[1..] && '}' !in name[1..] by {
        forall c | c in name[1..] ensures c != '{' && c != '}' {
          assert c in name;
        }
      }
      EscapeAppendClose(name[1..]);
      assert [name[0]] + (name[1..] + "%7D") == name + "%7D";
    }
  }

  /** A non-empty segment without '/' stays non-empty and free of '/' once escaped. */
  lemma {:induction false} EscapeSegmentShape(s: string)
    requires '/' !in s
    ensures |EscapeSegment(s)| >= |s|
    ensures '/' !in EscapeSegment(s)
  {
    if |s| > 0 {
      assert '/' !in s[1..] by {
        forall c | c in s[1..] ensures c != '/' {
          assert c in s;
        }
      }
      EscapeSegmentShape(s[1..]);
    }
  }

  /**
   * url.URL.String: the origin, then the escaped path.  A rooted path is
   * written with its leading '/'; a relative one gets a '/' in front only
   * when the URL has a host; an empty path writes nothing.
   */
  function UrlString(u: Url): (r: string)
    ensures StartsWith(r, u.origin)
    ensures |u.segments| == 0 ==> r == u.origin + (if u.rooted then "/" else "")
  {
    u.origin + WrittenPath(u)
  }

  function WrittenPath(u: Url): string
  {
    if |u.segments| == 0 then (if u.rooted then "/" else "")
    else if u.rooted || u.hasHost then PathString(u.segments)
    else PathString(u.segments)[1..]
  }

  /** "/" before each escaped segment. */
  function PathString(segments: seq<string>): (r: string)
    ensures |segments| == 0 ==> r == ""
    ensures |segments| > 0 ==> Rooted(r)
    decreases |segments|
  {
    if |segments| == 0 then ""
    else PathString(segments[..|segments| - 1]) + "/" + EscapeSegment(segments[|segments| - 1])
  }

  /** A written path begins with '/' and its first escaped segment. */
  lemma {:induction false} PathStringHead(segments: seq<string>)
    requires |segments| > 0
    ensures var e := EscapeSegment(segments[0]);
            |PathString(segments)| >= 1 + |e| && PathString(segments)[1..1 + |e|] == e
    decreases |segments|
  {
    var front := segments[..|segments| - 1];
    var e := EscapeSegment(segments[0]);
    if |front| > 0 {
      PathStringHead(front);
      assert front[0] == segments[0];
      var pf := PathString(front);
      assert PathString(segments) == pf + ("/" + EscapeSegment(segments[|segments| - 1]));
      PrefixSlice(pf, "/" + EscapeSegment(segments[|segments| - 1]), 1, 1 + |e|);
    } else {
      assert PathString(segments) == "" + "/" + e;
    }
  }

  /** Dropping a leading '/' changes no segment. */
  lemma DropSlash(x: string)
    requires Rooted(x)
    ensures Segments(x[1..]) == Segments(x)
  {
    assert x == "" + ['/'] + x[1..];
    SegmentsAround("", x[1..]);
    EmptyPathSegments();
  }

  /** The escaped form of every segment, in order. */
  function EscapeAll(segments: seq<string>): (r: seq<string>)
    ensures |r| == |segments|
    ensures forall i :: 0 <= i < |segments| ==> r[i] == EscapeSegment(segments[i])
  {
    seq(|segments|, i requires 0 <= i < |segments| => EscapeSegment(segments[i]))
  }

  lemma EscapeAllSnoc(front: seq<string>, last: string)
    ensures EscapeAll(front + [last]) == EscapeAll(front) + [EscapeSegment(last)]
  {
    var a, b := EscapeAll(front + [last]), EscapeAll(front) + [EscapeSegment(last)];
    assert |a| == |b|;
    forall i | 0 <= i < |a| ensures a[i] == b[i] {
      if i < |front| {
        assert (front + [last])[i] == front[i];
      }
    }
  }

  /** The pieces of a written path are its escaped segments. */
  lemma {:induction false} PathSegments(segments: seq<string>)
    requires CleanSegments(segments)
    ensures Segments(PathString(segments)) == EscapeAll(segments)
    decreases |segments|
  {
    if |segments| == 0 {
      EmptyPathSegments();
    } else {
      var front := segments[..|segments| - 1];
      var last := segments[|segments| - 1];
      CleanFront(segments);
      PathSegments(front);
      PathLastSegment(segments);
      EscapeAllLast(segments);
    }
  }

  /** Dropping the last segment keeps the segments clean. */
  lemma CleanFront(segments: seq<string>)
    requires CleanSegments(segments) && |segments| > 0
    ensures CleanSegments(segments[..|segments| - 1])
  {
    var front := segments[..|segments| - 1];
    forall i | 0 <= i < |front| ensures front[i] != "" && '/' !in front[i] {
      assert front[i] == segments[i];
    }
  }

  /** The last piece of a written path is its last segment, escaped. */
  lemma PathLastSegment(segments: seq<string>)
    requires CleanSegments(segments) && |segments| > 0
    ensures var front := segments[..|segments| - 1];
            Segments(PathString(segments))
            == Segments(PathString(front)) + [EscapeSegment(segments[|segments| - 1])]
  {
    var front := segments[..|segments| - 1];
    var last := segments[|segments| - 1];
    var e := EscapeSegment(last);
    assert PathString(segments) == PathString(front) + ['/'] + e;
    EscapeSegmentShape(last);
    LastSegment(PathString(front), e);
  }

  lemma EscapeAllLast(segments: seq<string>)
    requires |segments| > 0
    ensures EscapeAll(segments)
            == EscapeAll(segments[..|segments| - 1]) + [EscapeSegment(segments[|segments| - 1])]
  {
    assert segments == segments[..|segments| - 1] + [segments[|segments| - 1]];
    EscapeAllSnoc(segments[..|segments| - 1], segments[|segments| - 1]);
  }

  /**
   * What url.URL.String writes after the origin: it starts with '/' exactly
   * when the path is rooted, or is not empty and the URL has a host; its
   * '/'-separated pieces are the escaped segments, in order.
   */
  lemma UrlStringPath(u: Url)
    requires CleanSegments(u.segments)
    ensures var p := UrlString(u)[|u.origin|..];
            && (Rooted(p) <==> u.rooted || (u.hasHost && |u.segments| > 0))
            && Segments(p) == EscapeAll(u.segments)
  {
    var p := UrlString(u)[|u.origin|..];
    assert p == WrittenPath(u);
    if |u.segments| == 0 {
      EmptyPathSegments();
    } else {
      WrittenSegments(u.segments);
    }
  }

  lemma EmptyPathSegments()
    ensures Segments("") == [] && Segments("/") == []
  {
    SegmentsAround("", "");
    assert "" + ['/'] + "" == "/";
  }

  /** A path of segments, written with or without its leading '/'. */
  lemma WrittenSegments(segments: seq<string>)
    requires CleanSegments(segments) && |segments| > 0
    ensures var path := PathString(segments);
            && Rooted(path) && !Rooted(path[1..])
            && Segments(path) == EscapeAll(segments) && Segments(path[1..]) == EscapeAll(segments)
  {
    PathSegments(segments);
    DropSlash(PathString(segments));
    PathTailUnrooted(segments);
  }

  /** Without its leading '/', a written path starts with its first segment. */
  lemma PathTailUnrooted(segments: seq<string>)
    requires CleanSegments(segments) && |segments| > 0
    ensures !Rooted(PathString(segments)[1..])
  {
    var path := PathString(segments);
    var e := EscapeSegment(segments[0]);
    EscapeSegmentShape(segments[0]);
    PathStringHead(segments);
    assert path[1..][0] == path[1..1 + |e|][0] == e[0];
    assert e[0] in e;
  }

  /** With no host and an empty base path, a relative one-segment resource path stays relative. */
  lemma RelativeBaseUrl(seg: string)
    requires PlainSegment(seg)
    ensures UrlString(JoinPath(Url("", false, false, []), seg)) == seg
  {
    PlainSegmentPath(seg);
    var u := JoinPath(Url("", false, false, []), seg);
    assert u == Url("", false, false, [seg]);
    assert WrittenPath(u) == ("/" + seg)[1..];
  }

  /** With a host, a '/' is written before the relative joined path. */
  lemma HostBaseUrl(origin: string, seg: string)
    requires PlainSegment(seg)
    ensures UrlString(JoinPath(Url(origin, true, false, []), seg)) == origin + "/" + seg
  {
    PlainSegmentPath(seg);
    var u := JoinPath(Url(origin, true, false, []), seg);
    assert u == Url(origin, true, false, [seg]);
  }

  /** A base path "/" joined with an empty resource path keeps its slash. */
  lemma RootedEmptyUrl(origin: string)
    ensures UrlString(JoinPath(Url(origin, true, true, []), "")) == origin + "/"
  {
    assert Segments("") == [];
  }

  /** A one-segment path is '/' and the escaped segment. */
  lemma SingleSegmentPath(seg: string)
    ensures PathString([seg]) == "/" + EscapeSegment(seg)
  {
    assert [seg][..0] == [];
  }

  /** A non-empty segment with no '/' and no brace, such as "pets". */
  predicate PlainSegment(seg: string)
  {
    seg != "" && '/' !in seg && '{' !in seg && '}' !in seg
  }

  /** A plain segment is its own path's only piece, and is written unescaped. */
  lemma PlainSegmentPath(seg: string)
    requires PlainSegment(seg)
    ensures Segments(seg) == [seg] && !Rooted(seg)
    ensures PathString([seg]) == "/" + seg
  {
    SplitWithoutSeparator(seg, '/');
    assert NonEmpty([seg]) == [seg];
    EscapeSegmentPlain(seg);
    SingleSegmentPath(seg);
    assert seg[0] in seg;
  }

  /**
   * A resource whose path ends in a `{name}` segment gives its methods a
   * URL that contains the placeholder the generated code replaces.
   */
  lemma TemplateSegmentInUrl(base: Url, prefix: string, name: string)
    requires '{' !in name && '}' !in name && '/' !in name
    ensures Contains(UrlString(JoinPath(base, prefix + "/{" + name + "}")), "%7B" + name + "%7D")
  {
    var seg := "{" + name + "}";
    assert prefix + "/{" + name + "}" == prefix + ['/'] + seg;
    LastSegment(prefix, seg);
    var u := JoinPath(base, prefix + ['/'] + seg);
    EscapeTemplateSegment(name);
    UrlContainsLastSegment(u);
  }

  /** A segment without '/' joined last is the last segment. */
  lemma LastSegment(prefix: string, seg: string)
    requires seg != "" && '/' !in seg
    ensures Segments(prefix + ['/'] + seg) == Segments(prefix) + [seg]
  {
    SegmentsAround(prefix, seg);
    SplitWithoutSeparator(seg, '/');
    assert NonEmpty([seg]) == [seg];
  }

  /** The written URL ends with its last segment, escaped. */
  lemma UrlContainsLastSegment(u: Url)
    requires |u.segments| > 0
    ensures EndsWith(UrlString(u), EscapeSegment(u.segments[|u.segments| - 1]))
    ensures Contains(UrlString(u), EscapeSegment(u.segments[|u.segments| - 1]))
  {
    var segs := u.segments;
    var last := EscapeSegment(segs[|segs| - 1]);
    var path := PathString(segs);
    assert path == PathString(segs[..|segs| - 1]) + ("/" + last);
    EndsWithAppend(PathString(segs[..|segs| - 1]), "/" + last, last);
    EndsWithTail(path, last);
    EndsWithAppend(u.origin, WrittenPath(u), last);
    EndsWithContains(UrlString(u), last);
  }

  // ----- method binding -----

  /** A method changed by the walk: only its URL is set and its arguments extended. */
  predicate Extends(before: Method, after: Method)
  {
    after == before.(url := after.url, arguments := after.arguments)
    && |after.arguments| >= |before.arguments|
    && after.arguments[..|before.arguments|] == before.arguments
  }

  lemma ExtendsTransitive(a: Method, b: Method, c: Method)
    requires Extends(a, b) && Extends(b, c)
    ensures Extends(a, c)
  {
    assert c.arguments[..|a.arguments|] == c.arguments[..|b.arguments|][..|a.arguments|];
  }

  /** Every method of `after` extends its counterpart in `before`, and no key is added or lost. */
  predicate DocumentExtends(before: Document, after: Document)
  {
    after.Keys == before.Keys && forall k :: k in before ==> Extends(before[k], after[k])
  }

  lemma DocumentExtendsTransitive(a: Document, b: Document, c: Document)
    requires DocumentExtends(a, b) && DocumentExtends(b, c)
    ensures DocumentExtends(a, c)
  {
    forall k | k in a ensures Extends(a[k], c[k]) {
      ExtendsTransitive(a[k], b[k], c[k]);
    }
  }

  /**
   * One method reference of a resource: the key is the href without its
   * first character (the '#'); a known method gets the resource's URL and
   * the accumulated parameters appended; an unknown one is skipped.  An
   * empty href aborts, as slicing it does in the source.
   */
  function BindOne(methods: Document, url: string, params: seq<Variable>, ref: string): (r: Result<Document>)
    ensures r.Fail? <==> ref == ""
    ensures r.Fail? ==> r.error == EmptyMethodReference
    ensures r.Ok? ==> DocumentExtends(methods, r.value)
    ensures r.Ok? && ref[1..] !in methods ==> r.value == methods
    ensures r.Ok? && ref[1..] in methods ==>
              r.value == methods[ref[1..] := methods[ref[1..]].(url := url, arguments := methods[ref[1..]].arguments + params)]
  {
    if ref == "" then Fail(EmptyMethodReference)
    else
      var key := ref[1..];
      if key !in methods then Ok(methods)
      else
        var m := methods[key];
        var m' := m.(url := url, arguments := m.arguments + params);
        assert m'.arguments[..|m.arguments|] == m.arguments;
        Ok(methods[key := m'])
  }

  /** The method references of one resource, in order. */
  function BindMethods(methods: Document, url: string, params: seq<Variable>, refs: seq<string>): (r: Result<Document>)
    ensures r.Fail? <==> "" in refs
    ensures r.Fail? ==> r.error == EmptyMethodReference
    ensures r.Ok? ==> DocumentExtends(methods, r.value)
    decreases |refs|
  {
    if |refs| == 0 then Ok(methods)
    else
      var n := |refs| - 1;
      assert forall x :: x in refs <==> x in refs[..n] || x == refs[n];
      var before :- BindMethods(methods, url, params, refs[..n]);
      var after :- BindOne(before, url, params, refs[n]);
      DocumentExtendsTransitive(methods, before, after);
      Ok(after)
  }

  /** Does some reference of `refs` name the method `key`? */
  predicate Binds(refs: seq<string>, key: string)
  {
    exists i :: 0 <= i < |refs| && |refs[i]| > 0 && refs[i][1..] == key
  }

  /** A method no reference names is left exactly as it was. */
  lemma {:induction false} BindMethodsUnbound(methods: Document, url: string, params: seq<Variable>, refs: seq<string>, key: string)
    requires BindMethods(methods, url, params, refs).Ok? && key in methods && !Binds(refs, key)
    ensures BindMethods(methods, url, params, refs).value[key] == methods[key]
    decreases |refs|
  {
    if |refs| > 0 {
      var n := |refs| - 1;
      assert refs[n][1..] != key;
      BindMethodsUnbound(methods, url, params, refs[..n], key);
    }
  }

  /** The last reference is bound after all the others. */
  lemma BindMethodsLast(methods: Document, url: string, params: seq<Variable>, refs: seq<string>)
    requires |refs| > 0 && BindMethods(methods, url, params, refs).Ok?
    ensures BindMethods(methods, url, params, refs[..|refs| - 1]).Ok?
    ensures BindMethods(methods, url, params, refs)
            == BindOne(BindMethods(methods, url, params, refs[..|refs| - 1]).value, url, params, refs[|refs| - 1])
  {
  }

  /** `m` has the URL `url` and ends with the parameters `params`. */
  predicate BoundTo(m: Method, url: string, params: seq<Variable>)
  {
    m.url == url && |m.arguments| >= |params| && m.arguments[|m.arguments| - |params|..] == params
  }

  /** A method some reference names ends with the resource's URL and the accumulated parameters last. */
  lemma {:induction false} BindMethodsBound(methods: Document, url: string, params: seq<Variable>, refs: seq<string>, key: string)
    requires BindMethods(methods, url, params, refs).Ok? && key in methods && Binds(refs, key)
    ensures BoundTo(BindMethods(methods, url, params, refs).value[key], url, params)
    decreases |refs|
  {
    var n := |refs| - 1;
    BindMethodsLast(methods, url, params, refs);
    var before := BindMethods(methods, url, params, refs[..n]).value;
    var last := refs[n];
    assert last in refs;
    var after := BindOne(before, url, params, last).value;
    assert BindMethods(methods, url, params, refs).value == after;
    if last[1..] == key {
      BoundLast(before, url, params, last);
    } else {
      BindsFront(refs, key);
      BindMethodsBound(methods, url, params, refs[..n], key);
      BoundOther(before, url, params, last, key);
    }
  }

  /** A method the reference does not name is left as it was. */
  lemma BoundOther(before: Document, url: string, params: seq<Variable>, ref: string, key: string)
    requires ref != "" && ref[1..] != key && key in before
    ensures BindOne(before, url, params, ref).value[key] == before[key]
  {
  }

  /** The method the reference names ends with the URL and the parameters last. */
  lemma BoundLast(before: Document, url: string, params: seq<Variable>, ref: string)
    requires ref != "" && ref[1..] in before
    ensures BoundTo(BindOne(before, url, params, ref).value[ref[1..]], url, params)
  {
    var args := before[ref[1..]].arguments;
    assert (args + params)[|args|..] == params;
  }

  /** When the last reference does not name `key`, an earlier one does. */
  lemma BindsFront(refs: seq<string>, key: string)
    requires Binds(refs, key) && |refs| > 0 && "" !in refs && refs[|refs| - 1][1..] != key
    ensures Binds(refs[..|refs| - 1], key)
  {
    var i :| 0 <= i < |refs| && |refs[i]| > 0 && refs[i][1..] == key;
    assert refs[..|refs| - 1][i] == refs[i];
  }

  // ----- the walk -----

  /** The parameters of a sequence of sibling resources, in order. */
  function OwnParams(resources: seq<RawResource>): seq<Variable>
  {
    if |resources| == 0 then [] else ParamsToVariables(resources[0].params) + OwnParams(resources[1..])
  }

  lemma OwnParamsCons(params: seq<Variable>, resources: seq<RawResource>)
    requires |resources| > 0
    ensures params + ParamsToVariables(resources[0].params) + OwnParams(resources[1..]) == params + OwnParams(resources)
  {
    AppendAssociative(params, ParamsToVariables(resources[0].params), OwnParams(resources[1..]));
  }

  /**
   * recurseResources as written: for each resource, the URL is the base
   * joined with its path, the accumulated parameters gain its own, the
   * children are walked first, then its method references are bound.  The
   * accumulated list is reassigned in the loop, so a resource also inherits
   * the parameters of its earlier siblings.
   */
  function Walk(methods: Document, base: Url, params: seq<Variable>, resources: seq<RawResource>): (r: Result<Document>)
    ensures r.Ok? ==> DocumentExtends(methods, r.value)
    ensures r.Fail? ==> r.error == EmptyMethodReference
    decreases resources
  {
    if |resources| == 0 then Ok(methods)
    else
      var res := resources[0];
      var here := JoinPath(base, res.path);
      var accumulated := params + ParamsToVariables(res.params);
      var afterChildren :- Walk(methods, here, accumulated, res.children);
      var bound :- BindMethods(afterChildren, UrlString(here), accumulated, res.methodRefs);
      var rest :- Walk(bound, base, accumulated, resources[1..]);
      DocumentExtendsTransitive(methods, afterChildren, bound);
      DocumentExtendsTransitive(methods, bound, rest);
      Ok(rest)
  }

  /**
   * The walk with each resource's accumulated parameters scoped to that
   * resource and its descendants: every sibling inherits exactly the
   * parameters of its ancestors.
   */
  function WalkScoped(methods: Document, base: Url, params: seq<Variable>, resources: seq<RawResource>): (r: Result<Document>)
    ensures r.Ok? ==> DocumentExtends(methods, r.value)
    ensures r.Fail? ==> r.error == EmptyMethodReference
    decreases resources
  {
    if |resources| == 0 then Ok(methods)
    else
      var res := resources[0];
      var here := JoinPath(base, res.path);
      var accumulated := params + ParamsToVariables(res.params);
      var afterChildren :- WalkScoped(methods, here, accumulated, res.children);
      var bound :- BindMethods(afterChildren, UrlString(here), accumulated, res.methodRefs);
      var rest :- WalkScoped(bound, base, params, resources[1..]);
      DocumentExtendsTransitive(methods, afterChildren, bound);
      DocumentExtendsTransitive(methods, bound, rest);
      Ok(rest)
  }

  /** Walking one group of siblings after another: each group starts from the same inherited parameters. */
  lemma {:induction false} WalkScopedAppend(methods: Document, base: Url, params: seq<Variable>,
                                           first: seq<RawResource>, second: seq<RawResource>)
    ensures WalkScoped(methods, base, params, first + second)
            == (match WalkScoped(methods, base, params, first)
                case Ok(m) => WalkScoped(m, base, params, second)
                case Fail(e) => Fail(e))
    decreases first
  {
    if |first| == 0 {
      assert first + second == second;
    } else {
      assert (first + second)[0] == first[0];
      assert (first + second)[1..] == first[1..] + second;
      var res := first[0];
      var here := JoinPath(base, res.path);
      var accumulated := params + ParamsToVariables(res.params);
      var afterChildren := WalkScoped(methods, here, accumulated, res.children);
      if afterChildren.Ok? {
        var bound := BindMethods(afterChildren.value, UrlString(here), accumulated, res.methodRefs);
        if bound.Ok? {
          WalkScopedAppend(bound.value, base, params, first[1..], second);
        }
      }
    }
  }

  /** The walk as written: the second group inherits the first group's own parameters too. */
  lemma {:induction false} WalkAppend(methods: Document, base: Url, params: seq<Variable>,
                                     first: seq<RawResource>, second: seq<RawResource>)
    ensures Walk(methods, base, params, first + second)
            == (match Walk(methods, base, params, first)
                case Ok(m) => Walk(m, base, params + OwnParams(first), second)
                case Fail(e) => Fail(e))
    decreases first
  {
    if |first| == 0 {
      assert first + second == second;
      assert params + OwnParams(first) == params;
    } else {
      assert (first + second)[0] == first[0];
      assert (first + second)[1..] == first[1..] + second;
      var res := first[0];
      var here := JoinPath(base, res.path);
      var accumulated := params + ParamsToVariables(res.params);
      OwnParamsCons(params, first);
      var afterChildren := Walk(methods, here, accumulated, res.children);
      if afterChildren.Ok? {
        var bound := BindMethods(afterChildren.value, UrlString(here), accumulated, res.methodRefs);
        if bound.Ok? {
          WalkAppend(bound.value, base, accumulated, first[1..], second);
        }
      }
    }
  }

  /**
   * A method a resource binds ends up with that resource's URL and its
   * accumulated parameters last, whatever its children bound before.
   */
  lemma WalkScopedOwnBinding(methods: Document, base: Url, params: seq<Variable>, res: RawResource, key: string)
    requires key in methods && Binds(res.methodRefs, key)
    requires WalkScoped(methods, base, params, [res]).Ok?
    ensures BoundTo(WalkScoped(methods, base, params, [res]).value[key],
                    UrlString(JoinPath(base, res.path)), params + ParamsToVariables(res.params))
  {
    var here := JoinPath(base, res.path);
    var accumulated := params + ParamsToVariables(res.params);
    var afterChildren := WalkScoped(methods, here, accumulated, res.children).value;
    assert key in afterChildren;
    BindMethodsBound(afterChildren, UrlString(here), accumulated, res.methodRefs, key);
    assert [res][1..] == [];
  }

  // ----- what the walk does to one method, at any depth -----

  /** One binding of a method: the URL it receives and the parameters appended to its arguments. */
  datatype Binding = Binding(url: string, params: seq<Variable>)

  /** The parameters of a sequence of bindings, in order. */
  function AllParams(bindings: seq<Binding>): (r: seq<Variable>)
    ensures |bindings| == 0 ==> r == []
    decreases |bindings|
  {
    if |bindings| == 0 then [] else AllParams(bindings[..|bindings| - 1]) + bindings[|bindings| - 1].params
  }

  lemma {:induction false} AllParamsAppend(a: seq<Binding>, b: seq<Binding>)
    ensures AllParams(a + b) == AllParams(a) + AllParams(b)
    decreases |b|
  {
    if |b| == 0 {
      assert a + b == a;
    } else {
      var n := |b| - 1;
      AllParamsSnoc(a + b[..n], b[n]);
      assert a + b == (a + b[..n]) + [b[n]];
      AllParamsAppend(a, b[..n]);
      AllParamsSnoc(b[..n], b[n]);
      assert b == b[..n] + [b[n]];
      AppendAssociative(AllParams(a), AllParams(b[..n]), b[n].params);
    }
  }

  lemma AllParamsSnoc(a: seq<Binding>, x: Binding)
    ensures AllParams(a + [x]) == AllParams(a) + x.params
  {
    assert (a + [x])[..|a|] == a;
  }

  /**
   * A method after the bindings `bindings`, in order: the URL of the last
   * one (its own when there is none), and its arguments followed by the
   * parameters of every binding.
   */
  function Apply(m: Method, bindings: seq<Binding>): (r: Method)
  {
    m.(url := if |bindings| == 0 then m.url else bindings[|bindings| - 1].url,
       arguments := m.arguments + AllParams(bindings))
  }

  /** Applying two runs of bindings one after the other is applying both. */
  lemma ApplyAppend(m: Method, a: seq<Binding>, b: seq<Binding>)
    ensures Apply(Apply(m, a), b) == Apply(m, a + b)
  {
    AllParamsAppend(a, b);
    if |b| > 0 {
      assert (a + b)[|a + b| - 1] == b[|b| - 1];
    } else {
      assert a + b == a;
    }
  }

  /** The bindings a resource's references give the method `key`: one per reference naming it. */
  function RefBindings(refs: seq<string>, key: string, url: string, params: seq<Variable>): (r: seq<Binding>)
    ensures |r| <= |refs|
    decreases |refs|
  {
    if |refs| == 0 then []
    else
      var n := |refs| - 1;
      RefBindings(refs[..n], key, url, params)
      + (if |refs[n]| > 0 && refs[n][1..] == key then [Binding(url, params)] else [])
  }

  /** Binding a resource's references applies their bindings of `key`. */
  lemma {:induction false} BindMethodsApply(methods: Document, url: string, params: seq<Variable>, refs: seq<string>, key: string)
    requires BindMethods(methods, url, params, refs).Ok? && key in methods
    ensures key in BindMethods(methods, url, params, refs).value
    ensures BindMethods(methods, url, params, refs).value[key] == Apply(methods[key], RefBindings(refs, key, url, params))
    decreases |refs|
  {
    if |refs| == 0 {
      assert AllParams([]) == [];
    } else {
      var n := |refs| - 1;
      BindMethodsLast(methods, url, params, refs);
      BindMethodsApply(methods, url, params, refs[..n], key);
      var before := BindMethods(methods, url, params, refs[..n]).value;
      assert refs[n] in refs;
      BindOneApply(before, url, params, refs[n], key, methods[key], RefBindings(refs[..n], key, url, params));
    }
  }

  /** One reference after the earlier ones: it adds its binding when it names `key`. */
  lemma BindOneApply(before: Document, url: string, params: seq<Variable>, ref: string, key: string,
                     m: Method, front: seq<Binding>)
    requires ref != "" && key in before && before[key] == Apply(m, front)
    ensures BindOne(before, url, params, ref).value[key]
            == Apply(m, front + (if |ref| > 0 && ref[1..] == key then [Binding(url, params)] else []))
  {
    if ref[1..] == key {
      var b := Binding(url, params);
      ApplyAppend(m, front, [b]);
      ApplyOne(Apply(m, front), b);
    } else {
      assert front + [] == front;
    }
  }

  /** A single binding sets the URL and appends its parameters. */
  lemma ApplyOne(m: Method, b: Binding)
    ensures Apply(m, [b]) == m.(url := b.url, arguments := m.arguments + b.params)
  {
    AllParamsSnoc([], b);
    assert [] + [b] == [b];
  }

  /**
   * The bindings of `key` in the walk as written: depth first, a resource's
   * descendants before its own references, then its later siblings, which
   * carry its accumulated parameters along.
   */
  function WalkBindings(base: Url, params: seq<Variable>, resources: seq<RawResource>, key: string): seq<Binding>
    decreases resources
  {
    if |resources| == 0 then []
    else
      var res := resources[0];
      var here := JoinPath(base, res.path);
      var accumulated := params + ParamsToVariables(res.params);
      WalkBindings(here, accumulated, res.children, key)
      + RefBindings(res.methodRefs, key, UrlString(here), accumulated)
      + WalkBindings(base, accumulated, resources[1..], key)
  }

  /** The same with the parameters scoped: later siblings start again from the inherited ones. */
  function ScopedBindings(base: Url, params: seq<Variable>, resources: seq<RawResource>, key: string): seq<Binding>
    decreases resources
  {
    if |resources| == 0 then []
    else
      var res := resources[0];
      var here := JoinPath(base, res.path);
      var accumulated := params + ParamsToVariables(res.params);
      ScopedBindings(here, accumulated, res.children, key)
      + RefBindings(res.methodRefs, key, UrlString(here), accumulated)
      + ScopedBindings(base, params, resources[1..], key)
  }

  /**
   * At any depth, the walk as written leaves each method with the URL of
   * the last resource that binds it and its arguments followed by the
   * accumulated parameters of every binding, in walk order.
   */
  lemma {:induction false} WalkApply(methods: Document, base: Url, params: seq<Variable>, resources: seq<RawResource>, key: string)
    requires Walk(methods, base, params, resources).Ok? && key in methods
    ensures key in Walk(methods, base, params, resources).value
    ensures Walk(methods, base, params, resources).value[key]
            == Apply(methods[key], WalkBindings(base, params, resources, key))
    decreases resources
  {
    if |resources| == 0 {
      assert AllParams([]) == [];
    } else {
      var res := resources[0];
      var here := JoinPath(base, res.path);
      var accumulated := params + ParamsToVariables(res.params);
      var afterChildren := Walk(methods, here, accumulated, res.children).value;
      WalkApply(methods, here, accumulated, res.children, key);
      var bound := BindMethods(afterChildren, UrlString(here), accumulated, res.methodRefs).value;
      BindMethodsApply(afterChildren, UrlString(here), accumulated, res.methodRefs, key);
      WalkApply(bound, base, accumulated, resources[1..], key);
      var b1 := WalkBindings(here, accumulated, res.children, key);
      var b2 := RefBindings(res.methodRefs, key, UrlString(here), accumulated);
      var b3 := WalkBindings(base, accumulated, resources[1..], key);
      ApplyAppend(methods[key], b1, b2);
      ApplyAppend(methods[key], b1 + b2, b3);
    }
  }

  /** The same for the scoped walk. */
  lemma {:induction false} WalkScopedApply(methods: Document, base: Url, params: seq<Variable>, resources: seq<RawResource>, key: string)
    requires WalkScoped(methods, base, params, resources).Ok? && key in methods
    ensures key in WalkScoped(methods, base, params, resources).value
    ensures WalkScoped(methods, base, params, resources).value[key]
            == Apply(methods[key], ScopedBindings(base, params, resources, key))
    decreases resources
  {
    if |resources| == 0 {
      assert AllParams([]) == [];
    } else {
      var res := resources[0];
      var here := JoinPath(base, res.path);
      var accumulated := params + ParamsToVariables(res.params);
      var afterChildren := WalkScoped(methods, here, accumulated, res.children).value;
      WalkScopedApply(methods, here, accumulated, res.children, key);
      var bound := BindMethods(afterChildren, UrlString(here), accumulated, res.methodRefs).value;
      BindMethodsApply(afterChildren, UrlString(here), accumulated, res.methodRefs, key);
      WalkScopedApply(bound, base, params, resources[1..], key);
      var b1 := ScopedBindings(here, accumulated, res.children, key);
      var b2 := RefBindings(res.methodRefs, key, UrlString(here), accumulated);
      var b3 := ScopedBindings(base, params, resources[1..], key);
      ApplyAppend(methods[key], b1, b2);
      ApplyAppend(methods[key], b1 + b2, b3);
    }
  }

  /** A method no resource binds, at any depth, comes out of either walk unchanged. */
  lemma Unbound(methods: Document, base: Url, params: seq<Variable>, resources: seq<RawResource>, key: string)
    requires key in methods
    ensures Walk(methods, base, params, resources).Ok? && WalkBindings(base, params, resources, key) == []
            ==> Walk(methods, base, params, resources).value[key] == methods[key]
    ensures WalkScoped(methods, base, params, resources).Ok? && ScopedBindings(base, params, resources, key) == []
            ==> WalkScoped(methods, base, params, resources).value[key] == methods[key]
  {
    if Walk(methods, base, params, resources).Ok? {
      WalkApply(methods, base, params, resources, key);
    }
    if WalkScoped(methods, base, params, resources).Ok? {
      WalkScopedApply(methods, base, params, resources, key);
    }
  }

  // ----- the leak between siblings -----

  /** Two sibling resources; the second binds method "m" and declares no parameter of its own. */
  function SiblingExample(p: RawParam): seq<RawResource>
  {
    [RawResource("a", [p], [], []), RawResource("b", [], ["#m"], [])]
  }

  function SingleMethod(): Document
  {
    map["m" := Method("", "m", "GET", "", [], [], "", [])]
  }

  /** A resource without children: its references are bound with the accumulated parameters. */
  lemma WalkLeaf(methods: Document, base: Url, params: seq<Variable>, res: RawResource)
    requires res.children == []
    ensures Walk(methods, base, params, [res])
            == BindMethods(methods, UrlString(JoinPath(base, res.path)), params + ParamsToVariables(res.params), res.methodRefs)
    ensures WalkScoped(methods, base, params, [res])
            == BindMethods(methods, UrlString(JoinPath(base, res.path)), params + ParamsToVariables(res.params), res.methodRefs)
  {
    assert [res][1..] == [];
  }

  /** A single reference binds the one method it names. */
  lemma BindSingle(methods: Document, url: string, params: seq<Variable>, ref: string)
    ensures BindMethods(methods, url, params, [ref]) == BindOne(methods, url, params, ref)
  {
    assert [ref][..0] == [];
  }

  /** A resource that only declares parameters changes no method. */
  lemma ParamsOnlyResource(methods: Document, base: Url, params: seq<Variable>, res: RawResource)
    requires res.children == [] && res.methodRefs == []
    ensures Walk(methods, base, params, [res]) == Ok(methods)
    ensures WalkScoped(methods, base, params, [res]) == Ok(methods)
  {
    WalkLeaf(methods, base, params, res);
  }

  /** A resource without parameters or children binding one reference. */
  lemma RefOnlyResource(methods: Document, base: Url, params: seq<Variable>, res: RawResource)
    requires res.children == [] && res.params == [] && |res.methodRefs| == 1
    ensures Walk(methods, base, params, [res]) == BindOne(methods, UrlString(JoinPath(base, res.path)), params, res.methodRefs[0])
    ensures WalkScoped(methods, base, params, [res]) == BindOne(methods, UrlString(JoinPath(base, res.path)), params, res.methodRefs[0])
  {
    WalkLeaf(methods, base, params, res);
    assert ParamsToVariables([]) == [];
    assert params + [] == params;
    assert res.methodRefs == [res.methodRefs[0]];
    BindSingle(methods, UrlString(JoinPath(base, res.path)), params, res.methodRefs[0]);
  }

  /**
   * As written, a parameter of the first sibling ends up among the
   * arguments of a method bound only at the second sibling.
   */
  lemma SiblingParamsLeak(base: Url, p: RawParam)
    ensures Walk(SingleMethod(), base, [], SiblingExample(p)).Ok?
    ensures Walk(SingleMethod(), base, [], SiblingExample(p)).value["m"].arguments == ParamsToVariables([p])
  {
    var methods := SingleMethod();
    var r1, r2 := RawResource("a", [p], [], []), RawResource("b", [], ["#m"], []);
    assert SiblingExample(p) == [r1] + [r2];
    WalkAppend(methods, base, [], [r1], [r2]);
    ParamsOnlyResource(methods, base, [], r1);
    var inherited := OwnParamsSingle(r1);
    assert [] + inherited == inherited;
    RefOnlyResource(methods, base, inherited, r2);
  }

  /** The parameters of a single resource are its own. */
  lemma OwnParamsSingle(res: RawResource) returns (own: seq<Variable>)
    ensures own == OwnParams([res]) == ParamsToVariables(res.params)
  {
    own := ParamsToVariables(res.params);
    assert [res][1..] == [];
  }

  /** With scoped parameters the method bound at the second sibling inherits nothing. */
  lemma SiblingParamsScoped(base: Url, p: RawParam)
    ensures WalkScoped(SingleMethod(), base, [], SiblingExample(p)).Ok?
    ensures WalkScoped(SingleMethod(), base, [], SiblingExample(p)).value["m"].arguments == []
  {
    var methods := SingleMethod();
    var r1, r2 := RawResource("a", [p], [], []), RawResource("b", [], ["#m"], []);
    assert SiblingExample(p) == [r1] + [r2];
    WalkScopedAppend(methods, base, [], [r1], [r2]);
    ParamsOnlyResource(methods, base, [], r1);
    RefOnlyResource(methods, base, [], r2);
  }
}
