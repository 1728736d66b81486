/**
 * The request handling logic of `server.js`: the HTTPS redirect hook, the
 * choice of vertical for `/`, the PWA manifest of a vertical, the view
 * parameters of a vertical's page (the links behind authentication and the
 * edit drawer), and `PUT /<v>/settings`, which walks a dotted path into the
 * vertical's settings document and stores a string at its end.
 */
module Server {
  import opened Wrappers
  import opened JsStrings
  import opened OrderedMaps
  import opened JsonValues
  import Helpers
  import opened PageFields

  /** A query parameter or cookie used as a condition: present and not empty. */
  predicate Truthy(q: Option<string>) {
    q.Some? && q.value != ""
  }

  // ---------------------------------------------------------------------------
  // The `onRequest` hook

  datatype HookOutcome = Proceed | Redirect(status: nat, location: string)

  /**
   * Plain HTTP behind the hosting proxy is sent to HTTPS. A request to the
   * local port, one with no `x-forwarded-proto` header, and one whose header
   * mentions `https` go through. `port` is the decimal text of the port.
   */
  function HttpsHook(port: string, hostname: string, protoHeader: Option<string>, url: string): (r: HookOutcome)
    ensures Includes(hostname, ":" + port) ==> r == Proceed
    ensures !Truthy(protoHeader) ==> r == Proceed
    ensures protoHeader.Some? && Includes(protoHeader.value, "https") ==> r == Proceed
    ensures r.Redirect? ==> r.status == 302 && StartsWith(r.location, "https://") && r.location[8..] == hostname + url
  {
    if Includes(hostname, ":" + port) || !Truthy(protoHeader) || Includes(protoHeader.value, "https") then
      Proceed
    else
      Redirect(302, "https://" + hostname + url)
  }

  /** Proxied plain HTTP, away from the local port, is always redirected. */
  lemma PlainHttpRedirected(port: string, hostname: string, proto: string, url: string)
    requires !Includes(hostname, ":" + port) && proto != "" && !Includes(proto, "https")
    ensures HttpsHook(port, hostname, Some(proto), url).Redirect?
  {
  }

  /** The redirect settles: the same host and URL, coming back over HTTPS, go through,
      so the hook can never send a browser round in a loop. */
  lemma RedirectSettles(port: string, hostname: string, protoHeader: Option<string>, url: string)
    requires HttpsHook(port, hostname, protoHeader, url).Redirect?
    ensures HttpsHook(port, hostname, Some("https"), url) == Proceed
  {
    assert StartsWith("https", "https");
    IncludesUnfold("https", "https");
  }

  // ---------------------------------------------------------------------------
  // `GET /`

  /**
   * The page `/` redirects to: `/generic` on the bxgeneric.org domain, then the
   * vertical named by the `redirectToVertical` cookie, then the configured
   * default vertical when it is one, and `/company` otherwise.
   */
  function RootRedirect(hostname: string, cookie: Option<string>, activeVertical: Option<string>, verticals: seq<string>): (r: string)
    ensures |r| > 0 && r[0] == '/'
    ensures Includes(hostname, "bxgeneric.org") ==> r == "/generic"
    ensures !Includes(hostname, "bxgeneric.org") && Truthy(cookie) ==> r[1..] == cookie.value
    ensures !Includes(hostname, "bxgeneric.org") && !Truthy(cookie) ==>
              r == if activeVertical.Some? && activeVertical.value in verticals then "/" + activeVertical.value
                   else "/company"
  {
    if Includes(hostname, "bxgeneric.org") then "/generic"
    else if Truthy(cookie) then "/" + cookie.value
    else if activeVertical.Some? && activeVertical.value in verticals then "/" + activeVertical.value
    else "/company"
  }

  /** The cookie is not checked against the installed verticals: a value that starts
      with `/` turns the target into a protocol-relative URL, which leaves the site. */
  lemma RootRedirectCookieUnchecked(hostname: string, host: string, activeVertical: Option<string>, verticals: seq<string>)
    requires !Includes(hostname, "bxgeneric.org")
    ensures RootRedirect(hostname, Some("/" + host), activeVertical, verticals) == "//" + host
  {
  }

  /** With the `company` and `generic` verticals installed, and no cookie, `/` always
      lands on an existing vertical. */
  lemma RootRedirectLandsOnVertical(hostname: string, activeVertical: Option<string>, verticals: seq<string>)
    requires "company" in verticals && "generic" in verticals
    ensures RootRedirect(hostname, None, activeVertical, verticals)[1..] in verticals
  {
    var r := RootRedirect(hostname, None, activeVertical, verticals);
    assert "/generic"[1..] == "generic" && "/company"[1..] == "company";
  }

  /** A valid default vertical is honoured when neither the domain nor a cookie decide. */
  lemma RootRedirectDefault(hostname: string, activeVertical: string, verticals: seq<string>)
    requires !Includes(hostname, "bxgeneric.org") && activeVertical in verticals
    ensures RootRedirect(hostname, None, Some(activeVertical), verticals)[1..] == activeVertical
  {
  }

  // ---------------------------------------------------------------------------
  // `GET /<v>/manifest.json`

  datatype ManifestIcon = ManifestIcon(src: string, mimeType: string, sizes: string)

  datatype Manifest = Manifest(
    name: string,
    shortName: string,
    display: string,
    startUrl: string,
    scope: string,
    icons: seq<ManifestIcon>)

  /** The manifest that lets vertical `v` be installed as a progressive web app. */
  function ManifestOf(v: string): (r: Manifest)
    ensures r.shortName == r.name && r.scope == r.startUrl
    ensures |r.name| == |v| + 2 && r.name[..2] == "BX"
    ensures |v| > 0 ==> r.name[2] == ToUpper(v[0]) && r.name[3..] == v[1..]
    ensures |r.startUrl| > 0 && r.startUrl[0] == '/' && r.startUrl[1..] == v
    ensures r.display == "standalone" && |r.icons| == 2
  {
    var name := "BX" + Capitalize(v);
    Manifest(name, name, "standalone", "/" + v, "/" + v,
      [ManifestIcon("apple-touch-icon-192.png", "image/png", "192x192"),
       ManifestIcon("apple-touch-icon-512.png", "image/png", "512x512")])
  }

  /** Two verticals whose names start with a lower-case letter get different app names,
      so installed apps of different verticals can be told apart. */
  lemma ManifestNamesDistinct(a: string, b: string)
    requires |a| > 0 && |b| > 0 && 'a' <= a[0] <= 'z' && 'a' <= b[0] <= 'z'
    requires ManifestOf(a).name == ManifestOf(b).name
    ensures a == b
  {
    var ca, cb := Capitalize(a), Capitalize(b);
    assert ca == ManifestOf(a).name[2..] == ManifestOf(b).name[2..] == cb;
    LowerCaseUpperInjective(a[0], b[0]);
    assert a == [a[0]] + ca[1..] && b == [b[0]] + cb[1..];
  }

  /** Upper-casing tells lower-case letters apart. */
  lemma LowerCaseUpperInjective(c: char, d: char)
    requires 'a' <= c <= 'z' && 'a' <= d <= 'z' && ToUpper(c) == ToUpper(d)
    ensures c == d
  {
  }

  // ---------------------------------------------------------------------------
  // A vertical's page

  /** The links every visitor may follow; the others need a signed-in user. */
  const PublicLinks: set<string> := {"Home", Helpers.DialogExamples}

  /** The vertical's links with `Home` and `Dialog Examples` taken out. */
  function AuthenticatedEndpoints(links: OrderedMap<string>): (r: OrderedMap<string>)
    ensures forall k :: k in Keys(r) <==> k in Keys(links) && k != "Home" && k != "Dialog Examples"
  {
    Without(links, PublicLinks)
  }

  /** Every link that stays keeps its URL. */
  lemma GetAuthenticatedEndpoint(links: OrderedMap<string>, k: string)
    ensures Get(AuthenticatedEndpoints(links), k) == if k in PublicLinks then None else Get(links, k)
  {
    GetWithout(links, PublicLinks, k);
  }

  /** The links that stay keep their order: filtering a concatenation concatenates. */
  lemma AuthenticatedEndpointsInOrder(a: OrderedMap<string>, b: OrderedMap<string>)
    ensures AuthenticatedEndpoints(a + b) == AuthenticatedEndpoints(a) + AuthenticatedEndpoints(b)
  {
    WithoutAppend(a, b, PublicLinks);
  }

  /** A well-formed link map stays well formed. */
  lemma AuthenticatedEndpointsWf(links: OrderedMap<string>)
    requires Wf(links)
    ensures Wf(AuthenticatedEndpoints(links))
  {
    WithoutWf(links, PublicLinks);
  }

  /** For a vertical's links: exactly the discovered pages other than `Home` (and a page
      named `Dialog Examples`), with the URLs they were discovered under. */
  lemma AuthenticatedLinksOfVertical(v: string, endpoints: seq<string>, k: string)
    ensures Get(AuthenticatedEndpoints(Helpers.VerticalLinksOf(v, endpoints)), k) ==
            if k in PublicLinks then None else Get(Helpers.LinkMapOf(v, endpoints), k)
  {
    GetAuthenticatedEndpoint(Helpers.VerticalLinksOf(v, endpoints), k);
    Helpers.GetVerticalLink(v, endpoints, k);
  }

  /** `Dashboard`, when the vertical has one, is the first link behind authentication. */
  lemma DashboardFirstAuthenticated(v: string, endpoints: seq<string>)
    ensures var r := AuthenticatedEndpoints(Helpers.VerticalLinksOf(v, endpoints));
            "Dashboard" in Keys(r) ==> r[0].0 == "Dashboard"
  {
    var m := Helpers.VerticalLinksOf(v, endpoints);
    var r := AuthenticatedEndpoints(m);
    Helpers.LinksOrder(v, endpoints);
    if "Dashboard" in Keys(r) {
      WithoutFront(m, PublicLinks);
      if "Home" in Keys(m) {
        WithoutFront(m[1..], PublicLinks);
        assert m[1..][0] == m[1];
      }
    }
  }

  /** The page name the editor is opened on: the last segment of the endpoint, or
      `home` on the vertical's root. */
  function CurrentPage(endpoint: string, v: string): (r: string)
    ensures r == "home" || ('/' !in r && r != v)
  {
    var segments := Split(endpoint, '/');
    var last := segments[|segments| - 1];
    if last == v then "home" else last
  }

  /** On the vertical's root page the editor shows `home`. */
  lemma CurrentPageOfRoot(prefix: string, v: string)
    requires '/' !in v
    ensures CurrentPage(prefix + "/" + v, v) == "home"
  {
    SplitLast(prefix, v, '/');
  }

  /** On any other page it shows the page's own segment. */
  lemma CurrentPageOfPage(prefix: string, page: string, v: string)
    requires '/' !in page && page != v
    ensures CurrentPage(prefix + "/" + page, v) == page
  {
    SplitLast(prefix, page, '/');
  }

  /** `process.env.BXI_ENABLE_EDITING === 'true'`, read once at start-up. */
  function EditingEnabled(processEnv: OrderedMap<string>): bool {
    Get(processEnv, "BXI_ENABLE_EDITING") == Some("true")
  }

  /** A map of strings as the plain object a template sees. */
  function StringsObject(m: OrderedMap<string>): (r: Json)
    ensures r.JObject? && |r.fields| == |m|
    ensures forall i :: 0 <= i < |m| ==> r.fields[i] == (m[i].0, JString(m[i].1))
  {
    JObject(seq(|m|, i requires 0 <= i < |m| => (m[i].0, JString(m[i].1))))
  }

  /** `c.k = x` in strict mode, for a key that names neither an array index nor `length`:
      an object gets or updates the property, an array keeps no named property in this
      model, and a primitive throws. */
  function SetNamed(c: Json, k: string, x: Json): (r: Result<Json>)
    ensures r.Err? <==> !IsContainer(c)
    ensures r.Err? ==> r.error == TypeError
    ensures c.JArray? ==> r == Ok(c)
    ensures c.JObject? ==> r == Ok(JObject(Put(c.fields, k, x)))
  {
    match c
    case JObject(fs) => Ok(JObject(Put(fs, k, x)))
    case JArray(_) => Ok(c)
    case _ => Err(TypeError)
  }

  /** A settings value with the page's own fields written into it, as plain property
      assignments do: an object gets them, an array keeps no named property in this
      model, and any other value makes the first assignment throw. */
  function PageView(settings: Json, vertical: Json, env: Json, authenticated: Json, drawer: bool, mapping: Json,
                    page: Json)
    : (r: Result<Json>)
    ensures r.Err? <==> !IsContainer(settings)
    ensures r.Err? ==> r.error == TypeError
    ensures settings.JArray? ==> r == Ok(settings)
    ensures settings.JObject? ==> r.Ok? && r.value.JObject?
  {
    match settings
    case JObject(fs) => Ok(JObject(WithPageFields(fs, vertical, env, authenticated, JBool(drawer), drawer, mapping, page)))
    case JArray(_) => Ok(settings)
    case _ => Err(TypeError)
  }

  /**
   * What the handler of `endpoint` passes to its template: the vertical's settings
   * object with the vertical, the whitelisted environment, the links behind
   * authentication and the edit drawer flag written into it; and, only when
   * editing is enabled and the `edit` query parameter asks for it, the vertical's
   * editor mapping (`mappingFile`, read by `parse`) and the name of the page being
   * edited.
   */
  function PageViewParams(settings: Json, v: string, processEnv: OrderedMap<string>, links: OrderedMap<string>,
                          endpoint: string, editQuery: Option<string>, mappingFile: Option<string>,
                          parse: string -> Json): (r: Result<Json>)
    ensures r.Err? <==> !IsContainer(settings)
    ensures r.Err? ==> r.error == TypeError
    ensures settings.JArray? ==> r == Ok(settings)
    ensures settings.JObject? ==> r.Ok? && r.value.JObject?
  {
    PageView(settings, JString(v), StringsObject(Helpers.BxiEnvironment(processEnv)),
             StringsObject(AuthenticatedEndpoints(links)), EditingEnabled(processEnv) && Truthy(editQuery),
             Helpers.EditorMappingFile(mappingFile, parse), JString(CurrentPage(endpoint, v)))
  }

  /** The template sees the vertical, the whitelisted environment, the links behind
      authentication and whether the edit drawer is open, whatever the settings held
      under those names. */
  lemma PageViewInjected(fs: OrderedMap<Json>, v: string, processEnv: OrderedMap<string>, links: OrderedMap<string>,
                         endpoint: string, editQuery: Option<string>, mappingFile: Option<string>, parse: string -> Json)
    ensures var out := PageViewParams(JObject(fs), v, processEnv, links, endpoint, editQuery, mappingFile, parse).value.fields;
            Get(out, "vertical") == Some(JString(v)) &&
            Get(out, "env") == Some(StringsObject(Helpers.BxiEnvironment(processEnv))) &&
            Get(out, "verticalAuthenticatedEndpoints") == Some(StringsObject(AuthenticatedEndpoints(links))) &&
            Get(out, "showEditDrawer") ==
              Some(JBool(Get(processEnv, "BXI_ENABLE_EDITING") == Some("true") && Truthy(editQuery)))
  {
    var drawer := EditingEnabled(processEnv) && Truthy(editQuery);
    GetPageFields(fs, JString(v), StringsObject(Helpers.BxiEnvironment(processEnv)),
                  StringsObject(AuthenticatedEndpoints(links)), JBool(drawer), drawer,
                  Helpers.EditorMappingFile(mappingFile, parse), JString(CurrentPage(endpoint, v)));
    GetPageFlags(fs, JString(v), StringsObject(Helpers.BxiEnvironment(processEnv)),
                 StringsObject(AuthenticatedEndpoints(links)), JBool(drawer), drawer,
                  Helpers.EditorMappingFile(mappingFile, parse), JString(CurrentPage(endpoint, v)));
  }

  /** The current page is named only when editing is enabled and asked for; otherwise
      a `currentPage` the settings hold reaches the template unchanged. */
  lemma PageViewCurrentPage(fs: OrderedMap<Json>, v: string, processEnv: OrderedMap<string>, links: OrderedMap<string>,
                            endpoint: string, editQuery: Option<string>, mappingFile: Option<string>, parse: string -> Json)
    ensures Get(PageViewParams(JObject(fs), v, processEnv, links, endpoint, editQuery, mappingFile, parse).value.fields, "currentPage") ==
            if EditingEnabled(processEnv) && Truthy(editQuery) then Some(JString(CurrentPage(endpoint, v)))
            else Get(fs, "currentPage")
  {
    var drawer := EditingEnabled(processEnv) && Truthy(editQuery);
    GetPageFieldsCurrentPage(fs, JString(v), StringsObject(Helpers.BxiEnvironment(processEnv)),
                             StringsObject(AuthenticatedEndpoints(links)), JBool(drawer), drawer,
                             Helpers.EditorMappingFile(mappingFile, parse), JString(CurrentPage(endpoint, v)));
  }

  /** The editor mapping is written under the same condition, as the vertical's
      `editor-mapping.json` reads or `{}` without one. */
  lemma PageViewEditorMapping(fs: OrderedMap<Json>, v: string, processEnv: OrderedMap<string>, links: OrderedMap<string>,
                              endpoint: string, editQuery: Option<string>, mappingFile: Option<string>, parse: string -> Json)
    ensures Get(PageViewParams(JObject(fs), v, processEnv, links, endpoint, editQuery, mappingFile, parse).value.fields,
                "editorMapping") ==
            if EditingEnabled(processEnv) && Truthy(editQuery) then
              Some(if mappingFile.Some? then parse(mappingFile.value) else JObject([]))
            else Get(fs, "editorMapping")
  {
    var drawer := EditingEnabled(processEnv) && Truthy(editQuery);
    GetPageFieldsEditorMapping(fs, JString(v), StringsObject(Helpers.BxiEnvironment(processEnv)),
                               StringsObject(AuthenticatedEndpoints(links)), JBool(drawer), drawer,
                               Helpers.EditorMappingFile(mappingFile, parse), JString(CurrentPage(endpoint, v)));
  }

  /** The settings keep their order; the page's fields they lack come after them. */
  lemma PageViewKeepsOrder(fs: OrderedMap<Json>, v: string, processEnv: OrderedMap<string>, links: OrderedMap<string>,
                           endpoint: string, editQuery: Option<string>, mappingFile: Option<string>, parse: string -> Json)
    ensures KeepsPositions(fs, PageViewParams(JObject(fs), v, processEnv, links, endpoint, editQuery, mappingFile, parse).value.fields)
  {
    var drawer := EditingEnabled(processEnv) && Truthy(editQuery);
    PageFieldsKeepPositions(fs, JString(v), StringsObject(Helpers.BxiEnvironment(processEnv)),
                            StringsObject(AuthenticatedEndpoints(links)), JBool(drawer), drawer,
                            Helpers.EditorMappingFile(mappingFile, parse), JString(CurrentPage(endpoint, v)));
  }

  /** Every other setting reaches the template as the settings file has it. */
  lemma PageViewKeepsSettings(fs: OrderedMap<Json>, v: string, processEnv: OrderedMap<string>, links: OrderedMap<string>,
                              endpoint: string, editQuery: Option<string>, mappingFile: Option<string>, parse: string -> Json,
                              k: string)
    requires k !in InjectedKeys
    ensures Get(PageViewParams(JObject(fs), v, processEnv, links, endpoint, editQuery, mappingFile, parse).value.fields, k) == Get(fs, k)
  {
    var drawer := EditingEnabled(processEnv) && Truthy(editQuery);
    GetPageFieldsElsewhere(fs, JString(v), StringsObject(Helpers.BxiEnvironment(processEnv)),
                           StringsObject(AuthenticatedEndpoints(links)), JBool(drawer), drawer,
                           Helpers.EditorMappingFile(mappingFile, parse), JString(CurrentPage(endpoint, v)), k);
  }

  /**
   * A page handler's assignments one after the other: `getViewParams` writes the
   * vertical and the environment into the settings, then the handler writes the
   * links behind authentication, clears the drawer flag and, with `drawer`, sets it
   * and writes the editor mapping and the current page. Any of the assignments
   * throws on a primitive.
   */
  method BuildPageView(settings: Json, vertical: Json, env: Json, authenticated: Json, drawer: bool, mapping: Json,
                       page: Json)
    returns (r: Result<Json>)
    ensures r == PageView(settings, vertical, env, authenticated, drawer, mapping, page)
  {
    r := SetNamed(settings, "vertical", vertical);
    if r.Err? {
      return;
    }
    r := SetNamed(r.value, "env", env);
    r := SetNamed(r.value, "verticalAuthenticatedEndpoints", authenticated);
    r := SetNamed(r.value, "showEditDrawer", JBool(false));
    ghost var f4 := r.value;
    assert settings.JArray? ==> f4 == settings;
    assert settings.JObject? ==>
           f4 == JObject(ViewFields(settings.fields, vertical, env, authenticated, JBool(false)));
    if drawer {
      r := SetNamed(r.value, "showEditDrawer", JBool(true));
      r := SetNamed(r.value, "editorMapping", mapping);
      r := SetNamed(r.value, "currentPage", page);
      if settings.JObject? {
        assert r.value.fields ==
               Put(Put(Put(f4.fields, "showEditDrawer", JBool(true)), "editorMapping", mapping), "currentPage", page);
        PageFieldsInSteps(settings.fields, vertical, env, authenticated, JBool(false), JBool(true), drawer, mapping, page);
      }
    }
  }

  // ---------------------------------------------------------------------------
  // `PUT /<v>/settings`

  /** A slot the next step of the walk can read from. */
  predicate Live(s: Slot) {
    s.Value? && !s.v.JNull?
  }

  /** The containers the walk went through, outermost first, each with the key it was
      left by; a patched child is written back into each of them, innermost first. */
  function Rebuild(trail: seq<(Json, string)>, x: Json): Json
    decreases |trail|
  {
    if trail == [] then x
    else
      var last := trail[|trail| - 1];
      Rebuild(trail[..|trail| - 1], Replace(last.0, last.1, x))
  }

  function Wrap(trail: seq<(Json, string)>, r: Result<Json>): Result<Json> {
    match r
    case Err(e) => Err(e)
    case Ok(x) => Ok(Rebuild(trail, x))
  }

  lemma RebuildPush(trail: seq<(Json, string)>, c: Json, k: string, x: Json)
    ensures Rebuild(trail + [(c, k)], x) == Rebuild(trail, Replace(c, k, x))
  {
    assert (trail + [(c, k)])[..|trail|] == trail;
  }

  /** One step of the walk: reading `c[ks[0]]` either reaches a value to walk on, whose
      patch written back into `c` is the patch of `c`, or dooms the patch. */
  lemma WalkStep(trail: seq<(Json, string)>, c: Json, ks: seq<string>, s: string)
    requires |ks| > 1 && !c.JNull?
    ensures Live(Child(c, ks[0])) ==>
              Wrap(trail, SetPath(c, ks, s)) == Wrap(trail + [(c, ks[0])], SetPath(Child(c, ks[0]).v, ks[1..], s))
    ensures !Live(Child(c, ks[0])) ==> SetPath(c, ks, s) == Err(TypeError)
  {
    var n := Child(c, ks[0]);
    if Live(n) && SetPath(n.v, ks[1..], s).Ok? {
      RebuildPush(trail, c, ks[0], SetPath(n.v, ks[1..], s).value);
    }
  }

  /** The write-back, innermost container first. */
  method WriteBack(trail: seq<(Json, string)>, x0: Json) returns (x: Json)
    ensures x == Rebuild(trail, x0)
  {
    x := x0;
    var j := |trail|;
    assert trail[..j] == trail;
    while j > 0
      invariant 0 <= j <= |trail|
      invariant Rebuild(trail[..j], x) == Rebuild(trail, x0)
      decreases j
    {
      assert trail[..j][..j - 1] == trail[..j - 1];
      j := j - 1;
      x := Replace(trail[j].0, trail[j].1, x);
    }
  }

  /**
   * The handler's walk: shift keys off the split path, reading one property
   * at a time, until one key is left; assign the string to it. The objects
   * are changed in place in the program; here the walk keeps the containers
   * it passed and writes the changed child back into them afterwards.
   */
  method PatchWalk(doc: Json, jsonPath: string, value: string) returns (r: Result<Json>)
    ensures r == SetPath(doc, Split(jsonPath, '.'), value)
  {
    ghost var keys := Split(jsonPath, '.');
    var stack := Split(jsonPath, '.');
    var settingsRef := Value(doc);
    var trail: seq<(Json, string)> := [];
    ghost var i := 0;
    while |stack| > 1
      invariant 0 <= i < |keys| && stack == keys[i..]
      invariant Live(settingsRef) ==> SetPath(doc, keys, value) == Wrap(trail, SetPath(settingsRef.v, keys[i..], value))
      invariant !Live(settingsRef) ==> SetPath(doc, keys, value) == Err(TypeError)
      decreases |stack|
    {
      var key := stack[0];
      var next := GetProp(settingsRef, key);
      if next.Err? {
        return Err(next.error);
      }
      assert keys[i..][1..] == keys[i + 1..];
      WalkStep(trail, settingsRef.v, keys[i..], value);
      trail := trail + [(settingsRef.v, key)];
      settingsRef := next.value;
      stack := stack[1..];
      i := i + 1;
    }
    if !Live(settingsRef) {
      return Err(TypeError);
    }
    var stored := AssignProp(settingsRef.v, stack[0], value);
    if stored.Err? {
      return Err(stored.error);
    }
    var patched := WriteBack(trail, stored.value);
    r := Ok(patched);
  }

  /** The settings documents of the verticals, as the `PUT` handler reads and writes them. */
  class SettingsFiles {
    /** `src/pages/<v>/settings.json` of each vertical that has one, as parsed. */
    var documents: map<string, Json>
    /** `BXI_ENABLE_EDITING === 'true'`, read once at start-up. */
    const editingEnabled: bool

    /** The server starts with the settings files it read and with editing switched on
        exactly when `BXI_ENABLE_EDITING` is the string `true`. */
    constructor (documents: map<string, Json>, processEnv: OrderedMap<string>)
      ensures this.documents == documents
      ensures this.editingEnabled == (Get(processEnv, "BXI_ENABLE_EDITING") == Some("true"))
    {
      this.documents := documents;
      this.editingEnabled := EditingEnabled(processEnv);
    }

    /**
     * `PUT /<v>/settings` with body `{jsonPath, value}`. Without editing it
     * answers 403 and touches nothing. Otherwise the document is patched and
     * written back, 200; a missing file or a walk that throws answers 500 and
     * leaves the file as it was.
     */
    method HandlePut(v: string, jsonPath: string, value: string) returns (status: nat)
      modifies this
      ensures !editingEnabled ==> status == 403 && documents == old(documents)
      ensures editingEnabled && v !in old(documents) ==> status == 500 && documents == old(documents)
      ensures editingEnabled && v in old(documents) ==>
                var patched := SetPath(old(documents)[v], Split(jsonPath, '.'), value);
                (patched.Ok? ==> status == 200 && documents == old(documents)[v := patched.value]) &&
                (patched.Err? ==> status == 500 && documents == old(documents))
    {
      if !editingEnabled {
        return 403;
      }
      if v !in documents {
        return 500;
      }
      var patched := PatchWalk(documents[v], jsonPath, value);
      if patched.Err? {
        return 500;
      }
      documents := documents[v := patched.value];
      status := 200;
    }
  }
}
