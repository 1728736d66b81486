/**
 * The server's helpers: the verticals (tenants) found in `src/pages`, the
 * endpoints and navigation links derived from a vertical's templates, the
 * whitelisted environment variables and the year placeholders of a
 * vertical's settings file. Directory listings, file text, the environment
 * and the year are parameters.
 */
module Helpers {
  import opened Wrappers
  import opened JsStrings
  import opened OrderedMaps
  import opened JsonValues

  /** Removes one `/` at the end, if there is one. */
  function StripTrailingSlash(s: string): (r: string)
    ensures EndsWith(s, "/") ==> r + "/" == s
    ensures !EndsWith(s, "/") ==> r == s
  {
    if EndsWith(s, "/") then s[..|s| - 1] else s
  }

  /** Removes one `/` at the front, if there is one. */
  function StripLeadingSlash(s: string): (r: string)
    ensures StartsWith(s, "/") ==> "/" + r == s
    ensures !StartsWith(s, "/") ==> r == s
  {
    if StartsWith(s, "/") then s[1..] else s
  }

  // ---------------------------------------------------------------------------
  // Endpoints

  /** `.hb`, in any case, at position `i` of `f`. */
  predicate HbAt(f: string, i: nat)
    requires i + 3 <= |f|
  {
    f[i] == '.' && (f[i + 1] == 'h' || f[i + 1] == 'H') && (f[i + 2] == 'b' || f[i + 2] == 'B')
  }

  /** The file name matches `/.*\.(hbs?)/i`, tried from the start of the name onwards. */
  predicate HasTemplateExtension(f: string)
    ensures HasTemplateExtension(f) <==> exists i: nat :: i + 3 <= |f| && HbAt(f, i)
    decreases |f|
  {
    if |f| < 3 then false
    else
      assert forall j: nat :: j + 3 <= |f| - 1 ==> (HbAt(f[1..], j) <==> HbAt(f, j + 1));
      assert forall i: nat :: 1 <= i && i + 3 <= |f| ==> (HbAt(f, i) <==> HbAt(f[1..], i - 1));
      HbAt(f, 0) || HasTemplateExtension(f[1..])
  }

  /** A file of a vertical's directory that becomes an endpoint. */
  predicate IsEndpointFile(f: string)
    ensures (EndsWith(f, ".hbs") || EndsWith(f, ".hb")) && f != "branding.hbs" ==> IsEndpointFile(f)
    ensures f == "branding.hbs" ==> !IsEndpointFile(f)
  {
    assert EndsWith(f, ".hbs") ==> HbAt(f, |f| - 4);
    assert EndsWith(f, ".hb") ==> HbAt(f, |f| - 3);
    HasTemplateExtension(f) && f != "branding.hbs"
  }

  function ViewRoot(v: string): string {
    "src/pages/" + v
  }

  /** The template path an endpoint file is registered under. */
  function TemplatePath(v: string, f: string): string {
    ViewRoot(v) + "/" + f
  }

  /** The URL of template `f`: its first `.hbs` and then its first `index` removed. */
  function EndpointOf(v: string, f: string): (r: string)
    ensures !Includes(f, ".hbs") && !Includes(f, "index") ==> r == StripTrailingSlash("/" + v + "/" + f)
  {
    StripTrailingSlash("/" + v + "/" + ReplaceFirst(ReplaceFirst(f, ".hbs", ""), "index", ""))
  }

  /** The endpoint map of a vertical: template path to URL, in the order of the listing. */
  function EndpointMapOf(v: string, files: seq<string>): (r: OrderedMap<string>)
    ensures Wf(r)
    decreases |files|
  {
    if files == [] then []
    else
      var m := EndpointMapOf(v, files[..|files| - 1]);
      var f := files[|files| - 1];
      if IsEndpointFile(f) then Put(m, TemplatePath(v, f), EndpointOf(v, f)) else m
  }

  /** The file a template path names. */
  function FileOf(v: string, path: string): string {
    if |path| > |ViewRoot(v)| then path[|ViewRoot(v)| + 1..] else ""
  }

  /** The entry endpoint file `f` contributes. */
  function EndpointEntry(v: string, f: string): (string, string) {
    (TemplatePath(v, f), EndpointOf(v, f))
  }

  /** The entries of all endpoint files of the listing, repeats included. */
  function EndpointEntries(v: string, files: seq<string>): seq<(string, string)>
    decreases |files|
  {
    if files == [] then []
    else
      var f := files[|files| - 1];
      EndpointEntries(v, files[..|files| - 1]) + if IsEndpointFile(f) then [EndpointEntry(v, f)] else []
  }

  /** The template path gives back the file. */
  lemma FileOfTemplatePath(v: string, f: string)
    ensures FileOf(v, TemplatePath(v, f)) == f
  {
    assert TemplatePath(v, f)[|ViewRoot(v)| + 1..] == f;
  }

  /** An entry of some endpoint file comes from that file. */
  lemma {:induction false} EndpointEntriesFrom(v: string, files: seq<string>, e: (string, string))
    requires e in EndpointEntries(v, files)
    ensures FileOf(v, e.0) in files && IsEndpointFile(FileOf(v, e.0)) && e == EndpointEntry(v, FileOf(v, e.0))
    decreases |files|
  {
    var init := files[..|files| - 1];
    var f := files[|files| - 1];
    if e in EndpointEntries(v, init) {
      EndpointEntriesFrom(v, init, e);
      assert FileOf(v, e.0) in init;
    } else {
      FileOfTemplatePath(v, f);
    }
  }

  /** Each entry of the endpoint map is the entry of an endpoint file of the listing. */
  lemma {:induction false} EndpointMapWithin(v: string, files: seq<string>)
    ensures forall i :: 0 <= i < |EndpointMapOf(v, files)| ==> EndpointMapOf(v, files)[i] in EndpointEntries(v, files)
    decreases |files|
  {
    if files != [] {
      var init := files[..|files| - 1];
      var f := files[|files| - 1];
      EndpointMapWithin(v, init);
      if IsEndpointFile(f) {
        PutWithin(EndpointMapOf(v, init), TemplatePath(v, f), EndpointOf(v, f), EndpointEntries(v, files));
      }
    }
  }

  /** Every endpoint file of the listing has an entry. */
  lemma {:induction false} EndpointMapCovers(v: string, files: seq<string>)
    ensures forall f :: f in files && IsEndpointFile(f) ==> TemplatePath(v, f) in Keys(EndpointMapOf(v, files))
    decreases |files|
  {
    if files != [] {
      var init := files[..|files| - 1];
      EndpointMapCovers(v, init);
      assert forall x :: x in files <==> x in init || x == files[|files| - 1];
    }
  }

  /** The loop of `getVerticalEndpoints` that fills the endpoint map. */
  method BuildEndpointMap(v: string, files: seq<string>) returns (m: OrderedMap<string>)
    ensures m == EndpointMapOf(v, files)
  {
    m := [];
    for i := 0 to |files|
      invariant m == EndpointMapOf(v, files[..i])
    {
      assert files[..i + 1][..i] == files[..i];
      var f := files[i];
      if IsEndpointFile(f) {
        m := Put(m, TemplatePath(v, f), EndpointOf(v, f));
      }
    }
    assert files[..|files|] == files;
  }

  /** Every endpoint is the vertical's root `/v` or lies below it. */
  lemma EndpointUnderVertical(v: string, f: string)
    ensures EndpointOf(v, f) == "/" + v || StartsWith(EndpointOf(v, f), "/" + v + "/")
  {
    var raw := "/" + v + "/" + ReplaceFirst(ReplaceFirst(f, ".hbs", ""), "index", "");
    assert raw[..|v| + 1] == "/" + v;
    if EndsWith(raw, "/") && |raw| == |v| + 2 {
      assert EndpointOf(v, f) == raw[..|v| + 1];
    } else {
      assert raw[..|v| + 2] == "/" + v + "/";
    }
  }

  /** Removing `.hbs` from `index.hbs` leaves `index`. */
  lemma IndexWithoutExtension()
    ensures ReplaceFirst("index.hbs", ".hbs", "") == "index"
  {
    ReplaceFirstAfter("index", ".hbs", "", "");
    assert "index" + ".hbs" + "" == "index.hbs";
  }

  /** Every endpoint starts with `/v`. */
  lemma EndpointStartsWithVertical(v: string, f: string)
    ensures StartsWith(EndpointOf(v, f), "/" + v)
  {
    EndpointUnderVertical(v, f);
    var url := EndpointOf(v, f);
    assert url[..|v| + 1] == "/" + v;
  }

  /** `index.hbs` is served at the vertical's root, without a trailing slash. */
  lemma IndexEndpoint(v: string)
    ensures EndpointOf(v, "index.hbs") == "/" + v
  {
    IndexWithoutExtension();
    ReplaceFirstAtStart("index", "index", "");
    var raw := "/" + v + "/";
    assert "/" + v + "/" + ReplaceFirst(ReplaceFirst("index.hbs", ".hbs", ""), "index", "") == raw;
    assert EndsWith(raw, "/") && raw[..|raw| - 1] == "/" + v;
  }

  /** An ordinary page `name.hbs` is served at `/<v>/name`. */
  lemma EndpointOfHbs(v: string, name: string)
    requires |name| > 0 && '.' !in name && '/' !in name && !Includes(name, "index")
    ensures EndpointOf(v, name + ".hbs") == "/" + v + "/" + name
  {
    ReplaceFirstAfter(name, ".hbs", "", "");
    assert name + ".hbs" + "" == name + ".hbs" && name + "" + "" == name;
    var raw := "/" + v + "/" + name;
    assert raw[|raw| - 1] == name[|name| - 1] != '/';
    assert !EndsWith(raw, "/");
  }

  /** Only the first `index` goes, wherever it stands: `reindex.hbs` is served at
      `/<v>/re`. */
  lemma EndpointDropsInnerIndex(v: string, prefix: string)
    requires |prefix| > 0 && '.' !in prefix && '/' !in prefix && 'i' !in prefix
    ensures EndpointOf(v, prefix + "index.hbs") == "/" + v + "/" + prefix
  {
    var stem := prefix + "index";
    assert ReplaceFirst(prefix + "index.hbs", ".hbs", "") == stem by {
      assert '.' !in stem by { assert stem[|prefix|..] == "index"; }
      assert prefix + "index.hbs" == stem + ".hbs" + "";
      ReplaceFirstAfter(stem, ".hbs", "", "");
      assert stem + "" + "" == stem;
    }
    assert ReplaceFirst(stem, "index", "") == prefix by {
      assert stem == prefix + "index" + "";
      ReplaceFirstAfter(prefix, "index", "", "");
      assert prefix + "" + "" == prefix;
    }
    var raw := "/" + v + "/" + prefix;
    assert raw[|raw| - 1] == prefix[|prefix| - 1] != '/';
    assert !EndsWith(raw, "/");
  }

  /** Two files of one vertical have the same template path only if they are the same file. */
  lemma TemplatePathInjective(v: string, f: string, g: string)
    requires TemplatePath(v, f) == TemplatePath(v, g)
    ensures f == g
  {
    var n := |ViewRoot(v) + "/"|;
    assert f == TemplatePath(v, f)[n..];
    assert g == TemplatePath(v, g)[n..];
  }

  /** Each entry of the endpoint map is that of an endpoint file of the listing. */
  lemma EndpointMapEntries(v: string, files: seq<string>)
    ensures forall i :: 0 <= i < |EndpointMapOf(v, files)| ==>
              var f := FileOf(v, EndpointMapOf(v, files)[i].0);
              f in files && IsEndpointFile(f) && EndpointMapOf(v, files)[i] == EndpointEntry(v, f)
  {
    EndpointMapWithin(v, files);
    forall i | 0 <= i < |EndpointMapOf(v, files)| {
      EndpointEntriesFrom(v, files, EndpointMapOf(v, files)[i]);
    }
  }

  /** The endpoint map has no entry for `branding.hbs`. */
  lemma EndpointMapSkipsBranding(v: string, files: seq<string>)
    ensures TemplatePath(v, "branding.hbs") !in Keys(EndpointMapOf(v, files))
  {
    var r := EndpointMapOf(v, files);
    EndpointMapEntries(v, files);
    forall i | 0 <= i < |r| ensures r[i].0 != TemplatePath(v, "branding.hbs") {
      var f := FileOf(v, r[i].0);
      if r[i].0 == TemplatePath(v, "branding.hbs") {
        TemplatePathInjective(v, "branding.hbs", f);
      }
    }
  }

  /** Every URL of the endpoint map lies at or below `/v`. */
  lemma EndpointMapUnderVertical(v: string, files: seq<string>)
    ensures forall i :: 0 <= i < |EndpointMapOf(v, files)| ==> StartsWith(EndpointMapOf(v, files)[i].1, "/" + v)
  {
    var r := EndpointMapOf(v, files);
    forall i | 0 <= i < |r| ensures StartsWith(r[i].1, "/" + v) {
      EntryUnderVertical(v, files, i);
    }
  }

  lemma EntryUnderVertical(v: string, files: seq<string>, i: nat)
    requires i < |EndpointMapOf(v, files)|
    ensures StartsWith(EndpointMapOf(v, files)[i].1, "/" + v)
  {
    var e := EndpointMapOf(v, files)[i];
    EndpointMapWithin(v, files);
    EndpointEntriesFrom(v, files, e);
    EndpointStartsWithVertical(v, FileOf(v, e.0));
  }

  // ---------------------------------------------------------------------------
  // Links

  /** The link name of an endpoint: `/v` removed, a leading slash stripped, `home`
      for the root, the first letter upper-cased. */
  function LinkName(v: string, e: string): (r: string)
    ensures !Includes(e, "/" + v) ==> r == Capitalize(if e == "" then "home" else StripLeadingSlash(e))
  {
    var name := ReplaceFirst(e, "/" + v, "");
    Capitalize(if name == "" then "home" else StripLeadingSlash(name))
  }

  /** The links discovered from the endpoints, one per name; a later endpoint with the
      same name replaces the earlier one's URL. */
  function LinkMapOf(v: string, endpoints: seq<string>): (r: OrderedMap<string>)
    ensures Wf(r)
    decreases |endpoints|
  {
    if endpoints == [] then []
    else
      var e := endpoints[|endpoints| - 1];
      Put(LinkMapOf(v, endpoints[..|endpoints| - 1]), LinkName(v, e), e)
  }

  /** The link entry endpoint `e` contributes. */
  function LinkEntry(v: string, e: string): (string, string) {
    (LinkName(v, e), e)
  }

  /** The link entries of all endpoints, repeats included. */
  function LinkEntries(v: string, endpoints: seq<string>): seq<(string, string)>
    decreases |endpoints|
  {
    if endpoints == [] then []
    else LinkEntries(v, endpoints[..|endpoints| - 1]) + [LinkEntry(v, endpoints[|endpoints| - 1])]
  }

  /** A link entry of some endpoint is named after that endpoint. */
  lemma {:induction false} LinkEntriesFrom(v: string, endpoints: seq<string>, x: (string, string))
    requires x in LinkEntries(v, endpoints)
    ensures x.1 in endpoints && x == LinkEntry(v, x.1)
    decreases |endpoints|
  {
    var init := endpoints[..|endpoints| - 1];
    if x in LinkEntries(v, init) {
      LinkEntriesFrom(v, init, x);
      assert x.1 in init;
    }
  }

  /** Each link is the entry of one of the endpoints. */
  lemma {:induction false} LinkMapWithin(v: string, endpoints: seq<string>)
    ensures forall i :: 0 <= i < |LinkMapOf(v, endpoints)| ==> LinkMapOf(v, endpoints)[i] in LinkEntries(v, endpoints)
    decreases |endpoints|
  {
    if endpoints != [] {
      var init := endpoints[..|endpoints| - 1];
      var e := endpoints[|endpoints| - 1];
      LinkMapWithin(v, init);
      PutWithin(LinkMapOf(v, init), LinkName(v, e), e, LinkEntries(v, endpoints));
    }
  }

  /** Every endpoint's name has a link. */
  lemma {:induction false} LinkMapCovers(v: string, endpoints: seq<string>)
    ensures forall e :: e in endpoints ==> LinkName(v, e) in Keys(LinkMapOf(v, endpoints))
    decreases |endpoints|
  {
    if endpoints != [] {
      var init := endpoints[..|endpoints| - 1];
      LinkMapCovers(v, init);
      assert forall x :: x in endpoints <==> x in init || x == endpoints[|endpoints| - 1];
    }
  }

  /** Each link is named after its URL, which is one of the endpoints. */
  lemma LinkMapEntries(v: string, endpoints: seq<string>)
    ensures forall i :: 0 <= i < |LinkMapOf(v, endpoints)| ==>
              LinkMapOf(v, endpoints)[i].1 in endpoints &&
              LinkMapOf(v, endpoints)[i].0 == LinkName(v, LinkMapOf(v, endpoints)[i].1)
  {
    LinkMapWithin(v, endpoints);
    forall i | 0 <= i < |LinkMapOf(v, endpoints)| {
      LinkEntriesFrom(v, endpoints, LinkMapOf(v, endpoints)[i]);
    }
  }

  /** The loop of `getVerticalLinks` over the endpoints. */
  method DiscoverLinks(v: string, endpoints: seq<string>) returns (linkMap: OrderedMap<string>)
    ensures linkMap == LinkMapOf(v, endpoints)
  {
    linkMap := [];
    for i := 0 to |endpoints|
      invariant linkMap == LinkMapOf(v, endpoints[..i])
    {
      assert endpoints[..i + 1][..i] == endpoints[..i];
      linkMap := Put(linkMap, LinkName(v, endpoints[i]), endpoints[i]);
    }
    assert endpoints[..|endpoints|] == endpoints;
  }

  /** The slots seeded first so that their links come first. */
  const SeededLinks: OrderedMap<Option<string>> := [("Home", None), ("Dashboard", None)]

  const DialogExamples := "Dialog Examples"

  /** The dialog examples link: none for the generic vertical. */
  function DialogExamplesLink(v: string): Option<string> {
    if v != "generic" then Some("/" + v + "/dialog-examples") else None
  }

  lemma SeededLinksWf()
    ensures Wf(SeededLinks)
  {
    assert Keys(SeededLinks) == ["Home", "Dashboard"];
    assert Keys(SeededLinks)[..1] == ["Home"];
  }

  /** The link map before the null slots are dropped. */
  function LinkSlots(v: string, endpoints: seq<string>): (r: OrderedMap<Option<string>>)
    ensures Wf(r)
    ensures |r| >= 2 && r[0].0 == "Home" && r[1].0 == "Dashboard"
  {
    SeededLinksWf();
    Put(Assign(SeededLinks, Lift(LinkMapOf(v, endpoints))), DialogExamples, DialogExamplesLink(v))
  }

  /** What `getVerticalLinks` returns for a vertical whose endpoint URLs are `endpoints`. */
  function VerticalLinksOf(v: string, endpoints: seq<string>): (r: OrderedMap<string>)
    ensures Wf(r)
  {
    FilterSomeWf(LinkSlots(v, endpoints));
    FilterSome(LinkSlots(v, endpoints))
  }

  /** The name of a link is computed from the part of its endpoint below `/v`. */
  lemma LinkNameOfEndpoint(v: string, rest: string)
    ensures LinkName(v, "/" + v + rest) == Capitalize(if rest == "" then "home" else StripLeadingSlash(rest))
  {
    VerticalPrefixRemoved(v, rest);
  }

  /** Removing the first `/v` from an endpoint of `v` leaves the part below it. */
  lemma VerticalPrefixRemoved(v: string, rest: string)
    ensures ReplaceFirst("/" + v + rest, "/" + v, "") == rest
  {
    var e := "/" + v + rest;
    assert e[..|v| + 1] == "/" + v;
    ReplaceFirstAtStart(e, "/" + v, "");
    assert e[|v| + 1..] == rest;
  }

  /** `Home`, when present, is the first link; `Dashboard`, when present, comes right
      after it (or first without it); so both precede every other link. */
  lemma LinksOrder(v: string, endpoints: seq<string>)
    ensures var r := VerticalLinksOf(v, endpoints);
            ("Home" in Keys(r) ==> r[0].0 == "Home") &&
            ("Home" in Keys(r) && "Dashboard" in Keys(r) ==> |r| >= 2 && r[1].0 == "Dashboard") &&
            ("Home" !in Keys(r) && "Dashboard" in Keys(r) ==> r[0].0 == "Dashboard")
  {
    FilterSomeLeading(LinkSlots(v, endpoints), "Home", "Dashboard");
  }

  /** For a vertical other than `generic`, the dialog examples link comes last (unless a
      discovered link already had that name, which keeps its place). */
  lemma DialogExamplesLast(v: string, endpoints: seq<string>)
    requires v != "generic" && DialogExamples !in Keys(LinkMapOf(v, endpoints))
    ensures var r := VerticalLinksOf(v, endpoints);
            |r| > 0 && r[|r| - 1] == (DialogExamples, "/" + v + "/dialog-examples")
  {
    var merged := Assign(SeededLinks, Lift(LinkMapOf(v, endpoints)));
    assert DialogExamples !in Keys(SeededLinks);
    assert DialogExamples !in Keys(merged);
    assert LinkSlots(v, endpoints) == Put(merged, DialogExamples, Some("/" + v + "/dialog-examples"));
    FilterSomePutNew(merged, DialogExamples, "/" + v + "/dialog-examples");
  }

  /** The links the code places itself: the two seeded first and the one put last. */
  const PlacedLinks: set<string> := {"Home", "Dashboard", DialogExamples}

  /** Between the seeded links and the dialog examples link, the other links come in the
      order in which their names were first discovered. */
  lemma LinksInDiscoveryOrder(v: string, endpoints: seq<string>)
    ensures Keys(Without(VerticalLinksOf(v, endpoints), PlacedLinks)) ==
            Keys(Without(LinkMapOf(v, endpoints), PlacedLinks))
  {
    SeededLinksWf();
    assert Keys(SeededLinks) == ["Home", "Dashboard"];
    WithoutSeededKeys(SeededLinks, LinkMapOf(v, endpoints), DialogExamples, DialogExamplesLink(v), PlacedLinks);
  }

  /** The dialog examples slot is put last and read as is; every other key reads as in
      the merged map once its nulls are dropped. */
  lemma GetVerticalLinkSlots(v: string, endpoints: seq<string>, k: string)
    ensures Get(VerticalLinksOf(v, endpoints), k) ==
            if k == DialogExamples then DialogExamplesLink(v)
            else Get(FilterSome(Assign(SeededLinks, Lift(LinkMapOf(v, endpoints)))), k)
  {
    SeededLinksWf();
    GetFilterSomePut(Assign(SeededLinks, Lift(LinkMapOf(v, endpoints))), DialogExamples, DialogExamplesLink(v), k);
  }

  /** The null seeds vanish: the merged map without nulls reads as the discovered links. */
  lemma GetSeededLinks(v: string, endpoints: seq<string>, k: string)
    ensures Get(FilterSome(Assign(SeededLinks, Lift(LinkMapOf(v, endpoints)))), k) == Get(LinkMapOf(v, endpoints), k)
  {
    SeededLinksWf();
    GetFilterSomeOverNulls(SeededLinks, LinkMapOf(v, endpoints), k);
  }

  /** Every link reads as discovered from the endpoints, except the dialog examples
      link, which is `/v/dialog-examples` and absent for `generic`. No slot left is null. */
  lemma GetVerticalLink(v: string, endpoints: seq<string>, k: string)
    ensures Get(VerticalLinksOf(v, endpoints), k) ==
            if k == DialogExamples then DialogExamplesLink(v) else Get(LinkMapOf(v, endpoints), k)
  {
    GetVerticalLinkSlots(v, endpoints, k);
    GetSeededLinks(v, endpoints, k);
  }

  // ---------------------------------------------------------------------------
  // Environment variables

  /** The environment variables the front end may see. */
  const EnvWhitelist: seq<string> := [
    "BXI_DV_JS_URL",
    "BXI_LOGIN_POLICY_ID",
    "BXI_REGISTRATION_POLICY_ID",
    "BXI_PASSWORD_RESET_POLICY_ID",
    "BXI_DEVICE_MANAGEMENT_POLICY_ID",
    "BXI_DASHBOARD_POLICY_ID",
    "BXI_GENERIC_POLICY_ID",
    "BXI_REMIX_POLICY_ID",
    "BXI_PROFILE_MANAGEMENT_POLICY_ID",
    "BXI_SHOW_REMIX_BUTTON",
    "BXI_GLITCH_REMIX_PROJECT",
    "BXI_DEBUG_LOGGING",
    "BXI_USE_REDIRECT",
    "BXI_REDIRECT_ISSUER",
    "BXI_REDIRECT_CLIENT_ID"
  ]

  /** Flags that are kept only when set to exactly `true`, since templates read an absent
      variable as false. */
  const EnvFlags: set<string> := {"BXI_SHOW_REMIX_BUTTON", "BXI_USE_REDIRECT"}

  /** The whitelisted entries of the environment, in its order. */
  function WhitelistedEnv(env: OrderedMap<string>): (r: OrderedMap<string>)
    ensures forall k :: k in Keys(r) ==> k in EnvWhitelist
    decreases |env|
  {
    if env == [] then []
    else
      var w := WhitelistedEnv(env[..|env| - 1]);
      var (k, val) := env[|env| - 1];
      if k in EnvWhitelist then Put(w, k, val) else w
  }

  /** Drops flag `k` unless it is exactly `true`. */
  function DropUnlessTrue(m: OrderedMap<string>, k: string): (r: OrderedMap<string>)
    ensures Get(r, k) == if Get(m, k) == Some("true") then Some("true") else None
    ensures forall j :: j != k ==> Get(r, j) == Get(m, j)
    ensures forall j :: j in Keys(r) ==> j in Keys(m)
  {
    GetWithoutAll(m, {k});
    if Get(m, k) != Some("true") then Without(m, {k}) else m
  }

  /** What `getBxiEnvironmentVariables` returns for the environment `env`. */
  function BxiEnvironment(env: OrderedMap<string>): (r: OrderedMap<string>)
    ensures forall k :: k in Keys(r) ==> k in EnvWhitelist
    ensures forall k :: k in EnvFlags && k in Keys(r) ==> Get(r, k) == Some("true")
  {
    DropUnlessTrue(DropUnlessTrue(WhitelistedEnv(env), "BXI_SHOW_REMIX_BUTTON"), "BXI_USE_REDIRECT")
  }

  /** `getBxiEnvironmentVariables`: the loop over the environment, then the two deletes. */
  method GetBxiEnvironmentVariables(env: OrderedMap<string>) returns (vars: OrderedMap<string>)
    ensures vars == BxiEnvironment(env)
  {
    vars := [];
    for i := 0 to |env|
      invariant vars == WhitelistedEnv(env[..i])
    {
      assert env[..i + 1][..i] == env[..i];
      if env[i].0 in EnvWhitelist {
        vars := Put(vars, env[i].0, env[i].1);
      }
    }
    assert env[..|env|] == env;
    if Get(vars, "BXI_SHOW_REMIX_BUTTON") != Some("true") {
      vars := Without(vars, {"BXI_SHOW_REMIX_BUTTON"});
    }
    if Get(vars, "BXI_USE_REDIRECT") != Some("true") {
      vars := Without(vars, {"BXI_USE_REDIRECT"});
    }
  }

  /** The whitelist filter reads like the environment on whitelisted keys. */
  lemma {:induction false} GetWhitelistedEnv(env: OrderedMap<string>, k: string)
    requires Wf(env)
    ensures Get(WhitelistedEnv(env), k) == if k in EnvWhitelist then Get(env, k) else None
    decreases |env|
  {
    if env != [] {
      var init := env[..|env| - 1];
      var e := env[|env| - 1];
      assert Keys(init) == Keys(env)[..|env| - 1];
      GetWhitelistedEnv(init, k);
      assert env == init + [e];
      GetAppend(init, e, k);
      if e.0 == k {
        assert k == Keys(env)[|env| - 1];
      }
    }
  }

  /** The front end sees exactly the whitelisted variables, with their values, except a
      flag that is not exactly `true`. */
  lemma GetBxiEnvironment(env: OrderedMap<string>, k: string)
    requires Wf(env)
    ensures Get(BxiEnvironment(env), k) ==
            if k in EnvWhitelist && (k in EnvFlags ==> Get(env, k) == Some("true")) then Get(env, k) else None
  {
    var w := WhitelistedEnv(env);
    GetWhitelistedEnv(env, k);
    GetWhitelistedEnv(env, "BXI_SHOW_REMIX_BUTTON");
    GetWhitelistedEnv(env, "BXI_USE_REDIRECT");
    var w1 := DropUnlessTrue(w, "BXI_SHOW_REMIX_BUTTON");
    GetWithout(w, {"BXI_SHOW_REMIX_BUTTON"}, k);
    GetWithout(w, {"BXI_SHOW_REMIX_BUTTON"}, "BXI_USE_REDIRECT");
    GetWithout(w1, {"BXI_USE_REDIRECT"}, k);
  }

  // ---------------------------------------------------------------------------
  // Settings placeholders

  /** `{{key}}`. */
  function Placeholder(key: string): (r: string)
    ensures |r| == |key| + 4
    ensures r[..2] == "{{" && r[2..|r| - 2] == key && r[|r| - 2..] == "}}"
  {
    "{{" + key + "}}"
  }

  /** The placeholders of a settings file and their replacements, in this order. */
  function ReplaceKeys(year: int): seq<(string, string)> {
    [("currentYear", IntToString(year)), ("lastYear", IntToString(year - 1))]
  }

  /** Every placeholder `{{key}}` of `pairs` replaced, one key after the other. */
  function SubstituteAll(text: string, pairs: seq<(string, string)>): (r: string)
    ensures (forall i :: 0 <= i < |pairs| ==> !Includes(text, Placeholder(pairs[i].0))) ==> r == text
    decreases |pairs|
  {
    if pairs == [] then text
    else
      var (key, value) := pairs[|pairs| - 1];
      var before := SubstituteAll(text, pairs[..|pairs| - 1]);
      var r := ReplaceAll(before, Placeholder(key), value);
      assert (forall i :: 0 <= i < |pairs| ==> !Includes(text, Placeholder(pairs[i].0))) ==> r == text by {
        if forall i :: 0 <= i < |pairs| ==> !Includes(text, Placeholder(pairs[i].0)) {
          assert before == text;
          ReplaceAllWithoutPattern(before, Placeholder(key), value);
        }
      }
      r
  }

  /** The placeholder loop of `getSettingsFile`. */
  method SubstitutePlaceholders(text: string, year: int) returns (fileStr: string)
    ensures fileStr == SubstituteAll(text, ReplaceKeys(year))
  {
    var pairs := ReplaceKeys(year);
    fileStr := text;
    for i := 0 to |pairs|
      invariant fileStr == SubstituteAll(text, pairs[..i])
    {
      assert pairs[..i + 1][..i] == pairs[..i];
      fileStr := ReplaceAll(fileStr, Placeholder(pairs[i].0), pairs[i].1);
    }
    assert pairs[..|pairs|] == pairs;
  }

  /** `getSettingsFile`: a missing file reads as `{}`; otherwise the text with its
      placeholders replaced, as `parse` (`JSON.parse`) reads it. */
  method GetSettingsFile(file: Option<string>, year: int, parse: string -> Json) returns (settings: Json)
    ensures file.None? ==> settings == JObject([])
    ensures file.Some? ==> settings == parse(SubstituteAll(file.value, ReplaceKeys(year)))
  {
    if file.Some? {
      var fileStr := SubstitutePlaceholders(file.value, year);
      settings := parse(fileStr);
    } else {
      settings := JObject([]);
    }
  }

  /** `getEditorMappingFile`: a missing file reads as `{}`; otherwise the text as
      `parse` reads it, with no placeholder replaced. */
  function EditorMappingFile(file: Option<string>, parse: string -> Json): (mapping: Json)
    ensures file.None? ==> mapping == JObject([])
    ensures file.Some? ==> mapping == parse(file.value)
  {
    if file.Some? then parse(file.value) else JObject([])
  }

  /** The two placeholders are replaced one after the other. */
  lemma SubstituteYears(text: string, year: int)
    ensures SubstituteAll(text, ReplaceKeys(year)) ==
            ReplaceAll(ReplaceAll(text, Placeholder("currentYear"), IntToString(year)),
                       Placeholder("lastYear"), IntToString(year - 1))
  {
    var pairs := ReplaceKeys(year);
    assert pairs[..1][..0] == [];
    assert SubstituteAll(text, pairs[..1]) == ReplaceAll(text, Placeholder("currentYear"), IntToString(year));
    assert pairs[..|pairs| - 1] == pairs[..1];
  }

  /** The decimal rendering of a year shares no character with a placeholder name. */
  lemma YearTextIsPlain(year: int, key: string)
    requires key == "currentYear" || key == "lastYear"
    ensures |IntToString(year)| > 0
    ensures forall c :: c in IntToString(year) ==> c !in Placeholder(key)
  {
    var s := IntToString(year);
    forall c | c in s ensures c !in Placeholder(key) {
      var i :| 0 <= i < |s| && s[i] == c;
      assert IsDigit(c) || c == '-';
    }
  }

  /** After the substitution no placeholder is left. */
  lemma NoPlaceholderLeft(text: string, year: int)
    ensures !Includes(SubstituteAll(text, ReplaceKeys(year)), Placeholder("currentYear"))
    ensures !Includes(SubstituteAll(text, ReplaceKeys(year)), Placeholder("lastYear"))
  {
    SubstituteYears(text, year);
    var once := ReplaceAll(text, Placeholder("currentYear"), IntToString(year));
    YearTextIsPlain(year, "currentYear");
    YearTextIsPlain(year - 1, "currentYear");
    YearTextIsPlain(year - 1, "lastYear");
    ReplaceAllRemovesPattern(text, Placeholder("currentYear"), IntToString(year));
    ReplaceAllKeepsAbsent(once, Placeholder("lastYear"), IntToString(year - 1), Placeholder("currentYear"));
    ReplaceAllRemovesPattern(once, Placeholder("lastYear"), IntToString(year - 1));
  }

  /** No `{{currentYear}}` starts inside a `{{lastYear}}`. */
  lemma LastYearHidesNoCurrentYear(t: string)
    ensures forall j :: 0 <= j < |Placeholder("lastYear")| ==>
              !StartsWith((Placeholder("lastYear") + t)[j..], Placeholder("currentYear"))
  {
    var last, current := Placeholder("lastYear"), Placeholder("currentYear");
    assert last == "{{lastYear}}";
    assert current[..3] == "{{c";
    forall j | 0 <= j < |last| ensures !StartsWith((last + t)[j..], current) {
      var u := (last + t)[j..];
      if j == 0 {
        assert u[2] == 'l' != current[2];
      } else if j == 1 {
        assert u[1] == 'l' != current[1];
      } else {
        assert u[0] == last[j] != '{' == current[0];
      }
    }
  }

  /** A `{{currentYear}}` is replaced by the year where it stands; what follows is
      substituted in its turn. */
  lemma SubstituteCurrentYearAt(a: string, b: string, year: int)
    requires '{' !in a
    ensures SubstituteAll(a + Placeholder("currentYear") + b, ReplaceKeys(year)) ==
            a + IntToString(year) + SubstituteAll(b, ReplaceKeys(year))
  {
    var current, last := Placeholder("currentYear"), Placeholder("lastYear");
    var y := IntToString(year);
    SubstituteYears(a + current + b, year);
    SubstituteYears(b, year);
    assert current[..2] == "{{" && last[..2] == "{{";
    ReplaceAllAt(a, current, b, y);
    var r1 := ReplaceAll(b, current, y);
    YearTextIsPlain(year, "lastYear");
    assert '{' !in a + y;
    ReplaceAllSkipsPlain(a + y, r1, last, IntToString(year - 1));
  }

  /** The first pass, for `{{currentYear}}`, leaves a `{{lastYear}}` where it stands. */
  lemma CurrentYearPassKeepsLastYear(a: string, b: string, rep: string)
    requires '{' !in a
    ensures ReplaceAll(a + Placeholder("lastYear") + b, Placeholder("currentYear"), rep) ==
            a + Placeholder("lastYear") + ReplaceAll(b, Placeholder("currentYear"), rep)
  {
    var current, last := Placeholder("currentYear"), Placeholder("lastYear");
    var r := ReplaceAll(b, current, rep);
    assert ReplaceAll(last + b, current, rep) == last + r by {
      LastYearHidesNoCurrentYear(b);
      ReplaceAllSkips(last, b, current, rep);
    }
    assert ReplaceAll(a + (last + b), current, rep) == a + ReplaceAll(last + b, current, rep) by {
      assert current[..2] == "{{";
      ReplaceAllSkipsPlain(a, last + b, current, rep);
    }
    assert a + last + b == a + (last + b);
    assert a + (last + r) == a + last + r;
  }

  /** A `{{lastYear}}` is replaced by the year before where it stands; what follows is
      substituted in its turn. */
  lemma SubstituteLastYearAt(a: string, b: string, year: int)
    requires '{' !in a
    ensures SubstituteAll(a + Placeholder("lastYear") + b, ReplaceKeys(year)) ==
            a + IntToString(year - 1) + SubstituteAll(b, ReplaceKeys(year))
  {
    var current, last := Placeholder("currentYear"), Placeholder("lastYear");
    var y := IntToString(year);
    SubstituteYears(a + last + b, year);
    SubstituteYears(b, year);
    CurrentYearPassKeepsLastYear(a, b, y);
    assert last[..2] == "{{";
    ReplaceAllAt(a, last, ReplaceAll(b, current, y), IntToString(year - 1));
  }

  /** Text without placeholders is left as it is. */
  lemma NoPlaceholderUnchanged(text: string, year: int)
    requires !Includes(text, Placeholder("currentYear")) && !Includes(text, Placeholder("lastYear"))
    ensures SubstituteAll(text, ReplaceKeys(year)) == text
  {
    SubstituteYears(text, year);
    ReplaceAllWithoutPattern(text, Placeholder("currentYear"), IntToString(year));
    ReplaceAllWithoutPattern(text, Placeholder("lastYear"), IntToString(year - 1));
  }

  // ---------------------------------------------------------------------------
  // The module-level caches

  /** An entry of a directory listing. */
  datatype DirEntry = DirEntry(name: string, isDirectory: bool)

  /** The names of the sub-directories, in the order of the listing. */
  function Directories(entries: seq<DirEntry>): (r: seq<string>)
    ensures forall x :: x in r <==> exists e :: e in entries && e.isDirectory && e.name == x
    decreases |entries|
  {
    if entries == [] then []
    else (if entries[0].isDirectory then [entries[0].name] else []) + Directories(entries[1..])
  }

  /**
   * The helpers' module state: the list of verticals, read once, and the endpoint
   * map of each vertical, built on its first use. `listings` records, for the
   * proofs, the directory listing each cached map was built from.
   */
  class HelperCache {
    var verticals: Option<seq<string>>
    var endpointMaps: map<string, OrderedMap<string>>
    ghost var listings: map<string, seq<string>>

    /** Every cached map is the endpoint map of the listing it was built from. */
    ghost predicate Valid()
      reads this
    {
      endpointMaps.Keys == listings.Keys &&
      forall v :: v in endpointMaps ==> endpointMaps[v] == EndpointMapOf(v, listings[v])
    }

    constructor ()
      ensures Valid() && verticals == None && endpointMaps == map[]
    {
      verticals := None;
      endpointMaps := map[];
      listings := map[];
    }

    /** `getVerticals`: the sub-directories of `src/pages`, listed on the first call only. */
    method GetVerticals(pages: seq<DirEntry>) returns (vs: seq<string>)
      requires Valid()
      modifies this
      ensures Valid()
      ensures old(verticals).Some? ==> vs == old(verticals).value
      ensures old(verticals).None? ==> vs == Directories(pages)
      ensures verticals == Some(vs)
      ensures endpointMaps == old(endpointMaps) && listings == old(listings)
    {
      if verticals.Some? {
        return verticals.value;
      }
      vs := Directories(pages);
      verticals := Some(vs);
    }

    /** `isValidVertical`: whether `vertical` (which may be undefined) is a vertical. */
    method IsValidVertical(pages: seq<DirEntry>, vertical: Option<string>) returns (b: bool)
      requires Valid()
      modifies this
      ensures Valid()
      ensures verticals.Some? && (old(verticals).Some? ==> verticals == old(verticals))
      ensures old(verticals).None? ==> verticals == Some(Directories(pages))
      ensures b <==> vertical.Some? && vertical.value in verticals.value
      ensures endpointMaps == old(endpointMaps) && listings == old(listings)
    {
      var vs := GetVerticals(pages);
      b := vertical.Some? && vertical.value in vs;
    }

    /** `getVerticalEndpoints`: the cached map when there is one, however the directory
        changed since; otherwise the map of the current listing, which is then cached. */
    method GetVerticalEndpoints(v: string, files: seq<string>) returns (m: OrderedMap<string>)
      requires Valid()
      modifies this
      ensures Valid()
      ensures v in old(endpointMaps) ==>
                (m == old(endpointMaps)[v] && endpointMaps == old(endpointMaps) && listings == old(listings))
      ensures v !in old(endpointMaps) ==>
                (m == EndpointMapOf(v, files) && endpointMaps == old(endpointMaps)[v := m] &&
                 listings == old(listings)[v := files])
      ensures v in listings && m == EndpointMapOf(v, listings[v])
      ensures verticals == old(verticals)
    {
      if v in endpointMaps {
        return endpointMaps[v];
      }
      m := BuildEndpointMap(v, files);
      endpointMaps := endpointMaps[v := m];
      listings := listings[v := files];
    }

    /** `getVerticalLinks`: the links of the vertical's (possibly cached) endpoints. */
    method GetVerticalLinks(v: string, files: seq<string>) returns (links: OrderedMap<string>)
      requires Valid()
      modifies this
      ensures Valid()
      ensures v in old(endpointMaps) ==> (endpointMaps == old(endpointMaps) && listings == old(listings))
      ensures v !in old(endpointMaps) ==>
                (endpointMaps == old(endpointMaps)[v := EndpointMapOf(v, files)] && listings == old(listings)[v := files])
      ensures v in endpointMaps && links == VerticalLinksOf(v, Values(endpointMaps[v]))
      ensures verticals == old(verticals)
    {
      var endpoints := GetVerticalEndpoints(v, files);
      var linkMap := DiscoverLinks(v, Values(endpoints));
      var ordered := Assign(SeededLinks, Lift(linkMap));
      ordered := Put(ordered, DialogExamples, DialogExamplesLink(v));
      links := FilterSome(ordered);
    }
  }
}
