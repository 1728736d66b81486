# bx-airlines server core, modelled in Dafny

bx-airlines is a Fastify server that serves demo sites for several tenants
("verticals"), one sub-directory of `src/pages` each. This project models the
logic that sits under its routing glue:

- **Endpoints and links** (`resources/helpers.js`). The URL of each template of a
  vertical comes from its file name. The navigation links are derived from those
  URLs: `Home` and `Dashboard` first, `Dialog Examples` last, and no null slots.
  The verticals and the endpoint maps are cached at module level, which is modelled
  as the class `Helpers.HelperCache`.
- **Environment projection** (`getBxiEnvironmentVariables`). This is the whitelist
  of variables the front end may see. Two of them are flags that are kept only when
  exactly `true`.
- **Settings placeholders** (`getSettingsFile`). It replaces every `{{currentYear}}`
  and `{{lastYear}}` in the settings text.
- **Settings editing** (`PUT /<v>/settings` in `server.js`). The handler walks a
  dotted path through the parsed settings document and stores a string there. The
  template helper `lookupPath` reads such a path back. Editing is gated by
  `BXI_ENABLE_EDITING`.
- **Template naming and helpers** (`resources/handlebars.js`):
  - kebab-case partial file names become camel-case partial names;
  - every vertical but `generic` gets a branding partial;
  - the helpers `inlineSvg`, `times`, `lookupPath` and `length`.
- **Small request rules** (`server.js`):
  - the HTTPS redirect hook;
  - the vertical `/` redirects to;
  - the PWA manifest of a vertical;
  - the links shown only to signed-in users;
  - the page name the editor opens on.

The modules follow the program, with three support modules underneath:

- `JsStrings` (`js_strings.dfy`): the JavaScript string built-ins used by the
  program. These are `replace` with a string pattern (first occurrence only),
  `replaceAll`, `split`, `includes`, `toUpperCase` and `String(n)`.
- `OrderedMaps` (`ordered_maps.dfy`): JavaScript objects as insertion-ordered
  association lists. Assigning to an existing key keeps its position. The module
  also has `Object.assign`, the null filter through `Object.fromEntries` and the
  rest pattern of a destructuring.
- `JsonValues` (`json.dfy`): a parsed JSON document with strict-mode property
  reads and writes. It contains the path patch `SetPath` and the path read
  `ReadPath`.

The program modules are `Helpers` (`helpers.dfy`), `Handlebars` (`handlebars.dfy`)
and `Server` (`server.dfy`). Directory listings, file text, environment maps and
the current year are parameters.

Where the code has a quirk, the model keeps it:

- The endpoint filter accepts any name holding `.hb` in any case. The extension
  strip removes only the first, lower-case `.hbs`.
- `/-./g` matches do not overlap, so `a--b` becomes `a-b`.
- An `edit` query parameter turns the edit drawer on only when it is non-empty: the
  code tests it for truthiness, so `?edit` alone does not open the drawer.
- A page at `/<v>/<v>` is shown to the editor as `home`.
- The `redirectToVertical` cookie is not checked against the verticals. `/` sends
  the browser to `/` + the cookie, so a cookie starting with `/` gives a
  protocol-relative URL to another host.
- A page's view parameters are the vertical's settings object itself, with the
  page's fields assigned into it. A setting named like one of those fields is
  overwritten. A `currentPage` or `editorMapping` setting reaches the template
  when the drawer is shut. Settings that parse to `null` or a primitive make the
  page throw.

## Model

| member | source | states |
|---|---|---|
| Helpers.HasTemplateExtension | resources/helpers.js:101 | the name holds `.hb` in any letter case at some position |
| Helpers.IsEndpointFile | resources/helpers.js:100-102 | every `.hbs` or `.hb` file other than `branding.hbs` is an endpoint file, and `branding.hbs` never is |
| Helpers.EndpointOf | resources/helpers.js:106-113 | a file name without `.hbs` or `index` is served at `/<v>/<file>` with any trailing slash removed |
| Helpers.StripTrailingSlash | resources/helpers.js:151-153 | removes exactly one trailing `/` when there is one (result + `/` is the input), identity otherwise |
| Helpers.StripLeadingSlash | resources/helpers.js:155-157 | removes exactly one leading `/` when there is one, identity otherwise |
| Helpers.EndpointMapOf | resources/helpers.js:96-114 | the endpoint map of a listing never holds a key twice |
| Helpers.BuildEndpointMap | resources/helpers.js:104-114 | the `forEach` loop fills exactly the endpoint map of the listing |
| Helpers.FileOfTemplatePath | resources/helpers.js:106 | the template path `src/pages/<v>/<f>` gives back the file `f` |
| Helpers.EndpointEntriesFrom | resources/helpers.js:100-113 | an entry produced for the listing comes from one of its endpoint files |
| Helpers.EndpointMapWithin | resources/helpers.js:104-114 | every entry of the map is one produced by an endpoint file of the listing |
| Helpers.EndpointMapEntries | resources/helpers.js:100-114 | every entry is `src/pages/<v>/<f>` → URL of `f`, for a file `f` of the listing that matches `.hb` (any case) and is not `branding.hbs` |
| Helpers.EndpointMapCovers | resources/helpers.js:100-114 | every file of the listing that passes the filter has its template path as a key |
| Helpers.EndpointMapSkipsBranding | resources/helpers.js:100-102 | there is never a key for `branding.hbs` |
| Helpers.EndpointUnderVertical | resources/helpers.js:106-113 | every URL is `/<v>` or starts with `/<v>/` |
| Helpers.EndpointStartsWithVertical | resources/helpers.js:106-113 | every URL starts with `/<v>` |
| Helpers.EndpointMapUnderVertical | resources/helpers.js:105-113 | every URL in the endpoint map starts with `/<v>` |
| Helpers.IndexWithoutExtension | resources/helpers.js:110 | removing `.hbs` from `index.hbs` leaves `index` |
| Helpers.IndexEndpoint | resources/helpers.js:106-113 | `index.hbs` is served at exactly `/<v>`, with no trailing slash |
| Helpers.EndpointOfHbs | resources/helpers.js:106-113 | an ordinary page `name.hbs` (no `.`, `/` or `index` in the name) is served at exactly `/<v>/name` |
| Helpers.EndpointDropsInnerIndex | resources/helpers.js:106-113 | only the first `index` is removed, wherever it stands: `reindex.hbs` is served at `/<v>/re` |
| Helpers.TemplatePathInjective | resources/helpers.js:106 | two files of a vertical share a template path only if they are the same file |
| Helpers.LinkMapOf | resources/helpers.js:123-130 | the discovered links never hold a name twice |
| Helpers.DiscoverLinks | resources/helpers.js:125-130 | the loop over the endpoints builds exactly the discovered link map |
| Helpers.LinkEntriesFrom | resources/helpers.js:125-130 | a link entry comes from one of the endpoints and is named after it |
| Helpers.LinkMapWithin | resources/helpers.js:125-130 | every discovered link is the entry of one of the endpoints |
| Helpers.LinkMapCovers | resources/helpers.js:125-130 | every endpoint's name has a link |
| Helpers.LinkMapEntries | resources/helpers.js:125-130 | every link's URL is one of the endpoints, and its name is computed from that URL |
| Helpers.LinkName | resources/helpers.js:126-128 | an endpoint that does not contain `/<v>` is named after itself without its leading slash (`home` when empty), first letter upper-cased |
| Helpers.VerticalLinksOf | resources/helpers.js:121-148 | the links of a vertical never hold a name twice |
| Helpers.LinksInDiscoveryOrder | resources/helpers.js:132-148 | apart from `Home`, `Dashboard` and `Dialog Examples`, the link names are exactly the discovered ones, in discovery order |
| Helpers.VerticalPrefixRemoved | resources/helpers.js:126 | removing the first `/<v>` from `/<v>` + rest leaves rest |
| Helpers.LinkNameOfEndpoint | resources/helpers.js:126-128 | the name of `/<v>` + rest is rest without its leading slash (`home` when empty), first letter upper-cased |
| Helpers.SeededLinksWf | resources/helpers.js:134-137 | the seeded `Home` and `Dashboard` slots are distinct keys |
| Helpers.LinkSlots | resources/helpers.js:134-143 | before nulls are dropped the map is well formed and starts with `Home`, `Dashboard` |
| Helpers.LinksOrder | resources/helpers.js:132-148 | `Home`, if present, is first; `Dashboard`, if present, comes right after it (or first without it) |
| Helpers.DialogExamplesLast | resources/helpers.js:141-148 | for a vertical other than `generic`, `Dialog Examples` → `/<v>/dialog-examples` is the last link (when no page is itself named so) |
| Helpers.GetVerticalLinkSlots | resources/helpers.js:142-148 | the `Dialog Examples` slot reads as set last; other keys read as in the merged map with nulls dropped |
| Helpers.GetSeededLinks | resources/helpers.js:134-147 | the null seeds vanish: the merged map with nulls dropped reads as the discovered links |
| Helpers.GetVerticalLink | resources/helpers.js:121-148 | every link reads as discovered from the endpoints; `Dialog Examples` is `/<v>/dialog-examples` and absent for `generic`; no value is null |
| Helpers.WhitelistedEnv | resources/helpers.js:17-42 | only whitelisted names are kept |
| Helpers.GetBxiEnvironmentVariables | resources/helpers.js:13-57 | the loop and the two deletes compute the whitelisted environment with flags not equal to `true` dropped |
| Helpers.GetWhitelistedEnv | resources/helpers.js:38-42 | a whitelisted variable keeps its value; any other is absent |
| Helpers.DropUnlessTrue | resources/helpers.js:44-54 | the flag survives only when it is exactly `true`; every other variable reads as before; no name is added |
| Helpers.BxiEnvironment | resources/helpers.js:13-56 | only whitelisted names are kept, and a flag that is kept reads `true` |
| Helpers.GetBxiEnvironment | resources/helpers.js:13-56 | the result holds exactly the whitelisted variables with their values, except a flag (`BXI_SHOW_REMIX_BUTTON`, `BXI_USE_REDIRECT`) that is not exactly `true` |
| Helpers.Placeholder | resources/helpers.js:198 | the text `{{key}}` searched for: `{{`, then the key, then `}}`, four characters longer than the key |
| Helpers.SubstituteAll | resources/helpers.js:197-199 | text holding none of the placeholders comes back unchanged |
| Helpers.SubstitutePlaceholders | resources/helpers.js:197-199 | the loop replaces the placeholders of both keys, one key after the other |
| Helpers.GetSettingsFile | resources/helpers.js:182-204 | a missing file gives `{}`; otherwise the parse of the substituted text |
| Helpers.SubstituteYears | resources/helpers.js:189-199 | `{{currentYear}}` is replaced by the year, then `{{lastYear}}` by the year before |
| Helpers.YearTextIsPlain | resources/helpers.js:189-192 | a year's decimal text is non-empty and shares no character with a placeholder |
| Helpers.NoPlaceholderLeft | resources/helpers.js:197-199 | after substitution no `{{currentYear}}` or `{{lastYear}}` is left |
| Helpers.NoPlaceholderUnchanged | resources/helpers.js:197-199 | text without placeholders is returned unchanged |
| Helpers.SubstituteCurrentYearAt | resources/helpers.js:189-199 | a `{{currentYear}}` preceded by text without `{` is replaced, in place, by the decimal year; the rest is substituted in its turn |
| Helpers.SubstituteLastYearAt | resources/helpers.js:189-199 | a `{{lastYear}}` preceded by text without `{` is replaced, in place, by the decimal year before; the rest is substituted in its turn |
| Helpers.CurrentYearPassKeepsLastYear | resources/helpers.js:197-199 | the `{{currentYear}}` pass leaves a `{{lastYear}}` where it stands |
| Helpers.LastYearHidesNoCurrentYear | resources/helpers.js:189-192 | no `{{currentYear}}` begins inside a `{{lastYear}}`, whatever follows it |
| Helpers.EditorMappingFile | resources/helpers.js:213-223 | a missing editor mapping file gives `{}`; otherwise the parse of its text, with no placeholder replaced |
| Helpers.Directories | resources/helpers.js:70-73 | exactly the names of the directory entries of the listing |
| Helpers.HelperCache.constructor | resources/helpers.js:4-5 | nothing is cached at start |
| Helpers.HelperCache.GetVerticals | resources/helpers.js:65-76 | the first call lists the directories and caches them; later calls return the cache, whatever the listing |
| Helpers.HelperCache.IsValidVertical | resources/helpers.js:78-80 | true exactly when the (possibly undefined) name is one of the cached verticals |
| Helpers.HelperCache.GetVerticalEndpoints | resources/helpers.js:88-119 | a cached map is returned unchanged even if the listing changed; otherwise the map of the listing is built and cached |
| Helpers.HelperCache.GetVerticalLinks | resources/helpers.js:121-149 | the links of the vertical's cached endpoints; the cache is filled as by `getVerticalEndpoints` |
| Handlebars.PartialName | resources/handlebars.js:121 | a partial name always ends with the suffix; a file name without `-` or `.hbs` keeps its name |
| Handlebars.CamelCase | resources/handlebars.js:121 | the camel-cased name is never longer than the original |
| Handlebars.PartialsOf | resources/handlebars.js:118-122 | the partials of a directory never hold a name twice |
| Handlebars.CamelCaseNoDash | resources/handlebars.js:121 | a name without dashes is left as it is |
| Handlebars.CamelCaseAtDash | resources/handlebars.js:121 | at the first dash followed by an ordinary character, the dash goes, the character is upper-cased, and the scan resumes after it |
| Handlebars.CamelCaseOfKebab | resources/handlebars.js:121 | kebab words joined by `-` become the first word followed by the others capitalised |
| Handlebars.PartialNameOfKebab | resources/handlebars.js:118-122 | `w1-w2-...wn.hbs` is registered as `w1W2...Wn` + suffix (e.g. `sign-in-email-otp.hbs` → `signInEmailOtp`) |
| Handlebars.DoubleDashKept | resources/handlebars.js:121 | matches do not overlap: `a--b` becomes `a-b` |
| Handlebars.PartialsWithin | resources/handlebars.js:119-121 | every partial is the entry of a `.hbs` file of the listing |
| Handlebars.PartialEntriesFrom | resources/handlebars.js:121 | an entry comes from a `.hbs` file of the listing, whose path it holds |
| Handlebars.PartialsFromHbsFiles | resources/handlebars.js:118-122 | only `.hbs` files become partials, each named from its file and pointing at `<dir>/<file>` |
| Handlebars.PartialsCover | resources/handlebars.js:118-122 | every `.hbs` file of the listing has a partial under its name |
| Handlebars.BrandingPartials | resources/handlebars.js:128-133 | the branding partials never hold a name twice |
| Handlebars.BrandingNameInjective | resources/handlebars.js:131 | different verticals get different branding partial names |
| Handlebars.GetBrandingPartial | resources/handlebars.js:128-133 | `<v>Branding` → `src/pages/<v>/branding.hbs` is registered exactly when `v` is a vertical other than `generic` |
| Handlebars.NoGenericBranding | resources/handlebars.js:129-130 | there is never a `genericBranding` partial |
| Handlebars.SvgPath | resources/handlebars.js:33-38 | the file read starts with `<prefix>public/` and ends with the value |
| Handlebars.SvgPathNormalised | resources/handlebars.js:33-38 | the file read is `<prefix>public/` + the value with one leading slash removed |
| Handlebars.Times | resources/handlebars.js:41-46 | the loop's result is the blocks for 0 … n-1 concatenated |
| Handlebars.RepeatedEnds | resources/handlebars.js:41-46 | for a positive count the text opens with the block for 0 and closes with the block for n-1 |
| Handlebars.RepeatedNothing | resources/handlebars.js:43 | a count that is zero or negative renders the empty string |
| Handlebars.RepeatedSplit | resources/handlebars.js:43-44 | blocks come in ascending order: the first a blocks, then the next b |
| Handlebars.RepeatedLength | resources/handlebars.js:41-46 | n copies of a constant block have n times its length |
| Handlebars.LookupPath | resources/handlebars.js:48-50 | a failed lookup is a TypeError (a read from undefined or null) |
| Handlebars.LookupJoined | resources/handlebars.js:49 | a path of keys joined by `.` reads exactly those keys, one after the other |
| Handlebars.LookupAfterPatch | resources/handlebars.js:48-50 | after a successful settings patch of a path, looking it up yields the string stored |
| Handlebars.IsOptions | resources/handlebars.js:100 | a value taken for Handlebars' options argument is an object with a `hash` key |
| Handlebars.Length | resources/handlebars.js:98-106 | the key count of a plain object that is not options-like, the length of a string or array, 0 otherwise |
| Handlebars.LengthIsLengthProperty | resources/handlebars.js:102-103 | for strings and arrays the helper agrees with their `length` property |
| Server.HttpsHook | server.js:63-75 | a request goes through on the local port, without the proxy header, or with a header mentioning `https`; a redirect is 302 to `https://` + host + URL |
| Server.PlainHttpRedirected | server.js:66-73 | every other request (proxied, non-empty header without `https`, not the local port) is redirected |
| Server.RedirectSettles | server.js:66-73 | after a redirect, the same host and URL coming back over HTTPS go through |
| Server.RootRedirect | server.js:79-102 | a string starting with `/`: `/generic` on the bxgeneric.org domain; else `/` + the cookie when it is non-empty; else exactly `/<BXI_ACTIVE_VERTICAL>` when that is a known vertical, and `/company` otherwise |
| Server.RootRedirectCookieUnchecked | server.js:89-92 | the cookie is not checked against the verticals: a cookie `/evil.example` redirects to `//evil.example`, another host |
| Server.RootRedirectLandsOnVertical | server.js:94-97 | without a cookie, with `company` and `generic` installed, `/` always lands on an existing vertical |
| Server.RootRedirectDefault | server.js:94-102 | a valid default vertical is used when neither the domain nor the cookie decide |
| Server.ManifestOf | server.js:360-381 | name = short name = `BX` + the vertical with its first letter upper-cased; start URL = scope = `/<v>`; standalone display; two icons |
| Server.ManifestNamesDistinct | server.js:361 | verticals starting with a lower-case letter get distinct app names |
| Server.AuthenticatedEndpoints | server.js:275-279 | exactly the links other than `Home` and `Dialog Examples` |
| Server.GetAuthenticatedEndpoint | server.js:275-280 | each remaining link keeps its URL |
| Server.AuthenticatedEndpointsInOrder | server.js:275-279 | the remaining links keep their order |
| Server.AuthenticatedEndpointsWf | server.js:275-279 | the remaining links hold no name twice |
| Server.AuthenticatedLinksOfVertical | server.js:268-280 | for a vertical: exactly its discovered pages except `Home` and `Dialog Examples`, with their URLs |
| Server.DashboardFirstAuthenticated | server.js:268-280 | `Dashboard`, when present, is the first link behind authentication |
| Server.CurrentPage | server.js:288-292 | `home`, or a segment without `/` that differs from the vertical |
| Server.CurrentPageOfRoot | server.js:290-292 | on `…/<v>` the editor shows `home` |
| Server.CurrentPageOfPage | server.js:288-292 | on `…/<page>` the editor shows `<page>`, the last segment |
| Server.StringsObject | resources/helpers.js:13-57 | a map of strings becomes an object with the same keys, in order, each holding its string |
| Server.SetNamed | server.js:280-292 | a property assignment throws a TypeError exactly on a primitive; on an object the key is put in place |
| Server.PageView | server.js:425-430 | writing the page's fields throws a TypeError exactly when the settings are neither object nor array; an object stays an object |
| Server.PageViewParams | server.js:268-292 | the same for the handler's whole view: settings that are null or a primitive make the page throw |
| Server.PageViewInjected | server.js:274-286 | the template reads `vertical`, `env`, the links behind authentication and `showEditDrawer` (editing enabled and `edit` truthy) as written, overriding settings of the same name |
| Server.PageViewCurrentPage | server.js:285-292 | `currentPage` is the edited page when the drawer opens; otherwise whatever the settings hold under that name |
| Server.PageViewEditorMapping | server.js:285-287 | `editorMapping` is the vertical's mapping file (or `{}`) when the drawer opens; otherwise whatever the settings hold |
| Server.PageViewKeepsOrder | server.js:425-430 | every setting keeps its position; new fields come after |
| Server.PageViewKeepsSettings | server.js:425-430 | every other setting reaches the template unchanged |
| Server.BuildPageView | server.js:280-292 | the assignments one after the other, with the drawer flag first cleared then set, give exactly `PageView` |
| Server.WalkStep | server.js:342-343 | one shift-and-read step either reaches a value whose patch, written back, is the document's patch, or makes the patch throw |
| Server.WriteBack | server.js:346 | the patched child is written back through every container the walk passed |
| Server.PatchWalk | server.js:339-346 | the walk with its `while` loop computes exactly the path patch `SetPath` of the document |
| Server.SettingsFiles.constructor | server.js:34 | the documents as given; editing is on exactly when `BXI_ENABLE_EDITING` is the string `true` |
| Server.SettingsFiles.HandlePut | server.js:323-351 | editing disabled: 403 and nothing changes; missing file or a throwing walk: 500 and nothing changes; otherwise 200 and only this vertical's document becomes the patched one |
| JsonValues.ArrayIndex | server.js:343 | a key is an array index only as the canonical decimal of a number below 2^32 - 1 |
| JsonValues.ArrayLength | server.js:346 | a string of decimal digits sets a length exactly when its value is below 2^32, and then that value; any other string throws a RangeError |
| JsonValues.ArrayLengthOfNatToString | server.js:346 | every valid length is set by its decimal numeral |
| JsonValues.Replace | server.js:346 | writing a child back keeps the container's kind (and an array's size); a primitive is left alone |
| JsonValues.Child | server.js:343 | `a.length` of an array is its size; an index within it reads the element, past it `undefined`; primitives have only primitive properties |
| JsonValues.GetProp | server.js:343 | reading a property of `undefined` or `null` throws a TypeError, and nothing else does |
| JsonValues.ReadPath | resources/handlebars.js:49 | a failed path read is a TypeError |
| JsonValues.Resize | server.js:346 | setting an array's length cuts it or pads it with holes (written as `null`) |
| JsonValues.StoreAt | server.js:346 | storing at an index sets that element, pads with holes past the end, keeps the others |
| JsonValues.AssignProp | server.js:346 | the assignment succeeds exactly on objects and arrays (for `length`, only for a valid length); on a primitive it throws a TypeError; it stores the value where a read finds it |
| JsonValues.SetPath | server.js:339-346 | a patch succeeds only on an object or an array, and the patched document stays the same kind of container, as the in-place update of the parsed document does |
| JsonValues.ArrayIndexOfNatToString | server.js:343 | every index below 2^32 - 1 is denoted by its decimal numeral |
| JsonValues.ArrayIndexInjective | server.js:343 | different keys never denote the same array index |
| JsonValues.SetPathPrimitiveFails | server.js:342-346 | a walk into a primitive never ends in a successful assignment |
| JsonValues.ReplaceChild | server.js:346 | writing a changed container back changes only that property |
| JsonValues.SetPathOkIff | server.js:342-346 | the patch succeeds exactly when every non-final key reaches an existing non-null value and the last assignment is allowed; structure is never created on the way |
| JsonValues.PatchableStep | server.js:342-344 | a path of two keys or more is patchable exactly when the first key leads to a non-null value from which the rest is patchable |
| JsonValues.ReadAfterPatch | server.js:339-346 | after a successful patch, reading the same path yields the string stored |
| JsonValues.PatchedIsContainer | server.js:342-346 | a document that can be patched is an object or an array |
| JsonValues.SetPathStep | server.js:342-346 | a successful patch goes into the container under the first key, patches it and writes it back |
| JsonValues.ReadPathStep | resources/handlebars.js:49 | a path read starts with its first key |
| JsonValues.SetPathFrameAtTop | server.js:346 | a path that leaves the patched one at the top reads as before |
| JsonValues.SetPathFrame | server.js:342-346 | every path that leaves the patched path at a container where the keys are independent reads as before |
| OrderedMaps.GetAt | resources/helpers.js:128 | `m[k]` in an object reads the value of the entry holding `k` |
| OrderedMaps.Keys | resources/helpers.js:146-147 | the keys in the order of the entries |
| OrderedMaps.Values | resources/helpers.js:122 | `Object.values`: the values in the order of the entries |
| OrderedMaps.Find | resources/helpers.js:128 | the first position holding the key; none exactly when the key is absent |
| OrderedMaps.GetLast | resources/helpers.js:139 | the value of the last entry with the key; none exactly when the key is absent |
| OrderedMaps.Put | resources/helpers.js:128 | an existing key keeps its position and a new one goes last; the key reads the new value, the others as before |
| OrderedMaps.Assign | resources/helpers.js:139 | `Object.assign` keeps the target's keys in place and adds the source's keys |
| OrderedMaps.FilterSome | resources/helpers.js:146-148 | no key is added |
| OrderedMaps.Without | server.js:275-279 | exactly the keys not taken out |
| PageFields.PageFieldsKeepPositions | server.js:425-430 | writing the page's fields into an object keeps every existing key at its position |
| PageFields.GetViewFieldsElsewhere | server.js:425-430 | a key other than `vertical`, `env`, `verticalAuthenticatedEndpoints`, `showEditDrawer` reads as before the four assignments |
| PageFields.GetPageFields | server.js:427-428 | `vertical` and `env` read what was written, whatever the object held |
| PageFields.GetPageFlags | server.js:280-286 | `verticalAuthenticatedEndpoints` and `showEditDrawer` read what was written |
| PageFields.GetPageFieldsCurrentPage | server.js:285-292 | `currentPage` is written only with the drawer; otherwise the object's own value stays |
| PageFields.GetPageFieldsEditorMapping | server.js:285-287 | so is `editorMapping` |
| PageFields.GetPageFieldsElsewhere | server.js:425-430 | every key the handler does not write reads as the object held it |
| PageFields.PageFieldsInSteps | server.js:283-286 | clearing the drawer flag and then setting it leaves the same object as setting it once |
| OrderedMaps.PutKeepsPositions | server.js:425-430 | an assignment leaves the keys already there at their positions |
| OrderedMaps.PutPut | server.js:283-286 | assigning a key twice is assigning it the second value, at the first position |
| OrderedMaps.DistinctAt | resources/helpers.js:128 | in an object two positions never hold the same key |
| OrderedMaps.PutWithin | resources/helpers.js:128 | putting an entry of a pool into a map drawn from the pool keeps it drawn from the pool |
| OrderedMaps.GetLift | resources/helpers.js:139 | a map seen as nullable reads the same, wrapped |
| OrderedMaps.FindOnlyReadsKeys | resources/helpers.js:128 | key lookup depends on the keys only |
| OrderedMaps.GetAssign | resources/helpers.js:139 | after `Object.assign` a key of the source reads as the source's last entry for it, any other as the target |
| OrderedMaps.GetAppend | resources/helpers.js:128 | appending an entry: a key already present reads as before, a new key reads the appended value |
| OrderedMaps.GetLastIsGet | resources/helpers.js:139 | in an object the last entry of a key is its only one |
| OrderedMaps.FilterSomeAppend | resources/helpers.js:146-148 | the null filter works entry by entry, keeping the order |
| OrderedMaps.DistinctTail | resources/helpers.js:146-148 | dropping the first key keeps keys distinct |
| OrderedMaps.FilterSomeFront | resources/helpers.js:146-148 | the null filter looks at the first entry, then at the rest |
| OrderedMaps.FirstKeyUnique | resources/helpers.js:146-148 | the first key of an object does not recur |
| OrderedMaps.FilterSomeLeading | resources/helpers.js:132-148 | the two leading keys keep their lead and order after nulls are dropped |
| OrderedMaps.FilterSomeFirst | resources/helpers.js:146-148 | the first entry survives the filter exactly when it is not null |
| OrderedMaps.KeysCons | resources/helpers.js:146-147 | the keys of an entry put in front |
| OrderedMaps.GetFilterSome | resources/helpers.js:146-148 | after dropping nulls a key reads its non-null value, and a null one is absent |
| OrderedMaps.FilterSomePutNew | resources/helpers.js:142-148 | a new non-null key set last is the last entry after the filter |
| OrderedMaps.GetFilterSomePut | resources/helpers.js:142-148 | a key set last reads as set after the filter; others as before |
| OrderedMaps.GetFilterSomeOverNulls | resources/helpers.js:134-148 | a null-free map assigned over null seeds, with nulls then dropped, reads exactly as that map |
| OrderedMaps.GetAssignLift | resources/helpers.js:139 | after assigning a map over seeds, its keys read their values and every other key reads as the seeds |
| OrderedMaps.GetWithout | server.js:275-279 | a key taken out is absent; any other reads as before |
| OrderedMaps.WithoutAppend | server.js:275-279 | the rest pattern keeps the order of the remaining entries |
| OrderedMaps.WithoutFront | server.js:275-279 | the rest pattern looks at the first entry, then at the others |
| OrderedMaps.FilterSomeWf | resources/helpers.js:146-148 | dropping nulls keeps keys distinct |
| OrderedMaps.WithoutWf | server.js:275-279 | taking keys out keeps keys distinct |
| OrderedMaps.WithoutAbsent | resources/helpers.js:47 | taking out an absent key changes nothing |
| JsStrings.StartsWithIsPrefix | resources/handlebars.js:34 | `startsWith` holds exactly when the string is the prefix followed by something |
| JsStrings.EndsWithIsSuffix | resources/handlebars.js:121 | `endsWith` holds exactly when the string is something followed by the suffix |
| JsStrings.Includes | server.js:67 | `includes` holds exactly when the pattern starts at some position |
| JsStrings.ReplaceFirst | resources/helpers.js:110-111 | without an occurrence the string is unchanged; with one, exactly one pattern's length is swapped for the replacement's |
| JsStrings.ReplaceAll | resources/helpers.js:198 | a replacement as long as the pattern keeps the length; a longer one never shortens the text |
| JsStrings.ToUpper | resources/helpers.js:128 | a lower-case ASCII letter becomes its upper-case letter; any other character is kept |
| JsStrings.IndexOf | resources/helpers.js:110-111 | the first position where the pattern occurs: it occurs there and at no earlier position; none when it occurs nowhere |
| JsStrings.Split | server.js:339 | at least one piece, and no piece holds the separator |
| JsStrings.Capitalize | resources/helpers.js:128 | same length, first character upper-cased, the rest kept |
| JsStrings.NatToString | resources/helpers.js:190 | a non-empty string of digits without a leading zero |
| JsStrings.IntToString | resources/helpers.js:191 | a non-empty string of digits and minus signs |
| JsStrings.DigitsValueOfNatToString | server.js:343 | the digits of `String(n)` read back as `n` |
| JsStrings.IncludesSkipsPrefix | resources/helpers.js:198 | an occurrence that cannot start in a prefix lies after it |
| JsStrings.ReplaceAllRemovesPattern | resources/helpers.js:198 | `replaceAll` with a replacement sharing no character with the pattern leaves no occurrence |
| JsStrings.ReplaceAllKeepsAbsent | resources/helpers.js:198 | `replaceAll` does not create an occurrence of another pattern its replacement cannot help form |
| JsStrings.ReplaceAllWithoutPattern | resources/helpers.js:198 | text without the pattern is unchanged by `replaceAll` |
| JsStrings.ReplaceAllAt | resources/helpers.js:198 | an occurrence preceded by text without the pattern's first character is replaced by the replacement where it stands, and the scan goes on after it |
| JsStrings.ReplaceAllSkips | resources/helpers.js:198 | a prefix in which no occurrence starts passes through `replaceAll` unchanged |
| JsStrings.ReplaceAllSkipsPlain | resources/helpers.js:198 | a prefix without the pattern's first character passes through `replaceAll` unchanged |
| JsStrings.ReplaceFirstAtStart | resources/helpers.js:126 | a pattern at the start is the one `replace` rewrites |
| JsStrings.ReplaceFirstAt | resources/helpers.js:110-111 | `replace` rewrites the first occurrence, where it stands |
| JsStrings.ReplaceFirstAfter | resources/helpers.js:110 | a pattern whose first character does not occur before it is replaced where it stands |
| JsStrings.JoinSplit | resources/handlebars.js:49 | `split` then `join` gives the string back |
| JsStrings.SplitPrefix | resources/handlebars.js:49 | a prefix without the separator joins the first piece |
| JsStrings.SplitJoin | resources/handlebars.js:49 | `join` then `split` gives the pieces back when none holds the separator |
| JsStrings.SplitLast | server.js:288 | the last piece of a split is what follows the last separator |

## Left out

- Fastify itself is not modelled. This covers routing, static files, cookies (`/setCookie`, `/setVerticalCookie`, `/logout`, and clearing the redirect cookie on `/`), view rendering, logging and start-up. It also covers the routes `/docs`, `/verticals`, `/shortcuts`, the reset routes, `dialog-examples`, the `admin` redirect and the not-found redirect. These are framework I/O around the modelled logic.
- `/dvtoken` is not modelled: it is an HTTP call to an external token service.
- The file system is reduced to inputs. Directory listings are sequences in the order given. A settings file is its text or absent. The settings documents are a map held by `Server.SettingsFiles`. Write failures are not modelled.
- `JSON.parse` and `JSON.stringify` are not verified. Documents are parsed trees. What the `PUT` handler writes is modelled as the tree it stringifies: an array hole reads back as `null`, and a non-index property put on an array is lost. An unparsable settings file is not represented.
- `new Date()` is replaced by a year parameter. `process.env` is an ordered map parameter, and the port is its decimal text.
- JSON numbers are integers, so floating point is not modelled. This also means `times` with a fractional or non-numeric count is not modelled.
- Strings are sequences of characters, not UTF-16 code units. `Handlebars.Length` counts characters. `toUpperCase` is modelled for ASCII letters only.
- Properties inherited through the prototype chain (`constructor`, `__proto__`, `toString`) are not modelled. JavaScript's ordering of integer-like object keys before the other keys is not modelled either; objects keep plain insertion order.
- `importWithCacheBusting` uses SHA-1 and dynamic import, so it is not modelled. `getEditorMappingFile`'s file is a parameter (its text or absent), like the settings file.
- JsonValues.ArrayLength: accepts only strings of decimal digits. JavaScript's `ToNumber` also accepts surrounding white space, a `+` sign, a fraction that is zero (`3.0`), an exponent (`1e1`), `0x`/`0o`/`0b` numerals and `-0`. For those strings the model throws a RangeError and `PUT /<v>/settings` answers 500, where the server sets the length and answers 200.
- Server.PageView: a settings file that parses to an array gets the page's fields as named properties. The model keeps no named property on an array, so the template of such a vertical sees none of them. The logging of the view parameters is not modelled.
- The template helpers `eq`, `gt`, `isnt` and `and` are not modelled. They rely on loose comparison and `handlebars-utils`' `value`.
- Registering the partials with the view engine (resources/handlebars.js:6-25) is not modelled: it spreads the modelled partial maps into one object.
- A query parameter or header repeated in a request (an array value) is not modelled. A `PUT` body that fails the route's schema is answered by the framework, so it is not modelled.
- Concurrent `PUT` requests are not modelled; the model is single-threaded.
