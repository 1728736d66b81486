/**
 * The template side of the server: how partials found on disk are named, the
 * branding partial of each vertical, and the helpers `inlineSvg`, `times`,
 * `lookupPath` and `length` that templates call. Directory listings are
 * parameters; the block a `times` helper renders is a function of the index.
 */
module Handlebars {
  import opened Wrappers
  import opened JsStrings
  import opened OrderedMaps
  import opened JsonValues
  import Helpers

  // ---------------------------------------------------------------------------
  // Partial names

  /** `s.replace(/-./g, x => x[1].toUpperCase())`: from left to right, every `-` that
      is followed by a character other than a line terminator is dropped and that
      character upper-cased; the scan goes on after the pair, so matches never overlap. */
  function CamelCase(s: string): (r: string)
    ensures |r| <= |s|
    decreases |s|
  {
    if |s| >= 2 && s[0] == '-' && !IsLineTerminator(s[1]) then [ToUpper(s[1])] + CamelCase(s[2..])
    else if s == [] then []
    else [s[0]] + CamelCase(s[1..])
  }

  /** The name a partial file is registered under: its first `.hbs` removed, then
      camel-cased, then the suffix. */
  function PartialName(file: string, suffix: string): (r: string)
    ensures EndsWith(r, suffix)
    ensures '-' !in file && !Includes(file, ".hbs") ==> r == file + suffix
  {
    var name := CamelCase(ReplaceFirst(file, ".hbs", ""));
    assert (name + suffix)[|name|..] == suffix;
    assert '-' !in file && !Includes(file, ".hbs") ==> name == file by {
      if '-' !in file && !Includes(file, ".hbs") {
        CamelCaseNoDash(file);
      }
    }
    name + suffix
  }

  /** The partial registered for `file` of `dir`. */
  function PartialEntry(dir: string, suffix: string, file: string): (string, string) {
    (PartialName(file, suffix), dir + "/" + file)
  }

  /** `getPartialsFromDirectory(dir, suffix)` over the listing `files`: a reduce that
      spreads the partials so far and sets one more for each `.hbs` file. */
  function PartialsOf(dir: string, suffix: string, files: seq<string>): (r: OrderedMap<string>)
    ensures Wf(r)
    decreases |files|
  {
    if files == [] then []
    else
      var acc := PartialsOf(dir, suffix, files[..|files| - 1]);
      var f := files[|files| - 1];
      if EndsWith(f, ".hbs") then Put(acc, PartialName(f, suffix), dir + "/" + f) else acc
  }

  /** The entries of all `.hbs` files of the listing, repeats included. */
  function PartialEntries(dir: string, suffix: string, files: seq<string>): seq<(string, string)>
    decreases |files|
  {
    if files == [] then []
    else
      var f := files[|files| - 1];
      PartialEntries(dir, suffix, files[..|files| - 1]) +
      if EndsWith(f, ".hbs") then [PartialEntry(dir, suffix, f)] else []
  }

  /** A camel-cased string without dashes is the string itself. */
  lemma {:induction false} CamelCaseNoDash(s: string)
    requires '-' !in s
    ensures CamelCase(s) == s
    decreases |s|
  {
    if s != [] {
      assert s[0] != '-';
      assert forall c :: c in s[1..] ==> c in s;
      CamelCaseNoDash(s[1..]);
    }
  }

  /** The first dash of a word followed by an ordinary character: the dash goes, the
      character is upper-cased, and the scan resumes right after it. */
  lemma {:induction false} CamelCaseAtDash(a: string, c: char, b: string)
    requires '-' !in a && !IsLineTerminator(c)
    ensures CamelCase(a + ['-', c] + b) == a + [ToUpper(c)] + CamelCase(b)
    decreases |a|
  {
    var s := a + ['-', c] + b;
    if a == [] {
      assert s[2..] == b;
    } else {
      assert s[0] == a[0] && a[0] != '-';
      assert s[1..] == a[1..] + ['-', c] + b;
      assert forall x :: x in a[1..] ==> x in a;
      CamelCaseAtDash(a[1..], c, b);
    }
  }

  /** Kebab-case words: none holds a dash, and every word after the first starts with
      a character the regular expression's `.` matches. */
  predicate KebabWords(words: seq<string>) {
    |words| >= 1 &&
    (forall i :: 0 <= i < |words| ==> '-' !in words[i]) &&
    (forall i :: 1 <= i < |words| ==> |words[i]| > 0 && !IsLineTerminator(words[i][0]))
  }

  /** The words after the first, each with its first letter upper-cased, run together. */
  function CapitalizedWords(words: seq<string>): string
    decreases |words|
  {
    if words == [] then "" else Capitalize(words[0]) + CapitalizedWords(words[1..])
  }

  /** Kebab case becomes camel case: `a-b-c` is read as `a` followed by `B` and `C`. */
  lemma {:induction false} CamelCaseOfKebab(words: seq<string>)
    requires KebabWords(words)
    ensures CamelCase(Join(words, '-')) == words[0] + CapitalizedWords(words[1..])
    decreases |words|
  {
    if |words| == 1 {
      CamelCaseNoDash(words[0]);
      assert words[1..] == [];
    } else {
      var w := words[1];
      var shorter := [w[1..]] + words[2..];
      KebabShorter(words);
      CamelCaseOfKebab(shorter);
      assert shorter[0] == w[1..] && shorter[1..] == words[2..];
      var rest := Join(shorter, '-');
      assert CamelCase(rest) == w[1..] + CapitalizedWords(words[2..]);
      JoinAtSecondWord(words);
      assert '-' !in words[0] && !IsLineTerminator(w[0]);
      CamelCaseAtDash(words[0], w[0], rest);
      assert words[1..][0] == w && words[1..][1..] == words[2..];
      assert CapitalizedWords(words[1..]) == Capitalize(w) + CapitalizedWords(words[2..]);
      assert Capitalize(w) == [ToUpper(w[0])] + w[1..];
    }
  }

  /** Dropping the first character of the second word keeps the words kebab-case. */
  lemma KebabShorter(words: seq<string>)
    requires KebabWords(words) && |words| >= 2
    ensures KebabWords([words[1][1..]] + words[2..])
  {
    var shorter := [words[1][1..]] + words[2..];
    assert forall x :: x in words[1][1..] ==> x in words[1];
    forall i | 1 <= i < |shorter| ensures shorter[i] == words[i + 1] {
    }
  }

  /** The join seen at the dash before the second word. */
  lemma JoinAtSecondWord(words: seq<string>)
    requires |words| >= 2 && |words[1]| > 0
    ensures Join(words, '-') == words[0] + ['-', words[1][0]] + Join([words[1][1..]] + words[2..], '-')
  {
    var w := words[1];
    var shorter := [w[1..]] + words[2..];
    var tail := Join(words[1..], '-');
    if |words| == 2 {
      assert tail == w;
    } else {
      assert words[1..][1..] == words[2..] && shorter[1..] == words[2..];
      assert tail == w + ['-'] + Join(words[2..], '-');
    }
    assert tail == [w[0]] + Join(shorter, '-');
  }

  /** No character other than the separator gets into a join that its parts lack. */
  lemma {:induction false} JoinAvoids(parts: seq<string>, sep: char, c: char)
    requires |parts| >= 1 && c != sep && forall i :: 0 <= i < |parts| ==> c !in parts[i]
    ensures c !in Join(parts, sep)
    decreases |parts|
  {
    if |parts| > 1 {
      JoinAvoids(parts[1..], sep, c);
    }
  }

  /** A kebab-case template is registered under its camel-case name and the suffix,
      as `sign-in-email-otp.hbs` is under `signInEmailOtp` and the suffix. */
  lemma PartialNameOfKebab(words: seq<string>, suffix: string)
    requires KebabWords(words) && forall i :: 0 <= i < |words| ==> '.' !in words[i]
    ensures PartialName(Join(words, '-') + ".hbs", suffix) == words[0] + CapitalizedWords(words[1..]) + suffix
  {
    var base := Join(words, '-');
    JoinAvoids(words, '-', '.');
    ReplaceFirstAfter(base, ".hbs", "", "");
    assert base + ".hbs" + "" == base + ".hbs";
    assert base + "" + "" == base;
    CamelCaseOfKebab(words);
  }

  /** Matches do not overlap: in `a--b` the first dash takes the second one, which is
      upper-cased (and stays a dash), so a `-b` is left in the name. */
  lemma DoubleDashKept()
    ensures CamelCase("a--b") == "a-b"
  {
    CamelCaseNoDash("b");
    CamelCaseAtDash("a", '-', "b");
    assert "a" + ['-', '-'] + "b" == "a--b";
  }

  /** Each registered partial is the entry of a `.hbs` file of the listing. */
  lemma {:induction false} PartialsWithin(dir: string, suffix: string, files: seq<string>)
    ensures forall i :: 0 <= i < |PartialsOf(dir, suffix, files)| ==>
              PartialsOf(dir, suffix, files)[i] in PartialEntries(dir, suffix, files)
    decreases |files|
  {
    if files != [] {
      var init := files[..|files| - 1];
      var f := files[|files| - 1];
      PartialsWithin(dir, suffix, init);
      if EndsWith(f, ".hbs") {
        PutWithin(PartialsOf(dir, suffix, init), PartialName(f, suffix), dir + "/" + f, PartialEntries(dir, suffix, files));
      }
    }
  }

  /** The file a partial's template path names. */
  function PartialFile(dir: string, path: string): string {
    if |path| > |dir| then path[|dir| + 1..] else ""
  }

  /** An entry of the pool comes from a `.hbs` file of the listing. */
  lemma {:induction false} PartialEntriesFrom(dir: string, suffix: string, files: seq<string>, e: (string, string))
    requires e in PartialEntries(dir, suffix, files)
    ensures var f := PartialFile(dir, e.1); f in files && EndsWith(f, ".hbs") && e == PartialEntry(dir, suffix, f)
    decreases |files|
  {
    var init := files[..|files| - 1];
    var f := files[|files| - 1];
    if e in PartialEntries(dir, suffix, init) {
      PartialEntriesFrom(dir, suffix, init, e);
      assert PartialFile(dir, e.1) in files;
    } else {
      assert PartialFile(dir, e.1) == f by {
        assert (dir + "/" + f)[|dir| + 1..] == f;
      }
    }
  }

  /** Only `.hbs` files become partials: every partial is named after a `.hbs` file of
      the listing and points at that file in the directory. */
  lemma PartialsFromHbsFiles(dir: string, suffix: string, files: seq<string>)
    ensures forall i :: 0 <= i < |PartialsOf(dir, suffix, files)| ==>
              var f := PartialFile(dir, PartialsOf(dir, suffix, files)[i].1);
              f in files && EndsWith(f, ".hbs") && PartialsOf(dir, suffix, files)[i] == (PartialName(f, suffix), dir + "/" + f)
  {
    PartialsWithin(dir, suffix, files);
    forall i | 0 <= i < |PartialsOf(dir, suffix, files)| {
      PartialEntriesFrom(dir, suffix, files, PartialsOf(dir, suffix, files)[i]);
    }
  }

  /** Every `.hbs` file of the listing has a partial under its name. */
  lemma {:induction false} PartialsCover(dir: string, suffix: string, files: seq<string>)
    ensures forall f :: f in files && EndsWith(f, ".hbs") ==> PartialName(f, suffix) in Keys(PartialsOf(dir, suffix, files))
    decreases |files|
  {
    if files != [] {
      var init := files[..|files| - 1];
      PartialsCover(dir, suffix, init);
      assert forall x :: x in files <==> x in init || x == files[|files| - 1];
    }
  }

  // ---------------------------------------------------------------------------
  // Branding partials

  /** The branding template of a vertical. */
  function BrandingPath(v: string): string {
    "src/pages/" + v + "/branding.hbs"
  }

  /** `getBrandingPartials()` over the verticals `vs`: every vertical but `generic`
      gets the partial `<v>Branding`. */
  function BrandingPartials(vs: seq<string>): (r: OrderedMap<string>)
    ensures Wf(r)
    decreases |vs|
  {
    if vs == [] then []
    else
      var acc := BrandingPartials(vs[..|vs| - 1]);
      var v := vs[|vs| - 1];
      if v != "generic" then Put(acc, v + "Branding", BrandingPath(v)) else acc
  }

  /** Two verticals with the same branding partial name are the same vertical. */
  lemma BrandingNameInjective(v: string, w: string)
    requires v + "Branding" == w + "Branding"
    ensures v == w
  {
    assert v == (v + "Branding")[..|v|];
    assert w == (w + "Branding")[..|w|];
  }

  /** The branding partial of `v` is registered, pointing at its branding template,
      exactly when `v` is a vertical other than `generic`. */
  lemma {:induction false} GetBrandingPartial(vs: seq<string>, v: string)
    ensures Get(BrandingPartials(vs), v + "Branding") ==
            if v in vs && v != "generic" then Some(BrandingPath(v)) else None
    decreases |vs|
  {
    if vs != [] {
      var init := vs[..|vs| - 1];
      var w := vs[|vs| - 1];
      GetBrandingPartial(init, v);
      assert forall x :: x in vs <==> x in init || x == w;
      if w != "generic" && w + "Branding" == v + "Branding" {
        BrandingNameInjective(v, w);
      }
    }
  }

  /** There is never a `genericBranding` partial. */
  lemma NoGenericBranding(vs: seq<string>)
    ensures Get(BrandingPartials(vs), "genericBranding") == None
  {
    var name := "generic" + "Branding";
    assert name == "genericBranding" by {
      assert |name| == |"genericBranding"|;
      forall i | 0 <= i < |name| ensures name[i] == "genericBranding"[i] {
      }
    }
    GetBrandingPartial(vs, "generic");
  }

  // ---------------------------------------------------------------------------
  // Helpers

  /** The file `inlineSvg` reads: `value` under `public`, with a `/` put in front
      when it has none. */
  function SvgPath(pathPrefix: string, value: string): (r: string)
    ensures StartsWith(r, pathPrefix + "public/") && EndsWith(r, value)
  {
    pathPrefix + "public" + (if StartsWith(value, "/") then value else "/" + value)
  }

  /** The path read always has exactly one `/` between `public` and the value without
      its own leading slash; so `a.svg` and `/a.svg` read the same file. */
  lemma SvgPathNormalised(pathPrefix: string, value: string)
    ensures SvgPath(pathPrefix, value) == pathPrefix + "public/" + Helpers.StripLeadingSlash(value)
    ensures StartsWith(SvgPath(pathPrefix, value)[|pathPrefix| + 6..], "/")
  {
    var p := SvgPath(pathPrefix, value);
    assert p[|pathPrefix| + 6..] == "/" + Helpers.StripLeadingSlash(value);
  }

  /** What `times` returns: the blocks for `0, 1, ..., n - 1`, in that order. */
  function Repeated(n: int, block: int -> string): string
    decreases n
  {
    if n <= 0 then "" else Repeated(n - 1, block) + block(n - 1)
  }

  /** The repeated text opens with the first block and closes with the last. */
  lemma {:induction false} RepeatedEnds(n: nat, block: int -> string)
    requires n >= 1
    ensures StartsWith(Repeated(n, block), block(0)) && EndsWith(Repeated(n, block), block(n - 1))
    decreases n
  {
    var before := Repeated(n - 1, block);
    var r := before + block(n - 1);
    assert r[|before|..] == block(n - 1);
    if n >= 2 {
      RepeatedEnds(n - 1, block);
      assert r[..|block(0)|] == before[..|block(0)|];
    } else {
      assert r == block(0);
    }
  }

  /** The `times` helper: `block.fn(i)` appended for `i` from 0 while `i < n`. */
  method Times(n: int, block: int -> string) returns (accum: string)
    ensures accum == Repeated(n, block)
  {
    accum := "";
    var i := 0;
    while i < n
      invariant 0 <= i && (n >= 0 ==> i <= n) && (n < 0 ==> i == 0)
      invariant accum == Repeated(i, block)
      decreases n - i
    {
      accum := accum + block(i);
      i := i + 1;
    }
  }

  /** A count that is zero or negative renders nothing. */
  lemma RepeatedNothing(n: int, block: int -> string)
    requires n <= 0
    ensures Repeated(n, block) == ""
  {
  }

  /** The blocks come in ascending order: the first `a` blocks, then the next `b`. */
  lemma {:induction false} RepeatedSplit(a: nat, b: nat, block: int -> string)
    ensures Repeated(a + b, block) == Repeated(a, block) + Repeated(b, i => block(a + i))
    decreases b
  {
    if b > 0 {
      RepeatedSplit(a, b - 1, block);
      var shifted := (i: int) => block(a + i);
      assert Repeated(b, shifted) == Repeated(b - 1, shifted) + block(a + b - 1);
    }
  }

  /** A block that renders the same text each time gives `n` copies of it. */
  lemma {:induction false} RepeatedLength(n: nat, block: int -> string, text: string)
    requires forall i :: 0 <= i < n ==> block(i) == text
    ensures |Repeated(n, block)| == n * |text|
    decreases n
  {
    if n > 0 {
      RepeatedLength(n - 1, block, text);
    }
  }

  /** `lookupPath`: the `.`-separated keys of `path` read one after the other from the
      root data; a read from `undefined` or `null` throws. */
  function LookupPath(root: Json, path: string): (r: Result<Slot>)
    ensures r.Err? ==> r.error == TypeError
  {
    ReadPath(Value(root), Split(path, '.'))
  }

  /** A path written as keys joined by `.` reads those keys. */
  lemma LookupJoined(root: Json, keys: seq<string>)
    requires |keys| >= 1 && forall i :: 0 <= i < |keys| ==> '.' !in keys[i]
    ensures LookupPath(root, Join(keys, '.')) == ReadPath(Value(root), keys)
  {
    SplitJoin(keys, '.');
  }

  /** A patched settings path reads back as the string written there, when the
      container reached keeps such a property. */
  lemma LookupAfterPatch(doc: Json, path: string, s: string, c: Json)
    requires SetPath(doc, Split(path, '.'), s).Ok?
    requires var keys := Split(path, '.');
             ReadPath(Value(doc), keys[..|keys| - 1]) == Ok(Value(c)) && StoresAt(c, keys[|keys| - 1])
    ensures LookupPath(SetPath(doc, Split(path, '.'), s).value, path) == Ok(Value(JString(s)))
  {
    ReadAfterPatch(doc, Split(path, '.'), s, c);
  }

  /** `util.isObject(v) && util.isObject(v.hash)`: a plain object whose `hash` is a
      plain object looks like the options argument of a helper. */
  predicate IsOptions(v: Json)
    ensures IsOptions(v) ==> v.JObject? && "hash" in Keys(v.fields)
  {
    v.JObject? && match Get(v.fields, "hash") case Some(h) => h.JObject? case None => false
  }

  /** The `length` helper: the number of keys of a plain object (unless it looks like a
      helper's options), the length of a string or an array, and 0 otherwise. */
  function Length(value: Slot): (r: nat)
    ensures value.Value? && value.v.JString? ==> r == |value.v.s|
    ensures value.Value? && value.v.JArray? ==> r == |value.v.items|
    ensures value.Value? && value.v.JObject? && !IsOptions(value.v) ==> r == |Keys(value.v.fields)|
    ensures value.Undefined? || (!value.v.JString? && !value.v.JArray? && !(value.v.JObject? && !IsOptions(value.v))) ==> r == 0
  {
    match value
    case Undefined => 0
    case Value(v) =>
      if v.JObject? && !IsOptions(v) then |Keys(v.fields)|
      else if v.JString? then |v.s|
      else if v.JArray? then |v.items|
      else 0
  }

  /** For strings and arrays the helper agrees with reading their `length` property. */
  lemma LengthIsLengthProperty(v: Json)
    requires v.JString? || v.JArray?
    ensures Child(v, "length") == Value(JNumber(Length(Value(v))))
  {
  }
}
