/**
 * JSON documents as JavaScript sees them after `JSON.parse`, and the two
 * property operations the settings editor performs on them: reading
 * `o[k]` and assigning `o[k] = s` (strict mode, since the server is an ES
 * module). The document is what `JSON.stringify` writes back, so an array
 * hole reads as `null` here and a non-index property put on an array is
 * not kept.
 */
module JsonValues {
  import opened Wrappers
  import opened JsStrings
  import opened OrderedMaps

  datatype Json =
    | JNull
    | JBool(b: bool)
    | JNumber(n: int)
    | JString(s: string)
    | JArray(items: seq<Json>)
    | JObject(fields: OrderedMap<Json>)

  /** What a property read yields: a value, or `undefined`. */
  datatype Slot = Undefined | Value(v: Json)

  /** Arrays hold fewer than 2^32 elements; their largest index is 2^32 - 2. */
  const MaxArrayLength: nat := 0x1_0000_0000

  predicate IsContainer(c: Json) {
    c.JObject? || c.JArray?
  }

  /** The array index a property key denotes: a canonical decimal numeral below 2^32 - 1. */
  function ArrayIndex(k: string): (r: Option<nat>)
    ensures r.Some? ==> r.value < MaxArrayLength - 1 && NatToString(r.value) == k
  {
    if k != [] && AllDigits(k) && NatToString(DigitsValue(k)) == k && DigitsValue(k) < MaxArrayLength - 1 then
      Some(DigitsValue(k))
    else
      None
  }

  /** The length an assignment `a.length = s` sets, or None when it throws a RangeError. */
  function ArrayLength(s: string): (r: Option<nat>)
    ensures r.Some? <==> AllDigits(s) && DigitsValue(s) < MaxArrayLength
    ensures r.Some? ==> r.value == DigitsValue(s) && r.value < MaxArrayLength
  {
    if AllDigits(s) && DigitsValue(s) < MaxArrayLength then Some(DigitsValue(s)) else None
  }

  /** Every length an array can have is set by its decimal numeral. */
  lemma ArrayLengthOfNatToString(n: nat)
    requires n < MaxArrayLength
    ensures ArrayLength(NatToString(n)) == Some(n)
  {
    DigitsValueOfNatToString(n);
  }

  /** `c[k]` for a value that is not null. Primitives other than strings have no own properties. */
  function Child(c: Json, k: string): (r: Slot)
    ensures !IsContainer(c) && r.Value? ==> !IsContainer(r.v)
    ensures c.JArray? && k == "length" ==> r == Value(JNumber(|c.items|))
    ensures c.JArray? && ArrayIndex(k).Some? ==>
              r == if ArrayIndex(k).value < |c.items| then Value(c.items[ArrayIndex(k).value]) else Undefined
  {
    match c
    case JObject(fs) =>
      (match Get(fs, k)
       case Some(v) => Value(v)
       case None => Undefined)
    case JArray(items) =>
      if k == "length" then Value(JNumber(|items|))
      else
        (match ArrayIndex(k)
         case Some(n) => if n < |items| then Value(items[n]) else Undefined
         case None => Undefined)
    case JString(s) =>
      if k == "length" then Value(JNumber(|s|))
      else
        (match ArrayIndex(k)
         case Some(n) => if n < |s| then Value(JString([s[n]])) else Undefined
         case None => Undefined)
    case _ => Undefined
  }

  /** `o[k]`: reading a property of `undefined` or `null` throws a TypeError. */
  function GetProp(o: Slot, k: string): (r: Result<Slot>)
    ensures r.Err? <==> o.Undefined? || o.v.JNull?
    ensures r.Err? ==> r.error == TypeError
  {
    if o.Undefined? || o.v.JNull? then Err(TypeError) else Ok(Child(o.v, k))
  }

  /** `o[k1][k2]...[kn]`, one read after the other. */
  function ReadPath(o: Slot, keys: seq<string>): (r: Result<Slot>)
    ensures r.Err? ==> r.error == TypeError
    decreases |keys|
  {
    if keys == [] then Ok(o)
    else
      match GetProp(o, keys[0])
      case Err(e) => Err(e)
      case Ok(next) => ReadPath(next, keys[1..])
  }

  /** `n` nulls: what `JSON.stringify` writes for the holes of a grown array. */
  function Holes(n: nat): (r: seq<Json>)
    ensures |r| == n && forall i :: 0 <= i < n ==> r[i] == JNull
  {
    seq(n, _ => JNull)
  }

  /** `a.length = n`: the array is cut to `n` elements or grows with holes. */
  function Resize(items: seq<Json>, n: nat): (r: seq<Json>)
    ensures |r| == n
    ensures forall i :: 0 <= i < n ==> r[i] == if i < |items| then items[i] else JNull
  {
    if n <= |items| then items[..n] else items + Holes(n - |items|)
  }

  /** `a[n] = v`: sets element `n`, growing the array with holes when `n` is past its end. */
  function StoreAt(items: seq<Json>, n: nat, v: Json): (r: seq<Json>)
    ensures |r| == if n < |items| then |items| else n + 1
    ensures r[n] == v
    ensures forall i :: 0 <= i < |r| && i != n ==> r[i] == if i < |items| then items[i] else JNull
  {
    if n < |items| then items[n := v] else items + Holes(n - |items|) + [v]
  }

  /** The property assignment `c[k] = s` of a string, in strict mode. */
  function AssignProp(c: Json, k: string, s: string): (r: Result<Json>)
    ensures r.Ok? <==> IsContainer(c) && (c.JArray? && k == "length" ==> ArrayLength(s).Some?)
    ensures r.Err? ==> r.error == (if IsContainer(c) then RangeError else TypeError)
    ensures r.Ok? ==> r.value.JObject? == c.JObject? && r.value.JArray? == c.JArray?
    ensures r.Ok? && (c.JObject? || ArrayIndex(k).Some?) ==> Child(r.value, k) == Value(JString(s))
    ensures r.Ok? && c.JArray? && k == "length" ==> |r.value.items| == ArrayLength(s).value
    ensures r.Ok? && c.JArray? && ArrayIndex(k).None? && k != "length" ==> r.value == c
  {
    match c
    case JObject(fs) => Ok(JObject(Put(fs, k, JString(s))))
    case JArray(items) =>
      if k == "length" then
        (match ArrayLength(s)
         case Some(n) => Ok(JArray(Resize(items, n)))
         case None => Err(RangeError))
      else
        (match ArrayIndex(k)
         case Some(n) => Ok(JArray(StoreAt(items, n, JString(s))))
         case None => Ok(c))
    case _ => Err(TypeError)
  }

  /**
   * Puts back a container `x` that was read as `c[k]` and then changed: in the
   * program the change happens in place, through the reference `c[k]` holds.
   */
  function Replace(c: Json, k: string, x: Json): (r: Json)
    ensures r.JObject? == c.JObject? && r.JArray? == c.JArray?
    ensures c.JArray? ==> |r.items| == |c.items|
    ensures !IsContainer(c) ==> r == c
  {
    match c
    case JObject(fs) => JObject(Put(fs, k, x))
    case JArray(items) =>
      (match ArrayIndex(k)
       case Some(n) => if n < |items| then JArray(items[n := x]) else c
       case None => c)
    case _ => c
  }

  /**
   * The settings patch: walk `doc` along all keys but the last, then assign
   * `s` to the last key of what was reached. Err is the exception it throws.
   */
  function SetPath(doc: Json, keys: seq<string>, s: string): (r: Result<Json>)
    requires |keys| >= 1
    ensures r.Ok? ==> IsContainer(doc)
    ensures r.Ok? ==> r.value.JObject? == doc.JObject? && r.value.JArray? == doc.JArray?
    decreases |keys|
  {
    if |keys| == 1 then AssignProp(doc, keys[0], s)
    else
      match Child(doc, keys[0])
      case Undefined => Err(TypeError)
      case Value(next) =>
        if next.JNull? then Err(TypeError)
        else
          match SetPath(next, keys[1..], s)
          case Err(e) => Err(e)
          case Ok(x) => Ok(Replace(doc, keys[0], x))
  }

  /** The container the walk reaches, and the last key, accept the assignment. */
  predicate Patchable(doc: Json, keys: seq<string>, s: string)
    requires |keys| >= 1
  {
    var reached := ReadPath(Value(doc), keys[..|keys| - 1]);
    reached.Ok? && reached.value.Value? && AssignProp(reached.value.v, keys[|keys| - 1], s).Ok?
  }

  /** An assignment to `c[k]` stores the value where a later `c[k]` finds it. */
  predicate StoresAt(c: Json, k: string) {
    c.JObject? || (c.JArray? && ArrayIndex(k).Some?)
  }

  /** An assignment to `c[b]` leaves every other property of `c` as it was. */
  predicate Separate(c: Json, b: string) {
    c.JObject? || (c.JArray? && ArrayIndex(b).Some? && ArrayIndex(b).value < |c.items|)
  }

  // ---------------------------------------------------------------------------
  // Lemmas

  /** Every index below 2^32 - 1 is denoted by its decimal numeral, so every element of
      an array is reachable, and patchable, by a path segment naming its index. */
  lemma ArrayIndexOfNatToString(n: nat)
    requires n < MaxArrayLength - 1
    ensures ArrayIndex(NatToString(n)) == Some(n)
  {
    DigitsValueOfNatToString(n);
  }

  /** Two different keys never denote the same array index. */
  lemma ArrayIndexInjective(a: string, b: string)
    requires a != b && ArrayIndex(a).Some? && ArrayIndex(b).Some?
    ensures ArrayIndex(a).value != ArrayIndex(b).value
  {
  }

  /** Walking into a primitive can never end in an assignment that succeeds. */
  lemma {:induction false} SetPathPrimitiveFails(c: Json, keys: seq<string>, s: string)
    requires |keys| >= 1 && !IsContainer(c)
    ensures SetPath(c, keys, s).Err?
    decreases |keys|
  {
    if |keys| > 1 {
      var next := Child(c, keys[0]);
      if next.Value? && !next.v.JNull? {
        SetPathPrimitiveFails(next.v, keys[1..], s);
      }
    }
  }

  /** Writing back a container read as `c[k]` makes `c[k]` read as the new one, and
      changes no other property of `c`. */
  lemma ReplaceChild(c: Json, k: string, x: Json, j: string)
    requires Child(c, k).Value? && IsContainer(Child(c, k).v)
    ensures IsContainer(c)
    ensures Child(Replace(c, k, x), j) == if j == k then Value(x) else Child(c, j)
  {
    if c.JArray? && j != k && ArrayIndex(j).Some? {
      ArrayIndexInjective(j, k);
    }
  }

  /** The patch succeeds exactly when the walk reaches a value whose property
      `keys[|keys| - 1]` may be assigned the string. */
  lemma {:induction false} SetPathOkIff(doc: Json, keys: seq<string>, s: string)
    requires |keys| >= 1
    ensures SetPath(doc, keys, s).Ok? <==> Patchable(doc, keys, s)
    decreases |keys|
  {
    if |keys| > 1 {
      PatchableStep(doc, keys, s);
      var c := Child(doc, keys[0]);
      if c.Value? && !c.v.JNull? {
        SetPathOkIff(c.v, keys[1..], s);
      }
    }
  }

  /** A path of two keys or more is patchable when the first key leads to a value that
      is not null and the rest of the path is patchable from there. */
  lemma PatchableStep(doc: Json, keys: seq<string>, s: string)
    requires |keys| > 1
    ensures Patchable(doc, keys, s) <==>
            Child(doc, keys[0]).Value? && !Child(doc, keys[0]).v.JNull? &&
            Patchable(Child(doc, keys[0]).v, keys[1..], s)
  {
    var init, rest := keys[..|keys| - 1], keys[1..];
    assert rest[..|rest| - 1] == init[1..];
    assert rest[|rest| - 1] == keys[|keys| - 1];
    var c := Child(doc, keys[0]);
    if doc.JNull? {
      assert ReadPath(Value(doc), init).Err?;
    } else {
      ReadPathStep(doc, init);
      if c.Undefined? || c.v.JNull? {
        if |init| > 1 {
          assert ReadPath(c, init[1..]).Err?;
        } else {
          assert init[1..] == [];
        }
      }
    }
  }

  /** After a successful patch, following the same keys reads the string stored,
      when the reached container keeps such a property. */
  lemma {:induction false} ReadAfterPatch(doc: Json, keys: seq<string>, s: string, c: Json)
    requires |keys| >= 1 && SetPath(doc, keys, s).Ok?
    requires ReadPath(Value(doc), keys[..|keys| - 1]) == Ok(Value(c))
    requires StoresAt(c, keys[|keys| - 1])
    ensures ReadPath(Value(SetPath(doc, keys, s).value), keys) == Ok(Value(JString(s)))
    decreases |keys|
  {
    if |keys| == 1 {
      assert keys[..0] == [];
      ReadPathStep(SetPath(doc, keys, s).value, keys);
    } else {
      var k := keys[0];
      var rest := keys[1..];
      assert keys[..|keys| - 1][1..] == rest[..|rest| - 1];
      assert rest[|rest| - 1] == keys[|keys| - 1];
      SetPathStep(doc, keys, s);
      var next := Child(doc, k).v;
      var x := SetPath(next, rest, s).value;
      ReadPathStep(doc, keys[..|keys| - 1]);
      ReadAfterPatch(next, rest, s, c);
      ReadThroughReplace(doc, k, x, keys);
    }
  }

  /** The contrapositive of SetPathPrimitiveFails, in the form the proofs use. */
  lemma PatchedIsContainer(c: Json, keys: seq<string>, s: string)
    requires |keys| >= 1 && SetPath(c, keys, s).Ok?
    ensures IsContainer(c)
  {
    if !IsContainer(c) {
      SetPathPrimitiveFails(c, keys, s);
    }
  }

  /** One step of a successful patch: the walk goes into the container `doc[keys[0]]`,
      patches it and writes it back. */
  lemma SetPathStep(doc: Json, keys: seq<string>, s: string)
    requires |keys| > 1 && SetPath(doc, keys, s).Ok?
    ensures Child(doc, keys[0]).Value? && IsContainer(Child(doc, keys[0]).v)
    ensures SetPath(Child(doc, keys[0]).v, keys[1..], s).Ok?
    ensures SetPath(doc, keys, s).value ==
            Replace(doc, keys[0], SetPath(Child(doc, keys[0]).v, keys[1..], s).value)
  {
    PatchedIsContainer(Child(doc, keys[0]).v, keys[1..], s);
  }

  /** A read along a non-empty path starts with the first key. */
  lemma ReadPathStep(d: Json, q: seq<string>)
    requires !d.JNull? && |q| > 0
    ensures ReadPath(Value(d), q) == ReadPath(Child(d, q[0]), q[1..])
  {
  }

  /** A read that goes through the property `k` a container was written back into
      continues in the new container; before, it continued in the old one. */
  lemma ReadThroughReplace(doc: Json, k: string, x: Json, q: seq<string>)
    requires Child(doc, k).Value? && IsContainer(Child(doc, k).v)
    requires |q| > 0 && q[0] == k
    ensures ReadPath(Value(Replace(doc, k, x)), q) == ReadPath(Value(x), q[1..])
    ensures ReadPath(Value(doc), q) == ReadPath(Child(doc, k), q[1..])
  {
    ReplaceChild(doc, k, x, k);
    ReadPathStep(doc, q);
    ReadPathStep(Replace(doc, k, x), q);
  }

  /** The first step of SetPathFrame: the two paths part at the top of `doc`. */
  lemma SetPathFrameAtTop(doc: Json, keys: seq<string>, q: seq<string>, s: string)
    requires |keys| >= 1 && |q| >= 1 && SetPath(doc, keys, s).Ok?
    requires Separate(doc, keys[0]) && q[0] != keys[0]
    ensures ReadPath(Value(SetPath(doc, keys, s).value), q) == ReadPath(Value(doc), q)
  {
    var d := SetPath(doc, keys, s).value;
    if |keys| > 1 {
      SetPathStep(doc, keys, s);
      ReplaceChild(doc, keys[0], SetPath(Child(doc, keys[0]).v, keys[1..], s).value, q[0]);
    }
    assert Child(d, q[0]) == Child(doc, q[0]);
  }

  /**
   * A patch changes nothing off its own path: a path `q` that leaves the
   * patched path `keys` after `i` common keys, at a container where the two
   * keys are independent, reads as before.
   */
  lemma {:induction false} SetPathFrame(doc: Json, keys: seq<string>, q: seq<string>, i: nat, s: string, c: Json)
    requires i < |keys| && i < |q| && SetPath(doc, keys, s).Ok?
    requires q[..i] == keys[..i] && q[i] != keys[i]
    requires ReadPath(Value(doc), keys[..i]) == Ok(Value(c)) && Separate(c, keys[i])
    ensures ReadPath(Value(SetPath(doc, keys, s).value), q) == ReadPath(Value(doc), q)
    decreases i
  {
    if i == 0 {
      assert keys[..0] == [];
      SetPathFrameAtTop(doc, keys, q, s);
    } else {
      var k := keys[0];
      assert q[0] == q[..i][0] == k;
      assert keys[..i][1..] == keys[1..][..i - 1] == q[1..][..i - 1];
      SetPathStep(doc, keys, s);
      var next := Child(doc, k).v;
      var x := SetPath(next, keys[1..], s).value;
      ReadPathStep(doc, keys[..i]);
      SetPathFrame(next, keys[1..], q[1..], i - 1, s, c);
      ReadThroughReplace(doc, k, x, q);
    }
  }
}
