/**
 * JavaScript plain objects as insertion-ordered association lists.
 *
 * A JavaScript object remembers the order in which its (string) keys were
 * first created; assigning to a key that already exists changes the value but
 * keeps the key where it was. `Put` is that assignment, `Assign` is
 * `Object.assign`, `FilterSome` is `Object.fromEntries(Object.entries(o).filter(
 * ([_, v]) => v != null))` and `Without` is the rest pattern of a destructuring
 * `const {k, ...rest} = o`.
 */
module OrderedMaps {
  import opened Wrappers

  /** An object's own properties, oldest first. */
  type OrderedMap<V> = seq<(string, V)>

  function Keys<V>(m: OrderedMap<V>): (ks: seq<string>)
    ensures |ks| == |m|
    ensures forall i :: 0 <= i < |m| ==> ks[i] == m[i].0
  {
    if m == [] then [] else Keys(m[..|m| - 1]) + [m[|m| - 1].0]
  }

  /** `Object.values(m)`. */
  function Values<V>(m: OrderedMap<V>): (vs: seq<V>)
    ensures |vs| == |m|
    ensures forall i :: 0 <= i < |m| ==> vs[i] == m[i].1
  {
    seq(|m|, i requires 0 <= i < |m| => m[i].1)
  }

  /** `r` holds the keys of `m` at the positions `m` has them, and perhaps more after. */
  predicate KeepsPositions<V>(m: OrderedMap<V>, r: OrderedMap<V>) {
    |m| <= |r| && forall i :: 0 <= i < |m| ==> r[i].0 == m[i].0
  }

  /** No key occurs twice in `ks`. */
  predicate Distinct(ks: seq<string>) {
    ks == [] || (Distinct(ks[..|ks| - 1]) && ks[|ks| - 1] !in ks[..|ks| - 1])
  }

  /** No key occurs twice: what every JavaScript object satisfies. */
  predicate Wf<V>(m: OrderedMap<V>) {
    Distinct(Keys(m))
  }

  /** The position of key `k`, if `m` has it (the first one, should there be several). */
  function Find<V>(m: OrderedMap<V>, k: string): (r: Option<nat>)
    ensures r.Some? ==> r.value < |m| && m[r.value].0 == k
    ensures r.Some? ==> forall i :: 0 <= i < r.value ==> m[i].0 != k
    ensures r.None? <==> k !in Keys(m)
  {
    if m == [] then None
    else
      match Find(m[..|m| - 1], k)
      case Some(i) => Some(i)
      case None => if m[|m| - 1].0 == k then Some(|m| - 1) else None
  }

  /** `m[k]`: the value of key `k`, or None when `m` has no such key. */
  function Get<V>(m: OrderedMap<V>, k: string): Option<V> {
    match Find(m, k)
    case Some(i) => Some(m[i].1)
    case None => None
  }

  /** The value of the LAST entry with key `k`. */
  function GetLast<V>(m: OrderedMap<V>, k: string): (r: Option<V>)
    ensures r.None? <==> k !in Keys(m)
    ensures r.Some? ==> exists i :: 0 <= i < |m| && m[i] == (k, r.value)
  {
    if m == [] then None
    else if m[|m| - 1].0 == k then Some(m[|m| - 1].1)
    else
      var r := GetLast(m[..|m| - 1], k);
      assert forall i :: 0 <= i < |m| - 1 ==> m[..|m| - 1][i] == m[i];
      r
  }

  /** `m[k] = v`: an existing key keeps its position, a new one goes last. */
  function Put<V>(m: OrderedMap<V>, k: string, v: V): (r: OrderedMap<V>)
    ensures Keys(r) == if k in Keys(m) then Keys(m) else Keys(m) + [k]
    ensures Get(r, k) == Some(v)
    ensures forall j :: j != k ==> Get(r, j) == Get(m, j)
    ensures Wf(m) ==> Wf(r)
  {
    match Find(m, k)
    case Some(i) =>
      var r := m[i := (k, v)];
      assert Keys(r) == Keys(m);
      forall j ensures Find(r, j) == Find(m, j) { FindOnlyReadsKeys(r, m, j); }
      r
    case None =>
      var r := m + [(k, v)];
      assert r[..|r| - 1] == m;
      assert Keys(r) == Keys(m) + [k];
      r
  }

  /** `Object.assign(m, src)`: the entries of `src` are put into `m` in order. */
  function Assign<V>(m: OrderedMap<V>, src: OrderedMap<V>): (r: OrderedMap<V>)
    ensures |m| <= |r| && forall i :: 0 <= i < |m| ==> r[i].0 == m[i].0
    ensures forall k :: k in Keys(r) <==> k in Keys(m) || k in Keys(src)
    ensures Wf(m) ==> Wf(r)
    decreases |src|
  {
    if src == [] then m
    else
      var init := src[..|src| - 1];
      var before := Assign(m, init);
      Put(before, src[|src| - 1].0, src[|src| - 1].1)
  }

  /** Drops the entries whose value is null, keeping the order of the others. */
  function FilterSome<V>(m: OrderedMap<Option<V>>): (r: OrderedMap<V>)
    ensures forall k :: k in Keys(r) ==> k in Keys(m)
    decreases |m|
  {
    if m == [] then []
    else
      var init := FilterSome(m[..|m| - 1]);
      var e := m[|m| - 1];
      if e.1.Some? then init + [(e.0, e.1.value)] else init
  }

  /** The entries of `m` except those whose key is in `ks`, in their order. */
  function Without<V>(m: OrderedMap<V>, ks: set<string>): (r: OrderedMap<V>)
    ensures forall j :: j in Keys(r) <==> j in Keys(m) && j !in ks
    decreases |m|
  {
    if m == [] then []
    else
      var init := Without(m[..|m| - 1], ks);
      if m[|m| - 1].0 in ks then init
      else init + [m[|m| - 1]]
  }

  /** Every value wrapped in Some: the object as a map that may hold nulls. */
  function Lift<V>(m: OrderedMap<V>): (r: OrderedMap<Option<V>>)
    ensures Keys(r) == Keys(m)
    decreases |m|
  {
    if m == [] then [] else Lift(m[..|m| - 1]) + [(m[|m| - 1].0, Some(m[|m| - 1].1))]
  }

  // ---------------------------------------------------------------------------
  // Lemmas

  /** In a well-formed object two positions hold two different keys. */
  lemma {:induction false} DistinctAt<V>(m: OrderedMap<V>, i: nat, j: nat)
    requires Wf(m) && i < j < |m|
    ensures m[i].0 != m[j].0
    decreases |m|
  {
    var init := m[..|m| - 1];
    assert Keys(init) == Keys(m)[..|m| - 1];
    if j < |m| - 1 {
      DistinctAt(init, i, j);
    } else {
      assert Keys(m)[i] in Keys(init);
    }
  }

  /** Every entry after `m[k] = v` is `(k, v)` or an entry of `m`. */
  lemma PutWithin<V>(m: OrderedMap<V>, k: string, v: V, pool: seq<(string, V)>)
    requires forall i :: 0 <= i < |m| ==> m[i] in pool
    requires (k, v) in pool
    ensures forall i :: 0 <= i < |Put(m, k, v)| ==> Put(m, k, v)[i] in pool
  {
  }

  /** Reading a key of the lifted object. */
  lemma {:induction false} GetLift<V>(m: OrderedMap<V>, k: string)
    ensures Get(Lift(m), k) == if Get(m, k).Some? then Some(Some(Get(m, k).value)) else None
    decreases |m|
  {
    if m != [] {
      var init := m[..|m| - 1];
      GetLift(init, k);
      assert m == init + [m[|m| - 1]];
      GetAppend(init, m[|m| - 1], k);
      GetAppend(Lift(init), (m[|m| - 1].0, Some(m[|m| - 1].1)), k);
    }
  }

  /** Where a key is found depends only on the sequence of keys. */
  lemma {:induction false} FindOnlyReadsKeys<V>(a: OrderedMap<V>, b: OrderedMap<V>, k: string)
    requires Keys(a) == Keys(b)
    ensures Find(a, k) == Find(b, k)
    decreases |a|
  {
    if a != [] {
      assert Keys(a[..|a| - 1]) == Keys(b[..|b| - 1]);
      FindOnlyReadsKeys(a[..|a| - 1], b[..|b| - 1], k);
      assert a[|a| - 1].0 == Keys(a)[|a| - 1];
    }
  }

  /** After `Object.assign(m, src)` a key reads as its last value in `src`, or as in `m`
      when `src` does not have it. */
  lemma {:induction false} GetAssign<V>(m: OrderedMap<V>, src: OrderedMap<V>, k: string)
    ensures Get(Assign(m, src), k) == if k in Keys(src) then GetLast(src, k) else Get(m, k)
    decreases |src|
  {
    if src != [] {
      var init := src[..|src| - 1];
      var e := src[|src| - 1];
      GetAssign(m, init, k);
      assert Assign(m, src) == Put(Assign(m, init), e.0, e.1);
      if e.0 != k {
        assert Keys(src) == Keys(init) + [e.0];
        assert GetLast(src, k) == GetLast(init, k);
      }
    }
  }

  /** Reading a key after one more entry was appended. */
  lemma GetAppend<V>(m: OrderedMap<V>, e: (string, V), k: string)
    ensures Get(m + [e], k) ==
            if Get(m, k).Some? then Get(m, k) else if e.0 == k then Some(e.1) else None
  {
    assert (m + [e])[..|m|] == m;
  }

  /** In a well-formed object the first and the last entry of a key are the same one. */
  lemma {:induction false} GetLastIsGet<V>(m: OrderedMap<V>, k: string)
    requires Wf(m)
    ensures GetLast(m, k) == Get(m, k)
    decreases |m|
  {
    if m != [] {
      var init := m[..|m| - 1];
      assert Wf(init);
      GetLastIsGet(init, k);
      assert m == init + [m[|m| - 1]];
      GetAppend(init, m[|m| - 1], k);
      if m[|m| - 1].0 == k {
        assert k !in Keys(init);
      }
    }
  }

  /** Dropping nulls commutes with concatenation. */
  lemma {:induction false} FilterSomeAppend<V>(a: OrderedMap<Option<V>>, b: OrderedMap<Option<V>>)
    ensures FilterSome(a + b) == FilterSome(a) + FilterSome(b)
    decreases |b|
  {
    if b == [] {
      assert a + b == a;
    } else {
      var b' := b[..|b| - 1];
      assert (a + b)[..|a + b| - 1] == a + b';
      FilterSomeAppend(a, b');
    }
  }

  /** Dropping the first key keeps the others distinct. */
  lemma {:induction false} DistinctTail(ks: seq<string>)
    requires Distinct(ks) && |ks| > 0
    ensures Distinct(ks[1..])
    decreases |ks|
  {
    if |ks| > 1 {
      var init := ks[..|ks| - 1];
      DistinctTail(init);
      assert ks[1..][..|ks[1..]| - 1] == init[1..];
    } else {
      assert ks[1..] == [];
    }
  }

  /** Dropping nulls, seen from the first entry. */
  lemma FilterSomeFront<V>(m: OrderedMap<Option<V>>)
    requires |m| > 0
    ensures FilterSome(m) ==
            (if m[0].1.Some? then [(m[0].0, m[0].1.value)] else []) + FilterSome(m[1..])
  {
    assert m == [m[0]] + m[1..];
    FilterSomeAppend([m[0]], m[1..]);
    assert [m[0]][..0] == [];
  }

  /** In a well-formed object the first key occurs nowhere after it. */
  lemma FirstKeyUnique<V>(m: OrderedMap<V>)
    requires Wf(m) && |m| > 0
    ensures Wf(m[1..]) && m[0].0 !in Keys(m[1..])
  {
    DistinctTail(Keys(m));
    assert Keys(m)[1..] == Keys(m[1..]);
    forall j | 0 <= j < |m| - 1 ensures Keys(m[1..])[j] != m[0].0 {
      DistinctAt(m, 0, j + 1);
    }
  }

  /** Dropping nulls from a well-formed object whose first two keys are `a` and `b`:
      `a`, if kept, comes first, and `b`, if kept, right after it. */
  lemma FilterSomeLeading<V>(m: OrderedMap<Option<V>>, a: string, b: string)
    requires Wf(m) && |m| >= 2 && m[0].0 == a && m[1].0 == b
    ensures var r := FilterSome(m);
            (a in Keys(r) ==> r[0].0 == a) &&
            (a in Keys(r) && b in Keys(r) ==> |r| >= 2 && r[1].0 == b) &&
            (a !in Keys(r) && b in Keys(r) ==> r[0].0 == b)
  {
    var tail := m[1..];
    assert tail[0] == m[1];
    FilterSomeFirst(m);
    FirstKeyUnique(m);
    FilterSomeFirst(tail);
    assert b != a by {
      assert b == Keys(tail)[0];
    }
    var r := FilterSome(m);
    if a in Keys(r) && b in Keys(r) {
      assert r[1..] == FilterSome(tail);
      assert r[1] == r[1..][0];
    }
  }

  /** The first key of a well-formed object survives the dropping of nulls exactly when
      its value is not null, and then it stays first; the other keys survive as they do
      without it. */
  lemma FilterSomeFirst<V>(m: OrderedMap<Option<V>>)
    requires Wf(m) && |m| > 0
    ensures m[0].0 in Keys(FilterSome(m)) <==> m[0].1.Some?
    ensures m[0].1.Some? ==>
              |FilterSome(m)| > 0 && FilterSome(m)[0] == (m[0].0, m[0].1.value) && FilterSome(m)[1..] == FilterSome(m[1..])
    ensures m[0].1.None? ==> FilterSome(m) == FilterSome(m[1..])
    ensures forall k :: k != m[0].0 ==> (k in Keys(FilterSome(m)) <==> k in Keys(FilterSome(m[1..])))
  {
    FirstKeyUnique(m);
    FilterSomeFront(m);
    if m[0].1.Some? {
      KeysCons((m[0].0, m[0].1.value), FilterSome(m[1..]));
      assert ([(m[0].0, m[0].1.value)] + FilterSome(m[1..]))[1..] == FilterSome(m[1..]);
    }
  }

  /** The keys of an object with one more entry in front. */
  lemma KeysCons<V>(e: (string, V), m: OrderedMap<V>)
    ensures Keys([e] + m) == [e.0] + Keys(m)
  {
  }

  /** After dropping nulls from a well-formed object, a key reads as its non-null value
      or not at all. */
  lemma {:induction false} GetFilterSome<V>(m: OrderedMap<Option<V>>, k: string)
    requires Wf(m)
    ensures Get(FilterSome(m), k) ==
            if Get(m, k).Some? && Get(m, k).value.Some? then Some(Get(m, k).value.value) else None
    decreases |m|
  {
    if m != [] {
      var init := m[..|m| - 1];
      var e := m[|m| - 1];
      assert Keys(init) == Keys(m)[..|m| - 1];
      GetFilterSome(init, k);
      assert m == init + [e];
      GetAppend(init, e, k);
      var f := FilterSome(init);
      if e.0 == k {
        assert k == Keys(m)[|m| - 1];
        assert k !in Keys(f);
      }
      if e.1.Some? {
        assert FilterSome(m) == f + [(e.0, e.1.value)];
        GetAppend(f, (e.0, e.1.value), k);
      } else {
        assert FilterSome(m) == f;
      }
    }
  }

  /** A new key put into an object goes last and, when its value is not null, stays last
      once the nulls are dropped. */
  lemma FilterSomePutNew<V>(m: OrderedMap<Option<V>>, k: string, x: V)
    requires k !in Keys(m)
    ensures var r := FilterSome(Put(m, k, Some(x)));
            |r| > 0 && r[|r| - 1] == (k, x)
  {
    var p := Put(m, k, Some(x));
    assert p == m + [(k, Some(x))];
    assert p[..|p| - 1] == m;
  }

  /** Dropping nulls after `m[k0] = x`: key `k0` reads as `x` unless it is null, every
      other key as it did. */
  lemma GetFilterSomePut<V>(m: OrderedMap<Option<V>>, k0: string, x: Option<V>, k: string)
    requires Wf(m)
    ensures Get(FilterSome(Put(m, k0, x)), k) ==
            if k == k0 then (if x.Some? then Some(x.value) else None) else Get(FilterSome(m), k)
  {
    GetFilterSome(Put(m, k0, x), k);
    GetFilterSome(m, k);
  }

  /** Object.assign of a null-free object onto one that holds only nulls: once the nulls
      are dropped, every key reads as in the null-free object. */
  lemma GetFilterSomeOverNulls<V>(seed: OrderedMap<Option<V>>, m: OrderedMap<V>, k: string)
    requires Wf(seed) && Wf(m)
    requires forall i :: 0 <= i < |seed| ==> seed[i].1.None?
    ensures Get(FilterSome(Assign(seed, Lift(m))), k) == Get(m, k)
  {
    GetFilterSome(Assign(seed, Lift(m)), k);
    GetAssignLift(seed, m, k);
    if Get(m, k).None? && Find(seed, k).Some? {
      assert seed[Find(seed, k).value].1.None?;
    }
  }

  /** Object.assign of a lifted object: its keys read as their values, the others as
      before. */
  lemma GetAssignLift<V>(seed: OrderedMap<Option<V>>, m: OrderedMap<V>, k: string)
    requires Wf(m)
    ensures Get(Assign(seed, Lift(m)), k) ==
            if Get(m, k).Some? then Some(Some(Get(m, k).value)) else Get(seed, k)
  {
    GetAssign(seed, Lift(m), k);
    GetLift(m, k);
    if k in Keys(Lift(m)) {
      GetLastIsGet(Lift(m), k);
    }
  }

  /** The rest of a destructuring reads like the object on every key not taken out. */
  lemma {:induction false} GetWithout<V>(m: OrderedMap<V>, ks: set<string>, j: string)
    ensures Get(Without(m, ks), j) == if j in ks then None else Get(m, j)
    decreases |m|
  {
    if m != [] {
      var init := m[..|m| - 1];
      var e := m[|m| - 1];
      GetWithout(init, ks, j);
      assert m == init + [e];
      GetAppend(init, e, j);
      if e.0 !in ks {
        GetAppend(Without(init, ks), e, j);
      }
    }
  }

  /** Removing keys commutes with concatenation, so the entries kept stay in order. */
  lemma {:induction false} WithoutAppend<V>(a: OrderedMap<V>, b: OrderedMap<V>, ks: set<string>)
    ensures Without(a + b, ks) == Without(a, ks) + Without(b, ks)
    decreases |b|
  {
    if b == [] {
      assert a + b == a;
    } else {
      var b' := b[..|b| - 1];
      assert (a + b)[..|a + b| - 1] == a + b';
      WithoutAppend(a, b', ks);
    }
  }

  /** The rest pattern looks at the first entry, then at the others. */
  lemma WithoutFront<V>(m: OrderedMap<V>, ks: set<string>)
    requires |m| > 0
    ensures Without(m, ks) == (if m[0].0 in ks then [] else [m[0]]) + Without(m[1..], ks)
  {
    assert m == [m[0]] + m[1..];
    WithoutAppend([m[0]], m[1..], ks);
    assert [m[0]][..0] == [];
  }

  /** Dropping nulls from a well-formed object leaves a well-formed object. */
  lemma {:induction false} FilterSomeWf<V>(m: OrderedMap<Option<V>>)
    requires Wf(m)
    ensures Wf(FilterSome(m))
    decreases |m|
  {
    if m != [] {
      var init := m[..|m| - 1];
      assert Keys(init) == Keys(m)[..|m| - 1];
      FilterSomeWf(init);
      var e := m[|m| - 1];
      if e.1.Some? {
        var f := FilterSome(init);
        var x := (e.0, e.1.value);
        assert e.0 !in Keys(f);
        assert Keys(f + [x]) == Keys(f) + [e.0];
        assert (Keys(f) + [e.0])[..|f|] == Keys(f);
      }
    }
  }

  /** Removing keys from a well-formed object leaves a well-formed object. */
  lemma {:induction false} WithoutWf<V>(m: OrderedMap<V>, ks: set<string>)
    requires Wf(m)
    ensures Wf(Without(m, ks))
    decreases |m|
  {
    if m != [] {
      var init := m[..|m| - 1];
      assert Keys(init) == Keys(m)[..|m| - 1];
      WithoutWf(init, ks);
      var e := m[|m| - 1];
      if e.0 !in ks {
        var w := Without(init, ks);
        assert e.0 !in Keys(w);
        assert Keys(w + [e]) == Keys(w) + [e.0];
        assert (Keys(w) + [e.0])[..|w|] == Keys(w);
      }
    }
  }

  /** Assigning a key twice is assigning it the second value: the position stays the one
      the first assignment gave it. */
  lemma PutPut<V>(m: OrderedMap<V>, k: string, a: V, b: V)
    ensures Put(Put(m, k, a), k, b) == Put(m, k, b)
  {
    match Find(m, k)
    case Some(i) =>
      FindOnlyReadsKeys(m[i := (k, a)], m, k);
      assert m[i := (k, a)][i := (k, b)] == m[i := (k, b)];
    case None =>
      var p := m + [(k, a)];
      assert p[..|p| - 1] == m;
      assert p[|m| := (k, b)] == m + [(k, b)];
  }

  /** Assigning a key leaves the keys already there where they were. */
  lemma PutKeepsPositions<V>(m: OrderedMap<V>, k: string, v: V)
    ensures |m| <= |Put(m, k, v)| && forall i :: 0 <= i < |m| ==> Put(m, k, v)[i].0 == m[i].0
  {
    var r := Put(m, k, v);
    assert forall i :: 0 <= i < |m| ==> Keys(r)[i] == Keys(m)[i];
  }

  /** Every read of the rest of a destructuring at once. */
  lemma GetWithoutAll<V>(m: OrderedMap<V>, ks: set<string>)
    ensures forall j :: Get(Without(m, ks), j) == if j in ks then None else Get(m, j)
  {
    forall j ensures Get(Without(m, ks), j) == if j in ks then None else Get(m, j) {
      GetWithout(m, ks, j);
    }
  }

  /** In a well-formed object every entry is what its key reads. */
  lemma GetAt<V>(m: OrderedMap<V>, i: nat)
    requires Wf(m) && i < |m|
    ensures Get(m, m[i].0) == Some(m[i].1)
  {
    assert Keys(m)[i] == m[i].0;
    var j := Find(m, m[i].0).value;
    if j < i {
      DistinctAt(m, j, i);
    }
  }

  /** One more entry adds its key at the end. */
  lemma KeysSnoc<V>(m: OrderedMap<V>, e: (string, V))
    ensures Keys(m + [e]) == Keys(m) + [e.0]
  {
  }

  /** Removing keys looks at the keys alone: objects with the same keys, in the same
      order, keep the same keys in the same order. */
  lemma {:induction false} WithoutKeys<V, U>(a: OrderedMap<V>, b: OrderedMap<U>, ks: set<string>)
    requires Keys(a) == Keys(b)
    ensures Keys(Without(a, ks)) == Keys(Without(b, ks))
    decreases |a|
  {
    if a != [] {
      var ia, ib := a[..|a| - 1], b[..|b| - 1];
      assert Keys(ia) == Keys(a)[..|a| - 1] == Keys(b)[..|b| - 1] == Keys(ib);
      WithoutKeys(ia, ib, ks);
      assert a[|a| - 1].0 == Keys(a)[|a| - 1] == Keys(b)[|b| - 1] == b[|b| - 1].0;
      if a[|a| - 1].0 !in ks {
        KeysSnoc(Without(ia, ks), a[|a| - 1]);
        KeysSnoc(Without(ib, ks), b[|b| - 1]);
      }
    }
  }

  /** The keys kept after `m[k] = x`: those kept of `m`, and `k` at the end when it is
      new and not removed. */
  lemma WithoutPutKeys<V>(m: OrderedMap<V>, k: string, x: V, ks: set<string>)
    ensures Keys(Without(Put(m, k, x), ks)) ==
            if k in ks || k in Keys(m) then Keys(Without(m, ks)) else Keys(Without(m, ks)) + [k]
  {
    if k in Keys(m) {
      WithoutKeys(Put(m, k, x), m, ks);
    } else {
      KeysSnoc(m, (k, x));
      WithoutKeys(Put(m, k, x), m + [(k, x)], ks);
      assert (m + [(k, x)])[..|m|] == m;
      if k !in ks {
        KeysSnoc(Without(m, ks), (k, x));
      }
    }
  }

  /** Object.assign onto an object whose keys are all removed afterwards keeps the same
      keys, in the same order, as the assignment onto `{}`. */
  lemma {:induction false} WithoutAssignKeys<V>(seed: OrderedMap<V>, src: OrderedMap<V>, ks: set<string>)
    requires forall k :: k in Keys(seed) ==> k in ks
    ensures Keys(Without(Assign(seed, src), ks)) == Keys(Without(Assign([], src), ks))
    decreases |src|
  {
    if src == [] {
      var w := Without(seed, ks);
      if |w| > 0 {
        assert Keys(w)[0] in Keys(w);
      }
    } else {
      var init, e := src[..|src| - 1], src[|src| - 1];
      WithoutAssignKeys(seed, init, ks);
      WithoutPutKeys(Assign(seed, init), e.0, e.1, ks);
      WithoutPutKeys(Assign([], init), e.0, e.1, ks);
    }
  }

  /** Object.assign of a well-formed object onto `{}` has its keys, in its order. */
  lemma {:induction false} AssignOntoEmptyKeys<V>(src: OrderedMap<V>)
    requires Wf(src)
    ensures Keys(Assign([], src)) == Keys(src)
    decreases |src|
  {
    if src != [] {
      var init, e := src[..|src| - 1], src[|src| - 1];
      assert Keys(init) == Keys(src)[..|src| - 1];
      AssignOntoEmptyKeys(init);
      assert e.0 == Keys(src)[|src| - 1];
      assert Keys(src) == Keys(init) + [e.0];
    }
  }

  /** When every null sits under a removed key, dropping the nulls first keeps the same
      keys, in the same order. */
  lemma {:induction false} WithoutFilterSomeKeys<V>(m: OrderedMap<Option<V>>, ks: set<string>)
    requires forall i :: 0 <= i < |m| && m[i].1.None? ==> m[i].0 in ks
    ensures Keys(Without(FilterSome(m), ks)) == Keys(Without(m, ks))
    decreases |m|
  {
    if m != [] {
      var init, e := m[..|m| - 1], m[|m| - 1];
      WithoutFilterSomeKeys(init, ks);
      var f := FilterSome(init);
      if e.1.Some? {
        var x := (e.0, e.1.value);
        assert (f + [x])[..|f|] == f;
        if e.0 !in ks {
          KeysSnoc(Without(f, ks), x);
          KeysSnoc(Without(init, ks), e);
        }
      }
    }
  }

  /** Object.assign of a lifted object onto seeds, then one more slot set: a null can only
      sit under a seed or under that slot. */
  lemma NullSlotSeeded<V>(seed: OrderedMap<Option<V>>, m: OrderedMap<V>, k0: string, x: Option<V>,
                          ks: set<string>, i: nat)
    requires Wf(seed) && Wf(m) && k0 in ks && forall k :: k in Keys(seed) ==> k in ks
    requires i < |Put(Assign(seed, Lift(m)), k0, x)| && Put(Assign(seed, Lift(m)), k0, x)[i].1.None?
    ensures Put(Assign(seed, Lift(m)), k0, x)[i].0 in ks
  {
    var slots := Put(Assign(seed, Lift(m)), k0, x);
    var k := slots[i].0;
    GetAt(slots, i);
    if k != k0 {
      GetAssignLift(seed, m, k);
      assert Find(seed, k).Some?;
    }
  }

  /** Seeds and a last slot that are all removed afterwards leave, once the nulls are
      dropped, the keys of the assigned object in its own order. */
  lemma WithoutSeededKeys<V>(seed: OrderedMap<Option<V>>, m: OrderedMap<V>, k0: string, x: Option<V>,
                             ks: set<string>)
    requires Wf(seed) && Wf(m) && k0 in ks && forall k :: k in Keys(seed) ==> k in ks
    ensures Keys(Without(FilterSome(Put(Assign(seed, Lift(m)), k0, x)), ks)) == Keys(Without(m, ks))
  {
    var merged := Assign(seed, Lift(m));
    var slots := Put(merged, k0, x);
    forall i | 0 <= i < |slots| && slots[i].1.None? ensures slots[i].0 in ks {
      NullSlotSeeded(seed, m, k0, x, ks, i);
    }
    WithoutFilterSomeKeys(slots, ks);
    WithoutPutKeys(merged, k0, x, ks);
    WithoutAssignKeys(seed, Lift(m), ks);
    AssignOntoEmptyKeys(Lift(m));
    WithoutKeys(Assign([], Lift(m)), m, ks);
  }

  /** Removing keys that are not there changes nothing: a rest destructuring whose
      named keys the object lacks gives back a copy of the whole object. */
  lemma {:induction false} WithoutAbsent<V>(m: OrderedMap<V>, ks: set<string>)
    requires forall k :: k in ks ==> k !in Keys(m)
    ensures Without(m, ks) == m
    decreases |m|
  {
    if m != [] {
      WithoutAbsent(m[..|m| - 1], ks);
      assert m == m[..|m| - 1] + [m[|m| - 1]];
    }
  }
}
