/**
 * The JavaScript string built-ins the modelled code relies on, written over
 * `seq<char>`: startsWith, endsWith, includes, indexOf, the first-occurrence
 * `replace` with a string pattern, `replaceAll`, `split` on one character,
 * ASCII `toUpperCase` and the decimal rendering of numbers.
 */
module JsStrings {
  import opened Wrappers

  /** `s.startsWith(prefix)`. */
  predicate StartsWith(s: string, prefix: string) {
    |prefix| <= |s| && s[..|prefix|] == prefix
  }

  /** `s.endsWith(suffix)`. */
  predicate EndsWith(s: string, suffix: string) {
    |suffix| <= |s| && s[|s| - |suffix|..] == suffix
  }

  /** `s.indexOf(p)`: the first position at which `p` occurs in `s`. */
  function IndexOf(s: string, p: string): (r: Option<nat>)
    ensures r.Some? ==> r.value + |p| <= |s| && s[r.value..r.value + |p|] == p
    ensures r.Some? ==> forall j :: 0 <= j < r.value ==> !StartsWith(s[j..], p)
    ensures r.None? ==> forall j :: 0 <= j <= |s| ==> !StartsWith(s[j..], p)
    decreases |s|
  {
    if StartsWith(s, p) then Some(0)
    else if s == [] then None
    else
      match IndexOf(s[1..], p)
      case None =>
        assert forall j :: 1 <= j <= |s| ==> s[j..] == s[1..][j - 1..];
        None
      case Some(i) =>
        assert forall j :: 1 <= j <= |s| ==> s[j..] == s[1..][j - 1..];
        Some(i + 1)
  }

  /** `s.includes(p)`. */
  predicate Includes(s: string, p: string)
    ensures Includes(s, p) <==> exists j :: 0 <= j <= |s| && StartsWith(s[j..], p)
  {
    match IndexOf(s, p)
    case None => false
    case Some(i) => assert s[i..][..|p|] == s[i..i + |p|]; true
  }

  /** `s.replace(pat, rep)` with a string pattern: only the first occurrence is replaced. */
  function ReplaceFirst(s: string, pat: string, rep: string): (r: string)
    ensures !Includes(s, pat) ==> r == s
    ensures Includes(s, pat) ==> |r| + |pat| == |s| + |rep|
  {
    match IndexOf(s, pat)
    case None => s
    case Some(i) => s[..i] + rep + s[i + |pat|..]
  }

  /** `s.replaceAll(pat, rep)` with a non-empty string pattern: a left-to-right scan
      that replaces every non-overlapping occurrence. */
  function ReplaceAll(s: string, pat: string, rep: string): (r: string)
    requires |pat| > 0
    ensures |rep| == |pat| ==> |r| == |s|
    ensures |rep| > |pat| ==> |r| >= |s|
    decreases |s|
  {
    if |s| < |pat| then s
    else if s[..|pat|] == pat then rep + ReplaceAll(s[|pat|..], pat, rep)
    else [s[0]] + ReplaceAll(s[1..], pat, rep)
  }

  /** `s.split(sep)` for a one-character separator. */
  function Split(s: string, sep: char): (parts: seq<string>)
    ensures |parts| >= 1
    ensures forall i :: 0 <= i < |parts| ==> sep !in parts[i]
    decreases |s|
  {
    if s == [] then [""]
    else
      var rest := Split(s[1..], sep);
      if s[0] == sep then [""] + rest
      else [[s[0]] + rest[0]] + rest[1..]
  }

  /** `parts.join(sep)`. */
  function Join(parts: seq<string>, sep: char): (r: string)
    requires |parts| >= 1
  {
    if |parts| == 1 then parts[0] else parts[0] + [sep] + Join(parts[1..], sep)
  }

  /** `c.toUpperCase()` for ASCII letters; every other character is left alone. */
  function ToUpper(c: char): (r: char)
    ensures 'a' <= c <= 'z' ==> 'A' <= r <= 'Z' && r as int + 32 == c as int
    ensures !('a' <= c <= 'z') ==> r == c
  {
    if 'a' <= c <= 'z' then (c as int - 32) as char else c
  }

  /** `s.charAt(0).toUpperCase() + s.slice(1)`. */
  function Capitalize(s: string): (r: string)
    ensures |r| == |s|
    ensures |s| > 0 ==> r[0] == ToUpper(s[0]) && r[1..] == s[1..]
  {
    if s == [] then "" else [ToUpper(s[0])] + s[1..]
  }

  /** The characters a regular-expression `.` does not match. */
  predicate IsLineTerminator(c: char) {
    c == '\n' || c == '\r' || c == '\U{2028}' || c == '\U{2029}'
  }

  predicate IsDigit(c: char) {
    '0' <= c <= '9'
  }

  predicate AllDigits(s: string) {
    forall i :: 0 <= i < |s| ==> IsDigit(s[i])
  }

  /** The decimal rendering `String(n)` of a natural number. */
  function NatToString(n: nat): (r: string)
    ensures |r| >= 1 && AllDigits(r)
    ensures |r| > 1 ==> r[0] != '0'
  {
    if n < 10 then [('0' as int + n) as char]
    else NatToString(n / 10) + [('0' as int + n % 10) as char]
  }

  /** The decimal rendering `String(n)` of an integer. */
  function IntToString(n: int): (r: string)
    ensures |r| >= 1
    ensures forall i :: 0 <= i < |r| ==> IsDigit(r[i]) || r[i] == '-'
  {
    if n < 0 then "-" + NatToString(-n) else NatToString(n)
  }

  /** The value of a string of decimal digits (the empty string has value 0). */
  function DigitsValue(s: string): nat
    requires AllDigits(s)
  {
    if s == [] then 0 else DigitsValue(s[..|s| - 1]) * 10 + (s[|s| - 1] as int - '0' as int)
  }

  // ---------------------------------------------------------------------------
  // Lemmas

  lemma {:induction false} DigitsValueOfNatToString(n: nat)
    ensures DigitsValue(NatToString(n)) == n
  {
    if n >= 10 {
      var r := NatToString(n);
      assert r[..|r| - 1] == NatToString(n / 10);
      DigitsValueOfNatToString(n / 10);
    }
  }

  /** `startsWith` holds exactly when the string is the prefix followed by something. */
  lemma StartsWithIsPrefix(s: string, prefix: string)
    ensures StartsWith(s, prefix) <==> exists t :: s == prefix + t
  {
    if StartsWith(s, prefix) {
      assert s == prefix + s[|prefix|..];
    }
  }

  /** `endsWith` holds exactly when the string is something followed by the suffix. */
  lemma EndsWithIsSuffix(s: string, suffix: string)
    ensures EndsWith(s, suffix) <==> exists t :: s == t + suffix
  {
    if EndsWith(s, suffix) {
      assert s == s[..|s| - |suffix|] + suffix;
    }
  }

  lemma IncludesUnfold(s: string, p: string)
    ensures Includes(s, p) <==> StartsWith(s, p) || (|s| > 0 && Includes(s[1..], p))
  {
  }

  lemma {:induction false} IncludesNeedsLength(s: string, p: string)
    requires Includes(s, p)
    ensures |p| <= |s|
  {
  }

  /** An occurrence in `a + b` that cannot start inside `a` lies in `b`. */
  lemma {:induction false} IncludesSkipsPrefix(a: string, b: string, q: string)
    requires |q| > 0 && q[0] !in a
    requires Includes(a + b, q)
    ensures Includes(b, q)
    decreases |a|
  {
    if a != [] {
      IncludesUnfold(a + b, q);
      assert !StartsWith(a + b, q) by { assert (a + b)[0] == a[0]; }
      assert (a + b)[1..] == a[1..] + b;
      IncludesSkipsPrefix(a[1..], b, q);
    } else {
      assert a + b == b;
    }
  }

  lemma {:induction false} NotIncludesSuffix(s: string, q: string, j: nat)
    requires j <= |s| && !Includes(s, q)
    ensures !Includes(s[j..], q)
    decreases j
  {
    if j > 0 {
      IncludesUnfold(s, q);
      assert s[1..][j - 1..] == s[j..];
      NotIncludesSuffix(s[1..], q, j - 1);
    }
  }

  /** A non-empty replacement that shares no character with `w` cannot create a
      prefix `w`: whatever `replaceAll` output starts with `w`, so did its input. */
  lemma {:induction false} ReplaceAllPreservesNoStart(t: string, pat: string, rep: string, w: string)
    requires |pat| > 0 && |rep| > 0
    requires forall c :: c in w ==> c !in rep
    ensures StartsWith(ReplaceAll(t, pat, rep), w) ==> StartsWith(t, w)
    decreases |t|
  {
    var r := ReplaceAll(t, pat, rep);
    if w == [] || |t| < |pat| {
    } else if t[..|pat|] == pat {
      assert r[0] == rep[0] && rep[0] in rep;
      assert w[0] in w;
      assert !StartsWith(r, w);
    } else {
      var tail := ReplaceAll(t[1..], pat, rep);
      assert r == [t[0]] + tail;
      ReplaceAllPreservesNoStart(t[1..], pat, rep, w[1..]);
      if StartsWith(r, w) {
        assert StartsWith(tail, w[1..]) by {
          assert tail[..|w| - 1] == r[1..|w|];
          assert r[1..|w|] == w[1..];
        }
        assert t[..|w|] == [t[0]] + t[1..][..|w| - 1];
      }
    }
  }

  /** After `replaceAll` with a non-empty replacement that shares no character with
      the pattern, no occurrence of the pattern is left. */
  lemma {:induction false} ReplaceAllRemovesPattern(s: string, pat: string, rep: string)
    requires |pat| > 0 && |rep| > 0
    requires forall c :: c in rep ==> c !in pat
    ensures !Includes(ReplaceAll(s, pat, rep), pat)
    decreases |s|
  {
    var r := ReplaceAll(s, pat, rep);
    if |s| < |pat| {
      if Includes(r, pat) { IncludesNeedsLength(r, pat); }
    } else if s[..|pat|] == pat {
      ReplaceAllRemovesPattern(s[|pat|..], pat, rep);
      if Includes(r, pat) {
        assert pat[0] in pat;
        IncludesSkipsPrefix(rep, ReplaceAll(s[|pat|..], pat, rep), pat);
      }
    } else {
      var tail := ReplaceAll(s[1..], pat, rep);
      ReplaceAllRemovesPattern(s[1..], pat, rep);
      assert r == [s[0]] + tail;
      IncludesUnfold(r, pat);
      assert r[1..] == tail;
      if StartsWith(r, pat) {
        assert StartsWith(tail, pat[1..]) by {
          assert tail[..|pat| - 1] == r[1..|pat|];
        }
        ReplaceAllPreservesNoStart(s[1..], pat, rep, pat[1..]);
      }
    }
  }

  /** `replaceAll` of one pattern does not create an occurrence of another one when
      the replacement is non-empty and shares no character with it. */
  lemma {:induction false} ReplaceAllKeepsAbsent(s: string, pat: string, rep: string, q: string)
    requires |pat| > 0 && |rep| > 0 && |q| > 0
    requires forall c :: c in rep ==> c !in q
    requires !Includes(s, q)
    ensures !Includes(ReplaceAll(s, pat, rep), q)
    decreases |s|
  {
    var r := ReplaceAll(s, pat, rep);
    if |s| < |pat| {
    } else if s[..|pat|] == pat {
      NotIncludesSuffix(s, q, |pat|);
      ReplaceAllKeepsAbsent(s[|pat|..], pat, rep, q);
      if Includes(r, q) {
        assert q[0] in q;
        IncludesSkipsPrefix(rep, ReplaceAll(s[|pat|..], pat, rep), q);
      }
    } else {
      var tail := ReplaceAll(s[1..], pat, rep);
      NotIncludesSuffix(s, q, 1);
      ReplaceAllKeepsAbsent(s[1..], pat, rep, q);
      assert r == [s[0]] + tail;
      IncludesUnfold(r, q);
      IncludesUnfold(s, q);
      assert r[1..] == tail;
      if StartsWith(r, q) {
        assert StartsWith(tail, q[1..]) by {
          assert tail[..|q| - 1] == r[1..|q|];
        }
        assert forall c :: c in q[1..] ==> c in q;
        ReplaceAllPreservesNoStart(s[1..], pat, rep, q[1..]);
      }
    }
  }

  /** Text without the pattern is left unchanged by `replaceAll`. */
  lemma {:induction false} ReplaceAllWithoutPattern(s: string, pat: string, rep: string)
    requires |pat| > 0 && !Includes(s, pat)
    ensures ReplaceAll(s, pat, rep) == s
    decreases |s|
  {
    if |s| >= |pat| {
      IncludesUnfold(s, pat);
      ReplaceAllWithoutPattern(s[1..], pat, rep);
      assert s == [s[0]] + s[1..];
    }
  }

  /** A prefix in which no occurrence of the pattern starts passes through `replaceAll`
      unchanged. */
  lemma {:induction false} ReplaceAllSkips(x: string, s: string, pat: string, rep: string)
    requires |pat| > 0
    requires forall j :: 0 <= j < |x| ==> !StartsWith((x + s)[j..], pat)
    ensures ReplaceAll(x + s, pat, rep) == x + ReplaceAll(s, pat, rep)
    decreases |x|
  {
    if x != [] {
      var t := x + s;
      assert !StartsWith(t[0..], pat);
      assert t[0..] == t;
      assert t[1..] == x[1..] + s;
      forall j | 0 <= j < |x[1..]| ensures !StartsWith((x[1..] + s)[j..], pat) {
        assert (x[1..] + s)[j..] == t[j + 1..];
      }
      if |t| < |pat| {
        assert ReplaceAll(t, pat, rep) == t;
        assert ReplaceAll(s, pat, rep) == s;
      } else {
        ReplaceAllSkips(x[1..], s, pat, rep);
        var r := ReplaceAll(s, pat, rep);
        assert ReplaceAll(t, pat, rep) == [t[0]] + (x[1..] + r);
        assert [t[0]] + (x[1..] + r) == ([x[0]] + x[1..]) + r;
        assert [x[0]] + x[1..] == x;
      }
    } else {
      assert x + s == s;
      assert x + ReplaceAll(s, pat, rep) == ReplaceAll(s, pat, rep);
    }
  }

  /** A prefix without the pattern's first character passes through `replaceAll`. */
  lemma ReplaceAllSkipsPlain(a: string, s: string, pat: string, rep: string)
    requires |pat| > 0 && pat[0] !in a
    ensures ReplaceAll(a + s, pat, rep) == a + ReplaceAll(s, pat, rep)
  {
    forall j | 0 <= j < |a| ensures !StartsWith((a + s)[j..], pat) {
      assert (a + s)[j..][0] == a[j];
    }
    ReplaceAllSkips(a, s, pat, rep);
  }

  /** `replaceAll` writes the replacement exactly where an occurrence stands, when
      nothing before it can start one. */
  lemma ReplaceAllAt(a: string, pat: string, b: string, rep: string)
    requires |pat| > 0 && pat[0] !in a
    ensures ReplaceAll(a + pat + b, pat, rep) == a + rep + ReplaceAll(b, pat, rep)
  {
    ReplaceAllSkipsPlain(a, pat + b, pat, rep);
    assert a + pat + b == a + (pat + b);
    assert (pat + b)[..|pat|] == pat && (pat + b)[|pat|..] == b;
  }

  /** When `s` starts with the pattern, `replace` rewrites exactly that prefix. */
  lemma ReplaceFirstAtStart(s: string, pat: string, rep: string)
    requires StartsWith(s, pat)
    ensures ReplaceFirst(s, pat, rep) == rep + s[|pat|..]
  {
  }

  /** When the first occurrence of the pattern is at `i`, `replace` rewrites it there. */
  lemma ReplaceFirstAt(s: string, pat: string, rep: string, i: nat)
    requires i + |pat| <= |s| && s[i..i + |pat|] == pat
    requires forall j :: 0 <= j < i ==> !StartsWith(s[j..], pat)
    ensures ReplaceFirst(s, pat, rep) == s[..i] + rep + s[i + |pat|..]
  {
    assert s[i..][..|pat|] == pat;
    assert StartsWith(s[i..], pat);
    var r := IndexOf(s, pat);
    assert r.Some?;
    assert s[r.value..][..|pat|] == s[r.value..r.value + |pat|];
    assert StartsWith(s[r.value..], pat);
    assert r.value == i;
  }

  /** A pattern whose first character does not occur before it is replaced where it
      stands. */
  lemma ReplaceFirstAfter(a: string, pat: string, b: string, rep: string)
    requires |pat| > 0 && pat[0] !in a
    ensures ReplaceFirst(a + pat + b, pat, rep) == a + rep + b
  {
    var s := a + pat + b;
    assert s[|a|..|a| + |pat|] == pat;
    forall j | 0 <= j < |a| ensures !StartsWith(s[j..], pat) {
      assert s[j..][0] == a[j];
    }
    ReplaceFirstAt(s, pat, rep, |a|);
    assert s[..|a|] == a && s[|a| + |pat|..] == b;
  }

  /** `split` then `join` gives the original string back. */
  lemma {:induction false} JoinSplit(s: string, sep: char)
    ensures Join(Split(s, sep), sep) == s
    decreases |s|
  {
    if s != [] {
      var rest := Split(s[1..], sep);
      JoinSplit(s[1..], sep);
      if s[0] != sep {
        var parts := Split(s, sep);
        assert parts[1..] == rest[1..];
        if |rest| > 1 {
          assert Join(rest, sep) == rest[0] + [sep] + Join(rest[1..], sep);
        }
      }
    }
  }

  lemma {:induction false} SplitPrefix(a: string, t: string, sep: char)
    requires sep !in a
    ensures Split(a + t, sep) == [a + Split(t, sep)[0]] + Split(t, sep)[1..]
    decreases |a|
  {
    if a != [] {
      var parts := Split(t, sep);
      assert (a + t)[1..] == a[1..] + t;
      SplitPrefix(a[1..], t, sep);
      var rest := Split(a[1..] + t, sep);
      assert (a + t)[0] == a[0] && a[0] != sep;
      assert Split(a + t, sep) == [[a[0]] + rest[0]] + rest[1..];
      assert rest[0] == a[1..] + parts[0] && rest[1..] == parts[1..];
      assert [a[0]] + (a[1..] + parts[0]) == a + parts[0];
    } else {
      var parts := Split(t, sep);
      assert a + t == t;
      assert a + parts[0] == parts[0];
      assert parts == [parts[0]] + parts[1..];
    }
  }

  /** The last piece of a split is what follows the last separator. */
  lemma {:induction false} SplitLast(a: string, b: string, sep: char)
    requires sep !in b
    ensures var parts := Split(a + [sep] + b, sep);
            |parts| >= 2 && parts[|parts| - 1] == b
    decreases |a|
  {
    var s := a + [sep] + b;
    if a == [] {
      assert s == [sep] + b && s[1..] == b;
      SplitPrefix(b, "", sep);
      assert b + "" == b;
    } else {
      assert s[1..] == a[1..] + [sep] + b;
      SplitLast(a[1..], b, sep);
    }
  }

  /** `join` then `split` gives the original pieces back when no piece holds the separator. */
  lemma {:induction false} SplitJoin(parts: seq<string>, sep: char)
    requires |parts| >= 1
    requires forall i :: 0 <= i < |parts| ==> sep !in parts[i]
    ensures Split(Join(parts, sep), sep) == parts
    decreases |parts|
  {
    if |parts| == 1 {
      SplitPrefix(parts[0], "", sep);
      assert parts[0] + "" == parts[0];
    } else {
      var rest := Join(parts[1..], sep);
      SplitJoin(parts[1..], sep);
      assert ([sep] + rest)[1..] == rest;
      assert Split([sep] + rest, sep) == [""] + parts[1..];
      assert parts[0] + [sep] + rest == parts[0] + ([sep] + rest);
      SplitPrefix(parts[0], [sep] + rest, sep);
      assert parts[0] + "" == parts[0];
    }
  }
}
