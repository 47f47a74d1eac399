/**
  The Python string and list builtins the draft parser and the contact scan
  rely on, as pure functions over `seq<char>`: `str.split` with a one-character
  separator, `str.join`, `str.strip()`, `str.startswith`, `str.replace(pat, '')`,
  the `in` operator on strings and `list.index`.
 */
module PyText {

  /** `c.isspace()` in Python 3: the 29 code points Python treats as whitespace. */
  predicate IsSpace(c: char) {
    || c == ' '
    || '\t' <= c <= '\r'
    || '\U{1C}' <= c <= '\U{1F}'
    || c == '\U{85}' || c == '\U{A0}' || c == '\U{1680}'
    || '\U{2000}' <= c <= '\U{200A}'
    || c == '\U{2028}' || c == '\U{2029}' || c == '\U{202F}'
    || c == '\U{205F}' || c == '\U{3000}'
  }

  ghost predicate AllSpace(s: string) {
    forall k :: 0 <= k < |s| ==> IsSpace(s[k])
  }

  /** Neither end of `s` is whitespace. */
  ghost predicate Trimmed(s: string) {
    s == [] || (!IsSpace(s[0]) && !IsSpace(s[|s| - 1]))
  }

  /** `s.startswith(prefix)`. */
  predicate StartsWith(s: string, prefix: string) {
    prefix <= s
  }

  /** A string starts with whatever it is built from. */
  lemma StartsWithAppend(prefix: string, rest: string)
    ensures StartsWith(prefix + rest, prefix)
  {
    assert (prefix + rest)[..|prefix|] == prefix;
  }

  /** `sub in s`: `sub` occurs somewhere in `s` (the empty string occurs everywhere). */
  predicate Contains(s: string, sub: string)
    decreases |s|
  {
    StartsWith(s, sub) || (|s| > 0 && Contains(s[1..], sub))
  }

  /** The first position at or after `i` that does not hold whitespace
      (or the end of `s`). */
  function SkipSpace(s: string, i: nat): (j: nat)
    requires i <= |s|
    ensures i <= j <= |s|
    ensures j < |s| ==> !IsSpace(s[j])
    decreases |s| - i
  {
    if i == |s| || !IsSpace(s[i]) then i else SkipSpace(s, i + 1)
  }

  /** Everything `SkipSpace` skips is whitespace. */
  lemma {:induction false} SkipSpaceSkips(s: string, i: nat)
    requires i <= |s|
    ensures forall k :: i <= k < SkipSpace(s, i) ==> IsSpace(s[k])
    decreases |s| - i
  {
    if i < |s| && IsSpace(s[i]) {
      SkipSpaceSkips(s, i + 1);
    }
  }

  /** The end of `s[lo..e]` once the whitespace before `e` is dropped. */
  function SkipSpaceBack(s: string, lo: nat, e: nat): (j: nat)
    requires lo <= e <= |s|
    ensures lo <= j <= e
    ensures j > lo ==> !IsSpace(s[j - 1])
    decreases e
  {
    if e == lo || !IsSpace(s[e - 1]) then e else SkipSpaceBack(s, lo, e - 1)
  }

  /** Everything `SkipSpaceBack` drops is whitespace. */
  lemma {:induction false} SkipSpaceBackSkips(s: string, lo: nat, e: nat)
    requires lo <= e <= |s|
    ensures forall k :: SkipSpaceBack(s, lo, e) <= k < e ==> IsSpace(s[k])
    decreases e
  {
    if e > lo && IsSpace(s[e - 1]) {
      SkipSpaceBackSkips(s, lo, e - 1);
    }
  }

  /** `s.strip()`: `s` without the whitespace at both of its ends. */
  function Strip(s: string): (r: string)
    ensures Trimmed(r)
    ensures |r| <= |s|
  {
    var i := SkipSpace(s, 0);
    s[i..SkipSpaceBack(s, i, |s|)]
  }

  /** What `strip()` removes is whitespace at the two ends and nothing else:
      `a` and `b` are the parts it drops. */
  lemma StripShape(s: string) returns (a: string, b: string)
    ensures s == a + Strip(s) + b && AllSpace(a) && AllSpace(b)
  {
    var i := SkipSpace(s, 0);
    var j := SkipSpaceBack(s, i, |s|);
    SkipSpaceSkips(s, 0);
    SkipSpaceBackSkips(s, i, |s|);
    a, b := s[..i], s[j..];
    assert s == a + s[i..j] + b;
  }

  /** `s.replace(pat, '')`: every occurrence of `pat`, found left to right
      without overlap, is removed. Python leaves `s` alone for an empty `pat`. */
  function RemoveAll(s: string, pat: string): (r: string)
    ensures |r| <= |s|
    ensures !Contains(s, pat) ==> r == s
    decreases |s|
  {
    if |pat| == 0 || |s| == 0 then s
    else if StartsWith(s, pat) then RemoveAll(s[|pat|..], pat)
    else [s[0]] + RemoveAll(s[1..], pat)
  }

  /** `s.split(sep)` for a one-character separator: the maximal runs between
      separators, so there is always at least one (possibly empty) part. */
  function Split(s: string, sep: char): (parts: seq<string>)
    ensures |parts| >= 1
    ensures forall i :: 0 <= i < |parts| ==> sep !in parts[i]
    decreases |s|
  {
    if |s| == 0 then [""]
    else
      var rest := Split(s[1..], sep);
      if s[0] == sep then [""] + rest else [[s[0]] + rest[0]] + rest[1..]
  }

  /** `sep.join(parts)`. */
  function Join(sep: string, parts: seq<string>): string
    decreases |parts|
  {
    if |parts| == 0 then ""
    else if |parts| == 1 then parts[0]
    else parts[0] + sep + Join(sep, parts[1..])
  }

  /** `xs.index(x)`: the position of the first element equal to `x`. */
  function IndexOf<T(==)>(xs: seq<T>, x: T): (i: nat)
    requires x in xs
    ensures i < |xs| && xs[i] == x
  {
    if xs[0] == x then 0 else 1 + IndexOf(xs[1..], x)
  }

  /** `IndexOf` finds the first occurrence: no earlier element equals `x`. */
  lemma {:induction false} IndexOfIsFirst<T>(xs: seq<T>, x: T)
    requires x in xs
    ensures forall j :: 0 <= j < IndexOf(xs, x) ==> xs[j] != x
  {
    if xs[0] != x {
      assert x in xs[1..] by {
        var k :| 0 <= k < |xs| && xs[k] == x;
        assert xs[1..][k - 1] == x;
      }
      IndexOfIsFirst(xs[1..], x);
      forall j | 0 < j < IndexOf(xs, x) ensures xs[j] != x {
        assert xs[j] == xs[1..][j - 1];
      }
    }
  }

  /** An occurrence with none before it is the one `IndexOf` finds. */
  lemma {:induction false} IndexOfUnique<T>(xs: seq<T>, x: T, i: nat)
    requires i < |xs| && xs[i] == x
    requires forall j :: 0 <= j < i ==> xs[j] != x
    ensures IndexOf(xs, x) == i
  {
    if i > 0 {
      assert xs[1..][i - 1] == x;
      forall j | 0 <= j < i - 1 ensures xs[1..][j] != x {
        assert xs[1..][j] == xs[j + 1];
      }
      IndexOfUnique(xs[1..], x, i - 1);
    }
  }

  /** Joining the parts of a split with the separator gives back the string. */
  lemma {:induction false} JoinSplit(s: string, sep: char)
    ensures Join([sep], Split(s, sep)) == s
    decreases |s|
  {
    if |s| > 0 {
      var rest := Split(s[1..], sep);
      JoinSplit(s[1..], sep);
      if s[0] == sep {
        assert ([""] + rest)[1..] == rest;
      } else {
        var parts := [[s[0]] + rest[0]] + rest[1..];
        assert parts[1..] == rest[1..];
        if |rest| > 1 {
          assert Join([sep], rest) == rest[0] + [sep] + Join([sep], rest[1..]);
        }
      }
    }
  }

  /** Splitting at a separator splits both sides independently. */
  lemma {:induction false} SplitAppend(a: string, b: string, sep: char)
    ensures Split(a + [sep] + b, sep) == Split(a, sep) + Split(b, sep)
    decreases |a|
  {
    var s := a + [sep] + b;
    if |a| == 0 {
      assert s[1..] == b;
    } else {
      assert s[1..] == a[1..] + [sep] + b;
      SplitAppend(a[1..], b, sep);
    }
  }

  /** A string without the separator splits into itself alone. */
  lemma {:induction false} SplitNoSep(s: string, sep: char)
    requires sep !in s
    ensures Split(s, sep) == [s]
    decreases |s|
  {
    if |s| > 0 {
      SplitNoSep(s[1..], sep);
      assert [s[0]] + s[1..] == s;
    }
  }

  /** Splitting the join of separator-free parts gives back the parts. */
  lemma {:induction false} SplitJoin(parts: seq<string>, sep: char)
    requires |parts| >= 1
    requires forall i :: 0 <= i < |parts| ==> sep !in parts[i]
    ensures Split(Join([sep], parts), sep) == parts
    decreases |parts|
  {
    if |parts| == 1 {
      SplitNoSep(parts[0], sep);
    } else {
      SplitJoin(parts[1..], sep);
      SplitNoSep(parts[0], sep);
      SplitAppend(parts[0], Join([sep], parts[1..]), sep);
      assert [parts[0]] + parts[1..] == parts;
    }
  }

  /** `strip()` is determined by its two promises: any trimmed `r` that `s`
      surrounds with whitespace only is `s.strip()`. */
  lemma StripUnique(s: string, a: string, r: string, b: string)
    requires s == a + r + b && AllSpace(a) && AllSpace(b) && Trimmed(r)
    ensures Strip(s) == r
  {
    var i := SkipSpace(s, 0);
    var j := SkipSpaceBack(s, i, |s|);
    SkipSpaceSkips(s, 0);
    SkipSpaceBackSkips(s, i, |s|);
    assert forall k :: 0 <= k < |a| ==> s[k] == a[k];
    assert forall k :: 0 <= k < |b| ==> s[|a| + |r| + k] == b[k];
    if r == [] {
      assert AllSpace(s);
      assert i == |s|;
    } else {
      assert s[|a|] == r[0] && !IsSpace(s[|a|]);
      assert i == |a|;
      assert s[|a| + |r| - 1] == r[|r| - 1] && !IsSpace(s[|a| + |r| - 1]);
      assert j == |a| + |r|;
      assert s[i..j] == r;
    }
  }

  /** Stripping twice is stripping once. */
  lemma StripIdempotent(s: string)
    ensures Strip(Strip(s)) == Strip(s)
  {
    var r := Strip(s);
    assert r == [] + r + [];
    StripUnique(r, [], r, []);
  }

  /** `replace` removes the leftmost occurrence first: when the first copy of
      `pat` in `s` starts at `p` (no copy lies within `s[..p + |pat| - 1]`),
      everything before `p` is kept, that copy is dropped, and removal goes
      on after it. */
  lemma {:induction false} RemoveAllFirst(s: string, pat: string, p: nat)
    requires |pat| > 0 && p + |pat| <= |s| && s[p..p + |pat|] == pat
    requires !Contains(s[..p + |pat| - 1], pat)
    ensures RemoveAll(s, pat) == s[..p] + RemoveAll(s[p + |pat|..], pat)
    decreases p
  {
    if p == 0 {
      RemoveAllAtStart(s, pat);
      assert s[..0] == [];
    } else {
      var m := p + |pat| - 1;
      var t := s[1..];
      assert !StartsWith(s, pat) by {
        StartsWithTake(s, pat, m);
      }
      var rest := RemoveAll(s[p + |pat|..], pat);
      RemoveAllKeepsHead(s, pat);
      assert RemoveAll(t, pat) == t[..p - 1] + rest by {
        assert s[..m][1..] == t[..m - 1];
        RemoveAllFirst(t, pat, p - 1);
      }
      assert s[..p] == [s[0]] + t[..p - 1] by {
        assert s[..p][1..] == t[..p - 1];
      }
      ConsAppend(s[0], t[..p - 1], rest);
    }
  }

  /** Proof step: appending is associative, with one element in front. */
  lemma ConsAppend<T>(x: T, a: seq<T>, b: seq<T>)
    ensures [x] + (a + b) == ([x] + a) + b
  {
  }

  /** Proof step: a prefix test only looks at as many characters as the prefix has. */
  lemma StartsWithTake(s: string, pat: string, m: nat)
    requires |pat| <= m <= |s|
    ensures StartsWith(s[..m], pat) <==> StartsWith(s, pat)
  {
    if StartsWith(s, pat) {
      assert s[..m][..|pat|] == s[..|pat|];
    }
    if StartsWith(s[..m], pat) {
      assert s[..m][..|pat|] == s[..|pat|];
    }
  }

  /** Proof step: a copy of `pat` at the front is dropped. */
  lemma RemoveAllAtStart(s: string, pat: string)
    requires 0 < |pat| <= |s| && s[..|pat|] == pat
    ensures RemoveAll(s, pat) == RemoveAll(s[|pat|..], pat)
  {
    assert StartsWith(s, pat);
  }

  /** Proof step: a first character that does not begin a copy of `pat` is kept. */
  lemma RemoveAllKeepsHead(s: string, pat: string)
    requires |pat| > 0 && |s| > 0 && !StartsWith(s, pat)
    ensures RemoveAll(s, pat) == [s[0]] + RemoveAll(s[1..], pat)
  {
  }

  /** Removing `pat` from `pat + v` removes that leading copy and then works on `v`. */
  lemma RemoveAllLeading(pat: string, v: string)
    requires |pat| > 0
    ensures RemoveAll(pat + v, pat) == RemoveAll(v, pat)
  {
    StartsWithAppend(pat, v);
    assert (pat + v)[|pat|..] == v;
  }

  /** A whitespace character in front of a string does not survive `strip()`. */
  lemma StripLeadingSpace(c: char, s: string)
    requires IsSpace(c)
    ensures Strip([c] + s) == Strip(s)
  {
    var r := Strip(s);
    var a, b := StripShape(s);
    assert [c] + s == ([c] + a) + r + b;
    assert AllSpace([c] + a) by {
      forall k | 0 <= k < |[c] + a| ensures IsSpace(([c] + a)[k]) {
        if k > 0 { assert ([c] + a)[k] == a[k - 1]; }
      }
    }
    StripUnique([c] + s, [c] + a, r, b);
  }

  /** `pat` occurs in `[c] + s` only inside `s` when `pat` does not start with `c`. */
  lemma ContainsCons(c: char, s: string, pat: string)
    requires |pat| > 0 && pat[0] != c
    ensures Contains([c] + s, pat) <==> Contains(s, pat)
  {
    assert ([c] + s)[1..] == s;
    assert ([c] + s)[0] == c;
  }

  /** Joining one more part appends the separator and that part. */
  lemma {:induction false} JoinSnoc(sep: string, parts: seq<string>, last: string)
    requires |parts| >= 1
    ensures Join(sep, parts + [last]) == Join(sep, parts) + sep + last
    decreases |parts|
  {
    if |parts| == 1 {
      assert (parts + [last])[1..] == [last];
    } else {
      assert (parts + [last])[1..] == parts[1..] + [last];
      JoinSnoc(sep, parts[1..], last);
    }
  }

  /** Appending an element does not move the first occurrence of one already present. */
  lemma IndexOfSnoc<T>(xs: seq<T>, y: T, x: T)
    requires x in xs
    ensures IndexOf(xs + [y], x) == IndexOf(xs, x)
  {
    var i := IndexOf(xs, x);
    IndexOfIsFirst(xs, x);
    forall j | 0 <= j < i ensures (xs + [y])[j] != x {
      assert (xs + [y])[j] == xs[j];
    }
    IndexOfUnique(xs + [y], x, i);
  }

  /** `strip()` only removes characters, so it cannot introduce one. */
  lemma StripDropsOnly(s: string, c: char)
    requires c !in s
    ensures c !in Strip(s)
  {
    var r := Strip(s);
    var a, b := StripShape(s);
    forall k | 0 <= k < |r| ensures r[k] != c {
      assert r[k] == s[|a| + k];
    }
  }
}
