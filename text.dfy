/**
 * The few Python string and list built-ins the log analyzer relies on:
 * `str.strip()`, `str.join`, `str(int)` and the negative-start slice `s[-k:]`.
 * Each comes with an inverse or a uniqueness lemma that pins down what it computes.
 */
module PyText {

  function Min(a: int, b: int): int { if a <= b then a else b }

  /** Python's `str.isspace()` on one code point: the characters `str.strip()` removes. */
  predicate IsSpace(c: char) {
    || ('\t' <= c <= '\r')
    || ('\U{1C}' <= c <= '\U{1F}')
    || c == ' ' || c == '\U{85}' || c == '\U{A0}' || c == '\U{1680}'
    || ('\U{2000}' <= c <= '\U{200A}')
    || c == '\U{2028}' || c == '\U{2029}' || c == '\U{202F}' || c == '\U{205F}' || c == '\U{3000}'
  }

  predicate AllSpace(s: string) {
    forall k :: 0 <= k < |s| ==> IsSpace(s[k])
  }

  /** Removes leading whitespace. */
  function StripStart(s: string): (r: string)
    ensures |r| <= |s| && r == s[|s| - |r|..]
    ensures AllSpace(s[..|s| - |r|])
    ensures r == [] || !IsSpace(r[0])
    decreases |s|
  {
    if s != [] && IsSpace(s[0]) then
      var r := StripStart(s[1..]);
      assert s[..|s| - |r|] == [s[0]] + s[1..][..|s| - 1 - |r|];
      r
    else
      s
  }

  /** Removes trailing whitespace. */
  function StripEnd(s: string): (r: string)
    ensures |r| <= |s| && r == s[..|r|]
    ensures AllSpace(s[|r|..])
    ensures r == [] || !IsSpace(r[|r| - 1])
    decreases |s|
  {
    if s != [] && IsSpace(s[|s| - 1]) then
      var r := StripEnd(s[..|s| - 1]);
      assert s[|r|..] == s[..|s| - 1][|r|..] + [s[|s| - 1]];
      r
    else
      s
  }

  /** Python's `str.strip()` without arguments: whitespace is removed at both ends. */
  function Strip(s: string): (r: string)
    ensures exists i :: IsTrim(s, i, r)
  {
    var t := StripStart(s);
    var r := StripEnd(t);
    TrimOfParts(s, t, r);
    r
  }

  /** Cutting leading whitespace and then trailing whitespace leaves a trim of `s`. */
  lemma TrimOfParts(s: string, t: string, r: string)
    requires |t| <= |s| && t == s[|s| - |t|..] && AllSpace(s[..|s| - |t|])
    requires t == [] || !IsSpace(t[0])
    requires |r| <= |t| && r == t[..|r|] && AllSpace(t[|r|..])
    requires r == [] || !IsSpace(r[|r| - 1])
    ensures IsTrim(s, |s| - |t|, r)
  {
    var i := |s| - |t|;
    assert r == s[i..i + |r|];
    assert s[i + |r|..] == t[|r|..];
    assert r != [] ==> r[0] == t[0];
  }

  lemma SpaceBefore(s: string, i: nat, j: nat)
    requires i <= |s| && AllSpace(s[..i]) && j < i
    ensures IsSpace(s[j])
  {
    assert s[..i][j] == s[j];
  }

  lemma SpaceAfter(s: string, i: nat, j: nat)
    requires i <= j < |s| && AllSpace(s[i..])
    ensures IsSpace(s[j])
  {
    assert s[i..][j - i] == s[j];
  }

  /** `r` is `s` with surrounding whitespace cut off, starting at position `i`. */
  predicate IsTrim(s: string, i: nat, r: string) {
    && i + |r| <= |s| && r == s[i..i + |r|] && AllSpace(s[..i]) && AllSpace(s[i + |r|..])
    && (r == [] || (!IsSpace(r[0]) && !IsSpace(r[|r| - 1])))
  }

  lemma TrimUnique(s: string, i: nat, r: string, j: nat, q: string)
    requires IsTrim(s, i, r) && IsTrim(s, j, q)
    ensures r == q
  {
    if r == [] {
      if q != [] {
        assert !IsSpace(s[j]) by { assert s[j] == q[0]; }
        if j < i { SpaceBefore(s, i, j); } else { SpaceAfter(s, i, j); }
      }
    } else if q == [] {
      assert !IsSpace(s[i]) by { assert s[i] == r[0]; }
      if i < j { SpaceBefore(s, j, i); } else { SpaceAfter(s, j, i); }
    } else {
      assert !IsSpace(s[i]) && !IsSpace(s[i + |r| - 1]) by {
        assert s[i] == r[0] && s[i + |r| - 1] == r[|r| - 1];
      }
      assert !IsSpace(s[j]) && !IsSpace(s[j + |q| - 1]) by {
        assert s[j] == q[0] && s[j + |q| - 1] == q[|q| - 1];
      }
      // the first non-space character of s sits at both i and j
      if i < j { SpaceBefore(s, j, i); } else if j < i { SpaceBefore(s, i, j); }
    }
  }

  /**
   * What Strip's contract says determines its result: any infix of `s` that is
   * surrounded only by whitespace and neither starts nor ends with whitespace is `Strip(s)`.
   */
  lemma StripUnique(s: string, i: nat, r: string)
    requires IsTrim(s, i, r)
    ensures r == Strip(s)
  {
    var q := Strip(s);
    var j :| IsTrim(s, j, q);
    TrimUnique(s, i, r, j, q);
  }

  /** Python's `sep.join(parts)`. */
  function Join(sep: string, parts: seq<string>): (r: string)
  {
    if |parts| == 0 then ""
    else if |parts| == 1 then parts[0]
    else Join(sep, parts[..|parts| - 1]) + sep + parts[|parts| - 1]
  }

  /** The joined text starts with the first part. */
  lemma {:induction false} JoinPrefix(sep: string, parts: seq<string>)
    requires |parts| >= 1
    ensures |parts[0]| <= |Join(sep, parts)| && Join(sep, parts)[..|parts[0]|] == parts[0]
    decreases |parts|
  {
    if |parts| > 1 {
      var init := parts[..|parts| - 1];
      JoinPrefix(sep, init);
      assert init[0] == parts[0];
    }
  }

  /** The position of the last occurrence of `c` in `s`. */
  function LastIndex(s: string, c: char): (i: nat)
    requires c in s
    ensures i < |s| && s[i] == c && c !in s[i + 1..]
    decreases |s|
  {
    if s[|s| - 1] == c then |s| - 1
    else
      assert c in s[..|s| - 1];
      var i := LastIndex(s[..|s| - 1], c);
      assert s[i + 1..] == s[..|s| - 1][i + 1..] + [s[|s| - 1]];
      i
  }

  /** Python's `s.split(c)` for a one-character separator: the inverse of `Join`. */
  function Split(s: string, c: char): (r: seq<string>)
    ensures |r| >= 1
    decreases |s|
  {
    if c !in s then [s]
    else
      var i := LastIndex(s, c);
      Split(s[..i], c) + [s[i + 1..]]
  }

  lemma LastIndexAt(s: string, c: char, i: nat)
    requires i < |s| && s[i] == c && c !in s[i + 1..]
    ensures LastIndex(s, c) == i
  {
  }

  /** Joining lines that contain no separator and splitting the text again gives the lines back. */
  lemma {:induction false} SplitJoin(parts: seq<string>, c: char)
    requires |parts| >= 1
    requires forall k :: 0 <= k < |parts| ==> c !in parts[k]
    ensures Split(Join([c], parts), c) == parts
    decreases |parts|
  {
    if |parts| > 1 {
      var init, last := parts[..|parts| - 1], parts[|parts| - 1];
      var head := Join([c], init);
      var s := head + [c] + last;
      assert Join([c], parts) == s;
      assert s[|head|] == c;
      assert s[|head| + 1..] == last;
      LastIndexAt(s, c, |head|);
      assert s[..|head|] == head;
      SplitJoin(init, c);
      assert Split(s, c) == Split(head, c) + [last];
      assert init + [last] == parts;
    }
  }

  predicate IsDigit(c: char) { '0' <= c <= '9' }

  predicate AllDigits(s: string) {
    forall k :: 0 <= k < |s| ==> IsDigit(s[k])
  }

  function Digit(d: nat): (c: char)
    requires d < 10
    ensures IsDigit(c) && c as int - '0' as int == d
  {
    ('0' as int + d) as char
  }

  /** Python's `str(n)` for a non-negative integer: decimal, no leading zeros. */
  function NatToString(n: nat): (r: string)
    ensures |r| >= 1 && AllDigits(r)
    ensures r[0] == '0' ==> n == 0 && r == "0"
  {
    if n < 10 then [Digit(n)] else NatToString(n / 10) + [Digit(n % 10)]
  }

  /** Reads a decimal numeral: the inverse of `NatToString`. */
  function ParseNat(s: string): nat
    requires AllDigits(s)
  {
    if s == [] then 0 else 10 * ParseNat(s[..|s| - 1]) + (s[|s| - 1] as int - '0' as int)
  }

  lemma {:induction false} ParseNatToString(n: nat)
    ensures ParseNat(NatToString(n)) == n
  {
    if n >= 10 {
      var s := NatToString(n);
      assert s[..|s| - 1] == NatToString(n / 10);
      ParseNatToString(n / 10);
    }
  }

  /** Concatenates `f(x)` over `xs`, left to right: repeated `list.extend`. */
  function FlatMap<T, U>(f: T -> seq<U>, xs: seq<T>): seq<U>
    decreases |xs|
  {
    if xs == [] then [] else FlatMap(f, xs[..|xs| - 1]) + f(xs[|xs| - 1])
  }

  lemma {:induction false} FlatMapAppend<T, U>(f: T -> seq<U>, a: seq<T>, b: seq<T>)
    ensures FlatMap(f, a + b) == FlatMap(f, a) + FlatMap(f, b)
    decreases |b|
  {
    if b == [] {
      assert a + b == a;
    } else {
      var b' := b[..|b| - 1];
      assert (a + b)[..|a + b| - 1] == a + b';
      assert (a + b)[|a + b| - 1] == b[|b| - 1];
      FlatMapAppend(f, a, b');
    }
  }

  /** An item of the concatenation comes from the contribution of some element. */
  lemma {:induction false} FlatMapMembers<T, U>(f: T -> seq<U>, xs: seq<T>, u: U)
    ensures u in FlatMap(f, xs) <==> exists t :: 0 <= t < |xs| && u in f(xs[t])
    decreases |xs|
  {
    if xs != [] {
      var init := xs[..|xs| - 1];
      FlatMapMembers(f, init, u);
      assert forall t :: 0 <= t < |init| ==> init[t] == xs[t];
    }
  }

  /** When every element contributes at most one item, there are at most as many items as elements. */
  lemma {:induction false} FlatMapBound<T, U>(f: T -> seq<U>, xs: seq<T>)
    requires forall t :: 0 <= t < |xs| ==> |f(xs[t])| <= 1
    ensures |FlatMap(f, xs)| <= |xs|
    decreases |xs|
  {
    if xs != [] {
      var init := xs[..|xs| - 1];
      assert forall t :: 0 <= t < |init| ==> init[t] == xs[t];
      FlatMapBound(f, init);
    }
  }

  /**
   * Python's slice `s[-k:]`. A positive `k` keeps the last `k` items (all of them
   * when there are fewer); `k == 0` keeps everything, because `-0` is `0`;
   * a negative `k` drops the first `-k` items.
   */
  function SuffixSlice<T>(s: seq<T>, k: int): (r: seq<T>)
    ensures k > 0 ==> |r| == Min(k, |s|) && r == s[|s| - |r|..]
    ensures k == 0 ==> r == s
    ensures k < 0 ==> r == s[Min(-k, |s|)..]
  {
    var start := -k;
    var lo := if start < 0 then (if start + |s| < 0 then 0 else start + |s|)
              else (if start > |s| then |s| else start);
    s[lo..]
  }
}
