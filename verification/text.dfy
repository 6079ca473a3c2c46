/** String helpers shared by the scanners: Python's whitespace class, pattern
    occurrence and search, maximal character runs, `str.strip`,
    `str.replace` and the decimal rendering of an integer. */
module Text {

  datatype Option<+T> = None | Some(value: T) {
    function GetOr(default: T): T {
      match this
      case Some(v) => v
      case None => default
    }
  }

  /** Python's `\s` in a str pattern, which is also the set `str.isspace` and
      `str.strip()` use: ASCII 9..13, 28..32 and the Unicode spaces. */
  predicate IsSpace(c: char) {
    || ('\t' <= c <= '\r')
    || ('\U{1C}' <= c <= ' ')
    || c == '\U{85}' || c == '\U{A0}' || c == '\U{1680}'
    || ('\U{2000}' <= c <= '\U{200A}')
    || c == '\U{2028}' || c == '\U{2029}' || c == '\U{202F}'
    || c == '\U{205F}' || c == '\U{3000}'
  }

  /** `\w`, restricted to ASCII letters, digits and underscore. */
  predicate IsWordChar(c: char) {
    ('a' <= c <= 'z') || ('A' <= c <= 'Z') || ('0' <= c <= '9') || c == '_'
  }

  predicate StartsWith(s: string, prefix: string) {
    |prefix| <= |s| && s[..|prefix|] == prefix
  }

  predicate EndsWith(s: string, suffix: string) {
    |suffix| <= |s| && s[|s| - |suffix|..] == suffix
  }

  /** `pat` occurs in `s` starting at index `i`. */
  predicate OccursAt(s: string, pat: string, i: int) {
    0 <= i && i + |pat| <= |s| && s[i..i + |pat|] == pat
  }

  lemma SliceOfSlice(s: string, i: nat, j: nat, x: nat, y: nat)
    requires i <= j <= |s| && x <= y <= j - i
    ensures s[i..j][x..y] == s[i + x..i + y]
  {
    assert forall k :: 0 <= k < y - x ==> s[i..j][x..y][k] == s[i + x..i + y][k];
  }

  lemma ConsAppend(u: string, t: string)
    requires u != []
    ensures [u[0]] + (u[1..] + t) == u + t
  {
    assert u == [u[0]] + u[1..];
  }

  /** A string is the concatenation of its slices at three cut points. */
  lemma Reassemble(s: string, a: nat, b: nat, c: nat)
    requires a <= b <= c <= |s|
    ensures s == s[..a] + s[a..b] + s[b..c] + s[c..]
  {
  }

  /** A prefix is a shorter prefix followed by the slice between them. */
  lemma PrefixJoin(s: string, a: nat, b: nat)
    requires a <= b <= |s|
    ensures s[..b] == s[..a] + s[a..b]
  {
  }

  /** Where the second and fourth of five concatenated parts sit. */
  lemma FiveParts(a: string, b: string, c: string, d: string, e: string)
    ensures var s := a + b + c + d + e;
            && s[..|a|] == a
            && s[|a|..|a| + |b|] == b
            && s[|a| + |b|..|a| + |b| + |c|] == c
            && s[|a| + |b| + |c|..|a| + |b| + |c| + |d|] == d
  {
  }

  /** No occurrence of `pat` anywhere in `s`. */
  predicate Absent(s: string, pat: string) {
    forall j :: 0 <= j <= |s| ==> !OccursAt(s, pat, j)
  }

  /** An occurrence in a suffix is an occurrence in the whole string, shifted. */
  lemma OccursInSuffix(s: string, pat: string, d: nat, j: int)
    requires d <= |s|
    ensures OccursAt(s[d..], pat, j) <==> (0 <= j && OccursAt(s, pat, j + d))
  {
    if 0 <= j && j + |pat| <= |s| - d {
      assert s[d..][j..j + |pat|] == s[j + d..j + d + |pat|];
    }
  }

  lemma AbsentInSuffix(s: string, pat: string, d: nat)
    requires d <= |s| && Absent(s, pat)
    ensures Absent(s[d..], pat)
  {
    forall j | 0 <= j <= |s[d..]| ensures !OccursAt(s[d..], pat, j) {
      OccursInSuffix(s, pat, d, j);
    }
  }

  /** An occurrence inside a slice is an occurrence in the whole string. */
  lemma OccursInSlice(s: string, pat: string, a: nat, b: nat, j: int)
    requires a <= b <= |s|
    ensures OccursAt(s[a..b], pat, j) ==> OccursAt(s, pat, a + j)
  {
    if OccursAt(s[a..b], pat, j) {
      SliceOfSlice(s, a, b, j, j + |pat|);
    }
  }

  /** Where `t` sits at index `n` of `s`, occurrences that lie within `t`
      are the same in both. */
  lemma OccursShift(s: string, t: string, n: nat, pat: string, j: nat)
    requires n + |t| <= |s| && s[n..n + |t|] == t && j + |pat| <= |t|
    ensures OccursAt(s, pat, n + j) <==> OccursAt(t, pat, j)
  {
    SliceOfSlice(s, n, n + |t|, j, j + |pat|);
  }

  /** `pat` cannot occur where its first character does not. */
  lemma NotAt(s: string, pat: string, i: nat)
    requires i < |s| && pat != [] && s[i] != pat[0]
    ensures !OccursAt(s, pat, i)
  {
    if i + |pat| <= |s| {
      assert s[i..i + |pat|][0] == s[i];
    }
  }

  /** The earliest index at or after `i` where `pat` occurs: the position a
      lazy `.*?` followed by `pat` stops at. */
  function FindFrom(s: string, pat: string, i: nat): (r: Option<nat>)
    requires i <= |s|
    ensures r.Some? ==> i <= r.value && OccursAt(s, pat, r.value)
    ensures r.Some? ==> forall j :: i <= j < r.value ==> !OccursAt(s, pat, j)
    ensures r.None? ==> forall j :: i <= j ==> !OccursAt(s, pat, j)
    decreases |s| - i
  {
    if OccursAt(s, pat, i) then Some(i)
    else if i == |s| then None
    else FindFrom(s, pat, i + 1)
  }

  /** The earliest occurrence at or after `i` is at `r`: `FindFrom` finds it. */
  lemma {:induction false} FindFromIs(s: string, pat: string, i: nat, r: nat)
    requires i <= r && OccursAt(s, pat, r)
    requires forall j :: i <= j < r ==> !OccursAt(s, pat, j)
    ensures FindFrom(s, pat, i) == Some(r)
    decreases r - i
  {
    if i < r {
      FindFromIs(s, pat, i + 1, r);
    }
  }

  /** The character classes the scanners repeat: `\s`, `\w`, `[^'"]`,
      `#`, and "anything but `c`". */
  datatype Class = Space | Word | NoQuote | Hash | Except(c: char)

  predicate InClass(c: char, k: Class) {
    match k
    case Space => IsSpace(c)
    case Word => IsWordChar(c)
    case NoQuote => c != '\'' && c != '"'
    case Hash => c == '#'
    case Except(x) => c != x
  }

  /** Every character of `t` is in class `k`. */
  predicate AllIn(t: string, k: Class) {
    forall i :: 0 <= i < |t| ==> InClass(t[i], k)
  }

  /** Length of the longest run of class-`k` characters that starts at `i`:
      what a greedy `X*` consumes when `X` is a character class. */
  function Span(s: string, i: nat, k: Class): (n: nat)
    requires i <= |s|
    ensures i + n <= |s|
    decreases |s| - i
  {
    if i == |s| || !InClass(s[i], k) then 0 else 1 + Span(s, i + 1, k)
  }

  /** The run `Span` measures holds only class-`k` characters and ends at
      the string's end or at a character outside the class. */
  lemma {:induction false} SpanRun(s: string, i: nat, k: Class)
    requires i <= |s|
    ensures forall j {:trigger InClass(s[j], k)} :: i <= j < i + Span(s, i, k) ==> InClass(s[j], k)
    ensures i + Span(s, i, k) == |s| || !InClass(s[i + Span(s, i, k)], k)
    decreases |s| - i
  {
    if i < |s| && InClass(s[i], k) {
      SpanRun(s, i + 1, k);
    }
  }

  /** A run of class-`k` characters ended by the string's end or by a
      character outside the class is exactly what `Span` measures. */
  lemma {:induction false} SpanExact(s: string, i: nat, n: nat, k: Class)
    requires i + n <= |s|
    requires forall j {:trigger InClass(s[j], k)} :: i <= j < i + n ==> InClass(s[j], k)
    requires i + n == |s| || !InClass(s[i + n], k)
    ensures Span(s, i, k) == n
    decreases n
  {
    if n > 0 {
      SpanExact(s, i + 1, n - 1, k);
    }
  }

  /** A run of class-`k` characters, sliced out, holds only such characters. */
  lemma RunSlice(s: string, i: nat, n: nat, k: Class)
    requires i + n <= |s|
    requires forall j {:trigger InClass(s[j], k)} :: i <= j < i + n ==> InClass(s[j], k)
    ensures forall j {:trigger InClass(s[i..i + n][j], k)} :: 0 <= j < n ==> InClass(s[i..i + n][j], k)
  {
    var t := s[i..i + n];
    forall j | 0 <= j < n ensures InClass(t[j], k) {
      assert t[j] == s[i + j];
    }
  }

  /** Index of the first `c` at or after `i`, or `|s|` when there is none. */
  function FindChar(s: string, c: char, i: nat): (r: nat)
    requires i <= |s|
    ensures i <= r <= |s|
    ensures r < |s| ==> s[r] == c
    ensures forall k :: i <= k < r ==> s[k] != c
  {
    SpanRun(s, i, Except(c));
    var r := i + Span(s, i, Except(c));
    assert forall k :: i <= k < r ==> s[k] != c by {
      forall k | i <= k < r ensures s[k] != c {
        assert InClass(s[k], Except(c));
      }
    }
    r
  }

  /** The first `c` at or after `i` is at `r`: `FindChar` returns `r`. */
  lemma FindCharIs(s: string, c: char, i: nat, r: nat)
    requires i <= r <= |s| && (r < |s| ==> s[r] == c)
    requires forall k :: i <= k < r ==> s[k] != c
    ensures FindChar(s, c, i) == r
  {
    forall j | i <= j < r ensures InClass(s[j], Except(c)) {
      assert s[j] != c;
    }
    SpanExact(s, i, r - i, Except(c));
  }

  /** Neither end of `t` is whitespace. */
  predicate IsStripped(t: string) {
    t == [] || (!IsSpace(t[0]) && !IsSpace(t[|t| - 1]))
  }

  function TrimEnd(s: string): (r: string)
    ensures |r| <= |s| && r == s[..|r|]
    ensures forall k {:trigger IsSpace(s[k])} :: |r| <= k < |s| ==> IsSpace(s[k])
    ensures r == [] || !IsSpace(r[|r| - 1])
    decreases |s|
  {
    if s == [] || !IsSpace(s[|s| - 1]) then s else TrimEnd(s[..|s| - 1])
  }

  /** Python's `str.strip()`: with `a` the length of the leading whitespace,
      the result is the slice of `s` from `a` with the trailing whitespace
      cut off. */
  function Strip(s: string): (r: string)
    ensures IsStripped(r)
    ensures var a := Span(s, 0, Space);
            && a + |r| <= |s|
            && r == s[a..a + |r|]
            && forall k {:trigger IsSpace(s[k])} :: a + |r| <= k < |s| ==> IsSpace(s[k])
  {
    var a := Span(s, 0, Space);
    SpanRun(s, 0, Space);
    var r := TrimEnd(s[a..]);
    assert r != [] ==> r[0] == s[a];
    r
  }

  /** Text with no whitespace at either end is its own strip. */
  lemma StripFixed(t: string)
    requires IsStripped(t)
    ensures Strip(t) == t
  {
    assert Span(t, 0, Space) == 0;
    assert t[0..] == t;
  }

  /** Stripping twice is stripping once. */
  lemma StripIdempotent(s: string)
    ensures Strip(Strip(s)) == Strip(s)
  {
    StripFixed(Strip(s));
  }

  /** Python's `str.replace(from, to)` for a non-empty `from`: every
      occurrence, scanning left to right without overlap, is replaced. */
  function ReplaceAll(s: string, from: string, to: string): (r: string)
    requires from != []
    ensures Absent(s, from) ==> r == s
    decreases |s|
  {
    if s == [] then []
    else if OccursAt(s, from, 0) then to + ReplaceAll(s[|from|..], from, to)
    else
      assert Absent(s, from) ==> Absent(s[1..], from) by {
        if Absent(s, from) { AbsentInSuffix(s, from, 1); }
      }
      [s[0]] + ReplaceAll(s[1..], from, to)
  }

  /** A character that does not occur is a pattern that does not occur. */
  lemma AbsentChar(s: string, c: char)
    requires forall k :: 0 <= k < |s| ==> s[k] != c
    ensures Absent(s, [c])
  {
    forall j | 0 <= j <= |s| ensures !OccursAt(s, [c], j) {
      if j < |s| {
        assert s[j..j + 1][0] == s[j];
      }
    }
  }

  /** Replacing a character in a one-character string. */
  lemma ReplaceOne(c: char, x: char, to: string)
    ensures ReplaceAll([c], [x], to) == if c == x then to else [c]
  {
    var s := [c];
    assert OccursAt(s, [x], 0) <==> c == x;
    assert s[1..] == [];
    if c == x {
      assert to + [] == to;
    }
  }

  /** Replacing a single character distributes over concatenation. */
  lemma {:induction false} ReplaceCharAppend(a: string, b: string, c: char, to: string)
    ensures ReplaceAll(a + b, [c], to) == ReplaceAll(a, [c], to) + ReplaceAll(b, [c], to)
    decreases |a|
  {
    if a == [] {
      assert a + b == b;
    } else {
      var s := a + b;
      assert s[0] == a[0] && s[1..] == a[1..] + b;
      assert OccursAt(s, [c], 0) <==> a[0] == c;
      assert OccursAt(a, [c], 0) <==> a[0] == c;
      ReplaceCharAppend(a[1..], b, c, to);
      var x := if a[0] == c then to else [a[0]];
      assert ReplaceAll(s, [c], to) == x + ReplaceAll(a[1..] + b, [c], to);
      assert ReplaceAll(a, [c], to) == x + ReplaceAll(a[1..], [c], to);
      AppendAssoc(x, ReplaceAll(a[1..], [c], to), ReplaceAll(b, [c], to));
    }
  }

  lemma AppendAssoc<T>(x: seq<T>, y: seq<T>, z: seq<T>)
    ensures x + (y + z) == (x + y) + z
  {
  }

  /** `str.replace` replaces the first occurrence it meets and goes on
      after it: text before that occurrence is kept as it is. */
  lemma {:induction false} ReplacePrefix(u: string, from: string, to: string, v: string)
    requires from != []
    requires forall j :: 0 <= j < |u| ==> !OccursAt(u + from + v, from, j)
    ensures ReplaceAll(u + from + v, from, to) == u + to + ReplaceAll(v, from, to)
    decreases |u|
  {
    var s := u + from + v;
    if u == [] {
      assert s == from + v;
      assert OccursAt(s, from, 0) by { assert s[..|from|] == from; }
      assert s[|from|..] == v;
    } else {
      assert !OccursAt(s, from, 0);
      assert s[0] == u[0];
      assert s[1..] == u[1..] + from + v;
      forall j | 0 <= j < |u[1..]| ensures !OccursAt(u[1..] + from + v, from, j) {
        OccursInSuffix(s, from, 1, j);
      }
      ReplacePrefix(u[1..], from, to, v);
      var w := ReplaceAll(v, from, to);
      assert ReplaceAll(s, from, to) == [u[0]] + (u[1..] + to + w);
      AppendAssoc(u[1..], to, w);
      ConsAppend(u, to + w);
      AppendAssoc(u, to, w);
    }
  }

  /** `s * n` for a string. */
  function Repeat(s: string, n: nat): string {
    if n == 0 then [] else Repeat(s, n - 1) + s
  }

  function DigitChar(d: nat): (c: char)
    requires d < 10
    ensures '0' <= c <= '9'
  {
    "0123456789"[d]
  }

  function DigitValue(c: char): nat
    requires '0' <= c <= '9'
  {
    (c as int - '0' as int) as nat
  }

  predicate AllDigits(s: string) {
    forall k :: 0 <= k < |s| ==> '0' <= s[k] <= '9'
  }

  /** Python's `str(n)` (and `f'{n}'`) for a non-negative integer. */
  function NatToString(n: nat): (r: string)
    ensures r != [] && AllDigits(r)
    ensures r[0] == '0' ==> n == 0
    decreases n
  {
    if n < 10 then [DigitChar(n)] else NatToString(n / 10) + [DigitChar(n % 10)]
  }

  /** Decimal reading of a digit string, the inverse of `NatToString`. */
  function ParseNat(s: string): nat
    requires AllDigits(s)
  {
    if s == [] then 0 else 10 * ParseNat(s[..|s| - 1]) + DigitValue(s[|s| - 1])
  }

  lemma DigitRoundTrip(d: nat)
    requires d < 10
    ensures DigitValue(DigitChar(d)) == d
  {
  }

  lemma {:induction false} ParseNatToString(n: nat)
    ensures ParseNat(NatToString(n)) == n
    decreases n
  {
    var r := NatToString(n);
    if n < 10 {
      DigitRoundTrip(n);
      assert r[..|r| - 1] == [];
    } else {
      ParseNatToString(n / 10);
      DigitRoundTrip(n % 10);
      assert r[..|r| - 1] == NatToString(n / 10);
    }
  }

  /** Distinct numbers have distinct decimal renderings. */
  lemma NatToStringInjective(a: nat, b: nat)
    ensures NatToString(a) == NatToString(b) ==> a == b
  {
    ParseNatToString(a);
    ParseNatToString(b);
  }
}
