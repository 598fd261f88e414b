/** String helpers shared by the cleaner and the JSON extractor: the whitespace
    and digit classes the Python runtime uses (restricted to the characters this
    model covers), `str.strip`, ASCII lower-casing, joining, decimal rendering
    of naturals and order-preserving de-duplication. */
module Text {

  /** `str.isspace()` on the ASCII range: tab, line feed, vertical tab, form
      feed, carriage return, the information separators U+001C..U+001F and
      space. The same set is what `\s` matches in a `str` pattern. */
  predicate IsSpace(c: char) {
    c == ' ' || '\t' <= c <= '\r' || '\U{1C}' <= c <= '\U{1F}'
  }

  /** The decimal digits of the model, used for both `\d` and `str.isdigit()`:
      ASCII, Arabic-Indic (U+0660..U+0669) and Extended Arabic-Indic, i.e.
      Persian (U+06F0..U+06F9). `str.isdigit()` also accepts non-decimal digits
      such as superscripts, which are not modelled. */
  predicate IsDigit(c: char) {
    '0' <= c <= '9' || '\U{0660}' <= c <= '\U{0669}' || '\U{06F0}' <= c <= '\U{06F9}'
  }

  predicate AllDigits(s: string) {
    forall i | 0 <= i < |s| :: IsDigit(s[i])
  }

  predicate AllSpace(s: string) {
    forall i | 0 <= i < |s| :: IsSpace(s[i])
  }

  /** Neither end of `s` is whitespace. */
  predicate Stripped(s: string) {
    |s| == 0 || (!IsSpace(s[0]) && !IsSpace(s[|s| - 1]))
  }

  /** Every character of `s[i..j]` is whitespace. */
  predicate SpaceBetween(s: string, i: nat, j: nat)
    requires j <= |s|
  {
    forall m | i <= m < j :: IsSpace(s[m])
  }

  /** The end of the whitespace run that starts at `i`, looking no further
      than `j`. */
  function SkipSpace(s: string, i: nat, j: nat): (k: nat)
    requires i <= j <= |s|
    ensures i <= k <= j && SpaceBetween(s, i, k)
    ensures k < j ==> !IsSpace(s[k])
    decreases j - i
  {
    if i < j && IsSpace(s[i]) then SkipSpace(s, i + 1, j) else i
  }

  /** The start of the whitespace run that ends at `j`, looking no further
      back than `i`. */
  function BackSpace(s: string, i: nat, j: nat): (k: nat)
    requires i <= j <= |s|
    ensures i <= k <= j && SpaceBetween(s, k, j)
    ensures k > i ==> !IsSpace(s[k - 1])
    decreases j - i
  {
    if i < j && IsSpace(s[j - 1]) then BackSpace(s, i, j - 1) else j
  }

  /** `s[i:j].strip()`, located in `s`: the slice without the whitespace at
      either end. */
  function StripRange(s: string, i: nat, j: nat): (r: string)
    requires i <= j <= |s|
    ensures Stripped(r)
  {
    var e := SkipSpace(s, i, j);
    var g := BackSpace(s, e, j);
    assert e < g ==> s[e..g][0] == s[e] && s[e..g][g - e - 1] == s[g - 1];
    s[e..g]
  }

  /** Python's `str.strip()` with no argument. */
  function Strip(s: string): (r: string)
    ensures Stripped(r)
  {
    StripRange(s, 0, |s|)
  }

  /** Where the leading whitespace ends is determined: any position with only
      whitespace before it and none at it is where `SkipSpace` stops. */
  lemma {:induction false} SkipSpaceAt(s: string, i: nat, j: nat, k: nat)
    requires i <= k <= j <= |s| && SpaceBetween(s, i, k) && (k < j ==> !IsSpace(s[k]))
    ensures SkipSpace(s, i, j) == k
    decreases k - i
  {
    if i < k {
      SkipSpaceAt(s, i + 1, j, k);
    }
  }

  lemma {:induction false} BackSpaceAt(s: string, i: nat, j: nat, k: nat)
    requires i <= k <= j <= |s| && SpaceBetween(s, k, j) && (k > i ==> !IsSpace(s[k - 1]))
    ensures BackSpace(s, i, j) == k
    decreases j - k
  {
    if k < j {
      BackSpaceAt(s, i, j - 1, k);
    }
  }

  /** A part without whitespace at its ends, with only whitespace around it
      inside `s[i..j]`, is what stripping that slice leaves. */
  lemma StripRangeAt(s: string, i: nat, j: nat, e: nat, g: nat)
    requires i <= e <= g <= j <= |s|
    requires SpaceBetween(s, i, e) && SpaceBetween(s, g, j)
    requires e < g ==> !IsSpace(s[e]) && !IsSpace(s[g - 1])
    ensures StripRange(s, i, j) == s[e..g]
  {
    if e < g {
      SkipSpaceAt(s, i, j, e);
      BackSpaceAt(s, e, j, g);
    } else {
      SkipSpaceAt(s, i, j, j);
    }
  }

  /** `Strip` cuts a slice out of `s` and only whitespace lies outside it. */
  lemma StripSlice(s: string) returns (i: nat, j: nat)
    ensures i <= j <= |s| && Strip(s) == s[i..j]
    ensures SpaceBetween(s, 0, i) && SpaceBetween(s, j, |s|)
    ensures i < j ==> !IsSpace(s[i]) && !IsSpace(s[j - 1])
  {
    i := SkipSpace(s, 0, |s|);
    j := BackSpace(s, i, |s|);
  }

  /** Stripping leaves a string without surrounding whitespace unchanged, so
      `Strip` is idempotent. */
  lemma StripFixpoint(s: string)
    requires Stripped(s)
    ensures Strip(s) == s
  {
    assert s[0..|s|] == s;
    StripRangeAt(s, 0, |s|, 0, |s|);
  }

  lemma StripIdempotent(s: string)
    ensures Strip(Strip(s)) == Strip(s)
  {
    StripFixpoint(Strip(s));
  }

  /** Whitespace on either side of `s` does not change what `Strip` returns. */
  lemma StripPadded(a: string, s: string, b: string)
    requires AllSpace(a) && AllSpace(b)
    ensures Strip(a + s + b) == Strip(s)
  {
    var t := a + s + b;
    var i, j := StripSlice(s);
    assert t[|a| + i..|a| + j] == s[i..j];
    assert i < j ==> t[|a| + i] == s[i] && t[|a| + j - 1] == s[j - 1];
    SpaceBeforeMiddle(a, s, b, i);
    SpaceAfterMiddle(a, s, b, j);
    StripRangeAt(t, 0, |t|, |a| + i, |a| + j);
  }

  lemma SpaceBeforeMiddle(a: string, s: string, b: string, i: nat)
    requires AllSpace(a) && i <= |s| && SpaceBetween(s, 0, i)
    ensures SpaceBetween(a + s + b, 0, |a| + i)
  {
    var t := a + s + b;
    forall m | 0 <= m < |a| + i ensures IsSpace(t[m]) {
      if m < |a| {
        assert t[m] == a[m];
      } else {
        assert t[m] == s[m - |a|];
      }
    }
  }

  lemma SpaceAfterMiddle(a: string, s: string, b: string, j: nat)
    requires AllSpace(b) && j <= |s| && SpaceBetween(s, j, |s|)
    ensures SpaceBetween(a + s + b, |a| + j, |a + s + b|)
  {
    var t := a + s + b;
    forall m | |a| + j <= m < |t| ensures IsSpace(t[m]) {
      if m < |a| + |s| {
        assert t[m] == s[m - |a|];
      } else {
        assert t[m] == b[m - |a| - |s|];
      }
    }
  }

  /** `StripRange` is `str.strip` applied to the slice. */
  lemma StripRangeIsStrip(s: string, i: nat, j: nat)
    requires i <= j <= |s|
    ensures StripRange(s, i, j) == Strip(s[i..j])
  {
    var e := SkipSpace(s, i, j);
    var g := BackSpace(s, e, j);
    var u := s[i..j];
    SpaceInSlice(s, i, j, i, e);
    SpaceInSlice(s, i, j, g, j);
    SliceOfSlice(s, i, j, e, g);
    assert e < g ==> u[e - i] == s[e] && u[g - i - 1] == s[g - 1];
    StripRangeAt(u, 0, |u|, e - i, g - i);
  }

  lemma SliceOfSlice(s: string, i: nat, j: nat, a: nat, b: nat)
    requires i <= a <= b <= j <= |s|
    ensures s[i..j][a - i..b - i] == s[a..b]
  {
    var x := s[i..j][a - i..b - i];
    assert |x| == b - a;
    forall m | 0 <= m < b - a ensures x[m] == s[a..b][m] {
    }
  }

  /** Whitespace inside `s[i..j]` seen from the slice. */
  lemma SpaceInSlice(s: string, i: nat, j: nat, a: nat, b: nat)
    requires i <= a <= b <= j <= |s| && SpaceBetween(s, a, b)
    ensures SpaceBetween(s[i..j], a - i, b - i)
  {
    forall m | a - i <= m < b - i ensures IsSpace(s[i..j][m]) {
      assert s[i..j][m] == s[i + m];
    }
  }

  /** `c.lower()` on ASCII letters; other characters are left alone. */
  function LowerChar(c: char): (r: char)
    ensures 'A' <= c <= 'Z' ==> 'a' <= r <= 'z' && r as int - c as int == 32
    ensures !('A' <= c <= 'Z') ==> r == c
  {
    if 'A' <= c <= 'Z' then (c as int + 32) as char else c
  }

  function Lower(s: string): (r: string)
    ensures |r| == |s|
    ensures forall i | 0 <= i < |s| :: r[i] == LowerChar(s[i])
  {
    seq(|s|, i requires 0 <= i < |s| => LowerChar(s[i]))
  }

  /** `sep.join(xs)`. */
  function Join(xs: seq<string>, sep: string): string
  {
    if |xs| == 0 then ""
    else if |xs| == 1 then xs[0]
    else xs[0] + sep + Join(xs[1..], sep)
  }

  lemma JoinOne(x: string, sep: string)
    ensures Join([x], sep) == x
  {
  }

  lemma JoinTwo(a: string, b: string, sep: string)
    ensures Join([a, b], sep) == a + sep + b
  {
    assert [a, b][1..] == [b];
  }

  lemma JoinThree(a: string, b: string, c: string, sep: string)
    ensures Join([a, b, c], sep) == a + sep + b + sep + c
  {
    assert [a, b, c][1..] == [b, c];
    JoinTwo(b, c, sep);
  }

  function DigitChar(d: nat): (c: char)
    requires d < 10
    ensures '0' <= c <= '9' && c as int - '0' as int == d
  {
    ('0' as int + d) as char
  }

  /** `str(n)` for a natural number: its decimal digits, most significant first,
      without leading zeros. */
  function NatToString(n: nat): (r: string)
    ensures |r| > 0
    ensures forall i | 0 <= i < |r| :: '0' <= r[i] <= '9'
    ensures |r| > 1 ==> r[0] != '0'
  {
    if n < 10 then [DigitChar(n)] else NatToString(n / 10) + [DigitChar(n % 10)]
  }

  /** The number a string of ASCII digits denotes. */
  function DecimalValue(s: string): nat
    requires forall i | 0 <= i < |s| :: '0' <= s[i] <= '9'
  {
    if |s| == 0 then 0 else 10 * DecimalValue(s[..|s| - 1]) + (s[|s| - 1] as int - '0' as int)
  }

  /** Rendering a natural number in decimal is inverted by reading it back. */
  lemma {:induction false} NatToStringRoundTrip(n: nat)
    ensures DecimalValue(NatToString(n)) == n
    decreases n
  {
    if n >= 10 {
      NatToStringRoundTrip(n / 10);
      var r := NatToString(n);
      assert r[..|r| - 1] == NatToString(n / 10);
    }
  }

  /** Distinct rendered column labels name distinct positions. */
  lemma NatToStringInjective(m: nat, n: nat)
    requires NatToString(m) == NatToString(n)
    ensures m == n
  {
    NatToStringRoundTrip(m);
    NatToStringRoundTrip(n);
  }

  /** `pandas.unique`: each distinct value once, in order of first appearance. */
  function Distinct(xs: seq<string>): (r: seq<string>)
    ensures forall i, j | 0 <= i < j < |r| :: r[i] != r[j]
  {
    if |xs| == 0 then []
    else
      var d := Distinct(xs[..|xs| - 1]);
      if xs[|xs| - 1] in d then d else d + [xs[|xs| - 1]]
  }

  lemma DistinctSnoc(xs: seq<string>, x: string)
    ensures Distinct(xs + [x]) == if x in Distinct(xs) then Distinct(xs) else Distinct(xs) + [x]
  {
    assert (xs + [x])[..|xs|] == xs;
  }

  /** `Distinct` keeps every value and adds none. */
  lemma {:induction false} DistinctMembers(xs: seq<string>, x: string)
    ensures x in Distinct(xs) <==> x in xs
  {
    if |xs| > 0 {
      var p := xs[..|xs| - 1];
      DistinctMembers(p, x);
      assert xs == p + [xs[|xs| - 1]];
    }
  }

  /** Index of the first occurrence of `x` in `xs`. */
  function FirstIndex(xs: seq<string>, x: string): (k: nat)
    requires x in xs
    ensures k < |xs| && xs[k] == x && x !in xs[..k]
  {
    if xs[0] == x then 0
    else
      assert x in xs[1..];
      var k := FirstIndex(xs[1..], x);
      assert xs[..k + 1] == [xs[0]] + xs[1..][..k];
      k + 1
  }

  /** `Distinct` keeps first-seen order: an earlier element of the result was
      first seen earlier in the input. */
  lemma {:induction false} DistinctOrder(xs: seq<string>, i: nat, j: nat)
    requires i < j < |Distinct(xs)|
    ensures Distinct(xs)[i] in xs && Distinct(xs)[j] in xs
    ensures FirstIndex(xs, Distinct(xs)[i]) < FirstIndex(xs, Distinct(xs)[j])
    decreases |xs|
  {
    var d := Distinct(xs[..|xs| - 1]);
    var p := xs[..|xs| - 1];
    var r := Distinct(xs);
    DistinctMembers(p, r[i]);
    DistinctMembers(p, r[j]);
    DistinctMembers(xs, r[i]);
    DistinctMembers(xs, r[j]);
    assert xs[..|p|] == p;
    FirstIndexPrefix(xs, p, r[i]);
    if j < |d| {
      assert r[i] == d[i] && r[j] == d[j];
      DistinctOrder(p, i, j);
      FirstIndexPrefix(xs, p, r[j]);
    } else {
      assert r[j] == xs[|xs| - 1] && r[j] !in d && r[j] !in p;
      assert FirstIndex(xs, r[j]) == |xs| - 1;
    }
  }

  lemma FirstIndexPrefix(xs: seq<string>, p: seq<string>, x: string)
    requires |p| <= |xs| && p == xs[..|p|] && x in p
    ensures FirstIndex(xs, x) == FirstIndex(p, x)
  {
    var k := FirstIndex(p, x);
    assert xs[..k] == p[..k];
    assert xs[k] == x;
  }
}
