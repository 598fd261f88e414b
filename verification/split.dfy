/** The multi-value separator pattern of `_explode_multivalues` and what
    `re.search` and `re.split` do with it. The pattern is the alternation of
    "/", ",", "،" (U+060C), ";", "؛" (U+061B) and " و " (space, U+0648,
    space); at any position at most one alternative can match. */
module Splitting {
  import opened Text

  /** One of the five single-character separators. */
  predicate IsSepChar(c: char) {
    c == '/' || c == ',' || c == '\U{060C}' || c == ';' || c == '\U{061B}'
  }

  /** The Persian conjunction " و " as a separator. */
  const Conjunction: string := " \U{0648} "

  /** Length of the separator match that starts at `i`, or 0 when none does. */
  function SepLen(s: string, i: nat): (n: nat)
    requires i < |s|
    ensures n == 0 || n == 1 || n == 3
    ensures i + n <= |s|
    ensures n == 1 <==> IsSepChar(s[i])
    ensures n == 3 <==> i + 3 <= |s| && s[i..i + 3] == Conjunction
  {
    if IsSepChar(s[i]) then 1
    else if i + 3 <= |s| && s[i..i + 3] == Conjunction then 3
    else 0
  }

  /** No separator occurs in `s`. */
  predicate NoSep(s: string) {
    forall i | 0 <= i < |s| :: SepLen(s, i) == 0
  }

  /** `re.search(pattern, s)` finds a match. */
  predicate HasSep(s: string) {
    !NoSep(s)
  }

  /** Position of the leftmost separator match at or after `from`, or `|s|`. */
  function FirstSep(s: string, from: nat): (k: nat)
    requires from <= |s|
    ensures from <= k <= |s|
    ensures k < |s| ==> SepLen(s, k) > 0
    ensures forall i | from <= i < k :: SepLen(s, i) == 0
    decreases |s| - from
  {
    if from == |s| || SepLen(s, from) > 0 then from else FirstSep(s, from + 1)
  }

  /** `re.split(pattern, s)`: the pieces between successive leftmost,
      non-overlapping separator matches, empty pieces included. */
  function Split(s: string): (r: seq<string>)
    ensures |r| > 0
    decreases |s|
  {
    var k := FirstSep(s, 0);
    if k == |s| then [s] else [s[..k]] + Split(s[k + SepLen(s, k)..])
  }

  /** The separators `Split` cut at, left to right. */
  function Separators(s: string): (r: seq<string>)
    decreases |s|
  {
    var k := FirstSep(s, 0);
    if k == |s| then [] else [s[k..k + SepLen(s, k)]] + Separators(s[k + SepLen(s, k)..])
  }

  /** The pieces with the separators put back between them. */
  function Weave(pieces: seq<string>, seps: seq<string>): string
    requires |pieces| == |seps| + 1
  {
    if |seps| == 0 then pieces[0] else pieces[0] + seps[0] + Weave(pieces[1..], seps[1..])
  }

  /** Splitting loses nothing: one more piece than separators, and weaving
      them back together gives the original text. */
  lemma {:induction false} SplitRebuild(s: string)
    ensures |Split(s)| == |Separators(s)| + 1
    ensures Weave(Split(s), Separators(s)) == s
    decreases |s|
  {
    var k := FirstSep(s, 0);
    if k < |s| {
      var n := SepLen(s, k);
      SplitRebuild(s[k + n..]);
      assert s == s[..k] + s[k..k + n] + s[k + n..];
    }
  }

  /** Every cut is at a real separator. */
  lemma {:induction false} SeparatorsAreSeparators(s: string)
    ensures forall m | 0 <= m < |Separators(s)| :: Separators(s)[m] == Conjunction || (|Separators(s)[m]| == 1 && IsSepChar(Separators(s)[m][0]))
    decreases |s|
  {
    var k := FirstSep(s, 0);
    if k < |s| {
      SeparatorsAreSeparators(s[k + SepLen(s, k)..]);
    }
  }

  /** A separator match inside a prefix is a match in the whole text. */
  lemma SepLenPrefix(s: string, m: nat, i: nat)
    requires i < m <= |s|
    ensures SepLen(s[..m], i) > 0 ==> SepLen(s, i) > 0
  {
    if i + 3 <= m {
      assert s[..m][i..i + 3] == s[i..i + 3];
    }
  }

  /** No piece contains a separator. */
  lemma {:induction false} SplitPiecesNoSep(s: string)
    ensures forall m | 0 <= m < |Split(s)| :: NoSep(Split(s)[m])
    decreases |s|
  {
    var k := FirstSep(s, 0);
    if k < |s| {
      SplitPiecesNoSep(s[k + SepLen(s, k)..]);
      forall i | 0 <= i < k ensures SepLen(s[..k], i) == 0 {
        SepLenPrefix(s, k, i);
      }
    }
  }

  /** Text without separators is one piece. */
  lemma SplitNoSep(s: string)
    requires NoSep(s)
    ensures Split(s) == [s] && Separators(s) == []
  {
  }

  /** Every character of a piece comes from the text. */
  lemma {:induction false} SplitPiecesFrom(s: string)
    ensures forall m, i | 0 <= m < |Split(s)| && 0 <= i < |Split(s)[m]| :: Split(s)[m][i] in s
    decreases |s|
  {
    var k := FirstSep(s, 0);
    if k < |s| {
      var rest := s[k + SepLen(s, k)..];
      SplitPiecesFrom(rest);
      forall m, i | 0 <= m < |Split(s)| && 0 <= i < |Split(s)[m]| ensures Split(s)[m][i] in s {
        if m == 0 {
          assert Split(s)[m][i] == s[i];
        } else {
          assert Split(s)[m] == Split(rest)[m - 1];
          var c := Split(s)[m][i];
          assert c in rest;
          var t :| 0 <= t < |rest| && rest[t] == c;
          assert s[k + SepLen(s, k) + t] == c;
        }
      }
    }
  }

  /** Comma-free text is never cut at a comma. */
  lemma {:induction false} NoCommaCut(s: string)
    requires ',' !in s
    ensures "," !in Separators(s)
    decreases |s|
  {
    var k := FirstSep(s, 0);
    if k < |s| {
      var n := SepLen(s, k);
      NoCommaCut(s[k + n..]);
      assert s[k..k + n][0] == s[k];
    }
  }

  /** A match of the conjunction that started before the end of `a` and ran
      into a following "/" would need that "/" to be a space or U+0648. */
  lemma NoSepBeforeSlash(a: string, rest: string, i: nat)
    requires NoSep(a) && i < |a|
    ensures SepLen(a + "/" + rest, i) == 0
  {
    var s := a + "/" + rest;
    assert s[i] == a[i] && SepLen(a, i) == 0;
    if i + 3 <= |s| {
      if i + 3 <= |a| {
        assert a[i..i + 3] == s[i..i + 3];
      } else {
        assert s[i..i + 3][|a| - i] == '/';
      }
    }
  }

  /** The leftmost match from `from` is at `k` when `k` matches and nothing
      between does. */
  lemma {:induction false} FirstSepAt(s: string, from: nat, k: nat)
    requires from <= k < |s| && SepLen(s, k) > 0
    requires forall i | from <= i < k :: SepLen(s, i) == 0
    ensures FirstSep(s, from) == k
    decreases k - from
  {
    if from < k {
      FirstSepAt(s, from + 1, k);
    }
  }

  /** Splitting undoes joining with "/" when no part contains a separator. */
  lemma {:induction false} SplitJoin(xs: seq<string>)
    requires |xs| > 0 && forall m | 0 <= m < |xs| :: NoSep(xs[m])
    ensures Split(Join(xs, "/")) == xs
    decreases |xs|
  {
    if |xs| == 1 {
      SplitNoSep(xs[0]);
    } else {
      var a := xs[0];
      var rest := Join(xs[1..], "/");
      var s := Join(xs, "/");
      assert s == a + "/" + rest;
      forall i | 0 <= i < |a| ensures SepLen(s, i) == 0 {
        NoSepBeforeSlash(a, rest, i);
      }
      assert s[|a|] == '/';
      FirstSepAt(s, 0, |a|);
      assert s[..|a|] == a && s[|a| + 1..] == rest;
      SplitJoin(xs[1..]);
    }
  }
}
