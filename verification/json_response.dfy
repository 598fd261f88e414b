/** `LLMJsonEngine._clean_json_response`: the JSON text inside a language
    model's reply. The first choice is the body of a Markdown code fence, as
    `re.search` finds it with the pattern "```(?:json)?\s*([\s\S]*?)\s*```";
    failing that, the text from the first "{" to the last "}"; failing that,
    the whole reply. Whatever is chosen is stripped. */
module JsonResponse {
  import opened Text
  import Cells

  const Fence: string := "```"

  /** The optional language tag after the opening fence. */
  const Tag: string := "json"

  predicate FenceAt(s: string, i: nat) {
    i + 3 <= |s| && s[i..i + 3] == Fence
  }

  predicate TagAt(s: string, i: nat) {
    i + 4 <= |s| && s[i..i + 4] == Tag
  }

  /** One way for the pattern to match `s`: the opening fence at `p`, the
      optional tag ending at `b`, whitespace up to `e`, the captured group
      `s[e..g]`, whitespace up to `t` and the closing fence at `t`. */
  datatype Match = Match(p: nat, b: nat, e: nat, g: nat, t: nat)

  predicate IsMatch(s: string, m: Match) {
    && FenceAt(s, m.p)
    && (m.b == m.p + 3 || (m.b == m.p + 7 && TagAt(s, m.p + 3)))
    && m.b <= m.e <= m.g <= m.t
    && FenceAt(s, m.t)
    && SpaceBetween(s, m.b, m.e) && SpaceBetween(s, m.g, m.t)
  }

  /** The order in which `re.search` tries the matches: leftmost start first;
      at one start, the tag before no tag (`?` is greedy), more leading
      whitespace before less (`\s*` is greedy), a shorter group before a longer
      one (`*?` is lazy). The trailing `\s*` is greedy too, but once the group
      ends the closing fence is fixed: a fence cannot start inside whitespace
      (`ClosingFenceFixed`), so the last clause compares equal positions. The
      match returned is the first that succeeds. */
  predicate TriedBefore(m: Match, n: Match) {
    || m.p < n.p
    || (m.p == n.p && m.b > n.b)
    || (m.p == n.p && m.b == n.b && m.e > n.e)
    || (m.p == n.p && m.b == n.b && m.e == n.e && m.g < n.g)
    || (m.p == n.p && m.b == n.b && m.e == n.e && m.g == n.g && m.t <= n.t)
  }

  /** Two matches whose groups end at the same place close at the same fence. */
  lemma ClosingFenceFixed(s: string, m: Match, n: Match)
    requires IsMatch(s, m) && IsMatch(s, n) && m.g == n.g
    ensures m.t == n.t
  {
    FenceNotSpace(s, m.t);
    FenceNotSpace(s, n.t);
  }

  lemma FenceNotSpace(s: string, i: nat)
    requires FenceAt(s, i)
    ensures !IsSpace(s[i])
  {
    assert s[i] == s[i..i + 3][0];
  }

  /** The first fence at or after `from`, or `|s|` when there is none. */
  function FirstFence(s: string, from: nat): (k: nat)
    requires from <= |s|
    ensures from <= k <= |s|
    ensures k < |s| ==> FenceAt(s, k)
    ensures forall i | from <= i < k :: !FenceAt(s, i)
    decreases |s| - from
  {
    if from == |s| || FenceAt(s, from) then from else FirstFence(s, from + 1)
  }

  /** Where the group may start: after the tag when one follows the fence. */
  function BodyStart(s: string, p: nat): (b: nat)
    requires FenceAt(s, p)
    ensures p + 3 <= b <= |s|
  {
    if TagAt(s, p + 3) then p + 7 else p + 3
  }

  /** The match `re.search` returns, if any. */
  function FenceMatch(s: string): (r: Cells.Option<Match>)
    ensures r.Some? ==> IsMatch(s, r.value)
    ensures r.Some? && r.value.e < r.value.g ==> !IsSpace(s[r.value.e]) && !IsSpace(s[r.value.g - 1])
  {
    var p := FirstFence(s, 0);
    if p == |s| then Cells.None
    else
      var b := BodyStart(s, p);
      var t := FirstFence(s, b);
      if t == |s| then Cells.None
      else
        var e := SkipSpace(s, b, t);
        var g := BackSpace(s, e, t);
        Cells.Some(Match(p, b, e, g, t))
  }

  /** `str.find(c)`: the first index of `c`, or `|s|` where Python gives -1. */
  function Find(s: string, c: char): (k: nat)
    ensures k <= |s| && (k < |s| ==> s[k] == c)
    ensures k < |s| <==> c in s
    ensures forall i | 0 <= i < k :: s[i] != c
  {
    FindFrom(s, c, 0)
  }

  function FindFrom(s: string, c: char, i: nat): (k: nat)
    requires i <= |s|
    ensures i <= k <= |s| && (k < |s| ==> s[k] == c)
    ensures forall m | i <= m < k :: s[m] != c
    decreases |s| - i
  {
    if i == |s| || s[i] == c then i else FindFrom(s, c, i + 1)
  }

  /** `str.rfind(c)`: the last index of `c`, or -1. */
  function RFind(s: string, c: char): (k: int)
    ensures -1 <= k < |s| && (k >= 0 ==> s[k] == c)
    ensures k >= 0 <==> c in s
    ensures forall i | k < i < |s| :: s[i] != c
  {
    RFindBelow(s, c, |s|)
  }

  function RFindBelow(s: string, c: char, j: nat): (k: int)
    requires j <= |s|
    ensures -1 <= k < j && (k >= 0 ==> s[k] == c)
    ensures forall m | k < m < j :: s[m] != c
  {
    if j == 0 then -1 else if s[j - 1] == c then j - 1 else RFindBelow(s, c, j - 1)
  }

  /** `_clean_json_response`. */
  function CleanResponse(s: string): (r: string)
    ensures Stripped(r)
  {
    match FenceMatch(s)
    case Some(m) => StripRange(s, m.e, m.g)
    case None => Fallback(s)
  }

  /** The reply without a fence match: the text from the first "{" to the
      last "}" when both occur, else the whole reply; stripped either way. */
  function Fallback(s: string): (r: string)
    ensures Stripped(r)
  {
    BraceText(s, Find(s, '{'), RFind(s, '}'))
  }

  /** The fallback for given positions of the first "{" (`|s|` when there is
      none) and the last "}" (-1 when there is none). When the last "}" comes
      before the first "{", Python's slice `s[start:end+1]` is empty, and so is
      its stripped form. */
  function BraceText(s: string, start: nat, end: int): (r: string)
    requires start <= |s| && -1 <= end < |s|
    ensures Stripped(r)
  {
    if start < |s| && end >= 0 then
      if start <= end then StripRange(s, start, end + 1) else ""
    else StripRange(s, 0, |s|)
  }

  /** A slice whose ends are not whitespace is its own stripped form. */
  lemma StripRangeOfStripped(s: string, i: nat, j: nat)
    requires i <= j <= |s| && (i < j ==> !IsSpace(s[i]) && !IsSpace(s[j - 1]))
    ensures StripRange(s, i, j) == s[i..j]
  {
  }

  /** The match chosen is the first match in the engine's order: whenever the
      pattern can match at all, `FenceMatch` finds a match, and it comes before
      every other one. */
  lemma MatchFirstInOrder(s: string, n: Match)
    requires IsMatch(s, n)
    ensures FenceMatch(s).Some? && TriedBefore(FenceMatch(s).value, n)
  {
    var p := FirstFence(s, 0);
    var b := BodyStart(s, p);
    ClosingAfterBody(s, p, n);
    var t := FirstFence(s, b);
    var m := FenceMatch(s).value;
    if n.p == p && n.b == b {
      LeadingSpaceGreedy(s, b, t, n.e, n.t);
      if n.e == m.e {
        TrailingSpaceLazy(s, m.e, t, n.g, n.t);
      }
    }
  }

  /** A closing fence of any match lies at or after where the group of the
      first fence may start: a fence cannot start inside the tag. */
  lemma ClosingAfterBody(s: string, p: nat, n: Match)
    requires p == FirstFence(s, 0) && IsMatch(s, n)
    ensures p <= n.p && BodyStart(s, p) <= n.t
  {
    assert s[n.t] == s[n.t..n.t + 3][0];
    if TagAt(s, p + 3) {
      TagHasNoBacktick(s, p + 3);
    }
  }

  lemma TagHasNoBacktick(s: string, q: nat)
    requires TagAt(s, q)
    ensures forall i | q <= i < q + 4 :: s[i] != '`'
  {
    forall i | q <= i < q + 4 ensures s[i] != '`' {
      assert s[i] == s[q..q + 4][i - q];
    }
  }

  /** Greedy leading whitespace: no match with the same start and tag has
      more of it than the whitespace run before the first closing fence. */
  lemma LeadingSpaceGreedy(s: string, b: nat, t: nat, e': nat, t': nat)
    requires b <= t < |s| && FenceAt(s, t) && t <= t'
    requires b <= e' <= t' <= |s| && SpaceBetween(s, b, e')
    ensures e' <= SkipSpace(s, b, t)
  {
    assert s[t] == s[t..t + 3][0];
  }

  /** Lazy group: no match with the same leading whitespace has a shorter
      group. */
  lemma TrailingSpaceLazy(s: string, e: nat, t: nat, g': nat, t': nat)
    requires e <= t < |s| && FenceAt(s, t) && t <= t'
    requires e <= g' <= t' <= |s| && SpaceBetween(s, g', t')
    ensures BackSpace(s, e, t) <= g'
  {
  }

  /** With a fence match the result is the captured group, which is already
      stripped, and equals the stripped text between the tag and the closing
      fence. */
  lemma FencedBody(s: string)
    requires FenceMatch(s).Some?
    ensures var m := FenceMatch(s).value;
      CleanResponse(s) == s[m.e..m.g] && CleanResponse(s) == Strip(s[m.b..m.t])
  {
    var m := FenceMatch(s).value;
    FencedGroup(s, m);
    GroupIsStrippedBody(s, m.b, m.e, m.g, m.t);
  }

  /** A stripped middle part between whitespace is the stripped whole. */
  lemma GroupIsStrippedBody(s: string, b: nat, e: nat, g: nat, t: nat)
    requires b <= e <= g <= t <= |s| && SpaceBetween(s, b, e) && SpaceBetween(s, g, t)
    requires e < g ==> !IsSpace(s[e]) && !IsSpace(s[g - 1])
    ensures s[e..g] == Strip(s[b..t])
  {
    StripRangeAt(s, b, t, e, g);
    StripRangeIsStrip(s, b, t);
  }

  lemma FencedGroup(s: string, m: Match)
    requires FenceMatch(s) == Cells.Some(m)
    ensures CleanResponse(s) == s[m.e..m.g]
  {
    StripRangeOfStripped(s, m.e, m.g);
  }

  /** The result is always a piece of the reply. */
  lemma ResultIsSlice(s: string) returns (i: nat, j: nat)
    ensures i <= j <= |s| && CleanResponse(s) == s[i..j]
  {
    if FenceMatch(s).Some? {
      FencedGroup(s, FenceMatch(s).value);
      i, j := FenceMatch(s).value.e, FenceMatch(s).value.g;
    } else {
      i, j := BraceTextIsSlice(s, Find(s, '{'), RFind(s, '}'));
    }
  }

  lemma BraceTextIsSlice(s: string, start: nat, end: int) returns (i: nat, j: nat)
    requires start <= |s| && -1 <= end < |s|
    ensures i <= j <= |s| && BraceText(s, start, end) == s[i..j]
  {
    if start < |s| && end >= 0 && start <= end {
      i, j := StripRangeIsSlice(s, start, end + 1);
    } else if start < |s| && end >= 0 {
      i, j := 0, 0;
    } else {
      i, j := StripRangeIsSlice(s, 0, |s|);
    }
  }

  lemma StripRangeIsSlice(s: string, a: nat, b: nat) returns (i: nat, j: nat)
    requires a <= b <= |s|
    ensures a <= i <= j <= b && StripRange(s, a, b) == s[i..j]
  {
    i := SkipSpace(s, a, b);
    j := BackSpace(s, i, b);
  }

  /** Without a fence match, a first "{" before a last "}" gives exactly the
      text between them, braces included. */
  lemma BracesAtEnds(s: string)
    requires FenceMatch(s).None? && Find(s, '{') < RFind(s, '}')
    ensures var r := CleanResponse(s);
      r == s[Find(s, '{')..RFind(s, '}') + 1] && |r| >= 2 && r[0] == '{' && r[|r| - 1] == '}'
  {
    var start, end := Find(s, '{'), RFind(s, '}');
    StripRangeOfStripped(s, start, end + 1);
    var r := s[start..end + 1];
    assert r[0] == s[start] && r[|r| - 1] == s[end];
  }

  /** Without a fence match, a last "}" before the first "{" gives the empty
      text. */
  lemma CrossedBraces(s: string)
    requires FenceMatch(s).None? && Find(s, '{') < |s| && 0 <= RFind(s, '}') < Find(s, '{')
    ensures CleanResponse(s) == ""
  {
  }

  /** Without a fence match and without one of the braces the reply is only
      stripped. */
  lemma NoBraces(s: string)
    requires FenceMatch(s).None? && ('{' !in s || '}' !in s)
    ensures CleanResponse(s) == Strip(s)
  {
  }

  /** A JSON text wrapped in a fence, tagged or not, comes back stripped. */
  lemma FencedRoundTrip(j: string, tag: string)
    requires '`' !in j && (tag == Tag || tag == "")
    ensures CleanResponse(Fence + tag + "\n" + j + "\n" + Fence) == Strip(j)
  {
    var mid := WrappedParts(tag, j);
    TaggedBody(Fence + tag + "\n" + j + "\n" + Fence, tag, mid);
  }

  /** The text between the tag and the closing fence. */
  lemma WrappedParts(tag: string, j: string) returns (mid: string)
    requires '`' !in j
    ensures Fence + tag + "\n" + j + "\n" + Fence == Fence + tag + mid + Fence
    ensures '`' !in mid && |mid| > 0 && mid[0] == '\n' && Strip(mid) == Strip(j)
  {
    mid := "\n" + j + "\n";
    assert mid == "\n" + j + "\n";
    StripPadded("\n", j, "\n");
  }

  lemma TaggedBody(s: string, tag: string, mid: string)
    requires s == Fence + tag + mid + Fence && (tag == Tag || tag == "")
    requires '`' !in mid && |mid| > 0 && mid[0] == '\n'
    ensures CleanResponse(s) == Strip(mid)
  {
    var b := 3 + |tag|;
    OpeningFence(s, tag, mid);
    BodyAfterTag(s, tag, mid);
    assert s[b..b + |mid|] == mid && s[b + |mid|..] == Fence;
    ClosingFence(s, b, mid);
    FenceBodyAt(s, 0, b, |s| - 3);
  }

  lemma BodyAfterTag(s: string, tag: string, mid: string)
    requires s == Fence + tag + mid + Fence && (tag == Tag || tag == "")
    requires |mid| > 0 && mid[0] == '\n' && FenceAt(s, 0)
    ensures BodyStart(s, 0) == 3 + |tag|
  {
    if tag == "" {
      assert s[3] == mid[0];
      if 7 <= |s| {
        assert s[3..7][0] == s[3];
      }
    } else {
      assert s[3..7] == tag;
    }
  }

  /** The body between the first fence's tag and the next fence is what is
      returned, stripped. */
  lemma FenceBodyAt(s: string, p: nat, b: nat, t: nat)
    requires p == FirstFence(s, 0) < |s| && b == BodyStart(s, p) && t == FirstFence(s, b) < |s|
    ensures CleanResponse(s) == Strip(s[b..t])
  {
    FencedBody(s);
  }

  /** An opening fence that is never closed is not a match: the reply falls
      back to the braces. */
  lemma UnclosedFence(j: string)
    requires '`' !in j
    ensures FenceMatch(Fence + Tag + j).None?
    ensures CleanResponse(Fence + Tag + j) == Fallback(Fence + Tag + j)
  {
    var s := Fence + Tag + j;
    assert s[0..3] == Fence;
    assert s[3..7] == Tag;
    forall i | 7 <= i < |s| ensures !FenceAt(s, i) {
      assert s[i] == j[i - 7];
      if i + 3 <= |s| {
        assert s[i..i + 3][0] == s[i];
      }
    }
  }

  lemma OpeningFence(s: string, tag: string, mid: string)
    requires s == Fence + tag + mid + Fence
    ensures FirstFence(s, 0) == 0
  {
    assert s[0..3] == Fence;
  }

  /** In `pre + mid + Fence` with no backtick in `mid`, the first fence from
      the end of `pre` is the last one. */
  lemma ClosingFence(s: string, b: nat, mid: string)
    requires b + |mid| + 3 == |s| && s[b..b + |mid|] == mid && s[b + |mid|..] == Fence
    requires '`' !in mid
    ensures FirstFence(s, b) == |s| - 3
  {
    var t := |s| - 3;
    forall i | b <= i < t ensures !FenceAt(s, i) {
      assert s[i] == s[b..b + |mid|][i - b] == mid[i - b];
      if i + 3 <= |s| {
        assert s[i..i + 3][0] == s[i];
      }
    }
    assert s[t..t + 3] == Fence;
    FirstFenceAt(s, b, t);
  }

  lemma {:induction false} FirstFenceAt(s: string, from: nat, k: nat)
    requires from <= k < |s| && FenceAt(s, k)
    requires forall i | from <= i < k :: !FenceAt(s, i)
    ensures FirstFence(s, from) == k
    decreases k - from
  {
    if from < k {
      FirstFenceAt(s, from + 1, k);
    }
  }
}
