/** Per-cell normalisation (`HierarchicalCleaner._normalize_value`): trim,
    translate Persian digits to ASCII, delete ASCII commas, and classify the
    cell as a number exactly when the whole text is a numeric literal. */
module Normalization {
  import opened Text
  import opened Cells

  /** The ten Persian (Extended Arabic-Indic) digits U+06F0..U+06F9, the only
      characters the translation table maps. */
  predicate IsPersianDigit(c: char) {
    '\U{06F0}' <= c <= '\U{06F9}'
  }

  predicate NoPersianDigit(s: string) {
    forall i | 0 <= i < |s| :: !IsPersianDigit(s[i])
  }

  function TranslateDigit(c: char): (r: char)
    ensures IsPersianDigit(c) ==> '0' <= r <= '9' && r as int - '0' as int == c as int - 0x06F0
    ensures !IsPersianDigit(c) ==> r == c
  {
    if IsPersianDigit(c) then (c as int - 0x06F0 + '0' as int) as char else c
  }

  /** `s.translate(PERSIAN_DIGITS)`. */
  function TranslateDigits(s: string): (r: string)
    ensures |r| == |s|
    ensures forall i | 0 <= i < |s| :: r[i] == TranslateDigit(s[i])
    ensures NoPersianDigit(r)
  {
    seq(|s|, i requires 0 <= i < |s| => TranslateDigit(s[i]))
  }

  /** `s.replace(",", "")`: every ASCII comma deleted, every other character
      kept in order. */
  function RemoveCommas(s: string): (r: string)
    ensures ',' !in r
    ensures forall i | 0 <= i < |r| :: r[i] in s
  {
    if |s| == 0 then ""
    else
      assert s == [s[0]] + s[1..];
      (if s[0] == ',' then "" else [s[0]]) + RemoveCommas(s[1..])
  }

  /** Every character other than a comma is kept as often as it occurs. */
  lemma {:induction false} RemoveCommasCounts(s: string)
    ensures forall c | c != ',' :: multiset(RemoveCommas(s))[c] == multiset(s)[c]
  {
    if |s| > 0 {
      RemoveCommasCounts(s[1..]);
      assert s == [s[0]] + s[1..];
    }
  }

  lemma {:induction false} RemoveCommasNone(s: string)
    requires ',' !in s
    ensures RemoveCommas(s) == s
  {
    if |s| > 0 {
      RemoveCommasNone(s[1..]);
    }
  }

  /** Commas are removed piece by piece. */
  lemma {:induction false} RemoveCommasAppend(a: string, b: string)
    ensures RemoveCommas(a + b) == RemoveCommas(a) + RemoveCommas(b)
    decreases |a|
  {
    if |a| > 0 {
      RemoveCommasAppend(a[1..], b);
      assert (a + b)[0] == a[0] && (a + b)[1..] == a[1..] + b;
    } else {
      assert a + b == b;
    }
  }

  /** A comma between two comma-free parts is dropped. */
  lemma RemoveCommasAround(a: string, b: string)
    requires ',' !in a && ',' !in b
    ensures RemoveCommas(a + "," + b) == a + b
  {
    RemoveCommasAppend(a, "," + b);
    assert a + "," + b == a + ("," + b);
    RemoveCommasNone(a);
    RemoveLeadingComma(b);
    RemoveCommasNone(b);
  }

  lemma RemoveLeadingComma(b: string)
    ensures RemoveCommas("," + b) == RemoveCommas(b)
  {
    assert ("," + b)[1..] == b;
  }

  /** The text the cleaner derives from a present cell before classifying it:
      stripped, then digit-translated, then comma-free. */
  function NormalText(raw: string): (t: string)
    ensures ',' !in t && NoPersianDigit(t)
  {
    var t := RemoveCommas(TranslateDigits(Strip(raw)));
    assert NoPersianDigit(t) by {
      forall i | 0 <= i < |t| ensures !IsPersianDigit(t[i]) {
        assert t[i] in TranslateDigits(Strip(raw));
      }
    }
    t
  }

  lemma TranslateDigitsNone(s: string)
    requires NoPersianDigit(s)
    ensures TranslateDigits(s) == s
  {
  }

  /** On text that has no comma and no Persian digit, the normal form is just
      the stripped text. */
  lemma NormalTextOfClean(raw: string)
    requires ',' !in raw && NoPersianDigit(raw)
    ensures NormalText(raw) == Strip(raw)
  {
    var u := Strip(raw);
    StripKeepsClean(raw);
    TranslateDigitsNone(u);
    RemoveCommasNone(u);
  }

  lemma StripKeepsClean(raw: string)
    requires ',' !in raw && NoPersianDigit(raw)
    ensures ',' !in Strip(raw) && NoPersianDigit(Strip(raw))
  {
    var u := Strip(raw);
    var i, j := StripSlice(raw);
    assert forall k | 0 <= k < |u| :: u[k] == raw[i + k];
  }

  /** On text without surrounding whitespace or Persian digits, the normal
      form only deletes the commas. */
  lemma NormalTextPlain(s: string)
    requires Stripped(s) && NoPersianDigit(s)
    ensures NormalText(s) == RemoveCommas(s)
  {
    StripFixpoint(s);
    TranslateDigitsNone(s);
  }

  /** `\d+(\.\d+)?` matched against the whole of `u`. */
  predicate IsUnsignedLiteral(u: string) {
    || (|u| > 0 && AllDigits(u))
    || exists k | 0 < k < |u| - 1 :: u[k] == '.' && AllDigits(u[..k]) && AllDigits(u[k + 1..])
  }

  /** `-?\d+(\.\d+)?` matched against the whole of `s`. */
  predicate IsNumericLiteral(s: string) {
    if |s| > 0 && s[0] == '-' then IsUnsignedLiteral(s[1..]) else IsUnsignedLiteral(s)
  }

  /** What `re.match(r'^-?\d+(\.\d+)?$', s)` accepts, as the literal it
      covers: Python's `$` also matches just before a final line feed, so a
      literal followed by one `\n` is accepted too (the `\n` is not part of the
      number that `float` reads). */
  function MatchedLiteral(s: string): (r: Option<string>)
    ensures r.Some? ==> IsNumericLiteral(r.value)
    ensures r.Some? <==> IsNumericLiteral(s) || (|s| > 0 && s[|s| - 1] == '\n' && IsNumericLiteral(s[..|s| - 1]))
    ensures r.Some? ==> r.value == s || r.value + "\n" == s
  {
    if IsNumericLiteral(s) then Some(s)
    else if |s| > 0 && s[|s| - 1] == '\n' && IsNumericLiteral(s[..|s| - 1]) then Some(s[..|s| - 1])
    else None
  }

  /** `_normalize_value`. It never fails: a missing cell stays missing, a
      present one becomes a number exactly when its normalised text matches the
      numeric pattern, and text otherwise. A number carries the normalised text
      itself, less the one final line feed the pattern lets through. */
  function Normalize(raw: RawCell): (c: Cell)
    ensures raw.None? <==> c == Empty
    ensures !c.List?
    ensures c.Num? <==> raw.Some? && MatchedLiteral(NormalText(raw.value)).Some?
    ensures c.Num? ==> IsNumericLiteral(c.lit) && ',' !in c.lit && NoPersianDigit(c.lit)
    ensures c.Num? ==> c.lit == NormalText(raw.value) || c.lit + "\n" == NormalText(raw.value)
    ensures c.Text? ==> c.s == NormalText(raw.value) && MatchedLiteral(c.s).None?
    ensures c.Text? ==> ',' !in c.s && NoPersianDigit(c.s)
  {
    match raw
    case None => Empty
    case Some(v) =>
      var t := NormalText(v);
      match MatchedLiteral(t)
      case Some(lit) =>
        assert forall i | 0 <= i < |lit| :: lit[i] == t[i];
        Num(lit)
      case None => Text(t)
  }

  /** A present cell whose normal text does not match the numeric pattern
      becomes that text. */
  lemma NormalizeToText(raw: string, t: string)
    requires NormalText(raw) == t && MatchedLiteral(t).None?
    ensures Normalize(Some(raw)) == Text(t)
  {
  }

  /** Normalising the text of a `Text` result again gives back the same `Text`
      exactly when that text has no surrounding whitespace. Stripping happens
      before the commas go, so a comma at either end can expose whitespace
      (see `EdgeCommaExposesSpace`). */
  lemma TextRenormalization(raw: RawCell)
    requires Normalize(raw).Text?
    ensures Normalize(Some(Normalize(raw).s)) == Normalize(raw) <==> Stripped(Normalize(raw).s)
  {
    var t := Normalize(raw).s;
    NormalTextOfClean(t);
    if Stripped(t) {
      StripFixpoint(t);
      assert MatchedLiteral(t).None?;
    } else {
      assert Strip(t) != t;
    }
  }

  /** A numeric literal starts with a digit or '-' and ends with a digit. */
  lemma NumericLiteralEnds(s: string)
    requires IsNumericLiteral(s)
    ensures |s| > 0 && (IsDigit(s[0]) || s[0] == '-') && IsDigit(s[|s| - 1])
  {
    var u := if |s| > 0 && s[0] == '-' then s[1..] else s;
    assert IsUnsignedLiteral(u);
    if !(|u| > 0 && AllDigits(u)) {
      var k :| 0 < k < |u| - 1 && u[k] == '.' && AllDigits(u[..k]) && AllDigits(u[k + 1..]);
      assert u[0] == u[..k][0];
      assert u[|u| - 1] == u[k + 1..][|u| - k - 2];
    }
    assert u[|u| - 1] == s[|s| - 1];
  }

  /** Normalising the literal of a `Num` result again gives the same `Num`:
      a number is a fixpoint of normalisation. */
  lemma NumRenormalization(raw: RawCell)
    requires Normalize(raw).Num?
    ensures Normalize(Some(Normalize(raw).lit)) == Normalize(raw)
  {
    var lit := Normalize(raw).lit;
    NumericLiteralEnds(lit);
    NormalTextPlain(lit);
    RemoveCommasNone(lit);
    NormalizeToNum(lit, lit);
  }

  /** A comma before a space at the front of a text: the first pass deletes
      the comma and leaves the space, the second pass strips the space. So
      `", " + x` becomes `" " + x` and then `x`. */
  lemma EdgeCommaExposesSpace(x: string)
    requires |x| > 0 && Stripped(x) && ',' !in x && NoPersianDigit(x) && MatchedLiteral(x).None?
    ensures Normalize(Some(", " + x)) == Text(" " + x)
    ensures Normalize(Some(" " + x)) == Text(x)
  {
    EdgeCommaFirstPass(x);
    NotNumeric(" " + x, 0);
    NormalizeToText(", " + x, " " + x);
    EdgeCommaSecondPass(x);
    NormalizeToText(" " + x, x);
  }

  lemma EdgeCommaFirstPass(x: string)
    requires |x| > 0 && Stripped(x) && ',' !in x && NoPersianDigit(x)
    ensures NormalText(", " + x) == " " + x
  {
    var s := ", " + x;
    PrefixedClean(", ", x);
    NormalTextPlain(s);
    assert s == "," + (" " + x);
    RemoveLeadingComma(" " + x);
    PrefixedClean(" ", x);
    RemoveCommasNone(" " + x);
  }

  /** Putting ", " or " " in front of a clean, stripped `x`. */
  lemma PrefixedClean(p: string, x: string)
    requires |x| > 0 && Stripped(x) && ',' !in x && NoPersianDigit(x)
    requires p == ", " || p == " "
    ensures NoPersianDigit(p + x)
    ensures p == ", " ==> Stripped(p + x)
    ensures p == " " ==> ',' !in p + x
  {
    var s := p + x;
    assert s[|s| - 1] == x[|x| - 1];
    forall k | |p| <= k < |s| ensures s[k] == x[k - |p|] {
    }
  }

  lemma EdgeCommaSecondPass(x: string)
    requires |x| > 0 && Stripped(x) && ',' !in x && NoPersianDigit(x)
    ensures NormalText(" " + x) == x
  {
    var s := " " + x;
    PrefixedClean(" ", x);
    NormalTextOfClean(s);
    StripPadded(" ", x, "");
    assert " " + x + "" == s;
    StripFixpoint(x);
  }

  /** A string with a character other than a digit, '.' or '-' at position
      `k`, and no final line feed, is not a numeric literal. */
  lemma NotNumeric(s: string, k: nat)
    requires k < |s| && !IsDigit(s[k]) && s[k] != '.' && s[k] != '-' && s[|s| - 1] != '\n'
    ensures MatchedLiteral(s).None?
  {
    var u := if |s| > 0 && s[0] == '-' then s[1..] else s;
    var k' := if |s| > 0 && s[0] == '-' then k - 1 else k;
    assert u[k'] == s[k];
    forall m | 0 < m < |u| - 1 && u[m] == '.'
      ensures !(AllDigits(u[..m]) && AllDigits(u[m + 1..]))
    {
      if k' < m {
        assert u[..m][k'] == u[k'];
      } else {
        assert u[m + 1..][k' - m - 1] == u[k'];
      }
    }
  }

  /** Digits as `float` reads them without translation. */
  predicate AsciiDigits(s: string) {
    forall i | 0 <= i < |s| :: '0' <= s[i] <= '9'
  }

  /** A present cell whose normal text is a numeric literal becomes that
      number. */
  lemma NormalizeToNum(raw: string, lit: string)
    requires NormalText(raw) == lit && IsNumericLiteral(lit)
    ensures Normalize(Some(raw)) == Num(lit)
  {
  }

  /** A run of ASCII digits is an unsigned numeric literal. */
  lemma DigitsAreNumeric(s: string)
    requires |s| > 0 && AsciiDigits(s)
    ensures IsNumericLiteral(s) && NoPersianDigit(s) && ',' !in s && Stripped(s)
  {
    assert AllDigits(s);
  }

  /** A comma between two comma-free parts is dropped by the normal form. */
  lemma InnerCommaDropped(a: string, b: string)
    requires ',' !in a && ',' !in b && NoPersianDigit(a) && NoPersianDigit(b)
    requires Stripped(a + "," + b)
    ensures NormalText(a + "," + b) == a + b
  {
    JoinedNoPersianDigit(a, ",", b);
    NormalTextPlain(a + "," + b);
    RemoveCommasAround(a, b);
  }

  lemma JoinedNoPersianDigit(a: string, m: string, b: string)
    requires NoPersianDigit(a) && NoPersianDigit(m) && NoPersianDigit(b)
    ensures NoPersianDigit(a + m + b)
  {
    var s := a + m + b;
    forall k | 0 <= k < |s| ensures !IsPersianDigit(s[k]) {
      if k < |a| {
        assert s[k] == a[k];
      } else if k < |a| + |m| {
        assert s[k] == m[k - |a|];
      } else {
        assert s[k] == b[k - |a| - |m|];
      }
    }
  }

  /** Thousands separators: ASCII digits with an ASCII comma between them read
      as the number the digits spell without it ("1,234" is 1234). */
  lemma ThousandsSeparators(a: string, b: string)
    requires |a| > 0 && |b| > 0 && AsciiDigits(a) && AsciiDigits(b)
    ensures Normalize(Some(a + "," + b)) == Num(a + b)
  {
    DigitsAreNumeric(a);
    DigitsAreNumeric(b);
    var s := a + "," + b;
    assert s[0] == a[0] && s[|s| - 1] == b[|b| - 1];
    InnerCommaDropped(a, b);
    assert AsciiDigits(a + b) by {
      forall k | 0 <= k < |a + b| ensures '0' <= (a + b)[k] <= '9' {
        if k >= |a| {
          assert (a + b)[k] == b[k - |a|];
        }
      }
    }
    DigitsAreNumeric(a + b);
    NormalizeToNum(s, a + b);
  }

  /** Persian digits are read as the number their ASCII translation spells
      ("۱۲۳۴" is 1234). */
  lemma PersianDigits(s: string)
    requires |s| > 0 && forall i | 0 <= i < |s| :: IsPersianDigit(s[i])
    ensures Normalize(Some(s)) == Num(TranslateDigits(s))
  {
    var t := TranslateDigits(s);
    assert !IsSpace(s[0]) && !IsSpace(s[|s| - 1]);
    StripFixpoint(s);
    assert AsciiDigits(t);
    DigitsAreNumeric(t);
    RemoveCommasNone(t);
    NormalizeToNum(s, t);
  }

  /** Digits as `\d` reads them in the text: ASCII or Persian. */
  predicate DigitRun(s: string) {
    |s| > 0 && forall i | 0 <= i < |s| :: '0' <= s[i] <= '9' || IsPersianDigit(s[i])
  }

  /** The Arabic thousands mark U+066C is not an ASCII comma, and only the
      Persian digits are translated: the mark stays, and the text around it is
      not a number ("۱٬۲۳۴" stays text, as "1\u066C234"). */
  lemma ArabicMarkKept(a: string, b: string)
    requires DigitRun(a) && DigitRun(b)
    ensures Normalize(Some(a + "\U{066C}" + b)) == Text(TranslateDigits(a) + "\U{066C}" + TranslateDigits(b))
  {
    var s := a + "\U{066C}" + b;
    var ta, tb := TranslateDigits(a), TranslateDigits(b);
    var u := ta + "\U{066C}" + tb;
    assert s[0] == a[0] && s[|s| - 1] == b[|b| - 1];
    StripFixpoint(s);
    TranslateJoined(a, "\U{066C}", b);
    TranslatedDigitRun(a);
    TranslatedDigitRun(b);
    DigitsAreNumeric(ta);
    DigitsAreNumeric(tb);
    JoinedNoComma(ta, "\U{066C}", tb);
    RemoveCommasNone(u);
    assert NormalText(s) == u;
    assert u[|ta|] == '\U{066C}' && u[|u| - 1] == tb[|tb| - 1];
    NotNumeric(u, |ta|);
    NormalizeToText(s, u);
  }

  /** Translation works character by character. */
  lemma TranslateJoined(a: string, m: string, b: string)
    requires NoPersianDigit(m)
    ensures TranslateDigits(a + m + b) == TranslateDigits(a) + m + TranslateDigits(b)
  {
    var s := a + m + b;
    var r := TranslateDigits(a) + m + TranslateDigits(b);
    forall k | 0 <= k < |s| ensures TranslateDigits(s)[k] == r[k] {
      if k < |a| {
        assert s[k] == a[k];
      } else if k < |a| + |m| {
        assert s[k] == m[k - |a|];
      } else {
        assert s[k] == b[k - |a| - |m|];
      }
    }
  }

  /** A run of ASCII or Persian digits translates to ASCII digits. */
  lemma TranslatedDigitRun(s: string)
    requires DigitRun(s)
    ensures |TranslateDigits(s)| > 0 && AsciiDigits(TranslateDigits(s))
  {
  }

  lemma JoinedNoComma(a: string, m: string, b: string)
    requires ',' !in a && ',' !in m && ',' !in b
    ensures ',' !in a + m + b
  {
  }

  /** Python's `$` before a final line feed: a comma after the line feed keeps
      `strip` from removing it, the comma then goes, and the digits before the
      line feed still read as a number ("12\n," is 12). */
  lemma LineFeedBeforeEnd(a: string)
    requires |a| > 0 && AsciiDigits(a)
    ensures Normalize(Some(a + "\n,")) == Num(a)
  {
    DigitsAreNumeric(a);
    var s := a + "\n" + "," + "";
    assert s == a + "\n,";
    assert s[0] == a[0];
    assert NoPersianDigit(a + "\n") by {
      forall k | 0 <= k < |a| ensures (a + "\n")[k] == a[k] {
      }
    }
    InnerCommaDropped(a + "\n", "");
    assert a + "\n" + "" == a + "\n";
    LineFeedMatch(a);
  }

  /** The pattern accepts digits followed by one line feed, as the digits. */
  lemma LineFeedMatch(a: string)
    requires |a| > 0 && AsciiDigits(a)
    ensures MatchedLiteral(a + "\n") == Some(a)
  {
    DigitsAreNumeric(a);
    var s := a + "\n";
    assert s[..|s| - 1] == a;
    NotNumericAtEnd(s);
  }

  /** A text whose last character is not a digit is not a numeric literal. */
  lemma NotNumericAtEnd(s: string)
    requires |s| > 0 && !IsDigit(s[|s| - 1])
    ensures !IsNumericLiteral(s)
  {
    var u := if s[0] == '-' then s[1..] else s;
    if |u| > 0 {
      assert u[|u| - 1] == s[|s| - 1];
      forall m | 0 < m < |u| - 1 && u[m] == '.'
        ensures !AllDigits(u[m + 1..])
      {
        assert u[m + 1..][|u| - m - 2] == u[|u| - 1];
      }
    }
  }
}
