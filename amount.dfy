/** The total-label matcher: case-insensitive keyword containment. */
module Labels {
  import opened Text

  const Keywords: seq<string> := ["total payable", "amount due", "grand total", "invoice total", "total"]

  /** is_total_keyword: some keyword occurs in the lower-cased text. */
  predicate IsTotalKeyword(text: string) {
    exists k :: 0 <= k < |Keywords| && Contains(Lower(text), Keywords[k])
  }

  /**
    Three of the five keywords contain "total", so a cell is a total label
    exactly when its lower-cased text contains "total" or "amount due".
   */
  lemma TotalKeywordIff(text: string)
    ensures IsTotalKeyword(text) <==> Contains(Lower(text), "total") || Contains(Lower(text), "amount due")
  {
    var low := Lower(text);
    assert OccursAt("total payable", "total", 0);
    assert OccursAt("grand total", "total", 6);
    assert OccursAt("invoice total", "total", 8);
    if IsTotalKeyword(text) {
      var k :| 0 <= k < |Keywords| && Contains(low, Keywords[k]);
      if k == 0 {
        ContainsWithin(low, "total payable", "total");
      } else if k == 2 {
        ContainsWithin(low, "grand total", "total");
      } else if k == 3 {
        ContainsWithin(low, "invoice total", "total");
      }
    }
    if Contains(low, "total") {
      assert Keywords[4] == "total";
    }
    if Contains(low, "amount due") {
      assert Keywords[1] == "amount due";
    }
  }

  /** Containment is not whole-word matching: "Subtotal" is a total label. */
  lemma SubtotalIsTotalLabel()
    ensures IsTotalKeyword("Subtotal")
  {
    assert Lower("Subtotal") == "subtotal";
    assert OccursAt("subtotal", "total", 3);
    TotalKeywordIff("Subtotal");
  }
}

/**
  The amount extractor: a hand-written matcher for the regular expression
  `\d[\d,]*(\.\d{1,2})?`, searched in the cell's text once its spaces are
  removed, and the exact value, in cents, of the amount it finds.
 */
module Amount {
  import opened Wrappers
  import opened Text

  predicate IsDigitOrComma(c: char) {
    IsDigit(c) || c == ','
  }

  /** The language of `\d[\d,]*`. */
  predicate IsIntegerPart(w: string) {
    |w| >= 1 && IsDigit(w[0]) && forall k :: 0 <= k < |w| ==> IsDigitOrComma(w[k])
  }

  /** The language of `(\.\d{1,2})?`. */
  predicate IsFractionPart(f: string) {
    f == [] || (2 <= |f| <= 3 && f[0] == '.' && forall k :: 1 <= k < |f| ==> IsDigit(f[k]))
  }

  /** `m` is an integer part of length `k` followed by a fraction part. */
  predicate SplitsAsNumber(m: string, k: nat) {
    k <= |m| && IsIntegerPart(m[..k]) && IsFractionPart(m[k..])
  }

  /** The language of `\d[\d,]*(\.\d{1,2})?`. */
  ghost predicate IsNumberToken(m: string) {
    exists k: nat :: SplitsAsNumber(m, k)
  }

  /**
    What `re.search` returns: `m` occurs at `i`, is in the language, no
    word of the language occurs earlier, and no longer word of the language
    occurs at `i`.
   */
  ghost predicate IsLeftmostLongest(s: string, i: nat, m: string) {
    && OccursAt(s, m, i)
    && IsNumberToken(m)
    && (forall j: nat, m': string :: j < i && OccursAt(s, m', j) ==> !IsNumberToken(m'))
    && (forall m': string :: OccursAt(s, m', i) && IsNumberToken(m') ==> |m'| <= |m|)
  }

  /** The end of the greedy run `[\d,]*` that starts at `j`. */
  function RunEnd(s: string, j: nat): (e: nat)
    requires j <= |s|
    ensures j <= e <= |s|
    ensures forall k :: j <= k < e ==> IsDigitOrComma(s[k])
    ensures e == |s| || !IsDigitOrComma(s[e])
    decreases |s| - j
  {
    if j == |s| || !IsDigitOrComma(s[j]) then j else RunEnd(s, j + 1)
  }

  /** The first digit at or after `i`. */
  function FindDigit(s: string, i: nat): (r: Option<nat>)
    requires i <= |s|
    ensures r.Some? ==> i <= r.value < |s| && IsDigit(s[r.value])
    decreases |s| - i
  {
    if i == |s| then None
    else if IsDigit(s[i]) then Some(i)
    else FindDigit(s, i + 1)
  }

  /** The search finds the first digit at or after `i`, and None exactly when there is none. */
  lemma {:induction false} FindDigitFirst(s: string, i: nat)
    requires i <= |s|
    ensures FindDigit(s, i).None? <==> forall k :: i <= k < |s| ==> !IsDigit(s[k])
    ensures FindDigit(s, i).Some? ==>
              var d := FindDigit(s, i).value;
              i <= d < |s| && IsDigit(s[d]) && forall k :: i <= k < d ==> !IsDigit(s[k])
    decreases |s| - i
  {
    if i < |s| && !IsDigit(s[i]) {
      FindDigitFirst(s, i + 1);
    }
  }

  /** The end of the match that starts at the digit `s[i]`: the greedy run, then one or two decimals if present. */
  function MatchEnd(s: string, i: nat): nat
    requires i < |s| && IsDigit(s[i])
  {
    var run := RunEnd(s, i + 1);
    if run + 1 < |s| && s[run] == '.' && IsDigit(s[run + 1]) then
      if run + 2 < |s| && IsDigit(s[run + 2]) then run + 3 else run + 2
    else run
  }

  /** The match that starts at a digit is in the language, and no longer word of the language starts there. */
  lemma MatchEndLongest(s: string, i: nat)
    requires i < |s| && IsDigit(s[i])
    ensures i < MatchEnd(s, i) <= |s|
    ensures IsNumberToken(s[i..MatchEnd(s, i)])
    ensures forall m :: OccursAt(s, m, i) && IsNumberToken(m) ==> |m| <= MatchEnd(s, i) - i
  {
    var run := RunEnd(s, i + 1);
    var e := MatchEnd(s, i);
    var m := s[i..e];
    var w := m[..run - i];
    forall q | 0 <= q < |w| ensures IsDigitOrComma(w[q]) {
      assert w[q] == s[i + q];
    }
    assert IsIntegerPart(w);
    var f := m[run - i..];
    if e > run {
      assert f[0] == s[run];
      forall q | 1 <= q < |f| ensures IsDigit(f[q]) {
        assert f[q] == s[run + q];
      }
    }
    assert IsFractionPart(f);
    assert SplitsAsNumber(m, run - i);
    forall m' | OccursAt(s, m', i) && IsNumberToken(m') ensures |m'| <= e - i {
      var k: nat :| SplitsAsNumber(m', k);
      assert forall q :: 0 <= q < |m'| ==> m'[q] == s[i + q];
      forall q | i <= q < i + k ensures IsDigitOrComma(s[q]) {
        assert m'[..k][q - i] == m'[q - i];
      }
      assert i + k <= run;
      if k < |m'| {
        assert m'[k..][0] == m'[k];
        assert s[i + k] == '.';
        assert i + k == run;
        assert m'[k..][1] == m'[k + 1];
        if |m'| == k + 3 {
          assert m'[k..][2] == m'[k + 2];
        }
      }
    }
  }

  /** extract_number: `re.search(r'\d[\d,]*(\.\d{1,2})?', text.replace(" ", ""))`. */
  function ExtractNumber(text: string): Option<string> {
    var s := Without(text, ' ');
    match FindDigit(s, 0)
    case None => None
    case Some(i) => Some(s[i..MatchEnd(s, i)])
  }

  /** No amount is found exactly when the space-free text holds no digit. */
  lemma ExtractNumberNone(text: string)
    ensures ExtractNumber(text).None? <==> forall k :: 0 <= k < |Without(text, ' ')| ==> !IsDigit(Without(text, ' ')[k])
  {
    var s := Without(text, ' ');
    FindDigitFirst(s, 0);
    assert ExtractNumber(text).None? <==> FindDigit(s, 0).None?;
  }

  /** A word of the language starts with a digit, so none occurs where there is no digit. */
  lemma NoTokenWithoutDigit(s: string, m: string, j: nat)
    requires OccursAt(s, m, j) && j < |s| && !IsDigit(s[j])
    ensures !IsNumberToken(m)
  {
    if m != [] {
      assert m[0] == s[j];
    }
    forall k: nat ensures !SplitsAsNumber(m, k) {
      if 1 <= k <= |m| {
        assert m[..k][0] == m[0];
      }
    }
  }

  /** What the matcher finds is what `re.search` finds: the leftmost-longest word of the language. */
  lemma ExtractNumberLeftmostLongest(text: string)
    requires ExtractNumber(text).Some?
    ensures exists i: nat :: IsLeftmostLongest(Without(text, ' '), i, ExtractNumber(text).value)
  {
    var s := Without(text, ' ');
    FindDigitFirst(s, 0);
    var i := FindDigit(s, 0).value;
    var m := s[i..MatchEnd(s, i)];
    assert ExtractNumber(text).value == m;
    MatchEndLongest(s, i);
    assert OccursAt(s, m, i);
    forall j: nat, m': string | j < i && OccursAt(s, m', j) ensures !IsNumberToken(m') {
      NoTokenWithoutDigit(s, m', j);
    }
    assert IsLeftmostLongest(s, i, m);
  }

  lemma NumberTokenStartsWithDigit(m: string)
    requires IsNumberToken(m)
    ensures m != [] && IsDigit(m[0])
  {
    var k: nat :| SplitsAsNumber(m, k);
    assert m[..k][0] == m[0];
  }

  /** An extracted amount is never empty, so the scanner's truth test on it is the Some test. */
  lemma ExtractedNonEmpty(text: string)
    requires ExtractNumber(text).Some?
    ensures ExtractNumber(text).value != []
  {
    var s := Without(text, ' ');
    ExtractNumberLeftmostLongest(text);
    var i: nat :| IsLeftmostLongest(s, i, ExtractNumber(text).value);
    NumberTokenStartsWithDigit(ExtractNumber(text).value);
  }

  function DigitValue(c: char): nat {
    if IsDigit(c) then c as int - '0' as int else 0
  }

  /** The decimal value of a string of digits. */
  function DigitsValue(d: string): nat {
    if d == [] then 0 else DigitsValue(d[..|d| - 1]) * 10 + DigitValue(d[|d| - 1])
  }

  /** The position of the first '.', or |s| when there is none. */
  function DotIndex(s: string): (k: nat)
    ensures k <= |s|
  {
    if s == [] then 0
    else if s[0] == '.' then 0
    else 1 + DotIndex(s[1..])
  }

  lemma {:induction false} DotIndexFirst(s: string)
    ensures forall q :: 0 <= q < DotIndex(s) ==> s[q] != '.'
    ensures DotIndex(s) < |s| ==> s[DotIndex(s)] == '.'
  {
    if s != [] && s[0] != '.' {
      DotIndexFirst(s[1..]);
    }
  }

  /** The hundredths of one or two decimals. */
  function FractionCents(f: string): nat {
    if |f| == 0 then 0
    else if |f| == 1 then 10 * DigitValue(f[0])
    else 10 * DigitValue(f[0]) + DigitValue(f[1])
  }

  /**
    The sort key `float(amount.replace(',', ''))`, as an exact number of
    hundredths: the key of the amounts the matcher produces, which carry at
    most two decimals.
   */
  function Cents(amount: string): nat {
    var s := Without(amount, ',');
    var dot := DotIndex(s);
    DigitsValue(s[..dot]) * 100 + (if dot < |s| then FractionCents(s[dot + 1..]) else 0)
  }

  /** The greedy run ends at `e` when every character before it, from `j` on, is a digit or comma and `s[e]` is not. */
  lemma {:induction false} RunEndAt(s: string, j: nat, e: nat)
    requires j <= e <= |s|
    requires forall k :: j <= k < e ==> IsDigitOrComma(s[k])
    requires e == |s| || !IsDigitOrComma(s[e])
    ensures RunEnd(s, j) == e
    decreases e - j
  {
    if j < e {
      RunEndAt(s, j + 1, e);
    }
  }

  /** A space-free text that starts with a digit yields the match that starts there. */
  lemma ExtractFromStart(text: string)
    requires text != [] && IsDigit(text[0])
    requires forall k :: 0 <= k < |text| ==> text[k] != ' '
    ensures ExtractNumber(text) == Some(text[..MatchEnd(text, 0)])
  {
    WithoutAbsent(text, ' ');
  }

  /** The greedy run keeps trailing commas. */
  lemma TrailingCommaKept()
    ensures ExtractNumber("1,250,") == Some("1,250,")
  {
    var s := "1,250,";
    ExtractFromStart(s);
    RunEndAt(s, 1, 6);
    assert s[..6] == s;
  }

  /** At most two decimals are taken. */
  lemma TwoDecimalsAtMost()
    ensures ExtractNumber("12.345") == Some("12.34")
  {
    var s := "12.345";
    ExtractFromStart(s);
    RunEndAt(s, 1, 2);
    assert s[2] == '.' && IsDigit(s[3]) && IsDigit(s[4]);
    assert MatchEnd(s, 0) == 5;
    assert s[..5] == "12.34";
  }

  /** A dot that no digit follows is not part of the amount. */
  lemma BareDotDropped()
    ensures ExtractNumber("12.") == Some("12")
  {
    var s := "12.";
    ExtractFromStart(s);
    RunEndAt(s, 1, 2);
    assert s[..2] == "12";
  }

  /** Removing a character twice is removing it once. */
  lemma WithoutTwice(s: string, x: char)
    ensures Without(Without(s, x), x) == Without(s, x)
  {
    var r := Without(s, x);
    WithoutKeeps(s, x);
    forall k | 0 <= k < |r| ensures r[k] != x {
      assert r[k] in multiset(r);
    }
    WithoutAbsent(r, x);
  }

  /** Spaces play no part in the search: the amount of a text is the amount of its space-free form. */
  lemma ExtractNumberIgnoresSpaces(text: string)
    ensures ExtractNumber(Without(text, ' ')) == ExtractNumber(text)
  {
    WithoutTwice(text, ' ');
  }

  /** Commas play no part in the value: an amount and its comma-free form have the same number of cents. */
  lemma CentsIgnoresCommas(amount: string)
    ensures Cents(Without(amount, ',')) == Cents(amount)
  {
    WithoutTwice(amount, ',');
  }

  /** Removing the commas of an integer part leaves only digits. */
  lemma {:induction false} WithoutCommaDigits(w: string)
    requires forall k :: 0 <= k < |w| ==> IsDigitOrComma(w[k])
    ensures forall k :: 0 <= k < |Without(w, ',')| ==> IsDigit(Without(w, ',')[k])
  {
    if w != [] {
      WithoutCommaDigits(w[1..]);
      var h := if w[0] == ',' then [] else [w[0]];
      assert Without(w, ',') == h + Without(w[1..], ',');
    }
  }

  /**
    The sort key of a word of the amount language with integer part
    `m[..k]`: the integer part's digits, read without its commas, as whole
    units, and the one or two decimals after the dot as hundredths.
   */
  lemma CentsOfToken(m: string, k: nat)
    requires SplitsAsNumber(m, k)
    ensures Cents(m) == DigitsValue(Without(m[..k], ',')) * 100
                        + (if k < |m| then FractionCents(m[k + 1..]) else 0)
  {
    var w, f := m[..k], m[k..];
    assert m == w + f;
    WithoutAppend(w, f, ',');
    WithoutAbsent(f, ',');
    var d := Without(w, ',');
    WithoutCommaDigits(w);
    var s := d + f;
    assert Without(m, ',') == s;
    if k < |m| {
      assert s[|d|] == '.';
      DotIndexAt(s, |d|);
      assert s[..|d|] == d;
      assert s[|d| + 1..] == m[k + 1..];
    } else {
      assert s == d;
      DotIndexNone(s);
      assert s[..|s|] == s;
    }
  }

  /** One decimal is read as tenths. */
  lemma OneDecimalIsTenths()
    ensures Cents("12.5") == 1250
  {
    var s := "12.5";
    assert s[..2] == "12" && "12"[..1] == "1" && "1"[..0] == "";
    assert DigitsValue("12") == 12;
    assert s[3..] == "5";
    assert FractionCents("5") == 50;
    CentsWithDot(s, 2, 12, 50);
  }

  /** The value of a comma-free amount whose first dot is at `dot`. */
  lemma CentsWithDot(s: string, dot: nat, whole: nat, frac: nat)
    requires forall k :: 0 <= k < |s| ==> s[k] != ','
    requires dot < |s| && s[dot] == '.' && forall q :: 0 <= q < dot ==> s[q] != '.'
    requires DigitsValue(s[..dot]) == whole && FractionCents(s[dot + 1..]) == frac
    ensures Cents(s) == whole * 100 + frac
  {
    WithoutAbsent(s, ',');
    DotIndexAt(s, dot);
  }

  /** The value of an amount with neither commas nor a dot. */
  lemma CentsWithoutDot(s: string, whole: nat)
    requires forall k :: 0 <= k < |s| ==> s[k] != ',' && s[k] != '.'
    requires DigitsValue(s) == whole
    ensures Cents(s) == whole * 100
  {
    WithoutAbsent(s, ',');
    DotIndexNone(s);
    assert s[..|s|] == s;
  }

  /** The first dot is at `k` when `s[k]` is a dot and no earlier character is. */
  lemma {:induction false} DotIndexAt(s: string, k: nat)
    requires k < |s| && s[k] == '.'
    requires forall q :: 0 <= q < k ==> s[q] != '.'
    ensures DotIndex(s) == k
  {
    if k > 0 {
      DotIndexAt(s[1..], k - 1);
    }
  }

  /** Without a dot, the whole amount is read as units. */
  lemma {:induction false} DotIndexNone(s: string)
    requires forall q :: 0 <= q < |s| ==> s[q] != '.'
    ensures DotIndex(s) == |s|
  {
    if s != [] {
      DotIndexNone(s[1..]);
    }
  }

  lemma CentsOf500()
    ensures Cents("500") == 50000
  {
    assert "500"[..2] == "50" && "50"[..1] == "5" && "5"[..0] == "";
    assert DigitsValue("500") == 500;
    CentsWithoutDot("500", 500);
  }

  /** The thousands separator is dropped before the value is read. */
  lemma CentsOf1200Point50()
    ensures Cents("1,200.50") == 120050
  {
    CommasOf1200Point50();
    CentsIgnoresCommas("1,200.50");
    CentsOf1200Point50Plain();
  }

  lemma CommasOf1200Point50()
    ensures Without("1,200.50", ',') == "1200.50"
  {
    CommaBetween("1", "200.50");
    assert "1" + [','] + "200.50" == "1,200.50";
  }

  /** A comma between two comma-free parts is the only thing removed. */
  lemma CommaBetween(a: string, b: string)
    requires forall k :: 0 <= k < |a| ==> a[k] != ','
    requires forall k :: 0 <= k < |b| ==> b[k] != ','
    ensures Without(a + [','] + b, ',') == a + b
  {
    assert [','][1..] == [];
    assert Without([','], ',') == [];
    WithoutAppend(a, [','], ',');
    WithoutAbsent(a, ',');
    assert a + [] == a;
    var left := a + [','];
    assert Without(left, ',') == a;
    WithoutAppend(left, b, ',');
    WithoutAbsent(b, ',');
    assert Without(left + b, ',') == a + b;
  }

  lemma CentsOf1200Point50Plain()
    ensures Cents("1200.50") == 120050
  {
    var s := "1200.50";
    assert s[..4] == "1200";
    DigitsOf1200();
    assert s[5..] == "50";
    assert FractionCents("50") == 50;
    CentsWithDot(s, 4, 1200, 50);
  }

  lemma DigitsOf1200()
    ensures DigitsValue("1200") == 1200
  {
    assert "1"[..0] == [];
    assert DigitsValue("1") == 1;
    assert "12"[..1] == "1";
    assert DigitsValue("12") == 12;
    assert "120"[..2] == "12";
    assert DigitsValue("120") == 120;
    assert "1200"[..3] == "120";
  }
}
