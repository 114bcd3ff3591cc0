/**
  The currency detector: the text is normalised, lower-cased and its
  Arabic words reversed, then an ordered table of currency signatures is
  scanned and the first currency with a matching signature wins.
 */
module Currency {
  import opened Wrappers
  import opened Text
  import opened Arabic

  datatype Code = AED | USD | EUR | INR | GBP | SAR

  /**
    The signature shapes the table uses: a literal substring (`euros?`
    matches exactly where `euro` occurs, and likewise `rupees?` and
    `pounds?`), or a substring framed by `\b` on both sides.
   */
  datatype Pattern = Literal(w: string) | Word(w: string)

  /**
    The characters `\b` treats as word characters, that is those for which
    `str.isalnum()` holds, and the underscore: ASCII letters and digits;
    the Latin-1 letters and numerics (the superscripts and vulgar
    fractions); the Latin Extended and IPA letters and the modifier
    letters of U+02B0..U+02FF, but not the modifier symbols there; and the
    letters and digits of the Arabic block.
   */
  predicate IsWordChar(c: char) {
    || ('a' <= c <= 'z') || ('A' <= c <= 'Z') || IsDigit(c) || c == '_'
    || c == '\U{AA}' || c == '\U{B2}' || c == '\U{B3}' || c == '\U{B5}' || c == '\U{B9}' || c == '\U{BA}'
    || ('\U{BC}' <= c <= '\U{BE}')
    || ('\U{C0}' <= c <= '\U{D6}') || ('\U{D8}' <= c <= '\U{F6}') || ('\U{F8}' <= c <= '\U{2C1}')
    || ('\U{2C6}' <= c <= '\U{2D1}') || ('\U{2E0}' <= c <= '\U{2E4}') || c == '\U{2EC}' || c == '\U{2EE}'
    || ('\U{620}' <= c <= '\U{64A}') || ('\U{660}' <= c <= '\U{669}')
    || ('\U{66E}' <= c <= '\U{66F}') || ('\U{671}' <= c <= '\U{6D3}') || c == '\U{6D5}'
    || ('\U{6E5}' <= c <= '\U{6E6}') || ('\U{6EE}' <= c <= '\U{6FC}') || c == '\U{6FF}'
  }

  /** `\bw\b` matches at `i`, for a `w` that starts and ends with a word character. */
  predicate WordAt(t: string, w: string, i: nat) {
    && OccursAt(t, w, i)
    && (i == 0 || !IsWordChar(t[i - 1]))
    && (i + |w| == |t| || !IsWordChar(t[i + |w|]))
  }

  /** `re.search(p, t)` succeeds. */
  predicate Matches(p: Pattern, t: string) {
    match p
    case Literal(w) => Contains(t, w)
    case Word(w) => exists i: nat | i <= |t| :: WordAt(t, w, i)
  }

  predicate AnyMatches(ps: seq<Pattern>, t: string) {
    exists k :: 0 <= k < |ps| && Matches(ps[k], t)
  }

  /** The order in which the currencies of the signature table are tried. */
  const Order: seq<Code> := [AED, USD, EUR, INR, GBP, SAR]

  /** The signatures of each currency, in their listed order. */
  function Signatures(c: Code): seq<Pattern> {
    match c
    case AED => [Literal("\U{62F}\U{631}\U{647}\U{645}"),                       // dirham
                 Literal("\U{628}\U{627}\U{644}\U{62F}\U{631}\U{647}\U{645}"),  // in dirhams
                 Word("uae"), Literal("dubai"), Literal("emirates"), Literal("aed"),
                 Literal("\U{62F}.\U{625}")]                                  // the dirham sign
    case USD => [Literal("usd"), Literal("$"), Literal("usa")]
    case EUR => [Literal("euro"), Literal("\U{20AC}"), Word("eu")]
    case INR => [Literal("inr"), Literal("\U{20B9}"), Literal("rupee")]
    case GBP => [Literal("gbp"), Literal("\U{A3}"), Literal("pound")]
    case SAR => [Literal("sar"), Literal("\U{FDFC}"), Literal("saudi")]
  }

  /** A modifier symbol such as U+02C2 is not a word character, so `\buae\b` matches right after it. */
  lemma WordAfterModifierSymbol()
    ensures Matches(Word("uae"), "\U{2C2}uae")
  {
    var t := "\U{2C2}uae";
    assert t[1..4] == "uae";
    assert WordAt(t, "uae", 1);
  }

  /** A superscript digit is a word character, so `\buae\b` does not match right after it. */
  lemma NoWordAfterSuperscript()
    ensures !Matches(Word("uae"), "\U{B2}uae")
  {
    var t := "\U{B2}uae";
    forall i: nat | i <= |t|
      ensures !WordAt(t, "uae", i)
    {
      if i == 0 {
        assert t[0] != 'u';
      } else if i == 1 {
        assert IsWordChar(t[0]);
      }
    }
  }

  /** The early-return scan over the currencies in `order`, each tried with its signatures `sigs(c)`. */
  function FirstMatch(order: seq<Code>, sigs: Code -> seq<Pattern>, t: string): Option<Code> {
    if order == [] then None
    else if AnyMatches(sigs(order[0]), t) then Some(order[0])
    else FirstMatch(order[1..], sigs, t)
  }

  /**
    The scan returns the first currency one of whose signatures matches
    `t`, and None exactly when none has one.
   */
  lemma {:induction false} FirstMatchFirst(order: seq<Code>, sigs: Code -> seq<Pattern>, t: string)
    ensures var r := FirstMatch(order, sigs, t);
            && (r.None? <==> forall k :: 0 <= k < |order| ==> !AnyMatches(sigs(order[k]), t))
            && (r.Some? ==> exists k :: 0 <= k < |order| && order[k] == r.value && AnyMatches(sigs(order[k]), t)
                              && forall j :: 0 <= j < k ==> !AnyMatches(sigs(order[j]), t))
  {
    if order != [] && !AnyMatches(sigs(order[0]), t) {
      FirstMatchFirst(order[1..], sigs, t);
      assert forall k :: 1 <= k < |order| ==> order[k] == order[1..][k - 1];
      var r := FirstMatch(order[1..], sigs, t);
      if r.Some? {
        var k :| 0 <= k < |order[1..]| && order[1..][k] == r.value && AnyMatches(sigs(order[1..][k]), t)
                 && forall j :: 0 <= j < k ==> !AnyMatches(sigs(order[1..][j]), t);
        assert order[k + 1] == r.value;
      }
    }
  }

  /** The text the signatures are matched against: normalised, then lower-cased, then reversed. */
  function Prepare(text: string, nfkd: string -> string): string {
    ReverseArabicWords(Lower(Normalize(text, nfkd)))
  }

  /** detect_currency: None on the empty text, otherwise the scan of the table over the prepared text. */
  function DetectCurrency(text: string, nfkd: string -> string): (r: Option<Code>)
    ensures text == [] ==> r.None?
  {
    if text == [] then None
    else FirstMatch(Order, Signatures, Prepare(text, nfkd))
  }

  /**
    On a non-empty text, None exactly when no signature matches the
    prepared text; otherwise a currency one of whose signatures matches,
    and before which, in table order, no currency has a match.
   */
  lemma DetectCurrencyFirstInOrder(text: string, nfkd: string -> string)
    ensures text != [] ==>
              (DetectCurrency(text, nfkd).None? <==> forall c :: !AnyMatches(Signatures(c), Prepare(text, nfkd)))
    ensures DetectCurrency(text, nfkd).Some? ==>
              var r := DetectCurrency(text, nfkd).value;
              && AnyMatches(Signatures(r), Prepare(text, nfkd))
              && forall c :: Rank(c) < Rank(r) ==> !AnyMatches(Signatures(c), Prepare(text, nfkd))
  {
    if text != [] {
      RankOrder(Signatures, Prepare(text, nfkd));
    }
  }

  /** The position of a currency in the order of the signature table. */
  function Rank(c: Code): (k: nat)
    ensures k < |Order| && Order[k] == c
  {
    match c
    case AED => 0
    case USD => 1
    case EUR => 2
    case INR => 3
    case GBP => 4
    case SAR => 5
  }

  /** Scanning the table order finds the matching currency of least rank, and None exactly when none matches. */
  lemma RankOrder(sigs: Code -> seq<Pattern>, t: string)
    ensures var r := FirstMatch(Order, sigs, t);
            && (r.None? <==> forall c :: !AnyMatches(sigs(c), t))
            && (r.Some? ==> AnyMatches(sigs(r.value), t)
                            && forall c :: Rank(c) < Rank(r.value) ==> !AnyMatches(sigs(c), t))
  {
    var r := FirstMatch(Order, sigs, t);
    FirstMatchFirst(Order, sigs, t);
    if r.Some? {
      var k :| 0 <= k < |Order| && Order[k] == r.value && AnyMatches(sigs(Order[k]), t)
               && forall j :: 0 <= j < k ==> !AnyMatches(sigs(Order[j]), t);
      assert Rank(r.value) == k;
      forall c | Rank(c) < k ensures !AnyMatches(sigs(c), t) {
        assert Order[Rank(c)] == c;
      }
    } else {
      forall c ensures !AnyMatches(sigs(c), t) {
        assert Order[Rank(c)] == c;
      }
    }
  }

  /**
    First match wins: when some signature of currency `c` matches, the
    detected currency is `c` or one tried before it.
   */
  lemma EarlierCurrencyWins(text: string, nfkd: string -> string, c: Code, p: nat)
    requires text != []
    requires p < |Signatures(c)|
    requires Matches(Signatures(c)[p], Prepare(text, nfkd))
    ensures DetectCurrency(text, nfkd).Some?
    ensures Rank(DetectCurrency(text, nfkd).value) <= Rank(c)
  {
    assert AnyMatches(Signatures(c), Prepare(text, nfkd));
    DetectCurrencyFirstInOrder(text, nfkd);
  }

  /** Any text whose prepared form contains "aed" is read as dirhams, whatever else it names. */
  lemma AedWhenAedMentioned(text: string, nfkd: string -> string)
    requires text != []
    requires Contains(Prepare(text, nfkd), "aed")
    ensures DetectCurrency(text, nfkd) == Some(AED)
  {
    EarlierCurrencyWins(text, nfkd, AED, 5);
  }

  /** A text naming both dollars and dirhams gives AED, the currency tried first. */
  lemma UsdAndAedGivesAed(nfkd: string -> string)
    requires nfkd("USD AED") == "USD AED"
    ensures DetectCurrency("USD AED", nfkd) == Some(AED)
  {
    PrepareExample(nfkd);
    PreparedAedGivesAed("USD AED", nfkd);
  }

  lemma PreparedAedGivesAed(text: string, nfkd: string -> string)
    requires text != []
    requires Prepare(text, nfkd) == "usd aed"
    ensures DetectCurrency(text, nfkd) == Some(AED)
  {
    assert OccursAt(Prepare(text, nfkd), "aed", 4);
    AedWhenAedMentioned(text, nfkd);
  }

  lemma PrepareExample(nfkd: string -> string)
    requires nfkd("USD AED") == "USD AED"
    ensures Prepare("USD AED", nfkd) == "usd aed"
  {
    NormalizeExample(nfkd);
    LowerExample();
    ReverseExample();
  }

  lemma NormalizeExample(nfkd: string -> string)
    requires nfkd("USD AED") == "USD AED"
    ensures Normalize("USD AED", nfkd) == "USD AED"
  {
    StripDiacriticsClean("USD AED");
  }

  lemma LowerExample()
    ensures Lower("USD AED") == "usd aed"
  {
  }

  lemma ReverseExample()
    ensures ReverseArabicWords("usd aed") == "usd aed"
  {
    var ws := ["usd", "aed"];
    assert Join(ws[1..]) == "aed";
    assert Join(ws) == "usd aed";
    assert !IsArabicChar(ws[0][0]) && !IsArabicChar(ws[1][0]);
    ReverseNoArabic(ws);
  }
}
