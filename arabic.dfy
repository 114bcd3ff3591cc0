/**
  The text normaliser and the Arabic word reverser: removal of Arabic
  diacritics after Unicode decomposition, and the token-wise reversal of
  words written wholly in the Arabic block, which undoes the visual order
  in which Arabic runs come out of a PDF's text layer.
 */
module Arabic {
  import opened Text

  /** The diacritic and combining-mark ranges U+0617..U+061A and U+064B..U+0652. */
  predicate IsDiacritic(c: char) {
    ('\U{617}' <= c <= '\U{61A}') || ('\U{64B}' <= c <= '\U{652}')
  }

  /** The Arabic block U+0600..U+06FF. */
  predicate IsArabicChar(c: char) {
    '\U{600}' <= c <= '\U{6FF}'
  }

  /** `r` is obtained from `s` by deleting some of its characters, keeping the rest in order. */
  ghost predicate IsSubsequence(r: string, s: string)
    decreases |s|
  {
    if r == [] then true
    else if s == [] then false
    else if r[0] == s[0] then IsSubsequence(r[1..], s[1..])
    else IsSubsequence(r, s[1..])
  }

  /**
    The regular-expression substitution that deletes every diacritic: the
    result holds no diacritic, keeps every other character of `s` in order
    and with its multiplicity, and so is never longer than `s`.
   */
  function StripDiacritics(s: string): (r: string)
    ensures forall k :: 0 <= k < |r| ==> !IsDiacritic(r[k])
    ensures |r| <= |s|
  {
    if s == [] then []
    else
      var rest := StripDiacritics(s[1..]);
      if IsDiacritic(s[0]) then rest else [s[0]] + rest
  }

  /**
    The filter keeps every character that is not a diacritic, in order and
    with its multiplicity.
   */
  lemma {:induction false} StripDiacriticsKeeps(s: string)
    ensures IsSubsequence(StripDiacritics(s), s)
    ensures forall c :: !IsDiacritic(c) ==> multiset(StripDiacritics(s))[c] == multiset(s)[c]
  {
    if s != [] {
      StripDiacriticsKeeps(s[1..]);
      assert s == [s[0]] + s[1..];
    }
  }

  /** A text that holds no diacritic passes through the filter unchanged. */
  lemma {:induction false} StripDiacriticsClean(s: string)
    requires forall k :: 0 <= k < |s| ==> !IsDiacritic(s[k])
    ensures StripDiacritics(s) == s
  {
    if s != [] {
      StripDiacriticsClean(s[1..]);
    }
  }

  /** The filter is idempotent. */
  lemma StripDiacriticsIdempotent(s: string)
    ensures StripDiacritics(StripDiacritics(s)) == StripDiacritics(s)
  {
    StripDiacriticsClean(StripDiacritics(s));
  }

  /**
    normalize_arabic: the filter applied to the compatibility decomposition (NFKD) of
    `text`. The decomposition is a Unicode-table library call; it is the
    parameter `nfkd`, and nothing is assumed about it.
   */
  function Normalize(text: string, nfkd: string -> string): (r: string)
    ensures forall k :: 0 <= k < |r| ==> !IsDiacritic(r[k])
    ensures |r| <= |nfkd(text)|
  {
    StripDiacritics(nfkd(text))
  }

  predicate IsArabicWord(w: string) {
    forall k :: 0 <= k < |w| ==> IsArabicChar(w[k])
  }

  /** `w[::-1]`. */
  function Reverse(w: string): (r: string)
    ensures |r| == |w|
    ensures forall k :: 0 <= k < |w| ==> r[k] == w[|w| - 1 - k]
  {
    seq(|w|, k requires 0 <= k < |w| => w[|w| - 1 - k])
  }

  lemma ReverseReverse(w: string)
    ensures Reverse(Reverse(w)) == w
  {
  }

  /** reverse_if_arabic: Arabic-only words are reversed, every other word is left alone. */
  function ReverseIfArabic(w: string): string {
    if IsArabicWord(w) then Reverse(w) else w
  }

  /** The tokens `str.split()` produces: non-empty and free of whitespace. */
  predicate IsToken(w: string) {
    w != [] && NoSpace(w)
  }

  predicate AreTokens(ws: seq<string>) {
    forall k :: 0 <= k < |ws| ==> IsToken(ws[k])
  }

  /** The end of the run of non-whitespace characters that starts at `i`. */
  function WordEnd(s: string, i: nat): (e: nat)
    requires i <= |s|
    ensures i <= e <= |s|
    ensures forall k :: i <= k < e ==> !IsSpace(s[k])
    ensures e == |s| || IsSpace(s[e])
    decreases |s| - i
  {
    if i == |s| || IsSpace(s[i]) then i else WordEnd(s, i + 1)
  }

  /** `s.split()` with no separator: the maximal runs of non-whitespace, in order. */
  function Split(s: string): (ws: seq<string>)
    ensures AreTokens(ws)
    decreases |s|
  {
    if s == [] then []
    else if IsSpace(s[0]) then Split(s[1..])
    else
      var n := WordEnd(s, 0);
      [s[..n]] + Split(s[n..])
  }

  /** `' '.join(ws)`. */
  function Join(ws: seq<string>): string
  {
    if |ws| == 0 then ""
    else if |ws| == 1 then ws[0]
    else ws[0] + " " + Join(ws[1..])
  }

  lemma SplitAfterWord(w: string, rest: string)
    requires IsToken(w)
    requires rest == [] || IsSpace(rest[0])
    ensures Split(w + rest) == [w] + Split(rest)
  {
    var s := w + rest;
    var n := WordEnd(s, 0);
    assert rest != [] ==> s[|w|] == rest[0];
    assert forall k :: 0 <= k < |w| ==> s[k] == w[k];
    assert n == |w|;
    assert s[..n] == w;
    assert s[n..] == rest;
  }

  /** Splitting a join of tokens gives the tokens back. */
  lemma {:induction false} SplitJoin(ws: seq<string>)
    requires AreTokens(ws)
    ensures Split(Join(ws)) == ws
  {
    if |ws| == 1 {
      SplitAfterWord(ws[0], "");
      assert ws[0] + "" == ws[0];
    } else if |ws| > 1 {
      var tail := Join(ws[1..]);
      assert Join(ws) == ws[0] + (" " + tail);
      SplitAfterWord(ws[0], " " + tail);
      assert (" " + tail)[1..] == tail;
      SplitJoin(ws[1..]);
      assert ws == [ws[0]] + ws[1..];
    }
  }

  /** The end of a word is wherever the run of non-whitespace that starts at `i` stops. */
  lemma {:induction false} WordEndAt(s: string, i: nat, e: nat)
    requires i <= e <= |s|
    requires forall k :: i <= k < e ==> !IsSpace(s[k])
    requires e == |s| || IsSpace(s[e])
    ensures WordEnd(s, i) == e
    decreases e - i
  {
    if i < e {
      WordEndAt(s, i + 1, e);
    }
  }

  /** Any whitespace character separates: the parts on either side are split independently. */
  lemma {:induction false} SplitAtSpace(a: string, c: char, b: string)
    requires IsSpace(c)
    ensures Split(a + [c] + b) == Split(a) + Split(b)
    decreases |a|
  {
    var s := a + [c] + b;
    if a == [] {
      assert s == [c] + b;
      assert s[1..] == b;
    } else if IsSpace(a[0]) {
      assert s[0] == a[0];
      assert s[1..] == a[1..] + [c] + b;
      SplitAtSpace(a[1..], c, b);
    } else {
      var n := WordEnd(a, 0);
      assert s[0] == a[0];
      forall k | 0 <= k < n
        ensures !IsSpace(s[k])
      {
        assert s[k] == a[k];
      }
      if n < |a| {
        assert s[n] == a[n];
        WordEndAt(s, 0, n);
        assert s[..n] == a[..n];
        assert s[n..] == a[n..] + [c] + b;
        SplitAtSpace(a[n..], c, b);
      } else {
        assert s[n] == c;
        WordEndAt(s, 0, n);
        assert s[..n] == a;
        assert s[n..] == [c] + b;
        assert ([c] + b)[1..] == b;
        assert Split([c] + b) == Split(b);
        assert a[..n] == a && a[n..] == [];
        assert Split(a) == [a];
      }
    }
  }

  /** A newline separates words as a space does. */
  lemma SplitAtNewline()
    ensures Split("12\n34") == ["12", "34"]
  {
    assert "12\n34" == "12" + ['\n'] + "34";
    SplitAtSpace("12", '\n', "34");
    SplitJoin(["12"]);
    SplitJoin(["34"]);
  }

  function MapReverseIfArabic(ws: seq<string>): (rs: seq<string>)
    ensures |rs| == |ws|
    ensures forall k :: 0 <= k < |ws| ==> rs[k] == ReverseIfArabic(ws[k])
  {
    seq(|ws|, k requires 0 <= k < |ws| => ReverseIfArabic(ws[k]))
  }

  /** reverse_arabic_words. */
  function ReverseArabicWords(text: string): string {
    Join(MapReverseIfArabic(Split(text)))
  }

  lemma ReverseIfArabicToken(w: string)
    requires IsToken(w)
    ensures IsToken(ReverseIfArabic(w))
  {
    if IsArabicWord(w) {
      var r := Reverse(w);
      forall k | 0 <= k < |r| ensures !IsSpace(r[k]) {
        assert r[k] == w[|w| - 1 - k];
      }
    }
  }

  /**
    The reverser keeps the tokens of `text`: the result splits into exactly
    as many tokens as `text`, the Arabic-only ones reversed and every other
    one (a mixed token such as "AED100" included) unchanged.
   */
  lemma ReverseArabicWordsTokens(text: string)
    ensures |Split(ReverseArabicWords(text))| == |Split(text)|
    ensures forall k :: 0 <= k < |Split(text)| ==>
              Split(ReverseArabicWords(text))[k] ==
                (if IsArabicWord(Split(text)[k]) then Reverse(Split(text)[k]) else Split(text)[k])
  {
    var ws := Split(text);
    var rs := MapReverseIfArabic(ws);
    forall k | 0 <= k < |rs| ensures IsToken(rs[k]) {
      ReverseIfArabicToken(ws[k]);
    }
    SplitJoin(rs);
  }

  lemma ReverseIfArabicTwice(w: string)
    ensures ReverseIfArabic(ReverseIfArabic(w)) == w
  {
    if IsArabicWord(w) {
      var r := Reverse(w);
      assert IsArabicWord(r) by {
        forall k | 0 <= k < |r| ensures IsArabicChar(r[k]) {
          assert r[k] == w[|w| - 1 - k];
        }
      }
      ReverseReverse(w);
    }
  }

  /** Reversing twice leaves only the whitespace normalisation: `' '.join(text.split())`. */
  lemma ReverseArabicWordsTwice(text: string)
    ensures ReverseArabicWords(ReverseArabicWords(text)) == Join(Split(text))
  {
    var ws := Split(text);
    var rs := MapReverseIfArabic(ws);
    ReverseArabicWordsTokens(text);
    forall k | 0 <= k < |rs| ensures IsToken(rs[k]) {
      ReverseIfArabicToken(ws[k]);
    }
    SplitJoin(rs);
    var back := MapReverseIfArabic(rs);
    assert back == ws by {
      forall k | 0 <= k < |ws| ensures back[k] == ws[k] {
        ReverseIfArabicTwice(ws[k]);
      }
    }
  }

  /** A join of tokens none of which is written wholly in Arabic comes out of the reverser unchanged. */
  lemma ReverseNoArabic(ws: seq<string>)
    requires AreTokens(ws)
    requires forall k :: 0 <= k < |ws| ==> !IsArabicWord(ws[k])
    ensures ReverseArabicWords(Join(ws)) == Join(ws)
  {
    SplitJoin(ws);
    assert MapReverseIfArabic(ws) == ws;
  }
}
