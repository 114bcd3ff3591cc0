# Invoice total and currency extractor, in Dafny

This project models the extraction core of `app.py`, a small Streamlit
program that reads a PDF invoice and reports its total amount and its
currency. The core does five things:

- It scans every table row of every page for a cell that reads as a total
  label ("total payable", "amount due", "grand total", "invoice total",
  "total"; case-insensitive containment).
- For each such label, it pairs the label with the first amount found to its
  right in the same row. An amount is the leftmost match of
  `\d[\d,]*(\.\d{1,2})?` in the cell's text once its spaces are removed.
- It keeps the candidate with the largest amount. Because the sort is
  stable, the first candidate found wins among equal amounts.
- It joins the non-empty page texts, each followed by a newline.
- It reads the currency from that text: the text is normalised (Unicode
  decomposition, then Arabic diacritics removed), lower-cased, and its
  Arabic-only words are reversed. Then an ordered table of signatures is
  tried: AED, USD, EUR, INR, GBP, SAR; the first currency with a matching
  signature wins.

Modules:

- `Wrappers` (text.dfy): the Option type.
- `Text` (text.dfy): Python's whitespace set, ASCII digits and lower-casing,
  substring containment, `str.replace(x, "")` and `str.strip()`.
- `Arabic` (arabic.dfy): `normalize_arabic` and `reverse_arabic_words`.
- `Currency` (currency.dfy): `detect_currency`.
- `Labels` and `Amount` (amount.dfy): `is_total_keyword`, `extract_number`,
  and the exact value of an amount in hundredths, which is the sort key.
- `Scanner` (scanner.dfy): `extract_invoice_data`.
  - Its loops are methods (`ScanPages`, `ScanTables`, `ScanTable`,
    `ScanRow`, `AmountRightOf`), one per loop level of the source.
  - Each method is proved against a recursive specification function
    (`FullText`, `PagesUpTo`, `TablesUpTo`, `RowsUpTo`, `RowUpTo`,
    `FirstAmount`).
  - The candidates are then characterised by lemmas about those functions.

The scan functions are stated for any cell reader. A `CellTests` value
gives three things: how a raw cell becomes text, the label test, and the
amount matcher. The invoice reader uses `Invoice`, which is stripped text,
`IsTotalKeyword` and `ExtractNumber`. The facts about candidates are proved
for `Invoice`.

Pages come in as data: each page has an optional text and a list of tables.
A table is a list of rows, and a row is a list of optional cell strings.

The Unicode decomposition `unicodedata.normalize("NFKD", ...)` is a
parameter `nfkd: string -> string`. The general lemmas assume nothing about
it. The worked example `Currency.UsdAndAedGivesAed` assumes only that it
leaves the ASCII text "USD AED" unchanged.

## Model

| member | source | states |
|---|---|---|
| `Text.IsSpace` | app.py:54 | The whitespace set of `str.isspace()`, which `strip()` uses here and `split()` uses at app.py:14. A predicate with no contract; `StripMiddle` and `SplitAtSpace` state what the operations built on it do. |
| `Text.IsDigit` | app.py:40 | `\d`, as the ASCII digits `0`..`9`. A predicate with no contract; `FindDigitFirst` and `ExtractNumberNone` are stated with it. |
| `Text.Contains` | app.py:37 | Python's `w in t`: `w` occurs in `t` at some position. A predicate with no contract; it is the reference definition that `TotalKeywordIff` and `AedWhenAedMentioned` are stated with. |
| `Text.Lower` | app.py:20 | `str.lower()` on ASCII letters (also used by `is_total_keyword`, app.py:37): the result has the same length, and each character is lowered on its own. |
| `Text.Strip` | app.py:54 | `str.strip()`. It has no contract of its own; `StripMiddle` specifies it. |
| `Text.Without` | app.py:40 | `replace(x, "")` for one character (also the comma removal of the sort key, app.py:64). Its own contract states only that it never lengthens the text; `WithoutKeeps` and `WithoutAppend` specify it. |
| `Text.StripMiddle` | app.py:54 | `strip()` returns the middle of the text. Everything cut off before and after it is whitespace, and the result neither starts nor ends with whitespace. |
| `Text.WithoutKeeps` | app.py:40 | `replace(" ", "")` removes every occurrence of the character. Every other character keeps its number of occurrences. |
| `Text.WithoutAppend` | app.py:40 | Removing a character works piecewise over a concatenation. |
| `Text.WithoutAbsent` | app.py:40 | Removing a character that the text does not hold leaves the text unchanged. |
| `Text.ContainsWithin` | app.py:37 | Containment is transitive: a text that contains a keyword contains every substring of it. |
| `Text.DropLeadingSpaceSuffix` | app.py:54 | The leading half of `strip()`: the result is a suffix of the text, all that is cut off is whitespace, and the result does not start with whitespace. |
| `Text.DropTrailingSpacePrefix` | app.py:54 | The trailing half of `strip()`: the result is a prefix of the text, all that is cut off is whitespace, and the result does not end with whitespace. |
| `Arabic.IsDiacritic` | app.py:9 | The character class `[\u0617-\u061A\u064B-\u0652]`. A predicate with no contract; `StripDiacritics` and `StripDiacriticsKeeps` state the filter over it. |
| `Arabic.StripDiacritics` | app.py:9 | The result of the diacritic filter holds no character of U+0617..U+061A or U+064B..U+0652, and it is never longer than its input. |
| `Arabic.StripDiacriticsKeeps` | app.py:9 | The filter keeps every non-diacritic character, in order (a subsequence) and with its multiplicity. |
| `Arabic.StripDiacriticsClean` | app.py:9 | A text without diacritics passes through the filter unchanged. |
| `Arabic.StripDiacriticsIdempotent` | app.py:9 | Filtering twice is filtering once. |
| `Arabic.Normalize` | app.py:8-9 | `normalize_arabic` output holds no diacritic and is never longer than the decomposed text. |
| `Arabic.Split` | app.py:14 | `text.split()`: every token it returns is non-empty and free of whitespace. Its value on every string is fixed by three facts: the empty text has no tokens (by definition), a single token splits into itself (`SplitJoin`), and any whitespace character separates the text on either side (`SplitAtSpace`). |
| `Arabic.Join` | app.py:14 | `' '.join(...)`. It has no contract of its own; `SplitJoin` specifies it as the inverse of `Split` on tokens. |
| `Arabic.ReverseIfArabic` | app.py:12-13 | `reverse_if_arabic`. It has no contract of its own; `ReverseIfArabicTwice` and `ReverseArabicWordsTokens` specify it. |
| `Arabic.ReverseArabicWords` | app.py:11-14 | `reverse_arabic_words`. It has no contract of its own; `ReverseArabicWordsTokens`, `ReverseArabicWordsTwice` and `ReverseNoArabic` specify it. |
| `Arabic.SplitJoin` | app.py:14 | Splitting a space-join of tokens gives back the same tokens. |
| `Arabic.SplitAtSpace` | app.py:14 | For any whitespace character `c`, `(a + c + b).split()` is `a.split()` followed by `b.split()`. |
| `Arabic.SplitAtNewline` | app.py:14 | "12\n34" splits into "12" and "34": a newline separates words as a space does. |
| `Arabic.IsArabicWord` | app.py:13 | `all('\u0600' <= ch <= '\u06FF' for ch in word)`: every character lies in U+0600..U+06FF. A predicate with no contract; `ReverseArabicWordsTokens` and `ReverseNoArabic` are stated with it. |
| `Arabic.Reverse` | app.py:13 | `word[::-1]`: the result has the same length, and its character `k` is the word's character `len - 1 - k`. |
| `Arabic.ReverseReverse` | app.py:13 | Reversing a word twice gives the word back. |
| `Arabic.ReverseIfArabicToken` | app.py:12-13 | `reverse_if_arabic` maps a token to a token: non-empty and free of whitespace. |
| `Arabic.MapReverseIfArabic` | app.py:14 | The generator over the tokens: as many results as tokens, and result `k` is `reverse_if_arabic` of token `k`. |
| `Arabic.ReverseArabicWordsTokens` | app.py:11-14 | The output has exactly as many tokens as `text.split()`. Arabic-only tokens are reversed, and every other token (mixed ones included) is unchanged. |
| `Arabic.ReverseIfArabicTwice` | app.py:12-13 | `reverse_if_arabic` undoes itself. |
| `Arabic.ReverseArabicWordsTwice` | app.py:11-14 | Applying `reverse_arabic_words` twice gives `' '.join(text.split())`. |
| `Arabic.ReverseNoArabic` | app.py:11-14 | A join of tokens none of which is wholly Arabic comes out unchanged. |
| `Currency.Order` | app.py:21-28 | The order in which the table is tried: AED, USD, EUR, INR, GBP, SAR, the insertion order of the dict. |
| `Currency.Signatures` | app.py:21-28 | The signature table, in source order: AED `درهم`, `بالدرهم`, `\buae\b`, `dubai`, `emirates`, `aed`, `د.إ`; USD `usd`, `$`, `usa`; EUR `euro` (for `euros?`), `€`, `\beu\b`; INR `inr`, `₹`, `rupee` (for `rupees?`); GBP `gbp`, `£`, `pound` (for `pounds?`); SAR `sar`, `﷼`, `saudi`. |
| `Currency.Rank` | app.py:21-28 | The position of a currency in the table order: `Order` holds the currency at that index. |
| `Currency.IsWordChar` | app.py:22-24 | The word characters `\b` looks at, for the patterns `\buae\b` and `\beu\b`. A predicate with no contract; `WordAfterModifierSymbol` and `NoWordAfterSuperscript` show it at work, and its coverage is stated under "Left out". |
| `Currency.WordAt` | app.py:22-24 | `\bw\b` matches at `i`: `w` occurs at `i`, and neither the character before it nor the one after it is a word character (the ends of the text count as boundaries). A predicate with no contract; it is the reference definition for `Matches`. |
| `Currency.Matches` | app.py:30-31 | `re.search(pattern, text)` succeeds: a literal occurs anywhere, a `\b`-framed word occurs at a position where `WordAt` holds. A predicate with no contract; `AnyMatches`, and through it `FirstMatchFirst`, are stated with it. |
| `Currency.AnyMatches` | app.py:30-32 | The inner loop over one currency's patterns returns: some pattern of the list matches. A predicate with no contract; `FirstMatchFirst` states the outer loop over it. |
| `Currency.FirstMatch` | app.py:29-33 | The nested early-return loops over the table. It has no contract of its own; `FirstMatchFirst` and `RankOrder` specify it. |
| `Currency.Prepare` | app.py:19-20 | The text the patterns are searched in: `reverse_arabic_words(normalize_arabic(text).lower())`. It has no contract of its own; `DetectCurrencyFirstInOrder` states the detector over it. |
| `Currency.FirstMatchFirst` | app.py:29-33 | The early-return scan returns the first currency, in the given order, one of whose signatures matches, and None exactly when none matches. |
| `Currency.RankOrder` | app.py:21-33 | Over the table order AED, USD, EUR, INR, GBP, SAR, the scan returns a matching currency before which no currency matches, and None exactly when no currency matches. |
| `Currency.DetectCurrency` | app.py:17-18 | `detect_currency` returns None on empty text. |
| `Currency.DetectCurrencyFirstInOrder` | app.py:16-33 | On non-empty text, None exactly when no signature matches the normalised, lower-cased, reversed text. Otherwise the result is a matching currency, and no currency listed before it matches. |
| `Currency.EarlierCurrencyWins` | app.py:29-32 | If a signature of currency `c` matches, a currency is detected and it is `c` or one listed before it. |
| `Currency.AedWhenAedMentioned` | app.py:21-32 | A prepared text containing "aed" is always read as AED, whatever else it names. |
| `Currency.WordAfterModifierSymbol` | app.py:22 | `\buae\b` matches right after the modifier symbol U+02C2, which is not a word character. |
| `Currency.NoWordAfterSuperscript` | app.py:22 | `\buae\b` finds no match in "²uae": the superscript ² before "uae" is a word character, so there is no boundary there. |
| `Currency.UsdAndAedGivesAed` | app.py:16-33 | "USD AED" gives AED, the currency tried first. |
| `Currency.PreparedAedGivesAed` | app.py:16-33 | A non-empty text whose prepared form is "usd aed" is read as AED, the currency tried first. |
| `Currency.PrepareExample` | app.py:19-20 | When the decomposition leaves "USD AED" unchanged, the prepared text is "usd aed". |
| `Currency.NormalizeExample` | app.py:8-9 | When the decomposition leaves "USD AED" unchanged, so does `normalize_arabic`. |
| `Currency.LowerExample` | app.py:20 | "USD AED" lower-cases to "usd aed". |
| `Currency.ReverseExample` | app.py:11-14 | `reverse_arabic_words` leaves "usd aed" unchanged: neither word is Arabic. |
| `Labels.Keywords` | app.py:36 | The five keywords, in source order. A constant; `TotalKeywordIff` states the test over them. |
| `Labels.IsTotalKeyword` | app.py:35-37 | `is_total_keyword`, as `any` over the five keywords. It has no contract of its own; `TotalKeywordIff` specifies it. |
| `Labels.TotalKeywordIff` | app.py:35-37 | `is_total_keyword` holds exactly when the lower-cased text contains "total" or "amount due". |
| `Labels.SubtotalIsTotalLabel` | app.py:35-37 | Containment is not whole-word: "Subtotal" is a total label. |
| `Amount.ExtractNumber` | app.py:39-41 | `extract_number`. It has no contract of its own; `ExtractNumberNone` and `ExtractNumberLeftmostLongest` specify it. |
| `Amount.IsNumberToken` | app.py:40 | The language of `\d[\d,]*(\.\d{1,2})?`: a digit, then digits or commas, then optionally a dot and one or two digits. A predicate with no contract; the matcher lemmas are stated with it. |
| `Amount.IsLeftmostLongest` | app.py:40 | What `re.search` returns for that pattern: a word of the language at `i`, none earlier, and none longer at `i`. A predicate with no contract; `ExtractNumberLeftmostLongest` is stated with it. |
| `Amount.FindDigit` | app.py:40 | Where a match can start: a position it finds holds a digit and is at or after `i`. `FindDigitFirst` adds that it is the first. |
| `Amount.RunEnd` | app.py:40 | The greedy `[\d,]*` from `j`: everything up to the end it returns is a digit or a comma, and the run stops at the end of the text or at a character that is neither. |
| `Amount.MatchEnd` | app.py:40 | The end of the match at a digit: the run, then a dot and one or two digits when they follow. It has no contract of its own; `MatchEndLongest` specifies it. |
| `Amount.NoTokenWithoutDigit` | app.py:40 | No word of the amount language starts at a non-digit. |
| `Amount.NumberTokenStartsWithDigit` | app.py:40 | Every word of the amount language is non-empty and starts with a digit. |
| `Amount.FindDigitFirst` | app.py:40 | The search finds the first digit, and finds none exactly when there is no digit. |
| `Amount.MatchEndLongest` | app.py:40 | The match at a digit is a word of `\d[\d,]*(\.\d{1,2})?`, and no longer word of that language starts there. |
| `Amount.ExtractNumberNone` | app.py:39-41 | `extract_number` returns None exactly when the space-free text holds no digit. |
| `Amount.ExtractNumberLeftmostLongest` | app.py:39-41 | A found amount occurs in the space-free text, is in the language, no word of the language occurs earlier, and no longer one starts at the same place: what `re.search` returns. |
| `Amount.ExtractedNonEmpty` | app.py:59-60 | A found amount is never empty, so the scanner's `if amount:` test is the test for a match. |
| `Amount.ExtractNumberIgnoresSpaces` | app.py:40 | A text and its space-free form give the same amount. |
| `Amount.ExtractFromStart` | app.py:40 | A space-free text that starts with a digit gives the match that starts at its first character. |
| `Amount.TrailingCommaKept` | app.py:40 | "1,250," gives "1,250,": the greedy run keeps trailing commas. |
| `Amount.TwoDecimalsAtMost` | app.py:40 | "12.345" gives "12.34". |
| `Amount.BareDotDropped` | app.py:40 | "12." gives "12". |
| `Amount.Cents` | app.py:64 | The sort key `float(amount.replace(',', ''))` as exact hundredths. It has no contract of its own; `CentsOfToken` and `CentsIgnoresCommas` specify it. |
| `Amount.CentsOfToken` | app.py:64 | For a word of the amount language, the key is the integer part read without its commas, times 100, plus the one or two decimals as hundredths (a single decimal counts as tenths). |
| `Amount.CentsIgnoresCommas` | app.py:64 | An amount and its comma-free form have the same sort key. |
| `Amount.OneDecimalIsTenths` | app.py:64 | "12.5" is 1250 hundredths, the value `float` gives it. |
| `Amount.CentsOf1200Point50` | app.py:64 | "1,200.50" is 120050 hundredths. |
| `Amount.CentsOf500` | app.py:64 | "500" is 50000 hundredths. |
| `Scanner.CellText` | app.py:54 | `str(c or '').strip()`: a missing cell reads as the empty string. It has no contract of its own; `StripMiddle` specifies the strip. |
| `Scanner.Cells` | app.py:54 | The list comprehension over the row. Its own contract states only that there is one text per cell; cell `k`'s text is the reader applied to `row[k]`, which `CandidatesAreFoundPairs` uses. |
| `Scanner.HasText` | app.py:49 | `if text:` for the text of a page: it is present and not empty. A predicate with no contract; `PageTextEmpty` and `FullTextEmpty` are stated with it. |
| `Scanner.PageText` | app.py:49-50 | What one page adds to the full text. It has no contract of its own; `PageTextEmpty` specifies it. |
| `Scanner.PageTextEmpty` | app.py:49-50 | A page adds nothing to the full text exactly when it has no text. |
| `Scanner.FullText` | app.py:48-50 | The full text. It has no contract of its own; `FullTextEmpty` and `ScanPages` specify it. |
| `Scanner.FullTextEmpty` | app.py:48-50 | The accumulated text is empty exactly when no page has non-empty text. |
| `Scanner.NoTextNoCurrency` | app.py:44-63 | A document with no page text has no currency. |
| `Scanner.FirstAmount` | app.py:58-62 | The first amount to the right, from cell `j` on: None exactly when no later cell holds an amount, otherwise the amount of a cell with no amount before it. |
| `Scanner.FirstAmountAt` | app.py:58-62 | An amount in cell `j`, with none between, is the one the rightward scan stops at. |
| `Scanner.LabelCandidates` | app.py:56-62 | The candidate cell `i` adds. It has no contract of its own; `LabelCandidatesIff` specifies it. |
| `Scanner.RowUpTo` | app.py:55-62 | The candidates of the first `n` cells of a row. It has no contract of its own; `RowUpToIff` specifies it and `ScanRow` is proved against it. |
| `Scanner.RowsUpTo` | app.py:53-62 | The candidates of the first `n` rows of a table. It has no contract of its own; `RowsUpToIff` specifies it and `ScanTable` is proved against it. |
| `Scanner.TablesUpTo` | app.py:52-62 | The candidates of the first `n` tables of a page. It has no contract of its own; `TablesUpToIff` specifies it and `ScanTables` is proved against it. |
| `Scanner.PagesUpTo` | app.py:47-62 | The candidates of the first `n` pages. It has no contract of its own; `PagesUpToIff` specifies it and `ScanPages` is proved against it. |
| `Scanner.AllCandidates` | app.py:47-62 | The candidates of the whole document. It has no contract of its own; `CandidatesAreFoundPairs`, `CandidateFacts` and `CandidatesInPageOrder` specify it. |
| `Scanner.LabelCandidatesIff` | app.py:56-62 | Cell `i` adds candidate `c` exactly when `i` is a label, a later cell `j` holds `c`'s amount, no cell between holds one, and `c` records the page and the label cell. |
| `Scanner.RowUpToIff` | app.py:55-62 | The candidates of a row are exactly those pairs, over its label cells. |
| `Scanner.RowsUpToIff` | app.py:53-62 | The candidates of a table are exactly those pairs, over its rows. |
| `Scanner.TablesUpToIff` | app.py:52-62 | The candidates of a page are exactly those pairs, over its tables. |
| `Scanner.PagesUpToIff` | app.py:47-62 | The candidates of the document are exactly those pairs, over its pages, with 1-based page numbers. |
| `Scanner.CandidatesAreFoundPairs` | app.py:47-62 | A candidate is exactly a total label and the first amount strictly to its right in the same row. A label in the last column, or with no amount to its right, yields none. |
| `Scanner.CandidateFacts` | app.py:54-61 | Every candidate has a label that passes `is_total_keyword`, a page in 1..#pages, and an amount of the numeric grammar. |
| `Scanner.NoLabelNoCandidate` | app.py:54-62 | A document in which no stripped cell is a total label has no candidate. |
| `Scanner.CandidatesInPageOrder` | app.py:47-61 | Candidates are appended in page order: their page numbers never decrease. |
| `Scanner.Key` | app.py:64 | The sort key `float(x[0].replace(',', ''))` of a candidate, as hundredths. It has no contract of its own; `CentsOfToken` specifies it. |
| `Scanner.Decorate` | app.py:64 | Each candidate paired with its key, computed once per candidate. Its own contract states only that there is one entry per candidate; `SortedHeadIsFirstLargest` uses it. |
| `Scanner.SortedDesc` | app.py:64 | `reverse=True` order: keys never increase. A predicate with no contract; `SortDescSorted` is stated with it. |
| `Scanner.Insert` | app.py:64 | One step of the stable sort. Its own contract states only that the list grows by one; `InsertSorted` and `InsertPermutes` specify it. |
| `Scanner.SortDesc` | app.py:64 | The stable descending sort, as an insertion sort. Its own contract states only its length; `SortDescSorted`, `SortDescPermutes` and `SortHead` specify it. |
| `Scanner.InsertSorted` | app.py:64 | Inserting into a descending list keeps it descending. The new head is the inserted entry unless the old head's key is larger. |
| `Scanner.InsertPermutes` | app.py:64 | Insertion adds the entry and loses nothing. |
| `Scanner.SortDescSorted` | app.py:64 | The sort's result is in descending key order. |
| `Scanner.SortDescPermutes` | app.py:64 | The sort's result is a permutation of its input. |
| `Scanner.SortHead` | app.py:64 | The head of the sorted list is the first entry with the largest key, as the stable `sorted(..., reverse=True)` gives. |
| `Scanner.IsFirstLargest` | app.py:64-65 | `k` is the first candidate whose amount is at least every candidate's. A predicate with no contract; `SortedHeadIsFirstLargest` and `FirstLargestUnique` are stated with it. |
| `Scanner.FirstLargestUnique` | app.py:64-65 | The first candidate with the largest amount is unique. |
| `Scanner.SortedHeadIsFirstLargest` | app.py:64-65 | The head of the sorted candidates is the first one with the largest amount. |
| `Scanner.SelectBest` | app.py:64-65 | `totals[0] if totals else None` on the sorted list: None exactly when there is no candidate. Otherwise the result's amount is at least every candidate's, and every earlier candidate's is strictly smaller. |
| `Scanner.LargerSecondWins` | app.py:64-65 | Of two candidates, a strictly larger second one is selected. |
| `Scanner.TiedFirstWins` | app.py:64-65 | Of two candidates with equal amounts, the first one is selected. |
| `Scanner.LargerAmountOnLaterPageWins` | app.py:64-65 | "1,200.50" on page 3 is selected over "500" on page 1. |
| `Scanner.AmountRightOf` | app.py:58-62 | The inner loop with its `break` returns the first amount to the right of the label. |
| `Scanner.ScanRow` | app.py:55-62 | The cell loop appends the row's candidates to `totals`, in column order. |
| `Scanner.ScanTable` | app.py:53-62 | The row loop appends the table's candidates, in row order. |
| `Scanner.ScanTables` | app.py:52-62 | The table loop appends the page's candidates, in table order. |
| `Scanner.ScanPages` | app.py:47-62 | The page loop builds the full text (each non-empty page text plus "\n", in page order) and all candidates, in page order. |
| `Scanner.ExtractInvoiceData` | app.py:43-65 | The currency is `detect_currency` of the full text. The result is None exactly when there is no candidate. Otherwise it is the first candidate with the largest amount. |

## Left out

- The Streamlit user interface (app.py:67-86) is presentation only.
- Document parsing is not modelled: `pdfplumber.open`, `extract_text`, `extract_tables` and `BytesIO`. Pages, their optional text and their tables are the input.
- Exception handling is not modelled. The source only reports library errors.
- `unicodedata.normalize("NFKD", ...)` is the parameter `nfkd`. Its Unicode tables are not modelled, so the model says nothing about whether precomposed signature characters survive decomposition.
- The general regular-expression engine is not modelled. Only the fixed pattern shapes are: literal substrings, `\b`-framed substrings, and the amount pattern, which has a hand-written matcher proved to find the leftmost-longest word of its language. `euros?`, `rupees?` and `pounds?` are searched as "euro", "rupee" and "pound": a search for them succeeds exactly where one of those occurs.
- `re.IGNORECASE` is not modelled beyond ASCII. The text is lower-cased, every cased letter in the patterns is lower-case ASCII, and the Arabic letters have no case, so only non-ASCII case-insensitive matching is lost: for example, `re.IGNORECASE` matches the dotless `ı` against `i`, so "ınr" is read as INR by the source and not by the model.
- `Text.Lower` lowers ASCII letters only, not all of Unicode. `Text.IsDigit` is ASCII `0`..`9`, not every Unicode decimal digit.
- `Text.IsSpace` is the whitespace set of `str.isspace()`. `split()` and `strip()` use it.
- `Currency.IsWordChar` is the word-character set for `\b` (`str.isalnum()` and the underscore), restricted to these blocks: ASCII, Latin-1 (its letters and its numerics ² ³ ¹ ¼ ½ ¾), Latin Extended-A and -B, IPA, the modifier letters of U+02B0..U+02FF (not its modifier symbols), and the letters and digits of the Arabic block. Word characters of every other block and script (Latin Extended Additional, Greek, Cyrillic, Arabic Supplement, ...) are left out, so a `\b` next to one of them is accepted by the model where the source rejects it.
- `Amount.Cents`: `float(amount.replace(',', ''))` is modelled as an exact count of hundredths. The amounts the matcher produces have at most two decimals, so this ordering agrees with the float ordering. Float rounding of very long digit strings, where two different amounts could compare equal, is not modelled.
- `Scanner.SortHead`: only the head and the permutation and ordering facts of the stable sort are stated. The relative order of all equal keys past the head is not stated; only the head is used.
- `Scanner.ExtractInvoiceData` returns a candidate record `Candidate(amount, page, labelCell)` in place of the source's tuple.
- Behaviour of `app.py` that may be unexpected, and which the model keeps:
  - the label recorded with a candidate is the stripped cell text (app.py:54, 61);
  - `extract_number` removes only U+0020 spaces, not all whitespace (app.py:40);
  - the output of `normalize_arabic` is bounded by the length of the NFKD text, which can be longer than the input (app.py:9).
