/**
  The invoice scanner: every total label in every table row is paired
  with the first amount to its right, the largest amount wins (the first
  one found among equals), and the currency is read from the text of all
  pages. Pages, tables, rows and cells come in as data.
 */
module Scanner {
  import opened Wrappers
  import opened Text
  import opened Labels
  import opened Amount
  import Currency

  /** A row of nullable cells, a table of rows. */
  type Row = seq<Option<string>>
  type Table = seq<Row>

  /** A page as the document parser hands it over: its text, if it has any, and its tables. */
  datatype Page = Page(text: Option<string>, tables: seq<Table>)

  /** The amount as the matcher found it, the 1-based page number, and the label cell. */
  datatype Candidate = Candidate(amount: string, page: nat, labelCell: string)

  /**
    How the scan reads a cell: the text it takes from the raw cell, whether
    that text is a total label, and which amount it holds. The scan of the
    tables is stated for any such readers and calls `ts.isLabel` and
    `ts.amountOf` where `app.py` calls `is_total_keyword` and
    `extract_number` directly; the invoice reader uses `Invoice`: stripped
    text, the keyword test and the amount matcher. The scan accepts an
    amount when `ts.amountOf` gives `Some`, where `app.py` tests the string
    for being non-empty; the two agree for `Invoice` because the matcher
    never yields an empty string (`Amount.ExtractedNonEmpty`).
   */
  datatype CellTests = CellTests(text: Option<string> -> string, isLabel: string -> bool, amountOf: string -> Option<string>)

  const Invoice: CellTests := CellTests(CellText, IsTotalKeyword, ExtractNumber)

  /** `str(c or '').strip()`. */
  function CellText(c: Option<string>): string {
    Strip(if c.Some? then c.value else "")
  }

  /** `[str(c or '').strip() for c in row]`, with the cell reader of `ts` in place of the strip. */
  function Cells(row: Row, ts: CellTests): (cells: seq<string>)
    ensures |cells| == |row|
  {
    seq(|row|, k requires 0 <= k < |row| => ts.text(row[k]))
  }

  /** `if text:` for the text of a page: present and not empty. */
  predicate HasText(page: Page) {
    page.text.Some? && page.text.value != []
  }

  /** What a page adds to the full text: its text and a newline, or nothing when it has no text. */
  function PageText(page: Page): string {
    if HasText(page) then page.text.value + "\n" else ""
  }

  /** The full text of the first `n` pages, in page order. */
  function FullText(pages: seq<Page>, n: nat): string
    requires n <= |pages|
  {
    if n == 0 then "" else FullText(pages, n - 1) + PageText(pages[n - 1])
  }

  /** A page adds nothing to the full text exactly when it has no text. */
  lemma PageTextEmpty(page: Page)
    ensures PageText(page) == [] <==> !HasText(page)
  {
    if HasText(page) {
      assert |PageText(page)| == |page.text.value| + 1;
    }
  }

  /** The full text is empty exactly when no page has text. */
  lemma {:induction false} FullTextEmpty(pages: seq<Page>, n: nat)
    requires n <= |pages|
    ensures FullText(pages, n) == [] <==> forall p :: 0 <= p < n ==> !HasText(pages[p])
  {
    if n > 0 {
      FullTextEmpty(pages, n - 1);
      PageTextEmpty(pages[n - 1]);
      var a := FullText(pages, n - 1);
      var b := PageText(pages[n - 1]);
      assert |FullText(pages, n)| == |a| + |b|;
      if FullText(pages, n) == [] {
        forall p | 0 <= p < n ensures !HasText(pages[p]) {
          if p < n - 1 {
            assert a == [];
          }
        }
      } else if a == [] {
        assert HasText(pages[n - 1]);
      } else {
        var q :| 0 <= q < n - 1 && HasText(pages[q]);
        assert HasText(pages[q]);
      }
    }
  }

  /** A document without text has no currency. */
  lemma NoTextNoCurrency(pages: seq<Page>, nfkd: string -> string)
    requires forall p :: 0 <= p < |pages| ==> !HasText(pages[p])
    ensures Currency.DetectCurrency(FullText(pages, |pages|), nfkd).None?
  {
    FullTextEmpty(pages, |pages|);
  }

  /** The first amount found from cell `j` rightwards in the same row. */
  function FirstAmount(cells: seq<string>, j: nat, ts: CellTests): (r: Option<string>)
    ensures r.None? <==> forall k :: j <= k < |cells| ==> ts.amountOf(cells[k]).None?
    ensures r.Some? ==> exists k :: j <= k < |cells| && ts.amountOf(cells[k]) == r
                          && forall m :: j <= m < k ==> ts.amountOf(cells[m]).None?
    decreases |cells| - j
  {
    if j >= |cells| then None
    else
      var a := ts.amountOf(cells[j]);
      if a.Some? then a else FirstAmount(cells, j + 1, ts)
  }

  /** An amount in cell `j` with none between `i` and `j` is the first amount from `i`. */
  lemma {:induction false} FirstAmountAt(cells: seq<string>, i: nat, j: nat, ts: CellTests)
    requires i <= j < |cells|
    requires ts.amountOf(cells[j]).Some?
    requires forall m :: i <= m < j ==> ts.amountOf(cells[m]).None?
    ensures FirstAmount(cells, i, ts) == ts.amountOf(cells[j])
    decreases j - i
  {
    if i < j {
      FirstAmountAt(cells, i + 1, j, ts);
    }
  }

  /** What the label test at cell `i` contributes: one candidate, or none. */
  function LabelCandidates(cells: seq<string>, i: nat, pageNo: nat, ts: CellTests): seq<Candidate>
    requires i < |cells|
  {
    if ts.isLabel(cells[i]) then
      match FirstAmount(cells, i + 1, ts)
      case None => []
      case Some(a) => [Candidate(a, pageNo, cells[i])]
    else []
  }

  /** The candidates of the first `n` cells of a row. */
  function RowUpTo(cells: seq<string>, n: nat, pageNo: nat, ts: CellTests): seq<Candidate>
    requires n <= |cells|
  {
    if n == 0 then [] else RowUpTo(cells, n - 1, pageNo, ts) + LabelCandidates(cells, n - 1, pageNo, ts)
  }

  /** The candidates of the first `n` rows of a table. */
  function RowsUpTo(rows: seq<Row>, n: nat, pageNo: nat, ts: CellTests): seq<Candidate>
    requires n <= |rows|
  {
    if n == 0 then []
    else RowsUpTo(rows, n - 1, pageNo, ts) + RowUpTo(Cells(rows[n - 1], ts), |rows[n - 1]|, pageNo, ts)
  }

  /** The candidates of the first `n` tables of a page. */
  function TablesUpTo(tables: seq<Table>, n: nat, pageNo: nat, ts: CellTests): seq<Candidate>
    requires n <= |tables|
  {
    if n == 0 then []
    else TablesUpTo(tables, n - 1, pageNo, ts) + RowsUpTo(tables[n - 1], |tables[n - 1]|, pageNo, ts)
  }

  /** The candidates of the first `n` pages. */
  function PagesUpTo(pages: seq<Page>, n: nat, ts: CellTests): seq<Candidate>
    requires n <= |pages|
  {
    if n == 0 then []
    else PagesUpTo(pages, n - 1, ts) + TablesUpTo(pages[n - 1].tables, |pages[n - 1].tables|, n, ts)
  }

  /** Every candidate of the document, in page, table, row and column order. */
  function AllCandidates(pages: seq<Page>): seq<Candidate> {
    PagesUpTo(pages, |pages|, Invoice)
  }

  /**
    Cell `i` of the row is a label and cell `j` the first cell to its right
    with an amount, and `c` records that amount, the page and the label.
   */
  ghost predicate RowFound(cells: seq<string>, pageNo: nat, c: Candidate, i: nat, j: nat, ts: CellTests) {
    && i < j < |cells|
    && ts.isLabel(cells[i])
    && ts.amountOf(cells[j]) == Some(c.amount)
    && (forall m :: i < m < j ==> ts.amountOf(cells[m]).None?)
    && c.page == pageNo
    && c.labelCell == cells[i]
  }

  /** RowFound for row `r` of table `t` of page `p` of the document. */
  ghost predicate FoundAt(pages: seq<Page>, c: Candidate, p: nat, t: nat, r: nat, i: nat, j: nat, ts: CellTests) {
    && p < |pages|
    && t < |pages[p].tables|
    && r < |pages[p].tables[t]|
    && RowFound(Cells(pages[p].tables[t][r], ts), p + 1, c, i, j, ts)
  }

  lemma LabelCandidatesIff(cells: seq<string>, i: nat, pageNo: nat, c: Candidate, ts: CellTests)
    requires i < |cells|
    ensures c in LabelCandidates(cells, i, pageNo, ts) <==> exists j: nat :: RowFound(cells, pageNo, c, i, j, ts)
  {
    if c in LabelCandidates(cells, i, pageNo, ts) {
      var k :| i + 1 <= k < |cells| && ts.amountOf(cells[k]) == FirstAmount(cells, i + 1, ts)
               && forall m :: i + 1 <= m < k ==> ts.amountOf(cells[m]).None?;
      assert RowFound(cells, pageNo, c, i, k, ts);
    }
    if j: nat :| RowFound(cells, pageNo, c, i, j, ts) {
      FirstAmountAt(cells, i + 1, j, ts);
      assert LabelCandidates(cells, i, pageNo, ts) == [c];
    }
  }

  lemma {:induction false} RowUpToIff(cells: seq<string>, n: nat, pageNo: nat, c: Candidate, ts: CellTests)
    requires n <= |cells|
    ensures c in RowUpTo(cells, n, pageNo, ts) <==>
              exists i: nat, j: nat :: i < n && RowFound(cells, pageNo, c, i, j, ts)
  {
    if n > 0 {
      RowUpToIff(cells, n - 1, pageNo, c, ts);
      LabelCandidatesIff(cells, n - 1, pageNo, c, ts);
      var before := RowUpTo(cells, n - 1, pageNo, ts);
      var here := LabelCandidates(cells, n - 1, pageNo, ts);
      assert RowUpTo(cells, n, pageNo, ts) == before + here;
      if c in here {
        var j: nat :| RowFound(cells, pageNo, c, n - 1, j, ts);
        assert n - 1 < n;
      }
      if i: nat, j: nat :| i < n && RowFound(cells, pageNo, c, i, j, ts) {
        if i == n - 1 {
          assert c in here;
        } else {
          assert c in before;
        }
      }
    }
  }

  lemma {:induction false} RowsUpToIff(rows: seq<Row>, n: nat, pageNo: nat, c: Candidate, ts: CellTests)
    requires n <= |rows|
    ensures c in RowsUpTo(rows, n, pageNo, ts) <==>
              exists r: nat, i: nat, j: nat :: r < n && RowFound(Cells(rows[r], ts), pageNo, c, i, j, ts)
  {
    if c in RowsUpTo(rows, n, pageNo, ts) {
      var r: nat, i: nat, j: nat := RowsUpToSound(rows, n, pageNo, c, ts);
    }
    if r: nat, i: nat, j: nat :| r < n && RowFound(Cells(rows[r], ts), pageNo, c, i, j, ts) {
      RowsUpToComplete(rows, n, pageNo, c, ts, r, i, j);
    }
  }

  lemma {:induction false} RowsUpToSound(rows: seq<Row>, n: nat, pageNo: nat, c: Candidate, ts: CellTests)
      returns (r: nat, i: nat, j: nat)
    requires n <= |rows|
    requires c in RowsUpTo(rows, n, pageNo, ts)
    ensures r < n && RowFound(Cells(rows[r], ts), pageNo, c, i, j, ts)
  {
    var before := RowsUpTo(rows, n - 1, pageNo, ts);
    var cells := Cells(rows[n - 1], ts);
    var here := RowUpTo(cells, |rows[n - 1]|, pageNo, ts);
    assert RowsUpTo(rows, n, pageNo, ts) == before + here;
    if c in before {
      r, i, j := RowsUpToSound(rows, n - 1, pageNo, c, ts);
    } else {
      RowUpToIff(cells, |rows[n - 1]|, pageNo, c, ts);
      r := n - 1;
      i, j :| i < |rows[n - 1]| && RowFound(cells, pageNo, c, i, j, ts);
    }
  }

  lemma {:induction false} RowsUpToComplete(rows: seq<Row>, n: nat, pageNo: nat, c: Candidate, ts: CellTests, r: nat, i: nat, j: nat)
    requires n <= |rows|
    requires r < n && RowFound(Cells(rows[r], ts), pageNo, c, i, j, ts)
    ensures c in RowsUpTo(rows, n, pageNo, ts)
  {
    var before := RowsUpTo(rows, n - 1, pageNo, ts);
    var cells := Cells(rows[n - 1], ts);
    var here := RowUpTo(cells, |rows[n - 1]|, pageNo, ts);
    assert RowsUpTo(rows, n, pageNo, ts) == before + here;
    if r < n - 1 {
      RowsUpToComplete(rows, n - 1, pageNo, c, ts, r, i, j);
    } else {
      RowUpToIff(cells, |rows[n - 1]|, pageNo, c, ts);
      assert i < |rows[n - 1]|;
    }
  }

  lemma {:induction false} TablesUpToIff(tables: seq<Table>, n: nat, pageNo: nat, c: Candidate, ts: CellTests)
    requires n <= |tables|
    ensures c in TablesUpTo(tables, n, pageNo, ts) <==>
              exists t: nat, r: nat, i: nat, j: nat :: t < n && r < |tables[t]| && RowFound(Cells(tables[t][r], ts), pageNo, c, i, j, ts)
  {
    if n > 0 {
      TablesUpToIff(tables, n - 1, pageNo, c, ts);
      var rows := tables[n - 1];
      RowsUpToIff(rows, |rows|, pageNo, c, ts);
      var before := TablesUpTo(tables, n - 1, pageNo, ts);
      var here := RowsUpTo(rows, |rows|, pageNo, ts);
      assert TablesUpTo(tables, n, pageNo, ts) == before + here;
      if c in here {
        var r: nat, i: nat, j: nat :| r < |rows| && RowFound(Cells(rows[r], ts), pageNo, c, i, j, ts);
        assert RowFound(Cells(tables[n - 1][r], ts), pageNo, c, i, j, ts);
      }
      if t: nat, r: nat, i: nat, j: nat :| t < n && r < |tables[t]| && RowFound(Cells(tables[t][r], ts), pageNo, c, i, j, ts) {
        if t == n - 1 {
          assert RowFound(Cells(rows[r], ts), pageNo, c, i, j, ts);
          assert c in here;
        } else {
          assert c in before;
        }
      }
    }
  }

  lemma {:induction false} PagesUpToIff(pages: seq<Page>, n: nat, c: Candidate, ts: CellTests)
    requires n <= |pages|
    ensures c in PagesUpTo(pages, n, ts) <==>
              exists p: nat, t: nat, r: nat, i: nat, j: nat :: p < n && FoundAt(pages, c, p, t, r, i, j, ts)
  {
    if n > 0 {
      PagesUpToIff(pages, n - 1, c, ts);
      var tables := pages[n - 1].tables;
      TablesUpToIff(tables, |tables|, n, c, ts);
      var before := PagesUpTo(pages, n - 1, ts);
      var here := TablesUpTo(tables, |tables|, n, ts);
      assert PagesUpTo(pages, n, ts) == before + here;
      if c in here {
        var t: nat, r: nat, i: nat, j: nat :| t < |tables| && r < |tables[t]| && RowFound(Cells(tables[t][r], ts), n, c, i, j, ts);
        assert FoundAt(pages, c, n - 1, t, r, i, j, ts);
      }
      if p: nat, t: nat, r: nat, i: nat, j: nat :| p < n && FoundAt(pages, c, p, t, r, i, j, ts) {
        if p == n - 1 {
          assert t < |tables| && r < |tables[t]| && RowFound(Cells(tables[t][r], ts), n, c, i, j, ts);
          assert c in here;
        } else {
          assert c in before;
        }
      }
    }
  }

  /**
    The candidates are exactly the pairs of a total label and the first
    amount strictly to its right in the same row: a label in the last
    column, or with no amount to its right, yields none.
   */
  lemma CandidatesAreFoundPairs(pages: seq<Page>, c: Candidate)
    ensures c in AllCandidates(pages) <==>
              exists p: nat, t: nat, r: nat, i: nat, j: nat :: FoundAt(pages, c, p, t, r, i, j, Invoice)
  {
    PagesUpToIff(pages, |pages|, c, Invoice);
  }

  /**
    Every candidate carries a total label, a page number between 1 and the
    page count, and an amount of the numeric grammar.
   */
  lemma CandidateFacts(pages: seq<Page>, c: Candidate)
    requires c in AllCandidates(pages)
    ensures IsTotalKeyword(c.labelCell)
    ensures 1 <= c.page <= |pages|
    ensures IsNumberToken(c.amount)
  {
    CandidatesAreFoundPairs(pages, c);
    var p: nat, t: nat, r: nat, i: nat, j: nat :| FoundAt(pages, c, p, t, r, i, j, Invoice);
    var cells := Cells(pages[p].tables[t][r], Invoice);
    assert IsTotalKeyword(cells[i]);
    assert ExtractNumber(cells[j]) == Some(c.amount);
    ExtractNumberLeftmostLongest(cells[j]);
    var k: nat :| IsLeftmostLongest(Without(cells[j], ' '), k, c.amount);
  }

  lemma NothingIn(s: seq<Candidate>)
    requires forall c :: c !in s
    ensures s == []
  {
    forall c ensures multiset(s)[c] == 0 {
      assert c !in s;
    }
    assert multiset(s) == multiset{};
    assert |multiset(s)| == |s|;
  }

  /** A document in which no cell is a total label has no candidate. */
  lemma NoLabelNoCandidate(pages: seq<Page>)
    requires forall p, t, r, i ::
               (0 <= p < |pages| && 0 <= t < |pages[p].tables| && 0 <= r < |pages[p].tables[t]|
                && 0 <= i < |pages[p].tables[t][r]|) ==> !IsTotalKeyword(CellText(pages[p].tables[t][r][i]))
    ensures AllCandidates(pages) == []
  {
    forall c ensures c !in AllCandidates(pages) {
      CandidatesAreFoundPairs(pages, c);
    }
    NothingIn(AllCandidates(pages));
  }

  predicate PagesAre(cs: seq<Candidate>, pageNo: nat) {
    forall a :: 0 <= a < |cs| ==> cs[a].page == pageNo
  }

  lemma {:induction false} RowUpToPage(cells: seq<string>, n: nat, pageNo: nat, ts: CellTests)
    requires n <= |cells|
    ensures PagesAre(RowUpTo(cells, n, pageNo, ts), pageNo)
  {
    if n > 0 {
      RowUpToPage(cells, n - 1, pageNo, ts);
    }
  }

  lemma {:induction false} RowsUpToPage(rows: seq<Row>, n: nat, pageNo: nat, ts: CellTests)
    requires n <= |rows|
    ensures PagesAre(RowsUpTo(rows, n, pageNo, ts), pageNo)
  {
    if n > 0 {
      RowsUpToPage(rows, n - 1, pageNo, ts);
      RowUpToPage(Cells(rows[n - 1], ts), |rows[n - 1]|, pageNo, ts);
    }
  }

  lemma {:induction false} TablesUpToPage(tables: seq<Table>, n: nat, pageNo: nat, ts: CellTests)
    requires n <= |tables|
    ensures PagesAre(TablesUpTo(tables, n, pageNo, ts), pageNo)
  {
    if n > 0 {
      TablesUpToPage(tables, n - 1, pageNo, ts);
      RowsUpToPage(tables[n - 1], |tables[n - 1]|, pageNo, ts);
    }
  }

  lemma {:induction false} PagesUpToOrdered(pages: seq<Page>, n: nat, ts: CellTests)
    requires n <= |pages|
    ensures forall a :: 0 <= a < |PagesUpTo(pages, n, ts)| ==> 1 <= PagesUpTo(pages, n, ts)[a].page <= n
    ensures forall a, b :: 0 <= a < b < |PagesUpTo(pages, n, ts)| ==>
              PagesUpTo(pages, n, ts)[a].page <= PagesUpTo(pages, n, ts)[b].page
  {
    if n > 0 {
      PagesUpToOrdered(pages, n - 1, ts);
      TablesUpToPage(pages[n - 1].tables, |pages[n - 1].tables|, n, ts);
    }
  }

  /** The candidates come in page order: their page numbers never decrease. */
  lemma CandidatesInPageOrder(pages: seq<Page>)
    ensures forall a, b :: 0 <= a < b < |AllCandidates(pages)| ==>
              AllCandidates(pages)[a].page <= AllCandidates(pages)[b].page
  {
    PagesUpToOrdered(pages, |pages|, Invoice);
  }

  /** The sort key: the amount without its commas, as exact hundredths. */
  function Key(c: Candidate): nat {
    Cents(c.amount)
  }

  /** A candidate with its sort key, computed once per candidate as `sorted(..., key=...)` does. */
  datatype Entry = Entry(key: nat, item: Candidate)

  function Decorate(totals: seq<Candidate>): (es: seq<Entry>)
    ensures |es| == |totals|
  {
    seq(|totals|, k requires 0 <= k < |totals| => Entry(Key(totals[k]), totals[k]))
  }

  predicate SortedDesc(es: seq<Entry>) {
    forall a, b :: 0 <= a < b < |es| ==> es[a].key >= es[b].key
  }

  /**
    Puts `e` into a list in front of the first entry whose key is not
    larger, so that of two equal keys the earlier entry stays in front.
   */
  function Insert(e: Entry, es: seq<Entry>): (r: seq<Entry>)
    ensures |r| == |es| + 1
  {
    if es == [] || es[0].key <= e.key then [e] + es
    else [es[0]] + Insert(e, es[1..])
  }

  /** Inserting into a descending list keeps it descending; the head is `e` unless the old head is larger. */
  lemma {:induction false} InsertSorted(e: Entry, es: seq<Entry>)
    requires SortedDesc(es)
    ensures SortedDesc(Insert(e, es))
    ensures Insert(e, es)[0] == (if es == [] || es[0].key <= e.key then e else es[0])
  {
    if es != [] && es[0].key > e.key {
      var rest := Insert(e, es[1..]);
      InsertSorted(e, es[1..]);
      assert rest[0].key <= es[0].key;
      var r := [es[0]] + rest;
      assert Insert(e, es) == r;
      forall a, b | 0 <= a < b < |r| ensures r[a].key >= r[b].key {
        if a > 0 {
          assert r[a] == rest[a - 1] && r[b] == rest[b - 1];
        } else {
          assert r[b] == rest[b - 1];
        }
      }
    }
  }

  /** Inserting adds `e` and loses nothing. */
  lemma {:induction false} InsertPermutes(e: Entry, es: seq<Entry>)
    ensures multiset(Insert(e, es)) == multiset(es) + multiset{e}
  {
    if es != [] && es[0].key > e.key {
      InsertPermutes(e, es[1..]);
      assert es == [es[0]] + es[1..];
    }
  }

  /** `sorted(..., reverse=True)` on the keyed candidates: a stable descending insertion sort. */
  function SortDesc(es: seq<Entry>): (r: seq<Entry>)
    ensures |r| == |es|
  {
    if es == [] then [] else Insert(es[0], SortDesc(es[1..]))
  }

  /** The sort's result is descending by key, and its head is the first entry when no later entry beats it. */
  lemma {:induction false} SortDescSorted(es: seq<Entry>)
    ensures SortedDesc(SortDesc(es))
    ensures es != [] ==>
              SortDesc(es)[0] == (if |es| == 1 || SortDesc(es[1..])[0].key <= es[0].key then es[0] else SortDesc(es[1..])[0])
  {
    if es != [] {
      SortDescSorted(es[1..]);
      InsertSorted(es[0], SortDesc(es[1..]));
    }
  }

  /** The sort is a permutation of its input. */
  lemma {:induction false} SortDescPermutes(es: seq<Entry>)
    ensures multiset(SortDesc(es)) == multiset(es)
  {
    if es != [] {
      var tail := SortDesc(es[1..]);
      SortDescPermutes(es[1..]);
      InsertPermutes(es[0], tail);
      assert multiset(SortDesc(es)) == multiset(tail) + multiset{es[0]};
      assert es == [es[0]] + es[1..];
    }
  }

  /** Entry `k` has a largest key, and every entry before it a strictly smaller one. */
  ghost predicate IsFirstMaximum(es: seq<Entry>, k: nat) {
    && k < |es|
    && (forall j :: 0 <= j < |es| ==> es[j].key <= es[k].key)
    && (forall j :: 0 <= j < k ==> es[j].key < es[k].key)
  }

  /** Because the sort is stable, its head is the first of the entries with the largest key. */
  lemma {:induction false} SortHead(es: seq<Entry>)
    requires es != []
    ensures exists k: nat :: IsFirstMaximum(es, k) && SortDesc(es)[0] == es[k]
  {
    if |es| == 1 {
      assert IsFirstMaximum(es, 0);
    } else {
      var tail := es[1..];
      SortHead(tail);
      var k': nat :| IsFirstMaximum(tail, k') && SortDesc(tail)[0] == tail[k'];
      var sorted := SortDesc(tail);
      SortDescSorted(es);
      if sorted[0].key <= es[0].key {
        assert IsFirstMaximum(es, 0) by {
          forall j | 1 <= j < |es| ensures es[j].key <= es[0].key {
            assert es[j] == tail[j - 1];
          }
        }
      } else {
        assert SortDesc(es)[0] == tail[k'] == es[k' + 1];
        assert IsFirstMaximum(es, k' + 1) by {
          forall j | 1 <= j < |es| ensures es[j].key <= es[k' + 1].key {
            assert es[j] == tail[j - 1];
          }
          forall j | 1 <= j < k' + 1 ensures es[j].key < es[k' + 1].key {
            assert es[j] == tail[j - 1];
          }
        }
      }
    }
  }

  /** Candidate `k` has a largest amount, and every candidate before it a strictly smaller one. */
  ghost predicate IsFirstLargest(totals: seq<Candidate>, k: nat) {
    IsFirstMaximum(Decorate(totals), k)
  }

  /** The first of the largest is unique, so the selection is determined by the candidates. */
  lemma FirstLargestUnique(totals: seq<Candidate>, k1: nat, k2: nat)
    requires IsFirstLargest(totals, k1) && IsFirstLargest(totals, k2)
    ensures k1 == k2
  {
    var es := Decorate(totals);
    assert es[k2].key <= es[k1].key;
    assert es[k1].key <= es[k2].key;
  }

  /** The head of the sorted keyed candidates is the first candidate with the largest amount. */
  lemma SortedHeadIsFirstLargest(totals: seq<Candidate>)
    requires totals != []
    ensures exists k: nat :: IsFirstLargest(totals, k) && SortDesc(Decorate(totals))[0].item == totals[k]
  {
    var es := Decorate(totals);
    SortHead(es);
    var k: nat :| IsFirstMaximum(es, k) && SortDesc(es)[0] == es[k];
    assert IsFirstLargest(totals, k);
  }

  /**
    `totals[0] if totals else None` after the sort: None exactly when there
    is no candidate, otherwise the first candidate with the largest amount.
   */
  function SelectBest(totals: seq<Candidate>): (r: Option<Candidate>)
    ensures r.None? <==> totals == []
    ensures r.Some? ==> exists k: nat :: IsFirstLargest(totals, k) && r.value == totals[k]
  {
    if totals == [] then None
    else
      SortedHeadIsFirstLargest(totals);
      Some(SortDesc(Decorate(totals))[0].item)
  }

  /** Of two candidates, a strictly larger second one is selected. */
  lemma LargerSecondWins(a: Candidate, b: Candidate)
    requires Key(a) < Key(b)
    ensures SelectBest([a, b]) == Some(b)
  {
    var k: nat :| IsFirstLargest([a, b], k) && SelectBest([a, b]).value == [a, b][k];
    assert IsFirstLargest([a, b], 1);
    FirstLargestUnique([a, b], k, 1);
  }

  /** Of two candidates with equal amounts, the first one found is selected. */
  lemma TiedFirstWins(a: Candidate, b: Candidate)
    requires Key(a) == Key(b)
    ensures SelectBest([a, b]) == Some(a)
  {
    var k: nat :| IsFirstLargest([a, b], k) && SelectBest([a, b]).value == [a, b][k];
    assert IsFirstLargest([a, b], 0);
    FirstLargestUnique([a, b], k, 0);
  }

  /** "1,200.50" on page 3 beats "500" on page 1. */
  lemma LargerAmountOnLaterPageWins(l1: string, l3: string)
    ensures SelectBest([Candidate("500", 1, l1), Candidate("1,200.50", 3, l3)]) == Some(Candidate("1,200.50", 3, l3))
  {
    CentsOf500();
    CentsOf1200Point50();
    LargerSecondWins(Candidate("500", 1, l1), Candidate("1,200.50", 3, l3));
  }

  /**
    The search to the right of a label at cell `i`: the first cell after it
    that holds an amount gives that amount; a label with none gives None.
   */
  method AmountRightOf(cells: seq<string>, i: nat, ts: CellTests) returns (amount: Option<string>)
    requires i < |cells|
    ensures amount == FirstAmount(cells, i + 1, ts)
  {
    var j := i + 1;
    while j < |cells|
      invariant i + 1 <= j <= |cells|
      invariant FirstAmount(cells, j, ts) == FirstAmount(cells, i + 1, ts)
    {
      amount := ts.amountOf(cells[j]);
      if amount.Some? {
        return;
      }
      j := j + 1;
    }
    amount := None;
  }

  /** The scan of one row of stripped cells: each label adds its candidate to `totals`. */
  method ScanRow(cells: seq<string>, pageNo: nat, totals: seq<Candidate>, ts: CellTests) returns (out: seq<Candidate>)
    ensures out == totals + RowUpTo(cells, |cells|, pageNo, ts)
  {
    out := totals;
    var i := 0;
    while i < |cells|
      invariant i <= |cells|
      invariant out == totals + RowUpTo(cells, i, pageNo, ts)
    {
      ghost var done := RowUpTo(cells, i, pageNo, ts);
      ghost var here := LabelCandidates(cells, i, pageNo, ts);
      if ts.isLabel(cells[i]) {
        var amount := AmountRightOf(cells, i, ts);
        if amount.Some? {
          out := out + [Candidate(amount.value, pageNo, cells[i])];
          assert here == [Candidate(amount.value, pageNo, cells[i])];
        } else {
          assert here == [];
        }
      } else {
        assert here == [];
      }
      assert out == (totals + done) + here;
      assert (totals + done) + here == totals + (done + here);
      assert RowUpTo(cells, i + 1, pageNo, ts) == done + here;
      i := i + 1;
    }
  }

  /** The scan of one table: its rows in order. */
  method ScanTable(table: Table, pageNo: nat, totals: seq<Candidate>, ts: CellTests) returns (out: seq<Candidate>)
    ensures out == totals + RowsUpTo(table, |table|, pageNo, ts)
  {
    out := totals;
    var r := 0;
    while r < |table|
      invariant r <= |table|
      invariant out == totals + RowsUpTo(table, r, pageNo, ts)
    {
      var cells := Cells(table[r], ts);
      ghost var done := RowsUpTo(table, r, pageNo, ts);
      ghost var row := RowUpTo(cells, |cells|, pageNo, ts);
      out := ScanRow(cells, pageNo, out, ts);
      assert RowsUpTo(table, r + 1, pageNo, ts) == done + row;
      assert (totals + done) + row == totals + (done + row);
      r := r + 1;
    }
  }

  /** The scan of the tables of one page, in order. */
  method ScanTables(tables: seq<Table>, pageNo: nat, totals: seq<Candidate>, ts: CellTests) returns (out: seq<Candidate>)
    ensures out == totals + TablesUpTo(tables, |tables|, pageNo, ts)
  {
    out := totals;
    var t := 0;
    while t < |tables|
      invariant t <= |tables|
      invariant out == totals + TablesUpTo(tables, t, pageNo, ts)
    {
      ghost var done := TablesUpTo(tables, t, pageNo, ts);
      ghost var table := RowsUpTo(tables[t], |tables[t]|, pageNo, ts);
      out := ScanTable(tables[t], pageNo, out, ts);
      assert TablesUpTo(tables, t + 1, pageNo, ts) == done + table;
      assert (totals + done) + table == totals + (done + table);
      t := t + 1;
    }
  }

  /**
    The loop over the pages: the full text of the pages that have text,
    each followed by a newline, and every candidate of every table.
   */
  method ScanPages(pages: seq<Page>, ts: CellTests) returns (fullText: string, totals: seq<Candidate>)
    ensures fullText == FullText(pages, |pages|)
    ensures totals == PagesUpTo(pages, |pages|, ts)
  {
    fullText := "";
    totals := [];
    var p := 0;
    while p < |pages|
      invariant p <= |pages|
      invariant fullText == FullText(pages, p)
      invariant totals == PagesUpTo(pages, p, ts)
    {
      var page := pages[p];
      ghost var textBefore := fullText;
      if HasText(page) {
        fullText := fullText + page.text.value + "\n";
        assert fullText == textBefore + (page.text.value + "\n");
      }
      assert fullText == textBefore + PageText(page);
      ghost var done := totals;
      totals := ScanTables(page.tables, p + 1, totals, ts);
      assert PagesUpTo(pages, p + 1, ts) == done + TablesUpTo(page.tables, |page.tables|, p + 1, ts);
      p := p + 1;
    }
  }

  /**
    extract_invoice_data, on pages given as data and with the Unicode
    decomposition `nfkd` of the currency detector as a parameter: the
    first candidate with the largest amount, None when there is no
    candidate, and the currency read from the full text.
   */
  method ExtractInvoiceData(pages: seq<Page>, nfkd: string -> string)
    returns (best: Option<Candidate>, currency: Option<Currency.Code>)
    ensures currency == Currency.DetectCurrency(FullText(pages, |pages|), nfkd)
    ensures best.None? <==> AllCandidates(pages) == []
    ensures best.Some? ==> exists k: nat :: IsFirstLargest(AllCandidates(pages), k)
                             && best.value == AllCandidates(pages)[k]
  {
    var fullText, totals := ScanPages(pages, Invoice);
    currency := Currency.DetectCurrency(fullText, nfkd);
    best := SelectBest(totals);
  }
}
