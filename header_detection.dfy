/** Header-row detection: findHeaderRow, findHeaderRowByKeywords and
    looksLikeHeaderRowAgain of PriceListService.java. */
module HeaderDetection {
  import opened JavaStrings
  import opened Sheets

  // The five keyword families findHeaderRow scores, each as written in the
  // source (redundant entries included).
  const EmFamily: seq<string> := ["em", "em nr", "em nr /", "em nr / leverantör", "em nr/leverantör"]
  const ArticleFamily: seq<string> := ["art", "art nr", "artnr", "benämning"]
  const PriceFamily: seq<string> := ["pris", "pris inköp", "pris till kund", "pris/inköp"]
  const UnitFamily: seq<string> := ["enhet", "st", "kg"]
  const MaterialFamily: seq<string> := ["material", "benämning"]

  // The keyword groups of findHeaderRowByKeywords.
  const MaterialHit: seq<string> := ["material"]
  const PurchaseHit: seq<string> := ["pris inköp", "pris/inköp", "pris inköp"]
  const CustomerHit: seq<string> := ["pris till kund", "pris till"]
  const EmHit: seq<string> := ["em nr", "em nr /"]
  const ArticleHit: seq<string> := ["art", "art nr"]

  // The keywords of looksLikeHeaderRowAgain.
  const RepeatedHeader: seq<string> := ["material", "pris inköp", "pris till kund", "em nr", "art nr"]

  function Point(b: bool): nat {
    if b then 1 else 0
  }

  /** The points one cell adds to its row's score: none for a blank cell,
      otherwise one per keyword family its lower-cased text contains. */
  function CellScore(c: Cell): (n: nat)
    ensures n <= 5
    ensures IsBlank(ToLower(c.text)) ==> n == 0
  {
    var txt := ToLower(c.text);
    if IsBlank(txt) then 0
    else
      Point(ContainsAny(txt, EmFamily)) + Point(ContainsAny(txt, ArticleFamily))
      + Point(ContainsAny(txt, PriceFamily)) + Point(ContainsAny(txt, UnitFamily))
      + Point(ContainsAny(txt, MaterialFamily))
  }

  /** A row's score: the sum of its cells' points. */
  function RowScore(row: Row): nat {
    if row == [] then 0 else RowScore(row[..|row| - 1]) + CellScore(row[|row| - 1])
  }

  /** The score of every row of a sheet, in row order. */
  function Scores(rows: seq<Row>): (sc: seq<nat>)
    ensures |sc| == |rows|
  {
    if rows == [] then [] else Scores(rows[..|rows| - 1]) + [RowScore(rows[|rows| - 1])]
  }

  /** Entry r of the score sequence is the score of row r. */
  lemma {:induction false} ScoresAt(rows: seq<Row>, r: nat)
    requires r < |rows|
    ensures Scores(rows)[r] == RowScore(rows[r])
  {
    var n := |rows| - 1;
    if r < n {
      ScoresAt(rows[..n], r);
    }
  }

  /** The (bestRow, bestScore) pair findHeaderRow holds after scanning the
      rows lo..hi-1 whose scores are sc; ScanBestIsEarliestMaximum states
      what it means. */
  function ScanBest(sc: seq<nat>, lo: nat, hi: nat): (res: (int, nat))
    requires lo <= hi <= |sc|
    ensures res.0 == -1 || lo <= res.0 < hi
    decreases hi
  {
    if hi == lo then (-1, 0)
    else
      var prev := ScanBest(sc, lo, hi - 1);
      if sc[hi - 1] > prev.1 && sc[hi - 1] >= 2 then (hi - 1, sc[hi - 1]) else prev
  }

  /** The scan keeps the earliest row of highest score, provided that score
      is at least 2, and reports (-1, 0) when no row scores 2 or more. */
  lemma {:induction false} ScanBestIsEarliestMaximum(sc: seq<nat>, lo: nat, hi: nat)
    requires lo <= hi <= |sc|
    ensures var res := ScanBest(sc, lo, hi);
      && (res.0 == -1 <==> forall r :: lo <= r < hi ==> sc[r] < 2)
      && (res.0 == -1 ==> res.1 == 0)
      && (res.0 != -1 ==>
           && res.1 == sc[res.0] >= 2
           && (forall r :: lo <= r < hi ==> sc[r] <= res.1)
           && (forall r :: lo <= r < res.0 ==> sc[r] < res.1))
    decreases hi
  {
    if hi > lo {
      ScanBestIsEarliestMaximum(sc, lo, hi - 1);
    }
  }

  /** The last row index findHeaderRow inspects: min(lastRowNum, start + max). */
  function WindowEnd(rows: seq<Row>, startRow: nat, maxRowsToCheck: nat): int {
    if |rows| - 1 < startRow + maxRowsToCheck then |rows| - 1 else startRow + maxRowsToCheck
  }

  /** findHeaderRow's answer: -1 when no row of the window startRow..end
      scores 2 or more, otherwise the earliest row of the window with the
      highest score. */
  function HeaderRowOf(rows: seq<Row>, startRow: nat, maxRowsToCheck: nat): (h: int)
    ensures var last := WindowEnd(rows, startRow, maxRowsToCheck); var sc := Scores(rows);
      && (h == -1 <==> forall r :: startRow <= r <= last ==> sc[r] < 2)
      && (h != -1 ==>
           && startRow <= h <= last
           && sc[h] >= 2
           && (forall r :: startRow <= r <= last ==> sc[r] <= sc[h])
           && (forall r :: startRow <= r < h ==> sc[r] < sc[h]))
  {
    var last := WindowEnd(rows, startRow, maxRowsToCheck);
    if last < startRow then -1
    else
      var sc := Scores(rows);
      var res := ScanBest(sc, startRow, last + 1);
      ScanBestIsEarliestMaximum(sc, startRow, last + 1);
      // The lemma bounds the window by r < last + 1, the contract by r <= last.
      assert (forall r :: startRow <= r < last + 1 ==> sc[r] < 2) <==> (forall r :: startRow <= r <= last ==> sc[r] < 2);
      res.0
  }

  /** findHeaderRow: scores every row of the window and keeps a row only
      when it beats the best score so far and scores at least 2. */
  method FindHeaderRow(rows: seq<Row>, startRow: nat, maxRowsToCheck: nat) returns (bestRow: int)
    ensures bestRow == HeaderRowOf(rows, startRow, maxRowsToCheck)
  {
    var last := WindowEnd(rows, startRow, maxRowsToCheck);
    bestRow := -1;
    var bestScore: nat := 0;
    if last < startRow {
      return;
    }
    ghost var sc := Scores(rows);
    var r := startRow;
    while r <= last
      invariant startRow <= r <= last + 1
      invariant (bestRow, bestScore) == ScanBest(sc, startRow, r)
    {
      var score := ScoreRow(rows[r]);
      ScoresAt(rows, r);
      if score > bestScore && score >= 2 {
        bestScore := score;
        bestRow := r;
      }
      r := r + 1;
    }
  }

  /** The inner loop body of findHeaderRow: the points one cell adds. */
  method ScoreCell(c: Cell) returns (score: nat)
    ensures score == CellScore(c)
  {
    score := 0;
    var txt := ToLower(c.text);
    if IsBlank(txt) {
      return;
    }
    if ContainsAny(txt, EmFamily) { score := score + 1; }
    if ContainsAny(txt, ArticleFamily) { score := score + 1; }
    if ContainsAny(txt, PriceFamily) { score := score + 1; }
    if ContainsAny(txt, UnitFamily) { score := score + 1; }
    if ContainsAny(txt, MaterialFamily) { score := score + 1; }
  }

  /** The inner loop of findHeaderRow: a row's score. */
  method ScoreRow(row: Row) returns (score: nat)
    ensures score == RowScore(row)
  {
    score := 0;
    for j := 0 to |row|
      invariant score == RowScore(row[..j])
    {
      assert row[..j + 1][..j] == row[..j];
      var points := ScoreCell(row[j]);
      score := score + points;
    }
    assert row[..|row|] == row;
  }

  /** The hits findHeaderRowByKeywords counts for one cell. */
  function CellHits(c: Cell): nat {
    var txt := ToLower(c.text);
    Point(ContainsAny(txt, MaterialHit)) + Point(ContainsAny(txt, PurchaseHit))
    + Point(ContainsAny(txt, CustomerHit)) + Point(ContainsAny(txt, EmHit))
    + Point(ContainsAny(txt, ArticleHit))
  }

  function RowHits(row: Row): nat {
    if row == [] then 0 else RowHits(row[..|row| - 1]) + CellHits(row[|row| - 1])
  }

  /** The inner loop body of findHeaderRowByKeywords: one cell's hits. */
  method CountHits(c: Cell) returns (hits: nat)
    ensures hits == CellHits(c)
  {
    hits := 0;
    var txt := ToLower(c.text);
    if ContainsAny(txt, MaterialHit) { hits := hits + 1; }
    if ContainsAny(txt, PurchaseHit) { hits := hits + 1; }
    if ContainsAny(txt, CustomerHit) { hits := hits + 1; }
    if ContainsAny(txt, EmHit) { hits := hits + 1; }
    if ContainsAny(txt, ArticleHit) { hits := hits + 1; }
  }

  /** The inner loop of findHeaderRowByKeywords: a row's hits. */
  method CountRowHits(row: Row) returns (hits: nat)
    ensures hits == RowHits(row)
  {
    hits := 0;
    for j := 0 to |row|
      invariant hits == RowHits(row[..j])
    {
      assert row[..j + 1][..j] == row[..j];
      var cellHits := CountHits(row[j]);
      hits := hits + cellHits;
    }
    assert row[..|row|] == row;
  }

  /** The first row in r..last with at least one keyword hit, or -1. */
  function KeywordRowFrom(rows: seq<Row>, r: nat, last: int): (k: int)
    requires last < |rows|
    ensures k == -1 <==> forall i :: r <= i <= last ==> RowHits(rows[i]) == 0
    ensures k != -1 ==> r <= k <= last && RowHits(rows[k]) >= 1 && forall i :: r <= i < k ==> RowHits(rows[i]) == 0
    decreases |rows| - r
  {
    if last < r then -1
    else if RowHits(rows[r]) >= 1 then r
    else KeywordRowFrom(rows, r + 1, last)
  }

  /** The window of findHeaderRowByKeywords: rows 0..min(lastRowNum, 40). */
  function KeywordWindowEnd(rows: seq<Row>): int {
    if |rows| - 1 < 40 then |rows| - 1 else 40
  }

  /** findHeaderRowByKeywords: returns the first row of the window with a
      keyword hit, -1 when there is none. */
  method FindHeaderRowByKeywords(rows: seq<Row>) returns (r: int)
    ensures r == KeywordRowFrom(rows, 0, KeywordWindowEnd(rows))
  {
    var last := KeywordWindowEnd(rows);
    var i := 0;
    while i <= last
      invariant 0 <= i <= last + 1 || (i == 0 && last < 0)
      invariant KeywordRowFrom(rows, 0, last) == KeywordRowFrom(rows, i, last)
    {
      var hits := CountRowHits(rows[i]);
      if hits >= 1 {
        return i;
      }
      i := i + 1;
    }
    return -1;
  }

  /** looksLikeHeaderRowAgain: some cell's lower-cased text holds one of the
      core header keywords. */
  predicate LooksLikeHeaderRowAgain(row: Row) {
    exists i :: 0 <= i < |row| && ContainsAny(ToLower(row[i].text), RepeatedHeader)
  }

  /** A repeated header line is one where some cell's lower-cased text has
      one of the five keywords at some index. */
  lemma LooksLikeHeaderRowAgainIff(row: Row)
    ensures LooksLikeHeaderRowAgain(row) <==>
      exists i, k, p :: 0 <= i < |row| && k in RepeatedHeader && OccursAt(ToLower(row[i].text), k, p)
  {
    forall i | 0 <= i < |row|
      ensures ContainsAny(ToLower(row[i].text), RepeatedHeader) <==>
        exists k, p :: k in RepeatedHeader && OccursAt(ToLower(row[i].text), k, p)
    {
      var txt := ToLower(row[i].text);
      ContainsAnyIff(txt, RepeatedHeader);
      forall k | k in RepeatedHeader {
        ContainsIff(txt, k);
      }
    }
  }

  /** looksLikeHeaderRowAgain's cell loop, which returns at the first cell
      holding a keyword. */
  method CheckHeaderRowAgain(row: Row) returns (again: bool)
    ensures again == LooksLikeHeaderRowAgain(row)
  {
    for i := 0 to |row|
      invariant forall j :: 0 <= j < i ==> !ContainsAny(ToLower(row[j].text), RepeatedHeader)
    {
      var txt := ToLower(row[i].text);
      if ContainsAny(txt, RepeatedHeader) {
        return true;
      }
    }
    return false;
  }
}
