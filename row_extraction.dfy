/** What readSheetFlexible and processRowsHeuristically of
    PriceListService.java extract from a sheet: the sequence of
    addPriceItemIfValid calls each sheet gives rise to. */
module RowExtraction {
  import opened Wrappers
  import opened JavaStrings
  import opened Seqs
  import opened Sheets
  import opened HeaderDetection
  import opened ColumnMapping
  import opened Catalog

  // ---- Structured rows, below a header row ----

  /** The request readSheetFlexible makes for one row below the header, or
      None when it skips the row: an empty row, a repeated header line, or a
      row whose em, article number and material are all null or blank and
      which has no price. The price is the customer price when it is
      positive, else the purchase price, whatever its sign. */
  function StructuredRow(row: Row, cm: map<Role, nat>, sheet: string): (r: Option<AddRequest>)
    ensures IsRowEmpty(row) || LooksLikeHeaderRowAgain(row) ==> r.None?
    ensures r.None? && !IsRowEmpty(row) && !LooksLikeHeaderRowAgain(row) ==>
      && Absent(CellStringSafe(row, ColumnOf(cm, Em)))
      && Absent(CellStringSafe(row, ColumnOf(cm, ArtNr)))
      && Absent(CellStringSafe(row, ColumnOf(cm, Material)))
      && !(CellDoubleSafe(row, ColumnOf(cm, PriceCustomer)).Some? && CellDoubleSafe(row, ColumnOf(cm, PriceCustomer)).value > 0.0)
      && CellDoubleSafe(row, ColumnOf(cm, PricePurchase)).None?
    ensures r.Some? ==> var q := r.value;
      && q.sheet == sheet
      && q.material == CellStringSafe(row, ColumnOf(cm, Material))
      && q.emNr == CellStringSafe(row, ColumnOf(cm, Em))
      && q.artNr == CellStringSafe(row, ColumnOf(cm, ArtNr))
      && q.unit == CellStringSafe(row, ColumnOf(cm, Unit))
      && !(Absent(q.emNr) && Absent(q.artNr) && Absent(q.material) && q.price.None?)
    ensures r.Some? ==> var cust := CellDoubleSafe(row, ColumnOf(cm, PriceCustomer));
      && (cust.Some? && cust.value > 0.0 ==> r.value.price == cust)
      && (!(cust.Some? && cust.value > 0.0) ==> r.value.price == CellDoubleSafe(row, ColumnOf(cm, PricePurchase)))
  {
    if IsRowEmpty(row) || LooksLikeHeaderRowAgain(row) then None
    else
      var material := CellStringSafe(row, ColumnOf(cm, Material));
      var emNr := CellStringSafe(row, ColumnOf(cm, Em));
      var artNr := CellStringSafe(row, ColumnOf(cm, ArtNr));
      var unit := CellStringSafe(row, ColumnOf(cm, Unit));
      var priceCust := CellDoubleSafe(row, ColumnOf(cm, PriceCustomer));
      var pricePurchase := CellDoubleSafe(row, ColumnOf(cm, PricePurchase));
      var priceAny := if priceCust.Some? && priceCust.value > 0.0 then priceCust else pricePurchase;
      if Absent(emNr) && Absent(artNr) && Absent(material) && priceAny.None? then None
      else Some(AddRequest(material, emNr, artNr, priceAny, unit, sheet))
  }

  /** The requests for a run of rows below the header, in row order. */
  function StructuredRequests(rows: seq<Row>, cm: map<Role, nat>, sheet: string): (qs: seq<AddRequest>)
    ensures |qs| <= |rows|
    ensures forall i :: 0 <= i < |qs| ==> qs[i].sheet == sheet
  {
    if rows == [] then []
    else
      StructuredRequests(rows[..|rows| - 1], cm, sheet) + AsSeq(StructuredRow(rows[|rows| - 1], cm, sheet))
  }

  /** One more structured row extends the requests of the rows before it. */
  lemma StructuredRequestsStep(rows: seq<Row>, n: nat, cm: map<Role, nat>, sheet: string)
    requires n < |rows|
    ensures StructuredRequests(rows[..n + 1], cm, sheet)
      == StructuredRequests(rows[..n], cm, sheet) + AsSeq(StructuredRow(rows[n], cm, sheet))
  {
    assert rows[..n + 1][..n] == rows[..n];
  }

  /** Applying the structured requests of one more row is one more step. */
  lemma StructuredApplyStep(c: Catalog, rows: seq<Row>, n: nat, cm: map<Role, nat>, sheet: string)
    requires n < |rows|
    ensures ApplyAll(c, StructuredRequests(rows[..n + 1], cm, sheet))
      == Step(ApplyAll(c, StructuredRequests(rows[..n], cm, sheet)), StructuredRow(rows[n], cm, sheet))
  {
    StructuredRequestsStep(rows, n, cm, sheet);
    ApplyAllStep(c, StructuredRequests(rows[..n], cm, sheet), StructuredRow(rows[n], cm, sheet));
  }

  // ---- Heuristic rows, when no header is found ----

  /** The characters of [0-9\s\-\.,]. */
  predicate IsNumberish(c: char) {
    IsAsciiDigit(c) || IsRegexSpace(c) || c == '-' || c == '.' || c == ','
  }

  /** looksLikeName: the trimmed text has a length of two or more and does
      not match ^[0-9\s\-\.,]+$. */
  predicate LooksLikeName(s: string) {
    NameText(Trim(s))
  }

  /** The test looksLikeName applies to the trimmed text t. */
  predicate NameText(t: string) {
    Utf16Length(t) >= 2 && !(forall i :: 0 <= i < |t| ==> IsNumberish(t[i]))
  }

  /** looksLikeEm: the trimmed text matches .*\d.* (a digit, and no line
      terminator, which '.' does not match) and has a length of at most 20. */
  predicate LooksLikeEm(s: string) {
    EmText(Trim(s))
  }

  /** The test looksLikeEm applies to the trimmed text t. */
  predicate EmText(t: string) {
    !HasLineTerminator(t) && (exists i :: 0 <= i < |t| && IsAsciiDigit(t[i])) && Utf16Length(t) <= 20
  }

  /** A name-like text holds a character outside [0-9\s\-\.,], and padding
      around a text does not change whether it looks like a name. */
  lemma NameTextFacts(s: string)
    ensures LooksLikeName(s) ==> exists c :: c in s && !IsNumberish(c)
    ensures LooksLikeName(s) <==> LooksLikeName(Trim(s))
  {
    var t := Trim(s);
    TrimIdempotent(s);
    if LooksLikeName(s) {
      var i :| 0 <= i < |t| && !IsNumberish(t[i]);
      assert t[i] in s;
    }
  }

  /** An em-like text holds a digit and has at most 20 characters, and
      padding around a text does not change whether it looks like an em. */
  lemma EmTextFacts(s: string)
    ensures LooksLikeEm(s) ==> (exists c :: c in s && IsAsciiDigit(c)) && |Trim(s)| <= 20
    ensures LooksLikeEm(s) <==> LooksLikeEm(Trim(s))
  {
    var t := Trim(s);
    TrimIdempotent(s);
    if LooksLikeEm(s) {
      assert exists c :: c in s && IsAsciiDigit(c) by {
        var i :| 0 <= i < |t| && IsAsciiDigit(t[i]);
        assert t[i] in s;
      }
    }
  }

  /** The alternatives of the unit pattern .*(st|kg|l|L|dag).* */
  const UnitMarks: seq<string> := ["st", "kg", "l", "L", "dag"]

  /** The unit test of processRowsHeuristically: the text matches
      .*(st|kg|l|L|dag).*, so it holds one of the marks and no line
      terminator. */
  predicate LooksLikeUnit(s: string) {
    !HasLineTerminator(s) && ContainsAny(s, UnitMarks)
  }

  /** The price processRowsHeuristically reads from one cell: its number
      when positive; otherwise its text, filtered to [0-9,.-] with commas
      turned into points, when that is not blank, parses and is positive. */
  function CellPrice(c: Cell): (r: Option<real>)
    ensures r.Some? ==> r.value > 0.0
    ensures c.number.Some? && c.number.value > 0.0 ==> r == c.number
  {
    if c.number.Some? && c.number.value > 0.0 then c.number
    else
      var norm := PriceChars(c.text);
      if IsBlank(norm) then None
      else
        var pd := ParseDecimal(norm);
        if pd.Some? && pd.value > 0.0 then pd else None
  }

  /** Without a positive number, a cell's price is what parseDoubleFromString
      makes of its text, when that is positive: the filtered text is blank
      exactly when it is empty, and trim leaves it as it is. */
  lemma CellPriceFromText(c: Cell)
    requires !(c.number.Some? && c.number.value > 0.0)
    ensures CellPrice(c) == (var p := ParseDoubleFromString(c.text); if p.Some? && p.value > 0.0 then p else None)
  {
    FilteredBlankIffEmpty(c.text);
    ParseOfFiltered(c.text);
  }

  predicate NameCell(c: Cell) { LooksLikeName(c.text) }
  predicate EmCell(c: Cell) { LooksLikeEm(c.text) }
  predicate UnitCell(c: Cell) { LooksLikeUnit(c.text) }
  predicate PriceCell(c: Cell) { CellPrice(c).Some? }

  /** The text of the cell found, if any. */
  function TextOf(c: Option<Cell>): Option<string> {
    if c.Some? then Some(c.value.text) else None
  }

  /** The request processRowsHeuristically makes for one row: name, em and
      unit are the texts of the first cell that looks like one, the price is
      that of the first cell offering a positive one; there is a request
      only for a non-empty row with a price and a name or an em. */
  function HeuristicRow(row: Row, sheet: string): (r: Option<AddRequest>)
    ensures r.Some? <==>
      && !IsRowEmpty(row)
      && (exists i :: 0 <= i < |row| && (NameCell(row[i]) || EmCell(row[i])))
      && (exists i :: 0 <= i < |row| && PriceCell(row[i]))
    ensures r.Some? ==> var q := r.value;
      && q.sheet == sheet && q.artNr.None?
      && q.price.Some? && q.price.value > 0.0
      && (q.material.Some? ==> LooksLikeName(q.material.value))
      && (q.emNr.Some? ==> LooksLikeEm(q.emNr.value))
      && (q.unit.Some? ==> LooksLikeUnit(q.unit.value))
  {
    if IsRowEmpty(row) then None
    else
      var name := FindFirst(row, NameCell);
      var em := FindFirst(row, EmCell);
      var price := FindFirst(row, PriceCell);
      var unit := FindFirst(row, UnitCell);
      if (em.Some? || name.Some?) && price.Some? then
        Some(AddRequest(TextOf(name), TextOf(em), None, CellPrice(price.value), TextOf(unit), sheet))
      else
        None
  }

  /** Cell i of the row satisfies p, and no cell before it does. */
  ghost predicate FirstCell(row: Row, p: Cell -> bool, i: int) {
    0 <= i < |row| && p(row[i]) && forall j :: 0 <= j < i ==> !p(row[j])
  }

  /** The text t was taken from the first cell satisfying p: it is present
      exactly when some cell satisfies p, and is then that cell's text. */
  ghost predicate FromFirstCell(row: Row, p: Cell -> bool, t: Option<string>) {
    && (t.Some? <==> exists i :: 0 <= i < |row| && p(row[i]))
    && (t.Some? ==> exists i :: FirstCell(row, p, i) && t.value == row[i].text)
  }

  /** The text of the cell the search finds comes from the first cell
      satisfying p. */
  lemma TextOfFirst(row: Row, p: Cell -> bool)
    ensures FromFirstCell(row, p, TextOf(FindFirst(row, p)))
  {
    var f := FindFirst(row, p);
    if f.Some? {
      FoundAtFirst(row, p, f.value);
    }
  }

  /** A cell the search finds stands where the first cell satisfying p
      does. */
  lemma FoundAtFirst(row: Row, p: Cell -> bool, c: Cell)
    requires FindFirst(row, p) == Some(c)
    ensures exists i :: FirstCell(row, p, i) && row[i] == c
  {
    var i :| 0 <= i < |row| && row[i] == c && p(row[i]) && forall j :: 0 <= j < i ==> !p(row[j]);
    assert FirstCell(row, p, i);
  }

  /** The fields of a heuristic request come from the first qualifying
      cells: the material from the first name-like cell, the em from the
      first em-like cell, the unit from the first unit-like cell, each
      present exactly when such a cell exists; the price is that of the
      first cell offering one. */
  lemma HeuristicRowPicksFirst(row: Row, sheet: string, q: AddRequest)
    requires HeuristicRow(row, sheet) == Some(q)
    ensures FromFirstCell(row, NameCell, q.material)
    ensures FromFirstCell(row, EmCell, q.emNr)
    ensures FromFirstCell(row, UnitCell, q.unit)
    ensures exists i :: FirstCell(row, PriceCell, i) && q.price == CellPrice(row[i])
  {
    var price := HeuristicRowFields(row, sheet, q);
    TextOfFirst(row, NameCell);
    TextOfFirst(row, EmCell);
    TextOfFirst(row, UnitCell);
    FoundAtFirst(row, PriceCell, price);
  }

  /** The fields of a heuristic request, read off its definition. */
  lemma HeuristicRowFields(row: Row, sheet: string, q: AddRequest) returns (price: Cell)
    requires HeuristicRow(row, sheet) == Some(q)
    ensures q.material == TextOf(FindFirst(row, NameCell))
    ensures q.emNr == TextOf(FindFirst(row, EmCell))
    ensures q.unit == TextOf(FindFirst(row, UnitCell))
    ensures FindFirst(row, PriceCell) == Some(price) && q.price == CellPrice(price)
  {
    price := FindFirst(row, PriceCell).value;
  }

  /** The requests of the heuristic pass over all rows, in row order. */
  function HeuristicRequests(rows: seq<Row>, sheet: string): (qs: seq<AddRequest>)
    ensures |qs| <= |rows|
  {
    if rows == [] then []
    else
      HeuristicRequests(rows[..|rows| - 1], sheet) + AsSeq(HeuristicRow(rows[|rows| - 1], sheet))
  }

  /** One more row extends the heuristic requests of the rows before it. */
  lemma HeuristicRequestsStep(rows: seq<Row>, n: nat, sheet: string)
    requires n < |rows|
    ensures HeuristicRequests(rows[..n + 1], sheet)
      == HeuristicRequests(rows[..n], sheet) + AsSeq(HeuristicRow(rows[n], sheet))
  {
    assert rows[..n + 1][..n] == rows[..n];
  }

  /** Applying the heuristic requests of one more row is one more step. */
  lemma HeuristicApplyStep(c: Catalog, rows: seq<Row>, n: nat, sheet: string)
    requires n < |rows|
    ensures ApplyAll(c, HeuristicRequests(rows[..n + 1], sheet))
      == Step(ApplyAll(c, HeuristicRequests(rows[..n], sheet)), HeuristicRow(rows[n], sheet))
  {
    HeuristicRequestsStep(rows, n, sheet);
    ApplyAllStep(c, HeuristicRequests(rows[..n], sheet), HeuristicRow(rows[n], sheet));
  }

  /** Every heuristic request is stamped with its sheet and has a positive
      price. */
  lemma {:induction false} HeuristicRequestsPriced(rows: seq<Row>, sheet: string)
    ensures forall i :: 0 <= i < |HeuristicRequests(rows, sheet)| ==>
      var q := HeuristicRequests(rows, sheet)[i];
      q.sheet == sheet && q.price.Some? && q.price.value > 0.0
  {
    if rows != [] {
      HeuristicRequestsPriced(rows[..|rows| - 1], sheet);
    }
  }

  // ---- One sheet ----

  /** The header row readSheetFlexible settles on: the best-scoring row of
      rows 0 to 12, else the first keyword row of rows 0 to 40, else -1. */
  function HeaderIndex(rows: seq<Row>): (h: int)
    ensures -1 <= h < |rows|
    ensures HeaderRowOf(rows, 0, 12) != -1 ==> h == HeaderRowOf(rows, 0, 12)
    ensures HeaderRowOf(rows, 0, 12) == -1 ==> h == KeywordRowFrom(rows, 0, KeywordWindowEnd(rows))
  {
    var h := HeaderRowOf(rows, 0, 12);
    if h >= 0 then h else KeywordRowFrom(rows, 0, KeywordWindowEnd(rows))
  }

  /** readSheetFlexible: nothing for a sheet without rows; the structured
      pass over the rows below the header when a header is found and maps
      at least one column; the heuristic pass otherwise. */
  function SheetRequests(sheet: Sheet): (qs: seq<AddRequest>)
    ensures sheet.rows == [] ==> qs == []
  {
    var h := HeaderIndex(sheet.rows);
    SheetRequestsFrom(sheet, h, if h >= 0 then ColumnMap(sheet.rows[h]) else map[])
  }

  /** The requests of a sheet once its header row h and that row's column
      map cm are known. */
  function SheetRequestsFrom(sheet: Sheet, h: int, cm: map<Role, nat>): (qs: seq<AddRequest>)
    requires h < |sheet.rows|
    ensures sheet.rows == [] ==> qs == []
  {
    var rows := sheet.rows;
    if |rows| - 1 < 0 then []
    else if h < 0 then HeuristicRequests(rows, sheet.name)
    else if cm == map[] then HeuristicRequests(rows, sheet.name)
    else StructuredRequests(rows[h + 1..], cm, sheet.name)
  }

  /** The requests of a sheet are those of its header row and that row's
      column map. */
  lemma SheetRequestsAt(sheet: Sheet, h: int, cm: map<Role, nat>)
    requires h == HeaderIndex(sheet.rows)
    requires cm == if h >= 0 then ColumnMap(sheet.rows[h]) else map[]
    ensures SheetRequests(sheet) == SheetRequestsFrom(sheet, h, cm)
  {
  }

  /** Every request of a sheet is stamped with that sheet's name. */
  lemma SheetRequestsStamped(sheet: Sheet)
    ensures forall i :: 0 <= i < |SheetRequests(sheet)| ==> SheetRequests(sheet)[i].sheet == sheet.name
  {
    HeuristicRequestsPriced(sheet.rows, sheet.name);
  }

  /** The requests of a whole workbook, sheet by sheet in order. */
  function WorkbookRequests(sheets: seq<Sheet>): seq<AddRequest> {
    if sheets == [] then [] else WorkbookRequests(sheets[..|sheets| - 1]) + SheetRequests(sheets[|sheets| - 1])
  }

  /** One more sheet extends the requests of the sheets before it. */
  lemma WorkbookRequestsStep(sheets: seq<Sheet>, n: nat)
    requires n < |sheets|
    ensures WorkbookRequests(sheets[..n + 1]) == WorkbookRequests(sheets[..n]) + SheetRequests(sheets[n])
  {
    assert sheets[..n + 1][..n] == sheets[..n];
  }

  /** Applying the requests of one more sheet is applying that sheet's
      requests after those of the sheets before it. */
  lemma WorkbookApplyStep(c: Catalog, sheets: seq<Sheet>, n: nat)
    requires n < |sheets|
    ensures ApplyAll(c, WorkbookRequests(sheets[..n + 1]))
      == ApplyAll(ApplyAll(c, WorkbookRequests(sheets[..n])), SheetRequests(sheets[n]))
  {
    WorkbookRequestsStep(sheets, n);
    ApplyAllAppend(c, WorkbookRequests(sheets[..n]), SheetRequests(sheets[n]));
  }
}
