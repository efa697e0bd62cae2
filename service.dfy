/** PriceListService.java as a class: the two structures it keeps in step,
    the loading pipeline that fills them, and the queries over them. */
module Service {
  import opened Wrappers
  import opened JavaStrings
  import opened Seqs
  import opened Sheets
  import opened HeaderDetection
  import opened ColumnMapping
  import opened Catalog
  import opened RowExtraction
  import Queries

  /** The catalog a load leaves behind: empty when the workbook resource is
      missing (None), otherwise every sheet's requests applied in order to
      an empty catalog. */
  function Loaded(source: Option<seq<Sheet>>): (c: Catalog)
    ensures Consistent(c)
    ensures source.None? ==> c == Empty
  {
    EmptyIsConsistent();
    match source
    case None => Empty
    case Some(sheets) =>
      ApplyAllPreservesConsistency(Empty, WorkbookRequests(sheets));
      ApplyAll(Empty, WorkbookRequests(sheets))
  }

  class PriceListService {
    /** Items by normalised emNr (or synthesised name key). */
    var byEm: map<string, PriceItem>
    /** Items in insertion order. */
    var allItems: seq<PriceItem>

    function Snapshot(): Catalog
      reads this
    {
      Catalog(byEm, allItems)
    }

    ghost predicate Valid()
      reads this
    {
      Consistent(Snapshot())
    }

    /** Construction followed by the @PostConstruct load(), which reloads. */
    constructor (source: Option<seq<Sheet>>)
      ensures Valid() && Snapshot() == Loaded(source)
    {
      byEm := map[];
      allItems := [];
      new;
      Reload(source);
    }

    /** reload: clears both structures, then loads the workbook. */
    method Reload(source: Option<seq<Sheet>>)
      modifies this
      ensures Valid() && Snapshot() == Loaded(source)
    {
      byEm := map[];
      allItems := [];
      EmptyIsConsistent();
      LoadData(source);
    }

    /** loadData: every sheet of the workbook, in order, through
        readSheetFlexible; nothing when the resource is missing. */
    method LoadData(source: Option<seq<Sheet>>)
      requires Valid()
      modifies this
      ensures Valid()
      ensures source.None? ==> Snapshot() == old(Snapshot())
      ensures source.Some? ==> Snapshot() == ApplyAll(old(Snapshot()), WorkbookRequests(source.value))
    {
      if source.None? {
        return;
      }
      var sheets := source.value;
      for si := 0 to |sheets|
        invariant Valid()
        invariant Snapshot() == ApplyAll(old(Snapshot()), WorkbookRequests(sheets[..si]))
      {
        WorkbookApplyStep(old(Snapshot()), sheets, si);
        ReadSheetFlexible(sheets[si]);
      }
      assert sheets[..|sheets|] == sheets;
    }

    /** readSheetFlexible: header detection, then either the structured
        pass below the header or the heuristic pass. */
    method ReadSheetFlexible(sheet: Sheet)
      requires Valid()
      modifies this
      ensures Valid() && Snapshot() == ApplyAll(old(Snapshot()), SheetRequests(sheet))
    {
      var rows := sheet.rows;
      if |rows| - 1 < 0 {
        return;
      }
      var headerRowIndex, colMap := LocateHeader(rows);
      SheetRequestsAt(sheet, headerRowIndex, colMap);
      ReadSheetWithHeader(sheet, headerRowIndex, colMap);
    }

    /** The rest of readSheetFlexible once the header search is done: the
        heuristic pass when no header row was found or its column map is
        empty, the structured pass below the header otherwise. */
    method ReadSheetWithHeader(sheet: Sheet, headerRowIndex: int, colMap: map<Role, nat>)
      requires Valid() && headerRowIndex < |sheet.rows|
      modifies this
      ensures Valid() && Snapshot() == ApplyAll(old(Snapshot()), SheetRequestsFrom(sheet, headerRowIndex, colMap))
    {
      var rows := sheet.rows;
      if headerRowIndex < 0 {
        ProcessRowsHeuristically(rows, sheet.name);
        return;
      }
      if !(colMap == map[]) {
        ReadRowsBelowHeader(rows, headerRowIndex, colMap, sheet.name);
      } else {
        ProcessRowsHeuristically(rows, sheet.name);
      }
    }

    /** The header search of readSheetFlexible: the best-scoring row of
        rows 0 to 12, else the first keyword row, and the column map of the
        row found (empty when there is none). */
    static method LocateHeader(rows: seq<Row>) returns (headerRowIndex: int, colMap: map<Role, nat>)
      ensures headerRowIndex == HeaderIndex(rows)
      ensures colMap == if headerRowIndex >= 0 then ColumnMap(rows[headerRowIndex]) else map[]
    {
      headerRowIndex := FindHeaderRow(rows, 0, 12);
      colMap := map[];
      if headerRowIndex >= 0 {
        colMap := MapHeaderColumns(rows[headerRowIndex]);
      } else {
        headerRowIndex := FindHeaderRowByKeywords(rows);
        if headerRowIndex >= 0 {
          colMap := MapHeaderColumns(rows[headerRowIndex]);
        }
      }
    }

    /** The row loop of readSheetFlexible below the header row. */
    method ReadRowsBelowHeader(rows: seq<Row>, headerRowIndex: nat, colMap: map<Role, nat>, sheetName: string)
      requires Valid() && headerRowIndex < |rows|
      modifies this
      ensures Valid()
      ensures Snapshot() == ApplyAll(old(Snapshot()), StructuredRequests(rows[headerRowIndex + 1..], colMap, sheetName))
    {
      // Sheet row headerRowIndex + 1 + k is below[k].
      var below := rows[headerRowIndex + 1..];
      for k := 0 to |below|
        invariant Valid()
        invariant Snapshot() == ApplyAll(old(Snapshot()), StructuredRequests(below[..k], colMap, sheetName))
      {
        StructuredApplyStep(old(Snapshot()), below, k, colMap, sheetName);
        ReadStructuredRow(below[k], colMap, sheetName);
      }
      assert below[..|below|] == below;
    }

    /** One pass of the row loop of readSheetFlexible. */
    method ReadStructuredRow(row: Row, colMap: map<Role, nat>, sheetName: string)
      requires Valid()
      modifies this
      ensures Valid()
      ensures Snapshot() == Step(old(Snapshot()), StructuredRow(row, colMap, sheetName))
    {
      var empty := CheckRowEmpty(row);
      if empty {
        return;
      }
      var again := CheckHeaderRowAgain(row);
      if again {
        return;
      }
      var material := CellStringSafe(row, ColumnOf(colMap, Material));
      var emNr := CellStringSafe(row, ColumnOf(colMap, Em));
      var artNr := CellStringSafe(row, ColumnOf(colMap, ArtNr));
      var unit := CellStringSafe(row, ColumnOf(colMap, Unit));
      var priceCust := CellDoubleSafe(row, ColumnOf(colMap, PriceCustomer));
      var pricePurchase := CellDoubleSafe(row, ColumnOf(colMap, PricePurchase));
      var priceAny := if priceCust.Some? && priceCust.value > 0.0 then priceCust else pricePurchase;
      if Absent(emNr) && Absent(artNr) && Absent(material) && priceAny.None? {
        return;
      }
      AddPriceItemIfValid(material, emNr, artNr, priceAny, unit, sheetName);
    }

    /** processRowsHeuristically: every non-empty row is scanned for a
        name, an em, a price and a unit. */
    method ProcessRowsHeuristically(rows: seq<Row>, sheetName: string)
      requires Valid()
      modifies this
      ensures Valid() && Snapshot() == ApplyAll(old(Snapshot()), HeuristicRequests(rows, sheetName))
    {
      for r := 0 to |rows|
        invariant Valid()
        invariant Snapshot() == ApplyAll(old(Snapshot()), HeuristicRequests(rows[..r], sheetName))
      {
        HeuristicApplyStep(old(Snapshot()), rows, r, sheetName);
        ReadHeuristicRow(rows[r], sheetName);
      }
      assert rows[..|rows|] == rows;
    }

    /** One pass of the row loop of processRowsHeuristically. */
    method ReadHeuristicRow(row: Row, sheetName: string)
      requires Valid()
      modifies this
      ensures Valid()
      ensures Snapshot() == Step(old(Snapshot()), HeuristicRow(row, sheetName))
    {
      var empty := CheckRowEmpty(row);
      if empty {
        return;
      }
      var possibleName, possibleEm, possiblePrice, possibleUnit := ScanRow(row);
      if (possibleEm.Some? || possibleName.Some?) && possiblePrice.Some? {
        AddPriceItemIfValid(possibleName, possibleEm, None, possiblePrice, possibleUnit, sheetName);
      }
    }

    /** The cell loop of processRowsHeuristically: the first name-like, the
        first em-like and the first unit-like text, and the first positive
        price. */
    static method ScanRow(row: Row)
      returns (possibleName: Option<string>, possibleEm: Option<string>,
               possiblePrice: Option<real>, possibleUnit: Option<string>)
      ensures possibleName == TextOf(FindFirst(row, NameCell))
      ensures possibleEm == TextOf(FindFirst(row, EmCell))
      ensures possibleUnit == TextOf(FindFirst(row, UnitCell))
      ensures possiblePrice == (var p := FindFirst(row, PriceCell); if p.Some? then CellPrice(p.value) else None)
    {
      possibleName, possibleEm, possiblePrice, possibleUnit := None, None, None, None;
      for j := 0 to |row|
        invariant possibleName == TextOf(FindFirst(row[..j], NameCell))
        invariant possibleEm == TextOf(FindFirst(row[..j], EmCell))
        invariant possibleUnit == TextOf(FindFirst(row[..j], UnitCell))
        invariant possiblePrice == (var p := FindFirst(row[..j], PriceCell); if p.Some? then CellPrice(p.value) else None)
      {
        FindFirstStep(row, j, NameCell);
        FindFirstStep(row, j, EmCell);
        FindFirstStep(row, j, UnitCell);
        FindFirstStep(row, j, PriceCell);
        possibleName, possibleEm, possiblePrice, possibleUnit :=
          ScanCell(row[j], possibleName, possibleEm, possiblePrice, possibleUnit);
      }
      assert row[..|row|] == row;
    }

    /** One pass of the cell loop of processRowsHeuristically: each slot
        still empty takes this cell's text or price when it qualifies. */
    static method ScanCell(c: Cell, name0: Option<string>, em0: Option<string>,
                           price0: Option<real>, unit0: Option<string>)
      returns (possibleName: Option<string>, possibleEm: Option<string>,
               possiblePrice: Option<real>, possibleUnit: Option<string>)
      ensures possibleName == if name0.None? && NameCell(c) then Some(c.text) else name0
      ensures possibleEm == if em0.None? && EmCell(c) then Some(c.text) else em0
      ensures possibleUnit == if unit0.None? && UnitCell(c) then Some(c.text) else unit0
      ensures possiblePrice == if price0.None? then CellPrice(c) else price0
    {
      possibleName, possibleEm, possiblePrice, possibleUnit := name0, em0, price0, unit0;
      var cs := c.text;
      if possibleName.None? && LooksLikeName(cs) {
        possibleName := Some(cs);
      }
      if possibleEm.None? && LooksLikeEm(cs) {
        possibleEm := Some(cs);
      }
      if possiblePrice.None? {
        var dv := c.number;
        if dv.Some? && dv.value > 0.0 {
          possiblePrice := dv;
        } else {
          var norm := PriceChars(cs);
          if !IsBlank(norm) {
            var pd := ParseDecimal(norm);
            if pd.Some? && pd.value > 0.0 {
              possiblePrice := pd;
            }
          }
        }
      }
      if possibleUnit.None? && LooksLikeUnit(cs) {
        possibleUnit := Some(cs);
      }
    }

    /** addPriceItemIfValid: builds the item with its defaults, then files
        it under its normalised key unless an item is already filed there;
        an existing item with no price gives way to one with a price. */
    method AddPriceItemIfValid(material: Option<string>, emNr: Option<string>, artNr: Option<string>,
                               price: Option<real>, unit: Option<string>, sheetName: string)
      requires Valid()
      modifies this
      ensures Valid()
      ensures Snapshot() == Apply(old(Snapshot()), AddRequest(material, emNr, artNr, price, unit, sheetName))
    {
      ghost var req := AddRequest(material, emNr, artNr, price, unit, sheetName);
      ApplyPreservesConsistency(Snapshot(), req);
      var name := if !Absent(material) then Some(Trim(material.value))
        else if artNr.Some? then Some(Trim(artNr.value)) else None;
      var em := if !Absent(emNr) then Some(Trim(emNr.value)) else None;
      if Absent(em) && Absent(name) {
        return;
      }
      var pr := if price.Some? then price.value else 0.0;
      var u := if !Absent(unit) then Trim(unit.value) else "st";
      var itemEmNr := if !Absent(em) then em.value else NameKey(name.value);
      var item := PriceItem(itemEmNr, if name.Some? then name.value else "", pr, u, sheetName);
      assert NameOf(req) == name && Given(emNr) == em;
      assert NewItem(req) == Some(item);
      PutItem(item);
    }

    /** The map/list update at the end of addPriceItemIfValid. */
    method PutItem(item: PriceItem)
      modifies this
      ensures Snapshot() == AddItem(old(Snapshot()), item)
    {
      var key := KeyNormalization.Normalize(item.emNr);
      assert key == Key(item);
      if key !in byEm {
        byEm := byEm[key := item];
        allItems := allItems + [item];
      } else {
        var existing := byEm[key];
        if Replaces(existing, item) {
          byEm := byEm[key := item];
          allItems := RemoveFirst(allItems, existing) + [item];
        }
      }
    }

    /** findByArticleNumber on the current catalog. */
    function FindByArticleNumber(articleNumber: Option<string>): Option<PriceItem>
      reads this
    {
      Queries.FindByArticleNumber(Snapshot(), articleNumber)
    }

    /** searchByPrefix on the current catalog. */
    function SearchByPrefix(prefix: Option<string>, limit: nat): seq<PriceItem>
      reads this
    {
      Queries.SearchByPrefix(Snapshot(), prefix, limit)
    }

    /** searchByPrefixNormalize and findByEmNrNormalizeList: searchByPrefix
        with a limit of 20. */
    function SearchByPrefixNormalize(prefix: Option<string>): (r: seq<PriceItem>)
      reads this
      ensures |r| <= 20 && IsSubsequence(r, allItems)
    {
      Queries.SearchByPrefix(Snapshot(), prefix, 20)
    }

    /** getAllItems: the items in insertion order. */
    function GetAllItems(): seq<PriceItem>
      reads this
    {
      allItems
    }
  }
}
