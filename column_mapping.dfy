/** mapHeaderColumns of PriceListService.java: which column of the header
    row holds which field. */
module ColumnMapping {
  import opened Wrappers
  import opened JavaStrings
  import opened Sheets

  /** The keys the source stores in its column map ("material", "em",
      "artnr", "price_customer", "price_purchase", "unit", "qty", "service"). */
  datatype Role = Material | Em | ArtNr | PriceCustomer | PricePurchase | Unit | Qty | Service

  // The substring rules, in the order the cascade tries them (duplicated
  // entries kept as the source writes them).
  const MaterialHeader: seq<string> := ["material", "benämning", "art nr/benämning", "art nr/ benämning"]
  const EmHeader: seq<string> := ["em nr", "em", "em nr /"]
  const ArtNrHeader: seq<string> := ["art nr", "artnr", "art"]
  const CustomerHeader: seq<string> := ["pris till", "pris till kund", "pris kund", "pris till"]
  const PurchaseHeader: seq<string> := ["pris inköp", "pris/inköp", "pris inköp"]
  const UnitHeader: seq<string> := ["enhet", "unit"]
  const QtyHeader: seq<string> := ["antal", "per lok", "per lok"]
  const ServiceHeader: seq<string> := ["kr/tim", "kr/tim", "kr/timme", "tid", "litt"]

  /** The header text a rule is matched against: lower-cased, then trimmed. */
  function HeaderText(c: Cell): string {
    Trim(ToLower(c.text))
  }

  /** The primary role of a header text: the first of the six rules that
      end in `continue` whose keywords the text contains. */
  function PrimaryRole(t: string): (r: Option<Role>)
    ensures r.Some? ==> r.value in {Material, Em, ArtNr, PriceCustomer, PricePurchase, Unit}
  {
    if ContainsAny(t, MaterialHeader) then Some(Material)
    else if ContainsAny(t, EmHeader) then Some(Em)
    else if ContainsAny(t, ArtNrHeader) then Some(ArtNr)
    else if ContainsAny(t, CustomerHeader) then Some(PriceCustomer)
    else if ContainsAny(t, PurchaseHeader) then Some(PricePurchase)
    else if ContainsAny(t, UnitHeader) then Some(Unit)
    else None
  }

  /** The roles a header text claims: none when it is blank, its primary
      role when it has one, otherwise quantity and service independently
      of each other. */
  function TextRoles(t: string): (rs: set<Role>)
    ensures IsBlank(t) ==> rs == {}
  {
    if IsBlank(t) then {}
    else match PrimaryRole(t)
      case Some(r) => {r}
      case None =>
        (if ContainsAny(t, QtyHeader) then {Qty} else {})
        + (if ContainsAny(t, ServiceHeader) then {Service} else {})
  }

  /** The roles one header cell claims. */
  function CellRoles(c: Cell): set<Role> {
    TextRoles(HeaderText(c))
  }

  /** m with every role of rs set to column i. */
  function Stamp(m: map<Role, nat>, rs: set<Role>, i: nat): (m': map<Role, nat>)
    ensures m'.Keys == m.Keys + rs
    ensures forall r :: r in m' ==> m'[r] == if r in rs then i else m[r]
  {
    map r | r in m.Keys + rs :: if r in rs then i else m[r]
  }

  /** The roles each header cell claims, by column. */
  function Claims(hdr: Row): (cl: seq<set<Role>>)
    ensures |cl| == |hdr| && forall i :: 0 <= i < |hdr| ==> cl[i] == CellRoles(hdr[i])
  {
    seq(|hdr|, i requires 0 <= i < |hdr| => CellRoles(hdr[i]))
  }

  /** The map built from per-column claims, left to right: a later column
      claiming a role overwrites the column an earlier one stored. */
  function StampAll(cl: seq<set<Role>>): map<Role, nat>
  {
    if cl == [] then map[] else Stamp(StampAll(cl[..|cl| - 1]), cl[|cl| - 1], |cl| - 1)
  }

  /** Stamping one more column onto the map of a prefix. */
  lemma StampAllStep(cl: seq<set<Role>>, n: nat)
    requires n < |cl|
    ensures StampAll(cl[..n + 1]) == Stamp(StampAll(cl[..n]), cl[n], n)
  {
    assert cl[..n + 1][..n] == cl[..n];
  }

  /** The column map mapHeaderColumns builds from a header row. */
  function ColumnMap(hdr: Row): map<Role, nat> {
    StampAll(Claims(hdr))
  }

  /** Column i claims role and no later column does. */
  ghost predicate LastClaim(cl: seq<set<Role>>, role: Role, i: int) {
    0 <= i < |cl| && role in cl[i] && forall j :: i < j < |cl| ==> role !in cl[j]
  }

  lemma {:induction false} StampAllIsLastClaim(cl: seq<set<Role>>, role: Role)
    ensures role in StampAll(cl) <==> exists i :: 0 <= i < |cl| && role in cl[i]
    ensures role in StampAll(cl) ==> LastClaim(cl, role, StampAll(cl)[role])
  {
    if cl != [] {
      var n := |cl| - 1;
      var init := cl[..n];
      StampAllIsLastClaim(init, role);
      assert forall i :: 0 <= i < n ==> init[i] == cl[i];
    }
  }

  /** The column map records a role exactly when some header cell claims
      it, and then at the index of the last cell that does. */
  lemma ColumnMapIsLastClaim(hdr: Row, role: Role)
    ensures role in ColumnMap(hdr) <==> exists i :: 0 <= i < |hdr| && role in CellRoles(hdr[i])
    ensures role in ColumnMap(hdr) ==>
      var i := ColumnMap(hdr)[role];
      0 <= i < |hdr| && role in CellRoles(hdr[i]) && forall j :: i < j < |hdr| ==> role !in CellRoles(hdr[j])
  {
    var cl := Claims(hdr);
    StampAllIsLastClaim(cl, role);
    if exists i :: 0 <= i < |hdr| && role in CellRoles(hdr[i]) {
      var i :| 0 <= i < |hdr| && role in CellRoles(hdr[i]);
      assert role in cl[i];
    }
  }

  lemma StampNothing(m: map<Role, nat>, i: nat)
    ensures Stamp(m, {}, i) == m
  {
  }

  lemma StampOne(m: map<Role, nat>, r: Role, i: nat)
    ensures Stamp(m, {r}, i) == m[r := i]
  {
  }

  lemma StampQtyService(m: map<Role, nat>, q: bool, sv: bool, i: nat)
    ensures var m1 := if q then m[Qty := i] else m;
      Stamp(m, (if q then {Qty} else {}) + (if sv then {Service} else {}), i)
      == if sv then m1[Service := i] else m1
  {
  }

  /** getOrDefault(role, -1) on the column map. */
  function ColumnOf(cm: map<Role, nat>, role: Role): (idx: int)
    ensures idx == -1 <==> role !in cm
    ensures role in cm ==> idx == cm[role]
  {
    if role in cm then cm[role] else -1
  }

  /** mapHeaderColumns: the cascade, applied cell by cell. */
  method MapHeaderColumns(hdr: Row) returns (mm: map<Role, nat>)
    ensures mm == ColumnMap(hdr)
  {
    mm := map[];
    ghost var cl := Claims(hdr);
    for idx := 0 to |hdr|
      invariant mm == StampAll(cl[..idx])
    {
      StampAllStep(cl, idx);
      var text := HeaderText(hdr[idx]);
      assert cl[idx] == TextRoles(text);
      mm := RecordHeaderCell(mm, text, idx);
    }
    assert cl[..|hdr|] == cl;
  }

  /** One pass of mapHeaderColumns' loop body: the rules tried in order on
      one header cell, the first six ending the pass with `continue`. */
  method RecordHeaderCell(mm0: map<Role, nat>, text: string, idx: nat) returns (mm: map<Role, nat>)
    ensures mm == Stamp(mm0, TextRoles(text), idx)
  {
    mm := mm0;
    if IsBlank(text) {
      StampNothing(mm0, idx);
      return;
    }
    if ContainsAny(text, MaterialHeader) {
      mm := mm[Material := idx];
      StampOne(mm0, Material, idx);
      return;
    }
    if ContainsAny(text, EmHeader) {
      mm := mm[Em := idx];
      StampOne(mm0, Em, idx);
      return;
    }
    if ContainsAny(text, ArtNrHeader) {
      mm := mm[ArtNr := idx];
      StampOne(mm0, ArtNr, idx);
      return;
    }
    if ContainsAny(text, CustomerHeader) {
      mm := mm[PriceCustomer := idx];
      StampOne(mm0, PriceCustomer, idx);
      return;
    }
    if ContainsAny(text, PurchaseHeader) {
      mm := mm[PricePurchase := idx];
      StampOne(mm0, PricePurchase, idx);
      return;
    }
    if ContainsAny(text, UnitHeader) {
      mm := mm[Unit := idx];
      StampOne(mm0, Unit, idx);
      return;
    }
    ghost var q := ContainsAny(text, QtyHeader);
    ghost var sv := ContainsAny(text, ServiceHeader);
    if ContainsAny(text, QtyHeader) {
      mm := mm[Qty := idx];
    }
    if ContainsAny(text, ServiceHeader) {
      mm := mm[Service := idx];
    }
    StampQtyService(mm0, q, sv, idx);
  }
}
