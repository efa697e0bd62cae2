/** Spreadsheet input as the engine sees it, and the cell-level number
    parsing it does itself (PriceListService.java, getCellStringSafe,
    getCellDoubleSafe and parseDoubleFromString). */
module Sheets {
  import opened Wrappers
  import opened JavaStrings

  /** One cell: the text getCellString gives for it and the number
      getCellDoubleSafe gives for it. A cell that does not exist is Blank. */
  datatype Cell = Cell(text: string, number: Option<real>)

  const Blank: Cell := Cell("", None)

  /** A row's cells by column index; a row that does not exist is []. */
  type Row = seq<Cell>

  /** A sheet's rows by row index, so getLastRowNum() is |rows| - 1. */
  datatype Sheet = Sheet(name: string, rows: seq<Row>)

  /** isRowEmpty: no cell has a non-blank text. */
  predicate IsRowEmpty(row: Row) {
    forall i :: 0 <= i < |row| ==> IsBlank(row[i].text)
  }

  /** isRowEmpty's cell loop, which returns at the first non-blank cell. */
  method CheckRowEmpty(row: Row) returns (empty: bool)
    ensures empty == IsRowEmpty(row)
  {
    for i := 0 to |row|
      invariant forall j :: 0 <= j < i ==> IsBlank(row[j].text)
    {
      if !IsBlank(row[i].text) {
        return false;
      }
    }
    return true;
  }

  /** getCellStringSafe: no column (index -1) gives null, a column past the
      row's last cell gives the text of a missing cell, "". */
  function CellStringSafe(row: Row, idx: int): (r: Option<string>)
    ensures r.None? <==> idx < 0
    ensures 0 <= idx < |row| ==> r == Some(row[idx].text)
    ensures idx >= |row| ==> r == Some("")
  {
    if idx < 0 then None
    else if idx < |row| then Some(row[idx].text)
    else Some("")
  }

  /** getCellDoubleSafe(row, idx): no column and a missing cell give null. */
  function CellDoubleSafe(row: Row, idx: int): (r: Option<real>)
    ensures 0 <= idx < |row| ==> r == row[idx].number
    ensures idx < 0 || idx >= |row| ==> r.None?
  {
    if 0 <= idx < |row| then row[idx].number else None
  }

  /** The characters the price filter [^0-9,\\.\\-] keeps. */
  predicate IsPriceChar(c: char) {
    IsAsciiDigit(c) || c == ',' || c == '.' || c == '-'
  }

  /** replaceAll("[^0-9,\\.\\-]", "").replace(',', '.'): keeps digits, commas,
      points and minus signs, in order, and turns each comma into a point. */
  function PriceChars(s: string): (r: string)
    ensures |r| <= |s|
    ensures forall i :: 0 <= i < |r| ==> IsAsciiDigit(r[i]) || r[i] == '.' || r[i] == '-'
  {
    if s == [] then []
    else
      var head := if !IsPriceChar(s[0]) then [] else if s[0] == ',' then ['.'] else [s[0]];
      head + PriceChars(s[1..])
  }

  /** The filter distributes over concatenation. */
  lemma {:induction false} PriceCharsAppend(a: string, b: string)
    ensures PriceChars(a + b) == PriceChars(a) + PriceChars(b)
  {
    if a != [] {
      assert (a + b)[1..] == a[1..] + b;
      PriceCharsAppend(a[1..], b);
    } else {
      assert a + b == b;
    }
  }

  /** A string of digits passes the filter unchanged. */
  lemma {:induction false} PriceCharsOfDigits(s: string)
    requires AllDigits(s)
    ensures PriceChars(s) == s
  {
    if s != [] {
      PriceCharsOfDigits(s[1..]);
    }
  }

  function Pow10(n: nat): (r: nat)
    ensures r >= 1
  {
    if n == 0 then 1 else 10 * Pow10(n - 1)
  }

  /** The value of a string of decimal digits ("" counts as 0). */
  function DigitsValue(s: string): nat
    requires AllDigits(s)
  {
    if s == [] then 0
    else 10 * DigitsValue(s[..|s| - 1]) + (s[|s| - 1] as int - '0' as int)
  }

  /** Index of the first '.', or |s| when there is none. */
  function DotIndex(s: string): (d: nat)
    ensures d <= |s|
    ensures d < |s| ==> s[d] == '.'
    ensures forall i :: 0 <= i < d ==> s[i] != '.'
  {
    if s == [] || s[0] == '.' then 0 else 1 + DotIndex(s[1..])
  }

  /** An unsigned decimal: digits, at most one point, at least one digit. */
  function UnsignedDecimal(s: string): (r: Option<real>)
    ensures r.Some? ==> s != [] && r.value >= 0.0
  {
    var d := DotIndex(s);
    var whole := s[..d];
    var frac := if d < |s| then s[d + 1..] else "";
    if AllDigits(whole) && AllDigits(frac) && |whole| + |frac| > 0 then
      Some(DigitsValue(whole) as real + DigitsValue(frac) as real / Pow10(|frac|) as real)
    else
      None
  }

  /** Double.parseDouble on a string the price filter produced. Only digits,
      '.' and '-' can occur, so the accepted forms are an optional leading
      minus, then digits with at most one point and at least one digit;
      everything else (a second point, a minus elsewhere, no digit) throws
      NumberFormatException, which is None here. */
  function ParseDecimal(s: string): (r: Option<real>)
    ensures r.Some? ==> s != []
    ensures r.Some? && r.value > 0.0 ==> s[0] != '-'
  {
    if |s| > 0 && s[0] == '-' then
      match UnsignedDecimal(s[1..])
      case Some(v) => Some(-v)
      case None => None
    else
      UnsignedDecimal(s)
  }

  /** The syntax Double.parseDouble accepts over the filtered alphabet
      without a sign: digits and at most one point, with at least one digit. */
  predicate UnsignedSyntax(u: string) {
    && (forall i :: 0 <= i < |u| ==> IsAsciiDigit(u[i]) || u[i] == '.')
    && (forall i, j :: 0 <= i < j < |u| && u[i] == '.' ==> u[j] != '.')
    && (exists i :: 0 <= i < |u| && IsAsciiDigit(u[i]))
  }

  /** The same with an optional leading minus sign. */
  predicate DecimalSyntax(t: string) {
    if |t| > 0 && t[0] == '-' then UnsignedSyntax(t[1..]) else UnsignedSyntax(t)
  }

  /** The point-splitting reader accepts exactly the unsigned syntax. */
  lemma UnsignedDecimalIff(u: string)
    ensures UnsignedDecimal(u).Some? <==> UnsignedSyntax(u)
  {
    if UnsignedDecimal(u).Some? {
      AcceptedHasSyntax(u);
    }
    if UnsignedSyntax(u) {
      SyntaxIsAccepted(u);
    }
  }

  lemma AcceptedHasSyntax(u: string)
    requires UnsignedDecimal(u).Some?
    ensures UnsignedSyntax(u)
  {
    var d := DotIndex(u);
    var whole := u[..d];
    var frac := if d < |u| then u[d + 1..] else "";
    assert AllDigits(whole) && AllDigits(frac) && |whole| + |frac| > 0;
    forall i | 0 <= i < |u|
      ensures IsAsciiDigit(u[i]) || u[i] == '.'
      ensures u[i] == '.' ==> i == d
    {
      if i < d {
        assert u[i] == whole[i];
      } else if i > d {
        assert u[i] == frac[i - d - 1];
      }
    }
    if whole != [] {
      assert u[0] == whole[0];
    } else {
      assert u[d + 1] == frac[0];
    }
  }

  lemma SyntaxIsAccepted(u: string)
    requires UnsignedSyntax(u)
    ensures UnsignedDecimal(u).Some?
  {
    var d := DotIndex(u);
    var whole := u[..d];
    var frac := if d < |u| then u[d + 1..] else "";
    assert forall i :: 0 <= i < |whole| ==> whole[i] == u[i];
    assert forall i :: 0 <= i < |frac| ==> frac[i] == u[d + 1 + i];
    assert AllDigits(whole);
    assert AllDigits(frac);
    var i :| 0 <= i < |u| && IsAsciiDigit(u[i]);
    assert i < d || i > d;
  }

  /** Double.parseDouble on a filtered string succeeds exactly on the
      decimal syntax. */
  lemma ParseDecimalIff(t: string)
    ensures ParseDecimal(t).Some? <==> DecimalSyntax(t)
  {
    if |t| > 0 && t[0] == '-' {
      UnsignedDecimalIff(t[1..]);
    } else {
      UnsignedDecimalIff(t);
    }
  }

  /** The filter leaves no character that trim would remove. */
  lemma FilteredNeedsNoTrim(s: string)
    ensures Trim(PriceChars(s)) == PriceChars(s)
  {
    var t := PriceChars(s);
    if t != [] {
      assert !IsTrimChar(t[0]) && !IsTrimChar(t[|t| - 1]);
    }
    TrimOfTrimmed(t);
  }

  /** The filtered text is blank exactly when it is empty: the filter keeps
      no whitespace. */
  lemma FilteredBlankIffEmpty(s: string)
    ensures IsBlank(PriceChars(s)) <==> PriceChars(s) == []
  {
    var t := PriceChars(s);
    if t != [] {
      assert !IsJavaWhitespace(t[0]);
    }
  }

  /** On a non-empty filtered text, parseDoubleFromString is parseDouble. */
  lemma ParseOfFiltered(s: string)
    ensures PriceChars(s) != [] ==> ParseDoubleFromString(s) == ParseDecimal(PriceChars(s))
  {
    FilteredNeedsNoTrim(s);
  }

  /** A locale-formatted price "a,b" with digit strings a and b reads as the
      decimal a.b once the comma has become a point. */
  lemma CommaDecimal(a: string, b: string)
    requires AllDigits(a) && AllDigits(b) && |a| + |b| > 0
    ensures var r := ParseDoubleFromString(a + [','] + b);
      r.Some? && r.value == DigitsValue(a) as real + DigitsValue(b) as real / Pow10(|b|) as real
  {
    CommaBecomesPoint(a, b);
    FilteredNeedsNoTrim(a + [','] + b);
    var s := a + ['.'] + b;
    PointDecimal(a, b);
    assert s[0] == if a != [] then a[0] else '.';
    ParseWithoutSign(s);
  }

  /** Filtered prices outside the syntax make parseDouble throw, which
      parseDoubleFromString turns into null: a second point ("1.2.3")... */
  lemma SecondPointRejected(t: string, i: nat, j: nat)
    requires forall k :: 0 <= k < |t| ==> IsAsciiDigit(t[k]) || t[k] == '.' || t[k] == '-'
    requires i < j < |t| && t[i] == '.' && t[j] == '.'
    ensures ParseDoubleFromString(t).None?
  {
    PriceCharsKeeps(t);
    if t[0] == '-' {
      assert t[1..][i - 1] == '.' && t[1..][j - 1] == '.';
    }
  }

  /** ... a minus sign anywhere but at the front ("1-2") ... */
  lemma InnerMinusRejected(t: string, i: nat)
    requires forall k :: 0 <= k < |t| ==> IsAsciiDigit(t[k]) || t[k] == '.' || t[k] == '-'
    requires 0 < i < |t| && t[i] == '-'
    ensures ParseDoubleFromString(t).None?
  {
    var u, k := if t[0] == '-' then t[1..] else t, if t[0] == '-' then i - 1 else i;
    assert 0 <= k < |u| && u[k] == '-';
    assert !UnsignedSyntax(u);
    assert !DecimalSyntax(t);
    PriceCharsKeeps(t);
  }

  /** ... and a minus sign with no digit ("-"). */
  lemma LoneMinusRejected(t: string)
    requires t == "-"
    ensures ParseDoubleFromString(t).None?
  {
    PriceCharsKeeps(t);
    assert t[1..] == [];
  }

  /** A string of digits, points and minus signs passes the filter unchanged. */
  lemma {:induction false} PriceCharsKeeps(s: string)
    requires forall i :: 0 <= i < |s| ==> IsAsciiDigit(s[i]) || s[i] == '.' || s[i] == '-'
    ensures PriceChars(s) == s
  {
    if s != [] {
      PriceCharsKeeps(s[1..]);
    }
  }

  lemma CommaBecomesPoint(a: string, b: string)
    requires AllDigits(a) && AllDigits(b)
    ensures PriceChars(a + [','] + b) == a + ['.'] + b
  {
    PriceCharsAppend(a + [','], b);
    PriceCharsAppend(a, [',']);
    PriceCharsOfDigits(a);
    PriceCharsOfDigits(b);
    assert PriceChars([',']) == ['.'];
  }

  lemma PointDecimal(a: string, b: string)
    requires AllDigits(a) && AllDigits(b) && |a| + |b| > 0
    ensures var r := UnsignedDecimal(a + ['.'] + b);
      r.Some? && r.value == DigitsValue(a) as real + DigitsValue(b) as real / Pow10(|b|) as real
  {
    var s := a + ['.'] + b;
    assert s == a + (['.'] + b);
    DotIndexAfterDigits(a, ['.'] + b);
    assert DotIndex(['.'] + b) == 0;
    var d := DotIndex(s);
    assert d == |a|;
    assert s[..d] == a;
    assert s[d + 1..] == b;
    assert AllDigits(s[..d]) && AllDigits(s[d + 1..]);
    assert UnsignedDecimal(s).Some?;
  }

  lemma ParseWithoutSign(s: string)
    requires s == [] || s[0] != '-'
    ensures ParseDecimal(s) == UnsignedDecimal(s)
  {
  }

  /** Digits before the first point do not move it. */
  lemma {:induction false} DotIndexAfterDigits(a: string, b: string)
    requires AllDigits(a)
    ensures DotIndex(a + b) == |a| + DotIndex(b)
  {
    if a != [] {
      assert (a + b)[1..] == a[1..] + b;
      DotIndexAfterDigits(a[1..], b);
    } else {
      assert a + b == b;
    }
  }

  /** A string of digits reads as its digit value. */
  lemma DigitsParse(s: string)
    requires AllDigits(s) && s != []
    ensures ParseDoubleFromString(s) == Some(DigitsValue(s) as real)
  {
    PriceCharsOfDigits(s);
    FilteredNeedsNoTrim(s);
    assert Trim(PriceChars(s)) == s;
    assert IsAsciiDigit(s[0]);
    ParseWithoutSign(s);
    UnsignedDigits(s);
  }

  /** With no point, the reader takes the whole string as the integer part. */
  lemma UnsignedDigits(s: string)
    requires AllDigits(s) && s != []
    ensures UnsignedDecimal(s) == Some(DigitsValue(s) as real)
  {
    DotIndexAfterDigits(s, "");
    assert s + "" == s;
    assert DotIndex(s) == |s|;
    assert s[..|s|] == s;
  }

  /** parseDoubleFromString on a string cell's value: null when nothing
      survives the filter, otherwise the number the filtered text denotes,
      and null exactly when that text is outside the decimal syntax. */
  function ParseDoubleFromString(s: string): (r: Option<real>)
    ensures Trim(PriceChars(s)) == [] ==> r.None?
    ensures r.Some? <==> DecimalSyntax(PriceChars(s))
  {
    var norm := Trim(PriceChars(s));
    FilteredNeedsNoTrim(s);
    if norm == [] then None
    else
      ParseDecimalIff(norm);
      ParseDecimal(norm)
  }

  /** A cell of string type with the given raw value: getCellString trims it
      and getCellDoubleSafe parses it. */
  function StringCell(raw: string): Cell {
    Cell(Trim(raw), ParseDoubleFromString(raw))
  }
}
