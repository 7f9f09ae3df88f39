/** The facility sheet: single figures below headers that occur exactly once, and the billing month. */
module Facility {
  import opened Text
  import opened Money
  import opened Decimal
  import opened Bill
  import opened Sheet

  datatype Einrichtung = Einrichtung(
    name: string, summe: int, zuschlagQM: int, zuschlagMSS: int, zuschlagNDH: int, zuschlagIntegration: int)

  /** cellAsCentsRequired: a blank cell is not read as 0. */
  function RequiredCents(parse: FloatParser, text: string): Option<int>
  {
    match parse(NormalizeDecimal(text))
    case None => None
    case Some(x) => if OutOfRange(RoundedCents(x)) then None else Some(ToInt(RoundedCents(x)))
  }

  /** A cell as it stands, untrimmed. */
  function RawText(g: Grid, row: nat, col: nat): string
  {
    if row < |g| && col < |g[row]| then g[row][col] else ""
  }

  /** The figure some rows below a header. */
  function FigureBelow(parse: FloatParser, g: Grid, header: string, down: nat): Option<int>
  {
    match HeaderAt(g, header)
    case None => None
    case Some(pos) => RequiredCents(parse, CellText(g, pos.row + down, pos.col))
  }

  function EinrichtungOf(parse: FloatParser, g: Grid): Option<Einrichtung>
  {
    var name := HeaderAt(g, "Einrichtungsname");
    var qm, mss := FigureBelow(parse, g, "QM", 1), FigureBelow(parse, g, "MSS", 1);
    var ndh := FigureBelow(parse, g, if HeaderAt(g, "ndH").Some? then "ndH" else "NdHs", 1);
    var integration, summe := FigureBelow(parse, g, "SpH", 1), FigureBelow(parse, g, "Abrechn.", 2);
    if name.None? || qm.None? || mss.None? || ndh.None? || integration.None? || summe.None? then None
    else Some(Einrichtung(RawText(g, name.value.row + 2, name.value.col), summe.value, qm.value, mss.value, ndh.value,
                          integration.value))
  }

  // ----- what the figures are, cell by cell

  /** The text reads as so many cents; a blank is no figure unless the parser takes it. */
  ghost predicate RequiredReads(parse: FloatParser, text: string, cents: int)
  {
    match parse(NormalizeDecimal(text))
    case Some(Finite(v)) => InRange(v) && Nearest(v, cents)
    case Some(NotANumber) => cents == -0x8000_0000_0000_0000
    case _ => false
  }

  /** So many rows below the only cell that contains the header, the figure is so many cents. */
  ghost predicate FigureAt(parse: FloatParser, g: Grid, header: string, down: nat, cents: int)
  {
    exists p :: OnlyCell(g, header, p) && RequiredReads(parse, CellText(g, p.row + down, p.col), cents)
  }

  ghost predicate OccursOnce(g: Grid, header: string)
  {
    exists p :: OnlyCell(g, header, p)
  }

  /** The name, unlike everything else, is taken as it stands. */
  ghost predicate NameAt(g: Grid, name: string)
  {
    exists p :: OnlyCell(g, "Einrichtungsname", p) && name == RawText(g, p.row + 2, p.col)
  }

  lemma RequiredReadsIff(parse: FloatParser, text: string, cents: int)
    ensures RequiredReads(parse, text, cents) <==> RequiredCents(parse, text) == Some(cents)
  {
    hide NormalizeDecimal;
    if parse(NormalizeDecimal(text)).Some? {
      var x := parse(NormalizeDecimal(text)).value;
      OutOfRangeIff(x);
      if !OutOfRange(RoundedCents(x)) { RangeCheckIff(x); }
      if x.Finite? { RoundIsNearest(x.value, cents); }
    }
  }

  lemma OccursOnceIff(g: Grid, header: string)
    ensures OccursOnce(g, header) <==> HeaderAt(g, header).Some?
  {
    hide HeaderAt, OnlyCell;
    forall p { HeaderAtIff(g, header, p); }
    if HeaderAt(g, header).Some? { assert OnlyCell(g, header, HeaderAt(g, header).value); }
  }

  lemma FigureAtIff(parse: FloatParser, g: Grid, header: string, down: nat, cents: int)
    ensures FigureAt(parse, g, header, down, cents) <==> FigureBelow(parse, g, header, down) == Some(cents)
  {
    hide HeaderAt, OnlyCell, RequiredReads, RequiredCents, CellText;
    forall p
      ensures OnlyCell(g, header, p) <==> HeaderAt(g, header) == Some(p)
      ensures RequiredReads(parse, CellText(g, p.row + down, p.col), cents)
         <==> RequiredCents(parse, CellText(g, p.row + down, p.col)) == Some(cents)
    {
      HeaderAtIff(g, header, p);
      RequiredReadsIff(parse, CellText(g, p.row + down, p.col), cents);
    }
  }

  lemma NameAtIff(g: Grid, name: string)
    ensures NameAt(g, name) <==>
              && HeaderAt(g, "Einrichtungsname").Some?
              && var p := HeaderAt(g, "Einrichtungsname").value; name == RawText(g, p.row + 2, p.col)
  {
    hide HeaderAt, OnlyCell, RawText;
    forall p { HeaderAtIff(g, "Einrichtungsname", p); }
  }

  /** Every figure stands below its own header. */
  ghost predicate FacilityReads(parse: FloatParser, g: Grid, e: Einrichtung)
  {
    && NameAt(g, e.name) && FigureAt(parse, g, "Abrechn.", 2, e.summe)
    && FigureAt(parse, g, "QM", 1, e.zuschlagQM) && FigureAt(parse, g, "MSS", 1, e.zuschlagMSS)
    && FigureAt(parse, g, if OccursOnce(g, "ndH") then "ndH" else "NdHs", 1, e.zuschlagNDH)
    && FigureAt(parse, g, "SpH", 1, e.zuschlagIntegration)
  }

  /** The facility sheet is read if and only if every figure stands below its own header. */
  lemma EinrichtungIff(parse: FloatParser, g: Grid, e: Einrichtung)
    ensures EinrichtungOf(parse, g) == Some(e) <==> FacilityReads(parse, g, e)
  {
    hide HeaderAt, RawText, FigureBelow, FigureAt, NameAt, OccursOnce;
    NameAtIff(g, e.name);
    OccursOnceIff(g, "ndH");
    FigureAtIff(parse, g, "Abrechn.", 2, e.summe);
    FigureAtIff(parse, g, "QM", 1, e.zuschlagQM);
    FigureAtIff(parse, g, "MSS", 1, e.zuschlagMSS);
    FigureAtIff(parse, g, "ndH", 1, e.zuschlagNDH);
    FigureAtIff(parse, g, "NdHs", 1, e.zuschlagNDH);
    FigureAtIff(parse, g, "SpH", 1, e.zuschlagIntegration);
  }

  // ----- the billing month

  /** k columns right of the label stands something other than the label, which merged cells repeat. */
  predicate HoldsValue(g: Grid, lbl: Pos, k: nat)
  {
    var v := CellText(g, lbl.row, lbl.col + k);
    v != "" && v != CellText(g, lbl.row, lbl.col)
  }

  const MAX_OFFSET := 10

  /** The least offset from n on at which a value stands, or one beyond the last offset searched. */
  function ValueOffset(g: Grid, lbl: Pos, n: nat): (k: nat)
    requires 1 <= n <= MAX_OFFSET + 1
    ensures n <= k <= MAX_OFFSET + 1
    ensures k <= MAX_OFFSET ==> HoldsValue(g, lbl, k)
    ensures forall i :: n <= i < k ==> !HoldsValue(g, lbl, i)
    decreases MAX_OFFSET + 1 - n
  {
    hide HoldsValue;
    if n > MAX_OFFSET || HoldsValue(g, lbl, n) then n else ValueOffset(g, lbl, n + 1)
  }

  /** time.Parse("01/06", s) */
  type MonthParser = string -> Option<Month>

  /** The month stands directly below the first value to the right of the label. */
  function BillingMonthOf(parse: MonthParser, g: Grid): Option<Month>
  {
    match HeaderAt(g, "Trägernummer")
    case None => None
    case Some(pos) =>
      var k := ValueOffset(g, pos, 1);
      if k > MAX_OFFSET then None
      else
        var text := CellText(g, pos.row + 1, pos.col + k);
        if text == "" then None else parse(text)
  }

  /** i columns right of the label the cell is blank or repeats it. */
  predicate NothingAt(g: Grid, lbl: Pos, i: nat)
  {
    CellText(g, lbl.row, lbl.col + i) == "" || CellText(g, lbl.row, lbl.col + i) == CellText(g, lbl.row, lbl.col)
  }

  /** The first value right of the label stands k columns from it, and k is at most ten. */
  ghost predicate FirstValue(g: Grid, lbl: Pos, k: nat)
  {
    && 1 <= k <= 10
    && CellText(g, lbl.row, lbl.col + k) != "" && CellText(g, lbl.row, lbl.col + k) != CellText(g, lbl.row, lbl.col)
    && (forall i: nat :: 1 <= i < k ==> NothingAt(g, lbl, i))
  }

  lemma FirstValueIff(g: Grid, lbl: Pos, k: nat)
    ensures FirstValue(g, lbl, k) <==> k == ValueOffset(g, lbl, 1) <= 10
  {
    hide CellText;
    var first := ValueOffset(g, lbl, 1);
    forall i: nat ensures NothingAt(g, lbl, i) <==> !HoldsValue(g, lbl, i) {}
    if FirstValue(g, lbl, k) {
      assert HoldsValue(g, lbl, k);
      assert !(first < k) && !(k < first);
    }
  }

  /** Below the first value right of the only label stands the text of the month. */
  ghost predicate MonthBelow(parse: MonthParser, g: Grid, p: Pos, k: nat, m: Month)
  {
    && OnlyCell(g, "Trägernummer", p) && FirstValue(g, p, k)
    && CellText(g, p.row + 1, p.col + k) != "" && parse(CellText(g, p.row + 1, p.col + k)) == Some(m)
  }

  lemma BillingMonthIff(parse: MonthParser, g: Grid, m: Month)
    ensures BillingMonthOf(parse, g) == Some(m) <==> exists p, k :: MonthBelow(parse, g, p, k, m)
  {
    hide HeaderAt, OnlyCell, CellText, FirstValue, ValueOffset;
    forall p, k | MonthBelow(parse, g, p, k, m) ensures BillingMonthOf(parse, g) == Some(m) {
      HeaderAtIff(g, "Trägernummer", p);
      FirstValueIff(g, p, k);
    }
    if BillingMonthOf(parse, g) == Some(m) {
      var p := HeaderAt(g, "Trägernummer").value;
      HeaderAtIff(g, "Trägernummer", p);
      FirstValueIff(g, p, ValueOffset(g, p, 1));
      assert MonthBelow(parse, g, p, ValueOffset(g, p, 1), m);
    }
  }

  method ParseBillingMonth(parse: MonthParser, g: Grid) returns (m: Option<Month>)
    ensures m == BillingMonthOf(parse, g)
  {
    hide CellText;
    var pos := HeaderAt(g, "Trägernummer");
    if pos.None? { return None; }
    var row, col := pos.value.row, pos.value.col;
    var labelText := CellText(g, row, col);
    var offset := 1;
    while offset <= MAX_OFFSET
      invariant 1 <= offset <= MAX_OFFSET + 1
      invariant ValueOffset(g, pos.value, 1) == ValueOffset(g, pos.value, offset)
    {
      var v := CellText(g, row, col + offset);
      if v != "" && v != labelText { break; }
      offset := offset + 1;
    }
    if offset > MAX_OFFSET { return None; }
    var text := CellText(g, row + 1, col + offset);
    m := if text == "" then None else parse(text);
  }
}
