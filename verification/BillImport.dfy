/** The import of a whole bill: parse, reconcile with the header, convert, group. */
module BillImport {
  import opened Text
  import opened Money
  import opened Decimal
  import opened Bill
  import opened Sheet
  import opened ConvertRow
  import opened Facility
  import opened Grouping
  import V = Vertrag
  import K = Korrektur

  // ----- the header figure

  datatype Abrechnung = Abrechnung(vertragsBuchung: int, korrekturBuchung: int)

  function Plus(a: Option<int>, b: Option<int>): Option<int>
  {
    if a.Some? && b.Some? then Some(a.value + b.value) else None
  }

  /** The sum of a column over the rows [r, e), or None if a cell is unreadable. */
  function ColumnTotal(parse: FloatParser, g: Grid, col: nat, r: nat, e: nat): Option<int>
    decreases e
  {
    if r >= e then Some(0) else Plus(ColumnTotal(parse, g, col, r, e - 1), CentsOf(parse, CellText(g, e - 1, col)))
  }

  /** What a column states in its total row; a blank total stands for the sum of the rows above it. */
  function StatedTotal(parse: FloatParser, g: Grid, col: nat, first: nat, sumRow: nat): Option<int>
  {
    if CellText(g, sumRow, col) != "" then CentsOf(parse, CellText(g, sumRow, col))
    else ColumnTotal(parse, g, col, first, sumRow)
  }

  lemma {:induction false} UnreadableStays(parse: FloatParser, g: Grid, col: nat, r: nat, k: nat, e: nat)
    requires r <= k <= e && ColumnTotal(parse, g, col, r, k).None?
    ensures ColumnTotal(parse, g, col, r, e).None?
  {
    hide CentsOf, CellText;
    if k < e { UnreadableStays(parse, g, col, r, k, e - 1); }
  }

  method ReadOrSumColumn(parse: FloatParser, g: Grid, col: nat, first: nat, sumRow: nat) returns (r: Option<int>)
    ensures r == StatedTotal(parse, g, col, first, sumRow)
  {
    hide CentsOf, CellText;
    if CellText(g, sumRow, col) != "" {
      return CentsOf(parse, CellText(g, sumRow, col));
    }
    var total, i := 0, first;
    while i < sumRow
      invariant first <= i && (i <= sumRow || i == first)
      invariant ColumnTotal(parse, g, col, first, i) == Some(total)
    {
      var v := CentsOf(parse, CellText(g, i, col));
      if v.None? {
        UnreadableStays(parse, g, col, first, i + 1, sumRow);
        return None;
      }
      total := total + v.value;
      i := i + 1;
    }
    r := Some(total);
  }

  function AbrechnungOf(parse: FloatParser, g: Grid): Option<Abrechnung>
  {
    match (HeaderAt(g, "Summe:"), HeaderAt(g, "Vertragsbuchung"), HeaderAt(g, "Korrekturbuchung"))
    case (Some(sum), Some(vb), Some(kb)) =>
      (match (StatedTotal(parse, g, vb.col, vb.row + 1, sum.row), StatedTotal(parse, g, kb.col, kb.row + 1, sum.row))
       case (Some(v), Some(k)) => Some(Abrechnung(v, k))
       case _ => None)
    case _ => None
  }

  // ----- what the two figures are, cell by cell

  function Total(cents: seq<int>): int
  {
    if cents == [] then 0 else Total(cents[..|cents| - 1]) + cents[|cents| - 1]
  }

  /** The cells of the column in the rows [r, e) read as these cents. */
  ghost predicate ColumnReads(parse: FloatParser, g: Grid, col: nat, r: nat, e: nat, cents: seq<int>)
  {
    && |cents| == (if r < e then e - r else 0)
    && forall i :: 0 <= i < |cents| ==> CentsOf(parse, CellText(g, r + i, col)) == Some(cents[i])
  }

  lemma {:induction false} ColumnTotalReads(parse: FloatParser, g: Grid, col: nat, r: nat, e: nat, cents: seq<int>)
    requires ColumnReads(parse, g, col, r, e, cents)
    ensures ColumnTotal(parse, g, col, r, e) == Some(Total(cents))
    decreases e
  {
    hide CentsOf, CellText;
    if r < e {
      var n := |cents| - 1;
      ColumnTotalReads(parse, g, col, r, e - 1, cents[..n]);
      assert r + n == e - 1;
    }
  }

  lemma {:induction false} ColumnTotalSplits(parse: FloatParser, g: Grid, col: nat, r: nat, e: nat)
    returns (cents: seq<int>)
    requires ColumnTotal(parse, g, col, r, e).Some?
    ensures ColumnReads(parse, g, col, r, e, cents)
    decreases e
  {
    hide CentsOf, CellText;
    if r < e {
      var rest := ColumnTotalSplits(parse, g, col, r, e - 1);
      cents := rest + [CentsOf(parse, CellText(g, e - 1, col)).value];
    } else {
      cents := [];
    }
  }

  /**
   The figure of the column below header cell p: the total row's cell, or where that is blank the sum of the
   column from the row after the header to the row above the total row.
   */
  ghost predicate Figure(parse: FloatParser, g: Grid, p: Pos, sumRow: nat, v: int)
  {
    if CellText(g, sumRow, p.col) != "" then CentsOf(parse, CellText(g, sumRow, p.col)) == Some(v)
    else exists cents :: ColumnReads(parse, g, p.col, p.row + 1, sumRow, cents) && Total(cents) == v
  }

  /** v stands in the total row under the given header; both headers occur exactly once. */
  ghost predicate StatedUnder(parse: FloatParser, g: Grid, header: string, v: int)
  {
    exists sum, p :: OnlyCell(g, "Summe:", sum) && OnlyCell(g, header, p) && Figure(parse, g, p, sum.row, v)
  }

  lemma StatedTotalIff(parse: FloatParser, g: Grid, p: Pos, sumRow: nat, v: int)
    ensures StatedTotal(parse, g, p.col, p.row + 1, sumRow) == Some(v) <==> Figure(parse, g, p, sumRow, v)
  {
    hide CentsOf, CellText;
    var total := ColumnTotal(parse, g, p.col, p.row + 1, sumRow);
    if total.Some? {
      var cents := ColumnTotalSplits(parse, g, p.col, p.row + 1, sumRow);
      ColumnTotalReads(parse, g, p.col, p.row + 1, sumRow, cents);
    }
    forall cents | ColumnReads(parse, g, p.col, p.row + 1, sumRow, cents) ensures total == Some(Total(cents)) {
      ColumnTotalReads(parse, g, p.col, p.row + 1, sumRow, cents);
    }
  }

  lemma StatedUnderIff(parse: FloatParser, g: Grid, header: string, v: int)
    ensures StatedUnder(parse, g, header, v) <==>
              && HeaderAt(g, "Summe:").Some? && HeaderAt(g, header).Some?
              && var sum, p := HeaderAt(g, "Summe:").value, HeaderAt(g, header).value;
              StatedTotal(parse, g, p.col, p.row + 1, sum.row) == Some(v)
  {
    hide Figure, StatedTotal, HeaderAt, OnlyCell;
    var s, h := HeaderAt(g, "Summe:"), HeaderAt(g, header);
    forall sum, p
      ensures OnlyCell(g, "Summe:", sum) <==> s == Some(sum)
      ensures OnlyCell(g, header, p) <==> h == Some(p)
      ensures Figure(parse, g, p, sum.row, v) <==> StatedTotal(parse, g, p.col, p.row + 1, sum.row) == Some(v)
    {
      HeaderAtIff(g, "Summe:", sum);
      HeaderAtIff(g, header, p);
      StatedTotalIff(parse, g, p, sum.row, v);
    }
  }

  /** The header figures are read if and only if each stands in the total row under its own header. */
  lemma AbrechnungIff(parse: FloatParser, g: Grid, a: Abrechnung)
    ensures AbrechnungOf(parse, g) == Some(a) <==>
              && StatedUnder(parse, g, "Vertragsbuchung", a.vertragsBuchung)
              && StatedUnder(parse, g, "Korrekturbuchung", a.korrekturBuchung)
  {
    hide StatedUnder, StatedTotal, HeaderAt;
    StatedUnderIff(parse, g, "Vertragsbuchung", a.vertragsBuchung);
    StatedUnderIff(parse, g, "Korrekturbuchung", a.korrekturBuchung);
  }

  method ParseAbrechnung(parse: FloatParser, g: Grid) returns (r: Option<Abrechnung>)
    ensures r == AbrechnungOf(parse, g)
    ensures forall a :: r == Some(a) <==>
              && StatedUnder(parse, g, "Vertragsbuchung", a.vertragsBuchung)
              && StatedUnder(parse, g, "Korrekturbuchung", a.korrekturBuchung)
  {
    forall a { AbrechnungIff(parse, g, a); }
    hide StatedTotal, Hits, StatedUnder;
    var sum, vb, kb := HeaderAt(g, "Summe:"), HeaderAt(g, "Vertragsbuchung"), HeaderAt(g, "Korrekturbuchung");
    if sum.None? || vb.None? { return None; }
    var v := ReadOrSumColumn(parse, g, vb.value.col, vb.value.row + 1, sum.value.row);
    if v.None? || kb.None? { return None; }
    var k := ReadOrSumColumn(parse, g, kb.value.col, kb.value.row + 1, sum.value.row);
    if k.None? { return None; }
    r := Some(Abrechnung(v.value, k.value));
  }

  // ----- reconciliation with the header

  function SumSumme(kinder: seq<Kind>): int
  {
    if kinder == [] then 0 else SumSumme(kinder[..|kinder| - 1]) + kinder[|kinder| - 1].summe
  }

  method ReconcileAgainstHeader(kinder: seq<Kind>, header: Abrechnung) returns (ok: bool)
    ensures ok <==> SumSumme(kinder) == header.vertragsBuchung
  {
    var sum := 0;
    for i := 0 to |kinder|
      invariant sum == SumSumme(kinder[..i])
    {
      assert kinder[..i + 1][..i] == kinder[..i];
      sum := sum + kinder[i].summe;
    }
    assert kinder[..|kinder|] == kinder;
    ok := sum == header.vertragsBuchung;
  }

  // ----- conversion

  /** All rows converted, or the first row's error. */
  function ConvertAll(kinder: seq<Kind>): (r: Result<seq<Line>, RowError>)
    ensures r.Ok? ==> |r.value| == |kinder|
  {
    if kinder == [] then Ok([])
    else
      var n := |kinder| - 1;
      var lines :- ConvertAll(kinder[..n]);
      var line :- LineOf(kinder[n]);
      Ok(lines + [line])
  }

  datatype Settlement = Settlement(
    facilityName: string, facilityTotal: int, contractBooking: int, correctionBooking: int,
    correction: K.Summary, childrenCount: nat, surcharges: Amounts, children: seq<Child>)

  function Surcharges(e: Einrichtung): Amounts
  {
    [Amount("ndh", "ndh", e.zuschlagNDH),
     Amount("qm/mss", "qm/mss", e.zuschlagQM + e.zuschlagMSS),
     Amount("integration", "integration", e.zuschlagIntegration)]
  }

  /** The three surcharges of a facility, each under its own key and value; QM and MSS share one. */
  lemma SurchargesDue(e: Einrichtung)
    ensures var s := Surcharges(e);
            && |s| == 3 && DistinctPairs(s) && PairTotal(s, "ndh", "ndh") == e.zuschlagNDH
            && PairTotal(s, "qm/mss", "qm/mss") == e.zuschlagQM + e.zuschlagMSS
            && PairTotal(s, "integration", "integration") == e.zuschlagIntegration
  {
    hide PairTotal;
    var s := Surcharges(e);
    assert |"ndh"| == 3 && |"qm/mss"| == 6 && |"integration"| == 11;
    assert s[0] in s && s[1] in s && s[2] in s;
    PairTotalOf(s, s[0]);
    PairTotalOf(s, s[1]);
    PairTotalOf(s, s[2]);
  }

  lemma {:induction false} FirstErrorStays(kinder: seq<Kind>, n: nat)
    requires n <= |kinder| && ConvertAll(kinder[..n]).Err?
    ensures ConvertAll(kinder) == ConvertAll(kinder[..n])
  {
    hide LineOf;
    if n < |kinder| {
      assert kinder[..|kinder| - 1][..n] == kinder[..n];
      FirstErrorStays(kinder[..|kinder| - 1], n);
    } else {
      assert kinder[..n] == kinder;
    }
  }

  lemma ConvertNext(kinder: seq<Kind>, n: nat)
    requires n < |kinder| && ConvertAll(kinder[..n]).Ok?
    ensures LineOf(kinder[n]).Err? ==> ConvertAll(kinder[..n + 1]) == Err(LineOf(kinder[n]).error)
    ensures LineOf(kinder[n]).Ok? ==>
              ConvertAll(kinder[..n + 1]) == Ok(ConvertAll(kinder[..n]).value + [LineOf(kinder[n]).value])
  {
    hide LineOf;
    assert kinder[..n + 1][..n] == kinder[..n];
  }

  lemma GroupNext(lines: seq<Line>, l: Line)
    ensures Group(lines + [l]) == AddLine(Group(lines), l)
  {
    hide AddLine;
    assert (lines + [l])[..|lines|] == lines;
  }

  /** The lookup table knows where each voucher's child is. */
  ghost predicate Indexes(index: map<string, nat>, children: seq<Child>)
  {
    && (forall v :: v in index <==> IndexOf(children, v, 0) < |children|)
    && (forall v :: v in index ==> index[v] == IndexOf(children, v, 0))
  }

  /** One converted row joins its child, or starts one. */
  method AddToChildren(children: seq<Child>, index: map<string, nat>, l: Line)
    returns (children': seq<Child>, index': map<string, nat>)
    requires Indexes(index, children)
    ensures children' == AddLine(children, l) && Indexes(index', children')
  {
    index' := index;
    if l.voucher in index {
      var c := children[index[l.voucher]];
      children' := children[index[l.voucher] := c.(rows := c.rows + [l.row], total := c.total + l.row.total)];
    } else {
      index' := index'[l.voucher := |children|];
      children' := children + [Child(l.voucher, l.childName, l.birthDate, l.district, l.row.total, [l.row])];
    }
    forall v { AddLineIndex(children, l, v); }
  }

  lemma AddLineIndex(before: seq<Child>, l: Line, v: string)
    ensures var after := AddLine(before, l);
            && (IndexOf(before, v, 0) < |before| ==> IndexOf(after, v, 0) == IndexOf(before, v, 0))
            && (IndexOf(before, v, 0) == |before| && v == l.voucher ==> IndexOf(after, v, 0) == |before|)
            && (IndexOf(before, v, 0) == |before| && v != l.voucher ==> IndexOf(after, v, 0) == |after|)
  {
    AddKeepsVouchers(before, l);
  }

  method Convert(e: Einrichtung, a: Abrechnung, kinder: seq<Kind>, korrekturen: seq<K.Posten>)
    returns (r: Result<Settlement, RowError>)
    ensures r.Err? <==> ConvertAll(kinder).Err?
    ensures r.Err? ==> r.error == ConvertAll(kinder).error
    ensures r.Ok? ==>
      && r.value.children == Group(ConvertAll(kinder).value)
      && r.value.childrenCount == |r.value.children|
      && K.Summarises(korrekturen, r.value.correction)
      && r.value.contractBooking == a.vertragsBuchung && r.value.correctionBooking == a.korrekturBuchung
      && r.value.facilityName == e.name && r.value.facilityTotal == e.summe && r.value.surcharges == Surcharges(e)
  {
    assert ConvertAll(kinder[..0]) == Ok([]) && Group([]) == [];
    hide LineOf, AddLine, K.Summarises, ConvertAll, Group, IndexOf;
    var korrektur := K.SummarizeKorrektur(korrekturen);
    var children: seq<Child> := [];
    var indexByVoucher: map<string, nat> := map[];
    ghost var lines: seq<Line> := [];
    for i := 0 to |kinder|
      invariant ConvertAll(kinder[..i]) == Ok(lines)
      invariant children == Group(lines) && Indexes(indexByVoucher, children)
    {
      var line := ConvertChild(kinder[i]);
      ConvertNext(kinder, i);
      if line.Err? {
        FirstErrorStays(kinder, i + 1);
        return Err(line.error);
      }
      GroupNext(lines, line.value);
      children, indexByVoucher := AddToChildren(children, indexByVoucher, line.value);
      lines := lines + [line.value];
    }
    assert kinder[..|kinder|] == kinder;
    r := Ok(Settlement(e.name, e.summe, a.vertragsBuchung, a.korrekturBuchung, korrektur,
                       |children|, Surcharges(e), children));
  }

  // ----- conservation of money over the whole bill

  lemma {:induction false} LinesBalanced(kinder: seq<Kind>)
    requires ConvertAll(kinder).Ok?
    ensures forall l :: l in ConvertAll(kinder).value ==> Balanced(l)
    ensures LineTotals(ConvertAll(kinder).value) == SumSumme(kinder)
  {
    hide LineOf, Balanced;
    if kinder != [] {
      var n := |kinder| - 1;
      LinesBalanced(kinder[..n]);
      LineBalanced(kinder[n]);
      var lines := ConvertAll(kinder).value;
      assert lines[..n] == ConvertAll(kinder[..n]).value;
    }
  }

  /**
   For every bill that converts, the amounts emitted over all children and rows, the children's totals and
   the stated row totals are one and the same sum; for one that also reconciles it is the contract booking.
   */
  lemma MoneyConserved(kinder: seq<Kind>, header: Abrechnung)
    requires ConvertAll(kinder).Ok?
    ensures var children := Group(ConvertAll(kinder).value);
            && EmittedAmounts(children) == ChildTotals(children) == SumSumme(kinder)
            && (SumSumme(kinder) == header.vertragsBuchung ==> EmittedAmounts(children) == header.vertragsBuchung)
  {
    LinesBalanced(kinder);
    GroupConserves(ConvertAll(kinder).value);
  }

  /** The row totals of the given sheet rows. */
  function SheetTotal(env: V.Env, g: Grid, layout: V.Layout, rows: seq<nat>): int
  {
    if rows == [] then 0
    else
      var n := |rows| - 1;
      var cell := CentsOf(env.parseFloat, V.TextOf(V.RowTexts(g, layout, rows[n]), AbrechnSumme));
      SheetTotal(env, g, layout, rows[..n]) + if cell.Some? then cell.value else 0
  }

  lemma {:induction false} ParsedTotal(env: V.Env, g: Grid, layout: V.Layout, rows: seq<nat>, kinder: seq<Kind>)
    requires V.ParsedRows(env, g, layout, rows, kinder)
    ensures SumSumme(kinder) == SheetTotal(env, g, layout, rows)
  {
    hide V.KindOf, V.RowTexts;
    if rows != [] {
      var n := |rows| - 1;
      ParsedTotal(env, g, layout, rows[..n], kinder[..n]);
      assert V.KindOf(env, V.RowTexts(g, layout, rows[n]), rows[n]) == Ok(kinder[n]);
    }
  }

  /** Every check between the sheets and the settlement has passed. */
  ghost predicate Accepted(env: V.Env, vertrag: Grid, abrechnung: Grid, kinder: seq<Kind>, header: Abrechnung)
  {
    && V.Parsed(env, vertrag) == Ok(kinder)
    && AbrechnungOf(env.parseFloat, abrechnung) == Some(header)
    && SumSumme(kinder) == header.vertragsBuchung
    && ConvertAll(kinder).Ok?
  }

  /**
   From sheet to settlement: what is emitted is the total column over all voucher rows of the table, and that is
   the figure stated under Vertragsbuchung.
   */
  lemma SheetToSettlement(env: V.Env, vertrag: Grid, abrechnung: Grid, kinder: seq<Kind>, header: Abrechnung)
    requires Accepted(env, vertrag, abrechnung, kinder, header)
    ensures V.Discover(vertrag).Ok?
    ensures var c := V.Discover(vertrag).value;
            var rows := V.TableRows(vertrag, c.layout[GutscheinNr], c.dataStart);
            && EmittedAmounts(Group(ConvertAll(kinder).value)) == SheetTotal(env, vertrag, c.layout, rows)
            && SheetTotal(env, vertrag, c.layout, rows) == header.vertragsBuchung
            && StatedUnder(env.parseFloat, abrechnung, "Vertragsbuchung", SheetTotal(env, vertrag, c.layout, rows))
  {
    hide V.Discover, V.Parsed, V.TableRows, SheetTotal, Group, AbrechnungOf, StatedUnder;
    AbrechnungIff(env.parseFloat, abrechnung, header);
    V.ParsedIffWholeTable(env, vertrag, kinder);
    var c := V.Discover(vertrag).value;
    ParsedTotal(env, vertrag, c.layout, V.TableRows(vertrag, c.layout[GutscheinNr], c.dataStart), kinder);
    MoneyConserved(kinder, header);
  }

  // ----- the whole upload

  /** The sheets of a workbook; the correction sheet may be missing. */
  datatype Workbook = Workbook(einrichtung: Grid, abrechnung: Grid, vertrag: Grid, korrektur: Option<Grid>)

  datatype Env = Env(rows: V.Env, corrections: K.Env, parseMonth: MonthParser)

  datatype BillError =
    | BadFacility | BadHeader | BadSheet(sheet: SheetError) | BadBillingMonth | HeaderMismatch(sum: int, stated: int)
    | BadRow(row: RowError)

  /** Why a workbook is refused, if it is: the checks in their order. The correction sheet does not occur. */
  function Refusal(env: Env, b: Workbook): Option<BillError>
  {
    if EinrichtungOf(env.rows.parseFloat, b.einrichtung).None? then Some(BadFacility)
    else
      match AbrechnungOf(env.rows.parseFloat, b.abrechnung)
      case None => Some(BadHeader)
      case Some(header) =>
        match V.Parsed(env.rows, b.vertrag)
        case Err(e) => Some(BadSheet(e))
        case Ok(kinder) =>
          if BillingMonthOf(env.parseMonth, b.einrichtung).None? then Some(BadBillingMonth)
          else if SumSumme(kinder) != header.vertragsBuchung then
            Some(HeaderMismatch(SumSumme(kinder), header.vertragsBuchung))
          else match ConvertAll(kinder) case Err(e) => Some(BadRow(e)) case Ok(_) => None
  }

  ghost predicate HasFacility(parse: FloatParser, g: Grid)
  {
    exists e :: FacilityReads(parse, g, e)
  }

  ghost predicate HasHeader(parse: FloatParser, g: Grid)
  {
    exists v, k :: StatedUnder(parse, g, "Vertragsbuchung", v) && StatedUnder(parse, g, "Korrekturbuchung", k)
  }

  ghost predicate HasMonth(parse: MonthParser, g: Grid)
  {
    exists p, k, m :: MonthBelow(parse, g, p, k, m)
  }

  lemma FacilityHas(parse: FloatParser, g: Grid)
    ensures EinrichtungOf(parse, g).Some? <==> HasFacility(parse, g)
  {
    hide EinrichtungOf, FacilityReads;
    forall e ensures EinrichtungOf(parse, g) == Some(e) <==> FacilityReads(parse, g, e) { EinrichtungIff(parse, g, e); }
    if EinrichtungOf(parse, g).Some? {
      assert FacilityReads(parse, g, EinrichtungOf(parse, g).value);
    }
  }

  lemma HeaderHas(parse: FloatParser, g: Grid)
    ensures AbrechnungOf(parse, g).Some? <==> HasHeader(parse, g)
  {
    hide AbrechnungOf, StatedUnder;
    if AbrechnungOf(parse, g).Some? {
      AbrechnungIff(parse, g, AbrechnungOf(parse, g).value);
    }
    forall v, k | StatedUnder(parse, g, "Vertragsbuchung", v) && StatedUnder(parse, g, "Korrekturbuchung", k)
      ensures AbrechnungOf(parse, g).Some?
    {
      AbrechnungIff(parse, g, Abrechnung(v, k));
    }
  }

  lemma MonthHas(parse: MonthParser, g: Grid)
    ensures BillingMonthOf(parse, g).Some? <==> HasMonth(parse, g)
  {
    hide BillingMonthOf, MonthBelow;
    if BillingMonthOf(parse, g).Some? {
      BillingMonthIff(parse, g, BillingMonthOf(parse, g).value);
    }
    forall p, k, m | MonthBelow(parse, g, p, k, m) ensures BillingMonthOf(parse, g).Some? {
      BillingMonthIff(parse, g, m);
    }
  }

  /** The first check that fails is the reason, and it is a failure on the sheets. */
  lemma RefusalMeans(env: Env, b: Workbook)
    ensures var parse := env.rows.parseFloat;
            var facility := HasFacility(parse, b.einrichtung);
            var header := HasHeader(parse, b.abrechnung);
            var month := HasMonth(env.parseMonth, b.einrichtung);
            var parsed := V.Parsed(env.rows, b.vertrag);
            match Refusal(env, b)
            case Some(BadFacility) => !facility
            case Some(BadHeader) => facility && !header
            case Some(BadSheet(e)) => facility && header && parsed == Err(e)
            case Some(BadBillingMonth) => facility && header && parsed.Ok? && !month
            case Some(HeaderMismatch(sum, stated)) =>
              && facility && header && parsed.Ok? && month && sum == SumSumme(parsed.value)
              && StatedUnder(parse, b.abrechnung, "Vertragsbuchung", stated) && sum != stated
            case Some(BadRow(e)) =>
              && facility && header && parsed.Ok? && month && ConvertAll(parsed.value) == Err(e)
              && StatedUnder(parse, b.abrechnung, "Vertragsbuchung", SumSumme(parsed.value))
            case None =>
              && facility && header && parsed.Ok? && month && ConvertAll(parsed.value).Ok?
              && StatedUnder(parse, b.abrechnung, "Vertragsbuchung", SumSumme(parsed.value))
  {
    hide V.Parsed, AbrechnungOf, EinrichtungOf, BillingMonthOf, ConvertAll, SumSumme, StatedUnder, HasFacility,
         HasHeader, HasMonth;
    var parse := env.rows.parseFloat;
    FacilityHas(parse, b.einrichtung);
    HeaderHas(parse, b.abrechnung);
    MonthHas(env.parseMonth, b.einrichtung);
    if AbrechnungOf(parse, b.abrechnung).Some? {
      AbrechnungIff(parse, b.abrechnung, AbrechnungOf(parse, b.abrechnung).value);
    }
  }

  const NO_CORRECTION := K.Summary(0, 0, "")

  /** The settlement of an accepted workbook but for what the correction sheet adds to it. */
  function SettlementOf(env: Env, b: Workbook): Settlement
    requires Refusal(env, b).None?
  {
    hide V.Parsed, AbrechnungOf, EinrichtungOf, BillingMonthOf, ConvertAll, SumSumme, Group;
    var e := EinrichtungOf(env.rows.parseFloat, b.einrichtung).value;
    var header := AbrechnungOf(env.rows.parseFloat, b.abrechnung).value;
    var children := Group(ConvertAll(V.Parsed(env.rows, b.vertrag).value).value);
    Settlement(e.name, e.summe, header.vertragsBuchung, header.korrekturBuchung, NO_CORRECTION,
               |children|, Surcharges(e), children)
  }

  /** An accepted workbook emits the total column over all voucher rows of its table. */
  lemma UploadEmitsTotalColumn(env: Env, b: Workbook)
    requires Refusal(env, b).None?
    ensures V.Discover(b.vertrag).Ok?
    ensures var c := V.Discover(b.vertrag).value;
            var rows := V.TableRows(b.vertrag, c.layout[GutscheinNr], c.dataStart);
            EmittedAmounts(SettlementOf(env, b).children) == SheetTotal(env.rows, b.vertrag, c.layout, rows)
  {
    hide V.Discover, V.Parsed, V.TableRows, SheetTotal, Group, AbrechnungOf, EinrichtungOf, BillingMonthOf,
         ConvertAll, SumSumme;
    SheetToSettlement(env.rows, b.vertrag, b.abrechnung, V.Parsed(env.rows, b.vertrag).value,
                      AbrechnungOf(env.rows.parseFloat, b.abrechnung).value);
  }

  /** What the correction sheet contributes: its rows if they were checked, and otherwise nothing. */
  ghost predicate Contributes(env: K.Env, sheet: Option<Grid>, correction: K.Summary)
  {
    exists d :: K.ReadsSheet(env, sheet, d) && K.Summarises(if d.Checked? then d.posten else [], correction)
  }

  /** A correction sheet that is missing, has nothing to report or is broken contributes nothing. */
  lemma UncheckedContributesNothing(env: K.Env, sheet: Option<Grid>, d: K.Detail, correction: K.Summary)
    requires K.ReadsSheet(env, sheet, d) && !d.Checked?
    ensures Contributes(env, sheet, correction) <==> correction == NO_CORRECTION
  {
    hide K.Reads;
    K.NothingSummarised(correction);
    forall e | K.ReadsSheet(env, sheet, e) ensures e == d { K.ReadsSheetUnique(env, sheet, d, e); }
  }

  /** The name, the stated total and the surcharges are those of the facility sheet. */
  ghost predicate FromFacility(parse: FloatParser, g: Grid, s: Settlement)
  {
    exists e :: FacilityReads(parse, g, e) && s.facilityName == e.name && s.facilityTotal == e.summe
                && s.surcharges == Surcharges(e)
  }

  /**
   A whole upload. Whether it is refused, why, and everything it emits depends on the other sheets alone; the
   correction sheet only adds its summary.
   */
  method ImportBill(env: Env, b: Workbook) returns (r: Result<Settlement, BillError>, month: Month)
    ensures r.Err? <==> Refusal(env, b).Some?
    ensures r.Err? ==> Some(r.error) == Refusal(env, b)
    ensures r.Ok? ==> r.value == SettlementOf(env, b).(correction := r.value.correction)
    ensures r.Ok? ==>
      && StatedUnder(env.rows.parseFloat, b.abrechnung, "Vertragsbuchung", EmittedAmounts(r.value.children))
      && StatedUnder(env.rows.parseFloat, b.abrechnung, "Korrekturbuchung", r.value.correctionBooking)
      && FromFacility(env.rows.parseFloat, b.einrichtung, r.value)
      && r.value.childrenCount == |r.value.children|
    ensures r.Ok? ==> Contributes(env.corrections, b.korrektur, r.value.correction)
    ensures r.Ok? ==> EmittedAmounts(r.value.children) == ChildTotals(r.value.children) == r.value.contractBooking
    ensures r.Ok? ==> exists p, k :: MonthBelow(env.parseMonth, b.einrichtung, p, k, month)
  {
    hide V.Parsed, AbrechnungOf, Group, EinrichtungOf, BillingMonthOf, K.ReadsSheet, K.Summarises, SumSumme, ConvertAll,
         StatedUnder, FacilityReads, MonthBelow, Surcharges;
    month := 0;
    var e := EinrichtungOf(env.rows.parseFloat, b.einrichtung);
    if e.None? { return Err(BadFacility), month; }
    var header := ParseAbrechnung(env.rows.parseFloat, b.abrechnung);
    if header.None? { return Err(BadHeader), month; }
    var kinder := V.ParseVertrag(env.rows, b.vertrag);
    if kinder.Err? { return Err(BadSheet(kinder.error)), month; }
    var m := ParseBillingMonth(env.parseMonth, b.einrichtung);
    if m.None? { return Err(BadBillingMonth), month; }
    var ok := ReconcileAgainstHeader(kinder.value, header.value);
    if !ok { return Err(HeaderMismatch(SumSumme(kinder.value), header.value.vertragsBuchung)), month; }
    var detail := K.ParseKorrektur(env.corrections, b.korrektur);
    var korrekturen := if detail.Checked? then detail.posten else [];
    var s := Convert(e.value, header.value, kinder.value, korrekturen);
    if s.Err? { return Err(BadRow(s.error)), month; }
    MoneyConserved(kinder.value, header.value);
    EinrichtungIff(env.rows.parseFloat, b.einrichtung, e.value);
    BillingMonthIff(env.parseMonth, b.einrichtung, m.value);
    r, month := Ok(s.value), m.value;
  }

  // ----- no intermediate sum leaves 64 bits

  /** The cap on the rows of a sheet. */
  const MAX_ROWS := 100000

  lemma {:induction false} AmountsBound(amounts: Amounts)
    requires forall a :: a in amounts ==> -0x1_0000_0000 <= a.amount <= 0x1_0000_0000
    ensures -0x1_0000_0000 * |amounts| <= Sum(amounts) <= 0x1_0000_0000 * |amounts|
  {
    if amounts != [] {
      var n := |amounts| - 1;
      assert forall a :: a in amounts[..n] ==> a in amounts;
      AmountsBound(amounts[..n]);
      assert amounts[n] in amounts;
    }
  }

  lemma {:induction false} SummeBound(kinder: seq<Kind>)
    requires forall k :: k in kinder ==> InInt32(k.summe)
    ensures -0x8000_0000 * |kinder| <= SumSumme(kinder) <= 0x8000_0000 * |kinder|
  {
    if kinder != [] {
      var n := |kinder| - 1;
      assert forall k :: k in kinder[..n] ==> k in kinder;
      SummeBound(kinder[..n]);
      assert kinder[n] in kinder;
    }
  }

  lemma {:induction false} TotalsBound(lines: seq<Line>, voucher: string)
    requires forall l :: l in lines ==> InInt32(l.row.total)
    ensures -0x8000_0000 * |lines| <= SumTotals(RowsOf(lines, voucher)) <= 0x8000_0000 * |lines|
  {
    if lines != [] {
      var n := |lines| - 1;
      assert forall l :: l in lines[..n] ==> l in lines;
      TotalsBound(lines[..n], voucher);
      assert lines[n] in lines;
      SumTotalsSnoc(RowsOf(lines[..n], voucher), lines[n].row);
      assert RowsOf(lines[..n], voucher) + [] == RowsOf(lines[..n], voucher);
    }
  }

  /** Summing the entries of one row, and taking the difference to its total, stays within 64 bits. */
  lemma RowSumsFit(k: Kind, n: nat)
    requires V.CellsInInt32(k) && k.betreuungsumfang in CARE_SCOPE && n <= |Nonempty(AllAmounts(k))|
    ensures InInt64(Sum(Nonempty(AllAmounts(k))[..n])) && InInt64(k.summe - Sum(Nonempty(AllAmounts(k))[..n]))
  {
    var amounts := Nonempty(AllAmounts(k));
    forall a | a in amounts[..n] ensures -0x1_0000_0000 <= a.amount <= 0x1_0000_0000 {
      NonemptyMembers(AllAmounts(k), a);
    }
    AmountsBound(amounts[..n]);
    NonemptyLength(AllAmounts(k));
  }

  lemma {:induction false} NonemptyLength(amounts: Amounts)
    ensures |Nonempty(amounts)| <= |amounts|
  {
    if amounts != [] { NonemptyLength(amounts[..|amounts| - 1]); }
  }

  lemma ChildTotalsFit(lines: seq<Line>, c: Child)
    requires (forall l :: l in lines ==> InInt32(l.row.total)) && |lines| <= MAX_ROWS && c in Group(lines)
    ensures InInt64(c.total)
  {
    hide Group, RowsOf, SumTotals;
    GroupIsStablePartition(lines);
    TotalsBound(lines, c.voucher);
  }

  lemma LineTotalsFit(kinder: seq<Kind>)
    requires ConvertAll(kinder).Ok? && forall k :: k in kinder ==> InInt32(k.summe)
    ensures forall l :: l in ConvertAll(kinder).value ==> InInt32(l.row.total)
  {
    hide ConvertAll;
    var lines := ConvertAll(kinder).value;
    forall l | l in lines ensures InInt32(l.row.total) {
      var i :| 0 <= i < |lines| && lines[i] == l;
      LineFrom(kinder, i);
      assert kinder[i] in kinder;
    }
  }

  lemma KinderSumsFit(kinder: seq<Kind>, n: nat)
    requires (forall k :: k in kinder ==> V.CellsInInt32(k)) && |kinder| <= MAX_ROWS && n <= |kinder|
    ensures InInt64(SumSumme(kinder[..n]))
    ensures ConvertAll(kinder[..n]).Ok? ==>
              forall c :: c in Group(ConvertAll(kinder[..n]).value) ==> InInt64(c.total)
  {
    hide ConvertAll, Group, V.CellsInInt32, SumSumme;
    var prefix := kinder[..n];
    forall k | k in prefix ensures InInt32(k.summe) {
      assert k in kinder;
      CellsTotal(k);
    }
    SummeBound(prefix);
    if ConvertAll(prefix).Ok? {
      var lines := ConvertAll(prefix).value;
      LineTotalsFit(prefix);
      forall c | c in Group(lines) ensures InInt64(c.total) { ChildTotalsFit(lines, c); }
    }
  }

  lemma CellsTotal(k: Kind)
    requires V.CellsInInt32(k)
    ensures InInt32(k.summe)
  {
  }

  lemma {:induction false} LineFrom(kinder: seq<Kind>, i: nat)
    requires ConvertAll(kinder).Ok? && i < |kinder|
    ensures LineOf(kinder[i]) == Ok(ConvertAll(kinder).value[i])
    ensures ConvertAll(kinder).value[i].row.total == kinder[i].summe
  {
    hide LineOf;
    if i < |kinder| - 1 { LineFrom(kinder[..|kinder| - 1], i); } else { LineBalanced(kinder[i]); }
  }

  /** All rows convert, in their order, unless one is refused; then the first refusal is the error. */
  lemma {:induction false} ConvertAllIff(kinder: seq<Kind>)
    ensures ConvertAll(kinder).Ok? <==> forall i :: 0 <= i < |kinder| ==> LineOf(kinder[i]).Ok?
    ensures ConvertAll(kinder).Err? ==>
              exists i :: 0 <= i < |kinder| && LineOf(kinder[i]) == Err(ConvertAll(kinder).error)
                          && forall j :: 0 <= j < i ==> LineOf(kinder[j]).Ok?
  {
    hide LineOf;
    if kinder != [] {
      var n := |kinder| - 1;
      ConvertAllIff(kinder[..n]);
      assert forall i :: 0 <= i < n ==> kinder[..n][i] == kinder[i];
      if ConvertAll(kinder).Err? {
        if ConvertAll(kinder[..n]).Err? {
          var i :| 0 <= i < n && LineOf(kinder[..n][i]) == Err(ConvertAll(kinder[..n]).error)
                   && forall j :: 0 <= j < i ==> LineOf(kinder[..n][j]).Ok?;
          assert LineOf(kinder[i]) == Err(ConvertAll(kinder).error);
        } else {
          assert LineOf(kinder[n]) == Err(ConvertAll(kinder).error);
        }
      }
    }
  }

  /** No amount cell of a voucher row parses as NaN. */
  ghost predicate TableNanFree(env: V.Env, g: Grid)
    requires V.Discover(g).Ok?
  {
    var c := V.Discover(g).value;
    forall row :: row in V.TableRows(g, c.layout[GutscheinNr], c.dataStart) ==>
      V.NanFree(env, V.RowTexts(g, c.layout, row))
  }

  lemma {:induction false} VoucherRowsWithin(g: Grid, col: nat, r: nat, e: nat)
    ensures |V.VoucherRows(g, col, r, e)| <= if r <= e then e - r else 0
    decreases e - r
  {
    hide V.IsVoucher;
    if r < e { VoucherRowsWithin(g, col, r + 1, e); }
  }

  /** Every parsed row is a row of the sheet, and its amounts fit 32 bits unless a cell parses as NaN. */
  lemma ParsedWithin(env: V.Env, g: Grid, kinder: seq<Kind>)
    requires V.Parsed(env, g) == Ok(kinder)
    ensures |kinder| <= |g| && V.Discover(g).Ok?
    ensures TableNanFree(env, g) ==> forall k :: k in kinder ==> V.CellsInInt32(k)
  {
    hide V.Parsed, V.Discover, V.VoucherRows, V.KindOf, V.CellsInInt32, V.NanFree, V.RowTexts;
    V.ParsedIffWholeTable(env, g, kinder);
    var c := V.Discover(g).value;
    var col := c.layout[GutscheinNr];
    VoucherRowsWithin(g, col, c.dataStart, V.TableEnd(g, col, c.dataStart));
    var rows := V.TableRows(g, col, c.dataStart);
    if TableNanFree(env, g) {
      forall k | k in kinder ensures V.CellsInInt32(k) {
        var i :| 0 <= i < |kinder| && kinder[i] == k;
        assert rows[i] in rows;
        V.CellsFitIff(env, V.RowTexts(g, c.layout, rows[i]), rows[i]);
      }
    }
  }

  /**
   For a parsed sheet within the row cap and without NaN cells, the header sum and every child's total fit 64
   bits at every step.
   */
  lemma BillSumsFit(env: V.Env, g: Grid, kinder: seq<Kind>, n: nat)
    requires V.Parsed(env, g) == Ok(kinder) && |g| <= MAX_ROWS && V.Discover(g).Ok? && TableNanFree(env, g)
    requires n <= |kinder|
    ensures InInt64(SumSumme(kinder[..n]))
    ensures ConvertAll(kinder[..n]).Ok? ==>
              forall c :: c in Group(ConvertAll(kinder[..n]).value) ==> InInt64(c.total)
  {
    hide ConvertAll, Group, SumSumme, V.Parsed, V.Discover, V.CellsInInt32, TableNanFree;
    ParsedWithin(env, g, kinder);
    KinderSumsFit(kinder, n);
  }

  lemma {:induction false} ColumnTotalBound(parse: FloatParser, g: Grid, col: nat, r: nat, e: nat)
    requires r <= e && ColumnTotal(parse, g, col, r, e).Some?
    requires forall i :: r <= i < e ==> !ReadsNaN(parse, CellText(g, i, col))
    ensures -0x8000_0000 * (e - r) <= ColumnTotal(parse, g, col, r, e).value <= 0x8000_0000 * (e - r)
  {
    hide CentsOf, CellText, ReadsNaN;
    if r < e {
      ColumnTotalBound(parse, g, col, r, e - 1);
      CentsFitIff(parse, CellText(g, e - 1, col));
    }
  }

  /** Summing a header column by hand stays within 64 bits at every row. */
  lemma ColumnTotalFits(parse: FloatParser, g: Grid, col: nat, r: nat, e: nat)
    requires e <= |g| <= MAX_ROWS && ColumnTotal(parse, g, col, r, e).Some?
    requires forall i :: r <= i < e ==> !ReadsNaN(parse, CellText(g, i, col))
    ensures InInt64(ColumnTotal(parse, g, col, r, e).value)
  {
    hide CellText, ReadsNaN;
    if r <= e { ColumnTotalBound(parse, g, col, r, e); }
  }

  lemma {:induction false} CorrectionBound(env: K.Env, g: Grid, c: K.Columns, r: nat, t: nat)
    requires r <= t && forall i :: r <= i < t ==> !ReadsNaN(env.parseFloat, CellText(g, i, c.betrag))
    ensures -0x8000_0000 * (t - r) <= K.ColumnSum(env, g, c, r, t) <= 0x8000_0000 * (t - r)
  {
    hide CentsOf, CellText, ReadsNaN;
    if r < t {
      CorrectionBound(env, g, c, r, t - 1);
      CentsFitIff(env.parseFloat, CellText(g, t - 1, c.betrag));
    }
  }

  /** So does the running total of the correction rows. */
  lemma CorrectionSumsFit(env: K.Env, g: Grid, c: K.Columns, r: nat, t: nat)
    requires r <= t <= |g| <= MAX_ROWS && K.Readable(env, g, c, r, t)
    requires forall i :: r <= i < t ==> !ReadsNaN(env.parseFloat, CellText(g, i, c.betrag))
    ensures InInt64(K.SumPosten(K.Entries(env, g, c, r, t)))
  {
    hide CellText, ReadsNaN, K.Entries, K.SumPosten, K.ColumnSum;
    K.EntriesSum(env, g, c, r, t);
    CorrectionBound(env, g, c, r, t);
  }
}
