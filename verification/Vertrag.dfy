/**
 The contract sheet: column discovery by header, the row parser, and the table scan. A scan that succeeds has
 read the whole table.
 */
module Vertrag {
  import opened Text
  import opened Numbers
  import opened Money
  import opened Decimal
  import opened Bill
  import opened Sheet

  // ----- column discovery

  type Layout = map<Field, nat>

  const OPTIONAL: set<Field> := {Monat, Typ}

  const REQUIRED: set<Field> :=
    {GutscheinNr, NameDesKindes, GebDatum, QM, MSS, Hs, Integration, RegistrAb, BetreuUmfang, Bezirk,
     BasisEntgelt, AbzugOM, ElternBetreuung, ElternEssen, BuT, AnteilBezirk, ZuschlagQM, ZuschlagMSS,
     ZuschlagNDH, ZuschlagIntegration, AbrechnSumme}

  /** The column of a title, or of the older one that some files use instead. */
  function GetEither(m: ColumnMap, title: string, older: string): Option<nat>
  {
    if title in m then Some(m[title]) else if older in m then Some(m[older]) else None
  }

  /** Whether a field is titled in the sub-header row, its title, and the title of older files. */
  datatype Title = Title(inSub: bool, text: string, older: string)

  function TitleOf(f: Field): Title
  {
    match f
    case Monat => Title(false, "Monat/ Typ", "Monat/ Typ")
    case Typ => Title(false, "Monat/ Typ", "Monat/ Typ")
    case GutscheinNr => Title(false, "GutscheinNr", "GutscheinNr")
    case NameDesKindes => Title(false, "Name des Kindes", "Name des Kindes")
    case GebDatum => Title(false, "Geb.-datum", "Geb.-datum")
    case QM => Title(false, "QM", "QM")
    case MSS => Title(false, "MSS", "MSS")
    case Hs => Title(false, "Hs", "Hs")
    case Integration => Title(false, "SpH", "SpH")
    case RegistrAb => Title(false, "Registr. ab", "Registr. ab")
    case BetreuUmfang => Title(false, "Betreu.-umfang", "Betreu.-umfang")
    case Bezirk => Title(false, "Be-zirk", "Be-zirk")
    case BasisEntgelt => Title(false, "Basis-entgelt", "Basis-entgelt")
    case AbzugOM => Title(false, "Abzug o.M.", "Abzug o.M.")
    case ElternBetreuung => Title(true, "Betreuung", "Betr.")
    case ElternEssen => Title(true, "Essen", "Essen")
    case BuT => Title(false, "BuT", "BuT")
    case AnteilBezirk => Title(false, "Anteil Bezirk", "Anteil Bezirk")
    case ZuschlagQM => Title(true, "QM", "QM")
    case ZuschlagMSS => Title(true, "MSS", "MSS")
    case ZuschlagNDH => Title(true, "ndH", "NdHs")
    case ZuschlagIntegration => Title(true, "SpH", "SpH")
    case AbrechnSumme => Title(false, "Abrechn.-summe", "Abrechn.-summe")
  }

  /** Where a field lives, given the header row, the sub-header row and the columns titled "BuT". */
  function ColumnOf(f: Field, header: ColumnMap, sub: ColumnMap, voucherCol: nat, butCols: seq<nat>): Option<nat>
  {
    var t := TitleOf(f);
    var titled := GetEither(if t.inSub then sub else header, t.text, t.older);
    match f
    case GutscheinNr => Some(voucherCol)
    case Typ => if titled.Some? then Some(titled.value + 1) else None
    case BuT => if |butCols| >= 2 then Some(butCols[1]) else if |butCols| == 1 then Some(butCols[0]) else titled
    case _ => titled
  }

  function LayoutOf(header: ColumnMap, sub: ColumnMap, voucherCol: nat, butCols: seq<nat>): Layout
  {
    map f | f in OPTIONAL + REQUIRED && ColumnOf(f, header, sub, voucherCol, butCols).Some?
      :: ColumnOf(f, header, sub, voucherCol, butCols).value
  }

  /** The row below, or nothing at the end of the sheet. */
  function RowBelow(g: Grid, row: nat): seq<string>
  {
    if row + 1 < |g| then g[row + 1] else []
  }

  /** The columns found below a header cell. */
  function LayoutAt(g: Grid, p: Pos): Layout
    requires p.row < |g|
  {
    var cells, sub := g[p.row], RowBelow(g, p.row);
    LayoutOf(MapBelow(cells, |cells|), MapBelow(sub, |sub|), p.col, ColumnsTitled(cells, "BuT", |cells|))
  }

  function Missing(layout: Layout): set<Field>
  {
    set f | f in REQUIRED && f !in layout
  }

  /** A voucher number: GB-, eleven digits, -, two digits. */
  predicate IsVoucher(s: string)
  {
    && |s| == 17 && s[..3] == "GB-" && s[14] == '-'
    && (forall i :: 3 <= i < 14 ==> IsDigit(s[i]))
    && (forall i :: 15 <= i < 17 ==> IsDigit(s[i]))
  }

  /** The form of a voucher number, piece by piece. */
  lemma VoucherIff(s: string)
    ensures IsVoucher(s) <==> exists a, b :: VoucherOf(s, a, b)
  {
    if IsVoucher(s) {
      assert VoucherOf(s, s[3..14], s[15..]);
    }
    forall a, b | VoucherOf(s, a, b) ensures IsVoucher(s) {
      assert s[..3] == "GB-";
      assert forall i :: 3 <= i < 14 ==> s[i] == a[i - 3] && a[i - 3] in a;
      assert forall i :: 15 <= i < 17 ==> s[i] == b[i - 15] && b[i - 15] in b;
    }
  }

  ghost predicate VoucherOf(s: string, a: string, b: string)
  {
    s == "GB-" + a + "-" + b && |a| == 11 && |b| == 2 && (forall c :: c in a + b ==> IsDigit(c))
  }

  predicate HasVoucher(cells: seq<string>)
  {
    exists j :: 0 <= j < |cells| && IsVoucher(TrimSpace(cells[j]))
  }

  /** The first row at or after r in which any cell holds a voucher number, or |g|. */
  function FirstVoucherRow(g: Grid, r: nat): (f: nat)
    requires r <= |g|
    ensures r <= f <= |g|
    ensures f < |g| ==> HasVoucher(g[f])
    ensures forall i :: r <= i < f ==> !HasVoucher(g[i])
    decreases |g| - r
  {
    if r == |g| || HasVoucher(g[r]) then r else FirstVoucherRow(g, r + 1)
  }

  datatype Columns = Columns(layout: Layout, headerRow: nat, dataStart: nat)

  function Discover(g: Grid): (r: Result<Columns, SheetError>)
    ensures r.Ok? ==> r.value.headerRow < r.value.dataStart < |g| && GutscheinNr in r.value.layout
  {
    var hits := Hits(g, "GutscheinNr", |g|);
    if |hits| != 1 then Err(HeaderFound(|hits|))
    else
      assert hits[0] in hits;
      var layout, start := LayoutAt(g, hits[0]), FirstVoucherRow(g, hits[0].row + 1);
      if Missing(layout) != {} then Err(MissingColumns(Missing(layout)))
      else if start == |g| then Err(NoVoucherRows)
      else Ok(Columns(layout, hits[0].row, start))
  }

  /** The cell at col carries the title. */
  predicate Titled(cells: seq<string>, col: nat, t: Title)
  {
    && col < |cells|
    && (NormalizeHeaderCell(cells[col]) == t.text || NormalizeHeaderCell(cells[col]) == t.older)
  }

  lemma EitherTitled(cells: seq<string>, t: Title)
    ensures var c := GetEither(MapBelow(cells, |cells|), t.text, t.older); c.Some? ==> Titled(cells, c.value, t)
  {
    hide MapBelow, NormalizeHeaderCell;
    MapFindsLast(cells, |cells|, t.text);
    MapFindsLast(cells, |cells|, t.older);
  }

  lemma ButTitled(cells: seq<string>, i: nat)
    requires i < |ColumnsTitled(cells, "BuT", |cells|)|
    ensures Titled(cells, ColumnsTitled(cells, "BuT", |cells|)[i], Title(false, "BuT", "BuT"))
  {
    hide TrimSpace, ColumnsTitled, NormalizeHeaderCell;
    TitledMembers(cells, "BuT", |cells|, i);
    NormalizeAfterTrim(cells[ColumnsTitled(cells, "BuT", |cells|)[i]]);
    assert NoLineBreaks("BuT") == "BuT";
  }

  /** The rule for a field finds nothing but cells that carry its title. */
  lemma ColumnOfTitled(f: Field, cells: seq<string>, sub: seq<string>, col: nat)
    requires f != GutscheinNr && f != Typ
    ensures var but := ColumnsTitled(cells, "BuT", |cells|);
            var c := ColumnOf(f, MapBelow(cells, |cells|), MapBelow(sub, |sub|), col, but);
            c.Some? ==> Titled(if TitleOf(f).inSub then sub else cells, c.value, TitleOf(f))
  {
    ButTitle();
    hide MapBelow, ColumnsTitled, Titled, TitleOf;
    EitherTitled(if TitleOf(f).inSub then sub else cells, TitleOf(f));
    var but := ColumnsTitled(cells, "BuT", |cells|);
    if |but| >= 1 { ButTitled(cells, 0); }
    if |but| >= 2 { ButTitled(cells, 1); }
  }

  lemma ButTitle()
    ensures TitleOf(BuT) == Title(false, "BuT", "BuT")
  {
  }

  /** An accepted layout has every required field, and each field where the rule for it says. */
  lemma DiscoverUsesRules(g: Grid, f: Field) returns (col: nat)
    requires Discover(g).Ok?
    ensures f in REQUIRED ==> f in Discover(g).value.layout
    ensures var c := Discover(g).value;
            var cells, sub := g[c.headerRow], RowBelow(g, c.headerRow);
            var but := ColumnsTitled(cells, "BuT", |cells|);
            && col < |cells| && Contains(cells[col], "GutscheinNr")
            && (f in c.layout ==>
                  ColumnOf(f, MapBelow(cells, |cells|), MapBelow(sub, |sub|), col, but) == Some(c.layout[f]))
  {
    hide MapBelow, ColumnsTitled, FirstVoucherRow, ColumnOf, Contains;
    var hits := Hits(g, "GutscheinNr", |g|);
    HitsContain(g, "GutscheinNr", |g|, hits[0]);
    hide Hits;
    col := hits[0].col;
    assert f in REQUIRED ==> f !in Missing(Discover(g).value.layout);
  }

  lemma NoColumns()
    ensures MapBelow([], 0) == map[]
  {
  }

  /** Every required figure is read below a cell that carries its own title; no renamed column slips through. */
  lemma ColumnsCarryTitles(g: Grid, f: Field)
    requires Discover(g).Ok? && f in Discover(g).value.layout && f != GutscheinNr && f != Typ
    ensures var c := Discover(g).value;
            Titled(if TitleOf(f).inSub then RowBelow(g, c.headerRow) else g[c.headerRow], c.layout[f], TitleOf(f))
  {
    hide Discover, MapBelow, ColumnsTitled, ColumnOf, Titled, TitleOf, RowBelow;
    var c := Discover(g).value;
    var col := DiscoverUsesRules(g, f);
    ColumnOfTitled(f, g[c.headerRow], RowBelow(g, c.headerRow), col);
  }

  /** The voucher column stands below a cell that mentions GutscheinNr. */
  lemma VoucherTitled(g: Grid)
    requires Discover(g).Ok?
    ensures var c := Discover(g).value;
            && c.layout[GutscheinNr] < |g[c.headerRow]|
            && 'G' in NormalizeHeaderCell(g[c.headerRow][c.layout[GutscheinNr]])
            && 'c' in NormalizeHeaderCell(g[c.headerRow][c.layout[GutscheinNr]])
  {
    hide Discover, MapBelow, ColumnsTitled, NormalizeHeaderCell;
    var c := Discover(g).value;
    var col := DiscoverUsesRules(g, GutscheinNr);
    var cell := g[c.headerRow][col];
    var i :| 0 <= i <= |cell| && OccursAt(cell, "GutscheinNr", i);
    assert cell[i] == cell[i..i + 11][0] == 'G' && cell[i + 4] == cell[i..i + 11][4] == 'c';
    NormalizeKeeps(cell, 'G');
    NormalizeKeeps(cell, 'c');
  }

  /** Length and first letter of a title. */
  function Mark(text: string): (nat, char)
    requires text != ""
  {
    (|text|, text[0])
  }

  function MarkOf(f: Field): (nat, char)
  {
    match f
    case Monat => (10, 'M')
    case Typ => (10, 'M')
    case GutscheinNr => (11, 'G')
    case NameDesKindes => (15, 'N')
    case GebDatum => (10, 'G')
    case QM => (2, 'Q')
    case MSS => (3, 'M')
    case Hs => (2, 'H')
    case Integration => (3, 'S')
    case RegistrAb => (11, 'R')
    case BetreuUmfang => (14, 'B')
    case Bezirk => (7, 'B')
    case BasisEntgelt => (13, 'B')
    case AbzugOM => (10, 'A')
    case ElternBetreuung => (9, 'B')
    case ElternEssen => (5, 'E')
    case BuT => (3, 'B')
    case AnteilBezirk => (13, 'A')
    case ZuschlagQM => (2, 'Q')
    case ZuschlagMSS => (3, 'M')
    case ZuschlagNDH => (3, 'n')
    case ZuschlagIntegration => (3, 'S')
    case AbrechnSumme => (14, 'A')
  }

  lemma TitleMarks(f: Field)
    ensures TitleOf(f).text != "" && Mark(TitleOf(f).text) == MarkOf(f)
    ensures TitleOf(f).older != ""
    ensures Mark(TitleOf(f).older) ==
              match f case ElternBetreuung => (5, 'B') case ZuschlagNDH => (4, 'N') case _ => MarkOf(f)
    ensures TitleOf(f).inSub <==>
              f in {ElternBetreuung, ElternEssen, ZuschlagQM, ZuschlagMSS, ZuschlagNDH, ZuschlagIntegration}
  {
  }

  /** No two fields of one header row share a title. */
  lemma TitlesDiffer(f: Field, h: Field)
    requires f != h && TitleOf(f).inSub == TitleOf(h).inSub && f != Typ && h != Typ
    ensures TitleOf(f).text != TitleOf(h).text && TitleOf(f).older != TitleOf(h).older
    ensures TitleOf(f).text != TitleOf(h).older && TitleOf(f).older != TitleOf(h).text
  {
    hide TitleOf;
    TitleMarks(f);
    TitleMarks(h);
  }

  lemma OlderTitle(f: Field)
    ensures TitleOf(f).older ==
              match f case ElternBetreuung => "Betr." case ZuschlagNDH => "NdHs" case _ => TitleOf(f).text
    ensures 'G' !in "Betr." && 'G' !in "NdHs"
  {
  }

  lemma NoGInSub(f: Field)
    requires TitleOf(f).inSub
    ensures 'G' !in TitleOf(f).text
  {
  }

  lemma NoGInTitles()
    ensures 'G' !in "Monat/ Typ" && 'G' !in "Registr. ab" && 'G' !in "Be-zirk" && 'G' !in "Abzug o.M."
    ensures 'G' !in "QM" && 'G' !in "MSS" && 'G' !in "Hs" && 'G' !in "SpH" && 'G' !in "BuT"
  {
  }

  lemma NoGInLongTitles()
    ensures 'G' !in "Name des Kindes" && 'G' !in "Betreu.-umfang" && 'G' !in "Basis-entgelt"
    ensures 'G' !in "Anteil Bezirk" && 'G' !in "Abrechn.-summe"
  {
  }

  lemma NoGInHeader(f: Field)
    requires !TitleOf(f).inSub && f != GutscheinNr && f != GebDatum
    ensures 'G' !in TitleOf(f).text
  {
    NoGInTitles();
    NoGInLongTitles();
  }

  /** None but the voucher's title has both a G and a c. */
  lemma VoucherTitle(f: Field)
    requires f != GutscheinNr
    ensures !('G' in TitleOf(f).text && 'c' in TitleOf(f).text)
    ensures !('G' in TitleOf(f).older && 'c' in TitleOf(f).older)
  {
    OlderTitle(f);
    if f == GebDatum {
      assert 'c' !in "Geb.-datum";
    } else if TitleOf(f).inSub {
      NoGInSub(f);
    } else {
      NoGInHeader(f);
    }
  }

  /**
   Two fields of an accepted layout share a column only if one is titled in the header row and the other in the
   sub-header row below it. Typ has no title of its own: it is the column after Monat.
   */
  lemma ColumnsDistinct(g: Grid, f: Field, h: Field)
    requires Discover(g).Ok? && f in Discover(g).value.layout && h in Discover(g).value.layout
    requires f != h && TitleOf(f).inSub == TitleOf(h).inSub && f != Typ && h != Typ
    ensures Discover(g).value.layout[f] != Discover(g).value.layout[h]
  {
    hide Discover, TitleOf, NormalizeHeaderCell, RowBelow;
    TitlesDiffer(f, h);
    if f != GutscheinNr { VoucherTitle(f); } else { VoucherTitle(h); }
    if f != GutscheinNr { ColumnsCarryTitles(g, f); }
    if h != GutscheinNr { ColumnsCarryTitles(g, h); }
    VoucherTitled(g);
    VoucherInHeader();
  }

  lemma VoucherInHeader()
    ensures !TitleOf(GutscheinNr).inSub
  {
  }

  // ----- which sheets have a layout, and which column a field gets

  /** The row in which the title of f is looked for, given the header row. */
  function TitleRow(g: Grid, h: nat, f: Field): seq<string>
    requires h < |g|
  {
    if TitleOf(f).inSub then RowBelow(g, h) else g[h]
  }

  /** Some cell of the right header row carries the title of f. */
  ghost predicate TitlePresent(g: Grid, h: nat, f: Field)
    requires h < |g|
  {
    exists c :: Titled(TitleRow(g, h, f), c, TitleOf(f))
  }

  lemma EitherPresent(cells: seq<string>, t: Title)
    requires t.text != "" && t.older != ""
    ensures GetEither(MapBelow(cells, |cells|), t.text, t.older).Some? <==> exists c :: Titled(cells, c, t)
  {
    hide MapBelow, NormalizeHeaderCell;
    EitherTitled(cells, t);
    MapFindsLast(cells, |cells|, t.text);
    MapFindsLast(cells, |cells|, t.older);
  }

  lemma LayoutAtKnows(g: Grid, p: Pos, f: Field)
    requires p.row < |g| && f in REQUIRED
    ensures f in LayoutAt(g, p) <==> f == GutscheinNr || TitlePresent(g, p.row, f)
  {
    ButTitle();
    TitleMarks(f);
    hide MapBelow, ColumnsTitled, Titled, TitleOf;
    var cells := g[p.row];
    EitherPresent(TitleRow(g, p.row, f), TitleOf(f));
    if |ColumnsTitled(cells, "BuT", |cells|)| >= 1 { ButTitled(cells, 0); }
  }

  /** Some cell of the row holds a voucher number. */
  ghost predicate ShowsVoucher(g: Grid, row: nat)
  {
    exists j: nat :: IsVoucher(CellText(g, row, j))
  }

  lemma ShowsVoucherIff(g: Grid, row: nat)
    requires row < |g|
    ensures ShowsVoucher(g, row) <==> HasVoucher(g[row])
  {
    hide IsVoucher, TrimSpace;
    BlankIsNoVoucher();
    forall j: nat | j < |g[row]| ensures CellText(g, row, j) == TrimSpace(g[row][j]) {}
    if HasVoucher(g[row]) {
      var j :| 0 <= j < |g[row]| && IsVoucher(TrimSpace(g[row][j]));
      assert IsVoucher(CellText(g, row, j));
    }
  }

  /** p is the voucher header of a sheet with all titles and a voucher row below. */
  ghost predicate HasLayout(g: Grid, p: Pos)
  {
    && OnlyCell(g, "GutscheinNr", p)
    && (forall f :: f in REQUIRED && f != GutscheinNr ==> TitlePresent(g, p.row, f))
    && exists row :: p.row < row < |g| && ShowsVoucher(g, row)
  }

  lemma DiscoverAt(g: Grid, p: Pos)
    requires HeaderAt(g, "GutscheinNr") == Some(p) && p.row < |g|
    ensures var layout, start := LayoutAt(g, p), FirstVoucherRow(g, p.row + 1);
            Discover(g) == if Missing(layout) != {} then Err(MissingColumns(Missing(layout)))
                           else if start == |g| then Err(NoVoucherRows)
                           else Ok(Columns(layout, p.row, start))
  {
    hide Hits, LayoutAt, FirstVoucherRow, Missing, Contains, TrimSpace;
  }

  lemma VoucherColumn(g: Grid, p: Pos)
    requires p.row < |g|
    ensures GutscheinNr in LayoutAt(g, p) && LayoutAt(g, p)[GutscheinNr] == p.col
  {
    hide MapBelow, ColumnsTitled, TitleOf;
  }

  lemma DiscoverAtIff(g: Grid, p: Pos)
    requires OnlyCell(g, "GutscheinNr", p)
    ensures Discover(g).Ok? <==> HasLayout(g, p)
    ensures Discover(g).Ok? ==>
              var c := Discover(g).value;
              p == Pos(c.headerRow, c.layout[GutscheinNr]) && c.dataStart == FirstVoucherRow(g, p.row + 1)
  {
    hide Discover, LayoutAt, Missing, TitlePresent, HasVoucher, ShowsVoucher, REQUIRED;
    forall row: nat | row < |g| ensures ShowsVoucher(g, row) <==> HasVoucher(g[row]) { ShowsVoucherIff(g, row); }
    HeaderAtIff(g, "GutscheinNr", p);
    DiscoverAt(g, p);
    VoucherColumn(g, p);
    MissingNone(LayoutAt(g, p));
    forall f | f in REQUIRED ensures f in LayoutAt(g, p) <==> f == GutscheinNr || TitlePresent(g, p.row, f) {
      LayoutAtKnows(g, p, f);
    }
  }

  lemma MissingNone(layout: Layout)
    ensures Missing(layout) == {} <==> forall f :: f in REQUIRED ==> f in layout
  {
    hide REQUIRED;
    assert forall f :: f in Missing(layout) <==> f in REQUIRED && f !in layout;
  }

  lemma DiscoverHeader(g: Grid)
    requires Discover(g).Ok?
    ensures HeaderAt(g, "GutscheinNr").Some? && HeaderAt(g, "GutscheinNr").value.row < |g|
  {
    hide LayoutAt, FirstVoucherRow, Contains;
    var hits := Hits(g, "GutscheinNr", |g|);
    hide Hits;
    assert |hits| == 1 && hits[0] in hits;
  }

  /**
   A layout is found exactly where GutscheinNr occurs once, every required title is present and a voucher row
   follows; the voucher column is that of the header, and the data starts at the first voucher row below.
   */
  lemma DiscoverIff(g: Grid)
    ensures Discover(g).Ok? <==> exists p :: HasLayout(g, p)
    ensures Discover(g).Ok? ==>
              var c := Discover(g).value;
              && HasLayout(g, Pos(c.headerRow, c.layout[GutscheinNr])) && ShowsVoucher(g, c.dataStart)
              && forall row :: c.headerRow < row < c.dataStart ==> !ShowsVoucher(g, row)
  {
    hide Discover, TitlePresent, HasVoucher, ShowsVoucher, REQUIRED, FirstVoucherRow, OnlyCell;
    forall row: nat | row < |g| ensures ShowsVoucher(g, row) <==> HasVoucher(g[row]) { ShowsVoucherIff(g, row); }
    if Discover(g).Ok? { DiscoverHeader(g); }
    forall p | OnlyCell(g, "GutscheinNr", p) ensures Discover(g).Ok? <==> HasLayout(g, p) { DiscoverAtIff(g, p); }
    if Discover(g).Ok? {
      var p := HeaderAt(g, "GutscheinNr").value;
      HeaderAtIff(g, "GutscheinNr", p);
      DiscoverAtIff(g, p);
    }
  }

  /** Without the one header, without titles or without a voucher row the matching error is returned. */
  lemma DiscoverErrs(g: Grid)
    ensures (forall p :: !OnlyCell(g, "GutscheinNr", p)) ==> Discover(g).Err? && Discover(g).error.HeaderFound?
    ensures forall p :: OnlyCell(g, "GutscheinNr", p) && Discover(g).Err? ==>
              if exists f :: f in REQUIRED && f != GutscheinNr && !TitlePresent(g, p.row, f) then
                && Discover(g).error.MissingColumns?
                && forall f :: f in Discover(g).error.fields <==>
                                 f in REQUIRED && f != GutscheinNr && !TitlePresent(g, p.row, f)
              else Discover(g) == Err(NoVoucherRows)
  {
    hide Hits, LayoutAt, TitlePresent, HasVoucher, REQUIRED, FirstVoucherRow, OnlyCell, Missing, Discover;
    forall p ensures HeaderAt(g, "GutscheinNr") == Some(p) <==> OnlyCell(g, "GutscheinNr", p) {
      HeaderAtIff(g, "GutscheinNr", p);
    }
    NoHeader(g);
    forall p | OnlyCell(g, "GutscheinNr", p) && Discover(g).Err?
      ensures if exists f :: f in REQUIRED && f != GutscheinNr && !TitlePresent(g, p.row, f) then
                && Discover(g).error.MissingColumns?
                && forall f :: f in Discover(g).error.fields <==>
                                 f in REQUIRED && f != GutscheinNr && !TitlePresent(g, p.row, f)
              else Discover(g) == Err(NoVoucherRows)
    {
      HeaderInside(g, p);
      DiscoverAt(g, p);
      MissingAre(g, p);
    }
  }

  lemma NoHeader(g: Grid)
    ensures HeaderAt(g, "GutscheinNr").None? ==> Discover(g).Err? && Discover(g).error.HeaderFound?
  {
    hide Hits, LayoutAt, FirstVoucherRow, Missing, Contains;
  }

  lemma HeaderInside(g: Grid, p: Pos)
    requires OnlyCell(g, "GutscheinNr", p)
    ensures p.row < |g|
  {
    hide Contains;
  }

  lemma MissingAre(g: Grid, p: Pos)
    requires p.row < |g|
    ensures forall f :: f in Missing(LayoutAt(g, p)) <==> f in REQUIRED && f != GutscheinNr && !TitlePresent(g, p.row, f)
  {
    hide LayoutAt, TitlePresent, REQUIRED;
    forall f | f in REQUIRED ensures f in LayoutAt(g, p) <==> f == GutscheinNr || TitlePresent(g, p.row, f) {
      LayoutAtKnows(g, p, f);
    }
    assert forall f :: f in Missing(LayoutAt(g, p)) <==> f in REQUIRED && f !in LayoutAt(g, p);
  }

  /** c is the last cell with the text. */
  predicate LastWith(cells: seq<string>, text: string, c: nat)
  {
    && c < |cells| && NormalizeHeaderCell(cells[c]) == text
    && forall j :: c < j < |cells| ==> NormalizeHeaderCell(cells[j]) != text
  }

  /** A field other than BuT gets the last column with its title, or with the older title where the newer is missing. */
  lemma ColumnChosen(g: Grid, f: Field)
    requires Discover(g).Ok? && f in Discover(g).value.layout && f != GutscheinNr && f != Typ && f != BuT
    ensures var c := Discover(g).value;
            var cells := TitleRow(g, c.headerRow, f);
            (|| LastWith(cells, TitleOf(f).text, c.layout[f])
             || (LastWith(cells, TitleOf(f).older, c.layout[f])
                 && forall j :: 0 <= j < |cells| ==> NormalizeHeaderCell(cells[j]) != TitleOf(f).text))
  {
    TitleMarks(f);
    hide Discover, MapBelow, ColumnsTitled, NormalizeHeaderCell, TitleOf, RowBelow;
    var c := Discover(g).value;
    var col := DiscoverUsesRules(g, f);
    var cells := TitleRow(g, c.headerRow, f);
    MapFindsLast(cells, |cells|, TitleOf(f).text);
    MapFindsLast(cells, |cells|, TitleOf(f).older);
  }

  lemma {:induction false} TitledExact(cells: seq<string>, title: string, n: nat)
    requires n <= |cells|
    ensures forall j :: j in ColumnsTitled(cells, title, n) <==> 0 <= j < n && TrimSpace(cells[j]) == title
    ensures forall i, j :: 0 <= i < j < |ColumnsTitled(cells, title, n)| ==>
              ColumnsTitled(cells, title, n)[i] < ColumnsTitled(cells, title, n)[j]
  {
    hide TrimSpace;
    if n > 0 {
      TitledExact(cells, title, n - 1);
      var before := ColumnsTitled(cells, title, n - 1);
      assert forall j :: 0 <= j < |before| ==> before[j] in before;
    }
  }

  predicate IsBut(cells: seq<string>, i: nat)
  {
    i < |cells| && TrimSpace(cells[i]) == "BuT"
  }

  /** Exactly one cell before c reads BuT, and c does. */
  ghost predicate SecondBut(cells: seq<string>, c: nat)
  {
    IsBut(cells, c) && exists i :: 0 <= i < c && IsBut(cells, i) && forall j :: 0 <= j < c && IsBut(cells, j) ==> j == i
  }

  ghost predicate OnlyBut(cells: seq<string>, c: nat)
  {
    IsBut(cells, c) && forall j :: 0 <= j < |cells| && IsBut(cells, j) ==> j == c
  }

  /** The subsidy is read from the second BuT column of the header row, or from the only one. */
  lemma ButChosen(g: Grid)
    requires Discover(g).Ok?
    ensures var c := Discover(g).value;
            var cells := g[c.headerRow];
            && BuT in c.layout
            && (|| SecondBut(cells, c.layout[BuT]) || OnlyBut(cells, c.layout[BuT])
                || ((forall j :: 0 <= j < |cells| ==> !IsBut(cells, j)) && LastWith(cells, "BuT", c.layout[BuT])))
  {
    ButTitle();
    hide Discover, MapBelow, TrimSpace, NormalizeHeaderCell, TitleOf, RowBelow, ColumnsTitled;
    var c := Discover(g).value;
    var col := DiscoverUsesRules(g, BuT);
    var cells := g[c.headerRow];
    TitledExact(cells, "BuT", |cells|);
    MapFindsLast(cells, |cells|, "BuT");
    FirstTwo(cells, ColumnsTitled(cells, "BuT", |cells|));
  }

  lemma FirstTwo(cells: seq<string>, but: seq<nat>)
    requires forall j :: j in but <==> 0 <= j < |cells| && TrimSpace(cells[j]) == "BuT"
    requires forall i, j :: 0 <= i < j < |but| ==> but[i] < but[j]
    ensures |but| >= 2 ==> SecondBut(cells, but[1])
    ensures |but| == 1 ==> OnlyBut(cells, but[0])
    ensures |but| == 0 ==> forall j :: 0 <= j < |cells| ==> !IsBut(cells, j)
  {
    hide TrimSpace;
    if |but| >= 2 {
      assert but[0] in but && but[1] in but;
      assert IsBut(cells, but[0]) && forall j :: 0 <= j < but[1] && IsBut(cells, j) ==> j in but && j == but[0];
    }
    if |but| == 1 { assert but[0] in but; }
    assert |but| == 0 ==> forall j :: j !in but;
  }

  // ----- one row

  datatype Env = Env(parseFloat: FloatParser, parseInt: string -> Option<int>)

  /** The texts of a row, by field. */
  type Texts = map<Field, string>

  function RowTexts(g: Grid, layout: Layout, row: nat): Texts
  {
    map f | f in layout :: CellText(g, row, layout[f])
  }

  function TextOf(t: Texts, f: Field): string
  {
    if f in t then t[f] else ""
  }

  function AmountOf(env: Env, t: Texts, f: Field, row: nat): (r: Result<int, SheetError>)
    ensures r.Ok? ==> CentsOf(env.parseFloat, TextOf(t, f)) == Some(r.value)
  {
    match CentsOf(env.parseFloat, TextOf(t, f))
    case Some(c) => Ok(c)
    case None => Err(BadAmount(f, row))
  }

  function DigitValue(s: string): (n: nat)
    requires forall c :: c in s ==> IsDigit(c)
  {
    if s == "" then 0
    else
      var last := s[|s| - 1];
      assert last in s && IsDigit(last);
      10 * DigitValue(s[..|s| - 1]) + (last as int - '0' as int)
  }

  predicate AllDigits(s: string)
  {
    s != "" && forall c :: c in s ==> IsDigit(c)
  }

  function FirstDot(s: string): (i: nat)
    ensures i <= |s| && (i < |s| ==> s[i] == '.') && forall k :: 0 <= k < i ==> s[k] != '.'
  {
    if s == "" || s[0] == '.' then 0 else 1 + FirstDot(s[1..])
  }

  /** A month and a year of two or four digits, within 2000-2099. */
  function MonthFrom(mm: string, yy: string): (m: Option<Month>)
    ensures m.Some? ==> MonthOf(2000, 1) <= m.value <= MonthOf(2099, 12)
  {
    if !AllDigits(mm) || !(1 <= DigitValue(mm) <= 12) || !AllDigits(yy) || (|yy| != 2 && |yy| != 4) then None
    else
      var year := if |yy| == 2 then DigitValue(yy) + 2000 else DigitValue(yy);
      if 2000 <= year <= 2099 then Some(MonthOf(year, DigitValue(mm))) else None
  }

  /** "MM.YY" or "MM.YYYY"; blank is the unknown month. */
  function ParseMonatTyp(s: string): (m: Option<Month>)
    ensures m.Some? && m.value != 0 ==> MonthOf(2000, 1) <= m.value <= MonthOf(2099, 12)
  {
    var dot := FirstDot(s);
    if s == "" then Some(0) else if dot == |s| then None else MonthFrom(s[..dot], s[dot + 1..])
  }

  lemma DigitValueSnoc(a: string, y: char)
    requires (forall c :: c in a ==> IsDigit(c)) && IsDigit(y)
    ensures DigitValue(a + [y]) == 10 * DigitValue(a) + (y as int - '0' as int)
  {
    assert (a + [y])[..|a|] == a;
  }

  lemma DigitValueConcat(a: string, y: char, z: char)
    requires (forall c :: c in a ==> IsDigit(c)) && IsDigit(y) && IsDigit(z)
    ensures DigitValue(a + [y, z]) == 100 * DigitValue(a) + 10 * (y as int - '0' as int) + (z as int - '0' as int)
  {
    assert a + [y, z] == (a + [y]) + [z];
    DigitValueSnoc(a, y);
    DigitValueSnoc(a + [y], z);
  }

  lemma FirstDotAfterDigits(mm: string, rest: string)
    requires AllDigits(mm)
    ensures FirstDot(mm + "." + rest) == |mm|
  {
    var s := mm + "." + rest;
    assert forall k :: 0 <= k < |mm| ==> s[k] == mm[k] && mm[k] in mm;
    assert s[|mm|] == '.';
  }

  lemma ParseSplits(mm: string, yy: string)
    requires AllDigits(mm)
    ensures ParseMonatTyp(mm + "." + yy) == MonthFrom(mm, yy)
  {
    hide FirstDot, MonthFrom;
    FirstDotAfterDigits(mm, yy);
    assert (mm + "." + yy)[..|mm|] == mm && (mm + "." + yy)[|mm| + 1..] == yy;
  }

  /** The two spellings of a year cannot disagree: MM.YY means exactly what MM.20YY means. */
  lemma MonthSpellingsAgree(mm: string, y: char, z: char)
    requires AllDigits(mm) && IsDigit(y) && IsDigit(z)
    ensures ParseMonatTyp(mm + "." + [y, z]) == ParseMonatTyp(mm + "." + ("20" + [y, z]))
  {
    hide ParseMonatTyp;
    ParseSplits(mm, [y, z]);
    ParseSplits(mm, "20" + [y, z]);
    CenturyAdded(y, z);
  }

  lemma CenturyAdded(y: char, z: char)
    requires IsDigit(y) && IsDigit(z)
    ensures DigitValue("20" + [y, z]) == 2000 + DigitValue([y, z])
  {
    assert DigitValue("") == 0;
    hide DigitValue;
    assert "20" == "" + ['2', '0'] && [y, z] == "" + [y, z];
    DigitValueConcat("", '2', '0');
    DigitValueConcat("", y, z);
    DigitValueConcat("20", y, z);
  }

  lemma {:induction false} DigitsValue(n: nat)
    ensures (forall c :: c in Digits(n) ==> IsDigit(c)) && DigitValue(Digits(n)) == n
  {
    DigitsOnly(n);
    if n >= 10 {
      DigitsValue(n / 10);
      assert Digits(n)[..|Digits(n)| - 1] == Digits(n / 10);
    } else {
      assert Digits(n)[..0] == "";
    }
  }

  lemma TwoDigitsValue(n: nat)
    requires n < 100
    ensures AllDigits(TwoDigits(n)) && |TwoDigits(n)| == 2 && DigitValue(TwoDigits(n)) == n
  {
    assert TwoDigits(n) == "" + [TwoDigits(n)[0], TwoDigits(n)[1]];
    DigitValueConcat("", TwoDigits(n)[0], TwoDigits(n)[1]);
  }

  lemma FourDigits(n: nat)
    requires 1000 <= n < 10000
    ensures |Digits(n)| == 4
  {
    assert |Digits(n)| == |Digits(n / 10)| + 1 == |Digits(n / 10 / 10)| + 2 == |Digits(n / 10 / 10 / 10)| + 3;
  }

  /** A month of 2000-2099 is read back from each of its spellings. */
  lemma MonthReadBack(m: nat, y: nat, padded: bool)
    requires 1 <= m <= 12 && y <= 99
    ensures var mm := if padded then TwoDigits(m) else Digits(m);
            && ParseMonatTyp(mm + "." + TwoDigits(y)) == Some(12 * (2000 + y) + m)
            && ParseMonatTyp(mm + "." + Digits(2000 + y)) == Some(12 * (2000 + y) + m)
  {
    hide ParseMonatTyp, DigitValue, Digits, TwoDigits;
    var mm := if padded then TwoDigits(m) else Digits(m);
    TwoDigitsValue(m);
    DigitsValue(m);
    DigitsOnly(m);
    TwoDigitsValue(y);
    DigitsValue(2000 + y);
    DigitsOnly(2000 + y);
    FourDigits(2000 + y);
    ParseSplits(mm, TwoDigits(y));
    ParseSplits(mm, Digits(2000 + y));
  }

  /** s is a month and a year in digits around a dot, the year with two digits or with four, and means month v. */
  ghost predicate MonthWritten(s: string, mm: string, yy: string, v: int)
  {
    && s == mm + "." + yy && AllDigits(mm) && AllDigits(yy) && 1 <= DigitValue(mm) <= 12
    && ((|yy| == 2 && v == 12 * (2000 + DigitValue(yy)) + DigitValue(mm))
        || (|yy| == 4 && 2000 <= DigitValue(yy) <= 2099 && v == 12 * DigitValue(yy) + DigitValue(mm)))
  }

  lemma TwoDigitsSmall(s: string)
    requires AllDigits(s) && |s| == 2
    ensures DigitValue(s) <= 99
  {
    assert s == "" + [s[0], s[1]] && s[0] in s && s[1] in s;
    DigitValueConcat("", s[0], s[1]);
  }

  /** Exactly the well-written months are read, each as what is written; the unknown month is exactly a blank. */
  lemma MonthParsedIff(s: string, v: int)
    ensures v != 0 ==> (ParseMonatTyp(s) == Some(v) <==> exists mm, yy :: MonthWritten(s, mm, yy, v))
    ensures ParseMonatTyp(s) == Some(0) <==> s == ""
  {
    hide DigitValue;
    var dot := FirstDot(s);
    if s != "" && dot < |s| {
      var a, b := s[..dot], s[dot + 1..];
      assert s == a + "." + b;
      if ParseMonatTyp(s) == Some(v) { assert MonthWritten(s, a, b, v); }
    }
    forall mm, yy | MonthWritten(s, mm, yy, v) ensures ParseMonatTyp(s) == Some(v) {
      ParseSplits(mm, yy);
      if |yy| == 2 { TwoDigitsSmall(yy); }
    }
  }

  function BezirkOf(env: Env, text: string): Option<int>
  {
    if text == "" then Some(0) else env.parseInt(text)
  }

  const UMFANG: set<string> := {"teilzeit", "ganztags", "erweitert", "halbtag"}

  /** Every amount of a parsed row fits 32 bits. */
  predicate CellsInInt32(k: Kind)
  {
    && InInt32(k.basisentgeld) && InInt32(k.abzugOM) && InInt32(k.elternBetreuung) && InInt32(k.elternEssen)
    && InInt32(k.but) && InInt32(k.anteilBezirk) && InInt32(k.zuschlagQM) && InInt32(k.zuschlagMSS)
    && InInt32(k.zuschlagNDH) && InInt32(k.zuschlagIntegration) && InInt32(k.summe)
  }

  /** Every figure and every text of a row comes from its own column. */
  predicate ReadsOwnColumns(env: Env, t: Texts, k: Kind)
  {
    && k.typ == TextOf(t, Typ) && ParseMonatTyp(TextOf(t, Monat)) == Some(k.abrechnungsmonat)
    && k.gutscheinnummer == TextOf(t, GutscheinNr) && k.name == TextOf(t, NameDesKindes)
    && k.geburtsdatum == TextOf(t, GebDatum) && k.registrierdatum == TextOf(t, RegistrAb)
    && k.qm == TextOf(t, QM) && k.mss == TextOf(t, MSS) && k.hs == TextOf(t, Hs)
    && k.integration == TextOf(t, Integration)
    && k.betreuungsumfang == TextOf(t, BetreuUmfang) && BezirkOf(env, TextOf(t, Bezirk)) == Some(k.bezirk)
    && Amounts(env, t) == [Some(k.basisentgeld), Some(k.abzugOM), Some(k.elternBetreuung), Some(k.elternEssen),
                           Some(k.but), Some(k.anteilBezirk), Some(k.zuschlagQM), Some(k.zuschlagMSS),
                           Some(k.zuschlagNDH), Some(k.zuschlagIntegration), Some(k.summe)]
  }

  function Amounts(env: Env, t: Texts): seq<Option<int>>
  {
    var cents := (f: Field) => CentsOf(env.parseFloat, TextOf(t, f));
    [cents(BasisEntgelt), cents(AbzugOM), cents(ElternBetreuung), cents(ElternEssen), cents(BuT), cents(AnteilBezirk),
     cents(ZuschlagQM), cents(ZuschlagMSS), cents(ZuschlagNDH), cents(ZuschlagIntegration), cents(AbrechnSumme)]
  }

  /** parseKindWithColumns, on the texts of a row. */
  function KindOf(env: Env, t: Texts, row: nat): (r: Result<Kind, SheetError>)
    ensures r.Ok? ==> && r.value.gutscheinnummer == TextOf(t, GutscheinNr)
                      && r.value.betreuungsumfang in UMFANG && 1 <= r.value.bezirk <= 12
                      && CentsOf(env.parseFloat, TextOf(t, AbrechnSumme)) == Some(r.value.summe)
  {
    var month := ParseMonatTyp(TextOf(t, Monat));
    if month.None? then Err(BadMonth(row))
    else
      var bezirk := BezirkOf(env, TextOf(t, Bezirk));
      if bezirk.None? || !(1 <= bezirk.value <= 12) then Err(BadBezirk(row))
      else if TextOf(t, BetreuUmfang) !in UMFANG then Err(BadBetreuungsumfang(row))
      else
        var basisentgeld :- AmountOf(env, t, BasisEntgelt, row);
        var abzugOM :- AmountOf(env, t, AbzugOM, row);
        var elternBetreuung :- AmountOf(env, t, ElternBetreuung, row);
        var elternEssen :- AmountOf(env, t, ElternEssen, row);
        var but :- AmountOf(env, t, BuT, row);
        var anteilBezirk :- AmountOf(env, t, AnteilBezirk, row);
        var zuschlagQM :- AmountOf(env, t, ZuschlagQM, row);
        var zuschlagMSS :- AmountOf(env, t, ZuschlagMSS, row);
        var zuschlagNDH :- AmountOf(env, t, ZuschlagNDH, row);
        var zuschlagIntegration :- AmountOf(env, t, ZuschlagIntegration, row);
        var summe :- AmountOf(env, t, AbrechnSumme, row);
        Ok(Kind(TextOf(t, Typ), month.value, TextOf(t, GutscheinNr), TextOf(t, NameDesKindes), TextOf(t, GebDatum),
                TextOf(t, QM), TextOf(t, MSS), TextOf(t, Hs), TextOf(t, Integration), TextOf(t, RegistrAb),
                TextOf(t, BetreuUmfang), bezirk.value, basisentgeld, abzugOM, elternBetreuung, elternEssen, but,
                anteilBezirk, zuschlagQM, zuschlagMSS, zuschlagNDH, zuschlagIntegration, summe))
  }

  /** Every text and figure of an accepted row is what the cell of its own field says. */
  lemma KindReadsOwnColumns(env: Env, t: Texts, row: nat)
    requires KindOf(env, t, row).Ok?
    ensures ReadsOwnColumns(env, t, KindOf(env, t, row).value)
  {
    hide CentsOf, ParseMonatTyp, BezirkOf;
  }

  predicate UmfangKnown(text: string)
  {
    text == "teilzeit" || text == "ganztags" || text == "erweitert" || text == "halbtag"
  }

  predicate BezirkKnown(env: Env, text: string)
  {
    text != "" && env.parseInt(text).Some? && 1 <= env.parseInt(text).value <= 12
  }

  /**
   A row is accepted if and only if its month is blank or well written, its district is a number from 1 to 12, its
   care scope is one of the four, and all its amounts are readable; otherwise the first of these is the error.
   */
  lemma RowAcceptedIff(env: Env, t: Texts, row: nat)
    ensures KindOf(env, t, row).Ok? <==>
              && ParseMonatTyp(TextOf(t, Monat)).Some? && BezirkKnown(env, TextOf(t, Bezirk))
              && UmfangKnown(TextOf(t, BetreuUmfang))
              && (forall f :: f in AMOUNTS ==> CentsOf(env.parseFloat, TextOf(t, f)).Some?)
    ensures ParseMonatTyp(TextOf(t, Monat)).None? ==> KindOf(env, t, row) == Err(BadMonth(row))
    ensures ParseMonatTyp(TextOf(t, Monat)).Some? && !BezirkKnown(env, TextOf(t, Bezirk)) ==>
              KindOf(env, t, row) == Err(BadBezirk(row))
    ensures (ParseMonatTyp(TextOf(t, Monat)).Some? && BezirkKnown(env, TextOf(t, Bezirk))
             && !UmfangKnown(TextOf(t, BetreuUmfang))) ==> KindOf(env, t, row) == Err(BadBetreuungsumfang(row))
    ensures KindOf(env, t, row).Err? && KindOf(env, t, row).error.BadAmount? ==>
              var e := KindOf(env, t, row).error;
              e.row == row && e.field in AMOUNTS && CentsOf(env.parseFloat, TextOf(t, e.field)).None?
  {
    hide CentsOf, TextOf, ParseMonatTyp;
  }

  const AMOUNTS: set<Field> :=
    {BasisEntgelt, AbzugOM, ElternBetreuung, ElternEssen, BuT, AnteilBezirk, ZuschlagQM, ZuschlagMSS, ZuschlagNDH,
     ZuschlagIntegration, AbrechnSumme}

  /** No amount cell of the row parses as NaN. */
  predicate NanFree(env: Env, t: Texts)
  {
    forall f :: f in AMOUNTS ==> !ReadsNaN(env.parseFloat, TextOf(t, f))
  }

  lemma AmountsFitIff(env: Env, t: Texts, k: Kind)
    requires ReadsOwnColumns(env, t, k)
    requires forall f :: f in AMOUNTS && CentsOf(env.parseFloat, TextOf(t, f)).Some? ==>
               (InInt32(CentsOf(env.parseFloat, TextOf(t, f)).value) <==> !ReadsNaN(env.parseFloat, TextOf(t, f)))
    ensures CellsInInt32(k) <==> NanFree(env, t)
  {
    hide CentsOf, ReadsNaN, InInt32, TextOf, ParseMonatTyp, BezirkOf;
    var a := Amounts(env, t);
    assert a[0] == Some(k.basisentgeld) && a[1] == Some(k.abzugOM) && a[2] == Some(k.elternBetreuung)
        && a[3] == Some(k.elternEssen) && a[4] == Some(k.but) && a[5] == Some(k.anteilBezirk) && a[6] == Some(k.zuschlagQM)
        && a[7] == Some(k.zuschlagMSS) && a[8] == Some(k.zuschlagNDH) && a[9] == Some(k.zuschlagIntegration)
        && a[10] == Some(k.summe);
  }

  /** Every amount of an accepted row fits 32 bits if and only if no amount cell parses as NaN. */
  lemma CellsFitIff(env: Env, t: Texts, row: nat)
    requires KindOf(env, t, row).Ok?
    ensures CellsInInt32(KindOf(env, t, row).value) <==> NanFree(env, t)
  {
    hide CentsOf, ReadsNaN, InInt32, KindOf, ParseMonatTyp, BezirkOf;
    KindReadsOwnColumns(env, t, row);
    forall f | f in AMOUNTS
      ensures CentsOf(env.parseFloat, TextOf(t, f)).Some? ==>
                (InInt32(CentsOf(env.parseFloat, TextOf(t, f)).value) <==> !ReadsNaN(env.parseFloat, TextOf(t, f)))
    {
      CentsFitIff(env.parseFloat, TextOf(t, f));
    }
    hide TextOf;
    AmountsFitIff(env, t, KindOf(env, t, row).value);
  }

  // ----- the table scan

  predicate IsTerminator(s: string)
  {
    Contains(s, "Abrechnungssumme")
  }

  /** The first terminator row of column col at or after row r, or the end of the sheet. */
  function TableEnd(g: Grid, col: nat, r: nat): (e: nat)
    ensures r <= e && (r <= |g| ==> e <= |g|)
    ensures forall i :: r <= i < e ==> !IsTerminator(CellText(g, i, col))
    ensures e < |g| ==> IsTerminator(CellText(g, e, col))
    decreases |g| - r
  {
    if r >= |g| || IsTerminator(CellText(g, r, col)) then r else TableEnd(g, col, r + 1)
  }

  /** The rows in [r, e) whose voucher cell holds a voucher number. */
  function VoucherRows(g: Grid, col: nat, r: nat, e: nat): (rows: seq<nat>)
    ensures forall i :: i in rows ==> r <= i < e
    decreases e - r
  {
    if r >= e then []
    else (if IsVoucher(CellText(g, r, col)) then [r] else []) + VoucherRows(g, col, r + 1, e)
  }

  /** Exactly the rows with a voucher number, in order. */
  lemma {:induction false} VoucherRowsExact(g: Grid, col: nat, r: nat, e: nat)
    ensures forall i :: i in VoucherRows(g, col, r, e) <==> r <= i < e && IsVoucher(CellText(g, i, col))
    ensures forall i, j :: 0 <= i < j < |VoucherRows(g, col, r, e)| ==>
              VoucherRows(g, col, r, e)[i] < VoucherRows(g, col, r, e)[j]
    decreases e - r
  {
    hide IsVoucher, CellText;
    if r < e {
      VoucherRowsExact(g, col, r + 1, e);
      var rest := VoucherRows(g, col, r + 1, e);
      assert forall j :: 0 <= j < |rest| ==> rest[j] in rest;
    }
  }

  /** The rows still to come below r. */
  function Remaining(g: Grid, col: nat, r: nat): nat
  {
    |VoucherRows(g, col, r + 1, TableEnd(g, col, r + 1))|
  }

  function Prepend(k: Kind, r: Result<seq<Kind>, SheetError>): Result<seq<Kind>, SheetError>
  {
    if r.Ok? then Ok([k] + r.value) else r
  }

  /** What the scan returns when it stands at row. */
  function Scan(env: Env, g: Grid, layout: Layout, row: nat): Result<seq<Kind>, SheetError>
    requires GutscheinNr in layout
    decreases |g| - row
  {
    var col := layout[GutscheinNr];
    var voucher := CellText(g, row, col);
    if IsTerminator(voucher) then Ok([])
    else if voucher == "" then
      if Remaining(g, col, row) > 0 then Err(HoleInTable(row, Remaining(g, col, row))) else Ok([])
    else if !IsVoucher(voucher) then Err(NotAVoucher(row))
    else
      var kind :- KindOf(env, RowTexts(g, layout, row), row);
      Prepend(kind, Scan(env, g, layout, row + 1))
  }

  function Parsed(env: Env, g: Grid): Result<seq<Kind>, SheetError>
  {
    var columns :- Discover(g);
    Scan(env, g, columns.layout, columns.dataStart)
  }

  /** kinds are the parsed rows, one for one and in order. */
  ghost predicate ParsedRows(env: Env, g: Grid, layout: Layout, rows: seq<nat>, kinds: seq<Kind>)
  {
    && |kinds| == |rows|
    && forall i :: 0 <= i < |rows| ==> KindOf(env, RowTexts(g, layout, rows[i]), rows[i]) == Ok(kinds[i])
  }

  /** The voucher rows from row on, up to the first terminator or the end of the sheet. */
  function TableRows(g: Grid, col: nat, row: nat): seq<nat>
  {
    VoucherRows(g, col, row, TableEnd(g, col, row))
  }

  /** rows are consecutive, starting at row. */
  ghost predicate Unbroken(rows: seq<nat>, row: nat)
  {
    forall i :: 0 <= i < |rows| ==> rows[i] == row + i
  }

  /** A row is in the table if it has a voucher number and no terminator stands between the start and it. */
  lemma TableRowsExact(g: Grid, col: nat, row: nat, i: nat)
    ensures i in TableRows(g, col, row) <==>
              && row <= i && IsVoucher(CellText(g, i, col))
              && forall j :: row <= j <= i ==> !Contains(CellText(g, j, col), "Abrechnungssumme")
  {
    BlankIsNoVoucher();
    OutsideIsBlank(g, i, col);
    assert forall j :: row <= j <= i ==>
             (Contains(CellText(g, j, col), "Abrechnungssumme") <==> IsTerminator(CellText(g, j, col)));
    hide IsVoucher, CellText, IsTerminator;
    VoucherRowsExact(g, col, row, TableEnd(g, col, row));
  }

  lemma TableRowsHead(g: Grid, col: nat, row: nat)
    requires !IsTerminator(CellText(g, row, col)) && CellText(g, row, col) != ""
    ensures TableRows(g, col, row)
         == (if IsVoucher(CellText(g, row, col)) then [row] else []) + TableRows(g, col, row + 1)
  {
    hide IsVoucher, IsTerminator;
  }

  lemma TableRowsBlank(g: Grid, col: nat, row: nat)
    requires CellText(g, row, col) == ""
    ensures TableRows(g, col, row) == TableRows(g, col, row + 1)
  {
    assert !IsTerminator("") && !IsVoucher("");
    hide IsVoucher, IsTerminator, CellText;
  }

  /** A scan that succeeds has read every voucher row of the table, in order, and nothing else. */
  lemma {:induction false} ScanComplete(env: Env, g: Grid, layout: Layout, row: nat)
    requires GutscheinNr in layout && Scan(env, g, layout, row).Ok?
    ensures ParsedRows(env, g, layout, TableRows(g, layout[GutscheinNr], row), Scan(env, g, layout, row).value)
    ensures Unbroken(TableRows(g, layout[GutscheinNr], row), row)
    ensures var after := CellText(g, row + |Scan(env, g, layout, row).value|, layout[GutscheinNr]);
            IsTerminator(after) || after == ""
    decreases |g| - row
  {
    hide KindOf, IsVoucher, IsTerminator, CellText, RowTexts;
    var col := layout[GutscheinNr];
    var voucher := CellText(g, row, col);
    if IsTerminator(voucher) {
      TerminatorEndsTable(g, col, row);
    } else if voucher == "" {
      TableRowsBlank(g, col, row);
    } else {
      OutsideIsBlank(g, row, col);
      TableRowsHead(g, col, row);
      ScanComplete(env, g, layout, row + 1);
    }
  }

  lemma TerminatorEndsTable(g: Grid, col: nat, row: nat)
    requires IsTerminator(CellText(g, row, col))
    ensures TableRows(g, col, row) == []
  {
  }

  lemma OutsideIsBlank(g: Grid, row: nat, col: nat)
    ensures row >= |g| ==> CellText(g, row, col) == ""
  {
  }

  lemma TableRowsFirst(g: Grid, col: nat, row: nat)
    requires TableRows(g, col, row) != [] && TableRows(g, col, row)[0] == row
    ensures var voucher := CellText(g, row, col); IsVoucher(voucher) && !IsTerminator(voucher) && voucher != ""
    ensures row < |g| && TableRows(g, col, row)[1..] == TableRows(g, col, row + 1)
  {
    hide IsVoucher, IsTerminator, CellText;
    OutsideIsBlank(g, row, col);
    if CellText(g, row, col) == "" { TableRowsBlank(g, col, row); }
    else if IsTerminator(CellText(g, row, col)) { TerminatorEndsTable(g, col, row); }
    else { TableRowsHead(g, col, row); }
    assert row !in TableRows(g, col, row + 1);
    assert TableRows(g, col, row)[0] in TableRows(g, col, row);
  }

  /** An unbroken block of readable voucher rows, followed by a terminator or a blank, is read. */
  lemma {:induction false} ScanSucceeds(env: Env, g: Grid, layout: Layout, row: nat, kinds: seq<Kind>)
    requires GutscheinNr in layout
    requires ParsedRows(env, g, layout, TableRows(g, layout[GutscheinNr], row), kinds)
    requires Unbroken(TableRows(g, layout[GutscheinNr], row), row)
    requires var after := CellText(g, row + |kinds|, layout[GutscheinNr]); IsTerminator(after) || after == ""
    ensures Scan(env, g, layout, row) == Ok(kinds)
    decreases |kinds|
  {
    hide KindOf, IsVoucher, IsTerminator, CellText, RowTexts, TableRows;
    var col := layout[GutscheinNr];
    var rows := TableRows(g, col, row);
    if kinds == [] {
      if CellText(g, row, col) == "" {
        TableRowsBlank(g, col, row);
        RemainingIsTable(g, col, row);
      }
    } else {
      TableRowsFirst(g, col, row);
      forall i | 0 <= i < |kinds| - 1 ensures rows[1..][i] == rows[i + 1] && kinds[1..][i] == kinds[i + 1] {
      }
      ScanSucceeds(env, g, layout, row + 1, kinds[1..]);
      assert kinds == [kinds[0]] + kinds[1..];
    }
  }

  lemma RemainingIsTable(g: Grid, col: nat, row: nat)
    ensures Remaining(g, col, row) == |TableRows(g, col, row + 1)|
  {
  }

  // ----- where a scan fails

  /** What makes the scan fail at row i. */
  ghost predicate FailsAt(env: Env, g: Grid, layout: Layout, i: nat, e: SheetError)
    requires GutscheinNr in layout
  {
    var col := layout[GutscheinNr];
    var text := CellText(g, i, col);
    && !IsTerminator(text)
    && (if text == "" then TableRows(g, col, i + 1) != [] && e == HoleInTable(i, |TableRows(g, col, i + 1)|)
        else if !IsVoucher(text) then e == NotAVoucher(i)
        else KindOf(env, RowTexts(g, layout, i), i) == Err(e))
  }

  /** A failed scan names the first row that is a hole, no voucher or unreadable; all rows before it are read. */
  lemma {:induction false} ScanFails(env: Env, g: Grid, layout: Layout, row: nat) returns (i: nat)
    requires GutscheinNr in layout && Scan(env, g, layout, row).Err?
    ensures row <= i && FailsAt(env, g, layout, i, Scan(env, g, layout, row).error)
    ensures forall j :: row <= j < i ==>
              IsVoucher(CellText(g, j, layout[GutscheinNr])) && KindOf(env, RowTexts(g, layout, j), j).Ok?
    decreases |g| - row
  {
    hide KindOf, IsVoucher, IsTerminator, CellText, RowTexts, TableRows;
    var col := layout[GutscheinNr];
    var voucher := CellText(g, row, col);
    RemainingIsTable(g, col, row);
    if voucher != "" && IsVoucher(voucher) && KindOf(env, RowTexts(g, layout, row), row).Ok? {
      OutsideIsBlank(g, row, col);
      i := ScanFails(env, g, layout, row + 1);
    } else {
      i := row;
    }
  }

  // ----- no silent truncation

  /** kinds are all voucher rows of the table, which form one unbroken block ended by a terminator or a blank. */
  ghost predicate WholeTable(env: Env, g: Grid, c: Columns, kinds: seq<Kind>)
    requires GutscheinNr in c.layout
  {
    var col := c.layout[GutscheinNr];
    var rows, after := TableRows(g, col, c.dataStart), CellText(g, c.dataStart + |kinds|, col);
    ParsedRows(env, g, c.layout, rows, kinds) && Unbroken(rows, c.dataStart) && (IsTerminator(after) || after == "")
  }

  /** Parsing succeeds with kinds exactly when the columns are found and kinds are the whole table. */
  lemma ParsedIffWholeTable(env: Env, g: Grid, kinds: seq<Kind>)
    ensures Parsed(env, g) == Ok(kinds) <==> Discover(g).Ok? && WholeTable(env, g, Discover(g).value, kinds)
  {
    hide Discover, TableRows, ParsedRows, Unbroken, Scan, KindOf, CellText, IsTerminator;
    if Discover(g).Ok? {
      var c := Discover(g).value;
      if Scan(env, g, c.layout, c.dataStart).Ok? {
        ScanComplete(env, g, c.layout, c.dataStart);
      }
      if WholeTable(env, g, c, kinds) {
        ScanSucceeds(env, g, c.layout, c.dataStart, kinds);
      }
    }
  }

  // ----- where every figure of a parsed row stands

  /** Below some cell of the header cells with the title, or the older one, stands the text. */
  ghost predicate TextBelow(cells: seq<string>, g: Grid, row: nat, title: string, older: string, text: string)
  {
    exists c :: 0 <= c < |cells| && (NormalizeHeaderCell(cells[c]) == title || NormalizeHeaderCell(cells[c]) == older)
                && CellText(g, row, c) == text
  }

  /** Below such a cell stands a text that reads as so many cents. */
  ghost predicate CentsBelow(env: Env, cells: seq<string>, g: Grid, row: nat, title: string, older: string, cents: int)
  {
    exists text :: TextBelow(cells, g, row, title, older, text) && CentsOf(env.parseFloat, text) == Some(cents)
  }

  lemma FieldBelow(g: Grid, f: Field, row: nat)
    requires Discover(g).Ok? && f in Discover(g).value.layout && f != GutscheinNr && f != Typ
    ensures var c := Discover(g).value;
            TextBelow(TitleRow(g, c.headerRow, f), g, row, TitleOf(f).text, TitleOf(f).older,
                      TextOf(RowTexts(g, c.layout, row), f))
  {
    hide Discover, NormalizeHeaderCell, CellText, TitleOf, TitleRow;
    ColumnsCarryTitles(g, f);
    TitleRowIs(g, Discover(g).value.headerRow, f);
  }

  lemma TitleRowIs(g: Grid, h: nat, f: Field)
    requires h < |g|
    ensures TitleRow(g, h, f) == if TitleOf(f).inSub then RowBelow(g, h) else g[h]
  {
  }

  lemma RequiredBelow(g: Grid, f: Field, row: nat, t: Title)
    requires Discover(g).Ok? && f in REQUIRED && f != GutscheinNr && TitleOf(f) == t
    ensures var c := Discover(g).value;
            TextBelow(if t.inSub then RowBelow(g, c.headerRow) else g[c.headerRow], g, row, t.text, t.older,
                      TextOf(RowTexts(g, c.layout, row), f))
  {
    hide Discover, TextBelow, TitleOf, TitleRow;
    var col := DiscoverUsesRules(g, f);
    FieldBelow(g, f, row);
    TitleRowIs(g, Discover(g).value.headerRow, f);
  }

  predicate CentsIn(env: Env, t: Texts, f: Field, cents: int)
  {
    CentsOf(env.parseFloat, TextOf(t, f)) == Some(cents)
  }

  lemma CentsStand(env: Env, g: Grid, f: Field, row: nat, t: Title, cents: int)
    requires Discover(g).Ok? && f in REQUIRED && f != GutscheinNr && TitleOf(f) == t
    requires CentsIn(env, RowTexts(g, Discover(g).value.layout, row), f, cents)
    ensures var h := Discover(g).value.headerRow;
            CentsBelow(env, if t.inSub then RowBelow(g, h) else g[h], g, row, t.text, t.older, cents)
  {
    hide Discover, TextBelow, TextOf, CentsOf, RowTexts, RowBelow, TitleOf;
    RequiredBelow(g, f, row, t);
  }

  /** The texts of row k stand below their titles in the header cells. */
  ghost predicate TextsInPlace(env: Env, cells: seq<string>, g: Grid, row: nat, k: Kind)
  {
    && TextBelow(cells, g, row, "Name des Kindes", "Name des Kindes", k.name)
    && TextBelow(cells, g, row, "Geb.-datum", "Geb.-datum", k.geburtsdatum)
    && TextBelow(cells, g, row, "Registr. ab", "Registr. ab", k.registrierdatum)
    && TextBelow(cells, g, row, "QM", "QM", k.qm) && TextBelow(cells, g, row, "MSS", "MSS", k.mss)
    && TextBelow(cells, g, row, "Hs", "Hs", k.hs) && TextBelow(cells, g, row, "SpH", "SpH", k.integration)
    && TextBelow(cells, g, row, "Betreu.-umfang", "Betreu.-umfang", k.betreuungsumfang)
    && exists text :: TextBelow(cells, g, row, "Be-zirk", "Be-zirk", text)
                      && (if text == "" then k.bezirk == 0 else env.parseInt(text) == Some(k.bezirk))
  }

  /** So do its amounts that are titled in the header row. */
  ghost predicate AmountsInPlace(env: Env, cells: seq<string>, g: Grid, row: nat, k: Kind)
  {
    && CentsBelow(env, cells, g, row, "Basis-entgelt", "Basis-entgelt", k.basisentgeld)
    && CentsBelow(env, cells, g, row, "Abzug o.M.", "Abzug o.M.", k.abzugOM)
    && CentsBelow(env, cells, g, row, "BuT", "BuT", k.but)
    && CentsBelow(env, cells, g, row, "Anteil Bezirk", "Anteil Bezirk", k.anteilBezirk)
    && CentsBelow(env, cells, g, row, "Abrechn.-summe", "Abrechn.-summe", k.summe)
  }

  /** And those that are titled in the sub-header row. */
  ghost predicate SharesInPlace(env: Env, sub: seq<string>, g: Grid, row: nat, k: Kind)
  {
    && CentsBelow(env, sub, g, row, "Betreuung", "Betr.", k.elternBetreuung)
    && CentsBelow(env, sub, g, row, "Essen", "Essen", k.elternEssen)
    && CentsBelow(env, sub, g, row, "QM", "QM", k.zuschlagQM) && CentsBelow(env, sub, g, row, "MSS", "MSS", k.zuschlagMSS)
    && CentsBelow(env, sub, g, row, "ndH", "NdHs", k.zuschlagNDH)
    && CentsBelow(env, sub, g, row, "SpH", "SpH", k.zuschlagIntegration)
  }

  /** The month stands below its title and the type right of it; without the title both are unknown. */
  ghost predicate MonthInPlace(cells: seq<string>, g: Grid, row: nat, k: Kind)
  {
    if exists c :: 0 <= c < |cells| && NormalizeHeaderCell(cells[c]) == "Monat/ Typ" then
      exists c :: 0 <= c < |cells| && NormalizeHeaderCell(cells[c]) == "Monat/ Typ"
                  && ParseMonatTyp(CellText(g, row, c)) == Some(k.abrechnungsmonat) && k.typ == CellText(g, row, c + 1)
    else k.abrechnungsmonat == 0 && k.typ == ""
  }

  lemma TextsStand(env: Env, g: Grid, row: nat, k: Kind)
    requires Discover(g).Ok? && ReadsOwnColumns(env, RowTexts(g, Discover(g).value.layout, row), k)
    ensures TextsInPlace(env, g[Discover(g).value.headerRow], g, row, k)
  {
    hide Discover, TextBelow, TextOf, ParseMonatTyp, Amounts, RowTexts, RowBelow;
    RequiredBelow(g, NameDesKindes, row, Title(false, "Name des Kindes", "Name des Kindes"));
    RequiredBelow(g, GebDatum, row, Title(false, "Geb.-datum", "Geb.-datum"));
    RequiredBelow(g, RegistrAb, row, Title(false, "Registr. ab", "Registr. ab"));
    RequiredBelow(g, QM, row, Title(false, "QM", "QM"));
    RequiredBelow(g, MSS, row, Title(false, "MSS", "MSS"));
    RequiredBelow(g, Hs, row, Title(false, "Hs", "Hs"));
    RequiredBelow(g, Integration, row, Title(false, "SpH", "SpH"));
    RequiredBelow(g, BetreuUmfang, row, Title(false, "Betreu.-umfang", "Betreu.-umfang"));
    RequiredBelow(g, Bezirk, row, Title(false, "Be-zirk", "Be-zirk"));
  }

  lemma AmountsAt(env: Env, t: Texts, k: Kind)
    requires ReadsOwnColumns(env, t, k)
    ensures CentsIn(env, t, BasisEntgelt, k.basisentgeld) && CentsIn(env, t, AbzugOM, k.abzugOM)
    ensures CentsIn(env, t, BuT, k.but) && CentsIn(env, t, AnteilBezirk, k.anteilBezirk)
    ensures CentsIn(env, t, AbrechnSumme, k.summe)
    ensures CentsIn(env, t, ElternBetreuung, k.elternBetreuung) && CentsIn(env, t, ElternEssen, k.elternEssen)
    ensures CentsIn(env, t, ZuschlagQM, k.zuschlagQM) && CentsIn(env, t, ZuschlagMSS, k.zuschlagMSS)
    ensures CentsIn(env, t, ZuschlagNDH, k.zuschlagNDH) && CentsIn(env, t, ZuschlagIntegration, k.zuschlagIntegration)
  {
    hide CentsOf, TextOf, ParseMonatTyp, BezirkOf;
    var a := Amounts(env, t);
    assert a[0] == Some(k.basisentgeld) && a[1] == Some(k.abzugOM) && a[2] == Some(k.elternBetreuung)
        && a[3] == Some(k.elternEssen) && a[4] == Some(k.but) && a[5] == Some(k.anteilBezirk) && a[6] == Some(k.zuschlagQM)
        && a[7] == Some(k.zuschlagMSS) && a[8] == Some(k.zuschlagNDH) && a[9] == Some(k.zuschlagIntegration)
        && a[10] == Some(k.summe);
  }

  lemma AmountsStand(env: Env, g: Grid, row: nat, k: Kind)
    requires Discover(g).Ok? && ReadsOwnColumns(env, RowTexts(g, Discover(g).value.layout, row), k)
    ensures AmountsInPlace(env, g[Discover(g).value.headerRow], g, row, k)
  {
    hide Discover, CentsBelow, CentsIn, ReadsOwnColumns, RowTexts, RowBelow;
    AmountsAt(env, RowTexts(g, Discover(g).value.layout, row), k);
    CentsStand(env, g, BasisEntgelt, row, Title(false, "Basis-entgelt", "Basis-entgelt"), k.basisentgeld);
    CentsStand(env, g, AbzugOM, row, Title(false, "Abzug o.M.", "Abzug o.M."), k.abzugOM);
    CentsStand(env, g, BuT, row, Title(false, "BuT", "BuT"), k.but);
    CentsStand(env, g, AnteilBezirk, row, Title(false, "Anteil Bezirk", "Anteil Bezirk"), k.anteilBezirk);
    CentsStand(env, g, AbrechnSumme, row, Title(false, "Abrechn.-summe", "Abrechn.-summe"), k.summe);
  }

  lemma SharesStand(env: Env, g: Grid, row: nat, k: Kind)
    requires Discover(g).Ok? && ReadsOwnColumns(env, RowTexts(g, Discover(g).value.layout, row), k)
    ensures SharesInPlace(env, RowBelow(g, Discover(g).value.headerRow), g, row, k)
  {
    hide Discover, CentsBelow, CentsIn, ReadsOwnColumns, RowTexts, RowBelow;
    AmountsAt(env, RowTexts(g, Discover(g).value.layout, row), k);
    CentsStand(env, g, ElternBetreuung, row, Title(true, "Betreuung", "Betr."), k.elternBetreuung);
    CentsStand(env, g, ElternEssen, row, Title(true, "Essen", "Essen"), k.elternEssen);
    CentsStand(env, g, ZuschlagQM, row, Title(true, "QM", "QM"), k.zuschlagQM);
    CentsStand(env, g, ZuschlagMSS, row, Title(true, "MSS", "MSS"), k.zuschlagMSS);
    CentsStand(env, g, ZuschlagNDH, row, Title(true, "ndH", "NdHs"), k.zuschlagNDH);
    CentsStand(env, g, ZuschlagIntegration, row, Title(true, "SpH", "SpH"), k.zuschlagIntegration);
  }

  lemma MonthColumns(g: Grid)
    requires Discover(g).Ok?
    ensures var c := Discover(g).value;
            var cells := g[c.headerRow];
            && (Monat in c.layout <==> exists j :: 0 <= j < |cells| && NormalizeHeaderCell(cells[j]) == "Monat/ Typ")
            && (Typ in c.layout <==> Monat in c.layout)
            && (Monat in c.layout ==>
                  && c.layout[Monat] < |cells| && NormalizeHeaderCell(cells[c.layout[Monat]]) == "Monat/ Typ"
                  && c.layout[Typ] == c.layout[Monat] + 1)
  {
    DiscoverHeader(g);
    var p := HeaderAt(g, "GutscheinNr").value;
    DiscoverAt(g, p);
    hide Discover, MapBelow, ColumnsTitled, NormalizeHeaderCell, Missing;
    var cells := g[p.row];
    MapFindsLast(cells, |cells|, "Monat/ Typ");
    assert "Monat/ Typ" != "";
  }

  /**
   Every parsed row is a row of the sheet whose texts, amounts, month and voucher number each stand below their
   own title.
   */
  lemma ParsedInPlace(env: Env, g: Grid, kinder: seq<Kind>, i: nat)
    requires Parsed(env, g) == Ok(kinder) && i < |kinder|
    ensures Discover(g).Ok?
    ensures var c, k := Discover(g).value, kinder[i];
            var row, cells := c.dataStart + i, g[c.headerRow];
            && k.gutscheinnummer == CellText(g, row, c.layout[GutscheinNr]) && IsVoucher(k.gutscheinnummer)
            && TextsInPlace(env, cells, g, row, k) && AmountsInPlace(env, cells, g, row, k)
            && SharesInPlace(env, RowBelow(g, c.headerRow), g, row, k)
            && MonthInPlace(cells, g, row, k)
  {
    hide Discover, Parsed, TableRows, KindOf, TextsInPlace, AmountsInPlace, SharesInPlace, IsVoucher, IsTerminator,
         CellText, Amounts, NormalizeHeaderCell;
    ParsedIffWholeTable(env, g, kinder);
    var c := Discover(g).value;
    var rows := TableRows(g, c.layout[GutscheinNr], c.dataStart);
    var row := rows[i];
    assert row in rows;
    TableRowsExact(g, c.layout[GutscheinNr], c.dataStart, row);
    KindReadsOwnColumns(env, RowTexts(g, c.layout, row), row);
    TextsStand(env, g, row, kinder[i]);
    AmountsStand(env, g, row, kinder[i]);
    SharesStand(env, g, row, kinder[i]);
    MonthColumns(g);
    ParseNothing();
  }

  lemma ParseNothing()
    ensures ParseMonatTyp("") == Some(0)
  {
  }

  /** The data starts at the first voucher below the header, so no voucher row lies above it. */
  lemma NothingAboveData(g: Grid, row: nat)
    requires Discover(g).Ok? && Discover(g).value.headerRow < row < Discover(g).value.dataStart
    ensures !IsVoucher(CellText(g, row, Discover(g).value.layout[GutscheinNr]))
  {
    hide IsVoucher;
    var col := Discover(g).value.layout[GutscheinNr];
    assert !HasVoucher(g[row]);
    BlankIsNoVoucher();
    if col < |g[row]| { assert !IsVoucher(TrimSpace(g[row][col])); }
  }

  lemma BlankIsNoVoucher()
    ensures !IsVoucher("")
  {
  }

  // ----- shifting the sheet to the right

  function ShiftLayout(layout: Layout, k: nat): Layout
  {
    map f | f in layout :: layout[f] + k
  }

  lemma ShiftedColumnOf(f: Field, header: ColumnMap, sub: ColumnMap, col: nat, butCols: seq<nat>, k: nat)
    ensures var here := ColumnOf(f, header, sub, col, butCols);
            ColumnOf(f, ShiftMap(header, k), ShiftMap(sub, k), col + k, ShiftColumns(butCols, k))
            == if here.Some? then Some(here.value + k) else None
  {
    hide TitleOf;
  }

  lemma ShiftedLayout(header: ColumnMap, sub: ColumnMap, col: nat, butCols: seq<nat>, k: nat)
    ensures LayoutOf(ShiftMap(header, k), ShiftMap(sub, k), col + k, ShiftColumns(butCols, k))
         == ShiftLayout(LayoutOf(header, sub, col, butCols), k)
  {
    hide ColumnOf;
    forall f { ShiftedColumnOf(f, header, sub, col, butCols, k); }
  }

  lemma ShiftedHasVoucher(cells: seq<string>, k: nat)
    ensures HasVoucher(Blanks(k) + cells) <==> HasVoucher(cells)
  {
    hide IsVoucher;
    var s := Blanks(k) + cells;
    BlankTexts("x");
    BlankIsNoVoucher();
    assert forall j :: 0 <= j < k ==> s[j] == "";
    assert forall j :: 0 <= j < |cells| ==> s[j + k] == cells[j];
    if HasVoucher(cells) {
      var j :| 0 <= j < |cells| && IsVoucher(TrimSpace(cells[j]));
      assert IsVoucher(TrimSpace(s[j + k]));
    }
    if HasVoucher(s) {
      var j :| 0 <= j < |s| && IsVoucher(TrimSpace(s[j]));
      assert s[j] == cells[j - k];
    }
  }

  lemma {:induction false} ShiftedFirstVoucherRow(g: Grid, k: nat, r: nat)
    requires r <= |g|
    ensures FirstVoucherRow(Shift(g, k), r) == FirstVoucherRow(g, r)
    decreases |g| - r
  {
    hide HasVoucher;
    if r < |g| {
      ShiftedHasVoucher(g[r], k);
      ShiftedFirstVoucherRow(g, k, r + 1);
    }
  }

  lemma ShiftedMissing(layout: Layout, k: nat)
    ensures Missing(ShiftLayout(layout, k)) == Missing(layout)
  {
  }

  /** Column discovery commutes with inserting blank columns on the left. */
  lemma DiscoverShifts(g: Grid, k: nat)
    ensures Discover(Shift(g, k)) ==
              if Discover(g).Ok? then Ok(Discover(g).value.(layout := ShiftLayout(Discover(g).value.layout, k)))
              else Discover(g)
  {
    hide Hits, LayoutAt, FirstVoucherRow, Missing, ShiftLayout;
    ShiftedHits(g, "GutscheinNr", k, |g|);
    var hits := Hits(g, "GutscheinNr", |g|);
    if |hits| == 1 {
      assert hits[0] in hits;
      ShiftedLayoutAt(g, hits[0], k);
      ShiftedMissing(LayoutAt(g, hits[0]), k);
      ShiftedFirstVoucherRow(g, k, hits[0].row + 1);
      ShiftKeepsVoucher(LayoutAt(g, hits[0]), k);
    }
  }

  lemma ShiftKeepsVoucher(layout: Layout, k: nat)
    ensures GutscheinNr in ShiftLayout(layout, k) <==> GutscheinNr in layout
  {
  }

  lemma ShiftedLayoutAt(g: Grid, p: Pos, k: nat)
    requires p.row < |g|
    ensures LayoutAt(Shift(g, k), Pos(p.row, p.col + k)) == ShiftLayout(LayoutAt(g, p), k)
  {
    hide LayoutOf, MapBelow, ColumnsTitled;
    var cells, sub := g[p.row], RowBelow(g, p.row);
    ShiftedMap(cells, k, |cells|);
    ShiftedColumns(cells, "BuT", k, |cells|);
    NoColumns();
    var shifted := RowBelow(Shift(g, k), p.row);
    if p.row + 1 < |g| { ShiftedMap(sub, k, |sub|); }
    assert MapBelow(shifted, |shifted|) == ShiftMap(MapBelow(sub, |sub|), k);
    ShiftedLayout(MapBelow(cells, |cells|), MapBelow(sub, |sub|), p.col, ColumnsTitled(cells, "BuT", |cells|), k);
  }

  lemma ShiftedTexts(g: Grid, layout: Layout, k: nat, row: nat)
    ensures RowTexts(Shift(g, k), ShiftLayout(layout, k), row) == RowTexts(g, layout, row)
  {
    hide CellText;
    forall f | f in layout ensures CellText(Shift(g, k), row, layout[f] + k) == CellText(g, row, layout[f]) {
      ShiftedCell(g, k, row, layout[f]);
    }
  }

  lemma {:induction false} ShiftedTableEnd(g: Grid, col: nat, k: nat, r: nat)
    ensures TableEnd(Shift(g, k), col + k, r) == TableEnd(g, col, r)
    decreases |g| - r
  {
    hide CellText, IsTerminator;
    ShiftedCell(g, k, r, col);
    if r < |g| { ShiftedTableEnd(g, col, k, r + 1); }
  }

  lemma {:induction false} ShiftedVoucherRows(g: Grid, col: nat, k: nat, r: nat, e: nat)
    ensures VoucherRows(Shift(g, k), col + k, r, e) == VoucherRows(g, col, r, e)
    decreases e - r
  {
    hide CellText, IsVoucher;
    ShiftedCell(g, k, r, col);
    if r < e { ShiftedVoucherRows(g, col, k, r + 1, e); }
  }

  lemma {:induction false} ScanShifts(env: Env, g: Grid, layout: Layout, k: nat, row: nat)
    requires GutscheinNr in layout
    ensures Scan(env, Shift(g, k), ShiftLayout(layout, k), row) == Scan(env, g, layout, row)
    decreases |g| - row
  {
    hide CellText, IsVoucher, IsTerminator, KindOf, RowTexts;
    var col := layout[GutscheinNr];
    ShiftedCell(g, k, row, col);
    ShiftedTableEnd(g, col, k, row + 1);
    ShiftedVoucherRows(g, col, k, row + 1, TableEnd(g, col, row + 1));
    ShiftedTexts(g, layout, k, row);
    OutsideIsBlank(g, row, col);
    if row < |g| { ScanShifts(env, g, layout, k, row + 1); }
  }

  /** Inserting blank columns on the left changes no parsed row and no error. */
  lemma ParsedShifts(env: Env, g: Grid, k: nat)
    ensures Parsed(env, Shift(g, k)) == Parsed(env, g)
  {
    hide Discover, Scan;
    DiscoverShifts(g, k);
    if Discover(g).Ok? {
      ScanShifts(env, g, Discover(g).value.layout, k, Discover(g).value.dataStart);
    }
  }

  // ----- the loops

  method RemainingVoucherRows(g: Grid, col: nat, from: nat) returns (count: nat)
    ensures count == Remaining(g, col, from)
  {
    hide CellText, IsVoucher, IsTerminator;
    count := 0;
    var i := from + 1;
    ghost var end := TableEnd(g, col, from + 1);
    while i < |g|
      invariant from + 1 <= i && (i <= end || from + 1 >= |g|)
      invariant count + |VoucherRows(g, col, i, end)| == Remaining(g, col, from)
      invariant TableEnd(g, col, i) == end
    {
      var cell := CellText(g, i, col);
      if IsTerminator(cell) { break; }
      if IsVoucher(cell) { count := count + 1; }
      i := i + 1;
    }
  }

  method ParseVertrag(env: Env, g: Grid) returns (r: Result<seq<Kind>, SheetError>)
    ensures r == Parsed(env, g)
  {
    hide CellText, IsVoucher, IsTerminator, KindOf, RowTexts, Remaining, Discover;
    var columns := DiscoverColumns(g);
    if columns.Err? { return Err(columns.error); }
    var layout, row := columns.value.layout, columns.value.dataStart;
    var kinder: seq<Kind> := [];
    PrependNothing(Scan(env, g, layout, row));
    while true
      invariant Parsed(env, g) == PrependAll(kinder, Scan(env, g, layout, row))
      invariant GutscheinNr in layout
      decreases |g| - row
    {
      var col := layout[GutscheinNr];
      var voucher := CellText(g, row, col);
      OutsideIsBlank(g, row, col);
      if IsTerminator(voucher) { break; }
      if voucher == "" {
        var rest := RemainingVoucherRows(g, col, row);
        if rest > 0 { return Err(HoleInTable(row, rest)); }
        break;
      }
      if !IsVoucher(voucher) { return Err(NotAVoucher(row)); }
      var kind := KindOf(env, RowTexts(g, layout, row), row);
      if kind.Err? { return Err(kind.error); }
      PrependMore(kinder, kind.value, Scan(env, g, layout, row + 1));
      kinder := kinder + [kind.value];
      row := row + 1;
    }
    assert kinder + [] == kinder;
    r := Ok(kinder);
  }

  function PrependAll(ks: seq<Kind>, r: Result<seq<Kind>, SheetError>): Result<seq<Kind>, SheetError>
  {
    if r.Ok? then Ok(ks + r.value) else r
  }

  lemma PrependNothing(r: Result<seq<Kind>, SheetError>)
    ensures PrependAll([], r) == r
  {
    if r.Ok? { assert [] + r.value == r.value; }
  }

  lemma PrependMore(ks: seq<Kind>, k: Kind, r: Result<seq<Kind>, SheetError>)
    ensures PrependAll(ks, Prepend(k, r)) == PrependAll(ks + [k], r)
  {
    if r.Ok? { assert ks + ([k] + r.value) == ks + [k] + r.value; }
  }

  method DiscoverColumns(g: Grid) returns (r: Result<Columns, SheetError>)
    ensures r == Discover(g)
  {
    hide LayoutOf, MapBelow, HasVoucher, Missing, Hits, TrimSpace;
    NoColumns();
    var hits := Hits(g, "GutscheinNr", |g|);
    if |hits| != 1 { return Err(HeaderFound(|hits|)); }
    assert hits[0] in hits;
    var row := hits[0].row;
    var header := BuildColumnMap(g[row]);
    var sub: ColumnMap := map[];
    if row + 1 < |g| { sub := BuildColumnMap(g[row + 1]); }
    var butCols: seq<nat> := [];
    for j := 0 to |g[row]|
      invariant butCols == ColumnsTitled(g[row], "BuT", j)
    {
      if TrimSpace(g[row][j]) == "BuT" { butCols := butCols + [j]; }
    }
    var layout := LayoutOf(header, sub, hits[0].col, butCols);
    var missing := Missing(layout);
    if missing != {} { return Err(MissingColumns(missing)); }
    var i := row + 1;
    while i < |g|
      invariant row + 1 <= i <= |g|
      invariant FirstVoucherRow(g, row + 1) == FirstVoucherRow(g, i)
    {
      if HasVoucher(g[i]) { return Ok(Columns(layout, row, i)); }
      i := i + 1;
    }
    r := Err(NoVoucherRows);
  }
}
