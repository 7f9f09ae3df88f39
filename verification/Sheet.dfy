/** A worksheet as rows of cells, the header search, and the maps from header text to column. */
module Sheet {
  import opened Text

  /** Rows may differ in length; a cell outside its row reads as blank. Rows and columns are 0-based. */
  type Grid = seq<seq<string>>

  function CellText(g: Grid, row: nat, col: nat): string
  {
    if row < |g| && col < |g[row]| then TrimSpace(g[row][col]) else ""
  }

  /** Inside its row a cell reads as its text without the white space around it, and outside as blank. */
  lemma CellTextIff(g: Grid, row: nat, col: nat, text: string)
    ensures CellText(g, row, col) == text <==>
              if row < |g| && col < |g[row]| then exists before, after :: Surrounded(g[row][col], text, before, after)
              else text == ""
  {
    hide TrimSpace, Surrounded;
    if row < |g| && col < |g[row]| { TrimSpaceIff(g[row][col], text); }
  }

  // ----- the header search

  datatype Pos = Pos(row: nat, col: nat)

  function RowHits(cells: seq<string>, header: string, row: nat, n: nat): (hits: seq<Pos>)
    requires n <= |cells|
    ensures forall h :: h in hits ==> h.row == row
  {
    if n == 0 then []
    else RowHits(cells, header, row, n - 1) + if Contains(cells[n - 1], header) then [Pos(row, n - 1)] else []
  }

  /** Every cell of the first n rows that contains the header text. */
  function Hits(g: Grid, header: string, n: nat): (hits: seq<Pos>)
    requires n <= |g|
    ensures forall h :: h in hits ==> h.row < n
  {
    if n == 0 then [] else Hits(g, header, n - 1) + RowHits(g[n - 1], header, n - 1, |g[n - 1]|)
  }

  /** The cell that contains the header, if it is the only one. */
  function HeaderAt(g: Grid, header: string): Option<Pos>
  {
    var hits := Hits(g, header, |g|);
    if |hits| == 1 then Some(hits[0]) else None
  }

  lemma {:induction false} RowHitsContain(cells: seq<string>, header: string, row: nat, n: nat, h: Pos)
    requires n <= |cells| && h in RowHits(cells, header, row, n)
    ensures h.col < |cells| && Contains(cells[h.col], header)
  {
    hide Contains;
    if h in RowHits(cells, header, row, n - 1) { RowHitsContain(cells, header, row, n - 1, h); }
  }

  lemma {:induction false} HitsContain(g: Grid, header: string, n: nat, h: Pos)
    requires n <= |g| && h in Hits(g, header, n)
    ensures h.row < n && h.col < |g[h.row]| && Contains(g[h.row][h.col], header)
  {
    hide Contains, RowHits;
    if h in Hits(g, header, n - 1) {
      HitsContain(g, header, n - 1, h);
    } else {
      RowHitsContain(g[n - 1], header, n - 1, |g[n - 1]|, h);
    }
  }

  // ----- what the search finds

  /** A cell of the sheet that contains the header. */
  predicate Carries(g: Grid, header: string, p: Pos)
  {
    p.row < |g| && p.col < |g[p.row]| && Contains(g[p.row][p.col], header)
  }

  /** The one cell of the sheet that contains the header. */
  ghost predicate OnlyCell(g: Grid, header: string, p: Pos)
  {
    Carries(g, header, p) && forall q :: Carries(g, header, q) ==> q == p
  }

  lemma {:induction false} RowHitsAll(cells: seq<string>, header: string, row: nat, n: nat, h: Pos)
    requires n <= |cells|
    ensures h in RowHits(cells, header, row, n) <==> h.row == row && h.col < n && Contains(cells[h.col], header)
  {
    hide Contains;
    if n > 0 { RowHitsAll(cells, header, row, n - 1, h); }
  }

  lemma {:induction false} HitsAll(g: Grid, header: string, n: nat, h: Pos)
    requires n <= |g|
    ensures h in Hits(g, header, n) <==> h.row < n && Carries(g, header, h)
  {
    hide Contains, RowHits;
    if n > 0 {
      HitsAll(g, header, n - 1, h);
      RowHitsAll(g[n - 1], header, n - 1, |g[n - 1]|, h);
    }
  }

  lemma {:induction false} RowHitsOnce(cells: seq<string>, header: string, row: nat, n: nat, i: nat, j: nat)
    requires n <= |cells| && i < j < |RowHits(cells, header, row, n)|
    ensures RowHits(cells, header, row, n)[i] != RowHits(cells, header, row, n)[j]
  {
    hide Contains;
    if j < |RowHits(cells, header, row, n - 1)| {
      RowHitsOnce(cells, header, row, n - 1, i, j);
    } else {
      RowHitsAll(cells, header, row, n - 1, RowHits(cells, header, row, n - 1)[i]);
    }
  }

  lemma {:induction false} HitsOnce(g: Grid, header: string, n: nat, i: nat, j: nat)
    requires n <= |g| && i < j < |Hits(g, header, n)|
    ensures Hits(g, header, n)[i] != Hits(g, header, n)[j]
  {
    hide Contains, RowHits;
    var before, last := Hits(g, header, n - 1), RowHits(g[n - 1], header, n - 1, |g[n - 1]|);
    if j < |before| {
      HitsOnce(g, header, n - 1, i, j);
    } else if i < |before| {
      assert Hits(g, header, n)[i] in before && Hits(g, header, n)[j] in last;
    } else {
      RowHitsOnce(g[n - 1], header, n - 1, |g[n - 1]|, i - |before|, j - |before|);
    }
  }

  /** A header is found exactly where it is the only one. */
  lemma HeaderAtIff(g: Grid, header: string, p: Pos)
    ensures HeaderAt(g, header) == Some(p) <==> OnlyCell(g, header, p)
  {
    hide Contains, Carries;
    var hits := Hits(g, header, |g|);
    forall q ensures q in hits <==> Carries(g, header, q) {
      HitsAll(g, header, |g|, q);
      if Carries(g, header, q) { CarriesInside(g, header, q); }
    }
    assert |hits| > 1 ==> hits[0] in hits && hits[1] in hits;
    assert |hits| == 1 ==> forall q :: q in hits <==> q == hits[0];
    if |hits| > 1 { HitsOnce(g, header, |g|, 0, 1); }
  }

  lemma CarriesInside(g: Grid, header: string, p: Pos)
    requires Carries(g, header, p)
    ensures p.row < |g|
  {
  }

  // ----- header text to column

  function NoLineBreaks(s: string): (t: string)
  {
    seq(|s|, i requires 0 <= i < |s| => if s[i] == '\n' || s[i] == '\r' then ' ' else s[i])
  }

  function NormalizeHeaderCell(cell: string): string
  {
    TrimSpace(NoLineBreaks(cell))
  }

  lemma {:induction false} TrimLeftCommutes(s: string)
    ensures TrimLeft(NoLineBreaks(s)) == NoLineBreaks(TrimLeft(s))
  {
    if s != "" && IsSpace(s[0]) {
      assert NoLineBreaks(s)[1..] == NoLineBreaks(s[1..]);
      TrimLeftCommutes(s[1..]);
    }
  }

  lemma {:induction false} TrimRightCommutes(s: string)
    ensures TrimRight(NoLineBreaks(s)) == NoLineBreaks(TrimRight(s))
  {
    if s != "" && IsSpace(s[|s| - 1]) {
      assert NoLineBreaks(s)[..|s| - 1] == NoLineBreaks(s[..|s| - 1]);
      TrimRightCommutes(s[..|s| - 1]);
    }
  }

  /** Line breaks are white space, so it does not matter whether they are replaced before or after trimming. */
  lemma NormalizeAfterTrim(cell: string)
    ensures NormalizeHeaderCell(cell) == NoLineBreaks(TrimSpace(cell))
  {
    hide NoLineBreaks, IsSpace;
    TrimLeftCommutes(cell);
    TrimRightCommutes(TrimLeft(cell));
  }

  /** The header text is the trimmed cell with a space for every line feed and carriage return. */
  lemma HeaderTextIff(cell: string, text: string)
    ensures NormalizeHeaderCell(cell) == text <==>
              && |text| == |TrimSpace(cell)|
              && forall i :: 0 <= i < |text| ==>
                   text[i] == if TrimSpace(cell)[i] in "\n\r" then ' ' else TrimSpace(cell)[i]
  {
    NormalizeAfterTrim(cell);
  }

  lemma {:induction false} TrimLeftKeeps(s: string, c: char)
    requires c in s && !IsSpace(c)
    ensures c in TrimLeft(s)
  {
    if IsSpace(s[0]) { TrimLeftKeeps(s[1..], c); }
  }

  lemma {:induction false} TrimRightKeeps(s: string, c: char)
    requires c in s && !IsSpace(c)
    ensures c in TrimRight(s)
  {
    if IsSpace(s[|s| - 1]) { TrimRightKeeps(s[..|s| - 1], c); }
  }

  /** A character that is no white space survives normalisation. */
  lemma NormalizeKeeps(cell: string, c: char)
    requires c in cell && !IsSpace(c)
    ensures c in NormalizeHeaderCell(cell)
  {
    var i :| 0 <= i < |cell| && cell[i] == c;
    assert NoLineBreaks(cell)[i] == c;
    hide NoLineBreaks, IsSpace;
    TrimLeftKeeps(NoLineBreaks(cell), c);
    TrimRightKeeps(TrimLeft(NoLineBreaks(cell)), c);
  }

  type ColumnMap = map<string, nat>

  /** Each header text of the first n cells with its last column. */
  function MapBelow(cells: seq<string>, n: nat): (m: ColumnMap)
    requires n <= |cells|
  {
    if n == 0 then map[]
    else
      var m := MapBelow(cells, n - 1);
      var text := NormalizeHeaderCell(cells[n - 1]);
      if text == "" then m else m[text := n - 1]
  }

  /** The map knows exactly the texts that occur, each with the last column that carries it. */
  lemma {:induction false} MapFindsLast(cells: seq<string>, n: nat, text: string)
    requires n <= |cells|
    ensures var m := MapBelow(cells, n);
            && (text in m ==> m[text] < n && NormalizeHeaderCell(cells[m[text]]) == text && text != "")
            && (forall j :: 0 <= j < n && NormalizeHeaderCell(cells[j]) == text && text != "" ==>
          text in m && j <= m[text])
  {
    hide NormalizeHeaderCell;
    if n > 0 { MapFindsLast(cells, n - 1, text); }
  }

  method BuildColumnMap(cells: seq<string>) returns (m: ColumnMap)
    ensures m == MapBelow(cells, |cells|)
  {
    hide NormalizeHeaderCell;
    m := map[];
    for j := 0 to |cells|
      invariant m == MapBelow(cells, j)
    {
      var trimmed := NormalizeHeaderCell(cells[j]);
      if trimmed != "" { m := m[trimmed := j]; }
    }
  }

  /** The columns among the first n whose trimmed text is exactly the given one. */
  function ColumnsTitled(cells: seq<string>, title: string, n: nat): seq<nat>
    requires n <= |cells|
  {
    if n == 0 then []
    else ColumnsTitled(cells, title, n - 1) + if TrimSpace(cells[n - 1]) == title then [n - 1] else []
  }

  lemma {:induction false} TitledMembers(cells: seq<string>, title: string, n: nat, i: nat)
    requires n <= |cells| && i < |ColumnsTitled(cells, title, n)|
    ensures var j := ColumnsTitled(cells, title, n)[i]; j < n && TrimSpace(cells[j]) == title
  {
    hide TrimSpace;
    if i < |ColumnsTitled(cells, title, n - 1)| { TitledMembers(cells, title, n - 1, i); }
  }

  // ----- inserting blank columns on the left

  function Blanks(k: nat): (b: seq<string>)
    ensures |b| == k
  {
    seq(k, _ => "")
  }

  function Shift(g: Grid, k: nat): (s: Grid)
    ensures |s| == |g| && forall r :: 0 <= r < |g| ==> s[r] == Blanks(k) + g[r]
  {
    seq(|g|, r requires 0 <= r < |g| => Blanks(k) + g[r])
  }

  function ShiftMap(m: ColumnMap, k: nat): ColumnMap
  {
    map text | text in m :: m[text] + k
  }

  function ShiftHits(hits: seq<Pos>, k: nat): (s: seq<Pos>)
    ensures |s| == |hits| && forall i :: 0 <= i < |hits| ==> s[i] == Pos(hits[i].row, hits[i].col + k)
  {
    seq(|hits|, i requires 0 <= i < |hits| => Pos(hits[i].row, hits[i].col + k))
  }

  function ShiftColumns(cols: seq<nat>, k: nat): (s: seq<nat>)
    ensures |s| == |cols| && forall i :: 0 <= i < |cols| ==> s[i] == cols[i] + k
  {
    seq(|cols|, i requires 0 <= i < |cols| => cols[i] + k)
  }

  lemma BlankTexts(header: string)
    requires header != ""
    ensures !Contains("", header) && NormalizeHeaderCell("") == "" && TrimSpace("") == ""
  {
  }

  lemma ShiftedCell(g: Grid, k: nat, row: nat, col: nat)
    ensures CellText(Shift(g, k), row, col + k) == CellText(g, row, col)
  {
    hide TrimSpace;
    if row < |g| && col < |g[row]| {
      assert (Blanks(k) + g[row])[col + k] == g[row][col];
    }
  }

  lemma {:induction false} ShiftedRowHits(cells: seq<string>, header: string, row: nat, k: nat, n: nat)
    requires header != "" && n <= |cells|
    ensures RowHits(Blanks(k) + cells, header, row, k + n) == ShiftHits(RowHits(cells, header, row, n), k)
  {
    if n == 0 {
      BlankRowHits(cells, header, row, k, k);
    } else {
      ShiftedRowHits(cells, header, row, k, n - 1);
      assert (Blanks(k) + cells)[k + n - 1] == cells[n - 1];
    }
  }

  lemma {:induction false} BlankRowHits(cells: seq<string>, header: string, row: nat, k: nat, n: nat)
    requires header != "" && n <= k
    ensures RowHits(Blanks(k) + cells, header, row, n) == []
  {
    if n > 0 {
      BlankRowHits(cells, header, row, k, n - 1);
      BlankTexts(header);
      assert (Blanks(k) + cells)[n - 1] == "";
    }
  }

  lemma ShiftHitsConcat(a: seq<Pos>, b: seq<Pos>, k: nat)
    ensures ShiftHits(a + b, k) == ShiftHits(a, k) + ShiftHits(b, k)
  {
  }

  lemma {:induction false} ShiftedHits(g: Grid, header: string, k: nat, n: nat)
    requires header != "" && n <= |g|
    ensures Hits(Shift(g, k), header, n) == ShiftHits(Hits(g, header, n), k)
  {
    hide RowHits, ShiftHits, Blanks, Contains;
    if n > 0 {
      ShiftedHits(g, header, k, n - 1);
      ShiftedRowHits(g[n - 1], header, n - 1, k, |g[n - 1]|);
      ShiftHitsConcat(Hits(g, header, n - 1), RowHits(g[n - 1], header, n - 1, |g[n - 1]|), k);
    }
  }

  lemma {:induction false} ShiftedMap(cells: seq<string>, k: nat, n: nat)
    requires n <= |cells|
    ensures MapBelow(Blanks(k) + cells, k + n) == ShiftMap(MapBelow(cells, n), k)
  {
    hide NormalizeHeaderCell;
    if n == 0 {
      BlankMap(cells, k, k);
    } else {
      ShiftedMap(cells, k, n - 1);
      assert (Blanks(k) + cells)[k + n - 1] == cells[n - 1];
    }
  }

  lemma {:induction false} BlankMap(cells: seq<string>, k: nat, n: nat)
    requires n <= k
    ensures MapBelow(Blanks(k) + cells, n) == map[]
  {
    if n > 0 {
      BlankMap(cells, k, n - 1);
      BlankTexts("x");
      assert (Blanks(k) + cells)[n - 1] == "";
    }
  }

  lemma {:induction false} ShiftedColumns(cells: seq<string>, title: string, k: nat, n: nat)
    requires n <= |cells| && title != ""
    ensures ColumnsTitled(Blanks(k) + cells, title, k + n) == ShiftColumns(ColumnsTitled(cells, title, n), k)
  {
    hide TrimSpace;
    if n == 0 {
      BlankColumns(cells, title, k, k);
    } else {
      ShiftedColumns(cells, title, k, n - 1);
      assert (Blanks(k) + cells)[k + n - 1] == cells[n - 1];
    }
  }

  lemma {:induction false} BlankColumns(cells: seq<string>, title: string, k: nat, n: nat)
    requires n <= k && title != ""
    ensures ColumnsTitled(Blanks(k) + cells, title, n) == []
  {
    if n > 0 {
      BlankColumns(cells, title, k, n - 1);
      BlankTexts(title);
      assert (Blanks(k) + cells)[n - 1] == "";
    }
  }
}
