/** Grouping converted rows by voucher. */
module Grouping {
  import opened Bill
  import opened ConvertRow

  datatype Child = Child(
    voucher: string, childName: string, birthDate: string, district: int, total: int, rows: seq<Row>)

  // ----- the grouping, one line at a time

  /** The first child from i on with the given voucher, or |children|. */
  function IndexOf(children: seq<Child>, voucher: string, i: nat): (k: nat)
    requires i <= |children|
    ensures i <= k <= |children|
    ensures k < |children| ==> children[k].voucher == voucher
    ensures forall j :: i <= j < k ==> children[j].voucher != voucher
    decreases |children| - i
  {
    if i == |children| || children[i].voucher == voucher then i else IndexOf(children, voucher, i + 1)
  }

  function AddLine(children: seq<Child>, l: Line): seq<Child>
  {
    var i := IndexOf(children, l.voucher, 0);
    if i < |children| then
      children[i := children[i].(rows := children[i].rows + [l.row], total := children[i].total + l.row.total)]
    else
      children + [Child(l.voucher, l.childName, l.birthDate, l.district, l.row.total, [l.row])]
  }

  function Group(lines: seq<Line>): seq<Child>
  {
    if lines == [] then [] else AddLine(Group(lines[..|lines| - 1]), lines[|lines| - 1])
  }

  // ----- what grouping means

  /** The rows of one voucher, in input order. */
  function RowsOf(lines: seq<Line>, voucher: string): seq<Row>
  {
    if lines == [] then []
    else
      var n := |lines| - 1;
      RowsOf(lines[..n], voucher) + if lines[n].voucher == voucher then [lines[n].row] else []
  }

  /** The rows of a voucher are those of its lines, one for one and in order. */
  lemma {:induction false} RowsOfLines(lines: seq<Line>, voucher: string) returns (at: seq<nat>)
    ensures forall i: nat :: i in at <==> i < |lines| && lines[i].voucher == voucher
    ensures forall x, y :: 0 <= x < y < |at| ==> at[x] < at[y]
    ensures |at| == |RowsOf(lines, voucher)|
    ensures forall x :: 0 <= x < |at| ==> at[x] < |lines| && RowsOf(lines, voucher)[x] == lines[at[x]].row
  {
    if lines == [] {
      at := [];
    } else {
      var n := |lines| - 1;
      var before := RowsOfLines(lines[..n], voucher);
      assert forall x :: 0 <= x < |before| ==> before[x] in before;
      at := before + if lines[n].voucher == voucher then [n] else [];
    }
  }

  function SumTotals(rows: seq<Row>): int
  {
    if rows == [] then 0 else SumTotals(rows[..|rows| - 1]) + rows[|rows| - 1].total
  }

  /** The position of the first line with the given voucher, or |lines|. */
  function FirstLine(lines: seq<Line>, voucher: string): (i: nat)
    ensures i <= |lines|
    ensures i < |lines| ==> lines[i].voucher == voucher
    ensures forall j :: 0 <= j < i ==> lines[j].voucher != voucher
  {
    if lines == [] then 0
    else
      var n := |lines| - 1;
      var i := FirstLine(lines[..n], voucher);
      if i < n || lines[n].voucher == voucher then i else n + 1
  }

  /** Metadata comes from the voucher's first line, the rows are all of the voucher's rows in input order. */
  ghost predicate Represents(lines: seq<Line>, c: Child)
  {
    var first := FirstLine(lines, c.voucher);
    && first < |lines|
    && c.childName == lines[first].childName && c.birthDate == lines[first].birthDate
    && c.district == lines[first].district
    && c.rows == RowsOf(lines, c.voucher)
    && c.total == SumTotals(c.rows)
  }

  /** Children have distinct vouchers in order of first appearance; together they have every voucher. */
  ghost predicate StablePartition(lines: seq<Line>, children: seq<Child>)
  {
    && (forall i :: 0 <= i < |children| ==> Represents(lines, children[i]))
    && (forall i, j :: 0 <= i < j < |children| ==>
          FirstLine(lines, children[i].voucher) < FirstLine(lines, children[j].voucher))
    && (forall l :: l in lines ==> IndexOf(children, l.voucher, 0) < |children|)
  }

  lemma FirstLineSnoc(lines: seq<Line>, voucher: string)
    requires lines != []
    ensures var n := |lines| - 1;
            FirstLine(lines[..n], voucher) < n ==> FirstLine(lines, voucher) == FirstLine(lines[..n], voucher)
  {
  }

  lemma SumTotalsSnoc(rows: seq<Row>, r: Row)
    ensures SumTotals(rows + [r]) == SumTotals(rows) + r.total
  {
    assert (rows + [r])[..|rows|] == rows;
  }

  lemma {:induction false} NoRows(lines: seq<Line>, voucher: string)
    requires FirstLine(lines, voucher) == |lines|
    ensures RowsOf(lines, voucher) == []
  {
    if lines != [] {
      var n := |lines| - 1;
      assert lines[n].voucher != voucher;
      NoRows(lines[..n], voucher);
    }
  }

  /** A child that the new line does not belong to still represents its voucher. */
  lemma OthersStay(lines: seq<Line>, c: Child)
    requires lines != [] && Represents(lines[..|lines| - 1], c) && c.voucher != lines[|lines| - 1].voucher
    ensures Represents(lines, c)
  {
    FirstLineSnoc(lines, c.voucher);
    assert RowsOf(lines, c.voucher) == RowsOf(lines[..|lines| - 1], c.voucher);
  }

  /** A child that the new line belongs to represents its voucher with the row appended. */
  lemma OneGrows(lines: seq<Line>, c: Child)
    requires lines != [] && Represents(lines[..|lines| - 1], c) && c.voucher == lines[|lines| - 1].voucher
    ensures var r := lines[|lines| - 1].row; Represents(lines, c.(rows := c.rows + [r], total := c.total + r.total))
  {
    FirstLineSnoc(lines, c.voucher);
    SumTotalsSnoc(c.rows, lines[|lines| - 1].row);
  }

  lemma OneAppears(lines: seq<Line>)
    requires lines != [] && FirstLine(lines[..|lines| - 1], lines[|lines| - 1].voucher) == |lines| - 1
    ensures var l := lines[|lines| - 1];
            Represents(lines, Child(l.voucher, l.childName, l.birthDate, l.district, l.row.total, [l.row]))
  {
    var n := |lines| - 1;
    var l := lines[n];
    NoRows(lines[..n], l.voucher);
    SumTotalsSnoc([], l.row);
    assert [] + [l.row] == [l.row];
  }

  lemma AddRepresents(lines: seq<Line>, before: seq<Child>, i: nat)
    requires lines != [] && StablePartition(lines[..|lines| - 1], before)
    requires i < |AddLine(before, lines[|lines| - 1])|
    ensures Represents(lines, AddLine(before, lines[|lines| - 1])[i])
  {
    var n := |lines| - 1;
    var k := IndexOf(before, lines[n].voucher, 0);
    KnownIffSeen(lines[..n], before, lines[n].voucher);
    hide Represents;
    if i == |before| {
      OneAppears(lines);
    } else if i == k {
      OneGrows(lines, before[i]);
    } else {
      if k < |before| { SameVoucherSameChild(lines[..n], before, i, k); }
      OthersStay(lines, before[i]);
    }
  }

  lemma AddKeepsVouchers(before: seq<Child>, l: Line)
    ensures var after := AddLine(before, l);
            && |before| <= |after|
            && (forall i :: 0 <= i < |before| ==> after[i].voucher == before[i].voucher)
            && (|before| < |after| ==> after[|before|].voucher == l.voucher && |after| == |before| + 1)
            && (|after| == |before| ==> IndexOf(before, l.voucher, 0) < |before|)
            && (|before| < |after| ==> IndexOf(before, l.voucher, 0) == |before|)
  {
  }

  lemma FirstOfChild(lines: seq<Line>, before: seq<Child>, i: nat)
    requires lines != [] && StablePartition(lines[..|lines| - 1], before) && i < |before|
    ensures var n, v := |lines| - 1, before[i].voucher;
            FirstLine(lines, v) == FirstLine(lines[..n], v) < n
  {
    hide RowsOf, SumTotals;
    assert Represents(lines[..|lines| - 1], before[i]);
    FirstLineSnoc(lines, before[i].voucher);
  }

  lemma FirstSeenLast(lines: seq<Line>)
    requires lines != []
    ensures var n := |lines| - 1;
            FirstLine(lines[..n], lines[n].voucher) == n ==> FirstLine(lines, lines[n].voucher) == n
  {
  }

  lemma AddKeepsOrder(lines: seq<Line>, before: seq<Child>, i: nat, j: nat)
    requires lines != [] && StablePartition(lines[..|lines| - 1], before)
    requires i < j < |AddLine(before, lines[|lines| - 1])|
    ensures var after := AddLine(before, lines[|lines| - 1]);
            FirstLine(lines, after[i].voucher) < FirstLine(lines, after[j].voucher)
  {
    hide AddLine, Represents, FirstLine;
    var n := |lines| - 1;
    AddKeepsVouchers(before, lines[n]);
    FirstOfChild(lines, before, i);
    if j < |before| {
      FirstOfChild(lines, before, j);
    } else {
      FirstSeenLast(lines);
      KnownIffSeen(lines[..n], before, lines[n].voucher);
    }
  }

  lemma AddKnowsAll(lines: seq<Line>, before: seq<Child>, m: Line)
    requires lines != [] && StablePartition(lines[..|lines| - 1], before) && m in lines
    ensures var after := AddLine(before, lines[|lines| - 1]); IndexOf(after, m.voucher, 0) < |after|
  {
    hide AddLine, Represents;
    var n := |lines| - 1;
    AddKeepsVouchers(before, lines[n]);
    var after := AddLine(before, lines[n]);
    if m in lines[..n] {
      assert after[IndexOf(before, m.voucher, 0)].voucher == m.voucher;
    } else {
      assert m == lines[n];
      assert after[IndexOf(before, m.voucher, 0)].voucher == m.voucher;
    }
  }

  /** Grouping is a stable partition. */
  lemma {:induction false} GroupIsStablePartition(lines: seq<Line>)
    ensures StablePartition(lines, Group(lines))
  {
    hide AddLine, Represents;
    if lines != [] {
      var n := |lines| - 1;
      var before, after := Group(lines[..n]), Group(lines);
      GroupIsStablePartition(lines[..n]);
      forall i | 0 <= i < |after| ensures Represents(lines, after[i]) { AddRepresents(lines, before, i); }
      forall i, j | 0 <= i < j < |after|
      ensures FirstLine(lines, after[i].voucher) < FirstLine(lines, after[j].voucher)
    {
        AddKeepsOrder(lines, before, i, j);
      }
      forall m | m in lines ensures IndexOf(after, m.voucher, 0) < |after| { AddKnowsAll(lines, before, m); }
    }
  }

  lemma KnownIffSeen(lines: seq<Line>, children: seq<Child>, voucher: string)
    requires StablePartition(lines, children)
    ensures IndexOf(children, voucher, 0) < |children| <==> FirstLine(lines, voucher) < |lines|
  {
    if FirstLine(lines, voucher) < |lines| { assert lines[FirstLine(lines, voucher)] in lines; }
  }

  lemma SameVoucherSameChild(lines: seq<Line>, children: seq<Child>, i: nat, j: nat)
    requires StablePartition(lines, children) && i < |children| && j < |children| && i != j
    ensures children[i].voucher != children[j].voucher
  {
    assert FirstLine(lines, children[i].voucher) != FirstLine(lines, children[j].voucher);
  }

  function Vouchers(lines: seq<Line>): set<string>
  {
    set l | l in lines :: l.voucher
  }

  /** ChildrenCount is the number of distinct vouchers. */
  lemma ChildrenAreVouchers(lines: seq<Line>, children: seq<Child>)
    requires StablePartition(lines, children)
    ensures |children| == |Vouchers(lines)|
  {
    forall i, j | 0 <= i < j < |children| ensures children[i].voucher != children[j].voucher {
      SameVoucherSameChild(lines, children, i, j);
    }
    DistinctCount(children);
    var named := set c | c in children :: c.voucher;
    forall v | v in named ensures v in Vouchers(lines) {
      var i :| 0 <= i < |children| && children[i].voucher == v;
      assert Represents(lines, children[i]);
      assert lines[FirstLine(lines, v)] in lines;
    }
    forall v | v in Vouchers(lines) ensures v in named {
      var l :| l in lines && l.voucher == v;
      assert children[IndexOf(children, v, 0)] in children;
    }
    assert named == Vouchers(lines);
  }

  lemma {:induction false} DistinctCount(children: seq<Child>)
    requires forall i, j :: 0 <= i < j < |children| ==> children[i].voucher != children[j].voucher
    ensures |set c | c in children :: c.voucher| == |children|
  {
    if children != [] {
      var n := |children| - 1;
      DistinctCount(children[..n]);
      var named := set c | c in children :: c.voucher;
      var fewer := set c | c in children[..n] :: c.voucher;
      assert children == children[..n] + [children[n]];
      assert named == fewer + {children[n].voucher};
      assert children[n].voucher !in fewer;
    }
  }

  // ----- conservation of money

  function LineTotals(lines: seq<Line>): int
  {
    if lines == [] then 0 else LineTotals(lines[..|lines| - 1]) + lines[|lines| - 1].row.total
  }

  function ChildTotals(children: seq<Child>): int
  {
    if children == [] then 0 else ChildTotals(children[..|children| - 1]) + children[|children| - 1].total
  }

  function RowAmounts(rows: seq<Row>): int
  {
    if rows == [] then 0 else RowAmounts(rows[..|rows| - 1]) + Sum(rows[|rows| - 1].amounts)
  }

  /** Everything the children's rows emit. */
  function EmittedAmounts(children: seq<Child>): int
  {
    if children == [] then 0
    else EmittedAmounts(children[..|children| - 1]) + RowAmounts(children[|children| - 1].rows)
  }

  lemma {:induction false} ChildUpdate(children: seq<Child>, i: nat, c: Child)
    requires i < |children|
    ensures ChildTotals(children[i := c]) == ChildTotals(children) - children[i].total + c.total
    ensures EmittedAmounts(children[i := c])
         == EmittedAmounts(children) - RowAmounts(children[i].rows) + RowAmounts(c.rows)
  {
    var n := |children| - 1;
    if i == n {
      assert children[i := c][..n] == children[..n];
    } else {
      assert children[i := c][..n] == children[..n][i := c];
      ChildUpdate(children[..n], i, c);
    }
  }

  lemma RowAmountsSnoc(rows: seq<Row>, r: Row)
    ensures RowAmounts(rows + [r]) == RowAmounts(rows) + Sum(r.amounts)
  {
    assert (rows + [r])[..|rows|] == rows;
  }

  lemma RowAmountsOne(r: Row)
    ensures RowAmounts([r]) == Sum(r.amounts)
  {
    RowAmountsSnoc([], r);
    assert [] + [r] == [r];
  }

  lemma AddConserves(before: seq<Child>, l: Line)
    ensures ChildTotals(AddLine(before, l)) == ChildTotals(before) + l.row.total
    ensures EmittedAmounts(AddLine(before, l)) == EmittedAmounts(before) + Sum(l.row.amounts)
  {
    hide Sum, RowAmounts;
    var i := IndexOf(before, l.voucher, 0);
    if i < |before| {
      hide ChildTotals, EmittedAmounts;
      RowAmountsSnoc(before[i].rows, l.row);
      ChildUpdate(before, i, before[i].(rows := before[i].rows + [l.row], total := before[i].total + l.row.total));
    } else {
      RowAmountsOne(l.row);
      var c := Child(l.voucher, l.childName, l.birthDate, l.district, l.row.total, [l.row]);
      assert (before + [c])[..|before|] == before;
    }
  }

  /** Neither totals nor emitted amounts are lost or invented by grouping. */
  lemma {:induction false} GroupConserves(lines: seq<Line>)
    requires forall l :: l in lines ==> Balanced(l)
    ensures ChildTotals(Group(lines)) == LineTotals(lines)
    ensures EmittedAmounts(Group(lines)) == LineTotals(lines)
  {
    hide AddLine, Sum;
    if lines != [] {
      var n := |lines| - 1;
      assert forall m :: m in lines[..n] ==> m in lines;
      GroupConserves(lines[..n]);
      assert lines[n] in lines;
      AddConserves(Group(lines[..n]), lines[n]);
    }
  }
}
