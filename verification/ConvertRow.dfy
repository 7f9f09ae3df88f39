/** One contract row becomes key/value/amount triples that add up to the row total, or it is refused. */
module ConvertRow {
  import opened Text
  import opened Bill

  datatype Amount = Amount(key: string, value: string, amount: int)

  type Amounts = seq<Amount>

  const MAX_MEAL_SHARE: int := 10000

  datatype RowError =
    | UnknownCareScope(scope: string)
    | NoMealsEntry(residual: int)
    | Unexplained(sum: int, stated: int)

  // ----- the triples of a row

  const CARE_SCOPE: map<string, string> :=
    map["ganztags" := "ganztag", "erweitert" := "ganztag erweitert", "teilzeit" := "teilzeit", "halbtag" := "halbtag"]

  /** strings.EqualFold(value, "ja") */
  predicate IsJa(value: string)
  {
    |value| == 2 && (value[0] == 'j' || value[0] == 'J') && (value[1] == 'a' || value[1] == 'A')
  }

  predicate IsFlagActive(flagName: string, value: string)
  {
    if flagName == "QM" || flagName == "MSS" then IsJa(value)
    else flagName == "HS" && value != "D" && value != ""
  }

  function IntegrationFlagToValue(flag: string): string
  {
    var f := TrimSpace(flag);
    if f == "A" || f == "a" then "integration a" else if f == "B" || f == "b" then "integration b" else ""
  }

  /** The value of a flagged item; an inactive flag still gets it when there is an amount. */
  function FlagValue(active: bool, value: string, amount: int): string
  {
    if active || amount != 0 then value else ""
  }

  function IntegrationValue(k: Kind): string
  {
    var v := IntegrationFlagToValue(k.integration);
    if v == "" && k.zuschlagIntegration != 0 then "integration" else v
  }

  function CombinedQMMSS(k: Kind): int
  {
    k.zuschlagQM + k.zuschlagMSS
  }

  function AllAmounts(k: Kind): Amounts
    requires k.betreuungsumfang in CARE_SCOPE
  {
    [Amount("care_type", CARE_SCOPE[k.betreuungsumfang], k.basisentgeld),
     Amount("abzug", FlagValue(false, "ohne_mittagessen", k.abzugOM), k.abzugOM),
     Amount("ndh", FlagValue(IsFlagActive("HS", k.hs), "ndh", k.zuschlagNDH), k.zuschlagNDH),
     Amount("qm/mss", FlagValue(IsFlagActive("QM", k.qm) || IsFlagActive("MSS", k.mss), "qm/mss", CombinedQMMSS(k)),
            CombinedQMMSS(k)),
     Amount("integration", IntegrationValue(k), k.zuschlagIntegration),
     Amount("but", FlagValue(false, "but", k.but), k.but),
     Amount("parent", "care", -k.elternBetreuung),
     Amount("parent", "meals", -k.elternEssen)]
  }

  /** Entries with a value or an amount. */
  function Nonempty(amounts: Amounts): (r: Amounts)
  {
    if amounts == [] then []
    else
      var n := |amounts| - 1;
      Nonempty(amounts[..n]) + if amounts[n].value == "" && amounts[n].amount == 0 then [] else [amounts[n]]
  }

  function Sum(amounts: Amounts): int
  {
    if amounts == [] then 0 else Sum(amounts[..|amounts| - 1]) + amounts[|amounts| - 1].amount
  }

  predicate IsMeals(a: Amount)
  {
    a.key == "parent" && a.value == "meals"
  }

  /** The first parent:meals entry at or after i, or |amounts|. */
  function MealsAt(amounts: Amounts, i: nat): (m: nat)
    requires i <= |amounts|
    ensures i <= m <= |amounts|
    ensures m < |amounts| ==> IsMeals(amounts[m])
    ensures forall j :: i <= j < m ==> !IsMeals(amounts[j])
    decreases |amounts| - i
  {
    if i == |amounts| || IsMeals(amounts[i]) then i else MealsAt(amounts, i + 1)
  }

  /** The first parent:meals entry carries the residual as well. */
  function Credit(amounts: Amounts, residual: int): (r: Amounts)
    requires MealsAt(amounts, 0) < |amounts|
    ensures |r| == |amounts|
  {
    var m := MealsAt(amounts, 0);
    amounts[m := amounts[m].(amount := amounts[m].amount + residual)]
  }

  /** A residual is accepted if it is zero, or opposite to a subsidy and small enough to be a meal share. */
  predicate Explained(k: Kind, residual: int)
  {
    || residual == 0
    || (k.but != 0 && ((residual < 0) == (k.but > 0)) && -MAX_MEAL_SHARE <= residual <= MAX_MEAL_SHARE)
  }

  /** The sum of the row's own components: the Senate's documented formula, plus the subsidy. */
  function Formula(k: Kind): int
  {
    k.basisentgeld + k.abzugOM - (k.elternBetreuung + k.elternEssen)
    + k.zuschlagQM + k.zuschlagMSS + k.zuschlagNDH + k.zuschlagIntegration + k.but
  }

  /** What an accepted row emits. */
  function Emitted(k: Kind): Amounts
    requires k.betreuungsumfang in CARE_SCOPE
  {
    var amounts := Nonempty(AllAmounts(k));
    var residual := k.summe - Formula(k);
    if residual == 0 || MealsAt(amounts, 0) == |amounts| then amounts else Credit(amounts, residual)
  }

  // ----- why nothing is lost

  lemma {:induction false} SumConcat(a: Amounts, b: Amounts)
    ensures Sum(a + b) == Sum(a) + Sum(b)
  {
    if b == [] {
      assert a + b == a;
    } else {
      assert (a + b)[..|a + b| - 1] == a + b[..|b| - 1];
      SumConcat(a, b[..|b| - 1]);
    }
  }

  /** Dropping empty entries keeps the sum. */
  lemma {:induction false} NonemptyKeepsSum(amounts: Amounts)
    ensures Sum(Nonempty(amounts)) == Sum(amounts)
  {
    if amounts != [] {
      var n := |amounts| - 1;
      NonemptyKeepsSum(amounts[..n]);
      var last := if amounts[n].value == "" && amounts[n].amount == 0 then [] else [amounts[n]];
      SumConcat(Nonempty(amounts[..n]), last);
      assert last != [] ==> last[..0] == [];
    }
  }

  lemma {:induction false} NonemptyMembers(amounts: Amounts, a: Amount)
    ensures a in Nonempty(amounts) <==> a in amounts && !(a.value == "" && a.amount == 0)
  {
    if amounts != [] {
      NonemptyMembers(amounts[..|amounts| - 1], a);
      assert amounts == amounts[..|amounts| - 1] + [amounts[|amounts| - 1]];
    }
  }

  lemma {:induction false} SumUpdate(amounts: Amounts, i: nat, residual: int)
    requires i < |amounts|
    ensures Sum(amounts[i := amounts[i].(amount := amounts[i].amount + residual)]) == Sum(amounts) + residual
  {
    var n := |amounts| - 1;
    var updated := amounts[i := amounts[i].(amount := amounts[i].amount + residual)];
    if i == n {
      assert updated[..n] == amounts[..n];
    } else {
      assert updated[..n] == amounts[..n][i := updated[i]];
      SumUpdate(amounts[..n], i, residual);
    }
  }

  lemma SumAll(k: Kind)
    requires k.betreuungsumfang in CARE_SCOPE
    ensures Sum(AllAmounts(k)) == Formula(k)
  {
    hide FlagValue, IntegrationValue, IsFlagActive;
    var a := AllAmounts(k);
    assert a[..8] == a;
    assert Sum(a[..1]) == a[0].amount by { assert a[..1][..0] == []; }
    assert Sum(a[..2]) == Sum(a[..1]) + a[1].amount by { assert a[..2][..1] == a[..1]; }
    assert Sum(a[..3]) == Sum(a[..2]) + a[2].amount by { assert a[..3][..2] == a[..2]; }
    assert Sum(a[..4]) == Sum(a[..3]) + a[3].amount by { assert a[..4][..3] == a[..3]; }
    assert Sum(a[..5]) == Sum(a[..4]) + a[4].amount by { assert a[..5][..4] == a[..4]; }
    assert Sum(a[..6]) == Sum(a[..5]) + a[5].amount by { assert a[..6][..5] == a[..5]; }
    assert Sum(a[..7]) == Sum(a[..6]) + a[6].amount by { assert a[..7][..6] == a[..6]; }
    assert Sum(a[..8]) == Sum(a[..7]) + a[7].amount by { assert a[..8][..7] == a[..7]; }
  }

  /** An entry without a value carries no money. */
  lemma ValuelessIsZero(k: Kind, a: Amount)
    requires k.betreuungsumfang in CARE_SCOPE && a in AllAmounts(k) && a.value == ""
    ensures a.amount == 0
  {
  }

  /** The error about a missing parent:meals entry cannot occur for the triples of a row. */
  lemma MealsAlwaysThere(k: Kind)
    requires k.betreuungsumfang in CARE_SCOPE
    ensures MealsAt(Nonempty(AllAmounts(k)), 0) < |Nonempty(AllAmounts(k))|
  {
    var amounts := Nonempty(AllAmounts(k));
    var meals := Amount("parent", "meals", -k.elternEssen);
    assert AllAmounts(k)[7] == meals;
    NonemptyMembers(AllAmounts(k), meals);
    var i :| 0 <= i < |amounts| && amounts[i] == meals;
    assert IsMeals(amounts[i]);
  }

  /** What is emitted adds up to the stated row total, whatever the row holds. */
  lemma EmittedSum(k: Kind)
    requires k.betreuungsumfang in CARE_SCOPE
    ensures Sum(Emitted(k)) == k.summe
  {
    hide AllAmounts, Nonempty, Formula, MealsAt, Sum;
    var amounts := Nonempty(AllAmounts(k));
    SumAll(k);
    NonemptyKeepsSum(AllAmounts(k));
    MealsAlwaysThere(k);
    SumUpdate(amounts, MealsAt(amounts, 0), k.summe - Formula(k));
  }

  function TotalFor(amounts: Amounts, key: string): int
  {
    if amounts == [] then 0
    else
      var n := |amounts| - 1;
      TotalFor(amounts[..n], key) + if amounts[n].key == key then amounts[n].amount else 0
  }

  lemma {:induction false} TotalForNonempty(amounts: Amounts, key: string)
    ensures TotalFor(Nonempty(amounts), key) == TotalFor(amounts, key)
  {
    if amounts != [] {
      var n := |amounts| - 1;
      TotalForNonempty(amounts[..n], key);
      var rest := Nonempty(amounts[..n]);
      assert (rest + [amounts[n]])[..|rest|] == rest;
      assert rest + [] == rest;
    }
  }

  lemma {:induction false} TotalForUpdate(amounts: Amounts, i: nat, residual: int, key: string)
    requires i < |amounts|
    ensures TotalFor(amounts[i := amounts[i].(amount := amounts[i].amount + residual)], key)
         == TotalFor(amounts, key) + if amounts[i].key == key then residual else 0
  {
    var n := |amounts| - 1;
    var updated := amounts[i := amounts[i].(amount := amounts[i].amount + residual)];
    if i == n {
      assert updated[..n] == amounts[..n];
    } else {
      assert updated[..n] == amounts[..n][i := updated[i]];
      TotalForUpdate(amounts[..n], i, residual, key);
    }
  }

  /** The component of a row that belongs to a key. */
  function Component(k: Kind, key: string): int
  {
    if key == "care_type" then k.basisentgeld
    else if key == "abzug" then k.abzugOM
    else if key == "ndh" then k.zuschlagNDH
    else if key == "qm/mss" then k.zuschlagQM + k.zuschlagMSS
    else if key == "integration" then k.zuschlagIntegration
    else if key == "but" then k.but
    else if key == "parent" then -k.elternBetreuung - k.elternEssen
    else 0
  }

  lemma NoTotal(key: string)
    ensures TotalFor([], key) == 0
  {
  }

  lemma TotalForNext(a: Amounts, key: string, i: nat)
    requires i < |a|
    ensures TotalFor(a[..i + 1], key) == TotalFor(a[..i], key) + if a[i].key == key then a[i].amount else 0
  {
    assert a[..i + 1][..i] == a[..i];
  }

  lemma TotalForAll(k: Kind, key: string)
    requires k.betreuungsumfang in CARE_SCOPE
    ensures TotalFor(AllAmounts(k), key) == Component(k, key)
  {
    hide FlagValue, IntegrationValue, IsFlagActive, TotalFor;
    var a := AllAmounts(k);
    assert a[..8] == a && a[..0] == [];
    NoTotal(key);
    TotalForNext(a, key, 0);
    TotalForNext(a, key, 1);
    TotalForNext(a, key, 2);
    TotalForNext(a, key, 3);
    TotalForNext(a, key, 4);
    TotalForNext(a, key, 5);
    TotalForNext(a, key, 6);
    TotalForNext(a, key, 7);
    // the keys differ in length or in their first letter
    assert |"care_type"| == 9 && |"abzug"| == 5 && |"qm/mss"| == |"parent"| == 6 && |"integration"| == 11;
    assert |"ndh"| == |"but"| == 3 && "ndh"[0] != "but"[0] && "qm/mss"[0] != "parent"[0];
  }

  /** Whether a row says anything about a key: its flag is active, or there is money. */
  predicate Shown(k: Kind, key: string)
  {
    if key == "abzug" then k.abzugOM != 0
    else if key == "ndh" then IsFlagActive("HS", k.hs) || k.zuschlagNDH != 0
    else if key == "qm/mss" then IsJa(k.qm) || IsJa(k.mss) || k.zuschlagQM + k.zuschlagMSS != 0
    else if key == "integration" then IntegrationFlagToValue(k.integration) != "" || k.zuschlagIntegration != 0
    else if key == "but" then k.but != 0
    else key == "care_type" || key == "parent"
  }

  lemma ShownInAll(k: Kind, i: nat)
    requires k.betreuungsumfang in CARE_SCOPE && i < 8
    ensures var a := AllAmounts(k)[i];
            !(a.value == "" && a.amount == 0) <==> Shown(k, a.key)
  {
    hide IntegrationFlagToValue, IsJa;
    var a := AllAmounts(k)[i];
    assert |"care_type"| == 9 && |"abzug"| == 5 && |"qm/mss"| == |"parent"| == 6 && |"integration"| == 11;
    assert |"ndh"| == |"but"| == 3 && "ndh"[0] != "but"[0] && "qm/mss"[0] != "parent"[0];
    assert i == 0 || i == 1 || i == 2 || i == 3 || i == 4 || i == 5 || i == 6 || i == 7;
    CareScopeNamed(k.betreuungsumfang);
  }

  lemma CareScopeNamed(scope: string)
    requires scope in CARE_SCOPE
    ensures CARE_SCOPE[scope] != ""
  {
  }

  /** A key is emitted exactly when the row says something about it. */
  lemma KeysEmitted(k: Kind, a: Amount)
    requires k.betreuungsumfang in CARE_SCOPE && a in AllAmounts(k)
    ensures a in Nonempty(AllAmounts(k)) <==> Shown(k, a.key)
  {
    hide AllAmounts, Shown;
    NonemptyMembers(AllAmounts(k), a);
    var i :| 0 <= i < |AllAmounts(k)| && AllAmounts(k)[i] == a;
    EightAmounts(k);
    ShownInAll(k, i);
  }

  lemma EightAmounts(k: Kind)
    requires k.betreuungsumfang in CARE_SCOPE
    ensures |AllAmounts(k)| == 8
  {
  }

  /** Every component reaches its own key to the cent; only "parent" also carries the residual. */
  lemma ComponentsKept(k: Kind, key: string)
    requires k.betreuungsumfang in CARE_SCOPE
    ensures TotalFor(Emitted(k), key) == Component(k, key) + if key == "parent" then k.summe - Formula(k) else 0
  {
    hide AllAmounts, Nonempty, Formula, MealsAt, TotalFor, Component;
    var amounts := Nonempty(AllAmounts(k));
    MealsAlwaysThere(k);
    TotalForAll(k, key);
    TotalForNonempty(AllAmounts(k), key);
    TotalForUpdate(amounts, MealsAt(amounts, 0), k.summe - Formula(k), key);
  }

  /**
   How far the check can be fooled: two accepted readings of a row with the same stated total and the same
   subsidy differ in the sum of their components by at most the meal share ceiling, and not at all
   when there is no subsidy.
   */
  lemma AcceptedReadings(k: Kind, o: Kind)
    requires Explained(k, k.summe - Formula(k)) && Explained(o, o.summe - Formula(o))
    requires k.summe == o.summe && k.but == o.but
    ensures -MAX_MEAL_SHARE <= Formula(k) - Formula(o) <= MAX_MEAL_SHARE
    ensures k.but == 0 ==> Formula(k) == Formula(o)
  {
  }

  // ----- the code

  /** Edits the amounts in place so that they add up to the row total, or refuses the row untouched. */
  method ReconcileRow(k: Kind, amounts: array<Amount>) returns (err: Option<RowError>)
    modifies amounts
    ensures var before := old(amounts[..]);
            var residual := k.summe - Sum(before);
            && (err.None? <==> residual == 0 || (Explained(k, residual) && MealsAt(before, 0) < |before|))
            && (err.None? ==> Sum(amounts[..]) == k.summe)
            && (err.None? && residual != 0 ==> amounts[..] == Credit(before, residual))
            && (err.Some? || residual == 0 ==> amounts[..] == before)
            && (err.Some? && Explained(k, residual) ==> err.value == NoMealsEntry(residual))
            && (err.Some? && !Explained(k, residual) ==> err.value == Unexplained(Sum(before), k.summe))
  {
    ghost var before := amounts[..];
    var sum := 0;
    for i := 0 to amounts.Length
      invariant sum == Sum(amounts[..i]) && amounts[..] == before
    {
      assert amounts[..i + 1][..i] == amounts[..i];
      sum := sum + amounts[i].amount;
    }
    assert amounts[..amounts.Length] == before;
    var residual := k.summe - sum;
    if residual == 0 { return None; }
    var oppositeSigns := (residual < 0) == (k.but > 0);
    var size := if residual < 0 then -residual else residual;
    if k.but != 0 && oppositeSigns && size <= MAX_MEAL_SHARE {
      for i := 0 to amounts.Length
        invariant amounts[..] == before && MealsAt(before, 0) == MealsAt(before, i)
      {
        if amounts[i].key == "parent" && amounts[i].value == "meals" {
          SumUpdate(before, i, residual);
          amounts[i] := amounts[i].(amount := amounts[i].amount + residual);
          assert amounts[..] == Credit(before, residual);
          return None;
        }
      }
      return Some(NoMealsEntry(residual));
    }
    err := Some(Unexplained(sum, k.summe));
  }

  datatype Row = Row(isCorrection: bool, total: int, amounts: Amounts, month: Month)

  /** A converted row with what it is grouped by. */
  datatype Line = Line(voucher: string, childName: string, birthDate: string, district: int, row: Row)

  function LineOf(k: Kind): Result<Line, RowError>
  {
    if k.betreuungsumfang !in CARE_SCOPE then Err(UnknownCareScope(k.betreuungsumfang))
    else if !Explained(k, k.summe - Formula(k)) then Err(Unexplained(Formula(k), k.summe))
    else Ok(Line(k.gutscheinnummer, k.name, k.geburtsdatum, k.bezirk,
                 Row(k.typ == "K", k.summe, Emitted(k), k.abrechnungsmonat)))
  }

  method ConvertChild(k: Kind) returns (r: Result<Line, RowError>)
    ensures r == LineOf(k)
  {
    hide AllAmounts, Explained;
    if k.betreuungsumfang !in CARE_SCOPE { return Err(UnknownCareScope(k.betreuungsumfang)); }
    var all := AllAmounts(k);
    var kept: Amounts := [];
    for i := 0 to |all|
      invariant kept == Nonempty(all[..i])
    {
      assert all[..i + 1][..i] == all[..i];
      if !(all[i].value == "" && all[i].amount == 0) { kept := kept + [all[i]]; }
    }
    assert all[..|all|] == all;
    var amounts := new Amount[|kept|](i requires 0 <= i < |kept| => kept[i]);
    assert amounts[..] == kept;
    SumAll(k);
    NonemptyKeepsSum(all);
    MealsAlwaysThere(k);
    ZeroExplained(k);
    var err := ReconcileRow(k, amounts);
    if err.Some? { return Err(err.value); }
    r := Ok(Line(k.gutscheinnummer, k.name, k.geburtsdatum, k.bezirk,
                 Row(k.typ == "K", k.summe, amounts[..], k.abrechnungsmonat)));
  }

  lemma ZeroExplained(k: Kind)
    ensures Explained(k, 0)
  {
  }

  /** A converted row's amounts add up to its total. */
  ghost predicate Balanced(l: Line)
  {
    Sum(l.row.amounts) == l.row.total
  }

  lemma LineBalanced(k: Kind)
    requires LineOf(k).Ok?
    ensures Balanced(LineOf(k).value)
    ensures var l := LineOf(k).value;
            && l.voucher == k.gutscheinnummer && l.childName == k.name && l.birthDate == k.geburtsdatum
            && l.district == k.bezirk && l.row.total == k.summe && l.row.month == k.abrechnungsmonat
            && (l.row.isCorrection <==> k.typ == "K")
  {
    EmittedSum(k);
  }

  // ----- what an accepted row emits, on its own fields

  /** What the components leave unexplained. */
  function Residual(k: Kind): int
  {
    k.summe - (k.basisentgeld + k.abzugOM - k.elternBetreuung - k.elternEssen
               + k.zuschlagQM + k.zuschlagMSS + k.zuschlagNDH + k.zuschlagIntegration + k.but)
  }

  predicate CareTypeIs(scope: string, value: string)
  {
    || (scope == "ganztags" && value == "ganztag")
    || (scope == "erweitert" && value == "ganztag erweitert")
    || (scope == "teilzeit" && value == "teilzeit")
    || (scope == "halbtag" && value == "halbtag")
  }

  /** The value of the integration entry: by the flag, or generic where there is only money. */
  predicate IntegrationIs(k: Kind, value: string)
  {
    var flag := TrimSpace(k.integration);
    if flag == "A" || flag == "a" then value == "integration a"
    else if flag == "B" || flag == "b" then value == "integration b"
    else value == "integration" && k.zuschlagIntegration != 0
  }

  predicate SaysJa(flag: string)
  {
    flag == "ja" || flag == "Ja" || flag == "jA" || flag == "JA"
  }

  /** The entries a row is to emit. */
  predicate Due(k: Kind, a: Amount)
  {
    || (a.key == "care_type" && CareTypeIs(k.betreuungsumfang, a.value) && a.amount == k.basisentgeld)
    || (a.key == "abzug" && a.value == "ohne_mittagessen" && a.amount == k.abzugOM && a.amount != 0)
    || (a.key == "ndh" && a.value == "ndh" && a.amount == k.zuschlagNDH
        && ((k.hs != "" && k.hs != "D") || a.amount != 0))
    || (a.key == "qm/mss" && a.value == "qm/mss" && a.amount == k.zuschlagQM + k.zuschlagMSS
        && (SaysJa(k.qm) || SaysJa(k.mss) || a.amount != 0))
    || (a.key == "integration" && IntegrationIs(k, a.value) && a.amount == k.zuschlagIntegration)
    || (a.key == "but" && a.value == "but" && a.amount == k.but && a.amount != 0)
    || (a.key == "parent" && a.value == "care" && a.amount == -k.elternBetreuung)
    || (a.key == "parent" && a.value == "meals" && a.amount == -k.elternEssen + Residual(k))
  }

  /** No two entries have both key and value in common. */
  ghost predicate DistinctPairs(amounts: Amounts)
  {
    forall i, j :: 0 <= i < j < |amounts| ==> amounts[i].key != amounts[j].key || amounts[i].value != amounts[j].value
  }

  lemma AllDistinct(k: Kind)
    requires k.betreuungsumfang in CARE_SCOPE
    ensures DistinctPairs(AllAmounts(k))
  {
    hide FlagValue, IntegrationValue, IsFlagActive;
    assert |"care_type"| == 9 && |"abzug"| == 5 && |"qm/mss"| == |"parent"| == 6 && |"integration"| == 11;
    assert |"ndh"| == |"but"| == 3 && "ndh"[0] != "but"[0] && "qm/mss"[0] != "parent"[0] && |"care"| != |"meals"|;
  }

  lemma {:induction false} NonemptyDistinct(amounts: Amounts)
    requires DistinctPairs(amounts)
    ensures DistinctPairs(Nonempty(amounts))
  {
    if amounts != [] {
      var n := |amounts| - 1;
      NonemptyDistinct(amounts[..n]);
      forall a | a in Nonempty(amounts[..n]) ensures a.key != amounts[n].key || a.value != amounts[n].value {
        NonemptyMembers(amounts[..n], a);
      }
    }
  }

  lemma CareTypeNamed(scope: string, value: string)
    requires scope in CARE_SCOPE
    ensures CARE_SCOPE[scope] == value <==> CareTypeIs(scope, value)
    ensures CARE_SCOPE[scope] != ""
  {
    assert |"ganztags"| == |"teilzeit"| == 8 && |"erweitert"| == 9 && |"halbtag"| == 7;
    assert "ganztags"[0] != "teilzeit"[0];
  }

  lemma JaIff(flag: string)
    ensures IsJa(flag) <==> SaysJa(flag)
  {
    if |flag| == 2 { assert flag == [flag[0], flag[1]]; }
  }

  /** The entry with the residual taken on, if it is the one that carries it. */
  function WithResidual(k: Kind, a: Amount): Amount
  {
    if IsMeals(a) then a.(amount := a.amount + Residual(k)) else a
  }

  lemma ListedDue(k: Kind, i: nat)
    requires k.betreuungsumfang in CARE_SCOPE && i < 8
    ensures var a := AllAmounts(k)[i]; !(a.value == "" && a.amount == 0) ==> Due(k, WithResidual(k, a))
  {
    var a := AllAmounts(k)[i];
    hide TrimSpace, Residual;
    CareTypeNamed(k.betreuungsumfang, a.value);
    JaIff(k.qm);
    JaIff(k.mss);
    hide IsJa, SaysJa, CareTypeIs;
    assert |"QM"| == |"HS"| == 2 && "QM"[0] != "HS"[0] && |"MSS"| == 3;
    assert |"care_type"| == 9 && |"abzug"| == 5 && |"qm/mss"| == |"parent"| == 6 && |"integration"| == 11;
    assert |"ndh"| == |"but"| == 3 && "ndh"[0] != "but"[0] && "qm/mss"[0] != "parent"[0] && |"care"| != |"meals"|;
    assert i == 0 || i == 1 || i == 2 || i == 3 || i == 4 || i == 5 || i == 6 || i == 7;
  }

  lemma DueListed(k: Kind, a: Amount)
    requires k.betreuungsumfang in CARE_SCOPE && Due(k, WithResidual(k, a))
    ensures a in AllAmounts(k) && !(a.value == "" && a.amount == 0)
  {
    hide TrimSpace, Residual;
    CareTypeNamed(k.betreuungsumfang, a.value);
    JaIff(k.qm);
    JaIff(k.mss);
    hide IsJa, SaysJa, CareTypeIs;
    assert |"QM"| == |"HS"| == 2 && "QM"[0] != "HS"[0] && |"MSS"| == 3;
    assert |"care_type"| == 9 && |"abzug"| == 5 && |"qm/mss"| == |"parent"| == 6 && |"integration"| == 11;
    assert |"ndh"| == |"but"| == 3 && "ndh"[0] != "but"[0] && "qm/mss"[0] != "parent"[0] && |"care"| != |"meals"|;
  }

  /** Without the residual: the entries of the row that have a value or money. */
  lemma NonemptyDue(k: Kind, a: Amount)
    requires k.betreuungsumfang in CARE_SCOPE
    ensures a in Nonempty(AllAmounts(k)) <==> Due(k, WithResidual(k, a))
  {
    hide AllAmounts, Due, WithResidual;
    NonemptyMembers(AllAmounts(k), a);
    EightAmounts(k);
    if Due(k, WithResidual(k, a)) { DueListed(k, a); }
    if a in AllAmounts(k) && !(a.value == "" && a.amount == 0) {
      var i :| 0 <= i < |AllAmounts(k)| && AllAmounts(k)[i] == a;
      ListedDue(k, i);
    }
  }

  lemma OnlyMeals(amounts: Amounts, m: nat)
    requires DistinctPairs(amounts) && m < |amounts| && IsMeals(amounts[m])
    ensures forall j :: 0 <= j < |amounts| && IsMeals(amounts[j]) ==> j == m
  {
  }

  lemma MealsKeyed(a: Amount, amount: int)
    ensures IsMeals(a.(amount := amount)) <==> IsMeals(a)
  {
  }

  lemma CreditMembers(amounts: Amounts, residual: int, a: Amount)
    requires DistinctPairs(amounts) && MealsAt(amounts, 0) < |amounts|
    ensures a in Credit(amounts, residual) <==>
              (if IsMeals(a) then a.(amount := a.amount - residual) else a) in amounts
  {
    hide MealsAt, IsMeals, DistinctPairs;
    var m, r := MealsAt(amounts, 0), Credit(amounts, residual);
    var b := if IsMeals(a) then a.(amount := a.amount - residual) else a;
    OnlyMeals(amounts, m);
    MealsKeyed(a, a.amount - residual);
    MealsKeyed(amounts[m], amounts[m].amount + residual);
    if a in r {
      var i :| 0 <= i < |r| && r[i] == a;
      assert amounts[i] == b;
    }
    if b in amounts {
      var i :| 0 <= i < |amounts| && amounts[i] == b;
      assert r[i] == a;
    }
  }

  lemma CreditDistinct(amounts: Amounts, residual: int)
    requires DistinctPairs(amounts) && MealsAt(amounts, 0) < |amounts|
    ensures DistinctPairs(Credit(amounts, residual))
  {
    hide MealsAt, IsMeals;
  }

  lemma FormulaWritten(k: Kind)
    ensures k.summe - Formula(k) == Residual(k)
  {
  }

  lemma NoCredit(amounts: Amounts)
    requires MealsAt(amounts, 0) < |amounts|
    ensures Credit(amounts, 0) == amounts
  {
  }

  /** An accepted row emits exactly the entries that are due, each once. */
  lemma EmitsDue(k: Kind, a: Amount)
    requires LineOf(k).Ok?
    ensures a in LineOf(k).value.row.amounts <==> Due(k, a)
    ensures DistinctPairs(LineOf(k).value.row.amounts)
  {
    hide AllAmounts, Nonempty, Credit, MealsAt, Due, Formula, Explained, Residual, DistinctPairs;
    var amounts := Nonempty(AllAmounts(k));
    AllDistinct(k);
    NonemptyDistinct(AllAmounts(k));
    MealsAlwaysThere(k);
    FormulaWritten(k);
    NoCredit(amounts);
    CreditMembers(amounts, Residual(k), a);
    CreditDistinct(amounts, Residual(k));
    NonemptyDue(k, if IsMeals(a) then a.(amount := a.amount - Residual(k)) else a);
  }

  /** What the entries with the given key and value add up to. */
  function PairTotal(amounts: Amounts, key: string, value: string): int
  {
    if amounts == [] then 0
    else
      var n := |amounts| - 1;
      PairTotal(amounts[..n], key, value)
      + if amounts[n].key == key && amounts[n].value == value then amounts[n].amount else 0
  }

  lemma {:induction false} PairTotalAbsent(amounts: Amounts, key: string, value: string)
    requires forall a :: a in amounts ==> a.key != key || a.value != value
    ensures PairTotal(amounts, key, value) == 0
  {
    if amounts != [] {
      var n := |amounts| - 1;
      assert amounts[n] in amounts;
      assert forall a :: a in amounts[..n] ==> a in amounts;
      PairTotalAbsent(amounts[..n], key, value);
    }
  }

  lemma {:induction false} PairTotalOf(amounts: Amounts, a: Amount)
    requires DistinctPairs(amounts) && a in amounts
    ensures PairTotal(amounts, a.key, a.value) == a.amount
  {
    var n := |amounts| - 1;
    if a == amounts[n] {
      PairTotalAbsent(amounts[..n], a.key, a.value);
    } else {
      PairTotalOf(amounts[..n], a);
    }
  }

  /** The money each pair of key and value is to carry. */
  function DueTotal(k: Kind, key: string, value: string): int
  {
    if key == "care_type" && CareTypeIs(k.betreuungsumfang, value) then k.basisentgeld
    else if key == "abzug" && value == "ohne_mittagessen" then k.abzugOM
    else if key == "ndh" && value == "ndh" then k.zuschlagNDH
    else if key == "qm/mss" && value == "qm/mss" then k.zuschlagQM + k.zuschlagMSS
    else if key == "integration" && IntegrationIs(k, value) then k.zuschlagIntegration
    else if key == "but" && value == "but" then k.but
    else if key == "parent" && value == "care" then -k.elternBetreuung
    else if key == "parent" && value == "meals" then -k.elternEssen + Residual(k)
    else 0
  }

  /** What is due for a pair is due in the amount of its total, and what is not due has none. */
  lemma DueAmount(k: Kind, key: string, value: string)
    ensures forall a :: Due(k, a) && a.key == key && a.value == value ==> a.amount == DueTotal(k, key, value)
    ensures Due(k, Amount(key, value, DueTotal(k, key, value))) || DueTotal(k, key, value) == 0
  {
    hide CareTypeIs, IntegrationIs, SaysJa, Residual;
    assert |"care_type"| == 9 && |"abzug"| == 5 && |"qm/mss"| == |"parent"| == 6 && |"integration"| == 11;
    assert |"ndh"| == |"but"| == 3 && "ndh"[0] != "but"[0] && "qm/mss"[0] != "parent"[0] && |"care"| != |"meals"|;
  }

  /**
   Every component reaches its own key and value to the cent, only parent:meals also carries the residual, and
   any other pair carries nothing.
   */
  lemma PairsKept(k: Kind, key: string, value: string)
    requires LineOf(k).Ok?
    ensures PairTotal(LineOf(k).value.row.amounts, key, value) == DueTotal(k, key, value)
  {
    hide LineOf, Due, DueTotal, PairTotal;
    var amounts, a := LineOf(k).value.row.amounts, Amount(key, value, DueTotal(k, key, value));
    forall b { EmitsDue(k, b); }
    DueAmount(k, key, value);
    assert forall b :: b in amounts && b.key == key && b.value == value ==> b == a;
    if Due(k, a) { PairTotalOf(amounts, a); } else { PairTotalAbsent(amounts, key, value); }
  }

  /** The ceiling of the meal share in cents, and which residuals a subsidy explains. */
  predicate Acceptable(k: Kind)
  {
    || Residual(k) == 0
    || (k.but > 0 && -10000 <= Residual(k) < 0)
    || (k.but < 0 && 0 < Residual(k) <= 10000)
  }

  /** Which rows are accepted, and with which error the others are refused. */
  lemma AcceptedIff(k: Kind)
    ensures LineOf(k).Ok? <==> (exists value :: CareTypeIs(k.betreuungsumfang, value)) && Acceptable(k)
    ensures (forall value :: !CareTypeIs(k.betreuungsumfang, value)) ==>
              LineOf(k) == Err(UnknownCareScope(k.betreuungsumfang))
    ensures (exists value :: CareTypeIs(k.betreuungsumfang, value)) && !Acceptable(k) ==>
              LineOf(k) == Err(Unexplained(k.summe - Residual(k), k.summe))
  {
    assert k.betreuungsumfang in CARE_SCOPE <==> exists value :: CareTypeIs(k.betreuungsumfang, value) by {
      if k.betreuungsumfang in CARE_SCOPE {
        CareTypeNamed(k.betreuungsumfang, CARE_SCOPE[k.betreuungsumfang]);
      }
    }
    hide CareTypeIs;
  }
}
