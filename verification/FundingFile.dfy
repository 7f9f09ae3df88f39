/** The funding file as the importer reads it: the rows and periods it asks for, and which files go through. */
module FundingFile {
  import opened Text
  import opened Money
  import opened FundingService
  import opened PropertyKey
  import opened PropertyDiff
  import opened PeriodSync

  datatype FileProperty = FileProperty(
    key: string, value: string, labelText: string, payment: Float, requirement: real, comment: string, applyToAll: bool)

  /** The ages are a pair of the lower and the upper one. */
  datatype Entry = Entry(age: (int, int), properties: seq<FileProperty>)

  datatype FilePeriod = FilePeriod(
    from: string, to: string, hours: real, comment: string, requiredKeys: seq<string>, entries: seq<Entry>)

  type File = seq<FilePeriod>

  /** Library code: the date parser and the label generator. */
  datatype Env = Env(parseDate: string -> Option<Date>, formatLabel: string -> string)

  function BuildContent(env: Env, fp: FileProperty): Content
  {
    var text := TrimSpace(fp.labelText);
    Content(if text == "" then env.formatLabel(fp.value) else text,
            EuroToCents(fp.payment), fp.requirement, TrimSpace(fp.comment), fp.applyToAll)
  }

  /** The property a file entry asks for. */
  function Build(env: Env, e: Entry, fp: FileProperty): Property
  {
    Property(TrimSpace(fp.key), TrimSpace(fp.value), Some(e.age.0), Some(e.age.1), BuildContent(env, fp))
  }

  lemma BuildTrimmed(env: Env, e: Entry, fp: FileProperty)
    ensures Trimmed(Build(env, e, fp))
  {
    hide TrimSpace;
    TrimSpaceTwice(fp.key);
    TrimSpaceTwice(fp.value);
  }

  /** Only a generated label can be padded: everything else is stored as it is built. */
  lemma PaddedLabelIff(env: Env, e: Entry, fp: FileProperty)
    ensures var c := Build(env, e, fp).content;
            var generated := env.formatLabel(fp.value);
            Settled(c) == c <==> TrimSpace(fp.labelText) != "" || TrimSpace(generated) == generated
  {
    hide TrimSpace, EuroToCents;
    TrimSpaceTwice(fp.labelText);
    TrimSpaceTwice(fp.comment);
  }

  function EntryProps(env: Env, e: Entry, n: nat): (props: Props)
    requires n <= |e.properties|
    ensures |props| == n
  {
    if n == 0 then [] else EntryProps(env, e, n - 1) + [Build(env, e, e.properties[n - 1])]
  }

  /** All properties of a period in file order. */
  function WantedProps(env: Env, entries: seq<Entry>, n: nat): Props
    requires n <= |entries|
  {
    if n == 0 then []
    else WantedProps(env, entries, n - 1) + EntryProps(env, entries[n - 1], |entries[n - 1].properties|)
  }

  lemma {:induction false} BuiltInEntry(env: Env, e: Entry, k: nat, n: nat)
    requires k < n <= |e.properties|
    ensures Build(env, e, e.properties[k]) in EntryProps(env, e, n)
  {
    hide Build;
    if k < n - 1 {
      BuiltInEntry(env, e, k, n - 1);
    }
    assert EntryProps(env, e, n)[n - 1] == Build(env, e, e.properties[n - 1]);
  }

  lemma {:induction false} BuiltIsWanted(env: Env, entries: seq<Entry>, i: nat, k: nat, n: nat)
    requires i < n <= |entries| && k < |entries[i].properties|
    ensures Build(env, entries[i], entries[i].properties[k]) in WantedProps(env, entries, n)
  {
    hide Build;
    if i < n - 1 {
      BuiltIsWanted(env, entries, i, k, n - 1);
    } else {
      BuiltInEntry(env, entries[i], k, |entries[i].properties|);
    }
  }

  /** parseToDate: blank and the far future stand for an open end. */
  function ToDateOf(env: Env, s: string): Option<Option<Date>>
  {
    if s == "" || s == "2060-01-01" then Some(None)
    else match env.parseDate(s) case None => None case Some(d) => Some(Some(d))
  }

  /** What a file period asks for, or None where a date is malformed. */
  function PlanOne(env: Env, f: FilePeriod): Option<PeriodView>
  {
    match (env.parseDate(f.from), ToDateOf(env, f.to))
    case (Some(from), Some(to)) =>
      Some(PeriodView(from, Meta(to, f.hours, f.comment, f.requiredKeys), WantedProps(env, f.entries, |f.entries|)))
    case _ => None
  }

  function Plan(env: Env, file: File): (plan: Option<Views>)
    ensures plan.Some? ==> |plan.value| == |file|
  {
    if file == [] then Some([])
    else
      var n := |file| - 1;
      match (Plan(env, file[..n]), PlanOne(env, file[n]))
      case (Some(rest), Some(f)) => Some(rest + [f])
      case _ => None
  }

  /** The import of a file over stored periods, or None where it fails. */
  function ImportedFile(env: Env, snapshot: Views, file: File): Option<Views>
  {
    match Plan(env, file) case None => None case Some(plan) => Imported(snapshot, plan)
  }

  lemma {:induction false} PlanPrefix(env: Env, file: File, n: nat)
    requires n <= |file|
    ensures Plan(env, file[..n]).None? ==> Plan(env, file).None?
    ensures Plan(env, file).Some? ==> Plan(env, file[..n]) == Some(Plan(env, file).value[..n])
  {
    hide PlanOne;
    if n < |file| {
      var m := |file| - 1;
      assert file[..m][..n] == file[..n];
      PlanPrefix(env, file[..m], n);
      if Plan(env, file).Some? { assert Plan(env, file).value[..n] == Plan(env, file[..m]).value[..n]; }
    } else {
      assert file[..n] == file;
      if Plan(env, file).Some? { assert Plan(env, file).value[..n] == Plan(env, file).value; }
    }
  }

  /** Once a prefix of the file has failed, so has the file. */
  lemma FailureStays(env: Env, snapshot: Views, file: File, n: nat)
    requires n <= |file| && ImportedFile(env, snapshot, file[..n]).None?
    ensures ImportedFile(env, snapshot, file).None?
  {
    hide Plan, Imported;
    PlanPrefix(env, file, n);
    if Plan(env, file).Some? { RefusalStays(snapshot, Plan(env, file).value, n); }
  }

  lemma PlanSnoc(env: Env, file: File, n: nat)
    requires n < |file| && Plan(env, file[..n]).Some?
    ensures Plan(env, file[..n + 1]) ==
              match PlanOne(env, file[n]) case None => None case Some(v) => Some(Plan(env, file[..n]).value + [v])
  {
    hide PlanOne;
    assert file[..n + 1][..n] == file[..n];
  }

  lemma ImportedSnoc(snapshot: Views, plan: Views, v: PeriodView)
    requires Imported(snapshot, plan).Some?
    ensures Imported(snapshot, plan + [v]) == ApplyPeriod(snapshot, Imported(snapshot, plan).value, v)
    ensures ImportCounts(snapshot, plan + [v]) == Add(ImportCounts(snapshot, plan), PeriodCounts(snapshot, v))
  {
    hide ApplyPeriod, PeriodCounts;
    assert (plan + [v])[..|plan|] == plan;
  }

  /** No two periods of the file start on the same date. */
  ghost predicate DistinctDates(env: Env, file: File)
  {
    forall i, j :: 0 <= i < j < |file| && env.parseDate(file[i].from).Some? ==>
      env.parseDate(file[i].from) != env.parseDate(file[j].from)
  }

  lemma {:induction false} PlanStarts(env: Env, file: File, i: nat)
    requires Plan(env, file).Some? && i < |file|
    ensures Some(Plan(env, file).value[i].from) == env.parseDate(file[i].from)
  {
    hide WantedProps;
    if i < |file| - 1 { PlanStarts(env, file[..|file| - 1], i); }
  }

  lemma PlanFroms(env: Env, file: File, k: nat)
    requires DistinctDates(env, file) && k < |file| && Plan(env, file[..k]).Some?
    requires env.parseDate(file[k].from).Some?
    ensures !HasFrom(Plan(env, file[..k]).value, env.parseDate(file[k].from).value)
  {
    hide Plan;
    forall i | 0 <= i < k ensures Some(Plan(env, file[..k]).value[i].from) != env.parseDate(file[k].from) {
      PlanStarts(env, file[..k], i);
    }
  }

  // ----- what the file says, on its own fields

  /** p is what the file property fp of entry e asks for, as it is stored. */
  ghost predicate Carries(env: Env, p: Property, e: Entry, fp: FileProperty)
  {
    && p.key == TrimSpace(fp.key) && p.value == TrimSpace(fp.value)
    && p.minAge == Some(e.age.0) && p.maxAge == Some(e.age.1)
    && p.content.labelText == (if TrimSpace(fp.labelText) != "" then TrimSpace(fp.labelText)
                               else TrimSpace(env.formatLabel(fp.value)))
    && PaidAs(fp.payment, p.content.payment) && p.content.requirement == fp.requirement
    && p.content.comment == TrimSpace(fp.comment) && p.content.applyToAll == fp.applyToAll
  }

  lemma BuildCarries(env: Env, e: Entry, fp: FileProperty)
    ensures Carries(env, Settle(Build(env, e, fp)), e, fp)
  {
    hide TrimSpace, EuroToCents, PaidAs, MatchKey;
    TrimSpaceTwice(fp.labelText);
    TrimSpaceTwice(fp.comment);
    EuroToCentsIff(fp.payment, EuroToCents(fp.payment));
  }

  ghost predicate HasRow(env: Env, props: Props, e: Entry, fp: FileProperty)
  {
    exists p :: p in props && Carries(env, p, e, fp)
  }

  ghost predicate Requested(env: Env, p: Property, entries: seq<Entry>)
  {
    exists i, k :: 0 <= i < |entries| && 0 <= k < |entries[i].properties|
                   && Carries(env, p, entries[i], entries[i].properties[k])
  }

  function PropertyCount(entries: seq<Entry>, n: nat): nat
    requires n <= |entries|
  {
    if n == 0 then 0 else PropertyCount(entries, n - 1) + |entries[n - 1].properties|
  }

  /** The rows are what the entries ask for: one for every file property, and no others. */
  ghost predicate RowsMatch(env: Env, props: Props, entries: seq<Entry>)
  {
    && (forall i, k :: 0 <= i < |entries| && 0 <= k < |entries[i].properties| ==>
          HasRow(env, props, entries[i], entries[i].properties[k]))
    && (forall p :: p in props ==> Requested(env, p, entries))
    && |props| == PropertyCount(entries, |entries|)
  }

  /** v starts and ends as the file period says and carries its hours, its comment and its required keys. */
  ghost predicate MetaMatches(env: Env, v: PeriodView, f: FilePeriod)
  {
    && env.parseDate(f.from) == Some(v.from)
    && (if f.to == "" || f.to == "2060-01-01" then v.meta.to == None
        else v.meta.to.Some? && env.parseDate(f.to) == v.meta.to)
    && v.meta.hours == f.hours && v.meta.comment == TrimSpace(f.comment)
    && Normal(v.meta.requiredKeys)
    && forall k :: k in v.meta.requiredKeys <==>
                     k != "" && exists i :: 0 <= i < |f.requiredKeys| && TrimSpace(f.requiredKeys[i]) == k
  }

  ghost predicate Matches(env: Env, v: PeriodView, f: FilePeriod)
  {
    MetaMatches(env, v, f) && RowsMatch(env, v.props, f.entries)
  }

  /** Some stored period is what the file period says. */
  ghost predicate Recorded(env: Env, views: Views, f: FilePeriod)
  {
    exists j :: 0 <= j < |views| && Matches(env, views[j], f)
  }

  lemma {:induction false} EntryFrom(env: Env, e: Entry, n: nat, x: nat)
    requires x < n <= |e.properties|
    ensures EntryProps(env, e, n)[x] == Build(env, e, e.properties[x])
  {
    hide Build;
    if x < n - 1 { EntryFrom(env, e, n - 1, x); }
  }

  /** Every wanted property stands where its entry and its place in it say. */
  lemma {:induction false} WantedFrom(env: Env, entries: seq<Entry>, n: nat, x: nat) returns (i: nat, k: nat)
    requires n <= |entries| && x < |WantedProps(env, entries, n)|
    ensures i < n && k < |entries[i].properties| && x == PropertyCount(entries, i) + k
    ensures WantedProps(env, entries, n)[x] == Build(env, entries[i], entries[i].properties[k])
  {
    hide Build;
    WantedCount(env, entries, n - 1);
    if x < |WantedProps(env, entries, n - 1)| {
      i, k := WantedFrom(env, entries, n - 1, x);
    } else {
      i, k := n - 1, x - PropertyCount(entries, n - 1);
      EntryFrom(env, entries[i], |entries[i].properties|, k);
    }
  }

  lemma {:induction false} WantedCount(env: Env, entries: seq<Entry>, n: nat)
    requires n <= |entries|
    ensures |WantedProps(env, entries, n)| == PropertyCount(entries, n)
  {
    hide EntryProps;
    if n > 0 { WantedCount(env, entries, n - 1); }
  }

  lemma PropertyRecorded(env: Env, entries: seq<Entry>, props: Props, i: nat, k: nat)
    requires multiset(props) == multiset(SettleAll(WantedProps(env, entries, |entries|)))
    requires i < |entries| && k < |entries[i].properties|
    ensures HasRow(env, props, entries[i], entries[i].properties[k])
  {
    hide Build, Settle, Carries, WantedProps, SettleAll;
    var wanted, w := WantedProps(env, entries, |entries|), Build(env, entries[i], entries[i].properties[k]);
    BuiltIsWanted(env, entries, i, k, |entries|);
    SettleAllMembers(wanted, Settle(w));
    SameMembers(props, SettleAll(wanted));
    BuildCarries(env, entries[i], entries[i].properties[k]);
    assert Settle(w) in props;
  }

  lemma RowRequested(env: Env, entries: seq<Entry>, props: Props, p: Property)
    requires multiset(props) == multiset(SettleAll(WantedProps(env, entries, |entries|))) && p in props
    ensures Requested(env, p, entries)
  {
    hide Build, Settle, Carries, WantedProps, SettleAll;
    var wanted := WantedProps(env, entries, |entries|);
    SameMembers(props, SettleAll(wanted));
    SettleAllMembers(wanted, p);
    var w :| w in wanted && Settle(w) == p;
    var x :| 0 <= x < |wanted| && wanted[x] == w;
    var i, k := WantedFrom(env, entries, |entries|, x);
    BuildCarries(env, entries[i], entries[i].properties[k]);
  }

  /** The settled wanted properties, and any list with the same members, are what the entries ask for. */
  lemma SettledRowsMatch(env: Env, entries: seq<Entry>, props: Props)
    requires multiset(props) == multiset(SettleAll(WantedProps(env, entries, |entries|)))
    ensures RowsMatch(env, props, entries)
  {
    hide HasRow, Requested, WantedProps;
    forall i, k | 0 <= i < |entries| && 0 <= k < |entries[i].properties|
      ensures HasRow(env, props, entries[i], entries[i].properties[k])
    {
      PropertyRecorded(env, entries, props, i, k);
    }
    forall p | p in props ensures Requested(env, p, entries) { RowRequested(env, entries, props, p); }
    WantedCount(env, entries, |entries|);
    assert |multiset(props)| == |multiset(SettleAll(WantedProps(env, entries, |entries|)))|;
  }

  lemma SettledMetaMatches(env: Env, f: FilePeriod, v: PeriodView)
    requires PlanOne(env, f).Some? && v.from == PlanOne(env, f).value.from
    requires v.meta == SettledMeta(PlanOne(env, f).value.meta)
    ensures MetaMatches(env, v, f)
  {
    hide WantedProps, TrimSpace, Normalized;
    NormalizedIsNormal(f.requiredKeys);
  }

  lemma {:induction false} PlanAt(env: Env, file: File, i: nat)
    requires Plan(env, file).Some? && i < |file|
    ensures PlanOne(env, file[i]) == Some(Plan(env, file).value[i])
  {
    hide PlanOne;
    if i < |file| - 1 { PlanAt(env, file[..|file| - 1], i); }
  }

  /** After a fresh import the store holds, period by period, exactly what the file says. */
  lemma FreshMatches(env: Env, file: File)
    requires ImportedFile(env, [], file).Some?
    ensures var r := ImportedFile(env, [], file).value;
            |r| == |file| && forall i :: 0 <= i < |file| ==> Matches(env, r[i], file[i])
  {
    hide Plan, Imported, PlanOne, MetaMatches, RowsMatch, SettledMeta, SettleAll, FreshAccepted;
    var plan, r := Plan(env, file).value, ImportedFile(env, [], file).value;
    FreshImported(plan);
    forall i | 0 <= i < |file| ensures Matches(env, r[i], file[i]) {
      PlanAt(env, file, i);
      PlannedProps(env, file[i]);
      assert r[i] == SettleView(plan[i]);
      SettledMetaMatches(env, file[i], r[i]);
      SettledRowsMatch(env, file[i].entries, r[i].props);
    }
  }

  lemma PlannedProps(env: Env, f: FilePeriod)
    requires PlanOne(env, f).Some?
    ensures PlanOne(env, f).value.props == WantedProps(env, f.entries, |f.entries|)
  {
  }

  // ----- files whose properties can be told apart

  /** Two file properties ask for the same row. */
  predicate SameRow(e: Entry, fp: FileProperty, d: Entry, fq: FileProperty)
  {
    TrimSpace(fp.key) == TrimSpace(fq.key) && TrimSpace(fp.value) == TrimSpace(fq.value) && e.age == d.age
  }

  /** No two properties of the entries ask for the same row, and their composite keys are unambiguous. */
  ghost predicate ProperEntries(entries: seq<Entry>)
  {
    && (forall i, k :: 0 <= i < |entries| && 0 <= k < |entries[i].properties| ==>
          '|' !in TrimSpace(entries[i].properties[k].key) && entries[i].age.0 != -1 && entries[i].age.1 != -1)
    && forall i, k, j, l | 0 <= i < |entries| && 0 <= k < |entries[i].properties| && 0 <= j < |entries|
                           && 0 <= l < |entries[j].properties| && (i != j || k != l)
         :: !SameRow(entries[i], entries[i].properties[k], entries[j], entries[j].properties[l])
  }

  /** Periods start on distinct dates, and the properties of each can be told apart. */
  ghost predicate ProperFile(env: Env, file: File)
  {
    DistinctDates(env, file) && forall f :: f in file ==> ProperEntries(f.entries)
  }

  lemma ProperWanted(env: Env, entries: seq<Entry>)
    requires ProperEntries(entries)
    ensures DistinctKeys(WantedProps(env, entries, |entries|)) && AllClean(WantedProps(env, entries, |entries|))
  {
    hide MatchKey, WantedProps, BuildContent, TrimSpace;
    var wanted := WantedProps(env, entries, |entries|);
    forall p | p in wanted ensures Clean(p) {
      var x :| 0 <= x < |wanted| && wanted[x] == p;
      var i, k := WantedFrom(env, entries, |entries|, x);
      assert '|' !in TrimSpace(entries[i].properties[k].key);
    }
    forall x, y | 0 <= x < y < |wanted| ensures MatchKey(wanted[x]) != MatchKey(wanted[y]) {
      var i, k := WantedFrom(env, entries, |entries|, x);
      var j, l := WantedFrom(env, entries, |entries|, y);
      assert wanted[x] in wanted && wanted[y] in wanted;
      MatchKeyInjective(wanted[x], wanted[y]);
      assert !SameRow(entries[i], entries[i].properties[k], entries[j], entries[j].properties[l]);
    }
  }

  lemma ProperPlan(env: Env, file: File)
    requires ProperFile(env, file) && Plan(env, file).Some?
    ensures DistinctFroms(Plan(env, file).value) && WellKeyed(Plan(env, file).value)
  {
    hide Plan, PlanOne, ProperEntries, DistinctKeys, AllClean;
    var plan := Plan(env, file).value;
    forall i, j | 0 <= i < j < |plan| ensures plan[i].from != plan[j].from {
      PlanStarts(env, file, i);
      PlanStarts(env, file, j);
    }
    forall v | v in plan ensures DistinctKeys(v.props) && AllClean(v.props) {
      var i :| 0 <= i < |plan| && plan[i] == v;
      PlanAt(env, file, i);
      PlannedProps(env, file[i]);
      assert file[i] in file;
      ProperWanted(env, file[i].entries);
    }
  }

  /** After a successful incremental import every file period stands in the store exactly as the file says. */
  lemma IncrementalMatches(env: Env, snapshot: Views, file: File)
    requires WellKept(snapshot) && ProperFile(env, file) && ImportedFile(env, snapshot, file).Some?
    ensures var r := ImportedFile(env, snapshot, file).value;
            WellKept(r) && forall i :: 0 <= i < |file| ==> Recorded(env, r, file[i])
  {
    hide Plan, Imported, PlanOne, MetaMatches, RowsMatch, SettledMeta, SettleAll, WellKept, WellKeyed, DistinctFroms,
         ProperFile;
    var plan, r := Plan(env, file).value, ImportedFile(env, snapshot, file).value;
    ProperPlan(env, file);
    IncrementalEqualsFresh(snapshot, plan);
    forall i | 0 <= i < |file| ensures Recorded(env, r, file[i]) {
      PlanAt(env, file, i);
      PlannedProps(env, file[i]);
      assert plan[i] in plan;
      SettledMember(plan, plan[i]);
      assert Mirrored(r, SettleView(plan[i]));
      var j :| 0 <= j < |r| && r[j].from == plan[i].from && r[j].meta == SettledMeta(plan[i].meta)
               && multiset(r[j].props) == multiset(SettleAll(plan[i].props));
      SettledMetaMatches(env, file[i], r[j]);
      SettledRowsMatch(env, file[i].entries, r[j].props);
      assert Matches(env, r[j], file[i]);
    }
  }

  // ----- which files go through, on their own fields

  /** The end of a file period; None is open. */
  function EndOf(env: Env, f: FilePeriod): Option<Date>
  {
    if f.to == "" || f.to == "2060-01-01" then None else env.parseDate(f.to)
  }

  predicate DatesParse(env: Env, f: FilePeriod)
  {
    env.parseDate(f.from).Some? && (f.to == "" || f.to == "2060-01-01" || env.parseDate(f.to).Some?)
  }

  /** Neither period ends before the other starts. */
  predicate Collide(env: Env, f: FilePeriod, g: FilePeriod)
    requires DatesParse(env, f) && DatesParse(env, g)
  {
    && (EndOf(env, f).Some? ==> env.parseDate(g.from).value <= EndOf(env, f).value)
    && (EndOf(env, g).Some? ==> env.parseDate(f.from).value <= EndOf(env, g).value)
  }

  /** Ages in order or equal, and neither key nor value blank. */
  predicate Creatable(e: Entry, fp: FileProperty)
  {
    e.age.0 <= e.age.1 && TrimSpace(fp.key) != "" && TrimSpace(fp.value) != ""
  }

  ghost predicate CreatableEntries(entries: seq<Entry>)
  {
    forall i, k :: 0 <= i < |entries| && 0 <= k < |entries[i].properties| ==>
      Creatable(entries[i], entries[i].properties[k])
  }

  lemma BuildCreatable(env: Env, e: Entry, fp: FileProperty)
    ensures CreateAccepted(Build(env, e, fp)) <==> Creatable(e, fp)
  {
    hide TrimSpace, BuildContent;
    TrimSpaceTwice(fp.key);
    TrimSpaceTwice(fp.value);
  }

  lemma WantedCreatable(env: Env, entries: seq<Entry>)
    ensures AllCreatable(WantedProps(env, entries, |entries|)) <==> CreatableEntries(entries)
  {
    hide Creatable, Build, WantedProps, CreateAccepted;
    var wanted := WantedProps(env, entries, |entries|);
    if AllCreatable(wanted) {
      forall i, k | 0 <= i < |entries| && 0 <= k < |entries[i].properties|
        ensures Creatable(entries[i], entries[i].properties[k])
      {
        BuiltIsWanted(env, entries, i, k, |entries|);
        BuildCreatable(env, entries[i], entries[i].properties[k]);
      }
    }
    if CreatableEntries(entries) {
      forall w | w in wanted ensures CreateAccepted(w) {
        var x :| 0 <= x < |wanted| && wanted[x] == w;
        var i, k := WantedFrom(env, entries, |entries|, x);
        BuildCreatable(env, entries[i], entries[i].properties[k]);
        assert Creatable(entries[i], entries[i].properties[k]);
      }
    }
  }

  lemma {:induction false} PlanIff(env: Env, file: File)
    ensures Plan(env, file).Some? <==> forall i :: 0 <= i < |file| ==> DatesParse(env, file[i])
  {
    hide WantedProps;
    if file != [] {
      var n := |file| - 1;
      PlanIff(env, file[..n]);
      assert forall i :: 0 <= i < n ==> file[..n][i] == file[i];
      assert PlanOne(env, file[n]).Some? <==> DatesParse(env, file[n]);
    }
  }

  lemma OverlapOnFields(env: Env, f: FilePeriod, g: FilePeriod)
    requires PlanOne(env, f).Some? && PlanOne(env, g).Some?
    ensures DatesParse(env, f) && DatesParse(env, g)
    ensures Overlap(SpanOf(PlanOne(env, f).value), SpanOf(PlanOne(env, g).value)) <==> Collide(env, f, g)
  {
    hide WantedProps;
  }

  /** What a fresh import demands of file period k. */
  ghost predicate FreshFine(env: Env, file: File, k: nat)
    requires k < |file| && forall i :: 0 <= i < |file| ==> DatesParse(env, file[i])
  {
    && file[k].hours > 0.0 && CreatableEntries(file[k].entries)
    && forall m :: 0 <= m < k ==> !Collide(env, file[k], file[m])
  }

  /**
   A fresh import succeeds if and only if all dates parse, hours are positive, no two periods collide, ages are
   in order or equal, and no key or value is blank.
   */
  lemma FreshSucceedsIff(env: Env, file: File)
    ensures ImportedFile(env, [], file).Some? <==>
              (forall i :: 0 <= i < |file| ==> DatesParse(env, file[i]))
              && forall k :: 0 <= k < |file| ==> FreshFine(env, file, k)
  {
    hide Plan, Imported, PlanOne, DatesParse, FreshFine, FreshAdmissible, SettledFile;
    PlanIff(env, file);
    if Plan(env, file).Some? {
      FreshImported(Plan(env, file).value);
      forall k | 0 <= k < |file| ensures FreshAdmissible(Plan(env, file).value, k) <==> FreshFine(env, file, k) {
        FreshFineIff(env, file, k);
      }
    }
  }

  lemma FreshFineIff(env: Env, file: File, k: nat)
    requires k < |file| && Plan(env, file).Some? && forall i :: 0 <= i < |file| ==> DatesParse(env, file[i])
    ensures FreshAdmissible(Plan(env, file).value, k) <==> FreshFine(env, file, k)
  {
    hide Plan, PlanOne, Collide, DatesParse, Overlap, AllCreatable, CreatableEntries, SpanOf;
    var plan := Plan(env, file).value;
    PlanAt(env, file, k);
    PlannedProps(env, file[k]);
    PlannedHours(env, file[k]);
    WantedCreatable(env, file[k].entries);
    forall m | 0 <= m < k ensures Overlap(SpanOf(plan[k]), SpanOf(plan[m])) <==> Collide(env, file[k], file[m]) {
      PlanAt(env, file, m);
      OverlapOnFields(env, file[k], file[m]);
    }
  }

  lemma PlannedHours(env: Env, f: FilePeriod)
    requires PlanOne(env, f).Some?
    ensures PlanOne(env, f).value.meta.hours == f.hours
  {
  }

  /** The stored content is what the importer compares fp with; a generated label is compared as generated. */
  ghost predicate Agrees(env: Env, c: Content, fp: FileProperty)
  {
    && c.labelText == (if TrimSpace(fp.labelText) != "" then TrimSpace(fp.labelText) else env.formatLabel(fp.value))
    && PaidAs(fp.payment, c.payment) && c.requirement == fp.requirement
    && c.comment == TrimSpace(fp.comment) && c.applyToAll == fp.applyToAll
  }

  /** p is stored for the key, the value and the ages of fp. */
  predicate StandsFor(p: Property, e: Entry, fp: FileProperty)
  {
    && p.key == TrimSpace(fp.key) && p.value == TrimSpace(fp.value)
    && p.minAge == Some(e.age.0) && p.maxAge == Some(e.age.1)
  }

  /** The service lets fp create its row, or change the one that is stored where it differs. */
  ghost predicate Tolerated(env: Env, stored: Props, e: Entry, fp: FileProperty)
  {
    && (forall p :: p in stored && StandsFor(p, e, fp) && !Agrees(env, p.content, fp) ==>
          e.age.0 < e.age.1 && (TrimSpace(fp.labelText) != "" || TrimSpace(env.formatLabel(fp.value)) != ""))
    && ((forall p :: p in stored ==> !StandsFor(p, e, fp)) ==> Creatable(e, fp))
  }

  lemma AgreesIff(env: Env, c: Content, e: Entry, fp: FileProperty)
    ensures Agrees(env, c, fp) <==> c == Build(env, e, fp).content
  {
    hide TrimSpace, EuroToCents, PaidAs;
    EuroToCentsIff(fp.payment, c.payment);
  }

  lemma ItemToleratedIff(env: Env, stored: Props, e: Entry, fp: FileProperty)
    requires DistinctKeys(stored) && AllClean(stored) && Clean(Build(env, e, fp))
    ensures ItemAccepted(stored, Build(env, e, fp)) <==> Tolerated(env, stored, e, fp)
  {
    hide MatchKey, Clean, TrimSpace, EuroToCents, Agrees, CreateAccepted, DistinctKeys, AllClean, LastIndex;
    var w := Build(env, e, fp);
    ItemAcceptedIff(stored, w);
    BuildCreatable(env, e, fp);
    TrimSpaceTwice(fp.labelText);
    forall p ensures SameIdentity(p, w) <==> StandsFor(p, e, fp) {
    }
    forall p | p in stored ensures Agrees(env, p.content, fp) <==> p.content == w.content {
      AgreesIff(env, p.content, e, fp);
    }
  }

  /** The diff of a period goes through if and only if the service tolerates each of the file's properties. */
  lemma DiffToleratedIff(env: Env, stored: Props, entries: seq<Entry>)
    requires DistinctKeys(stored) && AllClean(stored) && ProperEntries(entries)
    ensures DiffAccepted(stored, WantedProps(env, entries, |entries|)) <==>
              forall i, k :: 0 <= i < |entries| && 0 <= k < |entries[i].properties| ==>
                Tolerated(env, stored, entries[i], entries[i].properties[k])
  {
    hide MatchKey, Clean, Build, WantedProps, ItemAccepted, Tolerated, DistinctKeys, ProperEntries;
    var wanted := WantedProps(env, entries, |entries|);
    ProperWanted(env, entries);
    forall i, k | 0 <= i < |entries| && 0 <= k < |entries[i].properties|
      ensures Build(env, entries[i], entries[i].properties[k]) in wanted
      ensures ItemAccepted(stored, Build(env, entries[i], entries[i].properties[k]))
         <==> Tolerated(env, stored, entries[i], entries[i].properties[k])
    {
      BuiltIsWanted(env, entries, i, k, |entries|);
      ItemToleratedIff(env, stored, entries[i], entries[i].properties[k]);
    }
    if forall i, k :: 0 <= i < |entries| && 0 <= k < |entries[i].properties| ==>
         Tolerated(env, stored, entries[i], entries[i].properties[k])
    {
      forall w | w in wanted ensures ItemAccepted(stored, w) {
        var x :| 0 <= x < |wanted| && wanted[x] == w;
        var i, k := WantedFrom(env, entries, |entries|, x);
        assert Tolerated(env, stored, entries[i], entries[i].properties[k]);
      }
    }
  }

  // ----- any number of imports

  /** A failed import leaves the store as it was. */
  function AfterFile(env: Env, views: Views, file: File): Views
  {
    match ImportedFile(env, views, file) case Some(r) => r case None => views
  }

  /** The store after importing the files one after the other, from nothing. */
  function StoreAfter(env: Env, files: seq<File>): Views
  {
    if files == [] then [] else AfterFile(env, StoreAfter(env, files[..|files| - 1]), files[|files| - 1])
  }

  /** Whatever proper files are imported, successfully or not, the store is well kept. */
  lemma {:induction false} StoreWellKept(env: Env, files: seq<File>)
    requires forall file :: file in files ==> ProperFile(env, file)
    ensures WellKept(StoreAfter(env, files))
  {
    hide WellKept, DistinctFroms, WellKeyed, ProperFile, Imported, Represents, SettledFile, Plan;
    if files == [] {
      NothingWellKept();
    } else {
      var n := |files| - 1;
      assert forall file :: file in files[..n] ==> file in files;
      StoreWellKept(env, files[..n]);
      assert files[n] in files;
      if ImportedFile(env, StoreAfter(env, files[..n]), files[n]).Some? {
        ProperPlan(env, files[n]);
        IncrementalEqualsFresh(StoreAfter(env, files[..n]), Plan(env, files[n]).value);
      }
    }
  }

  /**
   After any history of imports of proper files, the next one, if it succeeds, leaves every period of its file as
   a fresh import stores it, which is as the file says.
   */
  lemma NextImportConverges(env: Env, files: seq<File>, file: File)
    requires (forall g :: g in files ==> ProperFile(env, g)) && ProperFile(env, file)
    ensures ImportedFile(env, StoreAfter(env, files), file).Some? ==>
              var settled := SettledFile(Plan(env, file).value);
              && Represents(ImportedFile(env, StoreAfter(env, files), file).value, settled)
              && (ImportedFile(env, [], file).Some? ==> ImportedFile(env, [], file).value == settled)
              && forall i :: 0 <= i < |file| ==>
                   Recorded(env, ImportedFile(env, StoreAfter(env, files), file).value, file[i])
  {
    hide WellKept, DistinctFroms, WellKeyed, ProperFile, Imported, Represents, SettledFile, Plan, StoreAfter, Recorded;
    StoreWellKept(env, files);
    if ImportedFile(env, StoreAfter(env, files), file).Some? {
      ProperPlan(env, file);
      IncrementalEqualsFresh(StoreAfter(env, files), Plan(env, file).value);
      IncrementalMatches(env, StoreAfter(env, files), file);
    }
  }
}
