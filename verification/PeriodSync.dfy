/**
 The import of a whole file: for each file period a diff, or a new period. The service may refuse a step, and
 then the whole import fails.
 */
module PeriodSync {
  import opened Text
  import opened FundingService
  import opened Numbers
  import opened PropertyKey
  import opened PropertyDiff

  /** A stored period, or a file period as the file has it. */
  datatype PeriodView = PeriodView(from: Date, meta: Meta, props: Props)

  type Views = seq<PeriodView>

  function SpanOf(v: PeriodView): Span
  {
    Span(v.from, v.meta.to)
  }

  /** A file period as a fresh import stores it. */
  function SettleView(v: PeriodView): PeriodView
  {
    PeriodView(v.from, SettledMeta(v.meta), SettleAll(v.props))
  }

  function SettledFile(file: Views): (r: Views)
    ensures |r| == |file| && forall i :: 0 <= i < |file| ==> r[i] == SettleView(file[i])
  {
    if file == [] then [] else SettledFile(file[..|file| - 1]) + [SettleView(file[|file| - 1])]
  }

  /** The last stored period among the first n that starts on the given date, or -1. */
  function FromIndex(views: Views, from: Date, n: nat): (i: int)
    requires n <= |views|
    ensures -1 <= i < n
    ensures i >= 0 ==> views[i].from == from
    ensures forall j :: i < j < n ==> views[j].from != from
  {
    if n == 0 then -1 else if views[n - 1].from == from then n - 1 else FromIndex(views, from, n - 1)
  }

  predicate HasFrom(views: Views, from: Date)
  {
    FromIndex(views, from, |views|) >= 0
  }

  // ----- one file period

  /** What is stored for the start date. */
  function StoredProps(snapshot: Views, from: Date): Props
  {
    var i := FromIndex(snapshot, from, |snapshot|);
    if i >= 0 then snapshot[i].props else []
  }

  /** f creates its period or changes its metadata. */
  predicate Touches(snapshot: Views, f: PeriodView)
  {
    var i := FromIndex(snapshot, f.from, |snapshot|);
    i >= 0 ==> snapshot[i].meta != SettledMeta(f.meta)
  }

  /** Nothing but the period at position skip overlaps the span. */
  predicate Clear(views: Views, skip: int, span: Span)
  {
    forall j :: 0 <= j < |views| && j != skip ==> !Overlap(span, SpanOf(views[j]))
  }

  /** The importer and the service go along with f in the current state. */
  predicate PeriodAccepted(snapshot: Views, current: Views, f: PeriodView)
  {
    && (!HasFrom(snapshot, f.from) ==> f.meta.hours > 0.0)
    && (Touches(snapshot, f) ==> Clear(current, FromIndex(snapshot, f.from, |snapshot|), SpanOf(f)))
    && DiffAccepted(StoredProps(snapshot, f.from), f.props)
  }

  /** What f makes of its period. */
  function Landed(snapshot: Views, f: PeriodView): PeriodView
  {
    PeriodView(f.from, SettledMeta(f.meta), Synced(StoredProps(snapshot, f.from), f.props))
  }

  /** One file period applied to the current state; the lookups and the diff use the loaded snapshot. */
  function ApplyPeriod(snapshot: Views, current: Views, f: PeriodView): (r: Option<Views>)
    requires |snapshot| <= |current|
    ensures r.Some? ==> |current| <= |r.value|
  {
    var i := FromIndex(snapshot, f.from, |snapshot|);
    if !PeriodAccepted(snapshot, current, f) then None
    else if i >= 0 then Some(current[i := Landed(snapshot, f)])
    else Some(current + [Landed(snapshot, f)])
  }

  function Imported(snapshot: Views, file: Views): (r: Option<Views>)
    ensures r.Some? ==> |snapshot| <= |r.value|
  {
    if file == [] then Some(snapshot)
    else
      match Imported(snapshot, file[..|file| - 1])
      case None => None
      case Some(current) => ApplyPeriod(snapshot, current, file[|file| - 1])
  }

  lemma {:induction false} RefusalStays(snapshot: Views, file: Views, n: nat)
    requires n <= |file| && Imported(snapshot, file[..n]).None?
    ensures Imported(snapshot, file).None?
  {
    if n < |file| {
      assert file[..|file| - 1][..n] == file[..n];
      RefusalStays(snapshot, file[..|file| - 1], n);
    } else {
      assert file[..n] == file;
    }
  }

  /** A stored period whose start date the file does not name stays as it was. */
  lemma {:induction false} Untouched(snapshot: Views, file: Views, i: nat)
    requires i < |snapshot| && !HasFrom(file, snapshot[i].from) && Imported(snapshot, file).Some?
    ensures Imported(snapshot, file).value[i] == snapshot[i]
  {
    hide Landed, PeriodAccepted;
    if file != [] {
      FromPrefix(file, snapshot[i].from, |file| - 1, |file| - 1);
      Untouched(snapshot, file[..|file| - 1], i);
    }
  }

  datatype Counts = Counts(periodsCreated: nat, periodsUpdated: nat, created: nat, updated: nat, deleted: nat)

  const ZERO := Counts(0, 0, 0, 0, 0)

  function Add(c: Counts, d: Counts): Counts
  {
    Counts(c.periodsCreated + d.periodsCreated, c.periodsUpdated + d.periodsUpdated,
           c.created + d.created, c.updated + d.updated, c.deleted + d.deleted)
  }

  function MetaCounts(snapshot: Views, f: PeriodView): Counts
  {
    if !HasFrom(snapshot, f.from) then Counts(1, 0, 0, 0, 0)
    else if Touches(snapshot, f) then Counts(0, 1, 0, 0, 0)
    else ZERO
  }

  function DiffCounts(stored: Props, wanted: Props): Counts
  {
    Counts(0, 0, |Created(stored, wanted)|, UpdatedCount(stored, wanted), DeletedCount(stored, |stored|, wanted))
  }

  function PeriodCounts(snapshot: Views, f: PeriodView): Counts
  {
    Add(MetaCounts(snapshot, f), DiffCounts(StoredProps(snapshot, f.from), f.props))
  }

  function ImportCounts(snapshot: Views, file: Views): Counts
  {
    if file == [] then ZERO
    else Add(ImportCounts(snapshot, file[..|file| - 1]), PeriodCounts(snapshot, file[|file| - 1]))
  }

  // ----- what an import leaves behind

  ghost predicate DistinctFroms(views: Views)
  {
    forall i, j :: 0 <= i < j < |views| ==> views[i].from != views[j].from
  }

  ghost predicate WellKeyed(views: Views)
  {
    forall v :: v in views ==> DistinctKeys(v.props) && AllClean(v.props)
  }

  /** What every successful import of well-keyed files preserves. */
  ghost predicate WellKept(views: Views)
  {
    DistinctFroms(views) && forall v :: v in views ==> Healthy(v.props) && SettledMeta(v.meta) == v.meta
  }

  /** Position i of the result: what the file made of it, or what it was. */
  ghost predicate Placed(snapshot: Views, file: Views, r: Views, i: nat)
    requires i < |r|
  {
    var k := FromIndex(file, r[i].from, |file|);
    && (k >= 0 ==> r[i] == Landed(snapshot, file[k]) && (i >= |snapshot| ==> !HasFrom(snapshot, r[i].from)))
    && (k < 0 ==> i < |snapshot| && r[i] == snapshot[i])
  }

  /** r is the snapshot with the file's periods in place; new ones follow. */
  ghost predicate Merged(snapshot: Views, file: Views, r: Views)
  {
    && DistinctFroms(r) && |snapshot| <= |r|
    && (forall i :: 0 <= i < |snapshot| ==> r[i].from == snapshot[i].from)
    && (forall i :: 0 <= i < |r| ==> Placed(snapshot, file, r, i))
    && (forall f :: f in file ==> HasFrom(r, f.from))
  }

  lemma {:induction false} FromPrefix(file: Views, from: Date, n: nat, k: nat)
    requires n <= k <= |file|
    ensures FromIndex(file[..k], from, n) == FromIndex(file, from, n)
  {
    if n > 0 { FromPrefix(file, from, n - 1, k); }
  }

  lemma FromUnique(views: Views, i: nat)
    requires DistinctFroms(views) && i < |views|
    ensures FromIndex(views, views[i].from, |views|) == i
  {
  }

  lemma LastFromIsNew(file: Views)
    requires DistinctFroms(file) && file != []
    ensures !HasFrom(file[..|file| - 1], file[|file| - 1].from)
  {
    assert forall i :: 0 <= i < |file| - 1 ==> file[..|file| - 1][i] == file[i];
  }

  lemma DistinctPrefix(file: Views, n: nat)
    requires DistinctFroms(file) && n <= |file|
    ensures DistinctFroms(file[..n])
  {
  }

  lemma FromNext(file: Views, from: Date)
    requires file != []
    ensures var n := |file| - 1;
            FromIndex(file, from, |file|) == if file[n].from == from then n else FromIndex(file[..n], from, n)
  {
    FromPrefix(file, from, |file| - 1, |file| - 1);
  }

  /** A period other than the last file entry's stays in place. */
  lemma OtherPlaced(snapshot: Views, file: Views, before: Views, r: Views, i: nat)
    requires file != [] && DistinctFroms(snapshot) && i < |before| && i < |r| && r[i] == before[i]
    requires |snapshot| <= |before| && forall j :: 0 <= j < |snapshot| ==> before[j].from == snapshot[j].from
    requires Placed(snapshot, file[..|file| - 1], before, i) && !HasFrom(file[..|file| - 1], file[|file| - 1].from)
    requires i != FromIndex(snapshot, file[|file| - 1].from, |snapshot|)
    ensures Placed(snapshot, file, r, i) && r[i].from != file[|file| - 1].from
  {
    hide Landed;
    var n := |file| - 1;
    FromNext(file, r[i].from);
    if i < |snapshot| { FromUnique(snapshot, i); }
  }

  /** Only the period of the last file entry moves. */
  lemma MergedNext(snapshot: Views, file: Views, before: Views)
    requires file != [] && DistinctFroms(snapshot) && DistinctFroms(file)
    requires Merged(snapshot, file[..|file| - 1], before)
    requires ApplyPeriod(snapshot, before, file[|file| - 1]).Some?
    ensures Merged(snapshot, file, ApplyPeriod(snapshot, before, file[|file| - 1]).value)
  {
    hide Landed, PeriodAccepted, Placed, FromIndex;
    var n := |file| - 1;
    var f, r := file[n], ApplyPeriod(snapshot, before, file[n]).value;
    var s := FromIndex(snapshot, f.from, |snapshot|);
    var t := if s >= 0 then s else |before|;
    LastFromIsNew(file);
    LandedFrom(snapshot, f);
    assert r[t] == Landed(snapshot, f) && forall i :: 0 <= i < |before| && i != t ==> r[i] == before[i];
    forall i | 0 <= i < |r| ensures Placed(snapshot, file, r, i) && (i != t ==> r[i].from != f.from) {
      if i != t {
        OtherPlaced(snapshot, file, before, r, i);
      } else {
        LastPlaced(snapshot, file, r, i);
      }
    }
    forall g | g in file ensures HasFrom(r, g.from) { FromsStay(file, before, r, f, t, g); }
    OneMoved(before, r, t);
  }

  lemma OneMoved(before: Views, r: Views, t: nat)
    requires DistinctFroms(before) && t < |r| && |before| <= |r| <= |before| + 1 && (|r| > |before| ==> t == |before|)
    requires forall i :: 0 <= i < |before| && i != t ==> r[i] == before[i]
    requires forall i :: 0 <= i < |r| && i != t ==> r[i].from != r[t].from
    ensures DistinctFroms(r)
  {
    forall i, j | 0 <= i < j < |r| ensures r[i].from != r[j].from {
      if i != t && j != t { assert before[i].from != before[j].from; }
    }
  }

  lemma LastPlaced(snapshot: Views, file: Views, r: Views, t: nat)
    requires file != [] && t < |r| && r[t] == Landed(snapshot, file[|file| - 1])
    requires t >= |snapshot| ==> !HasFrom(snapshot, file[|file| - 1].from)
    ensures Placed(snapshot, file, r, t)
  {
    LandedFrom(snapshot, file[|file| - 1]);
    FromNext(file, r[t].from);
  }

  lemma FromsStay(file: Views, before: Views, r: Views, f: PeriodView, t: nat, g: PeriodView)
    requires file != [] && f == file[|file| - 1] && g in file && t < |r| && r[t].from == f.from
    requires |before| <= |r| && forall i :: 0 <= i < |before| && i != t ==> r[i] == before[i]
    requires g in file[..|file| - 1] ==> HasFrom(before, g.from)
    requires t < |before| ==> before[t].from == f.from
    ensures HasFrom(r, g.from)
  {
    if g != f {
      var j :| 0 <= j < |file| && file[j] == g;
      assert file[..|file| - 1][j] == g;
      var i := FromIndex(before, g.from, |before|);
      assert r[i].from == g.from;
    }
  }

  lemma LandedFrom(snapshot: Views, f: PeriodView)
    ensures Landed(snapshot, f).from == f.from
  {
  }

  /** Periods that the file does not name are untouched, the others are what the file made of them. */
  lemma {:induction false} ImportPlaces(snapshot: Views, file: Views)
    requires DistinctFroms(snapshot) && DistinctFroms(file) && Imported(snapshot, file).Some?
    ensures Merged(snapshot, file, Imported(snapshot, file).value)
  {
    hide Merged, ApplyPeriod;
    var n := |file| - 1;
    if file == [] {
      MergedAtFirst(snapshot);
    } else {
      DistinctPrefix(file, n);
      ImportPlaces(snapshot, file[..n]);
      MergedNext(snapshot, file, Imported(snapshot, file[..n]).value);
    }
  }

  lemma MergedAtFirst(snapshot: Views)
    requires DistinctFroms(snapshot)
    ensures Merged(snapshot, [], snapshot)
  {
  }

  // ----- which imports succeed

  /** No earlier period of the file overlaps file period k. */
  ghost predicate ClearOfFile(file: Views, k: nat)
    requires k < |file|
  {
    forall m :: 0 <= m < k ==> !Overlap(SpanOf(file[k]), SpanOf(file[m]))
  }

  /** No other stored period that the file has not yet replaced overlaps file period k. */
  ghost predicate ClearOfStored(snapshot: Views, file: Views, k: nat)
    requires k < |file|
  {
    forall j :: 0 <= j < |snapshot| && snapshot[j].from != file[k].from && !HasFrom(file[..k], snapshot[j].from)
      ==> !Overlap(SpanOf(file[k]), SpanOf(snapshot[j]))
  }

  /** The conditions on file period k, in terms of the stored periods and the file alone. */
  ghost predicate Admissible(snapshot: Views, file: Views, k: nat)
    requires k < |file|
  {
    && (!HasFrom(snapshot, file[k].from) ==> file[k].meta.hours > 0.0)
    && (Touches(snapshot, file[k]) ==> ClearOfFile(file, k) && ClearOfStored(snapshot, file, k))
    && DiffAccepted(StoredProps(snapshot, file[k].from), file[k].props)
  }

  lemma LandedSpan(snapshot: Views, f: PeriodView)
    ensures SpanOf(Landed(snapshot, f)) == SpanOf(f)
  {
  }

  /** The service compares file period k with what the import has made of the store so far. */
  lemma ClearIff(snapshot: Views, file: Views, k: nat, current: Views)
    requires k < |file| && DistinctFroms(snapshot) && DistinctFroms(file) && Merged(snapshot, file[..k], current)
    ensures Clear(current, FromIndex(snapshot, file[k].from, |snapshot|), SpanOf(file[k]))
       <==> ClearOfFile(file, k) && ClearOfStored(snapshot, file, k)
  {
    hide Landed, Overlap;
    var skip, f := FromIndex(snapshot, file[k].from, |snapshot|), file[k];
    assert forall m :: 0 <= m < k ==> file[..k][m] == file[m];
    if Clear(current, skip, SpanOf(f)) {
      forall m | 0 <= m < k ensures !Overlap(SpanOf(f), SpanOf(file[m])) {
        assert file[..k][m] in file[..k];
        var i := FromIndex(current, file[m].from, |current|);
        FromUnique(file[..k], m);
        assert Placed(snapshot, file[..k], current, i);
        LandedSpan(snapshot, file[m]);
        assert i != skip;
      }
      forall j | 0 <= j < |snapshot| && snapshot[j].from != f.from && !HasFrom(file[..k], snapshot[j].from)
        ensures !Overlap(SpanOf(f), SpanOf(snapshot[j]))
      {
        assert Placed(snapshot, file[..k], current, j);
      }
    }
    if ClearOfFile(file, k) && ClearOfStored(snapshot, file, k) {
      forall i | 0 <= i < |current| && i != skip ensures !Overlap(SpanOf(f), SpanOf(current[i])) {
        assert Placed(snapshot, file[..k], current, i);
        var m := FromIndex(file[..k], current[i].from, k);
        if m >= 0 {
          LandedSpan(snapshot, file[m]);
        } else if snapshot[i].from == f.from {
          FromUnique(snapshot, i);
        }
      }
    }
  }

  lemma AdmissiblePrefix(snapshot: Views, file: Views, n: nat, k: nat)
    requires k < n <= |file|
    ensures Admissible(snapshot, file[..n], k) <==> Admissible(snapshot, file, k)
  {
    hide Overlap, DiffAccepted, Touches, StoredProps;
    assert file[..n][..k] == file[..k];
    assert forall m :: 0 <= m <= k ==> file[..n][m] == file[m];
  }

  lemma LastStepIff(snapshot: Views, file: Views)
    requires file != [] && DistinctFroms(snapshot) && DistinctFroms(file) && Imported(snapshot, file[..|file| - 1]).Some?
    requires Merged(snapshot, file[..|file| - 1], Imported(snapshot, file[..|file| - 1]).value)
    ensures Imported(snapshot, file).Some? <==> Admissible(snapshot, file, |file| - 1)
  {
    hide Merged, Clear, ClearOfFile, ClearOfStored, DiffAccepted, Landed, HasFrom, Touches;
    ClearIff(snapshot, file, |file| - 1, Imported(snapshot, file[..|file| - 1]).value);
  }

  ghost predicate AllAdmissible(snapshot: Views, file: Views)
  {
    forall k :: 0 <= k < |file| ==> Admissible(snapshot, file, k)
  }

  lemma AllAdmissibleNext(snapshot: Views, file: Views)
    requires file != []
    ensures AllAdmissible(snapshot, file) <==>
              AllAdmissible(snapshot, file[..|file| - 1]) && Admissible(snapshot, file, |file| - 1)
  {
    hide Admissible;
    var n := |file| - 1;
    forall k | 0 <= k < n ensures Admissible(snapshot, file[..n], k) <==> Admissible(snapshot, file, k) {
      AdmissiblePrefix(snapshot, file, n, k);
    }
  }

  lemma {:induction false} SucceedsIffAll(snapshot: Views, file: Views)
    requires DistinctFroms(snapshot) && DistinctFroms(file)
    ensures Imported(snapshot, file).Some? <==> AllAdmissible(snapshot, file)
  {
    if file != [] {
      hide Imported, Admissible, AllAdmissible, DistinctFroms, Merged;
      var n := |file| - 1;
      DistinctPrefix(file, n);
      SucceedsIffAll(snapshot, file[..n]);
      AllAdmissibleNext(snapshot, file);
      if Imported(snapshot, file[..n]).Some? {
        ImportPlaces(snapshot, file[..n]);
        LastStepIff(snapshot, file);
      } else {
        RefusalStays(snapshot, file, n);
      }
    }
  }

  /** An import succeeds exactly when every file period is admissible. */
  lemma SucceedsIff(snapshot: Views, file: Views)
    requires DistinctFroms(snapshot) && DistinctFroms(file)
    ensures Imported(snapshot, file).Some? <==> forall k :: 0 <= k < |file| ==> Admissible(snapshot, file, k)
  {
    hide Imported, Admissible, DistinctFroms;
    SucceedsIffAll(snapshot, file);
  }

  ghost predicate FreshAdmissible(file: Views, k: nat)
    requires k < |file|
  {
    file[k].meta.hours > 0.0 && ClearOfFile(file, k) && AllCreatable(file[k].props)
  }

  lemma FreshPrefix(file: Views, n: nat, k: nat)
    requires k < n <= |file|
    ensures FreshAdmissible(file[..n], k) <==> FreshAdmissible(file, k)
  {
    hide Overlap, AllCreatable;
    assert forall m :: 0 <= m <= k ==> file[..n][m] == file[m];
  }

  lemma FreshStep(file: Views)
    requires file != [] && Imported([], file[..|file| - 1]) == Some(SettledFile(file[..|file| - 1]))
    ensures Imported([], file) == if FreshAdmissible(file, |file| - 1) then Some(SettledFile(file)) else None
  {
    hide DiffAccepted, AllCreatable, Synced, SettleAll, SettledMeta, Clear, ClearOfFile, SpanOf;
    var n := |file| - 1;
    FreshAcceptedIff(file[n].props);
    FreshBuildsWanted(file[n].props);
    ClearOfSettled(file);
    assert FromIndex([], file[n].from, 0) == -1;
    assert Landed([], file[n]) == SettleView(file[n]);
  }

  lemma ClearOfSettled(file: Views)
    requires file != []
    ensures Clear(SettledFile(file[..|file| - 1]), -1, SpanOf(file[|file| - 1])) <==> ClearOfFile(file, |file| - 1)
  {
    hide Overlap, SettledFile;
    var n := |file| - 1;
    SettledSpans(file[..n]);
    hide SpanOf;
    assert forall m :: 0 <= m < n ==> SpanOf(SettledFile(file[..n])[m]) == SpanOf(file[m]);
  }

  /** A fresh import goes through: positive hours, no overlap within the file, and creatable properties. */
  ghost predicate FreshAccepted(file: Views)
  {
    forall k :: 0 <= k < |file| ==> FreshAdmissible(file, k)
  }

  lemma FreshAcceptedNext(file: Views)
    requires file != []
    ensures FreshAccepted(file) <==> FreshAccepted(file[..|file| - 1]) && FreshAdmissible(file, |file| - 1)
  {
    hide FreshAdmissible;
    var n := |file| - 1;
    forall k | 0 <= k < n ensures FreshAdmissible(file[..n], k) <==> FreshAdmissible(file, k) { FreshPrefix(file, n, k); }
  }

  /** A fresh import stores the file settled, and succeeds exactly under those conditions. */
  lemma {:induction false} FreshImported(file: Views)
    ensures Imported([], file) == if FreshAccepted(file) then Some(SettledFile(file)) else None
  {
    if file == [] {
      assert SettledFile([]) == [];
    } else {
      hide Imported, SettledFile, FreshAccepted, FreshAdmissible;
      var n := |file| - 1;
      FreshImported(file[..n]);
      FreshAcceptedNext(file);
      if FreshAccepted(file[..n]) { FreshStep(file); } else { RefusalStays([], file, n); }
    }
  }

  lemma SettledSpans(file: Views)
    ensures forall m :: 0 <= m < |file| ==> SpanOf(SettledFile(file)[m]) == SpanOf(file[m])
  {
  }

  /**
   A file that a fresh import accepts is accepted by an incremental import exactly when every period it creates
   or changes is clear of the stored periods it has not replaced yet, and every property whose stored row
   differs has a label and ages that are not equal.
   */
  lemma IncrementalSucceedsIff(snapshot: Views, file: Views)
    requires DistinctFroms(snapshot) && DistinctFroms(file) && WellKeyed(snapshot) && WellKeyed(file)
    requires Imported([], file).Some?
    ensures Imported(snapshot, file).Some? <==>
              forall k :: 0 <= k < |file| ==>
                && (Touches(snapshot, file[k]) ==> ClearOfStored(snapshot, file, k))
                && ChangesAllowed(StoredProps(snapshot, file[k].from), file[k].props)
  {
    hide Imported, Admissible, ClearOfStored, Touches, ChangesAllowed, FreshAdmissible, DistinctFroms, WellKeyed,
         SettledFile;
    SucceedsIff(snapshot, file);
    FreshImported(file);
    forall k | 0 <= k < |file|
      ensures Admissible(snapshot, file, k) <==>
                && (Touches(snapshot, file[k]) ==> ClearOfStored(snapshot, file, k))
                && ChangesAllowed(StoredProps(snapshot, file[k].from), file[k].props)
    {
      AdmissibleIff(snapshot, file, k);
    }
  }

  lemma AdmissibleIff(snapshot: Views, file: Views, k: nat)
    requires k < |file| && WellKeyed(snapshot) && WellKeyed(file) && FreshAdmissible(file, k)
    ensures Admissible(snapshot, file, k) <==>
              && (Touches(snapshot, file[k]) ==> ClearOfStored(snapshot, file, k))
              && ChangesAllowed(StoredProps(snapshot, file[k].from), file[k].props)
  {
    hide ClearOfFile, ClearOfStored, Touches, ChangesAllowed, DiffAccepted, DistinctKeys, AllClean, AllCreatable;
    assert file[k] in file;
    FreshAcceptedIff(file[k].props);
    StoredKeyed(snapshot, file[k].from);
    DiffVersusFresh(StoredProps(snapshot, file[k].from), file[k].props);
  }

  lemma StoredKeyed(snapshot: Views, from: Date)
    requires WellKeyed(snapshot)
    ensures DistinctKeys(StoredProps(snapshot, from)) && AllClean(StoredProps(snapshot, from))
  {
  }

  /**
   The order of the file decides: a new period listed before the stored open one is closed makes the import
   fail; listed after it, or imported fresh, the same periods go through.
   */
  lemma OrderDecides(stored: PeriodView, closed: PeriodView, next: PeriodView)
    requires stored.meta.to.None? && stored.from == closed.from < next.from
    requires closed.meta.to == Some(next.from - 1) && next.meta.to.None?
    requires closed.meta.hours > 0.0 && next.meta.hours > 0.0
    requires DiffAccepted(stored.props, closed.props) && DiffAccepted([], closed.props) && DiffAccepted([], next.props)
    ensures Imported([stored], [next, closed]).None? && Imported([stored], [closed, next]).Some?
    ensures Imported([], [next, closed]).Some? && Imported([], [closed, next]).Some?
  {
    hide DiffAccepted, Imported, Admissible, FreshAdmissible, SettledFile, DistinctFroms;
    SingleDistinct(stored, closed, next);
    FreshOrders(closed, next);
    FreshImported([next, closed]);
    FreshImported([closed, next]);
    SucceedsIff([stored], [next, closed]);
    SucceedsIff([stored], [closed, next]);
    NextBlocked(stored, closed, next);
    ClosedFirst(stored, closed, next);
  }

  lemma SingleDistinct(stored: PeriodView, a: PeriodView, b: PeriodView)
    requires a.from != b.from
    ensures DistinctFroms([stored]) && DistinctFroms([a, b]) && DistinctFroms([b, a])
  {
  }

  lemma FreshOrders(a: PeriodView, b: PeriodView)
    requires a.meta.hours > 0.0 && b.meta.hours > 0.0 && DiffAccepted([], a.props) && DiffAccepted([], b.props)
    requires !Overlap(SpanOf(a), SpanOf(b))
    ensures forall k :: 0 <= k < 2 ==> FreshAdmissible([a, b], k) && FreshAdmissible([b, a], k)
  {
    hide DiffAccepted, AllCreatable;
    FreshAcceptedIff(a.props);
    FreshAcceptedIff(b.props);
  }

  lemma NextBlocked(stored: PeriodView, closed: PeriodView, next: PeriodView)
    requires stored.meta.to.None? && stored.from < next.from && next.meta.to.None?
    ensures !Admissible([stored], [next, closed], 0)
  {
    hide DiffAccepted;
    assert FromIndex([stored], next.from, 1) == -1;
    assert Overlap(SpanOf(next), SpanOf([stored][0]));
    assert [next, closed][..0] == [];
  }

  lemma ClosedFirst(stored: PeriodView, closed: PeriodView, next: PeriodView)
    requires stored.from == closed.from < next.from && closed.meta.to == Some(next.from - 1)
    requires next.meta.hours > 0.0
    requires DiffAccepted(stored.props, closed.props) && DiffAccepted([], next.props)
    ensures forall k :: 0 <= k < 2 ==> Admissible([stored], [closed, next], k)
  {
    hide DiffAccepted;
    assert FromIndex([stored], closed.from, 1) == 0 && FromIndex([stored], next.from, 1) == -1;
    assert [closed, next][..1] == [closed] && HasFrom([closed], stored.from);
    assert Admissible([stored], [closed, next], 0);
    assert Admissible([stored], [closed, next], 1);
  }

  /**
   One file, imported fresh for the single age of two years and then again with another payment: the second
   import fails, although a fresh import of the changed file goes through.
   */
  lemma SingleAgeBlocks(from: Date, meta: Meta, c: Content, payment: int)
    requires meta.hours > 0.0 && payment != c.payment
    ensures var p := Property("care_type", "ganztag", Some(2), Some(2), c);
            var f := PeriodView(from, meta, [p]);
            var g := PeriodView(from, meta, [p.(content := c.(payment := payment))]);
            && Imported([], [f]) == Some([SettleView(f)]) && Imported([], [g]).Some?
            && Imported([SettleView(f)], [g]).None?
  {
    hide Imported, DiffAccepted, SettledMeta, TrimSpace, MatchKey;
    var p := Property("care_type", "ganztag", Some(2), Some(2), c);
    var w := p.(content := c.(payment := payment));
    var f, g := PeriodView(from, meta, [p]), PeriodView(from, meta, [w]);
    AgeTwoChanged(c, payment);
    SoloFresh(f);
    SoloFresh(g);
    SucceedsIff([SettleView(f)], [g]);
    assert FromIndex([SettleView(f)], from, 1) == 0;
    assert SettleAll([p]) == [Settle(p)];
    assert !Admissible([SettleView(f)], [g], 0);
  }

  lemma AgeTwoChanged(c: Content, payment: int)
    requires payment != c.payment
    ensures var p := Property("care_type", "ganztag", Some(2), Some(2), c);
            var w := p.(content := c.(payment := payment));
            CreateAccepted(p) && CreateAccepted(w) && !DiffAccepted([Settle(p)], [w])
  {
    hide Itoa;
    assert TrimRight("care_type") == "care_type" && TrimRight("ganztag") == "ganztag";
    hide TrimSpace;
    var p := Property("care_type", "ganztag", Some(2), Some(2), c);
    SingleAgeFrozen(Settle(p), c.(payment := payment), 2);
  }

  lemma SoloFresh(f: PeriodView)
    requires f.meta.hours > 0.0 && AllCreatable(f.props)
    ensures Imported([], [f]) == Some([SettleView(f)])
  {
    hide AllCreatable, SettleView;
    FreshImported([f]);
    assert [f][..0] == [] && SettledFile([]) == [];
    assert SettledFile([f]) == SettledFile([f][..0]) + [SettleView(f)] == [SettleView(f)];
  }

  // ----- incremental import equals fresh import

  /** views has a period with the start, the metadata and the properties of v, up to order. */
  ghost predicate Mirrored(views: Views, v: PeriodView)
  {
    exists i :: 0 <= i < |views| && views[i].from == v.from && views[i].meta == v.meta
                && multiset(views[i].props) == multiset(v.props)
  }

  ghost predicate Represents(views: Views, settled: Views)
  {
    forall v :: v in settled ==> Mirrored(views, v)
  }

  lemma StoredHealthy(snapshot: Views, from: Date)
    requires WellKept(snapshot)
    ensures Healthy(StoredProps(snapshot, from))
  {
  }

  lemma LandedMirrors(snapshot: Views, f: PeriodView, r: Views, i: nat)
    requires WellKept(snapshot) && DistinctKeys(f.props) && AllClean(f.props) && i < |r| && r[i] == Landed(snapshot, f)
    ensures Mirrored(r, SettleView(f)) && Healthy(r[i].props) && SettledMeta(r[i].meta) == r[i].meta
  {
    hide Synced, SettleAll, Healthy, DistinctKeys, AllClean, SettledMeta, WellKept;
    StoredHealthy(snapshot, f.from);
    Converges(StoredProps(snapshot, f.from), f.props);
    DiffKeepsHealth(StoredProps(snapshot, f.from), f.props);
    SettledMetaTwice(f.meta);
    assert r[i].from == f.from && r[i].meta == SettleView(f).meta;
  }

  /**
   Incremental import equals fresh import: every period of the file ends up with the metadata and properties a
   fresh import gives it, periods the file does not name are untouched, and no period is duplicated.
   */
  lemma IncrementalEqualsFresh(snapshot: Views, file: Views)
    requires WellKept(snapshot) && DistinctFroms(file) && WellKeyed(file) && Imported(snapshot, file).Some?
    ensures var r := Imported(snapshot, file).value;
            && Represents(r, SettledFile(file)) && WellKept(r)
            && (Imported([], file).Some? ==> Imported([], file).value == SettledFile(file))
            && (forall i :: 0 <= i < |snapshot| && !HasFrom(file, snapshot[i].from) ==> r[i] == snapshot[i])
            && (forall i :: |snapshot| <= i < |r| ==> HasFrom(file, r[i].from) && !HasFrom(snapshot, r[i].from))
  {
    hide Imported, WellKeyed, WellKept, Represents, SettledFile, FreshAdmissible, Merged;
    var r := Imported(snapshot, file).value;
    FreshImported(file);
    WellKeptDistinct(snapshot);
    ImportPlaces(snapshot, file);
    MergedRepresents(snapshot, file, r);
    KeepsHealth(snapshot, file, r);
    MergedMeans(snapshot, file, r);
  }

  lemma WellKeptDistinct(snapshot: Views)
    requires WellKept(snapshot)
    ensures DistinctFroms(snapshot)
  {
  }

  lemma MergedMeans(snapshot: Views, file: Views, r: Views)
    requires Merged(snapshot, file, r)
    ensures |snapshot| <= |r|
    ensures forall i :: 0 <= i < |snapshot| && !HasFrom(file, snapshot[i].from) ==> r[i] == snapshot[i]
    ensures forall i :: |snapshot| <= i < |r| ==> HasFrom(file, r[i].from) && !HasFrom(snapshot, r[i].from)
  {
    hide Landed;
    forall i | 0 <= i < |snapshot| && !HasFrom(file, snapshot[i].from) ensures r[i] == snapshot[i] {
      assert Placed(snapshot, file, r, i);
    }
    forall i | |snapshot| <= i < |r| ensures HasFrom(file, r[i].from) && !HasFrom(snapshot, r[i].from) {
      assert Placed(snapshot, file, r, i);
    }
  }

  lemma MergedRepresents(snapshot: Views, file: Views, r: Views)
    requires WellKept(snapshot) && DistinctFroms(file) && WellKeyed(file) && Merged(snapshot, file, r)
    ensures Represents(r, SettledFile(file))
  {
    hide Healthy, DistinctKeys, AllClean, Landed, SettleView, WellKept, Mirrored;
    forall v | v in SettledFile(file) ensures Mirrored(r, v) {
      var k :| 0 <= k < |file| && SettledFile(file)[k] == v;
      assert file[k] in file;
      var i := FromIndex(r, file[k].from, |r|);
      FromUnique(file, k);
      assert Placed(snapshot, file, r, i);
      LandedMirrors(snapshot, file[k], r, i);
    }
  }

  lemma KeepsHealth(snapshot: Views, file: Views, r: Views)
    requires WellKept(snapshot) && WellKeyed(file) && Merged(snapshot, file, r)
    ensures WellKept(r)
  {
    hide Healthy, DistinctKeys, AllClean, Landed, SettleView, SettledMeta;
    forall v | v in r ensures Healthy(v.props) && SettledMeta(v.meta) == v.meta {
      var i :| 0 <= i < |r| && r[i] == v;
      assert Placed(snapshot, file, r, i);
      var k := FromIndex(file, r[i].from, |file|);
      if k >= 0 {
        assert file[k] in file;
        LandedMirrors(snapshot, file[k], r, i);
      } else {
        assert snapshot[i] in snapshot;
      }
    }
  }

  // ----- conservation of the property count

  function TotalProps(views: Views): nat
  {
    if views == [] then 0 else TotalProps(views[..|views| - 1]) + |views[|views| - 1].props|
  }

  lemma {:induction false} TotalAfterUpdate(views: Views, k: nat, v: PeriodView)
    requires k < |views|
    ensures TotalProps(views[k := v]) + |views[k].props| == TotalProps(views) + |v.props|
  {
    var n := |views| - 1;
    if k == n {
      assert views[k := v][..n] == views[..n];
    } else {
      assert views[k := v][..n] == views[..n][k := v];
      TotalAfterUpdate(views[..n], k, v);
    }
  }

  lemma AppliedCount(snapshot: Views, before: Views, f: PeriodView)
    requires |snapshot| <= |before| && ApplyPeriod(snapshot, before, f).Some?
    requires var i := FromIndex(snapshot, f.from, |snapshot|); i >= 0 ==> before[i] == snapshot[i]
    ensures var c := PeriodCounts(snapshot, f);
            TotalProps(ApplyPeriod(snapshot, before, f).value) + c.deleted == TotalProps(before) + c.created
  {
    hide Synced, Created, UpdatedCount, DeletedCount, PeriodAccepted, Touches;
    var i := FromIndex(snapshot, f.from, |snapshot|);
    CountConserved(StoredProps(snapshot, f.from), f.props);
    if i >= 0 {
      TotalAfterUpdate(before, i, Landed(snapshot, f));
    } else {
      assert (before + [Landed(snapshot, f)])[..|before|] == before;
    }
  }

  /** Over a successful import the number of stored properties changes by exactly created minus deleted. */
  lemma {:induction false} ImportConservesCount(snapshot: Views, file: Views)
    requires DistinctFroms(snapshot) && DistinctFroms(file) && Imported(snapshot, file).Some?
    ensures var c := ImportCounts(snapshot, file);
            TotalProps(Imported(snapshot, file).value) + c.deleted == TotalProps(snapshot) + c.created
  {
    hide ApplyPeriod, PeriodCounts;
    if file != [] {
      var n := |file| - 1;
      var before, f := Imported(snapshot, file[..n]).value, file[n];
      assert DistinctFroms(file[..n]);
      ImportConservesCount(snapshot, file[..n]);
      ImportPlaces(snapshot, file[..n]);
      LastFromIsNew(file);
      var i := FromIndex(snapshot, f.from, |snapshot|);
      assert i >= 0 ==> Placed(snapshot, file[..n], before, i);
      AppliedCount(snapshot, before, f);
    }
  }

  /** The counters of a fresh import: its periods, and all properties of the file as created. */
  lemma {:induction false} FreshCounts(file: Views)
    ensures ImportCounts([], file) == Counts(|file|, 0, TotalProps(file), 0, 0)
  {
    hide Created, UpdatedCount, DeletedCount, SettleAll;
    if file != [] {
      FreshCounts(file[..|file| - 1]);
      FreshBuildsWanted(file[|file| - 1].props);
    }
  }

  ghost function NewPeriods(snapshot: Views, file: Views): set<nat>
  {
    set k: nat | k < |file| && !HasFrom(snapshot, file[k].from)
  }

  ghost function ChangedPeriods(snapshot: Views, file: Views): set<nat>
  {
    set k: nat | k < |file| && HasFrom(snapshot, file[k].from) && Touches(snapshot, file[k])
  }

  lemma NewPeriodsStep(snapshot: Views, file: Views)
    requires file != []
    ensures var n := |file| - 1;
            var before := NewPeriods(snapshot, file[..n]);
            && NewPeriods(snapshot, file) == (if HasFrom(snapshot, file[n].from) then before else before + {n})
            && n !in before
  {
    hide HasFrom;
    var n := |file| - 1;
    forall k: nat | k < n ensures file[..n][k] == file[k] {}
  }

  lemma ChangedPeriodsStep(snapshot: Views, file: Views)
    requires file != []
    ensures var n := |file| - 1;
            var before := ChangedPeriods(snapshot, file[..n]);
            && ChangedPeriods(snapshot, file) ==
                 (if HasFrom(snapshot, file[n].from) && Touches(snapshot, file[n]) then before + {n} else before)
            && n !in before
  {
    hide HasFrom, Touches;
    var n := |file| - 1;
    forall k: nat | k < n ensures file[..n][k] == file[k] {}
  }

  /** Periods count as created where their start is not stored, as updated where their metadata differs. */
  lemma {:induction false} PeriodsCounted(snapshot: Views, file: Views)
    ensures ImportCounts(snapshot, file).periodsCreated == |NewPeriods(snapshot, file)|
    ensures ImportCounts(snapshot, file).periodsUpdated == |ChangedPeriods(snapshot, file)|
  {
    hide Created, UpdatedCount, DeletedCount, HasFrom, Touches, StoredProps;
    if file == [] {
      assert NewPeriods(snapshot, file) == {} && ChangedPeriods(snapshot, file) == {};
    } else {
      hide NewPeriods, ChangedPeriods;
      PeriodsCounted(snapshot, file[..|file| - 1]);
      NewPeriodsStep(snapshot, file);
      ChangedPeriodsStep(snapshot, file);
    }
  }

  // ----- importing the same file again

  /** The wanted properties of the file that the service stores in another form. */
  function PaddedTotal(file: Views): nat
  {
    if file == [] then 0 else PaddedTotal(file[..|file| - 1]) + PaddedCount(file[|file| - 1].props)
  }

  lemma {:induction false} PaddedTotalNone(file: Views)
    ensures PaddedTotal(file) == 0 <==> forall f :: f in file ==> AllSettled(f.props)
  {
    hide AllSettled, PaddedCount;
    if file != [] {
      var n := |file| - 1;
      PaddedTotalNone(file[..n]);
      PaddedNone(file[n].props);
      assert file == file[..n] + [file[n]];
      assert file[n] in file;
    }
  }

  lemma MirroredStored(views: Views, v: PeriodView)
    requires DistinctFroms(views) && Mirrored(views, v)
    ensures var i := FromIndex(views, v.from, |views|);
            i >= 0 && views[i].meta == v.meta && multiset(views[i].props) == multiset(v.props)
  {
    var i :| 0 <= i < |views| && views[i].from == v.from && views[i].meta == v.meta
             && multiset(views[i].props) == multiset(v.props);
    FromUnique(views, i);
  }

  lemma RepresentedPeriod(views: Views, f: PeriodView)
    requires DistinctFroms(views) && DistinctKeys(f.props) && Mirrored(views, SettleView(f))
    ensures PeriodCounts(views, f) == Counts(0, 0, 0, PaddedCount(f.props), 0)
    ensures HasFrom(views, f.from) && !Touches(views, f)
    ensures DiffAccepted(StoredProps(views, f.from), f.props) <==>
              forall w :: w in f.props ==> Settled(w.content) == w.content || UpdateAccepted(w, w.content)
  {
    hide Settled, SettledMeta, TrimSpace, PaddedCount, Created, UpdatedCount, DeletedCount, DiffAccepted, SettleAll,
         DistinctKeys;
    MirroredStored(views, SettleView(f));
    ReimportSilent(StoredProps(views, f.from), f.props);
    ReimportAcceptedIff(StoredProps(views, f.from), f.props);
  }

  lemma {:induction false} RepresentedCounts(views: Views, file: Views)
    requires DistinctFroms(views) && WellKeyed(file) && forall f :: f in file ==> Mirrored(views, SettleView(f))
    ensures ImportCounts(views, file) == Counts(0, 0, 0, PaddedTotal(file), 0)
  {
    hide DistinctKeys, AllClean, PeriodCounts, Mirrored, SettleView;
    if file != [] {
      var n := |file| - 1;
      assert forall v :: v in file[..n] ==> v in file;
      RepresentedCounts(views, file[..n]);
      assert file[n] in file;
      RepresentedPeriod(views, file[n]);
    }
  }

  lemma SettledMember(file: Views, f: PeriodView)
    requires f in file
    ensures SettleView(f) in SettledFile(file)
  {
    hide SettleView;
    var k :| 0 <= k < |file| && file[k] == f;
    assert SettledFile(file)[k] == SettleView(f);
  }

  /**
   Importing the same file a second time creates and deletes nothing, changes no period, and reports as updated
   exactly the properties whose label the service stores trimmed. It is accepted exactly when those may be
   changed.
   */
  lemma SecondImport(snapshot: Views, file: Views)
    requires WellKept(snapshot) && DistinctFroms(file) && WellKeyed(file) && Imported(snapshot, file).Some?
    ensures var r := Imported(snapshot, file).value;
            && ImportCounts(r, file) == Counts(0, 0, 0, PaddedTotal(file), 0)
            && (ImportCounts(r, file) == ZERO <==> forall f :: f in file ==> AllSettled(f.props))
            && (Imported(r, file).Some? <==>
                  forall f, w :: f in file && w in f.props && Settled(w.content) != w.content ==>
                    UpdateAccepted(w, w.content))
  {
    hide Imported, ImportCounts, WellKept, AllSettled, SettledFile, Mirrored, SettleView, Settled, UpdateAccepted,
         DistinctKeys, AllClean;
    var r := Imported(snapshot, file).value;
    IncrementalEqualsFresh(snapshot, file);
    ReimportedIff(r, file);
    PaddedTotalNone(file);
  }

  lemma ReimportedIff(r: Views, file: Views)
    requires WellKept(r) && DistinctFroms(file) && WellKeyed(file) && Represents(r, SettledFile(file))
    ensures ImportCounts(r, file) == Counts(0, 0, 0, PaddedTotal(file), 0)
    ensures Imported(r, file).Some? <==>
              forall f, w :: f in file && w in f.props && Settled(w.content) != w.content ==> UpdateAccepted(w, w.content)
  {
    hide Imported, SettledFile, Mirrored, SettleView, Settled, UpdateAccepted, DistinctKeys, AllClean, Healthy,
         SettledMeta, HasFrom, Touches, DiffAccepted;
    forall f | f in file ensures Mirrored(r, SettleView(f)) { SettledMember(file, f); }
    RepresentedCounts(r, file);
    SucceedsIff(r, file);
    forall f | f in file
      ensures HasFrom(r, f.from) && !Touches(r, f)
      ensures DiffAccepted(StoredProps(r, f.from), f.props) <==>
                forall w :: w in f.props ==> Settled(w.content) == w.content || UpdateAccepted(w, w.content)
    {
      RepresentedPeriod(r, f);
    }
    if Imported(r, file).Some? {
      forall f, w | f in file && w in f.props && Settled(w.content) != w.content ensures UpdateAccepted(w, w.content) {
        var k :| 0 <= k < |file| && file[k] == f;
        assert Admissible(r, file, k);
      }
    }
  }

  // ----- any number of imports

  /** A refused import leaves the store as it was. */
  function AfterImport(views: Views, file: Views): Views
  {
    match Imported(views, file) case Some(r) => r case None => views
  }

  lemma NothingWellKept()
    ensures WellKept([])
  {
  }
}
