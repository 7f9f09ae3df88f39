/**
 The funding importer: it loads the stored periods, and creates, patches and deletes rows one by one. Its state
 is the stored funding with its periods, the next row id and the counters. Each method is proved against the
 functions that say what an import means as a whole, with the exact condition of its success; an import that
 fails leaves the store as it was.
 */
module FundingImport {
  import opened Text
  import opened FundingFile
  import opened FundingService
  import opened PropertyKey
  import opened PropertyDiff
  import opened StoredRows
  import opened PeriodSync

  // ----- the store

  datatype Period = Period(from: Date, meta: Meta, rows: Rows)

  function ViewOf(p: Period): PeriodView
  {
    PeriodView(p.from, p.meta, Strip(p.rows))
  }

  function ViewsOf(periods: seq<Period>): (views: Views)
    ensures |views| == |periods| && forall i :: 0 <= i < |periods| ==> views[i] == ViewOf(periods[i])
  {
    seq(|periods|, i requires 0 <= i < |periods| => ViewOf(periods[i]))
  }

  ghost predicate AllGood(periods: seq<Period>, next: nat)
  {
    forall p :: p in periods ==> GoodIds(p.rows, next)
  }

  class Importer {
    const env: Env
    var present: bool
    var periods: seq<Period>
    var nextId: nat
    var counts: Counts

    ghost predicate Valid()
      reads this
    {
      AllGood(periods, nextId) && (!present ==> periods == [])
    }

    constructor (env: Env)
      ensures Valid() && this.env == env && !present && periods == [] && counts == ZERO
    {
      this.env := env;
      present, periods, nextId, counts := false, [], 0, ZERO;
    }

    // ----- the service, with the counters the importer keeps beside it

    method CreateProperty(pi: nat, p: Property) returns (ok: bool)
      requires pi < |periods|
      modifies this`periods, this`nextId, this`counts
      ensures ok <==> CreateAccepted(p)
      ensures !ok ==> periods == old(periods) && nextId == old(nextId) && counts == old(counts)
      ensures ok ==>
        var content := p.content.(labelText := TrimSpace(p.content.labelText), comment := TrimSpace(p.content.comment));
        var row := Property(TrimSpace(p.key), TrimSpace(p.value), p.minAge, p.maxAge, content);
        var rows := old(periods)[pi].rows + [Stored(old(nextId), row)];
        && periods == old(periods)[pi := old(periods)[pi].(rows := rows)]
        && nextId == old(nextId) + 1
        && counts == old(counts).(created := old(counts).created + 1)
    {
      if p.minAge.Some? && p.maxAge.Some? && p.minAge.value > p.maxAge.value { return false; }
      var row := Stored(nextId, StoredAs(p));
      if row.prop.key == "" || row.prop.value == "" { return false; }
      periods := periods[pi := periods[pi].(rows := periods[pi].rows + [row])];
      nextId := nextId + 1;
      counts := counts.(created := counts.created + 1);
      ok := true;
    }

    method UpdateIfChanged(pi: nat, existing: Stored, content: Content) returns (ok: bool)
      requires pi < |periods|
      modifies this`periods, this`counts
      ensures ok <==> existing.prop.content == content || UpdateAccepted(existing.prop, content)
      ensures !ok || existing.prop.content == content ==> periods == old(periods) && counts == old(counts)
      ensures ok && existing.prop.content != content ==>
        var stored := content.(labelText := TrimSpace(content.labelText), comment := TrimSpace(content.comment));
        var rows := WithContent(old(periods)[pi].rows, existing.id, stored);
        && periods == old(periods)[pi := old(periods)[pi].(rows := rows)]
        && counts == old(counts).(updated := old(counts).updated + 1)
    {
      if existing.prop.content == content { return true; }
      if TrimSpace(content.labelText) == "" || AgesTouch(existing.prop) { return false; }
      periods := periods[pi := periods[pi].(rows := WithContent(periods[pi].rows, existing.id, Settled(content)))];
      counts := counts.(updated := counts.updated + 1);
      ok := true;
    }

    method DeleteProperty(pi: nat, id: nat)
      requires pi < |periods|
      modifies this`periods, this`counts
      ensures periods == old(periods)[pi := old(periods)[pi].(rows := Without(old(periods)[pi].rows, {id}))]
      ensures counts == old(counts).(deleted := old(counts).deleted + 1)
    {
      periods := periods[pi := periods[pi].(rows := Without(periods[pi].rows, {id}))];
      counts := counts.(deleted := counts.deleted + 1);
    }

    /** Every stored period but the one at position skip is compared with the span. */
    method NoOverlap(skip: int, span: Span) returns (ok: bool)
      ensures ok <==> Clear(ViewsOf(periods), skip, span)
    {
      hide Overlap, Strip;
      for j := 0 to |periods|
        invariant forall i :: 0 <= i < j && i != skip ==> !Overlap(span, SpanOf(ViewsOf(periods)[i]))
      {
        if j != skip && Overlap(span, Span(periods[j].from, periods[j].meta.to)) { return false; }
      }
      ok := true;
    }

    method CreatePeriod(from: Date, meta: Meta) returns (ok: bool)
      modifies this`periods, this`counts
      ensures ok <==> Clear(ViewsOf(old(periods)), -1, Span(from, meta.to))
      ensures ok ==> periods == old(periods) + [Period(from, SettledMeta(meta), [])]
                     && counts == old(counts).(periodsCreated := old(counts).periodsCreated + 1)
    {
      hide Clear, ViewsOf;
      ok := NoOverlap(-1, Span(from, meta.to));
      if ok {
        var keys := NormalizeRequiredKeys(meta.requiredKeys);
        periods := periods + [Period(from, meta.(comment := TrimSpace(meta.comment), requiredKeys := keys), [])];
        counts := counts.(periodsCreated := counts.periodsCreated + 1);
      }
    }

    /** An existing period is changed if its metadata differs from what the file says in settled form. */
    method UpdateMetaIfChanged(pi: nat, meta: Meta) returns (ok: bool)
      requires pi < |periods|
      modifies this`periods, this`counts
      ensures ok <==> old(periods)[pi].meta == SettledMeta(meta)
                      || Clear(ViewsOf(old(periods)), pi, Span(old(periods)[pi].from, meta.to))
      ensures ok ==> periods == old(periods)[pi := old(periods)[pi].(meta := SettledMeta(meta))]
      ensures ok ==> counts == if old(periods)[pi].meta == SettledMeta(meta) then old(counts)
                               else old(counts).(periodsUpdated := old(counts).periodsUpdated + 1)
    {
      hide Clear, ViewsOf, Normalized, TrimSpace;
      var keys := NormalizeRequiredKeys(meta.requiredKeys);
      var wanted := meta.(comment := TrimSpace(meta.comment), requiredKeys := keys);
      if periods[pi].meta == wanted { return true; }
      ok := NoOverlap(pi, Span(periods[pi].from, wanted.to));
      if ok {
        var again := NormalizeRequiredKeys(keys);
        SettledMetaTwice(meta);
        var stored := wanted.(comment := TrimSpace(wanted.comment), requiredKeys := again);
        periods := periods[pi := periods[pi].(meta := stored)];
        counts := counts.(periodsUpdated := counts.periodsUpdated + 1);
      }
    }

    // ----- one existing period

    /** The lookup table holds, for each composite key, the last stored row that carries it. */
    static method BuildLookup(snapshot: Rows) returns (byKey: map<string, Stored>)
      ensures IsLookup(byKey, snapshot)
    {
      hide MatchKey;
      var props := Strip(snapshot);
      hide Strip;
      byKey := map[];
      for i := 0 to |snapshot|
        invariant forall key :: key in byKey <==> LastBelow(props, key, i) >= 0
        invariant forall key :: key in byKey ==> byKey[key] == snapshot[LastBelow(props, key, i)]
      {
        assert props[i] == snapshot[i].prop;
        byKey := byKey[MatchKey(snapshot[i].prop) := snapshot[i]];
      }
    }

    /** Only the rows of period pi have changed. */
    ghost predicate OnlyRowsOf(before: seq<Period>, pi: nat)
      reads this
    {
      && |periods| == |before| && pi < |before|
      && periods == before[pi := before[pi].(rows := periods[pi].rows)]
    }

    /** The state while wanted properties w are applied to period pi, whose rows were loaded as snapshot. */
    ghost predicate Applying(pi: nat, before: seq<Period>, base: Counts, snapshot: Rows, w: Props)
      reads this
    {
      && OnlyRowsOf(before, pi)
      && Progress(snapshot, w, periods[pi].rows, nextId)
      && counts == Add(base, Counts(0, 0, |Created(Strip(snapshot), w)|, UpdatedCount(Strip(snapshot), w), 0))
    }

    method ApplyProperty(pi: nat, byKey: map<string, Stored>, p: Property,
                         ghost before: seq<Period>, ghost base: Counts, ghost snapshot: Rows, ghost w: Props)
      returns (ok: bool)
      requires IsLookup(byKey, snapshot) && Applying(pi, before, base, snapshot, w) && Trimmed(p)
      modifies this`periods, this`nextId, this`counts
      ensures ok <==> ItemAccepted(Strip(snapshot), p)
      ensures ok ==> Applying(pi, before, base, snapshot, w + [p]) && nextId >= old(nextId)
    {
      hide MatchKey, Progress, TrimSpace;
      Snoc(w, p);
      var key := MatchKey(p);
      if key !in byKey {
        ProgressCreate(snapshot, w, periods[pi].rows, nextId, p);
        ok := CreateProperty(pi, p);
      } else {
        ProgressUpdate(snapshot, w, periods[pi].rows, nextId, p, LastIndex(Strip(snapshot), key));
        ok := UpdateIfChanged(pi, byKey[key], p.content);
      }
    }

    method ApplyEntries(pi: nat, byKey: map<string, Stored>, entries: seq<Entry>,
                        ghost before: seq<Period>, ghost base: Counts, ghost snapshot: Rows)
      returns (ok: bool, seen: set<string>)
      requires IsLookup(byKey, snapshot) && Applying(pi, before, base, snapshot, [])
      modifies this`periods, this`nextId, this`counts
      ensures ok <==> DiffAccepted(Strip(snapshot), WantedProps(env, entries, |entries|))
      ensures ok ==> Applying(pi, before, base, snapshot, WantedProps(env, entries, |entries|)) && nextId >= old(nextId)
      ensures ok ==> forall key :: key in seen <==> Has(WantedProps(env, entries, |entries|), key)
    {
      hide MatchKey, Build, Applying, IsLookup, ItemAccepted, Trimmed;
      seen := {};
      ghost var w: Props := [];
      for e := 0 to |entries|
        invariant w == WantedProps(env, entries, e) && DiffAccepted(Strip(snapshot), w)
        invariant Applying(pi, before, base, snapshot, w) && nextId >= old(nextId)
        invariant forall key :: key in seen <==> Has(w, key)
      {
        ghost var w0 := w;
        assert w0 + [] == w0;
        for k := 0 to |entries[e].properties|
          invariant w == w0 + EntryProps(env, entries[e], k) && DiffAccepted(Strip(snapshot), w)
          invariant Applying(pi, before, base, snapshot, w) && nextId >= old(nextId)
          invariant forall key :: key in seen <==> Has(w, key)
        {
          var p := Build(env, entries[e], entries[e].properties[k]);
          BuildTrimmed(env, entries[e], entries[e].properties[k]);
          seen := seen + {MatchKey(p)};
          ok := ApplyProperty(pi, byKey, p, before, base, snapshot, w);
          if !ok {
            BuiltIsWanted(env, entries, e, k, |entries|);
            return;
          }
          forall key ensures key in seen <==> Has(w + [p], key) { HasAppend(w, p, key); }
          assert w0 + EntryProps(env, entries[e], k + 1) == w + [p];
          w := w + [p];
        }
      }
      ok := true;
    }

    method DeleteExisting(pi: nat, id: nat, ghost rows: Rows, ghost ids: set<nat>)
      requires pi < |periods| && GoodIds(periods[pi].rows, nextId) && periods[pi].rows == Without(rows, ids)
      requires exists r :: r in periods[pi].rows && r.id == id
      modifies this`periods, this`counts
      ensures OnlyRowsOf(old(periods), pi) && GoodIds(periods[pi].rows, nextId)
      ensures periods[pi].rows == Without(rows, ids + {id})
      ensures |periods[pi].rows| == |old(periods[pi].rows)| - 1
      ensures counts == old(counts).(deleted := old(counts).deleted + 1)
    {
      ghost var r :| r in periods[pi].rows && r.id == id;
      WithoutOne(periods[pi].rows, r, nextId);
      WithoutGood(periods[pi].rows, {id}, nextId);
      WithoutTwice(rows, ids, id);
      DeleteProperty(pi, id);
    }

    method DeleteUnseen(pi: nat, byKey: map<string, Stored>, seen: set<string>,
                        ghost before: seq<Period>, ghost base: Counts, ghost snapshot: Rows, ghost w: Props)
      requires IsLookup(byKey, snapshot) && forall key :: key in seen <==> Has(w, key)
      requires Applying(pi, before, base, snapshot, w) && GoodIds(snapshot, nextId)
      modifies this`periods, this`counts
      ensures OnlyRowsOf(before, pi) && GoodIds(periods[pi].rows, nextId)
      ensures Strip(periods[pi].rows) == Synced(Strip(snapshot), w)
      ensures counts == Add(base, DiffCounts(Strip(snapshot), w))
    {
      hide MatchKey, Has, IsLookup, Dropped, Without, Created, UpdatedCount, Kept, DeletedCount;
      ghost var rows := periods[pi].rows;
      ghost var gone: set<string> := {};
      var todo := byKey.Keys;
      NothingDropped(byKey);
      WithoutNone(rows, {});
      while todo != {}
        invariant todo <= byKey.Keys && gone == byKey.Keys - todo - seen && OnlyRowsOf(before, pi)
        invariant periods[pi].rows == Without(rows, Dropped(byKey, gone)) && GoodIds(periods[pi].rows, nextId)
        invariant |periods[pi].rows| <= |rows|
        invariant counts == Add(base, Counts(0, 0, |Created(Strip(snapshot), w)|, UpdatedCount(Strip(snapshot), w),
                                             |rows| - |periods[pi].rows|))
        decreases todo
      {
        var key :| key in todo;
        if key !in seen {
          StillThere(snapshot, w, rows, nextId, byKey, gone, key);
          DropMore(byKey, gone, key);
          DeleteExisting(pi, byKey[key].id, rows, Dropped(byKey, gone));
          gone := gone + {key};
        }
        todo := todo - {key};
      }
      DroppedIsUnwanted(snapshot, w, byKey, gone);
      ProgressFinish(snapshot, w, rows, nextId);
      CountConserved(Strip(snapshot), w);
    }

    method DiffProperties(pi: nat, entries: seq<Entry>) returns (ok: bool)
      requires Valid() && pi < |periods|
      modifies this`periods, this`nextId, this`counts
      ensures ok <==> DiffAccepted(old(Strip(periods[pi].rows)), WantedProps(env, entries, |entries|))
      ensures ok ==> OnlyRowsOf(old(periods), pi) && GoodIds(periods[pi].rows, nextId) && nextId >= old(nextId)
      ensures ok ==>
        var stored, w := old(Strip(periods[pi].rows)), WantedProps(env, entries, |entries|);
        && Strip(periods[pi].rows) == Synced(stored, w)
        && counts == Add(old(counts), DiffCounts(stored, w))
    {
      hide MatchKey, WantedProps, DiffAccepted;
      var snapshot := periods[pi].rows;
      assert periods[pi] in periods;
      ProgressStart(snapshot, nextId);
      var byKey := BuildLookup(snapshot);
      var seen;
      ok, seen := ApplyEntries(pi, byKey, entries, periods, counts, snapshot);
      if ok { DeleteUnseen(pi, byKey, seen, old(periods), old(counts), snapshot, WantedProps(env, entries, |entries|)); }
    }

    /** The metadata first, then the properties. */
    method UpdatePeriodIfChanged(pi: nat, f: FilePeriod) returns (ok: bool)
      requires Valid() && pi < |periods| && env.parseDate(f.from) == Some(periods[pi].from)
      modifies this`periods, this`nextId, this`counts
      ensures ok <==>
        && PlanOne(env, f).Some?
        && var v, p := PlanOne(env, f).value, old(periods)[pi];
        && (p.meta == SettledMeta(v.meta) || Clear(ViewsOf(old(periods)), pi, SpanOf(v)))
        && DiffAccepted(Strip(p.rows), v.props)
      ensures ok ==>
        && Valid()
        && var v, p := PlanOne(env, f).value, old(periods)[pi];
        var after := PeriodView(p.from, SettledMeta(v.meta), Synced(Strip(p.rows), v.props));
        && ViewsOf(periods) == ViewsOf(old(periods))[pi := after]
        && counts == Add(old(counts), Add(Counts(0, if p.meta == SettledMeta(v.meta) then 0 else 1, 0, 0, 0),
                                          DiffCounts(Strip(p.rows), v.props)))
    {
      hide WantedProps, DiffAccepted, Clear, SettledMeta, Synced, DiffCounts, Strip;
      var to := ToDateOf(env, f.to);
      if to.None? { return false; }
      ok := UpdateMetaIfChanged(pi, Meta(to.value, f.hours, f.comment, f.requiredKeys));
      if ok {
        ghost var updated := periods;
        assert updated[pi].rows == old(periods)[pi].rows;
        StaysGood(old(periods), updated, pi, nextId);
        ok := DiffProperties(pi, f.entries);
        if ok { RowsReplaced(updated, periods, pi, old(nextId), nextId); }
      }
    }

    // ----- one new period

    /** The state while a new last period is filled with wanted properties w. */
    ghost predicate Filling(before: seq<Period>, base: Counts, from: Date, meta: Meta, w: Props)
      reads this
    {
      && |periods| == |before| + 1 && periods == before + [Period(from, meta, periods[|before|].rows)]
      && GoodIds(periods[|before|].rows, nextId) && Strip(periods[|before|].rows) == SettleAll(w)
      && counts == Add(base, Counts(1, 0, |w|, 0, 0))
    }

    method FillNext(p: Property, ghost before: seq<Period>, ghost base: Counts, ghost from: Date, ghost meta: Meta,
                    ghost w: Props)
      returns (ok: bool)
      requires Filling(before, base, from, meta, w) && Trimmed(p)
      modifies this`periods, this`nextId, this`counts
      ensures ok <==> CreateAccepted(p)
      ensures ok ==> Filling(before, base, from, meta, w + [p]) && nextId >= old(nextId)
    {
      hide MatchKey, TrimSpace;
      ghost var rows := periods[|periods| - 1].rows;
      ok := CreateProperty(|periods| - 1, p);
      Snoc(w, p);
      StripConcat(rows, [Stored(old(nextId), StoredAs(p))]);
    }

    method CreatePeriodWithProperties(f: FilePeriod) returns (ok: bool)
      requires Valid() && present
      modifies this`periods, this`nextId, this`counts
      ensures ok <==>
        && PlanOne(env, f).Some? && f.hours > 0.0
        && Clear(ViewsOf(old(periods)), -1, SpanOf(PlanOne(env, f).value)) && AllCreatable(PlanOne(env, f).value.props)
      ensures ok ==>
        && Valid()
        && var v := PlanOne(env, f).value;
        && ViewsOf(periods) == ViewsOf(old(periods)) + [SettleView(v)]
        && counts == Add(old(counts), Counts(1, 0, |v.props|, 0, 0))
    {
      hide MatchKey, Clear, SettledMeta, ViewsOf, WantedProps, AllCreatable, Filling, SettleView;
      var from, to := env.parseDate(f.from), ToDateOf(env, f.to);
      if from.None? || to.None? || f.hours <= 0.0 { return false; }
      var meta := Meta(to.value, f.hours, f.comment, f.requiredKeys);
      ok := CreatePeriod(from.value, meta);
      if !ok { return; }
      FillingAtFirst(old(periods), old(counts), from.value, SettledMeta(meta));
      ok := FillEntries(f.entries, old(periods), old(counts), from.value, SettledMeta(meta));
      if ok {
        FilledView(old(periods), old(nextId), old(counts), from.value, meta, WantedProps(env, f.entries, |f.entries|));
      }
    }

    lemma FillingAtFirst(before: seq<Period>, base: Counts, from: Date, meta: Meta)
      requires periods == before + [Period(from, meta, [])]
      requires counts == base.(periodsCreated := base.periodsCreated + 1)
      ensures Filling(before, base, from, meta, [])
    {
    }

    method FillEntries(entries: seq<Entry>, ghost before: seq<Period>, ghost base: Counts, ghost from: Date,
                       ghost meta: Meta)
      returns (ok: bool)
      requires Filling(before, base, from, meta, [])
      modifies this`periods, this`nextId, this`counts
      ensures ok <==> AllCreatable(WantedProps(env, entries, |entries|))
      ensures ok ==> Filling(before, base, from, meta, WantedProps(env, entries, |entries|)) && nextId >= old(nextId)
    {
      hide MatchKey, Build, Filling, CreateAccepted, Trimmed;
      ghost var w: Props := [];
      for e := 0 to |entries|
        invariant w == WantedProps(env, entries, e) && AllCreatable(w)
        invariant Filling(before, base, from, meta, w) && nextId >= old(nextId)
      {
        ghost var w0 := w;
        assert w0 + [] == w0;
        for k := 0 to |entries[e].properties|
          invariant w == w0 + EntryProps(env, entries[e], k) && AllCreatable(w)
          invariant Filling(before, base, from, meta, w) && nextId >= old(nextId)
        {
          var p := Build(env, entries[e], entries[e].properties[k]);
          BuildTrimmed(env, entries[e], entries[e].properties[k]);
          ok := FillNext(p, before, base, from, meta, w);
          if !ok {
            BuiltIsWanted(env, entries, e, k, |entries|);
            return;
          }
          assert w0 + EntryProps(env, entries[e], k + 1) == w + [p];
          w := w + [p];
        }
      }
      ok := true;
    }

    lemma FilledView(before: seq<Period>, next: nat, base: Counts, from: Date, meta: Meta, w: Props)
      requires Filling(before, base, from, SettledMeta(meta), w) && AllGood(before, next) && next <= nextId && present
      ensures Valid() && ViewsOf(periods) == ViewsOf(before) + [SettleView(PeriodView(from, meta, w))]
      ensures counts == Add(base, Counts(1, 0, |w|, 0, 0))
    {
      hide MatchKey, SettledMeta, SettleAll, Strip;
      var p := periods[|before|];
      assert periods == before + [p] && ViewOf(p) == SettleView(PeriodView(from, meta, w));
      GrownGood(before, p, next, nextId);
    }

    // ----- whole files

    static method BuildFromLookup(snapshot: seq<Period>) returns (byFrom: map<Date, nat>)
      ensures forall from :: from in byFrom <==> HasFrom(ViewsOf(snapshot), from)
      ensures forall from :: from in byFrom ==> byFrom[from] == FromIndex(ViewsOf(snapshot), from, |snapshot|)
    {
      ghost var views := ViewsOf(snapshot);
      assert forall i :: 0 <= i < |views| ==> views[i].from == snapshot[i].from;
      hide ViewsOf, ViewOf;
      byFrom := map[];
      for i := 0 to |snapshot|
        invariant forall from :: from in byFrom <==> FromIndex(views, from, i) >= 0
        invariant forall from :: from in byFrom ==> byFrom[from] == FromIndex(views, from, i)
      {
        byFrom := byFrom[snapshot[i].from := i];
      }
    }

    /** The periods hold what importing plan over the snapshot leaves, with matching counters. */
    ghost predicate Holds(snapshot: Views, base: Counts, plan: Views)
      reads this
    {
      && Valid() && present
      && Imported(snapshot, plan) == Some(ViewsOf(periods))
      && counts == Add(base, ImportCounts(snapshot, plan))
    }

    lemma HoldsAtFirst()
      requires Valid() && present
      ensures Holds(ViewsOf(periods), counts, [])
    {
    }

    /** One file period: a new one is created, a known one is updated. */
    method ApplyPeriodOf(f: FilePeriod, from: Date, byFrom: map<Date, nat>,
                         ghost snapshot: Views, ghost base: Counts, ghost plan: Views)
      returns (ok: bool)
      requires env.parseDate(f.from) == Some(from)
      requires forall d :: d in byFrom <==> HasFrom(snapshot, d)
      requires forall d :: d in byFrom ==> byFrom[d] == FromIndex(snapshot, d, |snapshot|)
      requires Holds(snapshot, base, plan) && !HasFrom(plan, from)
      modifies this`periods, this`nextId, this`counts
      ensures ok <==> PlanOne(env, f).Some? && Imported(snapshot, plan + [PlanOne(env, f).value]).Some?
      ensures ok ==> Holds(snapshot, base, plan + [PlanOne(env, f).value])
    {
      hide MatchKey, WantedProps, Synced, DiffCounts, DiffAccepted, Clear, SettledMeta, SettleAll, ViewsOf, Imported,
           ImportCounts;
      ghost var before := ViewsOf(periods);
      if PlanOne(env, f).Some? { ImportedSnoc(snapshot, plan, PlanOne(env, f).value); }
      if from !in byFrom {
        if PlanOne(env, f).Some? { NewPeriod(snapshot, before, PlanOne(env, f).value); }
        ok := CreatePeriodWithProperties(f);
      } else {
        ghost var pi := byFrom[from];
        Untouched(snapshot, plan, pi);
        ViewAt(periods, pi);
        if PlanOne(env, f).Some? { KnownPeriod(snapshot, before, PlanOne(env, f).value, pi); }
        ok := UpdatePeriodIfChanged(byFrom[from], f);
      }
    }

    method IncrementalImport(file: File) returns (ok: bool)
      requires Valid() && present && DistinctDates(env, file)
      modifies this`periods, this`nextId, this`counts
      ensures ok <==> ImportedFile(env, ViewsOf(old(periods)), file).Some?
      ensures ok ==> Holds(ViewsOf(old(periods)), old(counts), Plan(env, file).value)
    {
      hide MatchKey, WantedProps, Holds, Plan, PlanOne, Imported;
      ghost var snapshot, base := ViewsOf(periods), counts;
      var byFrom := BuildFromLookup(periods);
      HoldsAtFirst();
      assert file[..0] == [] && Plan(env, []) == Some([]) by { EmptyPlan(env); }
      for k := 0 to |file|
        invariant Plan(env, file[..k]).Some?
        invariant Holds(snapshot, base, Plan(env, file[..k]).value)
      {
        ghost var plan := Plan(env, file[..k]).value;
        PlanSnoc(env, file, k);
        var from := env.parseDate(file[k].from);
        if from.None? {
          NoStart(env, file[k]);
          FailureStays(env, snapshot, file, k + 1);
          return false;
        }
        PlanFroms(env, file, k);
        ok := ApplyPeriodOf(file[k], from.value, byFrom, snapshot, base, plan);
        if !ok {
          FailureStays(env, snapshot, file, k + 1);
          return;
        }
      }
      assert file[..|file|] == file;
      HoldsMeans(snapshot, base, Plan(env, file).value);
      ok := true;
    }

    lemma HoldsMeans(snapshot: Views, base: Counts, plan: Views)
      requires Holds(snapshot, base, plan)
      ensures Valid() && present && Imported(snapshot, plan) == Some(ViewsOf(periods))
      ensures counts == Add(base, ImportCounts(snapshot, plan))
    {
    }

    method CreateNext(f: FilePeriod, ghost base: Counts, ghost plan: Views) returns (ok: bool)
      requires Holds([], base, plan)
      modifies this`periods, this`nextId, this`counts
      ensures ok <==> PlanOne(env, f).Some? && Imported([], plan + [PlanOne(env, f).value]).Some?
      ensures ok ==> Holds([], base, plan + [PlanOne(env, f).value])
    {
      hide MatchKey, Holds, PlanOne, Imported, ImportCounts, SettleView, Clear, AllCreatable, ViewsOf, PeriodCounts,
           ApplyPeriod, Valid;
      HoldsMeans([], base, plan);
      ghost var before := ViewsOf(periods);
      ok := CreatePeriodWithProperties(f);
      if PlanOne(env, f).Some? {
        ghost var v := PlanOne(env, f).value;
        ImportedSnoc([], plan, v);
        NewPeriod([], before, v);
        PlannedHours(env, f);
        if ok { HoldsFrom([], base, plan + [v]); }
      }
    }

    lemma HoldsFrom(snapshot: Views, base: Counts, plan: Views)
      requires Valid() && present && Imported(snapshot, plan) == Some(ViewsOf(periods))
      requires counts == Add(base, ImportCounts(snapshot, plan))
      ensures Holds(snapshot, base, plan)
    {
    }

    /** The first import of a funding creates every period of the file. */
    method FreshImport(file: File) returns (ok: bool)
      requires Valid() && !present
      modifies this
      ensures ok <==> ImportedFile(env, [], file).Some?
      ensures ok ==> Holds([], old(counts), Plan(env, file).value)
    {
      hide MatchKey, WantedProps, Holds, Plan, PlanOne, Imported, SettleView;
      present := true;
      ghost var base := counts;
      assert ViewsOf([]) == [];
      HoldsAtFirst();
      assert file[..0] == [] && Plan(env, []) == Some([]) by { EmptyPlan(env); }
      for k := 0 to |file|
        invariant Plan(env, file[..k]).Some?
        invariant Holds([], base, Plan(env, file[..k]).value)
      {
        ghost var plan := Plan(env, file[..k]).value;
        PlanSnoc(env, file, k);
        ok := CreateNext(file[k], base, plan);
        if !ok {
          FailureStays(env, [], file, k + 1);
          return;
        }
      }
      assert file[..|file|] == file;
      HoldsMeans([], base, Plan(env, file).value);
      ok := true;
    }

    /** The transaction: a known funding is updated, an unknown one created, and an error leaves nothing behind. */
    method ImportFile(file: File) returns (ok: bool)
      requires Valid() && (present ==> DistinctDates(env, file))
      modifies this
      ensures Valid() && (ok <==> ImportedFile(env, ViewsOf(old(periods)), file).Some?)
      ensures ViewsOf(periods) == AfterFile(env, ViewsOf(old(periods)), file)
      ensures present == (old(present) || ok)
      ensures !ok ==> periods == old(periods)
      ensures ok ==> counts == ImportCounts(ViewsOf(old(periods)), Plan(env, file).value)
      ensures ok && !old(present) ==>
        |periods| == |file| && forall i :: 0 <= i < |file| ==> Matches(env, ViewsOf(periods)[i], file[i])
      ensures ok && WellKept(ViewsOf(old(periods))) && ProperFile(env, file) ==>
        WellKept(ViewsOf(periods)) && forall i :: 0 <= i < |file| ==> Recorded(env, ViewsOf(periods), file[i])
    {
      hide Imported, ImportCounts, Plan, Holds, DistinctDates, WellKept, ProperFile, Recorded, Matches;
      ghost var snapshot := ViewsOf(periods);
      var savedPresent, savedPeriods, savedNext := present, periods, nextId;
      counts := ZERO;
      if present {
        ok := IncrementalImport(file);
      } else {
        assert snapshot == [];
        ok := FreshImport(file);
      }
      if ok {
        HoldsMeans(snapshot, ZERO, Plan(env, file).value);
        if !savedPresent { FreshMatches(env, file); }
        if WellKept(snapshot) && ProperFile(env, file) { IncrementalMatches(env, snapshot, file); }
      } else {
        present, periods, nextId := savedPresent, savedPeriods, savedNext;
      }
    }
  }

  // ----- steps of the methods above, on values

  lemma EmptyPlan(env: Env)
    ensures Plan(env, []) == Some([])
  {
  }

  lemma NoStart(env: Env, f: FilePeriod)
    requires env.parseDate(f.from).None?
    ensures PlanOne(env, f).None?
  {
  }

  lemma StaysGood(before: seq<Period>, after: seq<Period>, pi: nat, next: nat)
    requires AllGood(before, next) && pi < |before| == |after| && after == before[pi := after[pi]]
    requires after[pi].rows == before[pi].rows
    ensures AllGood(after, next)
  {
    forall p | p in after ensures GoodIds(p.rows, next) {
      var i :| 0 <= i < |after| && after[i] == p;
      assert before[i] in before;
    }
  }

  lemma RowsReplaced(before: seq<Period>, after: seq<Period>, pi: nat, next: nat, next': nat)
    requires AllGood(before, next) && next <= next' && pi < |before| == |after| && after == before[pi := after[pi]]
    requires GoodIds(after[pi].rows, next')
    ensures AllGood(after, next')
  {
    forall p | p in after ensures GoodIds(p.rows, next') {
      var i :| 0 <= i < |after| && after[i] == p;
      assert before[i] in before;
    }
  }

  lemma GrownGood(before: seq<Period>, p: Period, next: nat, next': nat)
    requires AllGood(before, next) && next <= next' && GoodIds(p.rows, next')
    ensures AllGood(before + [p], next')
  {
    forall q | q in before + [p] ensures GoodIds(q.rows, next') {
      assert q in before || q == p;
    }
  }

  lemma ViewAt(periods: seq<Period>, pi: nat)
    requires pi < |periods|
    ensures ViewsOf(periods)[pi] == PeriodView(periods[pi].from, periods[pi].meta, Strip(periods[pi].rows))
  {
  }

  /** A period that is not stored is created. */
  lemma NewPeriod(snapshot: Views, current: Views, v: PeriodView)
    requires |snapshot| <= |current| && !HasFrom(snapshot, v.from)
    ensures ApplyPeriod(snapshot, current, v) ==
              if v.meta.hours > 0.0 && Clear(current, -1, SpanOf(v)) && AllCreatable(v.props)
              then Some(current + [SettleView(v)]) else None
    ensures PeriodCounts(snapshot, v) == Counts(1, 0, |v.props|, 0, 0)
  {
    hide MatchKey, Clear, DiffAccepted, AllCreatable, SettledMeta, SettleAll, Synced, Created, UpdatedCount,
         DeletedCount;
    FreshAcceptedIff(v.props);
    FreshBuildsWanted(v.props);
  }

  /** A stored period that no earlier file period named is updated where it stands. */
  lemma KnownPeriod(snapshot: Views, current: Views, v: PeriodView, pi: nat)
    requires |snapshot| <= |current| && FromIndex(snapshot, v.from, |snapshot|) == pi && current[pi] == snapshot[pi]
    ensures var p := current[pi];
            && ApplyPeriod(snapshot, current, v) ==
                 (if (p.meta == SettledMeta(v.meta) || Clear(current, pi, SpanOf(v))) && DiffAccepted(p.props, v.props)
                  then Some(current[pi := PeriodView(p.from, SettledMeta(v.meta), Synced(p.props, v.props))]) else None)
            && PeriodCounts(snapshot, v) ==
                 Add(Counts(0, if p.meta == SettledMeta(v.meta) then 0 else 1, 0, 0, 0), DiffCounts(p.props, v.props))
  {
    hide MatchKey, Clear, DiffAccepted, SettledMeta, Synced, Created, UpdatedCount, DeletedCount;
  }
}
