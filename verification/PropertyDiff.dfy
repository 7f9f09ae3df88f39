/** The keyed diff of one period: create what is missing, patch what differs, delete what is not wanted. */
module PropertyDiff {
  // Stored and wanted properties are lists, in store and file order. Wanted content is compared as the importer
  // builds it; what the service stores is its settled form.

  import opened FundingService
  import opened Numbers
  import opened PropertyKey
  import opened Text

  type Props = seq<Property>

  // ----- what the diff leaves behind

  /** i is the last position below n with the given composite key, or -1. */
  ghost predicate IsLast(props: Props, key: string, n: nat, i: int)
    requires n <= |props|
  {
    && -1 <= i < n
    && (i >= 0 ==> MatchKey(props[i]) == key)
    && forall j :: i < j < n ==> MatchKey(props[j]) != key
  }

  function LastScan(props: Props, key: string, n: nat): (i: int)
    requires n <= |props|
    ensures -1 <= i < n
  {
    if n == 0 then -1
    else if MatchKey(props[n - 1]) == key then n - 1
    else LastScan(props, key, n - 1)
  }

  lemma {:induction false} ScanFindsLast(props: Props, key: string, n: nat)
    requires n <= |props|
    ensures IsLast(props, key, n, LastScan(props, key, n))
  {
    hide MatchKey;
    if n > 0 { ScanFindsLast(props, key, n - 1); }
  }

  function LastBelow(props: Props, key: string, n: nat): (i: int)
    requires n <= |props|
    ensures -1 <= i < n && IsLast(props, key, n, i)
  {
    hide MatchKey;
    ScanFindsLast(props, key, n);
    LastScan(props, key, n)
  }

  /** The lookup table keeps the last property with a key. */
  function LastIndex(props: Props, key: string): int
  {
    LastBelow(props, key, |props|)
  }

  predicate Has(props: Props, key: string)
  {
    LastIndex(props, key) >= 0
  }

  /** The lookup table finds position i. */
  predicate Winner(props: Props, i: nat)
    requires i < |props|
  {
    LastIndex(props, MatchKey(props[i])) == i
  }

  /** p after the wanted properties with its key were applied; each is compared with p as it was loaded. */
  function Patch(p: Property, wanted: Props): Property
  {
    if wanted == [] then p
    else
      var w := wanted[|wanted| - 1];
      if MatchKey(w) == MatchKey(p) && w.content != p.content then p.(content := Settled(w.content))
      else Patch(p, wanted[..|wanted| - 1])
  }

  /** What is left of stored position i. */
  function Outcome(stored: Props, i: nat, wanted: Props): Props
    requires i < |stored|
  {
    if !Winner(stored, i) then [stored[i]]
    else if Has(wanted, MatchKey(stored[i])) then [Patch(stored[i], wanted)]
    else []
  }

  function Kept(stored: Props, n: nat, wanted: Props): Props
    requires n <= |stored|
  {
    if n == 0 then [] else Kept(stored, n - 1, wanted) + Outcome(stored, n - 1, wanted)
  }

  function Created(stored: Props, wanted: Props): Props
  {
    if wanted == [] then []
    else
      var n := |wanted| - 1;
      Created(stored, wanted[..n]) + if Has(stored, MatchKey(wanted[n])) then [] else [Settle(wanted[n])]
  }

  function Synced(stored: Props, wanted: Props): Props
  {
    Kept(stored, |stored|, wanted) + Created(stored, wanted)
  }

  // ----- what the diff reports

  /** Wanted properties that were found with different content. */
  function UpdatedCount(stored: Props, wanted: Props): nat
  {
    if wanted == [] then 0
    else
      var n := |wanted| - 1;
      var i := LastIndex(stored, MatchKey(wanted[n]));
      UpdatedCount(stored, wanted[..n]) + if i >= 0 && stored[i].content != wanted[n].content then 1 else 0
  }

  /** Stored properties the lookup table finds but the file does not name. */
  function DeletedCount(stored: Props, n: nat, wanted: Props): nat
    requires n <= |stored|
  {
    if n == 0 then 0
    else
      var p := stored[n - 1];
      DeletedCount(stored, n - 1, wanted) + if Winner(stored, n - 1) && !Has(wanted, MatchKey(p)) then 1 else 0
  }

  lemma {:induction false} KeptCount(stored: Props, n: nat, wanted: Props)
    requires n <= |stored|
    ensures |Kept(stored, n, wanted)| + DeletedCount(stored, n, wanted) == n
  {
    hide MatchKey;
    if n > 0 { KeptCount(stored, n - 1, wanted); }
  }

  /** The number of stored properties changes by exactly created minus deleted. */
  lemma CountConserved(stored: Props, wanted: Props)
    ensures |Synced(stored, wanted)| + DeletedCount(stored, |stored|, wanted) == |stored| + |Created(stored, wanted)|
  {
    hide MatchKey;
    KeptCount(stored, |stored|, wanted);
  }

  // ----- when the result is what a fresh import builds

  ghost predicate DistinctKeys(props: Props)
  {
    forall i, j :: 0 <= i < j < |props| ==> MatchKey(props[i]) != MatchKey(props[j])
  }

  predicate AllClean(props: Props)
  {
    forall p :: p in props ==> Clean(p)
  }

  predicate AllSettled(props: Props)
  {
    forall p :: p in props ==> Settled(p.content) == p.content
  }

  /** What the store holds: distinct clean keys, settled content. */
  ghost predicate Healthy(props: Props)
  {
    DistinctKeys(props) && AllClean(props) && AllSettled(props)
  }

  /** The wanted properties as the service stores them. */
  function SettleAll(props: Props): (r: Props)
    ensures |r| == |props| && forall i :: 0 <= i < |props| ==> r[i] == Settle(props[i])
  {
    if props == [] then [] else SettleAll(props[..|props| - 1]) + [Settle(props[|props| - 1])]
  }

  /** The wanted properties with the given key, as the service stores them. */
  function WithKey(wanted: Props, key: string): Props
  {
    if wanted == [] then []
    else
      var n := |wanted| - 1;
      WithKey(wanted[..n], key) + if MatchKey(wanted[n]) == key then [Settle(wanted[n])] else []
  }

  /** The file names no stored property more than once. */
  predicate NoStoredKeyRepeated(stored: Props, wanted: Props)
  {
    forall i :: 0 <= i < |stored| ==> |WithKey(wanted, MatchKey(stored[i]))| <= 1
  }

  lemma {:induction false} WithKeyNonempty(wanted: Props, key: string)
    ensures WithKey(wanted, key) != [] <==> Has(wanted, key)
  {
    hide MatchKey;
    if wanted != [] {
      WithKeyNonempty(wanted[..|wanted| - 1], key);
    }
  }

  /** A property named once becomes what the file says. */
  lemma {:induction false} PatchSingle(p: Property, wanted: Props)
    requires Clean(p) && Settled(p.content) == p.content && AllClean(wanted)
    ensures |WithKey(wanted, MatchKey(p))| == 0 ==> Patch(p, wanted) == p
    ensures |WithKey(wanted, MatchKey(p))| == 1 ==> Patch(p, wanted) == WithKey(wanted, MatchKey(p))[0]
  {
    hide MatchKey;
    if wanted != [] {
      var n := |wanted| - 1;
      PatchSingle(p, wanted[..n]);
      MatchKeyInjective(p, wanted[n]);
    }
  }

  lemma LastIndexPrefix(stored: Props, n: nat, i: nat)
    requires DistinctKeys(stored) && i < n <= |stored|
    ensures Winner(stored, i) && Winner(stored[..n], i)
  {
    hide MatchKey;
    var a, b := LastIndex(stored, MatchKey(stored[i])), LastIndex(stored[..n], MatchKey(stored[i]));
    assert i <= a && stored[..n][i] == stored[i];
    assert i <= b;
    assert b < n && MatchKey(stored[b]) == MatchKey(stored[i]);
  }

  /** With distinct keys every stored property is found, so the diff works through them one by one. */
  lemma {:induction false} KeptPrefix(stored: Props, n: nat, wanted: Props)
    requires DistinctKeys(stored) && n < |stored|
    ensures Kept(stored[..|stored| - 1], n, wanted) == Kept(stored, n, wanted)
  {
    hide MatchKey;
    if n > 0 {
      KeptPrefix(stored, n - 1, wanted);
      LastIndexPrefix(stored, |stored| - 1, n - 1);
    }
  }

  lemma HasSnoc(stored: Props, key: string)
    requires DistinctKeys(stored) && stored != []
    ensures var n := |stored| - 1;
            && (Has(stored, key) <==> Has(stored[..n], key) || key == MatchKey(stored[n]))
            && !(Has(stored[..n], key) && key == MatchKey(stored[n]))
  {
    hide MatchKey;
    var n := |stored| - 1;
    assert forall i :: 0 <= i < n ==> stored[..n][i] == stored[i];
    if Has(stored[..n], key) {
      assert MatchKey(stored[LastIndex(stored[..n], key)]) == key;
    }
  }

  /** Storing one more property turns the wanted ones with its key from created into patched. */
  lemma {:induction false} CreatedSplit(stored: Props, wanted: Props)
    requires DistinctKeys(stored) && stored != []
    ensures var n := |stored| - 1;
            multiset(Created(stored[..n], wanted))
            == multiset(Created(stored, wanted)) + multiset(WithKey(wanted, MatchKey(stored[n])))
  {
    hide MatchKey, Has;
    if wanted != [] {
      var k := |wanted| - 1;
      CreatedSplit(stored, wanted[..k]);
      HasSnoc(stored, MatchKey(wanted[k]));
    }
  }

  lemma OutcomeVersusNamed(stored: Props, n: nat, wanted: Props)
    requires Healthy(stored) && AllClean(wanted) && n < |stored|
    ensures var named, out := WithKey(wanted, MatchKey(stored[n])), Outcome(stored, n, wanted);
            && (|named| <= 1 ==> out == named)
            && |out| == if named == [] then 0 else 1
  {
    hide MatchKey;
    var p := stored[n];
    LastIndexPrefix(stored, |stored|, n);
    WithKeyNonempty(wanted, MatchKey(p));
    assert p in stored;
    PatchSingle(p, wanted);
  }

  lemma SyncedSplit(stored: Props, wanted: Props)
    requires DistinctKeys(stored) && stored != []
    ensures var n := |stored| - 1;
            multiset(Synced(stored, wanted)) + multiset(WithKey(wanted, MatchKey(stored[n])))
            == multiset(Synced(stored[..n], wanted)) + multiset(Outcome(stored, n, wanted))
  {
    hide MatchKey, Outcome, Created, WithKey;
    KeptPrefix(stored, |stored| - 1, wanted);
    CreatedSplit(stored, wanted);
  }

  lemma CancelRight(a: multiset<Property>, b: multiset<Property>, m: multiset<Property>)
    requires a + m == b + m
    ensures a == b
  {
    assert a == (a + m) - m && b == (b + m) - m;
  }

  lemma HealthyPrefix(stored: Props, n: nat)
    requires Healthy(stored) && n <= |stored|
    ensures DistinctKeys(stored) && Healthy(stored[..n])
  {
    hide MatchKey, Clean, Settled;
    assert forall p :: p in stored[..n] ==> p in stored;
  }

  lemma {:induction false} SyncedVersusWanted(stored: Props, wanted: Props)
    requires Healthy(stored) && AllClean(wanted)
    ensures NoStoredKeyRepeated(stored, wanted) ==> multiset(Synced(stored, wanted)) == multiset(SettleAll(wanted))
    ensures |Synced(stored, wanted)| <= |wanted|
    ensures |Synced(stored, wanted)| == |wanted| ==> NoStoredKeyRepeated(stored, wanted)
  {
    hide MatchKey, Outcome, Synced, WithKey, SettleAll, Healthy;
    if stored == [] {
      FreshBuildsWanted(wanted);
    } else {
      var n := |stored| - 1;
      var rest := stored[..n];
      HealthyPrefix(stored, n);
      var named, out := WithKey(wanted, MatchKey(stored[n])), Outcome(stored, n, wanted);
      assert forall i :: 0 <= i < n ==> rest[i] == stored[i];
      SyncedVersusWanted(rest, wanted);
      SyncedSplit(stored, wanted);
      OutcomeVersusNamed(stored, n, wanted);
      if out == named { CancelRight(multiset(Synced(stored, wanted)), multiset(Synced(rest, wanted)), multiset(named)); }
      assert |multiset(Synced(stored, wanted)) + multiset(named)| == |Synced(stored, wanted)| + |named|;
      assert |multiset(Synced(rest, wanted)) + multiset(out)| == |Synced(rest, wanted)| + |out|;
    }
  }

  lemma {:induction false} CreatedFromNothing(wanted: Props)
    ensures Created([], wanted) == SettleAll(wanted)
  {
    hide MatchKey;
    if wanted != [] { CreatedFromNothing(wanted[..|wanted| - 1]); }
  }

  /** Syncing an empty period creates the wanted properties, in file order. */
  lemma FreshBuildsWanted(wanted: Props)
    ensures Synced([], wanted) == SettleAll(wanted)
    ensures Created([], wanted) == SettleAll(wanted) && UpdatedCount([], wanted) == 0 && DeletedCount([], 0, wanted) == 0
  {
    hide MatchKey;
    CreatedFromNothing(wanted);
    NothingUpdated(wanted);
  }

  lemma NothingUpdated(wanted: Props)
    ensures UpdatedCount([], wanted) == 0
  {
    hide MatchKey;
  }

  /**
   The diff leaves exactly the properties a fresh import would build if and only if the file repeats no key
   that is already stored.
   */
  lemma ConvergesIff(stored: Props, wanted: Props)
    requires Healthy(stored) && AllClean(wanted)
    ensures multiset(Synced(stored, wanted)) == multiset(Synced([], wanted)) <==> NoStoredKeyRepeated(stored, wanted)
  {
    hide MatchKey;
    FreshBuildsWanted(wanted);
    SyncedVersusWanted(stored, wanted);
    if multiset(Synced(stored, wanted)) == multiset(SettleAll(wanted)) {
      assert |multiset(Synced(stored, wanted))| == |multiset(SettleAll(wanted))|;
    }
  }

  /** A file that names a stored property twice: the row stays alone, where a fresh import stores it twice. */
  lemma RepeatDoesNotConverge(p: Property)
    requires Settled(p.content) == p.content
    ensures Synced([p], [p, p]) == [p] && Synced([], [p, p]) == [p, p] && !NoStoredKeyRepeated([p], [p, p])
  {
    hide MatchKey, Settled;
    var twice := [p, p];
    assert twice[..1] == [p] && [p][..0] == [];
    HasMember(twice, p);
    OutcomeUnchanged(p);
    assert Kept([p], 0, twice) == [];
    assert Kept([p], 1, twice) == [p];
    assert p in [p];
    HasMember([p], p);
    NothingCreated([p], twice);
    FreshBuildsWanted(twice);
    assert SettleAll(twice) == twice;
    hide SettleAll, Has, Outcome;
    assert WithKey([], MatchKey(p)) == [];
    assert WithKey([p], MatchKey(p)) == [Settle(p)];
    assert |WithKey(twice, MatchKey([p][0]))| == 2;
  }

  lemma OutcomeUnchanged(p: Property)
    ensures Outcome([p], 0, [p, p]) == [p]
  {
    hide MatchKey;
    var twice := [p, p];
    assert twice[..1] == [p] && [p][..0] == [];
    assert p in twice;
    HasMember(twice, p);
    assert Winner([p], 0);
    assert Patch(p, []) == p;
    assert Patch(p, [p]) == p;
    assert Patch(p, twice) == p;
  }

  lemma {:induction false} DistinctNamedOnce(wanted: Props, key: string)
    requires DistinctKeys(wanted)
    ensures |WithKey(wanted, key)| <= 1
  {
    hide MatchKey;
    if wanted != [] {
      var n := |wanted| - 1;
      DistinctNamedOnce(wanted[..n], key);
      WithKeyNonempty(wanted[..n], key);
      if Has(wanted[..n], key) {
        var i := LastIndex(wanted[..n], key);
        assert wanted[..n][i] == wanted[i];
      }
    }
  }

  /** For a file with distinct keys the diff always converges to what a fresh import builds. */
  lemma Converges(stored: Props, wanted: Props)
    requires Healthy(stored) && AllClean(wanted) && DistinctKeys(wanted)
    ensures multiset(Synced(stored, wanted)) == multiset(SettleAll(wanted))
  {
    hide MatchKey;
    forall i | 0 <= i < |stored| ensures |WithKey(wanted, MatchKey(stored[i]))| <= 1 {
      DistinctNamedOnce(wanted, MatchKey(stored[i]));
    }
    SyncedVersusWanted(stored, wanted);
  }

  /** If a stored key is duplicated, the copies the lookup table misses are never updated or deleted. */
  lemma {:induction false} StaleCopySurvives(stored: Props, i: nat, n: nat, wanted: Props)
    requires i < n <= |stored| && !Winner(stored, i)
    ensures stored[i] in Kept(stored, n, wanted)
  {
    hide MatchKey, Winner, Patch, Has;
    if i < n - 1 { StaleCopySurvives(stored, i, n - 1, wanted); }
  }

  // ----- importing twice

  lemma SharedKeyOne(props: Props, p: Property, q: Property)
    requires DistinctKeys(props) && p in props && q in props && MatchKey(p) == MatchKey(q)
    ensures p == q
  {
    hide MatchKey;
  }

  lemma {:induction false} NothingCreated(stored: Props, wanted: Props)
    requires forall w :: w in wanted ==> Has(stored, MatchKey(w))
    ensures Created(stored, wanted) == []
  {
    hide MatchKey;
    if wanted != [] { NothingCreated(stored, wanted[..|wanted| - 1]); }
  }

  lemma {:induction false} NothingChanged(stored: Props, wanted: Props)
    requires forall w :: w in wanted ==>
               var i := LastIndex(stored, MatchKey(w)); i >= 0 ==> stored[i].content == w.content
    ensures UpdatedCount(stored, wanted) == 0
  {
    hide MatchKey;
    if wanted != [] { NothingChanged(stored, wanted[..|wanted| - 1]); }
  }

  lemma {:induction false} NothingDeleted(stored: Props, n: nat, wanted: Props)
    requires n <= |stored| && forall p :: p in stored ==> Has(wanted, MatchKey(p))
    ensures DeletedCount(stored, n, wanted) == 0
  {
    hide MatchKey;
    if n > 0 { NothingDeleted(stored, n - 1, wanted); }
  }

  lemma HasMember(props: Props, p: Property)
    requires p in props
    ensures Has(props, MatchKey(p))
  {
    hide MatchKey;
  }

  /** Wanted properties whose content the service stores in another form. */
  function PaddedCount(wanted: Props): nat
  {
    if wanted == [] then 0
    else
      var n := |wanted| - 1;
      PaddedCount(wanted[..n]) + if Settled(wanted[n].content) != wanted[n].content then 1 else 0
  }

  lemma {:induction false} PaddedNone(wanted: Props)
    ensures PaddedCount(wanted) == 0 <==> AllSettled(wanted)
  {
    hide MatchKey, Settled;
    if wanted != [] {
      var n := |wanted| - 1;
      PaddedNone(wanted[..n]);
      assert wanted == wanted[..n] + [wanted[n]];
      assert wanted[n] in wanted;
    }
  }

  /** Where the store holds every wanted property in its settled form, exactly the padded ones are reported. */
  lemma {:induction false} PaddedReported(stored: Props, wanted: Props)
    requires forall w :: w in wanted ==>
               var i := LastIndex(stored, MatchKey(w)); i >= 0 && stored[i].content == Settled(w.content)
    ensures UpdatedCount(stored, wanted) == PaddedCount(wanted)
  {
    hide MatchKey, Settled;
    if wanted != [] {
      var n := |wanted| - 1;
      assert wanted[n] in wanted;
      assert forall w :: w in wanted[..n] ==> w in wanted;
      PaddedReported(stored, wanted[..n]);
    }
  }

  lemma SettleAllMembers(wanted: Props, p: Property)
    ensures p in SettleAll(wanted) <==> exists w :: w in wanted && Settle(w) == p
  {
    hide MatchKey, Settle;
    if p in SettleAll(wanted) {
      var i :| 0 <= i < |wanted| && SettleAll(wanted)[i] == p;
      assert wanted[i] in wanted && Settle(wanted[i]) == p;
    }
    if exists w :: w in wanted && Settle(w) == p {
      var w :| w in wanted && Settle(w) == p;
      var i :| 0 <= i < |wanted| && wanted[i] == w;
      assert SettleAll(wanted)[i] == p;
    }
  }

  /** A store that holds exactly the settled wanted properties finds each of them. */
  lemma WantedFound(stored: Props, wanted: Props, w: Property)
    requires DistinctKeys(wanted) && multiset(stored) == multiset(SettleAll(wanted)) && w in wanted
    ensures var i := LastIndex(stored, MatchKey(w)); i >= 0 && stored[i] == Settle(w)
  {
    hide MatchKey, Settle;
    SameMembers(stored, SettleAll(wanted));
    SettleAllMembers(wanted, Settle(w));
    HasMember(stored, Settle(w));
    var p := stored[LastIndex(stored, MatchKey(w))];
    SettleAllMembers(wanted, p);
    var v :| v in wanted && Settle(v) == p;
    SharedKeyOne(wanted, v, w);
  }

  /**
   Importing a file with distinct keys over its own result creates and deletes nothing, and reports as updated
   exactly the properties whose label or comment the service stores trimmed.
   */
  lemma ReimportSilent(stored: Props, wanted: Props)
    requires DistinctKeys(wanted) && multiset(stored) == multiset(SettleAll(wanted))
    ensures Created(stored, wanted) == [] && DeletedCount(stored, |stored|, wanted) == 0
    ensures UpdatedCount(stored, wanted) == PaddedCount(wanted)
    ensures UpdatedCount(stored, wanted) == 0 <==> AllSettled(wanted)
  {
    hide MatchKey, Settled;
    forall w | w in wanted
      ensures var i := LastIndex(stored, MatchKey(w)); i >= 0 && stored[i].content == Settled(w.content)
    {
      WantedFound(stored, wanted, w);
    }
    SameMembers(stored, SettleAll(wanted));
    forall p | p in stored ensures Has(wanted, MatchKey(p)) {
      SettleAllMembers(wanted, p);
      var w :| w in wanted && Settle(w) == p;
      HasMember(wanted, w);
    }
    NothingCreated(stored, wanted);
    PaddedReported(stored, wanted);
    NothingDeleted(stored, |stored|, wanted);
    PaddedNone(wanted);
  }

  lemma SameMembers(a: Props, b: Props)
    requires multiset(a) == multiset(b)
    ensures forall p :: p in a <==> p in b
  {
    hide MatchKey;
    forall p ensures p in a <==> p in b {
      assert p in a <==> p in multiset(a);
      assert p in b <==> p in multiset(b);
    }
  }

  lemma {:induction false} UpdatedAt(stored: Props, wanted: Props, j: nat)
    requires j < |wanted| && UpdatedCount(stored, wanted) == 0
    ensures var i := LastIndex(stored, MatchKey(wanted[j])); i >= 0 ==> stored[i].content == wanted[j].content
  {
    hide MatchKey;
    if j < |wanted| - 1 { UpdatedAt(stored, wanted[..|wanted| - 1], j); }
  }

  /** Every two wanted properties that share a key share their content, which is settled. */
  ghost predicate RepeatsAgree(wanted: Props)
  {
    forall i, j :: 0 <= i < |wanted| && 0 <= j < |wanted| && MatchKey(wanted[i]) == MatchKey(wanted[j])
      ==> Settled(wanted[i].content) == wanted[j].content
  }

  /**
   A file that repeats keys is stored with the repetition. Importing it again then creates and deletes nothing,
   and reports no update if and only if repetitions agree.
   */
  lemma RepeatedKeysReimport(wanted: Props)
    ensures var stored := Synced([], wanted);
            && Created(stored, wanted) == [] && DeletedCount(stored, |stored|, wanted) == 0
            && (UpdatedCount(stored, wanted) == 0 <==> RepeatsAgree(wanted))
  {
    hide MatchKey, Settled;
    FreshBuildsWanted(wanted);
    var stored := SettleAll(wanted);
    hide Synced;
    forall w | w in wanted ensures Has(stored, MatchKey(w)) {
      SettleAllMembers(wanted, Settle(w));
      HasMember(stored, Settle(w));
    }
    forall p | p in stored ensures Has(wanted, MatchKey(p)) {
      SettleAllMembers(wanted, p);
      var w :| w in wanted && Settle(w) == p;
      HasMember(wanted, w);
    }
    NothingCreated(stored, wanted);
    NothingDeleted(stored, |stored|, wanted);
    RepeatsReported(wanted);
  }

  lemma RepeatsReported(wanted: Props)
    ensures UpdatedCount(SettleAll(wanted), wanted) == 0 <==> RepeatsAgree(wanted)
  {
    hide MatchKey, Settled;
    var stored := SettleAll(wanted);
    if UpdatedCount(stored, wanted) == 0 {
      forall i, j | 0 <= i < |wanted| && 0 <= j < |wanted| && MatchKey(wanted[i]) == MatchKey(wanted[j])
        ensures Settled(wanted[i].content) == wanted[j].content
      {
        RepeatedAgree(wanted, i, j);
      }
    } else if RepeatsAgree(wanted) {
      NothingChanged(stored, wanted);
    }
  }

  lemma KeyFoundAt(wanted: Props, i: nat) returns (k: nat)
    requires i < |wanted|
    ensures k < |wanted| && LastIndex(SettleAll(wanted), MatchKey(wanted[i])) == k
    ensures MatchKey(wanted[k]) == MatchKey(wanted[i])
  {
    hide MatchKey, Settled;
    var stored := SettleAll(wanted);
    assert MatchKey(stored[i]) == MatchKey(wanted[i]);
    k := LastIndex(stored, MatchKey(wanted[i]));
    assert i <= k && MatchKey(stored[k]) == MatchKey(wanted[k]);
  }

  /** The lookup finds one row k for both; comparing k with itself shows that its content is settled. */
  lemma RepeatedAgree(wanted: Props, i: nat, j: nat)
    requires UpdatedCount(SettleAll(wanted), wanted) == 0
    requires i < |wanted| && j < |wanted| && MatchKey(wanted[i]) == MatchKey(wanted[j])
    ensures Settled(wanted[i].content) == wanted[j].content
  {
    hide MatchKey, Settled, UpdatedCount, LastIndex, SettleAll;
    var stored := SettleAll(wanted);
    var k := KeyFoundAt(wanted, i);
    UpdatedAt(stored, wanted, i);
    UpdatedAt(stored, wanted, j);
    UpdatedAt(stored, wanted, k);
  }

  /** Two properties with one key and different content are reported as an update on every import. */
  lemma DisagreeingRepeatReported(p: Property, q: Property)
    requires MatchKey(p) == MatchKey(q) && p.content != q.content && AllSettled([p, q])
    ensures Synced([], [p, q]) == [p, q] && UpdatedCount([p, q], [p, q]) > 0
  {
    hide MatchKey, Settled, UpdatedCount;
    var w := [p, q];
    assert w[..1] == [p] && [p][..0] == [];
    assert Settled(p.content) == p.content && Settled(q.content) == q.content by { assert p in w && q in w; }
    FreshBuildsWanted(w);
    assert SettleAll(w) == w;
    assert !RepeatsAgree(w) by { assert MatchKey(w[0]) == MatchKey(w[1]); }
    hide RepeatsAgree, SettleAll;
    RepeatedKeysReimport(w);
  }

  // ----- the store stays healthy

  lemma {:induction false} DistinctOnce(props: Props, p: Property)
    requires DistinctKeys(props)
    ensures multiset(props)[p] <= 1
  {
    hide MatchKey;
    if props != [] {
      var n := |props| - 1;
      DistinctOnce(props[..n], p);
      assert props == props[..n] + [props[n]];
      if props[n] == p {
        assert forall i :: 0 <= i < n ==> props[i] != p;
        assert p !in props[..n];
      }
    }
  }

  lemma TwiceCounted(props: Props, i: nat, j: nat)
    requires i < j < |props| && props[i] == props[j]
    ensures multiset(props)[props[i]] >= 2
  {
    hide MatchKey;
    assert props == props[..j] + props[j..];
    assert props[..j][i] == props[i] && props[j..][0] == props[j];
    assert props[i] in props[..j] && props[i] in props[j..];
  }

  lemma PermutedDistinct(a: Props, b: Props)
    requires multiset(a) == multiset(b) && DistinctKeys(b)
    ensures DistinctKeys(a)
  {
    hide MatchKey;
    SameMembers(a, b);
    forall i, j | 0 <= i < j < |a| ensures MatchKey(a[i]) != MatchKey(a[j]) {
      if MatchKey(a[i]) == MatchKey(a[j]) {
        SharedKeyOne(b, a[i], a[j]);
        TwiceCounted(a, i, j);
        DistinctOnce(b, a[i]);
      }
    }
  }

  lemma SettleAllHealthy(wanted: Props)
    requires DistinctKeys(wanted) && AllClean(wanted)
    ensures Healthy(SettleAll(wanted))
  {
    hide MatchKey;
    forall p | p in SettleAll(wanted) ensures Clean(p) && Settled(p.content) == p.content {
      SettleAllMembers(wanted, p);
      var w :| w in wanted && Settle(w) == p;
      SettledTwice(w.content);
    }
  }

  /** A diff of a healthy store against distinct clean wanted properties leaves a healthy store. */
  lemma DiffKeepsHealth(stored: Props, wanted: Props)
    requires Healthy(stored) && AllClean(wanted) && DistinctKeys(wanted)
    ensures Healthy(Synced(stored, wanted))
  {
    hide MatchKey, Clean, Settled;
    Converges(stored, wanted);
    SettleAllHealthy(wanted);
    PermutedDistinct(Synced(stored, wanted), SettleAll(wanted));
    SameMembers(Synced(stored, wanted), SettleAll(wanted));
  }

  // ----- what the service refuses

  /** The service accepts what the diff asks for because of w. */
  predicate ItemAccepted(stored: Props, w: Property)
  {
    var i := LastIndex(stored, MatchKey(w));
    if i < 0 then CreateAccepted(w) else stored[i].content == w.content || UpdateAccepted(stored[i], w.content)
  }

  predicate DiffAccepted(stored: Props, wanted: Props)
  {
    forall w :: w in wanted ==> ItemAccepted(stored, w)
  }

  ghost predicate AllCreatable(wanted: Props)
  {
    forall w :: w in wanted ==> CreateAccepted(w)
  }

  ghost predicate Stocked(stored: Props, w: Property)
  {
    exists p :: p in stored && SameIdentity(p, w)
  }

  /** p is stored for the same key, value and ages as the wanted w, with different content. */
  predicate Differs(p: Property, w: Property)
  {
    SameIdentity(p, w) && p.content != w.content
  }

  /** Every wanted property whose stored row differs has a label and a lower age below the upper one. */
  ghost predicate ChangesAllowed(stored: Props, wanted: Props)
  {
    forall p, w :: p in stored && w in wanted && Differs(p, w) ==> TrimSpace(w.content.labelText) != "" && !AgesTouch(w)
  }

  lemma StockedFound(stored: Props, w: Property)
    requires DistinctKeys(stored) && AllClean(stored) && Clean(w)
    ensures Stocked(stored, w) <==> Has(stored, MatchKey(w))
    ensures Has(stored, MatchKey(w)) ==>
              forall p :: p in stored && SameIdentity(p, w) <==> p == stored[LastIndex(stored, MatchKey(w))]
  {
    hide MatchKey, Clean, SameIdentity;
    forall p | p in stored ensures MatchKey(p) == MatchKey(w) <==> SameIdentity(p, w) { MatchKeyInjective(p, w); }
    if Stocked(stored, w) {
      var p :| p in stored && SameIdentity(p, w);
      HasMember(stored, p);
    }
    if Has(stored, MatchKey(w)) {
      var q := stored[LastIndex(stored, MatchKey(w))];
      forall p | p in stored && SameIdentity(p, w) ensures p == q { SharedKeyOne(stored, p, q); }
    }
  }

  /**
   The diff goes through exactly when every property without a stored row can be created, and every one whose
   stored row differs can be changed.
   */
  lemma DiffAcceptedIff(stored: Props, wanted: Props)
    requires DistinctKeys(stored) && AllClean(stored) && AllClean(wanted)
    ensures DiffAccepted(stored, wanted) <==>
              (forall w :: w in wanted && !Stocked(stored, w) ==> CreateAccepted(w)) && ChangesAllowed(stored, wanted)
  {
    hide MatchKey, Clean, CreateAccepted, TrimSpace, Stocked, LastIndex;
    forall w | w in wanted
      ensures ItemAccepted(stored, w) <==>
                (!Stocked(stored, w) ==> CreateAccepted(w))
                && forall p :: p in stored && Differs(p, w) ==> TrimSpace(w.content.labelText) != "" && !AgesTouch(w)
    {
      ItemAcceptedIff(stored, w);
    }
  }

  lemma ItemAcceptedIff(stored: Props, w: Property)
    requires DistinctKeys(stored) && AllClean(stored) && Clean(w)
    ensures ItemAccepted(stored, w) <==>
              (!Stocked(stored, w) ==> CreateAccepted(w))
              && forall p :: p in stored && Differs(p, w) ==> TrimSpace(w.content.labelText) != "" && !AgesTouch(w)
  {
    hide MatchKey, Clean, CreateAccepted, TrimSpace, Stocked;
    StockedFound(stored, w);
    if Has(stored, MatchKey(w)) {
      var p := stored[LastIndex(stored, MatchKey(w))];
      assert p in stored && SameIdentity(p, w);
    } else {
      forall p | p in stored ensures !SameIdentity(p, w) { MatchKeyInjective(p, w); HasMember(stored, p); }
    }
  }

  /** Nothing stored: every property must be creatable. */
  lemma FreshAcceptedIff(wanted: Props)
    ensures DiffAccepted([], wanted) <==> AllCreatable(wanted)
  {
    hide MatchKey;
  }

  /**
   A file that a fresh import accepts is accepted over a store exactly when every property whose stored row
   differs has a label and ages that are not equal.
   */
  lemma DiffVersusFresh(stored: Props, wanted: Props)
    requires DistinctKeys(stored) && AllClean(stored) && AllClean(wanted) && DiffAccepted([], wanted)
    ensures DiffAccepted(stored, wanted) <==> ChangesAllowed(stored, wanted)
    ensures forall w :: w in wanted && AgesTouch(w) ==> w.minAge == w.maxAge
  {
    hide MatchKey, Clean, TrimSpace, Stocked, ChangesAllowed;
    FreshAcceptedIff(wanted);
    DiffAcceptedIff(stored, wanted);
  }

  /** A stored property for one single age is frozen: no import can change its content. */
  lemma SingleAgeFrozen(p: Property, c: Content, age: int)
    requires p.minAge == p.maxAge == Some(age) && CreateAccepted(p) && c != p.content
    ensures DiffAccepted([], [p.(content := c)]) && !DiffAccepted([p], [p.(content := c)])
  {
    hide Itoa;
    var w := p.(content := c);
    assert [p][0] == p && MatchKey(w) == MatchKey(p);
    assert w in [w];
  }

  /** For example the ages [2, 2], with a new payment. */
  lemma AgeTwoFrozen(c: Content, payment: int)
    requires payment != c.payment
    ensures var p := Property("care_type", "ganztag", Some(2), Some(2), c);
            var w := p.(content := c.(payment := payment));
            && DiffAccepted([], [p]) && DiffAccepted([], [w]) && DiffAccepted([p], [p]) && !DiffAccepted([p], [w])
  {
    hide MatchKey;
    var p := Property("care_type", "ganztag", Some(2), Some(2), c);
    assert TrimRight("care_type") == "care_type" && TrimRight("ganztag") == "ganztag";
    hide TrimSpace;
    assert [p][0] == p;
    SingleAgeFrozen(p, c.(payment := payment), 2);
  }

  // ----- what the counters count

  ghost function NewAt(stored: Props, wanted: Props): set<nat>
  {
    set j: nat | j < |wanted| && !Stocked(stored, wanted[j])
  }

  ghost function ChangedAt(stored: Props, wanted: Props): set<nat>
  {
    set j: nat | j < |wanted| && exists p :: p in stored && Differs(p, wanted[j])
  }

  ghost function UnnamedAt(stored: Props, n: nat, wanted: Props): set<nat>
    requires n <= |stored|
  {
    set i: nat | i < n && !exists w :: w in wanted && SameIdentity(stored[i], w)
  }

  /** Created are the wanted properties without a stored row, updated those whose stored row differs. */
  lemma {:induction false} WantedCounted(stored: Props, wanted: Props)
    requires DistinctKeys(stored) && AllClean(stored) && AllClean(wanted)
    ensures |Created(stored, wanted)| == |NewAt(stored, wanted)|
    ensures UpdatedCount(stored, wanted) == |ChangedAt(stored, wanted)|
  {
    hide MatchKey, Clean, Stocked, LastIndex, Differs, DistinctKeys, NewAt, ChangedAt;
    if wanted == [] {
      NothingAt(stored);
    } else {
      var n := |wanted| - 1;
      assert forall w :: w in wanted[..n] ==> w in wanted;
      WantedCounted(stored, wanted[..n]);
      assert wanted[n] in wanted;
      WantedItemCounted(stored, wanted[n]);
      NewNext(stored, wanted);
      ChangedNext(stored, wanted);
    }
  }

  lemma NothingAt(stored: Props)
    ensures NewAt(stored, []) == {} && ChangedAt(stored, []) == {}
  {
  }

  lemma NewNext(stored: Props, wanted: Props)
    requires wanted != []
    ensures var n := |wanted| - 1;
            |NewAt(stored, wanted)| == |NewAt(stored, wanted[..n])| + if Stocked(stored, wanted[n]) then 0 else 1
  {
    hide Stocked;
    var n := |wanted| - 1;
    var before := NewAt(stored, wanted[..n]);
    assert NewAt(stored, wanted) == if Stocked(stored, wanted[n]) then before else before + {n};
  }

  lemma ChangedNext(stored: Props, wanted: Props)
    requires wanted != []
    ensures var n := |wanted| - 1;
            |ChangedAt(stored, wanted)|
            == |ChangedAt(stored, wanted[..n])| + if exists p :: p in stored && Differs(p, wanted[n]) then 1 else 0
  {
    hide Differs;
    var n := |wanted| - 1;
    var before := ChangedAt(stored, wanted[..n]);
    assert ChangedAt(stored, wanted) == if exists p :: p in stored && Differs(p, wanted[n]) then before + {n} else before;
  }

  lemma WantedItemCounted(stored: Props, w: Property)
    requires DistinctKeys(stored) && AllClean(stored) && Clean(w)
    ensures Stocked(stored, w) <==> Has(stored, MatchKey(w))
    ensures (exists p :: p in stored && Differs(p, w)) <==>
              var i := LastIndex(stored, MatchKey(w)); i >= 0 && stored[i].content != w.content
  {
    hide MatchKey, Clean, Stocked, SameIdentity;
    StockedFound(stored, w);
    if Has(stored, MatchKey(w)) {
      assert stored[LastIndex(stored, MatchKey(w))] in stored;
    } else {
      forall p | p in stored ensures !SameIdentity(p, w) { MatchKeyInjective(p, w); HasMember(stored, p); }
    }
  }

  /** Deleted are the stored properties that the file does not name. */
  lemma {:induction false} DeletedCounted(stored: Props, n: nat, wanted: Props)
    requires DistinctKeys(stored) && AllClean(stored) && AllClean(wanted) && n <= |stored|
    ensures DeletedCount(stored, n, wanted) == |UnnamedAt(stored, n, wanted)|
  {
    hide MatchKey, Clean, LastIndex, SameIdentity;
    if n == 0 {
      assert UnnamedAt(stored, 0, wanted) == {};
    } else {
      DeletedCounted(stored, n - 1, wanted);
      LastIndexPrefix(stored, |stored|, n - 1);
      assert stored[n - 1] in stored;
      NamedIff(stored[n - 1], wanted);
      assert UnnamedAt(stored, n, wanted) ==
               UnnamedAt(stored, n - 1, wanted)
               + if exists w :: w in wanted && SameIdentity(stored[n - 1], w) then {} else {n - 1};
    }
  }

  lemma NamedIff(p: Property, wanted: Props)
    requires Clean(p) && AllClean(wanted)
    ensures Has(wanted, MatchKey(p)) <==> exists w :: w in wanted && SameIdentity(p, w)
  {
    hide MatchKey, Clean, SameIdentity;
    forall w | w in wanted ensures MatchKey(p) == MatchKey(w) <==> SameIdentity(p, w) { MatchKeyInjective(p, w); }
    if Has(wanted, MatchKey(p)) {
      assert wanted[LastIndex(wanted, MatchKey(p))] in wanted;
    }
    if exists w :: w in wanted && SameIdentity(p, w) {
      var w :| w in wanted && SameIdentity(p, w);
      HasMember(wanted, w);
    }
  }

  /** A second import is accepted exactly when the padded properties may be changed. */
  lemma ReimportAcceptedIff(stored: Props, wanted: Props)
    requires DistinctKeys(wanted) && multiset(stored) == multiset(SettleAll(wanted))
    ensures DiffAccepted(stored, wanted) <==>
              forall w :: w in wanted ==> Settled(w.content) == w.content || UpdateAccepted(w, w.content)
  {
    hide MatchKey, Settled, TrimSpace;
    forall w | w in wanted
      ensures ItemAccepted(stored, w) <==> Settled(w.content) == w.content || UpdateAccepted(w, w.content)
    {
      WantedFound(stored, wanted, w);
    }
  }
}
