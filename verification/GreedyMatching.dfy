/** The greedy windowed scan of jaroSimilarity, as a partial map between positions. */
module GreedyMatching {
  // The map is shown to be the only stable matching when both sides prefer the leftmost partner. That
  // characterisation does not say which string is scanned, which is why the similarity is symmetric.

  type Matching = map<nat, nat>

  // ----- the greedy scan, as a function

  /** Positions i and j hold the same character and are at most d apart. */
  predicate Admissible(r1: string, r2: string, d: nat, i: nat, j: nat)
  {
    i < |r1| && j < |r2| && r1[i] == r2[j] && i <= j + d && j <= i + d
  }

  /** The leftmost admissible partner of i at or after j that is not taken, or |r2| if there is none. */
  function FirstFree(r1: string, r2: string, d: nat, i: nat, taken: set<nat>, j: nat): (p: nat)
    requires j <= |r2|
    ensures j <= p <= |r2|
    ensures p < |r2| ==> Admissible(r1, r2, d, i, p) && p !in taken
    ensures forall q :: j <= q < p && Admissible(r1, r2, d, i, q) ==> q in taken
    decreases |r2| - j
  {
    if j == |r2| || (Admissible(r1, r2, d, i, j) && j !in taken) then j
    else FirstFree(r1, r2, d, i, taken, j + 1)
  }

  /** The pairs flagged once the first n characters of r1 have been scanned. */
  function Greedy(r1: string, r2: string, d: nat, n: nat): (m: Matching)
    requires n <= |r1|
  {
    if n == 0 then map[]
    else
      var m := Greedy(r1, r2, d, n - 1);
      var j := FirstFree(r1, r2, d, n - 1, m.Values, 0);
      if j == |r2| then m else m[n - 1 := j]
  }

  // ----- matchings

  ghost predicate OneToOne(m: Matching)
  {
    forall a, b :: a in m && b in m && m[a] == m[b] ==> a == b
  }

  ghost predicate IsMatching(r1: string, r2: string, d: nat, m: Matching)
  {
    && OneToOne(m)
    && forall i :: i in m ==> Admissible(r1, r2, d, i, m[i])
  }

  ghost predicate TakenBefore(m: Matching, i: nat, j: nat)
  {
    exists h :: h in m && m[h] == j && h < i
  }

  /** No admissible pair would suit both of its ends better than what they have. */
  ghost predicate StableUpTo(r1: string, r2: string, d: nat, m: Matching, n: nat)
  {
    forall i: nat, j: nat :: i < n && Admissible(r1, r2, d, i, j) ==>
      (i in m && m[i] <= j) || TakenBefore(m, i, j)
  }

  ghost predicate Stable(r1: string, r2: string, d: nat, m: Matching)
  {
    IsMatching(r1, r2, d, m) && StableUpTo(r1, r2, d, m, |r1|)
  }

  lemma {:induction false} GreedyStableUpTo(r1: string, r2: string, d: nat, n: nat)
    requires n <= |r1|
    ensures var m := Greedy(r1, r2, d, n);
            IsMatching(r1, r2, d, m) && StableUpTo(r1, r2, d, m, n) && forall i :: i in m ==> i < n
  {
    if n > 0 {
      GreedyStableUpTo(r1, r2, d, n - 1);
      var before := Greedy(r1, r2, d, n - 1);
      var p := FirstFree(r1, r2, d, n - 1, before.Values, 0);
      GreedyStep(r1, r2, d, before, n - 1, p);
    }
  }

  lemma KeepsTaken(before: Matching, m: Matching, i: nat, j: nat)
    requires TakenBefore(before, i, j) && forall k :: k in before ==> k in m && m[k] == before[k]
    ensures TakenBefore(m, i, j)
  {
    var h :| h in before && before[h] == j && h < i;
    assert h in m && m[h] == j;
  }

  /** Scanning position i keeps the matching stable up to i. */
  lemma GreedyStep(r1: string, r2: string, d: nat, before: Matching, i: nat, p: nat)
    requires IsMatching(r1, r2, d, before) && StableUpTo(r1, r2, d, before, i) && forall k :: k in before ==> k < i
    requires i < |r1| && p == FirstFree(r1, r2, d, i, before.Values, 0)
    ensures var m := if p == |r2| then before else before[i := p];
            IsMatching(r1, r2, d, m) && StableUpTo(r1, r2, d, m, i + 1)
  {
    hide FirstFree, Admissible;
    var m := if p == |r2| then before else before[i := p];
    assert forall k :: k in before ==> k in m && m[k] == before[k] && before[k] in before.Values;
    forall k: nat, j: nat | k < i + 1 && Admissible(r1, r2, d, k, j)
      ensures (k in m && m[k] <= j) || TakenBefore(m, k, j)
    {
      AdmissibleInRange(r1, r2, d, k, j);
      if k < i {
        if TakenBefore(before, k, j) { KeepsTaken(before, m, k, j); }
      } else if j in before.Values {
        var h :| h in before && before[h] == j;
        assert TakenBefore(before, k, j);
        KeepsTaken(before, m, k, j);
      }
    }
  }

  lemma AdmissibleInRange(r1: string, r2: string, d: nat, i: nat, j: nat)
    requires Admissible(r1, r2, d, i, j)
    ensures i < |r1| && j < |r2|
  {
  }

  /** The scan ends in a stable matching. */
  lemma GreedyStable(r1: string, r2: string, d: nat)
    ensures Stable(r1, r2, d, Greedy(r1, r2, d, |r1|))
  {
    GreedyStableUpTo(r1, r2, d, |r1|);
  }

  ghost predicate AgreeBelow(m: Matching, o: Matching, n: nat)
  {
    forall i :: i < n ==> (i in m <==> i in o) && (i in m ==> m[i] == o[i])
  }

  lemma StableNotBehind(r1: string, r2: string, d: nat, m: Matching, o: Matching, i: nat)
    requires Stable(r1, r2, d, m) && Stable(r1, r2, d, o) && AgreeBelow(m, o, i)
    requires i in m
    ensures i in o && o[i] <= m[i]
  {
    assert Admissible(r1, r2, d, i, m[i]);
    assert !TakenBefore(o, i, m[i]);
  }

  lemma {:induction false} StableAgree(r1: string, r2: string, d: nat, m: Matching, o: Matching, n: nat)
    requires Stable(r1, r2, d, m) && Stable(r1, r2, d, o)
    ensures AgreeBelow(m, o, n)
  {
    if n > 0 {
      StableAgree(r1, r2, d, m, o, n - 1);
      if n - 1 in m { StableNotBehind(r1, r2, d, m, o, n - 1); }
      if n - 1 in o { StableNotBehind(r1, r2, d, o, m, n - 1); }
    }
  }

  /** There is exactly one stable matching. */
  lemma StableUnique(r1: string, r2: string, d: nat, m: Matching, o: Matching)
    requires Stable(r1, r2, d, m) && Stable(r1, r2, d, o)
    ensures m == o
  {
    StableAgree(r1, r2, d, m, o, |r1|);
    assert forall i :: i in m ==> i < |r1|;
    assert forall i :: i in o ==> i < |r1|;
  }

  // ----- symmetry

  ghost predicate Mirror(m: Matching, o: Matching)
  {
    && (forall i :: i in m ==> m[i] in o && o[m[i]] == i)
    && (forall j :: j in o ==> o[j] in m && m[o[j]] == j)
  }

  ghost function Inverse(m: Matching): (o: Matching)
    requires OneToOne(m)
    ensures Mirror(m, o)
  {
    map j | j in m.Values :: var i :| i in m && m[i] == j; i
  }

  lemma InverseStable(r1: string, r2: string, d: nat, m: Matching)
    requires Stable(r1, r2, d, m)
    ensures Stable(r2, r1, d, Inverse(m))
  {
    var o := Inverse(m);
    forall j: nat, i: nat | j < |r2| && Admissible(r2, r1, d, j, i)
      ensures (j in o && o[j] <= i) || TakenBefore(o, j, i)
    {
      assert Admissible(r1, r2, d, i, j);
      if i in m && m[i] <= j {
        assert m[i] in o && o[m[i]] == i;
        assert m[i] < j ==> TakenBefore(o, j, i);
      } else {
        var h :| h in m && m[h] == j && h < i;
        assert j in o && o[j] == h;
      }
    }
    forall j | j in o ensures Admissible(r2, r1, d, j, o[j]) {
      assert Admissible(r1, r2, d, o[j], m[o[j]]);
    }
  }

  /** Scanning r2 against r1 flags exactly the mirrored pairs. */
  lemma GreedyMirror(r1: string, r2: string, d: nat)
    ensures Mirror(Greedy(r1, r2, d, |r1|), Greedy(r2, r1, d, |r2|))
  {
    var m := Greedy(r1, r2, d, |r1|);
    GreedyStable(r1, r2, d);
    GreedyStable(r2, r1, d);
    InverseStable(r1, r2, d, m);
    StableUnique(r2, r1, d, Inverse(m), Greedy(r2, r1, d, |r2|));
  }

  // ----- the greedy scan finds a maximum matching

  /** Below i the two matchings agree, so a partner o gives to i was still free when m came to i. */
  lemma PartnerFree(r1: string, r2: string, d: nat, m: Matching, o: Matching, i: nat)
    requires Stable(r1, r2, d, m) && IsMatching(r1, r2, d, o) && AgreeBelow(m, o, i)
    requires i in o
    ensures i in m && m[i] <= o[i]
  {
    assert Admissible(r1, r2, d, i, o[i]);
    assert !TakenBefore(m, i, o[i]);
  }

  lemma SwapOneToOne(o: Matching, i: nat, h: nat)
    requires OneToOne(o) && i in o && h in o
    ensures OneToOne(o[i := o[h]][h := o[i]])
    ensures |o[i := o[h]][h := o[i]]| == |o|
  {
    var x := o[i := o[h]][h := o[i]];
    assert x.Keys == o.Keys;
    assert |x.Keys| == |x| && |o.Keys| == |o|;
    forall a, b | a in x && b in x && x[a] == x[b] ensures a == b {
      assert x[a] == o[if a == i then h else if a == h then i else a];
      assert x[b] == o[if b == i then h else if b == h then i else b];
    }
  }

  lemma TradeAdmissible(r1: string, r2: string, d: nat, i: nat, h: nat, j: nat, k: nat)
    requires Admissible(r1, r2, d, i, j) && Admissible(r1, r2, d, i, k) && Admissible(r1, r2, d, h, j)
    requires i < h && j <= k
    ensures Admissible(r1, r2, d, h, k)
  {
  }

  /** If o uses i's partner for a later h, then h and i can trade partners. */
  lemma TradePartners(r1: string, r2: string, d: nat, m: Matching, o: Matching, i: nat, h: nat) returns (x: Matching)
    requires Stable(r1, r2, d, m) && IsMatching(r1, r2, d, o) && AgreeBelow(m, o, i)
    requires i in m && i in o && h in o && o[h] == m[i] && i < h
    ensures IsMatching(r1, r2, d, x) && AgreeBelow(m, x, i + 1) && |x| == |o|
  {
    hide StableUpTo, OneToOne, TakenBefore;
    PartnerFree(r1, r2, d, m, o, i);
    hide Admissible;
    x := o[i := m[i]][h := o[i]];
    SwapOneToOne(o, i, h);
    TradeAdmissible(r1, r2, d, i, h, m[i], o[i]);
    assert forall k :: k in x && k != i && k != h ==> x[k] == o[k];
  }

  /** If nobody else holds i's partner, i takes it. */
  lemma TakePartner(r1: string, r2: string, d: nat, m: Matching, o: Matching, i: nat) returns (x: Matching)
    requires Stable(r1, r2, d, m) && IsMatching(r1, r2, d, o) && AgreeBelow(m, o, i)
    requires i in m && forall h :: h in o && o[h] == m[i] ==> h == i
    ensures IsMatching(r1, r2, d, x) && AgreeBelow(m, x, i + 1) && |x| >= |o|
    ensures x == o[i := m[i]]
  {
    x := o[i := m[i]];
    assert x.Keys == o.Keys + {i};
    assert |x.Keys| == |x| && |o.Keys| == |o|;
  }

  /** Any matching that agrees with a stable one below i can be made to agree at i without losing a pair. */
  lemma Exchange(r1: string, r2: string, d: nat, m: Matching, o: Matching, i: nat) returns (x: Matching)
    requires Stable(r1, r2, d, m) && IsMatching(r1, r2, d, o) && AgreeBelow(m, o, i)
    ensures IsMatching(r1, r2, d, x) && AgreeBelow(m, x, i + 1) && |x| >= |o|
  {
    if i in o { PartnerFree(r1, r2, d, m, o, i); }
    if i !in m {
      x := o;
    } else if h :| h in o && o[h] == m[i] && h != i {
      if i in o {
        x := TradePartners(r1, r2, d, m, o, i, h);
      } else {
        var y := o - {h};
        assert IsMatching(r1, r2, d, y) && AgreeBelow(m, y, i);
        x := TakePartner(r1, r2, d, m, y, i);
        assert x.Keys == o.Keys - {h} + {i};
        assert |x.Keys| == |x| && |o.Keys| == |o|;
      }
    } else {
      x := TakePartner(r1, r2, d, m, o, i);
    }
  }

  lemma {:induction false} MaximumFrom(r1: string, r2: string, d: nat, m: Matching, o: Matching, i: nat)
    requires Stable(r1, r2, d, m) && IsMatching(r1, r2, d, o) && AgreeBelow(m, o, i) && i <= |r1|
    ensures |o| <= |m|
    decreases |r1| - i
  {
    if i == |r1| {
      assert forall k :: k in m ==> k < |r1|;
      assert forall k :: k in o ==> k < |r1|;
      assert m == o;
    } else {
      var x := Exchange(r1, r2, d, m, o, i);
      MaximumFrom(r1, r2, d, m, x, i + 1);
    }
  }

  /** No one-to-one pairing of equal characters at most d apart has more pairs than the scan flags. */
  lemma GreedyMaximum(r1: string, r2: string, d: nat, o: Matching)
    requires IsMatching(r1, r2, d, o)
    ensures |o| <= |Greedy(r1, r2, d, |r1|)|
  {
    GreedyStable(r1, r2, d);
    MaximumFrom(r1, r2, d, Greedy(r1, r2, d, |r1|), o, 0);
  }
}
