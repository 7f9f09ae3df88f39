/** The greedy token assignment, for any similarity that is 1 exactly on tokens with the same folded form. */
module TokenAssignment {

  type Sim = (string, string) -> real

  // ----- the greedy assignment, as a function

  datatype Choice = Choice(score: real, index: int)

  /** The unused token among the first n that scores highest against st, the first of them on a tie. */
  function Best(sim: Sim, st: string, longer: seq<string>, used: set<nat>, n: nat): (c: Choice)
    requires n <= |longer|
    ensures 0.0 <= c.score
    ensures if c.index == -1 then c.score == 0.0
            else 0 <= c.index < n && c.index !in used && c.score == sim(st, longer[c.index]) && c.score > 0.0
    ensures forall j :: 0 <= j < n && j !in used ==> sim(st, longer[j]) <= c.score
    ensures forall j :: 0 <= j < c.index && j !in used ==> sim(st, longer[j]) < c.score
  {
    if n == 0 then Choice(0.0, -1)
    else
      var c := Best(sim, st, longer, used, n - 1);
      if n - 1 in used || sim(st, longer[n - 1]) <= c.score then c
      else Choice(sim(st, longer[n - 1]), n - 1)
  }

  datatype Assignment = Assignment(total: real, used: set<nat>)

  /** What the first n tokens of shorter have claimed and scored. */
  function Assign(sim: Sim, shorter: seq<string>, longer: seq<string>, n: nat): (a: Assignment)
    requires n <= |shorter|
  {
    if n == 0 then Assignment(0.0, {})
    else
      var a := Assign(sim, shorter, longer, n - 1);
      var c := Best(sim, shorter[n - 1], longer, a.used, |longer|);
      Assignment(a.total + c.score, if c.index >= 0 then a.used + {c.index} else a.used)
  }

  function TokenScore(sim: Sim, a: seq<string>, b: seq<string>): real
  {
    if a == [] || b == [] then 0.0
    else
      var (shorter, longer) := if |a| > |b| then (b, a) else (a, b);
      Assign(sim, shorter, longer, |shorter|).total / |shorter| as real
  }

  // ----- the assignment as a list of picks

  /** p is the first of the highest-scoring tokens not picked earlier, or -1 if none of them scores. */
  ghost predicate IsPick(sim: Sim, st: string, longer: seq<string>, earlier: seq<int>, p: int)
  {
    if p == -1 then forall j :: 0 <= j < |longer| && j !in earlier ==> sim(st, longer[j]) <= 0.0
    else
      && 0 <= p < |longer| && p !in earlier && sim(st, longer[p]) > 0.0
      && (forall j :: 0 <= j < |longer| && j !in earlier ==> sim(st, longer[j]) <= sim(st, longer[p]))
      && (forall j :: 0 <= j < p && j !in earlier ==> sim(st, longer[j]) < sim(st, longer[p]))
  }

  /** The first n tokens of shorter pick in turn. */
  ghost predicate Picks(sim: Sim, shorter: seq<string>, longer: seq<string>, picks: seq<int>)
  {
    |picks| <= |shorter| && forall i :: 0 <= i < |picks| ==> IsPick(sim, shorter[i], longer, picks[..i], picks[i])
  }

  /** The scores of the picks together. */
  function PickTotal(sim: Sim, shorter: seq<string>, longer: seq<string>, picks: seq<int>): real
    requires |picks| <= |shorter| && forall p :: p in picks ==> p < |longer|
  {
    if picks == [] then 0.0
    else
      var n := |picks| - 1;
      assert picks[n] in picks && forall p :: p in picks[..n] ==> p in picks;
      PickTotal(sim, shorter, longer, picks[..n])
      + if picks[n] < 0 then 0.0 else sim(shorter[n], longer[picks[n]])
  }

  lemma BestIsPick(sim: Sim, st: string, longer: seq<string>, used: set<nat>, earlier: seq<int>, p: int)
    requires forall j: nat :: j in used <==> j in earlier
    requires IsPick(sim, st, longer, earlier, p)
    ensures Best(sim, st, longer, used, |longer|) == Choice(if p < 0 then 0.0 else sim(st, longer[p]), p)
  {
    var c := Best(sim, st, longer, used, |longer|);
    hide Best;
    assert c.index >= 0 ==> c.index !in earlier;
    assert p >= 0 ==> p !in used;
  }

  lemma PicksInside(sim: Sim, shorter: seq<string>, longer: seq<string>, picks: seq<int>)
    requires Picks(sim, shorter, longer, picks)
    ensures |picks| <= |shorter| && forall p :: p in picks ==> -1 <= p < |longer|
  {
    forall p | p in picks ensures -1 <= p < |longer| {
      var i :| 0 <= i < |picks| && picks[i] == p;
      assert IsPick(sim, shorter[i], longer, picks[..i], picks[i]);
    }
  }

  lemma PicksLast(sim: Sim, shorter: seq<string>, longer: seq<string>, picks: seq<int>)
    requires Picks(sim, shorter, longer, picks) && picks != []
    ensures var n := |picks| - 1;
            Picks(sim, shorter, longer, picks[..n]) && IsPick(sim, shorter[n], longer, picks[..n], picks[n])
  {
    hide IsPick;
    var n := |picks| - 1;
    assert forall i :: 0 <= i < n ==> picks[..n][i] == picks[i] && picks[..n][..i] == picks[..i];
  }

  /** The greedy total is the total of the picks, whatever list of picks the rule allows. */
  lemma {:induction false} AssignIsPicks(sim: Sim, shorter: seq<string>, longer: seq<string>, picks: seq<int>)
    requires Picks(sim, shorter, longer, picks)
    ensures forall p :: p in picks ==> -1 <= p < |longer|
    ensures var a := Assign(sim, shorter, longer, |picks|);
            && a.total == PickTotal(sim, shorter, longer, picks)
            && forall j: nat :: j in a.used <==> j in picks
  {
    hide Best, IsPick, Picks;
    PicksInside(sim, shorter, longer, picks);
    if picks != [] {
      var n := |picks| - 1;
      var before := picks[..n];
      PicksLast(sim, shorter, longer, picks);
      AssignIsPicks(sim, shorter, longer, before);
      BestIsPick(sim, shorter[n], longer, Assign(sim, shorter, longer, n).used, before, picks[n]);
      assert picks == before + [picks[n]];
      assert picks[n] in picks;
    }
  }

  lemma BestFollows(sim: Sim, st: string, longer: seq<string>, used: set<nat>, earlier: seq<int>)
    requires forall j :: 0 <= j < |longer| ==> (j in used <==> j in earlier)
    ensures IsPick(sim, st, longer, earlier, Best(sim, st, longer, used, |longer|).index)
  {
    var c := Best(sim, st, longer, used, |longer|);
    hide Best;
  }

  lemma NoPicks(sim: Sim, shorter: seq<string>, longer: seq<string>)
    ensures Picks(sim, shorter, longer, [])
  {
  }

  lemma PicksSnoc(sim: Sim, shorter: seq<string>, longer: seq<string>, before: seq<int>, p: int)
    requires Picks(sim, shorter, longer, before) && |before| < |shorter|
    requires IsPick(sim, shorter[|before|], longer, before, p)
    ensures Picks(sim, shorter, longer, before + [p])
  {
    hide IsPick;
    var picks := before + [p];
    assert forall i :: 0 <= i < |before| ==> picks[i] == before[i] && picks[..i] == before[..i];
    assert picks[..|before|] == before;
  }

  /** Some list of picks always exists. */
  lemma {:induction false} PicksExist(sim: Sim, shorter: seq<string>, longer: seq<string>, n: nat)
    returns (picks: seq<int>)
    requires n <= |shorter|
    ensures |picks| == n && Picks(sim, shorter, longer, picks)
  {
    hide IsPick, Best, Picks;
    if n == 0 { NoPicks(sim, shorter, longer); }
    if n == 0 {
      picks := [];
    } else {
      var before := PicksExist(sim, shorter, longer, n - 1);
      var used := set j: nat | j < |longer| && j in before;
      BestFollows(sim, shorter[n - 1], longer, used, before);
      picks := before + [Best(sim, shorter[n - 1], longer, used, |longer|).index];
      PicksSnoc(sim, shorter, longer, before, picks[n - 1]);
    }
  }

  /** The token score is the average over the shorter list, or the first of two equally long ones, of its picks. */
  lemma TokenScoreWritten(sim: Sim, a: seq<string>, b: seq<string>, picks: seq<int>)
    requires a != [] && b != []
    requires var (shorter, longer) := if |b| < |a| then (b, a) else (a, b);
             |picks| == |shorter| && Picks(sim, shorter, longer, picks)
    ensures var (shorter, longer) := if |b| < |a| then (b, a) else (a, b);
            && (forall p :: p in picks ==> p < |longer|)
            && |shorter| as real * TokenScore(sim, a, b) == PickTotal(sim, shorter, longer, picks)
  {
    hide Picks, Assign, PickTotal;
    var (shorter, longer) := if |b| < |a| then (b, a) else (a, b);
    AssignIsPicks(sim, shorter, longer, picks);
    var total, n := Assign(sim, shorter, longer, |shorter|).total, |shorter| as real;
    assert total / n * n == total;
  }

  // ----- a perfect assignment is multiset inclusion

  type Fold = string -> string

  /** Scores lie in [0,1] and are 1 exactly for tokens with the same folded form. */
  ghost predicate Discerning(sim: Sim, fold: Fold)
  {
    forall a, b :: 0.0 <= sim(a, b) <= 1.0 && (sim(a, b) == 1.0 <==> fold(a) == fold(b))
  }

  function Folded(fold: Fold, ts: seq<string>): (f: seq<string>)
    ensures |f| == |ts| && forall i :: 0 <= i < |ts| ==> f[i] == fold(ts[i])
  {
    seq(|ts|, i requires 0 <= i < |ts| => fold(ts[i]))
  }

  /** How many of the used positions below k hold the token x. */
  ghost function Claimed(f: seq<string>, used: set<nat>, x: string, k: nat): nat
    requires k <= |f|
  {
    if k == 0 then 0 else Claimed(f, used, x, k - 1) + if k - 1 in used && f[k - 1] == x then 1 else 0
  }

  /** The used positions hold exactly the first n tokens of g, with multiplicity. */
  ghost predicate ClaimsPrefix(f: seq<string>, used: set<nat>, g: seq<string>, n: nat)
    requires n <= |g|
  {
    forall x :: Claimed(f, used, x, |f|) == multiset(g[..n])[x]
  }

  lemma {:induction false} ClaimedMore(f: seq<string>, used: set<nat>, j: nat, x: string, k: nat)
    requires k <= |f| && j < |f| && j !in used
    ensures Claimed(f, used + {j}, x, k) == Claimed(f, used, x, k) + if j < k && f[j] == x then 1 else 0
  {
    if k > 0 { ClaimedMore(f, used, j, x, k - 1); }
  }

  lemma ClaimNext(f: seq<string>, used: set<nat>, j: nat, g: seq<string>, n: nat)
    requires 0 < n <= |g| && j < |f| && j !in used && f[j] == g[n - 1]
    requires ClaimsPrefix(f, used, g, n - 1)
    ensures ClaimsPrefix(f, used + {j}, g, n)
  {
    assert g[..n] == g[..n - 1] + [g[n - 1]];
    forall x ensures Claimed(f, used + {j}, x, |f|) == multiset(g[..n])[x] {
      ClaimedMore(f, used, j, x, |f|);
    }
  }

  /** Claimed tokens are part of the whole, and a token with copies to spare has an unclaimed position. */
  lemma {:induction false} ClaimedPart(f: seq<string>, used: set<nat>, x: string, k: nat)
    requires k <= |f|
    ensures Claimed(f, used, x, k) <= multiset(f[..k])[x]
    ensures Claimed(f, used, x, k) < multiset(f[..k])[x] ==> exists j :: 0 <= j < k && j !in used && f[j] == x
  {
    if k > 0 {
      ClaimedPart(f, used, x, k - 1);
      assert f[..k] == f[..k - 1] + [f[k - 1]];
    }
  }

  lemma {:induction false} AssignBounds(sim: Sim, fold: Fold, shorter: seq<string>, longer: seq<string>, n: nat)
    requires Discerning(sim, fold) && n <= |shorter|
    ensures 0.0 <= Assign(sim, shorter, longer, n).total <= n as real
  {
    if n > 0 { AssignBounds(sim, fold, shorter, longer, n - 1); }
  }

  /** A total of n leaves no room for a score below 1. */
  lemma PerfectStep(sim: Sim, fold: Fold, shorter: seq<string>, longer: seq<string>, n: nat)
    requires Discerning(sim, fold) && 0 < n <= |shorter|
    requires Assign(sim, shorter, longer, n).total == n as real
    ensures var a := Assign(sim, shorter, longer, n - 1);
            var c := Best(sim, shorter[n - 1], longer, a.used, |longer|);
            a.total == (n - 1) as real && 0 <= c.index && fold(longer[c.index]) == fold(shorter[n - 1])
  {
    AssignBounds(sim, fold, shorter, longer, n - 1);
    var c := Best(sim, shorter[n - 1], longer, Assign(sim, shorter, longer, n - 1).used, |longer|);
    assert c.score >= 1.0;
  }

  /** While every score is 1, the claimed tokens are the tokens served so far. */
  lemma {:induction false} PerfectClaims(sim: Sim, fold: Fold, shorter: seq<string>, longer: seq<string>, n: nat)
    requires Discerning(sim, fold) && n <= |shorter|
    requires Assign(sim, shorter, longer, n).total == n as real
    ensures ClaimsPrefix(Folded(fold, longer), Assign(sim, shorter, longer, n).used, Folded(fold, shorter), n)
  {
    var f, g := Folded(fold, longer), Folded(fold, shorter);
    if n == 0 {
      forall x { NothingClaimed(f, x, |f|); }
    } else {
      PerfectStep(sim, fold, shorter, longer, n);
      PerfectClaims(sim, fold, shorter, longer, n - 1);
      var a := Assign(sim, shorter, longer, n - 1);
      ClaimNext(f, a.used, Best(sim, shorter[n - 1], longer, a.used, |longer|).index, g, n);
    }
  }

  lemma NothingClaimed(f: seq<string>, x: string, k: nat)
    requires k <= |f|
    ensures Claimed(f, {}, x, k) == 0
  {
  }

  /** A token that still has a copy among the unclaimed ones is served with score 1. */
  lemma ServedExactly(sim: Sim, fold: Fold, st: string, longer: seq<string>, used: set<nat>)
    requires Discerning(sim, fold)
    requires var f := Folded(fold, longer); Claimed(f, used, fold(st), |f|) < multiset(f)[fold(st)]
    ensures Best(sim, st, longer, used, |longer|).score == 1.0
  {
    var f := Folded(fold, longer);
    ClaimedPart(f, used, fold(st), |f|);
    assert f[..|f|] == f;
    var j :| 0 <= j < |f| && j !in used && f[j] == fold(st);
    assert sim(st, longer[j]) == 1.0;
  }

  lemma {:induction false} IncludedServed(sim: Sim, fold: Fold, shorter: seq<string>, longer: seq<string>, n: nat)
    requires Discerning(sim, fold) && n <= |shorter|
    requires multiset(Folded(fold, shorter)[..n]) <= multiset(Folded(fold, longer))
    ensures Assign(sim, shorter, longer, n).total == n as real
  {
    if n > 0 {
      var f := Folded(fold, shorter);
      assert f[..n] == f[..n - 1] + [f[n - 1]];
      IncludedServed(sim, fold, shorter, longer, n - 1);
      PerfectClaims(sim, fold, shorter, longer, n - 1);
      hide Assign, Best;
      assert multiset(f[..n])[f[n - 1]] == multiset(f[..n - 1])[f[n - 1]] + 1;
      ServedExactly(sim, fold, shorter[n - 1], longer, Assign(sim, shorter, longer, n - 1).used);
    }
  }

  /** The assignment is perfect exactly when the shorter token multiset is contained in the longer one. */
  lemma PerfectIffIncluded(sim: Sim, fold: Fold, shorter: seq<string>, longer: seq<string>)
    requires Discerning(sim, fold)
    ensures Assign(sim, shorter, longer, |shorter|).total == |shorter| as real
       <==> multiset(Folded(fold, shorter)) <= multiset(Folded(fold, longer))
  {
    var f, g := Folded(fold, shorter), Folded(fold, longer);
    assert f[..|shorter|] == f && g[..|longer|] == g;
    if multiset(f) <= multiset(g) {
      IncludedServed(sim, fold, shorter, longer, |shorter|);
    }
    if Assign(sim, shorter, longer, |shorter|).total == |shorter| as real {
      PerfectClaims(sim, fold, shorter, longer, |shorter|);
      var used := Assign(sim, shorter, longer, |shorter|).used;
      forall x ensures multiset(f)[x] <= multiset(g)[x] {
        ClaimedPart(g, used, x, |g|);
      }
    }
  }

  ghost predicate Nested(fold: Fold, a: seq<string>, b: seq<string>)
  {
    || multiset(Folded(fold, a)) <= multiset(Folded(fold, b))
    || multiset(Folded(fold, b)) <= multiset(Folded(fold, a))
  }

  lemma InclusionLength(a: seq<string>, b: seq<string>)
    requires multiset(a) <= multiset(b)
    ensures |a| <= |b|
    ensures |a| == |b| ==> multiset(a) == multiset(b)
  {
    var rest := multiset(b) - multiset(a);
    assert multiset(b) == multiset(a) + rest;
    assert |multiset(a)| == |a| && |multiset(b)| == |b|;
  }

  lemma AverageBounds(total: real, n: nat)
    requires n > 0 && 0.0 <= total <= n as real
    ensures 0.0 <= total / n as real <= 1.0
    ensures total / n as real == 1.0 <==> total == n as real
  {
    var q := total / n as real;
    assert q * n as real == total;
    assert q <= 1.0 <==> q * n as real <= 1.0 * n as real;
  }

  /** The token score lies in [0,1] and is 1 exactly for two non-empty, nested token multisets. */
  lemma TokenScoreLaw(sim: Sim, fold: Fold, a: seq<string>, b: seq<string>)
    requires Discerning(sim, fold)
    ensures 0.0 <= TokenScore(sim, a, b) <= 1.0
    ensures TokenScore(sim, a, b) == 1.0 <==> a != [] && b != [] && Nested(fold, a, b)
  {
    if a != [] && b != [] {
      var (shorter, longer) := if |a| > |b| then (b, a) else (a, b);
      AssignBounds(sim, fold, shorter, longer, |shorter|);
      AverageBounds(Assign(sim, shorter, longer, |shorter|).total, |shorter|);
      PerfectIffIncluded(sim, fold, shorter, longer);
      if multiset(Folded(fold, longer)) <= multiset(Folded(fold, shorter)) {
        InclusionLength(Folded(fold, longer), Folded(fold, shorter));
      }
    }
  }
}
