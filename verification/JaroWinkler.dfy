/** Jaro and Jaro-Winkler similarity over exact reals. */
module JaroWinkler {
  // A string is its sequence of runes; the Winkler prefix works on the UTF-8 bytes of the two strings.

  import opened GreedyMatching

  // ----- the score, as a function

  function Max(a: int, b: int): int { if a < b then b else a }

  function Min(a: int, b: int): int { if a < b then a else b }

  function MatchDist(len1: nat, len2: nat): nat
  {
    Max(0, Max(len1, len2) / 2 - 1)
  }

  /** The flagged characters among the first n of r, in order. */
  function Kept(r: string, flagged: set<nat>, n: nat): string
    requires n <= |r|
  {
    if n == 0 then "" else Kept(r, flagged, n - 1) + if n - 1 in flagged then [r[n - 1]] else ""
  }

  function Mismatches(a: string, b: string): (n: nat)
    requires |a| == |b|
    ensures n <= |a|
  {
    if a == "" then 0
    else Mismatches(a[..|a| - 1], b[..|b| - 1]) + if a[|a| - 1] != b[|b| - 1] then 1 else 0
  }

  ghost function Below(flagged: set<nat>, n: nat): set<nat>
  {
    set k | k in flagged && k < n
  }

  lemma {:induction false} KeptLength(r: string, flagged: set<nat>, n: nat)
    requires n <= |r|
    ensures |Kept(r, flagged, n)| == |Below(flagged, n)|
  {
    if n > 0 {
      KeptLength(r, flagged, n - 1);
      if n - 1 in flagged {
        assert Below(flagged, n) == Below(flagged, n - 1) + {n - 1};
      } else {
        assert Below(flagged, n) == Below(flagged, n - 1);
      }
    }
  }

  /** A one-to-one map has as many values as keys. */
  lemma {:induction false} ValuesCount(m: Matching)
    requires OneToOne(m)
    ensures |m.Values| == |m| == |m.Keys|
    decreases |m|
  {
    if i :| i in m {
      var rest := m - {i};
      assert rest.Keys == m.Keys - {i};
      assert rest.Values == m.Values - {m[i]} by {
        forall j | j in m.Values && j != m[i] ensures j in rest.Values {
          var k :| k in m && m[k] == j;
          assert k in rest && rest[k] == j;
        }
      }
      ValuesCount(rest);
    } else {
      assert m == map[];
    }
  }

  /** Both strings keep the same number of characters, which is the number of matches. */
  lemma KeptBalanced(r1: string, r2: string, d: nat)
    ensures var m := Greedy(r1, r2, d, |r1|);
            && |Kept(r1, m.Keys, |r1|)| == |m| == |Kept(r2, m.Values, |r2|)|
            && |m| <= |r1| && |m| <= |r2|
  {
    var m := Greedy(r1, r2, d, |r1|);
    GreedyStable(r1, r2, d);
    ValuesCount(m);
    KeptLength(r1, m.Keys, |r1|);
    KeptLength(r2, m.Values, |r2|);
    assert Below(m.Keys, |r1|) == m.Keys;
    assert Below(m.Values, |r2|) == m.Values;
    KeptAtMost(r1, m.Keys, |r1|);
    KeptAtMost(r2, m.Values, |r2|);
  }

  lemma KeptAtMost(r: string, flagged: set<nat>, n: nat)
    requires n <= |r|
    ensures |Kept(r, flagged, n)| <= n
  {
  }

  function Transpositions(r1: string, r2: string, d: nat): (t: nat)
    ensures t <= |Greedy(r1, r2, d, |r1|)|
  {
    KeptBalanced(r1, r2, d);
    var m := Greedy(r1, r2, d, |r1|);
    Mismatches(Kept(r1, m.Keys, |r1|), Kept(r2, m.Values, |r2|))
  }

  function Formula(matches: nat, transpositions: nat, len1: nat, len2: nat): real
    requires matches > 0 && len1 > 0 && len2 > 0
  {
    var m := matches as real;
    (m / len1 as real + m / len2 as real + (m - transpositions as real / 2.0) / m) / 3.0
  }

  function Jaro(s1: string, s2: string): real
  {
    if s1 == s2 then 1.0
    else if |s1| == 0 || |s2| == 0 then 0.0
    else
      var d := MatchDist(|s1|, |s2|);
      var m := Greedy(s1, s2, d, |s1|);
      if |m| == 0 then 0.0 else Formula(|m|, Transpositions(s1, s2, d), |s1|, |s2|)
  }

  // ----- properties of the Jaro score

  lemma RatioBounds(a: nat, b: nat)
    requires 0 < b && a <= b
    ensures 0.0 <= a as real / b as real <= 1.0
    ensures a as real / b as real == 1.0 <==> a == b
  {
    var q := a as real / b as real;
    assert q * b as real == a as real;
    assert q <= 1.0 <==> q * b as real <= 1.0 * b as real;
  }

  lemma QuotientBounds(q: real, a: real, b: real)
    requires 0.0 <= a <= b && 0.0 < b && q * b == a
    ensures 0.0 <= q <= 1.0
    ensures q == 1.0 ==> a == b
  {
    assert q <= 1.0 <==> q * b <= 1.0 * b;
    assert 0.0 <= q <==> 0.0 * b <= q * b;
  }

  lemma FormulaBounds(m: nat, t: nat, len1: nat, len2: nat)
    requires 0 < m <= len1 && m <= len2 && t <= m
    ensures 0.0 <= Formula(m, t, len1, len2) <= 1.0
    ensures Formula(m, t, len1, len2) == 1.0 ==> m == len1 == len2 && t == 0
  {
    RatioBounds(m, len1);
    RatioBounds(m, len2);
    var x, y := m as real, t as real / 2.0;
    var q := (x - y) / x;
    assert q * x == x - y;
    QuotientBounds(q, x - y, x);
  }

  lemma {:induction false} KeptAll(r: string, flagged: set<nat>, n: nat)
    requires n <= |r| && |Kept(r, flagged, n)| == n
    ensures Kept(r, flagged, n) == r[..n]
  {
    if n > 0 {
      KeptAtMost(r, flagged, n - 1);
      KeptAll(r, flagged, n - 1);
      assert r[..n] == r[..n - 1] + [r[n - 1]];
    }
  }

  lemma {:induction false} NoMismatchEqual(a: string, b: string)
    requires |a| == |b| && Mismatches(a, b) == 0
    ensures a == b
  {
    if a != "" {
      NoMismatchEqual(a[..|a| - 1], b[..|b| - 1]);
      assert a == a[..|a| - 1] + [a[|a| - 1]] && b == b[..|b| - 1] + [b[|b| - 1]];
    }
  }

  /** The score lies in [0,1] and is 1 only for equal strings. */
  lemma JaroRange(s1: string, s2: string)
    ensures 0.0 <= Jaro(s1, s2) <= 1.0
    ensures Jaro(s1, s2) == 1.0 <==> s1 == s2
  {
    if s1 != s2 && |s1| > 0 && |s2| > 0 {
      var d := MatchDist(|s1|, |s2|);
      var m := Greedy(s1, s2, d, |s1|);
      KeptBalanced(s1, s2, d);
      if |m| > 0 {
        var t := Transpositions(s1, s2, d);
        FormulaBounds(|m|, t, |s1|, |s2|);
        if |m| == |s1| == |s2| {
          KeptAll(s1, m.Keys, |s1|);
          KeptAll(s2, m.Values, |s2|);
          assert s1[..|s1|] == s1 && s2[..|s2|] == s2;
          if t == 0 { NoMismatchEqual(s1, s2); }
        }
      }
    }
  }

  lemma {:induction false} MismatchesSymmetric(a: string, b: string)
    requires |a| == |b|
    ensures Mismatches(a, b) == Mismatches(b, a)
  {
    if a != "" { MismatchesSymmetric(a[..|a| - 1], b[..|b| - 1]); }
  }

  /** Match count, flagged positions and transposition count do not depend on which string is scanned. */
  lemma ScanSymmetric(r1: string, r2: string, d: nat)
    ensures var m, o := Greedy(r1, r2, d, |r1|), Greedy(r2, r1, d, |r2|);
            m.Keys == o.Values && m.Values == o.Keys && |m| == |o|
    ensures Transpositions(r1, r2, d) == Transpositions(r2, r1, d)
  {
    var m, o := Greedy(r1, r2, d, |r1|), Greedy(r2, r1, d, |r2|);
    GreedyMirror(r1, r2, d);
    GreedyStable(r1, r2, d);
    ValuesCount(m);
    assert m.Values == o.Keys;
    assert m.Keys == o.Values;
    KeptBalanced(r1, r2, d);
    MismatchesSymmetric(Kept(r1, m.Keys, |r1|), Kept(r2, m.Values, |r2|));
  }

  lemma FormulaSymmetric(m: nat, t: nat, len1: nat, len2: nat)
    requires m > 0 && len1 > 0 && len2 > 0
    ensures Formula(m, t, len1, len2) == Formula(m, t, len2, len1)
  {
  }

  lemma JaroSymmetric(s1: string, s2: string)
    ensures Jaro(s1, s2) == Jaro(s2, s1)
  {
    hide Greedy, Transpositions, Formula;
    var d := MatchDist(|s1|, |s2|);
    ScanSymmetric(s1, s2, d);
    if |s1| > 0 && |s2| > 0 && |Greedy(s1, s2, d, |s1|)| > 0 {
      FormulaSymmetric(|Greedy(s1, s2, d, |s1|)|, Transpositions(s1, s2, d), |s1|, |s2|);
    }
  }

  // ----- the score, with the window and the formula written out

  /** Equal characters in the same place, or at most half the longer length less one apart. */
  predicate Close(s1: string, s2: string, i: nat, j: nat)
  {
    && i < |s1| && j < |s2| && s1[i] == s2[j]
    && (i == j || 2 * ((if i < j then j - i else i - j) + 1) <= if |s1| < |s2| then |s2| else |s1|)
  }

  lemma CloseIff(s1: string, s2: string, i: nat, j: nat)
    ensures Close(s1, s2, i, j) <==> Admissible(s1, s2, MatchDist(|s1|, |s2|), i, j)
  {
  }

  /** Pairs of close characters, one to one, such that no close pair would suit both of its ends better. */
  ghost predicate StableMatching(s1: string, s2: string, m: Matching)
  {
    && (forall a, b :: a in m && b in m && m[a] == m[b] ==> a == b)
    && (forall i :: i in m ==> Close(s1, s2, i, m[i]))
    && forall i: nat, j: nat :: Close(s1, s2, i, j) ==>
         (i in m && m[i] <= j) || exists h :: h in m && m[h] == j && h < i
  }

  lemma StableMatchingIff(s1: string, s2: string, m: Matching)
    ensures StableMatching(s1, s2, m) <==> m == Greedy(s1, s2, MatchDist(|s1|, |s2|), |s1|)
  {
    hide Close, Admissible, MatchDist, Greedy;
    var d := MatchDist(|s1|, |s2|);
    forall i: nat, j: nat ensures Close(s1, s2, i, j) <==> Admissible(s1, s2, d, i, j) { CloseIff(s1, s2, i, j); }
    assert StableMatching(s1, s2, m) ==> Stable(s1, s2, d, m) by { CloseStable(s1, s2, d, m); }
    GreedyStable(s1, s2, d);
    assert StableMatching(s1, s2, Greedy(s1, s2, d, |s1|)) by { CloseStable(s1, s2, d, Greedy(s1, s2, d, |s1|)); }
    if Stable(s1, s2, d, m) { StableUnique(s1, s2, d, m, Greedy(s1, s2, d, |s1|)); }
  }

  /** Two strings have exactly one stable matching. */
  lemma OneStableMatching(s1: string, s2: string)
    ensures exists m :: StableMatching(s1, s2, m) && forall o :: StableMatching(s1, s2, o) ==> o == m
  {
    hide StableMatching, Greedy, MatchDist;
    forall m { StableMatchingIff(s1, s2, m); }
    assert StableMatching(s1, s2, Greedy(s1, s2, MatchDist(|s1|, |s2|), |s1|));
  }

  lemma CloseStable(s1: string, s2: string, d: nat, m: Matching)
    requires forall i: nat, j: nat :: Close(s1, s2, i, j) <==> Admissible(s1, s2, d, i, j)
    ensures StableMatching(s1, s2, m) <==> Stable(s1, s2, d, m)
  {
    AdmissibleInside(s1, s2, d);
    hide Close, Admissible;
  }

  lemma AdmissibleInside(s1: string, s2: string, d: nat)
    ensures forall i: nat, j: nat :: Admissible(s1, s2, d, i, j) ==> i < |s1|
  {
  }

  /** positions lists the flagged ones from left to right. */
  ghost predicate Lists(positions: seq<nat>, flagged: set<nat>)
  {
    && (forall x, y :: 0 <= x < y < |positions| ==> positions[x] < positions[y])
    && forall p :: p in positions <==> p in flagged
  }

  /** The characters of r at the positions. */
  function CharsAt(r: string, positions: seq<nat>): (s: string)
    requires forall p :: p in positions ==> p < |r|
  {
    if positions == [] then ""
    else
      var n := |positions| - 1;
      assert forall p :: p in positions[..n] ==> p in positions;
      assert positions[n] in positions;
      CharsAt(r, positions[..n]) + [r[positions[n]]]
  }

  lemma {:induction false} CharsAtIndex(r: string, positions: seq<nat>, x: nat)
    requires (forall p :: p in positions ==> p < |r|) && x < |positions|
    ensures positions[x] < |r| && |CharsAt(r, positions)| == |positions| && CharsAt(r, positions)[x] == r[positions[x]]
  {
    var n := |positions| - 1;
    assert positions[x] in positions;
    assert forall p :: p in positions[..n] ==> p in positions;
    if n > 0 { CharsAtIndex(r, positions[..n], if x < n then x else 0); }
  }

  /** The next flagged position is the next one listed. */
  lemma NextListed(flagged: set<nat>, positions: seq<nat>, k: nat, n: nat)
    requires Lists(positions, flagged) && n in flagged && k <= |positions|
    requires forall x :: 0 <= x < |positions| ==> (x < k <==> positions[x] < n)
    ensures k < |positions| && positions[k] == n && forall x :: k < x < |positions| ==> positions[x] > n
  {
    var x :| 0 <= x < |positions| && positions[x] == n;
    assert forall z :: 0 <= z < x ==> positions[z] < positions[x];
  }

  lemma {:induction false} KeptBelow(r: string, flagged: set<nat>, positions: seq<nat>, n: nat) returns (k: nat)
    requires n <= |r| && Lists(positions, flagged) && forall p :: p in positions ==> p < |r|
    ensures k <= |positions|
    ensures forall x :: 0 <= x < |positions| ==> (x < k <==> positions[x] < n)
    ensures (forall p :: p in positions[..k] ==> p < |r|) && Kept(r, flagged, n) == CharsAt(r, positions[..k])
  {
    if n == 0 {
      k := 0;
    } else {
      var before := KeptBelow(r, flagged, positions, n - 1);
      if n - 1 in flagged {
        k := before + 1;
        NextListed(flagged, positions, before, n - 1);
        assert positions[..k] == positions[..before] + [n - 1];
        assert positions[..k][..before] == positions[..before];
      } else {
        k := before;
        assert forall x :: 0 <= x < |positions| ==> positions[x] in positions && positions[x] != n - 1;
      }
    }
  }

  lemma KeptIsListed(r: string, flagged: set<nat>, positions: seq<nat>)
    requires Lists(positions, flagged) && forall p :: p in flagged ==> p < |r|
    ensures (forall p :: p in positions ==> p < |r|) && Kept(r, flagged, |r|) == CharsAt(r, positions)
  {
    hide Kept, CharsAt;
    var k := KeptBelow(r, flagged, positions, |r|);
    forall x | 0 <= x < |positions| ensures positions[x] < |r| {
      assert positions[x] in positions;
    }
    assert positions != [] ==> positions[|positions| - 1] < |r|;
    assert positions[..k] == positions;
  }

  lemma {:induction false} MismatchesCount(a: string, b: string)
    requires |a| == |b|
    ensures Mismatches(a, b) == |set x: nat | x < |a| && a[x] != b[x]|
  {
    var differing := set x: nat | x < |a| && a[x] != b[x];
    if a == "" {
      assert differing == {};
    } else {
      var n := |a| - 1;
      var rest := set x: nat | x < n && a[..n][x] != b[..n][x];
      MismatchesCount(a[..n], b[..n]);
      assert differing == if a[n] != b[n] then rest + {n} else rest;
    }
  }

  /** Where the listed characters of the two strings differ. */
  ghost function Differing(s1: string, s2: string, ps: seq<nat>, qs: seq<nat>): set<nat>
  {
    set x: nat | x < |ps| && x < |qs| && ps[x] < |s1| && qs[x] < |s2| && s1[ps[x]] != s2[qs[x]]
  }

  /** Two different strings score above 0 if and only if some characters of theirs are close. */
  lemma JaroPositiveIff(s1: string, s2: string)
    requires s1 != s2
    ensures Jaro(s1, s2) > 0.0 <==> exists i: nat, j: nat :: Close(s1, s2, i, j)
  {
    hide Close, Greedy, MatchDist, Kept, Mismatches;
    var d := MatchDist(|s1|, |s2|);
    var m := Greedy(s1, s2, d, |s1|);
    StableMatchingIff(s1, s2, m);
    CloseInside(s1, s2);
    if |m| == 0 {
      assert m == map[];
    } else {
      var i :| i in m;
      assert Close(s1, s2, i, m[i]);
      KeptBalanced(s1, s2, d);
      FormulaPositive(|m|, Transpositions(s1, s2, d), |s1|, |s2|);
    }
  }

  lemma CloseInside(s1: string, s2: string)
    ensures forall i: nat, j: nat :: Close(s1, s2, i, j) ==> |s1| > 0 && |s2| > 0
  {
  }

  lemma FormulaPositive(m: nat, t: nat, len1: nat, len2: nat)
    requires 0 < m && t <= m && len1 > 0 && len2 > 0
    ensures Formula(m, t, len1, len2) > 0.0
  {
    var x, y, z := m as real / len1 as real, m as real / len2 as real, (m as real - t as real / 2.0) / m as real;
    assert x * len1 as real > 0.0 && y * len2 as real > 0.0 && z * m as real > 0.0;
    ProductPositive(x, len1 as real);
    ProductPositive(y, len2 as real);
    ProductPositive(z, m as real);
  }

  lemma ProductPositive(q: real, b: real)
    requires b > 0.0 && q * b > 0.0
    ensures q > 0.0
  {
    assert q <= 0.0 ==> q * b <= 0.0 * b;
  }

  /**
   The score of two different strings, from their one stable matching m and its two sides listed from left to
   right: 0 if there are no pairs, and otherwise a third of |m|/|s1| + |m|/|s2| + (|m| - t/2)/|m|, where t
   is the number of places at which the listed characters differ.
   */
  lemma JaroWritten(s1: string, s2: string, m: Matching, ps: seq<nat>, qs: seq<nat>)
    requires s1 != s2 && StableMatching(s1, s2, m) && Lists(ps, m.Keys) && Lists(qs, m.Values)
    ensures |ps| == |qs| == |m|
    ensures |m| == 0 ==> Jaro(s1, s2) == 0.0
    ensures |m| > 0 ==>
              var n, t := |m| as real, |Differing(s1, s2, ps, qs)| as real;
              |s1| > 0 && |s2| > 0
              && 3.0 * Jaro(s1, s2) == n / |s1| as real + n / |s2| as real + (n - t / 2.0) / n
  {
    hide Greedy, Kept, Mismatches, CharsAt, Close, MatchDist;
    var d := MatchDist(|s1|, |s2|);
    StableMatchingIff(s1, s2, m);
    KeptBalanced(s1, s2, d);
    SidesInside(s1, s2, m);
    KeptIsListed(s1, m.Keys, ps);
    KeptIsListed(s2, m.Values, qs);
    var a, b := CharsAt(s1, ps), CharsAt(s2, qs);
    CharsAtLength(s1, ps);
    CharsAtLength(s2, qs);
    MismatchesCount(a, b);
    DifferingChars(s1, s2, ps, qs);
    if |m| > 0 { assert |s1| > 0 && |s2| > 0; }
  }

  lemma SidesInside(s1: string, s2: string, m: Matching)
    requires StableMatching(s1, s2, m)
    ensures (forall p :: p in m.Keys ==> p < |s1|) && forall q :: q in m.Values ==> q < |s2|
  {
    forall q | q in m.Values ensures q < |s2| {
      var i :| i in m && m[i] == q;
      assert Close(s1, s2, i, m[i]);
    }
  }

  lemma CharsAtLength(r: string, positions: seq<nat>)
    requires forall p :: p in positions ==> p < |r|
    ensures |CharsAt(r, positions)| == |positions|
  {
    if positions != [] { CharsAtIndex(r, positions, 0); }
  }

  lemma DifferingChars(s1: string, s2: string, ps: seq<nat>, qs: seq<nat>)
    requires (forall p :: p in ps ==> p < |s1|) && (forall q :: q in qs ==> q < |s2|) && |ps| == |qs|
    requires |CharsAt(s1, ps)| == |ps| && |CharsAt(s2, qs)| == |qs|
    ensures Differing(s1, s2, ps, qs) == set x: nat | x < |ps| && CharsAt(s1, ps)[x] != CharsAt(s2, qs)[x]
  {
    hide CharsAt;
    forall x: nat | x < |ps|
      ensures ps[x] < |s1| && qs[x] < |s2| && CharsAt(s1, ps)[x] == s1[ps[x]] && CharsAt(s2, qs)[x] == s2[qs[x]]
    {
      CharsAtIndex(s1, ps, x);
      CharsAtIndex(s2, qs, x);
    }
  }

  // ----- the scan itself, over two flag arrays

  /** The flags hold exactly the two sides of a matching. */
  ghost predicate Flags(f1: array<bool>, f2: array<bool>, m: Matching)
    reads f1, f2
  {
    && (forall i :: 0 <= i < f1.Length ==> (f1[i] <==> i in m.Keys))
    && (forall j :: 0 <= j < f2.Length ==> (f2[j] <==> j in m.Values))
  }

  /** The inner loop: the leftmost free partner of i inside the window, or |r2|. */
  method FindPartner(r1: string, r2: string, d: nat, i: nat, f2: array<bool>, ghost taken: set<nat>) returns (j: nat)
    requires i < |r1| && f2.Length == |r2|
    requires forall q :: 0 <= q < |r2| ==> (f2[q] <==> q in taken)
    ensures j == FirstFree(r1, r2, d, i, taken, 0)
  {
    j := Max(0, i - d);
    var hi := Min(|r2|, i + d + 1);
    while j < hi
      invariant forall q: nat :: q < j && Admissible(r1, r2, d, i, q) ==> q in taken
    {
      if !f2[j] && r1[i] == r2[j] {
        return;
      }
      j := j + 1;
    }
    j := |r2|;
  }

  method SetFlags(f1: array<bool>, f2: array<bool>, i: nat, j: nat, ghost m: Matching)
    requires f1 != f2 && i < f1.Length && j < f2.Length && i !in m && Flags(f1, f2, m)
    modifies f1, f2
    ensures Flags(f1, f2, m[i := j]) && |m[i := j]| == |m| + 1
  {
    FlagPair(m, i, j);
    f1[i] := true;
    f2[j] := true;
  }

  lemma FlagsAtFirst(f1: array<bool>, f2: array<bool>)
    requires forall i :: 0 <= i < f1.Length ==> !f1[i]
    requires forall j :: 0 <= j < f2.Length ==> !f2[j]
    ensures Flags(f1, f2, map[])
  {
  }

  lemma FlagsMean(f1: array<bool>, f2: array<bool>, m: Matching)
    requires Flags(f1, f2, m)
    ensures forall j :: 0 <= j < f2.Length ==> (f2[j] <==> j in m.Values)
  {
  }

  lemma GreedyNext(r1: string, r2: string, d: nat, i: nat)
    requires i < |r1|
    ensures var m := Greedy(r1, r2, d, i);
            var j := FirstFree(r1, r2, d, i, m.Values, 0);
            Greedy(r1, r2, d, i + 1) == if j == |r2| then m else m[i := j]
  {
  }

  /** One round of the outer loop. */
  method ScanPosition(r1: string, r2: string, d: nat, i: nat, f1: array<bool>, f2: array<bool>) returns (found: bool)
    requires f1.Length == |r1| && f2.Length == |r2| && f1 != f2 && i < |r1|
    requires Flags(f1, f2, Greedy(r1, r2, d, i))
    modifies f1, f2
    ensures Flags(f1, f2, Greedy(r1, r2, d, i + 1))
    ensures |Greedy(r1, r2, d, i + 1)| == |Greedy(r1, r2, d, i)| + if found then 1 else 0
  {
    hide FirstFree, Admissible, Flags, Greedy, IsMatching, StableUpTo;
    ghost var m := Greedy(r1, r2, d, i);
    GreedyStableUpTo(r1, r2, d, i);
    GreedyNext(r1, r2, d, i);
    FlagsMean(f1, f2, m);
    var j := FindPartner(r1, r2, d, i, f2, m.Values);
    found := j < |r2|;
    if found { SetFlags(f1, f2, i, j, m); }
  }

  method FlagMatches(r1: string, r2: string, d: nat, f1: array<bool>, f2: array<bool>) returns (matches: nat)
    requires f1.Length == |r1| && f2.Length == |r2| && f1 != f2
    requires forall i :: 0 <= i < f1.Length ==> !f1[i]
    requires forall j :: 0 <= j < f2.Length ==> !f2[j]
    modifies f1, f2
    ensures Flags(f1, f2, Greedy(r1, r2, d, |r1|))
    ensures matches == |Greedy(r1, r2, d, |r1|)|
  {
    FlagsAtFirst(f1, f2);
    assert Greedy(r1, r2, d, 0) == map[];
    hide Greedy, Flags;
    matches := 0;
    for i := 0 to |r1|
      invariant Flags(f1, f2, Greedy(r1, r2, d, i))
      invariant matches == |Greedy(r1, r2, d, i)|
    {
      var found := ScanPosition(r1, r2, d, i, f1, f2);
      if found { matches := matches + 1; }
    }
  }

  lemma FlagPair(m: Matching, i: nat, j: nat)
    requires i !in m
    ensures var x := m[i := j]; |x| == |m| + 1 && x.Keys == m.Keys + {i} && x.Values == m.Values + {j}
  {
    var x := m[i := j];
    assert x.Keys == m.Keys + {i};
    assert |x.Keys| == |x| && |m.Keys| == |m|;
    ValuesExtended(m, i, j);
  }

  lemma ValuesExtended(m: Matching, i: nat, j: nat)
    requires i !in m
    ensures m[i := j].Values == m.Values + {j}
  {
    var x := m[i := j];
    forall v | v in m.Values ensures v in x.Values {
      var k :| k in m && m[k] == v;
      assert x[k] == v;
    }
    assert x[i] == j;
  }

  lemma {:induction false} KeptPrefix(r: string, flagged: set<nat>, k: nat, n: nat)
    requires k <= n <= |r|
    ensures Kept(r, flagged, k) <= Kept(r, flagged, n)
  {
    if k < n { KeptPrefix(r, flagged, k, n - 1); }
  }

  lemma MismatchesSnoc(a: string, b: string, x: char, y: char)
    requires |a| == |b|
    ensures Mismatches(a + [x], b + [y]) == Mismatches(a, b) + if x != y then 1 else 0
  {
    assert (a + [x])[..|a|] == a && (b + [y])[..|b|] == b;
  }

  /** The second cursor moves to the next flag. It cannot run off the array while a kept character is left. */
  method NextFlag(r: string, f: array<bool>, k: nat, ghost flagged: set<nat>) returns (n: nat)
    requires f.Length == |r| && k <= |r|
    requires forall q :: 0 <= q < |r| ==> (f[q] <==> q in flagged)
    requires |Kept(r, flagged, k)| < |Kept(r, flagged, |r|)|
    ensures k <= n < |r| && n in flagged
    ensures Kept(r, flagged, n) == Kept(r, flagged, k)
  {
    n := k;
    while !f[n]
      invariant k <= n < |r|
      invariant Kept(r, flagged, n) == Kept(r, flagged, k)
      decreases |r| - n
    {
      n := n + 1;
    }
  }

  method CountTranspositions(r1: string, r2: string, f1: array<bool>, f2: array<bool>, ghost m: Matching)
    returns (t: nat)
    requires f1.Length == |r1| && f2.Length == |r2| && Flags(f1, f2, m)
    requires |Kept(r1, m.Keys, |r1|)| == |Kept(r2, m.Values, |r2|)|
    ensures t == Mismatches(Kept(r1, m.Keys, |r1|), Kept(r2, m.Values, |r2|))
  {
    ghost var keys, values := m.Keys, m.Values;
    t := 0;
    var k := 0;
    for i := 0 to |r1|
      invariant k <= |r2|
      invariant |Kept(r1, keys, i)| == |Kept(r2, values, k)|
      invariant t == Mismatches(Kept(r1, keys, i), Kept(r2, values, k))
    {
      if f1[i] {
        KeptPrefix(r1, keys, i + 1, |r1|);
        k := NextFlag(r2, f2, k, values);
        MismatchesSnoc(Kept(r1, keys, i), Kept(r2, values, k), r1[i], r2[k]);
        assert Kept(r1, keys, i + 1) == Kept(r1, keys, i) + [r1[i]];
        assert Kept(r2, values, k + 1) == Kept(r2, values, k) + [r2[k]];
        if r1[i] != r2[k] { t := t + 1; }
        k := k + 1;
      } else {
        assert Kept(r1, keys, i + 1) == Kept(r1, keys, i);
      }
    }
    KeptPrefix(r2, values, k, |r2|);
    assert Kept(r2, values, k) == Kept(r2, values, |r2|);
  }

  method JaroSimilarity(s1: string, s2: string) returns (score: real)
    ensures score == Jaro(s1, s2)
  {
    hide Greedy, Kept, Mismatches;
    if s1 == s2 { return 1.0; }
    if |s1| == 0 || |s2| == 0 { return 0.0; }
    var d := Max(|s1|, |s2|) / 2 - 1;
    if d < 0 { d := 0; }
    var f1 := new bool[|s1|](_ => false);
    var f2 := new bool[|s2|](_ => false);
    var matches := FlagMatches(s1, s2, d, f1, f2);
    if matches == 0 { return 0.0; }
    KeptBalanced(s1, s2, d);
    var transpositions := CountTranspositions(s1, s2, f1, f2, Greedy(s1, s2, d, |s1|));
    score := Formula(matches, transpositions, |s1|, |s2|);
  }

  // ----- the Winkler prefix, on UTF-8 bytes

  function EncodeRune(c: char): (b: seq<nat>)
    ensures |b| > 0
  {
    var n := c as int;
    if n < 0x80 then [n]
    else if n < 0x800 then [0xC0 + n / 0x40, 0x80 + n % 0x40]
    else if n < 0x1_0000 then [0xE0 + n / 0x1000, 0x80 + n / 0x40 % 0x40, 0x80 + n % 0x40]
    else [0xF0 + n / 0x4_0000, 0x80 + n / 0x1000 % 0x40, 0x80 + n / 0x40 % 0x40, 0x80 + n % 0x40]
  }

  /** The bytes carry the code point, and the first one says how many there are. */
  lemma RuneDecodes(c: char)
    ensures var b, n := EncodeRune(c), c as int;
            match |b|
            case 1 => b[0] == n && b[0] < 0x80
            case 2 => (b[0] - 0xC0) * 0x40 + (b[1] - 0x80) == n && 0xC0 <= b[0] < 0xE0
            case 3 => ((b[0] - 0xE0) * 0x40 + (b[1] - 0x80)) * 0x40 + (b[2] - 0x80) == n && 0xE0 <= b[0] < 0xF0
            case _ => |b| == 4 && 0xF0 <= b[0] < 0xF8
                      && (((b[0] - 0xF0) * 0x40 + (b[1] - 0x80)) * 0x40 + (b[2] - 0x80)) * 0x40 + (b[3] - 0x80) == n
  {
    var n := c as int;
    DivideTwice(n);
    var a := n / 0x40;
    assert n == a * 0x40 + n % 0x40 && a == a / 0x40 * 0x40 + a % 0x40;
    assert a / 0x40 == a / 0x40 / 0x40 * 0x40 + a / 0x40 % 0x40;
  }

  /** A text is encoded rune by rune, in order. */
  lemma {:induction false} Utf8Concat(s: string, t: string)
    ensures Utf8(s + t) == Utf8(s) + Utf8(t)
    ensures forall c: char :: Utf8([c]) == EncodeRune(c)
  {
    forall c: char ensures Utf8([c]) == EncodeRune(c) { assert [c][1..] == ""; }
    hide EncodeRune;
    if s == "" {
      assert s + t == t;
    } else {
      assert (s + t)[0] == s[0] && (s + t)[1..] == s[1..] + t;
      Utf8Concat(s[1..], t);
    }
  }

  lemma DivideTwice(n: nat)
    ensures n / 0x1000 == n / 0x40 / 0x40 && n / 0x4_0000 == n / 0x40 / 0x40 / 0x40
  {
  }

  function Utf8(s: string): (b: seq<nat>)
    ensures |b| >= |s|
  {
    if s == "" then [] else EncodeRune(s[0]) + Utf8(s[1..])
  }

  /** How many leading bytes agree, counting at most n of them. */
  function AgreeingBytes(b1: seq<nat>, b2: seq<nat>, n: nat): (p: nat)
    requires n <= |b1| && n <= |b2|
    ensures p <= n && forall i :: 0 <= i < p ==> b1[i] == b2[i]
    ensures p < n ==> b1[p] != b2[p]
  {
    if n == 0 then 0
    else
      var p := AgreeingBytes(b1, b2, n - 1);
      if p == n - 1 && b1[p] == b2[p] then n else p
  }

  function PrefixLength(s1: string, s2: string): (p: nat)
    ensures p <= 4 && p <= |s1| && p <= |s2|
  {
    AgreeingBytes(Utf8(s1), Utf8(s2), Min(Min(|s1|, |s2|), 4))
  }

  lemma AgreeingBytesSymmetric(b1: seq<nat>, b2: seq<nat>, n: nat)
    requires n <= |b1| && n <= |b2|
    ensures AgreeingBytes(b1, b2, n) == AgreeingBytes(b2, b1, n)
  {
  }

  lemma PrefixLengthSymmetric(s1: string, s2: string)
    ensures PrefixLength(s1, s2) == PrefixLength(s2, s1)
  {
    AgreeingBytesSymmetric(Utf8(s1), Utf8(s2), Min(Min(|s1|, |s2|), 4));
  }

  /** strings.ToLower, for a given rune mapping. */
  function Lower(lower: char -> char, s: string): (t: string)
    ensures |t| == |s|
  {
    seq(|s|, i requires 0 <= i < |s| => lower(s[i]))
  }

  /** The Winkler modification. */
  function Boost(jaro: real, prefixLen: nat): real
  {
    jaro + prefixLen as real * 0.1 * (1.0 - jaro)
  }

  lemma BoostBounds(jaro: real, p: nat)
    requires 0.0 <= jaro <= 1.0 && p <= 4
    ensures 0.0 <= Boost(jaro, p) <= 1.0
    ensures Boost(jaro, p) == 1.0 <==> jaro == 1.0
  {
    // one case per prefix length keeps the arithmetic linear
    assert p == 0 ==> Boost(jaro, p) == jaro;
    assert p == 1 ==> Boost(jaro, p) == 0.9 * jaro + 0.1;
    assert p == 2 ==> Boost(jaro, p) == 0.8 * jaro + 0.2;
    assert p == 3 ==> Boost(jaro, p) == 0.7 * jaro + 0.3;
    assert p == 4 ==> Boost(jaro, p) == 0.6 * jaro + 0.4;
  }

  function Similarity(lower: char -> char, s1: string, s2: string): real
  {
    var t1, t2 := Lower(lower, s1), Lower(lower, s2);
    Boost(Jaro(t1, t2), PrefixLength(t1, t2))
  }

  /** The similarity lies in [0,1], is 1 exactly for strings that agree after lowercasing, and is symmetric. */
  lemma SimilarityLaws(lower: char -> char, s1: string, s2: string)
    ensures 0.0 <= Similarity(lower, s1, s2) <= 1.0
    ensures Similarity(lower, s1, s2) == 1.0 <==> Lower(lower, s1) == Lower(lower, s2)
    ensures Lower(lower, s1) == Lower(lower, s2) <==>
              |s1| == |s2| && forall i :: 0 <= i < |s1| ==> lower(s1[i]) == lower(s2[i])
    ensures Similarity(lower, s1, s2) == Similarity(lower, s2, s1)
  {
    var t1, t2 := Lower(lower, s1), Lower(lower, s2);
    JaroRange(t1, t2);
    JaroSymmetric(t1, t2);
    PrefixLengthSymmetric(t1, t2);
    if t1 == t2 { assert forall i :: 0 <= i < |s1| ==> t1[i] == lower(s1[i]) && t2[i] == lower(s2[i]); }
    BoostBounds(Jaro(t1, t2), PrefixLength(t1, t2));
  }

  /** p is how many leading bytes agree, counting at most four and at most the runes of either string. */
  ghost predicate LeadingBytes(t1: string, t2: string, p: nat)
  {
    var b1, b2 := Utf8(t1), Utf8(t2);
    && p <= 4 && p <= |t1| && p <= |t2| && b1[..p] == b2[..p]
    && (p == 4 || p == |t1| || p == |t2| || b1[p] != b2[p])
  }

  /** The similarity is the Jaro score of the lowercased strings plus a tenth of what it lacks for each leading byte. */
  lemma SimilarityWritten(lower: char -> char, s1: string, s2: string, p: nat)
    requires LeadingBytes(Lower(lower, s1), Lower(lower, s2), p)
    ensures var j := Jaro(Lower(lower, s1), Lower(lower, s2));
            10.0 * Similarity(lower, s1, s2) == 10.0 * j + p as real * (1.0 - j)
  {
    hide Jaro, Utf8;
    var t1, t2 := Lower(lower, s1), Lower(lower, s2);
    LeadingBytesUnique(t1, t2, p);
    var j := Jaro(t1, t2);
    assert p as real * 0.1 * (1.0 - j) * 10.0 == p as real * (1.0 - j);
  }

  lemma LeadingBytesUnique(t1: string, t2: string, p: nat)
    ensures LeadingBytes(t1, t2, p) <==> p == PrefixLength(t1, t2)
  {
    hide Utf8;
    var b1, b2, q := Utf8(t1), Utf8(t2), PrefixLength(t1, t2);
    assert b1[..q] == b2[..q];
    if LeadingBytes(t1, t2, p) { SamePrefix(b1, b2, p); }
  }

  lemma SamePrefix(b1: seq<nat>, b2: seq<nat>, p: nat)
    requires p <= |b1| && p <= |b2| && b1[..p] == b2[..p]
    ensures forall i :: 0 <= i < p ==> b1[i] == b2[i]
  {
    forall i | 0 <= i < p ensures b1[i] == b2[i] {
      assert b1[..p][i] == b2[..p][i];
    }
  }

  method ComputeSimilarity(lower: char -> char, s1: string, s2: string) returns (score: real)
    ensures score == Similarity(lower, s1, s2)
  {
    var t1, t2 := Lower(lower, s1), Lower(lower, s2);
    var jaro := JaroSimilarity(t1, t2);
    var prefixLen := CommonPrefix(Utf8(t1), Utf8(t2), Min(Min(|t1|, |t2|), 4));
    score := Boost(jaro, prefixLen);
  }

  method CommonPrefix(b1: seq<nat>, b2: seq<nat>, n: nat) returns (prefixLen: nat)
    requires n <= |b1| && n <= |b2|
    ensures prefixLen == AgreeingBytes(b1, b2, n)
  {
    prefixLen := 0;
    for i := 0 to n
      invariant prefixLen == i
      invariant forall k :: 0 <= k < i ==> b1[k] == b2[k]
    {
      if b1[i] != b2[i] { return; }
      prefixLen := i + 1;
    }
  }
}
