/** Token-based name similarity: a greedy assignment of tokens by Jaro-Winkler score. */
module NameSimilarity {
  import opened Text
  import opened JaroWinkler
  import opened TokenAssignment

  // ----- tokens

  /** The leading run of characters that are not white space. */
  function Word(s: string): (w: string)
    ensures |w| <= |s| && w == s[..|w|]
    ensures forall i :: 0 <= i < |w| ==> !IsSpace(w[i])
    ensures |w| < |s| ==> IsSpace(s[|w|])
  {
    if s == "" || IsSpace(s[0]) then "" else [s[0]] + Word(s[1..])
  }

  /** strings.Fields */
  function Fields(s: string): seq<string>
    decreases |s|
  {
    if s == "" then []
    else if IsSpace(s[0]) then Fields(s[1..])
    else
      var w := Word(s);
      [w] + Fields(s[|w|..])
  }

  lemma WordConcat(a: string, c: char, b: string)
    requires a != "" && IsSpace(c)
    ensures Word(a + [c] + b) == Word(a)
  {
    var w, v := Word(a), Word(a + [c] + b);
    assert (a + [c] + b)[|a|] == c;
    assert forall i :: 0 <= i < |a| ==> (a + [c] + b)[i] == a[i];
    assert |w| < |a| ==> (a + [c] + b)[|w|] == a[|w|];
    assert |w| <= |v| && |v| <= |w|;
  }

  /** The fields of a text split at white space are the fields of its two halves. */
  lemma {:induction false} FieldsConcat(a: string, c: char, b: string)
    requires IsSpace(c)
    ensures Fields(a + [c] + b) == Fields(a) + Fields(b)
    decreases |a|
  {
    var s := a + [c] + b;
    if a == "" {
      assert s[1..] == b;
    } else if IsSpace(a[0]) {
      assert s[1..] == a[1..] + [c] + b;
      FieldsConcat(a[1..], c, b);
    } else {
      WordConcat(a, c, b);
      var n := |Word(a)|;
      assert s[n..] == a[n..] + [c] + b;
      FieldsConcat(a[n..], c, b);
    }
  }

  /** A text without white space is its only field; with FieldsConcat this fixes the fields of every text. */
  lemma FieldsOfWord(w: string)
    requires forall i :: 0 <= i < |w| ==> !IsSpace(w[i])
    ensures Fields(w) == if w == "" then [] else [w]
  {
    if w != "" {
      assert Word(w) == w && w[|w|..] == "";
    }
  }

  /** The lowercased tokens of a name. */
  function Tokens(lower: char -> char, s: string): seq<string>
  {
    Fields(Lower(lower, s))
  }

  ghost predicate Solid(w: string)
  {
    w != "" && forall i :: 0 <= i < |w| ==> !IsSpace(w[i])
  }

  lemma {:induction false} FieldsSolid(s: string, k: nat)
    requires k < |Fields(s)|
    ensures Solid(Fields(s)[k])
    decreases |s|
  {
    if IsSpace(s[0]) {
      FieldsSolid(s[1..], k);
    } else if k > 0 {
      FieldsSolid(s[|Word(s)|..], k - 1);
    }
  }

  method Tokenize(lower: char -> char, s: string) returns (result: seq<string>)
    ensures result == Tokens(lower, s)
  {
    var words := Fields(Lower(lower, s));
    result := [];
    for i := 0 to |words|
      invariant result == words[..i]
    {
      FieldsSolid(Lower(lower, s), i);
      var w := TrimSpace(words[i]);
      if w != "" { result := result + [w]; }
    }
  }

  // ----- the score, as a function

  /** Jaro-Winkler as a score of two tokens. */
  function SimOf(lower: char -> char): Sim
  {
    (a: string, b: string) => Similarity(lower, a, b)
  }

  function FoldOf(lower: char -> char): Fold
  {
    (s: string) => Lower(lower, s)
  }

  lemma SimDiscerns(lower: char -> char)
    ensures Discerning(SimOf(lower), FoldOf(lower))
  {
    forall a, b
      ensures 0.0 <= SimOf(lower)(a, b) <= 1.0
      ensures SimOf(lower)(a, b) == 1.0 <==> FoldOf(lower)(a) == FoldOf(lower)(b)
    {
      SimilarityLaws(lower, a, b);
    }
  }

  /** 40% last name, 40% token overlap, 20% length ratio. */
  function Combine(sim: Sim, sysLast: seq<string>, billLast: seq<string>, sys: seq<string>, bill: seq<string>): real
  {
    if sys == [] || bill == [] then 0.0
    else
      0.4 * TokenScore(sim, sysLast, billLast) + 0.4 * TokenScore(sim, sys, bill)
      + 0.2 * (Min(|sys|, |bill|) as real / Max(|sys|, |bill|) as real)
  }

  function Score(lower: char -> char, sysFirst: string, sysLast: string, billFirst: string, billLast: string): real
  {
    Combine(SimOf(lower), Tokens(lower, sysLast), Tokens(lower, billLast),
            Tokens(lower, sysFirst + " " + sysLast), Tokens(lower, billFirst + " " + billLast))
  }

  lemma CombineLaw(sim: Sim, fold: Fold, sysLast: seq<string>, billLast: seq<string>,
                   sys: seq<string>, bill: seq<string>)
    requires Discerning(sim, fold)
    ensures 0.0 <= Combine(sim, sysLast, billLast, sys, bill) <= 1.0
    ensures Combine(sim, sysLast, billLast, sys, bill) == 1.0 <==>
              && sys != [] && sysLast != [] && billLast != []
              && multiset(Folded(fold, sys)) == multiset(Folded(fold, bill))
              && Nested(fold, sysLast, billLast)
  {
    TokenScoreLaw(sim, fold, sysLast, billLast);
    TokenScoreLaw(sim, fold, sys, bill);
    var f, g := Folded(fold, sys), Folded(fold, bill);
    if multiset(f) <= multiset(g) { InclusionLength(f, g); }
    if multiset(g) <= multiset(f) { InclusionLength(g, f); }
    if sys != [] && bill != [] {
      RatioBounds(Min(|sys|, |bill|), Max(|sys|, |bill|));
    }
  }

  /**
   The name score lies in [0,1]. It is 1 exactly when the system name has tokens, the full token multisets
   are equal, and the last-name token multisets are non-empty and nested.
   */
  lemma ScoreLaw(lower: char -> char, sysFirst: string, sysLast: string, billFirst: string, billLast: string)
    ensures 0.0 <= Score(lower, sysFirst, sysLast, billFirst, billLast) <= 1.0
    ensures Score(lower, sysFirst, sysLast, billFirst, billLast) == 1.0 <==>
              var sys, bill := Tokens(lower, sysFirst + " " + sysLast), Tokens(lower, billFirst + " " + billLast);
              var sl, bl := Tokens(lower, sysLast), Tokens(lower, billLast);
              && sys != [] && sl != [] && bl != []
              && multiset(Folded(FoldOf(lower), sys)) == multiset(Folded(FoldOf(lower), bill))
              && Nested(FoldOf(lower), sl, bl)
  {
    SimDiscerns(lower);
    CombineLaw(SimOf(lower), FoldOf(lower), Tokens(lower, sysLast), Tokens(lower, billLast),
               Tokens(lower, sysFirst + " " + sysLast), Tokens(lower, billFirst + " " + billLast));
  }

  /** The score is 2/5 of the last-name score, 2/5 of the token score and 1/5 of the ratio of the token counts. */
  lemma ScoreWritten(lower: char -> char, sysFirst: string, sysLast: string, billFirst: string, billLast: string)
    ensures var sim := SimOf(lower);
            var sys, bill := Tokens(lower, sysFirst + " " + sysLast), Tokens(lower, billFirst + " " + billLast);
            var sl, bl := Tokens(lower, sysLast), Tokens(lower, billLast);
            var score := Score(lower, sysFirst, sysLast, billFirst, billLast);
            if sys == [] || bill == [] then score == 0.0
            else
              var ratio := if |sys| < |bill| then |sys| as real / |bill| as real else |bill| as real / |sys| as real;
              5.0 * score == 2.0 * TokenScore(sim, sl, bl) + 2.0 * TokenScore(sim, sys, bill) + ratio
  {
    hide TokenScore, Tokens, SimOf;
  }

  // ----- the loops

  method PickBest(lower: char -> char, st: string, longer: seq<string>, used: array<bool>, ghost taken: set<nat>)
    returns (bestScore: real, bestIdx: int)
    requires used.Length == |longer| && forall j :: 0 <= j < |longer| ==> (used[j] <==> j in taken)
    ensures Choice(bestScore, bestIdx) == Best(SimOf(lower), st, longer, taken, |longer|)
  {
    hide Similarity;
    bestScore, bestIdx := 0.0, -1;
    for j := 0 to |longer|
      invariant Choice(bestScore, bestIdx) == Best(SimOf(lower), st, longer, taken, j)
    {
      if !used[j] {
        var score := Compare(lower, st, longer[j]);
        if score > bestScore {
          bestScore, bestIdx := score, j;
        }
      }
    }
  }

  method Compare(lower: char -> char, s1: string, s2: string) returns (score: real)
    ensures score == SimOf(lower)(s1, s2)
  {
    score := ComputeSimilarity(lower, s1, s2);
  }

  method AssignTokens(lower: char -> char, shorter: seq<string>, longer: seq<string>) returns (total: real)
    ensures total == Assign(SimOf(lower), shorter, longer, |shorter|).total
  {
    hide SimOf, Best;
    total := 0.0;
    var used := new bool[|longer|](_ => false);
    ghost var a := Assign(SimOf(lower), shorter, longer, 0);
    for i := 0 to |shorter|
      invariant a == Assign(SimOf(lower), shorter, longer, i) && total == a.total
      invariant forall j :: 0 <= j < |longer| ==> (used[j] <==> j in a.used)
    {
      var bestScore, bestIdx := PickBest(lower, shorter[i], longer, used, a.used);
      if bestIdx >= 0 { used[bestIdx] := true; }
      total := total + bestScore;
      a := Assignment(a.total + bestScore, if bestIdx >= 0 then a.used + {bestIdx} else a.used);
    }
  }

  method BestTokenScore(lower: char -> char, set1: seq<string>, set2: seq<string>) returns (score: real)
    ensures score == TokenScore(SimOf(lower), set1, set2)
  {
    if |set1| == 0 || |set2| == 0 { return 0.0; }
    var shorter, longer := set1, set2;
    if |shorter| > |longer| { shorter, longer := longer, shorter; }
    var total := AssignTokens(lower, shorter, longer);
    score := total / |shorter| as real;
  }

  method ComputeScore(lower: char -> char, sysFirst: string, sysLast: string, billFirst: string, billLast: string)
    returns (score: real)
    ensures score == Score(lower, sysFirst, sysLast, billFirst, billLast)
  {
    var sysTokens := Tokenize(lower, sysFirst + " " + sysLast);
    var billTokens := Tokenize(lower, billFirst + " " + billLast);
    if |sysTokens| == 0 || |billTokens| == 0 { return 0.0; }
    var sysLastTokens := Tokenize(lower, sysLast);
    var billLastTokens := Tokenize(lower, billLast);
    var lastScore := BestTokenScore(lower, sysLastTokens, billLastTokens);
    var shorter, longer := sysTokens, billTokens;
    if |shorter| > |longer| { shorter, longer := longer, shorter; }
    var totalScore := AssignTokens(lower, shorter, longer);
    var tokenScore := totalScore / |shorter| as real;
    var lenRatio := |shorter| as real / |longer| as real;
    score := 0.4 * lastScore + 0.4 * tokenScore + 0.2 * lenRatio;
  }
}
