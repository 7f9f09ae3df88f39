/** Funding properties, and the composite string that identifies one of them within a period. */
module PropertyKey {
  import opened Text
  import opened Numbers

  /** What an import may change about a property. */
  datatype Content = Content(labelText: string, payment: int, requirement: real, comment: string, applyToAll: bool)

  datatype Property = Property(key: string, value: string, minAge: Option<int>, maxAge: Option<int>, content: Content)

  predicate SameIdentity(p: Property, q: Property)
  {
    p.key == q.key && p.value == q.value && p.minAge == q.minAge && p.maxAge == q.maxAge
  }

  // ----- the key

  function AgeOr(age: Option<int>): int
  {
    if age.Some? then age.value else -1
  }

  function MatchKey(p: Property): string
  {
    p.key + "|" + (p.value + "|" + (Itoa(AgeOr(p.minAge)) + "|" + Itoa(AgeOr(p.maxAge))))
  }

  /** A key without the separator, and no age that prints like a missing one. */
  predicate Clean(p: Property)
  {
    '|' !in p.key && p.minAge != Some(-1) && p.maxAge != Some(-1)
  }

  lemma SplitAtFirst(a: string, x: string, b: string, y: string)
    requires a + "|" + x == b + "|" + y && '|' !in a && '|' !in b
    ensures a == b && x == y
  {
    var s := a + "|" + x;
    assert s[|a|] == '|' && s[|b|] == '|';
    assert forall i :: 0 <= i < |a| ==> s[i] == a[i];
    assert forall i :: 0 <= i < |b| ==> s[i] == b[i];
    assert s[..|a|] == a && s[..|b|] == b;
    assert s[|a| + 1..] == x && s[|b| + 1..] == y;
  }

  lemma SplitAtLast(x: string, a: string, y: string, b: string)
    requires x + "|" + a == y + "|" + b && '|' !in a && '|' !in b
    ensures x == y && a == b
  {
    var s := x + "|" + a;
    assert s[|x|] == '|' && s[|y|] == '|';
    assert forall i :: |x| < i < |s| ==> s[i] == a[i - |x| - 1];
    assert forall i :: |y| < i < |s| ==> s[i] == b[i - |y| - 1];
    assert s[..|x|] == x && s[..|y|] == y;
    assert s[|x| + 1..] == a && s[|y| + 1..] == b;
  }

  /** Clean properties with the same composite key are the same property; values may contain the separator. */
  lemma MatchKeyInjective(p: Property, q: Property)
    requires Clean(p) && Clean(q)
    ensures MatchKey(p) == MatchKey(q) <==> SameIdentity(p, q)
  {
    if MatchKey(p) == MatchKey(q) {
      var pl, ph, ql, qh := Itoa(AgeOr(p.minAge)), Itoa(AgeOr(p.maxAge)), Itoa(AgeOr(q.minAge)), Itoa(AgeOr(q.maxAge));
      ItoaShape(AgeOr(p.minAge));
      ItoaShape(AgeOr(p.maxAge));
      ItoaShape(AgeOr(q.minAge));
      ItoaShape(AgeOr(q.maxAge));
      SplitAtFirst(p.key, p.value + "|" + (pl + "|" + ph), q.key, q.value + "|" + (ql + "|" + qh));
      assert p.value + "|" + (pl + "|" + ph) == (p.value + "|" + pl) + "|" + ph;
      assert q.value + "|" + (ql + "|" + qh) == (q.value + "|" + ql) + "|" + qh;
      SplitAtLast(p.value + "|" + pl, ph, q.value + "|" + ql, qh);
      SplitAtLast(p.value, pl, q.value, ql);
      ItoaInjective(AgeOr(p.minAge), AgeOr(q.minAge));
      ItoaInjective(AgeOr(p.maxAge), AgeOr(q.maxAge));
    }
  }

  // ----- what a key says about a property that is not clean

  function FirstBar(s: string): (i: nat)
    ensures i <= |s| && (i < |s| ==> s[i] == '|') && '|' !in s[..i]
  {
    if s == "" || s[0] == '|' then 0
    else
      assert s[..FirstBar(s[1..]) + 1] == [s[0]] + s[1..][..FirstBar(s[1..])];
      FirstBar(s[1..]) + 1
  }

  function CleanedAge(age: Option<int>): Option<int>
  {
    if age == Some(-1) then None else age
  }

  /** The clean property with the same composite key: what follows the first separator belongs to the value. */
  function Cleaned(p: Property): Property
  {
    var i := FirstBar(p.key);
    Property(p.key[..i], if i == |p.key| then p.value else p.key[i + 1..] + "|" + p.value,
             CleanedAge(p.minAge), CleanedAge(p.maxAge), p.content)
  }

  lemma JoinedKey(a: string, b: string, value: string, rest: string)
    ensures (a + "|" + b) + "|" + (value + "|" + rest) == a + "|" + ((b + "|" + value) + "|" + rest)
  {
  }

  lemma CleanedShape(p: Property)
    ensures Clean(Cleaned(p)) && MatchKey(Cleaned(p)) == MatchKey(p)
    ensures SameIdentity(Cleaned(p), p) <==> Clean(p)
    ensures !Clean(p) ==> '|' in Cleaned(p).value || Cleaned(p).minAge.None? || Cleaned(p).maxAge.None?
  {
    hide Itoa;
    var i := FirstBar(p.key);
    assert AgeOr(CleanedAge(p.minAge)) == AgeOr(p.minAge) && AgeOr(CleanedAge(p.maxAge)) == AgeOr(p.maxAge);
    if i < |p.key| {
      assert p.key == p.key[..i] + "|" + p.key[i + 1..];
      JoinedKey(p.key[..i], p.key[i + 1..], p.value, Itoa(AgeOr(p.minAge)) + "|" + Itoa(AgeOr(p.maxAge)));
      assert Cleaned(p).value[|p.key| - i - 1] == '|';
    } else {
      assert p.key[..i] == p.key;
    }
  }

  /** Two properties share a composite key exactly when they are the same once cleaned. */
  lemma MatchKeyIff(p: Property, q: Property)
    ensures MatchKey(p) == MatchKey(q) <==> SameIdentity(Cleaned(p), Cleaned(q))
  {
    hide MatchKey, Cleaned, Clean;
    CleanedShape(p);
    CleanedShape(q);
    MatchKeyInjective(Cleaned(p), Cleaned(q));
  }

  /** A separator in the value could as well stand in the key. */
  lemma BarMoves(p: Property, i: nat)
    requires i < |p.value| && p.value[i] == '|'
    ensures var q := p.(key := p.key + "|" + p.value[..i], value := p.value[i + 1..]);
            MatchKey(p) == MatchKey(q) && !SameIdentity(p, q)
  {
    hide Itoa;
    assert p.value == p.value[..i] + "|" + p.value[i + 1..];
    JoinedKey(p.key, p.value[..i], p.value[i + 1..], Itoa(AgeOr(p.minAge)) + "|" + Itoa(AgeOr(p.maxAge)));
  }

  /** No other property has the key of p. */
  ghost predicate KeyIsUnique(p: Property)
  {
    forall q :: MatchKey(q) == MatchKey(p) ==> SameIdentity(q, p)
  }

  /**
   A property is alone with its composite key exactly when it is clean, its value is free of the separator and
   both ages are given.
   */
  lemma KeyUniqueIff(p: Property)
    ensures KeyIsUnique(p) <==> Clean(p) && '|' !in p.value && p.minAge.Some? && p.maxAge.Some?
  {
    hide MatchKey, Cleaned;
    if Clean(p) && '|' !in p.value && p.minAge.Some? && p.maxAge.Some? {
      CleanedShape(p);
      forall q | MatchKey(q) == MatchKey(p) ensures SameIdentity(q, p) {
        MatchKeyIff(q, p);
        CleanedShape(q);
      }
    } else if !Clean(p) {
      CleanedShape(p);
    } else if '|' in p.value {
      var i :| 0 <= i < |p.value| && p.value[i] == '|';
      BarMoves(p, i);
    } else {
      MissingAgePrints(p);
    }
  }

  lemma MissingAgePrints(p: Property)
    ensures p.minAge.None? ==> MatchKey(p.(minAge := Some(-1))) == MatchKey(p)
    ensures p.maxAge.None? ==> MatchKey(p.(maxAge := Some(-1))) == MatchKey(p)
  {
    hide Itoa;
  }
}
