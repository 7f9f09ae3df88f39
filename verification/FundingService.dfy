/** The funding service below the importer: what it refuses, and in which form it stores what it accepts. */
module FundingService {
  import opened Text
  import opened PropertyKey

  // ----- properties

  predicate Trimmed(p: Property)
  {
    TrimSpace(p.key) == p.key && TrimSpace(p.value) == p.value
  }

  /** Content as it is stored. */
  function Settled(c: Content): Content
  {
    c.(labelText := TrimSpace(c.labelText), comment := TrimSpace(c.comment))
  }

  function Settle(p: Property): (r: Property)
    ensures MatchKey(r) == MatchKey(p)
  {
    p.(content := Settled(p.content))
  }

  /** A property as CreateProperty stores it. */
  function StoredAs(p: Property): Property
  {
    Property(TrimSpace(p.key), TrimSpace(p.value), p.minAge, p.maxAge, Settled(p.content))
  }

  lemma SettledTwice(c: Content)
    ensures Settled(Settled(c)) == Settled(c)
  {
    hide TrimSpace;
    TrimSpaceTwice(c.labelText);
    TrimSpaceTwice(c.comment);
  }

  /** Both ages are given and the lower one is not below the upper one. */
  predicate AgesTouch(p: Property)
  {
    p.minAge.Some? && p.maxAge.Some? && p.minAge.value >= p.maxAge.value
  }

  /** CreateProperty refuses inverted ages, a blank key and a blank value. */
  predicate CreateAccepted(p: Property)
  {
    && !(p.minAge.Some? && p.maxAge.Some? && p.minAge.value > p.maxAge.value)
    && TrimSpace(p.key) != "" && TrimSpace(p.value) != ""
  }

  /** UpdateProperty, which keeps key, value and ages of p, refuses a blank label and also equal ages. */
  predicate UpdateAccepted(p: Property, c: Content)
  {
    TrimSpace(c.labelText) != "" && !AgesTouch(p)
  }

  // ----- periods

  /** Days. */
  type Date = int

  /** A period without an end is open. */
  datatype Span = Span(from: Date, to: Option<Date>)

  /** periodsOverlap */
  predicate Overlap(a: Span, b: Span)
  {
    if a.to.Some? && a.to.value < b.from then false
    else if b.to.Some? && b.to.value < a.from then false
    else true
  }

  /** Two periods that do not end before they start overlap if and only if they share a day. */
  lemma OverlapMeansDay(a: Span, b: Span)
    requires (a.to.Some? ==> a.from <= a.to.value) && (b.to.Some? ==> b.from <= b.to.value)
    ensures Overlap(a, b) <==> exists day :: Covers(a, day) && Covers(b, day)
  {
    if Overlap(a, b) {
      var day := if a.from < b.from then b.from else a.from;
      assert Covers(a, day) && Covers(b, day);
    }
  }

  predicate Covers(a: Span, day: Date)
  {
    a.from <= day && (a.to.Some? ==> day <= a.to.value)
  }

  /** What a period carries besides its start and its properties. */
  datatype Meta = Meta(to: Option<Date>, hours: real, comment: string, requiredKeys: seq<string>)

  /** The trimmed keys that are not blank, each at its first occurrence. */
  function Normalized(keys: seq<string>): seq<string>
  {
    if keys == [] then []
    else
      var rest, k := Normalized(keys[..|keys| - 1]), TrimSpace(keys[|keys| - 1]);
      if k == "" || k in rest then rest else rest + [k]
  }

  /** Every key is trimmed and not blank, and none is repeated. */
  ghost predicate Normal(keys: seq<string>)
  {
    && (forall k :: k in keys ==> k != "" && TrimSpace(k) == k)
    && (forall i, j :: 0 <= i < j < |keys| ==> keys[i] != keys[j])
  }

  /** The result is normal and holds exactly the trimmed keys that are not blank. */
  lemma {:induction false} NormalizedIsNormal(keys: seq<string>)
    ensures Normal(Normalized(keys))
    ensures forall k :: k in Normalized(keys) <==> k != "" && exists i :: 0 <= i < |keys| && TrimSpace(keys[i]) == k
  {
    hide TrimSpace;
    if keys != [] {
      var n := |keys| - 1;
      NormalizedIsNormal(keys[..n]);
      TrimSpaceTwice(keys[n]);
      forall k ensures k in Normalized(keys) <==> k != "" && exists i :: 0 <= i < |keys| && TrimSpace(keys[i]) == k {
        if k != "" && exists i :: 0 <= i < |keys| && TrimSpace(keys[i]) == k {
          var i :| 0 <= i < |keys| && TrimSpace(keys[i]) == k;
          if i < n { assert keys[..n][i] == keys[i]; }
        }
      }
    }
  }

  /** The keys keep the order of their first occurrences. */
  lemma {:induction false} NormalizedInOrder(keys: seq<string>) returns (at: seq<nat>)
    ensures |at| == |Normalized(keys)| && forall x, y :: 0 <= x < y < |at| ==> at[x] < at[y]
    ensures forall x :: 0 <= x < |at| ==>
              && at[x] < |keys| && TrimSpace(keys[at[x]]) == Normalized(keys)[x]
              && forall i :: 0 <= i < at[x] ==> TrimSpace(keys[i]) != Normalized(keys)[x]
  {
    hide TrimSpace;
    if keys == [] {
      at := [];
    } else {
      var n := |keys| - 1;
      var before := NormalizedInOrder(keys[..n]);
      var rest, k := Normalized(keys[..n]), TrimSpace(keys[n]);
      NormalizedIsNormal(keys[..n]);
      at := before + if k == "" || k in rest then [] else [n];
      forall x | 0 <= x < |at|
        ensures at[x] < |keys| && TrimSpace(keys[at[x]]) == Normalized(keys)[x]
        ensures forall i :: 0 <= i < at[x] ==> TrimSpace(keys[i]) != Normalized(keys)[x]
      {
        assert forall i :: 0 <= i < n ==> keys[..n][i] == keys[i];
      }
    }
  }

  /** Normal lists are exactly those that normalising leaves alone, so it is idempotent. */
  lemma NormalIffUnchanged(keys: seq<string>)
    ensures Normal(keys) <==> Normalized(keys) == keys
  {
    hide TrimSpace;
    NormalizedIsNormal(keys);
    if Normal(keys) { NormalUnchanged(keys); }
  }

  lemma {:induction false} NormalUnchanged(keys: seq<string>)
    requires Normal(keys)
    ensures Normalized(keys) == keys
  {
    hide TrimSpace;
    if keys != [] {
      var n := |keys| - 1;
      assert forall k :: k in keys[..n] ==> k in keys;
      NormalUnchanged(keys[..n]);
      assert keys[n] in keys && keys[n] !in keys[..n];
      assert keys == keys[..n] + [keys[n]];
    }
  }

  method NormalizeRequiredKeys(keys: seq<string>) returns (out: seq<string>)
    ensures out == Normalized(keys)
  {
    out := [];
    var seen: set<string> := {};
    for i := 0 to |keys|
      invariant out == Normalized(keys[..i])
      invariant forall k :: k in seen <==> k in out
    {
      assert keys[..i + 1][..i] == keys[..i];
      var k := TrimSpace(keys[i]);
      if k == "" || k in seen { continue; }
      seen := seen + {k};
      out := out + [k];
    }
    assert keys[..|keys|] == keys;
  }

  /** Metadata as it is stored. */
  function SettledMeta(m: Meta): Meta
  {
    m.(comment := TrimSpace(m.comment), requiredKeys := Normalized(m.requiredKeys))
  }

  lemma SettledMetaTwice(m: Meta)
    ensures SettledMeta(SettledMeta(m)) == SettledMeta(m)
  {
    hide TrimSpace, Normalized;
    TrimSpaceTwice(m.comment);
    NormalizedIsNormal(m.requiredKeys);
    NormalIffUnchanged(Normalized(m.requiredKeys));
  }
}
