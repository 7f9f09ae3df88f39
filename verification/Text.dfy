/** The string operations of Go's standard library that the modelled code relies on. */
module Text {

  datatype Option<+T> = None | Some(value: T)

  /** Unicode White_Space, as unicode.IsSpace defines it. */
  predicate IsSpace(c: char)
  {
    var n := c as int;
    || 9 <= n <= 13 || n == 32 || n == 0x85 || n == 0xA0 || n == 0x1680
    || 0x2000 <= n <= 0x200A || n == 0x2028 || n == 0x2029 || n == 0x202F || n == 0x205F || n == 0x3000
  }

  function TrimLeft(s: string): string
  {
    if s != "" && IsSpace(s[0]) then TrimLeft(s[1..]) else s
  }

  function TrimRight(s: string): string
  {
    if s != "" && IsSpace(s[|s| - 1]) then TrimRight(s[..|s| - 1]) else s
  }

  /** strings.TrimSpace */
  function TrimSpace(s: string): string
  {
    TrimRight(TrimLeft(s))
  }

  lemma {:induction false} TrimLeftStops(s: string)
    ensures TrimLeft(s) != "" ==> !IsSpace(TrimLeft(s)[0])
  {
    if s != "" && IsSpace(s[0]) { TrimLeftStops(s[1..]); }
  }

  lemma {:induction false} TrimRightStops(s: string)
    ensures TrimRight(s) <= s && (TrimRight(s) != "" ==> !IsSpace(TrimRight(s)[|TrimRight(s)| - 1]))
  {
    if s != "" && IsSpace(s[|s| - 1]) { TrimRightStops(s[..|s| - 1]); }
  }

  /** Trimming a second time changes nothing. */
  lemma TrimSpaceTwice(s: string)
    ensures TrimSpace(TrimSpace(s)) == TrimSpace(s)
  {
    hide IsSpace;
    TrimLeftStops(s);
    TrimRightStops(TrimLeft(s));
  }

  /** The White_Space characters of Unicode, one by one. */
  const WHITE: set<char> :=
    {'\t', '\n', '\U{000B}', '\U{000C}', '\r', ' ', '\U{0085}', '\U{00A0}', '\U{1680}', '\U{2000}', '\U{2001}',
     '\U{2002}', '\U{2003}', '\U{2004}', '\U{2005}', '\U{2006}', '\U{2007}', '\U{2008}', '\U{2009}', '\U{200A}',
     '\U{2028}', '\U{2029}', '\U{202F}', '\U{205F}', '\U{3000}'}

  lemma SpacesListed(c: char)
    ensures IsSpace(c) <==> c in WHITE
  {
  }

  /** t stands in s between white space and neither starts nor ends with any. */
  ghost predicate Surrounded(s: string, t: string, before: string, after: string)
  {
    && s == before + t + after
    && (forall c :: c in before + after ==> c in WHITE)
    && (t != "" ==> t[0] !in WHITE && t[|t| - 1] !in WHITE)
  }

  lemma {:induction false} TrimLeftSplits(s: string) returns (before: string)
    ensures s == before + TrimLeft(s) && forall c :: c in before ==> IsSpace(c)
  {
    before := "";
    if s != "" && IsSpace(s[0]) {
      var rest := TrimLeftSplits(s[1..]);
      before := [s[0]] + rest;
    }
  }

  lemma {:induction false} TrimRightSplits(s: string) returns (after: string)
    ensures s == TrimRight(s) + after && forall c :: c in after ==> IsSpace(c)
  {
    after := "";
    if s != "" && IsSpace(s[|s| - 1]) {
      var rest := TrimRightSplits(s[..|s| - 1]);
      after := rest + [s[|s| - 1]];
    }
  }

  lemma {:induction false} TrimLeftDrops(before: string, s: string)
    requires forall c :: c in before ==> IsSpace(c)
    ensures TrimLeft(before + s) == TrimLeft(s)
  {
    hide IsSpace;
    if before == "" {
      assert before + s == s;
    } else {
      assert before[0] in before && (before + s)[1..] == before[1..] + s;
      TrimLeftDrops(before[1..], s);
    }
  }

  lemma {:induction false} TrimRightDrops(s: string, after: string)
    requires forall c :: c in after ==> IsSpace(c)
    ensures TrimRight(s + after) == TrimRight(s)
  {
    hide IsSpace;
    if after == "" {
      assert s + after == s;
    } else {
      var n := |after| - 1;
      assert after[n] in after && (s + after)[..|s + after| - 1] == s + after[..n];
      TrimRightDrops(s, after[..n]);
    }
  }

  lemma TrimsTo(s: string, t: string, before: string, after: string)
    requires Surrounded(s, t, before, after)
    ensures TrimSpace(s) == t
  {
    hide IsSpace;
    forall c { SpacesListed(c); }
    assert s == before + (t + after);
    TrimLeftDrops(before, t + after);
    if t == "" {
      TrimLeftDrops(after, "");
      assert t + after == after + "" && TrimLeft("") == "";
    } else {
      assert (t + after)[0] == t[0];
      TrimRightDrops(t, after);
    }
  }

  /** Trimming removes the white space around a text and nothing else. */
  lemma TrimSpaceIff(s: string, t: string)
    ensures TrimSpace(s) == t <==> exists before, after :: Surrounded(s, t, before, after)
  {
    hide IsSpace;
    forall c { SpacesListed(c); }
    var before := TrimLeftSplits(s);
    var after := TrimRightSplits(TrimLeft(s));
    TrimLeftStops(s);
    TrimRightStops(TrimLeft(s));
    if TrimSpace(s) == t {
      assert Surrounded(s, t, before, after);
    }
    forall b, a | Surrounded(s, t, b, a) ensures TrimSpace(s) == t { TrimsTo(s, t, b, a); }
  }

  predicate OccursAt(s: string, sub: string, i: nat)
  {
    i + |sub| <= |s| && s[i..i + |sub|] == sub
  }

  /** strings.Contains */
  predicate Contains(s: string, sub: string)
  {
    exists i :: 0 <= i <= |s| && OccursAt(s, sub, i)
  }

  predicate IsDigit(c: char)
  {
    '0' <= c <= '9'
  }
}
