/** The sheet of manual corrections: its rows, the month span each one names, and their summary. */
module Korrektur {
  import opened Text
  import opened Decimal
  import opened Bill
  import opened Sheet

  /** One correction row; from and to are 0 when its text names no month. */
  datatype Posten = Posten(reason: string, from: Month, to: Month, summe: int)

  // ----- month tokens in free text

  predicate IsWordChar(c: char)
  {
    IsDigit(c) || 'a' <= c <= 'z' || 'A' <= c <= 'Z' || c == '_'
  }

  function DigitOf(c: char): nat
    requires IsDigit(c)
  {
    c as int - '0' as int
  }

  /** A token MM/YY starts at p, with word boundaries on both sides. */
  predicate TokenAt(s: string, p: nat)
  {
    && p + 5 <= |s|
    && IsDigit(s[p]) && IsDigit(s[p + 1]) && s[p + 2] == '/' && IsDigit(s[p + 3]) && IsDigit(s[p + 4])
    && 1 <= 10 * DigitOf(s[p]) + DigitOf(s[p + 1]) <= 12
    && (p == 0 || !IsWordChar(s[p - 1]))
    && (p + 5 == |s| || !IsWordChar(s[p + 5]))
  }

  function MonthAt(s: string, p: nat): (m: Month)
    requires TokenAt(s, p)
    ensures m > 0
  {
    MonthOf(2000 + 10 * DigitOf(s[p + 3]) + DigitOf(s[p + 4]), 10 * DigitOf(s[p]) + DigitOf(s[p + 1]))
  }

  /** The months named from position p on, left to right and not overlapping. */
  function MonthTokens(s: string, p: nat): (ms: seq<Month>)
    requires p <= |s|
    ensures forall m :: m in ms ==> m > 0
    decreases |s| - p
  {
    if p == |s| then []
    else if TokenAt(s, p) then [MonthAt(s, p)] + MonthTokens(s, p + 5)
    else MonthTokens(s, p + 1)
  }

  /** from and to are the earliest and latest of ms, or both 0 if there is none. */
  ghost predicate IsSpan(ms: seq<Month>, from: Month, to: Month)
  {
    if ms == [] then from == 0 && to == 0
    else from in ms && to in ms && forall m :: m in ms ==> from <= m <= to
  }

  function Least(ms: seq<Month>): Month
  {
    if ms == [] then 0
    else
      var rest, m := Least(ms[..|ms| - 1]), ms[|ms| - 1];
      if rest == 0 || m < rest then m else rest
  }

  function Greatest(ms: seq<Month>): Month
  {
    if ms == [] then 0
    else
      var rest, m := Greatest(ms[..|ms| - 1]), ms[|ms| - 1];
      if rest == 0 || m > rest then m else rest
  }

  lemma {:induction false} SpanIsMinMax(ms: seq<Month>)
    requires forall m :: m in ms ==> m > 0
    ensures IsSpan(ms, Least(ms), Greatest(ms))
  {
    if ms != [] {
      var n := |ms| - 1;
      assert forall m :: m in ms <==> m in ms[..n] || m == ms[n];
      SpanIsMinMax(ms[..n]);
    }
  }

  method KorrekturMonthRange(text: string) returns (from: Month, to: Month)
    ensures IsSpan(MonthTokens(text, 0), from, to) && SpanOfText(text, from, to)
    ensures from == Least(MonthTokens(text, 0)) && to == Greatest(MonthTokens(text, 0))
  {
    hide TokenAt, MonthAt, SpanOfText;
    var tokens := MonthTokens(text, 0);
    from, to := 0, 0;
    for i := 0 to |tokens|
      invariant from == Least(tokens[..i]) && to == Greatest(tokens[..i])
    {
      assert tokens[..i + 1][..i] == tokens[..i];
      var t := tokens[i];
      if from == 0 || t < from { from := t; }
      if to == 0 || t > to { to := t; }
    }
    assert tokens[..|tokens|] == tokens;
    SpanIsMinMax(tokens);
    TokensAre(text, from, to);
  }

  // ----- what the span is, on the text itself

  const DIGITS: set<char> := {'0', '1', '2', '3', '4', '5', '6', '7', '8', '9'}

  const UPPER: set<char> :=
    {'A', 'B', 'C', 'D', 'E', 'F', 'G', 'H', 'I', 'J', 'K', 'L', 'M', 'N', 'O', 'P', 'Q', 'R', 'S', 'T', 'U', 'V',
     'W', 'X', 'Y', 'Z'}

  const LOWER: set<char> :=
    {'a', 'b', 'c', 'd', 'e', 'f', 'g', 'h', 'i', 'j', 'k', 'l', 'm', 'n', 'o', 'p', 'q', 'r', 's', 't', 'u', 'v',
     'w', 'x', 'y', 'z'}

  /** Letters, digits and the underscore, which belong to a word. */
  predicate InWord(c: char)
  {
    c in DIGITS || c in UPPER || c in LOWER || c == '_'
  }

  lemma WordListed(c: char)
    ensures IsWordChar(c) <==> InWord(c)
  {
  }

  /** At p stands a month and a year as two digits each around a slash, not part of a longer word. */
  ghost predicate Names(s: string, p: nat, mm: nat, yy: nat)
  {
    && 1 <= mm <= 12 && yy <= 99 && p + 5 <= |s| && s[p..p + 5] == TwoDigits(mm) + "/" + TwoDigits(yy)
    && (p == 0 || !InWord(s[p - 1])) && (p + 5 == |s| || !InWord(s[p + 5]))
  }

  ghost predicate Occurs(s: string, p: nat)
  {
    exists mm: nat, yy: nat :: Names(s, p, mm, yy)
  }

  /** A month counts unless it shares its two digits with one that counts, three characters before. */
  ghost predicate Counts(s: string, p: nat)
  {
    Occurs(s, p) && !(p >= 3 && Counts(s, p - 3))
  }

  /** m is a month that counts at p. */
  ghost predicate CountedAt(s: string, p: nat, m: int)
  {
    Counts(s, p) && exists mm: nat, yy: nat :: Names(s, p, mm, yy) && m == 12 * (2000 + yy) + mm
  }

  ghost predicate Counted(s: string, m: int)
  {
    exists p :: CountedAt(s, p, m)
  }

  /** from and to are the earliest and the latest month that counts, or both 0. */
  ghost predicate SpanOfText(s: string, from: Month, to: Month)
  {
    if exists m :: Counted(s, m) then
      Counted(s, from) && Counted(s, to) && forall m :: Counted(s, m) ==> from <= m <= to
    else from == 0 && to == 0
  }

  lemma NamesToken(s: string, p: nat, mm: nat, yy: nat)
    requires Names(s, p, mm, yy)
    ensures TokenAt(s, p) && MonthAt(s, p) == 12 * (2000 + yy) + mm
  {
    hide IsWordChar, InWord;
    forall c { WordListed(c); }
    var t := s[p..p + 5];
    assert t[0] == s[p] && t[1] == s[p + 1] && t[2] == s[p + 2] && t[3] == s[p + 3] && t[4] == s[p + 4];
  }

  lemma TokenNames(s: string, p: nat)
    requires TokenAt(s, p)
    ensures Names(s, p, 10 * DigitOf(s[p]) + DigitOf(s[p + 1]), 10 * DigitOf(s[p + 3]) + DigitOf(s[p + 4]))
    ensures Occurs(s, p)
  {
    hide IsWordChar, InWord;
    forall c { WordListed(c); }
    var mm, yy := 10 * DigitOf(s[p]) + DigitOf(s[p + 1]), 10 * DigitOf(s[p + 3]) + DigitOf(s[p + 4]);
    assert s[p..p + 5] == [s[p], s[p + 1], s[p + 2], s[p + 3], s[p + 4]];
    assert TwoDigits(mm) == [s[p], s[p + 1]] && TwoDigits(yy) == [s[p + 3], s[p + 4]];
    assert Names(s, p, mm, yy);
  }

  lemma OccursIff(s: string, p: nat)
    ensures Occurs(s, p) <==> TokenAt(s, p)
  {
    hide Names, TokenAt;
    forall mm: nat, yy: nat | Names(s, p, mm, yy) ensures TokenAt(s, p) { NamesToken(s, p, mm, yy); }
    if TokenAt(s, p) { TokenNames(s, p); }
  }

  /** Two tokens that overlap are three characters apart. */
  lemma TokensOverlap(s: string, p: nat, q: nat)
    requires TokenAt(s, p) && TokenAt(s, q) && p < q < p + 5
    ensures q == p + 3
  {
    assert q == p + 1 || q == p + 2 || q == p + 3 || q == p + 4;
  }

  lemma CountedAtIff(s: string, p: nat, m: int)
    ensures CountedAt(s, p, m) <==> Counts(s, p) && TokenAt(s, p) && MonthAt(s, p) == m
  {
    hide Names, TokenAt, MonthAt, Counts;
    CountsOccur(s, p);
    OccursIff(s, p);
    if TokenAt(s, p) { MonthAtNames(s, p); }
    forall mm: nat, yy: nat | Names(s, p, mm, yy) ensures TokenAt(s, p) && MonthAt(s, p) == 12 * (2000 + yy) + mm {
      NamesToken(s, p, mm, yy);
    }
  }

  lemma MonthAtNames(s: string, p: nat)
    requires TokenAt(s, p)
    ensures exists mm: nat, yy: nat :: Names(s, p, mm, yy) && MonthAt(s, p) == 12 * (2000 + yy) + mm
  {
    hide Names;
    TokenNames(s, p);
  }

  lemma CountsOccur(s: string, p: nat)
    ensures Counts(s, p) ==> Occurs(s, p)
  {
    hide Occurs;
  }

  /** Nothing that counts before q reaches into what is scanned from q on. */
  ghost predicate Fresh(s: string, q: nat)
  {
    forall p: nat :: p < q && Counts(s, p) ==> p + 5 <= q
  }

  lemma FreshNext(s: string, q: nat)
    requires q < |s| && Fresh(s, q)
    ensures TokenAt(s, q) ==> Counts(s, q) && q + 5 <= |s| && Fresh(s, q + 5)
    ensures !TokenAt(s, q) ==> !Counts(s, q) && Fresh(s, q + 1)
    ensures TokenAt(s, q) ==> forall p: nat :: q < p < q + 5 ==> !Counts(s, p)
  {
    OccursIff(s, q);
    CountsOccur(s, q);
    if TokenAt(s, q) {
      assert q >= 3 && Counts(s, q - 3) ==> q - 3 + 5 <= q;
      assert Counts(s, q);
      forall p: nat | q < p < q + 5 ensures !Counts(s, p) {
        CountsOccur(s, p);
        OccursIff(s, p);
        if TokenAt(s, p) { TokensOverlap(s, q, p); }
      }
    }
  }

  /** The tokens found from a fresh position on are the months that count there. */
  lemma {:induction false} TokensCounted(s: string, q: nat, m: int)
    requires q <= |s| && Fresh(s, q)
    ensures m in MonthTokens(s, q) <==> exists p :: q <= p && CountedAt(s, p, m)
    decreases |s| - q
  {
    if q == |s| {
      forall p | q <= p ensures !CountedAt(s, p, m) { CountedAtIff(s, p, m); }
    } else {
      FreshNext(s, q);
      CountedAtIff(s, q, m);
      TokensCounted(s, if TokenAt(s, q) then q + 5 else q + 1, m);
      hide TokenAt, MonthAt, Counts, Names;
      forall p: nat | q < p && !Counts(s, p) ensures !CountedAt(s, p, m) {
        CountedAtIff(s, p, m);
      }
    }
  }

  /** The tokens of a text are exactly the months that count. */
  lemma TokensAre(s: string, from: Month, to: Month)
    ensures IsSpan(MonthTokens(s, 0), from, to) <==> SpanOfText(s, from, to)
  {
    hide MonthTokens, CountedAt, Counts;
    var ms := MonthTokens(s, 0);
    forall m: int ensures m in ms <==> Counted(s, m) {
      TokensCounted(s, 0, m);
    }
    if ms != [] { assert ms[0] in ms; }
  }

  /** For example only the first of two months that share their middle digits counts. */
  lemma SharedDigitsSkipped()
    ensures Occurs("12/11/24", 0) && Occurs("12/11/24", 3)
    ensures SpanOfText("12/11/24", 12 * 2011 + 12, 12 * 2011 + 12)
  {
    hide SpanOfText, Occurs;
    var s := "12/11/24";
    OccursIff(s, 0);
    OccursIff(s, 3);
    assert TokenAt(s, 0) && TokenAt(s, 3);
    assert MonthTokens(s, 5) == MonthTokens(s, 6) == MonthTokens(s, 7) == MonthTokens(s, 8) == [];
    assert MonthTokens(s, 0) == [MonthAt(s, 0)];
    TokensAre(s, 12 * 2011 + 12, 12 * 2011 + 12);
  }

  // ----- the summary

  const MIXED := "mixed"

  datatype Summary = Summary(from: Month, to: Month, reason: string)

  function Reasons(ps: seq<Posten>): set<string>
  {
    set p | p in ps && p.reason != "" :: p.reason
  }

  ghost function ReasonOf(reasons: set<string>): string
  {
    if reasons == {} then ""
    else if |reasons| == 1 then var r :| r in reasons; r
    else MIXED
  }

  /** The rows that name a month. */
  function Attributed(ps: seq<Posten>): set<Posten>
  {
    set p | p in ps && p.from != 0
  }

  /** from is the earliest first month and to the latest last month of the attributed rows, or both 0. */
  ghost predicate Spans(rows: set<Posten>, from: Month, to: Month)
  {
    if rows == {} then from == 0 && to == 0
    else
      && (exists p :: p in rows && p.from == from) && (forall p :: p in rows ==> from <= p.from)
      && (exists p :: p in rows && p.to == to) && (forall p :: p in rows ==> p.to <= to)
  }

  /** s summarises rows: the exact span of those that name a month, and the common reason. */
  ghost predicate Summarises(ps: seq<Posten>, s: Summary)
  {
    Spans(Attributed(ps), s.from, s.to) && s.reason == ReasonOf(Reasons(ps))
  }

  /** The summary depends on nothing but the set of rows. */
  lemma SummaryUnique(ps: seq<Posten>, qs: seq<Posten>, s: Summary, t: Summary)
    requires Summarises(ps, s) && Summarises(qs, t)
    requires forall p :: p in ps <==> p in qs
    ensures s == t
  {
    assert Attributed(ps) == Attributed(qs);
    assert Reasons(ps) == Reasons(qs);
  }

  /** Row order is irrelevant. */
  lemma OrderIrrelevant(ps: seq<Posten>, qs: seq<Posten>, s: Summary, t: Summary)
    requires Summarises(ps, s) && Summarises(qs, t) && multiset(ps) == multiset(qs)
    ensures s == t
  {
    forall p ensures p in ps <==> p in qs {
      assert p in ps <==> p in multiset(ps);
      assert p in qs <==> p in multiset(qs);
    }
    SummaryUnique(ps, qs, s, t);
  }

  /** If every row's own span is in order, so is the summary's. */
  lemma SpanNotInverted(ps: seq<Posten>, s: Summary)
    requires Summarises(ps, s) && forall p :: p in ps ==> p.from <= p.to
    ensures s.from <= s.to
  {
  }

  /** Without rows there is nothing to say. */
  lemma NothingSummarised(s: Summary)
    ensures Summarises([], s) <==> s == Summary(0, 0, "")
  {
    NothingAttributed();
    assert ReasonOf({}) == "";
  }

  /** No reason where no row has one, the common one where there is one, and "mixed" where two rows disagree. */
  lemma ReasonWritten(ps: seq<Posten>, s: Summary)
    requires Summarises(ps, s)
    ensures (forall p :: p in ps ==> p.reason == "") ==> s.reason == ""
    ensures forall p :: (p in ps && p.reason != ""
                         && forall q :: q in ps ==> q.reason == "" || q.reason == p.reason) ==> s.reason == p.reason
    ensures forall p, q :: p in ps && q in ps && p.reason != "" && q.reason != "" && p.reason != q.reason ==>
              s.reason == "mixed"
  {
    hide Spans;
    var reasons := Reasons(ps);
    if forall p :: p in ps ==> p.reason == "" { assert reasons == {}; }
    forall p | p in ps && p.reason != "" && forall q :: q in ps ==> q.reason == "" || q.reason == p.reason
      ensures s.reason == p.reason
    {
      assert reasons == {p.reason};
    }
    forall p, q | p in ps && q in ps && p.reason != "" && q.reason != "" && p.reason != q.reason
      ensures s.reason == "mixed"
    {
      assert {p.reason, q.reason} <= reasons;
      SubsetSize({p.reason, q.reason}, reasons);
    }
  }

  function JoinReason(a: string, b: string): string
  {
    if a == "" then b else if b == "" || a == b then a else MIXED
  }

  /** Two summaries put together. */
  function Join(s: Summary, t: Summary): Summary
  {
    Summary(if s.from == 0 || (t.from != 0 && t.from < s.from) then t.from else s.from,
            if s.from == 0 || (t.from != 0 && t.to > s.to) then t.to else s.to,
            JoinReason(s.reason, t.reason))
  }

  lemma ReasonMember(a: set<string>)
    requires "" !in a
    ensures ReasonOf(a) == "" <==> a == {}
    ensures |a| == 1 ==> a == {ReasonOf(a)}
    ensures |a| > 1 ==> ReasonOf(a) == MIXED
  {
    if |a| == 1 {
      var r := ReasonOf(a);
      assert r in a && |a - {r}| == 0;
    }
  }

  lemma UnionSize(a: set<string>, b: set<string>)
    requires a != {} && b != {}
    ensures |a + b| == 1 <==> |a| == 1 && a == b
    ensures |a| > 1 ==> |a + b| > 1
    ensures |b| > 1 ==> |a + b| > 1
  {
    SubsetSize(a, a + b);
    SubsetSize(b, a + b);
    if |a + b| == 1 {
      var x :| x in a;
      var y :| y in b;
      assert x in a + b && y in a + b && |a + b - {x}| == 0 && |a + b - {y}| == 0;
      assert a + b == {x} && a + b == {y};
      assert a == {x} && b == {x};
    }
    if |a| == 1 && a == b { assert a + b == a; }
  }

  lemma SubsetSize(a: set<string>, b: set<string>)
    requires a <= b
    ensures |a| <= |b|
  {
    assert b == a + (b - a);
  }

  lemma JoinReasons(a: set<string>, b: set<string>)
    requires "" !in a && "" !in b
    ensures ReasonOf(a + b) == JoinReason(ReasonOf(a), ReasonOf(b))
  {
    ReasonMember(a);
    ReasonMember(b);
    ReasonMember(a + b);
    if a == {} {
      assert a + b == b;
    } else if b == {} {
      assert a + b == a;
    } else {
      UnionSize(a, b);
    }
  }

  lemma JoinSpans(a: set<Posten>, b: set<Posten>, s: Summary, t: Summary)
    requires (forall p :: p in a + b ==> p.from != 0) && Spans(a, s.from, s.to) && Spans(b, t.from, t.to)
    ensures var j := Join(s, t); Spans(a + b, j.from, j.to)
  {
    if a == {} {
      assert a + b == b;
    } else if b == {} {
      assert a + b == a;
    } else {
      var j := Join(s, t);
      var p1 :| p1 in a && p1.from == s.from;
      var p2 :| p2 in b && p2.from == t.from;
      var q1 :| q1 in a && q1.to == s.to;
      var q2 :| q2 in b && q2.to == t.to;
      assert p1 in a + b && p2 in a + b && q1 in a + b && q2 in a + b;
    }
  }

  /** How the rows are split is irrelevant: joining the summaries of two parts summarises the whole. */
  lemma SplitIrrelevant(ps: seq<Posten>, qs: seq<Posten>, s: Summary, t: Summary)
    requires Summarises(ps, s) && Summarises(qs, t)
    ensures Summarises(ps + qs, Join(s, t))
  {
    assert Attributed(ps + qs) == Attributed(ps) + Attributed(qs);
    assert Reasons(ps + qs) == Reasons(ps) + Reasons(qs);
    JoinSpans(Attributed(ps), Attributed(qs), s, t);
    JoinReasons(Reasons(ps), Reasons(qs));
  }

  lemma NothingAttributed()
    ensures Reasons([]) == {} && Attributed([]) == {} && Spans({}, 0, 0)
  {
  }

  lemma NoEmptyReason(ps: seq<Posten>)
    ensures "" !in Reasons(ps)
  {
  }

  lemma OneMore(ps: seq<Posten>, p: Posten)
    ensures Reasons(ps + [p]) == if p.reason != "" then Reasons(ps) + {p.reason} else Reasons(ps)
    ensures Attributed(ps + [p]) == if p.from != 0 then Attributed(ps) + {p} else Attributed(ps)
    ensures forall q :: q in Attributed(ps) ==> q.from != 0
  {
  }

  lemma SpanWith(rows: set<Posten>, from: Month, to: Month, p: Posten)
    requires Spans(rows, from, to) && p.from != 0 && forall q :: q in rows ==> q.from != 0
    ensures Spans(rows + {p}, if from == 0 || p.from < from then p.from else from,
                  if to == 0 || p.to > to then p.to else to)
  {
    if rows == {} {
      assert rows + {p} == {p};
    } else {
      var a :| a in rows && a.from == from;
      var b :| b in rows && b.to == to;
      assert a in rows + {p} && b in rows + {p} && p in rows + {p};
    }
  }

  method SummarizeKorrektur(posten: seq<Posten>) returns (out: Summary)
    ensures Summarises(posten, out)
  {
    hide Spans, Reasons, Attributed;
    var from: Month, to: Month := 0, 0;
    var reasons: set<string> := {};
    NothingAttributed();
    for i := 0 to |posten|
      invariant reasons == Reasons(posten[..i])
      invariant Spans(Attributed(posten[..i]), from, to)
    {
      var p := posten[i];
      assert posten[..i + 1] == posten[..i] + [p];
      OneMore(posten[..i], p);
      if p.reason != "" { reasons := reasons + {p.reason}; }
      if p.from != 0 {
        SpanWith(Attributed(posten[..i]), from, to, p);
        if from == 0 || p.from < from { from := p.from; }
        if to == 0 || p.to > to { to := p.to; }
      }
    }
    assert posten[..|posten|] == posten;
    out := Summary(from, to, "");
    if |reasons| == 1 {
      var r :| r in reasons;
      NoEmptyReason(posten);
      ReasonMember(reasons);
      out := out.(reason := r);
    } else if |reasons| > 1 {
      out := out.(reason := MIXED);
    }
  }

  // ----- the sheet

  datatype Env = Env(parseFloat: FloatParser, classify: string -> string)

  datatype KorrekturError = BadAmount(row: nat) | WrongTotal(sum: int, stated: int) | NoTotal(rows: nat)

  /** Rows that were checked against their total; nothing to report; or an error. */
  datatype Detail = Checked(posten: seq<Posten>) | Nothing | Broken(error: KorrekturError)

  /** Where the reason and the amount stand, and where the header is. */
  datatype Columns = Columns(grund: nat, betrag: nat, headerRow: nat)

  predicate IsTotalRow(cells: seq<string>)
  {
    exists j :: 0 <= j < |cells| && Contains(cells[j], "Korrektursumme")
  }

  function AmountAt(env: Env, g: Grid, c: Columns, r: nat): Option<int>
  {
    CentsOf(env.parseFloat, CellText(g, r, c.betrag))
  }

  /** A row without text and without an amount is skipped. */
  predicate IsBlank(env: Env, g: Grid, c: Columns, r: nat)
  {
    CellText(g, r, c.grund) == "" && AmountAt(env, g, c, r) == Some(0)
  }

  function PostenAt(env: Env, g: Grid, c: Columns, r: nat): Posten
    requires AmountAt(env, g, c, r).Some?
  {
    var grund := CellText(g, r, c.grund);
    var months := MonthTokens(grund, 0);
    Posten(env.classify(grund), Least(months), Greatest(months), AmountAt(env, g, c, r).value)
  }

  /** The first total row at or after r, or |g|. */
  function TotalRow(g: Grid, r: nat): (t: nat)
    requires r <= |g|
    ensures r <= t <= |g| && (t < |g| ==> IsTotalRow(g[t])) && forall i :: r <= i < t ==> !IsTotalRow(g[i])
    decreases |g| - r
  {
    if r == |g| || IsTotalRow(g[r]) then r else TotalRow(g, r + 1)
  }

  /** Every amount in [r, t) is readable. */
  ghost predicate Readable(env: Env, g: Grid, c: Columns, r: nat, t: nat)
  {
    forall i :: r <= i < t ==> AmountAt(env, g, c, i).Some?
  }

  /** The non-blank rows in [r, t), in order. */
  ghost function Entries(env: Env, g: Grid, c: Columns, r: nat, t: nat): seq<Posten>
    requires r <= t && Readable(env, g, c, r, t)
    decreases t - r
  {
    if r == t then []
    else
      Entries(env, g, c, r, t - 1) + if IsBlank(env, g, c, t - 1) then [] else [PostenAt(env, g, c, t - 1)]
  }

  function SumPosten(ps: seq<Posten>): int
  {
    if ps == [] then 0 else SumPosten(ps[..|ps| - 1]) + ps[|ps| - 1].summe
  }

  /** What the row loop may return, given the first total row t at or after the first data row. */
  ghost predicate Reads(env: Env, g: Grid, c: Columns, d: Detail)
    requires c.headerRow < |g|
  {
    var first := c.headerRow + 1;
    var t := TotalRow(g, first);
    match d
    case Checked(ps) =>
      && t < |g| && Readable(env, g, c, first, t) && ps == Entries(env, g, c, first, t) && ps != []
      && AmountAt(env, g, c, t) == Some(SumPosten(ps))
    case Nothing =>
      Readable(env, g, c, first, t) && Entries(env, g, c, first, t) == [] && (t < |g| ==> AmountAt(env, g, c, t).Some?)
    case Broken(BadAmount(r)) =>
      first <= r <= t && r < |g| && Readable(env, g, c, first, r) && AmountAt(env, g, c, r).None?
    case Broken(WrongTotal(sum, stated)) =>
      && t < |g| && Readable(env, g, c, first, t) && Entries(env, g, c, first, t) != []
      && sum == SumPosten(Entries(env, g, c, first, t))
      && AmountAt(env, g, c, t) == Some(stated) && sum != stated
    case Broken(NoTotal(n)) =>
      t == |g| && Readable(env, g, c, first, t) && n == |Entries(env, g, c, first, t)| && n > 0
  }

  /** The sheet determines what is returned. */
  lemma ReadsUnique(env: Env, g: Grid, c: Columns, d: Detail, e: Detail)
    requires c.headerRow < |g| && Reads(env, g, c, d) && Reads(env, g, c, e)
    ensures d == e
  {
    hide AmountAt, IsTotalRow, PostenAt, IsBlank, SumPosten, Entries;
    if d.Broken? && d.error.BadAmount? && e.Broken? && e.error.BadAmount? {
      assert d.error.row == e.error.row;
    }
  }

  lemma NoEntries(env: Env, g: Grid, c: Columns, r: nat)
    ensures Readable(env, g, c, r, r) && Entries(env, g, c, r, r) == [] && SumPosten([]) == 0
  {
  }

  lemma NextEntry(env: Env, g: Grid, c: Columns, r: nat, t: nat)
    requires r <= t && Readable(env, g, c, r, t) && AmountAt(env, g, c, t).Some?
    ensures Readable(env, g, c, r, t + 1)
    ensures Entries(env, g, c, r, t + 1)
         == Entries(env, g, c, r, t) + if IsBlank(env, g, c, t) then [] else [PostenAt(env, g, c, t)]
  {
  }

  lemma SumPostenSnoc(ps: seq<Posten>, p: Posten)
    ensures SumPosten(ps + [p]) == SumPosten(ps) + p.summe
  {
    assert (ps + [p])[..|ps|] == ps;
  }

  method ReadRows(env: Env, g: Grid, c: Columns) returns (d: Detail)
    requires c.headerRow < |g|
    ensures Reads(env, g, c, d)
  {
    hide AmountAt, IsTotalRow, PostenAt, IsBlank, Entries, SumPosten;
    ghost var first := c.headerRow + 1;
    var posten: seq<Posten> := [];
    NoEntries(env, g, c, first);
    var sum := 0;
    var r := c.headerRow + 1;
    while r < |g|
      invariant first <= r <= TotalRow(g, first)
      invariant Readable(env, g, c, first, r)
      invariant posten == Entries(env, g, c, first, r) && sum == SumPosten(posten)
    {
      var isTotal := IsTotalRow(g[r]);
      var amount := AmountAt(env, g, c, r);
      if amount.None? { return Broken(KorrekturError.BadAmount(r)); }
      if isTotal {
        assert r == TotalRow(g, first);
        if |posten| == 0 { return Nothing; }
        if sum != amount.value { return Broken(WrongTotal(sum, amount.value)); }
        return Checked(posten);
      }
      NextEntry(env, g, c, first, r);
      if !IsBlank(env, g, c, r) {
        var p := MakePosten(env, g, c, r);
        SumPostenSnoc(posten, p);
        posten := posten + [p];
        sum := sum + p.summe;
      }
      r := r + 1;
    }
    d := if |posten| > 0 then Broken(NoTotal(|posten|)) else Nothing;
  }

  method MakePosten(env: Env, g: Grid, c: Columns, r: nat) returns (p: Posten)
    requires AmountAt(env, g, c, r).Some?
    ensures p == PostenAt(env, g, c, r)
    ensures AmountAt(env, g, c, r) == Some(p.summe)
  {
    var grund := CellText(g, r, c.grund);
    var from, to := KorrekturMonthRange(grund);
    p := Posten(env.classify(grund), from, to, AmountAt(env, g, c, r).value);
  }

  /** The first cell of a row whose header text mentions the amount, or |cells|. */
  function BetragColumn(cells: seq<string>, j: nat): (b: nat)
    requires j <= |cells|
    ensures j <= b <= |cells|
    ensures b < |cells| ==> Contains(NormalizeHeaderCell(cells[b]), "Betrag")
    ensures forall i :: j <= i < b ==> !Contains(NormalizeHeaderCell(cells[i]), "Betrag")
    decreases |cells| - j
  {
    if j == |cells| || Contains(NormalizeHeaderCell(cells[j]), "Betrag") then j else BetragColumn(cells, j + 1)
  }

  function FindColumns(g: Grid): (c: Option<Columns>)
    ensures c.Some? ==> c.value.headerRow < |g|
  {
    var hits := Hits(g, "Korrekturgrund", |g|);
    if |hits| != 1 then None
    else
      assert hits[0] in hits;
      var cells := g[hits[0].row];
      var b := BetragColumn(cells, 0);
      if b == |cells| then None else Some(Columns(hits[0].col, b, hits[0].row))
  }

  /**
   The reason stands below the only cell that contains Korrekturgrund, the amount below the first cell of that
   row that mentions Betrag.
   */
  ghost predicate ColumnsAre(g: Grid, c: Columns)
  {
    && OnlyCell(g, "Korrekturgrund", Pos(c.headerRow, c.grund))
    && c.betrag < |g[c.headerRow]| && Contains(NormalizeHeaderCell(g[c.headerRow][c.betrag]), "Betrag")
    && forall j :: 0 <= j < c.betrag ==> !Contains(NormalizeHeaderCell(g[c.headerRow][j]), "Betrag")
  }

  lemma FindColumnsIff(g: Grid, c: Columns)
    ensures FindColumns(g) == Some(c) <==> ColumnsAre(g, c)
  {
    hide Hits, Contains, NormalizeHeaderCell;
    HeaderAtIff(g, "Korrekturgrund", Pos(c.headerRow, c.grund));
  }

  /** A workbook without the sheet, or a sheet without its headers, has no detail to report. */
  ghost predicate ReadsSheet(env: Env, sheet: Option<Grid>, d: Detail)
  {
    if sheet.Some? && FindColumns(sheet.value).Some? then Reads(env, sheet.value, FindColumns(sheet.value).value, d)
    else d == Nothing
  }

  lemma ReadsSheetUnique(env: Env, sheet: Option<Grid>, d: Detail, e: Detail)
    requires ReadsSheet(env, sheet, d) && ReadsSheet(env, sheet, e)
    ensures d == e
  {
    hide Reads;
    if sheet.Some? && FindColumns(sheet.value).Some? {
      ReadsUnique(env, sheet.value, FindColumns(sheet.value).value, d, e);
    }
  }

  method ParseKorrektur(env: Env, sheet: Option<Grid>) returns (d: Detail)
    ensures ReadsSheet(env, sheet, d)
  {
    hide Reads;
    if sheet.None? { return Nothing; }
    var c := FindColumns(sheet.value);
    if c.None? { return Nothing; }
    d := ReadRows(env, sheet.value, c.value);
  }

  // ----- what checked rows mean

  lemma {:induction false} EntriesCover(env: Env, g: Grid, c: Columns, r: nat, t: nat, i: nat)
    requires r <= i < t && Readable(env, g, c, r, t) && !IsBlank(env, g, c, i)
    ensures PostenAt(env, g, c, i) in Entries(env, g, c, r, t)
    decreases t
  {
    hide AmountAt, PostenAt, IsBlank;
    if i < t - 1 { EntriesCover(env, g, c, r, t - 1, i); }
  }

  /** The entries are the non-blank rows, one for one and in sheet order. */
  lemma {:induction false} EntriesAreRows(env: Env, g: Grid, c: Columns, r: nat, t: nat) returns (rows: seq<nat>)
    requires r <= t && Readable(env, g, c, r, t)
    ensures forall i :: i in rows <==> r <= i < t && !IsBlank(env, g, c, i)
    ensures forall x, y :: 0 <= x < y < |rows| ==> rows[x] < rows[y]
    ensures |rows| == |Entries(env, g, c, r, t)|
    ensures forall x :: 0 <= x < |rows| ==>
              AmountAt(env, g, c, rows[x]).Some? && Entries(env, g, c, r, t)[x] == PostenAt(env, g, c, rows[x])
    decreases t
  {
    hide AmountAt, PostenAt, IsBlank;
    if r == t {
      rows := [];
    } else {
      var before := EntriesAreRows(env, g, c, r, t - 1);
      assert forall x :: 0 <= x < |before| ==> before[x] in before;
      rows := before + if IsBlank(env, g, c, t - 1) then [] else [t - 1];
    }
  }

  /** An entry says what its row says: the reason its text is classified as, the months it counts, and its amount. */
  lemma PostenWritten(env: Env, g: Grid, c: Columns, r: nat)
    requires AmountAt(env, g, c, r).Some?
    ensures var p := PostenAt(env, g, c, r);
            && p.reason == env.classify(CellText(g, r, c.grund))
            && SpanOfText(CellText(g, r, c.grund), p.from, p.to)
            && CentsOf(env.parseFloat, CellText(g, r, c.betrag)) == Some(p.summe)
  {
    hide SpanOfText, CellText, MonthTokens, CentsOf;
    var ms := MonthTokens(CellText(g, r, c.grund), 0);
    SpanIsMinMax(ms);
    TokensAre(CellText(g, r, c.grund), Least(ms), Greatest(ms));
  }

  /** t is the first row from first on with a cell that contains Korrektursumme, or the end of the sheet. */
  ghost predicate ClosesAt(g: Grid, first: nat, t: nat)
  {
    && first <= t <= |g|
    && (forall i, j :: first <= i < t && 0 <= j < |g[i]| ==> !Contains(g[i][j], "Korrektursumme"))
    && (t < |g| ==> exists j :: 0 <= j < |g[t]| && Contains(g[t][j], "Korrektursumme"))
  }

  lemma TotalRowIff(g: Grid, first: nat, t: nat)
    requires first <= |g|
    ensures ClosesAt(g, first, t) <==> t == TotalRow(g, first)
  {
    hide Contains;
    var u := TotalRow(g, first);
    if ClosesAt(g, first, t) {
      forall i | first <= i < t ensures !IsTotalRow(g[i]) {}
      assert t < |g| ==> IsTotalRow(g[t]);
      assert !(t < u) && !(u < t);
    }
  }

  /** The row has a text, or an amount other than zero. */
  predicate SaysSomething(env: Env, g: Grid, c: Columns, i: nat)
  {
    CellText(g, i, c.grund) != "" || CentsOf(env.parseFloat, CellText(g, i, c.betrag)) != Some(0)
  }

  /** The reason the text of the row is classified as, the months the text counts, and the amount of the row. */
  ghost predicate SaidBy(env: Env, g: Grid, c: Columns, i: nat, p: Posten)
  {
    && p.reason == env.classify(CellText(g, i, c.grund))
    && SpanOfText(CellText(g, i, c.grund), p.from, p.to)
    && CentsOf(env.parseFloat, CellText(g, i, c.betrag)) == Some(p.summe)
  }

  /** One entry for each row in [first, t) that says something, in sheet order. */
  ghost predicate EntriesOf(env: Env, g: Grid, c: Columns, first: nat, t: nat, rows: seq<nat>, ps: seq<Posten>)
  {
    && |rows| == |ps| && (forall x, y :: 0 <= x < y < |rows| ==> rows[x] < rows[y])
    && (forall i: nat :: i in rows <==> first <= i < t && SaysSomething(env, g, c, i))
    && forall x :: 0 <= x < |rows| ==> SaidBy(env, g, c, rows[x], ps[x])
  }

  lemma EntriesSaid(env: Env, g: Grid, c: Columns, r: nat, t: nat) returns (rows: seq<nat>)
    requires r <= t && Readable(env, g, c, r, t)
    ensures EntriesOf(env, g, c, r, t, rows, Entries(env, g, c, r, t))
  {
    hide Readable, Entries, SpanOfText, PostenAt, CentsOf, CellText;
    rows := EntriesAreRows(env, g, c, r, t);
    forall x | 0 <= x < |rows| ensures SaidBy(env, g, c, rows[x], Entries(env, g, c, r, t)[x]) {
      PostenWritten(env, g, c, rows[x]);
    }
  }

  /** What each outcome of the row loop says about the cells. */
  lemma ReadsWritten(env: Env, g: Grid, c: Columns, d: Detail, t: nat)
    requires c.headerRow < |g| && Reads(env, g, c, d) && ClosesAt(g, c.headerRow + 1, t)
    ensures var first := c.headerRow + 1;
            match d
            case Checked(ps) =>
              && t < |g| && ps != [] && (exists rows :: EntriesOf(env, g, c, first, t, rows, ps))
              && CentsOf(env.parseFloat, CellText(g, t, c.betrag)) == Some(SumPosten(ps))
            case Nothing => forall i: nat :: first <= i < t ==> !SaysSomething(env, g, c, i)
            case Broken(BadAmount(r)) =>
              && first <= r <= t && r < |g| && CentsOf(env.parseFloat, CellText(g, r, c.betrag)).None?
              && forall i: nat :: first <= i < r ==> CentsOf(env.parseFloat, CellText(g, i, c.betrag)).Some?
            case Broken(WrongTotal(sum, stated)) =>
              && t < |g| && CentsOf(env.parseFloat, CellText(g, t, c.betrag)) == Some(stated) && sum != stated
              && exists rows, ps :: ps != [] && EntriesOf(env, g, c, first, t, rows, ps) && sum == SumPosten(ps)
            case Broken(NoTotal(n)) =>
              t == |g| && n > 0 && exists rows, ps :: EntriesOf(env, g, c, first, t, rows, ps) && |ps| == n
  {
    hide Entries, EntriesOf, SumPosten, CentsOf, CellText, ClosesAt;
    var first := c.headerRow + 1;
    TotalRowIff(g, first, t);
    if !(d.Broken? && d.error.BadAmount?) {
      var rows := EntriesSaid(env, g, c, first, t);
      if d.Nothing? { NothingSaid(env, g, c, first, t, rows); }
    } else {
      forall i: nat | first <= i < d.error.row ensures CentsOf(env.parseFloat, CellText(g, i, c.betrag)).Some? {
        assert AmountAt(env, g, c, i).Some?;
      }
    }
  }

  lemma NothingSaid(env: Env, g: Grid, c: Columns, first: nat, t: nat, rows: seq<nat>)
    requires EntriesOf(env, g, c, first, t, rows, [])
    ensures forall i: nat :: first <= i < t ==> !SaysSomething(env, g, c, i)
  {
    hide SaysSomething, SaidBy;
    forall i: nat | first <= i < t ensures !SaysSomething(env, g, c, i) {
      assert i !in rows;
    }
  }

  function AmountOr0(env: Env, g: Grid, c: Columns, i: nat): int
  {
    match AmountAt(env, g, c, i) case Some(a) => a case None => 0
  }

  function ColumnSum(env: Env, g: Grid, c: Columns, r: nat, t: nat): int
    requires r <= t
  {
    if r == t then 0 else ColumnSum(env, g, c, r, t - 1) + AmountOr0(env, g, c, t - 1)
  }

  lemma {:induction false} EntriesSum(env: Env, g: Grid, c: Columns, r: nat, t: nat)
    requires r <= t && Readable(env, g, c, r, t)
    ensures SumPosten(Entries(env, g, c, r, t)) == ColumnSum(env, g, c, r, t)
    decreases t
  {
    hide MonthTokens, CentsOf;
    if r < t {
      EntriesSum(env, g, c, r, t - 1);
      var before := Entries(env, g, c, r, t - 1);
      if !IsBlank(env, g, c, t - 1) {
        assert (before + [PostenAt(env, g, c, t - 1)])[..|before|] == before;
      } else {
        assert before + [] == before;
      }
    }
  }

  /** Months come from the text in order, so a parsed row is never inverted. */
  lemma {:induction false} EntriesInOrder(env: Env, g: Grid, c: Columns, r: nat, t: nat)
    requires r <= t && Readable(env, g, c, r, t)
    ensures forall p :: p in Entries(env, g, c, r, t) ==> p.from <= p.to
    decreases t
  {
    hide MonthTokens, Least, Greatest, AmountAt, IsBlank;
    if r < t {
      EntriesInOrder(env, g, c, r, t - 1);
      SpanIsMinMax(MonthTokens(CellText(g, t - 1, c.grund), 0));
    }
  }

  /**
   Checked rows include every non-blank row above the total, together carry every cent of the amount column,
   and add up to the stated total.
   */
  lemma CheckedIsWhole(env: Env, g: Grid, c: Columns, ps: seq<Posten>)
    requires c.headerRow < |g| && Reads(env, g, c, Checked(ps))
    ensures var first := c.headerRow + 1;
            var t := TotalRow(g, first);
            && (forall i :: first <= i < t && !IsBlank(env, g, c, i) ==>
                  AmountAt(env, g, c, i).Some? && PostenAt(env, g, c, i) in ps)
            && SumPosten(ps) == ColumnSum(env, g, c, first, t)
            && AmountAt(env, g, c, t) == Some(ColumnSum(env, g, c, first, t))
            && forall p :: p in ps ==> p.from <= p.to
  {
    hide AmountAt, PostenAt, IsBlank, IsTotalRow;
    var first := c.headerRow + 1;
    var t := TotalRow(g, first);
    forall i | first <= i < t && !IsBlank(env, g, c, i)
      ensures AmountAt(env, g, c, i).Some? && PostenAt(env, g, c, i) in ps
    {
      EntriesCover(env, g, c, first, t, i);
    }
    EntriesSum(env, g, c, first, t);
    EntriesInOrder(env, g, c, first, t);
  }
}
