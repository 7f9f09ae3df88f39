/** What fixed windows [open, open + window] guarantee about any closed interval of one window length. */
module FixedWindow {

  /** Clock readings in ticks; 0 is the zero value of Go's time.Time. */
  type Time = int

  /** A grant at time `at`, in the window opened at `open`. */
  datatype Grant = Grant(open: Time, at: Time)

  function CountIn(log: seq<Grant>, lo: Time, hi: Time): nat
  {
    if log == [] then 0
    else CountIn(log[..|log| - 1], lo, hi) + if lo <= log[|log| - 1].at <= hi then 1 else 0
  }

  function CountOpened(log: seq<Grant>, open: Time): nat
  {
    if log == [] then 0
    else CountOpened(log[..|log| - 1], open) + if log[|log| - 1].open == open then 1 else 0
  }

  /** g may follow the grants in log: it joins the last window, or opens one after that window has ended. */
  ghost predicate Follows(log: seq<Grant>, g: Grant, window: nat)
  {
    && g.open <= g.at <= g.open + window
    && (log == [] || log[|log| - 1].open != g.open ==> g.at == g.open)
    && (log != [] ==>
      var last := log[|log| - 1];
      last.at <= g.at && (last.open == g.open || last.open + window < g.open))
  }

  ghost predicate Disciplined(log: seq<Grant>, window: nat, limit: nat)
  {
    log != [] ==>
      var n := |log| - 1;
      && Disciplined(log[..n], window, limit)
      && Follows(log[..n], log[n], window)
      && CountOpened(log, log[n].open) <= limit
  }

  lemma DisciplinedSnoc(log: seq<Grant>, g: Grant, window: nat, limit: nat)
    requires Disciplined(log, window, limit) && Follows(log, g, window) && CountOpened(log, g.open) < limit
    ensures Disciplined(log + [g], window, limit)
    ensures CountOpened(log + [g], g.open) == CountOpened(log, g.open) + 1
  {
    assert (log + [g])[..|log|] == log;
  }

  /** What the grants of the interval [a, a + window] amount to, seen from the last window of the log. */
  ghost predicate Accounted(log: seq<Grant>, window: nat, limit: nat, a: Time)
  {
    var c := CountIn(log, a, a + window);
    if log == [] then c == 0
    else
      var open := log[|log| - 1].open;
      var k := CountOpened(log, open);
      && (c > 0 ==> a <= open + window)
      && (open < a ==> c <= k - 1)
      && (open == a ==> c <= k)
      && (a < open <= a + window ==> c <= limit - 1 + k)
      && c <= 2 * limit - 1
  }

  lemma {:induction false} LaterOpensAreNew(log: seq<Grant>, window: nat, limit: nat, open: Time)
    requires Disciplined(log, window, limit)
    requires log != [] ==> log[|log| - 1].open < open
    ensures CountOpened(log, open) == 0
  {
    if log != [] {
      var n := |log| - 1;
      if n > 0 { assert log[..n][n - 1] == log[n - 1]; }
      LaterOpensAreNew(log[..n], window, limit, open);
    }
  }

  lemma {:induction false} AllAccounted(log: seq<Grant>, window: nat, limit: nat, a: Time)
    requires Disciplined(log, window, limit)
    ensures Accounted(log, window, limit, a)
  {
    if log != [] {
      var n := |log| - 1;
      AllAccounted(log[..n], window, limit, a);
      if n == 0 || log[n - 1].open != log[n].open {
        assert n > 0 ==> log[..n][n - 1] == log[n - 1];
        LaterOpensAreNew(log[..n], window, limit, log[n].open);
      }
    }
  }

  /** At most 2 * limit - 1 grants fall into any closed interval of one window length. */
  lemma SlidingBound(log: seq<Grant>, window: nat, limit: nat, a: Time)
    requires Disciplined(log, window, limit) && limit > 0
    ensures CountIn(log, a, a + window) <= 2 * limit - 1
  {
    AllAccounted(log, window, limit, a);
  }

  /** With one grant per window every grant opens its window, after the one before has ended. */
  lemma {:induction false} SingleGrants(log: seq<Grant>, window: nat)
    requires Disciplined(log, window, 1)
    ensures forall i :: 0 <= i < |log| ==> log[i].at == log[i].open
    ensures forall i :: 0 < i < |log| ==> log[i - 1].at + window < log[i].at
  {
    if log != [] {
      var n := |log| - 1;
      SingleGrants(log[..n], window);
      assert n > 0 ==> log[..n][n - 1] == log[n - 1] && CountOpened(log[..n], log[n - 1].open) >= 1;
    }
  }

  /** No fixed window holds more than limit grants. */
  lemma {:induction false} WindowBound(log: seq<Grant>, window: nat, limit: nat, open: Time)
    requires Disciplined(log, window, limit)
    ensures CountOpened(log, open) <= limit
  {
    if log != [] && log[|log| - 1].open != open {
      WindowBound(log[..|log| - 1], window, limit, open);
    }
  }
}
