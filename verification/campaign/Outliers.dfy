/** The bounded list of performance outliers, which is sorted from its first replacement on, but not before. */
module Outliers {
  datatype Outlier = Outlier(elapsed: real, pattern: string, hash: string, time: string)

  const MAX_OUTLIERS := 100

  ghost predicate Descending(s: seq<Outlier>) { forall i, j | 0 <= i < j < |s| :: s[i].elapsed >= s[j].elapsed }

  function InsertDescending(s: seq<Outlier>, e: Outlier): (r: seq<Outlier>)
    ensures multiset(r) == multiset(s) + multiset{e} && |r| == |s| + 1
  {
    if s == [] || s[|s| - 1].elapsed >= e.elapsed then s + [e]
    else
      assert s == s[..|s| - 1] + [s[|s| - 1]];
      InsertDescending(s[..|s| - 1], e) + [s[|s| - 1]]
  }

  lemma {:induction false} InsertKeepsOrder(s: seq<Outlier>, e: Outlier)
    requires Descending(s)
    ensures Descending(InsertDescending(s, e))
  {
    if s != [] && s[|s| - 1].elapsed < e.elapsed {
      var front, last := s[..|s| - 1], s[|s| - 1];
      var r := InsertDescending(front, e);
      InsertKeepsOrder(front, e);
      forall i | 0 <= i < |r| ensures r[i].elapsed >= last.elapsed {
        assert r[i] in multiset(r);
        assert r[i] == e || r[i] in front;
      }
    }
  }

  /** A stable sort, largest first. */
  function SortDescending(s: seq<Outlier>): (r: seq<Outlier>)
    ensures multiset(r) == multiset(s) && |r| == |s| && Descending(r)
  {
    if s == [] then []
    else
      assert s == s[..|s| - 1] + [s[|s| - 1]];
      InsertKeepsOrder(SortDescending(s[..|s| - 1]), s[|s| - 1]);
      InsertDescending(SortDescending(s[..|s| - 1]), s[|s| - 1])
  }

  /** The list after one more outlier. */
  function Put(list: seq<Outlier>, e: Outlier): seq<Outlier> {
    if |list| < MAX_OUTLIERS then list + [e]
    else if e.elapsed > list[|list| - 1].elapsed then SortDescending(list[|list| - 1 := e])
    else list
  }

  predicate Exceeds(threshold: real, e: Outlier) { threshold > 0.0 && e.elapsed > threshold }

  /** The list after one iteration; the threshold in force is given. */
  function Track(list: seq<Outlier>, threshold: real, e: Outlier): seq<Outlier> {
    if Exceeds(threshold, e) then Put(list, e) else list
  }

  ghost predicate KeepsLargest(kept: multiset<Outlier>, all: multiset<Outlier>) {
    kept <= all && forall x, y | x in all - kept && y in kept :: x.elapsed <= y.elapsed
  }

  /** Below the threshold nothing is tracked; above it the list grows to a hundred entries and no further. */
  lemma {:induction false} ListGrowsToHundred(list: seq<Outlier>, threshold: real, e: Outlier)
    requires |list| <= 100
    ensures !(0.0 < threshold < e.elapsed) ==> Track(list, threshold, e) == list
    ensures 0.0 < threshold < e.elapsed && |list| < 100 ==> Track(list, threshold, e) == list + [e]
    ensures |list| == 100 ==> |Track(list, threshold, e)| == 100
  {
  }

  lemma {:induction false} AfterSwapping(m: multiset<Outlier>, last: Outlier, e: Outlier)
    requires last in m && e.elapsed > last.elapsed
    ensures KeepsLargest(m - multiset{last} + multiset{e}, m + multiset{e}) <==>
            forall y | y in m :: y.elapsed >= last.elapsed
  {
    var kept, all := m - multiset{last} + multiset{e}, m + multiset{e};
    assert all - kept == multiset{last};
    assert forall y | y in m && y != last :: y in kept;
    assert forall y | y in kept && y != e :: y in m;
  }

  lemma {:induction false} AfterIgnoring(m: multiset<Outlier>, e: Outlier)
    ensures KeepsLargest(m, m + multiset{e}) <==> forall y | y in m :: y.elapsed >= e.elapsed
  {
    assert m + multiset{e} - m == multiset{e};
  }

  /**
   A full list gives up its last entry for a larger one. What it keeps are the largest exactly when the entry given up,
   or turned away, is a smallest one, and that is so once the list is in order.
   */
  lemma {:induction false} WhenLargestAreKept(list: seq<Outlier>, threshold: real, e: Outlier)
    requires |list| == MAX_OUTLIERS && Exceeds(threshold, e)
    ensures var last := list[|list| - 1];
            KeepsLargest(multiset(Track(list, threshold, e)), multiset(list) + multiset{e}) <==>
            forall y | y in list :: y.elapsed >= if e.elapsed > last.elapsed then last.elapsed else e.elapsed
  {
    hide KeepsLargest;
    hide SortDescending;
    var n := |list| - 1;
    var m := multiset(list);
    assert forall y :: y in m <==> y in list;
    if e.elapsed > list[n].elapsed {
      assert list[n] in m;
      assert multiset(list[n := e]) == m - multiset{list[n]} + multiset{e};
      AfterSwapping(m, list[n], e);
    } else {
      AfterIgnoring(m, e);
    }
  }

  /** From its first replacement on, the full list is in order, stays so, and keeps the largest. */
  lemma {:induction false} OrderedFromFirstReplacement(list: seq<Outlier>, threshold: real, e: Outlier)
    requires |list| == MAX_OUTLIERS && Exceeds(threshold, e)
    ensures Descending(list) || e.elapsed > list[|list| - 1].elapsed ==> Descending(Track(list, threshold, e))
    ensures Descending(list) ==> KeepsLargest(multiset(Track(list, threshold, e)), multiset(list) + multiset{e})
  {
    hide KeepsLargest;
    if Descending(list) {
      WhenLargestAreKept(list, threshold, e);
      forall y | y in list ensures y.elapsed >= list[|list| - 1].elapsed {
        var i :| 0 <= i < |list| && list[i] == y;
      }
    }
  }

  // ---------------------------------------------------------------------------
  // Runs
  // ---------------------------------------------------------------------------

  /** An iteration, with the threshold in force at its end. */
  type Iteration = (real, Outlier)

  ghost function Tracked(run: seq<Iteration>): seq<Outlier> {
    if run == [] then [] else Track(Tracked(run[..|run| - 1]), run[|run| - 1].0, run[|run| - 1].1)
  }

  /** The outliers of a run: the iterations that exceed their thresholds. */
  ghost function Exceeding(run: seq<Iteration>): seq<Outlier> {
    if run == [] then []
    else
      var (threshold, e) := run[|run| - 1];
      Exceeding(run[..|run| - 1]) + if Exceeds(threshold, e) then [e] else []
  }

  const LAST := MAX_OUTLIERS - 1

  /** Some outlier after the first hundred is larger than the hundredth, which is then given up. */
  ghost predicate Replaced(all: seq<Outlier>)
    requires |all| >= MAX_OUTLIERS
  {
    exists i :: MAX_OUTLIERS <= i < |all| && all[i].elapsed > all[LAST].elapsed
  }

  ghost predicate NoneAbove(lost: multiset<Outlier>, given: real, least: real) {
    forall x | x in lost :: x.elapsed <= given || x.elapsed <= least
  }

  /** After the first replacement: what was lost is no larger than the hundredth outlier or than the least one kept. */
  ghost predicate Settled(list: seq<Outlier>, all: seq<Outlier>) {
    && |list| == MAX_OUTLIERS < |all| && Descending(list)
    && multiset(list) + multiset{all[LAST]} <= multiset(all)
    && NoneAbove(multiset(all) - multiset(list), all[LAST].elapsed, list[LAST].elapsed)
  }

  ghost predicate ListOf(list: seq<Outlier>, all: seq<Outlier>) {
    if |all| < MAX_OUTLIERS then list == all
    else if Replaced(all) then Settled(list, all)
    else list == all[..MAX_OUTLIERS]
  }

  lemma {:induction false} SwappedLast(list: seq<Outlier>, e: Outlier)
    requires list != []
    ensures var last := list[|list| - 1];
            last in multiset(list) && multiset(list[|list| - 1 := e]) == multiset(list) - multiset{last} + multiset{e}
  {
  }

  lemma {:induction false} ExchangeLoses(kept: multiset<Outlier>, all: multiset<Outlier>, given: Outlier, e: Outlier)
    requires given in kept && kept <= all
    ensures all + multiset{e} - (kept - multiset{given} + multiset{e}) == all - kept + multiset{given}
    ensures kept - multiset{given} + multiset{e} <= all + multiset{e}
  {
  }

  lemma {:induction false} RestNotAbove(all: seq<Outlier>)
    requires |all| >= MAX_OUTLIERS && !Replaced(all)
    ensures multiset(all) == multiset(all[..MAX_OUTLIERS]) + multiset(all[MAX_OUTLIERS..])
    ensures forall x | x in multiset(all[MAX_OUTLIERS..]) :: x.elapsed <= all[LAST].elapsed
  {
    var more := all[MAX_OUTLIERS..];
    assert all == all[..MAX_OUTLIERS] + more;
    forall x: Outlier | x in multiset(more) ensures x.elapsed <= all[LAST].elapsed {
      var i :| 0 <= i < |more| && more[i] == x;
      assert all[MAX_OUTLIERS + i] == x;
    }
  }

  lemma {:induction false} FirstReplacement(all: seq<Outlier>, e: Outlier)
    requires |all| >= MAX_OUTLIERS && !Replaced(all) && e.elapsed > all[LAST].elapsed
    ensures Settled(Put(all[..MAX_OUTLIERS], e), all + [e])
  {
    hide SortDescending;
    hide Descending;
    hide Replaced;
    var list := all[..MAX_OUTLIERS];
    RestNotAbove(all);
    SwappedLast(list, e);
    ExchangeLoses(multiset(list), multiset(all), all[LAST], e);
    assert multiset(all + [e]) == multiset(all) + multiset{e};
    assert (all + [e])[LAST] == all[LAST];
  }

  lemma {:induction false} LastIsLeast(list: seq<Outlier>)
    requires Descending(list) && |list| == MAX_OUTLIERS
    ensures forall x | x in list :: x.elapsed >= list[LAST].elapsed
  {
  }

  /** Once in order, the list loses only what is no larger than the least it keeps. */
  lemma {:induction false} LaterReplacement(list: seq<Outlier>, all: seq<Outlier>, e: Outlier)
    requires Settled(list, all)
    ensures Settled(Put(list, e), all + [e])
  {
    if e.elapsed > list[LAST].elapsed {
      Exchanged(list, all, e);
    } else {
      TurnedAway(list, all, e);
    }
  }

  lemma {:induction false} TurnedAway(list: seq<Outlier>, all: seq<Outlier>, e: Outlier)
    requires Settled(list, all) && e.elapsed <= list[LAST].elapsed
    ensures Settled(Put(list, e), all + [e])
  {
    hide SortDescending;
    hide Descending;
    var kept, a := multiset(list), multiset(all);
    assert multiset(all + [e]) == a + multiset{e} && (all + [e])[LAST] == all[LAST];
    OneMoreLost(a, kept, all[LAST], e, list[LAST].elapsed, list[LAST].elapsed);
    hide NoneAbove;
    assert a + multiset{e} - kept == a - kept + multiset{e};
  }

  lemma {:induction false} Exchanged(list: seq<Outlier>, all: seq<Outlier>, e: Outlier)
    requires Settled(list, all) && e.elapsed > list[LAST].elapsed
    ensures Settled(Put(list, e), all + [e])
  {
    hide SortDescending;
    hide Descending;
    hide NoneAbove;
    var now, last := Put(list, e), list[LAST];
    assert multiset(all + [e]) == multiset(all) + multiset{e} && (all + [e])[LAST] == all[LAST];
    SwappedLast(list, e);
    ExchangeLoses(multiset(list), multiset(all), last, e);
    LeastRises(list, e);
    OneMoreLost(multiset(all), multiset(list), all[LAST], last, last.elapsed, now[LAST].elapsed);
  }

  lemma {:induction false} OneMoreLost(all: multiset<Outlier>, kept: multiset<Outlier>, given: Outlier, x: Outlier,
                                       before: real, least: real)
    requires NoneAbove(all - kept, given.elapsed, before) && before <= least && x.elapsed <= least
    ensures NoneAbove(all - kept + multiset{x}, given.elapsed, least)
  {
  }

  lemma {:induction false} LeastRises(list: seq<Outlier>, e: Outlier)
    requires Descending(list) && |list| == MAX_OUTLIERS && e.elapsed > list[LAST].elapsed
    ensures var now := Put(list, e);
            |now| == MAX_OUTLIERS && Descending(now) && now[LAST].elapsed >= list[LAST].elapsed
  {
    hide SortDescending;
    var now := Put(list, e);
    SwappedLast(list, e);
    LastIsLeast(list);
    assert now[LAST] in multiset(now);
    assert now[LAST] == e || now[LAST] in list;
  }

  lemma {:induction false} NotYetReplaced(all: seq<Outlier>, e: Outlier)
    requires |all| >= MAX_OUTLIERS
    ensures Replaced(all + [e]) <==> Replaced(all) || e.elapsed > all[LAST].elapsed
  {
    var more := all + [e];
    if Replaced(all) {
      var i :| MAX_OUTLIERS <= i < |all| && all[i].elapsed > all[LAST].elapsed;
      assert more[i] == all[i];
    }
    assert more[|all|] == e;
  }

  lemma {:induction false} PutStep(list: seq<Outlier>, all: seq<Outlier>, e: Outlier)
    requires ListOf(list, all)
    ensures ListOf(Put(list, e), all + [e])
  {
    hide SortDescending;
    hide Settled;
    hide Replaced;
    if |all| < MAX_OUTLIERS {
      if |all| == LAST {
        JustFull(all + [e]);
      }
    } else {
      NotYetReplaced(all, e);
      if Replaced(all) {
        LaterReplacement(list, all, e);
      } else if e.elapsed > all[LAST].elapsed {
        FirstReplacement(all, e);
      } else {
        assert (all + [e])[..MAX_OUTLIERS] == all[..MAX_OUTLIERS];
      }
    }
  }

  lemma {:induction false} JustFull(all: seq<Outlier>)
    requires |all| == MAX_OUTLIERS
    ensures !Replaced(all) && all[..MAX_OUTLIERS] == all
  {
  }

  lemma {:induction false} TrackedIsListOf(run: seq<Iteration>)
    ensures ListOf(Tracked(run), Exceeding(run))
  {
    hide ListOf;
    hide Put;
    if run == [] {
      NothingListed();
    } else {
      var front := run[..|run| - 1];
      var (threshold, e) := run[|run| - 1];
      TrackedIsListOf(front);
      if Exceeds(threshold, e) {
        PutStep(Tracked(front), Exceeding(front), e);
      } else {
        assert Exceeding(front) + [] == Exceeding(front);
      }
    }
  }

  lemma {:induction false} NothingListed()
    ensures ListOf([], [])
  {
  }

  lemma {:induction false} SettledKeepsLargest(list: seq<Outlier>, all: seq<Outlier>)
    requires Settled(list, all)
    ensures KeepsLargest(multiset(list), multiset(all)) <==> all[LAST].elapsed <= list[LAST].elapsed
  {
    LastIsLeast(list);
    hide Descending;
    assert all[LAST] in multiset(all) - multiset(list);
    assert list[LAST] in multiset(list);
    assert forall y | y in multiset(list) :: y in list;
  }

  lemma {:induction false} FirstHundredKeepLargest(all: seq<Outlier>)
    requires |all| >= MAX_OUTLIERS
    ensures KeepsLargest(multiset(all[..MAX_OUTLIERS]), multiset(all)) <==>
            forall i, j | MAX_OUTLIERS <= i < |all| && 0 <= j < MAX_OUTLIERS :: all[i].elapsed <= all[j].elapsed
  {
    hide KeepsLargest;
    var kept, more := all[..MAX_OUTLIERS], all[MAX_OUTLIERS..];
    assert all == kept + more;
    PartKeepsLargest(kept, more);
    PairsOfParts(all, MAX_OUTLIERS);
  }

  lemma {:induction false} PartKeepsLargest(kept: seq<Outlier>, more: seq<Outlier>)
    ensures KeepsLargest(multiset(kept), multiset(kept + more)) <==>
            forall i, j | 0 <= i < |more| && 0 <= j < |kept| :: more[i].elapsed <= kept[j].elapsed
  {
    assert multiset(kept + more) - multiset(kept) == multiset(more);
    AllPairs(kept, more);
  }

  lemma {:induction false} PairsOfParts(all: seq<Outlier>, n: nat)
    requires n <= |all|
    ensures var kept, more := all[..n], all[n..];
            (forall i, j | 0 <= i < |more| && 0 <= j < |kept| :: more[i].elapsed <= kept[j].elapsed) <==>
            forall i, j | n <= i < |all| && 0 <= j < n :: all[i].elapsed <= all[j].elapsed
  {
    var kept, more := all[..n], all[n..];
    if forall i, j | 0 <= i < |more| && 0 <= j < |kept| :: more[i].elapsed <= kept[j].elapsed {
      forall i, j | n <= i < |all| && 0 <= j < n ensures all[i].elapsed <= all[j].elapsed {
        assert more[i - n].elapsed <= kept[j].elapsed;
      }
    }
    if forall i, j | n <= i < |all| && 0 <= j < n :: all[i].elapsed <= all[j].elapsed {
      forall i, j | 0 <= i < |more| && 0 <= j < |kept| ensures more[i].elapsed <= kept[j].elapsed {
        assert all[n + i].elapsed <= all[j].elapsed;
      }
    }
  }

  lemma {:induction false} AllPairs(kept: seq<Outlier>, more: seq<Outlier>)
    ensures (forall x, y | x in multiset(more) && y in multiset(kept) :: x.elapsed <= y.elapsed) <==>
            forall i, j | 0 <= i < |more| && 0 <= j < |kept| :: more[i].elapsed <= kept[j].elapsed
  {
    if forall i, j | 0 <= i < |more| && 0 <= j < |kept| :: more[i].elapsed <= kept[j].elapsed {
      forall x, y | x in multiset(more) && y in multiset(kept) ensures x.elapsed <= y.elapsed {
        var i :| 0 <= i < |more| && more[i] == x;
        var j :| 0 <= j < |kept| && kept[j] == y;
      }
    }
    assert forall i | 0 <= i < |more| :: more[i] in multiset(more);
    assert forall j | 0 <= j < |kept| :: kept[j] in multiset(kept);
  }

  /**
   A whole run, under any thresholds. Up to a hundred outliers are all kept. After that, if none was larger than the
   hundredth, the first hundred stay; otherwise the list is in order, and it holds the largest outliers of the run
   exactly when the hundredth is no larger than the least one kept.
   */
  lemma {:induction false} WhenRunKeepsLargest(run: seq<Iteration>)
    ensures var all, list := Exceeding(run), Tracked(run);
            if |all| <= 100 then list == all
            else
              && |list| == 100 && multiset(list) <= multiset(all)
              && if Replaced(all) then
                   Descending(list) &&
                   (KeepsLargest(multiset(list), multiset(all)) <==> all[99].elapsed <= list[99].elapsed)
                 else
                   list == all[..100] &&
                   (KeepsLargest(multiset(list), multiset(all)) <==>
                    forall i, j | 100 <= i < |all| && 0 <= j < 100 :: all[i].elapsed <= all[j].elapsed)
  {
    hide KeepsLargest;
    hide Replaced;
    hide Descending;
    hide Tracked;
    hide Exceeding;
    var all, list := Exceeding(run), Tracked(run);
    TrackedIsListOf(run);
    if |all| == MAX_OUTLIERS {
      JustFull(all);
    } else if |all| > MAX_OUTLIERS {
      if Replaced(all) {
        SettledKeepsLargest(list, all);
      } else {
        FirstHundredKeepLargest(all);
        assert all == all[..MAX_OUTLIERS] + all[MAX_OUTLIERS..];
      }
    }
  }

  /** Iterations under one threshold. */
  function Under(threshold: real, entries: seq<Outlier>): (run: seq<Iteration>)
    ensures |run| == |entries|
  {
    seq(|entries|, i requires 0 <= i < |entries| => (threshold, entries[i]))
  }

  lemma {:induction false} AllExceed(threshold: real, entries: seq<Outlier>)
    requires forall e | e in entries :: Exceeds(threshold, e)
    ensures Exceeding(Under(threshold, entries)) == entries
  {
    if entries != [] {
      var front, last := entries[..|entries| - 1], entries[|entries| - 1];
      assert last in entries && forall e | e in front :: e in entries;
      AllExceed(threshold, front);
      assert Under(threshold, entries)[..|front|] == Under(threshold, front);
    }
  }

  /** A run whose 101st outlier is the largest and whose 100th exceeds another one: the 100th is lost, the other kept. */
  lemma {:induction false} FirstReplacementCanLose(entries: seq<Outlier>, threshold: real, e: Outlier, i: nat)
    requires |entries| == MAX_OUTLIERS && forall x | x in entries :: Exceeds(threshold, x)
    requires i < |entries| && entries[i].elapsed < entries[LAST].elapsed < e.elapsed
    ensures !KeepsLargest(multiset(Tracked(Under(threshold, entries + [e]))), multiset(entries + [e]))
  {
    hide KeepsLargest;
    hide SortDescending;
    hide Tracked;
    hide Under;
    var all := entries + [e];
    assert entries[LAST] in entries;
    AllExceed(threshold, all);
    WhenRunKeepsLargest(Under(threshold, all));
    assert all[MAX_OUTLIERS] == e && all[LAST] == entries[LAST];
    assert Replaced(all);
    FirstReplaced(entries, threshold, e);
    var list := Put(entries, e);
    LastIsLeast(list);
    SwappedLast(entries, e);
    assert entries[LAST := e][i] in multiset(entries[LAST := e]);
    assert entries[i] in list;
  }

  lemma {:induction false} FirstReplaced(entries: seq<Outlier>, threshold: real, e: Outlier)
    requires |entries| == MAX_OUTLIERS && forall x | x in entries + [e] :: Exceeds(threshold, x)
    ensures Tracked(Under(threshold, entries + [e])) == Put(entries, e)
  {
    hide Put;
    var run := Under(threshold, entries + [e]);
    assert run[..|entries|] == Under(threshold, entries) && run[|entries|] == (threshold, e);
    assert e in entries + [e] && forall x | x in entries :: x in entries + [e];
    AllExceed(threshold, entries);
    WhenRunKeepsLargest(Under(threshold, entries));
  }

  const RISING := seq(MAX_OUTLIERS, i => Outlier(1.0 + i as real, "parse", "", ""))

  /** Outliers of 1 to 101 milliseconds: the list keeps the one of 1 and loses the one of 100. */
  lemma {:induction false} RisingOutliersLoseLargest()
    ensures var all := RISING + [Outlier(101.0, "parse", "", "")];
            !KeepsLargest(multiset(Tracked(Under(0.5, all))), multiset(all))
  {
    hide KeepsLargest;
    hide Tracked;
    FirstReplacementCanLose(RISING, 0.5, Outlier(101.0, "parse", "", ""), 0);
  }
}
