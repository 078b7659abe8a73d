/**
 * What one day's takings look like: where they lie, their order, which
 * instants they are, how many there are for the frequencies the domain
 * package pins, and that the duplicate guard never fires for a valid
 * frequency.
 */
module GridFacts {
  import opened Domain

  ghost predicate StrictlyIncreasing(xs: seq<int>)
  {
    forall i, j :: 0 <= i < j < |xs| ==> xs[i] < xs[j]
  }

  ghost predicate NonDecreasing(xs: seq<int>)
  {
    forall i, j :: 0 <= i <= j < |xs| ==> xs[i] <= xs[j]
  }

  /** The k-th cursor position of a walk from start in steps of f. */
  function GridPoint(start: int, f: int, k: nat): int
  {
    start + k * f
  }

  /** The hour of the day that t reports in UTC. */
  function HourOf(t: int): int
  {
    (t % Day) / Hour
  }

  // ---------------------------------------------------------------------------
  // The cursors

  /** The k-th cursor is k steps after the first. */
  lemma {:induction false} CursorsAt(c: int, e: int, f: int)
    requires 0 < f
    ensures forall k :: 0 <= k < |Cursors(c, e, f)| ==> Cursors(c, e, f)[k] == c + k * f
    decreases e - c
  {
    if c < e {
      CursorsAt(c + f, e, f);
      var cs := Cursors(c, e, f);
      var rest := Cursors(c + f, e, f);
      assert cs == [c] + rest;
      forall k | 0 < k < |cs|
        ensures cs[k] == c + k * f
      {
        assert cs[k] == rest[k - 1] == c + f + (k - 1) * f;
      }
    }
  }

  /** The last cursor is before e, and one more step would reach it. */
  lemma {:induction false} CursorsCount(c: int, e: int, f: int)
    requires 0 < f
    ensures c < e ==> c + (|Cursors(c, e, f)| - 1) * f < e <= c + |Cursors(c, e, f)| * f
    ensures e <= c ==> Cursors(c, e, f) == []
    decreases e - c
  {
    if c < e {
      CursorsCount(c + f, e, f);
      var n := |Cursors(c + f, e, f)|;
      assert |Cursors(c, e, f)| == n + 1;
      if c + f < e {
        assert c + f + (n - 1) * f == c + n * f;
        assert c + f + n * f == c + (n + 1) * f;
      }
    }
  }

  lemma CursorsShape(c: int, e: int, f: int)
    requires 0 < f
    ensures forall k :: 0 <= k < |Cursors(c, e, f)| ==> Cursors(c, e, f)[k] == c + k * f
    ensures c < e ==> c + (|Cursors(c, e, f)| - 1) * f < e <= c + |Cursors(c, e, f)| * f
    ensures e <= c ==> Cursors(c, e, f) == []
  {
    CursorsAt(c, e, f);
    CursorsCount(c, e, f);
  }

  lemma {:induction false} CursorsBounds(c: int, e: int, f: int)
    requires 0 < f
    ensures forall i :: 0 <= i < |Cursors(c, e, f)| ==> c <= Cursors(c, e, f)[i] < e
    decreases e - c
  {
    if c < e {
      CursorsBounds(c + f, e, f);
    }
  }

  lemma {:induction false} CursorsIncreasing(c: int, e: int, f: int)
    requires 0 < f
    ensures StrictlyIncreasing(Cursors(c, e, f))
    decreases e - c
  {
    if c < e {
      CursorsIncreasing(c + f, e, f);
      CursorsShape(c + f, e, f);
    }
  }

  /** Starting on a quarter-hour with a whole number of quarter-hours per step stays on the grid. */
  lemma {:induction false} CursorsAligned(c: int, e: int, f: int)
    requires 0 < f && c % Quarter == 0 && f % Quarter == 0
    ensures forall i :: 0 <= i < |Cursors(c, e, f)| ==> Cursors(c, e, f)[i] % Quarter == 0
    decreases e - c
  {
    if c < e {
      ModOfAligned(c, f);
      CursorsAligned(c + f, e, f);
    }
  }

  lemma MulMonotone(k: int, n: int, f: int)
    requires 0 <= f && k <= n
    ensures k * f <= n * f
  {
  }

  // ---------------------------------------------------------------------------
  // The three stages after the cursors

  lemma {:induction false} RoundAllNonDecreasing(xs: seq<int>)
    requires NonDecreasing(xs)
    ensures NonDecreasing(RoundAll(xs))
  {
    RoundAllAt(xs);
    forall i, j | 0 <= i <= j < |xs|
      ensures RoundAll(xs)[i] <= RoundAll(xs)[j]
    {
      RoundMonotone(xs[i], xs[j]);
    }
  }

  /** Cursors a frequency of at least a quarter-hour apart are a quarter-hour or more apart. */
  lemma {:induction false} CursorsSpaced(c: int, e: int, f: int)
    requires Quarter <= f
    ensures forall i, j :: 0 <= i < j < |Cursors(c, e, f)| ==> Cursors(c, e, f)[i] + Quarter <= Cursors(c, e, f)[j]
  {
    var cs := Cursors(c, e, f);
    CursorsShape(c, e, f);
    forall i, j | 0 <= i < j < |cs|
      ensures cs[i] + Quarter <= cs[j]
    {
      MulMonotone(i + 1, j, f);
    }
  }

  /** Rounding instants a quarter-hour or more apart keeps them strictly increasing. */
  lemma {:induction false} RoundAllSpread(xs: seq<int>)
    requires forall i, j :: 0 <= i < j < |xs| ==> xs[i] + Quarter <= xs[j]
    ensures StrictlyIncreasing(RoundAll(xs))
  {
    RoundAllAt(xs);
    forall i, j | 0 <= i < j < |xs|
      ensures RoundAll(xs)[i] < RoundAll(xs)[j]
    {
      RoundSeparates(xs[i], xs[j]);
    }
  }

  /** Cutting a sorted sequence at its first element above bound keeps exactly the elements up to bound. */
  lemma {:induction false} UpToMembers(xs: seq<int>, bound: int, x: int)
    requires NonDecreasing(xs)
    ensures x in UpTo(xs, bound) <==> x in xs && x <= bound
  {
    var rs := UpTo(xs, bound);
    UpToPrefix(xs, bound);
    if x in xs && x <= bound {
      var i :| 0 <= i < |xs| && xs[i] == x;
      assert rs[i] == x;
    }
  }

  lemma {:induction false} CollapseIncreasing(acc: seq<int>, xs: seq<int>)
    requires StrictlyIncreasing(acc)
    ensures StrictlyIncreasing(Collapse(acc, xs))
    decreases |xs|
  {
    if xs != [] {
      if acc == [] || acc[|acc| - 1] < xs[0] {
        CollapseIncreasing(acc + [xs[0]], xs[1..]);
      } else {
        CollapseIncreasing(acc, xs[1..]);
      }
    }
  }

  /** On a sorted input the guard only drops repeats: the kept values are those not below the last kept one. */
  lemma {:induction false} CollapseMembers(acc: seq<int>, xs: seq<int>, x: int)
    requires NonDecreasing(xs)
    ensures x in Collapse(acc, xs) <==> x in acc || (x in xs && (acc == [] || acc[|acc| - 1] < x))
    decreases |xs|
  {
    if xs != [] {
      var ys := xs[1..];
      assert xs == [xs[0]] + ys;
      assert NonDecreasing(ys);
      if acc == [] || acc[|acc| - 1] < xs[0] {
        CollapseMembers(acc + [xs[0]], ys, x);
        if x in ys {
          var i :| 0 <= i < |ys| && ys[i] == x;
          assert xs[0] <= xs[i + 1];
        }
      } else {
        CollapseMembers(acc, ys, x);
      }
    }
  }

  lemma {:induction false} CollapseOfIncreasing(acc: seq<int>, xs: seq<int>)
    requires StrictlyIncreasing(acc + xs)
    ensures Collapse(acc, xs) == acc + xs
    decreases |xs|
  {
    if xs != [] {
      assert (acc + xs)[|acc|] == xs[0];
      if acc != [] {
        assert (acc + xs)[|acc| - 1] == acc[|acc| - 1];
      }
      assert acc + xs == (acc + [xs[0]]) + xs[1..];
      CollapseOfIncreasing(acc + [xs[0]], xs[1..]);
    }
  }

  lemma {:induction false} CollapseLength(acc: seq<int>, xs: seq<int>)
    ensures |Collapse(acc, xs)| <= |acc| + |xs|
    ensures |acc| <= |Collapse(acc, xs)| && Collapse(acc, xs)[..|acc|] == acc
    decreases |xs|
  {
    if xs != [] {
      if acc == [] || acc[|acc| - 1] < xs[0] {
        CollapseLength(acc + [xs[0]], xs[1..]);
        assert (acc + [xs[0]])[..|acc|] == acc;
      } else {
        CollapseLength(acc, xs[1..]);
      }
    }
  }

  /** Every value the guard keeps came from acc or from xs. */
  lemma {:induction false} CollapseFrom(acc: seq<int>, xs: seq<int>, x: int)
    requires x in Collapse(acc, xs)
    ensures x in acc || x in xs
    decreases |xs|
  {
    if xs != [] {
      if acc == [] || acc[|acc| - 1] < xs[0] {
        CollapseFrom(acc + [xs[0]], xs[1..], x);
      } else {
        CollapseFrom(acc, xs[1..], x);
      }
    }
  }

  // ---------------------------------------------------------------------------
  // One day's takings

  /** The stages of DayTakings in order, for lemmas that need to name them. */
  lemma {:induction false} DayStages(f: int, now: int)
    requires 0 < f
    ensures NonDecreasing(Cursors(DayStart(now), DayEnd(now), f))
    ensures NonDecreasing(RoundAll(Cursors(DayStart(now), DayEnd(now), f)))
    ensures NonDecreasing(UpTo(RoundAll(Cursors(DayStart(now), DayEnd(now), f)), DayEnd(now)))
  {
    var cs := Cursors(DayStart(now), DayEnd(now), f);
    CursorsIncreasing(DayStart(now), DayEnd(now), f);
    RoundAllNonDecreasing(cs);
    UpToPrefix(RoundAll(cs), DayEnd(now));
  }

  lemma DayStartAligned(now: int)
    ensures DayStart(now) % Quarter == 0
  {
    var q := now / Day;
    assert DayStart(now) == q * Day + WindowOpens;
    QuarterDivMod(DayStart(now), q * 96 + 32, 0);
  }

  /** The window bound for any grid that starts on a quarter-hour c and ends at e. */
  lemma {:induction false} GridWithin(c: int, e: int, f: int, x: int)
    requires 0 < f && c % Quarter == 0
    requires x in Collapse([], UpTo(RoundAll(Cursors(c, e, f)), e))
    ensures c <= x <= e && x % Quarter == 0
  {
    var cs := Cursors(c, e, f);
    var up := UpTo(RoundAll(cs), e);
    CursorsShape(c, e, f);
    RoundAllAt(cs);
    UpToPrefix(RoundAll(cs), e);
    CollapseFrom([], up, x);
    var i :| 0 <= i < |up| && up[i] == x;
    assert x == RoundToNearest15(cs[i]);
    MulMonotone(0, i, f);
    assert c <= cs[i];
    RoundMonotone(c, cs[i]);
    RoundFixesQuarter(c);
  }

  /** Each taking is a quarter-hour of now's day between 08:00 and 22:00, both included. */
  lemma {:induction false} TakingsWithinWindow(f: int, now: int)
    requires 0 < f
    ensures forall x :: x in DayTakings(f, now) ==>
      DayStart(now) <= x <= DayEnd(now) && x % Quarter == 0
  {
    DayStartAligned(now);
    forall x | x in DayTakings(f, now)
      ensures DayStart(now) <= x <= DayEnd(now) && x % Quarter == 0
    {
      GridWithin(DayStart(now), DayEnd(now), f, x);
    }
  }

  lemma {:induction false} TakingsStrictlyIncreasing(f: int, now: int)
    requires 0 < f
    ensures StrictlyIncreasing(DayTakings(f, now))
  {
    CollapseIncreasing([], UpTo(RoundAll(Cursors(DayStart(now), DayEnd(now), f)), DayEnd(now)));
  }

  /** Every kept value is the rounding of a cursor before e, and is not after e. */
  lemma {:induction false} GridMembersSound(c: int, e: int, f: int, x: int)
    requires 0 < f
    requires x in Collapse([], UpTo(RoundAll(Cursors(c, e, f)), e))
    ensures x <= e && exists k: nat :: GridPoint(c, f, k) < e && x == RoundToNearest15(GridPoint(c, f, k))
  {
    var cs := Cursors(c, e, f);
    var up := UpTo(RoundAll(cs), e);
    RoundAllAt(cs);
    UpToPrefix(RoundAll(cs), e);
    CollapseFrom([], up, x);
    var i :| 0 <= i < |up| && up[i] == x;
    CursorsShape(c, e, f);
    assert x == RoundToNearest15(cs[i]);
    assert cs[i] == GridPoint(c, f, i);
    CursorsBounds(c, e, f);
  }

  /** On a sorted input, a value not after the bound is kept by the cut and the guard. */
  lemma {:induction false} KeptIfPresent(rs: seq<int>, e: int, x: int)
    requires NonDecreasing(rs) && x in rs && x <= e
    ensures x in Collapse([], UpTo(rs, e))
  {
    UpToMembers(rs, e, x);
    UpToPrefix(rs, e);
    var up := UpTo(rs, e);
    assert NonDecreasing(up) by {
      assert up == rs[..|up|];
    }
    CollapseMembers([], up, x);
  }

  /** The rounding of any cursor before e that is not after e is kept. */
  lemma {:induction false} GridMembersComplete(c: int, e: int, f: int, k: nat)
    requires 0 < f && GridPoint(c, f, k) < e && RoundToNearest15(GridPoint(c, f, k)) <= e
    ensures RoundToNearest15(GridPoint(c, f, k)) in Collapse([], UpTo(RoundAll(Cursors(c, e, f)), e))
  {
    var cs := Cursors(c, e, f);
    var rs := RoundAll(cs);
    CursorsShape(c, e, f);
    RoundAllAt(cs);
    if |cs| <= k {
      MulMonotone(|cs|, k, f);
    }
    assert cs[k] == GridPoint(c, f, k);
    CursorsIncreasing(c, e, f);
    RoundAllNonDecreasing(cs);
    KeptIfPresent(rs, e, rs[k]);
  }

  lemma {:induction false} GridMembers(c: int, e: int, f: int, x: int)
    requires 0 < f
    ensures x in Collapse([], UpTo(RoundAll(Cursors(c, e, f)), e)) <==>
      x <= e && exists k: nat :: GridPoint(c, f, k) < e && x == RoundToNearest15(GridPoint(c, f, k))
  {
    if x in Collapse([], UpTo(RoundAll(Cursors(c, e, f)), e)) {
      GridMembersSound(c, e, f, x);
    }
    if x <= e && exists k: nat :: GridPoint(c, f, k) < e && x == RoundToNearest15(GridPoint(c, f, k)) {
      var k: nat :| GridPoint(c, f, k) < e && x == RoundToNearest15(GridPoint(c, f, k));
      GridMembersComplete(c, e, f, k);
    }
  }

  /**
   * An instant is a taking exactly when it is the rounding of some cursor
   * position before 22:00 and is not after 22:00: stopping at the first
   * rounded value past 22:00 loses nothing that a filter would keep.
   */
  lemma {:induction false} TakingsMembership(f: int, now: int, x: int)
    requires 0 < f
    ensures x in DayTakings(f, now) <==>
      x <= DayEnd(now) &&
      exists k: nat :: GridPoint(DayStart(now), f, k) < DayEnd(now) && x == RoundToNearest15(GridPoint(DayStart(now), f, k))
  {
    GridMembers(DayStart(now), DayEnd(now), f, x);
  }

  /** An active schedule's first taking is 08:00. */
  lemma {:induction false} TakingsStartAtEight(f: int, now: int)
    requires 0 < f
    ensures |DayTakings(f, now)| > 0 && DayTakings(f, now)[0] == DayStart(now)
  {
    var ds, de := DayStart(now), DayEnd(now);
    DayStartAligned(now);
    RoundFixesQuarter(ds);
    var rest := RoundAll(Cursors(ds + f, de, f));
    RoundAllCursors(ds, de, f);
    UpToCons(ds, rest, de);
    CollapseCons([], ds, UpTo(rest, de));
    assert [] + [ds] == [ds];
    CollapseLength([ds], UpTo(rest, de));
  }

  lemma {:induction false} AlignedGrid(c: int, e: int, f: int)
    requires 0 < f && f % Quarter == 0 && c % Quarter == 0
    ensures Collapse([], UpTo(RoundAll(Cursors(c, e, f)), e)) == Cursors(c, e, f)
  {
    var cs := Cursors(c, e, f);
    CursorsAligned(c, e, f);
    CursorsBounds(c, e, f);
    CursorsIncreasing(c, e, f);
    RoundAllAt(cs);
    UpToPrefix(cs, e);
    forall i | 0 <= i < |cs|
      ensures RoundAll(cs)[i] == cs[i]
    {
      RoundFixesQuarter(cs[i]);
    }
    assert RoundAll(cs) == cs;
    assert UpTo(cs, e) == cs;
    assert [] + cs == cs;
    CollapseOfIncreasing([], cs);
  }

  /** A frequency of whole quarter-hours takes every cursor position unchanged. */
  lemma {:induction false} AlignedFrequencyTakings(f: int, now: int)
    requires 0 < f && f % Quarter == 0
    ensures DayTakings(f, now) == Cursors(DayStart(now), DayEnd(now), f)
  {
    DayStartAligned(now);
    AlignedGrid(DayStart(now), DayEnd(now), f);
  }

  /** With a frequency of whole quarter-hours, the k-th taking is k steps after 08:00. */
  lemma {:induction false} AlignedTakingsAt(f: int, now: int)
    requires 0 < f && f % Quarter == 0
    ensures forall k :: 0 <= k < |DayTakings(f, now)| ==> DayTakings(f, now)[k] == DayStart(now) + k * f
  {
    AlignedFrequencyTakings(f, now);
    CursorsShape(DayStart(now), DayEnd(now), f);
  }

  lemma {:induction false} HourOfWindow(now: int, x: int)
    requires DayStart(now) <= x < DayEnd(now)
    ensures 8 <= HourOf(x) < 22
  {
    var d := DayStart(now) - WindowOpens;
    assert d % Day == 0;
    assert x % Day == x - d;
  }

  /**
   * With a frequency of whole quarter-hours, n takings cover the window: the
   * last one is before 22:00 and one more step would reach it.
   */
  lemma {:induction false} AlignedCount(f: int, now: int)
    requires 0 < f && f % Quarter == 0
    ensures (|DayTakings(f, now)| - 1) * f < AvailableTime * Hour <= |DayTakings(f, now)| * f
    ensures forall x :: x in DayTakings(f, now) ==> DayStart(now) <= x < DayEnd(now) && 8 <= HourOf(x) < 22
  {
    var ds, de := DayStart(now), DayEnd(now);
    AlignedFrequencyTakings(f, now);
    CursorsShape(ds, de, f);
    CursorsBounds(ds, de, f);
    forall x | x in DayTakings(f, now)
      ensures ds <= x < de && 8 <= HourOf(x) < 22
    {
      HourOfWindow(now, x);
    }
  }

  /** An hourly schedule is due 14 times a day, each within 08:00 to 22:00. */
  lemma {:induction false} HourlyTakesFourteen(now: int)
    ensures |DayTakings(Hour, now)| == 14
    ensures forall x :: x in DayTakings(Hour, now) ==> DayStart(now) <= x < DayEnd(now) && 8 <= HourOf(x) < 22
  {
    AlignedCount(Hour, now);
  }

  /** A half-hourly schedule is due 28 times a day, each within 08:00 to 22:00. */
  lemma {:induction false} HalfHourlyTakesTwentyEight(now: int)
    ensures |DayTakings(30 * Minute, now)| == 28
    ensures forall x :: x in DayTakings(30 * Minute, now) ==> DayStart(now) <= x < DayEnd(now) && 8 <= HourOf(x) < 22
  {
    AlignedCount(30 * Minute, now);
  }

  /** 22:00 itself can be a taking: every 59 minutes, the cursor at 21:46 rounds up to it. */
  lemma {:induction false} WindowEndReachable(now: int)
    ensures DayEnd(now) in DayTakings(59 * Minute, now)
  {
    var ds := DayStart(now);
    DayStartAligned(now);
    ModOfAligned(ds, 825 * Minute);
    RoundInQuarter(ds + 825 * Minute, Minute);
    assert GridPoint(ds, 59 * Minute, 14) == ds + 825 * Minute + Minute;
    GridMembersComplete(ds, DayEnd(now), 59 * Minute, 14);
  }

  /** With a frequency of at least 15 minutes the duplicate guard never drops a value. */
  lemma {:induction false} ValidFrequencyNeverCollapses(f: int, now: int)
    requires Quarter <= f
    ensures DayTakings(f, now) == UpTo(RoundAll(Cursors(DayStart(now), DayEnd(now), f)), DayEnd(now))
  {
    var rs := RoundAll(Cursors(DayStart(now), DayEnd(now), f));
    var up := UpTo(rs, DayEnd(now));
    CursorsSpaced(DayStart(now), DayEnd(now), f);
    RoundAllSpread(Cursors(DayStart(now), DayEnd(now), f));
    UpToPrefix(rs, DayEnd(now));
    assert StrictlyIncreasing(up);
    assert [] + up == up;
    CollapseOfIncreasing([], up);
  }

  /** A frequency of at least 15 minutes gives at most 56 takings a day. */
  lemma {:induction false} ValidFrequencyAtMost56(f: int, now: int)
    requires Quarter <= f
    ensures |DayTakings(f, now)| <= 56
  {
    var ds, de := DayStart(now), DayEnd(now);
    var cs := Cursors(ds, de, f);
    CursorsShape(ds, de, f);
    var n := |cs|;
    MulMonotone(Quarter, f, n - 1);
    assert (n - 1) * Quarter < 56 * Quarter;
    RoundAllAt(cs);
    UpToPrefix(RoundAll(cs), de);
    CollapseLength([], UpTo(RoundAll(cs), de));
  }
}
