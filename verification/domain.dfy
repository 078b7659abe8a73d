/**
 * The schedule record and the dosing-time rules of the domain package:
 * validation, the active window, the quarter-hour rounding policy and the
 * generation of one day's takings.
 *
 * Instants are integer nanoseconds since 1970-01-01T00:00:00Z and durations
 * are integer nanoseconds, as Go's time.Duration counts them. Only UTC is
 * modelled, so the calendar fields an instant reports (its day, its minute)
 * follow from Euclidean division.
 */
module Domain {
  import opened Wrappers

  const Second: int := 1_000_000_000
  const Minute: int := 60_000_000_000
  const Hour: int := 3_600_000_000_000
  const Day: int := 86_400_000_000_000

  /** Length of the daily dosing window, in hours. */
  const AvailableTime: int := 14
  /** Resolution of the rounding policy, in minutes. */
  const RoundTo: int := 15
  /** The rounding grid as a duration. */
  const Quarter: int := 900_000_000_000
  /** Offset of the window's opening (08:00) from midnight. */
  const WindowOpens: int := 28_800_000_000_000

  /** One medication schedule; `takings` is only filled in for a response. */
  datatype Schedule = Schedule(
    id: int,
    userID: int,
    medication: string,
    frequency: int,
    duration: int,
    startTime: int,
    endTime: int,
    takings: seq<int>)

  datatype ValidationError = InvalidFrequency | InvalidDuration

  /** The frequency check comes first; `None` means the schedule is valid. */
  function Validate(s: Schedule): (err: Option<ValidationError>)
    ensures err == Some(InvalidFrequency) <==> s.frequency < RoundTo * Minute
    ensures err == Some(InvalidDuration) <==> RoundTo * Minute <= s.frequency && s.duration < 0
    ensures err == None <==> RoundTo * Minute <= s.frequency && 0 <= s.duration
  {
    if s.frequency < 15 * Minute then Some(InvalidFrequency)
    else if s.duration < 0 then Some(InvalidDuration)
    else None
  }

  /** A zero duration is perpetual; otherwise both bounds are exclusive. */
  predicate IsActive(s: Schedule, now: int)
  {
    s.duration == 0 || (s.startTime < now && now < s.endTime)
  }

  lemma ActiveWindow(s: Schedule, now: int)
    ensures s.duration == 0 ==> IsActive(s, now)
    ensures s.duration != 0 && (now == s.startTime || now == s.endTime) ==> !IsActive(s, now)
    ensures s.duration != 0 && IsActive(s, now) ==> s.startTime < now < s.endTime
  {
  }

  // ---------------------------------------------------------------------------
  // Rounding policy

  /** The minute of the hour that t reports in UTC. */
  function MinuteOf(t: int): int
  {
    (t % Hour) / Minute
  }

  /** t rounded down to a multiple of d, as Go's Time.Truncate does. */
  function Truncate(t: int, d: int): int
    requires 0 < d
  {
    t - t % d
  }

  lemma ModOfAligned(a: int, b: int)
    requires a % Quarter == 0
    ensures (a + b) % Quarter == b % Quarter
  {
  }

  /** The minute of the hour, taken modulo 15, is the number of whole minutes past the quarter. */
  lemma MinuteInQuarter(t: int)
    ensures MinuteOf(t) % RoundTo == (t % Quarter) / Minute
  {
    var h := t % Hour;
    var q := h / Quarter;
    var a := h % Quarter;
    assert h == q * Quarter + a;
    assert 0 <= q < 4;
    assert t % Quarter == a by {
      ModOfAligned(t - h, h);
    }
    if q == 0 {
      assert h / Minute == a / Minute;
    } else if q == 1 {
      assert h / Minute == 15 + a / Minute;
    } else if q == 2 {
      assert h / Minute == 30 + a / Minute;
    } else {
      assert h / Minute == 45 + a / Minute;
    }
  }

  /** What each branch of RoundToNearest15 computes, in terms of t's offset into its quarter. */
  lemma RoundBranches(t: int)
    ensures MinuteOf(t) % RoundTo == 0 <==> t % Quarter < Minute
    ensures MinuteOf(t) % RoundTo != 0 ==>
      Truncate(t + (RoundTo - MinuteOf(t) % RoundTo) * Minute, Quarter) == t - t % Quarter + Quarter
    ensures Truncate(t, Quarter) % Quarter == 0 && (Truncate(t, Quarter) + Quarter) % Quarter == 0
  {
    QuarterDivMod(Truncate(t, Quarter), t / Quarter, 0);
    QuarterDivMod(Truncate(t, Quarter) + Quarter, t / Quarter + 1, 0);
    MinuteInQuarter(t);
    var remainder := MinuteOf(t) % RoundTo;
    var a := t % Quarter;
    if remainder != 0 {
      var s := a - remainder * Minute;
      assert 0 <= s < Minute;
      var u := t + (RoundTo - remainder) * Minute;
      assert u == (t - a + Quarter) + s;
      ModOfAligned(t - a + Quarter, s);
    }
  }

  /**
   * Moves t up to the next quarter-hour, dropping seconds and smaller
   * components; a whole-minute quarter-hour is kept as it is. An instant
   * whose minute is already on the grid is truncated down to it, so the
   * result can lie up to a minute below t.
   */
  function RoundToNearest15(t: int): (r: int)
    ensures r % Quarter == 0
    ensures t - Minute < r < t + Quarter
  {
    RoundBranches(t);
    var remainder := MinuteOf(t) % RoundTo;
    if remainder == 0 then
      Truncate(t, Quarter)
    else
      Truncate(t + (RoundTo - remainder) * Minute, Quarter)
  }

  /** Dropping the seconds of t, then moving up to the next quarter-hour unless already on one. */
  function MinuteCeiling(t: int): int
  {
    var u := Truncate(t, Minute);
    if u % Quarter == 0 then u else u - u % Quarter + Quarter
  }

  /** x's quotient and remainder by a quarter-hour, recognised from any such decomposition. */
  lemma QuarterDivMod(x: int, q: int, r: int)
    requires x == q * Quarter + r && 0 <= r < Quarter
    ensures x / Quarter == q && x % Quarter == r
  {
  }

  /** The same for minutes. */
  lemma MinuteDivMod(x: int, q: int, r: int)
    requires x == q * Minute + r && 0 <= r < Minute
    ensures x / Minute == q && x % Minute == r
  {
  }

  lemma MinuteOfQuarterOffset(t: int)
    ensures t % Minute == (t % Quarter) % Minute
  {
    var k, a := t / Quarter, t % Quarter;
    var m, s := a / Minute, a % Minute;
    assert t == (15 * k + m) * Minute + s;
    MinuteDivMod(t, 15 * k + m, s);
  }

  /** The rounding policy is the ceiling, to the quarter-hour, of t truncated to the minute. */
  lemma {:induction false} RoundIsMinuteCeiling(t: int)
    ensures RoundToNearest15(t) == MinuteCeiling(t)
  {
    RoundFormula(t);
    MinuteOfQuarterOffset(t);
    var q, a := t / Quarter, t % Quarter;
    var m, s := a / Minute, a % Minute;
    var u := Truncate(t, Minute);
    assert u == q * Quarter + m * Minute;
    assert 0 <= m < 15;
    QuarterDivMod(u, q, m * Minute);
    assert m == 0 <==> a < Minute;
  }

  /** The result reads as a quarter-hour: its minute is a multiple of 15 and nothing finer is left. */
  lemma {:induction false} RoundedIsQuarterHour(t: int)
    ensures MinuteOf(RoundToNearest15(t)) % RoundTo == 0
    ensures RoundToNearest15(t) % Minute == 0
  {
    var r := RoundToNearest15(t);
    MinuteInQuarter(r);
    MinuteOfQuarterOffset(r);
  }

  /** An instant on a whole minute is moved up by less than a quarter-hour. */
  lemma {:induction false} RoundWholeMinute(t: int)
    requires t % Minute == 0
    ensures t <= RoundToNearest15(t) < t + Quarter
  {
    RoundIsMinuteCeiling(t);
  }

  /** A quarter-hour is its own rounding. */
  lemma {:induction false} RoundFixesQuarter(t: int)
    requires t % Quarter == 0
    ensures RoundToNearest15(t) == t
  {
    RoundBranches(t);
  }

  lemma {:induction false} RoundIdempotent(t: int)
    ensures RoundToNearest15(RoundToNearest15(t)) == RoundToNearest15(t)
  {
    RoundFixesQuarter(RoundToNearest15(t));
  }

  /** Rounding in terms of the quarter t falls in: its start, or the next one from a minute in. */
  lemma RoundFormula(t: int)
    ensures RoundToNearest15(t) == (t / Quarter) * Quarter + (if t % Quarter < Minute then 0 else Quarter)
  {
    RoundBranches(t);
  }

  /** Rounding never reorders two instants. */
  lemma {:induction false} RoundMonotone(t1: int, t2: int)
    requires t1 <= t2
    ensures RoundToNearest15(t1) <= RoundToNearest15(t2)
  {
    RoundFormula(t1);
    RoundFormula(t2);
    var q1, q2 := t1 / Quarter, t2 / Quarter;
    assert q1 <= q2;
    if q1 < q2 {
      assert q1 * Quarter + Quarter <= q2 * Quarter;
    }
  }

  /** Instants a quarter-hour or more apart round to different quarter-hours. */
  lemma {:induction false} RoundSeparates(t1: int, t2: int)
    requires t1 + Quarter <= t2
    ensures RoundToNearest15(t1) + Quarter <= RoundToNearest15(t2)
  {
    RoundFormula(t1);
    RoundFormula(t2);
    var q1, q2 := t1 / Quarter, t2 / Quarter;
    assert q1 + 1 <= q2;
    if q1 + 1 == q2 {
      assert t1 % Quarter <= t2 % Quarter;
    } else {
      assert q1 * Quarter + 2 * Quarter <= q2 * Quarter;
    }
  }

  /** The instant at h:m:s of the UTC day that starts `days` days after 1970-01-01. */
  function At(days: int, h: int, m: int, s: int): int
  {
    days * Day + h * Hour + m * Minute + s * Second
  }

  /** 2025-01-01 is day 20089 after 1970-01-01. */
  const NewYear2025: int := 20089

  /** Rounding an instant given as a quarter-hour plus an offset into that quarter. */
  lemma {:induction false} RoundInQuarter(base: int, offset: int)
    requires base % Quarter == 0 && 0 <= offset < Quarter
    ensures RoundToNearest15(base + offset) == if offset < Minute then base else base + Quarter
  {
    assert base == (base / Quarter) * Quarter;
    QuarterDivMod(base + offset, base / Quarter, offset);
    RoundFormula(base + offset);
  }

  /** The instants pinned for the rounding policy, on 2025-01-01 UTC. */
  lemma {:induction false} RoundExamples()
    ensures RoundToNearest15(At(NewYear2025, 9, 7, 0)) == At(NewYear2025, 9, 15, 0)
    ensures RoundToNearest15(At(NewYear2025, 14, 52, 0)) == At(NewYear2025, 15, 0, 0)
    ensures RoundToNearest15(At(NewYear2025, 22, 5, 0)) == At(NewYear2025, 22, 15, 0)
    ensures RoundToNearest15(At(NewYear2025, 9, 15, 30)) == At(NewYear2025, 9, 15, 0)
  {
    RoundInQuarter(At(NewYear2025, 9, 0, 0), 7 * Minute);
    RoundInQuarter(At(NewYear2025, 14, 45, 0), 7 * Minute);
    RoundInQuarter(At(NewYear2025, 22, 0, 0), 5 * Minute);
    RoundInQuarter(At(NewYear2025, 9, 15, 0), 30 * Second);
  }

  // ---------------------------------------------------------------------------
  // One day's takings

  /** 08:00 of the UTC day that contains now. */
  function DayStart(now: int): (d: int)
    ensures d % Day == WindowOpens
    ensures d - WindowOpens <= now < d - WindowOpens + Day
  {
    now - now % Day + WindowOpens
  }

  /** x's quotient and remainder by a day, recognised from any such decomposition. */
  lemma DayDivMod(x: int, q: int, r: int)
    requires x == q * Day + r && 0 <= r < Day
    ensures x / Day == q && x % Day == r
  {
  }

  /** The window of any instant of day d opens at 08:00 of day d. */
  lemma DayStartAt(d: int, h: int, m: int, sec: int)
    requires 0 <= h < 24 && 0 <= m < 60 && 0 <= sec < 60
    ensures DayStart(At(d, h, m, sec)) == At(d, 8, 0, 0)
  {
    DayDivMod(At(d, h, m, sec), d, h * Hour + m * Minute + sec * Second);
  }

  /** 22:00 of the UTC day that contains now: the end of the dosing window. */
  function DayEnd(now: int): int
  {
    DayStart(now) + AvailableTime * Hour
  }

  /** The raw cursor positions c, c + f, c + 2f, ... that lie strictly before end. */
  function Cursors(c: int, end: int, f: int): seq<int>
    requires 0 < f
    decreases end - c
  {
    if c < end then [c] + Cursors(c + f, end, f) else []
  }

  /** Each instant of xs, rounded. */
  function RoundAll(xs: seq<int>): seq<int>
  {
    if xs == [] then [] else [RoundToNearest15(xs[0])] + RoundAll(xs[1..])
  }

  lemma {:induction false} RoundAllAt(xs: seq<int>)
    ensures |RoundAll(xs)| == |xs|
    ensures forall i :: 0 <= i < |xs| ==> RoundAll(xs)[i] == RoundToNearest15(xs[i])
  {
    if xs != [] {
      RoundAllAt(xs[1..]);
      var rs := RoundAll(xs);
      assert rs == [RoundToNearest15(xs[0])] + RoundAll(xs[1..]);
      forall i | 0 < i < |xs|
        ensures rs[i] == RoundToNearest15(xs[i])
      {
        assert rs[i] == RoundAll(xs[1..])[i - 1];
        assert xs[i] == xs[1..][i - 1];
      }
    }
  }

  /** The longest prefix of xs none of whose elements is later than bound. */
  function UpTo(xs: seq<int>, bound: int): seq<int>
  {
    if xs == [] || bound < xs[0] then [] else [xs[0]] + UpTo(xs[1..], bound)
  }

  lemma {:induction false} UpToPrefix(xs: seq<int>, bound: int)
    ensures |UpTo(xs, bound)| <= |xs| && UpTo(xs, bound) == xs[..|UpTo(xs, bound)|]
    ensures forall i :: 0 <= i < |UpTo(xs, bound)| ==> UpTo(xs, bound)[i] <= bound
    ensures |UpTo(xs, bound)| < |xs| ==> bound < xs[|UpTo(xs, bound)|]
  {
    if xs != [] && xs[0] <= bound {
      UpToPrefix(xs[1..], bound);
      var rs := UpTo(xs, bound);
      var tail := UpTo(xs[1..], bound);
      assert rs == [xs[0]] + tail;
      assert xs == [xs[0]] + xs[1..];
      assert xs[..|rs|] == [xs[0]] + xs[1..][..|tail|];
      forall i | 0 < i < |rs|
        ensures rs[i] <= bound
      {
        assert rs[i] == tail[i - 1];
      }
      if |rs| < |xs| {
        assert xs[|rs|] == xs[1..][|tail|];
      }
    }
  }

  /** acc extended by each element of xs that is later than everything kept so far. */
  function Collapse(acc: seq<int>, xs: seq<int>): seq<int>
    decreases |xs|
  {
    if xs == [] then acc
    else if acc == [] || acc[|acc| - 1] < xs[0] then Collapse(acc + [xs[0]], xs[1..])
    else Collapse(acc, xs[1..])
  }

  /**
   * The takings of one day for frequency f: the cursors from 08:00 in steps
   * of f before 22:00, each rounded, cut off at the first rounded value after
   * 22:00, keeping only values later than the one kept before them.
   */
  function DayTakings(f: int, now: int): seq<int>
    requires 0 < f
  {
    Collapse([], UpTo(RoundAll(Cursors(DayStart(now), DayEnd(now), f)), DayEnd(now)))
  }

  /** What CalculateTakings returns: nothing for an inactive schedule. */
  function Takings(s: Schedule, now: int): seq<int>
    requires IsActive(s, now) ==> 0 < s.frequency
  {
    if IsActive(s, now) then DayTakings(s.frequency, now) else []
  }

  /**
   * The cursor walk from c: each cursor before e is rounded, the walk stops at
   * the first rounded value after e, and a rounded value is kept only when it
   * is later than the last one kept.
   */
  function Walk(acc: seq<int>, c: int, e: int, f: int): seq<int>
    requires 0 < f
    decreases e - c
  {
    if e <= c then acc
    else
      var r := RoundToNearest15(c);
      if e < r then acc
      else Walk(if acc == [] || acc[|acc| - 1] < r then acc + [r] else acc, c + f, e, f)
  }

  lemma UpToCons(x: int, xs: seq<int>, bound: int)
    ensures UpTo([x] + xs, bound) == if bound < x then [] else [x] + UpTo(xs, bound)
  {
    assert ([x] + xs)[0] == x && ([x] + xs)[1..] == xs;
  }

  lemma CollapseCons(acc: seq<int>, x: int, xs: seq<int>)
    ensures Collapse(acc, [x] + xs) ==
      Collapse(if acc == [] || acc[|acc| - 1] < x then acc + [x] else acc, xs)
  {
    assert ([x] + xs)[0] == x && ([x] + xs)[1..] == xs;
  }

  lemma RoundAllCursors(c: int, e: int, f: int)
    requires 0 < f && c < e
    ensures RoundAll(Cursors(c, e, f)) == [RoundToNearest15(c)] + RoundAll(Cursors(c + f, e, f))
  {
    var cs := Cursors(c, e, f);
    assert cs == [c] + Cursors(c + f, e, f);
    assert cs[0] == c && cs[1..] == Cursors(c + f, e, f);
  }

  /** The walk and the staged definition agree: stopping at the first late value is the cut of UpTo. */
  lemma {:induction false} WalkIsStaged(acc: seq<int>, c: int, e: int, f: int)
    requires 0 < f
    ensures Walk(acc, c, e, f) == Collapse(acc, UpTo(RoundAll(Cursors(c, e, f)), e))
    decreases e - c
  {
    if c < e {
      var r := RoundToNearest15(c);
      var rest := RoundAll(Cursors(c + f, e, f));
      RoundAllCursors(c, e, f);
      UpToCons(r, rest, e);
      if r <= e {
        var acc' := if acc == [] || acc[|acc| - 1] < r then acc + [r] else acc;
        assert Walk(acc, c, e, f) == Walk(acc', c + f, e, f);
        CollapseCons(acc, r, UpTo(rest, e));
        WalkIsStaged(acc', c + f, e, f);
      } else {
        assert Walk(acc, c, e, f) == acc;
      }
    } else {
      assert Cursors(c, e, f) == [];
    }
  }

  /**
   * Walks the cursor through today's window. A non-positive frequency would
   * make the walk endless, so an active schedule needs a positive one.
   */
  method CalculateTakings(s: Schedule, now: int) returns (takings: seq<int>)
    requires IsActive(s, now) ==> 0 < s.frequency
    ensures takings == Takings(s, now)
  {
    if !IsActive(s, now) {
      return [];
    }
    var dayStart := DayStart(now);
    var dayEnd := dayStart + AvailableTime * Hour;
    WalkIsStaged([], dayStart, dayEnd, s.frequency);
    takings := [];
    var current := dayStart;
    while current < dayEnd
      invariant Walk(takings, current, dayEnd, s.frequency) == Walk([], dayStart, dayEnd, s.frequency)
      decreases dayEnd - current
    {
      var rounded := RoundToNearest15(current);
      if rounded > dayEnd {
        break;
      }
      if |takings| == 0 || rounded > takings[|takings| - 1] {
        takings := takings + [rounded];
      }
      current := current + s.frequency;
    }
  }
}
