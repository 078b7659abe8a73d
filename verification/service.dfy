/**
 * The schedule service: creating a schedule (validation, then stamping its
 * validity window), reading one schedule with today's takings, and the
 * "next takings" query over a user's schedules.
 *
 * The repository is not modelled: what it answers is a parameter of each
 * operation, and the calls to its Create are kept in a ghost log. The
 * current instant is a parameter wherever the service reads the clock.
 */
module Service {
  import opened Wrappers
  import opened Domain
  import opened GridFacts

  /** An error reported by the repository; what it says is the repository's business. */
  datatype RepoError = RepoError(message: string)

  datatype ServiceError =
    | InvalidSchedule(reason: ValidationError)  // "invalid schedule: ..." around the validation error
    | FailedToGet(cause: RepoError)            // "failed to get schedule: ..." around the repository error
    | RepoFailure(cause: RepoError)            // the repository's error, passed on as it is

  /** 9999-12-31T23:59:59Z, the end time of a perpetual schedule. */
  const PerpetualEnd: int := At(2932896, 23, 59, 59)

  /** The schedule with the validity window it gets when created at now. */
  function Stamp(s: Schedule, now: int): Schedule
  {
    s.(startTime := now, endTime := if s.duration > 0 then now + s.duration else PerpetualEnd)
  }

  /**
   * A created schedule is active exactly while its duration has not run out:
   * always when perpetual, otherwise strictly between its creation and its
   * creation plus its duration.
   */
  lemma {:induction false} StampedActivity(s: Schedule, created: int, now: int)
    requires Validate(s) == None
    ensures IsActive(Stamp(s, created), now) <==>
      s.duration == 0 || (created < now < created + s.duration)
    ensures s.duration == 0 ==> Stamp(s, created).endTime == PerpetualEnd
  {
  }

  /** The first element of ts strictly between lo and hi. */
  function FirstDue(ts: seq<int>, lo: int, hi: int): (r: Option<int>)
    ensures r.Some? ==> lo < r.value < hi
    ensures r.Some? ==> exists p :: 0 <= p < |ts| && ts[p] == r.value &&
                                    forall q :: 0 <= q < p ==> !(lo < ts[q] < hi)
    ensures r.None? <==> forall p :: 0 <= p < |ts| ==> !(lo < ts[p] < hi)
  {
    if ts == [] then None
    else if lo < ts[0] < hi then Some(ts[0])
    else
      var r := FirstDue(ts[1..], lo, hi);
      assert r.Some? ==> exists p :: 0 < p < |ts| && ts[p] == r.value &&
                                     forall q :: 0 <= q < p ==> !(lo < ts[q] < hi) by {
        if r.Some? {
          var p :| 0 <= p < |ts| - 1 && ts[1..][p] == r.value &&
            forall q :: 0 <= q < p ==> !(lo < ts[1..][q] < hi);
          assert ts[p + 1] == r.value;
          forall q | 0 <= q < p + 1
            ensures !(lo < ts[q] < hi)
          {
            if q > 0 {
              assert ts[q] == ts[1..][q - 1];
            }
          }
        }
      }
      assert r.None? <==> forall p :: 0 <= p < |ts| ==> !(lo < ts[p] < hi) by {
        if r.None? {
          forall p | 0 < p < |ts|
            ensures !(lo < ts[p] < hi)
          {
            assert ts[p] == ts[1..][p - 1];
          }
        }
      }
      r
  }

  /** In a strictly increasing sequence, an element with nothing in range before it is below everything in range. */
  lemma {:induction false} EarliestFrom(ts: seq<int>, lo: int, hi: int, p: int)
    requires StrictlyIncreasing(ts) && 0 <= p < |ts|
    requires forall q :: 0 <= q < p ==> !(lo < ts[q] < hi)
    ensures forall t :: t in ts && lo < t < hi ==> ts[p] <= t
  {
    forall t | t in ts && lo < t < hi
      ensures ts[p] <= t
    {
      var q :| 0 <= q < |ts| && ts[q] == t;
      if p < q {
        assert ts[p] < ts[q];
      }
    }
  }

  /** In a strictly increasing sequence the first element in range is also the smallest in range. */
  lemma {:induction false} FirstDueIsEarliest(ts: seq<int>, lo: int, hi: int)
    requires StrictlyIncreasing(ts) && FirstDue(ts, lo, hi).Some?
    ensures FirstDue(ts, lo, hi).value in ts
    ensures forall t :: t in ts && lo < t < hi ==> FirstDue(ts, lo, hi).value <= t
  {
    var p :| 0 <= p < |ts| && ts[p] == FirstDue(ts, lo, hi).value &&
      forall q :: 0 <= q < p ==> !(lo < ts[q] < hi);
    EarliestFrom(ts, lo, hi, p);
  }

  /**
   * The scan over one schedule's takings: the first taking whose rounding
   * lies in the window [dayStart, dayEnd] and strictly inside (lo, hi),
   * reported rounded.
   */
  function FirstInWindow(ts: seq<int>, dayStart: int, dayEnd: int, lo: int, hi: int): Option<int>
  {
    if ts == [] then None
    else
      var rounded := RoundToNearest15(ts[0]);
      if dayStart <= rounded <= dayEnd && lo < rounded < hi then Some(rounded)
      else FirstInWindow(ts[1..], dayStart, dayEnd, lo, hi)
  }

  /** On values that are already rounded and inside the window, the scan is FirstDue. */
  lemma {:induction false} FirstInWindowOfRounded(ts: seq<int>, dayStart: int, dayEnd: int, lo: int, hi: int)
    requires forall t :: t in ts ==> RoundToNearest15(t) == t && dayStart <= t <= dayEnd
    ensures FirstInWindow(ts, dayStart, dayEnd, lo, hi) == FirstDue(ts, lo, hi)
  {
    if ts != [] {
      assert ts[0] in ts;
      assert forall t :: t in ts[1..] ==> t in ts;
      FirstInWindowOfRounded(ts[1..], dayStart, dayEnd, lo, hi);
    }
  }

  /** Scans ts as the service does, stopping at the first rounded taking due in (lo, hi). */
  method ScanTakings(ts: seq<int>, dayStart: int, dayEnd: int, lo: int, hi: int) returns (first: Option<int>)
    ensures first == FirstInWindow(ts, dayStart, dayEnd, lo, hi)
  {
    var j := 0;
    while j < |ts|
      invariant 0 <= j <= |ts|
      invariant FirstInWindow(ts[j..], dayStart, dayEnd, lo, hi) == FirstInWindow(ts, dayStart, dayEnd, lo, hi)
    {
      assert ts[j..][1..] == ts[j + 1..];
      var rounded := RoundToNearest15(ts[j]);
      if dayStart <= rounded && rounded <= dayEnd && lo < rounded && rounded < hi {
        return Some(rounded);
      }
      j := j + 1;
    }
    return None;
  }

  /** What the next-takings query reports for one schedule, before the properties below. */
  function NextTaking(s: Schedule, now: int, period: int): Option<Schedule>
    requires IsActive(s, now) ==> 0 < s.frequency
  {
    if !IsActive(s, now) then None
    else
      var dayStart := DayStart(now);
      match FirstInWindow(Takings(s, now), dayStart, dayStart + 14 * Hour, now, now + period)
      case None => None
      case Some(t) => Some(s.(takings := [t]))
  }

  /** The window check and the re-rounding drop nothing, so the scan reports FirstDue of the takings. */
  lemma {:induction false} NextTakingByFirstDue(s: Schedule, now: int, period: int)
    requires IsActive(s, now) ==> 0 < s.frequency
    ensures NextTaking(s, now, period) ==
      if !IsActive(s, now) then None
      else match FirstDue(Takings(s, now), now, now + period)
        case None => None
        case Some(t) => Some(s.(takings := [t]))
  {
    if IsActive(s, now) {
      var ts := Takings(s, now);
      assert ts == DayTakings(s.frequency, now);
      ReRoundingKeepsTakings(s.frequency, now);
      FirstInWindowOfRounded(ts, DayStart(now), DayStart(now) + 14 * Hour, now, now + period);
      assert FirstInWindow(ts, DayStart(now), DayStart(now) + 14 * Hour, now, now + period) == FirstDue(ts, now, now + period);
    }
  }

  /**
   * One schedule's next taking: nothing when the schedule is inactive or has
   * no taking strictly inside (now, now + period); otherwise the schedule,
   * unchanged but for carrying exactly one taking, the earliest of today's
   * takings inside that interval.
   */
  lemma {:induction false} NextTakingSpec(s: Schedule, now: int, period: int)
    requires IsActive(s, now) ==> 0 < s.frequency
    ensures NextTaking(s, now, period).None? <==>
      !IsActive(s, now) || forall t :: t in Takings(s, now) ==> !(now < t < now + period)
    ensures NextTaking(s, now, period).Some? ==>
      var r := NextTaking(s, now, period).value;
      IsActive(s, now) && r == s.(takings := r.takings) && |r.takings| == 1 &&
      r.takings[0] in Takings(s, now) && now < r.takings[0] < now + period &&
      forall t :: t in Takings(s, now) && now < t < now + period ==> r.takings[0] <= t
  {
    NextTakingByFirstDue(s, now, period);
    if IsActive(s, now) {
      var ts := DayTakings(s.frequency, now);
      assert Takings(s, now) == ts;
      var first := FirstDue(ts, now, now + period);
      if first.Some? {
        TakingsStrictlyIncreasing(s.frequency, now);
        FirstDueIsEarliest(ts, now, now + period);
      }
    }
  }

  /** The present values of opts, in their order. */
  function Somes<T>(opts: seq<Option<T>>): seq<T>
  {
    if opts == [] then []
    else
      var last := opts[|opts| - 1];
      Somes(opts[..|opts| - 1]) + (if last.Some? then [last.value] else [])
  }

  /** The positions of the present values of opts, in their order. */
  function Origins<T>(opts: seq<Option<T>>): seq<nat>
  {
    if opts == [] then []
    else
      var n := |opts| - 1;
      Origins(opts[..n]) + (if opts[n].Some? then [n] else [])
  }

  /** Each present value comes from the position Origins gives for it. */
  lemma {:induction false} OriginsMatch<T>(opts: seq<Option<T>>)
    ensures |Origins(opts)| == |Somes(opts)|
    ensures forall k :: 0 <= k < |Origins(opts)| ==>
      Origins(opts)[k] < |opts| && opts[Origins(opts)[k]] == Some(Somes(opts)[k])
  {
    if opts != [] {
      var n := |opts| - 1;
      var init := opts[..n];
      OriginsMatch(init);
      var o, r := Origins(opts), Somes(opts);
      var po, pr := Origins(init), Somes(init);
      assert o == po + (if opts[n].Some? then [n] else []);
      assert r == pr + (if opts[n].Some? then [opts[n].value] else []);
      forall k | 0 <= k < |o|
        ensures o[k] < |opts| && opts[o[k]] == Some(r[k])
      {
        if k < |po| {
          assert o[k] == po[k] && r[k] == pr[k];
          assert opts[po[k]] == init[po[k]];
        }
      }
    }
  }

  /** The positions are increasing and within opts. */
  lemma {:induction false} OriginsIncreasing<T>(opts: seq<Option<T>>)
    ensures forall k :: 0 <= k < |Origins(opts)| ==> Origins(opts)[k] < |opts|
    ensures forall k, l :: 0 <= k < l < |Origins(opts)| ==> Origins(opts)[k] < Origins(opts)[l]
  {
    if opts != [] {
      var n := |opts| - 1;
      OriginsIncreasing(opts[..n]);
    }
  }

  /** Every present value's position is recorded. */
  lemma {:induction false} OriginsComplete<T>(opts: seq<Option<T>>)
    ensures forall i :: 0 <= i < |opts| && opts[i].Some? ==> i in Origins(opts)
  {
    if opts != [] {
      var n := |opts| - 1;
      var init := opts[..n];
      OriginsComplete(init);
      forall i | 0 <= i < n && opts[i].Some?
        ensures i in Origins(opts)
      {
        assert init[i] == opts[i];
      }
    }
  }

  lemma {:induction false} SomesNoLonger<T>(opts: seq<Option<T>>)
    ensures |Somes(opts)| <= |opts|
  {
    if opts != [] {
      SomesNoLonger(opts[..|opts| - 1]);
    }
  }

  lemma SomesSnoc<T>(opts: seq<Option<T>>, o: Option<T>)
    ensures Somes(opts + [o]) == Somes(opts) + (if o.Some? then [o.value] else [])
  {
    assert (opts + [o])[..|opts|] == opts;
  }

  /** Each schedule's next taking, position by position. */
  function Picks(ss: seq<Schedule>, now: int, period: int): (ps: seq<Option<Schedule>>)
    requires forall i :: 0 <= i < |ss| && IsActive(ss[i], now) ==> 0 < ss[i].frequency
    ensures |ps| == |ss|
  {
    seq(|ss|, i requires 0 <= i < |ss| => NextTaking(ss[i], now, period))
  }

  /** The next-takings answer for the schedules ss: the schedules with a next taking, in their order. */
  function NextTakings(ss: seq<Schedule>, now: int, period: int): seq<Schedule>
    requires forall i :: 0 <= i < |ss| && IsActive(ss[i], now) ==> 0 < ss[i].frequency
  {
    Somes(Picks(ss, now, period))
  }

  /**
   * The answer is an order-preserving selection of the input: idx says where
   * each answered schedule came from, and a schedule is answered exactly when
   * it has a next taking.
   */
  lemma {:induction false} NextTakingsOrigins(ss: seq<Schedule>, now: int, period: int)
    returns (idx: seq<nat>)
    requires forall i :: 0 <= i < |ss| && IsActive(ss[i], now) ==> 0 < ss[i].frequency
    ensures |idx| == |NextTakings(ss, now, period)|
    ensures forall k :: 0 <= k < |idx| ==> idx[k] < |ss|
    ensures forall k, l :: 0 <= k < l < |idx| ==> idx[k] < idx[l]
    ensures forall k :: 0 <= k < |idx| ==>
      NextTaking(ss[idx[k]], now, period) == Some(NextTakings(ss, now, period)[k])
    ensures forall i :: 0 <= i < |ss| && NextTaking(ss[i], now, period).Some? ==> i in idx
  {
    var ps := Picks(ss, now, period);
    OriginsMatch(ps);
    OriginsIncreasing(ps);
    OriginsComplete(ps);
    idx := Origins(ps);
  }

  /** Schedules without a next taking are left out, so the answer is never longer than the input. */
  lemma {:induction false} NextTakingsNoLonger(ss: seq<Schedule>, now: int, period: int)
    requires forall i :: 0 <= i < |ss| && IsActive(ss[i], now) ==> 0 < ss[i].frequency
    ensures |NextTakings(ss, now, period)| <= |ss|
  {
    SomesNoLonger(Picks(ss, now, period));
  }

  /** Rounding a taking again and checking it against today's window changes and drops nothing. */
  lemma {:induction false} ReRoundingKeepsTakings(f: int, now: int)
    requires 0 < f
    ensures forall t :: t in DayTakings(f, now) ==>
      RoundToNearest15(t) == t && DayStart(now) <= t <= DayStart(now) + 14 * Hour
  {
    TakingsWithinWindow(f, now);
    forall t | t in DayTakings(f, now)
      ensures RoundToNearest15(t) == t
    {
      RoundFixesQuarter(t);
    }
  }

  /**
   * The partner of NextTakingSpec: a taking inside (now, now + period) with
   * no taking after now before it is the one reported.
   */
  lemma {:induction false} NextTakingIs(s: Schedule, now: int, period: int, x: int)
    requires IsActive(s, now) && 0 < s.frequency
    requires x in Takings(s, now) && now < x < now + period
    requires forall t :: t in Takings(s, now) && now < t ==> x <= t
    ensures NextTaking(s, now, period) == Some(s.(takings := [x]))
  {
    NextTakingSpec(s, now, period);
    var r := NextTaking(s, now, period).value;
    assert r.takings[0] == x;
    assert r.takings == [x];
  }

  /**
   * The pinned next-taking examples, on any day d (2025-01-01 is day
   * NewYear2025): a perpetual two-hourly schedule asked at 12:15 is next due
   * at 14:00 within a two-hour period, and has no taking within a 30-minute
   * period.
   */
  lemma {:induction false} NextTakingExamples(s: Schedule, d: int)
    requires s.frequency == 2 * Hour && s.duration == 0
    ensures NextTaking(s, At(d, 12, 15, 0), 2 * Hour) == Some(s.(takings := [At(d, 14, 0, 0)]))
    ensures NextTaking(s, At(d, 12, 15, 0), 30 * Minute) == None
  {
    var now := At(d, 12, 15, 0);
    var ds := At(d, 8, 0, 0);
    DayStartAt(d, 12, 15, 0);
    var ts := Takings(s, now);
    AlignedCount(s.frequency, now);
    AlignedTakingsAt(s.frequency, now);
    assert |ts| == 7 && ts[3] == ds + 6 * Hour == At(d, 14, 0, 0);
    forall t | t in ts && now < t
      ensures At(d, 14, 0, 0) <= t
    {
      var k :| 0 <= k < |ts| && ts[k] == t;
    }
    NextTakingIs(s, now, 2 * Hour, At(d, 14, 0, 0));
    forall t | t in ts
      ensures !(now < t < now + 30 * Minute)
    {
      var k :| 0 <= k < |ts| && ts[k] == t;
    }
    NextTakingSpec(s, now, 30 * Minute);
  }

  /**
   * The service's pinned case, on any day d: a perpetual half-hourly schedule
   * asked at 09:15 with a one-hour period is answered once, for 09:30.
   */
  lemma {:induction false} HalfHourlyNextTaking(s: Schedule, d: int)
    requires s.frequency == 30 * Minute && s.duration == 0
    ensures NextTakings([s], At(d, 9, 15, 0), Hour) == [s.(takings := [At(d, 9, 30, 0)])]
  {
    var now := At(d, 9, 15, 0);
    var ds := At(d, 8, 0, 0);
    DayStartAt(d, 9, 15, 0);
    var ts := Takings(s, now);
    AlignedCount(s.frequency, now);
    AlignedTakingsAt(s.frequency, now);
    assert |ts| == 28 && ts[3] == ds + 90 * Minute == At(d, 9, 30, 0);
    forall t | t in ts && now < t
      ensures At(d, 9, 30, 0) <= t
    {
      var k :| 0 <= k < |ts| && ts[k] == t;
    }
    NextTakingIs(s, now, Hour, At(d, 9, 30, 0));
    assert Picks([s], now, Hour) == [] + [NextTaking(s, now, Hour)];
    SomesSnoc([], NextTaking(s, now, Hour));
  }

  /** The service: its look-ahead period and the log of the schedules it handed to the repository's Create. */
  class ScheduleService {
    const period: int
    ghost var createCalls: seq<Schedule>

    /** Everything handed to the repository passed validation and carries its creation window. */
    ghost predicate Valid()
      reads this
    {
      forall i :: 0 <= i < |createCalls| ==>
        Validate(createCalls[i]) == None &&
        createCalls[i].endTime == (if createCalls[i].duration > 0
                                   then createCalls[i].startTime + createCalls[i].duration
                                   else PerpetualEnd)
    }

    constructor (period: int)
      ensures Valid() && this.period == period && createCalls == []
    {
      this.period := period;
      createCalls := [];
    }

    /**
     * An invalid schedule is returned untouched with the validation error.
     * A valid one is stamped at now and handed to the repository's Create
     * exactly once; repoAnswer is what Create reports.
     */
    method CreateSchedule(schedule: Schedule, now: int, repoAnswer: Option<RepoError>)
      returns (err: Option<ServiceError>, stored: Schedule)
      requires Valid()
      modifies this
      ensures Valid()
      ensures Validate(schedule).Some? ==>
        err == Some(InvalidSchedule(Validate(schedule).value)) &&
        stored == schedule && createCalls == old(createCalls)
      ensures Validate(schedule) == None ==>
        stored == Stamp(schedule, now) &&
        createCalls == old(createCalls) + [stored] &&
        err == (if repoAnswer.Some? then Some(RepoFailure(repoAnswer.value)) else None)
    {
      var invalid := Validate(schedule);
      if invalid.Some? {
        return Some(InvalidSchedule(invalid.value)), schedule;
      }
      stored := schedule.(startTime := now);
      if stored.duration > 0 {
        stored := stored.(endTime := stored.startTime + stored.duration);
      } else {
        stored := stored.(endTime := PerpetualEnd);
      }
      createCalls := createCalls + [stored];
      err := if repoAnswer.Some? then Some(RepoFailure(repoAnswer.value)) else None;
    }

    /** The schedule the repository found, carrying today's takings; a repository error is wrapped. */
    method GetScheduleByIDs(found: Result<Schedule, RepoError>, now: int)
      returns (r: Result<Schedule, ServiceError>)
      requires found.Ok? && IsActive(found.value, now) ==> 0 < found.value.frequency
      ensures found.Err? ==> r == Err(FailedToGet(found.error))
      ensures found.Ok? ==> r.Ok? && r.value == found.value.(takings := r.value.takings)
      ensures found.Ok? ==> r.value.takings == Takings(found.value, now)
    {
      if found.Err? {
        return Err(FailedToGet(found.error));
      }
      var schedule := found.value;
      var takings := CalculateTakings(schedule, now);
      schedule := schedule.(takings := takings);
      return Ok(schedule);
    }

    /**
     * For each active schedule of the user, scans today's takings for the
     * first one strictly inside (now, now + period) and reports the schedule
     * carrying just that taking; the repository's error is passed on.
     */
    method GetNextTakings(found: Result<seq<Schedule>, RepoError>, now: int)
      returns (r: Result<seq<Schedule>, ServiceError>)
      requires found.Ok? ==> forall i :: 0 <= i < |found.value| && IsActive(found.value[i], now) ==>
        0 < found.value[i].frequency
      ensures found.Err? ==> r == Err(RepoFailure(found.error))
      ensures found.Ok? ==> r == Ok(NextTakings(found.value, now, period))
    {
      if found.Err? {
        return Err(RepoFailure(found.error));
      }
      var schedules := found.value;
      var result: seq<Schedule> := [];
      var i := 0;
      while i < |schedules|
        invariant 0 <= i <= |schedules|
        invariant result == NextTakings(schedules[..i], now, period)
      {
        var schedule := schedules[i];
        ghost var before := result;
        ghost var pick := NextTaking(schedule, now, period);
        if IsActive(schedule, now) {
          var dayStart := DayStart(now);
          var dayEnd := dayStart + 14 * Hour;
          var takings := CalculateTakings(schedule, now);
          var first := ScanTakings(takings, dayStart, dayEnd, now, now + period);
          assert pick == if first.Some? then Some(schedule.(takings := [first.value])) else None;
          if first.Some? {
            schedule := schedule.(takings := [first.value]);
            result := result + [schedule];
          }
        }
        assert result == before + (if pick.Some? then [pick.value] else []);
        assert schedules[..i + 1] == schedules[..i] + [schedules[i]];
        assert Picks(schedules[..i + 1], now, period) == Picks(schedules[..i], now, period) + [pick];
        SomesSnoc(Picks(schedules[..i], now, period), pick);
        i := i + 1;
      }
      assert schedules[..|schedules|] == schedules;
      return Ok(result);
    }
  }
}
