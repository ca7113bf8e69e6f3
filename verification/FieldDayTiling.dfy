/** Field days tile time: windows and the inverse map agree, for zones whose
    local clock passes each 04:00 exactly once. */
module FieldDayTiling {
  import opened JsText
  import opened Civil
  import opened FieldDay

  /** The local 04:00 that starts a day. */
  function Boundary(day: int): int {
    day * DAY + 4 * HOUR
  }

  /** Local time is below the boundary before the instant, on it there, above it after. */
  ghost predicate CrossesAt(z: Zone, b: int, s: int) {
    forall t :: (t < s ==> Local(z, t) < b) && (t == s ==> Local(z, t) == b) && (t > s ==> Local(z, t) > b)
  }

  ghost predicate PassesOnce(z: Zone, b: int) {
    exists s :: CrossesAt(z, b, s)
  }

  // ---- When a zone passes a boundary once ----

  function OffsetBefore(z: Zone, i: nat): int
    requires i < |z.transitions|
  {
    if i == 0 then z.initial else z.transitions[i - 1].offset
  }

  /** The change jumps over the boundary: it is in one of the skipped or
      repeated half-open stretches of local time. */
  predicate Straddles(z: Zone, i: nat, b: int)
    requires i < |z.transitions|
  {
    var from, to := z.transitions[i].at + OffsetBefore(z, i), z.transitions[i].at + z.transitions[i].offset;
    from <= b < to || to <= b < from
  }

  predicate Ordered(ts: seq<Transition>) {
    forall i, j :: 0 <= i < j < |ts| ==> ts[i].at < ts[j].at
  }

  lemma {:induction false} OffsetAround(initial: int, ts: seq<Transition>, i: nat)
    requires Ordered(ts) && i < |ts|
    ensures OffsetFrom(initial, ts, ts[i].at) == ts[i].offset
    ensures OffsetFrom(initial, ts, ts[i].at - 1) == if i == 0 then initial else ts[i - 1].offset
    decreases |ts|
  {
    if i > 0 {
      OffsetAround(ts[0].offset, ts[1..], i - 1);
      assert ts[0].at < ts[i].at;
    } else if |ts| > 1 {
      assert ts[1..][0].at > ts[0].at;
    }
  }

  lemma {:induction false} OffsetSteady(initial: int, ts: seq<Transition>, t: int)
    requires Ordered(ts) && forall i :: 0 <= i < |ts| ==> ts[i].at != t
    ensures OffsetFrom(initial, ts, t) == OffsetFrom(initial, ts, t - 1)
    decreases |ts|
  {
    if ts != [] && t >= ts[0].at {
      OffsetSteady(ts[0].offset, ts[1..], t);
    }
  }

  ghost predicate NeverStraddled(z: Zone, b: int) {
    forall i :: 0 <= i < |z.transitions| ==> !Straddles(z, i, b)
  }

  lemma ClockStep(z: Zone, b: int, t: int)
    requires ValidZone(z) && NeverStraddled(z, b)
    ensures Local(z, t - 1) < b <= Local(z, t) ==> Local(z, t) == b
    ensures Local(z, t - 1) >= b ==> Local(z, t) > b
  {
    if i :| 0 <= i < |z.transitions| && z.transitions[i].at == t {
      OffsetAround(z.initial, z.transitions, i);
      assert !Straddles(z, i, b);
    } else {
      OffsetSteady(z.initial, z.transitions, t);
    }
  }

  lemma {:induction false} ClockRises(z: Zone, b: int, t: int, u: int)
    requires ValidZone(z) && NeverStraddled(z, b) && Local(z, t) >= b && t <= u
    ensures Local(z, u) >= b && (t < u ==> Local(z, u) > b)
    decreases u - t
  {
    if t < u {
      ClockRises(z, b, t, u - 1);
      ClockStep(z, b, u);
    }
  }

  lemma {:induction false} FirstReached(z: Zone, b: int, lo: int, hi: int) returns (s: int)
    requires Local(z, lo) < b <= Local(z, hi) && lo < hi
    ensures Local(z, s - 1) < b <= Local(z, s)
    decreases hi - lo
  {
    if Local(z, lo + 1) >= b {
      s := lo + 1;
    } else {
      s := FirstReached(z, b, lo + 1, hi);
    }
  }

  /** A zone passes a local time exactly once if and only if none of its changes
      jumps over it. */
  lemma PassesOnceIff(z: Zone, b: int)
    requires ValidZone(z)
    ensures PassesOnce(z, b) <==> NeverStraddled(z, b)
  {
    if NeverStraddled(z, b) {
      OffsetsAreWhole(z.initial, z.transitions, b - DAY - 1);
      OffsetsAreWhole(z.initial, z.transitions, b + DAY);
      var s := FirstReached(z, b, b - DAY - 1, b + DAY);
      ClockStep(z, b, s);
      forall t
        ensures (t < s ==> Local(z, t) < b) && (t == s ==> Local(z, t) == b) && (t > s ==> Local(z, t) > b)
      {
        if t > s {
          ClockRises(z, b, s, t);
        } else if t < s && Local(z, t) >= b {
          ClockRises(z, b, t, s - 1);
        }
      }
      assert CrossesAt(z, b, s);
    }
    if PassesOnce(z, b) {
      var s :| CrossesAt(z, b, s);
      forall i | 0 <= i < |z.transitions|
        ensures !Straddles(z, i, b)
      {
        var t := z.transitions[i].at;
        OffsetAround(z.initial, z.transitions, i);
        assert Local(z, t) == t + z.transitions[i].offset;
        assert Local(z, t - 1) == t - 1 + OffsetBefore(z, i);
      }
    }
  }

  // ---- The inverse map ----

  lemma SplitLocal(local: int)
    ensures (local - 4 * HOUR) / DAY == local / DAY - if local % DAY < 4 * HOUR then 1 else 0
  {
    var d, r := local / DAY, local % DAY;
    assert local == DAY * d + r;
    if r < 4 * HOUR {
      assert local - 4 * HOUR == DAY * (d - 1) + (r + 20 * HOUR);
    } else {
      assert local - 4 * HOUR == DAY * d + (r - 4 * HOUR);
    }
  }

  lemma SameDay(c: Date, day: int)
    requires ValidDate(c)
    ensures DateOf(day) == c <==> day == DayNumber(c)
  {
    hide DateOf, DayNumber, ValidDate;
    DateRoundTrip(c);
  }

  lemma TextOfDay(c: Date, day: int)
    requires ValidDate(c) && 100 <= c.year < 10000 && DateOf(day).year >= 0
    ensures DateText(DateOf(day)) == DateText(c) <==> day == DayNumber(c)
  {
    hide DateOf, DayNumber, ValidDate, DateText;
    ValidIsPrinted(c);
    ValidIsPrinted(DateOf(day));
    TextIsInjective(c, DateOf(day));
    SameDay(c, day);
  }

  lemma YearBeforeIsLate(day: int)
    requires day >= DayNumber(FIRST_DAY)
    ensures DateOf(day - 1).year >= 99
  {
    hide DateOf, DayNumber;
    FirstDayIsValid();
    FirstOfYear();
    DayInYear(FIRST_DAY);
    var c := DateOf(day - 1);
    DayInYear(c);
    YearStep(99);
    if c.year < 99 {
      YearsUpTo(c.year + 1, 99);
    }
  }

  lemma FirstIsFirst(c: Date)
    requires ValidDate(c) && c.year >= 100
    ensures DayNumber(c) >= DayNumber(FIRST_DAY)
  {
    hide DateOf, DayNumber, ValidDate;
    LateDayLateYear(DayNumber(c));
    SameDay(c, DayNumber(c));
  }

  lemma DayBeforeIsMade(d: Date)
    requires ValidDate(d) && d.year >= 100
    ensures DateUtc(d.year, d.month, d.day - 1) == DayNumber(d) - 1
  {
    hide DayFromYear, MonthStart;
    MakeDayInYear(d.year, d.month, d.day - 1);
    MakeDayInYear(d.year, d.month, d.day);
  }

  /** The day a date was the morning of, where the date is accepted. */
  lemma DayBeforeIff(a: Date, c: Date)
    requires Printed(a) && a.year >= 0 && ValidDate(c) && 100 <= c.year < 10000
    ensures var previous := DateOf(DateUtc(a.year, a.month, a.day - 1));
            DateOnlyParts(DateText(a)).Ok? && previous.year >= 0 && DateText(previous) == DateText(c) <==>
            ValidDate(a) && 100 <= a.year < 10000 && DayNumber(a) == DayNumber(c) + 1
    ensures DateOnlyParts(DateText(a)).Ok? ==>
              DateOnlyParts(DateText(a)).value == a && DateOf(DateUtc(a.year, a.month, a.day - 1)).year >= 0
  {
    hide DateOf, DayNumber, DateText, DateUtc, ValidDate, DateShaped, NumbersOf, MonthLength;
    ValidDateIff(a);
    if a.year >= 10000 {
      LongYearIsRefused(a);
    } else {
      TextRoundTrip(a);
      DateOnlyPartsIff(DateText(a));
      if ValidDate(a) && a.year >= 100 {
        DayBeforeIsMade(a);
        FirstIsFirst(a);
        YearBeforeIsLate(DayNumber(a));
        TextOfDay(c, DayNumber(a) - 1);
      }
    }
  }

  /** The field day of any instant at all, by the parts the formatter prints:
      from 04:00 on the printed date, before it the day before the printed date,
      if there is such a date among the accepted ones. */
  lemma FieldDayByPartsIff(z: Zone, t: int, c: Date)
    requires ValidDate(c) && 100 <= c.year < 10000
    ensures var p := PartsFor(z, t);
            FieldDayForInstant(z, t) == Ok(DateText(c)) <==>
            if p.hour >= 4 then p.date == c
            else ValidDate(p.date) && 100 <= p.date.year < 10000 && DayNumber(p.date) == DayNumber(c) + 1
  {
    hide DateOf, DayNumber, DateText, Local, ValidDate, DateUtc, DateOnlyParts;
    var a := PartsFor(z, t).date;
    ValidIsPrinted(c);
    ValidIsPrinted(LocalDate(z, t));
    TextIsInjective(c, a);
    DayBeforeIff(a, c);
  }

  /** The field day of an instant, in local time: the day that started at the
      last 04:00. Only 9999-12-31 ends at midnight, before a date that the
      program refuses. */
  lemma FieldDayOfInstantIff(z: Zone, t: int, c: Date)
    requires ValidDate(c) && 100 <= c.year < 10000
    requires LocalDate(z, t).year >= 1
    ensures FieldDayForInstant(z, t) == Ok(DateText(c)) <==>
            Boundary(DayNumber(c)) <= Local(z, t) <
              if c == LAST_DAY then (DayNumber(c) + 1) * DAY else Boundary(DayNumber(c) + 1)
  {
    hide DateOf, DayNumber, DateText, Local, FieldDayForInstant, ValidDate;
    var local := Local(z, t);
    FieldDayByPartsIff(z, t, c);
    HourOfDay(local);
    SplitLocal(local);
    SameDay(c, local / DAY);
    BetweenBoundaries(local, DayNumber(c));
    BetweenMidnights(local, DayNumber(c));
    if local / DAY == DayNumber(c) + 1 {
      NextYear(c, LocalDate(z, t));
      YearAfter9999(c, LocalDate(z, t));
    }
  }

  lemma YearAfter9999(c: Date, next: Date)
    requires ValidDate(c) && ValidDate(next) && 100 <= c.year < 10000 && DayNumber(next) == DayNumber(c) + 1
    ensures 100 <= next.year && (next.year < 10000 <==> c != LAST_DAY)
  {
    hide DateOf, DayNumber, ValidDate;
    NextYear(c, next);
  }

  lemma BetweenMidnights(local: int, n: int)
    ensures Boundary(n) <= local < (n + 1) * DAY <==> local / DAY == n && local % DAY >= 4 * HOUR
  {
    var d, x := local / DAY, local % DAY;
    assert local == DAY * d + x;
    if Boundary(n) <= local < (n + 1) * DAY {
      assert DAY * n <= local < DAY * (n + 1);
      assert d < n + 1 && n < d + 1;
    }
  }

  lemma BetweenBoundaries(local: int, n: int)
    ensures (local - 4 * HOUR) / DAY == n <==> Boundary(n) <= local < Boundary(n + 1)
  {
    var m := (local - 4 * HOUR) / DAY;
    assert DAY * m <= local - 4 * HOUR < DAY * m + DAY;
    if Boundary(n) <= local < Boundary(n + 1) {
      assert DAY * n <= local - 4 * HOUR < DAY * (n + 1);
      assert m < n + 1 && n < m + 1;
    }
  }

  // ---- Tiling ----

  lemma BoundaryIsWanted(c: Date)
    requires ValidDate(c) && c.year >= 100
    ensures WantedLocal(c) == Boundary(DayNumber(c)) && Boundary(DayNumber(c)) % SECOND == 0
  {
    hide DayNumber, DateUtc, ValidDate;
    DayIsMade(c);
    var n := DayNumber(c);
    assert Boundary(n) == SECOND * (86400 * n + 14400);
  }

  /** From the third field day on every boundary is legible in every zone; for
      the first two see FirstRooms. */
  lemma LateBoundaryIsLegible(z: Zone, c: Date)
    requires ValidZone(z) && ValidDate(c) && DayNumber(c) >= DayNumber(FIRST_DAY) + 2
    ensures Legible(z, Boundary(DayNumber(c)))
  {
    hide DateOf, DayNumber, ValidDate;
    LateDayLateYear(DayNumber(c));
    SameDay(c, DayNumber(c));
    BoundaryIsWanted(c);
    LateIsLegible(z, Boundary(DayNumber(c)));
  }

  /** A computed boundary is the crossing. */
  lemma BoundaryIsCrossing(z: Zone, c: Date, s: int, found: int)
    requires ValidZone(z) && ValidDate(c) && 100 <= c.year < 10000
    requires Legible(z, Boundary(DayNumber(c))) && CrossesAt(z, Boundary(DayNumber(c)), s)
    requires LocalBoundaryToUtc(z, DateText(c)) == Ok(found)
    ensures found == s
  {
    hide DayNumber, DateText, DateOf, Local, Room;
    AcceptedText(c);
    BoundaryIsWanted(c);
    SearchIsSound(z, Boundary(DayNumber(c)), Boundary(DayNumber(c)), 8);
    assert Local(z, found) == Boundary(DayNumber(c));
  }

  lemma LateLocalIsDated(local: int, n: int)
    requires Boundary(n) <= local && n >= DayNumber(FIRST_DAY)
    ensures DateOf(local / DAY).year >= 1
  {
    hide DateOf, DayNumber;
    assert local / DAY >= n;
    LateDayLateYear(local / DAY);
  }

  /** Tiling: an instant lies in the half-open window of a field day exactly when
      the inverse map sends it there. (An instant before year 1 is sent to the day
      of the same number in its era, and lies in no window.) */
  lemma WindowsTileTime(z: Zone, c: Date, w: Window, t: int)
    requires ValidZone(z) && ValidDate(c) && 100 <= c.year < 10000
    requires Legible(z, Boundary(DayNumber(c))) && Legible(z, Boundary(DayNumber(c) + 1))
    requires PassesOnce(z, Boundary(DayNumber(c))) && PassesOnce(z, Boundary(DayNumber(c) + 1))
    requires FieldDayWindow(z, DateText(c)) == Ok(w)
    ensures w.start <= t < w.end <==>
            FieldDayForInstant(z, t) == Ok(DateText(c)) && LocalDate(z, t).year >= 1
  {
    hide DayNumber, DateText, DateOf, Local, FieldDayForInstant, ValidDate, NextDate, LocalBoundaryToUtc, Legible;
    FirstIsFirst(c);
    var n := DayNumber(c);
    var s :| CrossesAt(z, Boundary(n), s);
    var e :| CrossesAt(z, Boundary(n + 1), e);
    NextDateIsNextDay(c);
    WindowHasSuccessor(z, c, w);
    BoundaryIsCrossing(z, c, s, w.start);
    BoundaryIsCrossing(z, NextDay(c), e, w.end);
    assert w.start <= t < w.end <==> Boundary(n) <= Local(z, t) < Boundary(n + 1);
    if Boundary(n) <= Local(z, t) {
      LateLocalIsDated(Local(z, t), n);
    }
    if LocalDate(z, t).year >= 1 {
      FieldDayOfInstantIff(z, t, c);
    }
  }

  /** Around a local time the zone changes at most once. */
  ghost predicate Calm(z: Zone, b: int) {
    exists at, before, after ::
      WholeSeconds(before) && WholeSeconds(after) && OneTransition(z, b, at, before, after)
  }

  lemma CrossedIsNotInGap(z: Zone, b: int, at: int, before: int, after: int)
    requires ValidZone(z) && PassesOnce(z, b) && OneTransition(z, b, at, before, after)
    ensures !InGap(b, at, before, after)
  {
    var s :| CrossesAt(z, b, s);
    assert Local(z, s) == b;
    OffsetsAreWhole(z.initial, z.transitions, s);
    assert b - DAY <= s <= b + DAY;
    if InGap(b, at, before, after) {
      NoInstantInGap(z, b, at, before, after);
      assert false;
    }
  }

  /** A boundary that is passed once by a calm clock is found. */
  lemma CalmSettles(z: Zone, b: int)
    requires ValidZone(z) && Legible(z, b) && PassesOnce(z, b) && Calm(z, b)
    ensures Settles(z, b)
  {
    hide Legible, Local, OneTransition, PassesOnce, Search, Settles;
    var at, before, after :|
      WholeSeconds(before) && WholeSeconds(after) && OneTransition(z, b, at, before, after);
    CrossedIsNotInGap(z, b, at, before, after);
    SearchConvergesIff(z, b, at, before, after, 8);
    SearchSettlesIff(z, b);
  }

  lemma BoundaryExistsIff(z: Zone, c: Date)
    requires ValidZone(z) && ValidDate(c) && 100 <= c.year < 10000
    requires Legible(z, Boundary(DayNumber(c)))
    ensures LocalBoundaryToUtc(z, DateText(c)).Ok? <==> Settles(z, Boundary(DayNumber(c)))
  {
    hide DayNumber, DateText, Legible, DateOf, Search, Settles;
    AcceptedText(c);
    BoundaryIsWanted(c);
    SearchSettlesIff(z, Boundary(DayNumber(c)));
  }

  lemma RefusedHasNoBoundary(z: Zone, fieldDay: Text)
    requires DateOnlyParts(fieldDay).Err?
    ensures LocalBoundaryToUtc(z, fieldDay).Err?
  {
    hide DateOnlyParts;
  }

  /** In any zone a field day has a window exactly when it is not the last of the
      calendar and the offsets settle at both its boundaries. */
  lemma WindowExistsIff(z: Zone, c: Date)
    requires ValidZone(z) && ValidDate(c) && 100 <= c.year < 10000
    requires Legible(z, Boundary(DayNumber(c)))
    requires c != LAST_DAY ==> Legible(z, Boundary(DayNumber(c) + 1))
    ensures FieldDayWindow(z, DateText(c)).Ok? <==>
            c != LAST_DAY && Settles(z, Boundary(DayNumber(c))) && Settles(z, Boundary(DayNumber(c) + 1))
  {
    hide DayNumber, DateText, DateOf, Settles, LocalBoundaryToUtc, NextDate, ValidDate, Legible;
    NextDateIsNextDay(c);
    BoundaryExistsIff(z, c);
    if c != LAST_DAY {
      BoundaryExistsIff(z, NextDay(c));
    } else {
      RefusedHasNoBoundary(z, DateText(NextDay(c)));
    }
  }

  /** Every field day but the last of the calendar has a window, where the zone
      changes at most once around its two boundaries. */
  lemma WindowExists(z: Zone, c: Date)
    requires ValidZone(z) && ValidDate(c) && 100 <= c.year < 10000 && c != LAST_DAY
    requires Legible(z, Boundary(DayNumber(c))) && Legible(z, Boundary(DayNumber(c) + 1))
    requires PassesOnce(z, Boundary(DayNumber(c))) && Calm(z, Boundary(DayNumber(c)))
    requires PassesOnce(z, Boundary(DayNumber(c) + 1)) && Calm(z, Boundary(DayNumber(c) + 1))
    ensures FieldDayWindow(z, DateText(c)).Ok?
  {
    hide DayNumber, DateText, DateOf, PassesOnce, Calm, Settles, FieldDayWindow, ValidDate, Legible;
    CalmSettles(z, Boundary(DayNumber(c)));
    CalmSettles(z, Boundary(DayNumber(c) + 1));
    WindowExistsIff(z, c);
  }

  lemma WindowHasSuccessor(z: Zone, c: Date, w: Window)
    requires ValidDate(c) && 100 <= c.year < 10000
    requires FieldDayWindow(z, DateText(c)) == Ok(w)
    ensures c != LAST_DAY
    ensures LocalBoundaryToUtc(z, DateText(c)) == Ok(w.start)
    ensures LocalBoundaryToUtc(z, DateText(NextDay(c))) == Ok(w.end)
  {
    hide DayNumber, DateText, DateOf, ValidDate, NextDate, DateOnlyParts, Search;
    NextDateIsNextDay(c);
  }

  /** Consecutive windows meet: the end of a field day is the start of the next
      calendar day's window. */
  lemma WindowsMeet(z: Zone, c: Date, w: Window, next: Window)
    requires ValidDate(c) && 100 <= c.year < 10000
    requires FieldDayWindow(z, DateText(c)) == Ok(w)
    requires FieldDayWindow(z, DateText(NextDay(c))) == Ok(next)
    ensures w.end == next.start
  {
    hide DayNumber, DateText, DateOf, ValidDate, NextDate, DateOnlyParts, LocalBoundaryToUtc;
    NextDateIsNextDay(c);
    WindowHasSuccessor(z, c, w);
  }

  // ---- Zones of one offset ----

  lemma FixedIsCalm(o: int, c: Date)
    requires WholeSeconds(o) && ValidDate(c) && DayNumber(c) >= DayNumber(FIRST_DAY) + 2
    ensures var z, b := Zone(o, []), Boundary(DayNumber(c));
            Legible(z, b) && PassesOnce(z, b) && Calm(z, b) && CrossesAt(z, b, b - o)
  {
    hide DayNumber, ValidDate, WholeSeconds;
    var z, b := Zone(o, []), Boundary(DayNumber(c));
    LateBoundaryIsLegible(z, c);
    assert forall t :: OffsetAt(z, t) == o;
    assert forall t :: Local(z, t) == t + o;
    assert CrossesAt(z, b, b - o);
    assert OneTransition(z, b, 0, o, o);
  }

  /** In a zone of one offset a window is the 24 hours from 04:00, in
      milliseconds of UTC. */
  lemma FixedZoneWindow(o: int, c: Date)
    requires WholeSeconds(o) && ValidDate(c) && DayNumber(c) >= DayNumber(FIRST_DAY) + 2
    requires 100 <= c.year < 10000 && c != LAST_DAY
    ensures var start := DayNumber(c) * 86_400_000 + 14_400_000 - o;
            FieldDayWindow(Zone(o, []), DateText(c)) == Ok(Window(start, start + 86_400_000))
  {
    hide DateOf, DateText, FieldDayWindow, Legible, PassesOnce, Calm, CrossesAt, DayNumber, LocalBoundaryToUtc;
    hide ValidDate, WholeSeconds;
    var z := Zone(o, []);
    NextDateIsNextDay(c);
    FixedIsCalm(o, c);
    FixedIsCalm(o, NextDay(c));
    FixedIsValid(o);
    WindowExists(z, c);
    var w := FieldDayWindow(z, DateText(c)).value;
    WindowHasSuccessor(z, c, w);
    BoundaryIsCrossing(z, c, Boundary(DayNumber(c)) - o, w.start);
    BoundaryIsCrossing(z, NextDay(c), Boundary(DayNumber(NextDay(c))) - o, w.end);
  }

  lemma FixedIsValid(o: int)
    requires WholeSeconds(o)
    ensures ValidZone(Zone(o, []))
  {
  }

  // ---- Where the calendar fails ----

  const ORIGIN := Zone(0, [])

  lemma JuneDays()
    ensures DayNumber(Date(1001, 6, 15)) == -353755 && DayNumber(Date(1001, 6, 16)) == -353754
    ensures DayNumber(Date(-1000, 6, 15)) == -1084605 && DayNumber(FIRST_DAY) == -683003
  {
    hide MakeDay, DayFromYear;
    SomeYears();
    MakeDayInYear(1001, 6, 15);
    MakeDayInYear(1001, 6, 16);
    MakeDayInYear(-1000, 6, 15);
    MakeDayInYear(100, 1, 1);
  }

  lemma SomeYears()
    ensures DayFromYear(1001) == -353920 && !Leap(1001)
    ensures DayFromYear(-1000) == -1084770 && !Leap(-1000)
    ensures DayFromYear(100) == -683003
  {
  }

  lemma JuneWindow()
    ensures var c, w := Date(1001, 6, 15), FieldDayWindow(ORIGIN, DateText(Date(1001, 6, 15)));
            w.Ok? && w.value.start == Boundary(DayNumber(c))
  {
    hide DateOf, DateText, FieldDayWindow, DayNumber;
    JuneDays();
    FixedZoneWindow(0, Date(1001, 6, 15));
  }

  lemma NoonOfDay(c: Date)
    requires ValidDate(c)
    ensures var t := DayNumber(c) * DAY + 12 * HOUR;
            LocalDate(ORIGIN, t) == c && PartsFor(ORIGIN, t).hour == 12
  {
    hide DateOf, DayNumber, ValidDate;
    var n := DayNumber(c);
    var t := n * DAY + 12 * HOUR;
    assert Local(ORIGIN, t) == t;
    assert t == DAY * n + 12 * HOUR && t == SECOND * (86400 * n + 43200);
    assert t / DAY == n && t / SECOND == 86400 * n + 43200;
    assert (86400 * n + 43200) / 3600 == 24 * n + 12;
    DateRoundTrip(c);
  }

  /** At the origin noon of 15 June of year -1000 is sent to the field day of
      1001-06-15, the same number in our era, and lies before its window. */
  lemma EarlierEraIsMistaken()
    ensures var c, t := Date(1001, 6, 15), DayNumber(Date(-1000, 6, 15)) * DAY + 12 * HOUR;
            && FieldDayForInstant(ORIGIN, t) == Ok(DateText(c))
            && FieldDayWindow(ORIGIN, DateText(c)).Ok? && t < FieldDayWindow(ORIGIN, DateText(c)).value.start
  {
    hide DateOf, DateText, FieldDayForInstant, FieldDayWindow, DayNumber;
    var early := Date(-1000, 6, 15);
    JuneDays();
    JuneWindow();
    NoonOfDay(early);
    FieldDayByPartsIff(ORIGIN, DayNumber(early) * DAY + 12 * HOUR, Date(1001, 6, 15));
  }

  /** Two changes within hours of a boundary that is passed once. */
  function Restless(w: int): Zone {
    Zone(HOUR, [Transition(w - 5 * HOUR / 2, 2 * HOUR), Transition(w - 3 * HOUR / 2, 3 * HOUR)])
  }

  lemma RestlessOffset(w: int, t: int)
    ensures OffsetAt(Restless(w), t) ==
            if t < w - 5 * HOUR / 2 then HOUR else if t < w - 3 * HOUR / 2 then 2 * HOUR else 3 * HOUR
    ensures ValidZone(Restless(w))
  {
    var first, last := Transition(w - 5 * HOUR / 2, 2 * HOUR), Transition(w - 3 * HOUR / 2, 3 * HOUR);
    assert [first, last][1..] == [last] && [last][1..] == [];
    assert OffsetFrom(3 * HOUR, [], t) == 3 * HOUR;
    assert OffsetFrom(2 * HOUR, [last], t) == if t < last.at then 2 * HOUR else 3 * HOUR;
    assert OffsetFrom(HOUR, [first, last], t) == if t < first.at then HOUR else OffsetFrom(2 * HOUR, [last], t);
  }

  lemma {:induction false} SearchCycles(w: int, c: int, rounds: nat)
    requires Legible(Restless(w), w) && ValidZone(Restless(w))
    requires c == w - HOUR || c == w - 3 * HOUR
    requires Near(w, w - HOUR) && Near(w, w - 3 * HOUR)
    ensures Search(Reading(Restless(w)), w, c, rounds) == Err(TimezoneResolutionInvalid)
    decreases rounds
  {
    hide Legible, Room, ActualLocal;
    var z := Restless(w);
    if rounds > 0 {
      RestlessOffset(w, c);
      SearchStep(z, w, c, rounds);
      SearchCycles(w, w - OffsetAt(z, c), rounds - 1);
    }
  }

  /** In that hypothetical zone the local clock passes the boundary exactly once,
      and the search goes back and forth around that instant until its rounds are
      used up. */
  lemma TwoChangesCanDefeatTheSearch(c: Date)
    requires ValidDate(c) && 100 <= c.year < 10000 && DayNumber(c) >= DayNumber(FIRST_DAY) + 2
    ensures var b := Boundary(DayNumber(c));
            && ValidZone(Restless(b)) && PassesOnce(Restless(b), b)
            && LocalBoundaryToUtc(Restless(b), DateText(c)) == Err(TimezoneResolutionInvalid)
  {
    hide DateOf, DateText, DayNumber, ValidDate, Room, Search, ActualLocal;
    var b := Boundary(DayNumber(c));
    var z := Restless(b);
    BoundaryIsWanted(c);
    RestlessOffset(b, b);
    LateBoundaryIsLegible(z, c);
    assert CrossesAt(z, b, b - 2 * HOUR) by {
      forall t ensures Local(z, t) == t + OffsetAt(z, t) {
      }
      forall t { RestlessOffset(b, t); }
    }
    AcceptedText(c);
    RoomOfLate(b, DayNumber(c));
    RestlessOffset(b, b);
    WholeHours(b);
    SearchStep(z, b, b, 8);
    SearchCycles(b, b - 3 * HOUR, 7);
  }

  lemma RoomOfLate(b: int, n: int)
    requires b == Boundary(n) && n >= DayNumber(FIRST_DAY) + 2
    ensures Room(b) == DAY
  {
    hide DayNumber;
  }

  lemma WholeHours(b: int)
    requires b % SECOND == 0
    ensures (b - HOUR) % SECOND == 0 && (b - 3 * HOUR) % SECOND == 0
  {
  }
}
