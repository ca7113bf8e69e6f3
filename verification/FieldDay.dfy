/** Field days: local civil days that start at 04:00. A fixed-point search turns
    a local boundary into an instant, and an inverse map sends an instant back to
    its field day. Instants and offsets are in milliseconds. */
module FieldDay {
  import opened JsText
  import opened Civil

  const SECOND := 1000
  const HOUR := 3_600_000
  const DAY := 86_400_000

  // ---- The zone ----

  datatype Transition = Transition(at: int, offset: int)

  /** A zone is an initial offset from UTC and the instants where it changes. */
  datatype Zone = Zone(initial: int, transitions: seq<Transition>)

  predicate WholeSeconds(offset: int) {
    offset % SECOND == 0 && -DAY <= offset <= DAY
  }

  /** Offsets are whole seconds of at most a day; changes come in order. */
  predicate ValidZone(z: Zone) {
    && WholeSeconds(z.initial)
    && (forall i :: 0 <= i < |z.transitions| ==> WholeSeconds(z.transitions[i].offset))
    && (forall i, j :: 0 <= i < j < |z.transitions| ==> z.transitions[i].at < z.transitions[j].at)
  }

  function OffsetFrom(initial: int, ts: seq<Transition>, t: int): int
    decreases |ts|
  {
    if ts == [] || t < ts[0].at then initial else OffsetFrom(ts[0].offset, ts[1..], t)
  }

  function Local(z: Zone, t: int): int {
    t + OffsetFrom(z.initial, z.transitions, t)
  }

  // ---- Reading the clock ----

  datatype Parts = Parts(date: Date, hour: int, minute: int, second: int)

  /** The formatter prints the year of its era, without the era. */
  function EraYear(y: int): int {
    if y >= 1 then y else 1 - y
  }

  /** The year before year 1 is year 1 of its era. */
  lemma EraYearIff(y: int, printed: int)
    ensures EraYear(y) == printed <==> printed >= 1 && (y == printed || y == 1 - printed)
  {
  }

  function LocalDate(z: Zone, t: int): Date {
    DateOf(Local(z, t) / DAY)
  }

  function PartsFor(z: Zone, t: int): Parts {
    var s := Local(z, t) / SECOND;
    var c := LocalDate(z, t);
    Parts(Date(EraYear(c.year), c.month, c.day), s / 3600 % 24, s / 60 % 60, s % 60)
  }

  /** `Date.UTC` reads years 0 to 99 as 1900 to 1999. */
  function YearArgument(y: int): int {
    if 0 <= y <= 99 then 1900 + y else y
  }

  function DateUtc(y: int, m: int, d: int): int {
    MakeDay(YearArgument(y), m, d)
  }

  function ActualLocal(z: Zone, t: int): int {
    var p := PartsFor(z, t);
    DateUtc(p.date.year, p.date.month, p.date.day) * DAY
    + p.hour * HOUR + p.minute * 60 * SECOND + p.second * SECOND
  }

  // ---- Dates of field days ----

  /** The last date of four digits. */
  const LAST_DAY: Date := Date(9999, 12, 31)

  datatype Error = FieldDayInvalid | TimezoneResolutionInvalid

  datatype Result<T> = Ok(value: T) | Err(error: Error)

  function DateOnlyParts(fieldDay: Text): Result<Date> {
    if !DateShaped(fieldDay) then Err(FieldDayInvalid)
    else
      var c := NumbersOf(fieldDay);
      if DateOf(DateUtc(c.year, c.month, c.day)) != c then Err(FieldDayInvalid) else Ok(c)
  }

  function NextDate(fieldDay: Text): Result<Text> {
    match DateOnlyParts(fieldDay)
    case Err(e) => Err(e)
    case Ok(c) =>
      var next := DateOf(DateUtc(c.year, c.month, c.day + 1));
      if next.year < 0 then Err(FieldDayInvalid) else Ok(DateText(next))
  }

  function WantedLocal(c: Date): int {
    DateUtc(c.year, c.month, c.day) * DAY + 4 * HOUR
  }

  /** The fixed-point search, with the number of rounds left. */
  function Search(read: int -> int, wanted: int, candidate: int, rounds: nat): Result<int>
    decreases rounds
  {
    if rounds == 0 then Err(TimezoneResolutionInvalid)
    else
      var delta := wanted - read(candidate);
      if delta == 0 then Ok(candidate) else Search(read, wanted, candidate + delta, rounds - 1)
  }

  function Reading(z: Zone): int -> int {
    t => ActualLocal(z, t)
  }

  function LocalBoundaryToUtc(z: Zone, fieldDay: Text): Result<int> {
    match DateOnlyParts(fieldDay)
    case Err(e) => Err(e)
    case Ok(c) => Search(Reading(z), WantedLocal(c), WantedLocal(c), 8)
  }

  /** The loop of the source, updating one candidate. */
  method LocalBoundaryLoop(z: Zone, fieldDay: Text) returns (r: Result<int>)
    ensures r == LocalBoundaryToUtc(z, fieldDay)
  {
    hide ActualLocal, WantedLocal, DateOnlyParts;
    var parts := DateOnlyParts(fieldDay);
    if parts.Err? {
      return Err(parts.error);
    }
    var wantedLocal := WantedLocal(parts.value);
    var candidate := wantedLocal;
    var attempt := 0;
    while attempt < 8
      invariant 0 <= attempt <= 8
      invariant Search(Reading(z), wantedLocal, wantedLocal, 8) ==
                Search(Reading(z), wantedLocal, candidate, 8 - attempt)
    {
      var delta := wantedLocal - ActualLocal(z, candidate);
      if delta == 0 {
        return Ok(candidate);
      }
      candidate := candidate + delta;
      attempt := attempt + 1;
    }
    return Err(TimezoneResolutionInvalid);
  }

  datatype Window = Window(start: int, end: int)

  function FieldDayWindow(z: Zone, fieldDay: Text): Result<Window> {
    match LocalBoundaryToUtc(z, fieldDay)
    case Err(e) => Err(e)
    case Ok(start) =>
      match NextDate(fieldDay)
      case Err(e) => Err(e)
      case Ok(next) =>
        match LocalBoundaryToUtc(z, next)
        case Err(e) => Err(e)
        case Ok(end) => Ok(Window(start, end))
  }

  function FieldDayForInstant(z: Zone, t: int): Result<Text> {
    var p := PartsFor(z, t);
    var localDate := DateText(p.date);
    if p.hour < 4 then
      match DateOnlyParts(localDate)
      case Err(e) => Err(e)
      case Ok(c) =>
        var previous := DateOf(DateUtc(c.year, c.month, c.day - 1));
        if previous.year < 0 then Err(FieldDayInvalid) else Ok(DateText(previous))
    else Ok(localDate)
  }

  // ---- Dates ----

  lemma DayOrder(a: Date, b: Date)
    requires ValidDate(a) && ValidDate(b) && a.year < b.year
    ensures DayNumber(a) < DayNumber(b)
  {
    DayInYear(a);
    DayInYear(b);
    YearsUpTo(a.year + 1, b.year);
  }

  /** The accepted field days: shaped like a date, a real date of the calendar,
      from year 0100. Each is the one text of its date. */
  lemma DateOnlyPartsIff(t: Text)
    ensures DateOnlyParts(t).Ok? <==>
            && DateShaped(t) && NumbersOf(t).year >= 100 && 1 <= NumbersOf(t).month <= 12
            && 1 <= NumbersOf(t).day <= MonthLength(NumbersOf(t).year, NumbersOf(t).month)
    ensures DateOnlyParts(t).Ok? ==> DateOnlyParts(t).value == NumbersOf(t) && t == DateText(NumbersOf(t))
  {
    hide DateOf, DateShaped, NumbersOf, ValidDate, DayNumber, DateUtc, DateText, MonthLength;
    if DateShaped(t) {
      var c := NumbersOf(t);
      ValidDateIff(c);
      DateUtcRoundTrip(c);
      ShapedIsText(t);
    }
  }

  lemma DateUtcRoundTrip(c: Date)
    ensures c.year >= 0 ==> (DateOf(DateUtc(c.year, c.month, c.day)) == c <==> ValidDate(c) && c.year >= 100)
  {
    hide DateOf, ValidDate, MakeDay;
    var x := DateUtc(c.year, c.month, c.day);
    if c.year >= 100 && ValidDate(c) {
      DateRoundTrip(c);
    } else if 0 <= c.year <= 99 && ValidDate(c) {
      EarlyYear(c);
    }
  }

  lemma EarlyYear(c: Date)
    requires ValidDate(c) && 0 <= c.year <= 99
    ensures DayNumber(c) < DateUtc(c.year, c.month, c.day)
  {
    hide DateOf, DayFromYear, MakeDay;
    DayInYear(c);
    YearsUpTo(c.year + 1, 1900 + c.year);
    MakeDayInYear(1900 + c.year, c.month, c.day);
    assert MonthStart(c.month, Leap(1900 + c.year)) >= 0;
  }

  lemma AcceptedText(c: Date)
    requires ValidDate(c) && 100 <= c.year < 10000
    ensures DateOnlyParts(DateText(c)) == Ok(c)
  {
    ValidIsPrinted(c);
    TextRoundTrip(c);
    ValidDateIff(c);
    DateOnlyPartsIff(DateText(c));
  }

  /** The successor of a field day is the next day of the calendar, across month
      ends, leap days and years; only 9999-12-31 has a successor that is refused. */
  lemma NextDateIsNextDay(c: Date)
    requires ValidDate(c) && 100 <= c.year < 10000
    ensures NextDate(DateText(c)) == Ok(DateText(NextDay(c)))
    ensures DateOnlyParts(DateText(NextDay(c))).Ok? <==> c != LAST_DAY
    ensures ValidDate(NextDay(c)) && DayNumber(NextDay(c)) == DayNumber(c) + 1
    ensures c.year <= NextDay(c).year && (c != LAST_DAY ==> NextDay(c).year < 10000)
  {
    hide DayFromYear, MonthStart, Leap, DateOf, DateText, DateShaped, NumbersOf, MonthLength, ValidDate;
    AcceptedText(c);
    DayInYear(c);
    ValidDateIff(c);
    MakeDayInYear(c.year, c.month, c.day + 1);
    var next := NextDay(c);
    NextDayIsNext(c);
    DateRoundTrip(next);
    NextYear(c, next);
    if next.year < 10000 {
      AcceptedText(next);
    } else {
      LongYearIsRefused(next);
    }
  }

  lemma LongYearIsRefused(c: Date)
    requires c.year >= 10000
    ensures |DateText(c)| > 10 && DateOnlyParts(DateText(c)) == Err(FieldDayInvalid)
  {
    assert |YearText(c.year)| > 4;
  }

  lemma NextYear(c: Date, next: Date)
    requires ValidDate(c) && ValidDate(next) && DayNumber(next) == DayNumber(c) + 1
    ensures c.year <= next.year
    ensures c.year < 9999 ==> next.year < 10000
    ensures c.year == 9999 ==> (next.year >= 10000 <==> c == LAST_DAY)
  {
    hide DateOf;
    if next.year < c.year {
      DayOrder(next, c);
    }
    DayInYear(c);
    DayInYear(next);
    if c.year + 1 < next.year {
      YearsUpTo(c.year + 2, next.year);
      YearStep(c.year + 1);
    }
    YearStep(c.year);
    if c == LAST_DAY {
      assert DayNumber(c) + 1 == DayFromYear(10000);
      if next.year < 10000 {
        YearsUpTo(next.year + 1, 10000);
      }
    } else if c.year == 9999 {
      LastDay(c);
    }
    if c.year == 9999 && c != LAST_DAY && next.year >= 10000 {
      YearsUpTo(10000, next.year);
    }
  }

  lemma LastDay(c: Date)
    requires ValidDate(c) && c.year == 9999 && c != LAST_DAY
    ensures DayNumber(c) + 1 < DayFromYear(10000)
  {
    MakeDayInYear(c.year, c.month, c.day);
  }

  // ---- Reading a local clock back ----

  const FIRST_DAY: Date := Date(100, 1, 1)

  lemma FirstDayIsValid()
    ensures ValidDate(FIRST_DAY)
  {
  }

  lemma LateDayLateYear(day: int)
    ensures DateOf(day).year >= 100 <==> day >= DayNumber(FIRST_DAY)
  {
    hide DateOf, DayNumber;
    FirstDayIsValid();
    var c := DateOf(day);
    DayInYear(FIRST_DAY);
    DayInYear(c);
    FirstOfYear();
    if c.year < 100 {
      YearsUpTo(c.year + 1, 100);
    } else {
      YearsUpTo(100, c.year);
    }
  }

  lemma FirstOfYear()
    ensures DayNumber(FIRST_DAY) == DayFromYear(100)
  {
    MakeDayInYear(100, 1, 1);
  }

  lemma HourOfDay(local: int)
    ensures var s := local / SECOND;
            && local / DAY == s / 86400
            && (s / 3600 % 24) * 3600 + (s / 60 % 60) * 60 + s % 60 == s % 86400
            && (s / 3600 % 24 < 4 <==> local % DAY < 4 * HOUR)
  {
    var s := local / SECOND;
    SplitSeconds(s);
    var day, inDay := s / 86400, s % 86400;
    assert s == 86400 * day + inDay;
    assert SECOND * s <= local < SECOND * s + SECOND;
    assert DAY * day <= local < DAY * day + DAY;
    assert local / DAY == day;
    assert local % DAY == local - DAY * day;
  }

  lemma SplitSeconds(s: int)
    ensures (s / 3600 % 24) * 3600 + (s / 60 % 60) * 60 + s % 60 == s % 86400
    ensures s / 3600 % 24 < 4 <==> s % 86400 < 14400
  {
    var d, r := s / 86400, s % 86400;
    assert s == 86400 * d + r;
    assert s / 3600 == 24 * d + r / 3600;
    assert (24 * d + r / 3600) % 24 == r / 3600;
    assert s / 60 == 1440 * d + r / 60;
    assert (1440 * d + r / 60) % 60 == r / 60 % 60;
    assert s % 60 == r % 60;
    assert r / 60 == 60 * (r / 3600) + r / 60 % 60;
    assert r == 60 * (r / 60) + r % 60;
  }

  /** From year 100 on, the formatter's parts give back the local time, cut to
      the second. */
  lemma ReadingIsLocal(z: Zone, t: int)
    requires Local(z, t) >= DayNumber(FIRST_DAY) * DAY
    ensures ActualLocal(z, t) == Local(z, t) / SECOND * SECOND
  {
    hide DateOf, DayNumber, Local, MakeDay;
    var local := Local(z, t);
    var c := LocalDate(z, t);
    assert local / DAY >= DayNumber(FIRST_DAY);
    LateDayLateYear(local / DAY);
    HourOfDay(local);
    assert DateUtc(c.year, c.month, c.day) == local / DAY by {
      DayIsMade(c);
    }
  }

  lemma DayIsMade(c: Date)
    requires c.year >= 100
    ensures DateUtc(c.year, c.month, c.day) == DayNumber(c)
  {
  }

  // ---- The boundary search ----

  lemma {:induction false} OffsetsAreWhole(initial: int, ts: seq<Transition>, t: int)
    requires WholeSeconds(initial) && forall i :: 0 <= i < |ts| ==> WholeSeconds(ts[i].offset)
    ensures WholeSeconds(OffsetFrom(initial, ts, t))
    decreases |ts|
  {
    if ts != [] && t >= ts[0].at {
      OffsetsAreWhole(ts[0].offset, ts[1..], t);
    }
  }

  function OffsetAt(z: Zone, t: int): int {
    OffsetFrom(z.initial, z.transitions, t)
  }

  /** How far from a wanted time the search may look without reading a clock
      before year 100: a day, save for the first two field days. */
  function Room(w: int): int {
    var past := w - DayNumber(FIRST_DAY) * DAY;
    if past >= 2 * DAY then DAY else past / 2
  }

  /** A wanted time whose search stays on readable clocks: within its room the
      offsets are no larger than the room. */
  ghost predicate Legible(z: Zone, w: int) {
    && w % SECOND == 0 && Room(w) >= 0
    && forall t | w - Room(w) <= t <= w + Room(w) :: -Room(w) <= OffsetAt(z, t) <= Room(w)
  }

  /** From the third field day on every zone leaves room enough. */
  lemma LateIsLegible(z: Zone, w: int)
    requires ValidZone(z) && w % SECOND == 0 && w >= (DayNumber(FIRST_DAY) + 2) * DAY
    ensures Legible(z, w)
  {
    hide DayNumber, OffsetFrom;
    forall t ensures -DAY <= OffsetAt(z, t) <= DAY {
      OffsetsAreWhole(z.initial, z.transitions, t);
    }
  }

  /** The rooms of the first two boundaries: two hours, and fourteen. */
  lemma FirstRooms()
    ensures Room(DayNumber(FIRST_DAY) * DAY + 4 * HOUR) == 2 * HOUR
    ensures Room((DayNumber(FIRST_DAY) + 1) * DAY + 4 * HOUR) == 14 * HOUR
  {
    hide DayNumber;
  }

  predicate Near(w: int, candidate: int) {
    candidate % SECOND == 0 && w - Room(w) <= candidate <= w + Room(w)
  }

  lemma RoomIsPast(w: int)
    requires Room(w) >= 0
    ensures w - 2 * Room(w) >= DayNumber(FIRST_DAY) * DAY && Room(w) <= DAY
  {
    hide DayNumber;
  }

  lemma ReadingNear(z: Zone, w: int, c: int)
    requires ValidZone(z) && Legible(z, w) && Near(w, c)
    ensures ActualLocal(z, c) == Local(z, c) == c + OffsetAt(z, c)
    ensures Near(w, c + (w - ActualLocal(z, c)))
    ensures c + (w - ActualLocal(z, c)) == w - OffsetAt(z, c)
  {
    hide DayNumber, ActualLocal, OffsetFrom, Room;
    OffsetsAreWhole(z.initial, z.transitions, c);
    RoomIsPast(w);
    var o := OffsetAt(z, c);
    assert Local(z, c) == c + o;
    ReadingIsLocal(z, c);
    WholeSecondsAdd(c, o);
    WholeSecondsAdd(w, -o);
  }

  lemma WholeSecondsAdd(c: int, o: int)
    requires c % SECOND == 0 && o % SECOND == 0
    ensures (c + o) % SECOND == 0 && (c + o) / SECOND * SECOND == c + o
    ensures -o % SECOND == 0
  {
    var i, j := c / SECOND, o / SECOND;
    assert c + o == SECOND * (i + j) && -o == SECOND * -j;
  }

  /** The search returns only instants whose local time is exactly the wanted
      one, whatever the zone does. */
  lemma {:induction false} SearchIsSound(z: Zone, w: int, c: int, rounds: nat)
    requires ValidZone(z) && Legible(z, w) && Near(w, c)
    ensures var r := Search(Reading(z), w, c, rounds);
            r.Ok? ==> Local(z, r.value) == w && Near(w, r.value)
    decreases rounds
  {
    hide ActualLocal, DayNumber, Local;
    if rounds > 0 {
      ReadingNear(z, w, c);
      if ActualLocal(z, c) != w {
        SearchIsSound(z, w, c + (w - ActualLocal(z, c)), rounds - 1);
      }
    }
  }

  /** Within a day of the wanted time the offset changes at most once. */
  predicate OneTransition(z: Zone, w: int, at: int, before: int, after: int) {
    forall t :: w - DAY <= t <= w + DAY ==> OffsetAt(z, t) == if t < at then before else after
  }

  /** The wanted time is skipped by the change. */
  predicate InGap(w: int, at: int, before: int, after: int) {
    w - before >= at && w - after < at
  }

  lemma NoInstantInGap(z: Zone, w: int, at: int, before: int, after: int)
    requires OneTransition(z, w, at, before, after) && InGap(w, at, before, after)
    ensures forall t :: w - DAY <= t <= w + DAY ==> Local(z, t) != w
  {
    forall t | w - DAY <= t <= w + DAY
      ensures Local(z, t) != w
    {
      assert Local(z, t) == t + OffsetAt(z, t);
    }
  }

  lemma SearchStep(z: Zone, w: int, c: int, rounds: nat)
    requires ValidZone(z) && Legible(z, w) && Near(w, c) && rounds > 0
    ensures Near(w, w - OffsetAt(z, c))
    ensures Search(Reading(z), w, c, rounds) ==
            if c == w - OffsetAt(z, c) then Ok(c) else Search(Reading(z), w, w - OffsetAt(z, c), rounds - 1)
  {
    hide ActualLocal, DayNumber;
    ReadingNear(z, w, c);
  }

  /** With one change nearby the search succeeds exactly when the wanted local
      time is not skipped, and then within three rounds. */
  lemma SearchConvergesIff(z: Zone, w: int, at: int, before: int, after: int, rounds: nat)
    requires ValidZone(z) && Legible(z, w) && rounds >= 3
    requires WholeSeconds(before) && WholeSeconds(after) && OneTransition(z, w, at, before, after)
    ensures Search(Reading(z), w, w, rounds).Ok? <==> !InGap(w, at, before, after)
    ensures !InGap(w, at, before, after) ==> Search(Reading(z), w, w, rounds) == Search(Reading(z), w, w, 3)
  {
    hide ActualLocal, DayNumber;
    if InGap(w, at, before, after) {
      NoInstantInGap(z, w, at, before, after);
      RoomIsPast(w);
      SearchIsSound(z, w, w, rounds);
    } else {
      ThreeRounds(z, w, at, before, after, rounds);
      ThreeRounds(z, w, at, before, after, 3);
    }
  }

  lemma ThreeRounds(z: Zone, w: int, at: int, before: int, after: int, rounds: nat)
    requires ValidZone(z) && Legible(z, w) && rounds >= 3
    requires WholeSeconds(before) && WholeSeconds(after) && OneTransition(z, w, at, before, after)
    requires !InGap(w, at, before, after)
    ensures var o0 := OffsetAt(z, w);
            var o1 := OffsetAt(z, w - o0);
            Search(Reading(z), w, w, rounds) == Ok(if o0 == 0 then w else if o1 == o0 then w - o0 else w - o1)
  {
    hide ActualLocal, DayNumber, Search, OffsetFrom;
    var o0 := OffsetAt(z, w);
    SearchStep(z, w, w, rounds);
    SearchStep(z, w, w - o0, rounds - 1);
    var o1 := OffsetAt(z, w - o0);
    SearchStep(z, w, w - o1, rounds - 2);
  }

  // ---- When the search settles, in any zone ----

  /** The offsets met on the way: each is the one in force where the last would
      put the wanted time. The search starts as if the offset were zero. */
  function Walk(z: Zone, w: int, n: nat): int {
    if n == 0 then 0 else OffsetAt(z, w - Walk(z, w, n - 1))
  }

  /** An offset puts the wanted time where that offset is in force. */
  predicate SettlesAt(z: Zone, w: int, k: nat) {
    Walk(z, w, k + 1) == Walk(z, w, k)
  }

  ghost predicate Settles(z: Zone, w: int) {
    exists k: nat :: k < 8 && SettlesAt(z, w, k)
  }

  /** The walk comes back to an offset it does not settle at. */
  ghost predicate Circles(z: Zone, w: int) {
    exists i: nat, j: nat :: 0 < i < j && Walk(z, w, i) == Walk(z, w, j) && !SettlesAt(z, w, i)
  }

  /** The walk settles, but first after the eight rounds. */
  ghost predicate SettlesLate(z: Zone, w: int) {
    exists k: nat :: k >= 7 && !SettlesAt(z, w, k) && SettlesAt(z, w, k + 1)
  }

  lemma {:induction false} WalkIsNear(z: Zone, w: int, n: nat)
    requires ValidZone(z) && Legible(z, w)
    ensures Near(w, w - Walk(z, w, n))
  {
    hide Legible, ActualLocal, DayNumber, OffsetFrom;
    if n > 0 {
      WalkIsNear(z, w, n - 1);
      SearchStep(z, w, w - Walk(z, w, n - 1), 1);
    } else {
      RoomIsRoom(z, w);
    }
  }

  lemma RoomIsRoom(z: Zone, w: int)
    requires Legible(z, w)
    ensures Near(w, w)
  {
    hide DayNumber;
  }

  lemma {:induction false} SearchWalks(z: Zone, w: int, n: nat, rounds: nat)
    requires ValidZone(z) && Legible(z, w)
    ensures Search(Reading(z), w, w - Walk(z, w, n), rounds).Ok? <==>
            exists k: nat :: n <= k < n + rounds && SettlesAt(z, w, k)
    decreases rounds
  {
    hide Legible, ActualLocal, Near;
    if rounds > 0 {
      WalkIsNear(z, w, n);
      SearchStep(z, w, w - Walk(z, w, n), rounds);
      SearchWalks(z, w, n + 1, rounds - 1);
      assert SettlesAt(z, w, n) <==> w - Walk(z, w, n) == w - OffsetAt(z, w - Walk(z, w, n));
    }
  }

  /** In every zone the search succeeds exactly when the offsets settle in time. */
  lemma SearchSettlesIff(z: Zone, w: int)
    requires ValidZone(z) && Legible(z, w)
    ensures Search(Reading(z), w, w, 8).Ok? <==> Settles(z, w)
  {
    hide Legible, ActualLocal, Search, SettlesAt;
    SearchWalks(z, w, 0, 8);
  }

  lemma {:induction false} Pigeonhole(s: seq<int>, values: set<int>)
    requires (forall x <- s :: x in values) && |values| < |s|
    ensures exists i, j :: 0 <= i < j < |s| && s[i] == s[j]
    decreases |s|
  {
    var last := |s| - 1;
    if s[last] in s[..last] {
      var i :| 0 <= i < last && s[i] == s[last];
    } else {
      assert s[last] in s && forall x <- s[..last] :: x in s && x != s[last];
      Pigeonhole(s[..last], values - {s[last]});
      var i, j :| 0 <= i < j < last && s[..last][i] == s[..last][j];
      assert s[i] == s[j];
    }
  }

  lemma {:induction false} WalkRepeats(z: Zone, w: int, i: nat, j: nat, n: nat)
    requires Walk(z, w, i) == Walk(z, w, j)
    ensures Walk(z, w, i + n) == Walk(z, w, j + n)
  {
    if n > 0 {
      WalkRepeats(z, w, i, j, n - 1);
    }
  }

  lemma {:induction false} StaysSettled(z: Zone, w: int, k: nat, n: nat)
    requires SettlesAt(z, w, k) && k <= n
    ensures SettlesAt(z, w, n)
  {
    WalkRepeats(z, w, k, k + 1, n - k);
  }

  /** A walk that came round once never settles. */
  lemma {:induction false} CirclingGoesOn(z: Zone, w: int, i: nat, j: nat, k: nat)
    requires i < j && Walk(z, w, i) == Walk(z, w, j) && !SettlesAt(z, w, i)
    ensures !SettlesAt(z, w, k)
    decreases k
  {
    if SettlesAt(z, w, k) {
      if k < j {
        StaysSettled(z, w, k, j);
        WalkRepeats(z, w, i, j, 1);
      } else {
        WalkRepeats(z, w, i, j, k - j);
        WalkRepeats(z, w, i, j, k - j + 1);
        CirclingGoesOn(z, w, i, j, k - (j - i));
      }
    }
  }

  lemma NeverBoth(z: Zone, w: int)
    requires Settles(z, w)
    ensures !Circles(z, w) && !SettlesLate(z, w)
  {
    hide SettlesAt, Walk;
    var k: nat :| k < 8 && SettlesAt(z, w, k);
    if Circles(z, w) {
      var i: nat, j: nat :| 0 < i < j && Walk(z, w, i) == Walk(z, w, j) && !SettlesAt(z, w, i);
      CirclingGoesOn(z, w, i, j, k);
    }
    forall n: nat | n >= 7 ensures SettlesAt(z, w, n) {
      StaysSettled(z, w, k, n);
    }
  }

  lemma {:induction false} FirstSettled(z: Zone, w: int, k: nat)
    requires SettlesAt(z, w, k) && !Settles(z, w)
    ensures SettlesLate(z, w)
    decreases k
  {
    hide SettlesAt;
    if SettlesAt(z, w, k - 1) {
      FirstSettled(z, w, k - 1);
    }
  }

  lemma SomeOffsetReturns(z: Zone, w: int, offsets: set<int>)
    requires ValidZone(z) && Legible(z, w)
    requires forall t :: Near(w, t) ==> OffsetAt(z, t) in offsets
    ensures exists i: nat, j: nat :: 0 < i < j <= |offsets| + 1 && Walk(z, w, i) == Walk(z, w, j)
  {
    hide Legible, Near, OffsetFrom;
    var n := |offsets| + 1;
    var met := seq(n, i requires 0 <= i < n => Walk(z, w, i + 1));
    forall i | 0 <= i < n ensures met[i] in offsets {
      WalkIsNear(z, w, i);
    }
    Pigeonhole(met, offsets);
    var i, j :| 0 <= i < j < n && met[i] == met[j];
    assert Walk(z, w, i + 1) == Walk(z, w, j + 1);
  }

  function OffsetsFrom(initial: int, ts: seq<Transition>): set<int> {
    {initial} + set tr | tr in ts :: tr.offset
  }

  lemma {:induction false} OffsetIsAmong(initial: int, ts: seq<Transition>, t: int)
    ensures OffsetFrom(initial, ts, t) in OffsetsFrom(initial, ts)
    decreases |ts|
  {
    if ts != [] {
      OffsetIsAmong(ts[0].offset, ts[1..], t);
      assert ts[0] in ts && forall tr <- ts[1..] :: tr in ts;
    }
  }

  /** The search fails exactly when the offsets come round without settling, and
      then no number of rounds would do, or when they settle too late. */
  lemma SearchFailsIff(z: Zone, w: int)
    requires ValidZone(z) && Legible(z, w)
    ensures Search(Reading(z), w, w, 8).Err? <==> Circles(z, w) || SettlesLate(z, w)
    ensures Circles(z, w) ==> forall rounds: nat :: Search(Reading(z), w, w, rounds).Err?
  {
    hide Legible, ActualLocal, Search, Near, SettlesAt, Walk, OffsetsFrom;
    SearchSettlesIff(z, w);
    if Settles(z, w) {
      NeverBoth(z, w);
    } else {
      forall t { OffsetIsAmong(z.initial, z.transitions, t); }
      SomeOffsetReturns(z, w, OffsetsFrom(z.initial, z.transitions));
      var i: nat, j: nat :| 0 < i < j && Walk(z, w, i) == Walk(z, w, j);
      if SettlesAt(z, w, i) {
        FirstSettled(z, w, i);
      }
    }
    if Circles(z, w) {
      CirclingFails(z, w);
    }
  }

  lemma CirclingFails(z: Zone, w: int)
    requires ValidZone(z) && Legible(z, w) && Circles(z, w)
    ensures forall rounds: nat :: Search(Reading(z), w, w, rounds).Err?
  {
    hide Legible, ActualLocal, Search, Near, SettlesAt;
    var i: nat, j: nat :| 0 < i < j && Walk(z, w, i) == Walk(z, w, j) && !SettlesAt(z, w, i);
    forall k: nat ensures !SettlesAt(z, w, k) {
      CirclingGoesOn(z, w, i, j, k);
    }
    forall rounds: nat ensures Search(Reading(z), w, w, rounds).Err? {
      SearchWalks(z, w, 0, rounds);
    }
  }

  /** Where at most seven offsets are in force nearby, eight rounds are enough. */
  lemma EightRoundsAreEnough(z: Zone, w: int, offsets: set<int>)
    requires ValidZone(z) && Legible(z, w) && |offsets| <= 7
    requires forall t :: Near(w, t) ==> OffsetAt(z, t) in offsets
    ensures !SettlesLate(z, w)
    ensures Search(Reading(z), w, w, 8).Err? <==> Circles(z, w)
  {
    hide Legible, ActualLocal, Search, Near, SettlesAt, Walk;
    SearchFailsIff(z, w);
    SomeOffsetReturns(z, w, offsets);
    var i: nat, j: nat :| 0 < i < j <= 8 && Walk(z, w, i) == Walk(z, w, j);
    if SettlesAt(z, w, i) {
      NeverBoth(z, w);
    } else {
      forall k: nat ensures !SettlesAt(z, w, k) {
        CirclingGoesOn(z, w, i, j, k);
      }
    }
  }
}
