/**
 * The count statics behind the dashboards: totals, status counts and counts
 * over date windows. Every window includes both of its ends.
 */
module Reports {
  import opened Wrappers
  import opened Calendar
  import opened Seqs
  import opened JsValues
  import opened TicketData
  import opened Queries

  function LiveWithStatus(status: int): TicketRecord -> bool {
    (t: TicketRecord) => !t.deleted && t.status == status
  }

  /** The date field a count's window applies to. */
  datatype DateField = Created | ClosedAt

  function FieldDate(t: TicketRecord, field: DateField): Option<Time> {
    match field
    case Created => Some(t.date)
    case ClosedAt => t.closedDate
  }

  /**
   * A count filter: not deleted, the status equal to `status` when one is given,
   * and the date field inside [lo, hi], both ends included. An unset date is in no window.
   */
  function InWindow(status: Option<int>, field: DateField, lo: Time, hi: Time): TicketRecord -> bool {
    (t: TicketRecord) =>
      !t.deleted
      && (status.Some? ==> t.status == status.value)
      && FieldDate(t, field).Some? && lo <= FieldDate(t, field).value <= hi
  }

  /** The number of store records passing a filter. */
  function Count(store: Store, p: TicketRecord -> bool): nat {
    |Filter(store, p)|
  }

  /** A one-record store counts its record exactly when the record passes the filter. */
  lemma CountOfOne(t: TicketRecord, p: TicketRecord -> bool)
    ensures Count([t], p) == if p(t) then 1 else 0
  {
    assert [] + [t] == [t];
    FilterCountAppend([], t, p);
  }

  /** Every filter that excludes deleted tickets counts no more than getTotalCount. */
  lemma CountAtMostTotal(store: Store, p: TicketRecord -> bool)
    requires forall t :: p(t) ==> !t.deleted
    ensures Count(store, p) <= GetTotalCount(store)
  {
    FilterMonotone(store, p, IsLive);
  }

  // ---------------------------------------------------------------- totals

  /** getTotalCount: the number of live tickets, which is the length of getAll's listing. */
  function GetTotalCount(store: Store): (n: nat)
    ensures n == |GetAll(store)|
    ensures n <= |store|
  {
    Count(store, IsLive)
  }

  /** getStatusCount: the number of live tickets with that status. */
  function GetStatusCount(store: Store, status: Option<int>): (r: Result<nat, Error>)
    ensures status.None? <==> r == Err(InvalidStatus)
    ensures r.Ok? ==> r.value <= GetTotalCount(store)
  {
    if status.None? then Err(InvalidStatus)
    else
      CountAtMostTotal(store, LiveWithStatus(status.value));
      Ok(Count(store, LiveWithStatus(status.value)))
  }

  /** A ticket adds to getStatusCount exactly when it is live and has that status. */
  lemma StatusCountAddsTicket(store: Store, t: TicketRecord, status: int)
    ensures GetStatusCount(store + [t], Some(status)).value
         == GetStatusCount(store, Some(status)).value + (if !t.deleted && t.status == status then 1 else 0)
  {
    FilterCountAppend(store, t, LiveWithStatus(status));
  }

  // ---------------------------------------------------------------- one day

  /** The window of the day before `date`: from one day earlier up to `date`, both included. */
  function DayWindow(date: Time): (w: (Time, Time))
    ensures w.1 == date
    ensures w.0 < w.1 && w.1 - w.0 == DAY_MS
  {
    (date - DAY_MS, date)
  }

  /** Both ends of the day window are times a JavaScript Date can hold. */
  predicate DayWindowValid(date: Time) {
    ValidTime(DayWindow(date).0) && ValidTime(DayWindow(date).1)
  }

  /** The date a status count by date looks at: `closedDate` for the closed status, else the creation date. */
  function StatusField(status: int): DateField {
    if status == CLOSED then ClosedAt else Created
  }

  /** The filter of getStatusCountByDate. */
  function DayFilter(status: int, date: Time): TicketRecord -> bool {
    InWindow(Some(status), StatusField(status), date - DAY_MS, date)
  }

  /**
   * getStatusCountByDate: live tickets with that status in the day window; for the
   * closed status the window applies to `closedDate` instead of the creation date.
   */
  function GetStatusCountByDate(store: Store, status: Option<int>, date: Option<Time>): (r: Result<nat, Error>)
    ensures status.None? <==> r == Err(InvalidStatus)
    ensures status.Some? && date.None? <==> r == Err(InvalidDate)
    ensures status.Some? && date.Some? ==> (r == Err(CastFailure) <==> !DayWindowValid(date.value))
    ensures r.Ok? ==> r.value <= GetStatusCount(store, status).value
  {
    if status.None? then Err(InvalidStatus)
    else if date.None? then Err(InvalidDate)
    else if !DayWindowValid(date.value) then Err(CastFailure)
    else
      FilterMonotone(store, DayFilter(status.value, date.value), LiveWithStatus(status.value));
      Ok(Count(store, DayFilter(status.value, date.value)))
  }

  /**
   * A ticket adds to getStatusCountByDate exactly when it is live, has the status, and
   * its creation date (its closing date, for the closed status) lies in [date - 1 day, date].
   */
  lemma StatusCountByDateAddsTicket(store: Store, t: TicketRecord, status: int, date: Time)
    requires DayWindowValid(date)
    ensures GetStatusCountByDate(store + [t], Some(status), Some(date)).value
         == GetStatusCountByDate(store, Some(status), Some(date)).value
            + (if !t.deleted && t.status == status
                  && (if status == CLOSED
                      then t.closedDate.Some? && date - DAY_MS <= t.closedDate.value <= date
                      else date - DAY_MS <= t.date <= date)
               then 1 else 0)
  {
    FilterCountAppend(store, t, DayFilter(status, date));
  }

  /** getDateCount: live tickets created in [date - 1 day, date]. */
  function GetDateCount(store: Store, date: Option<Time>): (r: Result<nat, Error>)
    ensures date.None? <==> r == Err(InvalidDate)
    ensures date.Some? ==> (r == Err(CastFailure) <==> !DayWindowValid(date.value))
    ensures r.Ok? ==> r.value <= GetTotalCount(store)
  {
    if date.None? then Err(InvalidDate)
    else if !DayWindowValid(date.value) then Err(CastFailure)
    else
      var (lo, hi) := DayWindow(date.value);
      CountAtMostTotal(store, InWindow(None, Created, lo, hi));
      Ok(Count(store, InWindow(None, Created, lo, hi)))
  }

  /** A ticket adds to getDateCount exactly when it is live and created in [date - 1 day, date]. */
  lemma DateCountAddsTicket(store: Store, t: TicketRecord, date: Time)
    requires DayWindowValid(date)
    ensures GetDateCount(store + [t], Some(date)).value
         == GetDateCount(store, Some(date)).value
            + (if !t.deleted && date - DAY_MS <= t.date <= date then 1 else 0)
  {
    FilterCountAppend(store, t, InWindow(None, Created, date - DAY_MS, date));
  }

  /**
   * The windows of two consecutive days, ending at `mid` and at `hi` one day later, share
   * their boundary instant `mid`: together they count the two days [lo, hi] once and the
   * tickets created exactly at `mid` twice.
   */
  lemma ConsecutiveDayCountsOverlap(store: Store, lo: Time, mid: Time, hi: Time)
    requires mid == hi - DAY_MS && lo == mid - DAY_MS
    requires DayWindowValid(hi) && DayWindowValid(mid)
    ensures GetDateCount(store, Some(hi)).Ok? && GetDateCount(store, Some(mid)).Ok?
    ensures GetDateCount(store, Some(hi)).value + GetDateCount(store, Some(mid)).value
         == Count(store, InWindow(None, Created, lo, hi)) + Count(store, InWindow(None, Created, mid, mid))
  {
    DateCountOfWindow(store, mid, hi);
    DateCountOfWindow(store, lo, mid);
    AdjacentWindows(store, lo, mid, hi);
  }

  /** A day window [lo, hi] a Date can hold is counted by creation date. */
  lemma DateCountOfWindow(store: Store, lo: Time, hi: Time)
    requires lo == hi - DAY_MS && DayWindowValid(hi)
    ensures GetDateCount(store, Some(hi)) == Ok(Count(store, InWindow(None, Created, lo, hi)))
  {
  }

  /**
   * Two creation-date windows that meet at `mid` count, together, the joined window
   * once and the tickets created exactly at `mid` twice.
   */
  lemma AdjacentWindows(store: Store, lo: Time, mid: Time, hi: Time)
    requires lo <= mid <= hi
    ensures Count(store, InWindow(None, Created, lo, mid)) + Count(store, InWindow(None, Created, mid, hi))
         == Count(store, InWindow(None, Created, lo, hi)) + Count(store, InWindow(None, Created, mid, mid))
  {
    var early, late := InWindow(None, Created, lo, mid), InWindow(None, Created, mid, hi);
    var joined, boundary := InWindow(None, Created, lo, hi), InWindow(None, Created, mid, mid);
    forall i | 0 <= i < |store|
      ensures joined(store[i]) == (early(store[i]) || late(store[i]))
      ensures boundary(store[i]) == (early(store[i]) && late(store[i]))
    {
    }
    FilterInclusionExclusion(store, early, late, joined, boundary);
  }

  // ---------------------------------------------------------------- one month

  /**
   * The window of getMonthCount: from the first instant of `month` of `currentYear`
   * to the first instant of the next month, both included. The end is computed as
   * the source does, by moving the normalised start date on by one month.
   */
  function MonthWindow(month: int, currentYear: int): (w: (Time, Time))
    ensures w.0 == NewDate(currentYear, month) && w.1 == NewDate(currentYear, month + 1)
    ensures w.0 + 28 * DAY_MS <= w.1 <= w.0 + 31 * DAY_MS
  {
    var year := FullYear(currentYear);
    var start := MonthStart(year, month);
    NextMonthOfNormalised(year, month);
    MonthLength(year, month);
    (start, MonthStart(year + month / 12, month % 12 + 1))
  }

  /**
   * The filter getMonthCount builds from its numeric status: none or 0 counts every
   * status by creation date, 3 counts closed tickets by closing date, any other value
   * counts that status by creation date.
   */
  function MonthFilter(status: Option<int>, lo: Time, hi: Time): (p: TicketRecord -> bool)
    ensures forall t :: p(t) <==>
              !t.deleted
              && if status == Some(CLOSED)
                 then t.status == CLOSED && t.closedDate.Some? && lo <= t.closedDate.value <= hi
                 else (status.Some? && status.value != 0 ==> t.status == status.value) && lo <= t.date <= hi
  {
    if status.None? || status.value == 0 then InWindow(None, Created, lo, hi)
    else if status.value == CLOSED then InWindow(status, ClosedAt, lo, hi)
    else InWindow(status, Created, lo, hi)
  }

  /** Both ends of the month window are times a JavaScript Date can hold. */
  predicate MonthWindowValid(month: int, currentYear: int) {
    ValidTime(MonthWindow(month, currentYear).0) && ValidTime(MonthWindow(month, currentYear).1)
  }

  /**
   * getMonthCount. Both arguments pass through `Number(...)`; an undefined month is an
   * error, and a month or status that is NaN, or a window end a Date cannot hold, makes
   * the store refuse the filter.
   */
  function GetMonthCount(store: Store, month: JsArg, status: JsArg, currentYear: int): (r: Result<nat, Error>)
    ensures month.Undefined? <==> r == Err(InvalidMonth)
    ensures r == Err(CastFailure) <==>
              !month.Undefined?
              && (ToNumber(month).None? || (!status.Undefined? && ToNumber(status).None?)
                  || !MonthWindowValid(ToNumber(month).value, currentYear))
    ensures r.Ok? ==> r.value <= GetTotalCount(store)
  {
    if month.Undefined? then Err(InvalidMonth)
    else if ToNumber(month).None? then Err(CastFailure)
    else if !status.Undefined? && ToNumber(status).None? then Err(CastFailure)
    else if !MonthWindowValid(ToNumber(month).value, currentYear) then Err(CastFailure)
    else
      var (lo, hi) := MonthWindow(ToNumber(month).value, currentYear);
      var p := MonthFilter(ToNumber(status), lo, hi);
      CountAtMostTotal(store, p);
      Ok(Count(store, p))
  }

  /**
   * A ticket adds to getMonthCount (numeric or undefined arguments) exactly when it is
   * live and, for status 3, closed with its closing date in the month window, and
   * otherwise created in the month window with the given status unless that is 0.
   */
  lemma MonthCountAddsTicket(store: Store, t: TicketRecord, month: int, status: JsArg, currentYear: int)
    requires status.Undefined? || status.Num?
    requires MonthWindowValid(month, currentYear)
    ensures GetMonthCount(store, Num(month), status, currentYear).Ok?
    ensures GetMonthCount(store + [t], Num(month), status, currentYear).Ok?
    ensures
      var lo, hi := NewDate(currentYear, month), NewDate(currentYear, month + 1);
      GetMonthCount(store + [t], Num(month), status, currentYear).value
      == GetMonthCount(store, Num(month), status, currentYear).value + (if MonthCounts(t, status, lo, hi) then 1 else 0)
  {
    var lo, hi := NewDate(currentYear, month), NewDate(currentYear, month + 1);
    MonthCountOfNumber(store + [t], month, status, currentYear);
    MonthCountOfNumber(store, month, status, currentYear);
    MonthFilterAddsTicket(store, t, status, lo, hi);
  }

  /** A numeric month whose window a Date can hold is counted with the month filter over that window. */
  lemma MonthCountOfNumber(store: Store, month: int, status: JsArg, currentYear: int)
    requires status.Undefined? || status.Num?
    requires MonthWindowValid(month, currentYear)
    ensures GetMonthCount(store, Num(month), status, currentYear)
         == Ok(Count(store, MonthFilter(ToNumber(status), NewDate(currentYear, month), NewDate(currentYear, month + 1))))
  {
    DecimalStringsConvert();
    assert ToNumber(Num(month)) == Some(month);
  }

  /**
   * Whether getMonthCount counts ticket `t` for window [lo, hi]: it is live and, for
   * status 3, closed with its closing date in the window, and otherwise created in the
   * window with the given status unless that is 0.
   */
  predicate MonthCounts(t: TicketRecord, status: JsArg, lo: Time, hi: Time)
    requires status.Undefined? || status.Num?
  {
    !t.deleted
    && if status.Num? && status.n == CLOSED
       then t.status == CLOSED && t.closedDate.Some? && lo <= t.closedDate.value <= hi
       else (status.Num? && status.n != 0 ==> t.status == status.n) && lo <= t.date <= hi
  }

  lemma MonthFilterAddsTicket(store: Store, t: TicketRecord, status: JsArg, lo: Time, hi: Time)
    requires status.Undefined? || status.Num?
    ensures Count(store + [t], MonthFilter(ToNumber(status), lo, hi))
         == Count(store, MonthFilter(ToNumber(status), lo, hi)) + (if MonthCounts(t, status, lo, hi) then 1 else 0)
  {
    var p := MonthFilter(ToNumber(status), lo, hi);
    FilterCountAppend(store, t, p);
    if status.Num? && status.n == CLOSED {
      assert p == InWindow(Some(CLOSED), ClosedAt, lo, hi);
    } else if status.Num? && status.n != 0 {
      assert p == InWindow(Some(status.n), Created, lo, hi);
    } else {
      assert p == InWindow(None, Created, lo, hi);
    }
  }

  /** Status 0, the empty string and "0" all count every status, as an undefined status does. */
  lemma MonthCountStatusZeroMeansAny(store: Store, month: JsArg, currentYear: int)
    ensures GetMonthCount(store, month, Num(0), currentYear) == GetMonthCount(store, month, Undefined, currentYear)
    ensures GetMonthCount(store, month, Str(""), currentYear) == GetMonthCount(store, month, Undefined, currentYear)
    ensures GetMonthCount(store, month, Str("0"), currentYear) == GetMonthCount(store, month, Undefined, currentYear)
  {
    assert ToNumber(Str("")) == Some(0);
    assert ToNumber(Str("0")) == Some(0) by {
      assert AllDigits("0");
      assert "0"[..0] == "";
    }
  }

  /**
   * getMonthCount sees its arguments only through `Number(...)`, apart from the undefined
   * checks, so arguments that convert alike count alike.
   */
  lemma MonthCountByNumbers(store: Store, month: JsArg, month': JsArg, status: JsArg, status': JsArg, currentYear: int)
    requires month.Undefined? == month'.Undefined? && ToNumber(month) == ToNumber(month')
    requires status.Undefined? == status'.Undefined? && ToNumber(status) == ToNumber(status')
    ensures GetMonthCount(store, month, status, currentYear) == GetMonthCount(store, month', status', currentYear)
  {
  }

  /** Passing the month and status as their decimal strings counts the same as passing the numbers. */
  lemma MonthCountOfStrings(store: Store, month: int, status: int, currentYear: int)
    ensures GetMonthCount(store, Str(IntToString(month)), Str(IntToString(status)), currentYear)
         == GetMonthCount(store, Num(month), Num(status), currentYear)
  {
    assert ToNumber(Str(IntToString(month))) == Some(month) == ToNumber(Num(month));
    assert ToNumber(Str(IntToString(status))) == Some(status) == ToNumber(Num(status));
    MonthCountByNumbers(store, Str(IntToString(month)), Num(month), Str(IntToString(status)), Num(status), currentYear);
  }

  /**
   * The windows of two consecutive months share the instant the later one starts:
   * together they count both months once and tickets created exactly at that instant twice.
   */
  lemma ConsecutiveMonthCountsOverlap(store: Store, month: int, currentYear: int)
    requires MonthWindowValid(month, currentYear) && MonthWindowValid(month + 1, currentYear)
    ensures GetMonthCount(store, Num(month), Undefined, currentYear).Ok?
    ensures GetMonthCount(store, Num(month + 1), Undefined, currentYear).Ok?
    ensures
      var start, boundary, end := NewDate(currentYear, month), NewDate(currentYear, month + 1), NewDate(currentYear, month + 2);
      GetMonthCount(store, Num(month), Undefined, currentYear).value
      + GetMonthCount(store, Num(month + 1), Undefined, currentYear).value
      == Count(store, InWindow(None, Created, start, end)) + Count(store, InWindow(None, Created, boundary, boundary))
  {
    var start, boundary, end := NewDate(currentYear, month), NewDate(currentYear, month + 1), NewDate(currentYear, month + 2);
    MonthCountOfWindow(store, month, currentYear, start, boundary);
    MonthCountOfWindow(store, month + 1, currentYear, boundary, end);
    AdjacentWindows(store, start, boundary, end);
  }

  /** An undefined status counts by creation date over the month window, which is not empty. */
  lemma MonthCountOfWindow(store: Store, month: int, currentYear: int, lo: Time, hi: Time)
    requires MonthWindowValid(month, currentYear)
    requires lo == NewDate(currentYear, month) && hi == NewDate(currentYear, month + 1)
    ensures lo < hi
    ensures GetMonthCount(store, Num(month), Undefined, currentYear) == Ok(Count(store, InWindow(None, Created, lo, hi)))
  {
    var w := MonthWindow(month, currentYear);
    MonthCountOfNumber(store, month, Undefined, currentYear);
    assert MonthFilter(None, lo, hi) == InWindow(None, Created, lo, hi);
  }

  // ---------------------------------------------------------------- one year

  /**
   * The only instant getYearCount's window holds. The end date is the same Date object
   * as the start date, so moving it to the next year moves the start too, and both bounds
   * become January 1 of the year after `year` (`setYear` reads 0..99 as 1900..1999 again).
   */
  function AliasedYearInstant(year: int): (r: Time)
    ensures year != -1 ==> r == MonthStart(FullYear(year) + 1, 0)
    ensures year == -1 ==> r == MonthStart(1900, 0)
  {
    NewDate(FullYear(year) + 1, 0)
  }

  /** getYearCount's Date holds a time both as created and after it is moved on by a year. */
  predicate YearDatesValid(year: int) {
    ValidTime(NewDate(year, 0)) && ValidTime(AliasedYearInstant(year))
  }

  /**
   * The status filter of getYearCount: only a number filters, and by its own value;
   * a string or nothing does not filter.
   */
  function YearStatus(status: JsArg): (r: Option<int>)
    ensures r.Some? <==> status.Num?
    ensures r.Some? ==> ToNumber(status) == r
  {
    DecimalStringsConvert();
    if status.Num? then Some(status.n) else None
  }

  /** getYearCount as the source computes it. */
  function GetYearCount(store: Store, year: JsArg, status: JsArg): (r: Result<nat, Error>)
    ensures year.Undefined? <==> r == Err(InvalidYear)
    ensures r == Err(CastFailure) <==>
              !year.Undefined? && (ToNumber(year).None? || !YearDatesValid(ToNumber(year).value))
    ensures r.Ok? ==> r.value <= GetTotalCount(store)
  {
    if year.Undefined? then Err(InvalidYear)
    else if ToNumber(year).None? then Err(CastFailure)
    else if !YearDatesValid(ToNumber(year).value) then Err(CastFailure)
    else
      var instant := AliasedYearInstant(ToNumber(year).value);
      var p := InWindow(YearStatus(status), Created, instant, instant);
      CountAtMostTotal(store, p);
      Ok(Count(store, p))
  }

  /**
   * A ticket adds to getYearCount exactly when it is live, was created at the single
   * instant January 1 of the following year, and has the status when a number is given.
   */
  lemma YearCountAddsTicket(store: Store, t: TicketRecord, year: int, status: JsArg)
    requires YearDatesValid(year)
    ensures GetYearCount(store, Num(year), status).Ok? && GetYearCount(store + [t], Num(year), status).Ok?
    ensures GetYearCount(store + [t], Num(year), status).value
         == GetYearCount(store, Num(year), status).value
            + (if !t.deleted && t.date == NewDate(FullYear(year) + 1, 0)
                  && (status.Num? ==> t.status == status.n) then 1 else 0)
  {
    var instant := AliasedYearInstant(year);
    var p := InWindow(YearStatus(status), Created, instant, instant);
    YearCountOfNumber(store, year, status);
    YearCountOfNumber(store + [t], year, status);
    FilterCountAppend(store, t, p);
    assert p(t) <==> !t.deleted && t.date == instant && (status.Num? ==> t.status == status.n);
  }

  /** A numeric year whose dates a Date can hold is counted at the aliased instant. */
  lemma YearCountOfNumber(store: Store, year: int, status: JsArg)
    requires YearDatesValid(year)
    ensures GetYearCount(store, Num(year), status)
         == Ok(Count(store, InWindow(YearStatus(status), Created, AliasedYearInstant(year), AliasedYearInstant(year))))
  {
    assert ToNumber(Num(year)) == Some(year);
  }

  /** The year window as evidently intended: January 1 of `year` to January 1 of the next year. */
  function YearWindow(year: int): (w: (Time, Time))
    ensures w.0 == NewDate(year, 0)
    ensures w.1 - w.0 == (if IsLeap(FullYear(year)) then 366 else 365) * DAY_MS
  {
    YearLength(FullYear(year));
    (NewDate(year, 0), MonthStart(FullYear(year) + 1, 0))
  }

  /** Both ends of the intended year window are times a JavaScript Date can hold. */
  predicate YearWindowValid(year: int) {
    ValidTime(YearWindow(year).0) && ValidTime(YearWindow(year).1)
  }

  /** The filter of the corrected year count. */
  function YearFilter(year: int, status: JsArg): TicketRecord -> bool {
    InWindow(YearStatus(status), Created, YearWindow(year).0, YearWindow(year).1)
  }

  /** getYearCount with separate start and end dates. */
  function GetYearCountCorrected(store: Store, year: JsArg, status: JsArg): (r: Result<nat, Error>)
    ensures year.Undefined? <==> r == Err(InvalidYear)
    ensures r == Err(CastFailure) <==>
              !year.Undefined? && (ToNumber(year).None? || !YearWindowValid(ToNumber(year).value))
    ensures r.Ok? ==> r.value <= GetTotalCount(store)
  {
    if year.Undefined? then Err(InvalidYear)
    else if ToNumber(year).None? then Err(CastFailure)
    else if !YearWindowValid(ToNumber(year).value) then Err(CastFailure)
    else
      CountAtMostTotal(store, YearFilter(ToNumber(year).value, status));
      Ok(Count(store, YearFilter(ToNumber(year).value, status)))
  }

  /** A ticket adds to the corrected year count exactly when it is live and created during the year. */
  lemma YearCountCorrectedAddsTicket(store: Store, t: TicketRecord, year: int, status: JsArg)
    requires YearWindowValid(year)
    ensures GetYearCountCorrected(store, Num(year), status).Ok?
    ensures GetYearCountCorrected(store + [t], Num(year), status).Ok?
    ensures
      var lo, hi := NewDate(year, 0), MonthStart(FullYear(year) + 1, 0);
      GetYearCountCorrected(store + [t], Num(year), status).value
      == GetYearCountCorrected(store, Num(year), status).value
         + (if !t.deleted && lo <= t.date <= hi && (status.Num? ==> t.status == status.n) then 1 else 0)
  {
    assert YearWindow(year) == (NewDate(year, 0), MonthStart(FullYear(year) + 1, 0));
    YearCountCorrectedOfNumber(store, year, status);
    YearCountCorrectedOfNumber(store + [t], year, status);
    FilterCountAppend(store, t, YearFilter(year, status));
  }

  /** A numeric year whose window a Date can hold is counted with the year filter. */
  lemma YearCountCorrectedOfNumber(store: Store, year: int, status: JsArg)
    requires YearWindowValid(year)
    ensures GetYearCountCorrected(store, Num(year), status) == Ok(Count(store, YearFilter(year, status)))
  {
    assert ToNumber(Num(year)) == Some(year);
  }

  /**
   * Except for year -1 (where `setYear(0)` jumps to 1900), the one instant getYearCount
   * looks at is the end of the intended window, so it never counts more than the corrected count.
   */
  lemma AliasedInstantIsYearEnd(store: Store, year: int, status: JsArg)
    requires year != -1
    ensures AliasedYearInstant(year) == YearWindow(year).1
    ensures GetYearCount(store, Num(year), status).Ok? <==> GetYearCountCorrected(store, Num(year), status).Ok?
    ensures GetYearCount(store, Num(year), status).Ok? ==>
              GetYearCount(store, Num(year), status).value <= GetYearCountCorrected(store, Num(year), status).value
  {
    var instant := AliasedYearInstant(year);
    assert instant == YearWindow(year).1;
    assert YearDatesValid(year) <==> YearWindowValid(year);
    if YearDatesValid(year) {
      YearCountOfNumber(store, year, status);
      YearCountCorrectedOfNumber(store, year, status);
      FilterMonotone(store, InWindow(YearStatus(status), Created, instant, instant), YearFilter(year, status));
    } else {
      assert ToNumber(Num(year)) == Some(year);
    }
  }

  /** A live, open, unassigned ticket created at instant `date`. */
  function SampleTicket(date: Time): TicketRecord {
    TicketRecord(1, Some(1), 1, 1, None, date, None, false, 1, 1, 1, [], "subject", "issue", None, [], [])
  }

  /** June 1 of a year lies inside that year's window, strictly before its end. */
  lemma JuneIsInsideTheYear(year: int)
    ensures NewDate(year, 0) <= NewDate(year, 5) < MonthStart(FullYear(year) + 1, 0)
  {
    var fy := FullYear(year);
    MonthStartsIncrease(fy, 0, 5);
    MonthStartsIncrease(fy, 5, 12);
    assert MonthStart(fy, 12) == MonthStart(fy + 1, 0);
  }

  /**
   * A lone ticket created inside the intended window but before its last instant is
   * missed by getYearCount and counted by the corrected count.
   */
  lemma YearCountOfOneTicket(year: int, date: Time)
    requires year != -1 && YearWindowValid(year)
    requires YearWindow(year).0 <= date < YearWindow(year).1
    ensures GetYearCount([SampleTicket(date)], Num(year), Undefined) == Ok(0)
    ensures GetYearCountCorrected([SampleTicket(date)], Num(year), Undefined) == Ok(1)
  {
    var t := SampleTicket(date);
    var instant := AliasedYearInstant(year);
    AliasedInstantIsYearEnd([], year, Undefined);
    assert ToNumber(Num(year)) == Some(year);
    assert GetYearCount([t], Num(year), Undefined) == Ok(Count([t], InWindow(None, Created, instant, instant)));
    CountOfOne(t, InWindow(None, Created, instant, instant));
    assert GetYearCountCorrected([t], Num(year), Undefined) == Ok(Count([t], YearFilter(year, Undefined)));
    CountOfOne(t, YearFilter(year, Undefined));
  }

  /**
   * The aliasing at work: a ticket created on June 1 of `year` is not counted by
   * getYearCount(year), while the corrected count includes it.
   */
  lemma YearCountMissesItsOwnYear(year: int)
    requires year != -1 && YearWindowValid(year)
    ensures GetYearCount([SampleTicket(NewDate(year, 5))], Num(year), Undefined) == Ok(0)
    ensures GetYearCountCorrected([SampleTicket(NewDate(year, 5))], Num(year), Undefined) == Ok(1)
  {
    JuneIsInsideTheYear(year);
    YearCountOfOneTicket(year, NewDate(year, 5));
  }
}
