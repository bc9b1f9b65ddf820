/**
 The start boundary of a one-shot task (crates/fsw-cli/src/scheduled_task.rs): one minute is added with
 every carry done by hand, and longer delays repeat the step on the printed text. Time is measured by a
 closed-form day count with the Gregorian leap rule.
 */
module TaskClock {
  import opened Results
  import opened Numerals

  datatype Moment = Moment(year: nat, month: nat, day: nat, hour: nat, minute: nat)

  const U16_LIMIT: nat := 0x1_0000

  predicate IsLeap(year: nat) {
    year % 4 == 0 && (year % 100 != 0 || year % 400 == 0)
  }

  function DaysIn(year: nat, month: nat): nat {
    match month
    case 1 | 3 | 5 | 7 | 8 | 10 | 12 => 31
    case 4 | 6 | 9 | 11 => 30
    case 2 => if IsLeap(year) then 29 else 28
    case _ => 0
  }

  predicate IsValid(moment: Moment) {
    && 1 <= moment.month <= 12 && 1 <= moment.day <= DaysIn(moment.year, moment.month)
    && moment.hour < 24 && moment.minute < 60
  }

  /** Days before the first of January: 365 a year, and a leap day for every leap year passed. */
  function DaysBeforeYear(year: nat): nat {
    365 * year + (year + 3) / 4 - (year + 99) / 100 + (year + 399) / 400
  }

  /** Days of the year before the first of the month. */
  function DaysBeforeMonth(year: nat, month: nat): int {
    (367 * month - 362) / 12 - (if month <= 2 then 0 else if IsLeap(year) then 1 else 2)
  }

  function DayNumber(year: nat, month: nat, day: nat): int {
    DaysBeforeYear(year) + DaysBeforeMonth(year, month) + day - 1
  }

  /** Minutes since the start of year 0. */
  function Minutes(moment: Moment): int {
    (DayNumber(moment.year, moment.month, moment.day) * 24 + moment.hour) * 60 + moment.minute
  }

  /** The text Task Scheduler reads. */
  function Printed(moment: Moment): string {
    Padded(moment.year, 4, 10) + "-" + Padded(moment.month, 2, 10) + "-" + Padded(moment.day, 2, 10)
    + "T" + Padded(moment.hour, 2, 10) + ":" + Padded(moment.minute, 2, 10) + ":00"
  }

  /** The carries, one after the other. */
  function NextMinute(moment: Moment): Moment {
    var m := moment.(minute := moment.minute + 1);
    var h := if m.minute == 60 then m.(minute := 0, hour := m.hour + 1) else m;
    var d := if h.hour == 24 then h.(hour := 0, day := h.day + 1) else h;
    var n := if d.day > DaysIn(d.year, d.month) then d.(day := 1, month := d.month + 1) else d;
    if n.month == 13 then n.(month := 1, year := n.year + 1) else n
  }

  predicate IsOneLater(moment: Moment, next: Moment) {
    IsValid(next) && Minutes(next) == Minutes(moment) + 1
  }

  /** task_start_boundary; the fields are 16-bit and must not overflow. */
  method TaskStartBoundary(year: nat, month: nat, day: nat, hour: nat, minute: nat) returns (boundary: string)
    requires IsValid(Moment(year, month, day, hour, minute)) && year + 1 < U16_LIMIT
    ensures boundary == Printed(NextMinute(Moment(year, month, day, hour, minute)))
    ensures IsOneLater(Moment(year, month, day, hour, minute), NextMinute(Moment(year, month, day, hour, minute)))
  {
    var y, mo, d, h, mi := year, month, day, hour, minute + 1;
    if mi == 60 {
      mi := 0;
      h := h + 1;
    }
    if h == 24 {
      h := 0;
      d := d + 1;
    }
    if d > DaysIn(y, mo) {
      d := 1;
      mo := mo + 1;
    }
    if mo == 13 {
      mo := 1;
      y := y + 1;
    }
    boundary := Printed(Moment(y, mo, d, h, mi));
    OneMinuteLater(Moment(year, month, day, hour, minute));
    assert NextMinute(Moment(year, month, day, hour, minute)) == Moment(y, mo, d, h, mi);
  }

  lemma YearLength(year: nat)
    ensures DaysBeforeYear(year + 1) == DaysBeforeYear(year) + if IsLeap(year) then 366 else 365
  {
    FourthYears(year);
    Centuries(year);
    FourthCenturies(year);
    Multiples(year);
  }

  lemma FourthYears(year: nat)
    ensures (year + 4) / 4 - (year + 3) / 4 == if year % 4 == 0 then 1 else 0
  {
  }

  lemma Centuries(year: nat)
    ensures (year + 100) / 100 - (year + 99) / 100 == if year % 100 == 0 then 1 else 0
  {
  }

  lemma FourthCenturies(year: nat)
    ensures (year + 400) / 400 - (year + 399) / 400 == if year % 400 == 0 then 1 else 0
  {
  }

  /** Every fourth century is a century, and every century a fourth year. */
  lemma Multiples(year: nat)
    ensures year % 400 == 0 ==> year % 100 == 0
    ensures year % 100 == 0 ==> year % 4 == 0
  {
    if year % 400 == 0 {
      Products(year / 400 * 4, 0);
      assert year == 100 * (year / 400 * 4);
    }
    if year % 100 == 0 {
      Products(0, year / 100 * 25);
      assert year == 4 * (year / 100 * 25);
    }
  }

  lemma Products(q: nat, r: nat)
    ensures (100 * q) % 100 == 0 && (4 * r) % 4 == 0
  {
  }

  lemma MonthLength(year: nat, month: nat)
    requires 1 <= month <= 12
    ensures if month < 12 then DaysBeforeMonth(year, month + 1) == DaysBeforeMonth(year, month) + DaysIn(year, month)
            else DaysBeforeMonth(year, month) + DaysIn(year, month) == if IsLeap(year) then 366 else 365
    ensures DaysBeforeMonth(year, 1) == 0
  {
  }

  /** The day after a month's last is the first of the next. */
  lemma NextDay(year: nat, month: nat, day: nat)
    requires 1 <= month <= 12 && day == DaysIn(year, month)
    ensures DayNumber(year, month, day) + 1
         == if month < 12 then DayNumber(year, month + 1, 1) else DayNumber(year + 1, 1, 1)
  {
    MonthLength(year, month);
    MonthLength(year + 1, 1);
    YearLength(year);
  }

  /** The step gives a valid moment exactly one minute later. */
  lemma OneMinuteLater(moment: Moment)
    requires IsValid(moment)
    ensures IsValid(NextMinute(moment)) && Minutes(NextMinute(moment)) == Minutes(moment) + 1
    ensures moment.year <= NextMinute(moment).year <= moment.year + 1
  {
    if moment.minute == 59 && moment.hour == 23 && moment.day == DaysIn(moment.year, moment.month) {
      NextDay(moment.year, moment.month, moment.day);
    }
  }

  lemma {:induction false} YearsGrow(early: nat, late: nat)
    requires early < late
    ensures DaysBeforeYear(early) + (if IsLeap(early) then 366 else 365) <= DaysBeforeYear(late)
    decreases late - early
  {
    YearLength(early);
    if early + 1 < late {
      YearsGrow(early + 1, late);
    }
  }

  lemma {:induction false} MonthsGrow(year: nat, early: nat, late: nat)
    requires 1 <= early < late <= 12
    ensures DaysBeforeMonth(year, early) + DaysIn(year, early) <= DaysBeforeMonth(year, late)
    decreases late - early
  {
  }

  /** A day's place in its year. */
  lemma DayOfYear(moment: Moment)
    requires IsValid(moment)
    ensures 0 <= DaysBeforeMonth(moment.year, moment.month) + moment.day - 1
    ensures DaysBeforeMonth(moment.year, moment.month) + moment.day <= if IsLeap(moment.year) then 366 else 365
  {
  }

  /** Two valid moments the same number of minutes in are the same moment. */
  lemma MinutesAreUnique(first: Moment, second: Moment)
    requires IsValid(first) && IsValid(second) && Minutes(first) == Minutes(second)
    ensures first == second
  {
    DayOfYear(first);
    DayOfYear(second);
    SameDay(first, second);
    if first.year < second.year {
      YearsGrow(first.year, second.year);
    } else if second.year < first.year {
      YearsGrow(second.year, first.year);
    } else if first.month < second.month {
      MonthsGrow(first.year, first.month, second.month);
    } else if second.month < first.month {
      MonthsGrow(first.year, second.month, first.month);
    }
  }

  lemma SameDay(first: Moment, second: Moment)
    requires IsValid(first) && IsValid(second) && Minutes(first) == Minutes(second)
    ensures DayNumber(first.year, first.month, first.day) == DayNumber(second.year, second.month, second.day)
    ensures first.hour == second.hour && first.minute == second.minute
  {
  }

  /** What the delay loop reads out of a boundary's fixed positions. */
  function Reparsed(text: string): Option<Moment> {
    if |text| < 16 then None
    else
      var year := ParseRadix(text[0..4], 10, U16_LIMIT);
      var month := ParseRadix(text[5..7], 10, U16_LIMIT);
      var day := ParseRadix(text[8..10], 10, U16_LIMIT);
      var hour := ParseRadix(text[11..13], 10, U16_LIMIT);
      var minute := ParseRadix(text[14..16], 10, U16_LIMIT);
      if year.Some? && month.Some? && day.Some? && hour.Some? && minute.Some?
      then Some(Moment(year.value, month.value, day.value, hour.value, minute.value))
      else None
  }

  lemma Pieces(y: string, mo: string, d: string, h: string, mi: string, text: string)
    requires |y| == 4 && |mo| == 2 && |d| == 2 && |h| == 2 && |mi| == 2
    requires text == y + "-" + mo + "-" + d + "T" + h + ":" + mi + ":00"
    ensures |text| == 19 && text[0..4] == y && text[5..7] == mo && text[8..10] == d
    ensures text[11..13] == h && text[14..16] == mi
  {
  }

  /** A boundary up to year 9999 reads back as the moment it prints. */
  lemma PrintedReturns(moment: Moment)
    requires IsValid(moment) && moment.year <= 9999
    ensures Reparsed(Printed(moment)) == Some(moment)
  {
    Powers();
    PaddedReturns(moment.year, 4, U16_LIMIT);
    PaddedReturns(moment.month, 2, U16_LIMIT);
    PaddedReturns(moment.day, 2, U16_LIMIT);
    PaddedReturns(moment.hour, 2, U16_LIMIT);
    PaddedReturns(moment.minute, 2, U16_LIMIT);
    Pieces(Padded(moment.year, 4, 10), Padded(moment.month, 2, 10), Padded(moment.day, 2, 10), Padded(moment.hour, 2, 10),
           Padded(moment.minute, 2, 10), Printed(moment));
  }

  /** Decimal digits, at least so many, that stand for the number. */
  predicate Shows(text: string, width: nat, value: nat) {
    |text| >= width && (forall i :: 0 <= i < |text| ==> '0' <= text[i] <= '9') && Accumulated(text, 10) == Some(value)
  }

  /** `YYYY-MM-DDThh:mm:00`, the year with as many digits as it takes. */
  predicate IsLaidOut(text: string, moment: Moment, year: string, month: string, day: string, hour: string, minute: string) {
    && text == year + "-" + month + "-" + day + "T" + hour + ":" + minute + ":00"
    && |month| == |day| == |hour| == |minute| == 2 && (moment.year <= 9999 <==> |year| == 4)
    && Shows(year, 4, moment.year) && Shows(month, 2, moment.month) && Shows(day, 2, moment.day)
    && Shows(hour, 2, moment.hour) && Shows(minute, 2, moment.minute)
  }

  lemma {:induction false} DecimalDigits(value: nat)
    ensures forall i :: 0 <= i < |Digits(value, 10)| ==> '0' <= Digits(value, 10)[i] <= '9'
    decreases value
  {
    if value >= 10 {
      DecimalDigits(value / 10);
    }
  }

  lemma PaddedShows(value: nat, width: nat)
    requires width >= 1
    ensures Shows(Padded(value, width, 10), width, value)
    ensures |Padded(value, width, 10)| == width <==> value < Power(10, width)
  {
    var digits := Digits(value, 10);
    var zeros := if |digits| < width then width - |digits| else 0;
    DecimalDigits(value);
    DigitsReturn(value, 10);
    AccumulatedZeros(zeros, digits, 10);
    DigitCount(value, width, 10);
    assert Padded(value, width, 10) == Zeros(zeros) + digits;
  }

  /** What the text of a moment looks like. */
  lemma PrintedLayout(moment: Moment) returns (year: string, month: string, day: string, hour: string, minute: string)
    requires IsValid(moment)
    ensures IsLaidOut(Printed(moment), moment, year, month, day, hour, minute)
  {
    Powers();
    year, month, day := Padded(moment.year, 4, 10), Padded(moment.month, 2, 10), Padded(moment.day, 2, 10);
    hour, minute := Padded(moment.hour, 2, 10), Padded(moment.minute, 2, 10);
    PaddedShows(moment.year, 4);
    PaddedShows(moment.month, 2);
    PaddedShows(moment.day, 2);
    PaddedShows(moment.hour, 2);
    PaddedShows(moment.minute, 2);
  }

  lemma Powers()
    ensures Power(10, 2) == 100 && Power(10, 4) == 10000 && Power(10, 5) == 100000
  {
  }

  /** From year 10000 on the fields no longer stand where they are read. */
  lemma LongYearFails(moment: Moment)
    requires IsValid(moment) && 10000 <= moment.year < U16_LIMIT
    ensures Reparsed(Printed(moment)) == None
  {
    Powers();
    DigitCount(moment.year, 4, 10);
    DigitCount(moment.year, 5, 10);
    var text := Printed(moment);
    assert text[5] == '-';
    var field := text[5..7];
    assert field[0] == '-';
    DashIsNoDigit(field);
  }

  lemma DashIsNoDigit(field: string)
    requires |field| == 2 && field[0] == '-'
    ensures ParseRadix(field, 10, U16_LIMIT) == None
  {
    assert field[..1] == ['-'];
    AccumulatedSnoc("-", "", '-', 10);
    AccumulatedSnoc(field, field[..1], field[1], 10);
  }

  /** The start of year 10000, in minutes. */
  const FIVE_DIGIT_YEARS: int := 5_259_492_000

  /** A valid moment's year has five digits exactly from that minute on. */
  lemma YearTest(moment: Moment)
    requires IsValid(moment)
    ensures moment.year > 9999 <==> Minutes(moment) >= FIVE_DIGIT_YEARS
  {
  }

  predicate IsShown(moment: Moment, text: string, minutes: int) {
    IsValid(moment) && moment.year < U16_LIMIT && Minutes(moment) == minutes && text == Printed(moment)
  }

  /** The text is what a valid moment that many minutes in prints as. */
  ghost predicate ShowsMinute(text: string, minutes: int) {
    exists moment: Moment :: IsShown(moment, text, minutes)
  }

  /** No text shows two different minutes of years up to 9999. */
  lemma ShownMinuteIsUnique(text: string, first: int, second: int)
    requires ShowsMinute(text, first) && ShowsMinute(text, second) && first < FIVE_DIGIT_YEARS && second < FIVE_DIGIT_YEARS
    ensures first == second
  {
    var one :| IsShown(one, text, first);
    var two :| IsShown(two, text, second);
    YearTest(one);
    YearTest(two);
    PrintedReturns(one);
    PrintedReturns(two);
  }

  /** One round of the delay loop: read the text back and step again. */
  method StepText(text: string, ghost moment: Moment, ghost minutes: int) returns (next: Option<string>, ghost after: Moment)
    requires IsShown(moment, text, minutes)
    ensures next.None? <==> minutes >= FIVE_DIGIT_YEARS
    ensures next.Some? ==> IsShown(after, next.value, minutes + 1)
  {
    YearTest(moment);
    after := NextMinute(moment);
    if moment.year > 9999 {
      LongYearFails(moment);
    } else {
      PrintedReturns(moment);
    }
    var read := Reparsed(text);
    if read.None? {
      return None, after;
    }
    var stepped := TaskStartBoundary(read.value.year, read.value.month, read.value.day, read.value.hour, read.value.minute);
    OneMinuteLater(moment);
    return Some(stepped), after;
  }

  /** How many steps a delay takes. */
  function StepsOf(delay: nat): nat {
    if delay >= 1 then delay else 1
  }

  /**
   The delay loop of prepare_registration: the valid moment exactly max(1, delay) minutes later, unless
   the minute before it, which must be read back, already lies past year 9999.
   */
  method DelayedBoundary(now: Moment, delay: nat) returns (boundary: Option<string>)
    requires IsValid(now) && now.year + 1 < U16_LIMIT
    ensures boundary.None? <==> delay >= 2 && Minutes(now) + delay - 1 >= FIVE_DIGIT_YEARS
    ensures boundary.Some? ==> ShowsMinute(boundary.value, Minutes(now) + StepsOf(delay))
  {
    var text := TaskStartBoundary(now.year, now.month, now.day, now.hour, now.minute);
    OneMinuteLater(now);
    ghost var last;
    boundary, last := DelayLoop(text, NextMinute(now), Minutes(now), delay);
  }

  method DelayLoop(first: string, ghost moment: Moment, ghost start: int, delay: nat)
      returns (boundary: Option<string>, ghost last: Moment)
    requires IsShown(moment, first, start + 1)
    ensures boundary.None? <==> delay >= 2 && start + delay - 1 >= FIVE_DIGIT_YEARS
    ensures boundary.Some? ==> IsShown(last, boundary.value, start + StepsOf(delay))
  {
    var text := first;
    last := moment;
    ghost var minutes := start + 1;
    var i := 1;
    while i < delay
      invariant 1 <= i <= StepsOf(delay) && minutes == start + i
      invariant IsShown(last, text, minutes)
      invariant i >= 2 ==> minutes <= FIVE_DIGIT_YEARS
    {
      var next;
      next, last := StepText(text, last, minutes);
      if next.None? {
        return None, last;
      }
      text := next.value;
      minutes := minutes + 1;
      i := i + 1;
    }
    return Some(text), last;
  }
}
