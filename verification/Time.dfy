/** Timestamps and the one text form heymerge can compare: crates/heyl-domain/src/time.rs. */
module Time {
  import opened Wrappers
  import Text

  // ---- the calendar

  predicate IsLeap(year: nat) { year % 4 == 0 && (year % 100 != 0 || year % 400 == 0) }

  function YearLength(year: nat): (n: nat)
    ensures n >= 365
  {
    if IsLeap(year) then 366 else 365
  }

  /** Days from 1 January of year 0 to 1 January of a year. */
  function DaysBeforeYear(year: nat): nat {
    if year == 0 then 0 else DaysBeforeYear(year - 1) + YearLength(year - 1)
  }

  lemma {:induction false} DaysBeforeYearClosed(year: nat)
    ensures DaysBeforeYear(year) == 365 * year + (year + 3) / 4 - (year + 99) / 100 + (year + 399) / 400
  {
    hide IsLeap;
    if year != 0 {
      DaysBeforeYearClosed(year - 1);
      LeapDays(year - 1);
    }
  }

  lemma LeapDays(y: nat)
    ensures (y + 4) / 4 - (y + 100) / 100 + (y + 400) / 400
         == (y + 3) / 4 - (y + 99) / 100 + (y + 399) / 400 + if IsLeap(y) then 1 else 0
  {
    FourYears(y);
    Centuries(y);
    FourCenturies(y);
  }

  lemma FourYears(y: nat)
    ensures (y + 4) / 4 == (y + 3) / 4 + if y % 4 == 0 then 1 else 0
  {
  }

  lemma Centuries(y: nat)
    ensures (y + 100) / 100 == (y + 99) / 100 + if y % 100 == 0 then 1 else 0
    ensures y % 100 == 0 ==> y % 4 == 0
  {
    var q := y / 100;
    assert y == 4 * (25 * q) + y % 100;
  }

  lemma FourCenturies(y: nat)
    ensures (y + 400) / 400 == (y + 399) / 400 + if y % 400 == 0 then 1 else 0
    ensures y % 400 == 0 ==> y % 100 == 0
  {
    var q := y / 400;
    assert y == 100 * (4 * q) + y % 400;
  }

  function MonthLength(leap: bool, month: nat): (n: nat)
    requires 1 <= month <= 12
    ensures 28 <= n <= 31
  {
    if month == 2 then (if leap then 29 else 28)
    else if month in {4, 6, 9, 11} then 30
    else 31
  }

  function DaysBeforeMonth(leap: bool, month: nat): nat
    requires 1 <= month <= 13
  {
    if month == 1 then 0 else DaysBeforeMonth(leap, month - 1) + MonthLength(leap, month - 1)
  }

  /** Where each month starts, in a common year and in a leap year. */
  lemma MonthStarts(leap: bool)
    ensures var d := if leap then 1 else 0;
      && DaysBeforeMonth(leap, 1) == 0 && DaysBeforeMonth(leap, 2) == 31
      && DaysBeforeMonth(leap, 3) == 59 + d && DaysBeforeMonth(leap, 4) == 90 + d
      && DaysBeforeMonth(leap, 5) == 120 + d && DaysBeforeMonth(leap, 6) == 151 + d
      && DaysBeforeMonth(leap, 7) == 181 + d && DaysBeforeMonth(leap, 8) == 212 + d
      && DaysBeforeMonth(leap, 9) == 243 + d && DaysBeforeMonth(leap, 10) == 273 + d
      && DaysBeforeMonth(leap, 11) == 304 + d && DaysBeforeMonth(leap, 12) == 334 + d
      && DaysBeforeMonth(leap, 13) == 365 + d
  {
    var d := if leap then 1 else 0;
    assert DaysBeforeMonth(leap, 2) == 31;
    assert DaysBeforeMonth(leap, 3) == 59 + d;
    assert DaysBeforeMonth(leap, 5) == 120 + d;
    assert DaysBeforeMonth(leap, 7) == 181 + d;
    assert DaysBeforeMonth(leap, 9) == 243 + d;
    assert DaysBeforeMonth(leap, 11) == 304 + d;
  }

  lemma DaysInAYear(year: nat)
    ensures DaysBeforeMonth(IsLeap(year), 13) == YearLength(year)
  {
    MonthStarts(IsLeap(year));
  }

  /** The year a day falls in: the one whose first day is the last not after it. */
  function YearOf(day: nat, from: nat): (year: nat)
    requires DaysBeforeYear(from) <= day
    ensures DaysBeforeYear(year) <= day < DaysBeforeYear(year + 1)
    decreases day - DaysBeforeYear(from)
  {
    if day < DaysBeforeYear(from + 1) then from else YearOf(day, from + 1)
  }

  function MonthOf(leap: bool, dayOfYear: nat, from: nat): (month: nat)
    requires 1 <= from <= 12
    requires DaysBeforeMonth(leap, from) <= dayOfYear < DaysBeforeMonth(leap, 13)
    ensures 1 <= month <= 12
    ensures DaysBeforeMonth(leap, month) <= dayOfYear < DaysBeforeMonth(leap, month + 1)
    decreases 12 - from
  {
    if dayOfYear < DaysBeforeMonth(leap, from + 1) then from else MonthOf(leap, dayOfYear, from + 1)
  }

  lemma {:induction false} YearsGrow(a: nat, b: nat)
    requires a <= b
    ensures DaysBeforeYear(a) + 365 * (b - a) <= DaysBeforeYear(b)
    decreases b
  {
    if a < b { YearsGrow(a, b - 1); }
  }

  lemma {:induction false} MonthsGrow(leap: bool, a: nat, b: nat)
    requires 1 <= a <= b <= 13
    ensures DaysBeforeMonth(leap, a) + 28 * (b - a) <= DaysBeforeMonth(leap, b)
    decreases b
  {
    if a < b { MonthsGrow(leap, a, b - 1); }
  }

  // ---- civil fields

  const DAY_MS: nat := 86_400_000

  /** Milliseconds from the start of year 0 to the epoch, and to the end of year 9999. */
  const EPOCH_MS: nat := 719_528 * DAY_MS
  const END_MS: nat := 3_652_425 * DAY_MS

  lemma CalendarConstants()
    ensures EPOCH_MS == DaysBeforeYear(1970) * DAY_MS
    ensures END_MS == DaysBeforeYear(10_000) * DAY_MS
  {
    hide DaysBeforeYear;
    DaysBeforeYearClosed(1970);
    DaysBeforeYearClosed(10_000);
  }

  datatype Civil = Civil(year: nat, month: nat, day: nat, hour: nat, minute: nat, second: nat, milli: nat) {
    predicate Valid() {
      && year <= 9999
      && 1 <= month <= 12
      && 1 <= day <= MonthLength(IsLeap(year), month)
      && hour < 24 && minute < 60 && second < 60 && milli < 1000
    }

    function DayNumber(): nat
      requires Valid()
    {
      DaysBeforeYear(year) + DaysBeforeMonth(IsLeap(year), month) + day - 1
    }

    function MilliOfDay(): nat { ((hour * 60 + minute) * 60 + second) * 1000 + milli }

    /** The instant, in milliseconds from the start of year 0. */
    function Instant(): nat
      requires Valid()
    {
      DayNumber() * DAY_MS + MilliOfDay()
    }

    function Parts(): seq<nat> { [year, month, day, hour, minute, second, milli] }
  }

  /** The UTC date and time of an instant. */
  function CivilOf(ms: nat): (c: Civil)
    requires ms < END_MS
    ensures c.Valid() && c.Instant() == ms
  {
    var (year, month, day) := DateOf(ms / DAY_MS);
    ClockOf(ms % DAY_MS);
    var rest := ms % DAY_MS;
    Civil(year, month, day, rest / 3_600_000, rest / 60_000 % 60, rest / 1000 % 60, rest % 1000)
  }

  function DateOf(dayNumber: nat): (date: (nat, nat, nat))
    requires dayNumber < 3_652_425
    ensures date.0 <= 9999 && 1 <= date.1 <= 12 && 1 <= date.2 <= MonthLength(IsLeap(date.0), date.1)
    ensures DaysBeforeYear(date.0) + DaysBeforeMonth(IsLeap(date.0), date.1) + date.2 - 1 == dayNumber
  {
    var year := YearOf(dayNumber, 0);
    BeforeYear10000(dayNumber, year);
    DaysInAYear(year);
    var dayOfYear := dayNumber - DaysBeforeYear(year);
    var month := MonthOf(IsLeap(year), dayOfYear, 1);
    (year, month, dayOfYear - DaysBeforeMonth(IsLeap(year), month) + 1)
  }

  lemma BeforeYear10000(day: nat, year: nat)
    requires DaysBeforeYear(year) <= day < 3_652_425
    ensures year <= 9999
  {
    hide DaysBeforeYear;
    DaysBeforeYearClosed(10_000);
    if year > 9999 { YearsGrow(10_000, year); }
  }

  lemma ClockOf(rest: nat)
    requires rest < DAY_MS
    ensures rest / 3_600_000 < 24
    ensures ((rest / 3_600_000 * 60 + rest / 60_000 % 60) * 60 + rest / 1000 % 60) * 1000 + rest % 1000 == rest
  {
    var s, m, h := rest / 1000, rest / 60_000, rest / 3_600_000;
    assert s / 60 == m;
    assert m / 60 == h;
  }

  /**
   * The day a date falls on, counted from years that begin in March so that February comes last and each
   * month's start is a straight line rounded down.
   */
  lemma DayNumberClosed(c: Civil)
    requires c.Valid()
    ensures var y, m := c.year - (if c.month <= 2 then 1 else 0), (c.month + 9) % 12;
      c.DayNumber() == 365 * y + y / 4 - y / 100 + y / 400 + (153 * m + 2) / 5 + c.day - 1 + 60
  {
    hide DaysBeforeYear, DaysBeforeMonth, IsLeap;
    DaysBeforeYearClosed(c.year);
    MarchMonth(IsLeap(c.year), c.month);
    if c.month <= 2 { YearBefore(c.year); } else { LeapDays(c.year); YearBefore(c.year + 1); }
  }

  /** The instant is that day and the time on it. */
  lemma InstantClosed(c: Civil)
    requires c.Valid()
    ensures c.Instant()
         == c.DayNumber() * 86_400_000 + c.hour * 3_600_000 + c.minute * 60_000 + c.second * 1_000 + c.milli
  {
    hide Civil.DayNumber, Civil.Valid;
  }

  lemma MarchMonth(leap: bool, month: nat)
    requires 1 <= month <= 12
    ensures DaysBeforeMonth(leap, month) ==
      (153 * ((month + 9) % 12) + 2) / 5 + if month <= 2 then -306 else if leap then 60 else 59
  {
    MonthStarts(leap);
    hide DaysBeforeMonth;
  }

  lemma YearBefore(y: nat)
    ensures (y + 3) / 4 == (y - 1) / 4 + 1
    ensures (y + 99) / 100 == (y - 1) / 100 + 1 && (y + 399) / 400 == (y - 1) / 400 + 1
  {
  }

  /** The first part in which two readings differ decides. */
  predicate Earlier(a: seq<nat>, b: seq<nat>)
    requires |a| == |b|
  {
    a != [] && (a[0] < b[0] || (a[0] == b[0] && Earlier(a[1..], b[1..])))
  }

  lemma EarlierAt(a: seq<nat>, b: seq<nat>, i: nat)
    requires i < |a| == |b| && a[..i] == b[..i] && a[i] < b[i]
    ensures Earlier(a, b)
  {
    if i > 0 {
      assert a[0] == a[..i][0] == b[..i][0] == b[0];
      assert a[1..][..i - 1] == a[..i][1..] == b[..i][1..] == b[1..][..i - 1];
      EarlierAt(a[1..], b[1..], i - 1);
    }
  }

  lemma WithinYear(c: Civil)
    requires c.Valid()
    ensures DaysBeforeYear(c.year) <= c.DayNumber() < DaysBeforeYear(c.year + 1)
  {
    WithinMonth(c);
    MonthsGrow(IsLeap(c.year), c.month + 1, 13);
    DaysInAYear(c.year);
  }

  lemma WithinMonth(c: Civil)
    requires c.Valid()
    ensures var leap, dayOfYear := IsLeap(c.year), c.DayNumber() - DaysBeforeYear(c.year);
      DaysBeforeMonth(leap, c.month) <= dayOfYear < DaysBeforeMonth(leap, c.month + 1)
  {
  }

  lemma DatesInOrder(a: Civil, b: Civil)
    requires a.Valid() && b.Valid() && a.DayNumber() <= b.DayNumber()
    ensures a.year <= b.year
    ensures a.year == b.year ==> a.month <= b.month
    ensures a.year == b.year && a.month == b.month ==> a.day - b.day == a.DayNumber() - b.DayNumber()
  {
    if b.year < a.year {
      WithinYear(b);
      WithinYear(a);
      YearsGrow(b.year + 1, a.year);
    } else if a.year == b.year && b.month < a.month {
      WithinMonth(b);
      WithinMonth(a);
      MonthsGrow(IsLeap(b.year), b.month + 1, a.month);
    }
  }

  /** Reading the parts left to right orders instants. */
  lemma PartsInOrder(a: Civil, b: Civil)
    requires a.Valid() && b.Valid() && a.Instant() < b.Instant()
    ensures Earlier(a.Parts(), b.Parts())
  {
    var p, q := a.Parts(), b.Parts();
    DaysFirst(a, b);
    DatesInOrder(a, b);
    if a.DayNumber() != b.DayNumber() {
      EarlierAt(p, q, if a.year < b.year then 0 else if a.month < b.month then 1 else 2);
    } else {
      DatesInOrder(b, a);
      ClockInOrder(a, b);
      var i := if a.hour < b.hour then 3 else if a.minute < b.minute then 4 else if a.second < b.second then 5 else 6;
      EarlierAt(p, q, i);
    }
  }

  lemma DaysFirst(a: Civil, b: Civil)
    requires a.Valid() && b.Valid() && a.Instant() < b.Instant()
    ensures a.DayNumber() <= b.DayNumber()
    ensures a.DayNumber() == b.DayNumber() ==> a.MilliOfDay() < b.MilliOfDay()
  {
    assert a.MilliOfDay() < DAY_MS && b.MilliOfDay() < DAY_MS;
  }

  lemma ClockInOrder(a: Civil, b: Civil)
    requires a.Valid() && b.Valid() && a.MilliOfDay() < b.MilliOfDay()
    ensures a.hour <= b.hour
    ensures a.hour == b.hour ==> a.minute <= b.minute
    ensures a.hour == b.hour && a.minute == b.minute ==> a.second <= b.second
    ensures a.hour == b.hour && a.minute == b.minute && a.second == b.second ==> a.milli < b.milli
  {
  }

  // ---- fixed-width text

  datatype Column = Column(width: nat, mark: string)

  /** `YYYY-MM-DDTHH:MM:SS.sssZ`. */
  const FORM: seq<Column> :=
    [Column(4, "-"), Column(2, "-"), Column(2, "T"), Column(2, ":"), Column(2, ":"), Column(2, "."), Column(3, "Z")]

  predicate Fits(form: seq<Column>, parts: seq<nat>) {
    |parts| == |form| && forall i :: 0 <= i < |form| ==> parts[i] < Text.Pow10(form[i].width)
  }

  function Spell(form: seq<Column>, parts: seq<nat>): string
    requires Fits(form, parts)
  {
    if form == [] then ""
    else Text.Padded(parts[0], form[0].width) + (form[0].mark + Spell(form[1..], parts[1..]))
  }

  lemma {:induction false} SpellOrder(form: seq<Column>, a: seq<nat>, b: seq<nat>)
    requires Fits(form, a) && Fits(form, b) && Earlier(a, b)
    ensures Text.Less(Spell(form, a), Spell(form, b))
  {
    var w, m := form[0].width, form[0].mark;
    var x, y := Spell(form[1..], a[1..]), Spell(form[1..], b[1..]);
    if a[0] < b[0] {
      Text.PaddedOrder(a[0], b[0], w);
      Text.LessHead(Text.Padded(a[0], w), Text.Padded(b[0], w), m + x, m + y);
    } else {
      SpellOrder(form[1..], a[1..], b[1..]);
      Text.LessPrefix(m, x, y);
      Text.LessPrefix(Text.Padded(a[0], w), m + x, m + y);
    }
  }

  /** Read fixed-width text back; anything that is not of the form is refused. */
  function Read(form: seq<Column>, s: string): Option<seq<nat>> {
    if form == [] then (if s == "" then Some([]) else None)
    else
      var (w, m) := (form[0].width, form[0].mark);
      if |s| < w || !Text.AllDigits(s[..w]) || !(m <= s[w..]) then None
      else match Read(form[1..], s[w..][|m|..])
        case Some(rest) => Some([Text.Value(s[..w])] + rest)
        case None => None
  }

  function Prepend(front: seq<nat>, back: Option<seq<nat>>): Option<seq<nat>> {
    match back
    case Some(rest) => Some(front + rest)
    case None => None
  }

  lemma PrependTwice(n: nat, front: seq<nat>, back: Option<seq<nat>>)
    ensures Prepend([n], Prepend(front, back)) == Prepend([n] + front, back)
  {
    if back.Some? { assert [n] + (front + back.value) == [n] + front + back.value; }
  }

  lemma ReadColumn(n: nat, c: Column, tail: string, form: seq<Column>)
    requires n < Text.Pow10(c.width)
    ensures Read([c] + form, Text.Padded(n, c.width) + (c.mark + tail)) == Prepend([n], Read(form, tail))
  {
    var s := Text.Padded(n, c.width) + (c.mark + tail);
    assert ([c] + form)[1..] == form;
    assert s[..c.width] == Text.Padded(n, c.width);
    assert s[c.width..] == c.mark + tail;
    assert s[c.width..][|c.mark|..] == tail;
  }

  lemma SpellFirst(form: seq<Column>, parts: seq<nat>, t: string)
    requires Fits(form, parts) && form != []
    ensures Spell(form, parts) + t
         == Text.Padded(parts[0], form[0].width) + (form[0].mark + (Spell(form[1..], parts[1..]) + t))
  {
    var x, m, y := Text.Padded(parts[0], form[0].width), form[0].mark, Spell(form[1..], parts[1..]);
    assert (x + (m + y)) + t == x + (m + (y + t));
  }

  /** Reading takes spelled columns off the front of a text. */
  lemma {:induction false} ReadSpell(form: seq<Column>, parts: seq<nat>, more: seq<Column>, t: string)
    requires Fits(form, parts)
    ensures Read(form + more, Spell(form, parts) + t) == Prepend(parts, Read(more, t))
  {
    hide Text.Padded, Text.Pow10, Read, Spell, Prepend;
    if form == [] {
      ReadNothing(parts, more, t);
    } else {
      var rest := form[1..] + more;
      assert form + more == [form[0]] + rest;
      SpellFirst(form, parts, t);
      ReadSpell(form[1..], parts[1..], more, t);
      ReadColumn(parts[0], form[0], Spell(form[1..], parts[1..]) + t, rest);
      PrependTwice(parts[0], parts[1..], Read(more, t));
      assert parts == [parts[0]] + parts[1..];
    }
  }

  lemma ReadNothing(parts: seq<nat>, more: seq<Column>, t: string)
    requires Fits([], parts)
    ensures Read([] + more, Spell([], parts) + t) == Prepend(parts, Read(more, t))
  {
    hide Read;
    assert [] + more == more && Spell([], parts) + t == t;
    if Read(more, t).Some? { assert parts + Read(more, t).value == Read(more, t).value; }
  }

  lemma {:induction false} SpellConcat(f: seq<Column>, p: seq<nat>, g: seq<Column>, q: seq<nat>)
    requires Fits(f, p) && Fits(g, q) && Fits(f + g, p + q)
    ensures Spell(f + g, p + q) == Spell(f, p) + Spell(g, q)
  {
    if f == [] {
      assert f + g == g && p + q == q;
    } else {
      assert (f + g)[1..] == f[1..] + g && (p + q)[1..] == p[1..] + q;
      SpellConcat(f[1..], p[1..], g, q);
    }
  }

  function Width(form: seq<Column>): nat {
    if form == [] then 0 else form[0].width + |form[0].mark| + Width(form[1..])
  }

  lemma {:induction false} SpellLength(form: seq<Column>, parts: seq<nat>)
    requires Fits(form, parts)
    ensures |Spell(form, parts)| == Width(form)
  {
    if form != [] { SpellLength(form[1..], parts[1..]); }
  }

  lemma FormWidth()
    ensures Width(FORM) == 24
  {
    assert FORM[5..] == [Column(2, "."), Column(3, "Z")];
    assert Width(FORM[5..][1..]) == 4;
    assert Width(FORM[5..]) == 7;
    assert Width(FORM[3..]) == 13 by { assert FORM[3..][1..][1..] == FORM[5..]; }
    assert Width(FORM[1..]) == 19 by { assert FORM[1..][1..][1..] == FORM[3..]; }
  }

  /** What reads is what is spelled, and nothing else. */
  lemma {:induction false} ReadIsSpelled(form: seq<Column>, s: string)
    requires Read(form, s).Some?
    ensures Fits(form, Read(form, s).value) && s == Spell(form, Read(form, s).value)
  {
    if form != [] {
      var parts := Read(form, s).value;
      var rest := FirstColumn(form, s);
      ReadIsSpelled(form[1..], rest);
      FitsMore(form, parts);
      hide Text.Padded, Read;
    }
  }

  lemma FirstColumn(form: seq<Column>, s: string) returns (rest: string)
    requires form != [] && Read(form, s).Some?
    ensures var parts := Read(form, s).value;
      && parts != [] && parts[0] < Text.Pow10(form[0].width)
      && Read(form[1..], rest) == Some(parts[1..])
      && s == Text.Padded(parts[0], form[0].width) + (form[0].mark + rest)
  {
    var w, m := form[0].width, form[0].mark;
    rest := s[w..][|m|..];
    Text.PaddedValue(s[..w]);
    assert s[w..] == m + rest && s == s[..w] + s[w..];
    hide Text.Padded, Text.Value, Text.Pow10;
  }

  lemma FitsMore(form: seq<Column>, parts: seq<nat>)
    requires form != [] && parts != [] && parts[0] < Text.Pow10(form[0].width) && Fits(form[1..], parts[1..])
    ensures Fits(form, parts)
  {
    forall i | 0 <= i < |form| ensures parts[i] < Text.Pow10(form[i].width) {
      if i > 0 { assert form[i] == form[1..][i - 1] && parts[i] == parts[1..][i - 1]; }
    }
  }

  // ---- timestamps

  /** Division that truncates toward zero, as the library's accessors do. */
  function TruncDiv(a: int, b: int): int
    requires b > 0
  {
    if a >= 0 then a / b else -((-a) / b)
  }

  function TruncMod(a: int, b: int): int
    requires b > 0
  {
    a - b * TruncDiv(a, b)
  }

  const MILLI := 1_000_000
  const SECOND := 1_000_000_000

  /** `truncate_to_millis`, in milliseconds from the epoch. The instant is in nanoseconds. */
  function TruncateToMillis(ns: int): int {
    var ms, subsec := TruncDiv(ns, MILLI), TruncMod(ns, SECOND);
    if subsec < 0 && subsec % MILLI != 0 then ms - 1 else ms
  }

  /** Truncation rounds down on both sides of the epoch. */
  lemma TruncateRoundsDown(ns: int)
    ensures TruncateToMillis(ns) * 1_000_000 <= ns < (TruncateToMillis(ns) + 1) * 1_000_000
  {
    var subsec := TruncMod(ns, SECOND);
    if ns < 0 {
      var n := -ns;
      assert subsec == -(n - SECOND * (n / SECOND));
      assert n / SECOND * SECOND == n / SECOND * 1000 * MILLI;
      assert (subsec % MILLI == 0) == (n % MILLI == 0) by {
        assert n == -subsec + (n / SECOND * 1000) * MILLI;
        SameRemainder(n, -subsec, n / SECOND * 1000);
        NegatedRemainder(-subsec);
      }
    }
  }

  lemma SameRemainder(a: int, b: int, k: int)
    requires a == b + k * MILLI
    ensures (a % MILLI == 0) == (b % MILLI == 0)
  {
    assert a / MILLI * MILLI + a % MILLI == b / MILLI * MILLI + b % MILLI + k * MILLI;
  }

  lemma NegatedRemainder(a: int)
    ensures (a % MILLI == 0) == ((-a) % MILLI == 0)
  {
  }

  /** The instants of years 0 to 9999. */
  predicate InCalendar(ns: int) { 0 <= TruncateToMillis(ns) + EPOCH_MS < END_MS }

  function Utc(ns: int): (c: Civil)
    requires InCalendar(ns)
    ensures c.Valid() && c.Instant() == TruncateToMillis(ns) + EPOCH_MS
  {
    CivilOf(TruncateToMillis(ns) + EPOCH_MS)
  }

  /** The instants of years -10000 to 9999, which is more than a timestamp can hold. */
  predicate Representable(ns: int) { 0 <= TruncateToMillis(ns) + EPOCH_MS + END_MS < 2 * END_MS }

  /** The calendar repeats after ten thousand years, so dates before year 0 are dates of the cycle after it. */
  lemma CalendarRepeats(year: nat)
    ensures DaysBeforeYear(year + 10_000) == DaysBeforeYear(year) + 3_652_425
    ensures IsLeap(year + 10_000) == IsLeap(year)
  {
    hide DaysBeforeYear;
    DaysBeforeYearClosed(year);
    DaysBeforeYearClosed(year + 10_000);
    TenThousandYears(year);
  }

  lemma TenThousandYears(y: nat)
    ensures (y + 10_003) / 4 == (y + 3) / 4 + 2_500
    ensures (y + 10_099) / 100 == (y + 99) / 100 + 100
    ensures (y + 10_399) / 400 == (y + 399) / 400 + 25
    ensures (y + 10_000) % 4 == y % 4 && (y + 10_000) % 100 == y % 100 && (y + 10_000) % 400 == y % 400
  {
  }

  /** The date and time ten thousand years after an instant before year 0. */
  function Shifted(ns: int): (c: Civil)
    requires Representable(ns) && !InCalendar(ns)
    ensures c.Valid() && c.Instant() == TruncateToMillis(ns) + EPOCH_MS + END_MS
  {
    CivilOf(TruncateToMillis(ns) + EPOCH_MS + END_MS)
  }

  /** `{:04}` of a year before 0: the sign counts as one of the four places. */
  function SignedYear(year: int): string
    requires -10_000 <= year < 0
  {
    assert Text.Pow10(2) == 100 && Text.Pow10(3) == 1000;
    "-" + if year > -1000 then Text.Padded(-year, 3) else Text.Decimal(-year)
  }

  /** `{:03}` of a signed number: the sign counts as one of the three places. */
  function Signed3(n: int): string
    requires -1000 < n < 1000
  {
    assert Text.Pow10(2) == 100 && Text.Pow10(3) == 1000;
    if n >= 0 then Text.Padded(n, 3)
    else if n > -100 then "-" + Text.Padded(-n, 2)
    else "-" + Text.Padded(-n, 3)
  }

  /** The milliseconds `Display` prints: the truncated instant's own subsecond, sign and all. */
  function Subsecond(ns: int): int {
    TruncDiv(TruncMod(TruncateToMillis(ns) * MILLI, SECOND), MILLI)
  }

  lemma SubsecondRange(ns: int)
    ensures -1000 < Subsecond(ns) < 1000
    ensures Subsecond(ns) == TruncMod(TruncateToMillis(ns), 1000)
    ensures Subsecond(ns) >= 0 ==> Subsecond(ns) == (TruncateToMillis(ns) + EPOCH_MS) % 1000
  {
    hide TruncateToMillis;
    var ms := TruncateToMillis(ns);
    SubsecondOf(ms);
    RemainderRange(ms);
    RemainderFromYearZero(ms);
  }

  lemma SubsecondOf(ms: int)
    ensures TruncDiv(TruncMod(ms * MILLI, SECOND), MILLI) == TruncMod(ms, 1000)
  {
    if ms >= 0 { Scaled(ms); } else { Scaled(-ms); }
  }

  lemma Scaled(n: nat)
    ensures n * MILLI / SECOND == n / 1000
    ensures n * MILLI - SECOND * (n / 1000) == n % 1000 * MILLI
    ensures n % 1000 * MILLI / MILLI == n % 1000
  {
    var q, r := n / 1000, n % 1000;
    assert n * MILLI == q * SECOND + r * MILLI;
  }

  lemma RemainderRange(ms: int)
    ensures -1000 < TruncMod(ms, 1000) < 1000
    ensures TruncMod(ms, 1000) >= 0 <==> ms >= 0 || ms % 1000 == 0
  {
    if ms < 0 { NegatedMilli(ms); }
  }

  lemma RemainderFromYearZero(ms: int)
    ensures TruncMod(ms, 1000) >= 0 ==> TruncMod(ms, 1000) == (ms + EPOCH_MS) % 1000
  {
    ShiftedMilli(ms, 719_528 * 86_400);
    RemainderRange(ms);
    if ms < 0 { NegatedMilli(ms); }
  }

  lemma ShiftedMilli(ms: int, k: int)
    ensures (ms + 1000 * k) % 1000 == ms % 1000
  {
    Thousands(ms + 1000 * k, ms / 1000 + k, ms % 1000);
  }

  lemma NegatedMilli(ms: int)
    ensures (ms % 1000 == 0) == ((-ms) % 1000 == 0)
  {
    var q, r := ms / 1000, ms % 1000;
    if r == 0 { Thousands(-ms, -q, 0); } else { Thousands(-ms, -q - 1, 1000 - r); }
  }

  lemma Thousands(n: int, q: int, r: int)
    requires n == 1000 * q + r && 0 <= r < 1000
    ensures n / 1000 == q && n % 1000 == r
  {
  }

  /** `YYYY-MM-DDTHH:MM:SS.sssZ`, with whatever signs the year and the subsecond have. */
  function Display(ns: int): string
    requires Representable(ns)
  {
    SubsecondRange(ns);
    if InCalendar(ns) then
      var c := Utc(ns);
      DateFits(c);
      Spell(FORM[..6], c.Parts()[..6]) + Signed3(Subsecond(ns)) + "Z"
    else
      var c := Shifted(ns);
      DateFits(c);
      SignedYear(c.year - 10_000) + ("-" + Spell(FORM[1..6], c.Parts()[1..6]) + Signed3(Subsecond(ns)) + "Z")
  }

  lemma DateFits(c: Civil)
    requires c.Valid()
    ensures Fits(FORM, c.Parts()) && Fits(FORM[..6], c.Parts()[..6]) && Fits(FORM[1..6], c.Parts()[1..6])
  {
    assert Text.Pow10(2) == 100 && Text.Pow10(3) == 1000 && Text.Pow10(4) == 10_000;
  }

  /** Whether `Display` writes the instant the way `Date.toISOString()` would. */
  predicate Faithful(ns: int) {
    TruncateToMillis(ns) >= 0 || (TruncateToMillis(ns) % 1000 == 0 && TruncateToMillis(ns) + EPOCH_MS >= 0)
  }

  /** Read the text form back, in milliseconds from the epoch. */
  function Parse(s: string): Option<int> {
    match Read(FORM, s)
    case Some(p) =>
      if |p| != 7 then None
      else
        var c := Civil(p[0], p[1], p[2], p[3], p[4], p[5], p[6]);
        if c.Valid() then Some(c.Instant() - EPOCH_MS) else None
    case None => None
  }

  /** The columns as they are. */
  predicate IsForm(f: seq<Column>) {
    && |f| == 7
    && f[0] == Column(4, "-") && f[1] == Column(2, "-") && f[2] == Column(2, "T")
    && f[3] == Column(2, ":") && f[4] == Column(2, ":") && f[5] == Column(2, ".") && f[6] == Column(3, "Z")
  }

  lemma DateOut(f: seq<Column>, p: seq<nat>)
    requires IsForm(f) && Fits(f, p)
    ensures p[0] < Text.Pow10(4) && p[1] < Text.Pow10(2) && p[2] < Text.Pow10(2)
    ensures Fits(f[0..6], p[0..6]) && Fits(f[1..6], p[1..6]) && Fits(f[3..6], p[3..6])
    ensures Spell(f[0..6], p[0..6]) == Text.Padded(p[0], 4) + ("-" + Spell(f[1..6], p[1..6]))
    ensures Spell(f[1..6], p[1..6])
         == Text.Padded(p[1], 2) + ("-" + (Text.Padded(p[2], 2) + ("T" + Spell(f[3..6], p[3..6]))))
  {
    SpellStep(f, p, 2, 2, "T");
    SpellStep(f, p, 1, 2, "-");
    SpellStep(f, p, 0, 4, "-");
    hide IsForm, Spell, Fits, Text.Padded, Text.Pow10;
  }

  lemma ClockOut(f: seq<Column>, p: seq<nat>)
    requires IsForm(f) && Fits(f, p)
    ensures p[3] < Text.Pow10(2) && p[4] < Text.Pow10(2) && p[5] < Text.Pow10(2) && Fits(f[3..6], p[3..6])
    ensures Spell(f[3..6], p[3..6])
         == Text.Padded(p[3], 2) + (":" + (Text.Padded(p[4], 2) + (":" + (Text.Padded(p[5], 2) + "."))))
  {
    MinutesOut(f, p);
    SpellStep(f, p, 3, 2, ":");
    hide IsForm, Spell, Fits, Text.Padded, Text.Pow10;
  }

  lemma MinutesOut(f: seq<Column>, p: seq<nat>)
    requires IsForm(f) && Fits(f, p)
    ensures p[4] < Text.Pow10(2) && p[5] < Text.Pow10(2) && Fits(f[4..6], p[4..6])
    ensures Spell(f[4..6], p[4..6]) == Text.Padded(p[4], 2) + (":" + (Text.Padded(p[5], 2) + "."))
  {
    SpellStep(f, p, 5, 2, ".");
    SpellStep(f, p, 4, 2, ":");
    hide IsForm, Spell, Fits, Text.Padded, Text.Pow10;
  }

  lemma SpellStep(f: seq<Column>, p: seq<nat>, i: nat, w: nat, m: string)
    requires Fits(f, p) && i < 6 < |f| && f[i] == Column(w, m)
    ensures p[i] < Text.Pow10(w) && Fits(f[i..6], p[i..6]) && Fits(f[i + 1..6], p[i + 1..6])
    ensures Spell(f[i..6], p[i..6]) == Text.Padded(p[i], w) + (m + Spell(f[i + 1..6], p[i + 1..6]))
    ensures i == 5 ==> Spell(f[5..6], p[5..6]) == Text.Padded(p[5], w) + m
  {
    assert f[i..6][1..] == f[i + 1..6] && p[i..6][1..] == p[i + 1..6];
    assert forall k :: i <= k < 6 ==> p[i..6][k - i] == p[k] && f[i..6][k - i] == f[k];
    assert i == 5 ==> m + Spell(f[6..6], p[6..6]) == m;
  }

  /** A text reads as an instant exactly when it is that instant's date and time written out. */
  lemma ParseMeaning(s: string, ms: int)
    ensures Parse(s) == Some(ms) <==> exists c: Civil ::
      c.Valid() && Fits(FORM, c.Parts()) && s == Spell(FORM, c.Parts()) && ms == c.Instant() - EPOCH_MS
  {
    hide Spell, Fits;
    if Read(FORM, s).Some? { ReadIsSpelled(FORM, s); }
    if Parse(s).Some? {
      var p := Read(FORM, s).value;
      var c := Civil(p[0], p[1], p[2], p[3], p[4], p[5], p[6]);
      assert c.Parts() == p;
    }
    if c: Civil :| c.Valid() && Fits(FORM, c.Parts()) && s == Spell(FORM, c.Parts()) && ms == c.Instant() - EPOCH_MS {
      ReadSpell(FORM, c.Parts(), [], "");
      assert FORM + [] == FORM && s + "" == s && c.Parts() + [] == c.Parts();
    }
  }

  /**
   * What is printed for any instant: the date and the time of day in columns, and the year and the subsecond with
   * the signs they have.
   */
  lemma DisplayText(ns: int)
    requires Representable(ns)
    ensures -1000 < Subsecond(ns) < 1000
    ensures var c := if InCalendar(ns) then Utc(ns) else Shifted(ns);
      && c.year < Text.Pow10(4) && c.month < Text.Pow10(2) && c.day < Text.Pow10(2)
      && c.hour < Text.Pow10(2) && c.minute < Text.Pow10(2) && c.second < Text.Pow10(2)
      && var year := if InCalendar(ns) then Text.Padded(c.year, 4) else SignedYear(c.year - 10_000);
         var middle := Text.Padded(c.month, 2) + ("-" + (Text.Padded(c.day, 2) + ("T" + (Text.Padded(c.hour, 2) + (":" +
                       (Text.Padded(c.minute, 2) + (":" + (Text.Padded(c.second, 2) + "."))))))));
         Display(ns) == year + ("-" + (middle + (Signed3(Subsecond(ns)) + "Z")))
  {
    SubsecondRange(ns);
    var c := if InCalendar(ns) then Utc(ns) else Shifted(ns);
    MiddleOut(c);
    DateFits(c);
    hide FORM, Spell, Fits, Text.Padded, Text.Pow10, Civil.Valid, Subsecond, Utc, Shifted, Signed3, SignedYear, CivilOf;
    var middle, sub := Spell(FORM[1..6], c.Parts()[1..6]), Signed3(Subsecond(ns));
    Regrouped(if InCalendar(ns) then Text.Padded(c.year, 4) else SignedYear(c.year - 10_000), "-", middle, sub);
  }

  lemma MiddleOut(c: Civil)
    requires c.Valid()
    ensures c.year < Text.Pow10(4) && c.month < Text.Pow10(2) && c.day < Text.Pow10(2)
    ensures c.hour < Text.Pow10(2) && c.minute < Text.Pow10(2) && c.second < Text.Pow10(2)
    ensures Fits(FORM[1..6], c.Parts()[1..6]) && Fits(FORM[..6], c.Parts()[..6])
    ensures Spell(FORM[1..6], c.Parts()[1..6]) ==
      Text.Padded(c.month, 2) + ("-" + (Text.Padded(c.day, 2) + ("T" + (Text.Padded(c.hour, 2) + (":" +
      (Text.Padded(c.minute, 2) + (":" + (Text.Padded(c.second, 2) + "."))))))))
    ensures Spell(FORM[..6], c.Parts()[..6])
         == Text.Padded(c.year, 4) + ("-" + Spell(FORM[1..6], c.Parts()[1..6]))
  {
    DateFits(c);
    assert IsForm(FORM);
    DateOut(FORM, c.Parts());
    ClockOut(FORM, c.Parts());
    hide IsForm, FORM, Spell, Fits, Text.Padded, Text.Pow10, Civil.Valid;
    assert FORM[0..6] == FORM[..6] && c.Parts()[0..6] == c.Parts()[..6];
  }

  lemma Regrouped(a: string, b: string, m: string, s: string)
    ensures a + (b + m) + s + "Z" == a + (b + (m + (s + "Z")))
    ensures a + (b + m + s + "Z") == a + (b + (m + (s + "Z")))
  {
    assert b + m + s + "Z" == b + (m + (s + "Z"));
  }

  /** A year before 0 is its number after a sign, in at least three places. */
  lemma YearSigned(year: int)
    requires -10_000 <= year < 0
    ensures var t := SignedYear(year);
      && |t| >= 4 && t[0] == '-' && Text.AllDigits(t[1..]) && Text.Value(t[1..]) == -year
      && if year > -1000 then |t| == 4 else t[1] != '0'
  {
    assert Text.Pow10(2) == 100 && Text.Pow10(3) == 1000;
    var t := SignedYear(year);
    assert t[1..] == if year > -1000 then Text.Padded(-year, 3) else Text.Decimal(-year);
    Text.PaddedValue(t[1..]);
    assert Text.Pow10(1) == 10;
  }

  /** Before the epoch a subsecond counts back from the next whole second. */
  lemma SubsecondIs(ns: int)
    ensures var ms := TruncateToMillis(ns);
      Subsecond(ns) == if ms < 0 && ms % 1000 != 0 then ms % 1000 - 1000 else ms % 1000
  {
    SubsecondRange(ns);
    var ms := TruncateToMillis(ns);
    hide TruncateToMillis, Subsecond;
    if ms < 0 && ms % 1000 != 0 {
      NegatedRemainderIs(ms);
    } else {
      RemainderRange(ms);
      ShiftedMilli(ms, 719_528 * 86_400);
    }
  }

  /** An instant that is not faithful, from year 0 on, shows how far it is before the next second, with a minus sign. */
  lemma UnfaithfulSubsecond(ns: int)
    requires InCalendar(ns) && !Faithful(ns)
    ensures Subsecond(ns) == Utc(ns).milli - 1000
    ensures -1000 < Subsecond(ns) < 0
    ensures var t := Signed3(Subsecond(ns));
      && t[0] == '-' && Text.AllDigits(t[1..]) && Text.Value(t[1..]) == -Subsecond(ns)
      && |t| == if Subsecond(ns) > -100 then 3 else 4
  {
    hide Text.Padded, Text.Value, CivilOf, Subsecond;
    SubsecondRange(ns);
    FaithfulSubsecond(ns);
    MilliOfInstant(Utc(ns));
    var ms := TruncateToMillis(ns);
    ShiftedMilli(ms, 719_528 * 86_400);
    hide TruncateToMillis;
    NegatedRemainderIs(ms);
    assert Text.Pow10(2) == 100 && Text.Pow10(3) == 1000;
  }

  lemma NegatedRemainderIs(ms: int)
    requires ms < 0 && ms % 1000 != 0
    ensures TruncMod(ms, 1000) == ms % 1000 - 1000
  {
    var q, r := ms / 1000, ms % 1000;
    Thousands(-ms, -q - 1, 1000 - r);
  }

  lemma FaithfulSubsecond(ns: int)
    requires InCalendar(ns)
    ensures Subsecond(ns) >= 0 <==> Faithful(ns)
  {
    hide Subsecond, TruncateToMillis, TruncMod;
    SubsecondRange(ns);
    RemainderRange(TruncateToMillis(ns));
  }

  /** From the epoch on, and on whole seconds before it, every column is a plain number. */
  lemma DisplayColumns(ns: int)
    requires InCalendar(ns) && Faithful(ns)
    ensures Fits(FORM, Utc(ns).Parts())
    ensures Display(ns) == Spell(FORM, Utc(ns).Parts())
    ensures |Display(ns)| == 24
  {
    hide TruncateToMillis, Subsecond, CivilOf, Text.Padded, Text.Pow10, Spell, Fits, Width, FORM;
    var c := Utc(ns);
    FaithfulSubsecond(ns);
    SubsecondRange(ns);
    MilliOfInstant(c);
    SpellWhole(c);
    DisplayIs(ns);
    SpellLength(FORM, c.Parts());
    FormWidth();
  }

  lemma SpellWhole(c: Civil)
    requires c.Valid()
    ensures Fits(FORM, c.Parts()) && Fits(FORM[..6], c.Parts()[..6]) && c.milli < Text.Pow10(3)
    ensures Spell(FORM, c.Parts()) == Spell(FORM[..6], c.Parts()[..6]) + (Text.Padded(c.milli, 3) + "Z")
  {
    hide Text.Pow10;
    var p := c.Parts();
    DateFits(c);
    assert FORM == FORM[..6] + [FORM[6]] && p == p[..6] + [c.milli];
    SpellConcat(FORM[..6], p[..6], [FORM[6]], [c.milli]);
    assert Spell([FORM[6]], [c.milli]) == Text.Padded(c.milli, 3) + ("Z" + "");
  }

  lemma MilliOfInstant(c: Civil)
    requires c.Valid()
    ensures c.milli == c.Instant() % 1000
  {
    var d := c.DayNumber();
    ShiftedMilli(c.milli, d * 86_400 + (c.hour * 60 + c.minute) * 60 + c.second);
  }

  /** Before year 0 the text starts with a sign. */
  lemma BeforeYearZero(ns: int)
    requires Representable(ns) && !InCalendar(ns)
    ensures Display(ns) != "" && Display(ns)[0] == '-' && !Faithful(ns)
  {
    assert SignedYear(Shifted(ns).year - 10_000)[0] == '-';
  }

  lemma SignedTextRefused(s: string)
    requires s != "" && s[0] == '-'
    ensures Parse(s) == None
  {
    if |s| >= 4 { assert !Text.IsDigit(s[..4][0]); }
  }

  /** Over every instant a timestamp can hold, parsing gives it back truncated exactly where `Display` is faithful. */
  lemma DisplayRoundTrip(ns: int)
    requires Representable(ns)
    ensures Parse(Display(ns)) == Some(TruncateToMillis(ns)) <==> Faithful(ns)
  {
    hide Display, Parse, TruncateToMillis;
    if InCalendar(ns) {
      RoundTripInCalendar(ns);
    } else {
      BeforeYearZero(ns);
      SignedTextRefused(Display(ns));
    }
  }

  lemma RoundTripInCalendar(ns: int)
    requires InCalendar(ns)
    ensures Parse(Display(ns)) == Some(TruncateToMillis(ns)) <==> Faithful(ns)
  {
    hide Parse, Display, TruncateToMillis, InCalendar;
    if Faithful(ns) { FaithfulReads(ns); } else { UnfaithfulRefused(ns); }
  }

  lemma FaithfulReads(ns: int)
    requires InCalendar(ns) && Faithful(ns)
    ensures Parse(Display(ns)) == Some(TruncateToMillis(ns))
  {
    hide Text.Padded, Text.Pow10, Spell, Fits, CivilOf, TruncateToMillis, Subsecond, Display, Read;
    var p := Utc(ns).Parts();
    DisplayColumns(ns);
    ReadSpell(FORM, p, [], "");
    ReadWhole(p);
    assert FORM + [] == FORM && Spell(FORM, p) + "" == Spell(FORM, p);
  }

  lemma ReadWhole(p: seq<nat>)
    ensures Prepend(p, Read([], "")) == Some(p)
  {
    assert p + [] == p;
  }

  lemma UnfaithfulRefused(ns: int)
    requires InCalendar(ns) && !Faithful(ns)
    ensures Parse(Display(ns)) == None
  {
    hide Text.Padded, Text.Pow10, Spell, Fits, CivilOf, TruncateToMillis, Subsecond, Display;
    var p := Utc(ns).Parts();
    FaithfulSubsecond(ns);
    DisplayIs(ns);
    var t := Signed3(Subsecond(ns)) + "Z";
    assert t[0] == '-';
    assert !Text.IsDigit(t[..3][0]);
    assert Read([FORM[6]], t) == None;
    ReadSpell(FORM[..6], p[..6], [FORM[6]], t);
    assert FORM[..6] + [FORM[6]] == FORM;
  }

  /** The order of the texts is the order of the instants, to the millisecond. */
  lemma DisplayOrder(a: int, b: int)
    requires InCalendar(a) && Faithful(a) && InCalendar(b) && Faithful(b)
    ensures Text.Less(Display(a), Display(b)) <==> TruncateToMillis(a) < TruncateToMillis(b)
    ensures Display(a) == Display(b) <==> TruncateToMillis(a) == TruncateToMillis(b)
  {
    hide Display, Parse, TruncateToMillis, Text.Less;
    DisplayRoundTrip(a);
    DisplayRoundTrip(b);
    if TruncateToMillis(a) < TruncateToMillis(b) {
      DisplayOrdered(a, b);
    } else if TruncateToMillis(b) < TruncateToMillis(a) {
      DisplayOrdered(b, a);
      Text.LessTotal(Display(a), Display(b));
    } else {
      SameDisplay(a, b);
      Text.LessIrreflexive(Display(a));
    }
  }

  lemma SameDisplay(a: int, b: int)
    requires Representable(a) && Representable(b) && TruncateToMillis(a) == TruncateToMillis(b)
    ensures Display(a) == Display(b)
  {
    hide TruncateToMillis, CivilOf, Spell, Signed3, SignedYear;
  }

  lemma DisplayOrdered(a: int, b: int)
    requires InCalendar(a) && Faithful(a) && InCalendar(b) && Faithful(b)
    requires TruncateToMillis(a) < TruncateToMillis(b)
    ensures Text.Less(Display(a), Display(b))
  {
    DisplayColumns(a);
    DisplayColumns(b);
    PartsInOrder(Utc(a), Utc(b));
    SpellOrder(FORM, Utc(a).Parts(), Utc(b).Parts());
  }

  /** The whole second an instant lies in prints the same six fields, and three zeroes. */
  lemma WholeSecond(a: int) returns (b: int)
    requires InCalendar(a) && !Faithful(a)
    ensures InCalendar(b) && Faithful(b) && TruncateToMillis(b) < TruncateToMillis(a)
    ensures Subsecond(b) == 0 && Utc(b) == Utc(a).(milli := 0)
  {
    hide CivilOf;
    var c, ms := Utc(a), TruncateToMillis(a);
    MilliOfInstant(c);
    b := (ms - c.milli) * MILLI;
    TruncateRoundsDown(b);
    assert TruncateToMillis(b) == ms - c.milli;
    hide TruncateToMillis, Subsecond;
    SecondBefore(ms);
    SubsecondRange(b);
    hide TruncMod;
    SameInstant(Utc(b), c.(milli := 0));
  }

  lemma SecondBefore(ms: int)
    requires ms % 1000 != 0 && 0 <= ms + EPOCH_MS
    ensures var milli := (ms + EPOCH_MS) % 1000;
      && 0 < milli && 0 <= ms - milli + EPOCH_MS && (ms - milli) % 1000 == 0 && TruncMod(ms - milli, 1000) == 0
  {
    ShiftedMilli(ms, 719_528 * 86_400);
    Thousands(ms - ms % 1000, ms / 1000, 0);
    RemainderRange(ms - ms % 1000);
    NegatedMilli(ms - ms % 1000);
  }

  /** An instant that prints a minus sign sorts before its own whole second, which it is after. */
  lemma MinusSortsFirst(a: int) returns (b: int)
    requires InCalendar(a) && !Faithful(a)
    ensures InCalendar(b) && Faithful(b)
    ensures TruncateToMillis(b) < TruncateToMillis(a) && Text.Less(Display(a), Display(b))
  {
    hide CivilOf, TruncateToMillis, Subsecond, Display, Spell, Text.Less, Signed3;
    b := WholeSecond(a);
    FaithfulSubsecond(a);
    SubsecondRange(a);
    assert Utc(b).Parts()[..6] == Utc(a).Parts()[..6];
    DisplayIs(a);
    DisplayIs(b);
    MinusFirst(Subsecond(a));
    Text.LessPrefix(Spell(FORM[..6], Utc(a).Parts()[..6]), Signed3(Subsecond(a)) + "Z", Signed3(0) + "Z");
  }

  lemma DisplayIs(ns: int)
    requires InCalendar(ns)
    ensures Fits(FORM[..6], Utc(ns).Parts()[..6]) && -1000 < Subsecond(ns) < 1000
    ensures Display(ns) == Spell(FORM[..6], Utc(ns).Parts()[..6]) + (Signed3(Subsecond(ns)) + "Z")
  {
    SubsecondRange(ns);
    DateFits(Utc(ns));
    hide Spell, Fits, Subsecond, TruncateToMillis, CivilOf, Signed3;
  }

  lemma MinusFirst(n: int)
    requires -1000 < n < 0
    ensures Text.Less(Signed3(n) + "Z", Signed3(0) + "Z")
  {
    assert Text.Pow10(2) == 100 && Text.Pow10(3) == 1000;
    assert (Signed3(n) + "Z")[0] == '-';
    assert Text.IsDigit((Signed3(0) + "Z")[0]);
  }

  /** Every instant before year 0 sorts before every one from it on. */
  lemma BeforeYearZeroFirst(a: int, b: int)
    requires Representable(a) && !InCalendar(a) && InCalendar(b)
    ensures TruncateToMillis(a) < TruncateToMillis(b) && Text.Less(Display(a), Display(b))
  {
    hide TruncateToMillis, CivilOf, Subsecond, Signed3, SignedYear;
    BeforeYearZero(a);
    SubsecondRange(b);
    DateFits(Utc(b));
    assert Text.IsDigit(Text.Padded(Utc(b).year, 4)[0]);
    assert Display(b)[0] == Spell(FORM[..6], Utc(b).Parts()[..6])[0] == Text.Padded(Utc(b).year, 4)[0];
  }

  /** Among themselves they sort the wrong way round from one year to the next. */
  lemma YearsBeforeZeroReverse(a: int, b: int)
    requires Representable(a) && !InCalendar(a) && Representable(b) && !InCalendar(b)
    requires -1000 < Shifted(a).year - 10_000 < Shifted(b).year - 10_000
    ensures Text.Less(Display(b), Display(a))
  {
    hide TruncateToMillis, CivilOf, Subsecond, Signed3, Spell, Text.Less;
    var y, z := 10_000 - Shifted(b).year, 10_000 - Shifted(a).year;
    SubsecondRange(a);
    SubsecondRange(b);
    DateFits(Shifted(a));
    DateFits(Shifted(b));
    assert Text.Pow10(3) == 1000;
    Text.PaddedOrder(y, z, 3);
    Text.LessPrefix("-", Text.Padded(y, 3), Text.Padded(z, 3));
    Text.LessHead("-" + Text.Padded(y, 3), "-" + Text.Padded(z, 3),
                  "-" + Spell(FORM[1..6], Shifted(b).Parts()[1..6]) + Signed3(Subsecond(b)) + "Z",
                  "-" + Spell(FORM[1..6], Shifted(a).Parts()[1..6]) + Signed3(Subsecond(a)) + "Z");
  }

  /**
   * Over every instant a timestamp can hold: it compares, as text, with every faithful one the way the two
   * instants do, to the millisecond, if and only if it is faithful itself or lies before year 0.
   */
  lemma FaithfulIsOrder(a: int)
    requires Representable(a)
    ensures Faithful(a) || !InCalendar(a) <==> forall b | Representable(b) && Faithful(b) ::
      (Text.Less(Display(a), Display(b)) <==> TruncateToMillis(a) < TruncateToMillis(b))
  {
    if InCalendar(a) && !Faithful(a) {
      var b := MinusSortsFirst(a);
    } else {
      forall b | Representable(b) && Faithful(b)
        ensures Text.Less(Display(a), Display(b)) <==> TruncateToMillis(a) < TruncateToMillis(b)
      {
        assert InCalendar(b);
        hide Display, TruncateToMillis, Text.Less;
        if InCalendar(a) { DisplayOrder(a, b); } else { BeforeYearZeroFirst(a, b); }
      }
    }
  }

  lemma MillisBeforeEpoch(d: int)
    requires 1 <= d < 10
    ensures TruncateToMillis(-d * MILLI) == -d && InCalendar(-d * MILLI)
    ensures Subsecond(-d * MILLI) == -d
  {
    TruncateRoundsDown(-d * MILLI);
    SubsecondRange(-d * MILLI);
  }

  lemma MinuteBeforeEpoch(d: int)
    requires 1 <= d < 10
    ensures CivilOf(EPOCH_MS - d) == Civil(1969, 12, 31, 23, 59, 59, 1000 - d)
  {
    hide CivilOf, DaysBeforeYear;
    var midnight := Civil(1969, 12, 31, 23, 59, 59, 1000 - d);
    LastDayOf1969();
    assert midnight.MilliOfDay() == DAY_MS - d;
    SameInstant(CivilOf(EPOCH_MS - d), midnight);
  }

  lemma LastDayOf1969()
    ensures DaysBeforeYear(1969) + DaysBeforeMonth(IsLeap(1969), 12) + 31 == 719_528
  {
    hide DaysBeforeYear;
    DaysBeforeYearClosed(1969);
    DaysInAYear(1969);
  }

  lemma SameInstant(a: Civil, b: Civil)
    requires a.Valid() && b.Valid() && a.Instant() == b.Instant()
    ensures a == b
  {
    assert a.MilliOfDay() < DAY_MS && b.MilliOfDay() < DAY_MS;
    DatesInOrder(a, b);
    DatesInOrder(b, a);
  }

  /** Before the epoch the order can turn round: two milliseconds before it prints after one. */
  lemma PreEpochOrderFails()
    ensures InCalendar(-2 * MILLI) && InCalendar(-1 * MILLI)
    ensures TruncateToMillis(-2 * MILLI) < TruncateToMillis(-1 * MILLI)
    ensures Text.Less(Display(-1 * MILLI), Display(-2 * MILLI))
  {
    hide Display, InCalendar, TruncateToMillis, Subsecond, Spell, Fits, Text.Less, CivilOf, Signed3;
    LastMinute(1);
    LastMinute(2);
    DisplayIs(-1 * MILLI);
    DisplayIs(-2 * MILLI);
    var c := Utc(-1 * MILLI);
    assert Utc(-2 * MILLI).Parts()[..6] == c.Parts()[..6];
    JustBeforeEpochOrder();
    Text.LessPrefix(Spell(FORM[..6], c.Parts()[..6]), Signed3(-1) + "Z", Signed3(-2) + "Z");
  }

  /** One to nine milliseconds before the epoch. */
  lemma LastMinute(d: int)
    requires 1 <= d < 10
    ensures TruncateToMillis(-d * MILLI) == -d && InCalendar(-d * MILLI) && Subsecond(-d * MILLI) == -d
    ensures Utc(-d * MILLI) == Civil(1969, 12, 31, 23, 59, 59, 1000 - d)
  {
    hide CivilOf, TruncateToMillis, Subsecond;
    MillisBeforeEpoch(d);
    MinuteBeforeEpoch(d);
  }

  lemma JustBeforeEpochOrder()
    ensures Text.Less(Signed3(-1) + "Z", Signed3(-2) + "Z")
  {
    Text.OneDigitPadded(1);
    Text.OneDigitPadded(2);
    assert Signed3(-1) + "Z" == "-0" + "1Z" && Signed3(-2) + "Z" == "-0" + "2Z";
    Text.LessPrefix("-0", "1Z", "2Z");
  }
}
