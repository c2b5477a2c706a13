/** `date_header`: the Date header in the IMF-fixdate form of section 7.1.1.1 of RFC 7231, and how a server reads it. */
module DateHeader {
  import opened Text
  import opened Memory

  // ----- The calendar -----

  predicate IsLeap(year: nat) {
    year % 4 == 0 && (year % 100 != 0 || year % 400 == 0)
  }

  function YearLength(year: nat): nat {
    if IsLeap(year) then 366 else 365
  }

  function MonthLength(year: nat, mon: nat): (n: nat)
    ensures 28 <= n <= 31
  {
    if mon == 1 then (if IsLeap(year) then 29 else 28)
    else if mon in {3, 5, 8, 10} then 30
    else 31
  }

  const BEFORE: seq<nat> := [0, 31, 59, 90, 120, 151, 181, 212, 243, 273, 304, 334, 365]

  /** The days of the year before the given month, which counts from 0; the twelfth starts the next year. */
  function DaysBefore(year: nat, mon: nat): nat
    requires mon <= 12
  {
    BEFORE[mon] + if mon >= 2 && IsLeap(year) then 1 else 0
  }

  lemma NextMonth(year: nat, mon: nat)
    requires mon < 12
    ensures DaysBefore(year, mon + 1) == DaysBefore(year, mon) + MonthLength(year, mon)
  {
    assert BEFORE[0] == 0 && BEFORE[1] == 31 && BEFORE[2] == 59 && BEFORE[3] == 90 && BEFORE[4] == 120;
    assert BEFORE[5] == 151 && BEFORE[6] == 181 && BEFORE[7] == 212 && BEFORE[8] == 243;
    assert BEFORE[9] == 273 && BEFORE[10] == 304 && BEFORE[11] == 334 && BEFORE[12] == 365;
  }

  /** `struct tm` as far as the header uses it; `year` is `tm_year + 1900`. */
  datatype Tm = Tm(wday: nat, mday: nat, mon: nat, year: nat, hour: nat, min: nat, sec: nat)
  {
    predicate Valid() {
      wday < 7 && mon < 12 && 1 <= mday <= MonthLength(year, mon) && hour < 24 && min < 60 && sec < 60
    }
  }

  /** The year that the given day, counted from the first of January of `year`, falls in; and its day of the year. */
  function YearOf(days: nat, year: nat): (nat, nat) {
    if days < YearLength(year) then (year, days) else YearOf(days - YearLength(year), year + 1)
  }

  /** The month that a day of the year falls in, searched from month `mon` on; and its day of the month from 0. */
  function MonthOf(yday: nat, year: nat, mon: nat): (r: (nat, nat))
    requires mon < 12 && DaysBefore(year, mon) <= yday < YearLength(year)
    ensures r.0 < 12 && DaysBefore(year, r.0) + r.1 == yday && r.1 < MonthLength(year, r.0)
    decreases 12 - mon
  {
    NextMonth(year, mon);
    var inMonth := yday - DaysBefore(year, mon);
    if inMonth < MonthLength(year, mon) then (mon, inMonth) else MonthOf(yday, year, mon + 1)
  }

  /** `gmtime`. */
  function Gmtime(epoch: nat): (tm: Tm)
    ensures tm.Valid() && tm.year >= 1970
  {
    var days := epoch / 86400;
    var secs := epoch % 86400;
    var (year, yday) := YearOf(days, 1970);
    YearOfInverse(days, 1970);
    var (mon, mday) := MonthOf(yday, year, 0);
    Tm((days + 4) % 7, mday + 1, mon, year, secs / 3600, secs / 60 % 60, secs % 60)
  }

  /** The days between the Epoch and the first of January of a year, as POSIX counts them. */
  function DaysTo(year: nat): int
    requires year >= 1970
  {
    365 * (year - 1970) + (year - 1969) / 4 - (year - 1901) / 100 + (year - 1601) / 400
  }

  /** "Seconds Since the Epoch" of section 4.16 of the POSIX base definitions. */
  function SecondsSinceEpoch(year: nat, yday: nat, hour: nat, min: nat, sec: nat): int
    requires year >= 1970
  {
    sec + 60 * min + 3600 * hour + 86400 * (yday + DaysTo(year))
  }

  lemma Quarter(n: nat)
    ensures (n + 1) / 4 == n / 4 + if (n + 1) % 4 == 0 then 1 else 0
  {
  }

  lemma Hundredth(n: nat)
    ensures (n + 1) / 100 == n / 100 + if (n + 1) % 100 == 0 then 1 else 0
  {
  }

  lemma FourHundredth(n: nat)
    ensures (n + 1) / 400 == n / 400 + if (n + 1) % 400 == 0 then 1 else 0
  {
  }

  lemma Cycles(year: nat)
    requires year >= 1970
    ensures year % 4 == (year - 1968) % 4 && year % 100 == (year - 1900) % 100 && year % 400 == (year - 1600) % 400
    ensures year % 400 == 0 ==> year % 100 == 0
    ensures year % 100 == 0 ==> year % 4 == 0
  {
  }

  lemma DaysToNext(year: nat)
    requires year >= 1970
    ensures DaysTo(year + 1) == DaysTo(year) + YearLength(year)
  {
    Quarter(year - 1969);
    Hundredth(year - 1901);
    FourHundredth(year - 1601);
    Cycles(year);
  }

  lemma {:induction false} YearOfInverse(days: nat, year: nat)
    requires year >= 1970
    ensures var (y, yday) := YearOf(days, year);
            y >= year && yday < YearLength(y) && DaysTo(y) + yday == DaysTo(year) + days
    decreases days
  {
    if days >= YearLength(year) {
      YearOfInverse(days - YearLength(year), year + 1);
      DaysToNext(year);
    }
  }

  lemma {:induction false} DaysToMonotone(year: nat, year': nat)
    requires 1970 <= year <= year'
    ensures DaysTo(year) <= DaysTo(year')
    decreases year' - year
  {
    if year < year' {
      DaysToNext(year);
      DaysToMonotone(year + 1, year');
    }
  }

  /** The first second of the year 10000. */
  const YEAR_10000 := 253402300800

  lemma YearZero()
    ensures DaysTo(1970) == 0
  {
  }

  lemma GmtimeYear(epoch: nat)
    ensures var y := Gmtime(epoch).year; DaysTo(y) <= epoch / 86400 < DaysTo(y + 1)
  {
    hide DaysTo, YearOf, MonthOf, YearLength;
    var days := epoch / 86400;
    YearOfInverse(days, 1970);
    YearZero();
    DaysToNext(YearOf(days, 1970).0);
  }

  lemma {:induction false} FourDigitYears(epoch: nat)
    ensures Gmtime(epoch).year < 10000 <==> epoch < YEAR_10000
  {
    hide Gmtime;
    var year := Gmtime(epoch).year;
    GmtimeYear(epoch);
    assert DaysTo(10000) == 2932897;
    if year < 10000 {
      DaysToMonotone(year + 1, 10000);
    } else {
      DaysToMonotone(10000, year);
    }
  }

  lemma ClockParts(secs: nat)
    ensures secs == 3600 * (secs / 3600) + 60 * (secs / 60 % 60) + secs % 60
  {
  }

  /** Reading the fields of `gmtime` by the POSIX formula gives the time back. */
  lemma {:induction false} GmtimeInverse(epoch: nat)
    ensures var tm := Gmtime(epoch);
            SecondsSinceEpoch(tm.year, DaysBefore(tm.year, tm.mon) + tm.mday - 1, tm.hour, tm.min, tm.sec) == epoch
  {
    hide DaysTo, YearOf, MonthLength, YearLength;
    YearOfInverse(epoch / 86400, 1970);
    YearZero();
    ClockParts(epoch % 86400);
  }

  // ----- The text -----

  const DAYS: seq<CString> := ["Sun", "Mon", "Tue", "Wed", "Thu", "Fri", "Sat"]
  const MONTHS: seq<CString> :=
    ["Jan", "Feb", "Mar", "Apr", "May", "Jun", "Jul", "Aug", "Sep", "Oct", "Nov", "Dec"]

  /** `%02d`. */
  function TwoDigits(n: nat): (s: string)
    requires n < 100
    ensures IsDecimal(s) && |s| == 2 && Value(s) == n
  {
    assert n >= 10 ==> |Decimal(n / 10)| == 1;
    if n < 10 then
      var s := [Digit(0), Digit(n)];
      assert s[..1] == [Digit(0)] && s[..1][..0] == "" && Value(s[..1]) == 0;
      s
    else Decimal(n)
  }

  function DateText(tm: Tm): (s: CString)
    requires tm.Valid()
  {
    "Date: " + (DAYS[tm.wday] + (", " + (TwoDigits(tm.mday) + (" " + (MONTHS[tm.mon] + YearText(tm))))))
  }

  function YearText(tm: Tm): CString
    requires tm.Valid()
  {
    " " + (Decimal(tm.year) + TimeText(tm))
  }

  function TimeText(tm: Tm): CString
    requires tm.Valid()
  {
    " " + (TwoDigits(tm.hour) + (":" + (TwoDigits(tm.min) + (":" + (TwoDigits(tm.sec) + " GMT")))))
  }

  /** `date_header`: NULL only when memory runs out. */
  method PrintDateHeader(heap: Heap, epoch: nat) returns (header: Ptr)
    requires heap.Valid()
    modifies heap
    ensures heap.Valid() && heap.next >= old(heap.next)
    ensures heap.reliable ==> header != NULL
    ensures header == NULL ==> heap.mem == old(heap.mem)
    ensures header != NULL ==>
              && old(heap.next) <= header < heap.next && header !in heap.statics
              && heap.mem == old(heap.mem)[header := DateText(Gmtime(epoch)) + "\0"]
              && IsString(heap.mem, header) && StringAt(heap.mem, header) == DateText(Gmtime(epoch))
  {
    var tm := Gmtime(epoch);
    header := PrintToBlock(heap, DateText(tm));
  }

  // ----- Reading the text -----

  function Expect(literal: string, s: string): Option<string> {
    if literal <= s then Some(s[|literal|..]) else None
  }

  function Take(n: nat, s: string): Option<(string, string)> {
    if n <= |s| then Some((s[..n], s[n..])) else None
  }

  function Number(n: nat, s: string): Option<(nat, string)> {
    var (digits, s) :- Take(n, s);
    if IsDecimal(digits) then Some((Value(digits), s)) else None
  }

  /** The names of section 7.1.1.1 of RFC 7231. */
  function MonthNumber(name: string): Option<nat> {
    if name == "Jan" then Some(1) else if name == "Feb" then Some(2) else if name == "Mar" then Some(3)
    else if name == "Apr" then Some(4) else if name == "May" then Some(5) else if name == "Jun" then Some(6)
    else if name == "Jul" then Some(7) else if name == "Aug" then Some(8) else if name == "Sep" then Some(9)
    else if name == "Oct" then Some(10) else if name == "Nov" then Some(11) else if name == "Dec" then Some(12)
    else None
  }

  function DayNumber(name: string): Option<nat> {
    if name == "Sun" then Some(0) else if name == "Mon" then Some(1) else if name == "Tue" then Some(2)
    else if name == "Wed" then Some(3) else if name == "Thu" then Some(4) else if name == "Fri" then Some(5)
    else if name == "Sat" then Some(6) else None
  }

  /** The days since the Epoch of a date, in years that begin in March, so that the leap day is the last. */
  function CivilDays(year: nat, month: nat, mday: nat): int
    requires year >= 1 && 1 <= month <= 12
  {
    var y := if month <= 2 then year - 1 else year;
    var m := if month <= 2 then month + 9 else month - 3;
    365 * y + y / 4 - y / 100 + y / 400 + (153 * m + 2) / 5 + mday - 1 - 719468
  }

  /** The time of an IMF-fixdate whose parts fit together; the Epoch was a Thursday. */
  function DateOf(day: string, mday: nat, month: string, year: nat, hour: nat, min: nat, sec: nat): Option<nat> {
    var mon :- MonthNumber(month);
    var wday :- DayNumber(day);
    if year < 1970 || mday == 0 then None
    else
      var days := CivilDays(year, mon, mday);
      var epoch := 86400 * days + 3600 * hour + 60 * min + sec;
      if epoch >= 0 && (days + 4) % 7 == wday then Some(epoch) else None
  }

  /** The parts of a date in order; `readYear` decides how many digits belong to the year. */
  function ParseParts(s: string, readYear: string -> Option<(nat, string)>): Option<nat> {
    var s :- Expect("Date: ", s);
    var (day, s) :- Take(3, s);
    var s :- Expect(", ", s);
    var (mday, s) :- Number(2, s);
    var s :- Expect(" ", s);
    var (month, s) :- Take(3, s);
    var s :- Expect(" ", s);
    var (year, s) :- readYear(s);
    var s :- Expect(" ", s);
    var (hour, s) :- Number(2, s);
    var s :- Expect(":", s);
    var (min, s) :- Number(2, s);
    var s :- Expect(":", s);
    var (sec, s) :- Number(2, s);
    if s == " GMT" then DateOf(day, mday, month, year, hour, min, sec) else None
  }

  /** An IMF-fixdate has a year of four digits. */
  function ParseDate(s: string): Option<nat> {
    ParseParts(s, s => Number(4, s))
  }

  /** A more lenient reader takes all digits up to the next space. */
  function ParseLongDate(s: string): Option<nat> {
    ParseParts(s, s => Number(Find(s, ' '), s))
  }

  lemma ExpectOf(literal: string, s: string)
    ensures Expect(literal, literal + s) == Some(s)
  {
  }

  lemma TakeOf(n: nat, x: string, s: string)
    requires |x| == n
    ensures Take(n, x + s) == Some((x, s))
  {
  }

  lemma NumberOf(n: nat, x: string, s: string)
    requires |x| == n && IsDecimal(x)
    ensures Number(n, x + s) == Some((Value(x), s))
  {
    TakeOf(n, x, s);
  }

  lemma TenfoldIsLonger(n: nat)
    requires n >= 10
    ensures |Decimal(n)| == 1 + |Decimal(n / 10)|
  {
  }

  lemma YearWidth(year: nat)
    requires year >= 1970
    ensures |Decimal(year)| == 4 <==> year < 10000
    ensures |Decimal(year)| >= 4
  {
    hide Decimal;
    TenfoldIsLonger(year);
    TenfoldIsLonger(year / 10);
    TenfoldIsLonger(year / 10 / 10);
    OneDigit(year / 10 / 10 / 10);
  }

  lemma OneDigit(n: nat)
    ensures |Decimal(n)| == 1 <==> n < 10
  {
  }

  lemma NamesRead(mon: nat, wday: nat)
    requires mon < 12 && wday < 7
    ensures MonthNumber(MONTHS[mon]) == Some(mon + 1) && DayNumber(DAYS[wday]) == Some(wday)
  {
  }

  lemma GmtimeWeekday(epoch: nat)
    ensures Gmtime(epoch).wday == (epoch / 86400 + 4) % 7
  {
    hide YearOf, MonthOf, DaysTo;
  }

  /** The calendar of `gmtime` agrees with the one that the reader uses. */
  lemma CivilExact(year: nat, mon: nat, mday: nat)
    requires year >= 1970 && mon < 12
    ensures CivilDays(year, mon + 1, mday) == DaysTo(year) + DaysBefore(year, mon) + mday - 1
  {
    Quarter(year - 1);
    Hundredth(year - 1);
    FourHundredth(year - 1);
    Shifted(year);
    MonthStarts(mon);
  }

  lemma Shifted(year: nat)
    requires year >= 1970
    ensures (year - 1969) / 4 == (year - 1) / 4 - 492
    ensures (year - 1901) / 100 == (year - 1) / 100 - 19
    ensures (year - 1601) / 400 == (year - 1) / 400 - 4
    ensures year % 400 == 0 ==> year % 100 == 0
    ensures year % 100 == 0 ==> year % 4 == 0
  {
  }

  lemma MonthStarts(mon: nat)
    requires mon < 12
    ensures mon >= 2 ==> BEFORE[mon] == 59 + (153 * (mon - 2) + 2) / 5
    ensures mon < 2 ==> BEFORE[mon] == (153 * (mon + 10) + 2) / 5 - 306
  {
    assert BEFORE[0] == 0 && BEFORE[1] == 31 && BEFORE[2] == 59 && BEFORE[3] == 90 && BEFORE[4] == 120;
    assert BEFORE[5] == 151 && BEFORE[6] == 181 && BEFORE[7] == 212 && BEFORE[8] == 243;
    assert BEFORE[9] == 273 && BEFORE[10] == 304 && BEFORE[11] == 334;
  }

  lemma DateOfParts(epoch: nat)
    ensures var tm := Gmtime(epoch);
            DateOf(DAYS[tm.wday], tm.mday, MONTHS[tm.mon], tm.year, tm.hour, tm.min, tm.sec) == Some(epoch)
  {
    hide DaysTo, DaysBefore, MonthLength, MonthNumber, DayNumber, CivilDays, Gmtime, SecondsSinceEpoch;
    var tm := Gmtime(epoch);
    GmtimeInverse(epoch);
    GmtimeWeekday(epoch);
    NamesRead(tm.mon, tm.wday);
    CivilExact(tm.year, tm.mon, tm.mday);
    EpochIs(epoch, tm.year, DaysBefore(tm.year, tm.mon) + tm.mday - 1, tm.hour, tm.min, tm.sec);
  }

  lemma EpochIs(epoch: nat, year: nat, yday: nat, hour: nat, min: nat, sec: nat)
    requires year >= 1970 && SecondsSinceEpoch(year, yday, hour, min, sec) == epoch
    requires hour < 24 && min < 60 && sec < 60
    ensures epoch == 86400 * (yday + DaysTo(year)) + 3600 * hour + 60 * min + sec
    ensures epoch / 86400 == yday + DaysTo(year)
  {
    hide DaysTo;
  }

  /** A reader that finds the year, and stops behind it, finds the time; one that fails there fails. */
  lemma PartsRead(epoch: nat, readYear: string -> Option<(nat, string)>)
    ensures var tm := Gmtime(epoch);
            var rest := TimeText(tm);
            var read := readYear(Decimal(tm.year) + rest);
            && (read == Some((tm.year, rest)) ==> ParseParts(DateText(tm), readYear) == Some(epoch))
            && (read.None? || Expect(" ", read.value.1).None? ==> ParseParts(DateText(tm), readYear) == None)
  {
    hide Expect, Take, Number, DateOf, Gmtime, Decimal, TwoDigits;
    var tm := Gmtime(epoch);
    DateOfParts(epoch);
    var s6 := ":" + (TwoDigits(tm.sec) + " GMT");
    var s5 := ":" + (TwoDigits(tm.min) + s6);
    var s4 := " " + (TwoDigits(tm.hour) + s5);
    var s3 := " " + (Decimal(tm.year) + s4);
    var s2 := " " + (MONTHS[tm.mon] + s3);
    var s1 := ", " + (TwoDigits(tm.mday) + s2);
    ExpectOf("Date: ", DAYS[tm.wday] + s1);
    TakeOf(3, DAYS[tm.wday], s1);
    ExpectOf(", ", TwoDigits(tm.mday) + s2);
    NumberOf(2, TwoDigits(tm.mday), s2);
    ExpectOf(" ", MONTHS[tm.mon] + s3);
    TakeOf(3, MONTHS[tm.mon], s3);
    ExpectOf(" ", Decimal(tm.year) + s4);
    ExpectOf(" ", TwoDigits(tm.hour) + s5);
    NumberOf(2, TwoDigits(tm.hour), s5);
    ExpectOf(":", TwoDigits(tm.min) + s6);
    NumberOf(2, TwoDigits(tm.min), s6);
    ExpectOf(":", TwoDigits(tm.sec) + " GMT");
    NumberOf(2, TwoDigits(tm.sec), " GMT");
  }

  /** A server reads the time back exactly until the end of the year 9999. */
  lemma {:induction false} DateExact(epoch: nat)
    ensures ParseDate(DateText(Gmtime(epoch))) == Some(epoch) <==> epoch < YEAR_10000
    ensures |DateText(Gmtime(epoch))| == 35 <==> epoch < YEAR_10000
    ensures epoch >= YEAR_10000 ==> ParseDate(DateText(Gmtime(epoch))) == None
  {
    hide Expect, Take, Number, Gmtime, Decimal, TwoDigits, ParseParts;
    var tm := Gmtime(epoch);
    FourDigitYears(epoch);
    YearWidth(tm.year);
    PartsRead(epoch, s => Number(4, s));
    if tm.year < 10000 {
      NumberOf(4, Decimal(tm.year), TimeText(tm));
    } else {
      LongYearFails(Decimal(tm.year), TimeText(tm));
    }
  }

  /** Four digits of a longer year are not followed by a space. */
  lemma LongYearFails(year: string, s: string)
    requires |year| > 4 && IsDecimal(year)
    ensures var r := Number(4, year + s);
            r.None? || Expect(" ", r.value.1).None?
  {
    var t := year + s;
    assert t[4..][0] == year[4];
  }

  /** Read up to the space, the year can have any number of digits. */
  lemma {:induction false} LongDateRoundTrip(epoch: nat)
    ensures ParseLongDate(DateText(Gmtime(epoch))) == Some(epoch)
  {
    hide Expect, Take, Number, Gmtime, Decimal, TwoDigits, ParseParts, Find;
    var tm := Gmtime(epoch);
    PartsRead(epoch, s => Number(Find(s, ' '), s));
    var year, rest := Decimal(tm.year), TimeText(tm);
    assert (year + rest)[..|year|] == year && (year + rest)[|year|] == ' ';
    FindUnique(year + rest, ' ', |year|);
    NumberOf(|year|, year, rest);
  }

  lemma {:induction false} DateInjective(epoch: nat, epoch': nat)
    requires DateText(Gmtime(epoch)) == DateText(Gmtime(epoch'))
    ensures epoch == epoch'
  {
    hide ParseLongDate, DateText, Gmtime;
    LongDateRoundTrip(epoch);
    LongDateRoundTrip(epoch');
  }

  /** The first time whose header is not an IMF-fixdate. */
  lemma YearTenThousand()
    ensures DateText(Gmtime(YEAR_10000)) == "Date: Sat, 01 Jan 10000 00:00:00 GMT"
    ensures ParseDate("Date: Sat, 01 Jan 10000 00:00:00 GMT") == None
  {
    hide Gmtime, DateText, ParseDate;
    TenThousandFields();
    DateExact(YEAR_10000);
    TenThousandText(Gmtime(YEAR_10000));
  }

  lemma TenThousandText(tm: Tm)
    requires tm == Tm(6, 1, 0, 10000, 0, 0, 0)
    ensures DateText(tm) == "Date: Sat, 01 Jan 10000 00:00:00 GMT"
  {
    hide Decimal, TwoDigits;
    SmallNumbers();
    assert TimeText(tm) == " 00:00:00 GMT";
    assert YearText(tm) == " 10000 00:00:00 GMT";
  }

  lemma TenThousandFields()
    ensures Gmtime(YEAR_10000) == Tm(6, 1, 0, 10000, 0, 0, 0)
  {
    hide YearOf, DaysTo, MonthOf, DaysBefore, MonthLength, YearLength, Gmtime;
    TenThousandClock();
    YearOfInverse(2932897, 1970);
    YearZero();
    var (year, yday) := YearOf(2932897, 1970);
    TenThousandDays(year, yday);
    FirstOfJanuary();
    GmtimeParts(YEAR_10000, 2932897, 0, year, yday);
  }

  lemma TenThousandClock()
    ensures YEAR_10000 / 86400 == 2932897 && YEAR_10000 % 86400 == 0 && (2932897 + 4) % 7 == 6
  {
  }

  lemma FirstOfJanuary()
    ensures DaysBefore(10000, 0) == 0 < YearLength(10000) && MonthOf(0, 10000, 0) == (0, 0)
  {
    hide DaysTo, YearOf;
  }

  lemma GmtimeParts(epoch: nat, days: nat, secs: nat, year: nat, yday: nat)
    requires days == epoch / 86400 && secs == epoch % 86400 && YearOf(days, 1970) == (year, yday)
    ensures DaysBefore(year, 0) <= yday < YearLength(year)
    ensures var (mon, mday) := MonthOf(yday, year, 0);
            Gmtime(epoch) == Tm((days + 4) % 7, mday + 1, mon, year, secs / 3600, secs / 60 % 60, secs % 60)
  {
    hide YearOf, MonthOf, DaysTo, MonthLength, YearLength;
    YearOfInverse(days, 1970);
  }

  lemma TenThousandDays(year: nat, yday: nat)
    requires year >= 1970 && yday < YearLength(year) && DaysTo(year) + yday == 2932897
    ensures year == 10000 && yday == 0
  {
    hide YearLength;
    assert DaysTo(10000) == 2932897;
    DaysToNext(year);
    hide DaysTo;
    if year < 10000 {
      DaysToMonotone(year + 1, 10000);
      assert false;
    } else if year > 10000 {
      DaysToNext(10000);
      DaysToMonotone(10001, year);
      assert false;
    }
  }

  lemma SmallNumbers()
    ensures TwoDigits(0) == "00" && TwoDigits(1) == "01" && Decimal(10000) == "10000"
  {
    TenfoldIsLonger(10000);
    assert Decimal(1) == "1" && Decimal(10) == "10" && Decimal(100) == "100" && Decimal(1000) == "1000";
  }

  lemma DateIsOneLine(tm: Tm)
    requires tm.Valid()
    ensures '\n' !in DateText(tm)
  {
    hide Decimal, TwoDigits;
    DecimalHasNo(tm.year, '\n');
    assert forall i :: 0 <= i < 7 ==> '\n' !in DAYS[i];
    assert forall i :: 0 <= i < 12 ==> '\n' !in MONTHS[i];
    NoNewline(TwoDigits(tm.mday));
    NoNewline(TwoDigits(tm.hour));
    NoNewline(TwoDigits(tm.min));
    NoNewline(TwoDigits(tm.sec));
    assert '\n' !in TimeText(tm);
    assert '\n' !in YearText(tm);
  }

  lemma NoNewline(s: string)
    requires IsDecimal(s)
    ensures '\n' !in s
  {
  }

  lemma DecimalHasNo(n: nat, c: char)
    requires !('0' <= c <= '9')
    ensures c !in Decimal(n)
  {
  }
}
