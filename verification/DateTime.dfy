/**
 Date_Time (src/core/Date_Time.c): stepping a date by day, month or year, and splitting an
 interval of time at the boundaries of such units.
 */
module DateTime {
  import opened Strings
  import opened Calendar

  // ------------------------------------------------------------------- "%F %T"

  function Digit(n: nat): char
    requires n < 10
  {
    '0' + n as char
  }

  function Two(n: nat): string
    requires n < 100
  {
    [Digit(n / 10), Digit(n % 10)]
  }

  /** The years for which %Y prints exactly four digits. */
  predicate FourDigits(y: nat) {
    1000 <= y < 10000
  }

  /** %Y, from year 1000 on. */
  function YearString(y: nat): string {
    if y < 10000 then Two(y / 100) + Two(y % 100) else YearString(y / 10) + [Digit(y % 10)]
  }

  function TimeString(t: Tm): string
    requires ValidTm(t)
  {
    Two(t.hour) + ":" + (Two(t.min) + ":" + Two(t.sec))
  }

  function DayString(t: Tm): string
    requires ValidTm(t)
  {
    Two(t.mday) + " " + TimeString(t)
  }

  function MonthString(t: Tm): string
    requires ValidTm(t)
  {
    Two(t.mon + 1) + "-" + DayString(t)
  }

  /** strftime with "%F %T" */
  function Format(t: Tm): string
    requires ValidTm(t)
  {
    YearString(t.year) + "-" + MonthString(t)
  }

  /** The number that a string of decimal digits stands for. */
  function Number(s: string): int {
    if s == "" then 0 else 10 * Number(s[..|s| - 1]) + (s[|s| - 1] as int - '0' as int)
  }

  lemma TwoReads(n: nat)
    requires n < 100
    ensures |Two(n)| == 2 && Number(Two(n)) == n
  {
    assert Two(n)[..1] == [Digit(n / 10)] && Two(n)[..1][..0] == "";
    assert Number(Two(n)[..1]) == n / 10;
  }

  lemma {:induction false} YearReads(y: nat)
    ensures Number(YearString(y)) == y
  {
    if y < 10000 {
      var s, front := YearString(y), Two(y / 100);
      TwoReads(y / 100);
      assert s[..3] == front + [Digit(y % 100 / 10)] && s[..3][..2] == front;
      assert s[..|s| - 1] == s[..3];
    } else {
      YearReads(y / 10);
      assert YearString(y)[..|YearString(y)| - 1] == YearString(y / 10);
    }
  }

  /** The text has its fields and separators where "%F %T" puts them, and the fields read as the numbers of the time. */
  lemma FormatReads(t: Tm)
    requires ValidTm(t) && FourDigits(t.year)
    ensures var f := Format(t);
            && |f| == 19 && f[4] == f[7] == '-' && f[10] == ' ' && f[13] == f[16] == ':'
            && Number(f[0..4]) == t.year && Number(f[5..7]) == t.mon + 1 && Number(f[8..10]) == t.mday
            && Number(f[11..13]) == t.hour && Number(f[14..16]) == t.min && Number(f[17..19]) == t.sec
  {
    var f := Format(t);
    YearReads(t.year);
    assert f[0..4] == YearString(t.year);
    TwoReads(t.mon + 1);
    assert f[5..7] == Two(t.mon + 1);
    TwoReads(t.mday);
    assert f[8..10] == Two(t.mday);
    TwoReads(t.hour);
    assert f[11..13] == Two(t.hour);
    TwoReads(t.min);
    assert f[14..16] == Two(t.min);
    TwoReads(t.sec);
    assert f[17..19] == Two(t.sec);
  }

  // ------------------------------------------- comparing formatted times (RFC 3339)

  /** Strings that agree on equally long fronts compare as their remainders. */
  lemma {:induction false} CmpFronts(a: string, b: string, c: string, d: string)
    requires |a| == |b|
    ensures StrCmp(a + c, b + d) == if a == b then StrCmp(c, d) else StrCmp(a, b)
  {
    if a == [] {
      assert a + c == c && b + d == d;
    } else {
      assert (a + c)[1..] == a[1..] + c && (b + d)[1..] == b[1..] + d;
      if a[0] == b[0] {
        CmpFronts(a[1..], b[1..], c, d);
        assert a == [a[0]] + a[1..] && b == [b[0]] + b[1..];
      }
    }
  }

  lemma TwoOrder(m: nat, n: nat)
    requires m < 100 && n < 100
    ensures m < n ==> StrCmp(Two(m), Two(n)) < 0
    ensures m > n ==> StrCmp(Two(m), Two(n)) > 0
    ensures m == n <==> Two(m) == Two(n)
  {
    assert Two(m)[0] == Digit(m / 10) && Two(m)[1] == Digit(m % 10);
    assert Two(n)[0] == Digit(n / 10) && Two(n)[1] == Digit(n % 10);
    assert Two(m)[1..] == [Digit(m % 10)] && Two(n)[1..] == [Digit(n % 10)];
  }

  /** A two-digit field decides the comparison unless it is equal; the separator never does. */
  lemma FieldOrder(m: nat, n: nat, sep: string, c: string, d: string)
    requires m < 100 && n < 100
    ensures var cmp := StrCmp(Two(m) + sep + c, Two(n) + sep + d);
            && (m < n ==> cmp < 0) && (m > n ==> cmp > 0) && (m == n ==> cmp == StrCmp(c, d))
  {
    TwoOrder(m, n);
    assert Two(m) + sep + c == Two(m) + (sep + c) && Two(n) + sep + d == Two(n) + (sep + d);
    CmpFronts(Two(m), Two(n), sep + c, sep + d);
    CmpFronts(sep, sep, c, d);
  }

  lemma YearOrder(m: nat, n: nat, sep: string, c: string, d: string)
    requires m < 10000 && n < 10000
    ensures var cmp := StrCmp(YearString(m) + sep + c, YearString(n) + sep + d);
            && (m < n ==> cmp < 0) && (m > n ==> cmp > 0) && (m == n ==> cmp == StrCmp(c, d))
  {
    FieldOrder(m / 100, n / 100, "", Two(m % 100) + sep + c, Two(n % 100) + sep + d);
    FieldOrder(m % 100, n % 100, sep, c, d);
    assert YearString(m) + sep + c == Two(m / 100) + "" + (Two(m % 100) + sep + c);
    assert YearString(n) + sep + d == Two(n / 100) + "" + (Two(n % 100) + sep + d);
  }

  lemma TimeStringOrder(a: Tm, b: Tm)
    requires ValidTm(a) && ValidTm(b)
    ensures var cmp := StrCmp(TimeString(a), TimeString(b));
            && (TimeOfDay(a) < TimeOfDay(b) ==> cmp < 0) && (TimeOfDay(a) > TimeOfDay(b) ==> cmp > 0)
            && (TimeOfDay(a) == TimeOfDay(b) ==> cmp == 0)
  {
    TwoOrder(a.sec, b.sec);
    StrCmpZero(Two(a.sec), Two(b.sec));
    FieldOrder(a.min, b.min, ":", Two(a.sec), Two(b.sec));
    FieldOrder(a.hour, b.hour, ":", Two(a.min) + ":" + Two(a.sec), Two(b.min) + ":" + Two(b.sec));
  }

  lemma DayStringOrder(a: Tm, b: Tm)
    requires ValidTm(a) && ValidTm(b)
    ensures var cmp := StrCmp(DayString(a), DayString(b));
            && (a.mday < b.mday || (a.mday == b.mday && TimeOfDay(a) < TimeOfDay(b)) ==> cmp < 0)
            && (a.mday > b.mday || (a.mday == b.mday && TimeOfDay(a) > TimeOfDay(b)) ==> cmp > 0)
            && (a.mday == b.mday && TimeOfDay(a) == TimeOfDay(b) ==> cmp == 0)
  {
    TimeStringOrder(a, b);
    FieldOrder(a.mday, b.mday, " ", TimeString(a), TimeString(b));
  }

  lemma MonthStringOrder(a: Tm, b: Tm)
    requires ValidTm(a) && ValidTm(b)
    ensures var cmp := StrCmp(MonthString(a), MonthString(b));
            a.year == b.year ==> (Before(a, b) ==> cmp < 0) && (Before(b, a) ==> cmp > 0) && (a == b ==> cmp == 0)
  {
    DayStringOrder(a, b);
    FieldOrder(a.mon + 1, b.mon + 1, "-", DayString(a), DayString(b));
  }

  /** For years of four digits, string order is chronological order. */
  lemma FormatOrder(a: Tm, b: Tm)
    requires ValidTm(a) && ValidTm(b) && FourDigits(a.year) && FourDigits(b.year)
    ensures StrCmp(Format(a), Format(b)) < 0 <==> Seconds(a) < Seconds(b)
    ensures StrCmp(Format(a), Format(b)) > 0 <==> Seconds(a) > Seconds(b)
    ensures StrCmp(Format(a), Format(b)) == 0 <==> a == b
  {
    SecondsOrder(a, b);
    SecondsOrder(b, a);
    MonthStringOrder(a, b);
    YearOrder(a.year, b.year, "-", MonthString(a), MonthString(b));
  }

  /** strncmp */
  function StrNCmp(a: string, b: string, n: nat): int {
    StrCmp(if n < |a| then a[..n] else a, if n < |b| then b[..n] else b)
  }

  lemma FormatLength(t: Tm)
    requires ValidTm(t) && FourDigits(t.year)
    ensures |Format(t)| == 19
  {
  }

  /** The date part, "%F". */
  function DateString(t: Tm): string
    requires ValidTm(t)
  {
    YearString(t.year) + "-" + (Two(t.mon + 1) + "-" + Two(t.mday))
  }

  lemma FormatSplit(t: Tm)
    requires ValidTm(t) && FourDigits(t.year)
    ensures Format(t) == DateString(t) + (" " + TimeString(t)) && |DateString(t)| == 10
  {
  }

  /** __cmp: compares as many characters as the formatted time has. */
  function CmpTo(t: Tm, target: string): int
    requires ValidTm(t)
  {
    StrNCmp(Format(t), target, |Format(t)|)
  }

  /** The sign of `r` orders the two times. */
  ghost predicate Orders(r: int, a: Tm, b: Tm)
    requires ValidTm(a) && ValidTm(b)
  {
    && (r < 0 <==> Seconds(a) < Seconds(b))
    && (r > 0 <==> Seconds(a) > Seconds(b))
    && (r == 0 <==> a == b)
  }

  /** Against a string that starts with a formatted time, __cmp compares the two times. */
  lemma CmpIsChronological(a: Tm, target: string, b: Tm)
    requires ValidTm(a) && ValidTm(b) && FourDigits(a.year) && FourDigits(b.year) && Format(b) <= target
    ensures Orders(CmpTo(a, target), a, b)
  {
    FormatLength(a);
    FormatLength(b);
    assert StrNCmp(Format(a), target, 19) == StrCmp(Format(a), Format(b)) by {
      assert target[..19] == Format(b);
      assert |target| == 19 ==> target == Format(b);
    }
    FormatOrder(a, b);
  }

  lemma CmpOrders(a: Tm, target: string)
    requires ValidTm(a) && FourDigits(a.year)
    ensures forall b :: ValidTm(b) && FourDigits(b.year) && Format(b) <= target ==> Orders(CmpTo(a, target), a, b)
  {
    forall b | ValidTm(b) && FourDigits(b.year) && Format(b) <= target ensures Orders(CmpTo(a, target), a, b) {
      CmpIsChronological(a, target, b);
    }
  }

  /**
   Years of five digits against an end in 9999: the first four digits decide, and only 9999x is
   above, because a digit sorts above the '-'.
   */
  lemma CmpFiveDigits(a: Tm, target: string)
    requires ValidTm(a) && 10000 <= a.year < 100000
    requires YearString(9999) + "-" <= target
    ensures if a.year < 99990 then CmpTo(a, target) < 0 else CmpTo(a, target) > 0
  {
    var front, last := a.year / 10, Digit(a.year % 10);
    var rest := [last] + "-" + MonthString(a);
    assert Format(a) == YearString(front) + rest;
    var n := |Format(a)|;
    var cut := if n < |target| then target[..n] else target;
    assert cut[..4] == (YearString(9999) + "-")[..4] == YearString(9999);
    assert cut[4] == (YearString(9999) + "-")[4] == '-';
    assert cut == YearString(9999) + cut[4..];
    CmpFronts(YearString(front), YearString(9999), rest, cut[4..]);
    YearOrder(front, 9999, "", "", "");
    assert YearString(front) + "" + "" == YearString(front) && YearString(9999) + "" + "" == YearString(9999);
  }

  // ------------------------------------------------------------------------ units

  datatype Unit = Day | Month | Year

  predicate SameUnit(u: Unit, a: Tm, b: Tm) {
    && a.year == b.year
    && (u.Year? || (a.mon == b.mon && (u.Month? || a.mday == b.mday)))
  }

  /** The first moment of the unit after the one `t` lies in. */
  function NextStart(u: Unit, t: Tm): (n: Tm)
    requires ValidTm(t)
    ensures ValidTm(n)
  {
    if u.Day? && t.mday < DaysInMonth(t.year, t.mon) then Tm(t.year, t.mon, t.mday + 1, 0, 0, 0)
    else if !u.Year? && t.mon < 11 then Tm(t.year, t.mon + 1, 1, 0, 0, 0)
    else Tm(t.year + 1, 0, 1, 0, 0, 0)
  }

  /** The last second of the unit `t` lies in. */
  function LastMoment(u: Unit, t: Tm): (e: Tm)
    requires ValidTm(t)
    ensures ValidTm(e) && SameUnit(u, t, e)
  {
    match u
    case Day => Tm(t.year, t.mon, t.mday, 23, 59, 59)
    case Month => Tm(t.year, t.mon, DaysInMonth(t.year, t.mon), 23, 59, 59)
    case Year => Tm(t.year, 11, 31, 23, 59, 59)
  }

  lemma NextDayNumber(t: Tm)
    requires ValidTm(t)
    ensures DayNumber(NextStart(Day, t)) == DayNumber(t) + 1
  {
    if t.mday == DaysInMonth(t.year, t.mon) {
      if t.mon == 11 {
        assert MonthStart(t.year, 12) == MonthStart(t.year, 11) + 31;
        YearLength(t.year);
      } else {
        assert MonthStart(t.year, t.mon + 1) == MonthStart(t.year, t.mon) + DaysInMonth(t.year, t.mon);
      }
    }
  }

  /** The last moment of a unit is one second before the next start. */
  lemma LastMomentThenNext(u: Unit, t: Tm)
    requires ValidTm(t)
    ensures Seconds(LastMoment(u, t)) + 1 == Seconds(NextStart(u, t))
    ensures NextStart(u, LastMoment(u, t)) == NextStart(u, t)
    ensures Seconds(t) <= Seconds(LastMoment(u, t))
  {
    var e := LastMoment(u, t);
    assert NextStart(u, t) == NextStart(Day, e);
    NextDayNumber(e);
    SecondsOrder(e, t);
    TimeOfDayBound(t);
  }

  /** Everything from `t` up to the next start, and nothing later, is in the unit of `t`. */
  lemma UnitEndsAtNextStart(u: Unit, t: Tm, x: Tm)
    requires ValidTm(t) && ValidTm(x) && Seconds(t) <= Seconds(x)
    ensures SameUnit(u, t, x) <==> Seconds(x) < Seconds(NextStart(u, t))
    ensures Seconds(t) < Seconds(NextStart(u, t))
  {
    SecondsOrder(x, t);
    SecondsOrder(x, NextStart(u, t));
    LastMomentThenNext(u, t);
  }

  lemma SameUnitSameNext(u: Unit, a: Tm, b: Tm)
    requires ValidTm(a) && ValidTm(b) && SameUnit(u, a, b)
    ensures NextStart(u, a) == NextStart(u, b)
  {
  }

  /** A slice of an interval of time, both ends included. */
  datatype Slice = Slice(from: Tm, to: Tm)

  ghost predicate SliceOk(u: Unit, s: Slice) {
    ValidTm(s.from) && ValidTm(s.to) && Seconds(s.from) <= Seconds(s.to) && SameUnit(u, s.from, s.to)
  }

  /**
   The slices cover the seconds from `start` to `end` exactly, in order and without gap or
   overlap, and they meet exactly at the boundaries of the unit.
   */
  ghost predicate Splits(u: Unit, slices: seq<Slice>, start: Tm, end: Tm) {
    && slices != []
    && (forall s :: s in slices ==> SliceOk(u, s))
    && slices[0].from == start
    && slices[|slices| - 1].to == end
    && forall i {:trigger MeetAt(u, slices, i)} :: 0 <= i < |slices| - 1 ==> MeetAt(u, slices, i)
  }

  ghost predicate MeetAt(u: Unit, slices: seq<Slice>, i: nat)
    requires i + 1 < |slices|
  {
    Adjacent(u, slices[i], slices[i + 1])
  }

  /** `b` starts one second after `a` ends, in another unit. */
  ghost predicate Adjacent(u: Unit, a: Slice, b: Slice) {
    ValidTm(a.to) && ValidTm(b.from) && Seconds(b.from) == Seconds(a.to) + 1 && !SameUnit(u, a.to, b.from)
  }

  /** The two strings the callback is given. */
  datatype Call = Call(from: string, to: string)

  /**
   The strings are the formatted ends of the slices; a slice that the end cuts short ends with the
   caller's own string, which for a date alone stands for the last second of the day before.
   */
  ghost predicate Shows(u: Unit, calls: seq<Call>, slices: seq<Slice>, target: string) {
    && |calls| == |slices|
    && forall i :: 0 <= i < |calls| ==> ShowsOne(u, calls[i], slices[i], target)
  }

  ghost predicate ShowsOne(u: Unit, call: Call, s: Slice, target: string) {
    && ValidTm(s.from) && ValidTm(s.to)
    && call.from == Format(s.from)
    && call.to == if s.to == LastMoment(u, s.from) then Format(s.to) else target
  }

  lemma FirstSlice(u: Unit, s: Slice)
    requires SliceOk(u, s)
    ensures Splits(u, [s], s.from, s.to)
  {
  }

  lemma NextSlice(u: Unit, slices: seq<Slice>, start: Tm, mid: Tm, s: Slice)
    requires Splits(u, slices, start, mid) && SliceOk(u, s) && ValidTm(mid)
    requires Seconds(s.from) == Seconds(mid) + 1 && s.from == NextStart(u, mid)
    ensures Splits(u, slices + [s], start, s.to)
  {
    var all := slices + [s];
    UnitEndsAtNextStart(u, mid, s.from);
    assert Adjacent(u, slices[|slices| - 1], s);
    forall i | 0 <= i < |all| - 1 ensures MeetAt(u, all, i) {
      if i + 1 < |slices| {
        assert MeetAt(u, slices, i);
      }
    }
  }

  ghost predicate InSlice(s: Slice, x: Tm) {
    ValidTm(s.from) && ValidTm(s.to) && ValidTm(x) && Seconds(s.from) <= Seconds(x) <= Seconds(s.to)
  }

  /** All but the last slice split the time up to where the last one begins. */
  lemma SplitsFront(u: Unit, slices: seq<Slice>, start: Tm, end: Tm)
    requires Splits(u, slices, start, end) && |slices| > 1
    ensures var n := |slices| - 1;
            Splits(u, slices[..n], start, slices[n - 1].to) && Adjacent(u, slices[n - 1], slices[n])
  {
    var n := |slices| - 1;
    assert slices[n - 1] in slices;
    assert MeetAt(u, slices, n - 1);
    forall i | 0 <= i < n - 1 ensures MeetAt(u, slices[..n], i) {
      assert MeetAt(u, slices, i);
    }
  }

  lemma {:induction false} SplitsOrder(u: Unit, slices: seq<Slice>, start: Tm, end: Tm)
    requires Splits(u, slices, start, end)
    ensures ValidTm(start) && ValidTm(end) && Seconds(start) <= Seconds(end)
    decreases |slices|
  {
    var n := |slices| - 1;
    assert slices[n] in slices && SliceOk(u, slices[n]);
    if n > 0 {
      SplitsFront(u, slices, start, end);
      SplitsOrder(u, slices[..n], start, slices[n - 1].to);
    }
  }

  /** Every moment from `start` to `end`, and no other, lies in a slice, and in only one. */
  lemma {:induction false} SplitsCover(u: Unit, slices: seq<Slice>, start: Tm, end: Tm, x: Tm)
    requires Splits(u, slices, start, end) && ValidTm(x)
    ensures ValidTm(start) && ValidTm(end) && Seconds(start) <= Seconds(end)
    ensures Seconds(start) <= Seconds(x) <= Seconds(end) <==> exists i :: 0 <= i < |slices| && InSlice(slices[i], x)
    ensures forall i, j :: 0 <= i < j < |slices| ==> !(InSlice(slices[i], x) && InSlice(slices[j], x))
  {
    SplitsOrder(u, slices, start, end);
    if Seconds(start) <= Seconds(x) <= Seconds(end) {
      var i := SliceWith(u, slices, start, end, x);
    }
    forall i | 0 <= i < |slices| && InSlice(slices[i], x) ensures Seconds(start) <= Seconds(x) <= Seconds(end) {
      SliceBounds(u, slices, start, end, i);
    }
    forall i, j | 0 <= i < j < |slices| ensures !(InSlice(slices[i], x) && InSlice(slices[j], x)) {
      SliceAfter(u, slices, start, end, i, j);
    }
  }

  lemma {:induction false} SliceWith(u: Unit, slices: seq<Slice>, start: Tm, end: Tm, x: Tm) returns (i: nat)
    requires Splits(u, slices, start, end) && ValidTm(x) && ValidTm(start) && ValidTm(end)
    requires Seconds(start) <= Seconds(x) <= Seconds(end)
    ensures i < |slices| && InSlice(slices[i], x)
    decreases |slices|
  {
    var n := |slices| - 1;
    assert slices[n] in slices && SliceOk(u, slices[n]);
    i := n;
    if n > 0 {
      SplitsFront(u, slices, start, end);
      if Seconds(x) <= Seconds(slices[n - 1].to) {
        i := SliceWith(u, slices[..n], start, slices[n - 1].to, x);
      }
    }
  }

  /** A later slice lies after an earlier one. */
  lemma {:induction false} SliceAfter(u: Unit, slices: seq<Slice>, start: Tm, end: Tm, i: nat, j: nat)
    requires Splits(u, slices, start, end) && i < j < |slices|
    ensures SliceOk(u, slices[i]) && SliceOk(u, slices[j]) && Seconds(slices[i].to) < Seconds(slices[j].from)
    decreases j
  {
    assert slices[i] in slices && slices[j] in slices && slices[j - 1] in slices;
    assert MeetAt(u, slices, j - 1);
    if i < j - 1 {
      SliceAfter(u, slices, start, end, i, j - 1);
    }
  }

  lemma SliceBounds(u: Unit, slices: seq<Slice>, start: Tm, end: Tm, i: nat)
    requires Splits(u, slices, start, end) && i < |slices| && ValidTm(start) && ValidTm(end)
    ensures SliceOk(u, slices[i]) && Seconds(start) <= Seconds(slices[i].from) && Seconds(slices[i].to) <= Seconds(end)
  {
    var n := |slices| - 1;
    assert slices[0] in slices && slices[i] in slices && slices[n] in slices;
    if 0 < i {
      SliceAfter(u, slices, start, end, 0, i);
    }
    if i < n {
      SliceAfter(u, slices, start, end, i, n);
    }
  }

  // -------------------------------------------------------- there is only one split

  lemma SameUnitTransitive(u: Unit, a: Tm, b: Tm, c: Tm)
    requires SameUnit(u, a, b)
    ensures SameUnit(u, b, c) <==> SameUnit(u, a, c)
  {
  }

  /** A slice that is not the last one lasts to the end of its unit, and the next one starts there. */
  lemma InnerSlice(u: Unit, slices: seq<Slice>, start: Tm, end: Tm, i: nat)
    requires Splits(u, slices, start, end) && i + 1 < |slices| && ValidTm(start) && ValidTm(end)
    ensures var from := slices[i].from;
            && ValidTm(from) && Seconds(NextStart(u, from)) <= Seconds(end)
            && slices[i].to == LastMoment(u, from) && slices[i + 1].from == NextStart(u, from)
  {
    var a, b := slices[i], slices[i + 1];
    assert MeetAt(u, slices, i);
    SliceBounds(u, slices, start, end, i);
    SliceBounds(u, slices, start, end, i + 1);
    UnitEndsAtNextStart(u, a.from, a.to);
    UnitEndsAtNextStart(u, a.from, b.from);
    SameUnitTransitive(u, a.from, a.to, b.from);
    SecondsOrder(b.from, NextStart(u, a.from));
    LastMomentThenNext(u, a.from);
    SecondsOrder(a.to, LastMoment(u, a.from));
  }

  /** The unit of the last slice does not end before the end. */
  lemma LastSlice(u: Unit, slices: seq<Slice>, start: Tm, end: Tm)
    requires Splits(u, slices, start, end) && ValidTm(start) && ValidTm(end)
    ensures var from := slices[|slices| - 1].from; ValidTm(from) && Seconds(NextStart(u, from)) > Seconds(end)
  {
    SliceBounds(u, slices, start, end, |slices| - 1);
    UnitEndsAtNextStart(u, slices[|slices| - 1].from, end);
  }

  /** Whether and where a split goes on depends on the start of the slice alone. */
  lemma SliceDetermined(u: Unit, slices: seq<Slice>, start: Tm, end: Tm, i: nat)
    requires Splits(u, slices, start, end) && i < |slices| && ValidTm(start) && ValidTm(end)
    ensures var from := slices[i].from;
            && ValidTm(from)
            && (i + 1 < |slices| <==> Seconds(NextStart(u, from)) <= Seconds(end))
            && slices[i].to == (if Seconds(NextStart(u, from)) <= Seconds(end) then LastMoment(u, from) else end)
            && (i + 1 < |slices| ==> slices[i + 1].from == NextStart(u, from))
  {
    if i + 1 < |slices| {
      InnerSlice(u, slices, start, end, i);
    } else {
      LastSlice(u, slices, start, end);
    }
  }

  lemma {:induction false} SameSlice(u: Unit, xs: seq<Slice>, ys: seq<Slice>, start: Tm, end: Tm, i: nat)
    requires Splits(u, xs, start, end) && Splits(u, ys, start, end) && ValidTm(start) && ValidTm(end) && i < |xs|
    ensures i < |ys| && xs[i] == ys[i] && (i + 1 < |xs| <==> i + 1 < |ys|)
  {
    if i > 0 {
      SameSlice(u, xs, ys, start, end, i - 1);
      SameFromSame(u, xs, ys, start, end, i - 1);
    }
    SameFromSame(u, xs, ys, start, end, i);
  }

  lemma SameFromSame(u: Unit, xs: seq<Slice>, ys: seq<Slice>, start: Tm, end: Tm, i: nat)
    requires Splits(u, xs, start, end) && Splits(u, ys, start, end) && ValidTm(start) && ValidTm(end)
    requires i < |xs| && i < |ys| && xs[i].from == ys[i].from
    ensures xs[i].to == ys[i].to && (i + 1 < |xs| <==> i + 1 < |ys|)
    ensures i + 1 < |xs| ==> xs[i + 1].from == ys[i + 1].from
  {
    SliceDetermined(u, xs, start, end, i);
    SliceDetermined(u, ys, start, end, i);
  }

  /** Start, end and unit leave no choice: there is one way to split. */
  lemma SplitsUnique(u: Unit, xs: seq<Slice>, ys: seq<Slice>, start: Tm, end: Tm)
    requires Splits(u, xs, start, end) && Splits(u, ys, start, end) && ValidTm(start) && ValidTm(end)
    ensures xs == ys
  {
    forall i | 0 <= i < |xs| ensures i < |ys| && xs[i] == ys[i] && (i + 1 < |xs| <==> i + 1 < |ys|) {
      SameSlice(u, xs, ys, start, end, i);
    }
    SameSlice(u, xs, ys, start, end, |xs| - 1);
  }

  /** The next unit starts in the same year or with the next one. */
  lemma NextStartYear(u: Unit, t: Tm)
    requires ValidTm(t)
    ensures NextStart(u, t).year == t.year || NextStart(u, t) == Tm(t.year + 1, 0, 1, 0, 0, 0)
  {
  }

  /** The date moves forward. */
  lemma NextStartLater(u: Unit, t: Tm)
    requires ValidTm(t)
    ensures DayBefore(t, NextStart(u, t))
  {
  }

  /**
   On the way to the end: nothing done yet, or split so far, with `tm` right behind or at the first
   start after the end.
   */
  ghost predicate Progress(u: Unit, slices: seq<Slice>, start: Tm, tm: Tm, end: Tm)
    requires ValidTm(start) && ValidTm(tm) && ValidTm(end)
  {
    if slices == [] then tm == start
    else
      var mid := slices[|slices| - 1].to;
      && ValidTm(mid) && Splits(u, slices, start, mid) && Seconds(start) <= Seconds(end)
      && tm == NextStart(u, mid)
      && if Seconds(tm) <= Seconds(end) then Seconds(tm) == Seconds(mid) + 1 else mid == end
  }

  lemma ShowsStep(u: Unit, calls: seq<Call>, slices: seq<Slice>, target: string, call: Call, slice: Slice)
    requires Shows(u, calls, slices, target) && ShowsOne(u, call, slice, target)
    ensures Shows(u, calls + [call], slices + [slice], target)
  {
  }

  lemma ProgressDone(u: Unit, slices: seq<Slice>, start: Tm, tm: Tm, end: Tm)
    requires ValidTm(start) && ValidTm(tm) && ValidTm(end)
    requires Progress(u, slices, start, tm, end) && Seconds(tm) > Seconds(end)
    ensures Seconds(start) > Seconds(end) ==> slices == []
    ensures Seconds(start) <= Seconds(end) ==> Splits(u, slices, start, end)
  {
  }

  lemma ProgressStep(u: Unit, slices: seq<Slice>, start: Tm, tm: Tm, slice: Slice, tm': Tm, end: Tm)
    requires ValidTm(start) && ValidTm(tm) && ValidTm(tm') && ValidTm(end)
    requires Progress(u, slices, start, tm, end) && Seconds(tm) <= Seconds(end)
    requires SliceOk(u, slice) && slice.from == tm && tm' == NextStart(u, slice.to)
    requires if Seconds(tm') <= Seconds(end) then Seconds(tm') == Seconds(slice.to) + 1 else slice.to == end
    ensures Progress(u, slices + [slice], start, tm', end)
  {
    if slices == [] {
      FirstSlice(u, slice);
      assert [] + [slice] == [slice];
    } else {
      NextSlice(u, slices, start, slices[|slices| - 1].to, slice);
    }
  }

  // ------------------------------------------------------- past an end in the year 9999

  /**
   The last moment that the end string admits: the time it starts with, or, for a date alone, the
   last second of the day before, because a date sorts below every time of its day.
   */
  ghost predicate Ends(target: string, end: Tm)
    requires ValidTm(end) && FourDigits(end.year)
  {
    || Format(end) <= target
    || (var day := NextStart(Day, end);
        FourDigits(day.year) && end == LastMoment(Day, end) && target == DateString(day))
  }

  lemma EndsIn9999(target: string, end: Tm)
    requires ValidTm(end) && FourDigits(end.year) && end.year >= 9999 && Ends(target, end)
    ensures YearString(9999) + "-" <= target
  {
    NextStartYear(Day, end);
  }

  /** Formatting loses nothing. */
  lemma FormatInjective(a: Tm, b: Tm)
    requires ValidTm(a) && ValidTm(b) && FourDigits(a.year) && FourDigits(b.year) && Format(a) == Format(b)
    ensures a == b
  {
    StrCmpZero(Format(a), Format(b));
    FormatOrder(a, b);
  }

  function Midnight(t: Tm): (m: Tm)
    requires ValidTm(t)
    ensures ValidTm(m) && SameDay(m, t) && DateString(m) == DateString(t) && TimeString(m) == "00:00:00"
  {
    t.(hour := 0, min := 0, sec := 0)
  }

  /** Two times whose dates read the same lie on the same day. */
  lemma SameDateString(a: Tm, b: Tm)
    requires ValidTm(a) && ValidTm(b) && FourDigits(a.year) && FourDigits(b.year) && DateString(a) == DateString(b)
    ensures SameDay(a, b)
  {
    FormatSplit(Midnight(a));
    FormatSplit(Midnight(b));
    FormatInjective(Midnight(a), Midnight(b));
  }

  /** A date alone admits exactly the times before its day. */
  lemma CmpDateOnly(a: Tm, end: Tm)
    requires ValidTm(a) && ValidTm(end) && FourDigits(a.year) && FourDigits(end.year)
    requires FourDigits(NextStart(Day, end).year) && end == LastMoment(Day, end)
    ensures CmpTo(a, DateString(NextStart(Day, end))) <= 0 <==> Seconds(a) <= Seconds(end)
  {
    var day := NextStart(Day, end);
    LastMomentThenNext(Day, end);
    DateBelowItsTimes(a, day);
    FormatOrder(a, day);
    if DateString(a) == DateString(day) {
      SameDateString(a, day);
    }
  }

  /** A time against a date: another date decides as it does between times, and the same date is below. */
  lemma DateBelowItsTimes(a: Tm, day: Tm)
    requires ValidTm(a) && ValidTm(day) && FourDigits(a.year) && FourDigits(day.year)
    ensures if DateString(a) == DateString(day) then CmpTo(a, DateString(day)) > 0
            else CmpTo(a, DateString(day)) == StrCmp(Format(a), Format(day))
  {
    FormatSplit(a);
    FormatSplit(day);
    CmpShorter(a, DateString(day));
    CmpFronts(DateString(a), DateString(day), " " + TimeString(a), "");
    CmpFronts(DateString(a), DateString(day), " " + TimeString(a), " " + TimeString(day));
    assert DateString(day) + "" == DateString(day);
  }

  lemma CmpShorter(a: Tm, target: string)
    requires ValidTm(a) && |target| <= |Format(a)|
    ensures CmpTo(a, target) == StrCmp(Format(a), target)
  {
  }

  /** Whether the loops go on at `tm`: at the end, as they should, or else in the year 99990. */
  ghost predicate GoesOn(tm: Tm, end: Tm)
    requires ValidTm(tm) && ValidTm(end)
  {
    if tm.year < 10000 then Seconds(tm) <= Seconds(end) else tm.year < 99990
  }

  /** That is what the comparison of strings decides. */
  lemma CmpDecides(tm: Tm, target: string, end: Tm)
    requires ValidTm(tm) && ValidTm(end) && FourDigits(end.year) && Ends(target, end)
    requires FourDigits(tm.year) || (10000 <= tm.year < 100000 && end.year >= 9999)
    ensures CmpTo(tm, target) <= 0 <==> GoesOn(tm, end)
  {
    if tm.year < 10000 {
      if Format(end) <= target {
        CmpIsChronological(tm, target, end);
      } else {
        CmpDateOnly(tm, end);
      }
    } else {
      EndsIn9999(target, end);
      CmpFiveDigits(tm, target);
    }
  }

  /** Where the loops stand once they have run past an end in 9999: whole units, one after the other. */
  ghost predicate Overrun(u: Unit, over: seq<Slice>, tm: Tm, end: Tm)
    requires ValidTm(tm) && ValidTm(end)
  {
    && 10000 <= tm.year <= 99990
    && if over == [] then tm == NextStart(u, end)
       else
         var mid := over[|over| - 1].to;
         && ValidTm(mid) && mid == LastMoment(u, mid) && mid.year < 99990
         && tm == NextStart(u, mid) && Splits(u, over, NextStart(u, end), mid)
  }

  lemma OverrunStep(u: Unit, over: seq<Slice>, tm: Tm, end: Tm)
    requires ValidTm(tm) && ValidTm(end) && Overrun(u, over, tm, end) && tm.year < 99990
    ensures Overrun(u, over + [Slice(tm, LastMoment(u, tm))], NextStart(u, tm), end)
  {
    var slice := Slice(tm, LastMoment(u, tm));
    LastMomentThenNext(u, tm);
    NextStartYear(u, tm);
    if over == [] {
      FirstSlice(u, slice);
      assert over + [slice] == [slice];
    } else {
      var mid := over[|over| - 1].to;
      LastMomentThenNext(u, mid);
      NextSlice(u, over, NextStart(u, end), mid, slice);
    }
  }

  /** Whole units from the one after `end` to the last one that starts before the year 99990. */
  ghost predicate SplitsOverrun(u: Unit, over: seq<Slice>, end: Tm)
    requires ValidTm(end)
  {
    && over != []
    && var mid := over[|over| - 1].to;
       && ValidTm(mid) && mid == LastMoment(u, mid) && mid.year < 99990 <= NextStart(u, mid).year
       && Splits(u, over, NextStart(u, end), mid)
  }

  /** Where the loops stand: on the way to the end, or past it. */
  ghost predicate Stands(u: Unit, slices: seq<Slice>, over: seq<Slice>, start: Tm, tm: Tm, end: Tm)
    requires ValidTm(start) && ValidTm(tm) && ValidTm(end)
  {
    if tm.year < 10000 then over == [] && FourDigits(tm.year) && Progress(u, slices, start, tm, end)
    else
      && end.year >= 9999 && !FourDigits(NextStart(u, end).year) && Seconds(start) <= Seconds(end)
      && Splits(u, slices, start, end) && Overrun(u, over, tm, end)
  }

  /** The slice of one round: up to the end of the unit, or to `end` if that comes first. */
  ghost function RoundSlice(u: Unit, tm: Tm, end: Tm): (s: Slice)
    requires ValidTm(tm) && ValidTm(end)
  {
    var last := LastMoment(u, tm);
    Slice(tm, if tm.year < 10000 && Seconds(last) > Seconds(end) then end else last)
  }

  lemma RoundSliceOk(u: Unit, tm: Tm, end: Tm)
    requires ValidTm(tm) && ValidTm(end) && GoesOn(tm, end)
    ensures SliceOk(u, RoundSlice(u, tm, end))
    ensures NextStart(u, RoundSlice(u, tm, end).to) == NextStart(u, tm)
    ensures var next := NextStart(u, tm);
            tm.year < 10000 ==>
              if Seconds(next) <= Seconds(end) then Seconds(next) == Seconds(RoundSlice(u, tm, end).to) + 1
              else RoundSlice(u, tm, end).to == end
  {
    LastMomentThenNext(u, tm);
    if tm.year < 10000 {
      UnitEndsAtNextStart(u, tm, end);
      SecondsOrder(LastMoment(u, tm), end);
    }
    SameUnitSameNext(u, tm, RoundSlice(u, tm, end).to);
  }

  /** When a round on the way to the end leads into the year 10000, it was the one that covers the end. */
  lemma IntoTenThousand(u: Unit, tm: Tm, end: Tm)
    requires ValidTm(tm) && ValidTm(end) && FourDigits(end.year) && tm.year < 10000 && Seconds(tm) <= Seconds(end)
    requires NextStart(u, tm).year >= 10000
    ensures Seconds(NextStart(u, tm)) > Seconds(end) && end.year >= 9999 && NextStart(u, tm).year <= 10000
  {
    NextStartYear(u, tm);
    SecondsOrder(end, NextStart(u, tm));
    SecondsOrder(end, tm);
  }

  /** A round on the way to the end adds its slice. */
  lemma ProgressRound(u: Unit, slices: seq<Slice>, start: Tm, tm: Tm, end: Tm)
    requires ValidTm(start) && ValidTm(tm) && ValidTm(end)
    requires Progress(u, slices, start, tm, end) && Seconds(tm) <= Seconds(end) && tm.year < 10000
    ensures Progress(u, slices + [RoundSlice(u, tm, end)], start, NextStart(u, tm), end)
  {
    RoundSliceOk(u, tm, end);
    ProgressStep(u, slices, start, tm, RoundSlice(u, tm, end), NextStart(u, tm), end);
  }

  /** The first start after the end may be in the year 10000. */
  lemma ProgressPast(u: Unit, slices: seq<Slice>, start: Tm, tm: Tm, end: Tm)
    requires ValidTm(start) && ValidTm(tm) && ValidTm(end) && end.year >= 9999 && 10000 <= tm.year <= 99990
    requires slices != [] && Progress(u, slices, start, tm, end) && Seconds(tm) > Seconds(end)
    ensures Stands(u, slices, [], start, tm, end)
  {
    ProgressDone(u, slices, start, tm, end);
  }

  lemma StandsStep(u: Unit, slices: seq<Slice>, start: Tm, tm: Tm, end: Tm)
    requires ValidTm(start) && ValidTm(tm) && ValidTm(end) && FourDigits(end.year)
    requires Stands(u, slices, [], start, tm, end) && GoesOn(tm, end) && tm.year < 10000
    ensures Stands(u, slices + [RoundSlice(u, tm, end)], [], start, NextStart(u, tm), end)
  {
    ProgressRound(u, slices, start, tm, end);
    NextStartYear(u, tm);
    if NextStart(u, tm).year >= 10000 {
      IntoTenThousand(u, tm, end);
      ProgressPast(u, slices + [RoundSlice(u, tm, end)], start, NextStart(u, tm), end);
    }
  }

  /** One round: its slice goes to the split of the interval, or to the overrun. */
  lemma RoundStands(u: Unit, slices: seq<Slice>, over: seq<Slice>, start: Tm, tm: Tm, end: Tm)
    returns (slices': seq<Slice>, over': seq<Slice>)
    requires ValidTm(start) && ValidTm(tm) && ValidTm(end) && FourDigits(end.year)
    requires Stands(u, slices, over, start, tm, end) && GoesOn(tm, end)
    ensures Stands(u, slices', over', start, NextStart(u, tm), end)
    ensures slices' + over' == slices + over + [RoundSlice(u, tm, end)]
  {
    slices', over' := slices, over;
    if tm.year < 10000 {
      StandsStep(u, slices, start, tm, end);
      slices' := slices + [RoundSlice(u, tm, end)];
    } else {
      OverrunStep(u, over, tm, end);
      over' := over + [RoundSlice(u, tm, end)];
    }
  }

  /** What the loops have done when they stop. */
  lemma StandsDone(u: Unit, slices: seq<Slice>, over: seq<Slice>, start: Tm, tm: Tm, end: Tm)
    requires ValidTm(start) && ValidTm(tm) && ValidTm(end) && FourDigits(end.year)
    requires Stands(u, slices, over, start, tm, end) && !GoesOn(tm, end)
    ensures Seconds(start) > Seconds(end) ==> slices == [] && over == []
    ensures Seconds(start) <= Seconds(end) ==> Splits(u, slices, start, end)
    ensures over == [] <==> Seconds(start) > Seconds(end) || FourDigits(NextStart(u, end).year)
    ensures over != [] ==> SplitsOverrun(u, over, end)
  {
    if tm.year < 10000 {
      ProgressDone(u, slices, start, tm, end);
    }
  }

  /** The seconds that `__next_day` adds; `__end_of_day` adds one less. */
  function UntilMidnight(t: Tm): (d: int)
    requires ValidTm(t)
    ensures d == 86400 - TimeOfDay(t)
  {
    (23 - t.hour) * 3600 + (59 - t.min) * 60 + (60 - t.sec)
  }

  /** localtime_r: the one valid time with these seconds. */
  method Localtime(time: int, ghost expected: Tm) returns (t: Tm)
    requires ValidTm(expected) && Seconds(expected) == time
    ensures t == expected
  {
    FromSecondsInverse(expected);
    t := FromSeconds(time);
  }

  class Date {
    var tm: Tm

    constructor (tm: Tm)
      ensures this.tm == tm
    {
      this.tm := tm;
    }

    /** __next_day */
    method NextDay()
      requires ValidTm(tm)
      modifies this
      ensures tm == NextStart(Day, old(tm))
    {
      NextDayNumber(tm);
      var time := Seconds(tm) + UntilMidnight(tm);
      tm := Localtime(time, NextStart(Day, tm));
    }

    /** __next_month */
    method NextMonth()
      requires ValidTm(tm)
      modifies this
      ensures tm == NextStart(Month, old(tm))
    {
      var carry, mon := (tm.mon + 1) / 12, (tm.mon + 1) % 12;
      assert if tm.mon == 11 then carry == 1 && mon == 0 else carry == 0 && mon == tm.mon + 1;
      tm := tm.(year := tm.year + carry, mon := mon);
      tm := tm.(mday := 1, hour := 0, min := 0, sec := 0);
      var time := Seconds(tm);
      tm := Localtime(time, tm);
      tm := tm.(hour := 0);
    }

    /** __next_year */
    method NextYear()
      requires ValidTm(tm)
      modifies this
      ensures tm == NextStart(Year, old(tm))
    {
      tm := Tm(tm.year + 1, 0, 1, 0, 0, 0);
      var time := Seconds(tm);
      tm := Localtime(time, tm);
    }

    method Next(u: Unit)
      requires ValidTm(tm)
      modifies this
      ensures tm == NextStart(u, old(tm))
    {
      match u {
        case Day => NextDay();
        case Month => NextMonth();
        case Year => NextYear();
      }
    }

    /** __end_of_day, __end_of_month and __end_of_year */
    method EndOf(u: Unit)
      requires ValidTm(tm)
      modifies this
      ensures tm == LastMoment(u, old(tm))
    {
      ghost var last := LastMoment(u, tm);
      LastMomentThenNext(u, tm);
      if u.Day? {
        NextDayNumber(tm);
        var time := Seconds(tm) + UntilMidnight(tm) - 1;
        tm := Localtime(time, last);
      } else {
        Next(u);
        var time := Seconds(tm);
        time := time - 1;
        tm := Localtime(time, last);
      }
    }

    /** __cmp: the order in time against an end in years of four digits. */
    method Cmp(target: string) returns (r: int)
      requires ValidTm(tm)
      ensures r == CmpTo(tm, target)
      ensures FourDigits(tm.year) ==>
                forall end :: ValidTm(end) && FourDigits(end.year) && Format(end) <= target ==> Orders(r, tm, end)
    {
      var str := Format(tm);
      r := StrNCmp(str, target, |str|);
      assert r == CmpTo(tm, target);
      if FourDigits(tm.year) {
        CmpOrders(tm, target);
      }
    }

    /** The loops' test. */
    method Test(target: string, ghost end: Tm) returns (c: int)
      requires ValidTm(tm) && ValidTm(end) && FourDigits(end.year) && Ends(target, end)
      requires FourDigits(tm.year) || (10000 <= tm.year < 100000 && end.year >= 9999)
      ensures c <= 0 <==> GoesOn(tm, end)
    {
      CmpDecides(tm, target, end);
      c := Cmp(target);
    }

    /** One round of the loops: from the date to the end of its unit, or to `end` if that comes first. */
    method Round(u: Unit, target: string, ghost end: Tm) returns (call: Call)
      requires ValidTm(tm) && ValidTm(end) && FourDigits(end.year) && Ends(target, end)
      requires FourDigits(tm.year) || (10000 <= tm.year < 100000 && end.year >= 9999)
      requires GoesOn(tm, end)
      modifies this
      ensures tm == NextStart(u, old(tm))
      ensures ShowsOne(u, call, RoundSlice(u, old(tm), end), target)
    {
      ghost var last := LastMoment(u, tm);
      LastMomentThenNext(u, tm);
      var s := Format(tm);
      EndOf(u);
      var e := Format(tm);
      var c := Test(target, end);
      if c > 0 {
        e := target;
      }
      call := Call(s, e);
      Next(u);
    }

    /** A round with its account. */
    method Advance(u: Unit, target: string, ghost end: Tm, ghost start: Tm,
                   calls: seq<Call>, ghost slices: seq<Slice>, ghost over: seq<Slice>)
      returns (calls': seq<Call>, ghost slices': seq<Slice>, ghost over': seq<Slice>)
      requires ValidTm(tm) && ValidTm(start) && ValidTm(end) && FourDigits(end.year) && Ends(target, end)
      requires Stands(u, slices, over, start, tm, end) && GoesOn(tm, end) && Shows(u, calls, slices + over, target)
      modifies this
      ensures tm == NextStart(u, old(tm))
      ensures Stands(u, slices', over', start, tm, end) && Shows(u, calls', slices' + over', target)
    {
      slices', over' := RoundStands(u, slices, over, start, tm, end);
      ghost var slice := RoundSlice(u, tm, end);
      var call := Round(u, target, end);
      ShowsStep(u, calls, slices + over, target, call, slice);
      calls' := calls + [call];
    }

    /**
     __for_each_day, __for_each_month and __for_each_year: hands the callback one slice per unit
     touched by the interval from the date to `end`, and nothing else exactly if the unit after
     `end` starts before the year 10000. Otherwise the strings no longer compare as the times do,
     and the callback is also given every unit from there to the last one before the year 99990.
     */
    method ForEach(u: Unit, target: string, ghost end: Tm)
      returns (calls: seq<Call>, ghost slices: seq<Slice>, ghost over: seq<Slice>)
      requires ValidTm(tm) && FourDigits(tm.year)
      requires ValidTm(end) && FourDigits(end.year) && Ends(target, end)
      modifies this
      ensures Shows(u, calls, slices + over, target)
      ensures Seconds(old(tm)) > Seconds(end) ==> slices == [] && over == []
      ensures Seconds(old(tm)) <= Seconds(end) ==> Splits(u, slices, old(tm), end)
      ensures over == [] <==> Seconds(old(tm)) > Seconds(end) || FourDigits(NextStart(u, end).year)
      ensures over != [] ==> SplitsOverrun(u, over, end)
    {
      calls, slices, over := [], [], [];
      ghost var start := tm;
      var c := Test(target, end);
      while c <= 0
        invariant ValidTm(tm) && Stands(u, slices, over, start, tm, end)
        invariant c <= 0 <==> GoesOn(tm, end)
        invariant Shows(u, calls, slices + over, target)
        decreases 99990 - tm.year, 12 - tm.mon, 32 - tm.mday
      {
        NextStartLater(u, tm);
        calls, slices, over := Advance(u, target, end, start, calls, slices, over);
        c := Test(target, end);
      }
      StandsDone(u, slices, over, start, tm, end);
    }
  }

  /**
   The loop's test at the first start after `end` stops it exactly while that start has a year of
   four digits: the year 10000 sorts below every end in 9999.
   */
  lemma StopTestNeedsFourDigits(u: Unit, target: string, end: Tm)
    requires ValidTm(end) && FourDigits(end.year) && Ends(target, end)
    ensures CmpTo(NextStart(u, end), target) > 0 <==> FourDigits(NextStart(u, end).year)
  {
    NextStartYear(u, end);
    UnitEndsAtNextStart(u, end, end);
    CmpDecides(NextStart(u, end), target, end);
  }

  /** Splitting up to noon of the last day of 9999 by days is such a case. */
  lemma LastNoonOverruns()
    ensures var noon := Tm(9999, 11, 31, 12, 0, 0);
            ValidTm(noon) && CmpTo(NextStart(Day, noon), Format(noon)) <= 0
  {
    var noon := Tm(9999, 11, 31, 12, 0, 0);
    StopTestNeedsFourDigits(Day, Format(noon), noon);
  }
}
