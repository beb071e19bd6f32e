/** Calendar arithmetic and the timestamp format of the trust documents. */
module Calendar {
  import opened Common
  import opened Decimals

  datatype Date = Date(y: int, m: int, d: int)

  predicate Leap(y: int) {
    (y % 4 == 0 && y % 100 != 0) || y % 400 == 0
  }

  function MonthDays(y: int, m: int): int
    requires 1 <= m <= 12
  {
    if m == 2 then (if Leap(y) then 29 else 28)
    else if m == 4 || m == 6 || m == 9 || m == 11 then 30
    else 31
  }

  predicate ValidDate(x: Date) {
    1 <= x.m <= 12 && 1 <= x.d <= MonthDays(x.y, x.m)
  }

  /** The next day of the Gregorian calendar. */
  function NextDay(x: Date): (n: Date)
    requires ValidDate(x)
    ensures ValidDate(n)
  {
    if x.d < MonthDays(x.y, x.m) then Date(x.y, x.m, x.d + 1)
    else if x.m < 12 then Date(x.y, x.m + 1, 1)
    else Date(x.y + 1, 1, 1)
  }

  /** The date n days after 1970-01-01, one day at a time. */
  function DateAt(n: nat): (x: Date)
    ensures ValidDate(x)
  {
    if n == 0 then Date(1970, 1, 1) else NextDay(DateAt(n - 1))
  }

  /** Days since 1970-01-01, in closed form.  Division truncates in the source,
      which therefore shifts negative years first. */
  function DaysFromCivil(year: int, m: int, d: int): int
    requires 1 <= m <= 12
  {
    var y := if m <= 2 then year - 1 else year;
    var era := if y >= 0 then y / 400 else -((399 - y) / 400);
    var yoe := y - era * 400;
    var doy := (153 * (m + if m > 2 then -3 else 9) + 2) / 5 + d - 1;
    var doe := yoe * 365 + yoe / 4 - yoe / 100 + doy;
    era * 146097 + doe - 719468
  }

  function Days(x: Date): int
    requires ValidDate(x)
  {
    DaysFromCivil(x.y, x.m, x.d)
  }

  /** The closed form with floor division. */
  function MarchYear(y: int): int {
    365 * y + y / 4 - y / 100 + y / 400
  }

  lemma EraTerms(y: int)
    ensures var era := if y >= 0 then y / 400 else -((399 - y) / 400);
            var yoe := y - era * 400;
            0 <= yoe < 400 && era == y / 400 && era * 146097 + yoe * 365 + yoe / 4 - yoe / 100 == MarchYear(y)
  {
    var era := y / 400;
    var yoe := y % 400;
    assert y == 400 * era + yoe;
    assert y / 4 == 100 * era + yoe / 4;
    assert y / 100 == 4 * era + yoe / 100;
  }

  lemma DaysAsFloor(year: int, m: int, d: int)
    requires 1 <= m <= 12
    ensures DaysFromCivil(year, m, d)
         == MarchYear(if m <= 2 then year - 1 else year) + (153 * (m + if m > 2 then -3 else 9) + 2) / 5
            + d - 1 - 719468
  {
    EraTerms(if m <= 2 then year - 1 else year);
  }

  lemma MarchYearStep(y: int)
    ensures MarchYear(y) == MarchYear(y - 1) + if Leap(y) then 366 else 365
  {
    DivStep(y, 4);
    DivStep(y, 100);
    DivStep(y, 400);
    CenturyRules(y);
  }

  lemma CenturyRules(y: int)
    ensures y % 100 == 0 ==> y % 4 == 0
    ensures y % 400 == 0 ==> y % 100 == 0
  {
    if y % 100 == 0 {
      assert y == 4 * (25 * (y / 100));
    }
    if y % 400 == 0 {
      assert y == 100 * (4 * (y / 400));
    }
  }

  lemma DivStep(y: int, k: int)
    requires k == 4 || k == 100 || k == 400
    ensures y / k == (y - 1) / k + if y % k == 0 then 1 else 0
  {
  }

  /** Days before month m in a year that starts in March. */
  function MarchMonth(m: int): int {
    (153 * (m + if m > 2 then -3 else 9) + 2) / 5
  }

  lemma MonthSteps(y: int, m: int)
    requires 1 <= m <= 12
    ensures m < 12 && m != 2 ==> MarchMonth(m + 1) == MarchMonth(m) + MonthDays(y, m)
    ensures m == 2 ==> MarchMonth(3) == 0 && MarchMonth(2) == 337
    ensures m == 12 ==> MarchMonth(1) == MarchMonth(12) + 31
  {
    assert MarchMonth(1) == 306 && MarchMonth(2) == 337 && MarchMonth(3) == 0 && MarchMonth(4) == 31;
    assert MarchMonth(5) == 61 && MarchMonth(6) == 92 && MarchMonth(7) == 122 && MarchMonth(8) == 153;
    assert MarchMonth(9) == 184 && MarchMonth(10) == 214 && MarchMonth(11) == 245 && MarchMonth(12) == 275;
  }

  /** The closed form counts one more for each next day of the calendar, in every
      year, before or after the epoch. */
  lemma NextDayCounts(x: Date)
    requires ValidDate(x)
    ensures Days(NextDay(x)) == Days(x) + 1
  {
    hide MarchYear, MarchMonth, DaysFromCivil;
    var n := NextDay(x);
    MarchForm(x);
    MarchForm(n);
    MarchYearStep(x.y);
    MonthSteps(x.y, x.m);
  }

  lemma MarchForm(x: Date)
    requires ValidDate(x)
    ensures Days(x) == MarchYear(if x.m <= 2 then x.y - 1 else x.y) + MarchMonth(x.m) + x.d - 1 - 719468
  {
    DaysAsFloor(x.y, x.m, x.d);
  }

  predicate NotBeforeEpoch(x: Date) {
    x.y >= 1970
  }

  /** The previous day. */
  function PrevDay(x: Date): (p: Date)
    requires ValidDate(x)
    ensures ValidDate(p) && NextDay(p) == x
  {
    if x.d > 1 then Date(x.y, x.m, x.d - 1)
    else if x.m > 1 then Date(x.y, x.m - 1, MonthDays(x.y, x.m - 1))
    else Date(x.y - 1, 12, 31)
  }

  /** From 1970 on, the closed form is the number of calendar steps from the epoch. */
  lemma {:induction false} DaysCountsSteps(x: Date)
    requires ValidDate(x) && NotBeforeEpoch(x)
    ensures Days(x) >= 0 && DateAt(Days(x)) == x
    decreases x.y, x.m, x.d
  {
    if x == Date(1970, 1, 1) {
    } else {
      var p := PrevDay(x);
      DaysCountsSteps(p);
      NextDayCounts(p);
    }
  }

  predicate Earlier(a: Date, b: Date) {
    a.y < b.y || (a.y == b.y && (a.m < b.m || (a.m == b.m && a.d < b.d)))
  }

  /** Later dates have larger day numbers. */
  lemma {:induction false} DaysIncrease(a: Date, b: Date)
    requires ValidDate(a) && ValidDate(b) && Earlier(a, b) && NotBeforeEpoch(a)
    ensures Days(a) < Days(b)
    decreases b.y, b.m, b.d
  {
    var p := PrevDay(b);
    NextDayCounts(p);
    if p == a {
    } else {
      DaysIncrease(a, p);
    }
  }

  // ----- timestamps ------------------------------------------------------------------

  datatype Stamp = Stamp(date: Date, h: int, mi: int, s: int)

  predicate ValidClock(x: Stamp) {
    ValidDate(x.date) && 0 <= x.h <= 23 && 0 <= x.mi <= 59 && 0 <= x.s <= 59
  }

  /** The stamps of the trust documents. */
  predicate ValidStamp(x: Stamp) {
    ValidClock(x) && 2000 <= x.date.y <= 9999
  }

  /** The next second of the clock and the calendar. */
  function NextSecond(x: Stamp): (n: Stamp)
    requires ValidClock(x)
    ensures ValidClock(n)
  {
    if x.s < 59 then Stamp(x.date, x.h, x.mi, x.s + 1)
    else if x.mi < 59 then Stamp(x.date, x.h, x.mi + 1, 0)
    else if x.h < 23 then Stamp(x.date, x.h + 1, 0, 0)
    else Stamp(NextDay(x.date), 0, 0, 0)
  }

  /** The stamp n seconds after 1970-01-01T00:00:00Z, one second at a time. */
  function StampAt(n: nat): (x: Stamp)
    ensures ValidClock(x)
  {
    if n == 0 then Stamp(Date(1970, 1, 1), 0, 0, 0) else NextSecond(StampAt(n - 1))
  }

  /** Seconds since 1970-01-01T00:00:00Z, in closed form. */
  function Seconds(x: Stamp): int
    requires ValidClock(x)
  {
    Days(x.date) * 86400 + x.h * 3600 + x.mi * 60 + x.s
  }

  lemma NextSecondCounts(x: Stamp)
    requires ValidClock(x)
    ensures Seconds(NextSecond(x)) == Seconds(x) + 1
  {
    NextDayCounts(x.date);
    hide Days, NextDay;
  }

  lemma {:induction false} SecondsOfStep(n: nat)
    ensures Seconds(StampAt(n)) == n
  {
    if n == 0 {
      assert Days(Date(1970, 1, 1)) == 0;
    } else {
      SecondsOfStep(n - 1);
      NextSecondCounts(StampAt(n - 1));
    }
  }

  /** The previous second. */
  function PrevSecond(x: Stamp): (p: Stamp)
    requires ValidClock(x)
    ensures ValidClock(p) && NextSecond(p) == x
  {
    if x.s > 0 then Stamp(x.date, x.h, x.mi, x.s - 1)
    else if x.mi > 0 then Stamp(x.date, x.h, x.mi - 1, 59)
    else if x.h > 0 then Stamp(x.date, x.h - 1, 59, 59)
    else Stamp(PrevDay(x.date), 23, 59, 59)
  }

  /** From 1970 on, the closed form is the number of clock steps from the epoch. */
  lemma {:induction false} SecondsCountSteps(x: Stamp)
    requires ValidClock(x) && NotBeforeEpoch(x.date)
    ensures Seconds(x) >= 0 && StampAt(Seconds(x)) == x
    decreases x.date.y, x.date.m, x.date.d, x.h, x.mi, x.s
  {
    if x == Stamp(Date(1970, 1, 1), 0, 0, 0) {
      SecondsOfStep(0);
    } else {
      var p := PrevSecond(x);
      SecondsCountSteps(p);
      NextSecondCounts(p);
      hide Seconds, PrevSecond;
    }
  }

  /** 2000-01-01T00:00:00Z */
  lemma Millennium(n: nat)
    requires n == 946_684_800
    ensures StampAt(n) == Stamp(Date(2000, 1, 1), 0, 0, 0)
  {
    hide StampAt;
    assert Days(Date(2000, 1, 1)) == 10_957;
    SecondsCountSteps(Stamp(Date(2000, 1, 1), 0, 0, 0));
  }

  predicate EarlierStamp(a: Stamp, b: Stamp) {
    Earlier(a.date, b.date)
    || (a.date == b.date && a.h * 3600 + a.mi * 60 + a.s < b.h * 3600 + b.mi * 60 + b.s)
  }

  lemma SecondsIncrease(a: Stamp, b: Stamp)
    requires ValidStamp(a) && ValidStamp(b)
    ensures EarlierStamp(a, b) <==> Seconds(a) < Seconds(b)
    ensures Seconds(a) == Seconds(b) <==> a == b
  {
    hide Days;
    if Earlier(a.date, b.date) {
      DaysIncrease(a.date, b.date);
    } else if Earlier(b.date, a.date) {
      DaysIncrease(b.date, a.date);
    } else {
      assert a.date == b.date;
    }
  }

  function D1(n: int): char
    requires 0 <= n < 10
  {
    ('0' as int + n) as char
  }

  function D2(n: int): (t: string)
    requires 0 <= n < 100
    ensures |t| == 2
  {
    [D1(n / 10), D1(n % 10)]
  }

  function D4(n: int): (t: string)
    requires 0 <= n < 10000
    ensures |t| == 4
  {
    D2(n / 100) + D2(n % 100)
  }

  /** YYYY-MM-DDTHH:MM:SSZ */
  function FormatStamp(x: Stamp): (t: string)
    requires ValidStamp(x)
    ensures |t| == 20
  {
    D4(x.date.y) + "-" + D2(x.date.m) + "-" + D2(x.date.d) + "T" + D2(x.h) + ":" + D2(x.mi) + ":" + D2(x.s) + "Z"
  }

  /** A number in the digits s[pos..pos+len]. */
  method Num(s: string, pos: nat, len: nat) returns (ok: bool, v: nat)
    requires pos + len <= |s|
    ensures ok <==> AllDigits(s[pos..pos + len])
    ensures ok ==> v == Value(s[pos..pos + len])
  {
    v := 0;
    for i := pos to pos + len
      invariant AllDigits(s[pos..i]) && v == Value(s[pos..i])
    {
      if s[i] < '0' || s[i] > '9' {
        assert !IsDigit(s[pos..pos + len][i - pos]);
        return false, v;
      }
      assert s[pos..i + 1] == s[pos..i] + [s[i]];
      assert s[pos..i + 1][..i - pos] == s[pos..i];
      v := v * 10 + (s[i] as int - '0' as int);
    }
    ok := true;
  }

  lemma TwoDigits(s: string, n: int)
    requires |s| == 2 && 0 <= n < 100
    ensures AllDigits(s) && Value(s) == n <==> s == D2(n)
    ensures AllDigits(s) ==> 0 <= Value(s) < 100
  {
    if AllDigits(s) {
      assert s[..1][..0] == "" && s[..1][0] == s[0];
      assert Value(s[..1]) == Digit(s[0]);
      assert Value(s) == 10 * Digit(s[0]) + Digit(s[1]);
    }
  }

  lemma FourDigits(s: string, n: int)
    requires |s| == 4 && 0 <= n < 10000
    ensures AllDigits(s) && Value(s) == n <==> s == D4(n)
    ensures AllDigits(s) ==> 0 <= Value(s) < 10000
  {
    TwoDigits(s[..2], n / 100);
    TwoDigits(s[2..], n % 100);
    if AllDigits(s) {
      assert s[..3][..2] == s[..2] && s[..3][2] == s[2];
      assert Value(s) == 100 * Value(s[..2]) + Value(s[2..]) by {
        assert Value(s) == 10 * Value(s[..3]) + Digit(s[3]);
        assert Value(s[..3]) == 10 * Value(s[..2]) + Digit(s[2]);
        assert s[2..][..1][..0] == "" && Value(s[2..][..1]) == Digit(s[2]);
      }
    }
    assert s == s[..2] + s[2..];
    assert AllDigits(D4(n)) && D4(n)[..2] == D2(n / 100) && D4(n)[2..] == D2(n % 100);
  }

  predicate Punctuated(s: string) {
    |s| == 20 && s[4] == '-' && s[7] == '-' && s[10] == 'T' && s[13] == ':' && s[16] == ':' && s[19] == 'Z'
  }

  lemma StampPieces(s: string, x: Stamp)
    requires ValidStamp(x) && |s| == 20
    ensures s == FormatStamp(x) <==>
              Punctuated(s) && s[0..4] == D4(x.date.y) && s[5..7] == D2(x.date.m) && s[8..10] == D2(x.date.d)
              && s[11..13] == D2(x.h) && s[14..16] == D2(x.mi) && s[17..19] == D2(x.s)
  {
    var t := FormatStamp(x);
    assert t[0..4] == D4(x.date.y) && t[5..7] == D2(x.date.m) && t[8..10] == D2(x.date.d);
    assert t[11..13] == D2(x.h) && t[14..16] == D2(x.mi) && t[17..19] == D2(x.s);
    if Punctuated(s) && s[0..4] == t[0..4] && s[5..7] == t[5..7] && s[8..10] == t[8..10]
       && s[11..13] == t[11..13] && s[14..16] == t[14..16] && s[17..19] == t[17..19] {
      assert s == s[0..4] + "-" + s[5..7] + "-" + s[8..10] + "T" + s[11..13] + ":" + s[14..16] + ":" + s[17..19] + "Z";
    }
  }

  predicate DigitPieces(s: string)
    requires |s| == 20
  {
    AllDigits(s[0..4]) && AllDigits(s[5..7]) && AllDigits(s[8..10]) && AllDigits(s[11..13]) && AllDigits(s[14..16])
    && AllDigits(s[17..19])
  }

  function StampOf(s: string): Stamp
    requires |s| == 20 && DigitPieces(s)
  {
    Stamp(Date(Value(s[0..4]), Value(s[5..7]), Value(s[8..10])), Value(s[11..13]), Value(s[14..16]), Value(s[17..19]))
  }

  /** The only stamp a text can be the format of is the one its digits spell. */
  lemma OnlyStamp(s: string, x: Stamp)
    requires ValidStamp(x) && Punctuated(s)
    ensures s == FormatStamp(x) <==> DigitPieces(s) && StampOf(s) == x
  {
    StampPieces(s, x);
    FourDigits(s[0..4], x.date.y);
    TwoDigits(s[5..7], x.date.m);
    TwoDigits(s[8..10], x.date.d);
    TwoDigits(s[11..13], x.h);
    TwoDigits(s[14..16], x.mi);
    TwoDigits(s[17..19], x.s);
  }

  const MONTH_MAX: seq<int> := [31, 29, 31, 30, 31, 30, 31, 31, 30, 31, 30, 31]

  lemma WhichStamp(s: string)
    ensures !Punctuated(s) ==> forall x | ValidStamp(x) :: s != FormatStamp(x)
    ensures Punctuated(s) ==> forall x | ValidStamp(x) :: s == FormatStamp(x) <==> DigitPieces(s) && StampOf(s) == x
    ensures Punctuated(s) && DigitPieces(s) ==> 0 <= StampOf(s).date.y < 10000
  {
    forall x | ValidStamp(x)
      ensures !Punctuated(s) ==> s != FormatStamp(x)
      ensures Punctuated(s) ==> (s == FormatStamp(x) <==> DigitPieces(s) && StampOf(s) == x)
    {
      if Punctuated(s) {
        OnlyStamp(s, x);
      } else if |s| == 20 {
        StampPieces(s, x);
      }
    }
    if Punctuated(s) {
      FourDigits(s[0..4], 0);
    }
  }

  method ParseTime(s: string) returns (ok: bool, out: int, ghost stamp: Stamp)
    ensures ok ==> ValidStamp(stamp) && s == FormatStamp(stamp)
    ensures ok ==> out >= 0 && StampAt(out) == stamp
    ensures !ok ==> forall x | ValidStamp(x) :: s != FormatStamp(x)
  {
    hide FormatStamp, Value, AllDigits, StampAt;
    WhichStamp(s);
    ok, stamp, out := false, Stamp(Date(0, 0, 0), 0, 0, 0), 0;
    if |s| != 20 || s[4] != '-' || s[7] != '-' || s[10] != 'T' || s[13] != ':' || s[16] != ':' || s[19] != 'Z' {
      return;
    }
    var f1, y := Num(s, 0, 4);
    var f2, mo := Num(s, 5, 2);
    var f3, d := Num(s, 8, 2);
    var f4, h := Num(s, 11, 2);
    var f5, mi := Num(s, 14, 2);
    var f6, se := Num(s, 17, 2);
    if !f1 || !f2 || !f3 || !f4 || !f5 || !f6 {
      return;
    }
    ghost var x := StampOf(s);
    assert x == Stamp(Date(y, mo, d), h, mi, se);
    if y < 2000 || mo < 1 || mo > 12 || d < 1 || d > MONTH_MAX[mo - 1] || h > 23 || mi > 59 || se > 59 {
      assert !ValidStamp(x);
      return;
    }
    if mo == 2 && d == 29 && !((y % 4 == 0 && y % 100 != 0) || y % 400 == 0) {
      assert !ValidStamp(x);
      return;
    }
    assert ValidStamp(x);
    ok, out, stamp := true, DaysFromCivil(y, mo, d) * 86400 + h * 3600 + mi * 60 + se, x;
    SecondsCountSteps(x);
  }

  // ----- order ---------------------------------------------------------------------------

  lemma StrConcat(a: string, b: string, u: string, v: string)
    requires |a| == |b|
    ensures StrLess(a + u, b + v) <==> StrLess(a, b) || (a == b && StrLess(u, v))
  {
    LexConcat(a, b, u, v, CharLess);
  }

  lemma Lex2(a: int, b: int)
    requires 0 <= a < 100 && 0 <= b < 100
    ensures StrLess(D2(a), D2(b)) <==> a < b
    ensures D2(a) == D2(b) <==> a == b
  {
    var s, t := D2(a), D2(b);
    assert s == [s[0]] + [s[1]] && t == [t[0]] + [t[1]];
    LexOne(s[0], t[0], CharLess);
    LexOne(s[1], t[1], CharLess);
    StrConcat([s[0]], [t[0]], [s[1]], [t[1]]);
  }

  lemma Lex4(a: int, b: int)
    requires 0 <= a < 10000 && 0 <= b < 10000
    ensures StrLess(D4(a), D4(b)) <==> a < b
    ensures D4(a) == D4(b) <==> a == b
  {
    hide StrLess;
    Lex2(a / 100, b / 100);
    Lex2(a % 100, b % 100);
    StrConcat(D2(a / 100), D2(b / 100), D2(a % 100), D2(b % 100));
    assert D4(a)[..2] == D2(a / 100) && D4(b)[..2] == D2(b / 100) && D4(a)[2..] == D2(a % 100)
            && D4(b)[2..] == D2(b % 100);
  }

  lemma LexMark(u: string, v: string, mark: char)
    requires |u| == |v|
    ensures StrLess([mark] + u, [mark] + v) <==> StrLess(u, v)
  {
    LexOne(mark, mark, CharLess);
    assert !StrLess([mark], [mark]);
    hide StrLess;
    StrConcat([mark], [mark], u, v);
  }

  /** "HH:MM:SSZ" compares like the second of the day. */
  lemma LexTime(a: Stamp, b: Stamp)
    requires ValidStamp(a) && ValidStamp(b)
    ensures StrLess(D2(a.h) + ([':'] + (D2(a.mi) + ([':'] + (D2(a.s) + "Z")))),
                    D2(b.h) + ([':'] + (D2(b.mi) + ([':'] + (D2(b.s) + "Z")))))
       <==> a.h * 3600 + a.mi * 60 + a.s < b.h * 3600 + b.mi * 60 + b.s
  {
    LexOne('Z', 'Z', CharLess);
    assert !StrLess(['Z'], ['Z']) && "Z" == ['Z'];
    hide StrLess;
    Lex2(a.h, b.h);
    Lex2(a.mi, b.mi);
    Lex2(a.s, b.s);
    StrConcat(D2(a.s), D2(b.s), "Z", "Z");
    LexMark(D2(a.s) + "Z", D2(b.s) + "Z", ':');
    StrConcat(D2(a.mi), D2(b.mi), [':'] + (D2(a.s) + "Z"), [':'] + (D2(b.s) + "Z"));
    LexMark(D2(a.mi) + ([':'] + (D2(a.s) + "Z")), D2(b.mi) + ([':'] + (D2(b.s) + "Z")), ':');
    StrConcat(D2(a.h), D2(b.h), [':'] + (D2(a.mi) + ([':'] + (D2(a.s) + "Z"))),
              [':'] + (D2(b.mi) + ([':'] + (D2(b.s) + "Z"))));
  }

  function TimeText(x: Stamp): string
    requires ValidStamp(x)
  {
    D2(x.h) + ([':'] + (D2(x.mi) + ([':'] + (D2(x.s) + "Z"))))
  }

  /** The order of accepted timestamps as text is their order in time. */
  lemma TextOrderIsTimeOrder(a: Stamp, b: Stamp)
    requires ValidStamp(a) && ValidStamp(b)
    ensures StrLess(FormatStamp(a), FormatStamp(b)) <==> Seconds(a) < Seconds(b)
  {
    hide Seconds, D2, D4, StrLess;
    var t, u := TimeText(a), TimeText(b);
    var da, db := D2(a.date.d) + (['T'] + t), D2(b.date.d) + (['T'] + u);
    var ma, mb := D2(a.date.m) + (['-'] + da), D2(b.date.m) + (['-'] + db);
    assert FormatStamp(a) == D4(a.date.y) + (['-'] + ma) && FormatStamp(b) == D4(b.date.y) + (['-'] + mb);
    LexTime(a, b);
    Lex2(a.date.d, b.date.d);
    Lex2(a.date.m, b.date.m);
    Lex4(a.date.y, b.date.y);
    LexMark(t, u, 'T');
    StrConcat(D2(a.date.d), D2(b.date.d), ['T'] + t, ['T'] + u);
    LexMark(da, db, '-');
    StrConcat(D2(a.date.m), D2(b.date.m), ['-'] + da, ['-'] + db);
    LexMark(ma, mb, '-');
    StrConcat(D4(a.date.y), D4(b.date.y), ['-'] + ma, ['-'] + mb);
    SecondsIncrease(a, b);
  }
}
