/** Expiry of payment challenges: a comparison of rendered UTC times as text. */
module Clock {
  import Numerals

  datatype Stamp = Stamp(year: nat, month: nat, day: nat, hour: nat, minute: nat, second: nat)

  predicate IsLeap(y: nat) {
    y % 4 == 0 && (y % 100 != 0 || y % 400 == 0)
  }

  function YearLength(y: nat): nat {
    if IsLeap(y) then 366 else 365
  }

  function MonthLength(y: nat, m: nat): nat {
    if m == 2 then (if IsLeap(y) then 29 else 28)
    else if m == 4 || m == 6 || m == 9 || m == 11 then 30
    else 31
  }

  function DaysBeforeYear(y: nat): nat {
    if y <= 1970 then 0 else DaysBeforeYear(y - 1) + YearLength(y - 1)
  }

  function DaysBeforeMonth(y: nat, m: nat): nat {
    if m <= 1 then 0 else DaysBeforeMonth(y, m - 1) + MonthLength(y, m - 1)
  }

  predicate Valid(s: Stamp) {
    && s.year >= 1970 && 1 <= s.month <= 12 && 1 <= s.day <= MonthLength(s.year, s.month)
    && s.hour < 24 && s.minute < 60 && s.second < 60
  }

  function DayNumber(s: Stamp): nat
    requires s.day > 0
  {
    DaysBeforeYear(s.year) + DaysBeforeMonth(s.year, s.month) + s.day - 1
  }

  /** Seconds since the epoch. */
  function Unix(s: Stamp): nat
    requires s.day > 0
  {
    ((DayNumber(s) * 24 + s.hour) * 60 + s.minute) * 60 + s.second
  }

  /** The Gregorian calendar in closed form: days before a year, and before each month. */
  lemma {:induction false} YearStart(y: nat)
    requires y >= 1970
    ensures DaysBeforeYear(y) == 365 * (y - 1970) + ((y - 1) / 4 - 492) - ((y - 1) / 100 - 19) + ((y - 1) / 400 - 4)
  {
    if y > 1970 {
      YearStart(y - 1);
      LeapStep(y - 1);
    }
  }

  lemma LeapStep(y: nat)
    requires y >= 1
    ensures y / 4 == (y - 1) / 4 + (if y % 4 == 0 then 1 else 0)
    ensures y / 100 == (y - 1) / 100 + (if y % 100 == 0 then 1 else 0)
    ensures y / 400 == (y - 1) / 400 + (if y % 400 == 0 then 1 else 0)
    ensures y % 400 == 0 ==> y % 100 == 0
    ensures y % 100 == 0 ==> y % 4 == 0
  {
  }

  lemma MonthStart(y: nat, m: nat)
    requires 1 <= m <= 12
    ensures DaysBeforeMonth(y, m) ==
            [0, 31, 59, 90, 120, 151, 181, 212, 243, 273, 304, 334][m - 1] + (if m > 2 && IsLeap(y) then 1 else 0)
  {
    MonthChain(y);
  }

  lemma MonthChain(y: nat)
    ensures var leap := if IsLeap(y) then 1 else 0;
            && DaysBeforeMonth(y, 1) == 0 && DaysBeforeMonth(y, 2) == 31 && DaysBeforeMonth(y, 3) == 59 + leap
            && DaysBeforeMonth(y, 4) == 90 + leap && DaysBeforeMonth(y, 5) == 120 + leap && DaysBeforeMonth(y, 6) == 151 + leap
            && DaysBeforeMonth(y, 7) == 181 + leap && DaysBeforeMonth(y, 8) == 212 + leap && DaysBeforeMonth(y, 9) == 243 + leap
            && DaysBeforeMonth(y, 10) == 273 + leap && DaysBeforeMonth(y, 11) == 304 + leap && DaysBeforeMonth(y, 12) == 334 + leap
  {
    assert DaysBeforeMonth(y, 3) == DaysBeforeMonth(y, 2) + MonthLength(y, 2);
    assert DaysBeforeMonth(y, 5) == DaysBeforeMonth(y, 4) + MonthLength(y, 4);
    assert DaysBeforeMonth(y, 7) == DaysBeforeMonth(y, 6) + MonthLength(y, 6);
    assert DaysBeforeMonth(y, 9) == DaysBeforeMonth(y, 8) + MonthLength(y, 8);
    assert DaysBeforeMonth(y, 11) == DaysBeforeMonth(y, 10) + MonthLength(y, 10);
  }

  // ------------------------------------------------------------ gmtime

  /** The year that contains the day `days` days after 1 January of year y, and the days left over. */
  function YearOf(y: nat, days: nat): (nat, nat)
    decreases days
  {
    if days < YearLength(y) then (y, days) else YearOf(y + 1, days - YearLength(y))
  }

  function MonthOf(y: nat, m: nat, days: nat): (nat, nat)
    decreases days
  {
    if days < MonthLength(y, m) then (m, days) else MonthOf(y, m + 1, days - MonthLength(y, m))
  }

  /** `time.gmtime` on whole seconds. */
  function GmTime(n: nat): Stamp {
    var (year, dayOfYear) := YearOf(1970, n / 86400);
    var (month, day) := MonthOf(year, 1, dayOfYear);
    Stamp(year, month, day + 1, n % 86400 / 3600, n % 3600 / 60, n % 60)
  }

  lemma {:induction false} YearOfIsRight(y: nat, days: nat)
    requires y >= 1970
    ensures var (year, rest) := YearOf(y, days);
            && year >= y && rest < YearLength(year)
            && DaysBeforeYear(year) + rest == DaysBeforeYear(y) + days
    decreases days
  {
    if days >= YearLength(y) {
      YearOfIsRight(y + 1, days - YearLength(y));
    }
  }

  lemma {:induction false} MonthOfIsRight(y: nat, m: nat, days: nat)
    requires 1 <= m <= 12 && DaysBeforeMonth(y, m) + days < YearLength(y)
    ensures var (month, rest) := MonthOf(y, m, days);
            && m <= month <= 12 && rest < MonthLength(y, month)
            && DaysBeforeMonth(y, month) + rest == DaysBeforeMonth(y, m) + days
    decreases days
  {
    MonthsOfYear(y);
    if days >= MonthLength(y, m) {
      MonthOfIsRight(y, m + 1, days - MonthLength(y, m));
    }
  }

  lemma MonthsOfYear(y: nat)
    ensures DaysBeforeMonth(y, 12) + MonthLength(y, 12) == YearLength(y)
  {
    assert DaysBeforeMonth(y, 2) == 31;
    assert DaysBeforeMonth(y, 4) == DaysBeforeMonth(y, 2) + MonthLength(y, 2) + 31;
    assert DaysBeforeMonth(y, 6) == DaysBeforeMonth(y, 4) + 61;
    assert DaysBeforeMonth(y, 8) == DaysBeforeMonth(y, 6) + 61;
    assert DaysBeforeMonth(y, 10) == DaysBeforeMonth(y, 8) + 61;
    assert DaysBeforeMonth(y, 12) == DaysBeforeMonth(y, 10) + 61;
  }

  lemma Remainder(n: nat, k: nat, q: nat, r: nat)
    requires k > 0 && n == k * q + r && r < k
    ensures n % k == r
  {
    Numerals.DivModUnique(q, k, r);
  }

  lemma SecondsOfDay(n: nat)
    ensures (((n / 86400) * 24 + n % 86400 / 3600) * 60 + n % 3600 / 60) * 60 + n % 60 == n
  {
    var d, t := n / 86400, n % 86400;
    var h, u := t / 3600, t % 3600;
    var m, v := u / 60, u % 60;
    assert n == 86400 * d + t && t == 3600 * h + u && u == 60 * m + v;
    Remainder(n, 3600, 24 * d + h, u);
    Remainder(n, 60, 24 * 60 * d + 60 * h + m, v);
  }

  /** `gmtime` is the inverse of counting seconds. */
  lemma GmTimeInverse(n: nat)
    ensures Valid(GmTime(n)) && Unix(GmTime(n)) == n
  {
    var (year, dayOfYear) := YearOf(1970, n / 86400);
    YearOfIsRight(1970, n / 86400);
    var (month, day) := MonthOf(year, 1, dayOfYear);
    MonthOfIsRight(year, 1, dayOfYear);
    var s := GmTime(n);
    assert s.year == year && s.month == month && s.day == day + 1;
    assert DayNumber(s) == n / 86400;
    SecondsOfDay(n);
  }

  // ------------------------------------------------------------ order

  predicate Earlier(s: Stamp, t: Stamp) {
    || s.year < t.year
    || (s.year == t.year &&
        (|| s.month < t.month
         || (s.month == t.month &&
             (|| s.day < t.day
              || (s.day == t.day &&
                  (|| s.hour < t.hour
                   || (s.hour == t.hour &&
                       (|| s.minute < t.minute
                        || (s.minute == t.minute && s.second < t.second)))))))))
  }

  lemma {:induction false} YearsMono(y: nat, z: nat)
    requires 1970 <= y < z
    ensures DaysBeforeYear(y) + YearLength(y) <= DaysBeforeYear(z)
  {
    if y + 1 < z {
      YearsMono(y, z - 1);
    }
  }

  lemma {:induction false} MonthsMono(y: nat, m: nat, k: nat)
    requires 1 <= m < k
    ensures DaysBeforeMonth(y, m) + MonthLength(y, m) <= DaysBeforeMonth(y, k)
  {
    if m + 1 < k {
      MonthsMono(y, m, k - 1);
    }
  }

  lemma DayInYear(s: Stamp)
    requires Valid(s)
    ensures DaysBeforeMonth(s.year, s.month) + s.day <= YearLength(s.year)
  {
    MonthsOfYear(s.year);
    if s.month < 12 {
      MonthsMono(s.year, s.month, 12);
    }
  }

  lemma EarlierIsLess(s: Stamp, t: Stamp)
    requires Valid(s) && Valid(t) && Earlier(s, t)
    ensures Unix(s) < Unix(t)
  {
    if s.year < t.year {
      DayInYear(s);
      YearsMono(s.year, t.year);
    } else if s.month < t.month {
      MonthsMono(s.year, s.month, t.month);
    }
  }

  /** The calendar order of two seconds is their order as numbers. */
  lemma GmTimeOrder(a: nat, b: nat)
    ensures Earlier(GmTime(a), GmTime(b)) <==> a < b
  {
    var s, t := GmTime(a), GmTime(b);
    GmTimeInverse(a);
    GmTimeInverse(b);
    if Earlier(s, t) {
      EarlierIsLess(s, t);
    } else if a < b {
      assert s != t;
      EarlierIsLess(t, s);
    }
  }

  // ------------------------------------------------------------ text

  /** Python's `<` on strings. */
  predicate TextLess(s: string, t: string) {
    if t == "" then false
    else if s == "" then true
    else s[0] < t[0] || (s[0] == t[0] && TextLess(s[1..], t[1..]))
  }

  lemma {:induction false} TextLessTransitive(s: string, t: string, u: string)
    requires TextLess(s, t) && !TextLess(u, t)
    ensures TextLess(s, u)
  {
    if s != "" && s[0] == t[0] && u[0] == t[0] {
      TextLessTransitive(s[1..], t[1..], u[1..]);
    }
  }

  lemma {:induction false} TextNotLessItself(s: string)
    ensures !TextLess(s, s)
  {
    if s != "" {
      TextNotLessItself(s[1..]);
    }
  }

  function TenTo(w: nat): nat {
    if w == 0 then 1 else 10 * TenTo(w - 1)
  }

  /** `n` in exactly `w` decimal digits. */
  function Fixed(n: nat, w: nat): (s: string)
    requires n < TenTo(w)
    ensures |s| == w
  {
    if w == 0 then "" else Fixed(n / 10, w - 1) + [(n % 10 + 48) as char]
  }

  /** The rendering `%Y-%m-%dT%H:%M:%SZ` of a four-digit year. */
  function Render(s: Stamp): string
    requires Valid(s) && s.year <= 9999
  {
    assert TenTo(2) == 100 && TenTo(4) == 10000;
    Fixed(s.year, 4) + ("-" + (Fixed(s.month, 2) + ("-" + (Fixed(s.day, 2) + ("T" +
      (Fixed(s.hour, 2) + (":" + (Fixed(s.minute, 2) + (":" + (Fixed(s.second, 2) + "Z"))))))))))
  }

  lemma {:induction false} TextLessAppend(a: string, b: string, x: string, y: string)
    requires |a| == |b|
    ensures TextLess(a + x, b + y) <==> TextLess(a, b) || (a == b && TextLess(x, y))
  {
    if a == "" {
      assert a + x == x && b + y == y;
    } else {
      assert (a + x)[1..] == a[1..] + x && (b + y)[1..] == b[1..] + y;
      TextLessAppend(a[1..], b[1..], x, y);
      assert a == [a[0]] + a[1..] && b == [b[0]] + b[1..];
    }
  }

  lemma {:induction false} FixedLess(m: nat, n: nat, w: nat)
    requires m < TenTo(w) && n < TenTo(w)
    ensures TextLess(Fixed(m, w), Fixed(n, w)) <==> m < n
    ensures Fixed(m, w) == Fixed(n, w) <==> m == n
  {
    if w > 0 {
      FixedLess(m / 10, n / 10, w - 1);
      var c, d := (m % 10 + 48) as char, (n % 10 + 48) as char;
      TextLessAppend(Fixed(m / 10, w - 1), Fixed(n / 10, w - 1), [c], [d]);
      assert TextLess([c], [d]) <==> c < d;
      assert Fixed(m, w)[..w - 1] == Fixed(m / 10, w - 1) && Fixed(n, w)[..w - 1] == Fixed(n / 10, w - 1);
      assert Fixed(m, w)[w - 1] == c && Fixed(n, w)[w - 1] == d;
    }
  }

  lemma FieldLess(m: nat, n: nat, w: nat, sep: char, x: string, y: string)
    requires m < TenTo(w) && n < TenTo(w)
    ensures TextLess(Fixed(m, w) + ([sep] + x), Fixed(n, w) + ([sep] + y)) <==> m < n || (m == n && TextLess(x, y))
  {
    TextLessAppend(Fixed(m, w), Fixed(n, w), [sep] + x, [sep] + y);
    TextLessAppend([sep], [sep], x, y);
    FixedLess(m, n, w);
  }

  /** On four-digit years the text order is the calendar order. */
  lemma RenderLess(s: Stamp, t: Stamp)
    requires Valid(s) && Valid(t) && s.year <= 9999 && t.year <= 9999
    ensures TextLess(Render(s), Render(t)) <==> Earlier(s, t)
  {
    assert TenTo(2) == 100 && TenTo(4) == 10000;
    var s6, t6 := Fixed(s.second, 2) + "Z", Fixed(t.second, 2) + "Z";
    var s5, t5 := Fixed(s.minute, 2) + (":" + s6), Fixed(t.minute, 2) + (":" + t6);
    var s4, t4 := Fixed(s.hour, 2) + (":" + s5), Fixed(t.hour, 2) + (":" + t5);
    var s3, t3 := Fixed(s.day, 2) + ("T" + s4), Fixed(t.day, 2) + ("T" + t4);
    var s2, t2 := Fixed(s.month, 2) + ("-" + s3), Fixed(t.month, 2) + ("-" + t3);
    TextLessAppend(Fixed(s.second, 2), Fixed(t.second, 2), "Z", "Z");
    FixedLess(s.second, t.second, 2);
    FieldLess(s.minute, t.minute, 2, ':', s6, t6);
    FieldLess(s.hour, t.hour, 2, ':', s5, t5);
    FieldLess(s.day, t.day, 2, 'T', s4, t4);
    FieldLess(s.month, t.month, 2, '-', s3, t3);
    FieldLess(s.year, t.year, 4, '-', s2, t2);
  }

  /** `s` is the number n in decimal digits. */
  ghost predicate Spells(s: string, n: nat) {
    && (forall i :: 0 <= i < |s| ==> '0' <= s[i] <= '9')
    && Numerals.Value(10, seq(|s|, i requires 0 <= i < |s| => if '0' <= s[i] then s[i] as int - '0' as int else 0)) == n
  }

  lemma {:induction false} FixedSpells(n: nat, w: nat)
    requires n < TenTo(w)
    ensures Spells(Fixed(n, w), n)
  {
    if w > 0 {
      FixedSpells(n / 10, w - 1);
      var s, t := Fixed(n, w), Fixed(n / 10, w - 1);
      var ds := seq(|s|, i requires 0 <= i < |s| => if '0' <= s[i] then s[i] as int - '0' as int else 0);
      assert ds[..|ds| - 1] == seq(|t|, i requires 0 <= i < |t| => if '0' <= t[i] then t[i] as int - '0' as int else 0);
      assert s[|s| - 1] as int == n % 10 + 48;
    }
  }

  /** A two-character field and what separates it from the rest. */
  lemma NextField(t: string, i: nat, f: string, c: char, rest: string)
    requires i <= |t| && t[i..] == f + ([c] + rest) && |f| == 2
    ensures i + 3 <= |t| && t[i..i + 2] == f && t[i + 2] == c && t[i + 3..] == rest
  {
    var u := t[i..];
    assert |u| == 3 + |rest| && u[..2] == f && u[2] == c && u[3..] == rest;
    assert t[i..i + 2] == u[..2] && t[i + 2] == u[2] && t[i + 3..] == u[3..];
  }

  /** The rendering, place by place. */
  lemma RenderLayout(s: Stamp)
    requires Valid(s) && s.year <= 9999
    ensures var t := Render(s);
            && |t| == 20 && t[4] == '-' && t[7] == '-' && t[10] == 'T' && t[13] == ':' && t[16] == ':' && t[19] == 'Z'
            && Spells(t[..4], s.year) && Spells(t[5..7], s.month) && Spells(t[8..10], s.day)
            && Spells(t[11..13], s.hour) && Spells(t[14..16], s.minute) && Spells(t[17..19], s.second)
  {
    assert TenTo(2) == 100 && TenTo(4) == 10000;
    FixedSpells(s.year, 4);
    FixedSpells(s.month, 2);
    FixedSpells(s.day, 2);
    FixedSpells(s.hour, 2);
    FixedSpells(s.minute, 2);
    FixedSpells(s.second, 2);
    var t6 := Fixed(s.second, 2) + "Z";
    var t5 := Fixed(s.minute, 2) + (":" + t6);
    var t4 := Fixed(s.hour, 2) + (":" + t5);
    var t3 := Fixed(s.day, 2) + ("T" + t4);
    var t2 := Fixed(s.month, 2) + ("-" + t3);
    YearFirst(Render(s), Fixed(s.year, 4), t2);
    NextField(Render(s), 5, Fixed(s.month, 2), '-', t3);
    NextField(Render(s), 8, Fixed(s.day, 2), 'T', t4);
    NextField(Render(s), 11, Fixed(s.hour, 2), ':', t5);
    NextField(Render(s), 14, Fixed(s.minute, 2), ':', t6);
    LastField(Render(s), Fixed(s.second, 2));
  }

  lemma YearFirst(t: string, y: string, rest: string)
    requires |y| == 4 && t == y + ("-" + rest)
    ensures |t| >= 5 && t[..4] == y && t[4] == '-' && t[5..] == rest
  {
  }

  lemma LastField(t: string, f: string)
    requires |t| >= 17 && |f| == 2 && t[17..] == f + "Z"
    ensures |t| == 20 && t[17..19] == f && t[19] == 'Z'
  {
    var u := t[17..];
    assert |u| == 3 && u[..2] == f && u[2] == 'Z';
    assert t[17..19] == u[..2] && t[19] == u[2];
  }

  /** The expiry test of `verify_x402_payment` on the stored text and the current time. */
  predicate IsExpired(expiresAt: string, now: string) {
    expiresAt != "" && TextLess(expiresAt, now)
  }

  lemma NotExpired(expiry: Stamp, now: Stamp)
    requires Valid(expiry) && Valid(now) && expiry.year <= 9999 && now.year <= 9999
    ensures IsExpired(Render(expiry), Render(now)) <==> Earlier(expiry, now)
  {
    RenderLess(expiry, now);
  }

  /** A challenge without an expiry never expires. */
  lemma NoExpiry(now: string)
    ensures !IsExpired("", now)
  {
  }

  predicate FourDigitYear(n: nat) {
    GmTime(n).year <= 9999
  }

  /** `time.strftime(..., time.gmtime(n))`. */
  function TimeText(n: nat): string
    requires FourDigitYear(n)
  {
    GmTimeInverse(n);
    Render(GmTime(n))
  }

  /** Stored times compare as text the way the seconds compare. */
  lemma TimeTextOrder(m: nat, n: nat)
    requires FourDigitYear(m) && FourDigitYear(n)
    ensures IsExpired(TimeText(m), TimeText(n)) <==> m < n
  {
    GmTimeInverse(m);
    GmTimeInverse(n);
    NotExpired(GmTime(m), GmTime(n));
    GmTimeOrder(m, n);
  }

  /** A challenge issued in second `issued` passes the test in second `now` exactly while
      now <= issued + ttl, up to the end of year 9999. */
  lemma ExpiryIsOnTime(issued: nat, ttl: int, now: nat)
    requires issued + ttl >= 0
    requires FourDigitYear(issued + ttl) && FourDigitYear(now)
    ensures !IsExpired(TimeText(issued + ttl), TimeText(now)) <==> now <= issued + ttl
  {
    TimeTextOrder(issued + ttl, now);
  }
}
