/** `datetime.isoformat()` for the publication timestamps the arXiv client
    returns, with the matching parser as its inverse. */
module IsoTime {
  import opened Wrappers

  /** A `datetime`; `utcOffset` is the whole-minute `utcoffset()`, `None`
      for a naive value. */
  datatype DateTime = DateTime(
    year: int, month: int, day: int,
    hour: int, minute: int, second: int, microsecond: int,
    utcOffset: Option<int>)

  predicate IsLeapYear(y: int)
  {
    y % 4 == 0 && (y % 100 != 0 || y % 400 == 0)
  }

  function DaysInMonth(y: int, m: int): int
  {
    if m == 2 then (if IsLeapYear(y) then 29 else 28)
    else if m == 4 || m == 6 || m == 9 || m == 11 then 30
    else 31
  }

  /** The ranges `datetime` enforces on construction, and `timedelta`'s bound
      on an offset (strictly within one day). */
  predicate Valid(t: DateTime)
  {
    && 1 <= t.year <= 9999
    && 1 <= t.month <= 12
    && 1 <= t.day <= DaysInMonth(t.year, t.month)
    && 0 <= t.hour < 24
    && 0 <= t.minute < 60
    && 0 <= t.second < 60
    && 0 <= t.microsecond < 1000000
    && (t.utcOffset.Some? ==> -1440 < t.utcOffset.value < 1440)
  }

  /** Every Python `datetime` object is within these ranges. */
  type Timestamp = t: DateTime | Valid(t) witness DateTime(1, 1, 1, 0, 0, 0, 0, None)

  predicate IsDigit(c: char)
  {
    '0' <= c <= '9'
  }

  /** The last decimal digit of `n`, as a character. */
  function Digit(n: int): (c: char)
    requires n >= 0
    ensures IsDigit(c)
  {
    ('0' as int + n % 10) as char
  }

  function DigitValue(c: char): int
  {
    c as int - '0' as int
  }

  /** The two-digit decimal field of `s` at `i`. */
  function Read2(s: string, i: nat): Option<int>
  {
    if i + 2 <= |s| && IsDigit(s[i]) && IsDigit(s[i + 1])
    then Some(10 * DigitValue(s[i]) + DigitValue(s[i + 1]))
    else None
  }

  /** The four-digit decimal field of `s` at `i`. */
  function Read4(s: string, i: nat): Option<int>
  {
    match (Read2(s, i), Read2(s, i + 2))
    case (Some(hi), Some(lo)) => Some(100 * hi + lo)
    case _ => None
  }

  /** The six-digit decimal field of `s` at `i`. */
  function Read6(s: string, i: nat): Option<int>
  {
    match (Read2(s, i), Read4(s, i + 2))
    case (Some(hi), Some(lo)) => Some(10000 * hi + lo)
    case _ => None
  }

  /** Character `i` of `"%04d-%02d-%02dT%02d:%02d:%02d"` for the date and
      time fields. */
  function HeadChar(t: Timestamp, i: int): char
  {
    if i == 0 then Digit(t.year / 1000) else if i == 1 then Digit(t.year / 100)
    else if i == 2 then Digit(t.year / 10) else if i == 3 then Digit(t.year)
    else if i == 4 then '-'
    else if i == 5 then Digit(t.month / 10) else if i == 6 then Digit(t.month)
    else if i == 7 then '-'
    else if i == 8 then Digit(t.day / 10) else if i == 9 then Digit(t.day)
    else if i == 10 then 'T'
    else if i == 11 then Digit(t.hour / 10) else if i == 12 then Digit(t.hour)
    else if i == 13 then ':'
    else if i == 14 then Digit(t.minute / 10) else if i == 15 then Digit(t.minute)
    else if i == 16 then ':'
    else if i == 17 then Digit(t.second / 10) else Digit(t.second)
  }

  /** The date and time fields as 19 characters. */
  function DateAndTime(t: Timestamp): (r: string)
    ensures |r| == 19
  {
    seq(19, i => HeadChar(t, i))
  }

  /** `".%06d"` of the microseconds, which appear only when non-zero. */
  function FractionPart(us: int): (r: string)
    requires 0 <= us < 1000000
    ensures |r| == if us == 0 then 0 else 7
  {
    if us == 0 then ""
    else ['.', Digit(us / 100000), Digit(us / 10000), Digit(us / 1000),
           Digit(us / 100), Digit(us / 10), Digit(us)]
  }

  /** `+HH:MM` or `-HH:MM`; nothing for a naive value. */
  function OffsetPart(off: Option<int>): (r: string)
    requires off.Some? ==> -1440 < off.value < 1440
    ensures |r| == if off.Some? then 6 else 0
  {
    match off
    case None => ""
    case Some(m) =>
      var a := if m < 0 then -m else m;
      [if m < 0 then '-' else '+', Digit(a / 60 / 10), Digit(a / 60), ':',
       Digit(a % 60 / 10), Digit(a % 60)]
  }

  /** `t.isoformat()`: `YYYY-MM-DDTHH:MM:SS[.ffffff][+HH:MM]`. */
  function IsoFormat(t: Timestamp): string
  {
    DateAndTime(t) + (FractionPart(t.microsecond) + OffsetPart(t.utcOffset))
  }

  function ParseFraction(rest: string): Option<int>
  {
    if rest == "" then Some(0)
    else if |rest| == 7 && rest[0] == '.' then Read6(rest, 1)
    else None
  }

  function ParseOffset(rest: string): Option<Option<int>>
  {
    if rest == "" then Some(None)
    else if |rest| == 6 && (rest[0] == '+' || rest[0] == '-') && rest[3] == ':'
         && Read2(rest, 1).Some? && Read2(rest, 4).Some? then
      var a := Read2(rest, 1).value * 60 + Read2(rest, 4).value;
      Some(Some(if rest[0] == '-' then -a else a))
    else None
  }

  /** Reads back the text `IsoFormat` writes; other text, or fields out of
      range, give `None`. */
  function ParseIso(s: string): Option<Timestamp>
  {
    if |s| < 19 || s[4] != '-' || s[7] != '-' || s[10] != 'T' || s[13] != ':' || s[16] != ':'
    then None
    else
      var y, mo, d := Read4(s, 0), Read2(s, 5), Read2(s, 8);
      var h, mi, se := Read2(s, 11), Read2(s, 14), Read2(s, 17);
      var tail := s[19..];
      var split := if |tail| >= 7 && tail[0] == '.' then 7 else 0;
      var us := ParseFraction(tail[..split]);
      var off := ParseOffset(tail[split..]);
      if y.None? || mo.None? || d.None? || h.None? || mi.None? || se.None? || us.None? || off.None?
      then None
      else
        var t := DateTime(y.value, mo.value, d.value, h.value, mi.value, se.value,
                          us.value, off.value);
        if Valid(t) && (split == 7 ==> t.microsecond != 0) then Some(t) else None
  }

  lemma Read2At(s: string, i: nat, n: int)
    requires 0 <= n < 100
    requires i + 2 <= |s| && s[i] == Digit(n / 10) && s[i + 1] == Digit(n)
    ensures Read2(s, i) == Some(n)
  {
  }

  lemma FourDigits(n: int)
    requires 0 <= n < 10000
    ensures n / 100 < 100 && n / 100 / 10 == n / 1000
    ensures n % 100 / 10 == n / 10 % 10 && n % 100 % 10 == n % 10
  {
    var q, r := n / 100, n % 100;
    assert n == 100 * q + r;
    assert n / 10 == 10 * q + r / 10;
  }

  lemma Read4At(s: string, i: nat, n: int)
    requires 0 <= n < 10000
    requires i + 4 <= |s|
    requires s[i] == Digit(n / 1000) && s[i + 1] == Digit(n / 100)
    requires s[i + 2] == Digit(n / 10) && s[i + 3] == Digit(n)
    ensures Read4(s, i) == Some(n)
  {
    FourDigits(n);
    Read2At(s, i, n / 100);
    assert Digit(n / 10) == Digit(n % 100 / 10) && Digit(n) == Digit(n % 100);
    Read2At(s, i + 2, n % 100);
  }

  /** Dropping `k` digits from `n = 10000 * q + r` (with `r` below 10000)
      keeps the low digits of `r` as the low digits of the result. */
  lemma DropDigits(n: int, q: int, r: int, p: int, c: int)
    requires 0 <= r < 10000 && 0 <= q && n == 10000 * q + r
    requires p > 0 && c > 0 && p * c == 10000
    ensures n / p == c * q + r / p
  {
    assert n == p * (c * q) + r;
  }

  lemma SixDigits(n: int)
    requires 0 <= n < 1000000
    ensures n / 10000 < 100 && n / 10000 / 10 == n / 100000
    ensures n % 10000 / 1000 % 10 == n / 1000 % 10
    ensures n % 10000 / 100 % 10 == n / 100 % 10
    ensures n % 10000 / 10 % 10 == n / 10 % 10
    ensures n % 10000 % 10 == n % 10
  {
    var q, r := n / 10000, n % 10000;
    DropDigits(n, q, r, 10, 1000);
    DropDigits(n, q, r, 100, 100);
    DropDigits(n, q, r, 1000, 10);
  }

  lemma Read6At(s: string, i: nat, n: int)
    requires 0 <= n < 1000000
    requires i + 6 <= |s|
    requires s[i] == Digit(n / 100000) && s[i + 1] == Digit(n / 10000)
    requires s[i + 2] == Digit(n / 1000) && s[i + 3] == Digit(n / 100)
    requires s[i + 4] == Digit(n / 10) && s[i + 5] == Digit(n)
    ensures Read6(s, i) == Some(n)
  {
    SixDigits(n);
    Read2At(s, i, n / 10000);
    var lo := n % 10000;
    FourDigits(lo);
    assert Digit(n / 1000) == Digit(lo / 1000);
    assert Digit(n / 100) == Digit(lo / 100);
    assert Digit(n / 10) == Digit(lo / 10);
    assert Digit(n) == Digit(lo);
    Read4At(s, i + 2, lo);
  }

  lemma OffsetRoundTrip(off: Option<int>)
    requires off.Some? ==> -1440 < off.value < 1440
    ensures ParseOffset(OffsetPart(off)) == Some(off)
  {
    if off.Some? {
      var m := off.value;
      var a := if m < 0 then -m else m;
      Read2At(OffsetPart(off), 1, a / 60);
      Read2At(OffsetPart(off), 4, a % 60);
    }
  }

  lemma FractionRoundTrip(us: int)
    requires 0 <= us < 1000000
    ensures ParseFraction(FractionPart(us)) == Some(us)
  {
    if us != 0 {
      Read6At(FractionPart(us), 1, us);
    }
  }

  lemma DateFields(t: Timestamp, s: string)
    requires |s| >= 19 && s[..19] == DateAndTime(t)
    ensures s[4] == '-' && s[7] == '-'
    ensures Read4(s, 0) == Some(t.year)
    ensures Read2(s, 5) == Some(t.month)
    ensures Read2(s, 8) == Some(t.day)
  {
    assert forall i :: 0 <= i < 19 ==> s[i] == HeadChar(t, i) by {
      forall i | 0 <= i < 19 ensures s[i] == HeadChar(t, i) {
        assert s[i] == s[..19][i];
      }
    }
    Read4At(s, 0, t.year);
    Read2At(s, 5, t.month);
    Read2At(s, 8, t.day);
  }

  lemma TimeFields(t: Timestamp, s: string)
    requires |s| >= 19 && s[..19] == DateAndTime(t)
    ensures s[10] == 'T' && s[13] == ':' && s[16] == ':'
    ensures Read2(s, 11) == Some(t.hour)
    ensures Read2(s, 14) == Some(t.minute)
    ensures Read2(s, 17) == Some(t.second)
  {
    assert forall i :: 0 <= i < 19 ==> s[i] == HeadChar(t, i) by {
      forall i | 0 <= i < 19 ensures s[i] == HeadChar(t, i) {
        assert s[i] == s[..19][i];
      }
    }
    Read2At(s, 11, t.hour);
    Read2At(s, 14, t.minute);
    Read2At(s, 17, t.second);
  }

  /** The fixed layout of the first 19 characters. */
  lemma HeadFields(t: Timestamp)
    ensures var s := IsoFormat(t);
      && |s| >= 19
      && s[4] == '-' && s[7] == '-' && s[10] == 'T' && s[13] == ':' && s[16] == ':'
      && Read4(s, 0) == Some(t.year)
      && Read2(s, 5) == Some(t.month)
      && Read2(s, 8) == Some(t.day)
      && Read2(s, 11) == Some(t.hour)
      && Read2(s, 14) == Some(t.minute)
      && Read2(s, 17) == Some(t.second)
      && s[19..] == FractionPart(t.microsecond) + OffsetPart(t.utcOffset)
  {
    var s := IsoFormat(t);
    assert s[..19] == DateAndTime(t);
    DateFields(t, s);
    TimeFields(t, s);
  }

  /** Round trip: parsing what `isoformat` wrote gives the timestamp back. */
  lemma ParseIsoFormat(t: Timestamp)
    ensures ParseIso(IsoFormat(t)) == Some(t)
  {
    var s := IsoFormat(t);
    HeadFields(t);
    FractionRoundTrip(t.microsecond);
    OffsetRoundTrip(t.utcOffset);
    var f, o := FractionPart(t.microsecond), OffsetPart(t.utcOffset);
    var tail := s[19..];
    assert tail == f + o;
    var split := if |tail| >= 7 && tail[0] == '.' then 7 else 0;
    assert split == |f| by {
      if |f| == 0 && |o| > 0 {
        assert tail[0] == o[0];
      }
    }
    assert tail[..split] == f && tail[split..] == o;
  }

  /** Distinct timestamps are written differently. */
  lemma IsoFormatInjective(t1: Timestamp, t2: Timestamp)
    requires IsoFormat(t1) == IsoFormat(t2)
    ensures t1 == t2
  {
    ParseIsoFormat(t1);
    ParseIsoFormat(t2);
  }

  /** Shape of the text: 19 characters of date and time, 7 more for
      non-zero microseconds, 6 more for an offset. */
  lemma IsoFormatLength(t: Timestamp)
    ensures |IsoFormat(t)|
         == 19 + (if t.microsecond != 0 then 7 else 0) + (if t.utcOffset.Some? then 6 else 0)
  {
  }
}
