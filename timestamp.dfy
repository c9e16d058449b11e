/** The timestamp of an access-log line: the leftmost match of the pattern
    `\[(\d{2}/\w{3}/\d{4}:\d{2}:\d{2}:\d{2}) [^\]]+\]`, its date-time group read with
    the layout `02/Jan/2006:15:04:05` as a UTC civil time (the zone field is discarded),
    and that time as signed 64-bit nanoseconds since the Unix epoch. A line without a
    match, or whose date-time is out of range, has timestamp 0. */
module Timestamp {
  import opened Wrappers
  import opened Scan

  // ---------------------------------------------------------------------------
  // The bracketed stamp

  /** The character class of position `k` of the date-time group, whose shape is
      `dd/www/dddd:dd:dd:dd`: `d` a decimal digit, `w` a word character, any other
      character stands for itself. */
  function LayoutAt(k: int): char {
    if k == 2 || k == 6 then '/'
    else if 3 <= k <= 5 then 'w'
    else if k == 11 || k == 14 || k == 17 then ':'
    else 'd'
  }

  /** The word characters of the pattern language: ASCII letters, digits and `_`. */
  predicate IsWordChar(c: char) {
    IsDigit(c) || 'a' <= c <= 'z' || 'A' <= c <= 'Z' || c == '_'
  }

  predicate Fits(p: char, c: char) {
    if p == 'd' then IsDigit(c) else if p == 'w' then IsWordChar(c) else c == p
  }

  /** `g` has the shape of the date-time group. */
  predicate FitsLayout(g: string) {
    |g| == 20 && forall k :: 0 <= k < |g| ==> Fits(LayoutAt(k), g[k])
  }

  /** A match: the captured date-time group and the zone text after it. */
  datatype StampMatch = StampMatch(stamp: string, zone: string)

  /** The text a match covers, brackets included. */
  function Bracketed(m: StampMatch): string {
    "[" + m.stamp + " " + m.zone + "]"
  }

  /** The pattern matches at position `i` of `s`: a bracket, a date-time group, a
      space, a non-empty zone without a closing bracket, and the closing bracket. */
  predicate Matches(s: string, i: nat, m: StampMatch) {
    && FitsLayout(m.stamp)
    && m.zone != [] && ']' !in m.zone
    && At(s, i, Bracketed(m))
  }

  /** The scanner for one start position: twenty characters of fixed shape, a space,
      and the maximal run of characters other than `]`, which must be closed by `]`. */
  function StampAt(s: string, i: nat): (r: Option<StampMatch>)
    ensures r.Some? ==> FitsLayout(r.value.stamp)
  {
    if i + 22 <= |s| && s[i] == '[' && FitsLayout(s[i + 1..i + 21]) && s[i + 21] == ' ' then
      var e := SpanTo(s, i + 22, ']');
      if i + 22 < e < |s| then Some(StampMatch(s[i + 1..i + 21], s[i + 22..e])) else None
    else None
  }

  /** The leftmost match in the line, with its start position. */
  function FindStamp(s: string): Option<(nat, StampMatch)> {
    FirstFrom(s, 0, StampAt)
  }

  lemma BracketedAt(s: string, i: nat, m: StampMatch)
    ensures
      var e := i + 22 + |m.zone|;
      |m.stamp| == 20 ==>
        (At(s, i, Bracketed(m)) <==>
          && i < |s| && s[i] == '[' && At(s, i + 1, m.stamp) && i + 21 < |s| && s[i + 21] == ' '
          && At(s, i + 22, m.zone) && e < |s| && s[e] == ']')
  {
    var t1 := "[" + m.stamp;
    var t2 := t1 + " ";
    var t3 := t2 + m.zone;
    AtConcat(s, i, t3, "]");
    AtConcat(s, i, t2, m.zone);
    AtConcat(s, i, t1, " ");
    AtConcat(s, i, "[", m.stamp);
    AtChar(s, i, '[');
    AtChar(s, i + 1 + |m.stamp|, ' ');
    AtChar(s, i + 22 + |m.zone|, ']');
  }

  /** The scanner finds exactly the matches the pattern defines. */
  lemma StampAtIff(s: string, i: nat, m: StampMatch)
    ensures StampAt(s, i) == Some(m) <==> Matches(s, i, m)
  {
    if StampAt(s, i) == Some(m) {
      var e := SpanTo(s, i + 22, ']');
      assert m == StampMatch(s[i + 1..i + 21], s[i + 22..e]);
      AvoidsChar(s, i + 22, e, ']');
      AtSlice(s, i + 1, m.stamp);
      AtSlice(s, i + 22, m.zone);
      BracketedAt(s, i, m);
      assert i < |s| && s[i] == '[' && At(s, i + 1, m.stamp) && s[i + 21] == ' ';
      assert At(s, i + 22, m.zone) && s[i + 22 + |m.zone|] == ']';
      assert At(s, i, Bracketed(m));
    }
    if Matches(s, i, m) {
      var e := i + 22 + |m.zone|;
      BracketedAt(s, i, m);
      AtSlice(s, i + 1, m.stamp);
      AtSlice(s, i + 22, m.zone);
      assert s[i + 22..e] == m.zone;
      forall t | i + 22 <= t < e ensures s[t] != ']' {
        assert s[t] == s[i + 22..e][t - i - 22];
      }
      SpanToUnique(s, i + 22, ']', e);
    }
  }

  /** `FindStamp` reports the leftmost match. */
  lemma FindStampIsLeftmost(s: string, k: nat, m: StampMatch)
    ensures FindStamp(s) == Some((k, m)) <==>
              Matches(s, k, m) && forall j: nat, m': StampMatch :: j < k ==> !Matches(s, j, m')
  {
    FirstFromIsLeftmost(s, 0, StampAt);
    StampAtIff(s, k, m);
    if FindStamp(s) == Some((k, m)) {
      forall j: nat, m': StampMatch | j < k ensures !Matches(s, j, m') {
        StampAtIff(s, j, m');
      }
    }
    if Matches(s, k, m) && forall j: nat, m': StampMatch :: j < k ==> !Matches(s, j, m') {
      forall j | 0 <= j < k ensures StampAt(s, j).None? {
        if StampAt(s, j).Some? {
          StampAtIff(s, j, StampAt(s, j).value);
        }
      }
      assert FindStamp(s).Some?;
    }
  }

  /** `FindStamp` fails exactly when the line holds no bracketed stamp at all. */
  lemma FindStampNoneIff(s: string)
    ensures FindStamp(s).None? <==> forall j: nat, m: StampMatch :: !Matches(s, j, m)
  {
    FirstFromIsLeftmost(s, 0, StampAt);
    if FindStamp(s).None? {
      forall j: nat, m: StampMatch ensures !Matches(s, j, m) {
        StampAtIff(s, j, m);
      }
    } else {
      var (k, m) := FindStamp(s).value;
      StampAtIff(s, k, m);
    }
  }

  // ---------------------------------------------------------------------------
  // The civil date-time of the group

  /** A civil date and time, read as UTC. */
  datatype DateTime = DateTime(year: int, month: int, day: int, hour: int, minute: int, second: int)

  /** The month abbreviations of the layout's `Jan`, in calendar order. */
  const ShortMonths: seq<string> :=
    ["Jan", "Feb", "Mar", "Apr", "May", "Jun", "Jul", "Aug", "Sep", "Oct", "Nov", "Dec"]

  function Lower(c: char): char {
    if 'A' <= c <= 'Z' then (c as int + 32) as char else c
  }

  /** Equality up to the case of ASCII letters, as month names are compared. */
  predicate EqualFold(a: string, b: string)
    decreases |a|
  {
    |a| == |b| && (a == [] || (Lower(a[0]) == Lower(b[0]) && EqualFold(a[1..], b[1..])))
  }

  /** Equality up to case is agreement at every index up to case. */
  lemma {:induction false} EqualFoldIndex(a: string, b: string)
    ensures EqualFold(a, b) <==> |a| == |b| && forall k :: 0 <= k < |a| ==> Lower(a[k]) == Lower(b[k])
    decreases |a|
  {
    if a != [] && |a| == |b| {
      EqualFoldIndex(a[1..], b[1..]);
      if forall k :: 0 <= k < |a| ==> Lower(a[k]) == Lower(b[k]) {
        forall k | 0 <= k < |a[1..]| ensures Lower(a[1..][k]) == Lower(b[1..][k]) {
          assert a[1..][k] == a[k + 1] && b[1..][k] == b[k + 1];
        }
      }
      if EqualFold(a, b) {
        forall k | 0 <= k < |a| ensures Lower(a[k]) == Lower(b[k]) {
          if k > 0 {
            assert a[1..][k - 1] == a[k] && b[1..][k - 1] == b[k];
          }
        }
      }
    }
  }

  /** Two texts equal up to case to the same text are equal up to case. */
  lemma EqualFoldVia(w: string, x: string, y: string)
    requires EqualFold(w, x) && EqualFold(w, y)
    ensures EqualFold(x, y)
  {
    EqualFoldIndex(w, x);
    EqualFoldIndex(w, y);
    EqualFoldIndex(x, y);
  }

  /** No two month names are equal up to case. */
  lemma MonthNamesDistinct()
    ensures forall a, b :: 0 <= a < 12 && 0 <= b < 12 && EqualFold(ShortMonths[a], ShortMonths[b]) ==> a == b
  {
    forall a, b | 0 <= a < 12 && 0 <= b < 12 && a != b ensures !EqualFold(ShortMonths[a], ShortMonths[b]) {
      var x, y := ShortMonths[a], ShortMonths[b];
      EqualFoldIndex(x, y);
      assert Lower(x[0]) != Lower(y[0]) || Lower(x[1]) != Lower(y[1]) || Lower(x[2]) != Lower(y[2]);
    }
  }

  /** The month a name stands for, compared without regard to case, trying the
      months from `k` on in calendar order. */
  function MonthFrom(w: string, k: nat): (m: Option<int>)
    requires k <= 12
    ensures m.Some? ==> k < m.value <= 12 && EqualFold(w, ShortMonths[m.value - 1])
    decreases 12 - k
  {
    if k == 12 then None
    else if EqualFold(w, ShortMonths[k]) then Some(k + 1)
    else MonthFrom(w, k + 1)
  }

  /** A name not found from `k` on matches none of the months from `k` on. */
  lemma {:induction false} MonthFromNone(w: string, k: nat)
    requires k <= 12 && MonthFrom(w, k).None?
    ensures forall j :: k <= j < 12 ==> !EqualFold(w, ShortMonths[j])
    decreases 12 - k
  {
    if k < 12 {
      MonthFromNone(w, k + 1);
    }
  }

  function MonthOf(w: string): Option<int> {
    MonthFrom(w, 0)
  }

  /** Each month's own name, in any case, is looked up as that month. */
  lemma MonthOfName(w: string, k: int)
    requires 1 <= k <= 12 && EqualFold(w, ShortMonths[k - 1])
    ensures MonthOf(w) == Some(k)
  {
    var m := MonthOf(w);
    if m.None? {
      MonthFromNone(w, 0);
    } else {
      MonthNamesDistinct();
      EqualFoldVia(w, ShortMonths[m.value - 1], ShortMonths[k - 1]);
    }
  }

  predicate IsLeap(y: int) {
    y % 4 == 0 && (y % 100 != 0 || y % 400 == 0)
  }

  function DaysIn(m: int, y: int): nat
    requires 1 <= m <= 12
  {
    if m == 2 then (if IsLeap(y) then 29 else 28)
    else if m == 4 || m == 6 || m == 9 || m == 11 then 30
    else 31
  }

  /** The ranges the layout accepts: a four-digit year, a month, a day that exists
      in that month of that year, and a time of day without leap seconds. */
  predicate Valid(dt: DateTime) {
    && 0 <= dt.year <= 9999
    && 1 <= dt.month <= 12
    && 1 <= dt.day <= DaysIn(dt.month, dt.year)
    && 0 <= dt.hour < 24 && 0 <= dt.minute < 60 && 0 <= dt.second < 60
  }

  /** The layout's fields are digits where the group's are. */
  lemma LayoutDigits(g: string)
    requires FitsLayout(g)
    ensures IsDigit(g[0]) && IsDigit(g[1])
    ensures IsDigit(g[7]) && IsDigit(g[8]) && IsDigit(g[9]) && IsDigit(g[10])
    ensures IsDigit(g[12]) && IsDigit(g[13]) && IsDigit(g[15]) && IsDigit(g[16])
    ensures IsDigit(g[18]) && IsDigit(g[19])
  {
    assert Fits(LayoutAt(0), g[0]) && Fits(LayoutAt(1), g[1]);
    assert Fits(LayoutAt(7), g[7]) && Fits(LayoutAt(8), g[8]) && Fits(LayoutAt(9), g[9]) && Fits(LayoutAt(10), g[10]);
    assert Fits(LayoutAt(12), g[12]) && Fits(LayoutAt(13), g[13]) && Fits(LayoutAt(15), g[15]) && Fits(LayoutAt(16), g[16]);
    assert Fits(LayoutAt(18), g[18]) && Fits(LayoutAt(19), g[19]);
  }

  function Two(g: string, k: nat): (n: nat)
    requires k + 1 < |g| && IsDigit(g[k]) && IsDigit(g[k + 1])
    ensures n < 100
  {
    10 * DigitValue(g[k]) + DigitValue(g[k + 1])
  }

  /** The range checks of the layout on the fields it has read: the month must be a
      known name, the day must exist in that month of that year, and the time of day
      must not exceed 23:59:59. */
  function Assemble(year: nat, month: Option<int>, day: nat, hour: nat, minute: nat, second: nat): (r: Option<DateTime>)
    requires year <= 9999 && (month.Some? ==> 1 <= month.value <= 12)
    ensures r.Some? ==> Valid(r.value)
  {
    match month
    case None => None
    case Some(m) =>
      if hour < 24 && minute < 60 && second < 60 && 1 <= day <= DaysIn(m, year)
      then Some(DateTime(year, m, day, hour, minute, second))
      else None
  }

  /** A valid date-time passes the range checks unchanged. */
  lemma AssembleValid(dt: DateTime)
    requires Valid(dt)
    ensures Assemble(dt.year, Some(dt.month), dt.day, dt.hour, dt.minute, dt.second) == Some(dt)
  {
  }

  /** The layout `02/Jan/2006:15:04:05` applied to a group of the pattern's shape:
      two-digit day, case-insensitive month name, four-digit year and two-digit hour,
      minute and second, rejected when any field is out of range. */
  function ParseStamp(g: string): (r: Option<DateTime>)
    requires FitsLayout(g)
    ensures r.Some? ==> Valid(r.value)
  {
    LayoutDigits(g);
    Assemble(100 * Two(g, 7) + Two(g, 9), MonthOf(g[3..6]), Two(g, 0), Two(g, 12), Two(g, 15), Two(g, 18))
  }

  lemma TwoOfDigits(g: string, k: nat, n: nat)
    requires n < 100 && k + 1 < |g| && g[k] == DigitChar(n / 10) && g[k + 1] == DigitChar(n % 10)
    ensures Two(g, k) == n
  {
  }

  /** A date-time written in the layout, the month name as the layout spells it. */
  function FormatStamp(dt: DateTime): (g: string)
    requires Valid(dt)
  {
    var y := dt.year;
    var name := ShortMonths[dt.month - 1];
    [ DigitChar(dt.day / 10), DigitChar(dt.day % 10), '/',
      name[0], name[1], name[2], '/',
      DigitChar(y / 100 / 10), DigitChar(y / 100 % 10), DigitChar(y % 100 / 10), DigitChar(y % 100 % 10), ':',
      DigitChar(dt.hour / 10), DigitChar(dt.hour % 10), ':',
      DigitChar(dt.minute / 10), DigitChar(dt.minute % 10), ':',
      DigitChar(dt.second / 10), DigitChar(dt.second % 10) ]
  }

  lemma FormattedFits(dt: DateTime)
    requires Valid(dt)
    ensures FitsLayout(FormatStamp(dt))
  {
    var g := FormatStamp(dt);
    var name := ShortMonths[dt.month - 1];
    assert IsWordChar(name[0]) && IsWordChar(name[1]) && IsWordChar(name[2]);
    forall k | 0 <= k < 20 ensures Fits(LayoutAt(k), g[k]) {
    }
  }

  lemma FormattedMonth(dt: DateTime)
    requires Valid(dt)
    ensures |FormatStamp(dt)| == 20 && MonthOf(FormatStamp(dt)[3..6]) == Some(dt.month)
  {
    var g := FormatStamp(dt);
    assert g[3..6] == ShortMonths[dt.month - 1];
    MonthOfName(g[3..6], dt.month);
  }

  lemma FormattedFields(dt: DateTime)
    requires Valid(dt)
    ensures var g := FormatStamp(dt);
      && |g| == 20
      && IsDigit(g[0]) && IsDigit(g[1]) && IsDigit(g[7]) && IsDigit(g[8]) && IsDigit(g[9]) && IsDigit(g[10])
      && IsDigit(g[12]) && IsDigit(g[13]) && IsDigit(g[15]) && IsDigit(g[16]) && IsDigit(g[18]) && IsDigit(g[19])
      && Two(g, 0) == dt.day && 100 * Two(g, 7) + Two(g, 9) == dt.year
      && Two(g, 12) == dt.hour && Two(g, 15) == dt.minute && Two(g, 18) == dt.second
  {
    var g := FormatStamp(dt);
    TwoOfDigits(g, 0, dt.day);
    TwoOfDigits(g, 7, dt.year / 100);
    TwoOfDigits(g, 9, dt.year % 100);
    TwoOfDigits(g, 12, dt.hour);
    TwoOfDigits(g, 15, dt.minute);
    TwoOfDigits(g, 18, dt.second);
  }

  /** `ParseStamp` in terms of the values of the group's fields. */
  lemma ParseStampFields(g: string, dt: DateTime)
    requires FitsLayout(g)
    requires IsDigit(g[0]) && IsDigit(g[1]) && IsDigit(g[7]) && IsDigit(g[8]) && IsDigit(g[9]) && IsDigit(g[10])
    requires IsDigit(g[12]) && IsDigit(g[13]) && IsDigit(g[15]) && IsDigit(g[16]) && IsDigit(g[18]) && IsDigit(g[19])
    requires Two(g, 0) == dt.day && 100 * Two(g, 7) + Two(g, 9) == dt.year
    requires Two(g, 12) == dt.hour && Two(g, 15) == dt.minute && Two(g, 18) == dt.second
    requires Valid(dt) && MonthOf(g[3..6]) == Some(dt.month)
    ensures ParseStamp(g) == Some(dt)
  {
    assert ParseStamp(g) == Assemble(dt.year, Some(dt.month), dt.day, dt.hour, dt.minute, dt.second);
    AssembleValid(dt);
  }

  /** Every valid date-time is read back from its own layout text. */
  lemma ParseFormatted(dt: DateTime)
    requires Valid(dt)
    ensures FitsLayout(FormatStamp(dt)) && ParseStamp(FormatStamp(dt)) == Some(dt)
  {
    FormattedFits(dt);
    FormattedMonth(dt);
    FormattedFields(dt);
    ParseStampFields(FormatStamp(dt), dt);
  }

  /** The fields of what `ParseStamp` accepts are those of the group. */
  lemma ParsedFields(g: string)
    requires FitsLayout(g) && ParseStamp(g).Some?
    ensures var dt := ParseStamp(g).value;
      && IsDigit(g[0]) && IsDigit(g[1]) && IsDigit(g[7]) && IsDigit(g[8]) && IsDigit(g[9]) && IsDigit(g[10])
      && IsDigit(g[12]) && IsDigit(g[13]) && IsDigit(g[15]) && IsDigit(g[16]) && IsDigit(g[18]) && IsDigit(g[19])
      && Two(g, 0) == dt.day && Two(g, 7) == dt.year / 100 && Two(g, 9) == dt.year % 100
      && Two(g, 12) == dt.hour && Two(g, 15) == dt.minute && Two(g, 18) == dt.second
      && Valid(dt) && EqualFold(g[3..6], ShortMonths[dt.month - 1])
  {
    LayoutDigits(g);
  }

  lemma DigitsOfTwo(g: string, f: string, k: nat, n: nat)
    requires k + 1 < |g| && k + 1 < |f| && IsDigit(g[k]) && IsDigit(g[k + 1]) && Two(g, k) == n
    requires f[k] == DigitChar(n / 10) && f[k + 1] == DigitChar(n % 10)
    ensures f[k] == g[k] && f[k + 1] == g[k + 1]
  {
    DigitCharOfValue(g[k]);
    DigitCharOfValue(g[k + 1]);
  }

  /** A group whose digits are those of `dt` is `FormatStamp(dt)` up to letter case. */
  lemma FormatMatchesFields(g: string, dt: DateTime)
    requires FitsLayout(g) && Valid(dt)
    requires IsDigit(g[0]) && IsDigit(g[1]) && IsDigit(g[7]) && IsDigit(g[8]) && IsDigit(g[9]) && IsDigit(g[10])
    requires IsDigit(g[12]) && IsDigit(g[13]) && IsDigit(g[15]) && IsDigit(g[16]) && IsDigit(g[18]) && IsDigit(g[19])
    requires Two(g, 0) == dt.day && Two(g, 7) == dt.year / 100 && Two(g, 9) == dt.year % 100
    requires Two(g, 12) == dt.hour && Two(g, 15) == dt.minute && Two(g, 18) == dt.second
    requires EqualFold(g[3..6], ShortMonths[dt.month - 1])
    ensures EqualFold(FormatStamp(dt), g)
  {
    FoldAgrees(g, dt, FormatStamp(dt));
    EqualFoldIndex(FormatStamp(dt), g);
  }

  lemma FoldAgrees(g: string, dt: DateTime, f: string)
    requires FitsLayout(g) && Valid(dt) && f == FormatStamp(dt)
    requires IsDigit(g[0]) && IsDigit(g[1]) && IsDigit(g[7]) && IsDigit(g[8]) && IsDigit(g[9]) && IsDigit(g[10])
    requires IsDigit(g[12]) && IsDigit(g[13]) && IsDigit(g[15]) && IsDigit(g[16]) && IsDigit(g[18]) && IsDigit(g[19])
    requires Two(g, 0) == dt.day && Two(g, 7) == dt.year / 100 && Two(g, 9) == dt.year % 100
    requires Two(g, 12) == dt.hour && Two(g, 15) == dt.minute && Two(g, 18) == dt.second
    requires EqualFold(g[3..6], ShortMonths[dt.month - 1])
    ensures |f| == |g| && forall k :: 0 <= k < |f| ==> Lower(f[k]) == Lower(g[k])
  {
    FormatDigitsAgree(g, dt, f);
    FormatSeparatorsAgree(g, dt, f);
    FormatMonthAgrees(g, dt, f);
    forall k | 0 <= k < 20 ensures Lower(f[k]) == Lower(g[k]) {
      if k == 3 || k == 4 || k == 5 {
      } else {
        assert f[k] == g[k];
      }
    }
  }

  /** The digits of `FormatStamp(dt)` are those of a group with the same fields. */
  lemma FormatDigitsAgree(g: string, dt: DateTime, f: string)
    requires |g| == 20 && Valid(dt) && f == FormatStamp(dt)
    requires IsDigit(g[0]) && IsDigit(g[1]) && IsDigit(g[7]) && IsDigit(g[8]) && IsDigit(g[9]) && IsDigit(g[10])
    requires IsDigit(g[12]) && IsDigit(g[13]) && IsDigit(g[15]) && IsDigit(g[16]) && IsDigit(g[18]) && IsDigit(g[19])
    requires Two(g, 0) == dt.day && Two(g, 7) == dt.year / 100 && Two(g, 9) == dt.year % 100
    requires Two(g, 12) == dt.hour && Two(g, 15) == dt.minute && Two(g, 18) == dt.second
    ensures f[0] == g[0] && f[1] == g[1] && f[7] == g[7] && f[8] == g[8] && f[9] == g[9] && f[10] == g[10]
    ensures f[12] == g[12] && f[13] == g[13] && f[15] == g[15] && f[16] == g[16] && f[18] == g[18] && f[19] == g[19]
  {
    DigitsOfTwo(g, f, 0, dt.day);
    DigitsOfTwo(g, f, 7, dt.year / 100);
    DigitsOfTwo(g, f, 9, dt.year % 100);
    DigitsOfTwo(g, f, 12, dt.hour);
    DigitsOfTwo(g, f, 15, dt.minute);
    DigitsOfTwo(g, f, 18, dt.second);
  }

  /** The separators of `FormatStamp(dt)` are those every group has. */
  lemma FormatSeparatorsAgree(g: string, dt: DateTime, f: string)
    requires FitsLayout(g) && Valid(dt) && f == FormatStamp(dt)
    ensures f[2] == g[2] && f[6] == g[6] && f[11] == g[11] && f[14] == g[14] && f[17] == g[17]
  {
    assert Fits(LayoutAt(2), g[2]) && Fits(LayoutAt(6), g[6]);
    assert Fits(LayoutAt(11), g[11]) && Fits(LayoutAt(14), g[14]) && Fits(LayoutAt(17), g[17]);
  }

  /** The month letters of `FormatStamp(dt)` are those of a group naming the same
      month, up to case. */
  lemma FormatMonthAgrees(g: string, dt: DateTime, f: string)
    requires |g| == 20 && Valid(dt) && f == FormatStamp(dt)
    requires EqualFold(g[3..6], ShortMonths[dt.month - 1])
    ensures Lower(f[3]) == Lower(g[3]) && Lower(f[4]) == Lower(g[4]) && Lower(f[5]) == Lower(g[5])
  {
    var name := ShortMonths[dt.month - 1];
    var w := g[3..6];
    EqualFoldIndex(w, name);
    assert f[3] == name[0] && f[4] == name[1] && f[5] == name[2];
    assert w[0] == g[3] && w[1] == g[4] && w[2] == g[5];
  }

  /** What the layout accepts is a valid date-time, written as `FormatStamp` writes
      it up to the case of the month name. */
  lemma ParsedIsFormatted(g: string)
    requires FitsLayout(g) && ParseStamp(g).Some?
    ensures Valid(ParseStamp(g).value)
    ensures EqualFold(FormatStamp(ParseStamp(g).value), g)
  {
    ParsedFields(g);
    FormatMatchesFields(g, ParseStamp(g).value);
  }

  // ---------------------------------------------------------------------------
  // Days and seconds since the epoch

  function DaysInYear(y: int): nat {
    if IsLeap(y) then 366 else 365
  }

  /** Days from 0000-01-01 to the first day of year `y` of the proleptic Gregorian
      calendar, in closed form: 365 a year, plus one for every multiple of 4 before
      `y`, less the multiples of 100, plus the multiples of 400. */
  function DaysBeforeYear(y: nat): nat {
    365 * y + (y + 3) / 4 - (y + 99) / 100 + (y + 399) / 400
  }

  /** The reference count: the lengths of the years before `y`, one at a time. */
  function CountDaysBeforeYear(y: nat): nat {
    if y == 0 then 0 else CountDaysBeforeYear(y - 1) + DaysInYear(y - 1)
  }

  /** Going from `y - 1` to `y`, the multiples of `d` below grow by one exactly
      when `y` is one; stated for the three divisors of the calendar. */
  lemma Multiples4(y: nat)
    ensures (y + 4) / 4 == (y + 3) / 4 + (if y % 4 == 0 then 1 else 0)
  {
  }

  lemma Multiples100(y: nat)
    ensures (y + 100) / 100 == (y + 99) / 100 + (if y % 100 == 0 then 1 else 0)
  {
  }

  lemma Multiples400(y: nat)
    ensures (y + 400) / 400 == (y + 399) / 400 + (if y % 400 == 0 then 1 else 0)
  {
  }

  /** A multiple of 400 is one of 100, and a multiple of 100 one of 4. */
  lemma MultiplesNest(y: nat)
    ensures y % 400 == 0 ==> y % 100 == 0
    ensures y % 100 == 0 ==> y % 4 == 0
  {
    if y % 400 == 0 {
      assert y == 100 * (4 * (y / 400));
    }
    if y % 100 == 0 {
      assert y == 4 * (25 * (y / 100));
    }
  }

  lemma NextYear(y: nat)
    ensures DaysBeforeYear(y + 1) == DaysBeforeYear(y) + DaysInYear(y)
  {
    Multiples4(y);
    Multiples100(y);
    Multiples400(y);
    MultiplesNest(y);
  }

  /** The closed form counts the days of the years before `y`. */
  lemma {:induction false} DaysBeforeYearCounts(y: nat)
    ensures DaysBeforeYear(y) == CountDaysBeforeYear(y)
  {
    if y > 0 {
      DaysBeforeYearCounts(y - 1);
      NextYear(y - 1);
    }
  }

  /** Later years start later. */
  lemma {:induction false} DaysBeforeYearMonotone(a: nat, b: nat)
    requires a <= b
    ensures DaysBeforeYear(a) <= DaysBeforeYear(b)
    decreases b - a
  {
    if a < b {
      DaysBeforeYearMonotone(a, b - 1);
      NextYear(b - 1);
    }
  }

  /** Days of a common year before the first of each month. */
  const CumulativeDays: seq<nat> := [0, 31, 59, 90, 120, 151, 181, 212, 243, 273, 304, 334]

  /** Days from the first of January of `y` to the first of month `m`. */
  function DaysBeforeMonth(m: int, y: int): nat
    requires 1 <= m <= 12
  {
    CumulativeDays[m - 1] + (if m > 2 && IsLeap(y) then 1 else 0)
  }

  /** The reference count: the lengths of the months before `m`, one at a time. */
  function CountDaysBeforeMonth(m: int, y: int): nat
    requires 1 <= m <= 12
  {
    if m == 1 then 0 else CountDaysBeforeMonth(m - 1, y) + DaysIn(m - 1, y)
  }

  lemma {:induction false} DaysBeforeMonthCounts(m: int, y: int)
    requires 1 <= m <= 12
    ensures DaysBeforeMonth(m, y) == CountDaysBeforeMonth(m, y)
  {
    if m > 1 {
      DaysBeforeMonthCounts(m - 1, y);
    }
  }

  /** The day 1970-01-01 in the count of `DaysBeforeYear`. */
  const UnixEpochDay: nat := DaysBeforeYear(1970)

  /** Seconds from 1970-01-01T00:00:00 UTC to `dt` (negative before it). */
  function UnixSeconds(dt: DateTime): int
    requires Valid(dt)
  {
    var days := DaysBeforeYear(dt.year) + DaysBeforeMonth(dt.month, dt.year) + dt.day - 1 - UnixEpochDay;
    days * 86400 + dt.hour * 3600 + dt.minute * 60 + dt.second
  }

  /** The seconds are those of the days counted one year and one month at a time,
      plus the time of day. */
  lemma UnixSecondsCounts(dt: DateTime)
    requires Valid(dt)
    ensures UnixSeconds(dt) ==
      (CountDaysBeforeYear(dt.year) - CountDaysBeforeYear(1970)
        + CountDaysBeforeMonth(dt.month, dt.year) + dt.day - 1) * 86400
      + dt.hour * 3600 + dt.minute * 60 + dt.second
  {
    DaysBeforeYearCounts(dt.year);
    DaysBeforeYearCounts(1970);
    DaysBeforeMonthCounts(dt.month, dt.year);
  }

  const Two63: int := 0x8000_0000_0000_0000
  const Two64: int := 0x1_0000_0000_0000_0000

  /** Two's-complement wrap-around of a signed 64-bit integer. */
  function ToInt64(x: int): (r: int)
    ensures -Two63 <= r < Two63
    ensures (x - r) % Two64 == 0
    ensures -Two63 <= x < Two63 ==> r == x
  {
    (x + Two63) % Two64 - Two63
  }

  /** Nanoseconds since the epoch as a signed 64-bit product of the seconds and
      10^9, which wraps for instants before 1677-09-21 or after 2262-04-11;
      `UnixNanosExact` covers the whole years 1678 to 2261. */
  function UnixNanos(dt: DateTime): int
    requires Valid(dt)
  {
    ToInt64(UnixSeconds(dt) * 1_000_000_000)
  }

  /** From 1678 to 2261 the product does not wrap. */
  lemma UnixNanosExact(dt: DateTime)
    requires Valid(dt) && 1678 <= dt.year <= 2261
    ensures UnixNanos(dt) == UnixSeconds(dt) * 1_000_000_000
  {
    NextYear(dt.year);
    assert DaysBeforeMonth(dt.month, dt.year) + dt.day <= DaysInYear(dt.year);
    DaysBeforeYearMonotone(1678, dt.year);
    DaysBeforeYearMonotone(dt.year + 1, 2262);
    assert -9_223_372_036 <= UnixSeconds(dt) <= 9_223_372_036;
  }

  // ---------------------------------------------------------------------------
  // The timestamp of a line

  /** The timestamp the converter writes for a line: the nanoseconds of the leftmost
      bracketed stamp when its date-time is valid, and 0 otherwise. */
  function TimestampOf(line: string): int {
    match FindStamp(line)
    case None => 0
    case Some((_, m)) =>
      match ParseStamp(m.stamp)
      case None => 0
      case Some(dt) => UnixNanos(dt)
  }

  /** The leftmost bracketed stamp decides the timestamp: its date-time's
      nanoseconds when the layout accepts it, 0 when it does not. */
  lemma TimestampOfLeftmost(s: string, k: nat, m: StampMatch)
    requires Matches(s, k, m) && forall j: nat, m': StampMatch :: j < k ==> !Matches(s, j, m')
    ensures ParseStamp(m.stamp).None? ==> TimestampOf(s) == 0
    ensures ParseStamp(m.stamp).Some? ==> TimestampOf(s) == UnixNanos(ParseStamp(m.stamp).value)
  {
    FindStampIsLeftmost(s, k, m);
  }

  /** A line without a bracketed stamp has timestamp 0. */
  lemma TimestampOfNoStamp(s: string)
    requires forall j: nat, m: StampMatch :: !Matches(s, j, m)
    ensures TimestampOf(s) == 0
  {
    FindStampNoneIff(s);
  }

  lemma ExampleFormat()
    ensures Valid(DateTime(2025, 10, 1, 12, 30, 11))
    ensures FormatStamp(DateTime(2025, 10, 1, 12, 30, 11)) == "01/Oct/2025:12:30:11"
  {
    var g := FormatStamp(DateTime(2025, 10, 1, 12, 30, 11));
    assert g[3..6] == "Oct";
    assert g[0] == '0' && g[1] == '1';
    assert g[7] == '2' && g[8] == '0' && g[9] == '2' && g[10] == '5';
    assert g[12] == '1' && g[13] == '2' && g[15] == '3' && g[16] == '0' && g[18] == '1' && g[19] == '1';
  }

  lemma ExampleSeconds()
    ensures Valid(DateTime(2025, 10, 1, 12, 30, 11))
    ensures UnixSeconds(DateTime(2025, 10, 1, 12, 30, 11)) == 1759321811
  {
    assert DaysBeforeYear(2025) == 739617;
    assert UnixEpochDay == 719528;
    assert DaysBeforeMonth(10, 2025) == 273;
  }

  /** `01/Oct/2025:12:30:11` is 1759321811 seconds after the epoch. */
  lemma ExampleStamp()
    ensures FitsLayout("01/Oct/2025:12:30:11")
    ensures ParseStamp("01/Oct/2025:12:30:11") == Some(DateTime(2025, 10, 1, 12, 30, 11))
    ensures UnixNanos(DateTime(2025, 10, 1, 12, 30, 11)) == 1759321811000000000
  {
    var dt := DateTime(2025, 10, 1, 12, 30, 11);
    ExampleFormat();
    ParseFormatted(dt);
    ExampleSeconds();
    UnixNanosExact(dt);
  }
}
