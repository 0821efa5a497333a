/**
 * Strict parsing of the operator's dates, `datetime.strptime(text, "%d/%m/%Y")`.
 *
 * The parser below follows how Python's `_strptime` works: the format becomes
 * the regular expression `%d / %m / %Y`, where
 *   %d  is  3[01] | [12]\d | 0[1-9] | [1-9] | ' '[1-9]
 *   %m  is  1[0-2] | 0[1-9] | [1-9]
 *   %Y  is  \d\d\d\d
 * matched from the start of the text with the alternatives tried in that order
 * (backtracking into the next one when the rest fails). Text left after the
 * match is an error ("unconverted data remains"), and so is a match that names
 * no calendar date (day 31 of February, year 0): both raise ValueError, which
 * `parse_date_input` turns into None.
 *
 * Beside the parser stands an independent description of the accepted texts
 * (`Spells`) and the theorem that the two agree.
 */
module Dates {
  import opened Wrappers

  datatype Date = Date(year: int, month: int, day: int)

  // ---------------------------------------------------------------------------
  // The Gregorian calendar of Python's datetime (years 1 to 9999)

  predicate IsLeapYear(y: int) {
    y % 4 == 0 && (y % 100 != 0 || y % 400 == 0)
  }

  function DaysInMonth(y: int, m: int): (n: int)
    requires 1 <= m <= 12
    ensures 28 <= n <= 31
    ensures n == 29 <==> m == 2 && IsLeapYear(y)
    ensures n == 28 <==> m == 2 && !IsLeapYear(y)
    ensures n == 30 <==> m == 4 || m == 6 || m == 9 || m == 11
  {
    if m == 2 then (if IsLeapYear(y) then 29 else 28)
    else if m == 4 || m == 6 || m == 9 || m == 11 then 30
    else 31
  }

  predicate IsValidCalendarDate(d: Date) {
    && 1 <= d.year <= 9999
    && 1 <= d.month <= 12
    && 1 <= d.day <= DaysInMonth(d.year, d.month)
  }

  /** Chronological order of dates (both at midnight, as strptime returns them). */
  predicate DateLe(a: Date, b: Date) {
    || a.year < b.year
    || (a.year == b.year && a.month < b.month)
    || (a.year == b.year && a.month == b.month && a.day <= b.day)
  }

  // ---------------------------------------------------------------------------
  // Characters

  predicate IsDigit(c: char) {
    '0' <= c <= '9'
  }

  predicate IsNonZeroDigit(c: char) {
    '1' <= c <= '9'
  }

  function DigitValue(c: char): (v: int)
    requires IsDigit(c)
    ensures 0 <= v <= 9
  {
    c as int - '0' as int
  }

  function DigitChar(v: int): (c: char)
    requires 0 <= v <= 9
    ensures IsDigit(c) && DigitValue(c) == v
  {
    ('0' as int + v) as char
  }

  function TwoDigits(a: char, b: char): int
    requires IsDigit(a) && IsDigit(b)
  {
    10 * DigitValue(a) + DigitValue(b)
  }

  // ---------------------------------------------------------------------------
  // The regular-expression matcher

  /** One way a directive's pattern matches at a position: the number it denotes and where it stops. */
  datatype Match = Match(value: int, end: nat)

  /** A match of the whole format: the fields read and the position after the year. */
  datatype FormatMatch = FormatMatch(date: Date, end: nat)

  /** The alternatives of `%d` that match at position p, in the order the regex tries them. */
  function DayAlternatives(s: string, p: nat): seq<Match> {
    (if p + 1 < |s| && s[p] == '3' && (s[p + 1] == '0' || s[p + 1] == '1')
     then [Match(TwoDigits(s[p], s[p + 1]), p + 2)] else [])
    + (if p + 1 < |s| && (s[p] == '1' || s[p] == '2') && IsDigit(s[p + 1])
       then [Match(TwoDigits(s[p], s[p + 1]), p + 2)] else [])
    + (if p + 1 < |s| && s[p] == '0' && IsNonZeroDigit(s[p + 1])
       then [Match(TwoDigits(s[p], s[p + 1]), p + 2)] else [])
    + (if p < |s| && IsNonZeroDigit(s[p])
       then [Match(DigitValue(s[p]), p + 1)] else [])
    + (if p + 1 < |s| && s[p] == ' ' && IsNonZeroDigit(s[p + 1])
       then [Match(DigitValue(s[p + 1]), p + 2)] else [])
  }

  /** The alternatives of `%m` that match at position p, in the order the regex tries them. */
  function MonthAlternatives(s: string, p: nat): seq<Match> {
    (if p + 1 < |s| && s[p] == '1' && '0' <= s[p + 1] <= '2'
     then [Match(TwoDigits(s[p], s[p + 1]), p + 2)] else [])
    + (if p + 1 < |s| && s[p] == '0' && IsNonZeroDigit(s[p + 1])
       then [Match(TwoDigits(s[p], s[p + 1]), p + 2)] else [])
    + (if p < |s| && IsNonZeroDigit(s[p])
       then [Match(DigitValue(s[p]), p + 1)] else [])
  }

  /** `%Y`: exactly four digits at position p. */
  function YearAt(s: string, p: nat): Option<Match> {
    if p + 4 <= |s| && IsDigit(s[p]) && IsDigit(s[p + 1]) && IsDigit(s[p + 2]) && IsDigit(s[p + 3])
    then Some(Match(100 * TwoDigits(s[p], s[p + 1]) + TwoDigits(s[p + 2], s[p + 3]), p + 4))
    else None
  }

  /** The rest of the format after the month alternative m: a `/` and then the year. */
  function AfterMonth(s: string, day: int, m: Match): Option<FormatMatch> {
    if m.end < |s| && s[m.end] == '/' then
      match YearAt(s, m.end + 1)
      case Some(y) => Some(FormatMatch(Date(y.value, m.value, day), y.end))
      case None => None
    else None
  }

  /** Tries the month alternatives in order; the first one the rest accepts wins. */
  function SearchMonth(s: string, day: int, alts: seq<Match>): Option<FormatMatch>
    decreases |alts|
  {
    if alts == [] then None
    else
      var r := AfterMonth(s, day, alts[0]);
      if r.Some? then r else SearchMonth(s, day, alts[1..])
  }

  /** The rest of the format after the day alternative d: a `/`, the month and the year. */
  function AfterDay(s: string, d: Match): Option<FormatMatch> {
    if d.end < |s| && s[d.end] == '/' then SearchMonth(s, d.value, MonthAlternatives(s, d.end + 1))
    else None
  }

  /** Tries the day alternatives in order; the first one the rest accepts wins. */
  function SearchDay(s: string, alts: seq<Match>): Option<FormatMatch>
    decreases |alts|
  {
    if alts == [] then None
    else
      var r := AfterDay(s, alts[0]);
      if r.Some? then r else SearchDay(s, alts[1..])
  }

  /** `re.match` of the compiled format against the start of s. */
  function MatchFormat(s: string): Option<FormatMatch> {
    SearchDay(s, DayAlternatives(s, 0))
  }

  /** `parse_date_input`: the date, or None where strptime raises ValueError. */
  function ParseDate(s: string): (r: Option<Date>)
    ensures r.Some? ==> IsValidCalendarDate(r.value)
  {
    match MatchFormat(s)
    case None => None
    case Some(m) =>
      if m.end != |s| then None                      // unconverted data remains
      else if !IsValidCalendarDate(m.date) then None // day or year out of range
      else Some(m.date)
  }

  // ---------------------------------------------------------------------------
  // Independent description of the accepted texts

  /** A day field: one non-zero digit, a space and one non-zero digit, or two digits naming 1 to 31. */
  ghost predicate DayText(t: string, n: int) {
    || (|t| == 1 && IsNonZeroDigit(t[0]) && n == DigitValue(t[0]))
    || (|t| == 2 && t[0] == ' ' && IsNonZeroDigit(t[1]) && n == DigitValue(t[1]))
    || (|t| == 2 && IsDigit(t[0]) && IsDigit(t[1]) && n == TwoDigits(t[0], t[1]) && 1 <= n <= 31)
  }

  /** A month field: one non-zero digit, or two digits naming 1 to 12. */
  ghost predicate MonthText(t: string, n: int) {
    || (|t| == 1 && IsNonZeroDigit(t[0]) && n == DigitValue(t[0]))
    || (|t| == 2 && IsDigit(t[0]) && IsDigit(t[1]) && n == TwoDigits(t[0], t[1]) && 1 <= n <= 12)
  }

  /** A year field: exactly four digits. */
  ghost predicate YearText(t: string, n: int) {
    && |t| == 4
    && IsDigit(t[0]) && IsDigit(t[1]) && IsDigit(t[2]) && IsDigit(t[3])
    && n == 100 * TwoDigits(t[0], t[1]) + TwoDigits(t[2], t[3])
  }

  /** s is a day field, `/` at i, a month field, `/` at j and a year field, denoting d. */
  ghost predicate SpellsAt(s: string, d: Date, i: int, j: int) {
    && 0 < i < j < |s| && s[i] == '/' && s[j] == '/'
    && DayText(s[..i], d.day) && MonthText(s[i + 1..j], d.month) && YearText(s[j + 1..], d.year)
  }

  /** s is day, `/`, month, `/`, year, with nothing before or after, and the fields denote d. */
  ghost predicate Spells(s: string, d: Date) {
    exists i, j :: SpellsAt(s, d, i, j)
  }

  /** Two digits for a number below 100, with a leading zero where needed. */
  function Pad2(n: int): (t: string)
    requires 0 <= n < 100
    ensures |t| == 2 && IsDigit(t[0]) && IsDigit(t[1]) && TwoDigits(t[0], t[1]) == n
  {
    [DigitChar(n / 10), DigitChar(n % 10)]
  }

  /** The zero-padded spelling dd/mm/yyyy of a date. */
  function CanonicalText(d: Date): (s: string)
    requires IsValidCalendarDate(d)
    ensures |s| == 10 && s[2] == '/' && s[5] == '/'
  {
    Pad2(d.day) + "/" + Pad2(d.month) + "/" + Pad2(d.year / 100) + Pad2(d.year % 100)
  }

  // ---------------------------------------------------------------------------
  // Facts about the fields and the alternatives

  lemma DayTextHasNoSlash(t: string, n: int)
    requires DayText(t, n)
    ensures forall k :: 0 <= k < |t| ==> t[k] != '/'
  {
  }

  lemma MonthTextHasNoSlash(t: string, n: int)
    requires MonthText(t, n)
    ensures forall k :: 0 <= k < |t| ==> t[k] != '/'
  {
  }

  /** In a spelling, i is the first `/`, and j the first after it. */
  lemma SpellsAtSlashes(s: string, d: Date, i: int, j: int)
    requires SpellsAt(s, d, i, j)
    ensures forall k :: 0 <= k < i ==> s[k] != '/'
    ensures forall k :: i < k < j ==> s[k] != '/'
  {
    DayTextHasNoSlash(s[..i], d.day);
    MonthTextHasNoSlash(s[i + 1..j], d.month);
    assert forall k :: 0 <= k < i ==> s[k] == s[..i][k];
    assert forall k :: i < k < j ==> s[k] == s[i + 1..j][k - i - 1];
  }

  /** Two positions of `/` with none before them, from lo on, are the same. */
  lemma SlashIsFirst(s: string, i: nat, j: nat, lo: nat)
    requires lo <= i < |s| && lo <= j < |s| && s[i] == '/' && s[j] == '/'
    requires forall k :: lo <= k < i ==> s[k] != '/'
    requires forall k :: lo <= k < j ==> s[k] != '/'
    ensures i == j
  {
  }

  /** Every day alternative reads a day field. */
  lemma DayAlternativeSound(s: string, m: Match)
    requires m in DayAlternatives(s, 0)
    ensures 1 <= m.end <= 2 && m.end <= |s| && DayText(s[..m.end], m.value)
  {
  }

  /** Every day field followed by more text is one of the day alternatives. */
  lemma DayAlternativeComplete(s: string, i: nat, n: int)
    requires i < |s| && DayText(s[..i], n)
    ensures Match(n, i) in DayAlternatives(s, 0)
  {
    assert s[..i][0] == s[0];
    if i == 2 {
      assert s[..i][1] == s[1];
      if s[0] == ' ' {
        assert Match(n, i) == DayAlternatives(s, 0)[|DayAlternatives(s, 0)| - 1];
      }
    }
  }

  /** Every month alternative reads a month field. */
  lemma MonthAlternativeSound(s: string, p: nat, m: Match)
    requires m in MonthAlternatives(s, p)
    ensures p < m.end <= p + 2 && m.end <= |s| && MonthText(s[p..m.end], m.value)
  {
  }

  /** Every month field followed by more text is one of the month alternatives. */
  lemma MonthAlternativeComplete(s: string, p: nat, j: nat, n: int)
    requires p <= j < |s| && MonthText(s[p..j], n)
    ensures Match(n, j) in MonthAlternatives(s, p)
  {
    assert s[p..j][0] == s[p];
    if j == p + 2 {
      assert s[p..j][1] == s[p + 1];
    }
  }

  lemma YearAtSound(s: string, p: nat)
    requires YearAt(s, p).Some?
    ensures YearAt(s, p).value.end == p + 4 && YearText(s[p..p + 4], YearAt(s, p).value.value)
  {
  }

  lemma YearAtComplete(s: string, p: nat, n: int)
    requires p <= |s| && YearText(s[p..], n)
    ensures YearAt(s, p) == Some(Match(n, |s|))
  {
    assert s[p..][0] == s[p] && s[p..][1] == s[p + 1] && s[p..][2] == s[p + 2] && s[p..][3] == s[p + 3];
  }

  // ---------------------------------------------------------------------------
  // The search: which alternative wins

  /** When the search over the month alternatives succeeds, some alternative produced its result. */
  lemma {:induction false} SearchMonthWitness(s: string, day: int, alts: seq<Match>) returns (w: Match)
    requires SearchMonth(s, day, alts).Some?
    ensures w in alts && AfterMonth(s, day, w) == SearchMonth(s, day, alts)
    decreases |alts|
  {
    if AfterMonth(s, day, alts[0]).Some? {
      w := alts[0];
    } else {
      w := SearchMonthWitness(s, day, alts[1..]);
    }
  }

  /** When no alternative but w can complete the match, the search finds what w finds. */
  lemma {:induction false} SearchMonthUnique(s: string, day: int, alts: seq<Match>, w: Match)
    requires forall x :: x in alts && x != w ==> AfterMonth(s, day, x).None?
    ensures SearchMonth(s, day, alts) == if w in alts then AfterMonth(s, day, w) else None
    decreases |alts|
  {
    if alts != [] {
      SearchMonthUnique(s, day, alts[1..], w);
    }
  }

  lemma {:induction false} SearchDayWitness(s: string, alts: seq<Match>) returns (w: Match)
    requires SearchDay(s, alts).Some?
    ensures w in alts && AfterDay(s, w) == SearchDay(s, alts)
    decreases |alts|
  {
    if AfterDay(s, alts[0]).Some? {
      w := alts[0];
    } else {
      w := SearchDayWitness(s, alts[1..]);
    }
  }

  lemma {:induction false} SearchDayUnique(s: string, alts: seq<Match>, w: Match)
    requires forall x :: x in alts && x != w ==> AfterDay(s, x).None?
    ensures SearchDay(s, alts) == if w in alts then AfterDay(s, w) else None
    decreases |alts|
  {
    if alts != [] {
      SearchDayUnique(s, alts[1..], w);
    }
  }

  // ---------------------------------------------------------------------------
  // The parser agrees with the description

  /** When the format matches, a day field, a `/` and the month search produced the match. */
  lemma DayPartSound(s: string) returns (dm: Match)
    requires MatchFormat(s).Some?
    ensures 0 < dm.end < |s| && s[dm.end] == '/' && DayText(s[..dm.end], dm.value)
    ensures SearchMonth(s, dm.value, MonthAlternatives(s, dm.end + 1)) == MatchFormat(s)
  {
    dm := SearchDayWitness(s, DayAlternatives(s, 0));
    DayAlternativeSound(s, dm);
  }

  /** When the month search matches to the end, a month field, a `/` and a year field produced the match. */
  lemma MonthPartSound(s: string, day: int, p: nat) returns (mm: Match)
    requires SearchMonth(s, day, MonthAlternatives(s, p)).Some?
    requires SearchMonth(s, day, MonthAlternatives(s, p)).value.end == |s|
    ensures var date := SearchMonth(s, day, MonthAlternatives(s, p)).value.date;
      && p < mm.end < |s| && s[mm.end] == '/' && date.month == mm.value && date.day == day
      && MonthText(s[p..mm.end], mm.value) && YearText(s[mm.end + 1..], date.year)
  {
    mm := SearchMonthWitness(s, day, MonthAlternatives(s, p));
    MonthAlternativeSound(s, p, mm);
    YearAtSound(s, mm.end + 1);
    assert s[mm.end + 1..] == s[mm.end + 1..mm.end + 5];
  }

  /** Whatever the format matches with nothing left over is a spelling of the date it reads. */
  lemma MatchFormatSound(s: string) returns (i: int, j: int)
    requires MatchFormat(s).Some? && MatchFormat(s).value.end == |s|
    ensures SpellsAt(s, MatchFormat(s).value.date, i, j)
  {
    var dm := DayPartSound(s);
    i := dm.end;
    var mm := MonthPartSound(s, dm.value, i + 1);
    j := mm.end;
  }

  /** After a `/` at i, a month field, a `/` at j and a year field are matched to the end. */
  lemma MonthPartComplete(s: string, day: int, i: nat, j: nat, month: int, year: int)
    requires i < j < |s| && s[j] == '/'
    requires MonthText(s[i + 1..j], month) && YearText(s[j + 1..], year)
    ensures SearchMonth(s, day, MonthAlternatives(s, i + 1)) == Some(FormatMatch(Date(year, month, day), |s|))
  {
    MonthTextHasNoSlash(s[i + 1..j], month);
    assert forall k :: i + 1 <= k < j ==> s[k] == s[i + 1..j][k - i - 1];
    var w := Match(month, j);
    MonthAlternativeComplete(s, i + 1, j, month);
    forall x | x in MonthAlternatives(s, i + 1) && AfterMonth(s, day, x).Some?
      ensures x == w
    {
      MonthAlternativeSound(s, i + 1, x);
      MonthTextHasNoSlash(s[i + 1..x.end], x.value);
      assert forall k :: i + 1 <= k < x.end ==> s[k] == s[i + 1..x.end][k - i - 1];
      SlashIsFirst(s, x.end, j, i + 1);
    }
    SearchMonthUnique(s, day, MonthAlternatives(s, i + 1), w);
    YearAtComplete(s, j + 1, year);
  }

  /** Every spelling of a date is matched, to its end, as that date. */
  lemma MatchFormatComplete(s: string, d: Date, i: int, j: int)
    requires SpellsAt(s, d, i, j)
    ensures MatchFormat(s) == Some(FormatMatch(d, |s|))
  {
    SpellsAtSlashes(s, d, i, j);
    MonthPartComplete(s, d.day, i, j, d.month, d.year);
    var w := Match(d.day, i);
    DayAlternativeComplete(s, i, d.day);
    forall x | x in DayAlternatives(s, 0) && AfterDay(s, x).Some?
      ensures x == w
    {
      DayAlternativeSound(s, x);
      DayTextHasNoSlash(s[..x.end], x.value);
      assert forall k :: 0 <= k < x.end ==> s[k] == s[..x.end][k];
      SlashIsFirst(s, x.end, i, 0);
    }
    SearchDayUnique(s, DayAlternatives(s, 0), w);
  }

  /**
   * parse_date_input returns a date exactly when the text is day/month/year with
   * nothing left over and the fields name a real calendar date.
   */
  lemma ParseDateCorrect(s: string, d: Date)
    ensures ParseDate(s) == Some(d) <==> Spells(s, d) && IsValidCalendarDate(d)
  {
    if ParseDate(s) == Some(d) {
      var i, j := MatchFormatSound(s);
    }
    if Spells(s, d) && IsValidCalendarDate(d) {
      var i, j :| SpellsAt(s, d, i, j);
      MatchFormatComplete(s, d, i, j);
    }
  }

  /** A ten-character text dd/mm/yyyy whose fields read d spells d. */
  lemma TenCharSpelling(s: string, d: Date)
    requires |s| == 10 && s[2] == '/' && s[5] == '/'
    requires DayText([s[0], s[1]], d.day) && MonthText([s[3], s[4]], d.month)
    requires YearText([s[6], s[7], s[8], s[9]], d.year)
    ensures SpellsAt(s, d, 2, 5)
  {
    assert s[..2] == [s[0], s[1]];
    assert s[3..5] == [s[3], s[4]];
    assert s[6..] == [s[6], s[7], s[8], s[9]];
  }

  /** A ten-character text dd/mm/yyyy whose fields read d parses to d exactly when d is a calendar date. */
  lemma TenCharParse(s: string, d: Date)
    requires |s| == 10 && s[2] == '/' && s[5] == '/'
    requires DayText([s[0], s[1]], d.day) && MonthText([s[3], s[4]], d.month)
    requires YearText([s[6], s[7], s[8], s[9]], d.year)
    ensures ParseDate(s) == if IsValidCalendarDate(d) then Some(d) else None
  {
    TenCharSpelling(s, d);
    MatchFormatComplete(s, d, 2, 5);
  }

  /** The zero-padded spelling of every calendar date parses back to that date. */
  lemma CanonicalTextRoundTrip(d: Date)
    requires IsValidCalendarDate(d)
    ensures ParseDate(CanonicalText(d)) == Some(d)
  {
    var s := CanonicalText(d);
    var dd, mm, y1, y2 := Pad2(d.day), Pad2(d.month), Pad2(d.year / 100), Pad2(d.year % 100);
    assert s == [dd[0], dd[1], '/', mm[0], mm[1], '/', y1[0], y1[1], y2[0], y2[1]];
    assert d.year == 100 * (d.year / 100) + d.year % 100;
    TenCharSpelling(s, d);
    MatchFormatComplete(s, d, 2, 5);
  }

  /** Text after a complete date is never accepted: if s and s + t both parse, t is empty. */
  lemma TrailingTextRejected(s: string, t: string)
    requires ParseDate(s).Some? && ParseDate(s + t).Some?
    ensures t == []
  {
    var d := ParseDate(s).value;
    ParseDateCorrect(s, d);
    var i, j :| SpellsAt(s, d, i, j);
    SpellsAtSlashes(s, d, i, j);
    var u := s + t;
    var d' := ParseDate(u).value;
    ParseDateCorrect(u, d');
    var i', j' :| SpellsAt(u, d', i', j');
    SpellsAtSlashes(u, d', i', j');
    assert forall k :: 0 <= k < |s| ==> u[k] == s[k];
    SlashIsFirst(u, i, i', 0);
    SlashIsFirst(u, j, j', i + 1);
    assert |u[j' + 1..]| == |s[j + 1..]| + |t|;
  }

  /** Text without a `/` separator is never a date. */
  lemma NoSeparatorRejected(s: string)
    requires forall k :: 0 <= k < |s| ==> s[k] != '/'
    ensures ParseDate(s) == None
  {
    if ParseDate(s).Some? {
      ParseDateCorrect(s, ParseDate(s).value);
    }
  }

  /**
   * When the first two `/` of s are at positions 2 and 5, every date s spells
   * is read from the fields between them.
   */
  lemma FieldsOfTenChars(s: string)
    requires |s| == 10 && s[2] == '/' && s[5] == '/' && s[0] != '/' && s[1] != '/' && s[3] != '/' && s[4] != '/'
    ensures ParseDate(s).Some? ==>
      DayText([s[0], s[1]], ParseDate(s).value.day) && MonthText([s[3], s[4]], ParseDate(s).value.month)
  {
    if ParseDate(s).None? {
      return;
    }
    var d := ParseDate(s).value;
    ParseDateCorrect(s, d);
    var i, j :| SpellsAt(s, d, i, j);
    SpellsAtSlashes(s, d, i, j);
    SlashIsFirst(s, i, 2, 0);
    SlashIsFirst(s, j, 5, 3);
    assert s[..2] == [s[0], s[1]] && s[3..5] == [s[3], s[4]];
  }

  // Texts that name no calendar date are refused.

  lemma RejectsThirtyFirstFebruary()
    ensures ParseDate("31/02/2021") == None
  {
    TenCharParse("31/02/2021", Date(2021, 2, 31));
  }

  lemma RejectsLeapDayOfCommonYear()
    ensures ParseDate("29/02/2019") == None
  {
    TenCharParse("29/02/2019", Date(2019, 2, 29));
  }

  lemma RejectsThirtyFirstApril()
    ensures ParseDate("31/04/2021") == None
  {
    TenCharParse("31/04/2021", Date(2021, 4, 31));
  }

  lemma RejectsYearZero()
    ensures ParseDate("01/01/0000") == None
  {
    TenCharParse("01/01/0000", Date(0, 1, 1));
  }

  // Leap days, one-digit fields and a space-padded day are accepted, as `%d` and `%m` allow.

  lemma AcceptsLeapDay()
    ensures ParseDate("29/02/2020") == Some(Date(2020, 2, 29))
  {
    TenCharParse("29/02/2020", Date(2020, 2, 29));
  }

  lemma AcceptsOneDigitFields()
    ensures ParseDate("1/2/2021") == Some(Date(2021, 2, 1))
  {
    var s := "1/2/2021";
    assert s[..1] == [s[0]] && s[2..3] == [s[2]] && s[4..] == [s[4], s[5], s[6], s[7]];
    MatchFormatComplete(s, Date(2021, 2, 1), 1, 3);
  }

  lemma AcceptsSpacePaddedDay()
    ensures ParseDate(" 5/07/2021") == Some(Date(2021, 7, 5))
  {
    TenCharParse(" 5/07/2021", Date(2021, 7, 5));
  }

  /** Other orders and separators, and fields out of range, are refused. */
  lemma OtherFormatsRejected()
    ensures ParseDate("2021-02-01") == None
    ensures ParseDate("01/13/2021") == None
    ensures ParseDate("00/01/2021") == None
  {
    NoSeparatorRejected("2021-02-01");
    var s1, s2 := "01/13/2021", "00/01/2021";
    FieldsOfTenChars(s1);
    FieldsOfTenChars(s2);
  }

  /** Dates are totally ordered by DateLe. */
  lemma DateLeTotal(a: Date, b: Date, c: Date)
    ensures DateLe(a, a)
    ensures DateLe(a, b) || DateLe(b, a)
    ensures DateLe(a, b) && DateLe(b, a) ==> a == b
    ensures DateLe(a, b) && DateLe(b, c) ==> DateLe(a, c)
  {
  }
}
