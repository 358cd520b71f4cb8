/**
 * Helpers shared by the routes: reading SQLite timestamps back, the site settings
 * dictionary, the pending-moderation badge count and the per-day statistics counter.
 */
module Utils {
  import opened Wrappers
  import opened Strings
  import opened Tables
  import opened Schema

  /** The clock readings a request sees: today's date ('%Y-%m-%d'), `datetime.now()`
      as the driver stores it, and SQLite's CURRENT_TIMESTAMP (the column default). */
  datatype Clock = Clock(today: string, now: string, sqlNow: string)

  // ---------------------------------------------------------------- parse_datetime

  datatype DateTime = DateTime(year: nat, month: nat, day: nat, hour: nat, minute: nat,
                               second: nat, micro: nat)

  /** What `parse_datetime` returns: None, a datetime, or the input unchanged. */
  datatype Stamp = NoStamp | Parsed(dt: DateTime) | Unparsed(raw: string)

  predicate LeapYear(y: nat)
  {
    y % 4 == 0 && (y % 100 != 0 || y % 400 == 0)
  }

  function DaysIn(y: nat, m: nat): nat
    requires 1 <= m <= 12
  {
    if m == 2 then (if LeapYear(y) then 29 else 28)
    else if m == 4 || m == 6 || m == 9 || m == 11 then 30
    else 31
  }

  /** The range checks of Python's `datetime` constructor. */
  predicate ValidDateTime(dt: DateTime)
  {
    && 1 <= dt.year <= 9999 && 1 <= dt.month <= 12 && 1 <= dt.day <= DaysIn(dt.year, dt.month)
    && dt.hour < 24 && dt.minute < 60 && dt.second < 60 && dt.micro < 1000000
  }

  function Pow10(n: nat): (p: nat)
    ensures p >= 1
  {
    if n == 0 then 1 else 10 * Pow10(n - 1)
  }

  /** `n` written with exactly `w` digits, zero-padded. */
  function Digits(n: nat, w: nat): (s: string)
    ensures |s| == w && forall i :: 0 <= i < w ==> IsDigit(s[i])
  {
    if w == 0 then "" else Digits(n / 10, w - 1) + [DigitChar(n % 10)]
  }

  lemma {:induction false} DigitsValueOf(n: nat, w: nat)
    requires n < Pow10(w)
    ensures DigitsValue(Digits(n, w)) == n
  {
    if w > 0 {
      var s := Digits(n, w);
      assert s[..|s| - 1] == Digits(n / 10, w - 1);
      DigitsValueOf(n / 10, w - 1);
    }
  }

  /** Three digit fields `a`, `b`, `c` laid out as a<sep>b<sep>c, the first of width
      `w`, the other two of width 2. */
  function Triple(t: string, sep: char, w: nat): Option<(nat, nat, nat)>
  {
    if |t| == w + 6 && t[w] == sep && t[w + 3] == sep
       && IsDigits(t[..w]) && IsDigits(t[w + 1..w + 3]) && IsDigits(t[w + 4..])
    then Some((DigitsValue(t[..w]), DigitsValue(t[w + 1..w + 3]), DigitsValue(t[w + 4..])))
    else None
  }

  /** '%Y-%m-%d %H:%M:%S' on exactly 19 characters, zero-padded fields. */
  function ParseWhole(s: string): (r: Option<DateTime>)
    ensures r.Some? ==> ValidDateTime(r.value) && r.value.micro == 0
  {
    if |s| == 19 && s[10] == ' ' then
      match (Triple(s[..10], '-', 4), Triple(s[11..], ':', 2))
      case (Some((y, mo, d)), Some((h, mi, se))) =>
        var dt := DateTime(y, mo, d, h, mi, se, 0);
        if ValidDateTime(dt) then Some(dt) else None
      case _ => None
    else None
  }

  /** '%Y-%m-%d %H:%M:%S.%f': one to six fraction digits, read as a fraction of a second. */
  function ParseWithFraction(s: string): (r: Option<DateTime>)
    ensures r.Some? ==> ValidDateTime(r.value)
  {
    if 21 <= |s| <= 26 && s[19] == '.' && IsDigits(s[20..]) then
      match ParseWhole(s[..19])
      case None => None
      case Some(dt) =>
        var f := s[20..];
        assert DigitsValue(f) < Pow10(|f|) by { DigitsBound(f); }
        PowMonotone(|f|, 6 - |f|);
        Some(dt.(micro := DigitsValue(f) * Pow10(6 - |f|)))
    else None
  }

  lemma {:induction false} DigitsBound(s: string)
    requires forall i :: 0 <= i < |s| ==> IsDigit(s[i])
    ensures DigitsValue(s) < Pow10(|s|)
  {
    if s != [] {
      DigitsBound(s[..|s| - 1]);
    }
  }

  lemma {:induction false} PowMonotone(a: nat, b: nat)
    ensures Pow10(a) * Pow10(b) == Pow10(a + b)
  {
    if b > 0 {
      PowMonotone(a, b - 1);
      assert Pow10(a + b) == 10 * Pow10(a + b - 1);
    }
  }

  /** `parse_datetime`: falsy input gives None; then the format with microseconds,
      then the one without; anything else comes back as it was. */
  function ParseDatetime(s: Option<string>): (r: Stamp)
    ensures r == NoStamp <==> !Present(s)
    ensures r.Unparsed? ==> r.raw == s.value
    ensures r.Parsed? ==> ValidDateTime(r.dt)
  {
    if !Present(s) then NoStamp
    else
      match ParseWithFraction(s.value)
      case Some(dt) => Parsed(dt)
      case None =>
        match ParseWhole(s.value)
        case Some(dt) => Parsed(dt)
        case None => Unparsed(s.value)
  }

  // ---------------------------------------------------------------- parse_datetime on fetched values

  /** A TIMESTAMP column's value as the application's connections hand it over. They are
      opened with PARSE_DECLTYPES, so the `timestamp` converter has already turned a
      non-NULL value into a `datetime`; NULL, and text from an untyped column, stay as
      they are. */
  datatype Cell = NullCell | TextCell(text: string) | DateTimeCell(dt: DateTime)

  /** `parse_datetime` as written, on a fetched value. None stands for the exception it
      raises on a `datetime`: the value is truthy, `strptime` refuses a non-string with
      TypeError, and the first handler catches only ValueError. */
  function ParseDatetimeAsWritten(v: Cell): (r: Option<Stamp>)
    ensures r.None? <==> v.DateTimeCell?
    ensures v.NullCell? ==> r == Some(NoStamp)
  {
    match v
    case NullCell => Some(ParseDatetime(None))
    case TextCell(t) => Some(ParseDatetime(Some(t)))
    case DateTimeCell(_) => None
  }

  /** `parse_datetime` as intended on these connections: a value that already is a
      `datetime` is kept, and anything else is read as before. */
  function ParseCell(v: Cell): (r: Stamp)
    ensures v.DateTimeCell? ==> r == Parsed(v.dt)
    ensures v.NullCell? ==> r == NoStamp
  {
    match v
    case NullCell => ParseDatetime(None)
    case TextCell(t) => ParseDatetime(Some(t))
    case DateTimeCell(dt) => Parsed(dt)
  }

  /** The two readings differ exactly on `datetime` values, which the written one cannot
      take; on NULL and text they agree. */
  lemma ParseCellRefinesAsWritten(v: Cell)
    ensures ParseDatetimeAsWritten(v).None? <==> v.DateTimeCell?
    ensures ParseDatetimeAsWritten(v).Some? ==> ParseDatetimeAsWritten(v).value == ParseCell(v)
    ensures v.TextCell? ==> ParseCell(v) == ParseDatetime(Some(v.text))
  {
  }

  /** The timestamp values the connection hands over for the rows with `ids`, in the
      order the rows are fetched. */
  function FetchedCells(ids: seq<int>, created: int -> Cell): (cells: seq<Cell>)
    ensures |cells| == |ids|
    ensures forall i :: 0 <= i < |ids| ==> cells[i] == created(ids[i])
  {
    seq(|ids|, i requires 0 <= i < |ids| => created(ids[i]))
  }

  /** A route's loop that replaces each fetched row's timestamp by `parse_datetime` of
      it, as written: it raises at the first `datetime`. On success each value is read
      as `ParseCell` reads it. */
  function ParseEachAsWritten(cells: seq<Cell>): (r: Option<seq<Stamp>>)
    ensures r.None? <==> exists i :: 0 <= i < |cells| && cells[i].DateTimeCell?
    ensures r.Some? ==> |r.value| == |cells| && forall i :: 0 <= i < |cells| ==> r.value[i] == ParseCell(cells[i])
  {
    if cells == [] then Some([])
    else match ParseDatetimeAsWritten(cells[0])
      case None => None
      case Some(first) =>
        match ParseEachAsWritten(cells[1..])
        case None => None
        case Some(rest) => Some([first] + rest)
  }

  /** `str(datetime)`, the text SQLite holds for a stored Python datetime. */
  function FormatDatetime(dt: DateTime): string
  {
    Digits(dt.year, 4) + "-" + Digits(dt.month, 2) + "-" + Digits(dt.day, 2) + " " +
    Digits(dt.hour, 2) + ":" + Digits(dt.minute, 2) + ":" + Digits(dt.second, 2) +
    (if dt.micro == 0 then "" else "." + Digits(dt.micro, 6))
  }

  lemma TripleOf(a: string, sep: char, b: string, c: string)
    requires IsDigits(a) && IsDigits(b) && IsDigits(c) && |b| == |c| == 2
    ensures Triple(a + [sep] + b + [sep] + c, sep, |a|) ==
      Some((DigitsValue(a), DigitsValue(b), DigitsValue(c)))
  {
    Slices(a, sep, b, c);
  }

  lemma Slices(a: string, sep: char, b: string, c: string)
    requires |b| == |c| == 2
    ensures var t := a + [sep] + b + [sep] + c;
      && |t| == |a| + 6 && t[..|a|] == a && t[|a| + 1..|a| + 3] == b && t[|a| + 4..] == c
      && t[|a|] == sep && t[|a| + 3] == sep
  {
  }

  lemma Layout(date: string, time: string)
    ensures var s := date + " " + time;
      |s| == |date| + 1 + |time| && s[..|date|] == date && s[|date|] == ' ' && s[|date| + 1..] == time
  {
  }

  lemma WholeRoundTrip(dt: DateTime)
    requires ValidDateTime(dt)
    ensures ParseWhole(FormatDatetime(dt.(micro := 0))) == Some(dt.(micro := 0))
  {
    var date := Digits(dt.year, 4) + "-" + Digits(dt.month, 2) + "-" + Digits(dt.day, 2);
    var time := Digits(dt.hour, 2) + ":" + Digits(dt.minute, 2) + ":" + Digits(dt.second, 2);
    assert FormatDatetime(dt.(micro := 0)) == date + " " + time;
    Layout(date, time);
    FieldsOf(dt.year, 4, '-', dt.month, dt.day);
    FieldsOf(dt.hour, 2, ':', dt.minute, dt.second);
  }

  /** One half of the format, date or time, reads back as its three fields. */
  lemma FieldsOf(a: nat, w: nat, sep: char, b: nat, c: nat)
    requires 1 <= w && a < Pow10(w) && b < 100 && c < 100
    ensures Triple(Digits(a, w) + [sep] + Digits(b, 2) + [sep] + Digits(c, 2), sep, w) == Some((a, b, c))
  {
    TripleOf(Digits(a, w), sep, Digits(b, 2), Digits(c, 2));
    DigitsValueOf(a, w);
    assert Pow10(2) == 10 * Pow10(1) == 100;
    DigitsValueOf(b, 2);
    DigitsValueOf(c, 2);
  }

  /** Every valid datetime the application stores is read back as that datetime. */
  lemma ParseFormatRoundTrip(dt: DateTime)
    requires ValidDateTime(dt)
    ensures ParseDatetime(Some(FormatDatetime(dt))) == Parsed(dt)
  {
    if dt.micro != 0 {
      FractionRoundTrip(dt);
    } else {
      WholeRoundTrip(dt);
      assert dt.(micro := 0) == dt;
      assert |FormatDatetime(dt)| == 19;
    }
  }

  /** A datetime with microseconds is read back by the format with a fraction. */
  lemma FractionRoundTrip(dt: DateTime)
    requires ValidDateTime(dt) && dt.micro != 0
    ensures ParseWithFraction(FormatDatetime(dt)) == Some(dt)
  {
    WholeRoundTrip(dt);
    var w := FormatDatetime(dt.(micro := 0));
    var f := Digits(dt.micro, 6);
    var s := FormatDatetime(dt);
    assert s == w + "." + f;
    assert |w| == 19;
    assert s[..19] == w && s[19] == '.' && s[20..] == f;
    assert Pow10(6) == 1000000 by {
      assert Pow10(3) == 1000;
    }
    DigitsValueOf(dt.micro, 6);
    assert ParseWhole(s[..19]) == Some(dt.(micro := 0));
  }

  // ---------------------------------------------------------------- get_site_settings

  /** `get_site_settings`: each setting name maps to the value of its last row; a
      database error leaves the dictionary empty. */
  method GetSiteSettings(db: Database, fault: bool) returns (settings: map<string, string>)
    ensures fault ==> settings == map[]
    ensures !fault ==> settings.Keys == set i | 0 <= i < |db.settings.rows| :: db.settings.rows[i].val.name
    ensures !fault ==> forall i :: (0 <= i < |db.settings.rows| &&
      forall j :: i < j < |db.settings.rows| ==> db.settings.rows[j].val.name != db.settings.rows[i].val.name) ==>
      settings[db.settings.rows[i].val.name] == db.settings.rows[i].val.value
    ensures !fault && db.Valid() ==> forall i :: 0 <= i < |db.settings.rows| ==>
      settings[db.settings.rows[i].val.name] == db.settings.rows[i].val.value
  {
    settings := map[];
    if fault {
      return;
    }
    var rows := db.settings.rows;
    for k := 0 to |rows|
      invariant settings.Keys == set i | 0 <= i < k :: rows[i].val.name
      invariant forall i :: 0 <= i < k && (forall j :: i < j < k ==> rows[j].val.name != rows[i].val.name) ==>
        settings[rows[i].val.name] == rows[i].val.value
    {
      settings := settings[rows[k].val.name := rows[k].val.value];
    }
    if db.Valid() {
      assert UniqueBy(rows, SettingName);
    }
  }

  // ---------------------------------------------------------------- get_pending_moderation_count

  predicate IsStaff(role: string)
  {
    role == "admin" || role == "moderator"
  }

  predicate IsPending(a: Adventure)
  {
    a.approved == Pending
  }

  /** The user with this id exists and is an admin or a moderator. */
  predicate StaffUser(users: Table<User>, id: int)
  {
    var k := Find(users.rows, id);
    k >= 0 && IsStaff(users.rows[k].val.role)
  }

  /** `get_pending_moderation_count`: logged-out visitors, ordinary users and database
      errors all see 0; staff see the number of adventures awaiting moderation. */
  function PendingModerationCount(s: Store, sessionUser: Option<int>, fault: bool): (n: nat)
    ensures n > 0 ==> sessionUser.Some? && !fault && StaffUser(s.users, sessionUser.value)
    ensures sessionUser.Some? && !fault && StaffUser(s.users, sessionUser.value) ==>
      n == Count(s.adventures.rows, IsPending)
    ensures n <= |s.adventures.rows|
  {
    if sessionUser.None? || fault then 0
    else if StaffUser(s.users, sessionUser.value) then Count(s.adventures.rows, IsPending)
    else 0
  }

  // ---------------------------------------------------------------- log_statistic

  /** SQLite `date(stamp)` of a stored timestamp: its leading 'YYYY-MM-DD'. */
  function DayOf(stamp: string): Option<string>
  {
    if |stamp| >= 10 then Some(stamp[..10]) else None
  }

  function StatKey(x: Statistic): (string, Option<string>)
  {
    (x.name, DayOf(x.stamp))
  }

  /** The effect of `log_statistic` on the statistics table when no error occurs. */
  function Logged(t: Table<Statistic>, name: string, increment: int, clock: Clock): Table<Statistic>
  {
    var k := IndexOf(t.rows, StatKey, (name, Some(clock.today)));
    if k >= 0 then SetVal(t, k, t.rows[k].val.(value := t.rows[k].val.value + increment))
    else Insert(t, Statistic(name, increment, clock.now))
  }

  /** `log_statistic`: today's row for the statistic grows by `increment`, or a row
      holding `increment` is added; a database error is swallowed and changes nothing. */
  method LogStatistic(db: Database, name: string, increment: int, clock: Clock, fault: bool)
    requires db.Valid()
    modifies db
    ensures db.Valid()
    ensures db.State() == old(db.State()).(statistics := db.statistics)
    ensures db.statistics == if fault then old(db.statistics) else Logged(old(db.statistics), name, increment, clock)
  {
    if fault {
      return;
    }
    var k := IndexOf(db.statistics.rows, StatKey, (name, Some(clock.today)));
    if k >= 0 {
      var row := db.statistics.rows[k].val;
      db.statistics := SetVal(db.statistics, k, row.(value := row.value + increment));
    } else {
      db.statistics := Insert(db.statistics, Statistic(name, increment, clock.now));
    }
  }

  /** The sum of a statistic's values over the rows dated `day`. */
  function DayTotal(rows: seq<Row<Statistic>>, name: string, day: string): int
  {
    if rows == [] then 0
    else (if StatKey(rows[0].val) == (name, Some(day)) then rows[0].val.value else 0) +
         DayTotal(rows[1..], name, day)
  }

  lemma {:induction false} DayTotalSplit(a: seq<Row<Statistic>>, b: seq<Row<Statistic>>, name: string, day: string)
    ensures DayTotal(a + b, name, day) == DayTotal(a, name, day) + DayTotal(b, name, day)
  {
    if a == [] {
      assert a + b == b;
    } else {
      assert (a + b)[1..] == a[1..] + b;
      DayTotalSplit(a[1..], b, name, day);
    }
  }

  lemma DayTotalSingle(x: Row<Statistic>, name: string, day: string)
    ensures DayTotal([x], name, day) == if StatKey(x.val) == (name, Some(day)) then x.val.value else 0
  {
    assert [x][1..] == [];
  }

  /** Replacing one row changes a total by that row's share only. */
  lemma DayTotalReplace(rows: seq<Row<Statistic>>, k: nat, x: Row<Statistic>, name: string, day: string)
    requires k < |rows|
    ensures DayTotal(rows[k := x], name, day) ==
      DayTotal(rows, name, day) - DayTotal([rows[k]], name, day) + DayTotal([x], name, day)
  {
    var pre, post := rows[..k], rows[k + 1..];
    assert rows == pre + [rows[k]] + post;
    assert rows[k := x] == pre + [x] + post;
    DayTotalSplit(pre + [rows[k]], post, name, day);
    DayTotalSplit(pre, [rows[k]], name, day);
    DayTotalSplit(pre + [x], post, name, day);
    DayTotalSplit(pre, [x], name, day);
  }

  /** Logging adds exactly `increment` to today's total of that statistic and leaves
      every other (statistic, day) total as it was. */
  lemma LoggedTotals(t: Table<Statistic>, name: string, increment: int, clock: Clock, other: string, day: string)
    requires DayOf(clock.now) == Some(clock.today)
    ensures DayTotal(Logged(t, name, increment, clock).rows, other, day) ==
      DayTotal(t.rows, other, day) + (if (other, day) == (name, clock.today) then increment else 0)
  {
    var k := IndexOf(t.rows, StatKey, (name, Some(clock.today)));
    var r := Logged(t, name, increment, clock);
    if k >= 0 {
      assert r.rows == t.rows[k := r.rows[k]];
      DayTotalReplace(t.rows, k, r.rows[k], other, day);
      DayTotalSingle(t.rows[k], other, day);
      DayTotalSingle(r.rows[k], other, day);
    } else {
      DayTotalSplit(t.rows, [r.rows[|t.rows|]], other, day);
      DayTotalSingle(r.rows[|t.rows|], other, day);
    }
  }

  /** With the clock consistent, logging keeps at most one row per statistic per day. */
  lemma LoggedOnePerDay(t: Table<Statistic>, name: string, increment: int, clock: Clock)
    requires DayOf(clock.now) == Some(clock.today)
    requires UniqueBy(t.rows, StatKey)
    ensures UniqueBy(Logged(t, name, increment, clock).rows, StatKey)
  {
    var k := IndexOf(t.rows, StatKey, (name, Some(clock.today)));
    if k >= 0 {
      UniqueAfterSet(t, k, t.rows[k].val.(value := t.rows[k].val.value + increment), StatKey);
    } else {
      UniqueAfterInsert(t, Statistic(name, increment, clock.now), StatKey);
    }
  }
}
