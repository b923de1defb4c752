/** Dates, time zones and the two timestamp normalisers.

    The services lean on Python's `float()`, `datetime.strptime`,
    `datetime.fromisoformat`, Excel-serial arithmetic, `isoformat()` and
    `zoneinfo`. Those are not re-implemented here: a `Lib` value carries
    them as functions, and every contract is stated relative to it. The
    proleptic Gregorian calendar that `datetime` subtraction relies on is
    modelled in full. */
module Timestamps {
  import opened Common
  import Text

  /** A naive `datetime`. */
  datatype Civil = Civil(year: int, month: int, day: int,
                         hour: int, minute: int, second: int, micro: int)

  /** A `tzinfo`: a fixed UTC offset (`datetime.timezone`) or an IANA
      zone looked up by name (`zoneinfo.ZoneInfo`). */
  datatype Zone = Fixed(offsetSeconds: int) | Named(name: string)

  /** What `datetime.fromisoformat` returns: a civil time and, for an
      aware value, its offset. */
  datatype IsoValue = IsoValue(civil: Civil, zone: Option<Zone>)

  /** The Python library behaviours the normalisers call.
      - `parseFloat`: `float(s)` for a finite result, `None` where it
        raises `ValueError` (and for `nan`/`inf`, which `real` cannot hold)
      - `strptime`: `datetime.strptime(s, fmt)`, `None` on `ValueError`
      - `fromIsoFormat`: `datetime.fromisoformat(s)`, `None` on `ValueError`
      - `serialDate`: 1899-12-30 plus the given number of days, `None`
        where that addition raises `OverflowError`
      - `isoFormat`: `isoformat()` of a civil time carrying a zone
      - `zoneExists`: whether `ZoneInfo(name)` succeeds */
  datatype Lib = Lib(
    parseFloat: string -> Option<real>,
    strptime: (string, string) -> Option<Civil>,
    fromIsoFormat: string -> Option<IsoValue>,
    serialDate: real -> Option<Civil>,
    isoFormat: (Civil, Zone) -> string,
    zoneExists: string -> bool)

  datatype TimeError =
    | UnknownTimezone(name: string)
    | InvalidTimestamp(value: string)
    | SerialOverflow(value: string)
    | OffsetOutOfRange(quarters: int)

  /** `_tz_from_name`: the named zone, or an error for an unknown name. */
  function ZoneFromName(lib: Lib, name: string): (r: Result<Zone, TimeError>)
    ensures r.Ok? <==> lib.zoneExists(name)
    ensures r.Ok? ==> r.value == Named(name)
    ensures r.Err? ==> r.error == UnknownTimezone(name)
  {
    if lib.zoneExists(name) then Ok(Named(name)) else Err(UnknownTimezone(name))
  }

  /** `_tz_from_quarters`: an offset of `quarters` quarter-hours.
      `datetime.timezone` rejects offsets of a whole day or more. */
  function ZoneFromQuarters(quarters: int): (r: Result<Zone, TimeError>)
    ensures r.Ok? <==> -1440 < quarters * 15 < 1440
    ensures r.Ok? ==> r.value.Fixed? && r.value.offsetSeconds % 900 == 0
                      && -86400 < r.value.offsetSeconds < 86400
    ensures r.Err? ==> r.error == OffsetOutOfRange(quarters)
  {
    if -96 < quarters < 96 then Ok(Fixed(quarters * 900)) else Err(OffsetOutOfRange(quarters))
  }

  /** The quarter count can be read back from the offset it produced. */
  lemma ZoneFromQuartersInverse(quarters: int)
    requires ZoneFromQuarters(quarters).Ok?
    ensures ZoneFromQuarters(quarters).value.offsetSeconds / 900 == quarters
  {
  }

  // ---------------------------------------------------------------- calendar

  predicate IsLeap(y: int) {
    y % 4 == 0 && (y % 100 != 0 || y % 400 == 0)
  }

  function DaysInYear(y: int): int {
    if IsLeap(y) then 366 else 365
  }

  function DaysInMonth(y: int, m: int): int {
    if m == 2 then (if IsLeap(y) then 29 else 28)
    else if m == 4 || m == 6 || m == 9 || m == 11 then 30
    else 31
  }

  /** Days in the months of year `y` before month `m`. */
  function DaysBeforeMonth(y: int, m: int): int
    decreases m
  {
    if m <= 1 then 0 else DaysBeforeMonth(y, m - 1) + DaysInMonth(y, m - 1)
  }

  /** Days in the years before year `y`, counted from year 1. */
  function DaysBeforeYear(y: int): int {
    var y1 := y - 1;
    y1 * 365 + y1 / 4 - y1 / 100 + y1 / 400
  }

  /** The arguments `datetime(...)` accepts. */
  predicate ValidCivil(c: Civil) {
    1 <= c.year <= 9999 && 1 <= c.month <= 12 && 1 <= c.day <= DaysInMonth(c.year, c.month)
    && 0 <= c.hour < 24 && 0 <= c.minute < 60 && 0 <= c.second < 60
    && 0 <= c.micro < 1000000
  }

  /** `date.toordinal()`: 1 for 0001-01-01. */
  function Ordinal(c: Civil): int {
    DaysBeforeYear(c.year) + DaysBeforeMonth(c.year, c.month) + c.day
  }

  /** Whole seconds on the wall clock since 0001-01-01 00:00. Subtracting
      two datetimes that share one `tzinfo` compares exactly these. */
  function WallSeconds(c: Civil): int {
    Ordinal(c) * 86400 + c.hour * 3600 + c.minute * 60 + c.second
  }

  /** `(later - base).total_seconds()` for two whole-second datetimes with
      the same `tzinfo`. */
  function ElapsedSeconds(base: Civil, later: Civil): real {
    (WallSeconds(later) - WallSeconds(base)) as real
  }

  /** Strict chronological order of civil times, field by field. */
  predicate CivilBefore(a: Civil, b: Civil) {
    if a.year != b.year then a.year < b.year
    else if a.month != b.month then a.month < b.month
    else if a.day != b.day then a.day < b.day
    else if a.hour != b.hour then a.hour < b.hour
    else if a.minute != b.minute then a.minute < b.minute
    else a.second < b.second
  }

  lemma DaysBeforeYearStep(y: int)
    requires y >= 1
    ensures DaysBeforeYear(y + 1) == DaysBeforeYear(y) + DaysInYear(y)
  {
    LeapCountStep(y - 1);
    LeapDivisors(y);
    assert DaysInYear(y) == 365 + (if y % 4 == 0 then 1 else 0) - (if y % 100 == 0 then 1 else 0)
                                + (if y % 400 == 0 then 1 else 0);
  }

  /** Multiples of 400 are multiples of 100, which are multiples of 4. */
  lemma LeapDivisors(y: int)
    ensures y % 400 == 0 ==> y % 100 == 0
    ensures y % 100 == 0 ==> y % 4 == 0
  {
    if y % 400 == 0 {
      var k := y / 400;
      assert y == 400 * k;
      assert y / 100 == 4 * k;
    }
    if y % 100 == 0 {
      var m := y / 100;
      assert y == 100 * m;
      assert y / 4 == 25 * m;
    }
  }

  /** Counting the year after the first `y1`: it adds one to the number
      of multiples of 4, of 100 and of 400 exactly when it is one. */
  lemma LeapCountStep(y1: int)
    requires y1 >= 0
    ensures (y1 + 1) / 4 == y1 / 4 + (if (y1 + 1) % 4 == 0 then 1 else 0)
    ensures (y1 + 1) / 100 == y1 / 100 + (if (y1 + 1) % 100 == 0 then 1 else 0)
    ensures (y1 + 1) / 400 == y1 / 400 + (if (y1 + 1) % 400 == 0 then 1 else 0)
  {
  }

  lemma {:induction false} DaysBeforeYearGrows(y: int, z: int)
    requires 1 <= y <= z
    ensures DaysBeforeYear(y) + (z - y) * 365 <= DaysBeforeYear(z)
    decreases z - y
  {
    if y < z {
      DaysBeforeYearStep(y);
      DaysBeforeYearGrows(y + 1, z);
    }
  }

  lemma DaysBeforeMonthBound(y: int, m: int)
    requires 1 <= m <= 12
    ensures DaysBeforeMonth(y, m) + DaysInMonth(y, m) <= DaysInYear(y)
  {
    assert DaysBeforeMonth(y, 13) == DaysInYear(y) by {
      assert DaysBeforeMonth(y, 2) == 31;
      assert DaysBeforeMonth(y, 3) == 31 + DaysInMonth(y, 2);
      assert DaysBeforeMonth(y, 4) == DaysBeforeMonth(y, 3) + 31;
      assert DaysBeforeMonth(y, 5) == DaysBeforeMonth(y, 4) + 30;
      assert DaysBeforeMonth(y, 6) == DaysBeforeMonth(y, 5) + 31;
      assert DaysBeforeMonth(y, 7) == DaysBeforeMonth(y, 6) + 30;
      assert DaysBeforeMonth(y, 8) == DaysBeforeMonth(y, 7) + 31;
      assert DaysBeforeMonth(y, 9) == DaysBeforeMonth(y, 8) + 31;
      assert DaysBeforeMonth(y, 10) == DaysBeforeMonth(y, 9) + 30;
      assert DaysBeforeMonth(y, 11) == DaysBeforeMonth(y, 10) + 31;
      assert DaysBeforeMonth(y, 12) == DaysBeforeMonth(y, 11) + 30;
      assert DaysBeforeMonth(y, 13) == DaysBeforeMonth(y, 12) + 31;
    }
    DaysBeforeMonthMonotone(y, m + 1, 13);
  }

  lemma {:induction false} DaysBeforeMonthMonotone(y: int, m: int, n: int)
    requires m <= n
    ensures DaysBeforeMonth(y, m) <= DaysBeforeMonth(y, n)
    decreases n - m
  {
    if m < n {
      DaysBeforeMonthMonotone(y, m, n - 1);
      assert DaysInMonth(y, n - 1) >= 28;
    }
  }

  /** Within a valid date, the day of the year lies in the year. */
  lemma DayOfYearBounds(c: Civil)
    requires ValidCivil(c)
    ensures DaysBeforeYear(c.year) < Ordinal(c) <= DaysBeforeYear(c.year) + DaysInYear(c.year)
  {
    DaysBeforeMonthBound(c.year, c.month);
    DaysBeforeMonthMonotone(c.year, 1, c.month);
  }

  lemma DaysBeforeYearMonotone(y: int, z: int)
    requires 1 <= y <= z
    ensures DaysBeforeYear(y) <= DaysBeforeYear(z)
  {
    DaysBeforeYearGrows(y, z);
  }

  /** Every day of an earlier year precedes every day of a later one. */
  lemma OrdinalYearOrder(a: Civil, b: Civil)
    requires ValidCivil(a) && ValidCivil(b) && a.year < b.year
    ensures Ordinal(a) < Ordinal(b)
  {
    DayOfYearBounds(a);
    DayOfYearBounds(b);
    DaysBeforeYearStep(a.year);
    DaysBeforeYearMonotone(a.year + 1, b.year);
  }

  /** A strictly earlier day has a strictly smaller ordinal. */
  lemma OrdinalMonotone(a: Civil, b: Civil)
    requires ValidCivil(a) && ValidCivil(b)
    requires a.year < b.year || (a.year == b.year && (a.month < b.month || (a.month == b.month && a.day < b.day)))
    ensures Ordinal(a) < Ordinal(b)
  {
    if a.year < b.year {
      OrdinalYearOrder(a, b);
    } else if a.month < b.month {
      DaysBeforeMonthBound(a.year, a.month);
      DaysBeforeMonthMonotone(a.year, a.month + 1, b.month);
    }
  }

  /** Wall-clock seconds respect chronological order: a later sample has a
      strictly positive elapsed time relative to an earlier one. */
  lemma WallSecondsMonotone(a: Civil, b: Civil)
    requires ValidCivil(a) && ValidCivil(b) && CivilBefore(a, b)
    ensures WallSeconds(a) < WallSeconds(b)
    ensures ElapsedSeconds(a, b) > 0.0
  {
    if a.year != b.year || a.month != b.month || a.day != b.day {
      OrdinalMonotone(a, b);
    }
  }

  /** Equal civil times (down to the second) have zero elapsed time. */
  lemma ElapsedOfSame(a: Civil, b: Civil)
    requires a.year == b.year && a.month == b.month && a.day == b.day
    requires a.hour == b.hour && a.minute == b.minute && a.second == b.second
    ensures ElapsedSeconds(a, b) == 0.0
  {
  }

  // ---------------------------------------------------- registry timestamps

  /** The `strptime` formats the registry tries, in order. */
  const RegistryFormats: seq<string> := ["%Y-%m-%d %H:%M:%S", "%Y-%m-%d %H:%M", "%Y-%m-%d"]

  /** The first of `formats` that `strptime` accepts, with its value. */
  function FirstFormat(lib: Lib, value: string, formats: seq<string>): (r: Option<Civil>)
    ensures r.None? <==> forall i :: 0 <= i < |formats| ==> lib.strptime(value, formats[i]).None?
    ensures r.Some? ==> exists i :: 0 <= i < |formats| && lib.strptime(value, formats[i]) == r
                                    && forall j :: 0 <= j < i ==> lib.strptime(value, formats[j]).None?
  {
    if |formats| == 0 then None
    else match lib.strptime(value, formats[0])
      case Some(c) => Some(c)
      case None =>
        var r := FirstFormat(lib, value, formats[1..]);
        if r.Some? then
          ghost var i :| 0 <= i < |formats[1..]| && lib.strptime(value, formats[1..][i]) == r
                         && forall j :: 0 <= j < i ==> lib.strptime(value, formats[1..][j]).None?;
          assert lib.strptime(value, formats[i + 1]) == r;
          r
        else
          assert forall i :: 1 <= i < |formats| ==> formats[i] == formats[1..][i - 1];
          r
  }

  /** Whether `value` reads as an Excel serial day number (a number above 1000). */
  predicate IsSerial(lib: Lib, value: string) {
    lib.parseFloat(value).Some? && lib.parseFloat(value).value > 1000.0
  }

  /** The registry's `_normalize_timestamp`. A known default zone is
      required up front. Then an Excel serial number, one of the three
      `strptime` layouts, or an ISO-8601 value becomes ISO text in that
      zone (an ISO value with its own offset keeps it); anything else is
      kept verbatim. */
  function NormalizeRegistryTimestamp(lib: Lib, value: Option<string>, defaultTz: string)
    : (r: Result<Option<string>, TimeError>)
    ensures value.None? ==> r == Ok(None)
    ensures value.Some? && r.Ok? ==> r.value.Some?
    ensures r.Err? <==> value.Some? && (!lib.zoneExists(defaultTz)
                                        || (IsSerial(lib, value.value)
                                            && lib.serialDate(lib.parseFloat(value.value).value).None?))
    ensures r.Err? ==> r.error == UnknownTimezone(defaultTz) || r.error == SerialOverflow(value.value)
    ensures value.Some? && lib.zoneExists(defaultTz) && IsSerial(lib, value.value)
            && lib.serialDate(lib.parseFloat(value.value).value).Some?
            ==> r == Ok(Some(lib.isoFormat(lib.serialDate(lib.parseFloat(value.value).value).value, Named(defaultTz))))
    ensures value.Some? && lib.zoneExists(defaultTz) && !IsSerial(lib, value.value)
            && FirstFormat(lib, value.value, RegistryFormats).Some?
            ==> r == Ok(Some(lib.isoFormat(FirstFormat(lib, value.value, RegistryFormats).value, Named(defaultTz))))
    ensures value.Some? && lib.zoneExists(defaultTz) && !IsSerial(lib, value.value)
            && FirstFormat(lib, value.value, RegistryFormats).None? && lib.fromIsoFormat(value.value).Some?
            ==> r == Ok(Some(lib.isoFormat(lib.fromIsoFormat(value.value).value.civil,
                                           lib.fromIsoFormat(value.value).value.zone.GetOr(Named(defaultTz)))))
    ensures value.Some? && lib.zoneExists(defaultTz) && !IsSerial(lib, value.value)
            && FirstFormat(lib, value.value, RegistryFormats).None? && lib.fromIsoFormat(value.value).None?
            ==> r == Ok(value)
  {
    match value
    case None => Ok(None)
    case Some(v) =>
      var zone :- ZoneFromName(lib, defaultTz);
      if IsSerial(lib, v) then
        match lib.serialDate(lib.parseFloat(v).value)
        case None => Err(SerialOverflow(v))
        case Some(c) => Ok(Some(lib.isoFormat(c, zone)))
      else match FirstFormat(lib, v, RegistryFormats)
        case Some(c) => Ok(Some(lib.isoFormat(c, zone)))
        case None =>
          match lib.fromIsoFormat(v)
          case Some(iv) => Ok(Some(lib.isoFormat(iv.civil, iv.zone.GetOr(zone))))
          case None => Ok(Some(v))
  }

  /** A value no parser recognises is kept as it is: the registry never
      rejects a row over its timestamp. */
  lemma RegistryKeepsUnparsed(lib: Lib, v: string, defaultTz: string)
    requires lib.zoneExists(defaultTz)
    requires !IsSerial(lib, v)
    requires forall i :: 0 <= i < |RegistryFormats| ==> lib.strptime(v, RegistryFormats[i]).None?
    requires lib.fromIsoFormat(v).None?
    ensures NormalizeRegistryTimestamp(lib, Some(v), defaultTz) == Ok(Some(v))
  {
  }

  /** The layouts are tried in order: when the first layout matches, the
      others are not consulted. */
  lemma RegistryFirstLayoutWins(lib: Lib, v: string, defaultTz: string, c: Civil)
    requires lib.zoneExists(defaultTz) && !IsSerial(lib, v)
    requires lib.strptime(v, RegistryFormats[0]) == Some(c)
    ensures NormalizeRegistryTimestamp(lib, Some(v), defaultTz) == Ok(Some(lib.isoFormat(c, Named(defaultTz))))
  {
  }

  /** Library behaviour under which normalising is stable: ISO text the
      library writes is not a number and matches none of the `strptime`
      layouts, and reading it back yields an aware value that is written
      out the same way. */
  ghost predicate IsoTextStable(lib: Lib, s: string) {
    lib.parseFloat(s).None?
    && (forall i :: 0 <= i < |RegistryFormats| ==> lib.strptime(s, RegistryFormats[i]).None?)
    && lib.fromIsoFormat(s).Some? && lib.fromIsoFormat(s).value.zone.Some?
    && lib.isoFormat(lib.fromIsoFormat(s).value.civil, lib.fromIsoFormat(s).value.zone.value) == s
  }

  /** Normalising a registry timestamp a second time changes nothing,
      given the stability of the library's own ISO output. */
  lemma RegistryNormalizeIdempotent(lib: Lib, v: string, defaultTz: string)
    requires NormalizeRegistryTimestamp(lib, Some(v), defaultTz).Ok?
    requires var w := NormalizeRegistryTimestamp(lib, Some(v), defaultTz).value.value;
             w == v || IsoTextStable(lib, w)
    ensures var w := NormalizeRegistryTimestamp(lib, Some(v), defaultTz).value;
            NormalizeRegistryTimestamp(lib, w, defaultTz) == Ok(w)
  {
  }

  // ------------------------------------------------------ ingest timestamps

  /** The text handed to `fromisoformat`: a value ending in `Z` has every
      `Z` replaced by `+00:00`. */
  function IsoInput(value: string): (r: string)
    ensures !Text.EndsWith(value, "Z") ==> r == value
    ensures Text.EndsWith(value, "Z") ==> 'Z' !in r && Text.EndsWith(r, "+00:00")
    ensures Text.EndsWith(value, "Z") && 'Z' !in value[..|value| - 1] ==> r == value[..|value| - 1] + "+00:00"
  {
    if Text.EndsWith(value, "Z") then
      assert value[|value| - 1] == "Z"[0];
      Text.ReplaceAll(value, 'Z', "+00:00")
    else value
  }

  /** The ingest service's `_normalize_timestamp`: an unreadable value is
      an error; a naive value is placed in the default zone (which must
      exist); an aware value keeps its own offset. */
  function NormalizeIngestTimestamp(lib: Lib, value: Option<string>, defaultTz: string)
    : (r: Result<Option<string>, TimeError>)
    ensures value.None? ==> r == Ok(None)
    ensures value.Some? && r.Ok? ==> r.value.Some?
    ensures value.Some? && lib.fromIsoFormat(IsoInput(value.value)).None?
            ==> r == Err(InvalidTimestamp(value.value))
    ensures value.Some? && lib.fromIsoFormat(IsoInput(value.value)).Some?
            ==> (r.Err? <==> lib.fromIsoFormat(IsoInput(value.value)).value.zone.None?
                             && !lib.zoneExists(defaultTz))
    ensures value.Some? && lib.fromIsoFormat(IsoInput(value.value)).Some?
            && lib.fromIsoFormat(IsoInput(value.value)).value.zone.Some?
            ==> r == Ok(Some(lib.isoFormat(lib.fromIsoFormat(IsoInput(value.value)).value.civil,
                                           lib.fromIsoFormat(IsoInput(value.value)).value.zone.value)))
    ensures value.Some? && lib.fromIsoFormat(IsoInput(value.value)).Some?
            && lib.fromIsoFormat(IsoInput(value.value)).value.zone.None? && lib.zoneExists(defaultTz)
            ==> r == Ok(Some(lib.isoFormat(lib.fromIsoFormat(IsoInput(value.value)).value.civil, Named(defaultTz))))
    ensures r.Err? && value.Some? && lib.fromIsoFormat(IsoInput(value.value)).Some?
            ==> r.error == UnknownTimezone(defaultTz)
  {
    match value
    case None => Ok(None)
    case Some(v) =>
      match lib.fromIsoFormat(IsoInput(v))
      case None => Err(InvalidTimestamp(v))
      case Some(iv) =>
        match iv.zone
        case Some(z) => Ok(Some(lib.isoFormat(iv.civil, z)))
        case None =>
          var zone :- ZoneFromName(lib, defaultTz);
          Ok(Some(lib.isoFormat(iv.civil, zone)))
  }

  /** An aware timestamp does not depend on the default zone at all. */
  lemma IngestAwareIgnoresDefault(lib: Lib, v: string, tz1: string, tz2: string)
    requires lib.fromIsoFormat(IsoInput(v)).Some? && lib.fromIsoFormat(IsoInput(v)).value.zone.Some?
    ensures NormalizeIngestTimestamp(lib, Some(v), tz1) == NormalizeIngestTimestamp(lib, Some(v), tz2)
  {
  }

  /** A trailing `Z` means UTC: `...Z` reads exactly as `...+00:00`
      (only the error message, which quotes the raw value, differs). */
  lemma {:induction false} IngestZuluIsUtc(lib: Lib, v: string, defaultTz: string)
    requires 'Z' !in v
    ensures NormalizeIngestTimestamp(lib, Some(v + "Z"), defaultTz).Ok?
            == NormalizeIngestTimestamp(lib, Some(v + "+00:00"), defaultTz).Ok?
    ensures NormalizeIngestTimestamp(lib, Some(v + "Z"), defaultTz).Ok?
            ==> NormalizeIngestTimestamp(lib, Some(v + "Z"), defaultTz)
                == NormalizeIngestTimestamp(lib, Some(v + "+00:00"), defaultTz)
  {
    var s := v + "Z";
    assert s[|s| - 1] == 'Z';
    assert Text.EndsWith(s, "Z");
    assert s[..|s| - 1] == v;
    assert Text.ReplaceAll(v, 'Z', "+00:00") == v;
    assert Text.ReplaceAll(s, 'Z', "+00:00") == v + "+00:00";
    assert IsoInput(s) == v + "+00:00";
    var u := v + "+00:00";
    assert u[|u| - 1] == '0';
    assert !Text.EndsWith(u, "Z");
    assert IsoInput(u) == u;
  }

  /** Where the registry keeps an unreadable value, ingest rejects it. */
  lemma IngestRejectsWhatRegistryKeeps(lib: Lib, v: string, defaultTz: string)
    requires !Text.EndsWith(v, "Z")
    requires lib.zoneExists(defaultTz)
    requires !IsSerial(lib, v)
    requires forall i :: 0 <= i < |RegistryFormats| ==> lib.strptime(v, RegistryFormats[i]).None?
    requires lib.fromIsoFormat(v).None?
    ensures NormalizeRegistryTimestamp(lib, Some(v), defaultTz) == Ok(Some(v))
    ensures NormalizeIngestTimestamp(lib, Some(v), defaultTz) == Err(InvalidTimestamp(v))
  {
  }
}
