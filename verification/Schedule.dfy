/** Mission schedules: the two stored forms, and normalising either into the current one. */
module Schedule {
  import opened Keys
  import opened Wrappers
  import Seqs

  // ---------------------------------------------------------------------------------------------
  // Text
  // ---------------------------------------------------------------------------------------------

  /** The class `\s`, which is also what `trim` removes. */
  predicate IsSpace(c: char) {
    || '\U{0009}' <= c <= '\U{000D}' || c == '\U{0020}' || c == '\U{00A0}' || c == '\U{1680}'
    || '\U{2000}' <= c <= '\U{200A}' || c == '\U{2028}' || c == '\U{2029}' || c == '\U{202F}' || c == '\U{205F}'
    || c == '\U{3000}' || c == '\U{FEFF}'
  }

  function TrimStart(s: string): (t: string)
    ensures t == "" || !IsSpace(t[0])
    ensures s != "" && !IsSpace(s[0]) ==> t == s
  {
    if s != "" && IsSpace(s[0]) then TrimStart(s[1..]) else s
  }

  function TrimEnd(s: string): (t: string)
    ensures t <= s
    ensures t == "" || !IsSpace(t[|t| - 1])
    ensures s != "" && !IsSpace(s[|s| - 1]) ==> t == s
  {
    if s != "" && IsSpace(s[|s| - 1]) then TrimEnd(s[..|s| - 1]) else s
  }

  function Trim(s: string): (t: string)
    ensures t == "" || (!IsSpace(t[0]) && !IsSpace(t[|t| - 1]))
    ensures s != "" && !IsSpace(s[0]) && !IsSpace(s[|s| - 1]) ==> t == s
  {
    TrimEnd(TrimStart(s))
  }

  lemma TrimTwice(s: string)
    ensures Trim(Trim(s)) == Trim(s)
  {
  }

  function FieldLength(s: string): (n: nat)
    ensures n <= |s|
    ensures s != "" && !IsSpace(s[0]) ==> n > 0
  {
    if s == "" || IsSpace(s[0]) then 0 else 1 + FieldLength(s[1..])
  }

  /** The pieces between runs of whitespace. */
  function Fields(s: string): seq<string>
    decreases |s|
  {
    if s == "" then []
    else if IsSpace(s[0]) then Fields(s[1..])
    else [s[..FieldLength(s)]] + Fields(s[FieldLength(s)..])
  }

  // ---------------------------------------------------------------------------------------------
  // Times of day
  // ---------------------------------------------------------------------------------------------

  function Pad2(n: nat): (s: string)
    requires n < 100
    ensures |s| == 2 && IsDigit(s[0]) && IsDigit(s[1])
    ensures 10 * DigitValue(s[0]) + DigitValue(s[1]) == n
  {
    [DigitChar(n / 10), DigitChar(n % 10)]
  }

  function FormatTime(hour: nat, minute: nat): (s: string)
    requires hour < 100 && minute < 100
    ensures |s| == 5
  {
    Pad2(hour) + ":" + Pad2(minute)
  }

  /** `([01]?\d|2[0-3]):([0-5]\d)` on the trimmed text, as numbers. */
  function ParseTime(value: string): (r: Option<(nat, nat)>)
    ensures r.Some? ==> r.value.0 <= 23 && r.value.1 <= 59
  {
    var t := Trim(value);
    if |t| == 4 && IsDigit(t[0]) && t[1] == ':' && '0' <= t[2] <= '5' && IsDigit(t[3]) then
      Some((DigitValue(t[0]), 10 * DigitValue(t[2]) + DigitValue(t[3])))
    else if |t| == 5 && IsDigit(t[0]) && IsDigit(t[1]) && t[2] == ':' && '0' <= t[3] <= '5' && IsDigit(t[4])
            && 10 * DigitValue(t[0]) + DigitValue(t[1]) <= 23 then
      Some((10 * DigitValue(t[0]) + DigitValue(t[1]), 10 * DigitValue(t[3]) + DigitValue(t[4])))
    else None
  }

  /** A formatted time reads back exactly when it is a time of day. */
  lemma TimeReadsBack(hour: nat, minute: nat)
    requires hour < 100 && minute < 100
    ensures ParseTime(FormatTime(hour, minute))
         == if hour <= 23 && minute <= 59 then Some((hour, minute)) else None
  {
    var h, m := Pad2(hour), Pad2(minute);
    var t := FormatTime(hour, minute);
    assert t[0] == h[0] && t[1] == h[1] && t[2] == ':' && t[3] == m[0] && t[4] == m[1];
    assert Trim(t) == t;
    assert m[0] <= '5' <==> DigitValue(m[0]) <= 5;
  }

  // ---------------------------------------------------------------------------------------------
  // Schedules
  // ---------------------------------------------------------------------------------------------

  datatype Kind = Daily | Weekdays | Weekly | EveryMinutes | Custom

  datatype Schedule = Schedule(kind: Kind, time: Option<string>, weekday: Option<nat>, interval: Option<nat>,
                               cron: string)

  /**
   * What may be stored: an old cron text, a record whose fields may be missing or of the wrong type
   * (both `None`; a weekday that is not an integer too), or neither.
   */
  datatype Stored =
    | Text(cron: string)
    | Record(kind: Option<Kind>, time: Option<string>, weekday: Option<int>, interval: Option<real>,
      cronText: Option<string>)
    | Neither

  const DEFAULT_CRON := "0 9 * * *"

  /** `\d{1,2}` as a number. */
  function OneOrTwoDigits(s: string): (r: Option<nat>)
    ensures r.Some? ==> r.value < 100
  {
    if |s| == 1 && IsDigit(s[0]) then Some(DigitValue(s[0]))
    else if |s| == 2 && IsDigit(s[0]) && IsDigit(s[1]) then Some(10 * DigitValue(s[0]) + DigitValue(s[1]))
    else None
  }

  /** A cron text with a fixed time: minute, hour, kind and weekday. */
  datatype FixedForm = FixedForm(minute: nat, hour: nat, kind: Kind, weekday: Option<nat>)

  function ParseFixed(cron: string): (r: Option<FixedForm>)
    ensures r.Some? ==> r.value.minute < 100 && r.value.hour < 100
    ensures r.Some? ==> (r.value.weekday.Some? <==> r.value.kind == Weekly)
    ensures r.Some? ==> (r.value.kind == Daily || r.value.kind == Weekdays || r.value.kind == Weekly)
    ensures r.Some? && r.value.weekday.Some? ==> r.value.weekday.value <= 6
  {
    var f := Fields(cron);
    if |f| != 5 || f[2] != "*" || f[3] != "*" then None
    else
      var minute, hour := OneOrTwoDigits(f[0]), OneOrTwoDigits(f[1]);
      if minute.None? || hour.None? then None
      else if f[4] == "1-5" then Some(FixedForm(minute.value, hour.value, Weekdays, None))
      else if |f[4]| == 1 && '0' <= f[4][0] <= '6' then
        Some(FixedForm(minute.value, hour.value, Weekly, Some(DigitValue(f[4][0]))))
      else if f[4] == "*" then Some(FixedForm(minute.value, hour.value, Daily, None))
      else None
  }

  /** `*` `/` and digits, every other field a star: the interval, clamped, with 0 read as 15. */
  function ParseEvery(cron: string): (r: Option<nat>)
    ensures r.Some? ==> 1 <= r.value <= 1440
  {
    var f := Fields(cron);
    if |f| == 5 && |f[0]| > 2 && f[0][..2] == "*/" && Digits(f[0][2..]) && f[1] == f[2] == f[3] == f[4] == "*" then
      var n := Value(f[0][2..]);
      Some(if n == 0 then 15 else if n > 1440 then 1440 else n)
    else None
  }

  function EveryCron(interval: nat): string {
    "*/" + Decimal(interval) + " * * * *"
  }

  function FixedCron(minute: nat, hour: nat, kind: Kind, weekday: nat): string {
    Decimal(minute) + " " + Decimal(hour) + " * * "
    + (if kind == Weekdays then "1-5" else if kind == Weekly then Decimal(weekday) else "*")
  }

  function ParseLegacyCron(raw: string): Schedule {
    var cron := Trim(raw);
    var every := ParseEvery(cron);
    var fixed := ParseFixed(cron);
    if every.Some? then Schedule(EveryMinutes, None, None, every, EveryCron(every.value))
    else if fixed.Some? then
      var f := fixed.value;
      Schedule(f.kind, Some(FormatTime(f.hour, f.minute)), f.weekday, None,
               FixedCron(f.minute, f.hour, f.kind, if f.weekday.Some? then f.weekday.value else 0))
    else Schedule(Custom, None, None, None, if cron == "" then DEFAULT_CRON else cron)
  }

  function NormaliseWeekday(value: Option<int>): (r: nat)
    ensures r <= 6
  {
    if value.Some? && 0 <= value.value <= 6 then value.value else 1
  }

  /** Truncation towards zero, so anything below 1 is no interval. */
  function NormaliseInterval(value: Option<real>): (r: nat)
    ensures 1 <= r <= 1440
  {
    if value.None? || value.value < 1.0 then 15
    else if value.value.Floor > 1440 then 1440
    else value.value.Floor
  }

  function TimeOf(time: Option<string>): (r: (nat, nat))
    ensures r.0 <= 23 && r.1 <= 59
  {
    var parsed := if time.Some? then ParseTime(time.value) else None;
    if parsed.Some? then parsed.value else (9, 0)
  }

  /** An explicit cron text, trimmed, unless it is blank. */
  function CronOr(explicit: Option<string>, derived: string): string {
    if explicit.Some? && Trim(explicit.value) != "" then Trim(explicit.value) else derived
  }

  function NormaliseRecord(r: Stored): Schedule
    requires r.Record?
  {
    var kind := if r.kind.Some? then r.kind.value else Daily;
    var (hour, minute) := TimeOf(r.time);
    var weekday, interval := NormaliseWeekday(r.weekday), NormaliseInterval(r.interval);
    match kind
    case EveryMinutes => Schedule(kind, None, None, Some(interval), CronOr(r.cronText, EveryCron(interval)))
    case Custom => Schedule(kind, None, None, None, CronOr(r.cronText, DEFAULT_CRON))
    case _ =>
      Schedule(kind, Some(FormatTime(hour, minute)), if kind == Weekly then Some(weekday) else None, None,
               CronOr(r.cronText, FixedCron(minute, hour, kind, weekday)))
  }

  function Normalise(s: Stored): Schedule {
    match s
    case Text(cron) => ParseLegacyCron(cron)
    case Record(_, _, _, _, _) => NormaliseRecord(s)
    case Neither => Schedule(Daily, Some(FormatTime(9, 0)), None, None, DEFAULT_CRON)
  }

  /** A normalised schedule as it is stored and read again. */
  function AsStored(s: Schedule): Stored {
    Record(Some(s.kind), s.time, if s.weekday.Some? then Some(s.weekday.value as int) else None,
           if s.interval.Some? then Some(s.interval.value as real) else None, Some(s.cron))
  }

  /** The one input normalising does not settle at once: an old cron text with a time no clock shows. */
  predicate ImpossibleTime(s: Stored) {
    s.Text?
    && var fixed := ParseFixed(Trim(s.cron));
       ParseEvery(Trim(s.cron)).None? && fixed.Some? && (fixed.value.hour > 23 || fixed.value.minute > 59)
  }

  ghost predicate Solid(cron: string) {
    cron != "" && Trim(cron) == cron
  }

  lemma DecimalEnds(n: nat)
    ensures !IsSpace(Decimal(n)[0]) && !IsSpace(Decimal(n)[|Decimal(n)| - 1])
  {
    assert IsDigit(Decimal(n)[0]) && IsDigit(Decimal(n)[|Decimal(n)| - 1]);
  }

  lemma EveryCronSolid(interval: nat)
    ensures Solid(EveryCron(interval))
  {
    var cron := EveryCron(interval);
    assert cron[0] == '*' && cron[|cron| - 1] == '*';
  }

  lemma FixedCronSolid(minute: nat, hour: nat, kind: Kind, weekday: nat)
    ensures Solid(FixedCron(minute, hour, kind, weekday))
  {
    var tail := if kind == Weekdays then "1-5" else if kind == Weekly then Decimal(weekday) else "*";
    var head := Decimal(minute) + " " + Decimal(hour) + " * * ";
    var cron := FixedCron(minute, hour, kind, weekday);
    assert cron == head + tail;
    DecimalEnds(minute);
    DecimalEnds(weekday);
    assert cron[0] == Decimal(minute)[0] && cron[|cron| - 1] == tail[|tail| - 1];
  }

  lemma CronOrSolid(explicit: Option<string>, derived: string)
    requires Solid(derived)
    ensures Solid(CronOr(explicit, derived))
  {
    if explicit.Some? {
      TrimTwice(explicit.value);
    }
  }

  lemma DefaultCronSolid()
    ensures Solid(DEFAULT_CRON)
  {
    assert DEFAULT_CRON[0] == '0' && DEFAULT_CRON[|DEFAULT_CRON| - 1] == '*';
  }

  /** What every normalised schedule looks like, apart from its time of day being real. */
  ghost predicate Shaped(s: Schedule) {
    Solid(s.cron)
    && match s.kind
       case EveryMinutes => s.time.None? && s.weekday.None? && s.interval.Some? && 1 <= s.interval.value <= 1440
       case Custom => s.time.None? && s.weekday.None? && s.interval.None?
       case _ => s.time.Some? && s.interval.None? && (s.weekday.Some? <==> s.kind == Weekly)
                 && (s.weekday.Some? ==> s.weekday.value <= 6)
  }

  lemma LegacyIsShaped(raw: string)
    ensures Shaped(ParseLegacyCron(raw))
  {
    var cron := Trim(raw);
    DefaultCronSolid();
    TrimTwice(raw);
    if ParseEvery(cron).Some? {
      EveryCronSolid(ParseEvery(cron).value);
    } else if ParseFixed(cron).Some? {
      var f := ParseFixed(cron).value;
      FixedCronSolid(f.minute, f.hour, f.kind, if f.weekday.Some? then f.weekday.value else 0);
    }
  }

  lemma RecordIsShaped(s: Stored)
    requires s.Record?
    ensures Shaped(NormaliseRecord(s))
  {
    var kind := if s.kind.Some? then s.kind.value else Daily;
    var (hour, minute) := TimeOf(s.time);
    var weekday, interval := NormaliseWeekday(s.weekday), NormaliseInterval(s.interval);
    DefaultCronSolid();
    EveryCronSolid(interval);
    FixedCronSolid(minute, hour, kind, weekday);
    var derived := match kind
                   case EveryMinutes => EveryCron(interval)
                   case Custom => DEFAULT_CRON
                   case _ => FixedCron(minute, hour, kind, weekday);
    CronOrSolid(s.cronText, derived);
    assert NormaliseRecord(s).cron == CronOr(s.cronText, derived);
  }

  lemma NormalisedIsShaped(s: Stored)
    ensures Shaped(Normalise(s))
  {
    match s
    case Neither => DefaultCronSolid();
    case Text(raw) => LegacyIsShaped(raw);
    case Record(_, _, _, _, _) => RecordIsShaped(s);
  }

  /** Reading a shaped schedule back changes its time at most, to what the time reads as. */
  lemma ReadBack(s: Schedule)
    requires Shaped(s)
    ensures Normalise(AsStored(s))
         == if s.time.Some? then s.(time := Some(FormatTime(TimeOf(s.time).0, TimeOf(s.time).1))) else s
  {
    if s.interval.Some? {
      assert (s.interval.value as real).Floor == s.interval.value;
    }
  }

  lemma FormatReadsBack(hour: nat, minute: nat)
    requires hour < 100 && minute < 100
    ensures var (h, m) := TimeOf(Some(FormatTime(hour, minute)));
            FormatTime(h, m) == FormatTime(hour, minute) <==> hour <= 23 && minute <= 59
  {
    TimeReadsBack(hour, minute);
    TimeReadsBack(9, 0);
    var (h, m) := TimeOf(Some(FormatTime(hour, minute)));
    if hour <= 23 && minute <= 59 {
      assert h == hour && m == minute;
    } else {
      assert ParseTime(FormatTime(h, m)).Some?;
      assert ParseTime(FormatTime(hour, minute)).None?;
    }
  }

  lemma SettledIff(once: Schedule)
    requires Shaped(once)
    ensures Normalise(AsStored(once)) == once <==>
            (once.time.Some? ==> FormatTime(TimeOf(once.time).0, TimeOf(once.time).1) == once.time.value)
  {
    ReadBack(once);
  }

  /** The time a normalised schedule shows, and whether a clock shows it. */
  lemma ShownTime(s: Stored) returns (hour: nat, minute: nat)
    ensures hour < 100 && minute < 100
    ensures Normalise(s).time.Some? ==> Normalise(s).time == Some(FormatTime(hour, minute))
    ensures ImpossibleTime(s) <==> Normalise(s).time.Some? && !(hour <= 23 && minute <= 59)
  {
    hour, minute := 9, 0;
    match s
    case Neither =>
    case Text(raw) => hour, minute := ShownLegacyTime(raw);
    case Record(_, _, _, _, _) => hour, minute := TimeOf(s.time).0, TimeOf(s.time).1;
  }

  lemma ShownLegacyTime(raw: string) returns (hour: nat, minute: nat)
    ensures hour < 100 && minute < 100
    ensures var once := ParseLegacyCron(raw);
            && (once.time.Some? ==> once.time == Some(FormatTime(hour, minute)))
            && (ImpossibleTime(Text(raw)) <==> once.time.Some? && !(hour <= 23 && minute <= 59))
  {
    var fixed := ParseFixed(Trim(raw));
    hour, minute := 9, 0;
    if fixed.Some? {
      hour, minute := fixed.value.hour, fixed.value.minute;
    }
  }

  /** Normalising twice is normalising once, exactly for the inputs without an impossible time. */
  lemma NormaliseIdempotentIff(s: Stored)
    ensures Normalise(AsStored(Normalise(s))) == Normalise(s) <==> !ImpossibleTime(s)
  {
    NormalisedIsShaped(s);
    SettledIff(Normalise(s));
    var hour, minute := ShownTime(s);
    FormatReadsBack(hour, minute);
  }

  /** Even then, the second reading settles it. */
  lemma NormaliseSettles(s: Stored)
    ensures var once := Normalise(s);
            var twice := Normalise(AsStored(once));
            Normalise(AsStored(twice)) == twice
  {
    NormaliseIdempotentIff(AsStored(Normalise(s)));
  }

  lemma {:induction false} FieldThenRest(field: string, rest: string)
    requires forall i :: 0 <= i < |field| ==> !IsSpace(field[i])
    requires rest == "" || IsSpace(rest[0])
    ensures FieldLength(field + rest) == |field|
  {
    if field == "" {
      assert field + rest == rest;
    } else {
      FieldThenRest(field[1..], rest);
      assert (field + rest)[1..] == field[1..] + rest;
    }
  }

  predicate IsField(s: string) {
    s != "" && forall i :: 0 <= i < |s| ==> !IsSpace(s[i])
  }

  lemma FieldsStep(field: string, rest: string)
    requires IsField(field)
    ensures Fields(field + (" " + rest)) == [field] + Fields(rest)
  {
    var s := field + (" " + rest);
    FieldThenRest(field, " " + rest);
    assert s[..|field|] == field && s[|field|..] == " " + rest;
    assert (" " + rest)[1..] == rest;
  }

  lemma OneField(field: string)
    requires IsField(field)
    ensures Fields(field) == [field]
  {
    FieldThenRest(field, "");
    assert field + "" == field && field[..|field|] == field && field[|field|..] == "";
  }

  lemma FiveFields(a: string, b: string, c: string, d: string, e: string)
    requires IsField(a) && IsField(b) && IsField(c) && IsField(d) && IsField(e)
    ensures Fields(a + (" " + (b + (" " + (c + (" " + (d + (" " + e)))))))) == [a, b, c, d, e]
  {
    OneField(e);
    FieldsStep(d, e);
    FieldsStep(c, d + (" " + e));
    FieldsStep(b, c + (" " + (d + (" " + e))));
    FieldsStep(a, b + (" " + (c + (" " + (d + (" " + e))))));
  }

  lemma DecimalField(n: nat)
    requires n < 100
    ensures IsField(Decimal(n)) && OneOrTwoDigits(Decimal(n)) == Some(n)
  {
    ValueOfDecimal(n);
    if n >= 10 {
      assert Decimal(n / 10) == [DigitChar(n / 10)];
      assert Decimal(n) == [DigitChar(n / 10), DigitChar(n % 10)];
    }
  }

  function LastField(kind: Kind, weekday: nat): string {
    if kind == Weekdays then "1-5" else if kind == Weekly then Decimal(weekday) else "*"
  }

  lemma FixedCronFields(minute: nat, hour: nat, kind: Kind, weekday: nat)
    requires minute < 100 && hour < 100 && weekday <= 6
    ensures Fields(FixedCron(minute, hour, kind, weekday))
         == [Decimal(minute), Decimal(hour), "*", "*", LastField(kind, weekday)]
  {
    var m, h, l := Decimal(minute), Decimal(hour), LastField(kind, weekday);
    DecimalField(minute);
    DecimalField(hour);
    DecimalField(weekday);
    FiveFields(m, h, "*", "*", l);
    CronNested(m, h, l);
    assert FixedCron(minute, hour, kind, weekday) == m + " " + h + " * * " + l;
  }

  lemma CronNested(m: string, h: string, l: string)
    ensures m + " " + h + " * * " + l == m + (" " + (h + (" " + ("*" + (" " + ("*" + (" " + l)))))))
  {
    var stars := " " + ("*" + (" " + ("*" + (" " + l))));
    assert " * * " + l == stars;
    Seqs.Regroup(m, " ", h, stars);
    Seqs.Regroup(m + " ", h, " * * ", l);
  }

  /** The cron text printed for a fixed time reads back as that time, for every two-digit hour and minute. */
  lemma FixedCronReadsBack(minute: nat, hour: nat, kind: Kind, weekday: nat)
    requires minute < 100 && hour < 100 && weekday <= 6 && (kind == Daily || kind == Weekdays || kind == Weekly)
    ensures var cron := FixedCron(minute, hour, kind, weekday);
            ParseFixed(cron) == Some(FixedForm(minute, hour, kind, if kind == Weekly then Some(weekday) else None))
            && ParseEvery(cron).None?
  {
    FixedCronFields(minute, hour, kind, weekday);
    DecimalField(minute);
    DecimalField(hour);
  }

  /** So the failing family is inhabited exactly by the clock-less times, such as minute 75 of hour 99. */
  lemma ImpossibleTimesExist(minute: nat, hour: nat, kind: Kind, weekday: nat)
    requires minute < 100 && hour < 100 && weekday <= 6 && (kind == Daily || kind == Weekdays || kind == Weekly)
    ensures ImpossibleTime(Text(FixedCron(minute, hour, kind, weekday))) <==> hour > 23 || minute > 59
  {
    FixedCronReadsBack(minute, hour, kind, weekday);
    FixedCronSolid(minute, hour, kind, weekday);
  }

  // ---------------------------------------------------------------------------------------------
  // What a normalised schedule means
  // ---------------------------------------------------------------------------------------------

  /** The hour stands before the colon and the minute after it, two digits each. */
  lemma TimeShows(hour: nat, minute: nat)
    requires hour < 100 && minute < 100
    ensures var t := FormatTime(hour, minute);
            && (forall i :: 0 <= i < 5 && i != 2 ==> IsDigit(t[i])) && t[2] == ':'
            && 10 * DigitValue(t[0]) + DigitValue(t[1]) == hour && 10 * DigitValue(t[3]) + DigitValue(t[4]) == minute
  {
    var h, m, t := Pad2(hour), Pad2(minute), FormatTime(hour, minute);
    assert t[0] == h[0] && t[1] == h[1] && t[2] == ':' && t[3] == m[0] && t[4] == m[1];
  }

  /** The cron text printed for an interval reads back as that interval. */
  lemma EveryCronReadsBack(interval: nat)
    requires 1 <= interval <= 1440
    ensures ParseEvery(EveryCron(interval)) == Some(interval)
  {
    var digits := Decimal(interval);
    var first := "*/" + digits;
    ValueOfDecimal(interval);
    assert first[..2] == "*/" && first[2..] == digits;
    assert forall i :: 0 <= i < |first| ==> first[i] == '*' || first[i] == '/' || IsDigit(first[i]);
    FiveFields(first, "*", "*", "*", "*");
    EveryNested(digits);
  }

  lemma EveryNested(digits: string)
    ensures "*/" + digits + " * * * *" ==
            ("*/" + digits) + (" " + ("*" + (" " + ("*" + (" " + ("*" + (" " + "*")))))))
  {
    assert " * * * *" == " " + ("*" + (" " + ("*" + (" " + ("*" + (" " + "*"))))));
  }

  /** A record without a cron text of its own gets the one that says what its other fields say. */
  lemma DerivedCronAgrees(r: Stored)
    requires r.Record? && (r.cronText.None? || Trim(r.cronText.value) == "")
    ensures var n := Normalise(r);
            match n.kind
            case EveryMinutes => ParseEvery(n.cron) == n.interval
            case Custom => n.cron == "0 9 * * *"
            case _ =>
              var f := ParseFixed(n.cron);
              f.Some? && n.time.Some? && ParseTime(n.time.value) == Some((f.value.hour, f.value.minute))
              && f.value.kind == n.kind && f.value.weekday == n.weekday && ParseEvery(n.cron).None?
  {
    var kind := if r.kind.Some? then r.kind.value else Daily;
    var (hour, minute) := TimeOf(r.time);
    if kind == EveryMinutes {
      EveryCronReadsBack(NormaliseInterval(r.interval));
    } else if kind != Custom {
      FixedCronReadsBack(minute, hour, kind, NormaliseWeekday(r.weekday));
      TimeReadsBack(hour, minute);
    }
  }

  /** A record keeps what is usable of its fields: kind, time, weekday, interval, and a cron text of its own. */
  lemma RecordKeepsFields(r: Stored)
    requires r.Record?
    ensures var n := Normalise(r);
            && n.kind == (if r.kind.Some? then r.kind.value else Daily)
            && (n.time.Some? ==>
                  ParseTime(n.time.value) ==
                  if r.time.Some? && ParseTime(r.time.value).Some? then ParseTime(r.time.value) else Some((9, 0)))
            && (n.weekday.Some? ==>
                  n.weekday.value ==
                  if r.weekday.Some? && 0 <= r.weekday.value <= 6 then r.weekday.value else 1)
            && (n.interval.Some? ==>
                  if r.interval.None? || r.interval.value < 1.0 then n.interval.value == 15
                  else if r.interval.value >= 1440.0 then n.interval.value == 1440
                  else n.interval.value as real <= r.interval.value < n.interval.value as real + 1.0)
            && (r.cronText.Some? && Trim(r.cronText.value) != "" ==> n.cron == Trim(r.cronText.value))
  {
    var (hour, minute) := TimeOf(r.time);
    TimeReadsBack(hour, minute);
  }

  /**
   An old cron text keeps its meaning: the interval, or minute, hour, kind and weekday; any other is kept as
   it is.
   */
  lemma LegacyKeepsMeaning(raw: string)
    ensures var n, every, fixed := Normalise(Text(raw)), ParseEvery(Trim(raw)), ParseFixed(Trim(raw));
            if every.Some? then n.kind == EveryMinutes && n.interval == every && ParseEvery(n.cron) == every
            else if fixed.Some? then
              ParseFixed(n.cron) == fixed && n.kind == fixed.value.kind && n.weekday == fixed.value.weekday
              && n.time == Some(FormatTime(fixed.value.hour, fixed.value.minute))
            else n.kind == Custom && n.cron == if Trim(raw) == "" then "0 9 * * *" else Trim(raw)
  {
    var every, fixed := ParseEvery(Trim(raw)), ParseFixed(Trim(raw));
    if every.Some? {
      EveryCronReadsBack(every.value);
    } else if fixed.Some? {
      var f := fixed.value;
      FixedCronReadsBack(f.minute, f.hour, f.kind, if f.weekday.Some? then f.weekday.value else 0);
    }
  }
}
