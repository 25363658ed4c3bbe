/** `parseUtcTimeFromZoneString` and `timeFromStdTime`: reading a timestamp
    written as Unix seconds or as an ISO 8601 date-time with an optional zone
    suffix, normalised to UTC. The two Boost string parsers are parameters. */
module DateTime {
  import opened Wrappers
  import opened Text

  /** A `boost::posix_time::ptime`: microseconds since 1970-01-01 00:00 UTC. */
  datatype Time = Time(micros: int)

  const MicrosPerSecond := 1_000_000
  const MicrosPerMinute := 60 * MicrosPerSecond

  /** `from_time_t`: the epoch plus `t` seconds. */
  function FromTimeT(t: int): Time {
    Time(t * MicrosPerSecond)
  }

  /** Whole seconds since the epoch, rounded down. */
  function StdTimeOf(time: Time): int {
    time.micros / MicrosPerSecond
  }

  /** `time -= boost::posix_time::minutes(m)`. */
  function MinusMinutes(time: Time, m: int): Time {
    Time(time.micros - m * MicrosPerMinute)
  }

  /** `from_time_t` loses nothing: the seconds read back are `t`. */
  lemma FromTimeTRoundTrip(t: int)
    ensures StdTimeOf(FromTimeT(t)) == t
  {
    assert FromTimeT(t).micros == t * MicrosPerSecond + 0;
  }

  /** The width of the platform's `long`: 32 bits where it is narrower than
      `time_t` (LLP64), 64 bits elsewhere (LP64). */
  datatype LongWidth = Long32 | Long64

  /** The first value past the largest `long` of the width. */
  function LongHalf(width: LongWidth): int {
    if width == Long32 then 0x8000_0000 else 0x8000_0000_0000_0000
  }

  /** `static_cast<long>(t)`: two's-complement wrap-around to the width. */
  function LongCast(t: int, width: LongWidth): (r: int)
    ensures -LongHalf(width) <= r < LongHalf(width)
    ensures -LongHalf(width) <= t < LongHalf(width) ==> r == t
  {
    var h := LongHalf(width);
    (t + h) % (2 * h) - h
  }

  /** `timeFromStdTime`: the epoch plus `static_cast<long>(t)` seconds. */
  function TimeFromStdTime(t: int, width: LongWidth): Time {
    FromTimeT(LongCast(t, width))
  }

  /** `timeFromStdTime` keeps exactly the seconds that survive the cast to
      `long`: every 64-bit `time_t` on an LP64 platform, but only those in
      the 32-bit range where `long` is 32 bits. */
  lemma StdTimeRoundTrip(t: int, width: LongWidth)
    ensures StdTimeOf(TimeFromStdTime(t, width)) == LongCast(t, width)
    ensures -LongHalf(width) <= t < LongHalf(width) <==> StdTimeOf(TimeFromStdTime(t, width)) == t
    ensures width == Long64 && -LLongMax - 1 <= t <= LLongMax ==> StdTimeOf(TimeFromStdTime(t, width)) == t
  {
    FromTimeTRoundTrip(LongCast(t, width));
  }

  /** With a 32-bit `long`, the first second of 2038-01-19 03:14:08 UTC
      (2^31) wraps around to 1901-12-13 20:45:52 UTC (-2^31); a 64-bit `long`
      keeps it. */
  lemma StdTimeTruncatedOnLong32()
    ensures StdTimeOf(TimeFromStdTime(0x8000_0000, Long32)) == -0x8000_0000
    ensures StdTimeOf(TimeFromStdTime(0x8000_0000, Long64)) == 0x8000_0000
  {
    assert LongCast(0x8000_0000, Long32) == -0x8000_0000;
    StdTimeRoundTrip(0x8000_0000, Long32);
    StdTimeRoundTrip(0x8000_0000, Long64);
  }

  // ---------------------------------------------------------------------
  // Number conversions

  const IntMin := -0x8000_0000
  const IntMax := 0x7fff_ffff
  const LLongMax := 0x7fff_ffff_ffff_ffff

  /** `std::stoll` of a string of digits: `None` when it throws (no digit at
      all, or a value beyond `long long`). */
  function StollDigits(s: string): (r: Option<int>)
    requires AllDigits(s)
    ensures r.Some? <==> |s| > 0 && DigitsValue(s) <= LLongMax
    ensures r.Some? ==> r.value == DigitsValue(s)
  {
    if |s| == 0 || DigitsValue(s) > LLongMax then None else Some(DigitsValue(s))
  }

  /** `std::isspace` in the C locale. */
  predicate IsSpace(c: char) {
    c == ' ' || '\t' <= c <= '\r'
  }

  /** The number of leading white-space characters. */
  function SpaceRun(s: string): (n: nat)
    ensures n <= |s| && forall i :: 0 <= i < n ==> IsSpace(s[i])
    ensures n < |s| ==> !IsSpace(s[n])
  {
    if |s| > 0 && IsSpace(s[0]) then 1 + SpaceRun(s[1..]) else 0
  }

  /** The number of leading digits. */
  function DigitRun(s: string): (n: nat)
    ensures n <= |s| && AllDigits(s[..n])
    ensures n < |s| ==> !IsDigit(s[n])
  {
    if |s| > 0 && IsDigit(s[0]) then
      var n := 1 + DigitRun(s[1..]);
      assert forall i :: 1 <= i < n ==> s[..n][i] == s[1..][..n - 1][i - 1];
      n
    else 0
  }

  /** `std::stoi`: skips white space, takes an optional sign and the longest
      run of digits after it; `None` when it throws (no digits, or a value
      outside `int`). */
  function Stoi(s: string): (r: Option<int>)
  {
    var rest := s[SpaceRun(s)..];
    var negative := |rest| > 0 && rest[0] == '-';
    var digits := if |rest| > 0 && (rest[0] == '-' || rest[0] == '+') then rest[1..] else rest;
    var n := DigitRun(digits);
    if n == 0 then None
    else
      var v := if negative then 0 - DigitsValue(digits[..n]) else DigitsValue(digits[..n]);
      if IntMin <= v <= IntMax then Some(v) else None
  }

  /** The number two digit characters write. */
  function TwoDigits(tens: char, ones: char): nat
    requires IsDigit(tens) && IsDigit(ones)
  {
    10 * DigitValue(tens) + DigitValue(ones)
  }

  /** The run of digits at the start of two digits is both of them. */
  lemma DigitRunTwo(d: string)
    requires |d| == 2 && IsDigit(d[0]) && IsDigit(d[1])
    ensures DigitRun(d) == 2 && d[..2] == d && DigitsValue(d) == TwoDigits(d[0], d[1])
  {
    assert DigitRun(d[1..][1..]) == 0;
    assert DigitRun(d[1..]) == 1;
    assert d[..1][..0] == [] && d[..1][0] == d[0];
    assert DigitsValue(d[..1]) == DigitValue(d[0]);
  }

  /** `std::stoi` of a sign and two digits. */
  lemma StoiSignedTwoDigits(s: string)
    requires |s| == 3 && (s[0] == '+' || s[0] == '-') && IsDigit(s[1]) && IsDigit(s[2])
    ensures Stoi(s) == Some(if s[0] == '-' then 0 - TwoDigits(s[1], s[2]) else TwoDigits(s[1], s[2]))
  {
    assert SpaceRun(s) == 0;
    assert s[0..] == s;
    DigitRunTwo(s[1..]);
  }

  /** `std::stoi` of two digits. */
  lemma StoiTwoDigits(s: string)
    requires |s| == 2 && IsDigit(s[0]) && IsDigit(s[1])
    ensures Stoi(s) == Some(TwoDigits(s[0], s[1]))
  {
    assert SpaceRun(s) == 0;
    assert s[0..] == s;
    DigitRunTwo(s);
  }

  // ---------------------------------------------------------------------
  // The zone suffix

  /** Where the zone suffix starts: the last 'Z'; else the last '+'; else the
      first '-' among the final six characters (`find` from `size() - 6`,
      which finds nothing when the string is shorter than six). */
  function ZonePos(s: string): (r: Option<nat>)
    ensures r.Some? ==> r.value < |s|
  {
    match RFindChar(s, 'Z')
    case Some(p) => Some(p)
    case None =>
      match RFindChar(s, '+')
      case Some(p) => Some(p)
      case None => if |s| >= 6 then FindCharFrom(s, '-', |s| - 6) else None
  }

  /** The string split into the part to parse and the zone suffix. */
  function SplitZone(s: string): (string, string) {
    match ZonePos(s)
    case None => (s, "")
    case Some(p) => (s[..p], s[p..])
  }

  /** The minutes to move the parsed time back by, or `None` when `std::stoi`
      throws. "Z" and no zone mean UTC. A zone of at most three characters is
      hours only; a longer one takes hours from its first three characters and
      minutes from its last two, and the minutes take the sign of the hours
      only when the hours are negative. */
  function ZoneOffsetMinutes(zone: string): Option<int> {
    if zone == "" || zone == "Z" then Some(0)
    else if |zone| <= 3 then
      match Stoi(zone)
      case None => None
      case Some(hours) => Some(hours * 60)
    else
      match Stoi(zone[..3])
      case None => None
      case Some(hours) =>
        match Stoi(zone[|zone| - 2..])
        case None => None
        case Some(minutes) => Some((if hours < 0 then 0 - minutes else minutes) + hours * 60)
  }

  /** The zone split puts the suffix back together with the rest, and the
      suffix starts with a zone marker or is empty. */
  lemma SplitZoneJoins(s: string)
    ensures SplitZone(s).0 + SplitZone(s).1 == s
    ensures var zone := SplitZone(s).1;
      zone == "" || zone[0] == 'Z' || zone[0] == '+' || zone[0] == '-'
  {
    match ZonePos(s)
    case None =>
    case Some(p) =>
      assert s[..p] + s[p..] == s;
  }

  /** No zone is split off exactly when there is no 'Z', no '+' and no '-'
      among the last six characters. */
  lemma SplitZoneNone(s: string)
    ensures SplitZone(s).1 == "" <==>
      'Z' !in s && '+' !in s && (|s| >= 6 ==> '-' !in s[|s| - 6..])
  {
    if 'Z' !in s && '+' !in s && (|s| >= 6 ==> '-' !in s[|s| - 6..]) {
      if |s| >= 6 {
        forall j | |s| - 6 <= j < |s| ensures s[j] != '-' {
          assert s[|s| - 6..][j - (|s| - 6)] == s[j];
        }
      }
    }
    if SplitZone(s).1 == "" {
      assert ZonePos(s).None?;
      if |s| >= 6 {
        var tail := s[|s| - 6..];
        forall k | 0 <= k < 6 ensures tail[k] != '-' {
          assert tail[k] == s[|s| - 6 + k];
        }
      }
    }
  }

  /** A "Z" zone starts at the last 'Z'. */
  lemma SplitZoneUtc(s: string)
    requires 'Z' in s
    ensures var zone := SplitZone(s).1;
      zone != "" && zone[0] == 'Z' && 'Z' !in zone[1..]
  {
    var p := RFindChar(s, 'Z').value;
    assert SplitZone(s).1 == s[p..];
    forall k | 0 <= k < |s[p..][1..]| ensures s[p..][1..][k] != 'Z' {
      assert s[p..][1..][k] == s[p + 1 + k];
    }
  }

  /** Without a 'Z', a '+' zone starts at the last '+'. */
  lemma SplitZonePlus(s: string)
    requires 'Z' !in s && '+' in s
    ensures var zone := SplitZone(s).1;
      zone != "" && zone[0] == '+' && '+' !in zone[1..]
  {
    var p := RFindChar(s, '+').value;
    assert SplitZone(s).1 == s[p..];
    forall k | 0 <= k < |s[p..][1..]| ensures s[p..][1..][k] != '+' {
      assert s[p..][1..][k] == s[p + 1 + k];
    }
  }

  /** Without a 'Z' or a '+', a '-' zone is at most six characters long and
      starts at the first '-' among the last six. */
  lemma SplitZoneMinus(s: string)
    requires 'Z' !in s && '+' !in s && |s| >= 6 && '-' in s[|s| - 6..]
    ensures var zone := SplitZone(s).1;
      zone != "" && zone[0] == '-' && |zone| <= 6 && '-' !in s[|s| - 6..|s| - |zone|]
  {
    assert RFindChar(s, 'Z').None? && RFindChar(s, '+').None?;
    var p := FindCharFrom(s, '-', |s| - 6);
    assert p.Some?;
    var zone := SplitZone(s).1;
    assert zone == s[p.value..];
    var before := s[|s| - 6..|s| - |zone|];
    forall k | 0 <= k < |before| ensures before[k] != '-' {
      assert before[k] == s[|s| - 6 + k];
    }
  }

  /** No shift for "Z" or no zone. */
  lemma ZoneOffsetUtc()
    ensures ZoneOffsetMinutes("") == Some(0) && ZoneOffsetMinutes("Z") == Some(0)
  {
  }

  /** "+hh" and "-hh": whole hours east or west of UTC. */
  lemma ZoneOffsetHours(zone: string)
    requires |zone| == 3 && (zone[0] == '+' || zone[0] == '-') && IsDigit(zone[1]) && IsDigit(zone[2])
    ensures var hours := TwoDigits(zone[1], zone[2]);
      ZoneOffsetMinutes(zone) == Some(if zone[0] == '+' then 60 * hours else -60 * hours)
  {
    StoiSignedTwoDigits(zone);
  }

  /** A zone longer than three characters combines the hours of its first
      three characters with the minutes of its last two. */
  lemma ZoneOffsetLong(zone: string, hours: int, minutes: int)
    requires |zone| > 3
    requires Stoi(zone[..3]) == Some(hours) && Stoi(zone[|zone| - 2..]) == Some(minutes)
    ensures ZoneOffsetMinutes(zone) == Some((if hours < 0 then 0 - minutes else minutes) + hours * 60)
  {
  }

  /** "+hhmm", "+hh:mm", "-hhmm" and "-hh:mm". The minutes count against the
      hours' sign only when the hours are negative, so a negative zone with
      zero hours ("-00:30") shifts the same way as the positive one. */
  lemma ZoneOffsetHoursMinutes(zone: string)
    requires |zone| == 5 || (|zone| == 6 && zone[3] == ':')
    requires (zone[0] == '+' || zone[0] == '-') && IsDigit(zone[1]) && IsDigit(zone[2])
    requires IsDigit(zone[|zone| - 2]) && IsDigit(zone[|zone| - 1])
    ensures var hours := TwoDigits(zone[1], zone[2]);
      var minutes := TwoDigits(zone[|zone| - 2], zone[|zone| - 1]);
      ZoneOffsetMinutes(zone) ==
        Some(if zone[0] == '+' then 60 * hours + minutes else if hours > 0 then -(60 * hours + minutes) else minutes)
  {
    var head := zone[..3];
    var tail := zone[|zone| - 2..];
    StoiSignedTwoDigits(head);
    StoiTwoDigits(tail);
    var hours: int := TwoDigits(zone[1], zone[2]);
    ZoneOffsetLong(zone, if zone[0] == '-' then 0 - hours else hours, TwoDigits(zone[|zone| - 2], zone[|zone| - 1]));
  }

  /** As written, "-00:30" is read as 30 minutes east, like "+00:30": the
      minutes take the sign of the hours, and "-00" is hour zero. */
  lemma NegativeZeroHourZone()
    ensures ZoneOffsetMinutes("-00:30") == ZoneOffsetMinutes("+00:30") == Some(30)
  {
    ZoneOffsetHoursMinutes("-00:30");
    ZoneOffsetHoursMinutes("+00:30");
  }

  // ---------------------------------------------------------------------
  // parseUtcTimeFromZoneString

  /** Where the date and time are separated: the first 'T', else the first
      space. */
  function SeparatorPos(t: string): (r: Option<nat>)
    ensures r.Some? ==> r.value < |t| && (t[r.value] == 'T' || t[r.value] == ' ')
  {
    match FindChar(t, 'T')
    case Some(p) => Some(p)
    case None => FindChar(t, ' ')
  }

  /** The inputs the source gives a meaning to: a Unix timestamp, or a
      date-time whose part before the zone has a separator. Without one the
      source writes to `timeStr[npos]`, which is undefined. */
  predicate Parsable(s: string) {
    AllDigits(s) || SeparatorPos(SplitZone(s).0).Some?
  }

  /** What `parseUtcTimeFromZoneString` returns and what `*pOutTime` holds
      afterwards. */
  datatype ParseResult = ParseResult(ok: bool, out: Time)

  /** `parseUtcTimeFromZoneString(s, pOutTime)` with `*pOutTime == prior`.
      `fromIsoString` and `timeFromString` are Boost's parsers of the basic
      ("20040101T000000") and the extended ("2004-01-01 00:00:00") layout;
      `None` is an exception. */
  function ZoneParse(s: string, prior: Time, fromIsoString: string -> Option<Time>,
                     timeFromString: string -> Option<Time>): ParseResult
    requires Parsable(s)
  {
    if AllDigits(s) then
      match StollDigits(s)
      case None => ParseResult(false, prior)
      case Some(seconds) => ParseResult(true, FromTimeT(seconds))
    else
      var (t, zone) := SplitZone(s);
      var p := SeparatorPos(t).value;
      var parsed := if '-' !in t then fromIsoString(t[p := 'T']) else timeFromString(t[p := ' ']);
      match parsed
      case None => ParseResult(false, prior)
      case Some(time) => ApplyZone(time, zone)
  }

  /** The last step: the parsed time is already in `*pOutTime`; it is moved
      back by the zone's offset, unless reading the offset throws. */
  function ApplyZone(time: Time, zone: string): ParseResult {
    match ZoneOffsetMinutes(zone)
    case None => ParseResult(false, time)
    case Some(m) => ParseResult(true, MinusMinutes(time, m))
  }

  /** The zone block of the parse: the minutes east of UTC, or `None` when a
      `std::stoi` throws. */
  method ReadZoneOffset(zoneStr: string) returns (offset: Option<int>)
    requires zoneStr != "" && zoneStr != "Z"
    ensures offset == ZoneOffsetMinutes(zoneStr)
  {
    var hours := 0;
    var minutes := 0;
    if |zoneStr| <= 3 {
      var h := Stoi(zoneStr);
      if h.None? {
        return None;
      }
      hours := h.value;
    } else {
      var h := Stoi(zoneStr[..3]);
      if h.None? {
        return None;
      }
      hours := h.value;
      var m := Stoi(zoneStr[|zoneStr| - 2..]);
      if m.None? {
        return None;
      }
      minutes := m.value;
    }
    if hours < 0 {
      minutes := -minutes;
    }
    minutes := minutes + hours * 60;
    return Some(minutes);
  }

  /** The parse, step by step as the source does it. */
  method ParseUtcTimeFromZoneString(timeStr: string, prior: Time, fromIsoString: string -> Option<Time>,
                                    timeFromString: string -> Option<Time>)
    returns (ok: bool, outTime: Time)
    requires Parsable(timeStr)
    ensures ParseResult(ok, outTime) == ZoneParse(timeStr, prior, fromIsoString, timeFromString)
  {
    outTime := prior;
    var str := timeStr;
    if AllDigits(str) {
      var timestamp := StollDigits(str);
      if timestamp.None? {
        return false, outTime;
      }
      outTime := FromTimeT(timestamp.value);
      return true, outTime;
    }
    var zoneStr := "";
    var zonePos := RFindChar(str, 'Z');
    if zonePos.None? {
      zonePos := RFindChar(str, '+');
      if zonePos.None? {
        zonePos := if |str| >= 6 then FindCharFrom(str, '-', |str| - 6) else None;
      }
    }
    assert zonePos == ZonePos(timeStr);
    if zonePos.Some? {
      zoneStr := str[zonePos.value..];
      str := str[..zonePos.value];
    }
    assert (str, zoneStr) == SplitZone(timeStr);
    var tPos := FindChar(str, 'T');
    if tPos.None? {
      tPos := FindChar(str, ' ');
    }
    assert tPos == SeparatorPos(str);
    var dashPos := FindChar(str, '-');
    var parsed;
    if dashPos.None? {
      assert '-' !in str;
      str := str[tPos.value := 'T'];
      parsed := fromIsoString(str);
    } else {
      str := str[tPos.value := ' '];
      parsed := timeFromString(str);
    }
    if parsed.None? {
      return false, outTime;
    }
    assert ZoneParse(timeStr, prior, fromIsoString, timeFromString) == ApplyZone(parsed.value, zoneStr);
    outTime := parsed.value;
    if zoneStr != "" && zoneStr != "Z" {
      var minutes := ReadZoneOffset(zoneStr);
      if minutes.None? {
        return false, outTime;
      }
      outTime := MinusMinutes(outTime, minutes.value);
    }
    return true, outTime;
  }

  /** A purely numeric string is a Unix timestamp: it parses when `std::stoll`
      accepts it, and then reads back as the same number of seconds; the
      empty string is numeric and fails. On failure `*pOutTime` is untouched. */
  lemma ParseTimestamp(s: string, prior: Time, fromIsoString: string -> Option<Time>,
                       timeFromString: string -> Option<Time>)
    requires AllDigits(s)
    ensures var r := ZoneParse(s, prior, fromIsoString, timeFromString);
      && (r.ok <==> |s| > 0 && DigitsValue(s) <= LLongMax)
      && (r.ok ==> StdTimeOf(r.out) == DigitsValue(s))
      && (!r.ok ==> r.out == prior)
  {
    if |s| > 0 && DigitsValue(s) <= LLongMax {
      FromTimeTRoundTrip(DigitsValue(s));
    }
  }

  /** Without a '-' before the zone the string is in the basic layout: the
      separator becomes 'T', only `from_iso_string` is consulted, and the
      result is its time moved back by the zone's offset. */
  lemma ParseBasic(s: string, prior: Time, fromIsoString: string -> Option<Time>,
                   timeFromString: string -> Option<Time>, otherExtended: string -> Option<Time>)
    requires Parsable(s) && !AllDigits(s)
    requires '-' !in SplitZone(s).0
    ensures var (t, zone) := SplitZone(s);
      var p := SeparatorPos(t).value;
      var r := ZoneParse(s, prior, fromIsoString, timeFromString);
      && r == ZoneParse(s, prior, fromIsoString, otherExtended)
      && (fromIsoString(t[p := 'T']).None? ==> r == ParseResult(false, prior))
      && (fromIsoString(t[p := 'T']).Some? && ZoneOffsetMinutes(zone).Some? ==>
            r == ParseResult(true, MinusMinutes(fromIsoString(t[p := 'T']).value, ZoneOffsetMinutes(zone).value)))
      && (fromIsoString(t[p := 'T']).Some? && ZoneOffsetMinutes(zone).None? ==>
            r == ParseResult(false, fromIsoString(t[p := 'T']).value))
  {
  }

  /** With a '-' before the zone the string is in the extended layout: the
      separator becomes a space and only `time_from_string` is consulted. */
  lemma ParseExtended(s: string, prior: Time, fromIsoString: string -> Option<Time>,
                      timeFromString: string -> Option<Time>, otherBasic: string -> Option<Time>)
    requires Parsable(s) && !AllDigits(s)
    requires '-' in SplitZone(s).0
    ensures var (t, zone) := SplitZone(s);
      var p := SeparatorPos(t).value;
      var r := ZoneParse(s, prior, fromIsoString, timeFromString);
      && r == ZoneParse(s, prior, otherBasic, timeFromString)
      && (timeFromString(t[p := ' ']).None? ==> r == ParseResult(false, prior))
      && (timeFromString(t[p := ' ']).Some? && ZoneOffsetMinutes(zone).Some? ==>
            r == ParseResult(true, MinusMinutes(timeFromString(t[p := ' ']).value, ZoneOffsetMinutes(zone).value)))
      && (timeFromString(t[p := ' ']).Some? && ZoneOffsetMinutes(zone).None? ==>
            r == ParseResult(false, timeFromString(t[p := ' ']).value))
  {
  }

  /** Appending a "-hh:mm" zone to a date-time without 'Z' or '+' splits it
      off again. */
  lemma SplitZoneAppendMinus(t: string, zone: string)
    requires 'Z' !in t && '+' !in t
    requires |zone| == 6 && zone[0] == '-' && forall k :: 0 <= k < 6 ==> zone[k] != 'Z' && zone[k] != '+'
    ensures SplitZone(t + zone) == (t, zone)
  {
    var s := t + zone;
    forall j | 0 <= j < |s| ensures s[j] != 'Z' && s[j] != '+' {
      if j < |t| {
        assert s[j] == t[j];
      } else {
        assert s[j] == zone[j - |t|];
      }
    }
    assert s[|t|] == '-';
    assert FindCharFrom(s, '-', |s| - 6) == Some(|t|);
    assert s[..|t|] == t && s[|t|..] == zone;
  }

  /** Appending a "+hh:mm" zone to a date-time without 'Z' or '+' splits it
      off again. */
  lemma SplitZoneAppendPlus(t: string, zone: string)
    requires 'Z' !in t && '+' !in t
    requires |zone| > 0 && zone[0] == '+' && forall k :: 0 <= k < |zone| ==> zone[k] != 'Z'
    requires forall k :: 1 <= k < |zone| ==> zone[k] != '+'
    ensures SplitZone(t + zone) == (t, zone)
  {
    var s := t + zone;
    forall j | 0 <= j < |s| ensures s[j] != 'Z' {
      if j < |t| {
        assert s[j] == t[j];
      } else {
        assert s[j] == zone[j - |t|];
      }
    }
    forall j | |t| < j < |s| ensures s[j] != '+' {
      assert s[j] == zone[j - |t|];
    }
    assert s[|t|] == '+';
    assert RFindChar(s, '+') == Some(|t|);
    assert s[..|t|] == t && s[|t|..] == zone;
  }

  /** A date-time without 'Z' or '+' and with a separator: "-00:30" and
      "+00:30" after it give the same result, 30 minutes east of UTC. */
  lemma ParseNegativeZeroHour(t: string, prior: Time, fromIsoString: string -> Option<Time>,
                              timeFromString: string -> Option<Time>)
    requires 'Z' !in t && '+' !in t && SeparatorPos(t).Some?
    ensures Parsable(t + "-00:30") && Parsable(t + "+00:30")
    ensures var r := ZoneParse(t + "-00:30", prior, fromIsoString, timeFromString);
      && r == ZoneParse(t + "+00:30", prior, fromIsoString, timeFromString)
      && (r.ok ==> exists time :: r.out == MinusMinutes(time, 30))
  {
    var minus := t + "-00:30";
    var plus := t + "+00:30";
    SplitZoneAppendMinus(t, "-00:30");
    SplitZoneAppendPlus(t, "+00:30");
    assert minus[|t|] == '-' && plus[|t|] == '+';
    assert !AllDigits(minus) && !AllDigits(plus);
    NegativeZeroHourZone();
    SameZoneOffsetSameParse(minus, plus, prior, fromIsoString, timeFromString);
  }

  /** Two inputs with the same date-time part and zones of the same offset
      parse alike; a success is a shift of some parsed time by that offset. */
  lemma SameZoneOffsetSameParse(s1: string, s2: string, prior: Time, fromIsoString: string -> Option<Time>,
                                timeFromString: string -> Option<Time>)
    requires !AllDigits(s1) && !AllDigits(s2)
    requires SplitZone(s1).0 == SplitZone(s2).0 && SeparatorPos(SplitZone(s1).0).Some?
    requires ZoneOffsetMinutes(SplitZone(s1).1) == ZoneOffsetMinutes(SplitZone(s2).1)
    ensures Parsable(s1) && Parsable(s2)
    ensures var r := ZoneParse(s1, prior, fromIsoString, timeFromString);
      && r == ZoneParse(s2, prior, fromIsoString, timeFromString)
      && (r.ok ==> exists time :: r.out == MinusMinutes(time, ZoneOffsetMinutes(SplitZone(s1).1).value))
  {
    var r := ZoneParse(s1, prior, fromIsoString, timeFromString);
    if r.ok {
      var t := SplitZone(s1).0;
      var p := SeparatorPos(t).value;
      var parsed := if '-' !in t then fromIsoString(t[p := 'T']) else timeFromString(t[p := ' ']);
      assert r == ApplyZone(parsed.value, SplitZone(s1).1);
      assert r.out == MinusMinutes(parsed.value, ZoneOffsetMinutes(SplitZone(s1).1).value);
    }
  }

  /** The date-time of the example below, split at its zone. */
  lemma WestExampleSplit()
    ensures SplitZone("2020-04-30T10:00:00-05:00") == ("2020-04-30T10:00:00", "-05:00")
    ensures !AllDigits("2020-04-30T10:00:00-05:00")
  {
    var t := "2020-04-30T10:00:00";
    SplitZoneAppendMinus(t, "-05:00");
    assert t + "-05:00" == "2020-04-30T10:00:00-05:00";
    assert !IsDigit("2020-04-30T10:00:00-05:00"[4]);
  }

  /** The part before the zone of the example below: extended, separated by 'T'. */
  lemma WestExampleSeparator()
    ensures SeparatorPos("2020-04-30T10:00:00") == Some(10)
    ensures '-' in "2020-04-30T10:00:00"
    ensures "2020-04-30T10:00:00"[10 := ' '] == "2020-04-30 10:00:00"
  {
    var t := "2020-04-30T10:00:00";
    assert t[10] == 'T' && FindChar(t, 'T') == Some(10);
    assert t[4] == '-';
  }

  /** The zone of the example below: five hours west of UTC. */
  lemma WestExampleZone()
    ensures ZoneOffsetMinutes("-05:00") == Some(-5 * 60)
  {
    ZoneOffsetHoursMinutes("-05:00");
  }

  /** An extended date-time five hours west of UTC is read by
      `time_from_string` with a space separator and moved five hours later. */
  lemma ParseExtendedWestExample(prior: Time, fromIsoString: string -> Option<Time>,
                                 timeFromString: string -> Option<Time>, local: Time)
    requires timeFromString("2020-04-30 10:00:00") == Some(local)
    ensures Parsable("2020-04-30T10:00:00-05:00")
    ensures ZoneParse("2020-04-30T10:00:00-05:00", prior, fromIsoString, timeFromString) ==
      ParseResult(true, MinusMinutes(local, -5 * 60))
  {
    WestExampleSplit();
    WestExampleSeparator();
    WestExampleZone();
    ParseExtended("2020-04-30T10:00:00-05:00", prior, fromIsoString, timeFromString, fromIsoString);
  }

  /** The date-time of the example below, split at its zone. */
  lemma BadZoneSplit()
    ensures SplitZone("2020-04-30T10:00:00-ab:cd") == ("2020-04-30T10:00:00", "-ab:cd")
    ensures !AllDigits("2020-04-30T10:00:00-ab:cd")
  {
    var t := "2020-04-30T10:00:00";
    SplitZoneAppendMinus(t, "-ab:cd");
    assert t + "-ab:cd" == "2020-04-30T10:00:00-ab:cd";
    assert !IsDigit("2020-04-30T10:00:00-ab:cd"[4]);
  }

  /** The zone of the example below: its hours are not a number. */
  lemma BadZoneOffset()
    ensures ZoneOffsetMinutes("-ab:cd") == None
  {
    var hours := "-ab:cd"[..3];
    assert hours == "-ab" && SpaceRun(hours) == 0;
    assert hours[0..][1..] == "ab";
    assert DigitRun("ab") == 0;
  }

  /** A zone `std::stoi` cannot read makes the parse fail, but the output
      already holds the date-time before the zone, not moved at all: the
      prior value is lost. */
  lemma ParseBadZoneExample(prior: Time, fromIsoString: string -> Option<Time>,
                            timeFromString: string -> Option<Time>, local: Time)
    requires timeFromString("2020-04-30 10:00:00") == Some(local)
    ensures Parsable("2020-04-30T10:00:00-ab:cd")
    ensures ZoneParse("2020-04-30T10:00:00-ab:cd", prior, fromIsoString, timeFromString) ==
      ParseResult(false, local)
  {
    BadZoneSplit();
    WestExampleSeparator();
    BadZoneOffset();
    ParseExtended("2020-04-30T10:00:00-ab:cd", prior, fromIsoString, timeFromString, fromIsoString);
  }

  /** A basic date-time in UTC is read by `from_iso_string` and not moved. */
  lemma ParseBasicUtcExample(prior: Time, fromIsoString: string -> Option<Time>,
                             timeFromString: string -> Option<Time>, utc: Time)
    requires fromIsoString("20200430T100000") == Some(utc)
    ensures Parsable("20200430T100000Z")
    ensures ZoneParse("20200430T100000Z", prior, fromIsoString, timeFromString) == ParseResult(true, utc)
  {
    var s := "20200430T100000Z";
    var t := "20200430T100000";
    assert s[15] == 'Z' && RFindChar(s, 'Z') == Some(15);
    assert s[..15] == t && s[15..] == "Z";
    assert !IsDigit(s[8]);
    assert t[8] == 'T' && FindChar(t, 'T') == Some(8);
    forall j | 0 <= j < |t| ensures t[j] != '-' {
    }
    assert t[8 := 'T'] == t;
  }
}
