/**
 * The RMC and GGA decoders.  Each is a chain of field extractions; a failing
 * step returns its own negative code and leaves the record with whatever the
 * steps before it had already written, exactly as the C functions write into
 * the caller's structure as they go.
 */
module NmeaDecode {
  import opened CTypes
  import opened NmeaTypes
  import opened NmeaText

  /** The `char field[20]` buffer both decoders extract into. */
  const FIELD_SIZE: int := 20

  /** Field `k` as a decoder sees it: extracted into the 20-byte buffer and not empty. */
  predicate Present(s: seq<char>, k: nat) {
    var f := ExtractField(s, k, FIELD_SIZE);
    f.Some? && f.value != []
  }

  /** The text of a present field. */
  function Text(s: seq<char>, k: nat): seq<char>
    requires Present(s, k)
  {
    ExtractField(s, k, FIELD_SIZE).value
  }

  /** The first character of a present field, the one every switch looks at. */
  function Lead(s: seq<char>, k: nat): char
    requires Present(s, k)
  {
    Text(s, k)[0]
  }

  /** The positioning-mode letter of an RMC sentence mapped to a fix type. */
  function ModeFix(c: char): (f: FixType)
    ensures f != NoFix
    ensures f == Invalid <==> c !in "ADEFRPS"
  {
    match c
    case 'A' => Autonomous
    case 'D' => Differential
    case 'E' => Estimated
    case 'F' => RtkFloat
    case 'R' => RtkFixed
    case 'P' => Ppp
    case 'S' => Simulator
    case _ => Invalid
  }

  /** The GGA quality digit mapped to a fix type. */
  function QualityFix(c: char): (f: FixType)
    ensures f != NoFix
    ensures f == Invalid <==> c !in "123456"
  {
    match c
    case '1' => Autonomous
    case '2' => Differential
    case '3' => Ppp
    case '4' => RtkFixed
    case '5' => RtkFloat
    case '6' => Estimated
    case _ => Invalid
  }

  /** The hemisphere letters that negate a coordinate, and the unit letters that scale a height. */
  predicate IsSouth(c: char) { c == 'S' || c == 's' }
  predicate IsWest(c: char) { c == 'W' || c == 'w' }
  predicate IsFeet(c: char) { c == 'F' || c == 'f' }

  /** Every field an RMC sentence must carry for `nmea_parse_rmc` to succeed. */
  predicate RmcFieldsPresent(s: seq<char>) {
    Present(s, 1) && Present(s, 2) && Present(s, 3) && Present(s, 4)
    && Present(s, 5) && Present(s, 6) && Present(s, 9) && Present(s, 12)
  }

  /** Every field a GGA sentence must carry for `nmea_parse_gga` to succeed. */
  predicate GgaFieldsPresent(s: seq<char>) {
    Present(s, 1) && Present(s, 2) && Present(s, 3) && Present(s, 4)
    && Present(s, 5) && Present(s, 6) && Present(s, 7) && Present(s, 8)
    && Present(s, 9) && Present(s, 10) && Present(s, 11) && Present(s, 12)
  }

  /**
   * `nmea_parse_rmc(s, rec)` with `nowMs` the millisecond clock: the return
   * code and the record as the call leaves it.
   */
  function ParseRmc(s: CString, rec: RmcData, nowMs: u64): (out: (int, RmcData))
    ensures out.0 == 0 || -16 <= out.0 <= -2
    ensures out.0 == -2 <==> !ChecksumValid(s)
    ensures out.0 == -3 <==> ChecksumValid(s) && s[3..6] != "RMC"
    ensures out.0 == 0 <==> ChecksumValid(s) && s[3..6] == "RMC" && RmcFieldsPresent(s)
    ensures out.0 == 0 ==>
      && out.1.lastUpdateMs == nowMs
      && out.1.dataValid == (if Lead(s, 2) == 'A' then 1 else 0)
      && out.1.latitude == Measure(Text(s, 3), IsSouth(Lead(s, 4)))
      && out.1.longitude == Measure(Text(s, 5), IsWest(Lead(s, 6)))
      && out.1.fixType == ModeFix(Lead(s, 12))
      && out.1.fixType != NoFix
    ensures out.0 != 0 ==> out.1.lastUpdateMs == rec.lastUpdateMs && out.1.fixType == rec.fixType
    ensures out.0 in {-2, -3, -4} ==> out.1 == rec
  {
    if !ChecksumValid(s) then (-2, rec)
    else if s[3..6] != "RMC" then (-3, rec)
    else RmcStatus(s, rec, nowMs)
  }

  /** Field 2, the status letter: `A` is valid data, anything else is not. */
  function RmcStatus(s: seq<char>, rec: RmcData, nowMs: u64): (out: (int, RmcData))
    ensures out.0 == 0 || -16 <= out.0 <= -4
    ensures out.0 == 0 <==> RmcFieldsPresent(s)
    ensures out.0 == 0 ==>
      && out.1.lastUpdateMs == nowMs
      && out.1.dataValid == (if Lead(s, 2) == 'A' then 1 else 0)
      && out.1.latitude == Measure(Text(s, 3), IsSouth(Lead(s, 4)))
      && out.1.longitude == Measure(Text(s, 5), IsWest(Lead(s, 6)))
      && out.1.fixType == ModeFix(Lead(s, 12))
    ensures out.0 != 0 ==> out.1.lastUpdateMs == rec.lastUpdateMs && out.1.fixType == rec.fixType
    ensures out.0 == -4 ==> out.1 == rec
    ensures !Present(s, 2) ==> out.1 == rec
    ensures Present(s, 2) ==> out.1.dataValid == (if Lead(s, 2) == 'A' then 1 else 0)
  {
    match ExtractField(s, 2, FIELD_SIZE)
    case None => (-4, rec)
    case Some(status) =>
      if status == [] then (-5, rec)
      else RmcTime(s, rec.(dataValid := if status[0] == 'A' then 1 else 0), nowMs)
  }

  /** The clock fields as `sscanf` of a time field leaves them, the hundredths made milliseconds by a factor of ten. */
  function TimeOf(time: seq<char>, h: int, m: int, sec: int, ms: int): (int, int, int, int) {
    var (h', m', sec', cs) := ScanTime(time, h, m, sec, ms);
    (h', m', sec', WrapI32(cs * 10))
  }

  /** Field 1, `hhmmss.ss`: the hundredths become milliseconds by a factor of ten. */
  function RmcTime(s: seq<char>, rec: RmcData, nowMs: u64): (out: (int, RmcData))
    ensures out.0 == 0 || -16 <= out.0 <= -5
    ensures out.0 == 0 <==> Present(s, 1) && Present(s, 3) && Present(s, 4) && Present(s, 5)
                            && Present(s, 6) && Present(s, 9) && Present(s, 12)
    ensures out.0 == 0 ==>
      && out.1.lastUpdateMs == nowMs
      && out.1.latitude == Measure(Text(s, 3), IsSouth(Lead(s, 4)))
      && out.1.longitude == Measure(Text(s, 5), IsWest(Lead(s, 6)))
      && out.1.fixType == ModeFix(Lead(s, 12))
    ensures out.0 != 0 ==> out.1.lastUpdateMs == rec.lastUpdateMs && out.1.fixType == rec.fixType
    ensures out.1.dataValid == rec.dataValid
    ensures !Present(s, 1) ==> out.1 == rec
    ensures Present(s, 1) ==>
      (out.1.timeHour, out.1.timeMinute, out.1.timeSecond, out.1.timeMillisecond)
        == TimeOf(Text(s, 1), rec.timeHour, rec.timeMinute, rec.timeSecond, rec.timeMillisecond)
    ensures out.1 == rec.(timeHour := out.1.timeHour, timeMinute := out.1.timeMinute, timeSecond := out.1.timeSecond,
                          timeMillisecond := out.1.timeMillisecond, latitude := out.1.latitude,
                          longitude := out.1.longitude, dateDay := out.1.dateDay, dateMonth := out.1.dateMonth,
                          dateYear := out.1.dateYear, fixType := out.1.fixType, lastUpdateMs := out.1.lastUpdateMs)
  {
    match ExtractField(s, 1, FIELD_SIZE)
    case None => (-5, rec)
    case Some(time) =>
      if time == [] then (-6, rec) else
      var (h, m, sec, ms) := TimeOf(time, rec.timeHour, rec.timeMinute, rec.timeSecond, rec.timeMillisecond);
      RmcLatitude(s, rec.(timeHour := h, timeMinute := m, timeSecond := sec, timeMillisecond := ms), nowMs)
  }

  /** Fields 3 and 4: the latitude, negated for the southern hemisphere. */
  function RmcLatitude(s: seq<char>, rec: RmcData, nowMs: u64): (out: (int, RmcData))
    ensures out.0 == 0 || -16 <= out.0 <= -7
    ensures out.0 == 0 <==> Present(s, 3) && Present(s, 4) && Present(s, 5)
                            && Present(s, 6) && Present(s, 9) && Present(s, 12)
    ensures out.0 == 0 ==>
      && out.1.lastUpdateMs == nowMs
      && out.1.latitude == Measure(Text(s, 3), IsSouth(Lead(s, 4)))
      && out.1.longitude == Measure(Text(s, 5), IsWest(Lead(s, 6)))
      && out.1.fixType == ModeFix(Lead(s, 12))
    ensures out.0 != 0 ==> out.1.lastUpdateMs == rec.lastUpdateMs && out.1.fixType == rec.fixType
    ensures out.1.dataValid == rec.dataValid
    ensures out.1.timeHour == rec.timeHour && out.1.timeMinute == rec.timeMinute
    ensures out.1.timeSecond == rec.timeSecond && out.1.timeMillisecond == rec.timeMillisecond
    ensures !Present(s, 3) ==> out.1 == rec
    ensures Present(s, 3) ==> out.1.latitude == Measure(Text(s, 3), Present(s, 4) && IsSouth(Lead(s, 4)))
    ensures !Present(s, 4) ==> out.1 == rec.(latitude := out.1.latitude)
    ensures out.1 == rec.(latitude := out.1.latitude, longitude := out.1.longitude, dateDay := out.1.dateDay,
                          dateMonth := out.1.dateMonth, dateYear := out.1.dateYear, fixType := out.1.fixType,
                          lastUpdateMs := out.1.lastUpdateMs)
  {
    match ExtractField(s, 3, FIELD_SIZE)
    case None => (-7, rec)
    case Some(lat) =>
      if lat == [] then (-8, rec) else
      var r := rec.(latitude := Measure(lat, false));
      match ExtractField(s, 4, FIELD_SIZE)
      case None => (-9, r)
      case Some(ns) =>
        if ns == [] then (-10, r)
        else RmcLongitude(s, r.(latitude := Measure(lat, IsSouth(ns[0]))), nowMs)
  }

  /** Fields 5 and 6: the longitude, negated for the western hemisphere. */
  function RmcLongitude(s: seq<char>, rec: RmcData, nowMs: u64): (out: (int, RmcData))
    ensures out.0 == 0 || -16 <= out.0 <= -9
    ensures out.0 == 0 <==> Present(s, 5) && Present(s, 6) && Present(s, 9) && Present(s, 12)
    ensures out.0 == 0 ==>
      && out.1.lastUpdateMs == nowMs
      && out.1.longitude == Measure(Text(s, 5), IsWest(Lead(s, 6)))
      && out.1.fixType == ModeFix(Lead(s, 12))
    ensures out.0 != 0 ==> out.1.lastUpdateMs == rec.lastUpdateMs && out.1.fixType == rec.fixType
    ensures out.1 == rec.(longitude := out.1.longitude, dateDay := out.1.dateDay, dateMonth := out.1.dateMonth,
                          dateYear := out.1.dateYear, fixType := out.1.fixType, lastUpdateMs := out.1.lastUpdateMs)
    ensures !Present(s, 5) ==> out.1 == rec
    ensures Present(s, 5) ==> out.1.longitude == Measure(Text(s, 5), Present(s, 6) && IsWest(Lead(s, 6)))
    ensures !Present(s, 6) ==> out.1 == rec.(longitude := out.1.longitude)
  {
    match ExtractField(s, 5, FIELD_SIZE)
    case None => (-9, rec)
    case Some(lon) =>
      if lon == [] then (-10, rec) else
      var r := rec.(longitude := Measure(lon, false));
      match ExtractField(s, 6, FIELD_SIZE)
      case None => (-11, r)
      case Some(ew) =>
        if ew == [] then (-12, r)
        else RmcDate(s, r.(longitude := Measure(lon, IsWest(ew[0]))), nowMs)
  }

  /** Day, month and year as `sscanf` of a date field leaves them, the year moved into the 2000s. */
  function DateOf(date: seq<char>, day: int, month: int, year: int): (int, int, int) {
    var (d, m, y) := Scan3(date, day, month, year);
    (d, m, WrapI32(y + 2000))
  }

  /** Field 9, `ddmmyy`: the two-digit year is taken to be in the 2000s. */
  function RmcDate(s: seq<char>, rec: RmcData, nowMs: u64): (out: (int, RmcData))
    ensures out.0 == 0 || -16 <= out.0 <= -13
    ensures out.0 == 0 <==> Present(s, 9) && Present(s, 12)
    ensures out.0 == 0 ==> out.1.lastUpdateMs == nowMs && out.1.fixType == ModeFix(Lead(s, 12))
    ensures out.0 != 0 ==> out.1.lastUpdateMs == rec.lastUpdateMs && out.1.fixType == rec.fixType
    ensures out.1 == rec.(dateDay := out.1.dateDay, dateMonth := out.1.dateMonth, dateYear := out.1.dateYear,
                          fixType := out.1.fixType, lastUpdateMs := out.1.lastUpdateMs)
    ensures !Present(s, 9) ==> out.1 == rec
    ensures Present(s, 9) ==>
      (out.1.dateDay, out.1.dateMonth, out.1.dateYear) == DateOf(Text(s, 9), rec.dateDay, rec.dateMonth, rec.dateYear)
  {
    match ExtractField(s, 9, FIELD_SIZE)
    case None => (-13, rec)
    case Some(date) =>
      if date == [] then (-14, rec) else
      var (d, m, y) := DateOf(date, rec.dateDay, rec.dateMonth, rec.dateYear);
      RmcMode(s, rec.(dateDay := d, dateMonth := m, dateYear := y), nowMs)
  }

  /** Field 12, the positioning mode, and the update stamp of a complete sentence. */
  function RmcMode(s: seq<char>, rec: RmcData, nowMs: u64): (out: (int, RmcData))
    ensures out.0 == 0 || -16 <= out.0 <= -15
    ensures out.0 == 0 <==> Present(s, 12)
    ensures out.0 == 0 ==> out.1 == rec.(fixType := ModeFix(Lead(s, 12)), lastUpdateMs := nowMs)
    ensures out.0 != 0 ==> out.1 == rec
  {
    match ExtractField(s, 12, FIELD_SIZE)
    case None => (-15, rec)
    case Some(mode) =>
      if mode == [] then (-16, rec)
      else (0, rec.(fixType := ModeFix(mode[0]), lastUpdateMs := nowMs))
  }

  /**
   * `nmea_parse_gga(s, rec)` with `nowMs` the millisecond clock.  The
   * differential-correction fields are never written.
   */
  function ParseGga(s: CString, rec: GgaData, nowMs: u64): (out: (int, GgaData))
    ensures out.0 == 0 || -27 <= out.0 <= -2
    ensures out.0 == -2 <==> !ChecksumValid(s)
    ensures out.0 == -3 <==> ChecksumValid(s) && s[3..6] != "GGA"
    ensures out.0 == 0 <==> ChecksumValid(s) && s[3..6] == "GGA" && GgaFieldsPresent(s)
    ensures out.0 == 0 ==>
      && out.1.lastUpdateMs == nowMs
      && out.1.latitude == Measure(Text(s, 2), IsSouth(Lead(s, 3)))
      && out.1.longitude == Measure(Text(s, 4), IsWest(Lead(s, 5)))
      && out.1.fixType == QualityFix(Lead(s, 6))
      && out.1.fixType != NoFix
      && out.1.numSats == Atoi(Text(s, 7))
      && out.1.hdop == Measure(Text(s, 8), false)
      && out.1.altitude == Measure(Text(s, 9), IsFeet(Lead(s, 10)))
      && out.1.geoidalSeparation == Measure(Text(s, 11), IsFeet(Lead(s, 12)))
    ensures out.0 != 0 ==> out.1.lastUpdateMs == rec.lastUpdateMs
    ensures out.0 in {-2, -3, -4, -5} ==> out.1 == rec
    ensures out.1.ageOfDiffCorr == rec.ageOfDiffCorr && out.1.diffStationId == rec.diffStationId
  {
    if !ChecksumValid(s) then (-2, rec)
    else if s[3..6] != "GGA" then (-3, rec)
    else GgaTime(s, rec, nowMs)
  }

  /** Field 1, `hhmmss.ss`. */
  function GgaTime(s: seq<char>, rec: GgaData, nowMs: u64): (out: (int, GgaData))
    ensures out.0 == 0 || -27 <= out.0 <= -4
    ensures out.0 == 0 <==> GgaFieldsPresent(s)
    ensures out.0 == 0 ==>
      && out.1.lastUpdateMs == nowMs
      && out.1.latitude == Measure(Text(s, 2), IsSouth(Lead(s, 3)))
      && out.1.longitude == Measure(Text(s, 4), IsWest(Lead(s, 5)))
      && out.1.fixType == QualityFix(Lead(s, 6))
      && out.1.numSats == Atoi(Text(s, 7))
      && out.1.hdop == Measure(Text(s, 8), false)
      && out.1.altitude == Measure(Text(s, 9), IsFeet(Lead(s, 10)))
      && out.1.geoidalSeparation == Measure(Text(s, 11), IsFeet(Lead(s, 12)))
    ensures out.0 != 0 ==> out.1.lastUpdateMs == rec.lastUpdateMs
    ensures out.0 in {-4, -5} ==> out.1 == rec
    ensures out.1.ageOfDiffCorr == rec.ageOfDiffCorr && out.1.diffStationId == rec.diffStationId
    ensures !Present(s, 1) ==> out.1 == rec
    ensures Present(s, 1) ==>
      (out.1.timeHour, out.1.timeMinute, out.1.timeSecond, out.1.timeMillisecond)
        == TimeOf(Text(s, 1), rec.timeHour, rec.timeMinute, rec.timeSecond, rec.timeMillisecond)
  {
    match ExtractField(s, 1, FIELD_SIZE)
    case None => (-4, rec)
    case Some(time) =>
      if time == [] then (-5, rec) else
      var (h, m, sec, ms) := TimeOf(time, rec.timeHour, rec.timeMinute, rec.timeSecond, rec.timeMillisecond);
      GgaLatitude(s, rec.(timeHour := h, timeMinute := m, timeSecond := sec, timeMillisecond := ms), nowMs)
  }

  /** Fields 2 and 3: the latitude, negated for the southern hemisphere. */
  function GgaLatitude(s: seq<char>, rec: GgaData, nowMs: u64): (out: (int, GgaData))
    ensures out.0 == 0 || -27 <= out.0 <= -6
    ensures out.0 == 0 <==> (Present(s, 2) && Present(s, 3) && Present(s, 4) && Present(s, 5)
      && Present(s, 6) && Present(s, 7) && Present(s, 8) && Present(s, 9)
      && Present(s, 10) && Present(s, 11) && Present(s, 12))
    ensures out.0 == 0 ==>
      && out.1.lastUpdateMs == nowMs
      && out.1.latitude == Measure(Text(s, 2), IsSouth(Lead(s, 3)))
      && out.1.longitude == Measure(Text(s, 4), IsWest(Lead(s, 5)))
      && out.1.fixType == QualityFix(Lead(s, 6))
      && out.1.numSats == Atoi(Text(s, 7))
      && out.1.hdop == Measure(Text(s, 8), false)
      && out.1.altitude == Measure(Text(s, 9), IsFeet(Lead(s, 10)))
      && out.1.geoidalSeparation == Measure(Text(s, 11), IsFeet(Lead(s, 12)))
    ensures out.0 != 0 ==> out.1.lastUpdateMs == rec.lastUpdateMs
    ensures out.1 == rec.(latitude := out.1.latitude, longitude := out.1.longitude, fixType := out.1.fixType,
      numSats := out.1.numSats, hdop := out.1.hdop, altitude := out.1.altitude,
      geoidalSeparation := out.1.geoidalSeparation, lastUpdateMs := out.1.lastUpdateMs)
    ensures !Present(s, 2) ==> out.1 == rec
    ensures Present(s, 2) ==> out.1.latitude == Measure(Text(s, 2), Present(s, 3) && IsSouth(Lead(s, 3)))
    ensures !Present(s, 3) ==> out.1 == rec.(latitude := out.1.latitude)
  {
    match ExtractField(s, 2, FIELD_SIZE)
    case None => (-6, rec)
    case Some(lat) =>
      if lat == [] then (-7, rec) else
      var r := rec.(latitude := Measure(lat, false));
      match ExtractField(s, 3, FIELD_SIZE)
      case None => (-8, r)
      case Some(ns) =>
        if ns == [] then (-9, r)
        else GgaLongitude(s, r.(latitude := Measure(lat, IsSouth(ns[0]))), nowMs)
  }

  /** Fields 4 and 5: the longitude, negated for the western hemisphere. */
  function GgaLongitude(s: seq<char>, rec: GgaData, nowMs: u64): (out: (int, GgaData))
    ensures out.0 == 0 || -27 <= out.0 <= -10
    ensures out.0 == 0 <==> (Present(s, 4) && Present(s, 5)
      && Present(s, 6) && Present(s, 7) && Present(s, 8) && Present(s, 9)
      && Present(s, 10) && Present(s, 11) && Present(s, 12))
    ensures out.0 == 0 ==>
      && out.1.lastUpdateMs == nowMs
      && out.1.longitude == Measure(Text(s, 4), IsWest(Lead(s, 5)))
      && out.1.fixType == QualityFix(Lead(s, 6))
      && out.1.numSats == Atoi(Text(s, 7))
      && out.1.hdop == Measure(Text(s, 8), false)
      && out.1.altitude == Measure(Text(s, 9), IsFeet(Lead(s, 10)))
      && out.1.geoidalSeparation == Measure(Text(s, 11), IsFeet(Lead(s, 12)))
    ensures out.0 != 0 ==> out.1.lastUpdateMs == rec.lastUpdateMs
    ensures out.1 == rec.(longitude := out.1.longitude, fixType := out.1.fixType,
      numSats := out.1.numSats, hdop := out.1.hdop, altitude := out.1.altitude,
      geoidalSeparation := out.1.geoidalSeparation, lastUpdateMs := out.1.lastUpdateMs)
    ensures !Present(s, 4) ==> out.1 == rec
    ensures Present(s, 4) ==> out.1.longitude == Measure(Text(s, 4), Present(s, 5) && IsWest(Lead(s, 5)))
    ensures !Present(s, 5) ==> out.1 == rec.(longitude := out.1.longitude)
  {
    match ExtractField(s, 4, FIELD_SIZE)
    case None => (-10, rec)
    case Some(lon) =>
      if lon == [] then (-11, rec) else
      var r := rec.(longitude := Measure(lon, false));
      match ExtractField(s, 5, FIELD_SIZE)
      case None => (-12, r)
      case Some(ew) =>
        if ew == [] then (-13, r)
        else GgaQuality(s, r.(longitude := Measure(lon, IsWest(ew[0]))), nowMs)
  }

  /** Field 6, the fix-quality digit. */
  function GgaQuality(s: seq<char>, rec: GgaData, nowMs: u64): (out: (int, GgaData))
    ensures out.0 == 0 || -27 <= out.0 <= -14
    ensures out.0 == 0 <==> (Present(s, 6) && Present(s, 7) && Present(s, 8) && Present(s, 9)
      && Present(s, 10) && Present(s, 11) && Present(s, 12))
    ensures out.0 == 0 ==>
      && out.1.lastUpdateMs == nowMs
      && out.1.fixType == QualityFix(Lead(s, 6))
      && out.1.numSats == Atoi(Text(s, 7))
      && out.1.hdop == Measure(Text(s, 8), false)
      && out.1.altitude == Measure(Text(s, 9), IsFeet(Lead(s, 10)))
      && out.1.geoidalSeparation == Measure(Text(s, 11), IsFeet(Lead(s, 12)))
    ensures out.0 != 0 ==> out.1.lastUpdateMs == rec.lastUpdateMs
    ensures out.1 == rec.(fixType := out.1.fixType,
      numSats := out.1.numSats, hdop := out.1.hdop, altitude := out.1.altitude,
      geoidalSeparation := out.1.geoidalSeparation, lastUpdateMs := out.1.lastUpdateMs)
    ensures !Present(s, 6) ==> out.1 == rec
    ensures Present(s, 6) ==> out.1.fixType == QualityFix(Lead(s, 6))
  {
    match ExtractField(s, 6, FIELD_SIZE)
    case None => (-14, rec)
    case Some(quality) =>
      if quality == [] then (-15, rec)
      else GgaSatellites(s, rec.(fixType := QualityFix(quality[0])), nowMs)
  }

  /** Field 7, the number of satellites in use. */
  function GgaSatellites(s: seq<char>, rec: GgaData, nowMs: u64): (out: (int, GgaData))
    ensures out.0 == 0 || -27 <= out.0 <= -16
    ensures out.0 == 0 <==> (Present(s, 7) && Present(s, 8) && Present(s, 9)
      && Present(s, 10) && Present(s, 11) && Present(s, 12))
    ensures out.0 == 0 ==>
      && out.1.lastUpdateMs == nowMs
      && out.1.numSats == Atoi(Text(s, 7))
      && out.1.hdop == Measure(Text(s, 8), false)
      && out.1.altitude == Measure(Text(s, 9), IsFeet(Lead(s, 10)))
      && out.1.geoidalSeparation == Measure(Text(s, 11), IsFeet(Lead(s, 12)))
    ensures out.0 != 0 ==> out.1.lastUpdateMs == rec.lastUpdateMs
    ensures out.1 == rec.(numSats := out.1.numSats, hdop := out.1.hdop, altitude := out.1.altitude,
      geoidalSeparation := out.1.geoidalSeparation, lastUpdateMs := out.1.lastUpdateMs)
    ensures !Present(s, 7) ==> out.1 == rec
    ensures Present(s, 7) ==> out.1.numSats == Atoi(Text(s, 7))
  {
    match ExtractField(s, 7, FIELD_SIZE)
    case None => (-16, rec)
    case Some(sats) =>
      if sats == [] then (-17, rec)
      else GgaHdop(s, rec.(numSats := Atoi(sats)), nowMs)
  }

  /** Field 8, the horizontal dilution of precision. */
  function GgaHdop(s: seq<char>, rec: GgaData, nowMs: u64): (out: (int, GgaData))
    ensures out.0 == 0 || -27 <= out.0 <= -18
    ensures out.0 == 0 <==> Present(s, 8) && Present(s, 9) && Present(s, 10) && Present(s, 11) && Present(s, 12)
    ensures out.0 == 0 ==>
      && out.1.lastUpdateMs == nowMs
      && out.1.hdop == Measure(Text(s, 8), false)
      && out.1.altitude == Measure(Text(s, 9), IsFeet(Lead(s, 10)))
      && out.1.geoidalSeparation == Measure(Text(s, 11), IsFeet(Lead(s, 12)))
    ensures out.0 != 0 ==> out.1.lastUpdateMs == rec.lastUpdateMs
    ensures out.1 == rec.(hdop := out.1.hdop, altitude := out.1.altitude,
      geoidalSeparation := out.1.geoidalSeparation, lastUpdateMs := out.1.lastUpdateMs)
    ensures !Present(s, 8) ==> out.1 == rec
    ensures Present(s, 8) ==> out.1.hdop == Measure(Text(s, 8), false)
  {
    match ExtractField(s, 8, FIELD_SIZE)
    case None => (-18, rec)
    case Some(hdop) =>
      if hdop == [] then (-19, rec)
      else GgaAltitude(s, rec.(hdop := Measure(hdop, false)), nowMs)
  }

  /** Fields 9 and 10: the altitude, scaled to metres when given in feet. */
  function GgaAltitude(s: seq<char>, rec: GgaData, nowMs: u64): (out: (int, GgaData))
    ensures out.0 == 0 || -27 <= out.0 <= -20
    ensures out.0 == 0 <==> Present(s, 9) && Present(s, 10) && Present(s, 11) && Present(s, 12)
    ensures out.0 == 0 ==>
      && out.1.lastUpdateMs == nowMs
      && out.1.altitude == Measure(Text(s, 9), IsFeet(Lead(s, 10)))
      && out.1.geoidalSeparation == Measure(Text(s, 11), IsFeet(Lead(s, 12)))
    ensures out.0 != 0 ==> out.1.lastUpdateMs == rec.lastUpdateMs
    ensures out.1 == rec.(altitude := out.1.altitude,
      geoidalSeparation := out.1.geoidalSeparation, lastUpdateMs := out.1.lastUpdateMs)
    ensures !Present(s, 9) ==> out.1 == rec
    ensures Present(s, 9) ==> out.1.altitude == Measure(Text(s, 9), Present(s, 10) && IsFeet(Lead(s, 10)))
    ensures !Present(s, 10) ==> out.1 == rec.(altitude := out.1.altitude)
  {
    match ExtractField(s, 9, FIELD_SIZE)
    case None => (-20, rec)
    case Some(alt) =>
      if alt == [] then (-21, rec) else
      var r := rec.(altitude := Measure(alt, false));
      match ExtractField(s, 10, FIELD_SIZE)
      case None => (-22, r)
      case Some(unit) =>
        if unit == [] then (-23, r)
        else GgaGeoid(s, r.(altitude := Measure(alt, IsFeet(unit[0]))), nowMs)
  }

  /** Fields 11 and 12: the geoid separation, scaled when given in feet, and the update stamp. */
  function GgaGeoid(s: seq<char>, rec: GgaData, nowMs: u64): (out: (int, GgaData))
    ensures out.0 == 0 || -27 <= out.0 <= -24
    ensures out.0 == 0 <==> Present(s, 11) && Present(s, 12)
    ensures out.0 == 0 ==> out.1 == rec.(geoidalSeparation := Measure(Text(s, 11), IsFeet(Lead(s, 12))), lastUpdateMs := nowMs)
    ensures out.0 != 0 ==> out.1 == rec.(geoidalSeparation := out.1.geoidalSeparation)
    ensures !Present(s, 11) ==> out.1 == rec
    ensures Present(s, 11) ==> out.1.geoidalSeparation == Measure(Text(s, 11), Present(s, 12) && IsFeet(Lead(s, 12)))
  {
    match ExtractField(s, 11, FIELD_SIZE)
    case None => (-24, rec)
    case Some(sep) =>
      if sep == [] then (-25, rec) else
      var r := rec.(geoidalSeparation := Measure(sep, false));
      match ExtractField(s, 12, FIELD_SIZE)
      case None => (-26, r)
      case Some(unit) =>
        if unit == [] then (-27, r)
        else (0, r.(geoidalSeparation := Measure(sep, IsFeet(unit[0])), lastUpdateMs := nowMs))
  }

  // ---------------------------------------------------------------------------
  // The failure table
  // ---------------------------------------------------------------------------

  /** One required field of a decoder: its index, the code when it cannot be extracted, the code when it is empty. */
  datatype FieldStep = FieldStep(index: nat, missing: int, empty: int)

  /** The fields `nmea_parse_rmc` requires, in the order it reads them, with their codes. */
  const RMC_STEPS: seq<FieldStep> := [
    FieldStep(2, -4, -5), FieldStep(1, -5, -6), FieldStep(3, -7, -8), FieldStep(4, -9, -10),
    FieldStep(5, -9, -10), FieldStep(6, -11, -12), FieldStep(9, -13, -14), FieldStep(12, -15, -16)]

  /** The fields `nmea_parse_gga` requires, in the order it reads them, with their codes. */
  const GGA_STEPS: seq<FieldStep> := [
    FieldStep(1, -4, -5), FieldStep(2, -6, -7), FieldStep(3, -8, -9), FieldStep(4, -10, -11),
    FieldStep(5, -12, -13), FieldStep(6, -14, -15), FieldStep(7, -16, -17), FieldStep(8, -18, -19),
    FieldStep(9, -20, -21), FieldStep(10, -22, -23), FieldStep(11, -24, -25), FieldStep(12, -26, -27)]

  /** The number of steps from `j` on whose fields are present before the first that is missing or empty. */
  function PassedFrom(s: seq<char>, steps: seq<FieldStep>, j: nat): (k: nat)
    requires j <= |steps|
    ensures j <= k <= |steps|
    ensures forall i | j <= i < k :: Present(s, steps[i].index)
    ensures k < |steps| ==> !Present(s, steps[k].index)
    decreases |steps| - j
  {
    if j == |steps| || !Present(s, steps[j].index) then j else PassedFrom(s, steps, j + 1)
  }

  /** The code of step `k` failing (its `missing` or `empty` code), or 0 when `k` is past the last step. */
  function CodeAt(s: seq<char>, steps: seq<FieldStep>, k: nat): int
    requires k <= |steps|
  {
    if k == |steps| then 0
    else if ExtractField(s, steps[k].index, FIELD_SIZE).None? then steps[k].missing
    else steps[k].empty
  }

  /** The code `nmea_parse_rmc` returns, read off the table. */
  function RmcCode(s: CString): int {
    if !ChecksumValid(s) then -2
    else if s[3..6] != "RMC" then -3
    else CodeAt(s, RMC_STEPS, PassedFrom(s, RMC_STEPS, 0))
  }

  /** The code `nmea_parse_gga` returns, read off the table. */
  function GgaCode(s: CString): int {
    if !ChecksumValid(s) then -2
    else if s[3..6] != "GGA" then -3
    else CodeAt(s, GGA_STEPS, PassedFrom(s, GGA_STEPS, 0))
  }

  /** The RMC steps passed, spelled out field by field. */
  lemma RmcPassed(s: seq<char>)
    ensures PassedFrom(s, RMC_STEPS, 0)
         == if !Present(s, 2) then 0 else if !Present(s, 1) then 1 else if !Present(s, 3) then 2
            else if !Present(s, 4) then 3 else if !Present(s, 5) then 4 else if !Present(s, 6) then 5
            else if !Present(s, 9) then 6 else if !Present(s, 12) then 7 else 8
  {
    var t := RMC_STEPS;
    assert t[0].index == 2 && t[1].index == 1 && t[2].index == 3 && t[3].index == 4;
    assert t[4].index == 5 && t[5].index == 6 && t[6].index == 9 && t[7].index == 12;
    assert PassedFrom(s, t, 8) == 8;
    assert PassedFrom(s, t, 7) == if !Present(s, 12) then 7 else 8;
    assert PassedFrom(s, t, 6) == if !Present(s, 9) then 6 else PassedFrom(s, t, 7);
    assert PassedFrom(s, t, 5) == if !Present(s, 6) then 5 else PassedFrom(s, t, 6);
    assert PassedFrom(s, t, 4) == if !Present(s, 5) then 4 else PassedFrom(s, t, 5);
    assert PassedFrom(s, t, 3) == if !Present(s, 4) then 3 else PassedFrom(s, t, 4);
    assert PassedFrom(s, t, 2) == if !Present(s, 3) then 2 else PassedFrom(s, t, 3);
    assert PassedFrom(s, t, 1) == if !Present(s, 1) then 1 else PassedFrom(s, t, 2);
    assert PassedFrom(s, t, 0) == if !Present(s, 2) then 0 else PassedFrom(s, t, 1);
  }

  /**
   * The RMC decoder returns the code of the first missing or empty field in
   * the table, and leaves in the record exactly what the fields before that
   * one wrote: the status after field 2, the time after field 1, the
   * latitude after field 3 (its sign after field 4), the longitude after
   * field 5 (its sign after field 6), the date after field 9, and the fix
   * and stamp only on success.  Everything else keeps its old value.
   */
  lemma RmcFailureTable(s: CString, rec: RmcData, nowMs: u64)
    ensures ParseRmc(s, rec, nowMs).0 == RmcCode(s)
    ensures !(ChecksumValid(s) && s[3..6] == "RMC") ==> ParseRmc(s, rec, nowMs).1 == rec
    ensures ChecksumValid(s) && s[3..6] == "RMC" ==>
      var k := PassedFrom(s, RMC_STEPS, 0);
      var r := ParseRmc(s, rec, nowMs).1;
      && (k >= 1 ==> Present(s, 2)) && (k >= 2 ==> Present(s, 1)) && (k >= 3 ==> Present(s, 3))
      && (k >= 4 ==> Present(s, 4)) && (k >= 5 ==> Present(s, 5)) && (k >= 6 ==> Present(s, 6))
      && (k >= 7 ==> Present(s, 9)) && (k >= 8 ==> Present(s, 12))
      && r.dataValid == (if k >= 1 then (if Lead(s, 2) == 'A' then 1 else 0) else rec.dataValid)
      && (r.timeHour, r.timeMinute, r.timeSecond, r.timeMillisecond)
           == (if k >= 2 then TimeOf(Text(s, 1), rec.timeHour, rec.timeMinute, rec.timeSecond, rec.timeMillisecond)
               else (rec.timeHour, rec.timeMinute, rec.timeSecond, rec.timeMillisecond))
      && r.latitude == (if k >= 3 then Measure(Text(s, 3), k >= 4 && IsSouth(Lead(s, 4))) else rec.latitude)
      && r.longitude == (if k >= 5 then Measure(Text(s, 5), k >= 6 && IsWest(Lead(s, 6))) else rec.longitude)
      && (r.dateDay, r.dateMonth, r.dateYear)
           == (if k >= 7 then DateOf(Text(s, 9), rec.dateDay, rec.dateMonth, rec.dateYear)
               else (rec.dateDay, rec.dateMonth, rec.dateYear))
      && r.fixType == (if k == 8 then ModeFix(Lead(s, 12)) else rec.fixType)
      && r.lastUpdateMs == (if k == 8 then nowMs else rec.lastUpdateMs)
  {
    RmcPassed(s);
    assert RMC_STEPS[0] == FieldStep(2, -4, -5) && RMC_STEPS[1] == FieldStep(1, -5, -6);
    assert RMC_STEPS[2] == FieldStep(3, -7, -8) && RMC_STEPS[3] == FieldStep(4, -9, -10);
    assert RMC_STEPS[4] == FieldStep(5, -9, -10) && RMC_STEPS[5] == FieldStep(6, -11, -12);
    assert RMC_STEPS[6] == FieldStep(9, -13, -14) && RMC_STEPS[7] == FieldStep(12, -15, -16);
    if ChecksumValid(s) && s[3..6] == "RMC" {
      if !Present(s, 2) {
      } else if !Present(s, 1) {
      } else if !Present(s, 3) {
      } else if !Present(s, 4) {
      } else if !Present(s, 5) {
      } else if !Present(s, 6) {
      } else if !Present(s, 9) {
      } else if !Present(s, 12) {
      } else {
      }
    }
  }

  /** The GGA steps passed, spelled out field by field. */
  lemma GgaPassed(s: seq<char>)
    ensures PassedFrom(s, GGA_STEPS, 0)
         == if !Present(s, 1) then 0 else if !Present(s, 2) then 1 else if !Present(s, 3) then 2
            else if !Present(s, 4) then 3 else if !Present(s, 5) then 4 else if !Present(s, 6) then 5
            else if !Present(s, 7) then 6 else if !Present(s, 8) then 7 else if !Present(s, 9) then 8
            else if !Present(s, 10) then 9 else if !Present(s, 11) then 10 else if !Present(s, 12) then 11 else 12
  {
    var t := GGA_STEPS;
    assert forall i | 0 <= i < 12 :: t[i].index == i + 1;
    assert PassedFrom(s, t, 12) == 12;
    assert PassedFrom(s, t, 11) == if !Present(s, 12) then 11 else 12;
    assert PassedFrom(s, t, 10) == if !Present(s, 11) then 10 else PassedFrom(s, t, 11);
    assert PassedFrom(s, t, 9) == if !Present(s, 10) then 9 else PassedFrom(s, t, 10);
    assert PassedFrom(s, t, 8) == if !Present(s, 9) then 8 else PassedFrom(s, t, 9);
    assert PassedFrom(s, t, 7) == if !Present(s, 8) then 7 else PassedFrom(s, t, 8);
    assert PassedFrom(s, t, 6) == if !Present(s, 7) then 6 else PassedFrom(s, t, 7);
    assert PassedFrom(s, t, 5) == if !Present(s, 6) then 5 else PassedFrom(s, t, 6);
    assert PassedFrom(s, t, 4) == if !Present(s, 5) then 4 else PassedFrom(s, t, 5);
    assert PassedFrom(s, t, 3) == if !Present(s, 4) then 3 else PassedFrom(s, t, 4);
    assert PassedFrom(s, t, 2) == if !Present(s, 3) then 2 else PassedFrom(s, t, 3);
    assert PassedFrom(s, t, 1) == if !Present(s, 2) then 1 else PassedFrom(s, t, 2);
    assert PassedFrom(s, t, 0) == if !Present(s, 1) then 0 else PassedFrom(s, t, 1);
  }

  /** The GGA decoder's code is the first missing or empty field's entry in the table. */
  lemma GgaFailureCode(s: CString, rec: GgaData, nowMs: u64)
    ensures ParseGga(s, rec, nowMs).0 == GgaCode(s)
    ensures !(ChecksumValid(s) && s[3..6] == "GGA") ==> ParseGga(s, rec, nowMs).1 == rec
  {
    GgaPassed(s);
    var t := GGA_STEPS;
    assert t[0] == FieldStep(1, -4, -5) && t[1] == FieldStep(2, -6, -7) && t[2] == FieldStep(3, -8, -9);
    assert t[3] == FieldStep(4, -10, -11) && t[4] == FieldStep(5, -12, -13) && t[5] == FieldStep(6, -14, -15);
    assert t[6] == FieldStep(7, -16, -17) && t[7] == FieldStep(8, -18, -19) && t[8] == FieldStep(9, -20, -21);
    assert t[9] == FieldStep(10, -22, -23) && t[10] == FieldStep(11, -24, -25) && t[11] == FieldStep(12, -26, -27);
    if ChecksumValid(s) && s[3..6] == "GGA" {
      if !Present(s, 1) {
      } else if !Present(s, 2) {
      } else if !Present(s, 3) {
      } else if !Present(s, 4) {
      } else if !Present(s, 5) {
      } else if !Present(s, 6) {
      } else if !Present(s, 7) {
      } else if !Present(s, 8) {
      } else if !Present(s, 9) {
      } else if !Present(s, 10) {
      } else if !Present(s, 11) {
      } else if !Present(s, 12) {
      } else {
      }
    }
  }

  /**
   * On a GGA line the decoder leaves in the record exactly what the fields
   * before the first missing or empty one wrote: the time after field 1, the latitude after
   * field 2 (its sign after 3), the longitude after 4 (its sign after 5),
   * the fix after 6, the satellite count after 7, the HDOP after 8, the
   * altitude after 9 (its unit after 10), the geoid separation after 11
   * (its unit after 12), and the stamp only on success.
   */
  lemma GgaFailureTable(s: CString, rec: GgaData, nowMs: u64)
    ensures ChecksumValid(s) && s[3..6] == "GGA" ==>
      var k := PassedFrom(s, GGA_STEPS, 0);
      var r := ParseGga(s, rec, nowMs).1;
      && (k >= 1 ==> Present(s, 1)) && (k >= 2 ==> Present(s, 2)) && (k >= 3 ==> Present(s, 3))
      && (k >= 4 ==> Present(s, 4)) && (k >= 5 ==> Present(s, 5)) && (k >= 6 ==> Present(s, 6))
      && (k >= 7 ==> Present(s, 7)) && (k >= 8 ==> Present(s, 8)) && (k >= 9 ==> Present(s, 9))
      && (k >= 10 ==> Present(s, 10)) && (k >= 11 ==> Present(s, 11)) && (k >= 12 ==> Present(s, 12))
      && (r.timeHour, r.timeMinute, r.timeSecond, r.timeMillisecond)
           == (if k >= 1 then TimeOf(Text(s, 1), rec.timeHour, rec.timeMinute, rec.timeSecond, rec.timeMillisecond)
               else (rec.timeHour, rec.timeMinute, rec.timeSecond, rec.timeMillisecond))
      && r.latitude == (if k >= 2 then Measure(Text(s, 2), k >= 3 && IsSouth(Lead(s, 3))) else rec.latitude)
      && r.longitude == (if k >= 4 then Measure(Text(s, 4), k >= 5 && IsWest(Lead(s, 5))) else rec.longitude)
      && r.fixType == (if k >= 6 then QualityFix(Lead(s, 6)) else rec.fixType)
      && r.numSats == (if k >= 7 then Atoi(Text(s, 7)) else rec.numSats)
      && r.hdop == (if k >= 8 then Measure(Text(s, 8), false) else rec.hdop)
      && r.altitude == (if k >= 9 then Measure(Text(s, 9), k >= 10 && IsFeet(Lead(s, 10))) else rec.altitude)
      && r.geoidalSeparation
           == (if k >= 11 then Measure(Text(s, 11), k >= 12 && IsFeet(Lead(s, 12))) else rec.geoidalSeparation)
      && r.lastUpdateMs == (if k == 12 then nowMs else rec.lastUpdateMs)
      && r.ageOfDiffCorr == rec.ageOfDiffCorr && r.diffStationId == rec.diffStationId
  {
    GgaPassed(s);
    var t := GGA_STEPS;
    assert t[0] == FieldStep(1, -4, -5) && t[1] == FieldStep(2, -6, -7) && t[2] == FieldStep(3, -8, -9);
    assert t[3] == FieldStep(4, -10, -11) && t[4] == FieldStep(5, -12, -13) && t[5] == FieldStep(6, -14, -15);
    assert t[6] == FieldStep(7, -16, -17) && t[7] == FieldStep(8, -18, -19) && t[8] == FieldStep(9, -20, -21);
    assert t[9] == FieldStep(10, -22, -23) && t[10] == FieldStep(11, -24, -25) && t[11] == FieldStep(12, -26, -27);
    if ChecksumValid(s) && s[3..6] == "GGA" {
      if !Present(s, 1) {
      } else if !Present(s, 2) {
      } else if !Present(s, 3) {
      } else if !Present(s, 4) {
      } else if !Present(s, 5) {
      } else if !Present(s, 6) {
      } else if !Present(s, 7) {
      } else if !Present(s, 8) {
      } else if !Present(s, 9) {
      } else if !Present(s, 10) {
      } else if !Present(s, 11) {
      } else if !Present(s, 12) {
      } else {
      }
    }
  }

  /** A well-formed `hhmmss.ss` time field: the clock fields are its two-digit groups, milliseconds ten times the hundredths. */
  predicate WellFormedTime(f: seq<char>) {
    |f| >= 9 && AllDigits(f[..6]) && f[6] == '.' && AllDigits(f[7..9])
  }

  /** A well-formed `ddmmyy` date field. */
  predicate WellFormedDate(f: seq<char>) {
    |f| >= 6 && AllDigits(f[..6])
  }

  lemma RmcTimeOfWellFormedField(s: CString, rec: RmcData, nowMs: u64)
    requires ParseRmc(s, rec, nowMs).0 == 0 && WellFormedTime(Text(s, 1))
    ensures var r := ParseRmc(s, rec, nowMs).1; var f := Text(s, 1);
      && r.timeHour == D(f[0]) * 10 + D(f[1])
      && r.timeMinute == D(f[2]) * 10 + D(f[3])
      && r.timeSecond == D(f[4]) * 10 + D(f[5])
      && r.timeMillisecond == (D(f[7]) * 10 + D(f[8])) * 10
  {
    var f := Text(s, 1);
    var r1 := rec.(dataValid := if Lead(s, 2) == 'A' then 1 else 0);
    ScanTimeDigits(f, r1.timeHour, r1.timeMinute, r1.timeSecond, r1.timeMillisecond);
  }

  lemma RmcDateOfWellFormedField(s: CString, rec: RmcData, nowMs: u64)
    requires ParseRmc(s, rec, nowMs).0 == 0 && WellFormedDate(Text(s, 9))
    ensures var r := ParseRmc(s, rec, nowMs).1; var f := Text(s, 9);
      && r.dateDay == D(f[0]) * 10 + D(f[1])
      && r.dateMonth == D(f[2]) * 10 + D(f[3])
      && r.dateYear == 2000 + D(f[4]) * 10 + D(f[5])
  {
    var f := Text(s, 9);
    forall a: int, b: int, c: int
      ensures Scan3(f, a, b, c) == (D(f[0]) * 10 + D(f[1]), D(f[2]) * 10 + D(f[3]), D(f[4]) * 10 + D(f[5]))
    {
      Scan3Digits(f, a, b, c);
    }
  }

  lemma GgaTimeOfWellFormedField(s: CString, rec: GgaData, nowMs: u64)
    requires ParseGga(s, rec, nowMs).0 == 0 && WellFormedTime(Text(s, 1))
    ensures var r := ParseGga(s, rec, nowMs).1; var f := Text(s, 1);
      && r.timeHour == D(f[0]) * 10 + D(f[1])
      && r.timeMinute == D(f[2]) * 10 + D(f[3])
      && r.timeSecond == D(f[4]) * 10 + D(f[5])
      && r.timeMillisecond == (D(f[7]) * 10 + D(f[8])) * 10
  {
    ScanTimeDigits(Text(s, 1), rec.timeHour, rec.timeMinute, rec.timeSecond, rec.timeMillisecond);
  }
}
