/**
 * The constants and records declared by the NMEA 0183 parser header: fix-type
 * codes, the satellite record, the per-signal GSV track and the five-way
 * constellation catalog, and the RMC and GGA records.
 */
module NmeaTypes {
  import opened CTypes

  /** `NMEA_MAX_SATELLITES`: slots in each of a track's two satellite arrays. */
  const MAX_SATELLITES: nat := 64

  /** The `NMEA_FIX_TYPE_*` codes. */
  datatype FixType =
    | NoFix | Autonomous | Differential | Estimated | RtkFixed
    | RtkFloat | Ppp | Simulator | Invalid | Manual

  /** The integer value the header gives each fix type. */
  function FixCode(f: FixType): (code: int)
    ensures 0 <= code <= 9
    ensures code == 0 <==> f == NoFix
  {
    match f
    case NoFix => 0
    case Autonomous => 1
    case Differential => 2
    case Estimated => 3
    case RtkFixed => 4
    case RtkFloat => 5
    case Ppp => 6
    case Simulator => 7
    case Invalid => 8
    case Manual => 9
  }

  /** Inverse of FixCode on 0..9. */
  function FixOfCode(code: int): FixType
    requires 0 <= code <= 9
  {
    if code == 0 then NoFix else if code == 1 then Autonomous
    else if code == 2 then Differential else if code == 3 then Estimated
    else if code == 4 then RtkFixed else if code == 5 then RtkFloat
    else if code == 6 then Ppp else if code == 7 then Simulator
    else if code == 8 then Invalid else Manual
  }

  /** The ten codes are distinct: FixCode is a bijection onto 0..9, and NOFIX is the least. */
  lemma FixCodesDistinct(f: FixType, g: FixType)
    ensures FixOfCode(FixCode(f)) == f
    ensures FixCode(f) == FixCode(g) ==> f == g
    ensures FixCode(NoFix) <= FixCode(f)
  {
  }

  /** `nmea_satellite_t`. */
  datatype Satellite = Satellite(prn: int, elevation: int, azimuth: int, snr: int)

  const ZERO_SATELLITE: Satellite := Satellite(0, 0, 0, 0)

  /** Five satellite systems, each with one embedded head track in the catalog. */
  datatype Constellation = Gps | Glonass | Galileo | Beidou | Qzss

  /** The field order of `nmea_gsv_data_all_t`. */
  const CATALOG_ORDER: seq<Constellation> := [Gps, Glonass, Galileo, Beidou, Qzss]

  /** The position of a constellation's list in the catalog. */
  function ConstellationIndex(c: Constellation): (i: nat)
    ensures i < 5 && CATALOG_ORDER[i] == c
  {
    match c
    case Gps => 0
    case Glonass => 1
    case Galileo => 2
    case Beidou => 3
    case Qzss => 4
  }

  /** Distinct constellations have distinct lists, and every list belongs to one constellation. */
  lemma ConstellationIndexBijective(c: Constellation, d: Constellation, i: nat)
    requires i < 5
    ensures ConstellationIndex(c) == ConstellationIndex(d) ==> c == d
    ensures ConstellationIndex(CATALOG_ORDER[i]) == i
  {
    assert CATALOG_ORDER[ConstellationIndex(c)] == c && CATALOG_ORDER[ConstellationIndex(d)] == d;
  }

  /**
   * `nmea_gsv_data_t` without its `next` pointer: the committed satellites and
   * the staging copy filled while a multi-sentence group is in progress.
   */
  datatype Track = Track(
    signalId: int,
    lastUpdateMs: u64,
    numSats: int,
    satellites: seq<Satellite>,
    numSatsTmp: int,
    satellitesTmp: seq<Satellite>)

  /** A zero-filled track with the given signal id, as `memset` followed by the id store. */
  function NewTrack(signalId: int): (t: Track)
    ensures t.numSats == 0 && t.numSatsTmp == 0 && t.signalId == signalId
    ensures |t.satellites| == MAX_SATELLITES && |t.satellitesTmp| == MAX_SATELLITES
  {
    Track(signalId, 0, 0, seq(MAX_SATELLITES, _ => ZERO_SATELLITE), 0, seq(MAX_SATELLITES, _ => ZERO_SATELLITE))
  }

  /** Fixed array sizes bound the two satellite counts; signal ids are 0-15. */
  ghost predicate TrackValid(t: Track) {
    && |t.satellites| == MAX_SATELLITES
    && |t.satellitesTmp| == MAX_SATELLITES
    && 0 <= t.numSats <= MAX_SATELLITES
    && 0 <= t.numSatsTmp <= MAX_SATELLITES
    && 0 <= t.signalId <= 15
  }

  /**
   * Stand-in for a `double` the parser computes from a field with `atof`:
   * the field's text, and whether the value was negated (south/west) or
   * scaled from feet to metres afterwards.  Its numeric value is not modelled.
   */
  datatype Measure = Measure(text: string, adjusted: bool)

  const ZERO_MEASURE: Measure := Measure("", false)

  /** `nmea_rmc_data_t`. */
  datatype RmcData = RmcData(
    lastUpdateMs: u64,
    dataValid: int,
    dateYear: int,
    dateMonth: int,
    dateDay: int,
    timeHour: int,
    timeMinute: int,
    timeSecond: int,
    timeMillisecond: int,
    latitude: Measure,
    longitude: Measure,
    fixType: FixType)

  /** `nmea_gga_data_t`. */
  datatype GgaData = GgaData(
    lastUpdateMs: u64,
    timeHour: int,
    timeMinute: int,
    timeSecond: int,
    timeMillisecond: int,
    latitude: Measure,
    longitude: Measure,
    fixType: FixType,
    numSats: int,
    hdop: Measure,
    altitude: Measure,
    geoidalSeparation: Measure,
    ageOfDiffCorr: Measure,
    diffStationId: int)

  /** `nmea_init_rmc`: everything zero, data invalid, no fix. */
  function InitRmc(): (r: RmcData)
    ensures r.dataValid == 0 && r.fixType == NoFix && r.lastUpdateMs == 0
  {
    RmcData(0, 0, 0, 0, 0, 0, 0, 0, 0, ZERO_MEASURE, ZERO_MEASURE, NoFix)
  }

  /** `nmea_init_gga`: everything zero, fix type 0 (no fix). */
  function InitGga(): (r: GgaData)
    ensures r.fixType == NoFix && r.numSats == 0 && r.lastUpdateMs == 0
  {
    GgaData(0, 0, 0, 0, 0, ZERO_MEASURE, ZERO_MEASURE, NoFix, 0,
            ZERO_MEASURE, ZERO_MEASURE, ZERO_MEASURE, ZERO_MEASURE, 0)
  }
}
