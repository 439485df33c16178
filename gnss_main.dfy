/**
 * The receiver pipeline of the clock's main loop: the system status record,
 * the dispatch of each framed NMEA line to its decoder
 * (`gnss_parse_nmea_line`), the byte loop that feeds the framer
 * (`gnss_poll`), and the per-iteration work of `loop` that reacts to the
 * synchronisation state leaving NONE.
 */
module GnssMain {
  import opened CTypes
  import opened NmeaTypes
  import opened NmeaText
  import opened NmeaDecode
  import opened NmeaGsv
  import opened GnssFramer
  import opened ClockDiscipline

  /** The part of `system_status_t` the receiver pipeline reads and writes, plus the PPS timestamp. */
  datatype Receiver = Receiver(
    updateCount: u32,
    gpsStatus: int,
    gpsSatellites: int,
    gsv: seq<seq<Track>>,
    rmc: RmcData,
    gga: GgaData,
    syncState: int,
    ppsTimestamp: u32)

  /**
   * What the surroundings supply while one line is handled: the millisecond
   * clock, whether `malloc` succeeds, `micros()`, the system clock, and the
   * contents of the uninitialised local GGA record.
   */
  datatype LineEnv = LineEnv(
    nowMs: u64,
    allocOk: bool,
    microsNow: u32,
    clockSec: int,
    clockUsec: int,
    scratchGga: GgaData)

  /** `strncmp(line, "$GNGGA", 6) == 0` */
  predicate IsGgaLine(line: seq<char>) {
    |line| >= 6 && line[..6] == "$GNGGA"
  }

  /** A `G?` talker with the three-letter sentence type `kind`. */
  predicate IsSentence(line: seq<char>, kind: string)
    requires |kind| == 3
  {
    |line| >= 6 && line[1] == 'G' && line[3..6] == kind
  }

  /** Whether an RMC record leads to `rmc_to_systime`. */
  predicate DrivesClock(rmc: RmcData) {
    rmc.dataValid != 0 && FixCode(rmc.fixType) > FixCode(NoFix)
  }

  /**
   * `gnss_parse_nmea_line(line)`, with `mktime` the conversion of broken-down
   * local time: the new status and the clock call made.
   */
  function ParseLine(r: Receiver, line: CString, env: LineEnv, mktime: CalendarTime -> int): (out: (Receiver, ClockAction))
    requires CatalogValid(r.gsv)
    ensures CatalogValid(out.0.gsv)
  {
    if !ChecksumValid(line) then (r, NoAction)
    else Route(r, line, env, mktime)
  }

  /** The dispatch on the sentence type of a line whose checksum holds. */
  function Route(r: Receiver, line: CString, env: LineEnv, mktime: CalendarTime -> int): (out: (Receiver, ClockAction))
    requires CatalogValid(r.gsv)
    ensures CatalogValid(out.0.gsv)
  {
    if IsGgaLine(line) then (GgaUpdate(r, line, env), NoAction)
    else if IsSentence(line, "GSV") then
      (r.(gsv := GsvUpdate(r.gsv, line, env.allocOk, env.nowMs).1), NoAction)
    else if IsSentence(line, "RMC") then RmcUpdate(r, line, env, mktime)
    else (r, NoAction)
  }

  /** A `$GNGGA` line: decoded into the scratch record, committed only when the decoder returns 0. */
  function GgaUpdate(r: Receiver, line: CString, env: LineEnv): Receiver {
    CommitGga(r, ParseGga(line, env.scratchGga, env.nowMs))
  }

  /** The commit of a decoder outcome: record, fix code and satellite count copied when the code is 0. */
  function CommitGga(r: Receiver, decoded: (int, GgaData)): Receiver {
    if decoded.0 == 0 then r.(gga := decoded.1, gpsStatus := FixCode(decoded.1.fixType), gpsSatellites := decoded.1.numSats)
    else r
  }

  /**
   * An RMC line: decoded in place whatever the outcome, the clock disciplined
   * when the record says valid data with a fix, then the PPS timestamp
   * cleared and the update counter bumped.
   */
  function RmcUpdate(r: Receiver, line: CString, env: LineEnv, mktime: CalendarTime -> int): (Receiver, ClockAction) {
    RmcDecoded(r.(rmc := ParseRmc(line, r.rmc, env.nowMs).1), env, mktime)
  }

  /** What follows the RMC decode, given the status holding the record as decoded. */
  function RmcDecoded(r: Receiver, env: LineEnv, mktime: CalendarTime -> int): (Receiver, ClockAction) {
    var decision :=
      if DrivesClock(r.rmc) then
        Discipline(r.rmc, mktime(CalendarOf(r.rmc)), env.microsNow, r.ppsTimestamp, env.clockSec, env.clockUsec, r.syncState)
      else (NoAction, r.syncState);
    (r.(syncState := decision.1, ppsTimestamp := 0, updateCount := IncU32(r.updateCount)), decision.0)
  }

  /** A line failing the checksum changes nothing. */
  lemma BadChecksumIgnored(r: Receiver, line: CString, env: LineEnv, mktime: CalendarTime -> int)
    requires CatalogValid(r.gsv) && !ChecksumValid(line)
    ensures ParseLine(r, line, env, mktime) == (r, NoAction)
  {
  }

  /**
   * Every checksum-valid RMC line, decoded or not, bumps the update counter
   * and clears the PPS timestamp; no other line touches either.
   */
  lemma RmcLineCounted(r: Receiver, line: CString, env: LineEnv, mktime: CalendarTime -> int)
    requires CatalogValid(r.gsv)
    ensures var r' := ParseLine(r, line, env, mktime).0;
      if ChecksumValid(line) && IsSentence(line, "RMC")
      then r'.updateCount == IncU32(r.updateCount) && r'.ppsTimestamp == 0
      else r'.updateCount == r.updateCount && r'.ppsTimestamp == r.ppsTimestamp
  {
    if ChecksumValid(line) && IsSentence(line, "RMC") {
      assert !IsGgaLine(line) && !IsSentence(line, "GSV") by {
        assert line[3..6] == "RMC";
      }
    }
  }

  /**
   * The GGA fields of the status are replaced only by a `$GNGGA` line that
   * decodes completely, and then the fix type and satellite count follow it.
   */
  lemma GgaCommittedOnlyOnSuccess(r: Receiver, line: CString, env: LineEnv, mktime: CalendarTime -> int)
    requires CatalogValid(r.gsv)
    ensures var r' := ParseLine(r, line, env, mktime).0;
      var decoded := ParseGga(line, env.scratchGga, env.nowMs);
      if ChecksumValid(line) && IsGgaLine(line) && decoded.0 == 0
      then && r'.gga == decoded.1
           && r'.gpsSatellites == Atoi(Text(line, 7))
           && r'.gpsStatus == FixCode(QualityFix(Lead(line, 6)))
           && r'.gpsStatus != FixCode(NoFix)
      else r'.gga == r.gga && r'.gpsStatus == r.gpsStatus && r'.gpsSatellites == r.gpsSatellites
  {
    var decoded := ParseGga(line, env.scratchGga, env.nowMs);
    if ChecksumValid(line) && IsGgaLine(line) {
      assert ParseLine(r, line, env, mktime).0 == CommitGga(r, decoded);
    }
  }

  /** Only a line of its own type reaches the GSV catalog, and the other status fields stay as they were. */
  lemma GsvLineOnlyUpdatesCatalog(r: Receiver, line: CString, env: LineEnv, mktime: CalendarTime -> int)
    requires CatalogValid(r.gsv)
    ensures var out := ParseLine(r, line, env, mktime);
      if ChecksumValid(line) && !IsGgaLine(line) && IsSentence(line, "GSV")
      then out == (r.(gsv := GsvUpdate(r.gsv, line, env.allocOk, env.nowMs).1), NoAction)
      else out.0.gsv == r.gsv
  {
  }

  /**
   * The clock is disciplined only from an RMC line whose record, after
   * decoding, says valid data with a fix; the synchronisation state then
   * moves to GNSS or PPS and otherwise stays.
   */
  lemma ClockDrivenOnlyByValidRmc(r: Receiver, line: CString, env: LineEnv, mktime: CalendarTime -> int)
    requires CatalogValid(r.gsv)
    ensures var out := ParseLine(r, line, env, mktime);
      var s := out.0.syncState;
      && (out.1 != NoAction ==>
            ChecksumValid(line) && IsSentence(line, "RMC") && DrivesClock(out.0.rmc))
      && (s == r.syncState || s == SYNC_GNSS || s == SYNC_PPS)
      && (r.syncState != SYNC_NONE ==> s != SYNC_NONE)
  {
    if ChecksumValid(line) && !IsGgaLine(line) && !IsSentence(line, "GSV") && IsSentence(line, "RMC") {
      var rmc := ParseRmc(line, r.rmc, env.nowMs).1;
      if DrivesClock(rmc) {
        DisciplineNeverReturnsToNone(rmc, mktime(CalendarOf(rmc)), env.microsNow, r.ppsTimestamp,
                                     env.clockSec, env.clockUsec, r.syncState);
      }
    }
  }

  /**
   * Conversely, a checksum-valid RMC line always stores its decoded record,
   * and when that record says valid data with a fix the clock call and the
   * new synchronisation state are exactly the discipline's; otherwise no
   * call is made and the state stays.  The GGA, GSV and fix fields are left
   * alone.
   */
  lemma RmcLineDisciplines(r: Receiver, line: CString, env: LineEnv, mktime: CalendarTime -> int)
    requires CatalogValid(r.gsv) && ChecksumValid(line) && IsSentence(line, "RMC")
    ensures var out := ParseLine(r, line, env, mktime);
      var rmc := ParseRmc(line, r.rmc, env.nowMs).1;
      && out.0.rmc == rmc
      && (DrivesClock(rmc) ==>
            (out.1, out.0.syncState)
              == Discipline(rmc, mktime(CalendarOf(rmc)), env.microsNow, r.ppsTimestamp,
                            env.clockSec, env.clockUsec, r.syncState))
      && (!DrivesClock(rmc) ==> out.1 == NoAction && out.0.syncState == r.syncState)
      && out.0.ppsTimestamp == 0 && out.0.updateCount == IncU32(r.updateCount)
      && out.0.gga == r.gga && out.0.gsv == r.gsv
      && out.0.gpsStatus == r.gpsStatus && out.0.gpsSatellites == r.gpsSatellites
  {
    assert !IsGgaLine(line) && !IsSentence(line, "GSV") by {
      assert line[3..6] == "RMC";
    }
  }

  /**
   * `gnss_poll` over the bytes `bytes`, with `env(k)` the surroundings of the
   * k-th line completed: the final status and framer state, the clock calls
   * made, and the lines handed to the parser.
   */
  function PollSpec(r: Receiver, f: Frame, bytes: seq<byte>, env: nat -> LineEnv, k: nat,
                    mktime: CalendarTime -> int): (out: (Receiver, Frame, seq<ClockAction>, seq<seq<byte>>))
    requires CatalogValid(r.gsv)
    ensures CatalogValid(out.0.gsv)
    decreases |bytes|
  {
    if bytes == [] then (r, f, [], [])
    else
      var step := FrameStep(f, bytes[0]);
      if step.1.Some? then
        var handled := ParseLine(r, LineText(step.1.value), env(k), mktime);
        var rest := PollSpec(handled.0, step.0, bytes[1..], env, k + 1, mktime);
        (rest.0, rest.1, Called(handled.1) + rest.2, [step.1.value] + rest.3)
      else PollSpec(r, step.0, bytes[1..], env, k, mktime)
  }

  function Called(action: ClockAction): seq<ClockAction> {
    if action == NoAction then [] else [action]
  }

  /** The poll loop frames the stream exactly as the framer alone does, and parses every line it completes. */
  lemma {:induction false} PollFramesAsFeed(r: Receiver, f: Frame, bytes: seq<byte>, env: nat -> LineEnv, k: nat,
                                            mktime: CalendarTime -> int)
    requires CatalogValid(r.gsv)
    ensures PollSpec(r, f, bytes, env, k, mktime).1 == Feed(f, bytes).1
    ensures PollSpec(r, f, bytes, env, k, mktime).3 == Feed(f, bytes).0
    decreases |bytes|
  {
    if bytes != [] {
      var step := FrameStep(f, bytes[0]);
      if step.1.Some? {
        var handled := ParseLine(r, LineText(step.1.value), env(k), mktime);
        PollFramesAsFeed(handled.0, step.0, bytes[1..], env, k + 1, mktime);
      } else {
        PollFramesAsFeed(r, step.0, bytes[1..], env, k, mktime);
        assert Emitted(step.1) + Feed(step.0, bytes[1..]).0 == Feed(step.0, bytes[1..]).0;
      }
    }
  }

  /** Across a whole poll the synchronisation state never returns to NONE. */
  lemma {:induction false} PollNeverReturnsToNone(r: Receiver, f: Frame, bytes: seq<byte>, env: nat -> LineEnv, k: nat,
                                                  mktime: CalendarTime -> int)
    requires CatalogValid(r.gsv)
    ensures var s := PollSpec(r, f, bytes, env, k, mktime).0.syncState;
      (r.syncState != SYNC_NONE ==> s != SYNC_NONE) && (s == r.syncState || s == SYNC_GNSS || s == SYNC_PPS)
    decreases |bytes|
  {
    if bytes != [] {
      var step := FrameStep(f, bytes[0]);
      if step.1.Some? {
        var line := LineText(step.1.value);
        ClockDrivenOnlyByValidRmc(r, line, env(k), mktime);
        PollNeverReturnsToNone(ParseLine(r, line, env(k), mktime).0, step.0, bytes[1..], env, k + 1, mktime);
      } else {
        PollNeverReturnsToNone(r, step.0, bytes[1..], env, k, mktime);
      }
    }
  }

  /** The number of RTC writes made by loop iterations that see the states `trace`, starting from `prev`. */
  function RtcWrites(prev: int, trace: seq<int>): nat
    decreases |trace|
  {
    if trace == [] then 0
    else (if prev == SYNC_NONE && trace[0] != SYNC_NONE then 1 else 0) + RtcWrites(trace[0], trace[1..])
  }

  /** A run of synchronisation states that never returns to NONE once it has left it. */
  predicate MonotoneSync(prev: int, trace: seq<int>)
    decreases |trace|
  {
    trace == [] || ((prev != SYNC_NONE ==> trace[0] != SYNC_NONE) && MonotoneSync(trace[0], trace[1..]))
  }

  /**
   * The RTC is written exactly once over a run that starts unsynchronised
   * and eventually synchronises, and never when it stays unsynchronised or
   * starts synchronised.
   */
  lemma {:induction false} RtcWrittenOnce(prev: int, trace: seq<int>)
    requires MonotoneSync(prev, trace)
    ensures RtcWrites(prev, trace) <= 1
    ensures RtcWrites(prev, trace) == 1 <==>
      prev == SYNC_NONE && exists i | 0 <= i < |trace| :: trace[i] != SYNC_NONE
    decreases |trace|
  {
    if prev != SYNC_NONE {
      NoWritesOnceSynced(prev, trace);
    } else if trace != [] {
      var tail := trace[1..];
      RtcWrittenOnce(trace[0], tail);
      if trace[0] != SYNC_NONE {
        NoWritesOnceSynced(trace[0], tail);
      } else if exists i | 0 <= i < |trace| :: trace[i] != SYNC_NONE {
        var i :| 0 <= i < |trace| && trace[i] != SYNC_NONE;
        assert tail[i - 1] != SYNC_NONE;
      }
    }
  }

  /** After the state has left NONE, no later iteration writes the RTC. */
  lemma {:induction false} NoWritesOnceSynced(prev: int, trace: seq<int>)
    requires MonotoneSync(prev, trace) && prev != SYNC_NONE
    ensures RtcWrites(prev, trace) == 0
    decreases |trace|
  {
    if trace != [] {
      NoWritesOnceSynced(trace[0], trace[1..]);
    }
  }

  /** `sys_status_init` on a zero-initialised status: counters at 0, empty catalog, initial records, NONE. */
  function InitialReceiver(): (r: Receiver)
    ensures CatalogValid(r.gsv) && r.syncState == SYNC_NONE
  {
    Receiver(0, 0, 0, InitialCatalog(), InitRmc(), InitGga(), SYNC_NONE, 0)
  }

  /** The global `sys_status`, the framer's statics and the statics of `loop`, updated in place. */
  class GnssClock {
    var updateCount: u32
    var gpsStatus: int
    var gpsSatellites: int
    const gsvData: GsvCatalog
    var rmcData: RmcData
    var ggaData: GgaData
    var syncState: int
    var ppsTimestamp: u32
    const framer: LineFramer
    var prevSyncState: int
    var prevPpsTimestamp: u32

    ghost function State(): Receiver
      reads this, gsvData
    {
      Receiver(updateCount, gpsStatus, gpsSatellites, gsvData.lists, rmcData, ggaData, syncState, ppsTimestamp)
    }

    ghost predicate Valid()
      reads this, gsvData, framer, framer.linebuf
    {
      gsvData.Valid() && framer.Valid()
    }

    /** The zero-initialised globals followed by `sys_status_init` and `ppsTimestamp = 0` in `setup`. */
    constructor ()
      ensures Valid() && State() == InitialReceiver() && framer.Abstract() == START
      ensures prevSyncState == SYNC_NONE && prevPpsTimestamp == 0
      ensures fresh(gsvData) && fresh(framer) && fresh(framer.linebuf)
    {
      gsvData := new GsvCatalog();
      framer := new LineFramer();
      updateCount := 0;
      gpsStatus := 0;
      gpsSatellites := 0;
      rmcData := InitRmc();
      ggaData := InitGga();
      syncState := SYNC_NONE;
      ppsTimestamp := 0;
      prevSyncState := SYNC_NONE;
      prevPpsTimestamp := 0;
    }

    /** `sys_status_init`: the counter, the catalog, both records and the sync state back to their initial values. */
    method SysStatusInit()
      requires Valid()
      modifies this, gsvData
      ensures Valid()
      ensures State() == InitialReceiver().(gpsStatus := old(gpsStatus), gpsSatellites := old(gpsSatellites),
                                            ppsTimestamp := old(ppsTimestamp))
      ensures prevSyncState == old(prevSyncState) && prevPpsTimestamp == old(prevPpsTimestamp)
    {
      updateCount := 0;
      gsvData.InitAll();
      rmcData := InitRmc();
      ggaData := InitGga();
      syncState := SYNC_NONE;
    }

    /** The PPS interrupt handler: records `micros()` at the pulse edge. */
    method OnPpsInterrupt(microsNow: u32)
      modifies this
      ensures ppsTimestamp == microsNow
      ensures State() == old(State()).(ppsTimestamp := microsNow)
      ensures prevSyncState == old(prevSyncState) && prevPpsTimestamp == old(prevPpsTimestamp)
    {
      ppsTimestamp := microsNow;
    }

    /** `gnss_parse_nmea_line(line)`. */
    method ParseNmeaLine(line: CString, env: LineEnv, mktime: CalendarTime -> int) returns (action: ClockAction)
      requires Valid()
      modifies this, gsvData
      ensures Valid()
      ensures (State(), action) == ParseLine(old(State()), line, env, mktime)
      ensures prevSyncState == old(prevSyncState) && prevPpsTimestamp == old(prevPpsTimestamp)
    {
      action := NoAction;
      var valid := IsValidChecksum(line);
      if !valid {
        return;
      }
      action := Dispatch(line, env, mktime);
    }

    /** The `strncmp`/character tests that hand a checked line to its decoder. */
    method Dispatch(line: CString, env: LineEnv, mktime: CalendarTime -> int) returns (action: ClockAction)
      requires Valid() && ChecksumValid(line)
      modifies this, gsvData
      ensures Valid()
      ensures (State(), action) == Route(old(State()), line, env, mktime)
      ensures prevSyncState == old(prevSyncState) && prevPpsTimestamp == old(prevPpsTimestamp)
    {
      action := NoAction;
      if IsGgaLine(line) {
        HandleGga(line, env);
      } else if IsSentence(line, "GSV") {
        HandleGsv(line, env);
      } else if IsSentence(line, "RMC") {
        action := HandleRmc(line, env, mktime);
      }
    }

    /** A GSV line goes to the catalog update; only the catalog changes. */
    method HandleGsv(line: CString, env: LineEnv)
      requires Valid()
      modifies gsvData
      ensures Valid()
      ensures State() == old(State()).(gsv := GsvUpdate(old(gsvData.lists), line, env.allocOk, env.nowMs).1)
    {
      var _ := gsvData.Update(line, env.allocOk, env.nowMs);
    }

    method HandleGga(line: CString, env: LineEnv)
      modifies this
      ensures State() == GgaUpdate(old(State()), line, env)
      ensures syncState == old(syncState) && prevSyncState == old(prevSyncState) && prevPpsTimestamp == old(prevPpsTimestamp)
    {
      var gga := ParseGga(line, env.scratchGga, env.nowMs);
      StoreGga(gga);
    }

    /** The assignments made after `nmea_parse_gga` returns: the globals change only on code 0. */
    method StoreGga(decoded: (int, GgaData))
      modifies this
      ensures State() == CommitGga(old(State()), decoded)
      ensures syncState == old(syncState) && prevSyncState == old(prevSyncState) && prevPpsTimestamp == old(prevPpsTimestamp)
    {
      if decoded.0 == 0 {
        ggaData := decoded.1;
        gpsStatus := FixCode(decoded.1.fixType);
        gpsSatellites := decoded.1.numSats;
      }
    }

    method HandleRmc(line: CString, env: LineEnv, mktime: CalendarTime -> int) returns (action: ClockAction)
      modifies this
      ensures (State(), action) == RmcUpdate(old(State()), line, env, mktime)
      ensures prevSyncState == old(prevSyncState) && prevPpsTimestamp == old(prevPpsTimestamp)
    {
      rmcData := ParseRmc(line, rmcData, env.nowMs).1;
      action := DisciplineFromRmc(env, mktime);
    }

    /** The part of the RMC branch after the decode: the clock decision, the PPS reset and the counter. */
    method DisciplineFromRmc(env: LineEnv, mktime: CalendarTime -> int) returns (action: ClockAction)
      modifies this
      ensures (State(), action) == RmcDecoded(old(State()), env, mktime)
      ensures prevSyncState == old(prevSyncState) && prevPpsTimestamp == old(prevPpsTimestamp)
    {
      action := NoAction;
      if rmcData.dataValid != 0 && FixCode(rmcData.fixType) > FixCode(NoFix) {
        var decision := Discipline(rmcData, mktime(CalendarOf(rmcData)), env.microsNow, ppsTimestamp,
                                   env.clockSec, env.clockUsec, syncState);
        action := decision.0;
        syncState := decision.1;
      }
      ppsTimestamp := 0;
      updateCount := IncU32(updateCount);
    }

    /** `gnss_poll` over the bytes available on the serial port. */
    method Poll(bytes: seq<byte>, env: nat -> LineEnv, mktime: CalendarTime -> int) returns (actions: seq<ClockAction>)
      requires Valid()
      modifies this, gsvData, framer, framer.linebuf
      ensures Valid()
      ensures var spec := PollSpec(old(State()), old(framer.Abstract()), bytes, env, 0, mktime);
        State() == spec.0 && framer.Abstract() == spec.1 && actions == spec.2
      ensures prevSyncState == old(prevSyncState) && prevPpsTimestamp == old(prevPpsTimestamp)
    {
      actions := [];
      var i := 0;
      var k := 0;
      while i < |bytes|
        invariant 0 <= i <= |bytes|
        invariant Valid()
        invariant prevSyncState == old(prevSyncState) && prevPpsTimestamp == old(prevPpsTimestamp)
        invariant var rest := PollSpec(State(), framer.Abstract(), bytes[i..], env, k, mktime);
          var spec := PollSpec(old(State()), old(framer.Abstract()), bytes, env, 0, mktime);
          rest.0 == spec.0 && rest.1 == spec.1 && actions + rest.2 == spec.2
      {
        assert bytes[i..][1..] == bytes[i + 1..];
        var emitted;
        emitted, k := PollByte(bytes[i..], env, k, mktime);
        actions := actions + emitted;
        i := i + 1;
      }
      assert bytes[i..] == [];
    }

    /** One pass of the read loop: the byte goes to the framer and a completed line to the parser. */
    method PollByte(bytes: seq<byte>, env: nat -> LineEnv, k: nat, mktime: CalendarTime -> int)
      returns (emitted: seq<ClockAction>, k': nat)
      requires Valid() && bytes != []
      modifies this, gsvData, framer, framer.linebuf
      ensures Valid()
      ensures prevSyncState == old(prevSyncState) && prevPpsTimestamp == old(prevPpsTimestamp)
      ensures var before := PollSpec(old(State()), old(framer.Abstract()), bytes, env, k, mktime);
        var after := PollSpec(State(), framer.Abstract(), bytes[1..], env, k', mktime);
        before.0 == after.0 && before.1 == after.1 && before.2 == emitted + after.2
    {
      emitted := [];
      k' := k;
      var line := framer.Step(bytes[0]);
      if line.Some? {
        var action := ParseNmeaLine(LineText(line.value), env(k), mktime);
        emitted := Called(action);
        k' := k + 1;
      }
    }

    /**
     * One iteration of `loop`, restricted to the receiver: the PPS LED
     * trigger, the poll, and the RTC write and logger start on the first
     * iteration that sees the state leave NONE.
     */
    method Loop(bytes: seq<byte>, env: nat -> LineEnv, mktime: CalendarTime -> int, sdFault: bool)
      returns (ledTrigger: bool, actions: seq<ClockAction>, rtcWrite: bool, startLoggers: bool)
      requires Valid()
      modifies this, gsvData, framer, framer.linebuf
      ensures Valid()
      ensures ledTrigger <==> old(ppsTimestamp) != 0 && old(ppsTimestamp) != old(prevPpsTimestamp)
      ensures prevPpsTimestamp == if ledTrigger then old(ppsTimestamp) else old(prevPpsTimestamp)
      ensures var spec := PollSpec(old(State()), old(framer.Abstract()), bytes, env, 0, mktime);
        State() == spec.0 && framer.Abstract() == spec.1 && actions == spec.2
      ensures rtcWrite <==> old(prevSyncState) == SYNC_NONE && syncState != SYNC_NONE
      ensures startLoggers <==> rtcWrite && !sdFault
      ensures prevSyncState == syncState
    {
      ledTrigger := ppsTimestamp != 0 && ppsTimestamp != prevPpsTimestamp;
      if ledTrigger {
        prevPpsTimestamp := ppsTimestamp;
      }
      actions := Poll(bytes, env, mktime);
      rtcWrite := prevSyncState != syncState && prevSyncState == SYNC_NONE;
      startLoggers := false;
      if !sdFault {
        if prevSyncState != syncState && prevSyncState == SYNC_NONE {
          startLoggers := true;
        }
      }
      prevSyncState := syncState;
    }
  }
}
