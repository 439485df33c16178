/**
 * The receiver-facing parts of the main screen: the 32-slot satellite table
 * behind the sky plot (`SatelliteDisplay`), its refresh from the GSV catalog
 * whenever the RMC update counter changes, and the countdown that switches
 * off the PPS LED.  The projection of elevation and azimuth onto the plot
 * (cosine and sine of the azimuth) is an input function.
 */
module ScrnMain {
  import opened CTypes
  import opened NmeaTypes
  import opened NmeaGsv

  /** `SatelliteDisplay::MAX_SATELLITES`: slots in the sky-plot table. */
  const TABLE_SLOTS: int := 32
  /** How long `led_trigger` lights the LED, and how much each screen loop takes off. */
  const LED_ON_MS: int := 100
  const LED_TICK_MS: int := 10
  /** The age, in seconds, beyond which `update_satellite_all` clears a track before plotting. */
  const PLOT_MAX_AGE_S: int := 3

  /** One row of `sat_positions`: PRN (0 marks a free slot), plot position and SNR. */
  datatype Slot = Slot(prn: int, x: int, y: int, snr: int)

  const EMPTY_SLOT: Slot := Slot(0, 0, 0, 0)

  /** The position on the plot of a satellite at the given elevation and azimuth. */
  type Projection = (int, int) -> (int, int)

  /** The first slot from `from` on whose PRN is `prn`. */
  function FindFrom(table: seq<Slot>, prn: int, from: nat): (r: Option<nat>)
    requires from <= |table|
    ensures r.Some? ==> from <= r.value < |table| && table[r.value].prn == prn
                        && forall k | from <= k < r.value :: table[k].prn != prn
    ensures r.None? ==> forall k | from <= k < |table| :: table[k].prn != prn
    decreases |table| - from
  {
    if from == |table| then None
    else if table[from].prn == prn then Some(from)
    else FindFrom(table, prn, from + 1)
  }

  function FindPrn(table: seq<Slot>, prn: int): Option<nat> {
    FindFrom(table, prn, 0)
  }

  /** `set_sat_pos(prn, elv, azm, snr)` on the table `table`: the new table and the return code. */
  function SetSatSpec(table: seq<Slot>, prn: int, elv: int, azm: int, snr: int, project: Projection): (out: (seq<Slot>, int))
    ensures |out.0| == |table|
    ensures out.1 == 0 || out.1 == -1
    ensures out.1 == -1 ==> out.0 == table
    ensures out.1 == -1 <==>
      prn <= 0 || elv < 0 || elv > 90 || (FindPrn(table, prn).None? && FindPrn(table, 0).None?)
  {
    if prn <= 0 || elv < 0 || elv > 90 then (table, -1)
    else
      var pos := project(elv, azm);
      match FindPrn(table, prn)
      case Some(i) => (table[i := table[i].(x := pos.0, y := pos.1, snr := snr)], 0)
      case None =>
        match FindPrn(table, 0)
        case Some(i) => (table[i := Slot(prn, pos.0, pos.1, snr)], 0)
        case None => (table, -1)
  }

  /** `remove_sat(prn)`: clears PRN and position of the first matching slot, keeping its SNR. */
  function RemoveSpec(table: seq<Slot>, prn: int): (out: (seq<Slot>, int))
  {
    match FindPrn(table, prn)
    case Some(i) => (table[i := table[i].(prn := 0, x := 0, y := 0)], 0)
    case None => (table, -1)
  }

  /** Each positive PRN occupies at most one slot. */
  ghost predicate UniquePrns(table: seq<Slot>) {
    forall i, j | 0 <= i < j < |table| :: table[i].prn > 0 ==> table[i].prn != table[j].prn
  }

  /**
   * After a successful `set_sat_pos` the satellite is found in the table with
   * the new position and SNR: in the slot it already held, or else in the
   * first free slot.  Every other slot is as it was, and PRNs stay unique.
   */
  lemma SetSatFindsSatellite(table: seq<Slot>, prn: int, elv: int, azm: int, snr: int, project: Projection)
    requires UniquePrns(table)
    ensures var out := SetSatSpec(table, prn, elv, azm, snr, project);
      && UniquePrns(out.0)
      && (out.1 == 0 ==>
            && FindPrn(out.0, prn).Some?
            && var i := FindPrn(out.0, prn).value;
               && out.0[i] == Slot(prn, project(elv, azm).0, project(elv, azm).1, snr)
               && (table[i].prn == prn || table[i].prn == 0)
               && (FindPrn(table, prn).Some? ==> i == FindPrn(table, prn).value)
               && (FindPrn(table, prn).None? ==> i == FindPrn(table, 0).value)
               && forall k | 0 <= k < |table| && k != i :: out.0[k] == table[k])
  {
    var out := SetSatSpec(table, prn, elv, azm, snr, project);
    if out.1 == 0 {
      var pos := project(elv, azm);
      match FindPrn(table, prn)
      case Some(i) =>
        assert out.0[i].prn == prn;
        FindPrnAt(out.0, prn, i);
      case None =>
        var i := FindPrn(table, 0).value;
        assert out.0[i].prn == prn;
        forall k | 0 <= k < i ensures out.0[k].prn != prn {
          assert out.0[k] == table[k];
        }
        FindPrnAt(out.0, prn, i);
    }
  }

  /** A slot holding `prn` with no earlier slot holding it is where FindPrn looks. */
  lemma FindPrnAt(table: seq<Slot>, prn: int, i: nat)
    requires i < |table| && table[i].prn == prn && forall k | 0 <= k < i :: table[k].prn != prn
    ensures FindPrn(table, prn) == Some(i)
  {
  }

  /**
   * `remove_sat` succeeds exactly when the PRN is in the table.  It then
   * clears PRN and position of the first matching slot, keeps that slot's
   * SNR and leaves every other slot alone.  With unique PRNs a positive
   * PRN is then gone from the table.
   */
  lemma RemoveForgetsSatellite(table: seq<Slot>, prn: int)
    requires UniquePrns(table)
    ensures var out := RemoveSpec(table, prn);
      && UniquePrns(out.0)
      && (out.1 == 0 <==> FindPrn(table, prn).Some?)
      && (out.1 == -1 ==> out.0 == table)
      && (prn > 0 ==> FindPrn(out.0, prn).None?)
      && (out.1 == 0 ==>
            var i := FindPrn(table, prn).value;
            && out.0[i] == Slot(0, 0, 0, table[i].snr)
            && forall k | 0 <= k < |table| && k != i :: out.0[k] == table[k])
  {
    var out := RemoveSpec(table, prn);
    if out.1 == 0 && prn > 0 {
      var i := FindPrn(table, prn).value;
      forall k | 0 <= k < |table| ensures out.0[k].prn != prn {
        if k != i {
          if k < i {
            assert table[k].prn != prn;
          } else {
            assert table[i].prn > 0;
          }
        }
      }
    }
  }

  /** The satellites of one track fed to `set_sat_pos` in order; return codes are ignored. */
  function FeedSatellites(table: seq<Slot>, sats: seq<Satellite>, project: Projection): (r: seq<Slot>)
    ensures |r| == |table|
    decreases |sats|
  {
    if sats == [] then table
    else
      var s := sats[0];
      FeedSatellites(SetSatSpec(table, s.prn, s.elevation, s.azimuth, s.snr, project).0, sats[1..], project)
  }

  /** `update_satellite(list)`: each track in list order, its committed satellites `0..num_sats-1`. */
  function FeedTracks(table: seq<Slot>, list: seq<Track>, project: Projection): (r: seq<Slot>)
    requires forall j | 0 <= j < |list| :: TrackValid(list[j])
    ensures |r| == |table|
    decreases |list|
  {
    if list == [] then table
    else
      assert TrackValid(list[0]);
      FeedTracks(FeedSatellites(table, list[0].satellites[..list[0].numSats], project), list[1..], project)
  }

  /** Feeding satellites keeps PRNs unique. */
  lemma {:induction false} FeedSatellitesKeepsUnique(table: seq<Slot>, sats: seq<Satellite>, project: Projection)
    requires UniquePrns(table)
    ensures UniquePrns(FeedSatellites(table, sats, project))
    decreases |sats|
  {
    if sats != [] {
      var s := sats[0];
      SetSatFindsSatellite(table, s.prn, s.elevation, s.azimuth, s.snr, project);
      FeedSatellitesKeepsUnique(SetSatSpec(table, s.prn, s.elevation, s.azimuth, s.snr, project).0, sats[1..], project);
    }
  }

  /** Feeding a constellation's tracks keeps PRNs unique. */
  lemma {:induction false} FeedTracksKeepsUnique(table: seq<Slot>, list: seq<Track>, project: Projection)
    requires UniquePrns(table) && forall j | 0 <= j < |list| :: TrackValid(list[j])
    ensures UniquePrns(FeedTracks(table, list, project))
    decreases |list|
  {
    if list != [] {
      FeedSatellitesKeepsUnique(table, list[0].satellites[..list[0].numSats], project);
      FeedTracksKeepsUnique(FeedSatellites(table, list[0].satellites[..list[0].numSats], project), list[1..], project);
    }
  }

  /** The five constellations fed in catalog order. */
  function FeedCatalog(table: seq<Slot>, lists: seq<seq<Track>>, project: Projection, c: nat): (r: seq<Slot>)
    requires CatalogValid(lists) && c <= 5
    ensures |r| == |table|
    decreases 5 - c
  {
    if c == 5 then table else FeedCatalog(FeedTracks(table, lists[c], project), lists, project, c + 1)
  }

  /** One screen loop's LED step: the new duration and whether the LED is lit. */
  function LedStep(duration: int, lit: bool): (out: (int, bool))
  {
    if duration > 0 then
      if duration - LED_TICK_MS <= 0 then (0, false) else (duration - LED_TICK_MS, lit)
    else (duration, lit)
  }

  function LedRun(duration: int, lit: bool, n: nat): (int, bool)
    decreases n
  {
    if n == 0 then (duration, lit) else var s := LedStep(duration, lit); LedRun(s.0, s.1, n - 1)
  }

  /** While more than `n` ticks of time remain, `n` loops take `10 n` off and leave the LED as it was. */
  lemma {:induction false} LedCountsDown(duration: int, lit: bool, n: nat)
    requires duration > LED_TICK_MS * n
    ensures LedRun(duration, lit, n) == (duration - LED_TICK_MS * n, lit)
    decreases n
  {
    if n > 0 {
      LedCountsDown(duration - LED_TICK_MS, lit, n - 1);
    }
  }

  /**
   * A trigger lights the LED for 100 ms of screen loops: it stays lit
   * through the first nine loops and the tenth switches it off and leaves
   * the duration at 0, where it stays.
   */
  lemma LedOffAfterTenLoops(n: nat)
    ensures n < 10 ==> LedRun(LED_ON_MS, true, n) == (LED_ON_MS - LED_TICK_MS * n, true)
    ensures n >= 10 ==> LedRun(LED_ON_MS, true, n) == (0, false)
  {
    if n < 10 {
      LedCountsDown(LED_ON_MS, true, n);
    } else {
      LedCountsDown(LED_ON_MS, true, 9);
      LedRunSplit(LED_ON_MS, true, 9, n - 9);
      LedStaysOff(n - 10);
    }
  }

  lemma {:induction false} LedRunSplit(duration: int, lit: bool, a: nat, b: nat)
    ensures LedRun(duration, lit, a + b) == LedRun(LedRun(duration, lit, a).0, LedRun(duration, lit, a).1, b)
    decreases a
  {
    if a > 0 {
      var s := LedStep(duration, lit);
      LedRunSplit(s.0, s.1, a - 1, b);
    }
  }

  lemma {:induction false} LedStaysOff(n: nat)
    ensures LedRun(0, false, n) == (0, false)
    decreases n
  {
    if n > 0 {
      LedStaysOff(n - 1);
    }
  }

  class SatelliteDisplay {
    const slots: array<Slot>

    ghost predicate Valid()
      reads this
    {
      slots.Length == TABLE_SLOTS
    }

    /** Every PRN, x and y zeroed; the SNR column starts at 0 as the display is a static object. */
    constructor ()
      ensures Valid() && fresh(slots)
      ensures forall k | 0 <= k < TABLE_SLOTS :: slots[k] == EMPTY_SLOT
      ensures UniquePrns(slots[..])
    {
      slots := new Slot[TABLE_SLOTS](_ => EMPTY_SLOT);
    }

    /** The first slot holding `prn`, or `TABLE_SLOTS` when there is none. */
    method Scan(prn: int) returns (i: int)
      requires Valid()
      ensures 0 <= i <= TABLE_SLOTS
      ensures FindPrn(slots[..], prn) == if i < TABLE_SLOTS then Some(i) else None
    {
      i := 0;
      while i < TABLE_SLOTS && slots[i].prn != prn
        invariant 0 <= i <= TABLE_SLOTS
        invariant forall k | 0 <= k < i :: slots[k].prn != prn
      {
        i := i + 1;
      }
      if i < TABLE_SLOTS {
        FindPrnAt(slots[..], prn, i);
      }
    }

    /** `set_sat_pos(prn, elv, azm, snr)` */
    method SetSatPos(prn: int, elv: int, azm: int, snr: int, project: Projection) returns (rc: int)
      requires Valid()
      modifies slots
      ensures (slots[..], rc) == SetSatSpec(old(slots[..]), prn, elv, azm, snr, project)
    {
      if prn <= 0 {
        return -1;
      }
      if elv < 0 || elv > 90 {
        return -1;
      }
      var pos := project(elv, azm);
      var i := Scan(prn);
      if i < TABLE_SLOTS {
        slots[i] := slots[i].(x := pos.0, y := pos.1, snr := snr);
        return 0;
      }
      i := Scan(0);
      if i < TABLE_SLOTS {
        slots[i] := Slot(prn, pos.0, pos.1, snr);
        return 0;
      }
      return -1;
    }

    /** `remove_sat(prn)` */
    method RemoveSat(prn: int) returns (rc: int)
      requires Valid()
      modifies slots
      ensures (slots[..], rc) == RemoveSpec(old(slots[..]), prn)
    {
      var i := Scan(prn);
      if i < TABLE_SLOTS {
        slots[i] := slots[i].(prn := 0, x := 0, y := 0);
        return 0;
      }
      return -1;
    }
  }

  class ScreenMain {
    const satDisplay: SatelliteDisplay
    var ledDuration: int
    var ledLit: bool
    var lastUpdate: u32

    ghost predicate Valid()
      reads this, satDisplay
    {
      satDisplay.Valid()
    }

    /** A static screen object: everything zero, the LED off, an empty table. */
    constructor ()
      ensures Valid() && fresh(satDisplay) && fresh(satDisplay.slots)
      ensures ledDuration == 0 && !ledLit && lastUpdate == 0
      ensures UniquePrns(satDisplay.slots[..])
    {
      satDisplay := new SatelliteDisplay();
      ledDuration := 0;
      ledLit := false;
      lastUpdate := 0;
    }

    /** `led_trigger`: the LED on for 100 ms. */
    method LedTrigger()
      modifies this
      ensures ledDuration == LED_ON_MS && ledLit && lastUpdate == old(lastUpdate)
    {
      ledDuration := LED_ON_MS;
      ledLit := true;
    }

    /** The LED countdown at the end of `ScreenMain::loop`. */
    method LedTick()
      modifies this
      ensures (ledDuration, ledLit) == LedStep(old(ledDuration), old(ledLit))
      ensures lastUpdate == old(lastUpdate)
    {
      if ledDuration > 0 {
        ledDuration := ledDuration - LED_TICK_MS;
        if ledDuration <= 0 {
          ledDuration := 0;
          ledLit := false;
        }
      }
    }

    /** `update_satellite(list)` */
    method UpdateSatellite(list: seq<Track>, project: Projection)
      requires Valid() && forall j | 0 <= j < |list| :: TrackValid(list[j])
      modifies satDisplay.slots
      ensures satDisplay.slots[..] == FeedTracks(old(satDisplay.slots[..]), list, project)
    {
      var t := 0;
      while t < |list|
        invariant 0 <= t <= |list|
        invariant FeedTracks(satDisplay.slots[..], list[t..], project)
               == FeedTracks(old(satDisplay.slots[..]), list, project)
      {
        assert list[t..][0] == list[t] && list[t..][1..] == list[t + 1..];
        var sats := list[t].satellites[..list[t].numSats];
        var i := 0;
        ghost var table0 := satDisplay.slots[..];
        while i < list[t].numSats
          invariant 0 <= i <= list[t].numSats
          invariant FeedSatellites(satDisplay.slots[..], sats[i..], project) == FeedSatellites(table0, sats, project)
        {
          assert sats[i..][0] == sats[i] && sats[i..][1..] == sats[i + 1..];
          var s := list[t].satellites[i];
          var _ := satDisplay.SetSatPos(s.prn, s.elevation, s.azimuth, s.snr, project);
          i := i + 1;
        }
        assert sats[i..] == [];
        t := t + 1;
      }
      assert list[t..] == [];
    }

    /** `update_satellite_all`: the 3-second ageing sweep, then the five constellations in order. */
    method UpdateSatelliteAll(gsv: GsvCatalog, nowMs: u64, project: Projection)
      requires Valid() && gsv.Valid()
      modifies gsv, satDisplay.slots
      ensures gsv.Valid()
      ensures gsv.lists == seq(5, c requires 0 <= c < 5 && |old(gsv.lists)| == 5 => ClearOld(old(gsv.lists)[c], nowMs, PLOT_MAX_AGE_S))
      ensures satDisplay.slots[..] == FeedCatalog(old(satDisplay.slots[..]), gsv.lists, project, 0)
    {
      gsv.ClearOldAll(PLOT_MAX_AGE_S, nowMs);
      var c := 0;
      while c < 5
        invariant 0 <= c <= 5 && gsv.Valid()
        invariant gsv.lists == seq(5, c requires 0 <= c < 5 && |old(gsv.lists)| == 5 => ClearOld(old(gsv.lists)[c], nowMs, PLOT_MAX_AGE_S))
        invariant FeedCatalog(satDisplay.slots[..], gsv.lists, project, c)
               == FeedCatalog(old(satDisplay.slots[..]), gsv.lists, project, 0)
      {
        UpdateSatellite(gsv.lists[c], project);
        c := c + 1;
      }
    }

    /**
     * The satellite part of `ScreenMain::loop`: when the update counter
     * differs from the last one seen, remember it and refresh the plot.
     */
    method Refresh(updateCount: u32, gsv: GsvCatalog, nowMs: u64, project: Projection) returns (refreshed: bool)
      requires Valid() && gsv.Valid()
      modifies this, gsv, satDisplay.slots
      ensures Valid() && gsv.Valid()
      ensures refreshed <==> updateCount != old(lastUpdate)
      ensures lastUpdate == updateCount
      ensures !refreshed ==> gsv.lists == old(gsv.lists) && satDisplay.slots[..] == old(satDisplay.slots[..])
      ensures refreshed ==> gsv.lists == seq(5, c requires 0 <= c < 5 && |old(gsv.lists)| == 5 => ClearOld(old(gsv.lists)[c], nowMs, PLOT_MAX_AGE_S))
      ensures refreshed ==> satDisplay.slots[..] == FeedCatalog(old(satDisplay.slots[..]), gsv.lists, project, 0)
      ensures ledDuration == old(ledDuration) && ledLit == old(ledLit)
    {
      refreshed := updateCount != lastUpdate;
      if refreshed {
        lastUpdate := updateCount;
        UpdateSatelliteAll(gsv, nowMs, project);
      }
    }
  }
}
