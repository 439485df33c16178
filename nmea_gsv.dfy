/**
 * The GSV satellite catalog: five constellations, each a list of per-signal
 * tracks whose head is embedded in the catalog (signal id 0) and whose other
 * tracks are appended as new signal ids appear.  A multi-sentence GSV group
 * is staged in a track's temporary array and published when the sentence
 * number reaches the total.
 */
module NmeaGsv {
  import opened CTypes
  import opened NmeaTypes
  import opened NmeaText

  /** The 10-byte buffers the GSV code extracts into. */
  const GSV_FIELD_SIZE: int := 10

  // ---------------------------------------------------------------------------
  // Catalog shape
  // ---------------------------------------------------------------------------

  /** One constellation's list: an embedded head with id 0, valid tracks, distinct signal ids. */
  ghost predicate ListValid(list: seq<Track>) {
    && |list| >= 1
    && list[0].signalId == 0
    && (forall j | 0 <= j < |list| :: TrackValid(list[j]))
    && (forall j, k | 0 <= j < k < |list| :: list[j].signalId != list[k].signalId)
  }

  ghost predicate CatalogValid(lists: seq<seq<Track>>) {
    |lists| == 5 && forall c | 0 <= c < 5 :: ListValid(lists[c])
  }

  /** `nmea_init_gsv_data_all`: five head tracks, all zero. */
  function InitialCatalog(): (lists: seq<seq<Track>>)
    ensures CatalogValid(lists)
    ensures forall c | 0 <= c < 5 :: |lists[c]| == 1 && lists[c][0].numSats == 0
  {
    seq(5, _ => [NewTrack(0)])
  }

  // ---------------------------------------------------------------------------
  // The pieces of `nmea_update_gsv_data_all`
  // ---------------------------------------------------------------------------

  datatype SignalLookup = SignalId(id: int) | SignalError(code: int)

  /**
   * The signal id: present as a hexadecimal last field when the sentence has
   * more than 8 fields and one more than a multiple of 4; otherwise 0.
   */
  function SignalIdOf(s: seq<char>): (r: SignalLookup)
    ensures r.SignalId? ==> 0 <= r.id <= 15
    ensures r.SignalError? ==> r.code in {-5, -6, -7}
    ensures !(CommaCount(s) + 1 > 8 && CommaCount(s) % 4 == 0) ==> r == SignalId(0)
  {
    var n := CommaCount(s) + 1;
    if n > 8 && (n - 1) % 4 == 0 then
      match ExtractField(s, n - 1, GSV_FIELD_SIZE)
      case None => SignalError(-5)
      case Some(f) =>
        if f == [] then SignalError(-7)
        else
          var v := Strtol(f, 16);
          if v < 0 || v > 15 then SignalError(-6) else SignalId(v)
    else SignalId(0)
  }

  /** A single hexadecimal digit as the last of 9, 13, ... fields is the signal id. */
  lemma SignalIdOfHexDigit(s: seq<char>, d: char)
    requires |Fields(s)| > 8 && (|Fields(s)| - 1) % 4 == 0
    requires Fields(s)[|Fields(s)| - 1] == [d] && IsDigitIn(d, 16)
    ensures SignalIdOf(s) == SignalId(DigitValue(d))
  {
    FieldsCount(s);
    ExtractFieldIsField(s, |Fields(s)| - 1, GSV_FIELD_SIZE);
    var f := [d];
    assert IndexOf(f, '*') == 1;
    assert f[..1] == f;
    assert SkipSpaces(f) == 0 && f[0..] == f;
    assert LeadingDigits(f, 16) == 1 by { assert f[1..] == []; }
    assert ValueOf(f, 16) == DigitValue(d) by { assert f[..0] == []; }
  }

  /**
   * The signal id field is the last field, cut at any '*'.  Without a signal
   * id field the id is 0.  With one: -5 when the field does not fit the
   * 10-byte buffer, -7 when it is empty, -6 when its hexadecimal value is
   * outside 0..15, and otherwise that value is the id.
   */
  lemma SignalIdOfLastField(s: seq<char>)
    ensures var fs := Fields(s);
      var last := fs[|fs| - 1];
      var text := last[..IndexOf(last, '*')];
      && (!(|fs| > 8 && (|fs| - 1) % 4 == 0) ==> SignalIdOf(s) == SignalId(0))
      && (|fs| > 8 && (|fs| - 1) % 4 == 0 ==>
            && (SignalIdOf(s) == SignalError(-5) <==> |last| >= GSV_FIELD_SIZE)
            && (SignalIdOf(s) == SignalError(-7) <==> |last| < GSV_FIELD_SIZE && text == [])
            && (SignalIdOf(s) == SignalError(-6) <==>
                  |last| < GSV_FIELD_SIZE && text != [] && !(0 <= Strtol(text, 16) <= 15))
            && (SignalIdOf(s).SignalId? <==>
                  |last| < GSV_FIELD_SIZE && text != [] && 0 <= Strtol(text, 16) <= 15)
            && (SignalIdOf(s).SignalId? ==> SignalIdOf(s).id == Strtol(text, 16)))
  {
    FieldsCount(s);
    ExtractFieldIsField(s, |Fields(s)| - 1, GSV_FIELD_SIZE);
  }

  /** The constellation a talker letter (third character) names. */
  function ConstellationOf(c: char): (r: Option<Constellation>)
    ensures r.Some? <==> c in "PLABQ"
  {
    match c
    case 'P' => Some(Gps)
    case 'L' => Some(Glonass)
    case 'A' => Some(Galileo)
    case 'B' => Some(Beidou)
    case 'Q' => Some(Qzss)
    case _ => None
  }

  /** Index of the first track with the given signal id, or |list| when there is none. */
  function FindTrack(list: seq<Track>, id: int): (i: nat)
    ensures i <= |list|
    ensures i < |list| ==> list[i].signalId == id
    ensures forall k | 0 <= k < i :: list[k].signalId != id
  {
    if list == [] then 0 else if list[0].signalId == id then 0 else 1 + FindTrack(list[1..], id)
  }

  /** The texts of one satellite block: PRN, elevation, azimuth, SNR. */
  type Quad = (seq<char>, seq<char>, seq<char>, seq<char>)

  /** Fields `4 + 4k` to `7 + 4k`, the k-th satellite block, or None when any cannot be extracted. */
  function SatelliteFields(s: seq<char>, k: nat): Option<Quad> {
    match (ExtractField(s, 4 + 4 * k, GSV_FIELD_SIZE), ExtractField(s, 5 + 4 * k, GSV_FIELD_SIZE),
           ExtractField(s, 6 + 4 * k, GSV_FIELD_SIZE), ExtractField(s, 7 + 4 * k, GSV_FIELD_SIZE))
    case (Some(prn), Some(elevation), Some(azimuth), Some(snr)) => Some((prn, elevation, azimuth, snr))
    case _ => None
  }

  /** The four satellite blocks a sentence can carry, as the loop extracts them. */
  function Blocks(s: seq<char>): (b: seq<Option<Quad>>)
    ensures |b| == 4
  {
    seq(4, k requires 0 <= k => SatelliteFields(s, k))
  }

  /** A block with no empty field. */
  predicate Complete(q: Quad) {
    q.0 != [] && q.1 != [] && q.2 != [] && q.3 != []
  }

  function SatelliteOf(q: Quad): Satellite {
    Satellite(Atoi(q.0), Atoi(q.1), Atoi(q.2), Atoi(q.3))
  }

  /** A satellite appended to the staging array. */
  function Push(t: Track, sat: Satellite): (t': Track)
    requires TrackValid(t) && t.numSatsTmp < MAX_SATELLITES
    ensures TrackValid(t')
    ensures t'.numSatsTmp == t.numSatsTmp + 1
    ensures t'.satellitesTmp[..t'.numSatsTmp] == t.satellitesTmp[..t.numSatsTmp] + [sat]
    ensures t' == t.(numSatsTmp := t'.numSatsTmp, satellitesTmp := t'.satellitesTmp)
  {
    t.(satellitesTmp := t.satellitesTmp[t.numSatsTmp := sat], numSatsTmp := t.numSatsTmp + 1)
  }

  /**
   * Reference definition: the satellites a sentence reports from block k on,
   * skipping blocks with an empty field and stopping at the first block that
   * cannot be extracted.
   */
  function ReportedFrom(blocks: seq<Option<Quad>>, k: nat): (sats: seq<Satellite>)
    ensures |sats| <= |blocks| - k || k > |blocks|
    decreases |blocks| - k
  {
    if k >= |blocks| then []
    else match blocks[k]
      case None => []
      case Some(q) => if Complete(q) then [SatelliteOf(q)] + ReportedFrom(blocks, k + 1) else ReportedFrom(blocks, k + 1)
  }

  /**
   * The staging loop from block k on: `(track, true)` is the early return
   * with -6 when the staging array is already full at the top of an
   * iteration.
   */
  function StageFrom(blocks: seq<Option<Quad>>, t: Track, k: nat): (out: (Track, bool))
    requires TrackValid(t)
    ensures TrackValid(out.0)
    ensures out.0.signalId == t.signalId && out.0.lastUpdateMs == t.lastUpdateMs
    ensures out.0.numSats == t.numSats && out.0.satellites == t.satellites
    ensures t.numSatsTmp <= out.0.numSatsTmp
    decreases |blocks| - k
  {
    if k >= |blocks| then (t, false)
    else if t.numSatsTmp >= MAX_SATELLITES then (t, true)
    else match blocks[k]
      case None => (t, false)
      case Some(q) =>
        if !Complete(q) then StageFrom(blocks, t, k + 1)
        else
          StageFrom(blocks, Push(t, SatelliteOf(q)), k + 1)
  }

  /** With room for every block, staging never takes the early return. */
  lemma {:induction false} StageFromRoom(blocks: seq<Option<Quad>>, t: Track, k: nat)
    requires TrackValid(t) && k <= |blocks| && t.numSatsTmp + (|blocks| - k) <= MAX_SATELLITES
    ensures !StageFrom(blocks, t, k).1
    decreases |blocks| - k
  {
    if k < |blocks| && blocks[k].Some? {
      if Complete(blocks[k].value) {
        StageFromRoom(blocks, Push(t, SatelliteOf(blocks[k].value)), k + 1);
      } else {
        StageFromRoom(blocks, t, k + 1);
      }
    }
  }

  /** Staging that does not take the early return appends exactly the reported satellites. */
  lemma {:induction false} StageFromAppendsReported(blocks: seq<Option<Quad>>, t: Track, k: nat)
    requires TrackValid(t) && k <= |blocks| && !StageFrom(blocks, t, k).1
    ensures StageFrom(blocks, t, k).0.numSatsTmp == t.numSatsTmp + |ReportedFrom(blocks, k)|
    ensures StageFrom(blocks, t, k).0.satellitesTmp[..t.numSatsTmp + |ReportedFrom(blocks, k)|]
         == t.satellitesTmp[..t.numSatsTmp] + ReportedFrom(blocks, k)
    decreases |blocks| - k
  {
    if k == |blocks| || blocks[k].None? {
      assert StageFrom(blocks, t, k) == (t, false) && ReportedFrom(blocks, k) == [];
      assert t.satellitesTmp[..t.numSatsTmp] + [] == t.satellitesTmp[..t.numSatsTmp];
    } else if !Complete(blocks[k].value) {
      SkipStep(blocks, t, k);
      StageFromAppendsReported(blocks, t, k + 1);
    } else {
      var sat := SatelliteOf(blocks[k].value);
      assert t.numSatsTmp < MAX_SATELLITES;
      assert StageFrom(blocks, t, k) == StageFrom(blocks, Push(t, sat), k + 1);
      StageFromAppendsReported(blocks, Push(t, sat), k + 1);
      AppendStep(blocks, t, k, sat);
    }
  }

  /** A block with an empty field is passed over by both the staging and the report. */
  lemma SkipStep(blocks: seq<Option<Quad>>, t: Track, k: nat)
    requires TrackValid(t) && k < |blocks| && t.numSatsTmp < MAX_SATELLITES
    requires blocks[k].Some? && !Complete(blocks[k].value)
    ensures StageFrom(blocks, t, k) == StageFrom(blocks, t, k + 1)
    ensures ReportedFrom(blocks, k) == ReportedFrom(blocks, k + 1)
  {
  }

  /** One complete block: staging pushes its satellite, and the report starts with it. */
  lemma AppendStep(blocks: seq<Option<Quad>>, t: Track, k: nat, sat: Satellite)
    requires TrackValid(t) && k < |blocks| && t.numSatsTmp < MAX_SATELLITES
    requires blocks[k].Some? && Complete(blocks[k].value) && sat == SatelliteOf(blocks[k].value)
    requires var out := StageFrom(blocks, Push(t, sat), k + 1).0;
      && out.numSatsTmp == t.numSatsTmp + 1 + |ReportedFrom(blocks, k + 1)|
      && out.satellitesTmp[..out.numSatsTmp] == Push(t, sat).satellitesTmp[..t.numSatsTmp + 1] + ReportedFrom(blocks, k + 1)
    ensures StageFrom(blocks, t, k) == StageFrom(blocks, Push(t, sat), k + 1)
    ensures ReportedFrom(blocks, k) == [sat] + ReportedFrom(blocks, k + 1)
    ensures var out := StageFrom(blocks, t, k).0;
      && out.numSatsTmp == t.numSatsTmp + |ReportedFrom(blocks, k)|
      && out.satellitesTmp[..out.numSatsTmp] == t.satellitesTmp[..t.numSatsTmp] + ReportedFrom(blocks, k)
  {
    var prefix := t.satellitesTmp[..t.numSatsTmp];
    var rest := ReportedFrom(blocks, k + 1);
    assert (prefix + [sat]) + rest == prefix + ([sat] + rest);
  }

  /** Sentence total (field 1) and number (field 2), each read with `atoi`; None when either cannot be extracted. */
  function Sequence(s: seq<char>): Option<(int, int)> {
    match (ExtractField(s, 1, GSV_FIELD_SIZE), ExtractField(s, 2, GSV_FIELD_SIZE))
    case (Some(total), Some(number)) => Some((Atoi(total), Atoi(number)))
    case _ => None
  }

  /** Publishing a finished group: the staged satellites become the track's, stamped with the time. */
  function Publish(t: Track, nowMs: u64): (t': Track)
    requires TrackValid(t)
    ensures TrackValid(t')
    ensures t'.numSats == t.numSatsTmp && t'.satellites == t.satellitesTmp
    ensures t'.lastUpdateMs == nowMs && t'.numSatsTmp == 0
    ensures t'.signalId == t.signalId && t'.satellitesTmp == t.satellitesTmp
  {
    t.(numSats := t.numSatsTmp, satellites := t.satellitesTmp, lastUpdateMs := nowMs, numSatsTmp := 0)
  }

  /**
   * The part of the update after the track has been found or created, given
   * the sentence's total and number (`sequence`) and its satellite blocks:
   * the staging and, when the number equals the total, the publication.
   */
  function UpdateTrack(sequence: Option<(int, int)>, blocks: seq<Option<Quad>>, t: Track, nowMs: u64): (out: (int, Track))
    requires TrackValid(t)
    ensures out.0 in {0, -5, -6}
    ensures TrackValid(out.1)
    ensures out.1.signalId == t.signalId
    ensures out.0 == -5 <==> sequence.None?
    ensures out.0 == -5 ==> out.1 == t
    ensures sequence.Some? && sequence.value.0 != sequence.value.1 ==>
              out.1.numSats == t.numSats && out.1.satellites == t.satellites && out.1.lastUpdateMs == t.lastUpdateMs
  {
    match sequence
    case None => (-5, t)
    case Some((total, number)) =>
      var t1 := if number == 1 then t.(numSatsTmp := 0) else t;
      var (t2, full) := StageFrom(blocks, t1, 0);
      if full then (-6, t2)
      else if number == total then (0, Publish(t2, nowMs))
      else (0, t2)
  }

  /**
   * One sentence of a group, `number` of `total`, on a track.  Sentence 1
   * starts staging afresh.  With room for its blocks the sentence returns 0.
   * A -6 leaves the published satellites alone.  On 0, the staged
   * satellites are those kept from earlier sentences followed by the ones
   * this sentence reports.  They are published, stamped and staging emptied
   * when the number is the total, and otherwise left staged with the
   * published satellites untouched.
   */
  lemma UpdateTrackStages(total: int, number: int, blocks: seq<Option<Quad>>, t: Track, nowMs: u64)
    requires TrackValid(t)
    ensures var out := UpdateTrack(Some((total, number)), blocks, t, nowMs);
      var base := if number == 1 then 0 else t.numSatsTmp;
      var staged := t.satellitesTmp[..base] + ReportedFrom(blocks, 0);
      && out.0 in {0, -6}
      && (base + |blocks| <= MAX_SATELLITES ==> out.0 == 0)
      && (out.0 == -6 ==>
            out.1.numSats == t.numSats && out.1.satellites == t.satellites && out.1.lastUpdateMs == t.lastUpdateMs)
      && (out.0 == 0 && number == total ==>
            && out.1.numSats == |staged| && out.1.satellites[..|staged|] == staged
            && out.1.lastUpdateMs == nowMs && out.1.numSatsTmp == 0)
      && (out.0 == 0 && number != total ==>
            && out.1.numSatsTmp == |staged| && out.1.satellitesTmp[..|staged|] == staged
            && out.1.numSats == t.numSats && out.1.satellites == t.satellites
            && out.1.lastUpdateMs == t.lastUpdateMs)
  {
    var t1 := if number == 1 then t.(numSatsTmp := 0) else t;
    assert t1.satellitesTmp[..t1.numSatsTmp] == t.satellitesTmp[..if number == 1 then 0 else t.numSatsTmp];
    if t1.numSatsTmp + |blocks| <= MAX_SATELLITES {
      StageFromRoom(blocks, t1, 0);
    }
    if !StageFrom(blocks, t1, 0).1 {
      StageFromAppendsReported(blocks, t1, 0);
    }
  }

  /**
   * A sentence 1 arriving while a group is still staged throws the staged
   * satellites away: staging restarts with what the new sentence reports,
   * and the published satellites stay as they were.
   */
  lemma FirstSentenceRestartsGroup(total: int, blocks: seq<Option<Quad>>, t: Track, nowMs: u64)
    requires TrackValid(t) && total != 1 && |blocks| <= 4
    ensures var out := UpdateTrack(Some((total, 1)), blocks, t, nowMs);
      && out.0 == 0
      && out.1.numSatsTmp == |ReportedFrom(blocks, 0)|
      && out.1.satellitesTmp[..out.1.numSatsTmp] == ReportedFrom(blocks, 0)
      && out.1.numSats == t.numSats && out.1.satellites == t.satellites && out.1.lastUpdateMs == t.lastUpdateMs
  {
    UpdateTrackStages(total, 1, blocks, t, nowMs);
    assert t.satellitesTmp[..0] + ReportedFrom(blocks, 0) == ReportedFrom(blocks, 0);
  }

  /** Sentences `k + 1 .. n` of an n-sentence group, with block lists `groups`, applied in order to a track. */
  function SendGroup(t: Track, groups: seq<seq<Option<Quad>>>, k: nat, nowMs: u64): (r: Track)
    requires TrackValid(t)
    ensures TrackValid(r)
    decreases |groups| - k
  {
    if k >= |groups| then t
    else SendGroup(UpdateTrack(Some((|groups|, k + 1)), groups[k], t, nowMs).1, groups, k + 1, nowMs)
  }

  /** The satellites reported by sentences `k + 1 .. n` of a group, in order. */
  function GroupReported(groups: seq<seq<Option<Quad>>>, k: nat): seq<Satellite>
    decreases |groups| - k
  {
    if k >= |groups| then [] else ReportedFrom(groups[k], 0) + GroupReported(groups, k + 1)
  }

  /**
   * A complete group of up to 16 sentences of four blocks each, received in
   * order, publishes exactly the concatenation of what its sentences report
   * (a 4+4+2 group publishes those 10 satellites), stamped with the time,
   * with staging emptied, whatever the track held before.
   */
  lemma GroupPublishesConcatenation(t: Track, groups: seq<seq<Option<Quad>>>, nowMs: u64)
    requires TrackValid(t) && 1 <= |groups| <= MAX_SATELLITES / 4
    requires forall k | 0 <= k < |groups| :: |groups[k]| <= 4
    ensures var r := SendGroup(t, groups, 0, nowMs);
      var all := GroupReported(groups, 0);
      && r.numSats == |all| && r.satellites[..|all|] == all
      && r.lastUpdateMs == nowMs && r.numSatsTmp == 0
  {
    GroupFrom(t, groups, 0, nowMs);
    assert [] + GroupReported(groups, 0) == GroupReported(groups, 0);
  }

  lemma {:induction false} GroupFrom(t: Track, groups: seq<seq<Option<Quad>>>, k: nat, nowMs: u64)
    requires TrackValid(t) && k < |groups| <= MAX_SATELLITES / 4
    requires forall j | 0 <= j < |groups| :: |groups[j]| <= 4
    requires k > 0 ==> t.numSatsTmp <= 4 * k
    ensures var r := SendGroup(t, groups, k, nowMs);
      var all := (if k == 0 then [] else t.satellitesTmp[..t.numSatsTmp]) + GroupReported(groups, k);
      && r.numSats == |all| && r.satellites[..|all|] == all
      && r.lastUpdateMs == nowMs && r.numSatsTmp == 0
    decreases |groups| - k
  {
    var base := if k == 0 then [] else t.satellitesTmp[..t.numSatsTmp];
    var t1 := UpdateTrack(Some((|groups|, k + 1)), groups[k], t, nowMs).1;
    var staged := base + ReportedFrom(groups[k], 0);
    if k + 1 == |groups| {
      assert t1.numSats == |staged| && t1.satellites[..|staged|] == staged
          && t1.lastUpdateMs == nowMs && t1.numSatsTmp == 0 by {
        GroupSentence(t, groups[k], |groups|, k, nowMs);
      }
      assert SendGroup(t, groups, k, nowMs) == t1;
      assert GroupReported(groups, k) == staged[|base|..] by {
        assert GroupReported(groups, k) == ReportedFrom(groups[k], 0) + [];
      }
    } else {
      assert TrackValid(t1) && t1.numSatsTmp <= 4 * (k + 1) && t1.satellitesTmp[..t1.numSatsTmp] == staged by {
        GroupSentence(t, groups[k], |groups|, k, nowMs);
      }
      assert SendGroup(t, groups, k, nowMs) == SendGroup(t1, groups, k + 1, nowMs);
      GroupFrom(t1, groups, k + 1, nowMs);
      assert staged + GroupReported(groups, k + 1) == base + GroupReported(groups, k) by {
        assert GroupReported(groups, k) == ReportedFrom(groups[k], 0) + GroupReported(groups, k + 1);
      }
    }
  }

  /** Sentence `k + 1` of an n-sentence group succeeds and stages, or for the last one publishes, what came before it plus its own report. */
  lemma GroupSentence(t: Track, blocks: seq<Option<Quad>>, n: nat, k: nat, nowMs: u64)
    requires TrackValid(t) && k < n <= MAX_SATELLITES / 4 && |blocks| <= 4
    requires k > 0 ==> t.numSatsTmp <= 4 * k
    ensures var out := UpdateTrack(Some((n, k + 1)), blocks, t, nowMs);
      var staged := (if k == 0 then [] else t.satellitesTmp[..t.numSatsTmp]) + ReportedFrom(blocks, 0);
      && out.0 == 0
      && (k + 1 == n ==>
            out.1.numSats == |staged| && out.1.satellites[..|staged|] == staged
            && out.1.lastUpdateMs == nowMs && out.1.numSatsTmp == 0)
      && (k + 1 != n ==>
            out.1.numSatsTmp == |staged| <= 4 * (k + 1) && out.1.satellitesTmp[..out.1.numSatsTmp] == staged)
  {
    UpdateTrackStages(n, k + 1, blocks, t, nowMs);
    if k == 0 {
      assert t.satellitesTmp[..0] == [];
    }
  }

  /**
   * `nmea_update_gsv_data_all(lists, s)`; `allocOk` says whether `malloc` of a
   * new track succeeds and `nowMs` is the millisecond clock.
   */
  function GsvUpdate(lists: seq<seq<Track>>, s: CString, allocOk: bool, nowMs: u64): (out: (int, seq<seq<Track>>))
    requires CatalogValid(lists)
    ensures out.0 == 0 || -8 <= out.0 <= -2
    ensures CatalogValid(out.1)
    ensures out.0 == -2 <==> !ChecksumValid(s)
    ensures out.0 == -3 <==> ChecksumValid(s) && (s[1] != 'G' || s[3..6] != "GSV")
    ensures out.0 == -4 <==>
      (ChecksumValid(s) && s[1] == 'G' && s[3..6] == "GSV" && SignalIdOf(s).SignalId? && ConstellationOf(s[2]).None?)
    ensures out.0 == -7 <==>
      (ChecksumValid(s) && s[1] == 'G' && s[3..6] == "GSV" && SignalIdOf(s) == SignalError(-7))
    ensures out.0 in {-2, -3, -4, -7, -8} ==> out.1 == lists
    ensures forall c | 0 <= c < 5 :: |out.1[c]| >= |lists[c]|
  {
    if !ChecksumValid(s) then (-2, lists)
    else if s[1] != 'G' || s[3..6] != "GSV" then (-3, lists)
    else match SignalIdOf(s)
      case SignalError(code) => (code, lists)
      case SignalId(id) =>
        match ConstellationOf(s[2])
        case None => (-4, lists)
        case Some(c) => UpdateConstellation(lists, ConstellationIndex(c), id, Sequence(s), Blocks(s), allocOk, nowMs)
  }

  /** A sentence that gets past the header checks updates one constellation's list. */
  lemma GsvUpdateReachesConstellation(lists: seq<seq<Track>>, s: CString, allocOk: bool, nowMs: u64)
    requires CatalogValid(lists)
    requires ChecksumValid(s) && s[1] == 'G' && s[3..6] == "GSV"
    requires SignalIdOf(s).SignalId? && ConstellationOf(s[2]).Some?
    ensures GsvUpdate(lists, s, allocOk, nowMs)
         == UpdateConstellation(lists, ConstellationIndex(ConstellationOf(s[2]).value), SignalIdOf(s).id,
                                Sequence(s), Blocks(s), allocOk, nowMs)
  {
  }

  /**
   * An accepted sentence updates the track of its talker's constellation and
   * signal id, appending a new track when there is none: -8 when that append
   * cannot allocate, otherwise the code and new track are those of one
   * sentence applied to the track.
   */
  lemma GsvUpdateUpdatesTrack(lists: seq<seq<Track>>, s: CString, allocOk: bool, nowMs: u64)
    requires CatalogValid(lists)
    requires ChecksumValid(s) && s[1] == 'G' && s[3..6] == "GSV"
    requires SignalIdOf(s).SignalId? && ConstellationOf(s[2]).Some?
    ensures var c := ConstellationIndex(ConstellationOf(s[2]).value);
      var id := SignalIdOf(s).id;
      var i := FindTrack(lists[c], id);
      var out := GsvUpdate(lists, s, allocOk, nowMs);
      && (out.0 == -8 <==> i == |lists[c]| && !allocOk)
      && (out.0 != -8 ==>
            var update := UpdateTrack(Sequence(s), Blocks(s), if i < |lists[c]| then lists[c][i] else NewTrack(id), nowMs);
            && i < |out.1[c]|
            && out.0 == update.0 && out.1[c][i] == update.1)
  {
    GsvUpdateReachesConstellation(lists, s, allocOk, nowMs);
  }

  /** Find or append the track for `id` in list `c`, then update it. */
  function UpdateConstellation(lists: seq<seq<Track>>, c: nat, id: int, sequence: Option<(int, int)>,
                               blocks: seq<Option<Quad>>, allocOk: bool, nowMs: u64): (out: (int, seq<seq<Track>>))
    requires CatalogValid(lists) && c < 5 && 0 <= id <= 15
    ensures out.0 in {0, -5, -6, -8}
    ensures CatalogValid(out.1)
    ensures out.0 == -8 <==> FindTrack(lists[c], id) == |lists[c]| && !allocOk
    ensures out.0 == -8 ==> out.1 == lists
    ensures forall d | 0 <= d < 5 && d != c :: out.1[d] == lists[d]
    ensures |out.1[c]| >= |lists[c]|
    ensures out.0 != -8 ==> |out.1[c]| == |lists[c]| + (if FindTrack(lists[c], id) == |lists[c]| then 1 else 0)
    ensures out.0 != -8 ==> FindTrack(out.1[c], id) == FindTrack(lists[c], id)
    ensures forall j | 0 <= j < |lists[c]| && j != FindTrack(lists[c], id) :: out.1[c][j] == lists[c][j]
    ensures out.0 != -8 ==>
      var i := FindTrack(lists[c], id);
      var update := UpdateTrack(sequence, blocks, if i < |lists[c]| then lists[c][i] else NewTrack(id), nowMs);
      out.0 == update.0 && out.1[c][i] == update.1
  {
    var list := lists[c];
    var i := FindTrack(list, id);
    if i == |list| && !allocOk then (-8, lists)
    else
      var list1 := if i == |list| then list + [NewTrack(id)] else list;
      assert ListValid(list1) by {
        if i == |list| {
          assert forall j | 0 <= j < |list| :: list1[j] == list[j];
        }
      }
      var (code, t) := UpdateTrack(sequence, blocks, list1[i], nowMs);
      var list2 := list1[i := t];
      ReplaceKeepsListValid(list1, i, t);
      SetListKeepsCatalogValid(lists, c, list2);
      assert FindTrack(list2, id) == i by { FindTrackAt(list2, id, i); }
      (code, lists[c := list2])
  }

  /** A group of one sentence publishes exactly the satellites that sentence reports. */
  lemma SingleSentenceGroupPublishes(lists: seq<seq<Track>>, s: CString, allocOk: bool, nowMs: u64)
    requires CatalogValid(lists)
    requires GsvUpdate(lists, s, allocOk, nowMs).0 == 0 && Sequence(s) == Some((1, 1))
    ensures ConstellationOf(s[2]).Some? && SignalIdOf(s).SignalId?
    ensures var list := GsvUpdate(lists, s, allocOk, nowMs).1[ConstellationIndex(ConstellationOf(s[2]).value)];
      var i := FindTrack(list, SignalIdOf(s).id);
      && i < |list|
      && list[i].numSats == |ReportedFrom(Blocks(s), 0)|
      && list[i].satellites[..list[i].numSats] == ReportedFrom(Blocks(s), 0)
      && list[i].lastUpdateMs == nowMs
      && list[i].numSatsTmp == 0
  {
    assert ChecksumValid(s) && s[1] == 'G' && s[3..6] == "GSV";
    assert SignalIdOf(s).SignalId? && ConstellationOf(s[2]).Some?;
    GsvUpdateReachesConstellation(lists, s, allocOk, nowMs);
    var c := ConstellationIndex(ConstellationOf(s[2]).value);
    SingleSentenceTrack(lists, c, SignalIdOf(s).id, Blocks(s), allocOk, nowMs);
  }

  lemma SingleSentenceTrack(lists: seq<seq<Track>>, c: nat, id: int, blocks: seq<Option<Quad>>, allocOk: bool, nowMs: u64)
    requires CatalogValid(lists) && c < 5 && 0 <= id <= 15 && |blocks| == 4
    requires UpdateConstellation(lists, c, id, Some((1, 1)), blocks, allocOk, nowMs).0 == 0
    ensures var list := UpdateConstellation(lists, c, id, Some((1, 1)), blocks, allocOk, nowMs).1[c];
      var i := FindTrack(list, id);
      && i < |list|
      && list[i].numSats == |ReportedFrom(blocks, 0)|
      && list[i].satellites[..list[i].numSats] == ReportedFrom(blocks, 0)
      && list[i].lastUpdateMs == nowMs
      && list[i].numSatsTmp == 0
  {
    var list := lists[c];
    var i := FindTrack(list, id);
    var list1 := if i == |list| then list + [NewTrack(id)] else list;
    assert ListValid(list1) by {
      if i == |list| {
        assert forall j | 0 <= j < |list| :: list1[j] == list[j];
      }
    }
    var t1 := list1[i].(numSatsTmp := 0);
    StageFromRoom(blocks, t1, 0);
    StageFromAppendsReported(blocks, t1, 0);
    assert t1.satellitesTmp[..0] + ReportedFrom(blocks, 0) == ReportedFrom(blocks, 0);
  }

  /** A sentence of a group still in progress leaves the published satellites of every track as they were. */
  lemma GroupInProgressKeepsPublished(lists: seq<seq<Track>>, s: CString, allocOk: bool, nowMs: u64)
    requires CatalogValid(lists)
    requires Sequence(s).Some? && Sequence(s).value.0 != Sequence(s).value.1
    ensures var lists' := GsvUpdate(lists, s, allocOk, nowMs).1;
      forall c, j | 0 <= c < 5 && 0 <= j < |lists[c]| ::
        lists'[c][j].numSats == lists[c][j].numSats && lists'[c][j].satellites == lists[c][j].satellites
  {
    var out := GsvUpdate(lists, s, allocOk, nowMs);
    if out.1 != lists {
      assert ChecksumValid(s) && s[1] == 'G' && s[3..6] == "GSV";
      assert SignalIdOf(s).SignalId? && ConstellationOf(s[2]).Some?;
      GsvUpdateReachesConstellation(lists, s, allocOk, nowMs);
      InProgressKeepsPublished(lists, ConstellationIndex(ConstellationOf(s[2]).value), SignalIdOf(s).id,
                               Sequence(s), Blocks(s), allocOk, nowMs);
    }
  }

  /** Within one constellation: a sentence whose number differs from the total never publishes. */
  lemma InProgressKeepsPublished(lists: seq<seq<Track>>, c: nat, id: int, sequence: Option<(int, int)>,
                                 blocks: seq<Option<Quad>>, allocOk: bool, nowMs: u64)
    requires CatalogValid(lists) && c < 5 && 0 <= id <= 15
    requires sequence.Some? && sequence.value.0 != sequence.value.1
    ensures var lists' := UpdateConstellation(lists, c, id, sequence, blocks, allocOk, nowMs).1;
      forall d, j | 0 <= d < 5 && 0 <= j < |lists[d]| ::
        lists'[d][j].numSats == lists[d][j].numSats && lists'[d][j].satellites == lists[d][j].satellites
  {
    var list := lists[c];
    var i := FindTrack(list, id);
    if !(i == |list| && !allocOk) {
      var list1 := if i == |list| then list + [NewTrack(id)] else list;
      assert ListValid(list1) by {
        if i == |list| {
          assert forall j | 0 <= j < |list| :: list1[j] == list[j];
        }
      }
      var updated := UpdateTrack(sequence, blocks, list1[i], nowMs);
      var lists': seq<seq<Track>> := UpdateConstellation(lists, c, id, sequence, blocks, allocOk, nowMs).1;
      assert lists' == lists[c := list1[i := updated.1]];
      forall d: int, j: int | 0 <= d < 5 && 0 <= j < |lists[d]|
        ensures lists'[d][j].numSats == lists[d][j].numSats && lists'[d][j].satellites == lists[d][j].satellites
      {
        if d == c && j == i {
          assert list1[i] == lists[d][j];
        }
      }
    }
  }

  lemma ReplaceKeepsListValid(list: seq<Track>, i: nat, t: Track)
    requires ListValid(list) && i < |list| && TrackValid(t) && t.signalId == list[i].signalId
    ensures ListValid(list[i := t])
  {
    var list' := list[i := t];
    forall j, k | 0 <= j < k < |list'| ensures list'[j].signalId != list'[k].signalId {
      assert list'[j].signalId == list[j].signalId && list'[k].signalId == list[k].signalId;
    }
  }

  lemma SetListKeepsCatalogValid(lists: seq<seq<Track>>, c: nat, list: seq<Track>)
    requires CatalogValid(lists) && c < 5 && ListValid(list)
    ensures CatalogValid(lists[c := list])
  {
  }

  lemma FindTrackAt(list: seq<Track>, id: int, i: nat)
    requires i < |list| && list[i].signalId == id && forall k | 0 <= k < i :: list[k].signalId != id
    ensures FindTrack(list, id) == i
  {
  }
  // ---------------------------------------------------------------------------
  // Ageing, counting and freeing
  // ---------------------------------------------------------------------------

  /**
   * The age test of `nmea_clear_old_gsv_data`: the last update lies before
   * `now - age * 1000`, computed in wrapping 64-bit arithmetic.
   */
  predicate Stale(lastMs: u64, nowMs: u64, age: int) {
    lastMs < SubU64(nowMs, (age * 1000) % TWO_64)
  }

  /** Once the clock has passed the age, a track is stale exactly when it is older than the age. */
  lemma StaleIffOlderThanAge(lastMs: u64, nowMs: u64, age: int)
    requires 0 <= age && age * 1000 <= nowMs
    ensures Stale(lastMs, nowMs, age) <==> nowMs - lastMs > age * 1000
  {
  }

  /** Before the clock has passed the age, the subtraction wraps and every track up to now counts as stale. */
  lemma StaleBeforeClockPassesAge(lastMs: u64, nowMs: u64, age: int)
    requires 0 <= age && nowMs < age * 1000 < TWO_64 && lastMs <= nowMs
    ensures Stale(lastMs, nowMs, age)
  {
  }

  /** `nmea_clear_old_gsv_data` down one list: stale tracks lose their published count. */
  function ClearOld(list: seq<Track>, nowMs: u64, age: int): (r: seq<Track>)
    ensures |r| == |list|
    ensures forall j | 0 <= j < |list| :: r[j] == list[j].(numSats := r[j].numSats)
    ensures forall j | 0 <= j < |list| :: r[j].numSats == 0 || r[j].numSats == list[j].numSats
    ensures forall j | 0 <= j < |list| :: !Stale(list[j].lastUpdateMs, nowMs, age) ==> r[j] == list[j]
    ensures forall j | 0 <= j < |list| :: Stale(list[j].lastUpdateMs, nowMs, age) ==> r[j] == list[j].(numSats := 0)
  {
    if list == [] then []
    else
      var head := if Stale(list[0].lastUpdateMs, nowMs, age) then list[0].(numSats := 0) else list[0];
      [head] + ClearOld(list[1..], nowMs, age)
  }

  lemma {:induction false} ClearOldKeepsListValid(list: seq<Track>, nowMs: u64, age: int)
    requires ListValid(list)
    ensures ListValid(ClearOld(list, nowMs, age))
  {
    var r := ClearOld(list, nowMs, age);
    forall j | 0 <= j < |r| ensures TrackValid(r[j]) && r[j].signalId == list[j].signalId {
      assert r[j] == list[j].(numSats := r[j].numSats);
    }
  }

  /** The largest published count in a list, or 0. */
  function MaxSats(list: seq<Track>): (n: int)
    ensures n >= 0
    ensures forall j | 0 <= j < |list| :: list[j].numSats <= n
    ensures n == 0 || exists j | 0 <= j < |list| :: list[j].numSats == n
  {
    if list == [] then 0
    else
      var m := MaxSats(list[..|list| - 1]);
      var last := list[|list| - 1].numSats;
      assert forall j | 0 <= j < |list| - 1 :: list[..|list| - 1][j] == list[j];
      if last > m then last else m
  }

  /** `nmea_get_gsv_satellites`: the scan for the largest count. */
  method GetSatellites(list: seq<Track>) returns (n: int)
    ensures n == MaxSats(list)
  {
    n := 0;
    var j := 0;
    while j < |list|
      invariant 0 <= j <= |list|
      invariant n == MaxSats(list[..j])
    {
      assert list[..j + 1][..j] == list[..j];
      if list[j].numSats > n {
        n := list[j].numSats;
      }
      j := j + 1;
    }
    assert list[..j] == list;
  }

  /** The sum `nmea_get_gsv_satellites_all` returns. */
  function TotalSats(lists: seq<seq<Track>>): int
    requires |lists| == 5
  {
    SumMax(lists, 5)
  }

  /** A valid catalog reports between 0 and 5 * 64 satellites. */
  lemma TotalSatsBounded(lists: seq<seq<Track>>)
    requires CatalogValid(lists)
    ensures 0 <= TotalSats(lists) <= 5 * MAX_SATELLITES
  {
    forall c | 0 <= c < 5 ensures MaxSats(lists[c]) <= MAX_SATELLITES {
      var m := MaxSats(lists[c]);
      if m != 0 {
        var j :| 0 <= j < |lists[c]| && lists[c][j].numSats == m;
      }
    }
    SumMaxBounded(lists, 5);
  }

  lemma {:induction false} SumMaxBounded(lists: seq<seq<Track>>, c: nat)
    requires c <= |lists| && forall d | 0 <= d < c :: MaxSats(lists[d]) <= MAX_SATELLITES
    ensures 0 <= SumMax(lists, c) <= c * MAX_SATELLITES
  {
    if c > 0 {
      SumMaxBounded(lists, c - 1);
    }
  }

  // ---------------------------------------------------------------------------
  // The catalog object
  // ---------------------------------------------------------------------------

  /** `nmea_gsv_data_all_t`, the five lists, updated in place. */
  class GsvCatalog {
    var lists: seq<seq<Track>>

    ghost predicate Valid()
      reads this
    {
      CatalogValid(lists)
    }

    constructor ()
      ensures Valid() && lists == InitialCatalog()
    {
      lists := InitialCatalog();
    }

    /** `nmea_init_gsv_data_all`: every list back to a single zeroed head. */
    method InitAll()
      modifies this
      ensures Valid() && lists == InitialCatalog()
    {
      lists := InitialCatalog();
    }

    /** `nmea_update_gsv_data_all`, with the same early returns and in-place writes. */
    method Update(s: CString, allocOk: bool, nowMs: u64) returns (rc: int)
      requires Valid()
      modifies this
      ensures Valid()
      ensures (rc, lists) == GsvUpdate(old(lists), s, allocOk, nowMs)
    {
      var valid := IsValidChecksum(s);
      if !valid {
        return -2;
      }
      if s[1] != 'G' || s[3..6] != "GSV" {
        return -3;
      }
      var lookup := ReadSignalId(s);
      if lookup.SignalError? {
        return lookup.code;
      }
      var signalId := lookup.id;
      var constellation := ConstellationOf(s[2]);
      if constellation.None? {
        return -4;
      }
      var c := ConstellationIndex(constellation.value);
      GsvUpdateReachesConstellation(lists, s, allocOk, nowMs);
      rc := UpdateConstellationOf(c, signalId, s, allocOk, nowMs);
    }

    /** The rest of `nmea_update_gsv_data_all` once the list `c` and the signal id are known. */
    method UpdateConstellationOf(c: nat, signalId: int, s: seq<char>, allocOk: bool, nowMs: u64) returns (rc: int)
      requires Valid() && c < 5 && 0 <= signalId <= 15
      modifies this
      ensures Valid()
      ensures (rc, lists) == UpdateConstellation(old(lists), c, signalId, Sequence(s), Blocks(s), allocOk, nowMs)
    {
      ghost var lists0 := lists;
      var list := lists[c];
      var i := 0;
      while true
        invariant 0 <= i < |list|
        invariant forall k | 0 <= k < i :: list[k].signalId != signalId
        invariant list == lists0[c] && lists == lists0
        decreases |list| - i
      {
        if list[i].signalId == signalId {
          break;
        }
        if i == |list| - 1 {
          if !allocOk {
            FindTrackFacts(list, signalId, |list|);
            return -8;
          }
          lists := lists[c := list + [NewTrack(signalId)]];
          i := i + 1;
          break;
        }
        i := i + 1;
      }
      FindTrackFacts(lists0[c], signalId, i);
      ghost var list1 := if i == |list| then list + [NewTrack(signalId)] else list;
      assert lists == lists0[c := list1];
      assert ListValid(list1) by {
        if i == |list| {
          assert forall j | 0 <= j < |list| :: list1[j] == list[j];
        }
      }
      var t;
      rc, t := UpdateTrackOf(s, lists[c][i], nowMs);
      ReplaceKeepsListValid(list1, i, t);
      lists := lists[c := lists[c][i := t]];
      assert FindTrack(lists0[c], signalId) == i;
      assert lists == lists0[c := list1[i := t]];
      assert (rc, t) == UpdateTrack(Sequence(s), Blocks(s), list1[i], nowMs);
    }

    /** `nmea_clear_old_gsv_data_all(age)` at clock `nowMs`. */
    method ClearOldAll(age: int, nowMs: u64)
      requires Valid()
      modifies this
      ensures Valid()
      ensures lists == seq(5, c requires 0 <= c < 5 && |old(lists)| == 5 => ClearOld(old(lists)[c], nowMs, age))
    {
      var c := 0;
      ghost var lists0 := lists;
      while c < 5
        invariant 0 <= c <= 5 && |lists| == 5
        invariant forall d | 0 <= d < c :: lists[d] == ClearOld(lists0[d], nowMs, age)
        invariant forall d | c <= d < 5 :: lists[d] == lists0[d]
        invariant CatalogValid(lists)
      {
        ClearOldKeepsListValid(lists[c], nowMs, age);
        lists := lists[c := ClearOld(lists[c], nowMs, age)];
        c := c + 1;
      }
    }

    /** `nmea_get_gsv_satellites_all`: the per-constellation maxima, summed. */
    method GetSatellitesAll() returns (n: int)
      requires Valid()
      ensures n == TotalSats(lists)
      ensures 0 <= n <= 5 * MAX_SATELLITES
    {
      TotalSatsBounded(lists);
      n := 0;
      var c := 0;
      while c < 5
        invariant 0 <= c <= 5
        invariant n == SumMax(lists, c)
      {
        var m := GetSatellites(lists[c]);
        n := n + m;
        c := c + 1;
      }
    }

    /** `nmea_free_gsv_data_all`: every appended track released, the embedded heads kept. */
    method FreeAll()
      requires Valid()
      modifies this
      ensures Valid()
      ensures |lists| == 5 && forall c | 0 <= c < 5 :: lists[c] == [old(lists)[c][0]]
    {
      lists := [[lists[0][0]], [lists[1][0]], [lists[2][0]], [lists[3][0]], [lists[4][0]]];
    }
  }

  /** The running sum of the first `c` maxima. */
  function SumMax(lists: seq<seq<Track>>, c: nat): int
    requires c <= |lists|
  {
    if c == 0 then 0 else SumMax(lists, c - 1) + MaxSats(lists[c - 1])
  }

  /** The field count and the optional hexadecimal signal-id field of `nmea_update_gsv_data_all`. */
  method ReadSignalId(s: CString) returns (r: SignalLookup)
    ensures r == SignalIdOf(s)
  {
    var numFields := CountFields(s);
    if numFields > 8 && (numFields - 1) % 4 == 0 {
      var field := ExtractField(s, numFields - 1, GSV_FIELD_SIZE);
      if field.None? {
        return SignalError(-5);
      }
      if field.value == [] {
        return SignalError(-7);
      }
      var signalId := Strtol(field.value, 16);
      if signalId < 0 || signalId > 15 {
        return SignalError(-6);
      }
      return SignalId(signalId);
    }
    return SignalId(0);
  }

  /** The tail of `nmea_update_gsv_data_all`, from the sentence numbers on, applied to the found track. */
  method UpdateTrackOf(s: seq<char>, t0: Track, nowMs: u64) returns (rc: int, t: Track)
    requires TrackValid(t0)
    ensures (rc, t) == UpdateTrack(Sequence(s), Blocks(s), t0, nowMs)
  {
    t := t0;
    var totalField := ExtractField(s, 1, GSV_FIELD_SIZE);
    if totalField.None? {
      return -5, t;
    }
    var sentenceTotal := Atoi(totalField.value);
    var numberField := ExtractField(s, 2, GSV_FIELD_SIZE);
    if numberField.None? {
      return -5, t;
    }
    var sentenceNumber := Atoi(numberField.value);
    assert Sequence(s) == Some((sentenceTotal, sentenceNumber));
    if sentenceNumber == 1 {
      t := t.(numSatsTmp := 0);
    }
    var full;
    t, full := StageSatellites(s, t);
    if full {
      return -6, t;
    }
    if sentenceNumber == sentenceTotal {
      t := t.(numSats := t.numSatsTmp, satellites := t.satellitesTmp, lastUpdateMs := nowMs, numSatsTmp := 0);
    }
    return 0, t;
  }

  /** The satellite loop of `nmea_update_gsv_data_all`; `full` is its early return with -6. */
  method StageSatellites(s: seq<char>, t0: Track) returns (t: Track, full: bool)
    requires TrackValid(t0)
    ensures (t, full) == StageFrom(Blocks(s), t0, 0)
  {
    t := t0;
    var satnum := 0;
    while satnum < 4
      invariant 0 <= satnum <= 4
      invariant TrackValid(t)
      invariant StageFrom(Blocks(s), t, satnum) == StageFrom(Blocks(s), t0, 0)
    {
      if t.numSatsTmp >= MAX_SATELLITES {
        return t, true;
      }
      var prn := ExtractField(s, 4 + 4 * satnum, GSV_FIELD_SIZE);
      var elevation := ExtractField(s, 5 + 4 * satnum, GSV_FIELD_SIZE);
      var azimuth := ExtractField(s, 6 + 4 * satnum, GSV_FIELD_SIZE);
      var snr := ExtractField(s, 7 + 4 * satnum, GSV_FIELD_SIZE);
      assert Blocks(s)[satnum] == SatelliteFields(s, satnum);
      if prn.None? || elevation.None? || azimuth.None? || snr.None? {
        break;
      }
      if prn.value == [] || elevation.value == [] || azimuth.value == [] || snr.value == [] {
        satnum := satnum + 1;
        continue;
      }
      var sat := Satellite(Atoi(prn.value), Atoi(elevation.value), Atoi(azimuth.value), Atoi(snr.value));
      t := t.(satellitesTmp := t.satellitesTmp[t.numSatsTmp := sat], numSatsTmp := t.numSatsTmp + 1);
      satnum := satnum + 1;
    }
    full := false;
  }

  lemma FindTrackFacts(list: seq<Track>, id: int, i: nat)
    requires i <= |list| && (i < |list| ==> list[i].signalId == id) && forall k | 0 <= k < i :: list[k].signalId != id
    ensures FindTrack(list, id) == i
  {
  }
}
