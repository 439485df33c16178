/**
 * `SDLogger`: a log file on the SD card fed through a 4096-byte staging
 * buffer.  The file is opened only to append the buffer (or an oversized
 * write) and closed again.  The card-wide flags `sd_initialized` and
 * `sd_fault` are shared by every logger.  The card itself is an append-only
 * byte sequence whose open and write steps may fail; how each attempt ends
 * is an input.
 */
module SdLogger {
  import opened CTypes

  const BUFFER_SIZE: int := 4096
  const SD_STATUS_ERROR: int := 0
  const SD_STATUS_READY: int := 1

  /** How one visit to the card ends: whether the file opens, and what each `write` call returns. */
  datatype SdAccess = SdAccess(openOk: bool, bufferWritten: nat, dataWritten: nat)

  /** A logger as seen from outside: its status, its current file, the staged bytes and the card's flags. */
  datatype LogState = LogState(status: int, file: seq<byte>, buffered: seq<byte>, initialized: bool, fault: bool)

  /** Everything accepted since the last start: what is on the card followed by what is staged. */
  function Logged(st: LogState): seq<byte> {
    st.file + st.buffered
  }

  /** The state after a failed card access: logger in ERROR and the card marked faulty. */
  function Failed(st: LogState): LogState {
    st.(status := SD_STATUS_ERROR, fault := true)
  }

  /**
   * Appending the staged bytes to the file, as `flush` and the overflow path
   * of `write_data` both do: `Some(file)` when the write completed, `None`
   * with the file holding what was written when it did not.
   */
  function AppendBuffer(st: LogState, written: nat): (out: (seq<byte>, bool))
    ensures out.1 ==> out.0 == st.file + st.buffered
    ensures !out.1 ==> |st.buffered| > 0 && out.0 == st.file + st.buffered[..Min(written, |st.buffered|)]
  {
    var n := |st.buffered|;
    if n > 0 && Min(written, n) != n then (st.file + st.buffered[..Min(written, n)], false)
    else (st.file + st.buffered, true)
  }

  /** `write_data(data, |data|)` with the card access ending as `io` says. */
  function WriteSpec(st: LogState, data: seq<byte>, io: SdAccess): (out: (LogState, int))
  {
    if st.status != SD_STATUS_READY then (st, -1)
    else if |st.buffered| + |data| < BUFFER_SIZE then (st.(buffered := st.buffered + data), 0)
    else if !io.openOk then (Failed(st), -1)
    else
      var flushed := AppendBuffer(st, io.bufferWritten);
      if !flushed.1 then (Failed(st.(file := flushed.0)), -1)
      else if |data| > BUFFER_SIZE then
        var d := Min(io.dataWritten, |data|);
        if d != |data| then (Failed(st.(file := flushed.0 + data[..d], buffered := [])), -1)
        else (st.(file := flushed.0 + data, buffered := []), 0)
      else (st.(file := flushed.0, buffered := data), 0)
  }

  /** `flush` with the card access ending as `io` says. */
  function FlushSpec(st: LogState, io: SdAccess): (out: (LogState, int))
  {
    if st.status != SD_STATUS_READY then (st, -1)
    else if !io.openOk then (Failed(st), -1)
    else
      var flushed := AppendBuffer(st, io.bufferWritten);
      if !flushed.1 then (Failed(st.(file := flushed.0)), -1)
      else (st.(file := flushed.0, buffered := []), 0)
  }

  /** `start`, where `openOk` says whether creating the new file succeeds. */
  function StartSpec(st: LogState, openOk: bool): (out: (LogState, int))
  {
    if !st.initialized || st.fault then (st, -1)
    else if st.status == SD_STATUS_READY then (st, 0)
    else if !openOk then (Failed(st), -1)
    else (st.(status := SD_STATUS_READY, file := [], buffered := []), 0)
  }

  /** `close`: flushes when READY and ends in ERROR whether or not the flush succeeded. */
  function CloseSpec(st: LogState, io: SdAccess): (out: (LogState, int))
  {
    if st.status != SD_STATUS_READY then (st, -1)
    else (FlushSpec(st, io).0.(status := SD_STATUS_ERROR), 0)
  }

  /** `restart`: close if READY, then start. */
  function RestartSpec(st: LogState, io: SdAccess, openOk: bool): (out: (LogState, int))
  {
    StartSpec(if st.status == SD_STATUS_READY then CloseSpec(st, io).0 else st, openOk)
  }

  /**
   * A write that succeeds adds exactly its bytes to what is logged, and
   * leaves the logger READY with at most a full buffer staged; one that does
   * not is refused (-1) because the logger is not READY, or leaves it in
   * ERROR with the card marked faulty.  The file only ever grows.
   */
  lemma WriteAccounts(st: LogState, data: seq<byte>, io: SdAccess)
    requires |st.buffered| <= BUFFER_SIZE
    ensures var out := WriteSpec(st, data, io);
      && (out.1 == 0 || out.1 == -1)
      && (out.1 == 0 <==> st.status == SD_STATUS_READY && out.0.status == SD_STATUS_READY)
      && (out.1 == 0 ==> Logged(out.0) == Logged(st) + data)
      && (out.1 == -1 && st.status == SD_STATUS_READY ==> out.0.status == SD_STATUS_ERROR && out.0.fault)
      && (st.status != SD_STATUS_READY ==> out.0 == st)
      && |out.0.buffered| <= BUFFER_SIZE
      && st.file <= out.0.file
  {
    var out := WriteSpec(st, data, io);
    if st.status == SD_STATUS_READY && |st.buffered| + |data| >= BUFFER_SIZE && io.openOk {
      var flushed := AppendBuffer(st, io.bufferWritten);
      if flushed.1 && |data| > BUFFER_SIZE && Min(io.dataWritten, |data|) == |data| {
        assert Logged(out.0) == (st.file + st.buffered) + data;
      }
      if flushed.1 && |data| <= BUFFER_SIZE {
        assert Logged(out.0) == (st.file + st.buffered) + data;
      }
      if !flushed.1 {
        assert st.file <= out.0.file by {
          assert out.0.file == st.file + st.buffered[..Min(io.bufferWritten, |st.buffered|)];
        }
      }
    }
  }

  /** A write that fits in the buffer never touches the card. */
  lemma SmallWriteStaysInBuffer(st: LogState, data: seq<byte>, io: SdAccess)
    requires st.status == SD_STATUS_READY && |st.buffered| + |data| < BUFFER_SIZE
    ensures WriteSpec(st, data, io) == (st.(buffered := st.buffered + data), 0)
    ensures WriteSpec(st, data, io).0.file == st.file
  {
  }

  /** A successful flush moves every staged byte to the card; a failed one leaves the logger in ERROR. */
  lemma FlushAccounts(st: LogState, io: SdAccess)
    ensures var out := FlushSpec(st, io);
      && (out.1 == 0 ==> out.0.file == Logged(st) && out.0.buffered == [] && out.0.status == SD_STATUS_READY)
      && (out.1 != 0 && st.status == SD_STATUS_READY ==> out.0.status == SD_STATUS_ERROR && out.0.fault)
      && (st.status != SD_STATUS_READY ==> out == (st, -1))
      && st.file <= out.0.file
  {
  }

  /**
   * Start fails on an uninitialised or faulty card and does nothing when
   * already READY; otherwise it leaves a READY logger with nothing logged
   * yet, or an ERROR one with the card marked faulty.
   */
  lemma StartAccounts(st: LogState, openOk: bool)
    ensures var out := StartSpec(st, openOk);
      && (!st.initialized || st.fault ==> out == (st, -1))
      && (st.initialized && !st.fault && st.status == SD_STATUS_READY ==> out == (st, 0))
      && (out.1 == 0 ==> out.0.status == SD_STATUS_READY)
      && (out.1 == 0 && st.status != SD_STATUS_READY ==> Logged(out.0) == [])
      && (out.1 != 0 ==> out.0.status == st.status || out.0.fault)
  {
  }

  /** Close always ends in ERROR when it runs, and restart on a healthy card with a successful open ends READY and empty. */
  lemma CloseAndRestart(st: LogState, io: SdAccess, openOk: bool)
    ensures CloseSpec(st, io).1 == 0 <==> st.status == SD_STATUS_READY
    ensures CloseSpec(st, io).1 == 0 ==> CloseSpec(st, io).0.status == SD_STATUS_ERROR
    ensures var out := RestartSpec(st, io, openOk);
      st.initialized && !st.fault && openOk && (st.status != SD_STATUS_READY || FlushSpec(st, io).1 == 0) ==>
        out.1 == 0 && out.0.status == SD_STATUS_READY && Logged(out.0) == []
  {
  }

  /** The card-wide flags `sd_initialized` and `sd_fault`. */
  class SdCard {
    var initialized: bool
    var fault: bool

    constructor ()
      ensures !initialized && !fault
    {
      initialized := false;
      fault := false;
    }

    /** `sd_init`, where `beginOk` says whether the card answers. */
    method Init(beginOk: bool) returns (rc: int)
      modifies this
      ensures old(initialized) ==> rc == 0 && initialized == old(initialized) && fault == old(fault)
      ensures !old(initialized) ==> (rc == 0 <==> beginOk) && initialized == beginOk && fault == !beginOk
    {
      if initialized {
        return 0;
      }
      if !beginOk {
        fault := true;
        return -1;
      }
      initialized := true;
      fault := false;
      return 0;
    }
  }

  class SDLogger {
    const card: SdCard
    var status: int
    const buffer: array<byte>
    var bufferPos: int
    /** The contents of the current log file on the card. */
    var file: seq<byte>
    /** Every byte a `write_data` call has returned 0 for since the last successful start. */
    ghost var accepted: seq<byte>

    ghost function Abstract(): LogState
      reads this, buffer, card
      requires 0 <= bufferPos <= buffer.Length
    {
      LogState(status, file, buffer[..bufferPos], card.initialized, card.fault)
    }

    ghost predicate Valid()
      reads this, buffer
    {
      && buffer.Length == BUFFER_SIZE
      && 0 <= bufferPos <= BUFFER_SIZE
      && (status == SD_STATUS_ERROR || status == SD_STATUS_READY)
      && (status == SD_STATUS_READY ==> file + buffer[..bufferPos] == accepted)
    }

    /** The constructor: a logger in ERROR; a failed buffer allocation marks the card faulty. */
    constructor (card: SdCard, allocOk: bool)
      modifies card
      ensures Valid() && this.card == card && status == SD_STATUS_ERROR && bufferPos == 0
      ensures card.initialized == old(card.initialized) && card.fault == (old(card.fault) || !allocOk)
    {
      this.card := card;
      buffer := new byte[BUFFER_SIZE](_ => 0);
      bufferPos := 0;
      status := SD_STATUS_ERROR;
      file := [];
      accepted := [];
      new;
      if !allocOk {
        card.fault := true;
      }
    }

    /** `start` */
    method Start(openOk: bool) returns (rc: int)
      requires Valid()
      modifies this, card
      ensures Valid()
      ensures (Abstract(), rc) == StartSpec(old(Abstract()), openOk)
      ensures rc == 0 && old(status) != SD_STATUS_READY ==> accepted == []
      ensures old(status) == SD_STATUS_READY ==> accepted == old(accepted)
    {
      if !card.initialized || card.fault {
        return -1;
      }
      if status == SD_STATUS_READY {
        return 0;
      }
      if !openOk {
        status := SD_STATUS_ERROR;
        card.fault := true;
        return -1;
      }
      status := SD_STATUS_READY;
      bufferPos := 0;
      file := [];
      accepted := [];
      return 0;
    }

    /** Appends `buffer[..bufferPos]` to the file; `ok` when the whole buffer was written. */
    method WriteBuffer(written: nat) returns (ok: bool)
      requires Valid()
      modifies this
      ensures (file, ok) == AppendBuffer(old(Abstract()), written)
      ensures status == old(status) && bufferPos == old(bufferPos) && accepted == old(accepted)
    {
      ok := true;
      if bufferPos > 0 {
        var w := Min(written, bufferPos);
        if w != bufferPos {
          assert buffer[..bufferPos][..w] == buffer[..w];
          file := file + buffer[..w];
          return false;
        }
        file := file + buffer[..bufferPos];
      } else {
        assert file + buffer[..bufferPos] == file;
      }
    }

    /** `write_data(data, |data|)` */
    method WriteData(data: seq<byte>, io: SdAccess) returns (rc: int)
      requires Valid()
      modifies this, buffer, card
      ensures Valid()
      ensures (Abstract(), rc) == WriteSpec(old(Abstract()), data, io)
      ensures accepted == if rc == 0 then old(accepted) + data else old(accepted)
    {
      if status != SD_STATUS_READY {
        return -1;
      }
      if bufferPos + |data| < BUFFER_SIZE {
        Copy(data, bufferPos);
        bufferPos := bufferPos + |data|;
        accepted := accepted + data;
        return 0;
      }
      if !io.openOk {
        status := SD_STATUS_ERROR;
        card.fault := true;
        return -1;
      }
      ghost var logged := file + buffer[..bufferPos];
      ghost var st := Abstract();
      var ok := WriteBuffer(io.bufferWritten);
      ghost var flushed := AppendBuffer(st, io.bufferWritten);
      assert file == flushed.0;
      if !ok {
        card.fault := true;
        status := SD_STATUS_ERROR;
        return -1;
      }
      bufferPos := 0;
      if |data| > BUFFER_SIZE {
        var d := Min(io.dataWritten, |data|);
        if d != |data| {
          file := file + data[..d];
          card.fault := true;
          status := SD_STATUS_ERROR;
          return -1;
        }
        file := file + data;
      } else {
        Copy(data, 0);
        bufferPos := |data|;
        assert buffer[..bufferPos] == data;
        assert Abstract() == st.(file := flushed.0, buffered := data);
      }
      accepted := accepted + data;
      assert file + buffer[..bufferPos] == logged + data;
      return 0;
    }

    /** `memcpy(log_buffer + at, data, |data|)` */
    method Copy(data: seq<byte>, at: int)
      requires buffer.Length == BUFFER_SIZE && 0 <= at && at + |data| <= BUFFER_SIZE
      modifies buffer
      ensures buffer[..at + |data|] == old(buffer[..at]) + data
    {
      forall j | 0 <= j < |data| {
        buffer[at + j] := data[j];
      }
      assert buffer[..at + |data|] == old(buffer[..at]) + data;
    }

    /** `flush` */
    method Flush(io: SdAccess) returns (rc: int)
      requires Valid()
      modifies this, card
      ensures Valid()
      ensures (Abstract(), rc) == FlushSpec(old(Abstract()), io)
      ensures accepted == old(accepted)
    {
      if status != SD_STATUS_READY {
        return -1;
      }
      if !io.openOk {
        status := SD_STATUS_ERROR;
        card.fault := true;
        return -1;
      }
      var ok := WriteBuffer(io.bufferWritten);
      if !ok {
        card.fault := true;
        status := SD_STATUS_ERROR;
        return -1;
      }
      assert file == accepted;
      bufferPos := 0;
      return 0;
    }

    /** `close` */
    method Close(io: SdAccess) returns (rc: int)
      requires Valid()
      modifies this, card
      ensures Valid()
      ensures (Abstract(), rc) == CloseSpec(old(Abstract()), io)
    {
      if status != SD_STATUS_READY {
        return -1;
      }
      var _ := Flush(io);
      status := SD_STATUS_ERROR;
      return 0;
    }

    /** `restart` */
    method Restart(io: SdAccess, openOk: bool) returns (rc: int)
      requires Valid()
      modifies this, card
      ensures Valid()
      ensures (Abstract(), rc) == RestartSpec(old(Abstract()), io, openOk)
    {
      if status == SD_STATUS_READY {
        var _ := Close(io);
      }
      rc := Start(openOk);
    }
  }
}
