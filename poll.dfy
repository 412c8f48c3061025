/** Readiness polling: both poll functions hand `select` a copy of the master set and a
    wait argument chosen from the caller's timeout. Which sockets `select` keeps in the
    copy is the OS's business and is not modelled; the master set is never touched. */
module Poll {
  import opened Winsock
  import opened FdSets

  /** The last argument given to `select`: a null pointer (wait until some socket is
      ready) or a `timeval` of seconds and microseconds. */
  datatype Wait = Indefinite | Bounded(seconds: int, micros: int)

  /** The wait `NetPollReadableSockets` passes: a timeout in milliseconds, converted to
      microseconds, when it is positive; otherwise no bound at all. */
  function ReadWait(timeoutMillis: int): (w: Wait)
    ensures w.Indefinite? <==> timeoutMillis <= 0
    ensures w.Bounded? ==> w.seconds == 0 && w.micros / 1000 == timeoutMillis && w.micros % 1000 == 0
  {
    if timeoutMillis > 0 then Bounded(0, timeoutMillis * 1000) else Indefinite
  }

  /** The wait `NetPollWritableSockets` passes: always bounded, the timeout taken as
      microseconds as it is. */
  function WriteWait(timeoutMicros: int): (w: Wait)
    ensures w.Bounded? && w.seconds == 0 && w.micros == timeoutMicros
  {
    Bounded(0, timeoutMicros)
  }

  /** The default timeout 0 means opposite things for the two polls: reading waits
      until some socket is ready, writing returns at once. For a positive timeout the
      read poll waits a thousand times longer than the write poll given the same number. */
  lemma PollTimeoutAsymmetry(timeout: int)
    ensures ReadWait(0) == Indefinite && WriteWait(0) == Bounded(0, 0)
    ensures timeout > 0 ==> ReadWait(timeout).micros == 1000 * WriteWait(timeout).micros
  {
  }

  /** The status a poll returns: 0 unless `select` fails, then its last-error code. */
  function PollStatus(select: SelectCall): (status: int)
    ensures status == 0 <==> select.Selected?
    ensures select.SelectFailed? ==> status == select.code
  {
    if select.SelectFailed? then select.code else 0
  }

  /** `NetPollReadableSockets`: `readSet` starts as a copy of the master set and is
      handed to `select` together with `wait`. `timeout` defaults to 0, as in the header. */
  method NetPollReadableSockets(master: SocketSet, readSet: SocketSet, select: SelectCall, timeout: int := 0)
    returns (status: int, wait: Wait)
    requires master.Valid() && readSet.Valid() && readSet.fdArray != master.fdArray
    modifies readSet, readSet.fdArray
    ensures readSet.Valid() && readSet.Members() == master.Members()
    ensures master.Members() == old(master.Members())
    ensures wait == ReadWait(timeout)
    ensures status == PollStatus(select)
  {
    readSet.CopyFrom(master);
    if timeout > 0 {
      wait := Bounded(0, timeout * 1000);
    } else {
      wait := Indefinite;
    }
    status := if select.SelectFailed? then select.code else 0;
  }

  /** `NetPollWritableSockets`: `writeSet` starts as a copy of the master set and is
      handed to `select` with a bound of `timeout` microseconds (0 by default). */
  method NetPollWritableSockets(master: SocketSet, writeSet: SocketSet, select: SelectCall, timeout: int := 0)
    returns (status: int, wait: Wait)
    requires master.Valid() && writeSet.Valid() && writeSet.fdArray != master.fdArray
    modifies writeSet, writeSet.fdArray
    ensures writeSet.Valid() && writeSet.Members() == master.Members()
    ensures master.Members() == old(master.Members())
    ensures wait == WriteWait(timeout)
    ensures status == PollStatus(select)
  {
    writeSet.CopyFrom(master);
    wait := Bounded(0, timeout);
    status := if select.SelectFailed? then select.code else 0;
  }
}
