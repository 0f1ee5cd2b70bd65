/** The statistics character device: one open session at a time, gated by a
    try-locked mutex, fixed "Hello from kernel!" reads and discarded writes
    capped at 1000 bytes, running totals of the bytes moved, and an
    administrative proc entry that accepts messages of at most 99 bytes. */
module CharDev {
  import opened Kernel

  /** `sizeof(temp_buf)` of read and write, and `sizeof(buf)` of the admin
      entry. */
  const TempBufSize: nat := 1000

  /** Longest message the admin entry accepts. */
  const AdminLimit: nat := 99

  /** The text every read formats into its local buffer: the ASCII bytes of
      "Hello from kernel!". */
  const Greeting: seq<Byte> :=
    [0x48, 0x65, 0x6C, 0x6C, 0x6F, 0x20, 0x66, 0x72, 0x6F, 0x6D, 0x20, 0x6B, 0x65, 0x72, 0x6E, 0x65, 0x6C, 0x21]

  /** `device_open_counter`, `total_bytes_read`, `total_bytes_written`, and
      whether `device_mutex` is held. */
  datatype Stats = Stats(openCounter: int, totalRead: int, totalWritten: int, sessionHeld: bool)

  /** The globals at module load. */
  const Loaded: Stats := Stats(0, 0, 0, false)

  datatype Outcome = Outcome(ret: int, after: Stats)

  /** device_open: `mutex_trylock` fails when the session is taken, which
      yields -EBUSY and changes nothing; otherwise the session is taken and
      the counter goes up by one. */
  function OpenStep(s: Stats): (o: Outcome)
    ensures o.ret == -EBUSY <==> s.sessionHeld
    ensures o.ret == 0 <==> !s.sessionHeld
    ensures s.sessionHeld ==> o.after == s
    ensures !s.sessionHeld ==> o.after.sessionHeld && o.after.openCounter == s.openCounter + 1
    ensures o.after.totalRead == s.totalRead && o.after.totalWritten == s.totalWritten
  {
    if s.sessionHeld then Outcome(-EBUSY, s)
    else Outcome(0, s.(openCounter := s.openCounter + 1, sessionHeld := true))
  }

  /** device_release: always succeeds, gives the session back and lowers the
      counter by one. */
  function ReleaseStep(s: Stats): (o: Outcome)
    ensures o.ret == 0 && !o.after.sessionHeld
    ensures o.after.openCounter == s.openCounter - 1
    ensures o.after.totalRead == s.totalRead && o.after.totalWritten == s.totalWritten
  {
    Outcome(0, s.(openCounter := s.openCounter - 1, sessionHeld := false))
  }

  /** device_read's effect on the statistics: the request is capped at 1000
      bytes; a successful copy returns the capped count and adds it to the
      read total, a faulting one yields -EFAULT and changes nothing. The
      session is not consulted. */
  function ReadStep(s: Stats, count: nat, userOk: bool): (o: Outcome)
    ensures o.ret == -EFAULT <==> !CopySucceeds(Min(count, TempBufSize), userOk)
    ensures o.ret == -EFAULT ==> o.after == s
    ensures o.ret != -EFAULT ==> 0 <= o.ret <= TempBufSize && o.ret == Min(count, TempBufSize)
    ensures o.ret != -EFAULT ==> o.after == s.(totalRead := s.totalRead + o.ret)
  {
    var n := Min(count, TempBufSize);
    if CopySucceeds(n, userOk) then Outcome(n, s.(totalRead := s.totalRead + n))
    else Outcome(-EFAULT, s)
  }

  /** device_write's effect on the statistics, symmetric to ReadStep. */
  function WriteStep(s: Stats, count: nat, userOk: bool): (o: Outcome)
    ensures o.ret == -EFAULT <==> !CopySucceeds(Min(count, TempBufSize), userOk)
    ensures o.ret == -EFAULT ==> o.after == s
    ensures o.ret != -EFAULT ==> 0 <= o.ret <= TempBufSize && o.ret == Min(count, TempBufSize)
    ensures o.ret != -EFAULT ==> o.after == s.(totalWritten := s.totalWritten + o.ret)
  {
    var n := Min(count, TempBufSize);
    if CopySucceeds(n, userOk) then Outcome(n, s.(totalWritten := s.totalWritten + n))
    else Outcome(-EFAULT, s)
  }

  /** The bytes a successful read of `count` copies out: the front of the
      local buffer, which holds the greeting and its NUL followed by
      whatever the stack held before (`stale`). */
  function ReadData(count: nat, stale: seq<Byte>): (d: seq<Byte>)
    requires |stale| == TempBufSize
    ensures |d| == Min(count, TempBufSize)
    ensures d[..Min(count, |Greeting|)] == Greeting[..Min(count, |Greeting|)]
    ensures |d| > |Greeting| ==> d[|Greeting|] == 0
    ensures |d| > |Greeting| + 1 ==> d[|Greeting| + 1..] == stale[|Greeting| + 1..|d|]
  {
    var img := SnprintfImage(Greeting, TempBufSize);
    var temp := img + stale[|img|..];
    assert |img| == |Greeting| + 1 && temp[|img|..] == stale[|img|..];
    temp[..Min(count, TempBufSize)]
  }

  /** A read that does not fault gives the same answer whether or not a
      session is open: read never checks the mutex. */
  lemma ReadIgnoresSession(s: Stats, count: nat, userOk: bool)
    ensures ReadStep(s, count, userOk).ret == ReadStep(s.(sessionHeld := !s.sessionHeld), count, userOk).ret
  {
  }

  /** After a successful open, a second open is refused. */
  lemma SecondOpenIsBusy(s: Stats)
    requires OpenStep(s).ret == 0
    ensures OpenStep(OpenStep(s).after) == Outcome(-EBUSY, OpenStep(s).after)
  {
  }

  // ---------------------------------------------------------------------
  // Any sequence of entry-point calls

  datatype Op =
    | OpenCall
    | ReleaseCall
    | ReadCall(count: nat, userOk: bool)
    | WriteCall(count: nat, userOk: bool)

  function Apply(s: Stats, op: Op): Stats
  {
    match op
    case OpenCall => OpenStep(s).after
    case ReleaseCall => ReleaseStep(s).after
    case ReadCall(count, userOk) => ReadStep(s, count, userOk).after
    case WriteCall(count, userOk) => WriteStep(s, count, userOk).after
  }

  function Run(s: Stats, ops: seq<Op>): Stats
    decreases |ops|
  {
    if ops == [] then s else Run(Apply(s, ops[0]), ops[1..])
  }

  /** The file layer releases only a file it opened: every release comes
      while the session is held. */
  ghost predicate Admissible(s: Stats, ops: seq<Op>)
    decreases |ops|
  {
    ops == [] || ((ops[0].ReleaseCall? ==> s.sessionHeld) && Admissible(Apply(s, ops[0]), ops[1..]))
  }

  function HeldCount(s: Stats): int
  {
    if s.sessionHeld then 1 else 0
  }

  /** Neither byte total ever goes down, whatever the calls. */
  lemma {:induction false} TotalsNeverDecrease(s: Stats, ops: seq<Op>)
    ensures Run(s, ops).totalRead >= s.totalRead
    ensures Run(s, ops).totalWritten >= s.totalWritten
    decreases |ops|
  {
    if ops != [] {
      TotalsNeverDecrease(Apply(s, ops[0]), ops[1..]);
    }
  }

  /** The open counter moves in step with the mutex: over any admissible
      sequence of calls, counter minus "session held" stays constant. */
  lemma {:induction false} CounterTracksSession(s: Stats, ops: seq<Op>)
    requires Admissible(s, ops)
    ensures Run(s, ops).openCounter - HeldCount(Run(s, ops)) == s.openCounter - HeldCount(s)
    decreases |ops|
  {
    if ops != [] {
      CounterTracksSession(Apply(s, ops[0]), ops[1..]);
    }
  }

  /** From module load, the open counter is 1 exactly while a session is
      open and 0 otherwise. */
  lemma CounterIsSessionFlag(ops: seq<Op>)
    requires Admissible(Loaded, ops)
    ensures Run(Loaded, ops).openCounter == HeldCount(Run(Loaded, ops))
    ensures 0 <= Run(Loaded, ops).openCounter <= 1
  {
    CounterTracksSession(Loaded, ops);
  }

  /** Open followed by release restores the statistics. */
  lemma OpenThenReleaseRestores(s: Stats)
    requires !s.sessionHeld
    ensures Run(s, [OpenCall, ReleaseCall]) == s
  {
    assert [OpenCall, ReleaseCall][1..] == [ReleaseCall];
  }

  // ---------------------------------------------------------------------
  // The admin proc entry

  predicate AdminMessageFits(len: nat)
  {
    len <= AdminLimit
  }

  /** procfile_write: a message over 99 bytes is refused with -EINVAL, a
      faulting copy yields -EFAULT; otherwise the message lands in a local
      1000-byte buffer with a NUL after it (so the terminator index is in
      bounds) and its length is returned. */
  method ProcfileWrite(message: seq<Byte>, userOk: bool) returns (ret: int, stored: seq<Byte>)
    ensures ret == -EINVAL <==> !AdminMessageFits(|message|)
    ensures ret == -EFAULT <==> AdminMessageFits(|message|) && !CopySucceeds(|message|, userOk)
    ensures AdminMessageFits(|message|) && CopySucceeds(|message|, userOk) ==> ret == |message|
    ensures ret >= 0 ==> ret == |message| < TempBufSize && stored == message + [0]
    ensures ret < 0 ==> stored == []
  {
    if |message| > AdminLimit {
      return -EINVAL, [];
    }
    var buf := new Byte[TempBufSize];
    if !CopySucceeds(|message|, userOk) {
      return -EFAULT, [];
    }
    forall i | 0 <= i < |message| {
      buf[i] := message[i];
    }
    buf[|message|] := 0;
    stored := buf[..|message| + 1];
    ret := |message|;
  }

  // ---------------------------------------------------------------------
  // The driver's globals and entry points

  class CharDevice {
    var openCounter: int
    var totalRead: int
    var totalWritten: int
    var sessionHeld: bool

    function Snapshot(): Stats
      reads this
    {
      Stats(openCounter, totalRead, totalWritten, sessionHeld)
    }

    /** The globals as module load leaves them. */
    constructor ()
      ensures Snapshot() == Loaded
    {
      openCounter, totalRead, totalWritten, sessionHeld := 0, 0, 0, false;
    }

    /** device_open. */
    method Open() returns (ret: int)
      modifies this
      ensures ret == OpenStep(old(Snapshot())).ret && Snapshot() == OpenStep(old(Snapshot())).after
    {
      if sessionHeld {
        return -EBUSY;
      }
      sessionHeld := true;
      openCounter := openCounter + 1;
      ret := 0;
    }

    /** device_release; the file layer calls it only on a file it opened. */
    method Release() returns (ret: int)
      requires sessionHeld
      modifies this
      ensures ret == ReleaseStep(old(Snapshot())).ret && Snapshot() == ReleaseStep(old(Snapshot())).after
    {
      openCounter := openCounter - 1;
      sessionHeld := false;
      ret := 0;
    }

    /** device_read. `stale` is what the stack held where `temp_buf` lives. */
    method Read(count: nat, userOk: bool, stale: seq<Byte>) returns (ret: int, delivered: seq<Byte>)
      requires |stale| == TempBufSize
      modifies this
      ensures var o := ReadStep(old(Snapshot()), count, userOk);
        ret == o.ret && Snapshot() == o.after
      ensures delivered == if ret == -EFAULT then [] else ReadData(count, stale)
    {
      var n := Min(count, TempBufSize);
      var temp := new Byte[TempBufSize]((i: nat) => if i < |stale| then stale[i] else 0);
      // snprintf(temp_buf, sizeof(temp_buf), "Hello from kernel!")
      var img := SnprintfImage(Greeting, TempBufSize);
      forall i | 0 <= i < |img| {
        temp[i] := img[i];
      }
      assert temp[..] == img + stale[|img|..];
      if !CopySucceeds(n, userOk) {
        return -EFAULT, [];
      }
      delivered := temp[..n];
      ret := n;
      totalRead := totalRead + n;
    }

    /** device_write; the copied bytes are only logged. */
    method Write(count: nat, userOk: bool) returns (ret: int)
      modifies this
      ensures var o := WriteStep(old(Snapshot()), count, userOk);
        ret == o.ret && Snapshot() == o.after
    {
      var n := Min(count, TempBufSize);
      if !CopySucceeds(n, userOk) {
        return -EFAULT;
      }
      ret := n;
      totalWritten := totalWritten + n;
    }
  }
}
