/** The loopback character device: a single 1024-byte message buffer. A
    write replaces the whole message with the first `min(len, 1024)` bytes
    it is given; a read copies out the front of the message and then
    discards all of it. */
module Loopback {
  import opened Kernel

  /** Capacity of the message buffer (BUFFER_SIZE). */
  const BufferSize: nat := 1024

  /** A call's return value, the bytes it hands to user space, and the
      stored message afterwards (`buffer[..buffer_size]`). */
  datatype LoopbackOutcome = LoopbackOutcome(ret: int, delivered: seq<Byte>, stored: seq<Byte>)

  /** device_write: the stored message becomes the first `min(len, 1024)`
      bytes given, whatever was there before; a faulting copy yields
      -EFAULT and keeps the old message. */
  function WriteStep(message: seq<Byte>, data: seq<Byte>, userOk: bool): (o: LoopbackOutcome)
    ensures o.delivered == []
    ensures o.ret == -EFAULT <==> !CopySucceeds(Min(|data|, BufferSize), userOk)
    ensures o.ret == -EFAULT ==> o.stored == message
    ensures o.ret != -EFAULT ==> o.ret == Min(|data|, BufferSize) && o.stored == data[..Min(|data|, BufferSize)]
  {
    var n := Min(|data|, BufferSize);
    if CopySucceeds(n, userOk) then LoopbackOutcome(n, [], data[..n]) else LoopbackOutcome(-EFAULT, [], message)
  }

  /** device_read: `min(len, size)` bytes are copied out from the front and
      then the whole message is discarded, read or not; a faulting copy
      yields -EFAULT and keeps the message. */
  function ReadStep(message: seq<Byte>, len: nat, userOk: bool): (o: LoopbackOutcome)
    ensures o.ret == -EFAULT <==> !CopySucceeds(Min(len, |message|), userOk)
    ensures o.ret == -EFAULT ==> o.stored == message && o.delivered == []
    ensures o.ret != -EFAULT ==> o.ret == |o.delivered| == Min(len, |message|)
    ensures o.ret != -EFAULT ==> o.delivered == message[..Min(len, |message|)] && o.stored == []
  {
    var n := Min(len, |message|);
    if CopySucceeds(n, userOk) then LoopbackOutcome(n, message[..n], []) else LoopbackOutcome(-EFAULT, [], message)
  }

  /** Loopback: writing at most 1024 bytes and then reading at least that
      many hands back exactly the bytes written. */
  lemma WriteThenReadRoundTrip(previous: seq<Byte>, data: seq<Byte>, len: nat)
    requires |data| <= BufferSize && len >= |data|
    ensures WriteStep(previous, data, true).ret == |data|
    ensures ReadStep(WriteStep(previous, data, true).stored, len, true).delivered == data
  {
    assert data[..|data|] == data;
  }

  /** A successful read leaves nothing behind: the next read gets 0 bytes,
      even if the first asked for fewer bytes than were stored. */
  lemma ReadDiscardsRest(message: seq<Byte>, len: nat, len': nat, userOk: bool, userOk': bool)
    requires ReadStep(message, len, userOk).ret >= 0
    ensures ReadStep(ReadStep(message, len, userOk).stored, len', userOk') == LoopbackOutcome(0, [], [])
  {
  }

  // ---------------------------------------------------------------------
  // Any sequence of entry-point calls

  datatype Op = WriteCall(data: seq<Byte>, userOk: bool) | ReadCall(len: nat, userOk: bool)

  function Apply(message: seq<Byte>, op: Op): seq<Byte>
  {
    match op
    case WriteCall(data, userOk) => WriteStep(message, data, userOk).stored
    case ReadCall(len, userOk) => ReadStep(message, len, userOk).stored
  }

  function Run(message: seq<Byte>, ops: seq<Op>): seq<Byte>
    decreases |ops|
  {
    if ops == [] then message else Run(Apply(message, ops[0]), ops[1..])
  }

  /** Capacity: whatever the calls, the stored size never exceeds 1024. */
  lemma {:induction false} SizeWithinCapacity(message: seq<Byte>, ops: seq<Op>)
    requires |message| <= BufferSize
    ensures |Run(message, ops)| <= BufferSize
    decreases |ops|
  {
    if ops != [] {
      SizeWithinCapacity(Apply(message, ops[0]), ops[1..]);
    }
  }

  // ---------------------------------------------------------------------
  // The terminator store of device_write

  /** The index at which device_write, as written, stores its NUL
      terminator: `bytes_to_write`, that is `min(len, 1024)`. It lies
      inside the 1024-byte buffer exactly when fewer than 1024 bytes are
      written. */
  function SourceTerminatorIndex(len: nat): (i: nat)
    ensures i <= BufferSize
    ensures i < BufferSize <==> len < BufferSize
  {
    Min(len, BufferSize)
  }

  /** A write of 1024 bytes or more stores the terminator at index 1024,
      one past the end of the buffer. */
  lemma FullWriteOverrunsBuffer(len: nat)
    requires len >= BufferSize
    ensures SourceTerminatorIndex(len) == BufferSize
  {
  }

  // ---------------------------------------------------------------------
  // The driver's globals and entry points

  class LoopbackDevice {
    /** `buffer` and `buffer_size`. */
    var buffer: array<Byte>
    var size: nat

    ghost predicate Valid()
      reads this
    {
      buffer.Length == BufferSize && size <= BufferSize
    }

    function Contents(): seq<Byte>
      reads this, buffer
      requires Valid()
    {
      buffer[..size]
    }

    /** The globals as module load leaves them. */
    constructor ()
      ensures Valid() && fresh(buffer) && Contents() == []
    {
      buffer := new Byte[BufferSize];
      size := 0;
    }

    /** device_write, with the terminator stored only where it fits; every
        other byte past the new message keeps its value. */
    method Write(data: seq<Byte>, userOk: bool) returns (ret: int)
      requires Valid()
      modifies this`size, buffer
      ensures Valid()
      ensures var o := WriteStep(old(Contents()), data, userOk);
        ret == o.ret && Contents() == o.stored
      ensures 0 <= ret < BufferSize ==> buffer[ret] == 0
      ensures ret >= 0 ==> forall i :: ret < i < BufferSize ==> buffer[i] == old(buffer[i])
      ensures ret == -EFAULT ==> buffer[..] == old(buffer[..])
    {
      var n := Min(|data|, BufferSize);
      if !CopySucceeds(n, userOk) {
        return -EFAULT;
      }
      forall i | 0 <= i < n {
        buffer[i] := data[i];
      }
      if n < BufferSize {
        buffer[n] := 0;
      }
      size := n;
      ret := n;
    }

    /** device_read. */
    method Read(len: nat, userOk: bool) returns (ret: int, delivered: seq<Byte>)
      requires Valid()
      modifies this`size
      ensures Valid()
      ensures var o := ReadStep(old(Contents()), len, userOk);
        ret == o.ret && delivered == o.delivered && Contents() == o.stored
    {
      var n := Min(len, size);
      if !CopySucceeds(n, userOk) {
        return -EFAULT, [];
      }
      delivered := buffer[..n];
      size := 0;
      ret := n;
    }
  }
}
