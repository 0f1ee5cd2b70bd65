/** The HID mouse driver's character device: a linear 1024-byte log buffer
    that readers drain from the front (the rest is shifted down, as
    `memmove` does), the last button seen, read and set through ioctl, and
    the raw-report handler that decodes a 3-byte boot-mouse report. */
module MouseDriver {
  import opened Kernel

  /** Capacity of the log buffer (BUFFER_SIZE). */
  const BufferSize: nat := 1024

  /** Button status codes kept in `button_status`. */
  const StatusNone: Int32 := 0
  const StatusLeft: Int32 := 1
  const StatusRight: Int32 := 2
  const StatusMiddle: Int32 := 3

  /** Button bits of the first report byte: `1 << 0`, `1 << 1`, `1 << 2`. */
  const LeftButton: Byte := 1 << 0
  const RightButton: Byte := 1 << 1
  const MiddleButton: Byte := 1 << 2

  /** Ioctl command numbers, built as the kernel's `_IOC` macro builds them:
      direction in bits 30-31, argument size in bits 16-29, type in bits
      8-15, number in bits 0-7. */
  const IocWrite: nat := 1
  const IocRead: nat := 2
  const IntSize: nat := 4

  function Ioc(dir: nat, kind: nat, nr: nat, size: nat): nat
  {
    dir * 0x4000_0000 + size * 0x1_0000 + kind * 0x100 + nr
  }

  /** _IOR('M', 1, int) and _IOW('M', 2, int). */
  const GetButtonStatus: nat := Ioc(IocRead, 'M' as nat, 1, IntSize)
  const SetButtonStatus: nat := Ioc(IocWrite, 'M' as nat, 2, IntSize)

  /** The text the raw-report handler formats after the stored log: the
      ASCII bytes of "Left Button Pressed". */
  const LeftNotice: seq<Byte> :=
    [0x4C, 0x65, 0x66, 0x74, 0x20, 0x42, 0x75, 0x74, 0x74, 0x6F, 0x6E, 0x20, 0x50, 0x72, 0x65, 0x73, 0x73, 0x65, 0x64]

  /** Relative motion handed to the input subsystem. */
  datatype Motion = Motion(dx: int, dy: int)

  // ---------------------------------------------------------------------
  // HID report decoding

  /** `(int)(signed char)b`: the byte read as an 8-bit two's complement
      number. */
  function SignedByte(b: Byte): (v: int)
    ensures -128 <= v <= 127
    ensures (v - b as int) % 256 == 0
  {
    if b < 0x80 then b as int else b as int - 256
  }

  /** The button status after a report whose first byte is `buttons`: the
      three bit tests run in order and each later one overrides, so the
      middle button wins over the right, the right over the left, and with
      none of the three pressed the previous status stays. */
  function ButtonsAfter(buttons: Byte, previous: Int32): (status: Int32)
    ensures buttons & MiddleButton != 0 ==> status == StatusMiddle
    ensures buttons & MiddleButton == 0 && buttons & RightButton != 0 ==> status == StatusRight
    ensures buttons & (RightButton | MiddleButton) == 0 && buttons & LeftButton != 0 ==> status == StatusLeft
    ensures buttons & (LeftButton | RightButton | MiddleButton) == 0 ==> status == previous
    ensures status != previous ==> StatusLeft <= status <= StatusMiddle
  {
    if buttons & MiddleButton != 0 then StatusMiddle
    else if buttons & RightButton != 0 then StatusRight
    else if buttons & LeftButton != 0 then StatusLeft
    else previous
  }

  /** Only the three low bits of the button byte matter. */
  lemma ButtonsIgnoreHighBits(buttons: Byte, previous: Int32)
    ensures ButtonsAfter(buttons, previous) == ButtonsAfter(buttons & 7, previous)
  {
  }

  /** The raw buffer after the left-button notice is formatted at offset
      `size`, with `BufferSize - size` bytes of room. */
  function WithLeftNotice(mem: seq<Byte>, size: nat): (mem': seq<Byte>)
    requires |mem| == BufferSize && size <= BufferSize
    ensures |mem'| == |mem|
    ensures mem'[..size] == mem[..size]
    ensures mem'[size..size + |SnprintfImage(LeftNotice, BufferSize - size)|]
            == SnprintfImage(LeftNotice, BufferSize - size)
    ensures mem'[size + |SnprintfImage(LeftNotice, BufferSize - size)|..]
            == mem[size + |SnprintfImage(LeftNotice, BufferSize - size)|..]
  {
    var img := SnprintfImage(LeftNotice, BufferSize - size);
    mem[..size] + img + mem[size + |img|..]
  }

  // ---------------------------------------------------------------------
  // The device's abstract state and one step of each entry point

  /** The stored log (`buffer[..buffer_data_size]`) and `button_status`. */
  datatype MouseState = MouseState(log: seq<Byte>, buttonStatus: Int32)

  ghost predicate ValidState(s: MouseState)
  {
    |s.log| <= BufferSize
  }

  datatype ReadOutcome = ReadOutcome(ret: int, delivered: seq<Byte>, rest: seq<Byte>)

  /** device_read: an empty log yields 0; otherwise `min(len, size)` bytes
      are copied out from the front and the rest becomes the log, unless
      the copy faults, which leaves the log as it was. */
  function ReadStep(log: seq<Byte>, len: nat, userOk: bool): (r: ReadOutcome)
    ensures log == [] ==> r == ReadOutcome(0, [], [])
    ensures r.ret == -EFAULT <==> log != [] && !CopySucceeds(Min(len, |log|), userOk)
    ensures r.ret == -EFAULT ==> r.delivered == [] && r.rest == log
    ensures r.ret != -EFAULT ==> r.ret == |r.delivered| == Min(len, |log|)
    ensures r.delivered + r.rest == log
  {
    if |log| == 0 then ReadOutcome(0, [], log)
    else
      var n := Min(len, |log|);
      if !CopySucceeds(n, userOk) then ReadOutcome(-EFAULT, [], log)
      else ReadOutcome(n, log[..n], log[n..])
  }

  datatype IoctlOutcome = IoctlOutcome(ret: int, status: Int32, toUser: Option<Int32>)

  /** device_ioctl: GET copies the status out, SET copies a new one in, any
      other command is rejected; a faulting copy yields -EFAULT. */
  function IoctlStep(status: Int32, cmd: nat, userOk: bool, userValue: Int32): (r: IoctlOutcome)
    ensures cmd == GetButtonStatus ==> r.status == status && (r.ret == 0 <==> r.toUser == Some(status))
    ensures cmd == SetButtonStatus ==> r.toUser == None && r.status == (if r.ret == 0 then userValue else status)
    ensures cmd != GetButtonStatus && cmd != SetButtonStatus ==> r == IoctlOutcome(-EINVAL, status, None)
    ensures r.ret == -EFAULT <==> (cmd == GetButtonStatus || cmd == SetButtonStatus) && !userOk
    ensures r.ret == -EINVAL <==> cmd != GetButtonStatus && cmd != SetButtonStatus
    ensures r.ret == 0 || r.ret == -EFAULT || r.ret == -EINVAL
  {
    if cmd == GetButtonStatus then
      if CopySucceeds(IntSize, userOk) then IoctlOutcome(0, status, Some(status))
      else IoctlOutcome(-EFAULT, status, None)
    else if cmd == SetButtonStatus then
      if CopySucceeds(IntSize, userOk) then IoctlOutcome(0, userValue, None)
      else IoctlOutcome(-EFAULT, status, None)
    else IoctlOutcome(-EINVAL, status, None)
  }

  datatype RawOutcome = RawOutcome(ret: int, status: Int32, motion: Option<Motion>)

  /** mouse_raw_event: a report shorter than three bytes is ignored; a
      longer one reports its two signed deltas and updates the status from
      its button byte. The handler always returns 0. */
  function RawEventStep(status: Int32, report: seq<Byte>): (r: RawOutcome)
    ensures r.ret == 0
    ensures r.motion.Some? <==> |report| >= 3
    ensures r.motion.Some? ==> -128 <= r.motion.value.dx <= 127 && -128 <= r.motion.value.dy <= 127
    ensures r.motion.Some? ==>
              (r.motion.value.dx - report[1] as int) % 256 == 0 && (r.motion.value.dy - report[2] as int) % 256 == 0
    ensures |report| >= 3 ==> r.status == ButtonsAfter(report[0], status)
    ensures r.status != status ==> |report| >= 3 && StatusLeft <= r.status <= StatusMiddle
  {
    if |report| < 3 then RawOutcome(0, status, None)
    else RawOutcome(0, ButtonsAfter(report[0], status),
                    Some(Motion(SignedByte(report[1]), SignedByte(report[2]))))
  }

  /** Delivering the same report twice leaves the status of delivering it
      once. */
  lemma RawEventIdempotent(status: Int32, report: seq<Byte>)
    ensures RawEventStep(RawEventStep(status, report).status, report).status
            == RawEventStep(status, report).status
  {
  }

  // ---------------------------------------------------------------------
  // Any sequence of entry-point calls

  datatype Op =
    | ReadLog(len: nat, userOk: bool)
    | IoctlCall(cmd: nat, userOk: bool, userValue: Int32)
    | HidReport(report: seq<Byte>)

  function Apply(s: MouseState, op: Op): MouseState
  {
    match op
    case ReadLog(len, userOk) => s.(log := ReadStep(s.log, len, userOk).rest)
    case IoctlCall(cmd, userOk, v) => s.(buttonStatus := IoctlStep(s.buttonStatus, cmd, userOk, v).status)
    case HidReport(report) => s.(buttonStatus := RawEventStep(s.buttonStatus, report).status)
  }

  /** The log bytes a call hands to user space. */
  function Output(s: MouseState, op: Op): seq<Byte>
  {
    if op.ReadLog? then ReadStep(s.log, op.len, op.userOk).delivered else []
  }

  function Run(s: MouseState, ops: seq<Op>): MouseState
    decreases |ops|
  {
    if ops == [] then s else Run(Apply(s, ops[0]), ops[1..])
  }

  /** Everything readers received, in order, over a sequence of calls. */
  function Drained(s: MouseState, ops: seq<Op>): seq<Byte>
    decreases |ops|
  {
    if ops == [] then [] else Output(s, ops[0]) + Drained(Apply(s, ops[0]), ops[1..])
  }

  /** One call hands out a prefix of the log and keeps the rest. */
  lemma OutputThenLog(s: MouseState, op: Op)
    ensures Output(s, op) + Apply(s, op).log == s.log
  {
    if op.ReadLog? {
      var r := ReadStep(s.log, op.len, op.userOk);
      assert r.delivered + r.rest == s.log;
    }
  }

  /** FIFO: over any sequence of calls, what readers received followed by
      what is still stored is exactly the log at the start. Nothing is
      added, lost, duplicated or reordered. */
  lemma {:induction false} DrainedThenLogIsInitialLog(s: MouseState, ops: seq<Op>)
    ensures Drained(s, ops) + Run(s, ops).log == s.log
    decreases |ops|
  {
    if ops != [] {
      var s' := Apply(s, ops[0]);
      var out, rest := Output(s, ops[0]), Drained(s', ops[1..]);
      DrainedThenLogIsInitialLog(s', ops[1..]);
      OutputThenLog(s, ops[0]);
      assert Drained(s, ops) == out + rest;
      assert Run(s, ops) == Run(s', ops[1..]);
      assert (out + rest) + Run(s', ops[1..]).log == out + (rest + Run(s', ops[1..]).log);
    }
  }

  /** The stored size never grows: every call leaves a suffix of the log it
      started from, so `0 <= buffer_data_size <= 1024` holds forever. */
  lemma LogOnlyShrinks(s: MouseState, ops: seq<Op>)
    ensures |Run(s, ops).log| <= |s.log|
    ensures Run(s, ops).log == s.log[|s.log| - |Run(s, ops).log|..]
    ensures ValidState(s) ==> ValidState(Run(s, ops))
  {
    DrainedThenLogIsInitialLog(s, ops);
    var d := Drained(s, ops);
    assert s.log[|d|..] == Run(s, ops).log;
  }

  // ---------------------------------------------------------------------
  // The driver's globals and entry points

  class MouseDevice {
    /** `buffer`, `buffer_data_size` and `button_status`. */
    var buffer: array<Byte>
    var dataSize: nat
    var buttonStatus: Int32

    ghost predicate Valid()
      reads this
    {
      buffer.Length == BufferSize && dataSize <= BufferSize
    }

    function Log(): seq<Byte>
      reads this, buffer
      requires Valid()
    {
      buffer[..dataSize]
    }

    function State(): MouseState
      reads this, buffer
      requires Valid()
    {
      MouseState(Log(), buttonStatus)
    }

    /** A device holding any valid state; module load is `([], 0)`. */
    constructor (log: seq<Byte>, status: Int32)
      requires |log| <= BufferSize
      ensures Valid() && fresh(buffer)
      ensures State() == MouseState(log, status)
    {
      buffer := new Byte[BufferSize]((i: nat) => if i < |log| then log[i] else 0);
      dataSize := |log|;
      buttonStatus := status;
    }

    /** device_read, with `buffer_mutex` held throughout. */
    method Read(len: nat, userOk: bool) returns (ret: int, delivered: seq<Byte>)
      requires Valid()
      modifies this`dataSize, buffer
      ensures Valid()
      ensures var r := ReadStep(old(Log()), len, userOk);
        ret == r.ret && delivered == r.delivered && State() == old(State()).(log := r.rest)
      ensures buffer[dataSize..] == old(buffer[..])[dataSize..]
    {
      if dataSize == 0 {
        return 0, [];
      }
      var n := Min(len, dataSize);
      if !CopySucceeds(n, userOk) {
        return -EFAULT, [];
      }
      delivered := buffer[..n];
      if n < dataSize {
        // memmove(buffer, buffer + n, dataSize - n)
        var k := dataSize - n;
        forall i | 0 <= i < k {
          buffer[i] := buffer[i + n];
        }
      }
      dataSize := dataSize - n;
      ret := n;
    }

    /** device_ioctl. */
    method Ioctl(cmd: nat, userOk: bool, userValue: Int32) returns (ret: int, toUser: Option<Int32>)
      requires Valid()
      modifies this`buttonStatus
      ensures Valid()
      ensures var r := IoctlStep(old(buttonStatus), cmd, userOk, userValue);
        ret == r.ret && toUser == r.toUser && State() == old(State()).(buttonStatus := r.status)
    {
      ret, toUser := 0, None;
      if cmd == GetButtonStatus {
        if !CopySucceeds(IntSize, userOk) {
          ret := -EFAULT;
        } else {
          toUser := Some(buttonStatus);
        }
      } else if cmd == SetButtonStatus {
        if !CopySucceeds(IntSize, userOk) {
          ret := -EFAULT;
        } else {
          buttonStatus := userValue;
        }
      } else {
        ret := -EINVAL;
      }
    }

    /** `snprintf(buffer + buffer_data_size, available, "Left Button
        Pressed")`: formats the notice into the free space after the log,
        leaving the log and `buffer_data_size` as they were. */
    method FormatLeftNotice()
      requires Valid()
      modifies buffer
      ensures buffer[..] == WithLeftNotice(old(buffer[..]), dataSize)
      ensures Log() == old(Log())
    {
      var img := SnprintfImage(LeftNotice, BufferSize - dataSize);
      forall i | 0 <= i < |img| {
        buffer[dataSize + i] := img[i];
      }
      assert buffer[..] == old(buffer[..])[..dataSize] + img + old(buffer[..])[dataSize + |img|..];
    }

    /** mouse_raw_event: the three button tests run one after another, and
        the left-button branch formats its notice into the free space after
        the log without advancing `buffer_data_size`. */
    method RawEvent(report: seq<Byte>) returns (ret: int, motion: Option<Motion>)
      requires Valid()
      modifies this`buttonStatus, buffer
      ensures Valid()
      ensures var r := RawEventStep(old(buttonStatus), report);
        ret == r.ret && motion == r.motion && State() == old(State()).(buttonStatus := r.status)
      ensures buffer[..] == if |report| >= 3 && report[0] & LeftButton != 0
                            then WithLeftNotice(old(buffer[..]), dataSize) else old(buffer[..])
    {
      if |report| < 3 {
        return 0, None;
      }
      var buttons := report[0];
      motion := Some(Motion(SignedByte(report[1]), SignedByte(report[2])));
      if buttons & LeftButton != 0 {
        FormatLeftNotice();
        buttonStatus := StatusLeft;
      }
      if buttons & RightButton != 0 {
        buttonStatus := StatusRight;
      }
      if buttons & MiddleButton != 0 {
        buttonStatus := StatusMiddle;
      }
      ret := 0;
    }
  }
}
