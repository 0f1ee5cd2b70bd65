# LKM-Project character devices, modelled in Dafny

The repository holds three small Linux kernel modules, each exposing a
character device whose behaviour lives in a handful of globals:

- **mouse_driver.c** — a HID mouse driver. Its character device keeps a
  linear 1024-byte log buffer (`buffer`, `buffer_data_size`) that readers
  drain from the front, shifting the rest down with `memmove`, and a
  `button_status` that ioctl reads (GET) or overwrites (SET) and that the raw
  HID report handler updates from the button byte of a 3-byte boot-mouse
  report. Nothing in the file ever increases `buffer_data_size`: the
  handler's `snprintf` formats "Left Button Pressed" into the free space
  after the log without advancing the size.
- **Driver.c** — a statistics device. `device_open` try-locks a mutex so only
  one session exists, and fails with `-EBUSY` otherwise; `device_release`
  unlocks it. An open counter and cumulative read/write byte totals are
  kept. Reads hand out the front of a local 1000-byte buffer holding
  "Hello from kernel!", and writes copy into one and log it; both cap the
  transfer at 1000 bytes and neither checks that a session is held. An admin
  proc entry accepts messages of at most 99 bytes.
- **Sample-Driver.c** — a loopback device. A write replaces the whole
  1024-byte message with `min(len, 1024)` bytes; a read copies out
  `min(len, size)` bytes from the front and then discards the whole message.

## How the model is built

- `kernel.dfy` (module `Kernel`): bytes (`bv8`), the C `int`, the error
  numbers, `min`, `snprintf`'s effect, and the user-copy primitives. A
  `copy_to_user`/`copy_from_user` of `n` bytes is a transfer that succeeds
  when `n == 0` or when the caller-supplied flag `userOk` says the user
  region is accessible.
- One module per source file: `MouseDriver`, `CharDev`, `Loopback`. Each has
  - pure step functions, one per entry point, on the device's abstract state.
    Their `ensures` state what the entry point promises.
  - an `Op` datatype and `Run` over any sequence of calls, with lemmas
    proved by induction over that sequence.
  - a class holding the driver's globals as fields (arrays for the
    fixed-size buffers), whose methods update them in place as the C does.
    Each method's `ensures` ties its return value and new state to the step
    function of its old state.
- Copies and `memmove` are simultaneous-assignment `forall` statements, since
  the source has no explicit loops.

## Model

| member | source | states |
|---|---|---|
| `Kernel.SnprintfImage` | mouse_driver.c:296 | `snprintf` into `room` bytes stores a prefix of the text of length `min(len, room - 1)` and a NUL, and stores nothing when `room` is 0 |
| `MouseDriver.SignedByte` | mouse_driver.c:284-285 | the `(signed char)` cast yields a value in [-128, 127] congruent to the byte modulo 256 |
| `MouseDriver.ButtonsAfter` | mouse_driver.c:294-308 | the middle bit gives status 3; otherwise the right bit gives 2; otherwise the left bit gives 1; with none of the three set the status is unchanged |
| `MouseDriver.ButtonsIgnoreHighBits` | mouse_driver.c:294-308 | only the three low bits of the button byte affect the status |
| `MouseDriver.WithLeftNotice` | mouse_driver.c:291-296 | formatting the left-button notice keeps the stored log bytes, writes the `snprintf` image at offset `buffer_data_size`, and leaves every byte after the image as it was |
| `MouseDriver.ReadStep` | mouse_driver.c:62-104 | an empty log returns 0 and changes nothing; otherwise a read returns `min(len, size)` and delivers that prefix; delivered bytes followed by the remaining log equal the old log; a faulting copy returns -EFAULT and keeps the log |
| `MouseDriver.IoctlStep` | mouse_driver.c:107-130 | GET hands out the status unchanged; SET replaces it with the user value; with an accessible user word both succeed with 0, and a faulting copy returns -EFAULT; -EINVAL exactly for any other command, with no change |
| `MouseDriver.RawEventStep` | mouse_driver.c:272-311 | always returns 0; motion is reported exactly for reports of 3 or more bytes, as sign-extended deltas in [-128, 127]; for such reports the status is `ButtonsAfter` of the first byte and the old status; shorter reports leave it unchanged |
| `MouseDriver.RawEventIdempotent` | mouse_driver.c:294-308 | delivering the same report twice leaves the status of delivering it once |
| `MouseDriver.OutputThenLog` | mouse_driver.c:78-96 | a single call hands out a prefix of the log and keeps the rest |
| `MouseDriver.DrainedThenLogIsInitialLog` | mouse_driver.c:83-96 | FIFO over any sequence of reads, ioctls and reports: all bytes delivered, in order, followed by the final log equal the initial log |
| `MouseDriver.LogOnlyShrinks` | mouse_driver.c:96 | over any sequence of calls the log becomes a suffix of what it was, so the size never grows and stays within 1024 |
| `MouseDriver.MouseDevice.constructor` | mouse_driver.c:26-43 | a device over a 1024-byte buffer holding any log of at most 1024 bytes and any status |
| `MouseDriver.MouseDevice.Read` | mouse_driver.c:62-104 | the in-place read with its `memmove` returns and leaves exactly what `ReadStep` says; bytes past the new size keep their values |
| `MouseDriver.MouseDevice.Ioctl` | mouse_driver.c:107-130 | the ioctl switch returns and leaves exactly what `IoctlStep` says; the log is untouched |
| `MouseDriver.MouseDevice.FormatLeftNotice` | mouse_driver.c:291-296 | the `snprintf` of the notice leaves the stored log and its size unchanged and writes its image into the free space after the log |
| `MouseDriver.MouseDevice.RawEvent` | mouse_driver.c:272-311 | the three sequential bit tests leave the status `RawEventStep` gives; `buffer_data_size` is unchanged; the raw buffer gains the notice only when the left bit is set |
| `CharDev.OpenStep` | Driver.c:138-146 | open returns -EBUSY exactly when the session is held, changing nothing; otherwise it takes the session and adds exactly 1 to the counter; totals untouched |
| `CharDev.ReleaseStep` | Driver.c:148-153 | release always returns 0, frees the session and takes 1 off the counter |
| `CharDev.ReadStep` | Driver.c:155-175 | read returns `min(count, 1000)` and adds it to the read total, or -EFAULT with no change when the copy faults |
| `CharDev.WriteStep` | Driver.c:177-195 | write returns `min(count, 1000)` and adds it to the write total, or -EFAULT with no change when the copy faults |
| `CharDev.ReadData` | Driver.c:156-167 | the delivered bytes start with the first `min(count, 18)` bytes of "Hello from kernel!", then its NUL, then stale stack bytes |
| `CharDev.ReadIgnoresSession` | Driver.c:155-175 | a read's result does not depend on whether a session is open |
| `CharDev.SecondOpenIsBusy` | Driver.c:139-142 | after a successful open, another open returns -EBUSY and changes nothing |
| `CharDev.TotalsNeverDecrease` | Driver.c:155-195 | over any sequence of calls neither byte total decreases |
| `CharDev.CounterTracksSession` | Driver.c:138-153 | over any sequence of calls that releases only a held session, counter minus "session held" is constant |
| `CharDev.CounterIsSessionFlag` | Driver.c:19-23 | starting from the load-time globals, the open counter is 1 while a session is held and 0 otherwise |
| `CharDev.OpenThenReleaseRestores` | Driver.c:138-153 | open followed by release restores every statistic |
| `CharDev.ProcfileWrite` | Driver.c:36-51 | -EINVAL exactly when the message exceeds 99 bytes; -EFAULT exactly when a fitting message's copy faults; otherwise it returns the length, and the local buffer holds the message and a NUL at an in-bounds index |
| `CharDev.CharDevice.constructor` | Driver.c:19-23 | the globals start at zero with the mutex free |
| `CharDev.CharDevice.Open` | Driver.c:138-146 | `mutex_trylock` and the counter update return and leave what `OpenStep` says |
| `CharDev.CharDevice.Release` | Driver.c:148-153 | the counter update and unlock return and leave what `ReleaseStep` says |
| `CharDev.CharDevice.Read` | Driver.c:155-175 | returns and leaves what `ReadStep` says and delivers `ReadData` on success |
| `CharDev.CharDevice.Write` | Driver.c:177-195 | returns and leaves what `WriteStep` says |
| `Loopback.WriteStep` | Sample-Driver.c:43-52 | write stores and returns `min(len, 1024)` bytes, the message becoming exactly that prefix of the input whatever was stored before; a faulting copy returns -EFAULT and keeps the old message |
| `Loopback.ReadStep` | Sample-Driver.c:32-40 | read returns `min(len, size)` bytes from the front and then empties the buffer; a faulting copy returns -EFAULT and keeps the message |
| `Loopback.WriteThenReadRoundTrip` | Sample-Driver.c:33-49 | writing n ≤ 1024 bytes and then reading at least n gives back exactly those bytes |
| `Loopback.ReadDiscardsRest` | Sample-Driver.c:37 | after a successful read, even a partial one, the next read returns 0 bytes |
| `Loopback.SizeWithinCapacity` | Sample-Driver.c:33-49 | over any sequence of calls the stored size stays at most 1024 |
| `Loopback.SourceTerminatorIndex` | Sample-Driver.c:44-48 | the terminator index as written is inside the buffer exactly when fewer than 1024 bytes are written |
| `Loopback.FullWriteOverrunsBuffer` | Sample-Driver.c:48 | a write of 1024 or more bytes stores the terminator at index 1024, past the end of the buffer |
| `Loopback.LoopbackDevice.constructor` | Sample-Driver.c:16-17 | the buffer starts empty |
| `Loopback.LoopbackDevice.Write` | Sample-Driver.c:43-52 | returns and stores what `WriteStep` says; the terminator follows the message whenever it fits in the buffer; later bytes are untouched; a fault changes no byte |
| `Loopback.LoopbackDevice.Read` | Sample-Driver.c:32-40 | returns, delivers and leaves what `ReadStep` says |

## Left out

- The mouse_driver.c and Sample-Driver.c `device_open`/`device_release` only log and return 0; they have no state to model.
- mouse_test.c, a userspace producer/consumer test with threads, a signal handler and reads of an input event file: it is concurrency and I/O.
- Module init and exit, HID probe and remove, and class, device, cdev and proc registration and teardown: kernel registration calls with no logic of their own.
- `hid_parse`, `hid_hw_start`, `input_allocate_device`, `input_register_device`, `input_sync`: foreign kernel calls. The deltas passed to `input_report_rel` are returned as a `Motion` value instead.
- `printk` and the `seq_printf` renderings of the statistics and the "Hello from driver" proc file: text output only. This includes device_write's `printk` of `temp_buf` with `%s`, which has no terminator.
- Mutex internals and concurrency. Each `buffer_mutex` section of mouse_driver.c is one atomic method. `device_mutex` of Driver.c is the boolean `sessionHeld`. Sample-Driver.c has no locking, and its races are not modelled.
- The `loff_t *offset` argument, which no read or write uses.
- What a failed user copy does to user memory and to the kernel side. A faulting copy is modelled as all-or-nothing.
- `MouseDriver.MouseDevice.Ioctl`: a SET whose copy faults leaves the status unchanged, whereas `copy_from_user` may have stored a partly copied, zero-padded value.
- `Loopback.LoopbackDevice.Write`: a faulting copy leaves every buffer byte unchanged, whereas `copy_from_user` may have overwritten a partly copied, zero-padded prefix.
- `CharDev.OpenStep`: the open counter is an unbounded integer; the source's 32-bit `int` would wrap after 2^31 opens without a release.
- `CharDev.ReadStep`: the read total is an unbounded integer; the source's `ssize_t` could overflow after 2^63 bytes.
- `CharDev.WriteStep`: the write total is an unbounded integer, as for the read total.
- The `size_t` lengths are unbounded naturals. Every returned count is at most 1024, so the `ssize_t` return value is exact.

## Findings

| source | as written | input that shows it | evidently intended | confidence | as-written member | corrected member |
|---|---|---|---|---|---|---|
| Sample-Driver.c:44-48 | `buffer[bytes_to_write] = '\0'` with `bytes_to_write = min(len, BUFFER_SIZE)` | a write of 1024 bytes or more stores the NUL at `buffer[1024]`, one past the end of the 1024-byte array | a terminator stored only inside the buffer; here it is skipped when the message fills the buffer, so the count `min(len, 1024)` is kept | not executed | `Loopback.FullWriteOverrunsBuffer` | `Loopback.LoopbackDevice.Write` |
