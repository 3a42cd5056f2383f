# Skewing real-time clock, modelled in Dafny

The repository is a Linux platform driver (`a.c`) for a virtual real-time
clock whose reported time can be skewed. The driver keeps a private record
with a signed `int` **mode**, a `time64_t` **offset** and a 16-byte control
buffer. The mode selects a regime:

- **normal** (mode in 1..100 or -99..-1): a read reports
  `t + t*mode/100` with `t = real time + offset`, division truncating toward
  zero; a set stores `target*100/(100+mode) - real time` as the new offset;
- **chaotic** (every other mode: 0, every mode from -100 down, and
  everything from 101 up): a read reports a zeroed 64-bit word into which
  five random bytes were written, and a set clears the offset.

The mode is changed by writing a decimal integer to a proc file and shown by
reading that file. The device starts zero-filled, hence in the chaotic
regime.

Modules:

- `CArith` (c_arith.dfy): C integer widths, truncating division `TruncDiv`,
  errno values, small multiplication lemmas.
- `Bytes` (bytes.dfy): little-endian values of byte sequences, and the C
  string `kstrtoint` sees in a NUL-terminated buffer.
- `Decimal` (decimal.dfy): the `%i` conversion and its inverse.
- `Skew` (skew.dfy): the read transform and its inverse as functions, the
  regime test, and the round-trip lemmas.
- `RtcDevice` (device.dfy): class `Device` with fields `mode`, `offset` and
  `buffer: array<Byte>`, whose methods are the driver's four handlers and
  whose constructor is the zeroed allocation of the probe.
- `Wrappers` (wrappers.dfy): `Option`.

Real time, the random bytes, the success of the user copy and the integer
parser are parameters of the methods. The pure functions compute over
unbounded integers; the class methods require that no intermediate of the C
expressions leaves `time64_t` (`Skew.ReadFits`, `Skew.SetFits`), the
condition under which the C code has defined behaviour, and
`Skew.RealisticTimesFit` shows this holds whenever the target, the real
time and the stored offset all lie within 2^55 seconds of zero.

Setting the clock and reading it back at the same real time shows the
target exactly for negative modes; for positive modes the read lands up to
two seconds toward zero from the target, and mode 99 with target 3 reads
back as 1.

## Model

| member | source | states |
|---|---|---|
| CArith.TruncDiv | a.c:30 | C division by a positive divisor: the quotient rounds toward zero, bracketing the dividend from below for non-negative and from above for negative dividends |
| CArith.TruncDivShrinks | a.c:30 | dividing by a positive divisor never increases the magnitude |
| Skew.RegimeBoundaries | a.c:28 | the regime test holds exactly for 1..100 and -99..-1; 100 is normal, 0, -100 and 101 are chaotic |
| Skew.Divisor | a.c:45-46 | in the normal regime the set divisor `100 + mode` lies in 1..200, so it is never zero, and is below 100 exactly for negative modes |
| Skew.Skewed | a.c:29-30 | the normal read is the shifted time scaled by `(100+mode)/100` within one truncation, rounded toward the shifted time as C's truncating division does; it never runs behind a non-negative time for positive modes nor ahead of it for negative ones |
| Skew.ChaoticTime | a.c:32-33 | on a little-endian target, a zeroed `time64_t` with its low five bytes overwritten by the draw reads as the draw's little-endian value, which lies in `[0, 2^40)` |
| Skew.ChaoticCoversRange | a.c:32-33 | every value of `[0, 2^40)` is the chaotic read of some draw |
| Skew.ReportedTime | a.c:28-34 | a normal read is within one truncation of `(real + offset) * (100+mode)/100`; a chaotic read is the random draw, independent of real time and offset, in `[0, 2^40)` on a little-endian target |
| Skew.OffsetFor | a.c:46 | the stored offset places `real + offset` within one truncation of `target*100/(100+mode)`, rounded toward zero |
| Skew.NewOffset | a.c:45-49 | a set stores `OffsetFor` in the normal regime and zero in the chaotic one |
| Skew.SetThenRead | a.c:28-49 | after a set to `target` a read at the same real time shows `target` exactly for negative modes, and within two seconds toward zero for positive modes, for every target |
| Skew.SetThenReadLosesTwo | a.c:46 | the two-second loss is reached: mode 99, target 3, read back as 1 |
| Skew.RealisticTimesFit | a.c:29-46 | with target, real time and offset within 2^55 seconds no intermediate of the read or set expression overflows `time64_t` |
| Skew.Examples | a.c:28-48 | mode 50 reads 1000 as 1500, mode -50 as 500; setting 1500 at 1000 under mode 50 stores offset 0 and reads back 1500; -1 under mode 50 stays -1 (truncation, not flooring); modes 100 and -100 fall on either side of the boundary |
| Bytes.LeValue | a.c:33 | the little-endian value of `n` bytes is below `256^n` |
| Bytes.LeBytes | a.c:33 | `n` bytes store any value below `256^n` and read back as it |
| Bytes.LeBytesOfValue | a.c:33 | reading bytes and storing the value again gives the same bytes |
| Bytes.LeValueZeroExtend | a.c:32-33 | the zeroed high bytes of the word add nothing to its value |
| Bytes.CString | a.c:73-74 | the string the parser reads is the prefix of the buffer before its first NUL |
| Bytes.CStringTerminated | a.c:73-74 | the terminator written after the user's bytes hides the stale buffer contents behind it |
| Decimal.FormatInt | a.c:58 | `%i` output is non-empty, starts with `-` exactly for negative values and is otherwise digits |
| Decimal.IntValueOfFormat | a.c:58 | the shown text reads back as the value printed |
| RtcDevice.Device.constructor | a.c:106 | the zero-filled allocation: mode 0, offset 0, buffer all zeros, chaotic regime |
| RtcDevice.Device.ReadTime | a.c:18-37 | a read returns `ReportedTime` of the current real time, mode, offset and draw, a valid `time64_t`, and changes nothing in the device |
| RtcDevice.Device.SetTime | a.c:39-52 | a set stores `NewOffset(target, mode, real time)` and keeps the mode |
| RtcDevice.Device.Show | a.c:54-60 | the control file shows the mode's decimal form followed by a newline, and that text reads back as the mode |
| RtcDevice.Device.ProcWrite | a.c:62-81 | 16 or more bytes: `-EINVAL`, nothing changes; failed copy: `-EFAULT`, mode kept; otherwise the bytes and a NUL at index `count` (at most 15) fill the buffer, an unparsable string gives `-EINVAL` with the mode kept, and a parsed `v` becomes the mode with result `count`; the offset never changes |
| RtcDevice.WriteThenShow | a.c:54-80 | a successful write of `v` followed by a show prints `v` and a newline |

## Left out

- Skew.ChaoticTime: assumes a little-endian `time64_t`, so the five random bytes written at the lowest addresses are its least significant ones; on a big-endian target (s390x, big-endian PowerPC, MIPS or ARM) they are the most significant bytes, the read is the draw times 2^24 taken as signed, and it can be negative and outside `[0, 2^40)`. The same assumption carries into the chaotic case of `Skew.ReportedTime` and `RtcDevice.Device.ReadTime`.
- Driver registration and lifecycle (`a_init`, `a_exit`, `a_probe` apart from its zeroed allocation, `a_remove`, the operation tables): kernel plumbing with no logic of the clock.
- The procfs and seq_file layer (`a_proc_open`, `single_open`, `seq_read`, `seq_lseek`): I/O; `Device.Show` returns the text `seq_printf` would emit.
- The `!priv` test in `a_proc_write`: the model's device always exists.
- Spinlocks and concurrency: the model is sequential. In particular `a_read_time` reads the offset after releasing the lock, so under concurrency it may pair a mode with an offset from another set; the model reads both in one step.
- `rtc_time64_to_tm` and `rtc_tm_to_time64`: the model works in seconds and omits the calendar conversion of both the read result and the set target.
- `ktime_get_real_seconds`: the real time is a parameter.
- `get_random_bytes`: the five random bytes are a parameter.
- `kstrtoint`: its parsing rules are not modelled; the parser is a parameter from the C string to an optional `int`.
- `copy_from_user`: its failure is a parameter; a failed copy that has already written part of the buffer is not modelled (the model leaves the buffer untouched on failure).
- 64-bit wrap-around of `t * mode`, `t + ...`, `target * 100` and the offset subtraction: excluded by the methods' preconditions instead of being modelled.
