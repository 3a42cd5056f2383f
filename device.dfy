/**
  The skewing real-time-clock device: its private state (mode, offset and the
  16-byte control buffer), the clock's read and set entry points, and the
  control file's show and write handlers.

  Real time, the random draw, the fault of the user copy and the parse of the
  control text are inputs: the device reads the clock, draws randomness,
  copies from user space and calls the kernel's integer parser, none of which
  this model contains.
*/
module RtcDevice {
  import opened Wrappers
  import opened CArith
  import opened Bytes
  import opened Decimal
  import opened Skew

  /** `sizeof` the control buffer. */
  const BufferSize: nat := 16

  class Device {
    var mode: int
    var offset: int
    var buffer: array<Byte>

    /** The C types of the fields: `int` mode, `time64_t` offset, a 16-byte buffer. */
    ghost predicate Valid()
      reads this
    {
      IsInt32(mode) && In64(offset) && buffer.Length == BufferSize
    }

    /** The zero-filled state the probe allocates: mode 0, offset 0, an all-zero buffer. */
    constructor ()
      ensures Valid() && fresh(buffer)
      ensures mode == 0 && offset == 0 && buffer[..] == Zeros(BufferSize)
      ensures !IsNormal(mode)
    {
      mode, offset := 0, 0;
      buffer := new Byte[BufferSize](_ => 0);
    }

    /**
      Reading the clock at real time `now` with random draw `rnd`: the
      skewed time in the normal regime, the draw itself otherwise. Nothing
      in the device changes, and the result is a valid `time64_t`.
    */
    method ReadTime(now: int, rnd: seq<Byte>) returns (t: int)
      requires Valid() && In64(now) && |rnd| == RandomBytes
      requires IsNormal(mode) ==> ReadFits(now, offset, mode)
      ensures t == ReportedTime(now, mode, offset, rnd)
      ensures In64(t)
      ensures !IsNormal(mode) ==> 0 <= t < ChaoticBound
    {
      var m := mode;
      if (m > 0 && m <= 100) || (m < 0 && m > -100) {
        t := now + offset;
        t := t + TruncDiv(t * m, 100);
      } else {
        var word := Zeros(TimeBytes);
        word := Overwrite(word, rnd);
        t := Signed64(LeValue(word));
        assert t == ChaoticTime(rnd);
      }
    }

    /**
      Setting the clock to `target` at real time `now`: the normal regime
      stores the offset under which a read at `now` shows `target` (see
      Skew.SetThenRead); any other mode clears the offset. The mode is kept.
    */
    method SetTime(target: int, now: int)
      requires Valid() && In64(target) && In64(now)
      requires IsNormal(mode) ==> SetFits(target, mode, now)
      modifies this`offset
      ensures Valid() && mode == old(mode)
      ensures offset == NewOffset(target, mode, now)
    {
      if (mode > 0 && mode <= 100) || (mode < 0 && mode > -100) {
        offset := TruncDiv(target * 100, 100 + mode) - now;
      } else {
        offset := 0;
      }
    }

    /** The control file's contents: the mode in decimal, then a newline. */
    method Show() returns (text: string)
      requires Valid()
      ensures |text| >= 2 && text[|text| - 1] == '\n'
      ensures text[..|text| - 1] == FormatInt(mode)
      ensures IntValue(text[..|text| - 1]) == mode
    {
      text := FormatInt(mode) + "\n";
      assert text[..|text| - 1] == FormatInt(mode);
      IntValueOfFormat(mode);
    }

    /**
      A write of `input` to the control file. Input that cannot fit the
      buffer together with its terminator is refused; a failed user copy is
      reported; otherwise the bytes and a NUL land in the buffer and
      `parse`, the kernel's integer parser, reads the string they form. A
      parsed value becomes the mode, with no range check; the offset is never
      touched.
    */
    method ProcWrite(input: seq<Byte>, fault: bool, parse: seq<Byte> -> Option<Int32>) returns (ret: int)
      requires Valid()
      modifies this`mode, buffer
      ensures Valid() && buffer == old(buffer)
      ensures |input| >= BufferSize ==>
        ret == -EINVAL && mode == old(mode) && buffer[..] == old(buffer[..])
      ensures |input| < BufferSize && fault ==>
        ret == -EFAULT && mode == old(mode) && buffer[..] == old(buffer[..])
      ensures |input| < BufferSize && !fault ==>
        buffer[..] == input + [0] + old(buffer[..])[|input| + 1..]
      ensures |input| < BufferSize && !fault && parse(CString(input)).None? ==>
        ret == -EINVAL && mode == old(mode)
      ensures |input| < BufferSize && !fault && parse(CString(input)).Some? ==>
        ret == |input| && mode == parse(CString(input)).value
    {
      var count := |input|;
      if count >= BufferSize {
        return -EINVAL;
      }
      if fault {
        return -EFAULT;
      }
      forall i | 0 <= i < count {
        buffer[i] := input[i];
      }
      buffer[count] := 0;
      assert buffer[..] == input + [0] + old(buffer[..])[count + 1..];
      CStringTerminated(input, old(buffer[..])[count + 1..]);
      var parsed := parse(CString(buffer[..]));
      match parsed {
        case None =>
          return -EINVAL;
        case Some(v) =>
          mode := v;
          return count;
      }
    }
  }

  /**
    Writing `v` to the control file of a device and then showing it prints
    `v` and a newline, whatever the mode was.
  */
  method WriteThenShow(d: Device, input: seq<Byte>, parse: seq<Byte> -> Option<Int32>) returns (text: string)
    requires d.Valid() && |input| < BufferSize && parse(CString(input)).Some?
    modifies d, d.buffer
    ensures text == FormatInt(parse(CString(input)).value) + "\n"
  {
    var ret := d.ProcWrite(input, false, parse);
    text := d.Show();
  }
}
