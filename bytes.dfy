/**
  Byte-level views the device relies on: the layout of a `time64_t` in
  memory, assumed little-endian (as on x86 and the usual ARM and RISC-V
  targets), and the NUL-terminated string that `kstrtoint` reads out of the
  control buffer.
*/
module Bytes {

  /** One octet of memory. */
  type Byte = b: int | 0 <= b < 256

  function Pow256(n: nat): (p: nat)
    ensures p >= 1
  {
    if n == 0 then 1 else 256 * Pow256(n - 1)
  }

  function Zeros(n: nat): (z: seq<Byte>)
    ensures |z| == n && forall i :: 0 <= i < n ==> z[i] == 0
  {
    seq(n, _ => 0)
  }

  /** The unsigned number stored in `b`, least significant byte first. */
  function LeValue(b: seq<Byte>): (v: nat)
    ensures v < Pow256(|b|)
  {
    if b == [] then 0 else b[0] + 256 * LeValue(b[1..])
  }

  /** The `n` little-endian bytes that store `v`. */
  function LeBytes(v: nat, n: nat): (b: seq<Byte>)
    requires v < Pow256(n)
    ensures |b| == n && LeValue(b) == v
  {
    if n == 0 then [] else [v % 256] + LeBytes(v / 256, n - 1)
  }

  /** Storing a value and reading it back gives the bytes one started from. */
  lemma {:induction false} LeBytesOfValue(b: seq<Byte>)
    ensures LeBytes(LeValue(b), |b|) == b
  {
    if b != [] {
      var v := LeValue(b);
      assert v % 256 == b[0] && v / 256 == LeValue(b[1..]);
      LeBytesOfValue(b[1..]);
    }
  }

  /** Zero bytes in the high end of a word add nothing to its value. */
  lemma {:induction false} LeValueZeroExtend(b: seq<Byte>, n: nat)
    ensures LeValue(b + Zeros(n)) == LeValue(b)
  {
    if b == [] {
      assert b + Zeros(n) == Zeros(n);
      ZerosValue(n);
    } else {
      assert (b + Zeros(n))[1..] == b[1..] + Zeros(n);
      LeValueZeroExtend(b[1..], n);
    }
  }

  lemma {:induction false} ZerosValue(n: nat)
    ensures LeValue(Zeros(n)) == 0
  {
    if n > 0 {
      assert Zeros(n)[1..] == Zeros(n - 1);
      ZerosValue(n - 1);
    }
  }

  /** `word` with its first `|bytes|` bytes overwritten, as a fill of raw memory does. */
  function Overwrite(word: seq<Byte>, bytes: seq<Byte>): (w: seq<Byte>)
    requires |bytes| <= |word|
    ensures |w| == |word| && w[..|bytes|] == bytes && w[|bytes|..] == word[|bytes|..]
  {
    bytes + word[|bytes|..]
  }

  /** The two's-complement reading of a 64-bit unsigned value. */
  function Signed64(u: nat): (s: int)
    requires u < Pow256(8)
    ensures -0x8000_0000_0000_0000 <= s < 0x8000_0000_0000_0000
    ensures s >= 0 <==> u < 0x8000_0000_0000_0000
  {
    if u < 0x8000_0000_0000_0000 then u else u - 0x1_0000_0000_0000_0000
  }

  /**
    The C string held in `s`: every byte before the first NUL, or all of `s`
    when it holds none.
  */
  function CString(s: seq<Byte>): (c: seq<Byte>)
    ensures |c| <= |s| && c == s[..|c|]
    ensures forall i :: 0 <= i < |c| ==> c[i] != 0
    ensures |c| < |s| ==> s[|c|] == 0
  {
    if s == [] || s[0] == 0 then [] else [s[0]] + CString(s[1..])
  }

  /**
    A terminator written after `input` hides whatever follows it: the string
    read from `input + [0] + rest` is the string read from `input` alone.
  */
  lemma {:induction false} CStringTerminated(input: seq<Byte>, rest: seq<Byte>)
    ensures CString(input + [0] + rest) == CString(input)
  {
    if input != [] && input[0] != 0 {
      assert (input + [0] + rest)[1..] == input[1..] + [0] + rest;
      CStringTerminated(input[1..], rest);
    }
  }
}
