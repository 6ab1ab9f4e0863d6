/** Types shared by every component: bytes, fixed-width integers and error results. */
module Common {

  const TWO_TO_THE_32: int := 0x1_0000_0000
  const TWO_TO_THE_16: int := 0x1_0000

  type uint8 = x: int | 0 <= x < 256
  type byte = uint8
  type uint16 = x: int | 0 <= x < 0x1_0000
  type uint32 = x: int | 0 <= x < 0x1_0000_0000

  /** A syntax element that was read, or the parse error that aborted its unit. */
  datatype Result<+T> = Ok(value: T) | Err

  datatype Option<+T> = None | Some(value: T)

  // Truncating conversions. The guard keeps the division away from proofs about values that fit.

  /** uint32(x). */
  function Wrap32(x: int): uint32 {
    if 0 <= x < 0x1_0000_0000 then x else x % 0x1_0000_0000
  }

  /** uint16(x). */
  function Wrap16(x: int): uint16 {
    if 0 <= x < 0x1_0000 then x else x % 0x1_0000
  }

  /** uint8(x). */
  function Wrap8(x: int): uint8 {
    if 0 <= x < 256 then x else x % 256
  }

  function Min(a: int, b: int): int { if a <= b then a else b }

  function Max(a: int, b: int): int { if a >= b then a else b }

  /** The byte string of n zeros. */
  function Zeros(n: nat): (s: seq<byte>)
    ensures |s| == n
    ensures forall i :: 0 <= i < n ==> s[i] == 0
  {
    seq(n, _ => 0)
  }

  /** The length of s without its trailing zero bytes. */
  function StrippedLength(s: seq<byte>): (n: nat)
    ensures n <= |s|
    ensures n > 0 ==> s[n - 1] != 0
    ensures forall i :: n <= i < |s| ==> s[i] == 0
  {
    if s == [] || s[|s| - 1] != 0 then |s| else StrippedLength(s[..|s| - 1])
  }

  lemma StrippedLengthUnique(s: seq<byte>, n: nat)
    requires n <= |s|
    requires n > 0 ==> s[n - 1] != 0
    requires forall i :: n <= i < |s| ==> s[i] == 0
    ensures StrippedLength(s) == n
  {
    if n < |s| {
      StrippedLengthUnique(s[..|s| - 1], n);
    }
  }
}
