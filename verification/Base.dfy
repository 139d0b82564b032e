/** Types shared by the component models. */
module Base {

  datatype Option<+T> = None | Some(value: T)

  datatype Result<+T, +E> = Ok(value: T) | Err(error: E)

  type byte = x: int | 0 <= x < 256

  type Bytes = seq<byte>

  /** Little-endian words, as amd64 loads them. */
  function Load16(lo: byte, hi: byte): nat {
    lo as int + 256 * hi as int
  }

  function Load32(d: Bytes): nat
    requires |d| >= 4
  {
    d[0] as int + 256 * d[1] as int + 65_536 * d[2] as int + 16_777_216 * d[3] as int
  }

  /** Index of the first element that satisfies `p`, or the length of `s`. */
  function FirstIndex<T>(s: seq<T>, p: T -> bool): (i: nat)
    ensures i <= |s|
    ensures i < |s| ==> p(s[i])
    ensures forall j :: 0 <= j < i ==> !p(s[j])
  {
    if s == [] || p(s[0]) then 0 else 1 + FirstIndex(s[1..], p)
  }

  /** Index of the first occurrence of `x`, or the length of `s`. */
  function IndexOf<T(==)>(s: seq<T>, x: T): (i: nat)
    ensures i <= |s|
    ensures i < |s| ==> s[i] == x
    ensures forall j :: 0 <= j < i ==> s[j] != x
  {
    FirstIndex(s, y => y == x)
  }

  /** The sequence without its last element if that is `x`. */
  function StripLast<T(==)>(s: seq<T>, x: T): seq<T> {
    if s != [] && s[|s| - 1] == x then s[..|s| - 1] else s
  }
}
