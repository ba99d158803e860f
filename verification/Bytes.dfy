/** Bytes and the characters the yEnc codec and NNTP treat specially. */
module Bytes {
  // Go's byte: eight bits, and arithmetic that wraps around.
  type byte = bv8

  const NUL: byte := 0x00
  const TAB: byte := 0x09
  const LF: byte := 0x0A
  const CR: byte := 0x0D
  const SPACE: byte := 0x20
  const DOT: byte := 0x2E
  const EQUALS: byte := 0x3D
  const LETTER_Y: byte := 0x79

  // yEnc adds 42 to every byte, and a further 64 to an escaped one.
  const SHIFT: byte := 42
  const ESCAPED_SHIFT: byte := 106

  const NEWLINE: seq<byte> := [CR, LF]

  function Concat(parts: seq<seq<byte>>): seq<byte> {
    if parts == [] then [] else Concat(parts[..|parts| - 1]) + parts[|parts| - 1]
  }

  function Zeros(n: nat): (z: seq<byte>)
    ensures |z| == n && forall i :: 0 <= i < n ==> z[i] == 0
  {
    seq(n, _ => 0)
  }

  lemma Joined(dest: array<byte>, base: nat, a: nat, b: nat)
    requires base + a + b <= dest.Length
    ensures dest[base..base + a + b] == dest[base..base + a] + dest[base + a..base + a + b]
  {
  }
}
