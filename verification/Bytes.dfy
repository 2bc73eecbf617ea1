/** Bytes, the text they spell, and substring search. */
module Bytes {
  type byte = b: int | 0 <= b < 256
  type uint16 = n: int | 0 <= n < 0x1_0000
  type uint32 = n: int | 0 <= n < 0x1_0000_0000
  type uint64 = n: int | 0 <= n < 0x1_0000_0000_0000_0000
  type int16 = n: int | -0x8000 <= n < 0x8000

  const UINT16_MAX := 0xFFFF
  const UINT32_MAX := 0xFFFF_FFFF

  /** The bytes of an ASCII literal. */
  function Ascii(s: string): (r: seq<byte>)
    ensures |r| == |s|
    ensures forall i :: 0 <= i < |s| ==> r[i] == s[i] as int % 256
  {
    seq(|s|, i requires 0 <= i < |s| => (s[i] as int) % 256)
  }

  /** `t` occurs in `s`, as std::string_view::find decides it. */
  predicate Contains(s: seq<byte>, t: seq<byte>) {
    exists i :: 0 <= i <= |s| - |t| && OccursAt(s, t, i)
  }

  predicate OccursAt(s: seq<byte>, t: seq<byte>, i: int) {
    0 <= i <= |s| - |t| && s[i..i + |t|] == t
  }

  /** `key` occurs in `s` at `pos`: the memcmp of the parser. */
  predicate KeyAt(s: seq<byte>, pos: nat, key: seq<byte>) {
    OccursAt(s, key, pos)
  }
}
