/** The string hash of struct_funcs.c: a rotate-and-xor fold over the
    characters of a C string, in 32-bit unsigned arithmetic. */
module Hashing {
  import opened CStrings

  const Seed: bv32 := 0x539CA32B

  /** `rol(num, dist)`: `(num << dist) | (num >> (32 - dist))` with an
      `unsigned char` distance. Shifting a 32-bit value by 32 is undefined in
      C, hence the bound on `dist`; the hash only rotates by 3 to 10. */
  function Rol(num: bv32, dist: bv8): bv32
    requires 0 < dist < 32
  {
    (num << dist) | (num >> (32 - dist))
  }

  /** `rol` is a rotation: bit i of `num` lands at bit i + dist, wrapping
      around past bit 31. */
  lemma RolMovesBits(num: bv32, dist: bv8, i: bv8)
    requires 0 < dist < 32 && i < 32
    ensures i + dist < 32 ==> (Rol(num, dist) >> (i + dist)) & 1 == (num >> i) & 1
    ensures i + dist >= 32 ==> (Rol(num, dist) >> (i + dist - 32)) & 1 == (num >> i) & 1
  {
  }

  /** The value a signed `char` contributes to `hash ^= str[i]`: promoted to
      `int`, then converted to `uint` (sign extension). */
  function CharBits(c: char): bv32 {
    ((SignedChar(c) + 0x1_0000_0000) % 0x1_0000_0000) as bv32
  }

  /** One round of the loop body of `hash`: rotate by 3 to 10, mix the
      character in, then xor with a rotation of the result by 4 to 9. */
  function Step(h: bv32, c: char): bv32 {
    Mix(Rol(h, (h % 8) as bv8 + 3) ^ CharBits(c))
  }

  /** `hash ^= rol(hash, 4 + hash % 6)`. */
  function Mix(h: bv32): bv32 {
    var dist := 4 + (h as int) % 6;
    h ^ Rol(h, dist as bv8)
  }

  /** The hash of a string's characters, folded from the left. */
  function HashOf(s: string): bv32
    decreases |s|
  {
    if s == [] then Seed else Step(HashOf(s[..|s| - 1]), s[|s| - 1])
  }

  /** `hash(str)`: the loop stops at the first NUL. Its counter is an
      `unsigned char`, so a string of 256 characters or more never ends. */
  method Hash(str: seq<char>) returns (h: bv32)
    requires |CStr(str, 0)| < 256
    ensures h == HashOf(CStr(str, 0))
  {
    h := Seed;
    var i := 0;
    while i < |str| && str[i] != NUL
      invariant i <= NextNul(str, 0)
      invariant h == HashOf(str[..i])
    {
      HashOfSnoc(str, i);
      h := Step(h, str[i]);
      i := i + 1;
    }
    assert i == NextNul(str, 0) by { NextNulIsFirst(str, 0, i); }
  }

  lemma HashOfSnoc(s: seq<char>, i: nat)
    requires i < |s|
    ensures HashOf(s[..i + 1]) == Step(HashOf(s[..i]), s[i])
  {
    assert s[..i + 1][..i] == s[..i];
  }

  /** Whatever follows the first NUL never reaches the hash: `hash` of a
      buffer holding `name`, its terminator and any tail is the hash of
      `name`. */
  lemma HashIgnoresTail(name: string, tail: seq<char>)
    requires NUL !in name
    ensures CStr(name + [NUL] + tail, 0) == name
    ensures HashOf(CStr(name + [NUL] + tail, 0)) == HashOf(name)
  {
    NextNulIsFirst(name + [NUL] + tail, 0, |name|);
  }
}
