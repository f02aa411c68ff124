/** Code units and the NUL-terminated view of a text that every input stream gives. */
module Bytes {

  type byte = x: int | 0 <= x < 256
  type bytes = seq<byte>

  const NUL: byte := 0

  /** What Peek() sees at position `i` of a NUL-terminated text. */
  function At(s: bytes, i: nat): byte {
    if i < |s| then s[i] else NUL
  }

  /** `t` stands in `s` at position `i`. */
  predicate Stands(s: bytes, i: nat, t: bytes) {
    i + |t| <= |s| && s[i..i + |t|] == t
  }

  lemma StandsSplit(s: bytes, i: nat, t: bytes, u: bytes)
    ensures Stands(s, i, t + u) <==> Stands(s, i, t) && Stands(s, i + |t|, u)
  {
    if Stands(s, i, t + u) {
      assert s[i..i + |t|] == (t + u)[..|t|];
      assert s[i + |t|..i + |t| + |u|] == (t + u)[|t|..];
    }
    if Stands(s, i, t) && Stands(s, i + |t|, u) {
      assert s[i..i + |t + u|] == s[i..i + |t|] + s[i + |t|..i + |t| + |u|];
    }
  }

  lemma StandsAt(s: bytes, i: nat, t: bytes, k: nat)
    requires Stands(s, i, t) && k < |t|
    ensures At(s, i + k) == t[k]
  {
    assert t[k] == s[i..i + |t|][k];
  }

  function Power2(k: nat): (r: nat)
    ensures r > 0
  {
    if k == 0 then 1 else 2 * Power2(k - 1)
  }
}
