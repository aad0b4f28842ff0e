/** Bytes, and little-endian integers as the program writes them by copying memory. */
module Bytes {
  type byte = x: int | 0 <= x < 256

  const WORD := 0x1_0000_0000         // 2^32

  function LE2(v: nat): (s: seq<byte>)
    requires v < 0x1_0000
    ensures |s| == 2
  {
    [v % 256, v / 256]
  }

  function LE4(v: nat): (s: seq<byte>)
    requires v < WORD
    ensures |s| == 4
  {
    [v % 256, v / 256 % 256, v / 0x1_0000 % 256, v / 0x100_0000]
  }

  function Get2(s: seq<byte>, i: nat): nat
    requires i + 2 <= |s|
  {
    (s[i] as int) + (s[i + 1] as int) * 256
  }

  function Get4(s: seq<byte>, i: nat): (v: nat)
    requires i + 4 <= |s|
    ensures v < WORD
  {
    (s[i] as int) + (s[i + 1] as int) * 256 + (s[i + 2] as int) * 0x1_0000 + (s[i + 3] as int) * 0x100_0000
  }

  /** The bytes are the digits to the base 256, the lowest first. */
  lemma LittleEndian(v: nat)
    requires v < WORD
    ensures v < 0x1_0000 ==> (LE2(v)[0] as int) + (LE2(v)[1] as int) * 0x100 == v
    ensures var s := LE4(v);
            (s[0] as int) + (s[1] as int) * 0x100 + (s[2] as int) * 0x1_0000 + (s[3] as int) * 0x100_0000 == v
  {
    Digits(v);
  }

  lemma GetLE2(s: seq<byte>, i: nat, v: nat)
    requires v < 0x1_0000 && i + 2 <= |s| && s[i..i + 2] == LE2(v)
    ensures Get2(s, i) == v
  {
    assert s[i] == s[i..i + 2][0] && s[i + 1] == s[i..i + 2][1];
  }

  lemma GetLE4(s: seq<byte>, i: nat, v: nat)
    requires v < WORD && i + 4 <= |s| && s[i..i + 4] == LE4(v)
    ensures Get4(s, i) == v
  {
    var t := s[i..i + 4];
    assert s[i] == t[0] && s[i + 1] == t[1] && s[i + 2] == t[2] && s[i + 3] == t[3];
    Digits(v);
  }

  lemma Digits(v: nat)
    ensures v % 256 + v / 256 % 256 * 256 + v / 0x1_0000 % 256 * 0x1_0000 + v / 0x100_0000 * 0x100_0000 == v
  {
    assert v / 0x1_0000 == v / 256 / 256 && v / 0x100_0000 == v / 256 / 256 / 256;
  }

  /** Every two and every four bytes are some number's. */
  lemma PutGet2(s: seq<byte>, i: nat)
    requires i + 2 <= |s|
    ensures Get2(s, i) < 0x1_0000 && LE2(Get2(s, i)) == s[i..i + 2]
  {
    assert Get2(s, i) / 256 == s[i + 1];
  }

  lemma PutGet4(s: seq<byte>, i: nat)
    requires i + 4 <= |s|
    ensures LE4(Get4(s, i)) == s[i..i + 4]
  {
    var v := Get4(s, i);
    FourDigits(s[i], s[i + 1], s[i + 2], s[i + 3]);
    assert LE4(v)[0] == s[i] && LE4(v)[1] == s[i + 1] && LE4(v)[2] == s[i + 2] && LE4(v)[3] == s[i + 3];
  }

  lemma FourDigits(a: byte, b: byte, c: byte, d: byte)
    ensures var v := a + b * 256 + c * 0x1_0000 + d * 0x100_0000;
            v % 256 == a && v / 256 % 256 == b && v / 0x1_0000 % 256 == c && v / 0x100_0000 == d
  {
    var v := a + b * 256 + c * 0x1_0000 + d * 0x100_0000;
    assert v / 256 == b + c * 256 + d * 0x1_0000;
    assert v / 0x1_0000 == c + d * 256;
  }
}
