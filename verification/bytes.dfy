/** Bytes and the 4-byte words every binary parameter record is made of.
    The layers read a word by casting the cursor to `int*` (host byte order);
    this model fixes little-endian two's complement. */
module Bytes {

  type byte = x: int | 0 <= x < 0x100

  const TwoTo31: int := 0x8000_0000
  const TwoTo32: int := 0x1_0000_0000

  /** A value a C `int` can hold. */
  predicate IsInt32(v: int) {
    -TwoTo31 <= v < TwoTo31
  }

  /** The unsigned value of bytes stored least significant first. */
  function Unsigned(bs: seq<byte>): (u: nat)
  {
    if bs == [] then 0 else bs[0] + 0x100 * Unsigned(bs[1..])
  }

  /** The signed 32-bit word stored in `s[k..k+4]`. */
  function Int32At(s: seq<byte>, k: int): (v: int)
    requires 0 <= k && k + 4 <= |s|
    ensures IsInt32(v)
  {
    var u := Unsigned(s[k..k+4]);
    UnsignedBound(s[k..k+4]);
    if u < TwoTo31 then u else u - TwoTo32
  }

  /** Four bytes hold an unsigned value below 2^32. */
  lemma UnsignedBound(bs: seq<byte>)
    requires |bs| == 4
    ensures Unsigned(bs) < TwoTo32
  {
    assert Unsigned(bs[3..]) < 0x100;
    assert Unsigned(bs[2..]) < 0x1_0000;
    assert Unsigned(bs[1..]) < 0x100_0000;
  }

  /** The four bytes that store the `int` `v`. */
  function Int32Bytes(v: int): (bs: seq<byte>)
    requires IsInt32(v)
    ensures |bs| == 4
  {
    var u := if v < 0 then v + TwoTo32 else v;
    [u % 0x100, (u / 0x100) % 0x100, (u / 0x100 / 0x100) % 0x100, u / 0x100 / 0x100 / 0x100]
  }

  /** Reading a word depends only on its four bytes. */
  lemma Int32AtWindow(s: seq<byte>, k: int, t: seq<byte>)
    requires 0 <= k && k + 4 <= |s|
    requires t == s[k..k+4]
    ensures Int32At(s, k) == Int32At(t, 0)
  {
    assert t[0..4] == t;
  }

  /** One base-256 digit: `x = d + 256 y` with `d` a byte. */
  lemma Digit(x: int, d: byte, y: int)
    ensures x == d as int + 0x100 * y <==> (x % 0x100 == d as int && x / 0x100 == y)
  {
  }

  /** The unsigned value of four bytes, one digit at a time. */
  lemma UnsignedDigits(bs: seq<byte>)
    requires |bs| == 4
    ensures Unsigned(bs) == bs[0] as int + 0x100 * (bs[1] as int + 0x100 * (bs[2] as int + 0x100 * bs[3] as int))
  {
    assert bs[3..][1..] == [];
    assert Unsigned(bs[3..]) == bs[3] as int;
    assert bs[2..][1..] == bs[3..];
    assert Unsigned(bs[2..]) == bs[2] as int + 0x100 * Unsigned(bs[3..]);
    assert bs[1..][1..] == bs[2..];
    assert Unsigned(bs[1..]) == bs[1] as int + 0x100 * Unsigned(bs[2..]);
  }

  /** Splitting a value below 2^32 into base-256 digits and recombining them
      gives the value back, and the digits are unique. */
  lemma DigitsOf(u: int, bs: seq<byte>)
    requires 0 <= u < TwoTo32 && |bs| == 4
    ensures u == Unsigned(bs) <==>
      (&& bs[0] as int == u % 0x100 && bs[1] as int == (u / 0x100) % 0x100
       && bs[2] as int == (u / 0x100 / 0x100) % 0x100 && bs[3] as int == u / 0x100 / 0x100 / 0x100)
  {
    UnsignedDigits(bs);
    var x3 := bs[3] as int;
    var x2 := bs[2] as int + 0x100 * x3;
    var x1 := bs[1] as int + 0x100 * x2;
    Digit(u, bs[0], x1);
    Digit(u / 0x100, bs[1], x2);
    Digit(u / 0x100 / 0x100, bs[2], x3);
    Digit(x1, bs[1], x2);
    Digit(x2, bs[2], x3);
  }

  /** Writing an `int` and reading it back yields the same `int`. */
  lemma ReadWritten(v: int)
    requires IsInt32(v)
    ensures Int32At(Int32Bytes(v), 0) == v
  {
    var u := if v < 0 then v + TwoTo32 else v;
    var bs := Int32Bytes(v);
    assert bs[0..4] == bs;
    DigitsOf(u, bs);
  }

  /** Reading a word and writing it back reproduces its four bytes. */
  lemma WrittenRead(s: seq<byte>, k: int)
    requires 0 <= k && k + 4 <= |s|
    ensures Int32Bytes(Int32At(s, k)) == s[k..k+4]
  {
    var u := Unsigned(s[k..k+4]);
    UnsignedBound(s[k..k+4]);
    DigitsOf(u, s[k..k+4]);
  }

  /** Wherever the bytes of `v` are stored, reading there yields `v`. */
  lemma ReadsBack(s: seq<byte>, k: int, v: int)
    requires IsInt32(v)
    requires 0 <= k && k + 4 <= |s| && s[k..k+4] == Int32Bytes(v)
    ensures Int32At(s, k) == v
  {
    Int32AtWindow(s, k, Int32Bytes(v));
    ReadWritten(v);
  }
}
