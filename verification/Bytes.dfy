// Fixed-width integers, little-endian fields and list flattening shared by the other modules.
module Bytes {
  type Byte = x: int | 0 <= x < 0x100
  type U16 = x: int | 0 <= x < 0x1_0000
  type U32 = x: int | 0 <= x < 0x1_0000_0000

  const TWO_32: int := 0x1_0000_0000

  /** What a C assignment to uint32_t keeps. */
  function Wrap32(x: int): U32 {
    x % TWO_32
  }

  function PutU16(v: U16): (b: seq<Byte>)
    ensures |b| == 2
  {
    [v % 0x100, v / 0x100]
  }

  function PutU32(v: U32): (b: seq<Byte>)
    ensures |b| == 4
  {
    [v % 0x100, v / 0x100 % 0x100, v / 0x1_0000 % 0x100, v / 0x100_0000]
  }

  function GetU16(b: seq<Byte>): U16
    requires |b| == 2
  {
    b[0] as int + 0x100 * b[1] as int
  }

  function GetU32(b: seq<Byte>): U32
    requires |b| == 4
  {
    b[0] as int + 0x100 * b[1] as int + 0x1_0000 * b[2] as int + 0x100_0000 * b[3] as int
  }

  /** The 16-bit little-endian codec is a bijection between values and byte pairs. */
  lemma RoundTripU16(v: U16, b: seq<Byte>)
    requires |b| == 2
    ensures GetU16(PutU16(v)) == v
    ensures PutU16(GetU16(b)) == b
  {
    var w := GetU16(b);
    assert w % 0x100 == b[0] && w / 0x100 == b[1];
  }

  /** The 32-bit little-endian codec is a bijection between values and byte quadruples. */
  lemma RoundTripU32(v: U32, b: seq<Byte>)
    requires |b| == 4
    ensures GetU32(PutU32(v)) == v
    ensures PutU32(GetU32(b)) == b
  {
    Digits(v);
    FromDigits(b[0], b[1], b[2], b[3]);
  }

  lemma Digits(v: nat)
    ensures v == v % 0x100 + 0x100 * (v / 0x100 % 0x100) + 0x1_0000 * (v / 0x1_0000 % 0x100)
            + 0x100_0000 * (v / 0x100_0000)
  {
    assert v / 0x100_0000 == v / 0x1_0000 / 0x100;
    assert v / 0x1_0000 == v / 0x100 / 0x100;
  }

  lemma FromDigits(a: Byte, b: Byte, c: Byte, d: Byte)
    ensures var w := a as int + 0x100 * b as int + 0x1_0000 * c as int + 0x100_0000 * d as int;
            w % 0x100 == a && w / 0x100 % 0x100 == b && w / 0x1_0000 % 0x100 == c && w / 0x100_0000 == d
  {
    var w := a as int + 0x100 * b as int + 0x1_0000 * c as int + 0x100_0000 * d as int;
    assert w / 0x100_0000 == d;
    assert w / 0x1_0000 == c as int + 0x100 * d as int;
    assert w / 0x100 == b as int + 0x100 * c as int + 0x1_0000 * d as int;
  }

  function Flat<T>(ss: seq<seq<T>>): seq<T> {
    if ss == [] then [] else ss[0] + Flat(ss[1..])
  }

  lemma {:induction false} FlatConcat<T>(a: seq<seq<T>>, b: seq<seq<T>>)
    ensures Flat(a + b) == Flat(a) + Flat(b)
  {
    if a == [] {
      assert a + b == b;
    } else {
      FlatConcat(a[1..], b);
      assert (a + b)[0] == a[0] && (a + b)[1..] == a[1..] + b;
      Associate(a[0], Flat(a[1..]), Flat(b));
    }
  }

  lemma Associate<T>(a: seq<T>, b: seq<T>, c: seq<T>)
    ensures (a + b) + c == a + (b + c)
  {
  }

  lemma FlatSnoc<T>(a: seq<seq<T>>, x: seq<T>)
    ensures Flat(a + [x]) == Flat(a) + x
  {
    FlatConcat(a, [x]);
    assert Flat([x]) == x + Flat([x][1..]);
  }

  lemma FlatSplit<T>(a: seq<seq<T>>, k: nat)
    requires k <= |a|
    ensures Flat(a) == Flat(a[..k]) + Flat(a[k..])
  {
    hide Flat;
    assert a == a[..k] + a[k..];
    FlatConcat(a[..k], a[k..]);
  }

  function Sum(xs: seq<nat>): nat {
    if xs == [] then 0 else xs[0] + Sum(xs[1..])
  }
}
