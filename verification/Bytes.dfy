/** Fixed-width unsigned integers, and the little-endian byte order of every MTP field. */
module Bytes {
  type u8 = x: int | 0 <= x < 0x100
  type u16 = x: int | 0 <= x < 0x1_0000
  type u32 = x: int | 0 <= x < 0x1_0000_0000
  type u64 = x: int | 0 <= x < 0x1_0000_0000_0000_0000

  /** The low 16 bits of v, least significant byte first. */
  function LE16(v: int): (s: seq<u8>)
    ensures |s| == 2
  {
    [v % 0x100, v / 0x100 % 0x100]
  }

  /** The low 32 bits of v, least significant byte first. */
  function LE32(v: int): (s: seq<u8>)
    ensures |s| == 4
  {
    [v % 0x100, v / 0x100 % 0x100, v / 0x1_0000 % 0x100, v / 0x100_0000 % 0x100]
  }

  /** The buffer with body written over it from index on. */
  function Splice<T>(buffer: seq<T>, index: nat, body: seq<T>): (s: seq<T>)
    requires index + |body| <= |buffer|
    ensures |s| == |buffer|
  {
    buffer[..index] + body + buffer[index + |body|..]
  }

  /** Two adjacent writes are one write of the concatenation. */
  lemma SpliceAppend<T>(buffer: seq<T>, index: nat, x: seq<T>, y: seq<T>)
    requires index + |x| + |y| <= |buffer|
    ensures Splice(Splice(buffer, index, x), index + |x|, y) == Splice(buffer, index, x + y)
  {
    var s := Splice(buffer, index, x);
    assert s[..index + |x|] == buffer[..index] + x;
    assert s[index + |x| + |y|..] == buffer[index + |x| + |y|..];
    assert |x + y| == |x| + |y|;
  }

  /** Unsigned value of a little-endian byte string. */
  function FromLE(s: seq<u8>): nat {
    if s == [] then 0 else s[0] + 0x100 * FromLE(s[1..])
  }

  function Pow256(n: nat): nat {
    if n == 0 then 1 else 0x100 * Pow256(n - 1)
  }

  /** A longer read is the shorter one plus the next byte shifted above it. */
  lemma {:induction false} FromLEAppend(s: seq<u8>, b: u8)
    ensures FromLE(s + [b]) == FromLE(s) + b * Pow256(|s|)
  {
    if s == [] {
      assert FromLE([b]) == b + 0x100 * FromLE([b][1..]);
    } else {
      assert (s + [b])[1..] == s[1..] + [b];
      FromLEAppend(s[1..], b);
      assert 0x100 * (b * Pow256(|s| - 1)) == b * (0x100 * Pow256(|s| - 1));
    }
  }

  lemma {:induction false} FromLEBound(s: seq<u8>)
    ensures FromLE(s) < Pow256(|s|)
  {
    if s != [] {
      FromLEBound(s[1..]);
    }
  }

  lemma Pow256Values()
    ensures Pow256(1) == 0x100 && Pow256(2) == 0x1_0000 && Pow256(4) == 0x1_0000_0000
    ensures Pow256(8) == 0x1_0000_0000_0000_0000
  {
    assert Pow256(2) == 0x100 * Pow256(1);
    assert Pow256(3) == 0x100 * Pow256(2);
    assert Pow256(4) == 0x100 * Pow256(3);
    assert Pow256(5) == 0x100 * Pow256(4);
    assert Pow256(6) == 0x100 * Pow256(5);
    assert Pow256(7) == 0x100 * Pow256(6);
  }

  /** Reading back a stored field gives its value modulo the field's width. */
  lemma FromLE16(v: int)
    ensures FromLE(LE16(v)) == v % 0x1_0000
  {
    var q := v / 0x100;
    FromLETwo(v % 0x100, q % 0x100);
    assert v == v % 0x100 + 0x100 * (q % 0x100) + 0x1_0000 * (q / 0x100);
  }

  lemma FromLETwo(a: int, b: int)
    requires 0 <= a < 0x100 && 0 <= b < 0x100
    ensures FromLE([a, b]) == a + 0x100 * b
  {
    assert [a, b][1..] == [b] && [b][1..] == [];
    assert FromLE([b]) == b;
  }

  lemma FromLE32(v: int)
    ensures FromLE(LE32(v)) == v % 0x1_0000_0000
  {
    var s := LE32(v);
    Digits(v);
    FromLEFour(s[0], s[1], s[2], s[3]);
  }

  lemma TwiceDivided(v: int)
    ensures v / 0x100 / 0x100 == v / 0x1_0000
  {
  }

  lemma ThriceDivided(v: int)
    ensures v / 0x100 / 0x1_0000 == v / 0x100_0000
  {
  }

  /** The four lowest digits to base 256. */
  lemma Digits(v: int)
    ensures v % 0x100 + 0x100 * (v / 0x100 % 0x100) + 0x1_0000 * (v / 0x1_0000 % 0x100)
            + 0x100_0000 * (v / 0x100_0000 % 0x100) == v % 0x1_0000_0000
  {
    var q1 := v / 0x100;
    var q2 := q1 / 0x100;
    var q3 := q2 / 0x100;
    TwiceDivided(v);
    TwiceDivided(q1);
    ThriceDivided(v);
    assert v == v % 0x100 + 0x100 * (q1 % 0x100) + 0x1_0000 * (q2 % 0x100) + 0x100_0000 * (q3 % 0x100)
              + 0x1_0000_0000 * (q3 / 0x100);
  }

  lemma FromLEFour(a: int, b: int, c: int, d: int)
    requires 0 <= a < 0x100 && 0 <= b < 0x100 && 0 <= c < 0x100 && 0 <= d < 0x100
    ensures FromLE([a, b, c, d]) == a + 0x100 * b + 0x1_0000 * c + 0x100_0000 * d
  {
    assert [a, b, c, d][1..] == [b, c, d] && [b, c, d][1..] == [c, d] && [c, d][1..] == [d] && [d][1..] == [];
    assert FromLE([d]) == d && FromLE([c, d]) == c + 0x100 * FromLE([d]);
    assert FromLE([b, c, d]) == b + 0x100 * FromLE([c, d]);
  }

  /** Little-endian image of a string of 16-bit units. */
  function LE16s(u: seq<u16>): (s: seq<u8>)
    ensures |s| == 2 * |u|
  {
    if u == [] then [] else LE16(u[0]) + LE16s(u[1..])
  }

  lemma {:induction false} LE16sAppend(u: seq<u16>, v: seq<u16>)
    ensures LE16s(u + v) == LE16s(u) + LE16s(v)
  {
    if u == [] {
      assert u + v == v;
    } else {
      assert (u + v)[1..] == u[1..] + v;
      LE16sAppend(u[1..], v);
    }
  }

  /** Two strings of units with the same image are the same string. */
  lemma {:induction false} LE16sInjective(u: seq<u16>, v: seq<u16>)
    requires LE16s(u) == LE16s(v)
    ensures u == v
  {
    if u != [] {
      assert LE16s(u)[..2] == LE16(u[0]) && LE16s(v)[..2] == LE16(v[0]);
      assert LE16s(u)[2..] == LE16s(u[1..]) && LE16s(v)[2..] == LE16s(v[1..]);
      SameUnit(u[0], v[0]);
      LE16sInjective(u[1..], v[1..]);
    }
  }

  lemma SameUnit(a: u16, b: u16)
    requires LE16(a) == LE16(b)
    ensures a == b
  {
    FromLE16(a);
    FromLE16(b);
  }
}
