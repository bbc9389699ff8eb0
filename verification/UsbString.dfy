/** UTF-8 and UTF-16 conversion of object names (src/usbstring.c). A C string is the
    byte string before its terminator; the terminator and what follows read as zero. */
module UsbString {
  import opened Bytes

  function At(s: seq<u8>, i: nat): u8 {
    if i < |s| then s[i] else 0
  }

  /** The bytes of one 16-bit unit: one, two or three of them (section 3 of RFC 3629). */
  function EncodeUnit(u: u16): (s: seq<u8>)
    ensures 1 <= |s| <= 3
  {
    if u <= 0x7F then [u]
    else if u <= 0x7FF then [u / 0x40 % 0x20 + 0xC0, u % 0x40 + 0x80]
    else [u / 0x1000 % 0x10 + 0xE0, u / 0x40 % 0x40 + 0x80, u % 0x40 + 0x80]
  }

  function Encode(u: seq<u16>): seq<u8> {
    if u == [] then [] else EncodeUnit(u[0]) + Encode(u[1..])
  }

  /** The number of leading one bits, with none counted as one. */
  function LeadLength(b: u8): (n: nat)
    ensures 1 <= n <= 8
  {
    if b < 0xC0 then 1
    else if b < 0xE0 then 2
    else if b < 0xF0 then 3
    else if b < 0xF8 then 4
    else if b < 0xFC then 5
    else if b < 0xFE then 6
    else if b < 0xFF then 7
    else 8
  }

  /** The unit at the head of s, and the bytes it takes (none when malformed). */
  function DecodeHead(s: seq<u8>): (r: (u16, nat))
    ensures r.1 <= 3 && (r.1 == 0 ==> r.0 == 0)
    ensures r.0 != 0 ==> 0 < r.1 <= |s|
  {
    var b1, b2, b3 := At(s, 0), At(s, 1), At(s, 2);
    match LeadLength(b1)
    case 1 => (b1, 1)
    case 2 =>
      if b2 / 0x40 != 2 then (0, 0)
      else (b1 % 0x20 * 0x40 + b2 % 0x40, 2)
    case 3 =>
      if b2 / 0x40 != 2 || b3 / 0x40 != 2 then (0, 0)
      else (b1 % 0x10 * 0x1000 + b2 % 0x40 * 0x40 + b3 % 0x40, 3)
    case _ => (0, 0)
  }

  /** Every unit of s before the first terminator, overlong zero or malformed sequence. */
  function Units(s: seq<u8>): (u: seq<u16>)
    ensures 0 !in u && |u| <= |s|
  {
    var (unit, n) := DecodeHead(s);
    if unit == 0 then [] else [unit] + Units(s[n..])
  }

  lemma DecodeThreeBytes(u: u16)
    requires u > 0x7FF
    ensures var b1, b2, b3: int := u / 0x1000 % 0x10 + 0xE0, u / 0x40 % 0x40 + 0x80, u % 0x40 + 0x80;
            && 0xE0 <= b1 < 0xF0 && b2 / 0x40 == 2 && b3 / 0x40 == 2
            && b1 % 0x10 * 0x1000 + b2 % 0x40 * 0x40 + b3 % 0x40 == u
  {
  }

  /** Decoding undoes encoding for all three lengths. */
  lemma DecodeEncodeUnit(u: u16, rest: seq<u8>)
    requires u != 0
    ensures DecodeHead(EncodeUnit(u) + rest) == (u, |EncodeUnit(u)|)
  {
    var s := EncodeUnit(u) + rest;
    if u > 0x7FF {
      DecodeThreeBytes(u);
      assert At(s, 0) == EncodeUnit(u)[0] && At(s, 1) == EncodeUnit(u)[1] && At(s, 2) == EncodeUnit(u)[2];
    } else if u > 0x7F {
      assert At(s, 0) == EncodeUnit(u)[0] && At(s, 1) == EncodeUnit(u)[1];
    }
  }

  /** Encoding then decoding any string of non-zero units is the identity. */
  lemma {:induction false} UnitsOfEncode(u: seq<u16>)
    requires 0 !in u
    ensures Units(Encode(u)) == u
  {
    if u == [] {
      assert DecodeHead([]).0 == 0;
    } else {
      var head := EncodeUnit(u[0]);
      DecodeEncodeUnit(u[0], Encode(u[1..]));
      assert Encode(u)[|head|..] == Encode(u[1..]);
      UnitsOfEncode(u[1..]);
    }
  }

  /** A lead byte without its continuation bytes, or one of a sequence longer than three bytes. */
  predicate Malformed(s: seq<u8>) {
    s != [] && (s[0] >= 0xF0
                || (s[0] >= 0xC0 && (|s| < 2 || !(0x80 <= s[1] < 0xC0)))
                || (s[0] >= 0xE0 && (|s| < 3 || !(0x80 <= s[2] < 0xC0))))
  }

  /** A string is cut at its first malformed sequence, and at its first zero. */
  lemma {:induction false} CutAtMalformed(u: seq<u16>, s: seq<u8>)
    requires 0 !in u && (Malformed(s) || (s != [] && s[0] == 0))
    ensures Units(Encode(u) + s) == u
  {
    if u == [] {
      assert Encode(u) + s == s;
    } else {
      var head, rest := EncodeUnit(u[0]), Encode(u[1..]) + s;
      assert Encode(u) + s == head + rest;
      DecodeEncodeUnit(u[0], rest);
      assert (head + rest)[|head|..] == rest;
      CutAtMalformed(u[1..], s);
    }
  }

  lemma {:induction false} EncodeAppend(u: seq<u16>, v: seq<u16>)
    ensures Encode(u + v) == Encode(u) + Encode(v)
  {
    if u == [] {
      assert u + v == v;
    } else {
      assert (u + v)[1..] == u[1..] + v;
      EncodeAppend(u[1..], v);
    }
  }

  lemma {:induction false} EncodeHasNoZero(u: seq<u16>)
    requires 0 !in u
    ensures 0 !in Encode(u)
  {
    if u != [] {
      EncodeHasNoZero(u[1..]);
    }
  }

  /** The 8-bit left shift loop counts leading one bits. */
  method Utf8Size(c: u8) returns (count: nat)
    ensures count == LeadLength(c)
  {
    count := 0;
    var b: u8 := c;
    while b >= 0x80
      invariant count <= 8
      invariant count == 0 ==> b == c
      invariant count == 1 ==> c >= 0x80 && b == (c - 0x80) * 2
      invariant count == 2 ==> c >= 0xC0 && b == (c - 0xC0) * 4
      invariant count == 3 ==> c >= 0xE0 && b == (c - 0xE0) * 8
      invariant count == 4 ==> c >= 0xF0 && b == (c - 0xF0) * 16
      invariant count == 5 ==> c >= 0xF8 && b == (c - 0xF8) * 32
      invariant count == 6 ==> c >= 0xFC && b == (c - 0xFC) * 64
      invariant count == 7 ==> c >= 0xFE && b == (c - 0xFE) * 128
      invariant count == 8 ==> c == 0xFF && b == 0
      decreases 8 - count
    {
      b := b * 2 % 0x100;
      count := count + 1;
    }
    if count == 0 {
      count := 1;
    }
  }

  /** Two six-bit groups make the same number from a low byte and what is left above it. */
  lemma HighAndLow(x: int, y: int)
    requires x >= 0 && 0 <= y < 0x40
    ensures (x * 0x40 + y) % 0x100 + x / 4 * 0x100 == x * 0x40 + y
  {
    var q, r := x / 4, x % 4;
    assert x * 0x40 + y == q * 0x100 + (r * 0x40 + y) && 0 <= r * 0x40 + y < 0x100;
  }

  /** The code assembles a unit from its low byte and its high byte. */
  method Utf2Unicode(input: seq<u8>) returns (unit: u16, ofs: nat)
    ensures (unit, ofs) == DecodeHead(input)
  {
    ofs := 0;
    var utfsize := Utf8Size(At(input, 0));
    var b1: int, b2: int, b3: int := At(input, 0), At(input, 1), At(input, 2);
    if utfsize == 1 {
      return b1, 1;
    } else if utfsize == 2 {
      if b2 / 0x40 != 2 {
        return 0, 0;
      }
      var low := (b1 % 0x20 * 0x40 + b2 % 0x40) % 0x100;
      HighAndLow(b1 % 0x20, b2 % 0x40);
      return low + b1 % 0x20 / 4 * 0x100, 2;
    } else if utfsize == 3 {
      if b2 / 0x40 != 2 || b3 / 0x40 != 2 {
        return 0, 0;
      }
      var low := (b2 % 0x40 * 0x40 + b3 % 0x40) % 0x100;
      HighAndLow(b2 % 0x40, b3 % 0x40);
      return low + (b1 % 0x10 * 0x10 + b2 % 0x40 / 4) * 0x100, 3;
    } else {
      return 0, 0;
    }
  }

  /** What goes on the wire for a name: at most 254 units and one zero unit. */
  function WireUnits(s: seq<u8>): (w: seq<u16>)
    ensures 1 <= |w| <= 255
  {
    var u := Units(s);
    (if |u| > 254 then u[..254] else u) + [0]
  }

  /** The bytes of a plain string are its units. */
  ghost predicate Plain(s: seq<u8>) {
    forall i :: 0 <= i < |s| ==> 0 < s[i] < 0x80
  }

  lemma {:induction false} UnitsOfPlain(s: seq<u8>)
    requires Plain(s)
    ensures Units(s) == s
  {
    if s != [] {
      assert s[0] == At(s, 0);
      UnitsOfPlain(s[1..]);
    }
  }

  /** The only zero unit of a wire name is the last one. */
  lemma WireUnitsTerminated(s: seq<u8>)
    ensures var w := WireUnits(s); w[|w| - 1] == 0 && forall i :: 0 <= i < |w| - 1 ==> w[i] != 0
  {
    var u := Units(s);
    assert forall i :: 0 <= i < |u| ==> u[i] in u;
  }

  /** The two buffers differ only between lo and hi. */
  ghost predicate SameOutside(before: seq<u8>, after: seq<u8>, lo: int, hi: int) {
    |after| == |before| && forall i :: 0 <= i < |before| && (i < lo || i >= hi) ==> after[i] == before[i]
  }

  /** Writes the wire units of str at index, or reports -1 having touched only the
      bytes between index and maxsize. The code's one caller passes a limit of 255 units. */
  method Char2UnicodeString(buf: array<u8>, index: nat, maxsize: int, str: seq<u8>) returns (len: int)
    requires maxsize <= buf.Length
    modifies buf
    ensures len >= 0 <==> index + 2 * |WireUnits(str)| < maxsize
    ensures len >= 0 ==> len == |WireUnits(str)| && index + 2 * len <= buf.Length
    ensures len >= 0 ==> buf[..] == Splice(old(buf[..]), index, LE16s(WireUnits(str)))
    ensures len < 0 ==> len == -1 && SameOutside(old(buf[..]), buf[..], index, maxsize)
  {
    ghost var before := buf[..];
    ghost var all := Units(str) + [0];
    var size;
    len, size := PushUnits(buf, index, maxsize, str);
    if len >= 0 {
      if size >= 255 * 2 {
        if index + (255 * 2 - 2) >= maxsize {
          return -1;
        }
        Put16(buf, index + (255 * 2 - 2), 0);
        len := 255;
        LastUnitZeroed(before, index, all);
        assert WireUnits(str) == all[..254] + [0];
      } else {
        assert all[..len] == all == WireUnits(str);
      }
    }
  }

  /** The conversion loop: at most 255 units, the terminating zero included. */
  method PushUnits(buf: array<u8>, index: nat, maxsize: int, str: seq<u8>) returns (len: int, size: nat)
    requires maxsize <= buf.Length
    modifies buf
    ensures len >= 0 ==> len == |WireUnits(str)| && size == 2 * len && index + size < maxsize
    ensures len >= 0 ==> buf[..] == Splice(old(buf[..]), index, LE16s((Units(str) + [0])[..len]))
    ensures len < 0 ==> len == -1 && index + 2 * |WireUnits(str)| >= maxsize
    ensures len < 0 ==> SameOutside(old(buf[..]), buf[..], index, maxsize)
  {
    ghost var before := buf[..];
    ghost var all := Units(str) + [0];
    var rest, pos, more := str, index, true;
    len, size := 0, 0;
    while more
      invariant 0 <= len <= |all| && len <= 255 && size == 2 * len && pos == index + size
      invariant more ==> len < 255 && len < |all| && all[len..] == Units(rest) + [0]
      invariant !more ==> len == |all| || len == 255
      invariant if len == 0 then more else pos < maxsize
      invariant Pushed(before, buf[..], index, all, len)
      decreases 255 - len, more
    {
      var unit, ofs := Utf2Unicode(rest);
      HeadOfUnits(all, len, rest);
      rest := if ofs <= |rest| then rest[ofs..] else [];
      if pos + 2 >= maxsize {
        return -1, size;
      }
      PutUnit(buf, before, index, all, len, unit);
      pos := pos + 2;
      size := size + 2;
      len := len + 1;
      more := unit != 0 && ofs != 0 && size < 255 * 2;
    }
  }

  /** The first len units lie in the buffer from index on. */
  ghost predicate Pushed(before: seq<u8>, after: seq<u8>, index: nat, all: seq<u16>, len: nat) {
    if len == 0 then after == before
    else len <= |all| && index + 2 * len <= |before| && after == Splice(before, index, LE16s(all[..len]))
  }

  /** Unit number len goes behind the units before it. */
  method PutUnit(buf: array<u8>, ghost before: seq<u8>, index: nat, ghost all: seq<u16>, len: nat, unit: u16)
    requires len < |all| && unit == all[len] && index + 2 * len + 2 <= buf.Length == |before|
    requires Pushed(before, buf[..], index, all, len)
    modifies buf
    ensures Pushed(before, buf[..], index, all, len + 1)
  {
    Put16(buf, index + 2 * len, unit);
    LE16sSnoc(all, len);
    if len > 0 {
      SpliceAppend(before, index, LE16s(all[..len]), LE16(unit));
    }
  }

  method Put16(buf: array<u8>, pos: nat, v: u16)
    requires pos + 2 <= buf.Length
    modifies buf
    ensures buf[..] == Splice(old(buf[..]), pos, LE16(v))
  {
    buf[pos] := v % 0x100;
    buf[pos + 1] := v / 0x100 % 0x100;
  }

  lemma HeadOfUnits(all: seq<u16>, len: nat, rest: seq<u8>)
    requires len < |all| && all[len..] == Units(rest) + [0]
    ensures all[len] == DecodeHead(rest).0
    ensures all[len] != 0 ==> len + 1 < |all| && all[len + 1..] == Units(rest[DecodeHead(rest).1..]) + [0]
    ensures all[len] == 0 ==> len + 1 == |all|
  {
    assert all[len..][0] == all[len];
    assert all[len + 1..] == all[len..][1..];
  }

  lemma LE16sSnoc(u: seq<u16>, i: nat)
    requires i < |u|
    ensures LE16s(u[..i + 1]) == LE16s(u[..i]) + LE16(u[i])
    ensures i == 0 ==> LE16s(u[..1]) == LE16(u[0])
  {
    LE16sAppend(u[..i], [u[i]]);
    assert u[..i + 1] == u[..i] + [u[i]];
    assert LE16s([u[i]]) == LE16(u[i]) + LE16s([u[i]][1..]);
  }

  /** Writing zero over the 255th unit leaves the first 254 units and a terminator. */
  lemma LastUnitZeroed(before: seq<u8>, index: nat, all: seq<u16>)
    requires |all| >= 255 && index + 510 <= |before|
    ensures Splice(Splice(before, index, LE16s(all[..255])), index + 508, LE16(0))
         == Splice(before, index, LE16s(all[..254] + [0]))
  {
    LE16sSnoc(all, 254);
    LE16sSnoc(all[..254] + [0], 254);
    assert (all[..254] + [0])[..254] == all[..254] && (all[..254] + [0])[..255] == all[..254] + [0];
    SpliceAppend(before, index, LE16s(all[..254]), LE16(all[254]));
    SpliceAppend(before, index, LE16s(all[..254]), LE16(0));
    var s := Splice(before, index, LE16s(all[..254]));
    assert Splice(Splice(s, index + 508, LE16(all[254])), index + 508, LE16(0)) == Splice(s, index + 508, LE16(0));
  }

  /** Units before the first zero. */
  function UntilZero(u: seq<u16>): (v: seq<u16>)
    ensures 0 !in v && v <= u
    ensures 0 in u ==> |v| < |u| && u[|v|] == 0
    ensures 0 !in u ==> v == u
  {
    if u == [] || u[0] == 0 then [] else [u[0]] + UntilZero(u[1..])
  }

  lemma {:induction false} UntilZeroTerminated(u: seq<u16>, rest: seq<u16>)
    requires 0 !in u && rest != [] && rest[0] == 0
    ensures UntilZero(u + rest) == u
  {
    if u == [] {
      assert u + rest == rest;
    } else {
      assert u[0] in u && (u + rest)[1..] == u[1..] + rest;
      UntilZeroTerminated(u[1..], rest);
    }
  }

  /** How many leading units encode into fewer than room bytes. */
  function FitCount(u: seq<u16>, room: int): (n: nat)
    ensures n <= |u|
  {
    if u == [] || |EncodeUnit(u[0])| >= room then 0
    else 1 + FitCount(u[1..], room - |EncodeUnit(u[0])|)
  }

  /** The prefix that fits is the longest one: it fits, and every longer prefix does not. */
  lemma {:induction false} FitCountIsLongest(u: seq<u16>, room: int, n: nat)
    requires n <= |u| && room > 0
    ensures n <= FitCount(u, room) <==> |Encode(u[..n])| < room
  {
    if n > 0 {
      assert u[..n][1..] == u[1..][..n - 1];
      if |EncodeUnit(u[0])| < room {
        FitCountIsLongest(u[1..], room - |EncodeUnit(u[0])|, n - 1);
      }
    }
  }

  /** The stored name is the encoding of the longest unit prefix that fits with its
      terminator; the result tells whether anything was cut. */
  method Unicode2CharString(str: array<u8>, unicode: seq<u16>, maxstrsize: int) returns (ret: int)
    requires 0 in unicode
    requires 1 <= maxstrsize <= str.Length
    modifies str
    ensures var u := UntilZero(unicode); var n := FitCount(u, maxstrsize);
            && |Encode(u[..n])| < maxstrsize
            && str[..|Encode(u[..n])|] == Encode(u[..n])
            && str[|Encode(u[..n])|] == 0
            && (ret == 1 <==> n < |u|)
            && (ret == 0 <==> n == |u|)
    ensures forall i :: maxstrsize <= i < str.Length ==> str[i] == old(str[i])
  {
    ghost var u := UntilZero(unicode);
    var i, k := 0, 0;
    ret := 0;
    while unicode[k] != 0
      invariant 0 <= k <= |u|
      invariant 0 <= i < maxstrsize && i == |Encode(u[..k])|
      invariant str[..i] == Encode(u[..k])
      invariant forall j :: maxstrsize <= j < str.Length ==> str[j] == old(str[j])
      decreases |u| - k
    {
      var chunk := EncodeUnit(unicode[k]);
      EncodeSnoc(u, k);
      if i + |chunk| < maxstrsize {
        CopyChunk(str, i, chunk);
        i := i + |chunk|;
        k := k + 1;
      } else {
        str[maxstrsize - 1] := 0;
        ret := 1;
        break;
      }
    }
    StoppedAt(u, maxstrsize, k);
    str[i] := 0;
  }

  lemma StoppedAt(u: seq<u16>, max: int, k: nat)
    requires k <= |u| && |Encode(u[..k])| < max && (k < |u| ==> |Encode(u[..k + 1])| >= max)
    ensures FitCount(u, max) == k
  {
    FitCountIsLongest(u, max, k);
    if k < |u| {
      FitCountIsLongest(u, max, k + 1);
    }
  }

  lemma EncodeSnoc(u: seq<u16>, k: nat)
    requires k < |u|
    ensures Encode(u[..k + 1]) == Encode(u[..k]) + EncodeUnit(u[k])
  {
    assert u[..k + 1] == u[..k] + [u[k]];
    EncodeAppend(u[..k], [u[k]]);
    assert Encode([u[k]]) == EncodeUnit(u[k]) + Encode([u[k]][1..]);
  }

  method CopyChunk(str: array<u8>, start: nat, chunk: seq<u8>)
    requires start + |chunk| <= str.Length
    modifies str
    ensures str[..start + |chunk|] == old(str[..start]) + chunk
    ensures forall x :: start + |chunk| <= x < str.Length ==> str[x] == old(str[x])
  {
    var i, j := start, 0;
    while j < |chunk|
      invariant 0 <= j <= |chunk| && i == start + j
      invariant str[..i] == old(str[..start]) + chunk[..j]
      invariant forall x :: i <= x < str.Length ==> str[x] == old(str[x])
    {
      str[i] := chunk[j];
      i := i + 1;
      j := j + 1;
    }
  }
}
