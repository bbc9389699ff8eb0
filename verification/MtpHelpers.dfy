/** The bounded writers and the readers of MTP fields (src/mtp_helpers.c). */
module MtpHelpers {
  import opened Bytes
  import opened UsbString

  /** The contract every writer keeps. An error index goes through unchanged; a write that
      would end at or beyond maxsize returns -1 and touches nothing outside [index, maxsize);
      any other write puts exactly its encoding at index and returns the index after it. */
  ghost predicate Wrote(before: seq<u8>, index: int, maxsize: int, enc: seq<u8>, after: seq<u8>, r: int) {
    if index < 0 then r == index && after == before
    else if index + |enc| < maxsize then
      index + |enc| <= |before| && r == index + |enc| && after == Splice(before, index, enc)
    else r == -1 && SameOutside(before, after, index, maxsize)
  }

  /** Two writes in a row are one write of both encodings. */
  lemma WroteCompose(b0: seq<u8>, i0: int, b1: seq<u8>, i1: int, b2: seq<u8>, i2: int,
                     maxsize: int, x: seq<u8>, y: seq<u8>)
    requires Wrote(b0, i0, maxsize, x, b1, i1) && Wrote(b1, i1, maxsize, y, b2, i2)
    ensures Wrote(b0, i0, maxsize, x + y, b2, i2)
  {
    if i0 >= 0 && i0 + |x| < maxsize {
      if i0 + |x| + |y| < maxsize {
        SpliceAppend(b0, i0, x, y);
      } else {
        SpliceOutside(b0, i0, x);
      }
    }
  }

  lemma SpliceOutside(b: seq<u8>, i: nat, x: seq<u8>)
    requires i + |x| <= |b|
    ensures SameOutside(b, Splice(b, i, x), i, i + |x|)
  {
  }

  function Concat(encs: seq<seq<u8>>): seq<u8> {
    if encs == [] then [] else encs[0] + Concat(encs[1..])
  }

  /** One state of the buffer and the running index between two writer calls. */
  datatype Cursor = Cursor(buffer: seq<u8>, index: int)

  /** Every call of the trace kept the writer contract, each from where the last one ended. */
  ghost predicate WriterTrace(states: seq<Cursor>, maxsize: int, encs: seq<seq<u8>>) {
    && |states| == |encs| + 1
    && forall i :: 0 <= i < |encs| ==>
         Wrote(states[i].buffer, states[i].index, maxsize, encs[i], states[i + 1].buffer, states[i + 1].index)
  }

  /** The writer law: any sequence of calls is one write of the concatenated encodings. In
      particular the last index is non-negative exactly when the total ends below maxsize,
      and one failure makes every later index negative. */
  lemma {:induction false} WriterLaw(states: seq<Cursor>, maxsize: int, encs: seq<seq<u8>>)
    requires encs != [] && WriterTrace(states, maxsize, encs)
    ensures var first, last := states[0], states[|encs|];
            && Wrote(first.buffer, first.index, maxsize, Concat(encs), last.buffer, last.index)
            && (first.index >= 0 ==> (last.index >= 0 <==> first.index + |Concat(encs)| < maxsize))
            && (forall i, j :: 0 <= i <= j <= |encs| && states[i].index < 0 ==> states[j].index < 0)
  {
    var s0, s1 := states[0], states[1];
    if |encs| == 1 {
      assert Concat(encs[1..]) == [] && Concat(encs) == encs[0];
    } else {
      WriterLaw(states[1..], maxsize, encs[1..]);
      var last := states[|encs|];
      WroteCompose(s0.buffer, s0.index, s1.buffer, s1.index, last.buffer, last.index, maxsize, encs[0], Concat(encs[1..]));
    }
    FailureSticks(states, maxsize, encs);
  }

  lemma {:induction false} FailureSticks(states: seq<Cursor>, maxsize: int, encs: seq<seq<u8>>)
    requires WriterTrace(states, maxsize, encs)
    ensures forall i, j :: 0 <= i <= j <= |encs| && states[i].index < 0 ==> states[j].index < 0
  {
    forall i, j | 0 <= i <= j <= |encs| && states[i].index < 0
      ensures states[j].index < 0
    {
      var k := i;
      while k < j
        invariant i <= k <= j && states[k].index < 0
      {
        assert Wrote(states[k].buffer, states[k].index, maxsize, encs[k], states[k + 1].buffer, states[k + 1].index);
        k := k + 1;
      }
    }
  }

  method Poke08(buffer: array<u8>, index: int, maxsize: int, data: int) returns (r: int)
    requires maxsize <= buffer.Length
    modifies buffer
    ensures Wrote(old(buffer[..]), index, maxsize, [data % 0x100], buffer[..], r)
  {
    if index < 0 {
      return index;
    }
    if index + 1 >= maxsize {
      return -1;
    }
    buffer[index] := data % 0x100;
    return index + 1;
  }

  method Poke16(buffer: array<u8>, index: int, maxsize: int, data: int) returns (r: int)
    requires maxsize <= buffer.Length
    modifies buffer
    ensures Wrote(old(buffer[..]), index, maxsize, LE16(data), buffer[..], r)
  {
    if index < 0 {
      return index;
    }
    if index + 2 >= maxsize {
      return -1;
    }
    buffer[index] := data % 0x100;
    buffer[index + 1] := data / 0x100 % 0x100;
    return index + 2;
  }

  method Poke32(buffer: array<u8>, index: int, maxsize: int, data: int) returns (r: int)
    requires maxsize <= buffer.Length
    modifies buffer
    ensures Wrote(old(buffer[..]), index, maxsize, LE32(data), buffer[..], r)
  {
    if index < 0 {
      return index;
    }
    if index + 4 >= maxsize {
      return -1;
    }
    buffer[index] := data % 0x100;
    buffer[index + 1] := data / 0x100 % 0x100;
    buffer[index + 2] := data / 0x1_0000 % 0x100;
    buffer[index + 3] := data / 0x100_0000 % 0x100;
    return index + 4;
  }

  /** An MTP string: the unit count with the terminator, then the units. The empty string
      is a lone zero count (section 3.2.3 of the MTP specification 1.1). */
  function EncodeString(str: seq<u8>): (s: seq<u8>)
    ensures 1 <= |s| <= 511
  {
    if At(str, 0) == 0 then [0] else [|WireUnits(str)|] + LE16s(WireUnits(str))
  }

  method PokeString(buffer: array<u8>, index: int, maxsize: int, str: seq<u8>) returns (r: int)
    requires maxsize <= buffer.Length
    modifies buffer
    ensures Wrote(old(buffer[..]), index, maxsize, EncodeString(str), buffer[..], r)
  {
    if index < 0 {
      return index;
    }
    if index + 1 >= maxsize {
      return -1;
    }
    var sizeposition := index;
    buffer[index] := 0;
    if At(str, 0) == 0 {
      return index + 1;
    }
    ghost var reserved := buffer[..];
    assert reserved == Splice(old(buffer[..]), index, [0]);
    var len := Char2UnicodeString(buffer, index + 1, maxsize, str);
    if len < 0 {
      SpliceOutside(old(buffer[..]), index, [0]);
      return -1;
    }
    ghost var filled := buffer[..];
    buffer[sizeposition] := len;
    assert buffer[..] == filled[index := len as u8];
    CountFilledIn(old(buffer[..]), index, LE16s(WireUnits(str)), len);
    r := index + 1 + len * 2;
  }

  /** The reserved count byte is the head of the string once it is filled in. */
  lemma CountFilledIn(b: seq<u8>, index: nat, units: seq<u8>, len: u8)
    requires index + 1 + |units| <= |b|
    ensures Splice(Splice(b, index, [0]), index + 1, units)[index := len] == Splice(b, index, [len] + units)
  {
    SpliceAppend(b, index, [0], units);
    assert Splice(b, index, [0] + units)[index := len] == Splice(b, index, [len] + units);
  }

  /** An MTP array (section 3.2.2 of the MTP specification 1.1), or raw bytes without a count. */
  function EncodeArray(input: seq<u8>, elementsize: int, prefixed: bool): seq<u8>
    requires elementsize > 0
  {
    (if prefixed then LE32(|input| / elementsize) else []) + input
  }

  /** A host reads the number of whole elements, then the bytes; without a count, the bytes alone. */
  lemma ArrayRoundTrip(input: seq<u8>, elementsize: int, n: nat, tail: seq<u8>)
    requires elementsize > 0 && elementsize * n <= |input| < elementsize * (n + 1) && n < 0x1_0000_0000
    ensures var d := EncodeArray(input, elementsize, true) + tail;
            |d| >= 4 + |input| && FromLE(d[..4]) == n && d[4..4 + |input|] == input && d[4 + |input|..] == tail
    ensures EncodeArray(input, elementsize, false) == input
  {
    Quotient(|input|, elementsize, n);
    FromLE32(n);
    var d := LE32(n) + input + tail;
    assert d[..4] == LE32(n) && d[4..4 + |input|] == input;
    assert [] + input == input;
  }

  lemma Quotient(a: int, e: int, n: int)
    requires e > 0 && e * n <= a < e * (n + 1)
    ensures a / e == n
  {
    var q := a / e;
    assert e * q <= a < e * q + e;
    NotGreater(e, q, n);
    NotGreater(e, n, q);
  }

  lemma NotGreater(e: int, x: int, y: int)
    requires e > 0 && e * x < e * (y + 1)
    ensures x <= y
  {
    assert e * (x - y - 1) == e * x - e * (y + 1);
  }

  method PokeArray(buffer: array<u8>, index: int, maxsize: int, elementsize: int, input: seq<u8>, prefixed: bool)
    returns (r: int)
    requires maxsize <= buffer.Length && elementsize > 0
    modifies buffer
    ensures Wrote(old(buffer[..]), index, maxsize, EncodeArray(input, elementsize, prefixed), buffer[..], r)
  {
    if index < 0 {
      return index;
    }
    var prefixSize := if prefixed then 4 else 0;
    if index + (|input| + prefixSize) >= maxsize {
      return -1;
    }
    ghost var before := buffer[..];
    var nbelement := |input| / elementsize;
    r := index;
    if prefixed {
      buffer[r] := nbelement % 0x100;
      buffer[r + 1] := nbelement / 0x100 % 0x100;
      buffer[r + 2] := nbelement / 0x1_0000 % 0x100;
      buffer[r + 3] := nbelement / 0x100_0000 % 0x100;
      assert buffer[..] == Splice(before, index, LE32(nbelement));
      r := r + 4;
    }
    CopyElements(buffer, r, input);
    if prefixed {
      SpliceAppend(before, index, LE32(nbelement), input);
    } else {
      assert [] + input == input;
    }
    r := r + |input|;
  }

  method CopyElements(buffer: array<u8>, start: nat, input: seq<u8>)
    requires start + |input| <= buffer.Length
    modifies buffer
    ensures buffer[..] == Splice(old(buffer[..]), start, input)
  {
    var i, index := 0, start;
    while i < |input|
      invariant 0 <= i <= |input| && index == start + i
      invariant forall k :: 0 <= k < buffer.Length ==>
        buffer[k] == if start <= k < index then input[k - start] else old(buffer[k])
    {
      buffer[index] := input[i];
      index := index + 1;
      i := i + 1;
    }
  }

  /** A little-endian read of one to eight bytes. */
  method Peek(buffer: array<u8>, index: nat, typesize: nat) returns (data: nat)
    requires 1 <= typesize && index + typesize <= buffer.Length
    ensures data == FromLE(buffer[index..index + typesize]) < Pow256(typesize)
  {
    var shift: int, i := 1, 0;
    data := 0;
    while i < typesize
      invariant 0 <= i <= typesize && shift == Pow256(i)
      invariant data == FromLE(buffer[index..index + i])
    {
      FromLEAppend(buffer[index..index + i], buffer[index + i]);
      assert buffer[index..index + i + 1] == buffer[index..index + i] + [buffer[index + i]];
      data := data + buffer[index + i] * shift;
      shift := shift * 0x100;
      i := i + 1;
    }
    FromLEBound(buffer[index..index + typesize]);
  }

  /** A string is written like one of 1 to 253 units exactly when it has the same units. */
  lemma EncodedAlike(s: seq<u8>, t: seq<u8>)
    requires 1 <= |Units(t)| <= 253
    ensures EncodeString(s) == EncodeString(t) <==> Units(s) == Units(t)
  {
    var w, x := WireUnits(s), WireUnits(t);
    if EncodeString(s) == EncodeString(t) {
      assert EncodeString(s)[1..] == LE16s(w) && EncodeString(t)[1..] == LE16s(x);
      LE16sInjective(w, x);
      assert |Units(s)| <= 254;
      assert Units(s) == w[..|w| - 1] && Units(t) == x[..|x| - 1];
    }
  }

  /** For plain strings that is equality. */
  lemma PlainAlike(s: seq<u8>, t: seq<u8>)
    requires Plain(t) && 1 <= |t| <= 253
    ensures EncodeString(s) == EncodeString(t) <==> Units(s) == t
    ensures Plain(s) ==> Units(s) == s
  {
    UnitsOfPlain(t);
    EncodedAlike(s, t);
    if Plain(s) {
      UnitsOfPlain(s);
    }
  }

  lemma EncodeStringOfUnits(u: seq<u16>)
    requires 1 <= |u| <= 254 && 0 !in u
    ensures EncodeString(Encode(u)) == [|u| + 1] + LE16s(u + [0])
  {
    UnitsOfEncode(u);
    EncodeHasNoZero(u);
    assert Encode(u)[0] in Encode(u);
  }

  /** A name survives the wire: units whose UTF-8 fits the name buffer are stored by
      Unicode2CharString as this prefix, and writing that name back gives the count with the
      terminator, the same units and one zero unit. */
  lemma NameRoundTrip(u: seq<u16>, maxstrsize: int)
    requires 1 <= |u| <= 254 && 0 !in u && |Encode(u)| < maxstrsize
    ensures UntilZero(u + [0]) == u && FitCount(u, maxstrsize) == |u|
    ensures EncodeString(Encode(u[..FitCount(u, maxstrsize)])) == [|u| + 1] + (LE16s(u) + [0, 0])
  {
    UntilZeroTerminated(u, [0]);
    assert u[..|u|] == u;
    FitCountIsLongest(u, maxstrsize, |u|);
    EncodeStringOfUnits(u);
    LE16sAppend(u, [0]);
    LE16sSnoc([0], 0);
  }
}
