/** The event and ObjectInfo datasets as sequences of writer calls (src/mtp_datasets.c),
    and the ObjectInfo field extraction of the receiving side (src/mtp.c). */
module MtpDatasets {
  import opened Bytes
  import opened UsbString
  import opened MtpHelpers
  import opened HashUtils

  const MTP_CONTAINER_TYPE_EVENT := 4
  const MTP_FORMAT_UNDEFINED := 0x3000
  const MTP_FORMAT_ASSOCIATION := 0x3001
  const MTP_ASSOCIATION_TYPE_GENERIC_FOLDER := 0x0001
  const MAX_NAME_BUFFER := 257

  function LE32s(v: seq<u32>): (s: seq<u8>)
    ensures |s| == 4 * |v|
  {
    if v == [] then [] else LE32s(v[..|v| - 1]) + LE32(v[|v| - 1])
  }

  /** An event container: its own length, type, code, session and parameters. */
  function EncodeEvent(length: int, event: int, session: u32, parameters: seq<u32>): (s: seq<u8>)
    ensures |s| == 12 + 4 * |parameters|
  {
    LE32(length) + LE16(MTP_CONTAINER_TYPE_EVENT) + LE16(event) + LE32(session) + LE32s(parameters)
  }

  /** The event container is built whole, with its own length in its first field, exactly
      when it ends below maxsize; the session is the one of the context. */
  method BuildEventDataset(buffer: array<u8>, maxsize: int, event: int, session_id: u32, parameters: seq<u32>)
    returns (ofs: int)
    requires maxsize <= buffer.Length
    modifies buffer
    ensures ofs >= 0 <==> 12 + 4 * |parameters| < maxsize
    ensures ofs >= 0 ==> ofs == 12 + 4 * |parameters|
    ensures ofs >= 0 ==> buffer[..] == Splice(old(buffer[..]), 0, EncodeEvent(ofs, event, session_id, parameters))
    ensures ofs < 0 ==> SameOutside(old(buffer[..]), buffer[..], 0, maxsize)
  {
    ghost var before := buffer[..];
    ghost var enc := LE32(0);
    ofs := Poke32(buffer, 0, maxsize, 0);
    ofs, enc := Then16(buffer, ofs, maxsize, MTP_CONTAINER_TYPE_EVENT, before, enc);
    ofs, enc := Then16(buffer, ofs, maxsize, event, before, enc);
    ofs, enc := Then32(buffer, ofs, maxsize, session_id, before, enc);
    ghost var fixed := enc;
    var i := 0;
    assert fixed + LE32s(parameters[..0]) == fixed;
    while i < |parameters|
      invariant 0 <= i <= |parameters|
      invariant Wrote(before, 0, maxsize, fixed + LE32s(parameters[..i]), buffer[..], ofs)
    {
      enc := fixed + LE32s(parameters[..i]);
      ofs, enc := Then32(buffer, ofs, maxsize, parameters[i], before, enc);
      assert parameters[..i + 1][..i] == parameters[..i];
      assert enc == fixed + LE32s(parameters[..i + 1]);
      i := i + 1;
    }
    assert parameters[..i] == parameters;
    if ofs >= 0 {
      var _ := Poke32(buffer, 0, maxsize, ofs);
      LengthFilledIn(before, ofs, event, session_id, parameters);
    }
  }

  /** What a host reads in an event container: its length, type 4, code, session and parameters. */
  lemma EventRoundTrip(length: u32, event: u16, session: u32, parameters: seq<u32>, i: nat)
    ensures var d := EncodeEvent(length, event, session, parameters);
      && FromLE(d[0..4]) == length && FromLE(d[4..6]) == 4 && FromLE(d[6..8]) == event && FromLE(d[8..12]) == session
      && |d| == 12 + 4 * |parameters|
      && (i < |parameters| ==> FromLE(d[12 + 4 * i..16 + 4 * i]) == parameters[i])
  {
    EventHead(length, MTP_CONTAINER_TYPE_EVENT, event, session, LE32s(parameters));
    if i < |parameters| {
      ParameterAt(parameters, i);
      EventTail(LE32(length) + LE16(MTP_CONTAINER_TYPE_EVENT) + LE16(event) + LE32(session), LE32s(parameters), i);
    }
  }

  lemma EventHead(length: u32, kind: u16, event: u16, session: u32, parameters: seq<u8>)
    ensures var d := LE32(length) + LE16(kind) + LE16(event) + LE32(session) + parameters;
            FromLE(d[0..4]) == length && FromLE(d[4..6]) == kind && FromLE(d[6..8]) == event && FromLE(d[8..12]) == session
  {
    var a, b, c, e := LE32(length), LE16(kind), LE16(event), LE32(session);
    var d := a + b + c + e + parameters;
    assert d == a + (b + (c + (e + parameters)));
    NextPart(d, a, b, c + (e + parameters));
    NextPart(d, a + b, c, e + parameters);
    NextPart(d, a + b + c, e, parameters);
    Value32(d, 0, length);
    Value16(d, 4, kind);
    Value16(d, 6, event);
    Value32(d, 8, session);
  }

  lemma Value16(d: seq<u8>, lo: nat, v: u16)
    requires lo + 2 <= |d| && d[lo..lo + 2] == LE16(v)
    ensures FromLE(d[lo..lo + 2]) == v
  {
    FromLE16(v);
  }

  lemma Value32(d: seq<u8>, lo: nat, v: u32)
    requires lo + 4 <= |d| && d[lo..lo + 4] == LE32(v)
    ensures FromLE(d[lo..lo + 4]) == v
  {
    FromLE32(v);
  }

  lemma EventTail(head: seq<u8>, parameters: seq<u8>, i: nat)
    requires |head| == 12 && 4 * i + 4 <= |parameters|
    ensures (head + parameters)[12 + 4 * i..16 + 4 * i] == parameters[4 * i..4 * i + 4]
  {
  }

  lemma {:induction false} ParameterAt(v: seq<u32>, i: nat)
    requires i < |v|
    ensures FromLE(LE32s(v)[4 * i..4 * i + 4]) == v[i]
  {
    var n := |v| - 1;
    if i == n {
      assert LE32s(v)[4 * i..4 * i + 4] == LE32(v[n]);
      FromLE32(v[n]);
    } else {
      ParameterAt(v[..n], i);
      assert LE32s(v)[4 * i..4 * i + 4] == LE32s(v[..n])[4 * i..4 * i + 4];
    }
  }

  lemma LengthFilledIn(b: seq<u8>, length: int, event: int, session: u32, parameters: seq<u32>)
    requires 12 + 4 * |parameters| <= |b|
    ensures Splice(Splice(b, 0, EncodeEvent(0, event, session, parameters)), 0, LE32(length))
         == Splice(b, 0, EncodeEvent(length, event, session, parameters))
  {
    var rest := EncodeEvent(0, event, session, parameters)[4..];
    Overwritten(b, LE32(0), LE32(length), rest);
    assert EncodeEvent(0, event, session, parameters) == LE32(0) + rest;
    assert EncodeEvent(length, event, session, parameters) == LE32(length) + rest;
  }

  lemma Overwritten(b: seq<u8>, x: seq<u8>, y: seq<u8>, rest: seq<u8>)
    requires |x| == |y| && |x| + |rest| <= |b|
    ensures Splice(Splice(b, 0, x + rest), 0, y) == Splice(b, 0, y + rest)
  {
  }

  // One more field after the fields already written since `before`.

  method Then08(buffer: array<u8>, ofs: int, maxsize: int, data: int, ghost before: seq<u8>, ghost enc: seq<u8>)
    returns (r: int, ghost more: seq<u8>)
    requires maxsize <= buffer.Length && Wrote(before, 0, maxsize, enc, buffer[..], ofs)
    modifies buffer
    ensures more == enc + [data % 0x100] && Wrote(before, 0, maxsize, more, buffer[..], r)
  {
    ghost var mid := buffer[..];
    r := Poke08(buffer, ofs, maxsize, data);
    more := enc + [data % 0x100];
    WroteCompose(before, 0, mid, ofs, buffer[..], r, maxsize, enc, [data % 0x100]);
  }

  method Then16(buffer: array<u8>, ofs: int, maxsize: int, data: int, ghost before: seq<u8>, ghost enc: seq<u8>)
    returns (r: int, ghost more: seq<u8>)
    requires maxsize <= buffer.Length && Wrote(before, 0, maxsize, enc, buffer[..], ofs)
    modifies buffer
    ensures more == enc + LE16(data) && Wrote(before, 0, maxsize, more, buffer[..], r)
  {
    ghost var mid := buffer[..];
    r := Poke16(buffer, ofs, maxsize, data);
    more := enc + LE16(data);
    WroteCompose(before, 0, mid, ofs, buffer[..], r, maxsize, enc, LE16(data));
  }

  method Then32(buffer: array<u8>, ofs: int, maxsize: int, data: int, ghost before: seq<u8>, ghost enc: seq<u8>)
    returns (r: int, ghost more: seq<u8>)
    requires maxsize <= buffer.Length && Wrote(before, 0, maxsize, enc, buffer[..], ofs)
    modifies buffer
    ensures more == enc + LE32(data) && Wrote(before, 0, maxsize, more, buffer[..], r)
  {
    ghost var mid := buffer[..];
    r := Poke32(buffer, ofs, maxsize, data);
    more := enc + LE32(data);
    WroteCompose(before, 0, mid, ofs, buffer[..], r, maxsize, enc, LE32(data));
  }

  method ThenString(buffer: array<u8>, ofs: int, maxsize: int, str: seq<u8>, ghost before: seq<u8>, ghost enc: seq<u8>)
    returns (r: int, ghost more: seq<u8>)
    requires maxsize <= buffer.Length && Wrote(before, 0, maxsize, enc, buffer[..], ofs)
    modifies buffer
    ensures more == enc + EncodeString(str) && Wrote(before, 0, maxsize, more, buffer[..], r)
  {
    ghost var mid := buffer[..];
    r := PokeString(buffer, ofs, maxsize, str);
    more := enc + EncodeString(str);
    WroteCompose(before, 0, mid, ofs, buffer[..], r, maxsize, enc, EncodeString(str));
  }

  /** What the ObjectInfo builder reads of an entry, its stat result and its date strings. */
  datatype ObjectInfo = ObjectInfo(storageId: u32, isDir: bool, size: nat, parent: u32, name: seq<u8>,
                                   created: seq<u8>, modified: seq<u8>)
  {
    function Format(): u16 {
      if isDir then MTP_FORMAT_ASSOCIATION else MTP_FORMAT_UNDEFINED
    }

    function AssociationType(): u16 {
      if isDir then MTP_ASSOCIATION_TYPE_GENERIC_FOLDER else 0
    }

    /** The size field is 32 bits wide and saturates. */
    function CompressedSize(): u32 {
      if size >= 0x1_0000_0000 then 0xFFFF_FFFF else size
    }
  }

  /** The fields before the file name (section 5.3.1 of the MTP specification 1.1). */
  function EncodeFixed(o: ObjectInfo): (s: seq<u8>)
    ensures |s| == 0x34
  {
    LE32(o.storageId) + LE16(o.Format()) + LE16(0) + LE32(o.CompressedSize())
    + LE16(0) + LE32(0) + LE32(0) + LE32(0) + LE32(0) + LE32(0) + LE32(0)
    + LE32(o.parent) + LE16(o.AssociationType()) + LE32(0) + LE32(0)
  }

  function EncodeObjectInfo(o: ObjectInfo): seq<u8> {
    EncodeFixed(o) + EncodeString(o.name) + EncodeString(o.created) + EncodeString(o.modified) + [0]
  }

  /** The dataset of an entry whose stat succeeded, its size noted on the way; an unreachable entry gives
      length 0 and keeps the size it had. */
  method BuildObjectInfoDataset(buffer: array<u8>, maxsize: int, o: ObjectInfo, entry: FsEntry, statOk: bool)
    returns (ofs: int)
    requires maxsize <= buffer.Length
    modifies buffer, entry`size
    ensures !statOk ==> ofs == 0 && buffer[..] == old(buffer[..]) && entry.size == old(entry.size)
    ensures statOk ==> Wrote(old(buffer[..]), 0, maxsize, EncodeObjectInfo(o), buffer[..], ofs) && entry.size == o.size
  {
    if !statOk {
      return 0;
    }
    entry.size := o.size;
    ghost var before := buffer[..];
    ghost var enc;
    ofs, enc := PokeFixed(buffer, maxsize, o);
    ofs, enc := ThenString(buffer, ofs, maxsize, o.name, before, enc);
    ofs, enc := ThenString(buffer, ofs, maxsize, o.created, before, enc);
    ofs, enc := ThenString(buffer, ofs, maxsize, o.modified, before, enc);
    ofs, enc := Then08(buffer, ofs, maxsize, 0, before, enc);
  }

  method PokeFixed(buffer: array<u8>, maxsize: int, o: ObjectInfo) returns (ofs: int, ghost enc: seq<u8>)
    requires maxsize <= buffer.Length
    modifies buffer
    ensures enc == EncodeFixed(o) && Wrote(old(buffer[..]), 0, maxsize, enc, buffer[..], ofs)
  {
    ghost var before := buffer[..];
    ofs := Poke32(buffer, 0, maxsize, o.storageId);
    enc := LE32(o.storageId);
    if o.isDir {
      ofs, enc := Then16(buffer, ofs, maxsize, MTP_FORMAT_ASSOCIATION, before, enc);
    } else {
      ofs, enc := Then16(buffer, ofs, maxsize, MTP_FORMAT_UNDEFINED, before, enc);
    }
    ofs, enc := Then16(buffer, ofs, maxsize, 0, before, enc);
    if o.size >= 0x1_0000_0000 {
      ofs, enc := Then32(buffer, ofs, maxsize, 0xFFFF_FFFF, before, enc);
    } else {
      ofs, enc := Then32(buffer, ofs, maxsize, o.size, before, enc);
    }
    ofs, enc := Then16(buffer, ofs, maxsize, 0, before, enc);
    ofs, enc := Then32(buffer, ofs, maxsize, 0, before, enc);
    ofs, enc := Then32(buffer, ofs, maxsize, 0, before, enc);
    ofs, enc := Then32(buffer, ofs, maxsize, 0, before, enc);
    ofs, enc := Then32(buffer, ofs, maxsize, 0, before, enc);
    ofs, enc := Then32(buffer, ofs, maxsize, 0, before, enc);
    ofs, enc := Then32(buffer, ofs, maxsize, 0, before, enc);
    ofs, enc := Then32(buffer, ofs, maxsize, o.parent, before, enc);
    if o.isDir {
      ofs, enc := Then16(buffer, ofs, maxsize, MTP_ASSOCIATION_TYPE_GENERIC_FOLDER, before, enc);
    } else {
      ofs, enc := Then16(buffer, ofs, maxsize, 0, before, enc);
    }
    ofs, enc := Then32(buffer, ofs, maxsize, 0, before, enc);
    ofs, enc := Then32(buffer, ofs, maxsize, 0, before, enc);
  }

  /** What the receiver extracts; the parent is read by the caller from the command instead. */
  datatype ParsedInfo = ParsedInfo(format: nat, size: nat, associationType: nat, name: seq<u8>)

  function UnitsAt(d: seq<u8>, ofs: nat, n: nat): (u: seq<u16>)
    requires ofs + 2 * n <= |d|
    ensures |u| == n
  {
    if n == 0 then []
    else
      assert FromLE(d[ofs + 2 * n - 2..ofs + 2 * n]) < 0x1_0000 by {
        TwoBytes(d, ofs + 2 * n - 2);
      }
      UnitsAt(d, ofs, n - 1) + [FromLE(d[ofs + 2 * n - 2..ofs + 2 * n])]
  }

  /** A stored name: the longest prefix of the units before the first zero that fits. */
  function StoredName(u: seq<u16>): seq<u8> {
    Encode(UntilZero(u)[..FitCount(UntilZero(u), MAX_NAME_BUFFER)])
  }

  function ParseObjectInfo(d: seq<u8>): ParsedInfo
    requires |d| > 0x34 && |d| >= 0x35 + 2 * (d[0x34] as int)
  {
    ParsedInfo(FromLE(d[0x04..0x06]), FromLE(d[0x08..0x0C]), FromLE(d[0x2A..0x2C]),
               StoredName(UnitsAt(d, 0x35, d[0x34]) + [0]))
  }

  /** The extraction of SendObjectInfo over the receive buffer. */
  method ParseIncomingObjectInfo(dataset: array<u8>) returns (info: ParsedInfo, tmpStr: array<u8>)
    requires dataset.Length >= 0x35 + 2 * 0xFF
    ensures info == ParseObjectInfo(dataset[..])
    ensures tmpStr.Length == MAX_NAME_BUFFER && |info.name| < MAX_NAME_BUFFER
    ensures tmpStr[..|info.name|] == info.name && tmpStr[|info.name|] == 0
  {
    var format := Peek(dataset, 0x04, 2);
    var size := Peek(dataset, 0x08, 4);
    var associationType := Peek(dataset, 0x2A, 2);
    tmpStr := ReadName(dataset);
    info := ParsedInfo(format, size, associationType, NameIn(tmpStr[..]));
    SameBytes(dataset);
  }

  method ReadName(dataset: array<u8>) returns (tmpStr: array<u8>)
    requires dataset.Length >= 0x35 + 2 * 0xFF
    ensures tmpStr.Length == MAX_NAME_BUFFER
    ensures var name := StoredName(UnitsAt(dataset[..], 0x35, dataset[0x34]) + [0]);
            && NameIn(tmpStr[..]) == name && |name| < MAX_NAME_BUFFER
            && tmpStr[..|name|] == name && tmpStr[|name|] == 0
  {
    var stringLen := dataset[0x34];
    var unicode := ReadUnits(dataset, stringLen);
    assert unicode[..][..stringLen] == unicode[..stringLen];
    ZeroTail(unicode[..], stringLen);
    ghost var units := unicode[..stringLen] + [0];
    tmpStr := new u8[MAX_NAME_BUFFER](_ => 0);
    var _ := Unicode2CharString(tmpStr, unicode[..], MAX_NAME_BUFFER);
    StoredNameHasNoZero(units);
    NameInPrefix(tmpStr[..], StoredName(units));
  }

  lemma SameBytes(dataset: array<u8>)
    requires dataset.Length >= 0x34
    ensures dataset[..][0x04..0x06] == dataset[0x04..0x06] && dataset[..][0x08..0x0C] == dataset[0x08..0x0C]
    ensures dataset[..][0x2A..0x2C] == dataset[0x2A..0x2C]
  {
  }

  /** The zeroed unit buffer with the announced number of units copied in. */
  method ReadUnits(dataset: array<u8>, stringLen: nat) returns (unicode: array<u16>)
    requires stringLen <= 0xFF && dataset.Length >= 0x35 + 2 * stringLen
    ensures unicode.Length == 257 && unicode[..stringLen] == UnitsAt(dataset[..], 0x35, stringLen)
    ensures forall k :: stringLen <= k < 257 ==> unicode[k] == 0
  {
    unicode := new u16[257](_ => 0);
    var i := 0;
    while i < stringLen
      invariant 0 <= i <= stringLen
      invariant unicode[..i] == UnitsAt(dataset[..], 0x35, i)
      invariant forall k :: i <= k < 257 ==> unicode[k] == 0
    {
      var unit := PeekUnit(dataset, 0x35 + i * 2);
      unicode[i] := unit;
      assert unicode[..i + 1] == unicode[..i] + [unit];
      i := i + 1;
    }
  }

  method PeekUnit(dataset: array<u8>, ofs: nat) returns (unit: u16)
    requires ofs + 2 <= dataset.Length
    ensures unit == FromLE(dataset[..][ofs..ofs + 2])
  {
    assert dataset[..][ofs..ofs + 2] == dataset[ofs..ofs + 2];
    TwoBytes(dataset[..], ofs);
    unit := Peek(dataset, ofs, 2);
  }

  lemma ZeroTail(u: seq<u16>, n: nat)
    requires n < |u| && forall k :: n <= k < |u| ==> u[k] == 0
    ensures 0 in u && UntilZero(u) == UntilZero(u[..n] + [0])
  {
    assert u[n] in u && u == u[..n] + u[n..];
    SameUntilZero(u[..n], u[n..], [0]);
  }

  lemma StoredNameHasNoZero(u: seq<u16>)
    ensures 0 !in StoredName(u)
  {
    EncodeHasNoZero(UntilZero(u)[..FitCount(UntilZero(u), MAX_NAME_BUFFER)]);
  }

  /** The C string at the head of a buffer. */
  function NameIn(s: seq<u8>): seq<u8> {
    if s == [] || s[0] == 0 then [] else [s[0]] + NameIn(s[1..])
  }

  lemma {:induction false} NameInPrefix(s: seq<u8>, name: seq<u8>)
    requires |name| < |s| && s[..|name|] == name && 0 !in name && s[|name|] == 0
    ensures NameIn(s) == name
  {
    if name != [] {
      assert name[0] in name && s[0] == name[0];
      assert s[1..][..|name| - 1] == name[1..];
      NameInPrefix(s[1..], name[1..]);
    }
  }

  lemma TwoBytes(d: seq<u8>, ofs: nat)
    requires ofs + 2 <= |d|
    ensures FromLE(d[ofs..ofs + 2]) < 0x1_0000
  {
    FromLEBound(d[ofs..ofs + 2]);
    Pow256Values();
  }

  lemma {:induction false} SameUntilZero(u: seq<u16>, x: seq<u16>, y: seq<u16>)
    requires x != [] && y != [] && x[0] == 0 == y[0]
    ensures UntilZero(u + x) == UntilZero(u + y)
  {
    if u == [] {
      assert u + x == x && u + y == y;
    } else {
      assert (u + x)[1..] == u[1..] + x && (u + y)[1..] == u[1..] + y;
      SameUntilZero(u[1..], x, y);
    }
  }

  lemma {:induction false} UnitsAtLE16s(d: seq<u8>, ofs: nat, u: seq<u16>)
    requires ofs + 2 * |u| <= |d| && d[ofs..ofs + 2 * |u|] == LE16s(u)
    ensures UnitsAt(d, ofs, |u|) == u
  {
    if u != [] {
      var n := |u| - 1;
      LastUnitAt(d, ofs, u, n);
      UnitsAtLE16s(d, ofs, u[..n]);
      assert u == u[..n] + [u[n]];
    }
  }

  lemma LastUnitAt(d: seq<u8>, ofs: nat, u: seq<u16>, n: nat)
    requires n + 1 == |u| && ofs + 2 * |u| <= |d| && d[ofs..ofs + 2 * |u|] == LE16s(u)
    ensures d[ofs..ofs + 2 * n] == LE16s(u[..n]) && UnitsAt(d, ofs, n + 1) == UnitsAt(d, ofs, n) + [u[n]]
  {
    var whole, a, b := LastImage(u, n);
    var mid, hi := ofs + 2 * n, ofs + 2 * |u|;
    TwoParts(d, ofs, mid, hi, whole, a, b);
    Value16(d, mid, u[n]);
  }

  lemma LastImage(u: seq<u16>, n: nat) returns (whole: seq<u8>, a: seq<u8>, b: seq<u8>)
    requires n + 1 == |u|
    ensures whole == LE16s(u) == a + b && a == LE16s(u[..n]) && b == LE16(u[n]) && |a| == 2 * n && |b| == 2
  {
    LE16sSnoc(u, n);
    assert u[..n + 1] == u;
    whole, a, b := LE16s(u), LE16s(u[..n]), LE16(u[n]);
  }

  lemma TwoParts(d: seq<u8>, lo: nat, mid: nat, hi: nat, whole: seq<u8>, a: seq<u8>, b: seq<u8>)
    requires hi <= |d| && mid == lo + |a| && hi == mid + |b| && d[lo..hi] == whole == a + b
    ensures d[lo..mid] == a && d[mid..hi] == b
  {
    assert d[lo..mid] == d[lo..hi][..|a|] && d[mid..hi] == d[lo..hi][|a|..];
  }

  lemma FixedFields(o: ObjectInfo)
    ensures var f := EncodeFixed(o);
            && f[0x04..0x06] == LE16(o.Format()) && f[0x08..0x0C] == LE32(o.CompressedSize())
            && f[0x26..0x2A] == LE32(o.parent) && f[0x2A..0x2C] == LE16(o.AssociationType())
  {
  }

  lemma FixedValues(o: ObjectInfo, d: seq<u8>, f: seq<u8>)
    requires |f| == 0x34 <= |d| && d[..0x34] == f
    requires f[0x04..0x06] == LE16(o.Format()) && f[0x08..0x0C] == LE32(o.CompressedSize())
    requires f[0x26..0x2A] == LE32(o.parent) && f[0x2A..0x2C] == LE16(o.AssociationType())
    ensures FromLE(d[0x04..0x06]) == o.Format() && FromLE(d[0x08..0x0C]) == o.CompressedSize()
    ensures FromLE(d[0x26..0x2A]) == o.parent && FromLE(d[0x2A..0x2C]) == o.AssociationType()
  {
    Field16(d, f, 0x04, o.Format());
    Field32(d, f, 0x08, o.CompressedSize());
    Field32(d, f, 0x26, o.parent);
    Field16(d, f, 0x2A, o.AssociationType());
  }

  lemma Field16(d: seq<u8>, f: seq<u8>, lo: nat, v: u16)
    requires lo + 2 <= |f| <= |d| && d[..|f|] == f && f[lo..lo + 2] == LE16(v)
    ensures FromLE(d[lo..lo + 2]) == v
  {
    assert d[lo..lo + 2] == f[lo..lo + 2];
    FromLE16(v);
  }

  lemma Field32(d: seq<u8>, f: seq<u8>, lo: nat, v: u32)
    requires lo + 4 <= |f| <= |d| && d[..|f|] == f && f[lo..lo + 4] == LE32(v)
    ensures FromLE(d[lo..lo + 4]) == v
  {
    assert d[lo..lo + 4] == f[lo..lo + 4];
    FromLE32(v);
  }

  /** A terminated unit string stored at ofs is stored as a name like any other copy of it. */
  lemma NameField(w: seq<u16>, d: seq<u8>, ofs: nat)
    requires w != [] && 0 !in w[..|w| - 1] && w[|w| - 1] == 0
    requires ofs + 2 * |w| <= |d| && d[ofs..ofs + 2 * |w|] == LE16s(w)
    ensures UntilZero(UnitsAt(d, ofs, |w|) + [0]) == UntilZero(w) == w[..|w| - 1]
  {
    UnitsAtLE16s(d, ofs, w);
    assert w + [0] == w[..|w| - 1] + [0, 0] && w == w[..|w| - 1] + [0];
    UntilZeroTerminated(w[..|w| - 1], [0, 0]);
    UntilZeroTerminated(w[..|w| - 1], [0]);
  }

  ghost predicate ZeroBetween(d: seq<u8>, lo: nat, hi: nat) {
    hi <= |d| && forall i :: lo <= i < hi ==> d[i] == 0
  }

  /** The fields of fixed length, at their places: storage, format, size, parent and association type;
      protection, thumbnail, image, description and sequence number are zero. */
  lemma ObjectInfoFields(o: ObjectInfo, tail: seq<u8>)
    ensures var d := EncodeObjectInfo(o) + tail;
      && |d| > 0x34
      && FromLE(d[0x00..0x04]) == o.storageId
      && FromLE(d[0x04..0x06]) == (if o.isDir then 0x3001 else 0x3000)
      && FromLE(d[0x08..0x0C]) == (if o.size < 0x1_0000_0000 then o.size else 0xFFFF_FFFF)
      && FromLE(d[0x26..0x2A]) == o.parent
      && FromLE(d[0x2A..0x2C]) == (if o.isDir then 1 else 0)
      && ZeroBetween(d, 0x06, 0x08) && ZeroBetween(d, 0x0C, 0x26) && ZeroBetween(d, 0x2C, 0x34)
  {
    var d, f := EncodeObjectInfo(o) + tail, EncodeFixed(o);
    assert d[..0x34] == f;
    FixedFields(o);
    FixedValues(o, d, f);
    FixedZeros(o);
    StorageField(o);
    Field32(d, f, 0x00, o.storageId);
    assert forall i :: 0 <= i < 0x34 ==> d[i] == f[i];
  }

  lemma StorageField(o: ObjectInfo)
    ensures EncodeFixed(o)[0x00..0x04] == LE32(o.storageId)
  {
  }

  lemma FixedZeros(o: ObjectInfo)
    ensures var f := EncodeFixed(o); ZeroBetween(f, 0x06, 0x08) && ZeroBetween(f, 0x0C, 0x26) && ZeroBetween(f, 0x2C, 0x34)
  {
    assert LE32(0) == [0, 0, 0, 0] && LE16(0) == [0, 0];
  }

  /** The units of the MTP string at ofs, and where the string ends. */
  function StringAt(d: seq<u8>, ofs: nat): (seq<u16>, nat) {
    if ofs < |d| && ofs + 1 + 2 * (d[ofs] as int) <= |d| then
      (UnitsAt(d, ofs + 1, d[ofs]), ofs + 1 + 2 * (d[ofs] as int))
    else ([], ofs)
  }

  /** What a host reads of a string: nothing when it is empty, otherwise its units and a zero. */
  function WireText(s: seq<u8>): seq<u16> {
    if At(s, 0) == 0 then [] else WireUnits(s)
  }

  lemma StringRead(s: seq<u8>, d: seq<u8>, ofs: nat)
    requires var enc := EncodeString(s); ofs + |enc| <= |d| && d[ofs..ofs + |enc|] == enc
    ensures StringAt(d, ofs) == (WireText(s), ofs + |EncodeString(s)|)
  {
    if At(s, 0) == 0 {
      assert d[ofs] == EncodeString(s)[0];
    } else {
      StringBytes(s, d, ofs);
      UnitsAtLE16s(d, ofs + 1, WireUnits(s));
    }
  }

  lemma StringThen(s: seq<u8>, d: seq<u8>, head: seq<u8>, rest: seq<u8>)
    requires d == head + (EncodeString(s) + rest)
    ensures StringAt(d, |head|) == (WireText(s), |head + EncodeString(s)|)
    ensures d == (head + EncodeString(s)) + rest && d[|head + EncodeString(s)|..] == rest
  {
    NextPart(d, head, EncodeString(s), rest);
    StringRead(s, d, |head|);
  }

  lemma NextPart(d: seq<u8>, head: seq<u8>, part: seq<u8>, rest: seq<u8>)
    requires d == head + (part + rest)
    ensures |head + part| == |head| + |part| <= |d| && d[|head|..|head| + |part|] == part
    ensures d == (head + part) + rest && d[|head| + |part|..] == rest
  {
  }

  /** Three strings in a row. */
  lemma StringsThen(s: seq<u8>, t: seq<u8>, u: seq<u8>, d: seq<u8>, head: seq<u8>, rest: seq<u8>)
    requires d == head + (EncodeString(s) + (EncodeString(t) + (EncodeString(u) + rest)))
    ensures var (x, a) := StringAt(d, |head|); var (y, b) := StringAt(d, a); var (z, c) := StringAt(d, b);
      x == WireText(s) && y == WireText(t) && z == WireText(u) && c <= |d| && d[c..] == rest
  {
    StringThen(s, d, head, EncodeString(t) + (EncodeString(u) + rest));
    StringThen(t, d, head + EncodeString(s), EncodeString(u) + rest);
    StringThen(u, d, head + EncodeString(s) + EncodeString(t), rest);
  }

  /** Behind the fixed fields come the name, the creation date and the modification date, one zero
      byte, and nothing more. */
  lemma ObjectInfoStrings(o: ObjectInfo, tail: seq<u8>)
    ensures var d := EncodeObjectInfo(o) + tail;
            var (name, a) := StringAt(d, 0x34);
            var (created, b) := StringAt(d, a);
            var (modified, c) := StringAt(d, b);
      && name == WireText(o.name) && created == WireText(o.created) && modified == WireText(o.modified)
      && c <= |d| && d[c..] == [0] + tail
  {
    var d, f := EncodeObjectInfo(o) + tail, EncodeFixed(o);
    Nested(f, EncodeString(o.name), EncodeString(o.created), EncodeString(o.modified), [0], tail);
    StringsThen(o.name, o.created, o.modified, d, f, [0] + tail);
  }

  lemma Nested(a: seq<u8>, b: seq<u8>, c: seq<u8>, d: seq<u8>, e: seq<u8>, f: seq<u8>)
    ensures a + b + c + d + e + f == a + (b + (c + (d + (e + f))))
  {
  }

  /** Parsing a built dataset, whatever follows it, recovers the format, the saturated size,
      the parent field, the association type and the units of the name. */
  lemma ObjectInfoRoundTrip(o: ObjectInfo, tail: seq<u8>)
    ensures var d := EncodeObjectInfo(o) + tail;
            && |d| > 0x34 && |d| >= 0x35 + 2 * (d[0x34] as int)
            && ParseObjectInfo(d) == ParsedInfo(o.Format(), o.CompressedSize(), o.AssociationType(),
                                       if At(o.name, 0) == 0 then [] else StoredName(WireUnits(o.name)))
            && FromLE(d[0x00..0x04]) == o.storageId && FromLE(d[0x26..0x2A]) == o.parent
  {
    var d := EncodeObjectInfo(o) + tail;
    ObjectInfoFields(o, tail);
    Nested(EncodeFixed(o), EncodeString(o.name), EncodeString(o.created), EncodeString(o.modified), [0], tail);
    NextPart(d, EncodeFixed(o), EncodeString(o.name), EncodeString(o.created) + (EncodeString(o.modified) + ([0] + tail)));
    NameParsed(o.name, d);
  }

  /** The name field, empty or not. */
  lemma NameParsed(name: seq<u8>, d: seq<u8>)
    requires var s := EncodeString(name); 0x34 + |s| <= |d| && d[0x34..0x34 + |s|] == s
    ensures |d| > 0x34 && |d| >= 0x35 + 2 * (d[0x34] as int)
    ensures StoredName(UnitsAt(d, 0x35, d[0x34]) + [0]) == if At(name, 0) == 0 then [] else StoredName(WireUnits(name))
  {
    if At(name, 0) == 0 {
      assert d[0x34] == EncodeString(name)[0] && UnitsAt(d, 0x35, 0) + [0] == [0] && UntilZero([0]) == [];
    } else {
      NameValue(name, d, 0x34);
    }
  }

  lemma NameValue(name: seq<u8>, d: seq<u8>, ofs: nat)
    requires At(name, 0) != 0
    requires var s := EncodeString(name); ofs + |s| <= |d| && d[ofs..ofs + |s|] == s
    ensures var w := WireUnits(name);
            d[ofs] == |w| && ofs + 1 + 2 * |w| <= |d| && UntilZero(UnitsAt(d, ofs + 1, |w|) + [0]) == UntilZero(w)
  {
    StringBytes(name, d, ofs);
    WireUntilZero(name);
    NameField(WireUnits(name), d, ofs + 1);
  }

  /** A stored string is its count and its units. */
  lemma StringBytes(name: seq<u8>, d: seq<u8>, ofs: nat)
    requires At(name, 0) != 0
    requires var s := EncodeString(name); ofs + |s| <= |d| && d[ofs..ofs + |s|] == s
    ensures var w := WireUnits(name);
            d[ofs] == |w| && ofs + 1 + 2 * |w| <= |d| && d[ofs + 1..ofs + 1 + 2 * |w|] == LE16s(w)
  {
    var s := EncodeString(name);
    assert d[ofs] == s[0] && d[ofs + 1..ofs + |s|] == s[1..];
  }

  /** Before its terminator a wire name holds at most 254 of the name's units. */
  lemma WireUntilZero(name: seq<u8>)
    ensures var w := WireUnits(name); var u := Units(name);
            && 0 !in w[..|w| - 1] && w[|w| - 1] == 0 && UntilZero(w) == w[..|w| - 1]
            && w[..|w| - 1] == u[..if |u| > 254 then 254 else |u|]
  {
    var w, u := WireUnits(name), Units(name);
    assert w[..|w| - 1] == u[..if |u| > 254 then 254 else |u|];
    assert w == w[..|w| - 1] + [0];
    UntilZeroTerminated(w[..|w| - 1], [0]);
  }

  /** A stored name is the encoding of a prefix of at most 254 of the name's units, and of
      all of them exactly when they are that few and fit. */
  lemma StoredPrefix(name: seq<u8>) returns (v: seq<u16>)
    ensures v <= Units(name) && StoredName(WireUnits(name)) == Encode(v)
    ensures |v| <= 254 && |Encode(v)| < MAX_NAME_BUFFER
    ensures |Units(name)| <= 254 && |Encode(Units(name))| < MAX_NAME_BUFFER ==> v == Units(name)
  {
    var u, t := Units(name), UntilZero(WireUnits(name));
    var n := FitCount(t, MAX_NAME_BUFFER);
    v := t[..n];
    WireUntilZero(name);
    FitCountIsLongest(t, MAX_NAME_BUFFER, n);
    FitCountIsLongest(t, MAX_NAME_BUFFER, |t|);
    assert t[..|t|] == t && u[..|u|] == u;
  }

  /** The name itself comes back exactly when its bytes are the UTF-8 of its own units (no
      four-byte, malformed or overlong sequence), it has at most 254 units and it fits. */
  lemma NameRecoveredExactly(name: seq<u8>)
    ensures StoredName(WireUnits(name)) == name
       <==> Encode(Units(name)) == name && |Units(name)| <= 254 && |name| <= 256
  {
    var v := StoredPrefix(name);
    if Encode(v) == name {
      UnitsOfEncode(v);
    }
  }
}
