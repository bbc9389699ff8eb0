/** The object property list and single property datasets (src/mtp_properties.c), with a
    reference parser for the list. */
module MtpProperties {
  import opened Bytes
  import opened UsbString
  import opened MtpHelpers
  import opened MtpDatasets
  import opened HashUtils

  const MTP_TYPE_UINT8: u16 := 0x0002
  const MTP_TYPE_UINT16: u16 := 0x0004
  const MTP_TYPE_UINT32: u16 := 0x0006
  const MTP_TYPE_UINT64: u16 := 0x0008
  const MTP_TYPE_UINT128: u16 := 0x000A
  const MTP_TYPE_STR: u16 := 0xFFFF

  const STORAGE_ID: u16 := 0xDC01
  const OBJECT_FORMAT: u16 := 0xDC02
  const PROTECTION_STATUS: u16 := 0xDC03
  const OBJECT_SIZE: u16 := 0xDC04
  const ASSOCIATION_TYPE: u16 := 0xDC05
  const ASSOCIATION_DESC: u16 := 0xDC06
  const OBJECT_FILE_NAME: u16 := 0xDC07
  const DATE_CREATED: u16 := 0xDC08
  const DATE_MODIFIED: u16 := 0xDC09
  const PARENT_OBJECT: u16 := 0xDC0B
  const HIDDEN: u16 := 0xDC0D
  const SYSTEM_OBJECT: u16 := 0xDC0E
  const PERSISTENT_UID: u16 := 0xDC41
  const NAME: u16 := 0xDC44
  const DISPLAY_NAME: u16 := 0xDCE0

  const ALL_PROPERTIES: u32 := 0xFFFF_FFFF

  datatype Row = Row(code: u16, dataType: u16)

  /** Code and type of the first table row of each property; later rows only repeat a code
      for another format. The association type has no row. */
  const PROPERTIES: seq<Row> := [
    Row(STORAGE_ID, MTP_TYPE_UINT32), Row(OBJECT_FORMAT, MTP_TYPE_UINT16), Row(OBJECT_SIZE, MTP_TYPE_UINT64),
    Row(PROTECTION_STATUS, MTP_TYPE_UINT16), Row(DISPLAY_NAME, MTP_TYPE_STR), Row(OBJECT_FILE_NAME, MTP_TYPE_STR),
    Row(DATE_CREATED, MTP_TYPE_STR), Row(DATE_MODIFIED, MTP_TYPE_STR), Row(PARENT_OBJECT, MTP_TYPE_UINT32),
    Row(PERSISTENT_UID, MTP_TYPE_UINT128), Row(NAME, MTP_TYPE_STR), Row(ASSOCIATION_DESC, MTP_TYPE_UINT32),
    Row(HIDDEN, MTP_TYPE_UINT16), Row(0xFFFF, MTP_TYPE_UINT32)]

  /** The type the table gives a property; 0 when it has no row. */
  function TypeOf(code: u16): u16 {
    if code == STORAGE_ID || code == PARENT_OBJECT || code == ASSOCIATION_DESC then MTP_TYPE_UINT32
    else if code == OBJECT_FORMAT || code == PROTECTION_STATUS || code == HIDDEN then MTP_TYPE_UINT16
    else if code == OBJECT_SIZE then MTP_TYPE_UINT64
    else if code == PERSISTENT_UID then MTP_TYPE_UINT128
    else if code == DISPLAY_NAME || code == OBJECT_FILE_NAME || code == NAME
         || code == DATE_CREATED || code == DATE_MODIFIED then MTP_TYPE_STR
    else 0
  }

  /** The first row of a code, or the end row when the code has none. */
  method FindType(code: u16) returns (found: bool, dataType: u16)
    requires code != 0xFFFF
    ensures dataType == TypeOf(code) && (found <==> dataType != 0)
  {
    var i := 0;
    while PROPERTIES[i].code != 0xFFFF && PROPERTIES[i].code != code
      invariant 0 <= i < |PROPERTIES|
      invariant forall j :: 0 <= j < i ==> PROPERTIES[j].code != code
      decreases |PROPERTIES| - i
    {
      i := i + 1;
    }
    TableTypes(i, code);
    found := PROPERTIES[i].code == code;
    dataType := if found then PROPERTIES[i].dataType else 0;
  }

  lemma TableTypes(i: nat, code: u16)
    requires code != 0xFFFF && i < |PROPERTIES| && (PROPERTIES[i].code == 0xFFFF || PROPERTIES[i].code == code)
    requires forall j :: 0 <= j < i ==> PROPERTIES[j].code != code
    ensures PROPERTIES[i].code == code ==> PROPERTIES[i].dataType == TypeOf(code) != 0
    ensures PROPERTIES[i].code != code ==> TypeOf(code) == 0
  {
    if PROPERTIES[i].code != code {
      assert i == 13;
      assert code != PROPERTIES[0].code && code != PROPERTIES[1].code && code != PROPERTIES[2].code
        && code != PROPERTIES[3].code && code != PROPERTIES[4].code && code != PROPERTIES[5].code
        && code != PROPERTIES[6].code && code != PROPERTIES[7].code && code != PROPERTIES[8].code
        && code != PROPERTIES[9].code && code != PROPERTIES[10].code && code != PROPERTIES[11].code
        && code != PROPERTIES[12].code;
    }
  }

  /** The object a list element is built from: an integer in memory, a C string, or nothing. */
  datatype PropData = Null | Word(v: nat) | Text(s: seq<u8>)
  {
    function Value(): nat {
      if Word? then v else 0
    }

    function Chars(): seq<u8> {
      if Text? then s else []
    }
  }

  /** The value bytes of a list element. The 128-bit case adds its counter to the first word. */
  function EncodeValue(dataType: u16, data: PropData): seq<u8> {
    if dataType == MTP_TYPE_STR then EncodeString(data.Chars())
    else if dataType == MTP_TYPE_UINT8 then [data.Value() % 0x100]
    else if dataType == MTP_TYPE_UINT16 then LE16(data.Value())
    else if dataType == MTP_TYPE_UINT32 then LE32(data.Value())
    else if dataType == MTP_TYPE_UINT64 then LE64(data.Value())
    else if dataType == MTP_TYPE_UINT128 then
      LE32(data.Value()) + LE32(data.Value() + 1) + LE32(data.Value() + 2) + LE32(data.Value() + 3)
    else []
  }

  datatype Prop = Prop(code: u16, data: PropData)

  predicate Selected(p: Prop, filter: u32) {
    (p.code == filter || filter == ALL_PROPERTIES) && TypeOf(p.code) != 0
  }

  /** A list element on the wire. */
  datatype Record = Record(handle: u32, code: u16, dataType: u16, value: seq<u8>)

  function EncodeRecord(r: Record): (s: seq<u8>)
    ensures |s| == 8 + |r.value|
  {
    LE32(r.handle) + LE16(r.code) + LE16(r.dataType) + r.value
  }

  function EncodeRecords(rs: seq<Record>): seq<u8> {
    if rs == [] then [] else EncodeRecord(rs[0]) + EncodeRecords(rs[1..])
  }

  lemma {:induction false} EncodeRecordsAppend(rs: seq<Record>, ts: seq<Record>)
    ensures EncodeRecords(rs + ts) == EncodeRecords(rs) + EncodeRecords(ts)
  {
    if rs == [] {
      assert rs + ts == ts;
    } else {
      assert (rs + ts)[1..] == rs[1..] + ts;
      EncodeRecordsAppend(rs[1..], ts);
    }
  }

  /** The record of a property, if the filter selects it. */
  function RecordOf(handle: u32, p: Prop, filter: u32): (r: seq<Record>)
    ensures |r| <= 1
  {
    if Selected(p, filter) then [Record(handle, p.code, TypeOf(p.code), EncodeValue(TypeOf(p.code), p.data))] else []
  }

  function RecordsOf(handle: u32, props: seq<Prop>, filter: u32): (r: seq<Record>)
    ensures |r| <= |props|
  {
    if props == [] then []
    else RecordsOf(handle, props[..|props| - 1], filter) + RecordOf(handle, props[|props| - 1], filter)
  }

  lemma RecordsSnoc(handle: u32, props: seq<Prop>, i: nat, filter: u32)
    requires i < |props|
    ensures RecordsOf(handle, props[..i + 1], filter)
         == RecordsOf(handle, props[..i], filter) + RecordOf(handle, props[i], filter)
  {
    assert props[..i + 1][..i] == props[..i];
  }

  method ObjectPropListElement(buffer: array<u8>, ofs: int, maxsize: int, p: Prop, handle: u32, filter: u32,
                               ghost before: seq<u8>, ghost enc: seq<u8>)
    returns (count: nat, r: int, ghost more: seq<u8>)
    requires p.code != 0xFFFF && maxsize <= buffer.Length && Wrote(before, 0, maxsize, enc, buffer[..], ofs)
    modifies buffer
    ensures count == |RecordOf(handle, p, filter)|
    ensures more == enc + EncodeRecords(RecordOf(handle, p, filter))
    ensures Wrote(before, 0, maxsize, more, buffer[..], r)
  {
    count, r, more := 0, ofs, enc;
    var found, dataType := FindType(p.code);
    if (p.code == filter || filter == ALL_PROPERTIES) && found {
      r, more := Then32(buffer, r, maxsize, handle, before, more);
      r, more := Then16(buffer, r, maxsize, p.code, before, more);
      r, more := Then16(buffer, r, maxsize, dataType, before, more);
      r, more := ThenValue(buffer, r, maxsize, dataType, p.data, before, more);
      count := 1;
      OneRecord(enc, Record(handle, p.code, dataType, EncodeValue(dataType, p.data)));
    } else {
      assert enc + [] == enc;
    }
  }

  lemma OneRecord(enc: seq<u8>, r: Record)
    ensures enc + LE32(r.handle) + LE16(r.code) + LE16(r.dataType) + r.value == enc + EncodeRecords([r])
  {
    assert EncodeRecords([r]) == EncodeRecord(r) + EncodeRecords([r][1..]);
  }

  method ThenValue(buffer: array<u8>, ofs: int, maxsize: int, dataType: u16, data: PropData,
                   ghost before: seq<u8>, ghost enc: seq<u8>)
    returns (r: int, ghost more: seq<u8>)
    requires maxsize <= buffer.Length && Wrote(before, 0, maxsize, enc, buffer[..], ofs)
    modifies buffer
    ensures more == enc + EncodeValue(dataType, data) && Wrote(before, 0, maxsize, more, buffer[..], r)
  {
    r, more := ofs, enc;
    if dataType == MTP_TYPE_STR {
      r, more := ThenString(buffer, r, maxsize, data.Chars(), before, more);
    } else {
      r, more := ThenNumber(buffer, r, maxsize, dataType, data, before, more);
    }
  }

  method ThenNumber(buffer: array<u8>, ofs: int, maxsize: int, dataType: u16, data: PropData,
                    ghost before: seq<u8>, ghost enc: seq<u8>)
    returns (r: int, ghost more: seq<u8>)
    requires maxsize <= buffer.Length && Wrote(before, 0, maxsize, enc, buffer[..], ofs) && dataType != MTP_TYPE_STR
    modifies buffer
    ensures more == enc + EncodeValue(dataType, data) && Wrote(before, 0, maxsize, more, buffer[..], r)
  {
    r, more := ofs, enc;
    if dataType == MTP_TYPE_UINT8 {
      r, more := Then08(buffer, r, maxsize, data.Value(), before, more);
    } else if dataType == MTP_TYPE_UINT16 {
      r, more := Then16(buffer, r, maxsize, data.Value(), before, more);
    } else if dataType == MTP_TYPE_UINT32 {
      r, more := Then32(buffer, r, maxsize, data.Value(), before, more);
    } else {
      r, more := ThenWide(buffer, r, maxsize, dataType, data, before, more);
    }
  }

  method ThenWide(buffer: array<u8>, ofs: int, maxsize: int, dataType: u16, data: PropData,
                  ghost before: seq<u8>, ghost enc: seq<u8>)
    returns (r: int, ghost more: seq<u8>)
    requires maxsize <= buffer.Length && Wrote(before, 0, maxsize, enc, buffer[..], ofs)
    requires dataType !in {MTP_TYPE_STR, MTP_TYPE_UINT8, MTP_TYPE_UINT16, MTP_TYPE_UINT32}
    modifies buffer
    ensures more == enc + EncodeValue(dataType, data) && Wrote(before, 0, maxsize, more, buffer[..], r)
  {
    r, more := ofs, enc;
    if dataType == MTP_TYPE_UINT64 {
      r, more := Then64(buffer, r, maxsize, data.Value(), before, more);
    } else if dataType == MTP_TYPE_UINT128 {
      r, more := ThenWideWord(buffer, r, maxsize, data.Value(), before, more);
    }
  }

  function LE64(v: int): (s: seq<u8>)
    ensures |s| == 8
  {
    LE32(v) + LE32(v / 0x1_0000_0000)
  }

  method Then64(buffer: array<u8>, ofs: int, maxsize: int, data: int, ghost before: seq<u8>, ghost enc: seq<u8>)
    returns (r: int, ghost more: seq<u8>)
    requires maxsize <= buffer.Length && Wrote(before, 0, maxsize, enc, buffer[..], ofs)
    modifies buffer
    ensures more == enc + LE64(data) && Wrote(before, 0, maxsize, more, buffer[..], r)
  {
    r, more := Then32(buffer, ofs, maxsize, data, before, enc);
    r, more := Then32(buffer, r, maxsize, data / 0x1_0000_0000, before, more);
    assert more == enc + LE64(data);
  }

  method ThenWideWord(buffer: array<u8>, ofs: int, maxsize: int, word: nat, ghost before: seq<u8>, ghost enc: seq<u8>)
    returns (r: int, ghost more: seq<u8>)
    requires maxsize <= buffer.Length && Wrote(before, 0, maxsize, enc, buffer[..], ofs)
    modifies buffer
    ensures more == enc + EncodeValue(MTP_TYPE_UINT128, Word(word)) && Wrote(before, 0, maxsize, more, buffer[..], r)
  {
    r, more := ofs, enc;
    ghost var steps := [[], LE32(word), LE32(word) + LE32(word + 1), LE32(word) + LE32(word + 1) + LE32(word + 2),
                        EncodeValue(MTP_TYPE_UINT128, Word(word))];
    for i := 0 to 4
      invariant more == enc + steps[i] && Wrote(before, 0, maxsize, more, buffer[..], r)
    {
      r, more := Then32(buffer, r, maxsize, word + i, before, more);
    }
  }

  /** What the builders read of an entry. */
  datatype ObjectFacts = ObjectFacts(handle: u32, parent: u32, storageId: u32, isDir: bool, size: nat, name: seq<u8>)

  /** The twelve properties the list builder offers, in its order. */
  function ListedProps(e: ObjectFacts, created: seq<u8>, modified: seq<u8>): seq<Prop> {
    [Prop(STORAGE_ID, Word(e.storageId)),
     Prop(OBJECT_FORMAT, Word(if e.isDir then MTP_FORMAT_ASSOCIATION else MTP_FORMAT_UNDEFINED)),
     Prop(ASSOCIATION_TYPE, Word(if e.isDir then MTP_ASSOCIATION_TYPE_GENERIC_FOLDER else 0)),
     Prop(PARENT_OBJECT, Word(e.parent)),
     Prop(OBJECT_SIZE, Word(e.size)),
     Prop(PROTECTION_STATUS, Word(0)),
     Prop(OBJECT_FILE_NAME, Text(e.name)),
     Prop(NAME, Text(e.name)),
     Prop(DISPLAY_NAME, Null),
     Prop(DATE_CREATED, Text(created)),
     Prop(DATE_MODIFIED, Text(modified)),
     Prop(PERSISTENT_UID, Word(e.handle))]
  }

  function EncodePropList(rs: seq<Record>): seq<u8> {
    LE32(|rs|) + EncodeRecords(rs)
  }

  /** A successful list is its count followed by exactly the selected properties in order. */
  method BuildObjectPropListDataset(buffer: array<u8>, maxsize: int, e: ObjectFacts, entry: FsEntry, handle: u32,
                                    filter: u32, statOk: bool, created: seq<u8>, modified: seq<u8>)
    returns (ofs: int)
    requires maxsize <= buffer.Length
    modifies buffer, entry`size
    ensures entry.size == if statOk then e.size else old(entry.size)
    ensures !statOk ==> ofs == 0 && buffer[..] == old(buffer[..])
    ensures statOk ==> var enc := EncodePropList(RecordsOf(handle, ListedProps(e, created, modified), filter));
      && (ofs >= 0 <==> |enc| < maxsize)
      && (ofs >= 0 ==> ofs == |enc| && buffer[..] == Splice(old(buffer[..]), 0, enc))
      && (ofs < 0 ==> SameOutside(old(buffer[..]), buffer[..], 0, maxsize))
  {
    if !statOk {
      return 0;
    }
    entry.size := e.size;
    ghost var before := buffer[..];
    ghost var rs := RecordsOf(handle, ListedProps(e, created, modified), filter);
    var count;
    ofs, count := PokeElements(buffer, maxsize, ListedProps(e, created, modified), handle, filter);
    var _ := Poke32(buffer, 0, maxsize, count);
    if ofs >= 0 {
      Overwritten(before, LE32(0), LE32(count), EncodeRecords(rs));
    }
  }

  /** The element calls one after the other, behind a count that is still zero. */
  method PokeElements(buffer: array<u8>, maxsize: int, props: seq<Prop>, handle: u32, filter: u32)
    returns (ofs: int, count: nat)
    requires maxsize <= buffer.Length && forall p :: p in props ==> p.code != 0xFFFF
    modifies buffer
    ensures count == |RecordsOf(handle, props, filter)|
    ensures Wrote(old(buffer[..]), 0, maxsize, LE32(0) + EncodeRecords(RecordsOf(handle, props, filter)), buffer[..], ofs)
  {
    ghost var before := buffer[..];
    ghost var enc, done := LE32(0), [];
    ofs := Poke32(buffer, 0, maxsize, 0);
    count := 0;
    var i := 0;
    while i < |props|
      invariant 0 <= i <= |props| && done == RecordsOf(handle, props[..i], filter)
      invariant count == |done| && enc == LE32(0) + EncodeRecords(done)
      invariant Wrote(before, 0, maxsize, enc, buffer[..], ofs)
    {
      var n;
      n, ofs, enc := ObjectPropListElement(buffer, ofs, maxsize, props[i], handle, filter, before, enc);
      ghost var one := RecordOf(handle, props[i], filter);
      EncodeAfter(LE32(0), done, one);
      RecordsSnoc(handle, props, i, filter);
      done := done + one;
      count := count + n;
      i := i + 1;
    }
    assert props[..i] == props;
  }

  lemma EncodeAfter(head: seq<u8>, done: seq<Record>, one: seq<Record>)
    ensures head + EncodeRecords(done) + EncodeRecords(one) == head + EncodeRecords(done + one)
  {
    EncodeRecordsAppend(done, one);
  }

  /** Bytes taken by a value of this type whose first byte is given. */
  function ValueLength(dataType: nat, first: u8): nat {
    if dataType == MTP_TYPE_STR then 1 + 2 * (first as int)
    else if dataType == MTP_TYPE_UINT8 then 1
    else if dataType == MTP_TYPE_UINT16 then 2
    else if dataType == MTP_TYPE_UINT32 then 4
    else if dataType == MTP_TYPE_UINT64 then 8
    else if dataType == MTP_TYPE_UINT128 then 16
    else 0
  }

  /** A value whose length is the one its type and first byte announce. */
  predicate SelfDelimiting(r: Record) {
    |r.value| >= 1 && |r.value| == ValueLength(r.dataType, r.value[0])
  }

  /** Reads n records from the head of d as a host does: the records, and the bytes after them. */
  function ParseRecords(d: seq<u8>, n: nat): (seq<Record>, seq<u8>)
    decreases n
  {
    if n == 0 || |d| < 9 then ([], d)
    else
      var size := 8 + ValueLength(Get16(d, 6), d[8]);
      if |d| < size then ([], d)
      else
        var (rest, tail) := ParseRecords(d[size..], n - 1);
        ([Record(Get32(d, 0), Get16(d, 4), Get16(d, 6), d[8..size])] + rest, tail)
  }

  function Get16(d: seq<u8>, ofs: nat): u16
    requires ofs + 2 <= |d|
  {
    (d[ofs] as int) + 0x100 * (d[ofs + 1] as int)
  }

  function Get32(d: seq<u8>, ofs: nat): u32
    requires ofs + 4 <= |d|
  {
    (d[ofs] as int) + 0x100 * (d[ofs + 1] as int) + 0x1_0000 * (d[ofs + 2] as int) + 0x100_0000 * (d[ofs + 3] as int)
  }

  lemma GetLE32(d: seq<u8>, ofs: nat, v: u32)
    requires ofs + 4 <= |d| && d[ofs..ofs + 4] == LE32(v)
    ensures Get32(d, ofs) == v
  {
    var s := d[ofs..ofs + 4];
    FromLE32(v);
    FromLEFour(s[0], s[1], s[2], s[3]);
    assert [s[0], s[1], s[2], s[3]] == s;
  }

  lemma ParseOneRecord(r: Record, after: seq<u8>, n: nat)
    requires n > 0 && SelfDelimiting(r)
    ensures var (rest, tail) := ParseRecords(after, n - 1);
            ParseRecords(EncodeRecord(r) + after, n) == ([r] + rest, tail)
  {
    var d := EncodeRecord(r) + after;
    RecordHead(r, d);
    assert d[8] == r.value[0] && d[8..8 + |r.value|] == r.value && d[8 + |r.value|..] == after;
  }

  lemma RecordHead(r: Record, d: seq<u8>)
    requires |d| >= 8 && d[..8] == EncodeRecord(r)[..8]
    ensures Get32(d, 0) == r.handle && Get16(d, 4) == r.code && Get16(d, 6) == r.dataType
  {
    var h := d[..8];
    assert h == LE32(r.handle) + LE16(r.code) + LE16(r.dataType);
    assert d[0..4] == h[0..4] == LE32(r.handle);
    GetLE32(d, 0, r.handle);
    assert d[4] == h[4] && d[5] == h[5] && d[6] == h[6] && d[7] == h[7];
  }

  /** Parsing as many records as were encoded gives them back and stops where they end. */
  lemma {:induction false} RecordsRoundTrip(rs: seq<Record>, tail: seq<u8>)
    requires forall r :: r in rs ==> SelfDelimiting(r)
    ensures ParseRecords(EncodeRecords(rs) + tail, |rs|) == (rs, tail)
  {
    if rs == [] {
      assert EncodeRecords(rs) + tail == tail;
    } else {
      var after := EncodeRecords(rs[1..]) + tail;
      assert EncodeRecords(rs) + tail == EncodeRecord(rs[0]) + after;
      assert rs[0] in rs;
      ParseOneRecord(rs[0], after, |rs|);
      RecordsRoundTrip(rs[1..], tail);
      assert [rs[0]] + rs[1..] == rs;
    }
  }

  /** The properties on offer, by code. The values are the subject of ListAgreesWithValue, but for the
      dates and the identifier. */
  lemma OfferedProps(e: ObjectFacts, created: seq<u8>, modified: seq<u8>)
    ensures var ps := ListedProps(e, created, modified);
      && |ps| == 12
      && (forall i :: 0 <= i < 12 ==> ps[i].code == [0xDC01, 0xDC02, 0xDC05, 0xDC0B, 0xDC04, 0xDC03,
                                                    0xDC07, 0xDC44, 0xDCE0, 0xDC08, 0xDC09, 0xDC41][i])
      && ps[9].data == Text(created) && ps[10].data == Text(modified) && ps[11].data == Word(e.handle)
  {
  }

  /** The type of a property on the wire; nothing else has one. */
  lemma TypesOnWire(code: u16)
    ensures TypeOf(code) == if code in {0xDC02, 0xDC03, 0xDC0D} then 0x0004
                            else if code in {0xDC01, 0xDC06, 0xDC0B} then 0x0006
                            else if code == 0xDC04 then 0x0008
                            else if code == 0xDC41 then 0x000A
                            else if code in {0xDC07, 0xDC08, 0xDC09, 0xDC44, 0xDCE0} then 0xFFFF
                            else 0
  {
  }

  /** A list holds the record of a property exactly when the filter names it or asks for all, and the
      property has a type. */
  lemma {:induction false} ListedExactly(handle: u32, props: seq<Prop>, filter: u32, r: Record)
    ensures r in RecordsOf(handle, props, filter)
       <==> exists p :: p in props && (filter == 0xFFFF_FFFF || p.code == filter) && TypeOf(p.code) != 0
                && r == Record(handle, p.code, TypeOf(p.code), EncodeValue(TypeOf(p.code), p.data))
  {
    if props != [] {
      var front, last := props[..|props| - 1], props[|props| - 1];
      ListedExactly(handle, front, filter, r);
      assert props == front + [last];
      assert last in props;
    }
  }

  lemma {:induction false} RecordsSelfDelimiting(handle: u32, props: seq<Prop>, filter: u32)
    ensures forall r :: r in RecordsOf(handle, props, filter) ==> SelfDelimiting(r)
  {
    if props != [] {
      RecordsSelfDelimiting(handle, props[..|props| - 1], filter);
    }
  }

  /** The count of a built list is the number of records that follow; parsing that many gives
      back exactly the selected properties, in order, and ends where the list ends. */
  lemma PropListRoundTrip(e: ObjectFacts, created: seq<u8>, modified: seq<u8>, handle: u32, filter: u32, tail: seq<u8>)
    ensures var rs := RecordsOf(handle, ListedProps(e, created, modified), filter);
            var d := EncodePropList(rs) + tail;
            Get32(d, 0) == |rs| && ParseRecords(d[4..], Get32(d, 0)) == (rs, tail)
  {
    var rs := RecordsOf(handle, ListedProps(e, created, modified), filter);
    var d := EncodePropList(rs) + tail;
    assert |rs| <= 12;
    assert d[0..4] == LE32(|rs|) && d[4..] == EncodeRecords(rs) + tail;
    GetLE32(d, 0, |rs|);
    RecordsSelfDelimiting(handle, ListedProps(e, created, modified), filter);
    RecordsRoundTrip(rs, tail);
  }

  /** The constant date of the single-value builder, 20100102T101112. */
  const DEFAULT_DATE: seq<u8> := [0x32, 0x30, 0x31, 0x30, 0x30, 0x31, 0x30, 0x32, 0x54, 0x31, 0x30, 0x31, 0x31, 0x31, 0x32]

  /** The value of one property on its own, with one date for every object; nothing for a
      property that is not supported. */
  function PropValue(e: ObjectFacts, code: u16, date: seq<u8>): seq<u8> {
    if code == OBJECT_FORMAT then LE16(if e.isDir then MTP_FORMAT_ASSOCIATION else MTP_FORMAT_UNDEFINED)
    else if code == OBJECT_SIZE then LE32(e.size % 0x1_0000_0000) + LE32(e.size / 0x1_0000_0000)
    else if code == DISPLAY_NAME then [0]
    else if code == NAME || code == OBJECT_FILE_NAME then EncodeString(e.name)
    else if code == STORAGE_ID then LE32(e.storageId)
    else if code == PARENT_OBJECT then LE32(e.parent)
    else if code == HIDDEN || code == SYSTEM_OBJECT || code == PROTECTION_STATUS then LE16(0)
    else if code == ASSOCIATION_TYPE then LE16(if e.isDir then 1 else 0)
    else if code == ASSOCIATION_DESC then LE32(0)
    else if code == DATE_CREATED || code == DATE_MODIFIED then EncodeString(date)
    else if code == PERSISTENT_UID then LE32(e.handle) + LE32(e.parent) + LE32(e.storageId) + LE32(0)
    else []
  }

  /** The bytes are a little-endian number of this width. */
  ghost predicate Reads(v: seq<u8>, width: nat, x: nat) {
    |v| == width && FromLE(v) == x
  }

  lemma ReadsLE16(x: u16)
    ensures Reads(LE16(x), 2, x)
  {
    FromLE16(x);
  }

  lemma ReadsLE32(x: u32)
    ensures Reads(LE32(x), 4, x)
  {
    FromLE32(x);
  }

  /** What a host reads in the value of each property that is a number; a hidden or a system object is
      never reported, and there is nothing to protect and no description. */
  lemma PropValueNumbers(e: ObjectFacts, code: u16, date: seq<u8>)
    ensures var v := PropValue(e, code, date);
      && (code == 0xDC01 ==> Reads(v, 4, e.storageId))
      && (code == 0xDC02 ==> Reads(v, 2, if e.isDir then 0x3001 else 0x3000))
      && (code in {0xDC03, 0xDC0D, 0xDC0E} ==> Reads(v, 2, 0))
      && (code == 0xDC05 ==> Reads(v, 2, if e.isDir then 1 else 0))
      && (code == 0xDC06 ==> Reads(v, 4, 0))
      && (code == 0xDC0B ==> Reads(v, 4, e.parent))
  {
    ReadsLE32(e.storageId);
    ReadsLE32(e.parent);
    ReadsLE32(0);
    ReadsLE16(0);
    ReadsLE16(1);
    ReadsLE16(MTP_FORMAT_ASSOCIATION);
    ReadsLE16(MTP_FORMAT_UNDEFINED);
  }

  /** The size in 64 bits, which no size on disk exceeds. */
  lemma PropValueSize(e: ObjectFacts, date: seq<u8>)
    requires e.size < 0x1_0000_0000_0000_0000
    ensures var v := PropValue(e, 0xDC04, date);
            |v| == 8 && FromLE(v[..4]) + 0x1_0000_0000 * FromLE(v[4..]) == e.size
  {
    var lo, hi: u32 := e.size % 0x1_0000_0000, e.size / 0x1_0000_0000;
    ReadsLE32(lo);
    ReadsLE32(hi);
    TwoWords(LE32(lo), LE32(hi));
    assert PropValue(e, 0xDC04, date) == LE32(lo) + LE32(hi);
  }

  lemma TwoWords(a: seq<u8>, b: seq<u8>)
    requires |a| == |b| == 4
    ensures var v := a + b; v[..4] == a && v[4..] == b
  {
  }

  /** The persistent identifier: handle, parent, storage and zero. */
  lemma PropValueUid(e: ObjectFacts, date: seq<u8>)
    ensures var v := PropValue(e, 0xDC41, date);
      && |v| == 16 && Reads(v[..4], 4, e.handle) && Reads(v[4..8], 4, e.parent)
      && Reads(v[8..12], 4, e.storageId) && Reads(v[12..], 4, 0)
  {
    FourParts(LE32(e.handle), LE32(e.parent), LE32(e.storageId), LE32(0));
    ReadsLE32(e.handle);
    ReadsLE32(e.parent);
    ReadsLE32(e.storageId);
    ReadsLE32(0);
  }

  lemma FourParts(a: seq<u8>, b: seq<u8>, c: seq<u8>, d: seq<u8>)
    requires |a| == |b| == |c| == |d| == 4
    ensures var v := a + b + c + d; v[..4] == a && v[4..8] == b && v[8..12] == c && v[12..] == d
  {
  }

  /** The strings: both names, both dates, and the display name, which is empty; any other code has no value. */
  lemma PropValueStrings(e: ObjectFacts, code: u16, date: seq<u8>)
    ensures var v := PropValue(e, code, date);
      && (code in {0xDC07, 0xDC44} ==> StringAt(v, 0) == (WireText(e.name), |v|))
      && (code in {0xDC08, 0xDC09} ==> StringAt(v, 0) == (WireText(date), |v|))
      && (code == 0xDCE0 ==> StringAt(v, 0) == ([], |v|))
      && (v == [] <==> code !in {0xDC01, 0xDC02, 0xDC03, 0xDC04, 0xDC05, 0xDC06, 0xDC07, 0xDC08, 0xDC09, 0xDC0B, 0xDC0D,
                                 0xDC0E, 0xDC41, 0xDC44, 0xDCE0})
  {
    WholeString(e.name);
    WholeString(date);
  }

  lemma WholeString(s: seq<u8>)
    ensures var v := EncodeString(s); StringAt(v, 0) == (WireText(s), |v|)
  {
    assert EncodeString(s)[0..0 + |EncodeString(s)|] == EncodeString(s);
    StringRead(s, EncodeString(s), 0);
  }

  method BuildObjectPropValueDataset(buffer: array<u8>, maxsize: int, e: ObjectFacts, code: u16) returns (ofs: int)
    requires maxsize <= buffer.Length
    modifies buffer
    ensures if PropValue(e, code, DEFAULT_DATE) == [] then ofs == 0 && buffer[..] == old(buffer[..])
            else Wrote(old(buffer[..]), 0, maxsize, PropValue(e, code, DEFAULT_DATE), buffer[..], ofs)
  {
    ghost var before := buffer[..];
    ghost var enc;
    if code == OBJECT_FORMAT {
      ofs := Poke16(buffer, 0, maxsize, if e.isDir then MTP_FORMAT_ASSOCIATION else MTP_FORMAT_UNDEFINED);
    } else if code == OBJECT_SIZE {
      ofs := Poke32(buffer, 0, maxsize, e.size % 0x1_0000_0000);
      ofs, enc := Then32(buffer, ofs, maxsize, e.size / 0x1_0000_0000, before, LE32(e.size % 0x1_0000_0000));
    } else if code == DISPLAY_NAME {
      ofs := Poke08(buffer, 0, maxsize, 0);
    } else if code == NAME || code == OBJECT_FILE_NAME {
      ofs := PokeString(buffer, 0, maxsize, e.name);
    } else if code == STORAGE_ID {
      ofs := Poke32(buffer, 0, maxsize, e.storageId);
    } else if code == PARENT_OBJECT {
      ofs := Poke32(buffer, 0, maxsize, e.parent);
    } else if code == HIDDEN || code == SYSTEM_OBJECT || code == PROTECTION_STATUS {
      ofs := Poke16(buffer, 0, maxsize, 0);
    } else if code == ASSOCIATION_TYPE {
      ofs := Poke16(buffer, 0, maxsize, if e.isDir then 1 else 0);
    } else if code == ASSOCIATION_DESC {
      ofs := Poke32(buffer, 0, maxsize, 0);
    } else if code == DATE_CREATED || code == DATE_MODIFIED {
      ofs := PokeString(buffer, 0, maxsize, DEFAULT_DATE);
    } else if code == PERSISTENT_UID {
      ofs := PokeUid(buffer, maxsize, e);
    } else {
      ofs := 0;
    }
  }

  method PokeUid(buffer: array<u8>, maxsize: int, e: ObjectFacts) returns (ofs: int)
    requires maxsize <= buffer.Length
    modifies buffer
    ensures Wrote(old(buffer[..]), 0, maxsize, PropValue(e, PERSISTENT_UID, DEFAULT_DATE), buffer[..], ofs)
  {
    ghost var before := buffer[..];
    ghost var enc;
    ofs := Poke32(buffer, 0, maxsize, e.handle);
    ofs, enc := Then32(buffer, ofs, maxsize, e.parent, before, LE32(e.handle));
    ofs, enc := Then32(buffer, ofs, maxsize, e.storageId, before, enc);
    ofs, enc := Then32(buffer, ofs, maxsize, 0, before, enc);
  }

  predicate ConsecutiveWords(e: ObjectFacts) {
    && e.parent == (e.handle + 1) % 0x1_0000_0000
    && e.storageId == (e.handle + 2) % 0x1_0000_0000
    && (e.handle + 3) % 0x1_0000_0000 == 0
  }

  lemma LE32Equal(a: int, w: u32)
    ensures LE32(a) == LE32(w) <==> w == a % 0x1_0000_0000
  {
    if LE32(a) == LE32(w) {
      var x := ReadBack(a);
      var y := ReadBack(w);
      assert x == y;
    } else if w == a % 0x1_0000_0000 {
      LE32Low(a);
    }
  }

  lemma ReadBack(a: int) returns (v: nat)
    ensures v == FromLE(LE32(a)) == a % 0x1_0000_0000
  {
    FromLE32(a);
    v := FromLE(LE32(a));
  }

  lemma LE32Low(a: int)
    ensures LE32(a) == LE32(a % 0x1_0000_0000)
  {
    var r, q := a % 0x1_0000_0000, a / 0x1_0000_0000;
    assert a == r + 0x1_0000_0000 * q;
    AddMultiple(r, 0x100_0000 * q);
    AddMultiple(r / 0x100, 0x1_0000 * q);
    AddMultiple(r / 0x1_0000, 0x100 * q);
    AddMultiple(r / 0x100_0000, q);
  }

  lemma AddMultiple(x: int, k: int)
    ensures (x + 0x100 * k) % 0x100 == x % 0x100 && (x + 0x100 * k) / 0x100 == x / 0x100 + k
  {
  }

  lemma UidWords(e: ObjectFacts, date: seq<u8>)
    ensures EncodeValue(MTP_TYPE_UINT128, Word(e.handle)) == PropValue(e, PERSISTENT_UID, date)
       <==> LE32(e.handle + 1) == LE32(e.parent) && LE32(e.handle + 2) == LE32(e.storageId) && LE32(e.handle + 3) == LE32(0)
  {
    FourWords(LE32(e.handle), LE32(e.handle + 1), LE32(e.handle + 2), LE32(e.handle + 3),
              LE32(e.handle), LE32(e.parent), LE32(e.storageId), LE32(0));
  }

  lemma UidAgreement(e: ObjectFacts, date: seq<u8>)
    ensures EncodeValue(MTP_TYPE_UINT128, Word(e.handle)) == PropValue(e, PERSISTENT_UID, date) <==> ConsecutiveWords(e)
  {
    var same := EncodeValue(MTP_TYPE_UINT128, Word(e.handle)) == PropValue(e, PERSISTENT_UID, date);
    assert same <==> ConsecutiveWords(e) by {
      UidWords(e, date);
      LE32Equal(e.handle + 1, e.parent);
      LE32Equal(e.handle + 2, e.storageId);
      LE32Equal(e.handle + 3, 0);
    }
  }

  lemma FourWords(a: seq<u8>, b: seq<u8>, c: seq<u8>, d: seq<u8>, w: seq<u8>, x: seq<u8>, y: seq<u8>, z: seq<u8>)
    requires |a| == |w| && |b| == |x| && |c| == |y| && |d| == |z|
    ensures a + b + c + d == w + x + y + z <==> a == w && b == x && c == y && d == z
  {
    if a + b + c + d == w + x + y + z {
      SplitEqual(a + b + c, d, w + x + y, z);
      SplitEqual(a + b, c, w + x, y);
      SplitEqual(a, b, w, x);
    }
  }

  lemma SplitEqual(a: seq<u8>, b: seq<u8>, x: seq<u8>, y: seq<u8>)
    requires |a| == |x| && a + b == x + y
    ensures a == x && b == y
  {
    assert a == (a + b)[..|a|] && b == (a + b)[|a|..];
  }

  /** A listed date has the bytes of a constant one exactly when it has its units; a plain
      string, such as any date in digits, exactly when it is that date. */
  ghost predicate DateAgrees(date: seq<u8>, fixed: seq<u8>, same: bool) {
    (same <==> Units(date) == fixed) && (Plain(date) ==> (same <==> date == fixed))
  }

  lemma ValuesAgree(e: ObjectFacts, created: seq<u8>, modified: seq<u8>, p: Prop, fixed: seq<u8>)
    requires p in ListedProps(e, created, modified) && TypeOf(p.code) != 0
    requires Plain(fixed) && 1 <= |fixed| <= 253
    ensures var same := EncodeValue(TypeOf(p.code), p.data) == PropValue(e, p.code, fixed);
            && (p.code !in {DATE_CREATED, DATE_MODIFIED, PERSISTENT_UID} ==> same)
            && (p.code in {DATE_CREATED, DATE_MODIFIED} ==> DateAgrees(p.data.Chars(), fixed, same))
            && (p.code == PERSISTENT_UID ==> (same <==> ConsecutiveWords(e)))
  {
    if p.code == PERSISTENT_UID {
      UidAgreement(e, fixed);
    } else if p.code == OBJECT_SIZE {
      LE32Low(e.size);
    } else if p.code in {DATE_CREATED, DATE_MODIFIED} {
      PlainAlike(p.data.Chars(), fixed);
    }
  }

  lemma PlainDefault()
    ensures Plain(DEFAULT_DATE) && |DEFAULT_DATE| == 15
  {
  }

  /** Each listed value has the bytes of the single-value dataset; the dates agree exactly when
      they are its constant date, and the persistent identifier only when the parent, the
      storage and zero follow the handle as consecutive words. */
  lemma ListAgreesWithValue(e: ObjectFacts, created: seq<u8>, modified: seq<u8>, p: Prop)
    requires p in ListedProps(e, created, modified) && TypeOf(p.code) != 0
    ensures var same := EncodeValue(TypeOf(p.code), p.data) == PropValue(e, p.code, DEFAULT_DATE);
            && (p.code !in {DATE_CREATED, DATE_MODIFIED, PERSISTENT_UID} ==> same)
            && (p.code in {DATE_CREATED, DATE_MODIFIED} ==> DateAgrees(p.data.Chars(), DEFAULT_DATE, same))
            && (p.code == PERSISTENT_UID ==> (same <==> ConsecutiveWords(e)))
  {
    PlainDefault();
    ValuesAgree(e, created, modified, p, DEFAULT_DATE);
  }
}
