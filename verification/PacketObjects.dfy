/**
 Class `Packet` as the source writes it: fields assigned one by one, a loop that moves a 16-bit counter
 over the sub header area, getters that search the parsed list, and a factory that copies host-order
 integers into a byte buffer.  Each is proved against `SubHeaders` and `Packets`.
 */
module PacketObjects {
  import opened Wrappers
  import opened ByteOrder
  import opened SubHeaders
  import opened Packets

  /** A stretch of a packet's buffer. */
  datatype Span = Span(offset: nat, length: nat) {
    function End(): nat {
      offset + length
    }
  }

  datatype SubHeader = SubHeader(size: uint16, kind: SubHeaderType, value: Span)

  /** The sub header lists the record: its span lies in the buffer and holds the record's value. */
  ghost predicate Lists(b: Bytes, h: SubHeader, r: Record) {
    && h.size == h.value.length
    && h.value.End() <= |b|
    && r == Record(h.kind, b[h.value.offset..h.value.End()])
  }

  ghost predicate ListsAll(b: Bytes, hs: seq<SubHeader>, rs: seq<Record>) {
    |hs| == |rs| && forall i | 0 <= i < |hs| :: Lists(b, hs[i], rs[i])
  }

  /** Each span starts three bytes after the previous one ends, and the last one ends at `end`. */
  ghost predicate Tiles(hs: seq<SubHeader>, end: int) {
    if hs == [] then end == FIELDS_SIZE
    else
      var n := |hs| - 1;
      hs[n].value.End() == end && Tiles(hs[..n], hs[n].value.offset - 3)
  }

  /** Same types and sizes; where the values lie follows from `Tiles` (see `ListsFromTiles`). */
  ghost predicate SameShape(hs: seq<SubHeader>, rs: seq<Record>) {
    |hs| == |rs| && forall i | 0 <= i < |hs| :: ShapeOf(hs[i], rs[i])
  }

  ghost predicate ShapeOf(h: SubHeader, r: Record) {
    h.kind == r.kind && h.size == h.value.length == |r.value|
  }

  /** The sub headers up to `count` have been parsed: they list the records that encode to this part of the area. */
  ghost predicate Parsed(order: Order, area: Bytes, hs: seq<SubHeader>, rs: seq<Record>, count: nat) {
    && SameShape(hs, rs) && Tiles(hs, FIELDS_SIZE + count)
    && AllWellFormed(rs) && count <= |area| && area[..count] == EncodeAll(order, rs)
  }

  /** What is parsed at a position of the area. */
  ghost function RecordAt(order: Order, area: Bytes, start: nat): Result<Record, PacketError>
    requires start < |area|
  {
    ParseOne(order, area[start..])
  }

  /** The sub header area of a buffer. */
  ghost predicate HeaderArea(b: Bytes, size: nat, area: Bytes) {
    FIELDS_SIZE + size <= |b| && area == b[FIELDS_SIZE..FIELDS_SIZE + size]
  }

  lemma NothingParsed(order: Order, area: Bytes)
    ensures Parsed(order, area, [], [], 0)
  {
  }

  /** One more record has been read. */
  lemma ParsedPush(order: Order, area: Bytes, hs: seq<SubHeader>, rs: seq<Record>, count: nat, h: SubHeader, r: Record)
    requires Parsed(order, area, hs, rs, count) && count < |area|
    requires RecordAt(order, area, count) == Success(r) && ShapeOf(h, r)
    requires h.value.offset == FIELDS_SIZE + count + 3
    ensures Parsed(order, area, hs + [h], rs + [r], count + 3 + h.size)
  {
    hide ParseOne, EncodeAll, AllWellFormed, Tiles, SameShape;
    EncodePush(order, area, rs, count);
    TilesPush(hs, h);
    ShapePush(hs, rs, h, r);
  }

  lemma ShapePush(hs: seq<SubHeader>, rs: seq<Record>, h: SubHeader, r: Record)
    requires SameShape(hs, rs) && ShapeOf(h, r)
    ensures SameShape(hs + [h], rs + [r])
  {
  }

  /** An area parsed to its end. */
  lemma ParsedAll(order: Order, b: Bytes, area: Bytes, hs: seq<SubHeader>, rs: seq<Record>)
    requires Parsed(order, area, hs, rs, |area|) && HeaderArea(b, |area|, area)
    ensures Parse(order, area) == Success(rs) && ListsAll(b, hs, rs) && Tiles(hs, FIELDS_SIZE + |area|)
  {
    hide Parse, EncodeAll, AllWellFormed, Tiles, SameShape, ListsAll;
    assert area[..|area|] == area;
    ParseOfEncode(order, rs);
    ListsFromTiles(order, b, hs, rs, FIELDS_SIZE + |area|);
  }

  lemma ParsedThenBad(order: Order, area: Bytes, hs: seq<SubHeader>, rs: seq<Record>, count: nat)
    requires Parsed(order, area, hs, rs, count) && count < |area| && RecordAt(order, area, count).Failure?
    ensures Parse(order, area) == Failure(RecordAt(order, area, count).error)
  {
    ParseFails(order, area, rs, count);
  }

  /** Tiling spans over an area that encodes the records hold exactly the records' values. */
  lemma {:induction false} ListsFromTiles(order: Order, b: Bytes, hs: seq<SubHeader>, rs: seq<Record>, end: nat)
    requires SameShape(hs, rs) && Tiles(hs, end) && AllWellFormed(rs)
    requires FIELDS_SIZE <= end <= |b| && b[FIELDS_SIZE..end] == EncodeAll(order, rs)
    ensures ListsAll(b, hs, rs)
  {
    if hs != [] {
      var n := |hs| - 1;
      var front, h, r := hs[..n], hs[n], rs[n];
      var start := h.value.offset - 3;
      LastShape(hs, rs, end);
      hide SameShape, Tiles, ListsAll, EncodeAll, AllWellFormed;
      SplitLast(order, b, rs, start, end);
      ListsFromTiles(order, b, front, rs[..n], start);
      assert Lists(b, h, r);
      hide Lists, ShapeOf;
      ListsPush(b, front, rs[..n], h, r);
      PushLast(hs);
      PushLast(rs);
    }
  }

  lemma PushLast<T>(s: seq<T>)
    requires s != []
    ensures s == s[..|s| - 1] + [s[|s| - 1]]
  {
  }

  lemma LastShape(hs: seq<SubHeader>, rs: seq<Record>, end: nat)
    requires hs != [] && SameShape(hs, rs) && Tiles(hs, end)
    ensures var n := |hs| - 1;
            && SameShape(hs[..n], rs[..n]) && ShapeOf(hs[n], rs[n])
            && hs[n].value.End() == end && Tiles(hs[..n], hs[n].value.offset - 3)
            && FIELDS_SIZE + 3 <= hs[n].value.offset
  {
    TilesMeaning(hs, end);
    assert ShapeOf(hs[|hs| - 1], rs[|hs| - 1]);
  }

  lemma ListsPush(b: Bytes, hs: seq<SubHeader>, rs: seq<Record>, h: SubHeader, r: Record)
    requires ListsAll(b, hs, rs) && Lists(b, h, r)
    ensures ListsAll(b, hs + [h], rs + [r])
  {
  }

  /** The encoding of a record list ends with that of its last record. */
  lemma EncodeLast(order: Order, rs: seq<Record>)
    requires rs != [] && AllWellFormed(rs)
    ensures var front, r := rs[..|rs| - 1], rs[|rs| - 1];
            && AllWellFormed(front) && WellFormed(r)
            && EncodeAll(order, rs) == EncodeAll(order, front) + Encode(order, r)
            && Encode(order, r)[3..] == r.value
  {
    var front, r := rs[..|rs| - 1], rs[|rs| - 1];
    assert AllWellFormed(front) && WellFormed(r);
    hide AllWellFormed, EncodeAll;
    EncodeAppend(order, front, r);
    assert rs == front + [r];
  }

  /** The last record of an encoded area occupies its end. */
  lemma SplitLast(order: Order, b: Bytes, rs: seq<Record>, start: nat, end: nat)
    requires rs != [] && AllWellFormed(rs)
    requires FIELDS_SIZE <= end <= |b| && b[FIELDS_SIZE..end] == EncodeAll(order, rs)
    requires start + 3 + |rs[|rs| - 1].value| == end
    ensures FIELDS_SIZE <= start && AllWellFormed(rs[..|rs| - 1])
    ensures b[FIELDS_SIZE..start] == EncodeAll(order, rs[..|rs| - 1])
    ensures b[start + 3..end] == rs[|rs| - 1].value
  {
    EncodeLast(order, rs);
    var front, r := rs[..|rs| - 1], rs[|rs| - 1];
    var tail := Encode(order, r);
    hide EncodeAll, Encode, AllWellFormed, WellFormed;
    CutTwo(b, FIELDS_SIZE, end, EncodeAll(order, front), tail);
  }

  lemma CutTwo(b: Bytes, from: nat, to: nat, head: Bytes, tail: Bytes)
    requires from <= to <= |b| && b[from..to] == head + tail && 3 <= |tail|
    ensures |head| + |tail| == to - from
    ensures b[from..to - |tail|] == head && b[to - |tail| + 3..to] == tail[3..]
  {
    assert b[from..to - |tail|] == b[from..to][..|head|];
    assert b[to - |tail| + 3..to] == b[from..to][|head| + 3..];
  }

  lemma TilesPush(hs: seq<SubHeader>, h: SubHeader)
    requires Tiles(hs, h.value.offset - 3)
    ensures Tiles(hs + [h], h.value.End())
  {
    assert (hs + [h])[..|hs|] == hs;
  }

  ghost function TotalSize(hs: seq<SubHeader>): nat {
    if hs == [] then 0 else TotalSize(hs[..|hs| - 1]) + 3 + hs[|hs| - 1].value.length
  }

  /** Spans are in order, disjoint and confined to the header area, and with their prefixes they fill it. */
  lemma {:induction false} TilesMeaning(hs: seq<SubHeader>, end: int)
    requires Tiles(hs, end)
    ensures FIELDS_SIZE + TotalSize(hs) == end
    ensures 3 * |hs| <= end - FIELDS_SIZE
    ensures forall i | 0 <= i < |hs| :: FIELDS_SIZE + 3 <= hs[i].value.offset && hs[i].value.End() <= end
    ensures forall i, j | 0 <= i < j < |hs| :: hs[i].value.End() + 3 <= hs[j].value.offset
  {
    if hs != [] {
      var n := |hs| - 1;
      var front := hs[..n];
      TilesMeaning(front, hs[n].value.offset - 3);
      assert forall i | 0 <= i < n :: front[i] == hs[i];
    }
  }

  ghost function ErrorOf<T>(r: Result<T, PacketError>): Option<PacketError> {
    if r.Failure? then Some(r.error) else None
  }

  /** An `int` difference compared with a `size_t`: converted to an unsigned 64-bit value. */
  function AsSizeT(n: int): nat
    requires -0x8000_0000 <= n
  {
    if 0 <= n then n else n + 0x1_0000_0000_0000_0000
  }

  /** A sum of two 16-bit values stored back into a `uint16_t`. */
  function Wrap16(n: nat): uint16
    requires n < 0x2_0000
  {
    if n < 0x1_0000 then n else n - 0x1_0000
  }

  /** The first listed sub header of a kind gives the first record of that kind. */
  lemma FirstMatch(b: Bytes, hs: seq<SubHeader>, rs: seq<Record>, kind: SubHeaderType, i: nat)
    requires ListsAll(b, hs, rs) && i < |hs| && hs[i].kind == kind
    requires forall j | 0 <= j < i :: hs[j].kind != kind
    ensures Lists(b, hs[i], rs[i])
    ensures FirstValue(rs, kind) == Some(b[hs[i].value.offset..hs[i].value.End()])
  {
    assert forall j | 0 <= j <= i :: Lists(b, hs[j], rs[j]);
    FirstValueMeaning(rs, kind);
  }

  lemma NoMatch(b: Bytes, hs: seq<SubHeader>, rs: seq<Record>, kind: SubHeaderType)
    requires ListsAll(b, hs, rs)
    requires forall j | 0 <= j < |hs| :: hs[j].kind != kind
    ensures FirstValue(rs, kind).None?
  {
    assert forall j | 0 <= j < |hs| :: Lists(b, hs[j], rs[j]);
    FirstValueMeaning(rs, kind);
  }

  class Packet {
    var buffer: Bytes
    var packetSize: uint32
    var version: PacketVersion
    var packetType: PacketType
    var headerSize: uint16
    var flags: PacketFlags
    var sequenceId: uint32
    var offsetPayload: nat
    var payloadSize: uint32
    var headers: seq<SubHeader>
    ghost var records: seq<Record>  // what `headers` lists

    /** The member initialiser; the body of the constructor, which can throw, is `Initialize`. */
    constructor (bytes: Bytes)
      ensures buffer == bytes && headers == []
    {
      buffer := bytes;
      packetSize, headerSize, sequenceId, offsetPayload, payloadSize := 0, 0, 0, 0, 0;
      version, packetType, flags := UnknownVersion, UnknownType, NoFlags;
      headers, records := [], [];
    }

    ghost predicate Valid()
      reads this
    {
      && headerSize <= MAX_HEADER_SIZE
      && offsetPayload == FIELDS_SIZE + headerSize
      && offsetPayload + payloadSize <= |buffer|
      && ListsAll(buffer, headers, records)
      && Tiles(headers, offsetPayload)
    }

    /** What the packet's accessors expose. */
    ghost function View(): Fields
      requires Valid()
      reads this
    {
      Fields(packetSize, version, packetType, headerSize, flags, sequenceId,
             buffer[FIELDS_SIZE..offsetPayload], records, buffer[offsetPayload..offsetPayload + payloadSize])
    }

    /** The parsed spans: at most 341, in order, disjoint, inside the header area, filling it with their prefixes. */
    lemma SpansFillHeaderArea()
      requires Valid()
      ensures TotalSize(headers) == headerSize && |headers| <= 341
      ensures forall i | 0 <= i < |headers| ::
                FIELDS_SIZE + 3 <= headers[i].value.offset && headers[i].value.End() <= offsetPayload
      ensures forall i, j | 0 <= i < j < |headers| :: headers[i].value.End() + 3 <= headers[j].value.offset
    {
      TilesMeaning(headers, offsetPayload);
    }

    /** The constructor's body. */
    method Initialize(order: Order) returns (error: Option<PacketError>)
      requires headers == []
      modifies this
      ensures buffer == old(buffer)
      ensures error == ErrorOf(Decode(order, buffer))
      ensures error == None ==> Valid() && Decode(order, buffer) == Success(View())
    {
      hide DecodeFixed, Decode, Parse, Tiles, ListsAll;
      DecodeParts(order, buffer);
      error := ReadFixedPart(order);
      if error == None {
        error := ParseSubHeaders(order, buffer[FIELDS_SIZE..FIELDS_SIZE + headerSize]);
      }
    }

    /** The constructor's body up to the sub headers. */
    method ReadFixedPart(order: Order) returns (error: Option<PacketError>)
      modifies this
      ensures buffer == old(buffer) && headers == old(headers)
      ensures error == ErrorOf(DecodeFixed(buffer))
      ensures error == None ==>
                && DecodeFixed(buffer) ==
                   Success(FixedPart(packetSize, version, packetType, headerSize, flags, sequenceId))
                && offsetPayload == FIELDS_SIZE + headerSize
                && payloadSize == packetSize - offsetPayload
    {
      hide U16, U32, Load16, Load32, Ntohs, Ntohl;
      packetSize := Truncate32(|buffer|);
      if packetSize < FIELDS_SIZE {
        return Some(PacketSizeError);
      }
      version := VersionFromByte(buffer[4]);
      if version == UnknownVersion {
        return Some(VersionError);
      }
      packetType := TypeFromByte(buffer[5]);
      if packetType == UnknownType {
        return Some(PacketTypeError);
      }
      headerSize := Load16(order, buffer, 6);
      NetworkLoad16(order, buffer, 6);
      headerSize := Ntohs(order, headerSize);
      if headerSize > MAX_HEADER_SIZE || headerSize > packetSize {
        return Some(HeaderSizeError);
      }
      var rawFlags := Load16(order, buffer, 8);
      rawFlags := Ntohs(order, rawFlags);
      flags := FlagsFromBytes(rawFlags);
      if flags != NoFlags {
        return Some(PacketFlagsError);
      }
      sequenceId := Load32(order, buffer, 10);
      NetworkLoad32(order, buffer, 10);
      sequenceId := Ntohl(order, sequenceId);
      offsetPayload := FIELDS_SIZE + headerSize;
      if offsetPayload > packetSize {
        return Some(OffsetPayloadError);
      }
      payloadSize := packetSize - offsetPayload;
      if payloadSize > MAX_PAYLOAD_SIZE {
        return Some(PayloadSizeError);
      }
      return None;
    }

    /**
     The sub header loop.  The 16-bit counter never wraps, every copy and every span lies in the header
     area, and the check after the loop never fires.
     */
    method ParseSubHeaders(order: Order, ghost area: Bytes) returns (error: Option<PacketError>)
      requires headers == [] && headerSize <= MAX_HEADER_SIZE && HeaderArea(buffer, headerSize, area)
      modifies this`headers, this`records
      ensures error == ErrorOf(Parse(order, area))
      ensures error == None ==> ListsAll(buffer, headers, records) && Tiles(headers, FIELDS_SIZE + headerSize)
      ensures error == None ==> Parse(order, area) == Success(records)
      ensures error != Some(InvalidHeaderSize)
    {
      var count: uint16 := 0;
      records := [];
      NothingParsed(order, area);
      assert |area| == headerSize;
      hide HeaderArea, RecordAt, Parsed, Parse, ListsAll, Tiles;
      while count < headerSize
        invariant count <= headerSize && Parsed(order, area, headers, records, count)
        decreases headerSize - count
      {
        error, count := PushSubHeader(order, area, count);
        if error != None {
          return;
        }
      }
      if count != headerSize {
        return Some(InvalidHeaderSize);
      }
      ParsedAll(order, buffer, area, headers, records);
      return None;
    }

    /** The loop's body: one pass lists the sub header at `start` and moves the counter behind it. */
    method PushSubHeader(order: Order, ghost area: Bytes, start: uint16)
      returns (error: Option<PacketError>, count: uint16)
      requires start < headerSize <= MAX_HEADER_SIZE && HeaderArea(buffer, headerSize, area)
      requires |area| == headerSize && Parsed(order, area, headers, records, start)
      modifies this`headers, this`records
      ensures error == None ==> start < count <= headerSize && Parsed(order, area, headers, records, count)
      ensures error != None ==> error == ErrorOf(Parse(order, area)) && error != Some(InvalidHeaderSize)
    {
      hide HeaderArea, RecordAt, Parsed, Parse;
      ghost var r;
      var next;
      next, r := NextSubHeader(order, area, start);
      if next.Failure? {
        ParsedThenBad(order, area, headers, records, start);
        return Some(next.error), start;
      }
      ParsedPush(order, area, headers, records, start, next.value, r);
      headers, records := headers + [next.value], records + [r];
      return None, Wrap16(start + 3 + next.value.size);
    }

    /** The loop's body up to the push: the sub header at `start`. */
    method NextSubHeader(order: Order, ghost area: Bytes, start: uint16)
      returns (next: Result<SubHeader, PacketError>, ghost r: Record)
      requires start < headerSize <= MAX_HEADER_SIZE && HeaderArea(buffer, headerSize, area)
      requires |area| == headerSize
      ensures RecordAt(order, area, start) == if next.Failure? then Failure(next.error) else Success(r)
      ensures next.Failure? ==> next.error != InvalidHeaderSize
      ensures next.Success? ==> && ShapeOf(next.value, r) && next.value.size == next.value.value.length
                                && next.value.value.offset == FIELDS_SIZE + start + 3
                                && next.value.value.End() <= FIELDS_SIZE + headerSize
    {
      r := Record(Unknown, []);
      ghost var rest := area[start..];
      var count: uint16 := start;
      if AsSizeT(headerSize - count) < 2 {
        return Failure(IncompleteSubHeaderSize), r;
      }
      var size := Load16(order, buffer, FIELDS_SIZE + count);
      assert size == Load16(order, rest, 0);
      if size > MAX_HEADER_SIZE {
        return Failure(InvalidSubHeaderSize), r;
      }
      count := Wrap16(count + 2);
      if AsSizeT(headerSize - count) < 1 {
        return Failure(IncompleteSubHeaderType), r;
      }
      assert rest[2] == buffer[FIELDS_SIZE + count];
      var kind := SubHeaderFromByte(buffer[FIELDS_SIZE + count]);
      if kind == Unknown {
        return Failure(InvalidSubHeaderType), r;
      }
      count := Wrap16(count + 1);
      if headerSize - count < size {
        return Failure(IncompleteSubHeaderValue), r;
      }
      return Success(SubHeader(size, kind, Span(FIELDS_SIZE + count, size))), Record(kind, rest[3..3 + size]);
    }

    method SubHeaderGetUint8(kind: SubHeaderType) returns (r: Option<byte>)
      requires Valid()
      ensures r == Uint8Value(records, kind)
    {
      hide ListsAll, Tiles, FirstValue;
      for i := 0 to |headers|
        invariant forall j | 0 <= j < i :: headers[j].kind != kind
      {
        if headers[i].kind == kind {
          FirstMatch(buffer, headers, records, kind, i);
          if headers[i].value.length != 1 {
            return None;
          }
          return Some(buffer[headers[i].value.offset]);
        }
      }
      NoMatch(buffer, headers, records, kind);
      return None;
    }

    method SubHeaderGetUint32(order: Order, kind: SubHeaderType) returns (r: Option<uint32>)
      requires Valid()
      ensures r == Uint32Value(records, kind)
    {
      hide ListsAll, Tiles, FirstValue;
      for i := 0 to |headers|
        invariant forall j | 0 <= j < i :: headers[j].kind != kind
      {
        if headers[i].kind == kind {
          FirstMatch(buffer, headers, records, kind, i);
          if headers[i].value.length != 4 {
            return None;
          }
          var span := buffer[headers[i].value.offset..headers[i].value.End()];
          NetworkLoad32(order, span, 0);
          return Some(Ntohl(order, Load32(order, span, 0)));
        }
      }
      NoMatch(buffer, headers, records, kind);
      return None;
    }

    method SubHeaderGetString(kind: SubHeaderType) returns (r: Option<Bytes>)
      requires Valid()
      ensures r == FirstValue(records, kind)
    {
      hide ListsAll, Tiles, FirstValue;
      for i := 0 to |headers|
        invariant forall j | 0 <= j < i :: headers[j].kind != kind
      {
        if headers[i].kind == kind {
          FirstMatch(buffer, headers, records, kind, i);
          return Some(buffer[headers[i].value.offset..headers[i].value.End()]);
        }
      }
      NoMatch(buffer, headers, records, kind);
      return None;
    }

    static method Create(order: Order, version: PacketVersion, packetType: PacketType, flags: PacketFlags,
                         sequenceId: uint32, headers: Bytes, payload: Bytes)
      returns (r: Result<OutgoingPacket, PacketError>)
      ensures r == Packets.Create(version, packetType, flags, sequenceId, headers, payload)
    {
      if version == UnknownVersion {
        return Failure(VersionError);
      }
      var versionByte := VersionToByte(version);
      if packetType == UnknownType {
        return Failure(PacketTypeError);
      }
      var typeByte := TypeToByte(packetType);
      if |headers| > MAX_HEADER_SIZE {
        return Failure(HeaderSizeError);
      }
      var headerSize: uint16 := |headers|;
      if flags != NoFlags {
        return Failure(PacketFlagsError);
      }
      var flagBits := FlagsToBytes(flags);
      if |payload| > MAX_PAYLOAD_SIZE {
        return Failure(PayloadSizeError);
      }
      var packetSize: uint32 := FIELDS_SIZE + |headers| + |payload|;

      var fields := AssembleFields(order, packetSize, versionByte, typeByte, headerSize, flagBits, sequenceId);
      return Success(OutgoingPacket(fields, headers, payload));
    }
  }

  /** The fixed part of a created packet, copied field by field into a zeroed buffer. */
  method AssembleFields(order: Order, packetSize: uint32, versionByte: byte, typeByte: byte, headerSize: uint16,
                        flagBits: uint16, sequenceId: uint32)
    returns (bytes: Bytes)
    ensures bytes == Put32(packetSize) + [versionByte, typeByte] + Put16(headerSize) + Put16(flagBits)
                     + Put32(sequenceId)
  {
    NetworkStore32(order, packetSize);
    NetworkStore16(order, headerSize);
    NetworkStore16(order, flagBits);
    NetworkStore32(order, sequenceId);
    hide Store16, Store32, Ntohs, Ntohl, Put16, Put32, Overwrite;
    var fields := new byte[FIELDS_SIZE](_ => 0);
    ghost var was := fields[..];
    CopyInto(fields, 0, Store32(order, Ntohl(order, packetSize)));
    CopyInto(fields, 5, [typeByte]);
    CopyInto(fields, 4, [versionByte]);
    CopyInto(fields, 6, Store16(order, Ntohs(order, headerSize)));
    CopyInto(fields, 8, Store16(order, Ntohs(order, flagBits)));
    CopyInto(fields, 10, Store32(order, Ntohl(order, sequenceId)));
    FieldsAssembled(was, packetSize, versionByte, typeByte, headerSize, flagBits, sequenceId);
    return fields[..];
  }

  lemma DecodeParts(order: Order, b: Bytes)
    ensures DecodeFixed(b).Failure? ==> Decode(order, b) == Failure(DecodeFixed(b).error)
    ensures DecodeFixed(b).Success? ==>
              var p := DecodeFixed(b).value;
              var end := FIELDS_SIZE + p.headerSize;
              var area := b[FIELDS_SIZE..end];
              && ErrorOf(Decode(order, b)) == ErrorOf(Parse(order, area))
              && forall rs :: Parse(order, area) == Success(rs) ==>
                   Decode(order, b) ==
                   Success(Fields(p.packetSize, p.version, p.packetType, p.headerSize, p.flags, p.sequenceId,
                                  area, rs, b[end..p.packetSize]))
  {
  }

  /** The six copies fill the fixed part completely, whatever was in it. */
  lemma FieldsAssembled(s: Bytes, size: uint32, version: byte, packetType: byte, headerSize: uint16, flags: uint16,
                        sequenceId: uint32)
    requires |s| == FIELDS_SIZE
    ensures var s1 := Overwrite(Overwrite(Overwrite(s, 0, Put32(size)), 5, [packetType]), 4, [version]);
            Overwrite(Overwrite(Overwrite(s1, 6, Put16(headerSize)), 8, Put16(flags)), 10, Put32(sequenceId)) ==
            Put32(size) + [version, packetType] + Put16(headerSize) + Put16(flags) + Put32(sequenceId)
  {
  }

  /** `std::memcpy` into a vector's storage. */
  method CopyInto(dst: array<byte>, offset: nat, src: Bytes)
    requires offset + |src| <= dst.Length
    modifies dst
    ensures dst[..] == Overwrite(old(dst[..]), offset, src)
  {
    forall i | 0 <= i < |src| {
      dst[offset + i] := src[i];
    }
  }

  /** What a reader of a created packet finds: each getter is first-match lookup on the list that was encoded. */
  method CreateAndRead(order: Order, packetType: PacketType, sequenceId: uint32, ghost rs: seq<Record>,
                       area: Bytes, payload: Bytes, kind: SubHeaderType)
    returns (small: Option<byte>, large: Option<uint32>, text: Option<Bytes>)
    requires packetType in {Text, File, Video}
    requires AllWellFormed(rs) && area == EncodeAll(order, rs) && |area| <= 1024 && |payload| <= 1024 * 1024
    ensures small == Uint8Value(rs, kind) && large == Uint32Value(rs, kind) && text == FirstValue(rs, kind)
    ensures GettersGive(rs, kind, small, large, text)
  {
    RoundTrip(order, packetType, sequenceId, rs, payload);
    var created := Packet.Create(order, V1, packetType, NoFlags, sequenceId, area, payload);
    var packet := new Packet(created.value.Wire());
    var error := packet.Initialize(order);
    assert packet.View().records == rs;
    small := packet.SubHeaderGetUint8(kind);
    large := packet.SubHeaderGetUint32(order, kind);
    text := packet.SubHeaderGetString(kind);
    GettersMeaning(rs, kind);
  }
}
