/**
 The packet format: what a buffer decodes to, what `Packet::create` emits, and how the two fit together.

 `Decode` is the meaning of the `Packet` constructor and `Create` that of `Packet::create`; the bodies
 that work field by field on host-order integers are in module `PacketObjects`.
 */
module Packets {
  import opened Wrappers
  import opened ByteOrder
  import opened SubHeaders

  const FIELDS_SIZE: nat := 14
  const MAX_PAYLOAD_SIZE: nat := 1024 * 1024

  // A variable of an enumeration type can hold any value of the underlying integer, also one without a name.
  type UnnamedVersion = b: byte | 1 < b witness 2
  type UnnamedType = b: byte | 5 < b witness 6
  type UnnamedFlags = n: uint16 | 0 < n witness 1

  datatype PacketVersion = UnknownVersion | V1 | OtherVersion(value: UnnamedVersion)
  datatype PacketType = UnknownType | Auth | Account | Text | File | Video | OtherType(value: UnnamedType)
  datatype PacketFlags = NoFlags | OtherFlags(bits: UnnamedFlags)

  function VersionToByte(v: PacketVersion): byte {
    if v == V1 then 1 else 0
  }

  function VersionFromByte(b: byte): PacketVersion {
    if b == 1 then V1 else UnknownVersion
  }

  function TypeToByte(t: PacketType): byte {
    match t
    case Text => 1
    case File => 2
    case Video => 3
    case _ => 0
  }

  function TypeFromByte(b: byte): PacketType {
    match b
    case 1 => Text
    case 2 => File
    case 3 => Video
    case _ => UnknownType
  }

  function FlagsToBytes(f: PacketFlags): uint16 {
    0
  }

  function FlagsFromBytes(n: uint16): PacketFlags {
    NoFlags
  }

  datatype Fields = Fields(
    packetSize: uint32, version: PacketVersion, packetType: PacketType, headerSize: uint16,
    flags: PacketFlags, sequenceId: uint32, headers: Bytes, records: seq<Record>, payload: Bytes)

  /** `static_cast<uint32_t>(buffer_.size())` */
  function Truncate32(n: nat): uint32 {
    if n < 0x1_0000_0000 then n else n % 0x1_0000_0000
  }

  /** The fields at fixed offsets. */
  datatype FixedPart = FixedPart(
    packetSize: uint32, version: PacketVersion, packetType: PacketType, headerSize: uint16,
    flags: PacketFlags, sequenceId: uint32)

  function DecodeFixed(b: Bytes): (r: Result<FixedPart, PacketError>)
    ensures r.Success? ==> && FIELDS_SIZE + r.value.headerSize <= r.value.packetSize <= |b|
                           && r.value.headerSize <= MAX_HEADER_SIZE
                           && r.value.packetSize - (FIELDS_SIZE + r.value.headerSize) <= MAX_PAYLOAD_SIZE
  {
    var size := Truncate32(|b|);
    if size < FIELDS_SIZE then Failure(PacketSizeError)
    else if VersionFromByte(b[4]) == UnknownVersion then Failure(VersionError)
    else if TypeFromByte(b[5]) == UnknownType then Failure(PacketTypeError)
    else
      var h := U16(b, 6);
      if h > MAX_HEADER_SIZE || h > size then Failure(HeaderSizeError)
      else if FlagsFromBytes(U16(b, 8)) != NoFlags then Failure(PacketFlagsError)
      else if FIELDS_SIZE + h > size then Failure(OffsetPayloadError)
      else if size - (FIELDS_SIZE + h) > MAX_PAYLOAD_SIZE then Failure(PayloadSizeError)
      else Success(FixedPart(size, VersionFromByte(b[4]), TypeFromByte(b[5]), h,
                             FlagsFromBytes(U16(b, 8)), U32(b, 10)))
  }

  function Decode(order: Order, b: Bytes): Result<Fields, PacketError> {
    var p :- DecodeFixed(b);
    var end := FIELDS_SIZE + p.headerSize;
    var records :- Parse(order, b[FIELDS_SIZE..end]);
    Success(Fields(p.packetSize, p.version, p.packetType, p.headerSize, p.flags, p.sequenceId,
                   b[FIELDS_SIZE..end], records, b[end..p.packetSize]))
  }

  /** Which values of the fixed fields are accepted, and where the header area then lies. */
  ghost predicate AcceptsFixed(b: Bytes, h: nat) {
    var size := |b| % 0x1_0000_0000;
    && 14 <= size
    && b[4] == 1
    && 1 <= b[5] <= 3
    && h == 0x100 * (b[6] as int) + b[7]
    && h <= 1024
    && 14 + h <= size
    && size - 14 - h <= 1024 * 1024
  }

  /** The acceptance set, stated without reference to the decoding steps. */
  ghost predicate Accepts(order: Order, b: Bytes) {
    exists h: nat :: AcceptsFixed(b, h) && InLanguage(order, b[14..14 + h])
  }

  lemma AcceptsFixedPart(b: Bytes)
    ensures forall h: nat :: AcceptsFixed(b, h) <==> DecodeFixed(b).Success? && DecodeFixed(b).value.headerSize == h
  {
  }

  lemma AcceptanceSet(order: Order, b: Bytes)
    ensures Decode(order, b).Success? <==> Accepts(order, b)
  {
    AcceptsFixedPart(b);
    if DecodeFixed(b).Success? {
      var h := DecodeFixed(b).value.headerSize;
      assert AcceptsFixed(b, h);
      ParserExactness(order, b[14..14 + h]);
    }
  }

  /** An accepted buffer, byte by byte. */
  lemma DecodedFields(order: Order, b: Bytes)
    requires Decode(order, b).Success?
    ensures var f := Decode(order, b).value;
            var h := 0x100 * (b[6] as int) + b[7];
            && 14 + h <= f.packetSize <= |b|
            && f.packetSize == |b| % 0x1_0000_0000
            && f.version == V1 && b[4] == 1
            && (b[5] == 1 <==> f.packetType == Text)
            && (b[5] == 2 <==> f.packetType == File)
            && (b[5] == 3 <==> f.packetType == Video)
            && f.headerSize == h
            && f.flags == NoFlags
            && f.sequenceId == 0x100_0000 * (b[10] as int) + 0x1_0000 * (b[11] as int) + 0x100 * (b[12] as int) + b[13]
            && f.headers == b[14..14 + h]
            && f.payload == b[14 + h..f.packetSize]
  {
  }

  /** Why a buffer is rejected, the first thing wrong being the one reported; flags are never wrong. */
  lemma DecodeErrors(order: Order, b: Bytes, error: PacketError)
    ensures var size := |b| % 0x1_0000_0000;
            Decode(order, b) == Failure(error) <==>
            if size < 14 then error == PacketSizeError
            else if b[4] != 1 then error == VersionError
            else if b[5] !in {1, 2, 3} then error == PacketTypeError
            else
              var h := 0x100 * (b[6] as int) + b[7];
              if h > 1024 || h > size then error == HeaderSizeError
              else if 14 + h > size then error == OffsetPayloadError
              else if size - 14 - h > 1024 * 1024 then error == PayloadSizeError
              else Parse(order, b[14..14 + h]) == Failure(error)
  {
    hide Parse;
  }

  /** Bytes 0..3 and 8..9 have no influence on acceptance, on the reported error or on any decoded field. */
  lemma IgnoredBytes(order: Order, b: Bytes, c: Bytes)
    requires |b| == |c|
    requires forall i | 0 <= i < |b| && !(0 <= i < 4) && !(8 <= i < 10) :: b[i] == c[i]
    ensures Decode(order, b) == Decode(order, c)
  {
    assert DecodeFixed(b) == DecodeFixed(c);
    if DecodeFixed(b).Success? {
      var p := DecodeFixed(b).value;
      hide DecodeFixed, Parse;
      var end := FIELDS_SIZE + p.headerSize;
      assert b[FIELDS_SIZE..end] == c[FIELDS_SIZE..end];
      assert b[end..p.packetSize] == c[end..p.packetSize];
    }
  }

  /** Whether `Router::route` hands a packet on, to `AuthHandler`; for any other type it does nothing. */
  predicate RoutesToAuth(t: PacketType) {
    t == Auth
  }

  /** No decoded packet is handed on. */
  lemma DecodedType(order: Order, b: Bytes)
    requires Decode(order, b).Success?
    ensures Decode(order, b).value.packetType in {Text, File, Video}
    ensures !RoutesToAuth(Decode(order, b).value.packetType)
  {
  }

  /** No decoded packet carries an `Action` sub header, the one `AuthHandler` looks for. */
  lemma ActionNeverFound(order: Order, b: Bytes)
    requires Decode(order, b).Success?
    ensures FirstValue(Decode(order, b).value.records, Action).None?
    ensures Uint8Value(Decode(order, b).value.records, Action).None?
  {
    var f := Decode(order, b).value;
    EncodeOfParse(order, f.headers);
    FirstValueMeaning(f.records, Action);
    assert forall i | 0 <= i < |f.records| :: WellFormed(f.records[i]);
  }

  // ----- Creation -----

  datatype OutgoingPacket = OutgoingPacket(fields: Bytes, headers: Bytes, payload: Bytes) {
    /** The three buffers in the order in which they are written. */
    function Wire(): Bytes {
      fields + headers + payload
    }
  }

  function Create(version: PacketVersion, packetType: PacketType, flags: PacketFlags, sequenceId: uint32,
                  headers: Bytes, payload: Bytes): Result<OutgoingPacket, PacketError>
  {
    if version == UnknownVersion then Failure(VersionError)
    else if packetType == UnknownType then Failure(PacketTypeError)
    else if |headers| > MAX_HEADER_SIZE then Failure(HeaderSizeError)
    else if flags != NoFlags then Failure(PacketFlagsError)
    else if |payload| > MAX_PAYLOAD_SIZE then Failure(PayloadSizeError)
    else
      Success(OutgoingPacket(
                Put32(FIELDS_SIZE + |headers| + |payload|)
                + [VersionToByte(version), TypeToByte(packetType)]
                + Put16(|headers|) + Put16(FlagsToBytes(flags)) + Put32(sequenceId),
                headers, payload))
  }

  /** Where each field lies in a buffer that carries the given fields; bytes 0..3 and 8..9 are free. */
  ghost predicate LaidOut(w: Bytes, packetType: PacketType, sequenceId: uint32, headers: Bytes, payload: Bytes) {
    && |headers| <= MAX_HEADER_SIZE && |payload| <= MAX_PAYLOAD_SIZE
    && |w| == 14 + |headers| + |payload|
    && w[4] == 1
    && w[5] == TypeToByte(packetType)
    && U16(w, 6) == |headers|
    && U32(w, 10) == sequenceId
    && w[14..14 + |headers|] == headers
    && w[14 + |headers|..] == payload
  }

  lemma WireLayout(version: PacketVersion, packetType: PacketType, flags: PacketFlags, sequenceId: uint32,
                   headers: Bytes, payload: Bytes)
    requires Create(version, packetType, flags, sequenceId, headers, payload).Success?
    ensures var w := Create(version, packetType, flags, sequenceId, headers, payload).value.Wire();
            && |w| == 14 + |headers| + |payload|
            && w[..4] == Put32(|w|)
            && w[8..10] == [0, 0]
            && w[4] == VersionToByte(version)
            && (version == V1 ==> LaidOut(w, packetType, sequenceId, headers, payload))
  {
    var o := Create(version, packetType, flags, sequenceId, headers, payload).value;
    var w := o.Wire();
    assert |o.fields| == 14;
    assert o.fields[..4] == Put32(|w|);
    assert w[..4] == o.fields[..4];
    assert w[8..10] == [0, 0];
    PutGet16(|headers|);
    PutGet32(sequenceId);
    assert U16(w, 6) == U16(Put16(|headers|), 0) && U32(w, 10) == U32(Put32(sequenceId), 0);
  }

  lemma FixedLaidOut(w: Bytes, packetType: PacketType, sequenceId: uint32, headers: Bytes, payload: Bytes)
    requires LaidOut(w, packetType, sequenceId, headers, payload)
    ensures DecodeFixed(w) ==
            if packetType in {Text, File, Video}
            then Success(FixedPart(|w|, V1, packetType, |headers|, NoFlags, sequenceId))
            else Failure(PacketTypeError)
    ensures w[FIELDS_SIZE..FIELDS_SIZE + |headers|] == headers && w[FIELDS_SIZE + |headers|..|w|] == payload
  {
    assert Truncate32(|w|) == |w|;
  }

  lemma DecodeLaidOut(order: Order, w: Bytes, packetType: PacketType, sequenceId: uint32, headers: Bytes,
                      payload: Bytes)
    requires LaidOut(w, packetType, sequenceId, headers, payload)
    ensures Decode(order, w).Success? <==> packetType in {Text, File, Video} && Parse(order, headers).Success?
    ensures packetType !in {Text, File, Video} ==> Decode(order, w) == Failure(PacketTypeError)
    ensures packetType in {Text, File, Video} && Parse(order, headers).Failure? ==>
              Decode(order, w) == Failure(Parse(order, headers).error)
    ensures Decode(order, w).Success? ==>
              Decode(order, w).value ==
              Fields(|w|, V1, packetType, |headers|, NoFlags, sequenceId, headers, Parse(order, headers).value, payload)
  {
    FixedLaidOut(w, packetType, sequenceId, headers, payload);
    hide DecodeFixed, Parse, LaidOut;
  }

  /** A buffer with an unknown version byte is rejected for it. */
  lemma DecodeOtherVersion(order: Order, w: Bytes)
    requires 14 <= |w| < 0x1_0000_0000 && w[4] != 1
    ensures Decode(order, w) == Failure(VersionError)
  {
  }

  /**
   Decoding what `Create` emitted: accepted exactly when version and type have a byte of their own and the
   header area is well formed, and then every field comes back unchanged.
   */
  lemma CreateThenDecode(order: Order, version: PacketVersion, packetType: PacketType, flags: PacketFlags,
                         sequenceId: uint32, headers: Bytes, payload: Bytes)
    requires Create(version, packetType, flags, sequenceId, headers, payload).Success?
    ensures var w := Create(version, packetType, flags, sequenceId, headers, payload).value.Wire();
            && |w| == 14 + |headers| + |payload|
            && (version == V1 && packetType in {Text, File, Video} && InLanguage(order, headers) ==>
                  && Parse(order, headers).Success?
                  && Decode(order, w) ==
                     Success(Fields(|w|, version, packetType, |headers|, flags, sequenceId, headers,
                                    Parse(order, headers).value, payload)))
            && (!InLanguage(order, headers) ==> Decode(order, w).Failure?)
            && (version == V1 && packetType !in {Text, File, Video} ==> Decode(order, w) == Failure(PacketTypeError))
            && (version != V1 ==> Decode(order, w) == Failure(VersionError))
  {
    var w := Create(version, packetType, flags, sequenceId, headers, payload).value.Wire();
    CreateSucceeds(version, packetType, flags, sequenceId, headers, payload);
    hide Create, Decode, Parse, LaidOut, InLanguage;
    WireLayout(version, packetType, flags, sequenceId, headers, payload);
    if version == V1 {
      DecodeLaidOut(order, w, packetType, sequenceId, headers, payload);
    } else {
      DecodeOtherVersion(order, w);
    }
    ParserExactness(order, headers);
  }

  /**
   `Create` fails exactly outside the documented limits and for the values named `Unknown`; a version or type
   without a name passes and is emitted as byte 0.
   */
  lemma CreateSucceeds(version: PacketVersion, packetType: PacketType, flags: PacketFlags, sequenceId: uint32,
                       headers: Bytes, payload: Bytes)
    ensures var c := Create(version, packetType, flags, sequenceId, headers, payload);
            && (c.Success? <==> && version != UnknownVersion && packetType != UnknownType && flags == NoFlags
                                && |headers| <= 1024 && |payload| <= 1024 * 1024)
            && (c.Success? ==>
                  && (c.value.Wire()[4] == 1 <==> version == V1)
                  && (c.value.Wire()[5] == 0 <==> packetType !in {Text, File, Video})
                  && (version != V1 ==> c.value.Wire()[4] == 0))
  {
  }

  /** What `Packet::create` is given apart from flags, of which it takes none. */
  datatype Message = Message(
    version: PacketVersion, packetType: PacketType, sequenceId: uint32, headers: Bytes, payload: Bytes)
  {
    predicate Creatable() {
      && version != UnknownVersion && packetType != UnknownType
      && |headers| <= 1024 && |payload| <= 1024 * 1024
    }
  }

  /** The bytes of a created packet. */
  function Created(m: Message): Bytes
    requires m.Creatable()
  {
    Create(m.version, m.packetType, NoFlags, m.sequenceId, m.headers, m.payload).value.Wire()
  }

  lemma CutFields(first: Bytes, version: byte, code: byte, size: Bytes, id: Bytes)
    requires |first| == 4 && |size| == 2 && |id| == 4
    ensures var f := first + [version, code] + size + [0, 0] + id;
            && |f| == 14 && f[..4] == first && f[4] == version && f[5] == code
            && f[6..10] == size + [0, 0] && f[10..] == id
  {
  }

  lemma CutCreated(fields: Bytes, headers: Bytes, payload: Bytes)
    requires |fields| == 14
    ensures var w := fields + headers + payload;
            && w[..4] == fields[..4] && w[4] == fields[4] && w[5] == fields[5] && w[6..10] == fields[6..10]
            && w[10..14] == fields[10..] && w[14..] == headers + payload
  {
  }

  /** A created packet, byte by byte. */
  lemma CreatedBytes(m: Message)
    requires m.Creatable()
    ensures var n, h, s := 14 + |m.headers| + |m.payload|, |m.headers|, m.sequenceId;
            && |Created(m)| == n
            && Created(m)[..4] == [0, n / 0x1_0000, n / 0x100 % 0x100, n % 0x100]
            && Created(m)[4] == (if m.version == V1 then 1 else 0)
            && (Created(m)[5] == 1 <==> m.packetType == Text)
            && (Created(m)[5] == 2 <==> m.packetType == File)
            && (Created(m)[5] == 3 <==> m.packetType == Video)
            && (Created(m)[5] == 0 <==> m.packetType !in {Text, File, Video})
            && Created(m)[6..10] == [h / 0x100, h % 0x100, 0, 0]
            && Created(m)[10..14] == [s / 0x100_0000, s / 0x1_0000 % 0x100, s / 0x100 % 0x100, s % 0x100]
            && Created(m)[14..] == m.headers + m.payload
  {
    var n := 14 + |m.headers| + |m.payload|;
    assert n / 0x100_0000 == 0 && n / 0x1_0000 % 0x100 == n / 0x1_0000;
    var o := Create(m.version, m.packetType, NoFlags, m.sequenceId, m.headers, m.payload).value;
    var first, size, id := Put32(n), Put16(|m.headers|), Put32(m.sequenceId);
    var version, code := VersionToByte(m.version), TypeToByte(m.packetType);
    assert first == [0, n / 0x1_0000, n / 0x100 % 0x100, n % 0x100];
    assert size + [0, 0] == [|m.headers| / 0x100, |m.headers| % 0x100, 0, 0];
    assert o.fields == first + [version, code] + size + [0, 0] + id;
    assert Created(m) == o.fields + m.headers + m.payload;
    CutFields(first, version, code, size, id);
    CutCreated(o.fields, m.headers, m.payload);
  }

  /** Why a packet is not created, the first thing wrong being the one reported. */
  lemma CreateErrors(version: PacketVersion, packetType: PacketType, flags: PacketFlags, sequenceId: uint32,
                     headers: Bytes, payload: Bytes, error: PacketError)
    ensures Create(version, packetType, flags, sequenceId, headers, payload) == Failure(error) <==>
            if version == UnknownVersion then error == VersionError
            else if packetType == UnknownType then error == PacketTypeError
            else if |headers| > 1024 then error == HeaderSizeError
            else if flags != NoFlags then error == PacketFlagsError
            else |payload| > 1024 * 1024 && error == PayloadSizeError
  {
  }

  /** The round trip: create from fields and a record list, decode, and get all of them back. */
  lemma RoundTrip(order: Order, packetType: PacketType, sequenceId: uint32, rs: seq<Record>, payload: Bytes)
    requires packetType in {Text, File, Video}
    requires AllWellFormed(rs) && |EncodeAll(order, rs)| <= 1024 && |payload| <= 1024 * 1024
    ensures var headers := EncodeAll(order, rs);
            var c := Create(V1, packetType, NoFlags, sequenceId, headers, payload);
            && c.Success?
            && Decode(order, c.value.Wire()) ==
               Success(Fields(14 + |headers| + |payload|, V1, packetType, |headers|, NoFlags, sequenceId,
                              headers, rs, payload))
  {
    hide Create, Decode, Parse, LaidOut, EncodeAll;
    var headers := EncodeAll(order, rs);
    ParseOfEncode(order, rs);
    CreateSucceeds(V1, packetType, NoFlags, sequenceId, headers, payload);
    WireLayout(V1, packetType, NoFlags, sequenceId, headers, payload);
    var w := Create(V1, packetType, NoFlags, sequenceId, headers, payload).value.Wire();
    DecodeLaidOut(order, w, packetType, sequenceId, headers, payload);
    assert |w| == 14 + |headers| + |payload|;
  }

  // ----- Hosts of different byte orders -----

  /**
   Two hosts of different byte order on the same buffer: if both accept it they agree on all fields but the record
   list; and what one decodes the other decodes alike exactly if the size of every sub header is a multiple of 257.
   */
  lemma DecodeElsewhere(o: Order, p: Order, b: Bytes)
    requires o != p && Decode(o, b).Success?
    ensures Decode(p, b).Success? ==>
              Decode(p, b).value == Decode(o, b).value.(records := Decode(p, b).value.records)
    ensures Decode(p, b) == Decode(o, b) <==> Portable(Decode(o, b).value.records)
    ensures Decode(p, b).Success? <==> InLanguage(p, Decode(o, b).value.headers)
  {
    var f := Decode(o, b).value;
    EncodeOfParse(o, f.headers);
    ReadElsewhere(o, p, f.records);
    ParserExactness(p, f.headers);
    hide DecodeFixed, Parse, InLanguage, Portable;
  }

  /** The round trip between hosts of different byte order: it holds exactly for portable record lists. */
  lemma RoundTripElsewhere(o: Order, p: Order, packetType: PacketType, sequenceId: uint32, rs: seq<Record>,
                           payload: Bytes)
    requires o != p && packetType in {Text, File, Video}
    requires AllWellFormed(rs) && |EncodeAll(o, rs)| <= 1024 && |payload| <= 1024 * 1024
    ensures var headers := EncodeAll(o, rs);
            var c := Create(V1, packetType, NoFlags, sequenceId, headers, payload);
            var sent := Fields(14 + |headers| + |payload|, V1, packetType, |headers|, NoFlags, sequenceId,
                               headers, rs, payload);
            c.Success? && (Decode(p, c.value.Wire()) == Success(sent) <==> Portable(rs))
  {
    RoundTrip(o, packetType, sequenceId, rs, payload);
    hide Create, Decode, EncodeAll, Portable;
    DecodeElsewhere(o, p, Create(V1, packetType, NoFlags, sequenceId, EncodeAll(o, rs), payload).value.Wire());
  }

  // ----- Normal form -----

  function CreateFrom(f: Fields): Result<OutgoingPacket, PacketError> {
    Create(f.version, f.packetType, f.flags, f.sequenceId, f.headers, f.payload)
  }

  /** Decode, then create again from the decoded fields, header bytes and payload. */
  function Normalize(order: Order, b: Bytes): Result<Bytes, PacketError> {
    var f :- Decode(order, b);
    var o :- CreateFrom(f);
    Success(o.Wire())
  }

  /** The decoded fields that determine all the others. */
  lemma DecodedShape(order: Order, b: Bytes)
    requires Decode(order, b).Success?
    ensures var f := Decode(order, b).value;
            && Parse(order, f.headers).Success?
            && f == Fields(14 + |f.headers| + |f.payload|, V1, f.packetType, |f.headers|, NoFlags, f.sequenceId,
                           f.headers, Parse(order, f.headers).value, f.payload)
            && f.packetType in {Text, File, Video}
            && |f.headers| <= 1024 && |f.payload| <= 1024 * 1024
  {
  }

  lemma CreateFromDecoded(order: Order, b: Bytes)
    requires Decode(order, b).Success?
    ensures var f := Decode(order, b).value;
            && CreateFrom(f).Success?
            && var w := CreateFrom(f).value.Wire();
            && Normalize(order, b) == Success(w)
            && LaidOut(w, f.packetType, f.sequenceId, f.headers, f.payload)
            && w[..4] == Put32(|w|) && w[8..10] == [0, 0] && |w| == f.packetSize
  {
    var f := Decode(order, b).value;
    WireLayout(f.version, f.packetType, f.flags, f.sequenceId, f.headers, f.payload);
  }

  /** An accepted buffer, cut at the size it decodes to, is laid out according to its decoded fields. */
  lemma DecodedLayout(order: Order, b: Bytes)
    requires Decode(order, b).Success?
    ensures var f := Decode(order, b).value;
            f.packetSize <= |b| && LaidOut(b[..f.packetSize], f.packetType, f.sequenceId, f.headers, f.payload)
  {
    var f := Decode(order, b).value;
    var c := b[..f.packetSize];
    assert c[14..14 + f.headerSize] == f.headers;
    assert c[14 + f.headerSize..] == f.payload;
  }

  /** Two buffers with the same layout agree on bytes 4..7 and from byte 10 on. */
  lemma SameLayout(w: Bytes, b: Bytes, packetType: PacketType, sequenceId: uint32, headers: Bytes, payload: Bytes)
    requires LaidOut(w, packetType, sequenceId, headers, payload)
    requires LaidOut(b, packetType, sequenceId, headers, payload)
    ensures w[4..8] == b[4..8] && w[10..] == b[10..]
  {
    var h := |headers|;
    GetPut16(w, 6);
    GetPut16(b, 6);
    GetPut32(w, 10);
    GetPut32(b, 10);
    assert w[4..8] == [w[4], w[5]] + w[6..8];
    assert b[4..8] == [b[4], b[5]] + b[6..8];
    assert w[10..] == w[10..14] + w[14..14 + h] + w[14 + h..];
    assert b[10..] == b[10..14] + b[14..14 + h] + b[14 + h..];
  }

  /**
   Recreating an accepted buffer gives the same bytes, except that bytes 0..3 become the total size and
   bytes 8..9 become zero.  The buffer is cut at its size modulo 2^32.
   */
  lemma NormalForm(order: Order, b: Bytes)
    requires Decode(order, b).Success?
    ensures var size := |b| % 0x1_0000_0000;
            14 <= size <= |b| && Normalize(order, b) == Success(Put32(size) + b[4..8] + [0, 0] + b[10..size])
  {
    var f := Decode(order, b).value;
    var w, c := CreateFrom(f).value.Wire(), b[..f.packetSize];
    CreateFromDecoded(order, b);
    DecodedLayout(order, b);
    DecodedSize(order, b);
    hide Decode, LaidOut, CreateFrom, Normalize;
    SameLayout(w, c, f.packetType, f.sequenceId, f.headers, f.payload);
    CutAtFields(w);
    CutFirst(b, f.packetSize);
  }

  lemma DecodedSize(order: Order, b: Bytes)
    requires Decode(order, b).Success?
    ensures Decode(order, b).value.packetSize == |b| % 0x1_0000_0000
    ensures 14 <= Decode(order, b).value.packetSize <= |b|
  {
  }

  lemma CutAtFields(w: Bytes)
    requires 10 <= |w|
    ensures w == w[..4] + w[4..8] + w[8..10] + w[10..]
  {
  }

  lemma CutFirst(b: Bytes, size: nat)
    requires 10 <= size <= |b|
    ensures b[..size][4..8] == b[4..8] && b[..size][10..] == b[10..size]
  {
  }

  /** Normalizing preserves every decoded field and is idempotent. */
  lemma NormalFormStable(order: Order, b: Bytes)
    requires Decode(order, b).Success?
    ensures Normalize(order, b).Success?
    ensures Decode(order, Normalize(order, b).value) == Decode(order, b)
    ensures Normalize(order, Normalize(order, b).value) == Normalize(order, b)
  {
    var f := Decode(order, b).value;
    var w := CreateFrom(f).value.Wire();
    DecodedShape(order, b);
    CreateFromDecoded(order, b);
    DecodeLaidOut(order, w, f.packetType, f.sequenceId, f.headers, f.payload);
    assert Decode(order, w) == Success(f);
  }

  // ----- Buffers of 4 GiB and more -----

  /**
   The three parts of an accepted buffer cover all of it exactly when its length fits the 32-bit size
   field; a longer buffer is accepted on its length modulo 2^32 and the rest is dropped silently.
   */
  lemma PartsCoverBuffer(order: Order, b: Bytes)
    requires Decode(order, b).Success?
    ensures var f := Decode(order, b).value;
            14 + |f.headers| + |f.payload| == |b| <==> |b| < 0x1_0000_0000
  {
  }

  lemma LongBufferIsCut(order: Order)
    ensures exists b: Bytes ::
              && |b| == 14 + 0x1_0000_0000
              && Decode(order, b).Success?
              && Decode(order, b).value.payload == []
  {
    var start: Bytes := [0, 0, 0, 0, 1, 1, 0, 0, 0, 0, 0, 0, 0, 0];
    var b: Bytes := start + seq(0x1_0000_0000, i => 0);
    assert Truncate32(|b|) == 14;
    assert b[4] == 1 && b[5] == 1 && b[6] == 0 && b[7] == 0;
    assert b[14..14] == [];
  }
}
