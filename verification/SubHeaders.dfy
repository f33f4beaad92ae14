/**
 The sub header area of a packet: a sequence of size/type/value records.

 `Parse` is the meaning of `Packet::parseSubHeaders`; the loop itself is the method `ParseSubHeaders` of
 class `Packet`.  `EncodeAll` is the language of well-formed areas, written as an encoder because the
 source declares one (`setSubHeader`) without defining it.  The size field is in host byte order: the
 source copies it without `ntohs`.
 */
module SubHeaders {
  import opened Wrappers
  import opened ByteOrder

  const MAX_HEADER_SIZE: nat := 1024

  datatype SubHeaderType = Unknown | Action | SessionId | UserId | AuthToken

  /** Every reason for which the source throws while building or creating a packet. */
  datatype PacketError =
    | PacketSizeError | VersionError | PacketTypeError | HeaderSizeError | PacketFlagsError
    | OffsetPayloadError | PayloadSizeError
    | IncompleteSubHeaderSize | InvalidSubHeaderSize | IncompleteSubHeaderType | InvalidSubHeaderType
    | IncompleteSubHeaderValue | InvalidHeaderSize

  function SubHeaderToByte(t: SubHeaderType): byte {
    match t
    case SessionId => 10
    case UserId => 11
    case AuthToken => 12
    case _ => 0
  }

  function SubHeaderFromByte(b: byte): SubHeaderType {
    match b
    case 10 => SessionId
    case 11 => UserId
    case 12 => AuthToken
    case _ => Unknown
  }

  /** The type byte tells apart exactly the three types it recognises: 10, 11 and 12, and these alone. */
  lemma SubHeaderTypeBytes(t: SubHeaderType, b: byte)
    ensures SubHeaderFromByte(SubHeaderToByte(t)) == t <==> t !in {Action}
    ensures SubHeaderFromByte(b) != Unknown <==> SubHeaderToByte(SubHeaderFromByte(b)) == b && b != 0
    ensures SubHeaderFromByte(b) != Unknown <==> b in {10, 11, 12}
    ensures SubHeaderFromByte(b) == SessionId <==> b == 10
    ensures SubHeaderFromByte(b) == UserId <==> b == 11
    ensures SubHeaderFromByte(b) == AuthToken <==> b == 12
    ensures SubHeaderToByte(t) == 10 <==> t == SessionId
    ensures SubHeaderToByte(t) == 11 <==> t == UserId
    ensures SubHeaderToByte(t) == 12 <==> t == AuthToken
  {
  }

  datatype Record = Record(kind: SubHeaderType, value: Bytes)

  ghost predicate WellFormed(r: Record) {
    (r.kind == SessionId || r.kind == UserId || r.kind == AuthToken) && |r.value| <= MAX_HEADER_SIZE
  }

  ghost predicate AllWellFormed(rs: seq<Record>) {
    forall i | 0 <= i < |rs| :: WellFormed(rs[i])
  }

  ghost function Encode(order: Order, r: Record): (s: Bytes)
    requires WellFormed(r)
    ensures |s| == 3 + |r.value|
  {
    Store16(order, |r.value|) + [SubHeaderToByte(r.kind)] + r.value
  }

  ghost function EncodeAll(order: Order, rs: seq<Record>): Bytes
    requires AllWellFormed(rs)
  {
    if rs == [] then [] else Encode(order, rs[0]) + EncodeAll(order, rs[1..])
  }

  /** The record language: concatenations of well-formed records. */
  ghost predicate InLanguage(order: Order, area: Bytes) {
    exists rs :: AllWellFormed(rs) && area == EncodeAll(order, rs)
  }

  /** The record at the front of a non-empty area. */
  function ParseOne(order: Order, area: Bytes): (r: Result<Record, PacketError>)
    requires area != []
    ensures r.Success? ==> 3 + |r.value.value| <= |area|
  {
    if |area| < 2 then Failure(IncompleteSubHeaderSize)
    else
      var size := Load16(order, area, 0);
      if size > MAX_HEADER_SIZE then Failure(InvalidSubHeaderSize)
      else if |area| < 3 then Failure(IncompleteSubHeaderType)
      else if SubHeaderFromByte(area[2]) == Unknown then Failure(InvalidSubHeaderType)
      else if |area| - 3 < size then Failure(IncompleteSubHeaderValue)
      else Success(Record(SubHeaderFromByte(area[2]), area[3..3 + size]))
  }

  /** The size that two bytes in host order spell, written out. */
  function HostSize(order: Order, area: Bytes): nat
    requires 2 <= |area|
  {
    match order
    case LittleEndian => 256 * (area[1] as int) + area[0]
    case BigEndian => 256 * (area[0] as int) + area[1]
  }

  /** The front record, byte by byte. */
  lemma FrontRecord(order: Order, area: Bytes)
    requires area != [] && ParseOne(order, area).Success?
    ensures var r := ParseOne(order, area).value;
            && 3 <= |area| && 3 + HostSize(order, area) <= |area| && HostSize(order, area) <= 1024
            && r.value == area[3..3 + HostSize(order, area)]
            && (area[2] == 10 <==> r.kind == SessionId)
            && (area[2] == 11 <==> r.kind == UserId)
            && (area[2] == 12 <==> r.kind == AuthToken)
  {
  }

  /** And what is wrong with a front that gives none, the first thing wrong being the one reported. */
  lemma FrontError(order: Order, area: Bytes, error: PacketError)
    requires area != []
    ensures ParseOne(order, area) == Failure(error) <==>
            if |area| == 1 then error == IncompleteSubHeaderSize
            else if HostSize(order, area) > 1024 then error == InvalidSubHeaderSize
            else if |area| == 2 then error == IncompleteSubHeaderType
            else if area[2] !in {10, 11, 12} then error == InvalidSubHeaderType
            else HostSize(order, area) > |area| - 3 && error == IncompleteSubHeaderValue
  {
  }

  function Parse(order: Order, area: Bytes): Result<seq<Record>, PacketError> {
    if area == [] then Success([])
    else
      var r :- ParseOne(order, area);
      var rest :- Parse(order, area[3 + |r.value|..]);
      Success([r] + rest)
  }

  /** The front record of an area is `r` exactly when the area starts with the encoding of `r`. */
  lemma ParseOneOfEncode(order: Order, r: Record, rest: Bytes)
    requires WellFormed(r)
    ensures ParseOne(order, Encode(order, r) + rest) == Success(r)
    ensures (Encode(order, r) + rest)[3 + |r.value|..] == rest
  {
    var area := Encode(order, r) + rest;
    var size := |r.value|;
    LoadStore16(order, size);
    assert Load16(order, area, 0) == Load16(order, Store16(order, size), 0);
    assert area[2] == SubHeaderToByte(r.kind);
    assert area[3..3 + size] == r.value;
  }

  lemma EncodeOfParseOne(order: Order, area: Bytes)
    requires area != [] && ParseOne(order, area).Success?
    ensures var r := ParseOne(order, area).value;
            WellFormed(r) && area == Encode(order, r) + area[3 + |r.value|..]
  {
    var r := ParseOne(order, area).value;
    StoreLoad16(order, area, 0);
    assert Encode(order, r) == area[..2] + [area[2]] + area[3..3 + |r.value|];
  }

  lemma {:induction false} ParseOfEncode(order: Order, rs: seq<Record>)
    requires AllWellFormed(rs)
    ensures Parse(order, EncodeAll(order, rs)) == Success(rs)
  {
    if rs != [] {
      ParseOfEncode(order, rs[1..]);
      ParseOneOfEncode(order, rs[0], EncodeAll(order, rs[1..]));
      assert [rs[0]] + rs[1..] == rs;
    }
  }

  lemma {:induction false} EncodeOfParse(order: Order, area: Bytes)
    requires Parse(order, area).Success?
    ensures AllWellFormed(Parse(order, area).value)
    ensures EncodeAll(order, Parse(order, area).value) == area
    decreases |area|
  {
    if area != [] {
      var rest := area[3 + |ParseOne(order, area).value.value|..];
      EncodeOfParseOne(order, area);
      EncodeOfParse(order, rest);
      assert Parse(order, area).value[1..] == Parse(order, rest).value;
    }
  }

  lemma EncodeFirst(order: Order, r: Record, rs: seq<Record>)
    requires WellFormed(r) && AllWellFormed(rs)
    ensures AllWellFormed([r] + rs) && EncodeAll(order, [r] + rs) == Encode(order, r) + EncodeAll(order, rs)
  {
    assert ([r] + rs)[1..] == rs;
  }

  lemma Regroup(a: Bytes, b: Bytes, c: Bytes)
    ensures (a + b) + c == a + (b + c)
  {
  }

  lemma {:induction false} EncodeAppend(order: Order, rs: seq<Record>, r: Record)
    requires AllWellFormed(rs) && WellFormed(r)
    ensures AllWellFormed(rs + [r]) && EncodeAll(order, rs + [r]) == EncodeAll(order, rs) + Encode(order, r)
  {
    if rs == [] {
      assert rs + [r] == [r] && [r][1..] == [];
      assert EncodeAll(order, [r]) == Encode(order, r) + [];
    } else {
      EncodeAppend(order, rs[1..], r);
      EncodeFirst(order, rs[0], rs[1..]);
      EncodeFirst(order, rs[0], rs[1..] + [r]);
      hide EncodeAll, Encode;
      assert rs == [rs[0]] + rs[1..];
      assert rs + [r] == [rs[0]] + (rs[1..] + [r]);
      Regroup(Encode(order, rs[0]), EncodeAll(order, rs[1..]), Encode(order, r));
    }
  }

  /** An area read up to `start` as `rs` and holding one more record there is read up to that record's end. */
  lemma EncodePush(order: Order, area: Bytes, rs: seq<Record>, start: nat)
    requires AllWellFormed(rs) && start < |area| && area[..start] == EncodeAll(order, rs)
    requires ParseOne(order, area[start..]).Success?
    ensures var r := ParseOne(order, area[start..]).value;
            var end := start + 3 + |r.value|;
            end <= |area| && AllWellFormed(rs + [r]) && area[..end] == EncodeAll(order, rs + [r])
  {
    var r := ParseOne(order, area[start..]).value;
    var end := start + 3 + |r.value|;
    EncodeOfParseOne(order, area[start..]);
    EncodeAppend(order, rs, r);
    assert area[..end] == area[..start] + area[start..][..end - start];
  }

  /** Parsing stops with the error met after any number of well-formed records. */
  lemma {:induction false} ParseFails(order: Order, area: Bytes, rs: seq<Record>, start: nat)
    requires AllWellFormed(rs) && start < |area| && area[..start] == EncodeAll(order, rs)
    requires ParseOne(order, area[start..]).Failure?
    ensures Parse(order, area) == Failure(ParseOne(order, area[start..]).error)
  {
    if rs == [] {
      assert area[start..] == area;
    } else {
      var n := 3 + |rs[0].value|;
      var rest := area[n..];
      assert area == EncodeAll(order, rs) + area[start..]
                  == Encode(order, rs[0]) + (EncodeAll(order, rs[1..]) + area[start..]);
      ParseOneOfEncode(order, rs[0], EncodeAll(order, rs[1..]) + area[start..]);
      assert rest[..start - n] == EncodeAll(order, rs[1..]) && rest[start - n..] == area[start..];
      ParseFails(order, rest, rs[1..], start - n);
    }
  }

  /** The parser accepts exactly the record language. */
  lemma ParserExactness(order: Order, area: Bytes)
    ensures Parse(order, area).Success? <==> InLanguage(order, area)
  {
    if Parse(order, area).Success? {
      EncodeOfParse(order, area);
    }
    if InLanguage(order, area) {
      var rs :| AllWellFormed(rs) && area == EncodeAll(order, rs);
      ParseOfEncode(order, rs);
    }
  }

  /** An area decomposes into records in at most one way. */
  lemma UniqueDecomposition(order: Order, rs: seq<Record>, qs: seq<Record>)
    requires AllWellFormed(rs) && AllWellFormed(qs)
    requires EncodeAll(order, rs) == EncodeAll(order, qs)
    ensures rs == qs
  {
    ParseOfEncode(order, rs);
    ParseOfEncode(order, qs);
  }

  // ----- Hosts of different byte orders -----

  /** A size reads the same in both byte orders exactly if its two bytes are equal. */
  lemma StoredAlike(o: Order, p: Order, n: uint16)
    requires o != p
    ensures Store16(o, n) == Store16(p, n) <==> n % 257 == 0
  {
    var high, low := n / 0x100, n % 0x100;
    assert n == 257 * high + (low - high);
    assert Store16(o, n)[0] == Store16(p, n)[0] <==> high == low;
    assert Store16(o, n)[1] == Store16(p, n)[1] <==> high == low;
  }

  lemma EncodedAlike(o: Order, p: Order, r: Record)
    requires o != p && WellFormed(r)
    ensures Encode(o, r) == Encode(p, r) <==> |r.value| % 257 == 0
  {
    StoredAlike(o, p, |r.value|);
    assert Encode(o, r)[..2] == Store16(o, |r.value|) && Encode(p, r)[..2] == Store16(p, |r.value|);
  }

  /** Every record's size reads the same on hosts of either byte order. */
  predicate Portable(rs: seq<Record>) {
    forall i | 0 <= i < |rs| :: |rs[i].value| % 257 == 0
  }

  lemma {:induction false} AllEncodedAlike(o: Order, p: Order, rs: seq<Record>)
    requires o != p && AllWellFormed(rs)
    ensures |EncodeAll(o, rs)| == |EncodeAll(p, rs)|
    ensures EncodeAll(o, rs) == EncodeAll(p, rs) <==> Portable(rs)
  {
    if rs != [] {
      AllEncodedAlike(o, p, rs[1..]);
      EncodedAlike(o, p, rs[0]);
      var a, b := EncodeAll(o, rs[1..]), EncodeAll(p, rs[1..]);
      SplitEqual(Encode(o, rs[0]), a, Encode(p, rs[0]), b);
      assert Portable(rs) <==> |rs[0].value| % 257 == 0 && Portable(rs[1..]) by {
        assert forall i | 0 < i < |rs| :: rs[i] == rs[1..][i - 1];
      }
    }
  }

  lemma SplitEqual(a: Bytes, b: Bytes, c: Bytes, d: Bytes)
    requires |a| == |c|
    ensures a + b == c + d <==> a == c && b == d
  {
    if a + b == c + d {
      assert a == (a + b)[..|a|] && c == (c + d)[..|a|];
      assert b == (a + b)[|a|..] && d == (c + d)[|a|..];
    }
  }

  /** A record list encoded on one host is read as the same list on a host of the other order exactly if portable. */
  lemma ReadElsewhere(o: Order, p: Order, rs: seq<Record>)
    requires o != p && AllWellFormed(rs)
    ensures Parse(p, EncodeAll(o, rs)) == Success(rs) <==> Portable(rs)
  {
    AllEncodedAlike(o, p, rs);
    if Parse(p, EncodeAll(o, rs)) == Success(rs) {
      EncodeOfParse(p, EncodeAll(o, rs));
    }
    if Portable(rs) {
      ParseOfEncode(p, rs);
    }
  }

  /** The simplest area that is not: one byte of value, well formed on one host and cut short on the other. */
  lemma OneByteElsewhere(b: byte)
    ensures Parse(LittleEndian, [1, 0, 10, b]) == Success([Record(SessionId, [b])])
    ensures Parse(BigEndian, [1, 0, 10, b]) == Failure(IncompleteSubHeaderValue)
  {
    var r := Record(SessionId, [b]);
    assert EncodeAll(LittleEndian, [r]) == Encode(LittleEndian, r) + EncodeAll(LittleEndian, []);
    assert Encode(LittleEndian, r) == [1, 0, 10, b];
    assert EncodeAll(LittleEndian, [r]) == [1, 0, 10, b];
    ParseOfEncode(LittleEndian, [r]);
  }

  // ----- First-match lookup -----

  /** The value of the first record of the given kind. */
  function FirstValue(rs: seq<Record>, kind: SubHeaderType): Option<Bytes> {
    if rs == [] then None
    else if rs[0].kind == kind then Some(rs[0].value)
    else FirstValue(rs[1..], kind)
  }

  /** What "first match" means, by position. */
  lemma {:induction false} FirstValueMeaning(rs: seq<Record>, kind: SubHeaderType)
    ensures FirstValue(rs, kind).None? <==> forall i | 0 <= i < |rs| :: rs[i].kind != kind
    ensures forall i | 0 <= i < |rs| ::
              rs[i].kind == kind && (forall j | 0 <= j < i :: rs[j].kind != kind) ==>
                FirstValue(rs, kind) == Some(rs[i].value)
  {
    if rs != [] && rs[0].kind != kind {
      FirstValueMeaning(rs[1..], kind);
      assert forall i | 0 < i < |rs| :: rs[i] == rs[1..][i - 1];
      forall i | 0 <= i < |rs| && rs[i].kind == kind && (forall j | 0 <= j < i :: rs[j].kind != kind)
        ensures FirstValue(rs, kind) == Some(rs[i].value)
      {
        assert forall j | 0 <= j < i - 1 :: rs[1..][j] == rs[j + 1];
      }
    }
  }

  /** What the byte getter returns: the first match if it is one byte long, otherwise nothing. */
  function Uint8Value(rs: seq<Record>, kind: SubHeaderType): Option<byte> {
    var v := FirstValue(rs, kind);
    if v.Some? && |v.value| == 1 then Some(v.value[0]) else None
  }

  /** What the 32-bit getter returns: the first match, read big-endian, if it is four bytes long. */
  function Uint32Value(rs: seq<Record>, kind: SubHeaderType): Option<uint32> {
    var v := FirstValue(rs, kind);
    if v.Some? && |v.value| == 4 then Some(U32(v.value, 0)) else None
  }

  /** Record `i` is the first of its kind. */
  ghost predicate IsFirst(rs: seq<Record>, kind: SubHeaderType, i: nat) {
    i < |rs| && rs[i].kind == kind && forall j | 0 <= j < i :: rs[j].kind != kind
  }

  /** What each getter gives, from the bytes of the first match. */
  ghost predicate GettersGive(rs: seq<Record>, kind: SubHeaderType, small: Option<byte>, large: Option<uint32>,
                              text: Option<Bytes>)
  {
    && (forall i: nat | IsFirst(rs, kind, i) ::
          var v := rs[i].value;
          && text == Some(v)
          && small == (if |v| == 1 then Some(v[0]) else None)
          && (|v| == 4 ==>
                large == Some(0x100_0000 * (v[0] as int) + 0x1_0000 * (v[1] as int) + 0x100 * (v[2] as int) + v[3]))
          && (|v| != 4 ==> large == None))
    && ((forall i | 0 <= i < |rs| :: rs[i].kind != kind) ==> text == None && small == None && large == None)
  }

  lemma FirstIs(rs: seq<Record>, kind: SubHeaderType, i: nat)
    requires IsFirst(rs, kind, i)
    ensures i < |rs| && FirstValue(rs, kind) == Some(rs[i].value)
  {
    FirstValueMeaning(rs, kind);
  }

  lemma NoneFound(rs: seq<Record>, kind: SubHeaderType)
    requires forall i | 0 <= i < |rs| :: rs[i].kind != kind
    ensures FirstValue(rs, kind) == None
  {
    FirstValueMeaning(rs, kind);
  }

  lemma GettersMeaning(rs: seq<Record>, kind: SubHeaderType)
    ensures GettersGive(rs, kind, Uint8Value(rs, kind), Uint32Value(rs, kind), FirstValue(rs, kind))
  {
    hide FirstValue, IsFirst;
    forall i: nat | IsFirst(rs, kind, i)
      ensures i < |rs| && FirstValue(rs, kind) == Some(rs[i].value)
    {
      FirstIs(rs, kind, i);
    }
    if forall i | 0 <= i < |rs| :: rs[i].kind != kind {
      NoneFound(rs, kind);
    }
  }

  /** A mis-sized first match hides every later record of its kind, whatever the getter. */
  lemma MisSizedFirstMatchHides(before: seq<Record>, r: Record, after: seq<Record>)
    requires forall i | 0 <= i < |before| :: before[i].kind != r.kind
    ensures FirstValue(before + [r] + after, r.kind) == Some(r.value)
    ensures |r.value| != 1 ==> Uint8Value(before + [r] + after, r.kind).None?
    ensures |r.value| != 4 ==> Uint32Value(before + [r] + after, r.kind).None?
  {
    var rs := before + [r] + after;
    assert rs[|before|] == r;
    assert forall j | 0 <= j < |before| :: rs[j] == before[j];
    FirstValueMeaning(rs, r.kind);
  }
}
