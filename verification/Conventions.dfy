/**
 The two conventions for the length field: `Packet::create` writes the total size into bytes 0..3, `Reader`
 takes these for the number of bytes behind them.  What becomes of created packets on a stream, how tight
 Reader's limit is, and what a sender that keeps Reader's convention gets through.
 */
module Conventions {
  import opened Wrappers
  import opened ByteOrder
  import opened SubHeaders
  import opened Packets
  import opened Framing

  // ----- A created packet on a stream -----

  /** What bytes 4..7 of a created packet say when they are taken for a length. */
  function MisreadLength(m: Message): nat {
    0x100_0000 * VersionToByte(m.version) + 0x1_0000 * TypeToByte(m.packetType) + |m.headers|
  }

  lemma CreatedFields(m: Message)
    requires m.Creatable()
    ensures var w := Created(m);
            && |w| == 14 + |m.headers| + |m.payload|
            && U32(w, 0) == |w| && U32(w, 4) == MisreadLength(m)
            && w[4] == VersionToByte(m.version) && w[8] == 0
    ensures MisreadLength(m) > MAX_PACKET_SIZE <==> m.version == V1
  {
    CreateSucceeds(m.version, m.packetType, NoFlags, m.sequenceId, m.headers, m.payload);
    WireLayout(m.version, m.packetType, NoFlags, m.sequenceId, m.headers, m.payload);
    var w := Created(m);
    PutGet32(|w|);
    assert U32(w, 0) == U32(w[..4], 0);
    PutGet16(|m.headers|);
    assert w[8..10][0] == 0;
    assert w[5] == TypeToByte(m.packetType) && w[6] == Put16(|m.headers|)[0] && w[7] == Put16(|m.headers|)[1];
  }

  /**
   On a created packet within its limit Reader waits for four bytes that are not part of it, and hands them
   over with it.
   */
  lemma CreatedPacketStarves(order: Order, m: Message, more: Bytes)
    requires m.Creatable()
    ensures var w := Created(m);
            && U32(w, 0) == |w|
            && (|w| > MAX_PACKET_SIZE ==> Deframe(order, w + more) == Deframed([], Oversized))
            && (|w| <= MAX_PACKET_SIZE && |more| < 4 ==> Deframe(order, w + more) == Deframed([], Starved))
            && (|w| <= MAX_PACKET_SIZE && 4 <= |more| ==>
                  Deframe(order, w + more).frames != [] && Deframe(order, w + more).frames[0] == w + more[..4])
  {
    hide Decode;
    CreatedFields(m);
    hide Created;
    var w := Created(m);
    var s := w + more;
    assert U32(s, 0) == U32(w, 0);
    if 4 <= |more| {
      assert s[..4 + |w|] == w + more[..4];
    }
  }

  /** What a v1 buffer with the given fields decodes to. */
  function Expected(order: Order, size: uint32, packetType: PacketType, sequenceId: uint32, headers: Bytes,
                    payload: Bytes): Result<Fields, PacketError>
    requires |headers| <= 1024
  {
    if packetType !in {Text, File, Video} then Failure(PacketTypeError)
    else if |payload| > 1024 * 1024 then Failure(PayloadSizeError)
    else if Parse(order, headers).Failure? then Failure(Parse(order, headers).error)
    else Success(Fields(size, V1, packetType, |headers|, NoFlags, sequenceId, headers,
                        Parse(order, headers).value, payload))
  }

  /**
   The frame that then comes out decodes to the created packet with the next four stream bytes appended to
   its payload, unless that makes the payload too long or the packet would not have been accepted either.
   */
  lemma CreatedPacketAbsorbs(order: Order, m: Message, next: Bytes)
    requires m.Creatable() && |next| == 4
    ensures var w := Created(m);
            |w| + 4 < 0x1_0000_0000 &&
            Decode(order, w + next) ==
            if m.version != V1 then Failure(VersionError)
            else Expected(order, |w| + 4, m.packetType, m.sequenceId, m.headers, m.payload + next)
  {
    CreateSucceeds(m.version, m.packetType, NoFlags, m.sequenceId, m.headers, m.payload);
    WireLayout(m.version, m.packetType, NoFlags, m.sequenceId, m.headers, m.payload);
    var w := Created(m);
    assert w == Create(m.version, m.packetType, NoFlags, m.sequenceId, m.headers, m.payload).value.Wire();
    hide Parse, Create, Created, Decode, LaidOut, Expected;
    if m.version != V1 {
      DecodeOtherVersion(order, w + next);
    } else {
      LaidOutAbsorbs(order, w, m.packetType, m.sequenceId, m.headers, m.payload, next);
    }
  }

  lemma LaidOutDecodes(order: Order, w: Bytes, packetType: PacketType, sequenceId: uint32, headers: Bytes,
                       payload: Bytes)
    requires LaidOut(w, packetType, sequenceId, headers, payload)
    ensures |headers| <= 1024 && |payload| <= 1024 * 1024 && |w| < 0x1_0000_0000
    ensures Decode(order, w) == Expected(order, |w|, packetType, sequenceId, headers, payload)
  {
    DecodeLaidOut(order, w, packetType, sequenceId, headers, payload);
    hide Decode, Parse;
  }

  lemma LaidOutAbsorbs(order: Order, w: Bytes, packetType: PacketType, sequenceId: uint32, headers: Bytes,
                       payload: Bytes, next: Bytes)
    requires LaidOut(w, packetType, sequenceId, headers, payload) && |next| == 4
    ensures |headers| <= 1024 && |w| + 4 < 0x1_0000_0000
    ensures Decode(order, w + next) == Expected(order, |w| + 4, packetType, sequenceId, headers, payload + next)
  {
    LongerPayload(order, w, packetType, sequenceId, headers, payload, next);
    assert |w| + 4 < 0x1_0000_0000;
    if |payload| + 4 <= MAX_PAYLOAD_SIZE {
      hide Decode, Parse, LaidOut, Expected;
      LaidOutDecodes(order, w + next, packetType, sequenceId, headers, payload + next);
    } else {
      hide Decode, Parse;
    }
  }

  lemma LongerPayload(order: Order, w: Bytes, packetType: PacketType, sequenceId: uint32, headers: Bytes,
                      payload: Bytes, next: Bytes)
    requires LaidOut(w, packetType, sequenceId, headers, payload) && |next| == 4
    ensures |payload| + 4 <= MAX_PAYLOAD_SIZE ==>
              LaidOut(w + next, packetType, sequenceId, headers, payload + next)
    ensures |payload| + 4 > MAX_PAYLOAD_SIZE ==>
              Decode(order, w + next) ==
              Failure(if packetType in {Text, File, Video} then PayloadSizeError else PacketTypeError)
  {
    hide Parse;
    var v := w + next;
    assert U16(v, 6) == U16(w, 6) && U32(v, 10) == U32(w, 10);
    assert v[14..14 + |headers|] == w[14..14 + |headers|];
    assert v[14 + |headers|..] == w[14 + |headers|..] + next;
    assert Truncate32(|v|) == |v|;
  }

  // ----- Two created packets on a stream -----

  /** How deframing goes on at the fifth byte of a created packet. */
  ghost function LateCut(m: Message, rest: Bytes): Deframed {
    if m.version == V1 then Deframed([], Oversized)
    else if |rest| < PACKET_LENGTH + MisreadLength(m) then Deframed([], Starved)
    else Deframed([rest[..PACKET_LENGTH + MisreadLength(m)]], Rejected)
  }

  /**
   Cut four bytes late, the next created packet gives the bytes of its version, type and header size for a length:
   over Reader's limit exactly if the version has a name, and otherwise the length of a frame with version byte 0.
   */
  lemma CutLate(order: Order, m: Message, more: Bytes)
    requires m.Creatable()
    ensures Deframe(order, Created(m)[4..] + more) == LateCut(m, Created(m)[4..] + more)
  {
    CreatedFields(m);
    var w := Created(m);
    var rest := w[4..] + more;
    var n := PACKET_LENGTH + MisreadLength(m);
    assert U32(rest, 0) == U32(w, 4);
    if m.version != V1 && n <= |rest| {
      assert rest[4] == w[8];
      BadVersion(order, rest[..n]);
    }
    hide Decode, Created;
  }

  lemma BadVersion(order: Order, b: Bytes)
    requires |b| < 0x1_0000_0000 && (4 < |b| ==> b[4] == 0)
    ensures Decode(order, b).Failure?
  {
  }

  /** What a stream of two created packets deframes to, whatever follows. */
  ghost function TwoCreated(order: Order, m1: Message, m2: Message, more: Bytes): Deframed
    requires m1.Creatable() && m2.Creatable() && |Created(m2)| >= 14
  {
    var w1, w2 := Created(m1), Created(m2);
    var frame, rest := w1 + w2[..4], w2[4..] + more;
    if |w1| > MAX_PACKET_SIZE then Deframed([], Oversized)
    else if Decode(order, frame).Failure? then Deframed([frame], Rejected)
    else Deframed([frame] + LateCut(m2, rest).frames, LateCut(m2, rest).end)
  }

  /**
   No stream of created packets gets past the second one, whatever follows.  Behind the first, which takes four
   bytes of the second with it, the stream ends in a length over Reader's limit, or, if the second packet's version
   has no name, waits for the bytes of a frame that is then rejected.
   */
  lemma SecondCreatedPacketEnds(order: Order, m1: Message, m2: Message, more: Bytes)
    requires m1.Creatable() && m2.Creatable()
    ensures |Created(m2)| >= 14
    ensures Deframe(order, Created(m1) + Created(m2) + more) == TwoCreated(order, m1, m2, more)
  {
    var w1, w2 := Created(m1), Created(m2);
    CreatedFields(m1);
    CreatedFields(m2);
    hide Created, Decode, Deframe, LateCut;
    var frame, rest := w1 + w2[..4], w2[4..] + more;
    if |w1| > MAX_PACKET_SIZE {
      CreatedPacketStarves(order, m1, w2 + more);
      assert w1 + w2 + more == w1 + (w2 + more);
    } else {
      assert w1 + w2 + more == frame + rest;
      assert U32(frame, 0) == U32(w1, 0);
      DeframeStep(order, frame, rest);
      CutLate(order, m2, more);
    }
  }

  /** How many bytes of such a stream it takes to find out. */
  ghost function NeededOfTwo(order: Order, m1: Message, m2: Message, more: Bytes): nat
    requires m1.Creatable() && m2.Creatable() && |Created(m2)| >= 14
  {
    var n := |Created(m1)|;
    var late := n + 8 + MisreadLength(m2);
    if n > MAX_PACKET_SIZE then 4
    else if Decode(order, Created(m1) + Created(m2)[..4]).Failure? then n + 4
    else if m2.version == V1 then n + 8
    else if n + |Created(m2)| + |more| < late then n + |Created(m2)| + |more|
    else late
  }

  lemma NeededIsExtent(order: Order, m1: Message, m2: Message, more: Bytes)
    requires m1.Creatable() && m2.Creatable() && |Created(m2)| >= 14
    ensures NeededOfTwo(order, m1, m2, more) ==
            Extent(TwoCreated(order, m1, m2, more), |Created(m1) + Created(m2) + more|)
  {
    hide Created, Decode;
    var frame, rest := Created(m1) + Created(m2)[..4], Created(m2)[4..] + more;
    FlatOne(frame);
    if PACKET_LENGTH + MisreadLength(m2) <= |rest| {
      FlatOne(rest[..PACKET_LENGTH + MisreadLength(m2)]);
      FlatPush([frame], rest[..PACKET_LENGTH + MisreadLength(m2)]);
    }
  }

  // ----- Reader's limit -----

  /**
   Reader's limit is ten bytes tighter than the constructor's limits together: an accepted packet with the
   prefix Reader expects is a frame exactly when header area and payload together leave room for them.
   */
  lemma ReaderLimit(order: Order, p: Bytes)
    requires |p| < 0x1_0000_0000 && Decode(order, p).Success? && U32(p, 0) == |p| - PACKET_LENGTH
    ensures var f := Decode(order, p).value;
            GoodFrame(order, p) <==> |f.headers| + |f.payload| + 10 <= 1024 + 1024 * 1024
  {
    PartsCoverBuffer(order, p);
  }

  // ----- Sending in Reader's convention -----

  /** A created packet with its length field as Reader expects it. */
  function Reframed(m: Message): Bytes
    requires m.Creatable() && PACKET_LENGTH <= |Created(m)| < 0x1_0000_0000
  {
    Put32(|Created(m)| - PACKET_LENGTH) + Created(m)[PACKET_LENGTH..]
  }

  /** It decodes like the created packet, and Reader passes it exactly if it decodes and leaves ten bytes. */
  lemma ReframedIsFrame(order: Order, m: Message)
    requires m.Creatable()
    ensures PACKET_LENGTH <= |Created(m)| < 0x1_0000_0000
    ensures var f := Reframed(m);
            && |f| == |Created(m)| && U32(f, 0) == |f| - PACKET_LENGTH
            && Decode(order, f) == Decode(order, Created(m))
            && (GoodFrame(order, f) <==>
                  Decode(order, f).Success? && |m.headers| + |m.payload| + 10 <= 1024 + 1024 * 1024)
            && (|m.headers| + |m.payload| + 10 > 1024 + 1024 * 1024 ==> Deframe(order, f) == Deframed([], Oversized))
  {
    CreatedFields(m);
    hide Created, Decode;
    var f := Reframed(m);
    PutGet32(|f| - PACKET_LENGTH);
    assert U32(f, 0) == U32(Put32(|f| - PACKET_LENGTH), 0);
    IgnoredBytes(order, f, Created(m));
  }

  /** Fields, record list and payload to be sent. */
  datatype Sent = Sent(packetType: PacketType, sequenceId: uint32, records: seq<Record>, payload: Bytes) {
    /** Within every limit on the way. */
    ghost predicate Sendable(order: Order) {
      && packetType in {Text, File, Video} && AllWellFormed(records)
      && |EncodeAll(order, records)| <= 1024 && |payload| <= 1024 * 1024
      && |EncodeAll(order, records)| + |payload| + 10 <= 1024 + 1024 * 1024
    }

    ghost function Message(order: Order): Message
      requires AllWellFormed(records)
    {
      Packets.Message(V1, packetType, sequenceId, EncodeAll(order, records), payload)
    }

    /** What the receiver should decode. */
    ghost predicate DecodesTo(order: Order, frame: Bytes) {
      && AllWellFormed(records) && Decode(order, frame).Success?
      && var f := Decode(order, frame).value;
         && f.version == V1 && f.packetType == packetType && f.flags == NoFlags && f.sequenceId == sequenceId
         && f.headers == EncodeAll(order, records) && f.records == records && f.payload == payload
    }
  }

  lemma SentIsFrame(order: Order, x: Sent)
    requires x.Sendable(order)
    ensures x.Message(order).Creatable() && PACKET_LENGTH <= |Created(x.Message(order))| < 0x1_0000_0000
    ensures GoodFrame(order, Reframed(x.Message(order))) && x.DecodesTo(order, Reframed(x.Message(order)))
  {
    RoundTrip(order, x.packetType, x.sequenceId, x.records, x.payload);
    ReframedIsFrame(order, x.Message(order));
    hide Decode, EncodeAll, Create;
  }

  ghost function Frame(order: Order, x: Sent): Bytes
    requires x.Sendable(order)
  {
    SentIsFrame(order, x);
    Reframed(x.Message(order))
  }

  ghost predicate AllSendable(order: Order, xs: seq<Sent>) {
    forall i | 0 <= i < |xs| :: xs[i].Sendable(order)
  }

  ghost function Frames(order: Order, xs: seq<Sent>): (fs: seq<Bytes>)
    requires AllSendable(order, xs)
    ensures |fs| == |xs|
  {
    seq(|xs|, i requires 0 <= i < |xs| => Frame(order, xs[i]))
  }

  /** What is sent this way comes out of the stream frame by frame, and each frame decodes to what was to be sent. */
  lemma SentComesOut(order: Order, xs: seq<Sent>)
    requires AllSendable(order, xs)
    ensures var fs := Frames(order, xs);
            && GoodFrames(order, fs) && Deframe(order, Flat(fs)) == Deframed(fs, Starved)
            && forall i | 0 <= i < |xs| :: xs[i].DecodesTo(order, fs[i])
  {
    var fs := Frames(order, xs);
    forall i | 0 <= i < |xs|
      ensures GoodFrame(order, fs[i]) && xs[i].DecodesTo(order, fs[i])
    {
      SentIsFrame(order, xs[i]);
    }
    PacketsComeOut(order, fs);
  }

  /** There are packets that `create` makes, the constructor accepts and Reader refuses in its own convention. */
  lemma AcceptedButRefused(order: Order)
    ensures exists m: Message ::
              && m.Creatable() && PACKET_LENGTH <= |Created(m)| < 0x1_0000_0000
              && Decode(order, Created(m)).Success? && Decode(order, Reframed(m)).Success?
              && Deframe(order, Reframed(m)) == Deframed([], Oversized)
  {
    var r := Record(SessionId, seq(1021, i => 0));
    var payload: Bytes := seq(1024 * 1024, i => 0);
    assert [r][1..] == [];
    assert EncodeAll(order, [r]) == Encode(order, r) + [];
    RoundTrip(order, Text, 0, [r], payload);
    var m := Message(V1, Text, 0, EncodeAll(order, [r]), payload);
    ReframedIsFrame(order, m);
    assert Decode(order, Created(m)).Success?;
  }
}
