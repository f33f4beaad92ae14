/**
 Two connections: what one session writes, the session at the other end hands over.  The network carries the
 bytes in order and may deliver any prefix of them.
 */
module Peers {
  import opened Wrappers
  import opened ByteOrder
  import opened SubHeaders
  import opened Framing
  import opened Conventions
  import opened Connections
  import opened WriterTheorems
  import opened ReaderTheorems
  import opened ReaderProgress

  /**
   Whatever runs the two sessions make, as long as what the one has received is a prefix of what the other has put on
   the wire and the packets handed to `write_packet` are acceptable frames: the buffers handed over are a prefix of
   these packets, no exception and no refusal occurs, and when all bytes of all packets have arrived and the
   receiver is settled, all packets have been handed over.
   */
  lemma PeerDelivery(sender: Config, start: nat, es: seq<Event>, receiver: Config, now: nat, fs: seq<Event>)
    requires var a, b := Run(sender, Init(start), es), Run(receiver, Init(now), fs);
             b.net.received <= a.net.wire && GoodFrames(receiver.order, a.session.offered)
    ensures var a, b := Run(sender, Init(start), es), Run(receiver, Init(now), fs);
            && b.session.delivered <= a.session.offered
            && !b.session.crashed && b.session.cause != Some(PacketTooLarge)
            && (Settled(b) && b.net.received == Flat(a.session.offered) ==> b.session.delivered == a.session.offered)
  {
    var ps := Run(sender, Init(start), es).session.offered;
    WriterFifo(sender, start, es);
    PacketsComeOut(receiver.order, ps);
    hide Run, Deframe, GoodFrames, Settled;
    ReadsNoFurther(receiver, now, fs, Flat(ps));
  }

  // ----- Such runs exist -----

  function Offers(ps: seq<Bytes>): seq<Event> {
    if ps == [] then [] else [CallWritePacket(ps[0])] + Offers(ps[1..])
  }

  lemma OfferOne(cfg: Config, c: Conn, p: Bytes)
    requires c.session.started && c.net.open && !c.session.crashed && NoFailure(c)
    ensures var d := Next(cfg, c, CallWritePacket(p));
            && d.session.started && d.net.open && !d.session.crashed && NoFailure(d)
            && d.session.offered == c.session.offered + [p]
  {
  }

  lemma OffersStep(cfg: Config, c: Conn, ps: seq<Bytes>)
    requires ps != []
    ensures Run(cfg, c, Offers(ps)) == Run(cfg, Next(cfg, c, CallWritePacket(ps[0])), Offers(ps[1..]))
  {
    hide Next;
    assert Offers(ps)[1..] == Offers(ps[1..]);
  }

  lemma OneByOne(s: seq<Bytes>, ps: seq<Bytes>)
    requires ps != []
    ensures s + [ps[0]] + ps[1..] == s + ps
  {
  }

  lemma {:induction false} OfferAll(cfg: Config, c: Conn, ps: seq<Bytes>)
    requires c.session.started && c.net.open && !c.session.crashed && NoFailure(c)
    ensures var d := Run(cfg, c, Offers(ps));
            && d.session.started && d.net.open && !d.session.crashed && NoFailure(d)
            && d.session.offered == c.session.offered + ps
    decreases |ps|
  {
    if ps == [] {
      assert c.session.offered + ps == c.session.offered;
    } else {
      var d := Next(cfg, c, CallWritePacket(ps[0]));
      OfferOne(cfg, c, ps[0]);
      OffersStep(cfg, c, ps);
      hide Next, Run, NoFailure, Offers;
      OfferAll(cfg, d, ps[1..]);
      OneByOne(c.session.offered, ps);
    }
  }

  lemma SenderOffers(cfg: Config, now: nat, ps: seq<Bytes>)
    ensures var d := Run(cfg, Init(now), [CallStart] + Offers(ps));
            d.net.open && !d.session.crashed && NoFailure(d) && d.session.offered == ps
  {
    var c := Next(cfg, Init(now), CallStart);
    assert c.session.started && c.net.open && !c.session.crashed && NoFailure(c) && c.session.offered == [];
    hide Next, NoFailure;
    OfferAll(cfg, c, ps);
    assert ([CallStart] + Offers(ps))[1..] == Offers(ps);
    assert [] + ps == ps;
  }

  /** On a host of the other byte order a message with a portable record list has the same bytes. */
  lemma SameFrames(o: Order, p: Order, xs: seq<Sent>)
    requires AllSendable(o, xs) && (o == p || forall i | 0 <= i < |xs| :: Portable(xs[i].records))
    ensures AllSendable(p, xs) && Frames(p, xs) == Frames(o, xs)
  {
    forall i | 0 <= i < |xs|
      ensures xs[i].Sendable(p) && Frame(p, xs[i]) == Frame(o, xs[i])
    {
      if o != p {
        AllEncodedAlike(o, p, xs[i].records);
      }
    }
  }

  /**
   Any list of messages within the limits gets from one session to another: there are runs in which the sender is
   given the messages' packets, puts all of them on the wire, and the receiver hands them over, each decoding to its
   message; on hosts of different byte orders provided that the record lists are portable.
   */
  lemma PeersDeliverAll(sender: Config, start: nat, receiver: Config, now: nat, xs: seq<Sent>)
    returns (es: seq<Event>, fs: seq<Event>)
    requires AllSendable(sender.order, xs)
    requires sender.order == receiver.order || forall i | 0 <= i < |xs| :: Portable(xs[i].records)
    ensures var a, b := Run(sender, Init(start), es), Run(receiver, Init(now), fs);
            && a.session.offered == Frames(sender.order, xs) && b.net.received == a.net.wire
            && b.session.delivered == a.session.offered && |b.session.delivered| == |xs|
            && forall i | 0 <= i < |xs| :: xs[i].DecodesTo(receiver.order, b.session.delivered[i])
  {
    var ps := Frames(sender.order, xs);
    SameFrames(sender.order, receiver.order, xs);
    SentComesOut(receiver.order, xs);
    hide Run, Frames, GoodFrames, Settled, NoFailure;
    es := [CallStart] + Offers(ps);
    SenderOffers(sender, start, ps);
    var more := WriterDrains(sender, start, es);
    es := es + more;
    fs := Serve(Flat(ps));
    PacketsAreDelivered(receiver, now, ps);
  }
}
