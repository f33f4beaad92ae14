/**
 Packets on a byte stream, as `Reader` delimits them: a four-byte big-endian length, then that many
 bytes, handed over together with the length in front.

 `Deframe` is the one-shot specification; the connection's read handlers are proved to refine it in
 module `ReaderTheorems`.
 */
module Framing {
  import opened ByteOrder
  import opened SubHeaders
  import opened Packets

  const PACKET_LENGTH: nat := 4
  const MAX_PACKET_SIZE: nat := MAX_HEADER_SIZE + MAX_PAYLOAD_SIZE

  function Flat(bs: seq<Bytes>): Bytes {
    if bs == [] then [] else bs[0] + Flat(bs[1..])
  }

  lemma {:induction false} FlatAppend(xs: seq<Bytes>, ys: seq<Bytes>)
    ensures Flat(xs + ys) == Flat(xs) + Flat(ys)
  {
    if xs == [] {
      assert xs + ys == ys;
    } else {
      FlatAppend(xs[1..], ys);
      assert (xs + ys)[1..] == xs[1..] + ys;
      assert Flat(xs + ys) == xs[0] + (Flat(xs[1..]) + Flat(ys));
    }
  }

  lemma FlatOne(b: Bytes)
    ensures Flat([b]) == b
  {
    assert Flat([b]) == b + Flat([]) == b + [];
  }

  lemma FlatPush(xs: seq<Bytes>, b: Bytes)
    ensures Flat(xs + [b]) == Flat(xs) + b
  {
    FlatAppend(xs, [b]);
    FlatOne(b);
  }

  /** A length prefix and as many bytes as it says, within Reader's limit. */
  ghost predicate IsFrame(f: Bytes) {
    PACKET_LENGTH <= |f| && U32(f, 0) == |f| - PACKET_LENGTH <= MAX_PACKET_SIZE
  }

  /** Frames that `Session::on_packet` accepts. */
  ghost predicate GoodFrame(order: Order, f: Bytes) {
    IsFrame(f) && Decode(order, f).Success?
  }

  ghost predicate GoodFrames(order: Order, fs: seq<Bytes>) {
    forall i | 0 <= i < |fs| :: GoodFrame(order, fs[i])
  }

  /** Why deframing stopped: bytes are missing, the length is over the limit, or the last frame does not decode. */
  datatype End = Starved | Oversized | Rejected

  datatype Deframed = Deframed(frames: seq<Bytes>, end: End)

  function Deframe(order: Order, s: Bytes): Deframed {
    if |s| < PACKET_LENGTH then Deframed([], Starved)
    else
      var size := U32(s, 0);
      if size > MAX_PACKET_SIZE then Deframed([], Oversized)
      else if |s| < PACKET_LENGTH + size then Deframed([], Starved)
      else
        var frame := s[..PACKET_LENGTH + size];
        if Decode(order, frame).Failure? then Deframed([frame], Rejected)
        else
          var rest := Deframe(order, s[PACKET_LENGTH + size..]);
          Deframed([frame] + rest.frames, rest.end)
  }

  /** What the front of a stream says, byte by byte. */
  lemma DeframeFront(order: Order, s: Bytes)
    ensures |s| < 4 ==> Deframe(order, s) == Deframed([], Starved)
    ensures 4 <= |s| ==>
              var n := 0x100_0000 * (s[0] as int) + 0x1_0000 * (s[1] as int) + 0x100 * (s[2] as int) + s[3];
              && (Deframe(order, s) == Deframed([], Oversized) <==> n > 1024 + 1024 * 1024)
              && (Deframe(order, s) == Deframed([], Starved) <==> n <= 1024 + 1024 * 1024 && |s| < 4 + n)
              && (n <= 1024 + 1024 * 1024 && 4 + n <= |s| ==>
                    Deframe(order, s).frames != [] && Deframe(order, s).frames[0] == s[..4 + n])
  {
    hide Decode;
  }

  lemma DeframeStep(order: Order, f: Bytes, rest: Bytes)
    requires IsFrame(f)
    ensures Deframe(order, f + rest) ==
            if Decode(order, f).Failure? then Deframed([f], Rejected)
            else Deframed([f] + Deframe(order, rest).frames, Deframe(order, rest).end)
  {
    var s := f + rest;
    hide Decode;
    assert U32(s, 0) == U32(f, 0);
    assert s[..|f|] == f && s[|f|..] == rest;
  }

  /** Deframing is compositional: acceptable frames in front come out one by one. */
  lemma {:induction false} DeframeFlat(order: Order, fs: seq<Bytes>, rest: Bytes)
    requires GoodFrames(order, fs)
    ensures Deframe(order, Flat(fs) + rest) ==
            Deframed(fs + Deframe(order, rest).frames, Deframe(order, rest).end)
  {
    hide Decode, Deframe, IsFrame;
    if fs == [] {
      assert Flat(fs) + rest == rest;
      assert fs + Deframe(order, rest).frames == Deframe(order, rest).frames;
    } else {
      assert GoodFrame(order, fs[0]);
      DeframeFlat(order, fs[1..], rest);
      DeframeStep(order, fs[0], Flat(fs[1..]) + rest);
      assert Flat(fs) + rest == fs[0] + (Flat(fs[1..]) + rest);
      assert [fs[0]] + (fs[1..] + Deframe(order, rest).frames) == fs + Deframe(order, rest).frames;
    }
  }

  /** Deframing that finds a frame has cut it off the front of the stream. */
  lemma DeframePeel(order: Order, s: Bytes)
    requires Deframe(order, s).frames != []
    ensures var d := Deframe(order, s);
            var f := d.frames[0];
            && IsFrame(f) && |f| <= |s| && s == f + s[|f|..]
            && d == if Decode(order, f).Failure? then Deframed([f], Rejected)
                    else Deframed([f] + Deframe(order, s[|f|..]).frames, Deframe(order, s[|f|..]).end)
  {
    hide Decode;
    assert U32(Deframe(order, s).frames[0], 0) == U32(s, 0);
  }

  /** What the frames of a deframed stream are: all but a rejected last one decode. */
  ghost predicate Handed(order: Order, d: Deframed) {
    if d.end == Rejected then
      && d.frames != []
      && var n := |d.frames| - 1;
      && GoodFrames(order, d.frames[..n]) && IsFrame(d.frames[n]) && Decode(order, d.frames[n]).Failure?
    else GoodFrames(order, d.frames)
  }

  lemma HandedMore(order: Order, f: Bytes, d: Deframed)
    requires GoodFrame(order, f) && Handed(order, d)
    ensures Handed(order, Deframed([f] + d.frames, d.end))
  {
    hide Decode, IsFrame;
    var fs := [f] + d.frames;
    if d.end == Rejected {
      assert fs[..|fs| - 1] == [f] + d.frames[..|d.frames| - 1];
      assert fs[|fs| - 1] == d.frames[|d.frames| - 1];
    }
  }

  /** The frames are a prefix of the stream. */
  lemma {:induction false} DeframeSound(order: Order, s: Bytes)
    ensures Handed(order, Deframe(order, s)) && Flat(Deframe(order, s).frames) <= s
    decreases |s|
  {
    var d := Deframe(order, s);
    if d.frames == [] {
      assert d.end != Rejected;
    } else {
      DeframePeel(order, s);
      hide Decode, Deframe, IsFrame;
      var f := d.frames[0];
      if Decode(order, f).Failure? {
        FlatOne(f);
      } else {
        var rest := s[|f|..];
        DeframeSound(order, rest);
        HandedMore(order, f, Deframe(order, rest));
        assert d.frames[1..] == Deframe(order, rest).frames;
      }
    }
  }

  /** Where deframing ends for another reason than missing bytes, nothing behind matters. */
  lemma {:induction false} DeframeEnded(order: Order, s: Bytes, more: Bytes)
    requires Deframe(order, s).end != Starved
    ensures Deframe(order, s + more) == Deframe(order, s)
    decreases |s|
  {
    hide Decode;
    if Deframe(order, s).frames == [] {
      assert U32(s + more, 0) == U32(s, 0);
    } else {
      DeframePeel(order, s);
      hide Deframe, IsFrame;
      var f := Deframe(order, s).frames[0];
      var rest := s[|f|..];
      assert s + more == f + (rest + more);
      DeframeStep(order, f, rest + more);
      if Decode(order, f).Success? {
        DeframeEnded(order, rest, more);
      }
    }
  }

  /**
   End to end: accepted packets whose length bytes hold the total minus four, and that pass Reader's
   limit, come out of their concatenation exactly as they went in.
   */
  lemma PacketsComeOut(order: Order, ps: seq<Bytes>)
    requires GoodFrames(order, ps)
    ensures Deframe(order, Flat(ps)) == Deframed(ps, Starved)
  {
    DeframeFlat(order, ps, []);
    assert Flat(ps) + [] == Flat(ps);
    assert ps + [] == ps;
  }

  // ----- Prefixes of a stream -----

  lemma Behind(p: Bytes, t: Bytes, s: Bytes)
    requires p + t <= s
    ensures s == p + s[|p|..] && t <= s[|p|..]
  {
    assert t == (p + t)[|p|..];
  }

  /** A prefix of a stream gives a prefix of its frames, and refuses nothing that the stream does not refuse. */
  lemma DeframePrefix(order: Order, r: Bytes, s: Bytes)
    requires r <= s
    ensures Deframe(order, r).frames <= Deframe(order, s).frames
    ensures Deframe(order, r).end != Starved ==> Deframe(order, s) == Deframe(order, r)
  {
    var d := Deframe(order, r);
    Behind(r, [], s);
    if d.end != Starved {
      DeframeEnded(order, r, s[|r|..]);
    } else {
      DeframeSound(order, r);
      hide Deframe, Flat, GoodFrames;
      Behind(Flat(d.frames), [], s);
      DeframeFlat(order, d.frames, s[|Flat(d.frames)|..]);
    }
  }

  /** How many bytes of a stream of `n` bytes deframing needs to see. */
  ghost function Extent(d: Deframed, n: nat): nat {
    match d.end
    case Starved => n
    case Rejected => |Flat(d.frames)|
    case Oversized => |Flat(d.frames)| + PACKET_LENGTH
  }

  lemma NoFrameExtent(order: Order, s: Bytes)
    requires Deframe(order, s).frames == []
    ensures var d := Deframe(order, s);
            Extent(d, |s|) <= |s| && Deframe(order, s[..Extent(d, |s|)]) == d
  {
    hide Decode;
    if Deframe(order, s).end == Starved {
      assert s[..|s|] == s;
    } else {
      assert U32(s[..PACKET_LENGTH], 0) == U32(s, 0);
    }
  }

  lemma MoreExtent(f: Bytes, d: Deframed, n: nat)
    ensures Extent(Deframed([f] + d.frames, d.end), |f| + n) == |f| + Extent(d, n)
  {
    assert ([f] + d.frames)[1..] == d.frames;
  }

  /** It needs no more: cut there, the stream gives the same frames and the same end. */
  ghost predicate Suffices(order: Order, s: Bytes) {
    var d := Deframe(order, s);
    Extent(d, |s|) <= |s| && Deframe(order, s[..Extent(d, |s|)]) == d
  }

  lemma RejectedSuffices(order: Order, f: Bytes, rest: Bytes)
    requires IsFrame(f) && Decode(order, f).Failure?
    ensures Suffices(order, f + rest)
  {
    hide Decode, Deframe, IsFrame;
    FlatOne(f);
    DeframeStep(order, f, []);
    DeframeStep(order, f, rest);
    assert (f + rest)[..|f|] == f == f + [];
  }

  lemma SufficesAt(order: Order, s: Bytes, start: Bytes, n: nat)
    requires Extent(Deframe(order, s), |s|) == n <= |s| && s[..n] == start
    requires Deframe(order, start) == Deframe(order, s)
    ensures Suffices(order, s)
  {
  }

  lemma CutWithin(p: Bytes, s: Bytes, n: nat, start: Bytes)
    requires n <= |s| && start == s[..n]
    ensures |p + s| == |p| + |s| && (p + s)[..|p| + n] == p + start
  {
  }

  lemma DecodedSuffices(order: Order, f: Bytes, rest: Bytes)
    requires IsFrame(f) && Decode(order, f).Success? && Suffices(order, rest)
    ensures Suffices(order, f + rest)
  {
    var e := Deframe(order, rest);
    var n := Extent(e, |rest|);
    var start := rest[..n];
    assert n <= |rest| && Deframe(order, start) == e;
    hide Decode, Deframe, IsFrame, Extent, Suffices;
    MoreExtent(f, e, |rest|);
    DeframeStep(order, f, rest);
    DeframeStep(order, f, start);
    CutWithin(f, rest, n, start);
    SufficesAt(order, f + rest, f + start, |f| + n);
  }

  lemma {:induction false} DeframeExtent(order: Order, s: Bytes)
    ensures Suffices(order, s)
    decreases |s|
  {
    if Deframe(order, s).frames == [] {
      NoFrameExtent(order, s);
    } else {
      DeframePeel(order, s);
      hide Decode, Deframe, IsFrame, Suffices;
      var f := Deframe(order, s).frames[0];
      if Decode(order, f).Failure? {
        RejectedSuffices(order, f, s[|f|..]);
      } else {
        DeframeExtent(order, s[|f|..]);
        DecodedSuffices(order, f, s[|f|..]);
      }
    }
  }

  /** A piece of stream that holds at most one frame, and nothing behind it. */
  ghost predicate AtMostOne(s: Bytes) {
    |s| <= PACKET_LENGTH || (U32(s, 0) <= MAX_PACKET_SIZE && |s| <= PACKET_LENGTH + U32(s, 0))
  }

  lemma OneWithinExtent(order: Order, t: Bytes, s: Bytes)
    requires AtMostOne(t) && t <= s
    ensures |t| <= Extent(Deframe(order, s), |s|)
  {
    var d := Deframe(order, s);
    hide Decode;
    if |t| >= PACKET_LENGTH {
      assert U32(t, 0) == U32(s, 0);
    }
    if d.end != Starved && d.frames != [] {
      DeframePeel(order, s);
      hide Deframe;
      assert U32(d.frames[0], 0) == U32(s, 0);
    }
  }

  lemma GoodExtent(fs: seq<Bytes>, d: Deframed, n: nat)
    ensures Extent(Deframed(fs + d.frames, d.end), |Flat(fs)| + n) == |Flat(fs)| + Extent(d, n)
  {
    FlatAppend(fs, d.frames);
  }

  /** Good frames and at most one more are within what deframing needs to see. */
  lemma WithinExtent(order: Order, fs: seq<Bytes>, t: Bytes, s: Bytes)
    requires GoodFrames(order, fs) && AtMostOne(t) && Flat(fs) + t <= s
    ensures |Flat(fs) + t| <= Extent(Deframe(order, s), |s|)
  {
    hide Deframe, Flat, AtMostOne, GoodFrames, Extent;
    Behind(Flat(fs), t, s);
    var rest := s[|Flat(fs)|..];
    DeframeFlat(order, fs, rest);
    GoodExtent(fs, Deframe(order, rest), |rest|);
    OneWithinExtent(order, t, rest);
  }
}
