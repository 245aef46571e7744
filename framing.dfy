/**
 * The inbound wire format of a session: each frame is a two-byte big-endian
 * signed length N followed by N payload bytes. Reading follows the JDK
 * contracts the session loop relies on: `DataInput.readShort` fails at end of
 * stream when fewer than two bytes remain, and `InputStream.readNBytes(N)`
 * returns fewer than N bytes, without failing, when the stream ends first.
 */
module Framing {

  /** One octet of the socket stream. */
  type Byte = b: int | 0 <= b < 256

  /** A Java `short`. */
  type Short = n: int | -32768 <= n <= 32767

  /** The message size bounds, MIN_MSG_LENGTH and MAX_MSG_LENGTH, as the model assumes them. */
  predicate ValidBounds(min: int, max: int)
  {
    0 <= min <= max <= 32767
  }

  function Min(a: int, b: int): int
  {
    if a <= b then a else b
  }

  /** `DataOutput.writeShort`: the two's-complement value, high byte first. */
  function EncodeShort(n: Short): (bs: seq<Byte>)
    ensures |bs| == 2
  {
    var u := if n < 0 then n + 65536 else n;
    [u / 256, u % 256]
  }

  /** `DataInput.readShort` applied to the two bytes it reads. */
  function DecodeShort(hi: Byte, lo: Byte): (n: Short)
    ensures EncodeShort(n) == [hi, lo]
    ensures n < 0 <==> hi >= 128
  {
    var u := (hi as int) * 256 + lo as int;
    if u < 32768 then u else u - 65536
  }

  lemma DecodeEncodeShort(n: Short)
    ensures DecodeShort(EncodeShort(n)[0], EncodeShort(n)[1]) == n
  {
    var u := if n < 0 then n + 65536 else n;
    assert (u / 256) * 256 + u % 256 == u;
  }

  /** A frame as it was read: the declared length and the payload bytes actually delivered. */
  datatype Frame = Frame(declared: Short, payload: seq<Byte>)

  /** Why a framing loop ended: end of stream while reading a length, a length out of bounds, or termination. */
  datatype Stop = EndOfStream | BadLength(length: Short) | Terminated

  /** The result of reading one frame at the head of a stream. */
  datatype Read = Delivered(frame: Frame, size: nat) | Stopped(stop: Stop)

  function EncodeFrame(f: Frame): (bs: seq<Byte>)
  {
    EncodeShort(f.declared) + f.payload
  }

  /** The bytes a sequence of frames occupies on the wire. */
  function Encode(fs: seq<Frame>): (bs: seq<Byte>)
    ensures |bs| >= 2 * |fs|
  {
    if fs == [] then [] else EncodeFrame(fs[0]) + Encode(fs[1..])
  }

  lemma {:induction false} EncodeAppend(fs: seq<Frame>, f: Frame)
    ensures Encode(fs + [f]) == Encode(fs) + EncodeFrame(f)
  {
    if fs == [] {
      assert [] + [f] == [f];
    } else {
      assert (fs + [f])[1..] == fs[1..] + [f];
      EncodeAppend(fs[1..], f);
    }
  }

  /** A frame at the head of a stream, followed by frames read from the rest of it. */
  lemma EncodeCons(s: seq<Byte>, k: nat, f: Frame, fs: seq<Frame>)
    requires k <= |s| && s[..k] == EncodeFrame(f) && Encode(fs) <= s[k..]
    ensures Encode([f] + fs) <= s
    ensures s[|Encode([f] + fs)|..] == s[k..][|Encode(fs)|..]
    ensures forall i :: 1 <= i < |[f] + fs| ==> ([f] + fs)[i] == fs[i - 1]
  {
    assert ([f] + fs)[1..] == fs;
    assert Encode([f] + fs) == EncodeFrame(f) + Encode(fs);
    assert s == s[..k] + s[k..];
  }

  /**
   * One iteration of the read side of the session loop: read the length,
   * check it against the bounds, then read up to that many payload bytes.
   */
  function ReadFrame(s: seq<Byte>, min: int, max: int): (r: Read)
    requires ValidBounds(min, max)
    ensures r.Stopped? ==> r.stop != Terminated
    ensures r.Stopped? && r.stop == EndOfStream <==> |s| < 2
    ensures r.Stopped? && r.stop.BadLength? <==>
              |s| >= 2 && !(min <= DecodeShort(s[0], s[1]) <= max)
    ensures r.Stopped? && r.stop.BadLength? ==> r.stop.length == DecodeShort(s[0], s[1])
    ensures r.Delivered? ==>
              2 <= r.size <= |s| && s[..r.size] == EncodeFrame(r.frame) &&
              min <= r.frame.declared <= max &&
              |r.frame.payload| <= r.frame.declared &&
              (|r.frame.payload| < r.frame.declared ==> r.size == |s|)
  {
    if |s| < 2 then Stopped(EndOfStream)
    else
      var n := DecodeShort(s[0], s[1]);
      if n < min || n > max then Stopped(BadLength(n))
      else
        var m := Min(n, |s| - 2);
        assert s[..2 + m] == [s[0], s[1]] + s[2..2 + m];
        Delivered(Frame(n, s[2..2 + m]), 2 + m)
  }

  /** Every frame read from the stream, in order, and why reading stopped. */
  datatype Framing = Framing(frames: seq<Frame>, stop: Stop)

  /**
   * The frames the session loop delivers when nothing else stops it.
   * The postconditions characterise the result independently of the
   * recursion: the frames, re-encoded, are a prefix of the stream; each is in
   * bounds; only the last can be short, and then it ends the stream; and
   * reading at the point reached stops for the reason returned.
   */
  function Frames(s: seq<Byte>, min: int, max: int): (r: Framing)
    requires ValidBounds(min, max)
    ensures Encode(r.frames) <= s
    ensures ReadFrame(s[|Encode(r.frames)|..], min, max) == Stopped(r.stop)
    ensures forall i :: 0 <= i < |r.frames| ==>
              min <= r.frames[i].declared <= max && |r.frames[i].payload| <= r.frames[i].declared
    ensures forall i :: 0 <= i < |r.frames| && |r.frames[i].payload| < r.frames[i].declared ==>
              i == |r.frames| - 1 && Encode(r.frames) == s
    decreases |s|
  {
    match ReadFrame(s, min, max)
    case Stopped(stop) => Framing([], stop)
    case Delivered(f, k) =>
      var rest := Frames(s[k..], min, max);
      EncodeCons(s, k, f, rest.frames);
      Framing([f] + rest.frames, rest.stop)
  }

  /** The frame a sender writes for one message. */
  function FrameOf(p: seq<Byte>): Frame
    requires |p| <= 32767
  {
    Frame(|p|, p)
  }

  predicate InBounds(ps: seq<seq<Byte>>, min: int, max: int)
  {
    forall i :: 0 <= i < |ps| ==> min <= |ps[i]| <= max
  }

  /** The frames a sender writes for a sequence of messages. */
  function FramesOf(ps: seq<seq<Byte>>): (fs: seq<Frame>)
    requires forall i :: 0 <= i < |ps| ==> |ps[i]| <= 32767
    ensures |fs| == |ps|
    ensures forall i :: 0 <= i < |ps| ==> fs[i].payload == ps[i] && fs[i].declared == |ps[i]|
  {
    if ps == [] then [] else [FrameOf(ps[0])] + FramesOf(ps[1..])
  }

  /** Reading the frame written for an in-bounds message gives back that message and the rest of the stream. */
  lemma ReadWrittenFrame(p: seq<Byte>, rest: seq<Byte>, min: int, max: int)
    requires ValidBounds(min, max) && min <= |p| <= max
    ensures var s := EncodeFrame(FrameOf(p)) + rest;
            ReadFrame(s, min, max) == Delivered(FrameOf(p), 2 + |p|) && s[2 + |p|..] == rest
  {
    var h := EncodeShort(|p|);
    var s := h + p + rest;
    DecodeEncodeShort(|p|);
    assert s[0] == h[0] && s[1] == h[1];
    assert s[2..2 + |p|] == p;
    assert s[2 + |p|..] == rest;
  }

  /** Round trip: reading the frames written for in-bounds messages gives back exactly those messages. */
  lemma {:induction false} FramesRoundTrip(ps: seq<seq<Byte>>, min: int, max: int)
    requires ValidBounds(min, max) && InBounds(ps, min, max)
    ensures Frames(Encode(FramesOf(ps)), min, max) == Framing(FramesOf(ps), EndOfStream)
  {
    if ps != [] {
      var fs := FramesOf(ps);
      assert fs[0] == FrameOf(ps[0]) && fs[1..] == FramesOf(ps[1..]);
      assert InBounds(ps[1..], min, max) by {
        forall i | 0 <= i < |ps[1..]| ensures min <= |ps[1..][i]| <= max {
          assert ps[1..][i] == ps[i + 1];
        }
      }
      FramesRoundTrip(ps[1..], min, max);
      ReadWrittenFrame(ps[0], Encode(fs[1..]), min, max);
      assert [fs[0]] + fs[1..] == fs;
    }
  }

  /** The stream the sample client writes: length 6, opcode -1, then "blah" in ASCII. */
  function SampleClientStream(): seq<Byte>
  {
    EncodeShort(6) + EncodeShort(-1) + [98, 108, 97, 104]
  }

  /** The sample client's stream is one six-byte message whenever 6 is within bounds. */
  lemma SampleClientMessage(min: int, max: int)
    requires ValidBounds(min, max) && min <= 6 <= max
    ensures Frames(SampleClientStream(), min, max) ==
              Framing([Frame(6, [255, 255, 98, 108, 97, 104])], EndOfStream)
  {
    var ps := [[255, 255, 98, 108, 97, 104]];
    assert SampleClientStream() == Encode(FramesOf(ps));
    FramesRoundTrip(ps, min, max);
  }
}
