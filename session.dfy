/**
 * One connection: its framing loop over the inbound stream, outbound writes
 * and termination. The socket's input is the whole byte sequence the peer
 * sends, read through a cursor; its output is the sequence of bytes
 * written. The message handler, which the server leaves abstract, is
 * represented by how it reacts to each message in turn.
 */
module SessionCore {
  import opened Framing
  import ServerCore

  /** The callbacks a session makes, and the moment its socket is first closed. */
  datatype Event = Connected | Message(payload: seq<Byte>) | SocketClosed | Disconnected

  /**
   * What the handler does with one message: nothing, one reply through
   * `send` (whose write may fail), or `terminate`.
   */
  datatype Reaction = Quiet | Reply(bytes: seq<Byte>, writeFails: bool) | Close

  /** A reaction that leaves the session terminated. */
  predicate Halts(r: Reaction)
  {
    r.Close? || (r.Reply? && r.writeFails)
  }

  /** The bytes a reaction puts on the wire; a failed write puts none. */
  function Written(r: Reaction): seq<Byte>
  {
    if r.Reply? && !r.writeFails then r.bytes else []
  }

  /** The reaction to the i-th message; past the given ones the handler stays quiet. */
  function ReactionAt(rs: seq<Reaction>, i: nat): Reaction
  {
    if i < |rs| then rs[i] else Quiet
  }

  /** The reactions from the k-th message on. */
  function Drop(rs: seq<Reaction>, k: nat): seq<Reaction>
  {
    if k <= |rs| then rs[k..] else []
  }

  lemma DropAt(rs: seq<Reaction>, k: nat)
    ensures forall i: nat :: ReactionAt(Drop(rs, k), i) == ReactionAt(rs, k + i)
  {
  }

  /** The first of the reactions from the j-th on, and those after it. */
  lemma DropHead(rs: seq<Reaction>, j: nat)
    ensures ReactionAt(Drop(rs, j), 0) == ReactionAt(rs, j)
    ensures Drop(Drop(rs, j), 1) == Drop(rs, j + 1)
  {
  }

  /** What one run of a session delivers, writes, and why it ended. */
  datatype Served = Served(frames: seq<Frame>, replies: seq<Byte>, stop: Stop)

  /**
   * The session loop as a function of its input and the handler's reactions:
   * read a frame, hand it over, and go on unless the handler terminated the
   * session.
   */
  function Serve(s: seq<Byte>, min: int, max: int, rs: seq<Reaction>): Served
    requires ValidBounds(min, max)
    decreases |s|
  {
    match ReadFrame(s, min, max)
    case Stopped(stop) => Served([], [], stop)
    case Delivered(f, k) =>
      var react := ReactionAt(rs, 0);
      if Halts(react) then Served([f], [], Terminated)
      else
        var rest := Serve(s[k..], min, max, Drop(rs, 1));
        Served([f] + rest.frames, Written(react) + rest.replies, rest.stop)
  }

  /** The bytes written in reply to the first n messages. */
  function Writes(rs: seq<Reaction>, n: nat): seq<Byte>
  {
    if n == 0 then [] else Written(ReactionAt(rs, 0)) + Writes(Drop(rs, 1), n - 1)
  }

  /** The Message events for the frames delivered, one per frame, in order. */
  function Messages(fs: seq<Frame>): seq<Event>
  {
    seq(|fs|, i requires 0 <= i < |fs| => Message(fs[i].payload))
  }

  /** The payloads handed to the handler, one per frame, in order. */
  function Payloads(fs: seq<Frame>): seq<seq<Byte>>
  {
    seq(|fs|, i requires 0 <= i < |fs| => fs[i].payload)
  }

  /**
   * A session delivers the frames of the stream in order; it stops before the
   * stream says so only when the handler terminates it.
   */
  lemma {:induction false} ServeFollowsFrames(s: seq<Byte>, min: int, max: int, rs: seq<Reaction>)
    requires ValidBounds(min, max)
    ensures var sv := Serve(s, min, max, rs);
            var fr := Frames(s, min, max);
            sv.frames <= fr.frames &&
            (sv.stop != Terminated ==> sv.frames == fr.frames && sv.stop == fr.stop)
    decreases |s|
  {
    match ReadFrame(s, min, max)
    case Stopped(stop) =>
    case Delivered(f, k) =>
      if !Halts(ReactionAt(rs, 0)) {
        ServeFollowsFrames(s[k..], min, max, Drop(rs, 1));
      }
  }

  /**
   * The session is terminated by the handler exactly when its reaction to the
   * last message delivered halts it, and no earlier reaction did.
   */
  lemma {:induction false} ServeHaltsAtReaction(s: seq<Byte>, min: int, max: int, rs: seq<Reaction>)
    requires ValidBounds(min, max)
    ensures var sv := Serve(s, min, max, rs);
            (sv.stop == Terminated <==> |sv.frames| > 0 && Halts(ReactionAt(rs, |sv.frames| - 1))) &&
            (forall i :: 0 <= i < |sv.frames| - 1 ==> !Halts(ReactionAt(rs, i)))
    decreases |s|
  {
    match ReadFrame(s, min, max)
    case Stopped(stop) =>
    case Delivered(f, k) =>
      var react := ReactionAt(rs, 0);
      if !Halts(react) {
        var rs' := Drop(rs, 1);
        DropAt(rs, 1);
        ServeHaltsAtReaction(s[k..], min, max, rs');
        var rest := Serve(s[k..], min, max, rs');
        var sv := Serve(s, min, max, rs);
        assert sv.frames == [f] + rest.frames;
        assert forall i :: 1 <= i < |sv.frames| ==> ReactionAt(rs, i) == ReactionAt(rs', i - 1);
      }
  }

  /** A session writes exactly the successful replies to the messages it delivered. */
  lemma {:induction false} ServeWrites(s: seq<Byte>, min: int, max: int, rs: seq<Reaction>)
    requires ValidBounds(min, max)
    ensures var sv := Serve(s, min, max, rs);
            sv.replies == Writes(rs, |sv.frames|)
    decreases |s|
  {
    match ReadFrame(s, min, max)
    case Stopped(stop) =>
    case Delivered(f, k) =>
      if !Halts(ReactionAt(rs, 0)) {
        ServeWrites(s[k..], min, max, Drop(rs, 1));
      } else {
        assert Writes(Drop(rs, 1), 0) == [];
      }
  }

  /** No handler reaction among the first n terminates the session. */
  predicate Tolerant(rs: seq<Reaction>, n: nat)
  {
    forall i :: 0 <= i < n ==> !Halts(ReactionAt(rs, i))
  }

  /**
   * Round trip through a session: frames written for in-bounds messages, read
   * with a handler that does not terminate, deliver exactly those messages
   * and end at the end of the stream.
   */
  lemma SessionRoundTrip(ps: seq<seq<Byte>>, min: int, max: int, rs: seq<Reaction>)
    requires ValidBounds(min, max) && InBounds(ps, min, max) && Tolerant(rs, |ps|)
    ensures var sv := Serve(Encode(FramesOf(ps)), min, max, rs);
            Payloads(sv.frames) == ps && sv.stop == EndOfStream && sv.replies == Writes(rs, |ps|)
  {
    var s := Encode(FramesOf(ps));
    FramesRoundTrip(ps, min, max);
    ServeFollowsFrames(s, min, max, rs);
    ServeHaltsAtReaction(s, min, max, rs);
    ServeWrites(s, min, max, rs);
    var sv := Serve(s, min, max, rs);
    assert sv.stop != Terminated;
  }

  /** A session stopped by a bad length hands nothing further to the handler. */
  lemma OutOfBoundsDeliversNothing(s: seq<Byte>, min: int, max: int, rs: seq<Reaction>)
    requires ValidBounds(min, max) && |s| >= 2
    requires var n := DecodeShort(s[0], s[1]); n < min || n > max
    ensures Serve(s, min, max, rs) == Served([], [], BadLength(DecodeShort(s[0], s[1])))
  {
  }

  /**
   * The same run, walked as the loop walks it: from position `pos` of the
   * whole input, with `j` messages already handled.
   */
  function ServeFrom(input: seq<Byte>, pos: nat, min: int, max: int, rs: seq<Reaction>, j: nat): Served
    requires ValidBounds(min, max) && pos <= |input|
    decreases |input| - pos
  {
    match ReadFrame(input[pos..], min, max)
    case Stopped(stop) => Served([], [], stop)
    case Delivered(f, k) =>
      var react := ReactionAt(rs, j);
      if Halts(react) then Served([f], [], Terminated)
      else
        var rest := ServeFrom(input, pos + k, min, max, rs, j + 1);
        Served([f] + rest.frames, Written(react) + rest.replies, rest.stop)
  }

  /** Walking the input from a position is serving the rest of it. */
  lemma {:induction false} ServeFromIsServe(input: seq<Byte>, pos: nat, min: int, max: int, rs: seq<Reaction>, j: nat)
    requires ValidBounds(min, max) && pos <= |input|
    ensures ServeFrom(input, pos, min, max, rs, j) == Serve(input[pos..], min, max, Drop(rs, j))
    decreases |input| - pos
  {
    var r := ReadFrame(input[pos..], min, max);
    if r.Delivered? && !Halts(ReactionAt(rs, j)) {
      ServeFromIsServe(input, pos + r.size, min, max, rs, j + 1);
      ServeFromCons(input, pos, min, max, rs, j);
    } else {
      ServeFromLast(input, pos, min, max, rs, j);
    }
  }

  /** The walk and the run agree on the first frame when it is the last one handled. */
  lemma ServeFromLast(input: seq<Byte>, pos: nat, min: int, max: int, rs: seq<Reaction>, j: nat)
    requires ValidBounds(min, max) && pos <= |input|
    requires var r := ReadFrame(input[pos..], min, max); r.Stopped? || Halts(ReactionAt(rs, j))
    ensures ServeFrom(input, pos, min, max, rs, j) == Serve(input[pos..], min, max, Drop(rs, j))
  {
    DropHead(rs, j);
  }

  /** The walk and the run agree once they agree after the first frame. */
  lemma ServeFromCons(input: seq<Byte>, pos: nat, min: int, max: int, rs: seq<Reaction>, j: nat)
    requires ValidBounds(min, max) && pos <= |input|
    requires var r := ReadFrame(input[pos..], min, max); r.Delivered? && !Halts(ReactionAt(rs, j))
    requires var k := ReadFrame(input[pos..], min, max).size;
             ServeFrom(input, pos + k, min, max, rs, j + 1) == Serve(input[pos + k..], min, max, Drop(rs, j + 1))
    ensures ServeFrom(input, pos, min, max, rs, j) == Serve(input[pos..], min, max, Drop(rs, j))
  {
    DropHead(rs, j);
    SuffixOfSuffix(input, pos, ReadFrame(input[pos..], min, max).size);
  }

  lemma SuffixOfSuffix(input: seq<Byte>, pos: nat, k: nat)
    requires pos + k <= |input|
    ensures input[pos..][k..] == input[pos + k..]
  {
  }

  /** After `j` messages the input read on from `pos` completes `spec`. */
  ghost predicate Continues(spec: Served, frames: seq<Frame>, replies: seq<Byte>,
                            input: seq<Byte>, pos: nat, min: int, max: int, rs: seq<Reaction>, j: nat)
    requires ValidBounds(min, max) && pos <= |input|
  {
    var rest := ServeFrom(input, pos, min, max, rs, j);
    spec == Served(frames + rest.frames, replies + rest.replies, rest.stop)
  }

  /** Before the first message, reading the whole input completes the run it serves. */
  lemma ServeStart(input: seq<Byte>, min: int, max: int, rs: seq<Reaction>)
    requires ValidBounds(min, max)
    ensures Continues(Serve(input, min, max, rs), [], [], input, 0, min, max, rs, 0)
  {
    ServeFromIsServe(input, 0, min, max, rs, 0);
    assert input[0..] == input && Drop(rs, 0) == rs;
  }

  /** Reading a frame at position c of the input, as the loop does it. */
  lemma ReadFrameAt(input: seq<Byte>, c: nat, min: int, max: int)
    requires ValidBounds(min, max) && c + 2 <= |input|
    requires min <= DecodeShort(input[c], input[c + 1]) <= max
    ensures var n := DecodeShort(input[c], input[c + 1]);
            var next := c + 2 + Min(n, |input| - c - 2);
            ReadFrame(input[c..], min, max) == Delivered(Frame(n, input[c + 2..next]), next - c) &&
            input[c..][next - c..] == input[next..]
  {
    var s := input[c..];
    var n := DecodeShort(input[c], input[c + 1]);
    var m := Min(n, |input| - c - 2);
    assert s[0] == input[c] && s[1] == input[c + 1];
    assert s[2..2 + m] == input[c + 2..c + 2 + m];
  }

  /**
   * One message delivered by the loop at position c of the input: either
   * the handler's reaction ended the run, or reading on from the end of the
   * frame completes it.
   */
  lemma ServeAdvance(spec: Served, frames: seq<Frame>, replies: seq<Byte>,
                     input: seq<Byte>, c: nat, min: int, max: int, rs: seq<Reaction>, j: nat)
    requires ValidBounds(min, max) && c <= |input| && ReadFrame(input[c..], min, max).Delivered?
    requires Continues(spec, frames, replies, input, c, min, max, rs, j)
    ensures var rf := ReadFrame(input[c..], min, max);
            var react := ReactionAt(rs, j);
            (Halts(react) ==> spec == Served(frames + [rf.frame], replies + Written(react), Terminated)) &&
            (!Halts(react) ==>
               Continues(spec, frames + [rf.frame], replies + Written(react), input, c + rf.size, min, max, rs, j + 1))
  {
  }

  /** The loop stopped on its own at position c: the run is complete. */
  lemma ServeStops(spec: Served, frames: seq<Frame>, replies: seq<Byte>,
                   input: seq<Byte>, c: nat, min: int, max: int, rs: seq<Reaction>, j: nat)
    requires ValidBounds(min, max) && c <= |input| && ReadFrame(input[c..], min, max).Stopped?
    requires Continues(spec, frames, replies, input, c, min, max, rs, j)
    ensures spec == Served(frames, replies, ReadFrame(input[c..], min, max).stop)
  {
  }

  /** The trace after one more message. */
  lemma MessagesSnoc(before: seq<Event>, fs: seq<Frame>, f: Frame)
    ensures before + Messages(fs) + [Message(f.payload)] == before + Messages(fs + [f])
  {
    assert Messages(fs + [f]) == Messages(fs) + [Message(f.payload)];
  }

  lemma AppendAssoc(a: seq<Byte>, b: seq<Byte>, c: seq<Byte>)
    ensures a + b + c == a + (b + c)
  {
  }

  class Session {
    const server: ServerCore.Server
    const id: ServerCore.SessionId
    const input: seq<Byte>       // everything the peer sends
    var cursor: nat              // how much of it has been read
    var active: bool
    var closed: bool             // the socket has been closed
    var output: seq<Byte>        // everything written to the peer
    var trace: seq<Event>

    constructor (server: ServerCore.Server, id: ServerCore.SessionId, input: seq<Byte>)
      ensures this.server == server && this.id == id && this.input == input
      ensures cursor == 0 && !active && !closed && output == [] && trace == []
    {
      this.server := server;
      this.id := id;
      this.input := input;
      cursor := 0;
      active := false;
      closed := false;
      output := [];
      trace := [];
    }

    /** Built and not yet run nor terminated: how the server's pool receives it. */
    ghost predicate Fresh()
      reads this
    {
      cursor == 0 && !active && !closed && trace == []
    }

    /** `readShort`: two bytes, or an end-of-stream failure when fewer remain. */
    method ReadShort() returns (n: Short, eof: bool)
      requires cursor <= |input|
      modifies this`cursor
      ensures eof <==> old(cursor) + 2 > |input|
      ensures !eof ==> n == DecodeShort(input[old(cursor)], input[old(cursor) + 1]) && cursor == old(cursor) + 2
      ensures eof ==> cursor == |input|
    {
      if cursor + 2 > |input| {
        n, eof := 0, true;
        cursor := |input|;
      } else {
        n, eof := DecodeShort(input[cursor], input[cursor + 1]), false;
        cursor := cursor + 2;
      }
    }

    /** `readNBytes(len)`: up to `len` bytes, fewer only when the stream ends first. */
    method ReadNBytes(len: nat) returns (bytes: seq<Byte>)
      requires cursor <= |input|
      modifies this`cursor
      ensures bytes == input[old(cursor)..old(cursor) + Min(len, |input| - old(cursor))]
      ensures cursor == old(cursor) + |bytes|
    {
      var m := Min(len, |input| - cursor);
      bytes := input[cursor..cursor + m];
      cursor := cursor + m;
    }

    /**
     * Clears `active` and closes the socket. A second call changes nothing:
     * the socket-closed event is recorded only the first time.
     */
    method Terminate()
      modifies this`active, this`closed, this`trace
      ensures !active && closed
      ensures trace == old(trace) + if old(closed) then [] else [SocketClosed]
    {
      active := false;
      if !closed {
        closed := true;
        trace := trace + [SocketClosed];
      }
    }

    /**
     * Writes `bytes` as they are, with no framing. The write fails when
     * `writeFails` says so or the socket is already closed; a failure writes
     * nothing and terminates the session.
     */
    method Send(bytes: seq<Byte>, writeFails: bool)
      modifies this`active, this`closed, this`trace, this`output
      ensures if old(closed) || writeFails then
                !active && closed && output == old(output) &&
                trace == old(trace) + (if old(closed) then [] else [SocketClosed])
              else
                active == old(active) && closed == old(closed) &&
                output == old(output) + bytes && trace == old(trace)
    {
      if closed || writeFails {
        Terminate();
      } else {
        output := output + bytes;
      }
    }

    /** The handler's reaction to a message delivered while the session is active. */
    method React(r: Reaction)
      requires active && !closed
      modifies this`active, this`closed, this`trace, this`output
      ensures output == old(output) + Written(r)
      ensures active == !Halts(r) && closed == Halts(r)
      ensures !Halts(r) ==> trace == old(trace)
      ensures Halts(r) ==> trace == old(trace) + [SocketClosed]
    {
      match r {
        case Quiet =>
        case Reply(bytes, fails) => Send(bytes, fails);
        case Close => Terminate();
      }
    }

    /**
     * One pass of the loop body: read a length, and unless the stream has
     * ended or the length is out of bounds, read the payload and hand it to
     * the handler, whose reaction is `react`.
     */
    method ReceiveOne(min: int, max: int, react: Reaction) returns (got: bool, stop: Stop, ghost rf: Read)
      requires ValidBounds(min, max) && cursor <= |input| && active && !closed
      modifies this`cursor, this`active, this`closed, this`trace, this`output
      ensures rf == ReadFrame(input[old(cursor)..], min, max)
      ensures cursor <= |input|
      ensures got <==> rf.Delivered?
      ensures !got ==> stop == rf.stop && active && !closed && trace == old(trace) && output == old(output)
      ensures got ==> cursor == old(cursor) + rf.size &&
                      (!Halts(react) ==> trace == old(trace) + [Message(rf.frame.payload)]) &&
                      (Halts(react) ==> trace == old(trace) + [Message(rf.frame.payload)] + [SocketClosed]) &&
                      output == old(output) + Written(react) &&
                      active == !Halts(react) && closed == Halts(react)
    {
      ghost var c := cursor;
      rf := ReadFrame(input[c..], min, max);
      var n, eof := ReadShort();
      if eof {
        assert ReadFrame(input[c..], min, max) == Stopped(EndOfStream);
        return false, EndOfStream, rf;
      }
      if n < min || n > max {
        assert input[c..][0] == input[c] && input[c..][1] == input[c + 1];
        return false, BadLength(n), rf;
      }
      var payload := ReadNBytes(n);
      ReadFrameAt(input, c, min, max);
      // onMessageReceived, then whatever the handler does with the message
      trace := trace + [Message(payload)];
      React(react);
      got, stop := true, Terminated;
    }

    /**
     * The `while (active)` loop: read a length, stop on end of stream or on a
     * length out of bounds, otherwise read the payload, hand it to the
     * handler, and go on while the session is still active.
     */
    method Receive(ghost spec: Served, min: int, max: int, reactions: seq<Reaction>) returns (stop: Stop)
      requires ValidBounds(min, max) && cursor <= |input| && active && !closed
      requires Continues(spec, [], [], input, cursor, min, max, reactions, 0)
      modifies this`cursor, this`active, this`closed, this`trace, this`output
      ensures stop == spec.stop && output == old(output) + spec.replies
      ensures active ==> trace == old(trace) + Messages(spec.frames)
      ensures !active ==> trace == old(trace) + Messages(spec.frames) + [SocketClosed]
      ensures active <==> stop != Terminated
      ensures closed == !active
    {
      ghost var frames: seq<Frame> := [];
      ghost var replies: seq<Byte> := [];
      var k: nat := 0;
      stop := Terminated;
      while active
        invariant cursor <= |input|
        invariant closed == !active
        invariant stop == Terminated
        invariant active ==> trace == old(trace) + Messages(frames)
        invariant !active ==> trace == old(trace) + Messages(frames) + [SocketClosed]
        invariant output == old(output) + replies
        invariant active ==> Continues(spec, frames, replies, input, cursor, min, max, reactions, k)
        invariant !active ==> spec == Served(frames, replies, Terminated)
        decreases |input| - cursor
      {
        ghost var c := cursor;
        var got, st, rf := ReceiveOne(min, max, ReactionAt(reactions, k));
        if !got {
          ServeStops(spec, frames, replies, input, c, min, max, reactions, k);
          stop := st;
          break;
        }
        ServeAdvance(spec, frames, replies, input, c, min, max, reactions, k);
        ghost var f := rf.frame;
        MessagesSnoc(old(trace), frames, f);
        AppendAssoc(old(output), replies, Written(ReactionAt(reactions, k)));
        frames := frames + [f];
        replies := replies + Written(ReactionAt(reactions, k));
        k := k + 1;
      }
    }

    /**
     * The session's thread: register with the server, run the framing loop
     * until the stream ends, a length is out of bounds or the session is
     * terminated, then close the socket and unregister.
     */
    method Run(min: int, max: int, reactions: seq<Reaction>) returns (stop: Stop)
      requires ValidBounds(min, max) && Fresh()
      modifies this`cursor, this`active, this`closed, this`trace, this`output, server`sessions
      ensures var r := Serve(input, min, max, reactions);
              stop == r.stop &&
              trace == [Connected] + Messages(r.frames) + [SocketClosed, Disconnected] &&
              output == old(output) + r.replies
      ensures !active && closed
      ensures server.sessions == ServerCore.RemoveFirst(old(server.sessions) + [id], id)
    {
      server.OnConnected(id);
      trace := trace + [Connected];
      assert trace == [Connected];
      active := true;
      ghost var r := Serve(input, min, max, reactions);
      ServeStart(input, min, max, reactions);
      stop := Receive(r, min, max, reactions);
      ghost var events := Messages(r.frames);
      Terminate();
      assert trace == [Connected] + events + [SocketClosed];
      server.OnDisconnected(id);
      trace := trace + [Disconnected];
    }
  }
}
