/** The drain-and-refill loop of the fake RESP server (src/checks/redis.rs):
    frame and answer every complete command in the buffer, then read more.
    Replies are counted; a usize overflow inside the framer ends the thread. */
module RespStream {
  import opened Resp

  datatype Connection = Connection(buf: seq<Byte>, replies: nat, dead: bool)

  const FRESH := Connection([], 0, false)

  /** Greedy framing of everything buffered. */
  function Drain(buf: seq<Byte>, replies: nat): (c: Connection)
    ensures !c.dead ==> CommandLen(c.buf) == Incomplete
    decreases |buf|
  {
    match CommandLen(buf)
    case Incomplete => Connection(buf, replies, false)
    case Overflow => Connection(buf, replies, true)
    case Frame(n) => Drain(buf[n..], replies + 1)
  }

  function Receive(c: Connection, chunk: seq<Byte>): Connection {
    if c.dead then c else Drain(c.buf + chunk, c.replies)
  }

  function ReceiveAll(c: Connection, chunks: seq<seq<Byte>>): Connection
    decreases chunks
  {
    if chunks == [] then c else ReceiveAll(Receive(c, chunks[0]), chunks[1..])
  }

  function Concat(chunks: seq<seq<Byte>>): seq<Byte> {
    if chunks == [] then [] else chunks[0] + Concat(chunks[1..])
  }

  /** The serving thread's state, updated in place. */
  class FakeRedis {
    var buf: seq<Byte>
    var replies: nat
    var dead: bool

    ghost function State(): Connection
      reads this
    {
      Connection(buf, replies, dead)
    }

    constructor ()
      ensures State() == FRESH
    {
      buf, replies, dead := [], 0, false;
    }

    /** The inner `while let` loop. */
    method AnswerBuffered()
      requires !dead
      modifies this
      ensures State() == Drain(old(buf), old(replies))
    {
      var next := RespCommandLen(buf);
      while next.Frame?
        invariant !dead && next == CommandLen(buf)
        invariant Drain(buf, replies) == Drain(old(buf), old(replies))
        decreases |buf|
      {
        buf := buf[next.len..];
        replies := replies + 1;
        next := RespCommandLen(buf);
      }
      if next.Overflow? {
        dead := true;
      }
    }

    /** One turn of the outer loop: a read, then the answers it completes. */
    method OnRead(chunk: seq<Byte>)
      modifies this
      ensures State() == Receive(old(State()), chunk)
    {
      if !dead {
        buf := buf + chunk;
        AnswerBuffered();
      }
    }

    method Serve(chunks: seq<seq<Byte>>)
      modifies this
      ensures State() == ReceiveAll(old(State()), chunks)
    {
      for k := 0 to |chunks|
        invariant ReceiveAll(old(State()), chunks) == ReceiveAll(State(), chunks[k..])
      {
        assert chunks[k..][0] == chunks[k] && chunks[k..][1..] == chunks[k + 1..];
        OnRead(chunks[k]);
      }
    }
  }

  // ---------------------------------------------------- chunking independence

  /** Same observable connection: after an overflow the buffer is gone. */
  predicate Same(a: Connection, b: Connection) {
    a.replies == b.replies && a.dead == b.dead && (!a.dead ==> a.buf == b.buf)
  }

  /** Draining x and then refilling with y is draining x + y at once. */
  lemma {:induction false} DrainThenRefill(x: seq<Byte>, y: seq<Byte>, replies: nat)
    ensures Same(Drain(x + y, replies), Receive(Drain(x, replies), y))
    decreases |x|
  {
    match CommandLen(x)
    case Incomplete =>
    case Overflow =>
      DecisionSurvivesExtension(x, y);
    case Frame(n) =>
      DecisionSurvivesExtension(x, y);
      assert (x + y)[n..] == x[n..] + y;
      DrainThenRefill(x[n..], y, replies + 1);
  }

  /** Every turn of the inner loop removes at least three bytes, so the loop turns
      at most a third as often as there are bytes, and loses none of the rest. */
  lemma {:induction false} AnswersAreBounded(buf: seq<Byte>, replies: nat)
    ensures var c := Drain(buf, replies);
            replies <= c.replies && 3 * (c.replies - replies) + |c.buf| <= |buf| && c.buf == buf[|buf| - |c.buf|..]
    decreases |buf|
  {
    match CommandLen(buf)
    case Incomplete =>
    case Overflow =>
    case Frame(n) =>
      AnswersAreBounded(buf[n..], replies + 1);
  }

  /** Over a whole connection: at most one reply per three bytes received. */
  lemma {:induction false} RepliesAreBounded(chunks: seq<seq<Byte>>)
    ensures 3 * ReceiveAll(FRESH, chunks).replies <= |Concat(chunks)|
  {
    ChunkingIndependence(FRESH, chunks);
    AnswersAreBounded([] + Concat(chunks), 0);
  }

  lemma {:induction false} SameForever(a: Connection, b: Connection, chunks: seq<seq<Byte>>)
    requires Same(a, b)
    ensures Same(ReceiveAll(a, chunks), ReceiveAll(b, chunks))
    decreases chunks
  {
    if chunks == [] {
    } else {
      SameForever(Receive(a, chunks[0]), Receive(b, chunks[0]), chunks[1..]);
    }
  }

  lemma ReceiveTwice(c: Connection, x: seq<Byte>, y: seq<Byte>)
    ensures Same(Receive(c, x + y), Receive(Receive(c, x), y))
  {
    if !c.dead {
      DrainThenRefill(c.buf + x, y, c.replies);
      assert c.buf + x + y == c.buf + (x + y);
    }
  }

  lemma ReceiveNothing(c: Connection)
    requires !c.dead ==> CommandLen(c.buf) == Incomplete
    ensures Receive(c, []) == c
  {
    assert c.buf + [] == c.buf;
  }

  /** However the stream is split into reads, the replies, the residual buffer
      and the thread's fate are those of greedy framing of the whole. */
  lemma {:induction false} ChunkingIndependence(c: Connection, chunks: seq<seq<Byte>>)
    requires !c.dead ==> CommandLen(c.buf) == Incomplete
    ensures Same(ReceiveAll(c, chunks), Receive(c, Concat(chunks)))
    decreases chunks
  {
    if chunks == [] {
      ReceiveNothing(c);
    } else {
      ChunkingIndependence(Receive(c, chunks[0]), chunks[1..]);
      ReceiveTwice(c, chunks[0], Concat(chunks[1..]));
    }
  }

  // ------------------------------------------------------------ being stuck

  /** What is buffered can still become a command. */
  ghost predicate Completable(buf: seq<Byte>) {
    exists c: LenientCommand :: c.Valid() && |EncodeLenient(c)| <= USIZE_MAX && buf <= EncodeLenient(c)
  }

  lemma {:induction false} CompletionIsAnswered(c: Connection, cmd: LenientCommand)
    requires !c.dead && cmd.Valid() && |EncodeLenient(cmd)| <= USIZE_MAX && c.buf <= EncodeLenient(cmd)
    ensures Receive(c, EncodeLenient(cmd)[|c.buf|..]) == Connection([], c.replies + 1, false)
  {
    var e := EncodeLenient(cmd);
    FramesEveryCommand(cmd, []);
    assert e + [] == e && c.buf + e[|c.buf|..] == e;
    assert e[|e|..] == [] && CommandLen([]) == Incomplete;
    assert Drain([], c.replies + 1) == Connection([], c.replies + 1, false);
  }

  lemma AnsweredIsCompletable(buf: seq<Byte>, more: seq<Byte>)
    requires CommandLen(buf) == Incomplete && |buf + more| <= USIZE_MAX
    requires CommandLen(buf + more).Frame?
    ensures Completable(buf)
  {
    var all := buf + more;
    var n := CommandLen(all).len;
    var c := FrameShape(all);
    if n <= |buf| {
      assert buf[..n] == all[..n];
      FrameIsPrefixDetermined(all, buf, 0);
      assert false;
    }
    assert buf <= all[..n];
  }

  /** A live connection whose buffer holds no complete command can still get a
      reply exactly when the buffer begins some command; otherwise it never will,
      whatever arrives, as long as the buffer fits the address space. */
  lemma {:induction false} StuckExactly(c: Connection)
    requires !c.dead && CommandLen(c.buf) == Incomplete && |c.buf| <= USIZE_MAX
    ensures (exists chunks: seq<seq<Byte>> ::
               |c.buf + Concat(chunks)| <= USIZE_MAX && ReceiveAll(c, chunks).replies > c.replies)
            <==> Completable(c.buf)
  {
    hide CommandLen, EncodeLenient;
    if Completable(c.buf) {
      var cmd: LenientCommand :| cmd.Valid() && |EncodeLenient(cmd)| <= USIZE_MAX && c.buf <= EncodeLenient(cmd);
      var rest := EncodeLenient(cmd)[|c.buf|..];
      CompletionIsAnswered(c, cmd);
      OneChunk(c, rest);
      assert c.buf + rest == EncodeLenient(cmd);
      assert |c.buf + Concat([rest])| <= USIZE_MAX && ReceiveAll(c, [rest]).replies > c.replies;
    }
    forall chunks: seq<seq<Byte>> | |c.buf + Concat(chunks)| <= USIZE_MAX && ReceiveAll(c, chunks).replies > c.replies
      ensures Completable(c.buf)
    {
      ChunkingIndependence(c, chunks);
      assert CommandLen(c.buf + Concat(chunks)).Frame?;
      AnsweredIsCompletable(c.buf, Concat(chunks));
    }
  }

  lemma OneChunk(c: Connection, chunk: seq<Byte>)
    ensures Concat([chunk]) == chunk && ReceiveAll(c, [chunk]) == Receive(c, chunk)
  {
    assert [chunk][1..] == [];
    assert ReceiveAll(Receive(c, chunk), []) == Receive(c, chunk);
  }

  function EncodeAll(cmds: seq<seq<seq<Byte>>>): seq<Byte> {
    if cmds == [] then [] else Encode(cmds[0]) + EncodeAll(cmds[1..])
  }

  lemma {:induction false} DrainsWholeCommands(cmds: seq<seq<seq<Byte>>>, rest: seq<Byte>, replies: nat)
    requires |EncodeAll(cmds)| <= USIZE_MAX && CommandLen(rest) == Incomplete
    ensures Drain(EncodeAll(cmds) + rest, replies) == Connection(rest, replies + |cmds|, false)
    decreases cmds
  {
    if cmds == [] {
      assert EncodeAll(cmds) + rest == rest;
    } else {
      var e := Encode(cmds[0]);
      var all := EncodeAll(cmds) + rest;
      assert all == e + (EncodeAll(cmds[1..]) + rest);
      EncodedCommandIsFramed(cmds[0], EncodeAll(cmds[1..]) + rest);
      assert all[|e|..] == EncodeAll(cmds[1..]) + rest;
      DrainsWholeCommands(cmds[1..], rest, replies + 1);
    }
  }

  /** One reply per pipelined command and nothing lost: a client's commands,
      followed by any part of a further one, arrive in arbitrary pieces. */
  lemma {:induction false} OneReplyPerCommand(
      cmds: seq<seq<seq<Byte>>>, last: seq<seq<Byte>>, k: nat, chunks: seq<seq<Byte>>)
    requires |EncodeAll(cmds)| <= USIZE_MAX && |Encode(last)| <= USIZE_MAX && k < |Encode(last)|
    requires Concat(chunks) == EncodeAll(cmds) + Encode(last)[..k]
    ensures ReceiveAll(FRESH, chunks) == Connection(Encode(last)[..k], |cmds|, false)
  {
    EncodedCommandIsFramed(last, []);
    ChunkingIndependence(FRESH, chunks);
    assert [] + Concat(chunks) == EncodeAll(cmds) + Encode(last)[..k];
    DrainsWholeCommands(cmds, Encode(last)[..k], 0);
  }
}
