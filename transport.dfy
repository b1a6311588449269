/** Length-prefixed framing of nidus (nidus/transport.py): a frame is a 4-byte big-endian
    unsigned length followed by the message bytes, and `recv_message` reassembles one frame
    from whatever chunks the socket hands out. The socket is abstracted as the sequence of
    chunks its `recv` calls will return; an empty chunk, or no chunk left, is the peer
    closing the connection. */
module Transport {
  import opened Common

  type Byte = b: int | 0 <= b < 256

  /** Frames carry their length in 32 bits (`struct.pack(">L", ...)`). */
  const MaxMessageLength: int := 0x1_0000_0000

  /** `struct.pack(">L", n)`: the four big-endian bytes of `n`. */
  function EncodeSize(n: nat): (r: seq<Byte>)
    requires n < MaxMessageLength
    ensures |r| == 4
  {
    [n / 0x100_0000, (n / 0x1_0000) % 0x100, (n / 0x100) % 0x100, n % 0x100]
  }

  /** `struct.unpack(">L", b)[0]`: the number whose big-endian bytes are `b`. */
  function DecodeSize(b: seq<Byte>): (n: nat)
    requires |b| == 4
    ensures n < MaxMessageLength
  {
    (b[0] as int) * 0x100_0000 + (b[1] as int) * 0x1_0000 + (b[2] as int) * 0x100 + b[3] as int
  }

  /** What `send_message(msg)` writes: the size prefix, then the message. */
  function Frame(msg: seq<Byte>): (f: seq<Byte>)
    requires |msg| < MaxMessageLength
  {
    EncodeSize(|msg|) + msg
  }

  /** The bytes of a sequence of chunks, in order. */
  function Concat(chunks: seq<seq<Byte>>): seq<Byte>
  {
    if chunks == [] then [] else chunks[0] + Concat(chunks[1..])
  }

  /** The receive state that survives between iterations: the buffered bytes and the
      parsed frame size, if the header has been read. */
  datatype Pending = Pending(buff: seq<Byte>, size: Option<nat>)

  /** What one `recv_message` call returns and leaves behind: the message (`b""` when the
      peer closed first), the new buffer and size, and how many chunks it consumed. */
  datatype Received = Received(msg: seq<Byte>, buff: seq<Byte>, size: Option<nat>, consumed: nat)

  /** One iteration's header step: with no size yet and at least four bytes buffered,
      the first four bytes become the size and leave the buffer. */
  function ReadHeader(buff: seq<Byte>, size: Option<nat>): Pending
  {
    if size.None? && |buff| >= 4 then Pending(buff[4..], Some(DecodeSize(buff[..4]))) else Pending(buff, size)
  }

  /** The loop of `recv_message` as a function of the buffer, the size and the chunks the
      socket still holds. A size of 0 is falsy in Python, so it never completes a frame. */
  function RecvLoop(buff: seq<Byte>, size: Option<nat>, chunks: seq<seq<Byte>>): (r: Received)
    ensures r.consumed <= |chunks|
    decreases |chunks|
  {
    if chunks == [] then Received([], buff, size, 0)
    else if chunks[0] == [] then Received([], buff, size, 1)
    else
      var p := ReadHeader(buff + chunks[0], size);
      if p.size.Some? && p.size.value > 0 && |p.buff| >= p.size.value then
        Received(p.buff[..p.size.value], p.buff[p.size.value..], None, 1)
      else
        var r := RecvLoop(p.buff, p.size, chunks[1..]);
        r.(consumed := r.consumed + 1)
  }

  /** The connected socket: the chunks still to be received, the bytes sent so far, and
      how many times `recv` was called. */
  class Socket {
    var incoming: seq<seq<Byte>>
    var sent: seq<Byte>
    var recvCalls: nat

    constructor (incoming: seq<seq<Byte>>)
      ensures this.incoming == incoming && sent == [] && recvCalls == 0
    {
      this.incoming := incoming;
      sent := [];
      recvCalls := 0;
    }

    /** `recv(1024)`: the next chunk, or `b""` once the peer has closed. */
    method Recv() returns (data: seq<Byte>)
      modifies this
      ensures recvCalls == old(recvCalls) + 1 && sent == old(sent)
      ensures old(incoming) == [] ==> data == [] && incoming == []
      ensures old(incoming) != [] ==> data == old(incoming)[0] && incoming == old(incoming)[1..]
    {
      recvCalls := recvCalls + 1;
      if incoming == [] {
        data := [];
      } else {
        data := incoming[0];
        incoming := incoming[1..];
      }
    }

    /** `sendall(bytes)`. */
    method SendAll(bytes: seq<Byte>)
      modifies this
      ensures sent == old(sent) + bytes
      ensures incoming == old(incoming) && recvCalls == old(recvCalls)
    {
      sent := sent + bytes;
    }
  }

  class MsgTransport {
    const sock: Socket
    var buff: seq<Byte>
    var size: Option<nat>
    var recvdMsg: Option<seq<Byte>>

    constructor (sock: Socket)
      ensures this.sock == sock && buff == [] && size == None && recvdMsg == None
    {
      this.sock := sock;
      buff := [];
      size := None;
      recvdMsg := None;
    }

    /** `send_message(msg)`: writes the frame of `msg` to the socket. */
    method SendMessage(msg: seq<Byte>)
      requires |msg| < MaxMessageLength
      modifies sock
      ensures sock.sent == old(sock.sent) + Frame(msg)
      ensures sock.incoming == old(sock.incoming) && sock.recvCalls == old(sock.recvCalls)
    {
      var sizePrefix := EncodeSize(|msg|);
      sock.SendAll(sizePrefix + msg);
    }

    /** `recv_message()`: receives chunks until a whole frame is buffered and returns its
        message, keeping the bytes after it in `buff`; returns `b""` as soon as `recv` does.
        Every call calls `recv` at least once, even when a whole frame is already buffered. */
    method RecvMessage() returns (msg: seq<Byte>)
      requires recvdMsg == None
      modifies this, sock
      ensures recvdMsg == None
      ensures var r := RecvLoop(old(buff), old(size), old(sock.incoming));
              msg == r.msg && buff == r.buff && size == r.size
              && sock.incoming == old(sock.incoming)[r.consumed..]
      ensures sock.recvCalls > old(sock.recvCalls)
      ensures sock.sent == old(sock.sent)
    {
      ghost var r0 := RecvLoop(buff, size, sock.incoming);
      ghost var chunks0 := sock.incoming;
      ghost var k := 0;
      while recvdMsg.None? || recvdMsg.value == []
        invariant 0 <= k <= |chunks0| && sock.incoming == chunks0[k..]
        invariant sock.sent == old(sock.sent)
        invariant sock.recvCalls == old(sock.recvCalls) + k
        invariant recvdMsg.None? ==>
          var r := RecvLoop(buff, size, sock.incoming);
          r.msg == r0.msg && r.buff == r0.buff && r.size == r0.size && r.consumed + k == r0.consumed
        invariant recvdMsg.Some? ==>
          recvdMsg.value == r0.msg && recvdMsg.value != [] && buff == r0.buff && size == r0.size
          && k == r0.consumed && k > 0
        decreases |sock.incoming|, if recvdMsg.None? then 1 else 0
      {
        var data := sock.Recv();
        if data == [] {
          return [];
        }
        k := k + 1;
        buff := buff + data;
        if size.None? && |buff| >= 4 {
          size := Some(DecodeSize(buff[..4]));
          buff := buff[4..];
        }
        if size.Some? && size.value > 0 && |buff| >= size.value {
          recvdMsg := Some(buff[..size.value]);
          buff := buff[size.value..];
          size := None;
        }
      }
      msg := recvdMsg.value;
      recvdMsg := None;
    }
  }

  /** The size prefix decodes to the length it encodes. */
  lemma SizeRoundTrip(n: nat)
    requires n < MaxMessageLength
    ensures DecodeSize(EncodeSize(n)) == n
  {
    var n1, n2, n3 := n / 0x100, n / 0x1_0000, n / 0x100_0000;
    assert n == n1 * 0x100 + n % 0x100;
    assert n1 == n2 * 0x100 + n1 % 0x100;
    assert n2 == n3 * 0x100 + n2 % 0x100;
  }

  /** The bytes of the first `k + 1` chunks are the first chunk followed by the bytes of
      the next `k`. */
  lemma ConcatTake(chunks: seq<seq<Byte>>, k: nat)
    requires k < |chunks|
    ensures Concat(chunks[..k + 1]) == chunks[0] + Concat(chunks[1..][..k])
  {
    assert chunks[..k + 1][0] == chunks[0];
    assert chunks[..k + 1][1..] == chunks[1..][..k];
  }

  /** Two byte strings of which one is a prefix of the other. */
  predicate Compatible(a: seq<Byte>, b: seq<Byte>)
  {
    a <= b || b <= a
  }

  /** The loop once the size is known to be `|msg|` and part of `msg` is buffered: if the
      chunks complete `msg`, the call returns it and keeps what follows; otherwise it
      consumes every chunk and returns `b""`. */
  lemma {:induction false} BodyPhase(msg: seq<Byte>, buff: seq<Byte>, chunks: seq<seq<Byte>>)
    requires 0 < |msg| && |buff| < |msg|
    requires forall i :: 0 <= i < |chunks| ==> chunks[i] != []
    requires Compatible(buff + Concat(chunks), msg)
    ensures var r := RecvLoop(buff, Some(|msg|), chunks);
            if |msg| <= |buff + Concat(chunks)| then
              r.msg == msg && r.size == None && 1 <= r.consumed
              && buff + Concat(chunks[..r.consumed]) == msg + r.buff
            else
              r.msg == [] && r.consumed == |chunks|
    decreases |chunks|
  {
    if chunks != [] {
      var b := buff + chunks[0];
      var rest := Concat(chunks[1..]);
      assert buff + Concat(chunks) == b + rest;
      assert ReadHeader(b, Some(|msg|)) == Pending(b, Some(|msg|));
      if |b| >= |msg| {
        assert msg <= b + rest;
        assert b[..|msg|] == msg;
        ConcatTake(chunks, 0);
        assert chunks[1..][..0] == [];
      } else {
        BodyPhase(msg, b, chunks[1..]);
        var r := RecvLoop(b, Some(|msg|), chunks[1..]);
        if |msg| <= |b + rest| {
          ConcatTake(chunks, r.consumed);
          assert buff + Concat(chunks[..r.consumed + 1]) == b + Concat(chunks[1..][..r.consumed]);
        }
      }
    }
  }

  /** A header for `msg`: four bytes that decode to its length. `Frame(msg)` starts with
      one; the lemmas below take the header as a parameter so that they never unfold the
      arithmetic of `EncodeSize`. */
  predicate HeaderFor(h: seq<Byte>, msg: seq<Byte>)
  {
    |h| == 4 && DecodeSize(h) == |msg|
  }

  /** The first chunk completes the header, so the loop reads the size `|msg|` and goes
      on with the bytes that follow the header. */
  lemma HeaderStep(msg: seq<Byte>, h: seq<Byte>, buff: seq<Byte>, chunks: seq<seq<Byte>>)
    requires HeaderFor(h, msg) && |buff| < 4
    requires chunks != [] && chunks[0] != [] && |buff + chunks[0]| >= 4
    requires Compatible(buff + Concat(chunks), h + msg)
    ensures var b := buff + chunks[0];
            b == h + b[4..]
            && Compatible(b[4..] + Concat(chunks[1..]), msg)
            && RecvLoop(buff, None, chunks) ==
                 if |msg| > 0 && |b[4..]| >= |msg| then Received(b[4..][..|msg|], b[4..][|msg|..], None, 1)
                 else var r := RecvLoop(b[4..], Some(|msg|), chunks[1..]); r.(consumed := r.consumed + 1)
  {
    var b := buff + chunks[0];
    var rest := Concat(chunks[1..]);
    assert buff + Concat(chunks) == b + rest;
    assert b[..4] == (h + msg)[..4] == h;
    assert b == b[..4] + b[4..];
    assert ReadHeader(b, None) == Pending(b[4..], Some(|msg|));
    assert (b + rest)[4..] == b[4..] + rest;
    assert (h + msg)[4..] == msg;
  }

  /** The first chunk holds everything after the buffered bytes up to the end of the frame. */
  lemma WholeFrameInFirst(msg: seq<Byte>, h: seq<Byte>, buff: seq<Byte>, chunks: seq<seq<Byte>>)
    requires HeaderFor(h, msg) && 0 < |msg| && |buff| < 4
    requires chunks != [] && chunks[0] != [] && |buff + chunks[0]| >= 4 + |msg|
    requires Compatible(buff + Concat(chunks), h + msg)
    ensures var r := RecvLoop(buff, None, chunks);
            r.msg == msg && r.size == None && r.consumed == 1
            && buff + Concat(chunks[..1]) == h + msg + r.buff
  {
    HeaderStep(msg, h, buff, chunks);
    var b := buff + chunks[0];
    var b1 := b[4..];
    assert b1[..|msg|] == msg by {
      var rest := Concat(chunks[1..]);
      assert Compatible(b1 + rest, msg);
    }
    assert buff + Concat(chunks[..1]) == b by {
      ConcatTake(chunks, 0);
      assert chunks[1..][..0] == [];
    }
    assert b == h + msg + b1[|msg|..] by {
      assert b1 == msg + b1[|msg|..];
    }
  }

  /** The first chunk completes the header but not the body, and a later chunk completes
      the frame. */
  lemma BodyLater(msg: seq<Byte>, h: seq<Byte>, buff: seq<Byte>, chunks: seq<seq<Byte>>)
    requires HeaderFor(h, msg) && 0 < |msg| && |buff| < 4
    requires chunks != [] && 4 <= |buff + chunks[0]| < 4 + |msg| <= |buff + Concat(chunks)|
    requires forall i :: 0 <= i < |chunks| ==> chunks[i] != []
    requires Compatible(buff + Concat(chunks), h + msg)
    ensures var r := RecvLoop(buff, None, chunks);
            r.msg == msg && r.size == None && 1 <= r.consumed
            && buff + Concat(chunks[..r.consumed]) == h + msg + r.buff
  {
    var b := buff + chunks[0];
    var b1 := b[4..];
    var rest := Concat(chunks[1..]);
    var r := RecvLoop(b1, Some(|msg|), chunks[1..]);
    var whole := RecvLoop(buff, None, chunks);
    assert whole == r.(consumed := r.consumed + 1) && Compatible(b1 + rest, msg) && b == h + b1 by {
      HeaderStep(msg, h, buff, chunks);
    }
    assert |msg| <= |b1 + rest| by {
      assert buff + Concat(chunks) == b + rest;
    }
    assert r.msg == msg && r.size == None && 1 <= r.consumed
        && b1 + Concat(chunks[1..][..r.consumed]) == msg + r.buff by {
      BodyPhase(msg, b1, chunks[1..]);
    }
    assert buff + Concat(chunks[..whole.consumed]) == h + msg + whole.buff by {
      ConsumedAfterHeader(buff, chunks, h, b1, msg, r.buff, r.consumed);
    }
  }

  /** When the first chunk completes header `h` with `b1` left over, and `b1` with the
      bytes of the next `k` chunks is `m + tail`, the first `k + 1` chunks give
      `h + m + tail`. */
  lemma ConsumedAfterHeader(buff: seq<Byte>, chunks: seq<seq<Byte>>, h: seq<Byte>, b1: seq<Byte>,
                            m: seq<Byte>, tail: seq<Byte>, k: nat)
    requires k < |chunks| && buff + chunks[0] == h + b1
    requires b1 + Concat(chunks[1..][..k]) == m + tail
    ensures buff + Concat(chunks[..k + 1]) == h + m + tail
  {
    ConcatTake(chunks, k);
    var c := Concat(chunks[1..][..k]);
    assert buff + (chunks[0] + c) == (buff + chunks[0]) + c;
    assert (h + b1) + c == h + (b1 + c);
    assert h + (m + tail) == h + m + tail;
  }

  /** The first chunk completes the header but the chunks never complete the body. */
  lemma BodyNever(msg: seq<Byte>, h: seq<Byte>, buff: seq<Byte>, chunks: seq<seq<Byte>>)
    requires HeaderFor(h, msg) && 0 < |msg| && |buff| < 4
    requires chunks != [] && 4 <= |buff + chunks[0]| && |buff + Concat(chunks)| < 4 + |msg|
    requires forall i :: 0 <= i < |chunks| ==> chunks[i] != []
    requires Compatible(buff + Concat(chunks), h + msg)
    ensures RecvLoop(buff, None, chunks).msg == []
    ensures RecvLoop(buff, None, chunks).consumed == |chunks|
  {
    var b := buff + chunks[0];
    var b1 := b[4..];
    var rest := Concat(chunks[1..]);
    assert buff + Concat(chunks) == b + rest;
    assert |b| < 4 + |msg|;
    HeaderStep(msg, h, buff, chunks);
    BodyPhase(msg, b1, chunks[1..]);
  }

  /** The loop before the header is complete, with a prefix of the frame `h + msg`
      buffered: once the chunks hold the whole frame the call returns `msg` and keeps the
      bytes after it; if they never do, it consumes every chunk and returns `b""`. */
  lemma {:induction false} HeaderPhase(msg: seq<Byte>, h: seq<Byte>, buff: seq<Byte>, chunks: seq<seq<Byte>>)
    requires HeaderFor(h, msg) && 0 < |msg| && |buff| < 4
    requires forall i :: 0 <= i < |chunks| ==> chunks[i] != []
    requires Compatible(buff + Concat(chunks), h + msg)
    ensures var r := RecvLoop(buff, None, chunks);
            if 4 + |msg| <= |buff + Concat(chunks)| then
              r.msg == msg && r.size == None && 1 <= r.consumed
              && buff + Concat(chunks[..r.consumed]) == h + msg + r.buff
            else
              r.msg == [] && r.consumed == |chunks|
    decreases |chunks|
  {
    if chunks != [] {
      var b := buff + chunks[0];
      var rest := Concat(chunks[1..]);
      assert buff + Concat(chunks) == b + rest;
      if |b| >= 4 + |msg| {
        WholeFrameInFirst(msg, h, buff, chunks);
      } else if |b| >= 4 {
        if 4 + |msg| <= |buff + Concat(chunks)| {
          BodyLater(msg, h, buff, chunks);
        } else {
          BodyNever(msg, h, buff, chunks);
        }
      } else {
        assert ReadHeader(b, None) == Pending(b, None);
        HeaderPhase(msg, h, b, chunks[1..]);
        var r := RecvLoop(b, None, chunks[1..]);
        if 4 + |msg| <= |b + rest| {
          ConcatTake(chunks, r.consumed);
          assert buff + Concat(chunks[..r.consumed + 1]) == b + Concat(chunks[1..][..r.consumed]);
        }
      }
    }
  }

  /** Round trip: over any chunking of a byte stream that starts with the frame of a
      non-empty `msg`, a fresh transport's `recv_message` returns exactly `msg`, resets the
      size, and keeps in its buffer the received bytes that follow the frame. */
  lemma FrameRoundTrip(msg: seq<Byte>, chunks: seq<seq<Byte>>)
    requires 0 < |msg| < MaxMessageLength
    requires forall i :: 0 <= i < |chunks| ==> chunks[i] != []
    requires Frame(msg) <= Concat(chunks)
    ensures var r := RecvLoop([], None, chunks);
            r.msg == msg && r.size == None && 1 <= r.consumed
            && Concat(chunks[..r.consumed]) == Frame(msg) + r.buff
  {
    var h := EncodeSize(|msg|);
    SizeRoundTrip(|msg|);
    assert [] + Concat(chunks) == Concat(chunks);
    HeaderPhase(msg, h, [], chunks);
    var r := RecvLoop([], None, chunks);
    assert [] + Concat(chunks[..r.consumed]) == Concat(chunks[..r.consumed]);
  }

  /** If the peer closes before the whole frame of `msg` has arrived, `recv_message`
      consumes every chunk and returns `b""`. */
  lemma TruncatedFrame(msg: seq<Byte>, chunks: seq<seq<Byte>>)
    requires 0 < |msg| < MaxMessageLength
    requires forall i :: 0 <= i < |chunks| ==> chunks[i] != []
    requires Concat(chunks) < Frame(msg)
    ensures RecvLoop([], None, chunks).msg == []
    ensures RecvLoop([], None, chunks).consumed == |chunks|
  {
    var h := EncodeSize(|msg|);
    SizeRoundTrip(|msg|);
    assert [] + Concat(chunks) == Concat(chunks);
    HeaderPhase(msg, h, [], chunks);
  }

  /** `recv_message` returns `b""` only when `recv` returned `b""`: after the last chunk, or
      on an empty chunk. A received message is therefore never empty. */
  lemma {:induction false} EmptyOnlyWhenClosed(buff: seq<Byte>, size: Option<nat>, chunks: seq<seq<Byte>>)
    ensures var r := RecvLoop(buff, size, chunks);
            r.msg == [] ==> r.consumed == |chunks| || chunks[r.consumed - 1] == []
    decreases |chunks|
  {
    if chunks != [] && chunks[0] != [] {
      var p := ReadHeader(buff + chunks[0], size);
      if !(p.size.Some? && p.size.value > 0 && |p.buff| >= p.size.value) {
        EmptyOnlyWhenClosed(p.buff, p.size, chunks[1..]);
        var r := RecvLoop(p.buff, p.size, chunks[1..]);
        if r.consumed < |chunks[1..]| {
          assert chunks[1..][r.consumed] == chunks[r.consumed + 1];
        }
      }
    }
  }

  /** Once a header announcing size 0 has been read, no frame is ever completed: every
      later call returns `b""` and the size stays 0, so nothing behind it is read either. */
  lemma {:induction false} ZeroSizeStalls(buff: seq<Byte>, chunks: seq<seq<Byte>>)
    ensures RecvLoop(buff, Some(0), chunks).msg == []
    ensures RecvLoop(buff, Some(0), chunks).size == Some(0)
    decreases |chunks|
  {
    if chunks != [] && chunks[0] != [] {
      assert ReadHeader(buff + chunks[0], Some(0)) == Pending(buff + chunks[0], Some(0));
      ZeroSizeStalls(buff + chunks[0], chunks[1..]);
    }
  }

  /** A zero-length message is never delivered: however the chunks split its frame's
      header, once the header is read the connection is stuck at size 0, whatever follows. */
  lemma ZeroLengthFrameNeverReturned(chunks: seq<seq<Byte>>)
    requires Frame([]) <= Concat(chunks)
    ensures RecvLoop([], None, chunks).msg == []
  {
    assert Frame([]) == EncodeSize(0);
    assert [] + Concat(chunks) == Concat(chunks);
    ZeroHeaderStalls([], chunks);
  }

  /** With fewer than four bytes buffered and a zero header still arriving, the call
      returns `b""`: the chunk that completes the header leaves size 0 behind. */
  lemma {:induction false} ZeroHeaderStalls(buff: seq<Byte>, chunks: seq<seq<Byte>>)
    requires |buff| < 4 && EncodeSize(0) <= buff + Concat(chunks)
    ensures RecvLoop(buff, None, chunks).msg == []
    decreases |chunks|
  {
    if chunks != [] && chunks[0] != [] {
      var b := buff + chunks[0];
      assert b + Concat(chunks[1..]) == buff + Concat(chunks);
      if |b| >= 4 {
        assert b[..4] == EncodeSize(0);
        SizeRoundTrip(0);
        assert ReadHeader(b, None) == Pending(b[4..], Some(0));
        ZeroSizeStalls(b[4..], chunks[1..]);
      } else {
        ZeroHeaderStalls(b, chunks[1..]);
      }
    }
  }
}
