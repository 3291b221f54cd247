/** Reassembly of length-prefixed frames from arbitrary chunks (StockData/client.h,
    StockData/response.h). */
module Framing {

  type byte = x: int | 0 <= x < 256

  /** sizeof(ResHead), a packed structure, and the offset of its 16-bit field len1. */
  const HEAD := 16
  const LEN1 := 12

  /** The two parts that a handler call receives. */
  datatype Frame = Frame(head: seq<byte>, body: seq<byte>)

  /** getHead().len1: a little-endian unsigned short. */
  function Len1(head: seq<byte>): nat
    requires |head| >= HEAD
  {
    (head[LEN1] as int) + 256 * (head[LEN1 + 1] as int)
  }

  lemma HeadAlone(s: seq<byte>)
    requires |s| >= HEAD
    ensures Len1(s[..HEAD]) == Len1(s)
  {
  }

  // ------------------------------------------------ the packed structure

  /** The low `n` bytes of an integer, the lowest first; those of a negative one in two's complement. */
  function LittleEndian(v: int, n: nat): (r: seq<byte>)
    ensures |r| == n
    decreases n
  {
    if n == 0 then [] else [v % 256] + LittleEndian(v / 256, n - 1)
  }

  /** The fields of ResHead. */
  datatype ResHead = ResHead(finger: int, zip: int, seqId: int, span2: int, cmd: int, len1: int, len2: int)
  {
    /** The field that is read is an unsigned short. */
    predicate Proper() { 0 <= len1 <= 0xffff }

    /** The structure in memory, its fields in order without gaps. */
    function Packed(): seq<byte> {
      LittleEndian(finger, 4) + LittleEndian(zip, 1) + LittleEndian(seqId, 4) + LittleEndian(span2, 1)
      + LittleEndian(cmd, 2) + LittleEndian(len1, 2) + LittleEndian(len2, 2)
    }
  }

  lemma TwoBytes(v: int)
    ensures LittleEndian(v, 2) == [v % 256, v / 256 % 256]
  {
    assert LittleEndian(v / 256, 1) == [v / 256 % 256];
  }

  /** Whatever the fields are, the structure has 16 bytes, and the length read from them is the field len1. */
  lemma PackedHead(h: ResHead)
    requires h.Proper()
    ensures |h.Packed()| == 16 == HEAD && Len1(h.Packed()) == h.len1
  {
    TwoBytes(h.len1);
    var front := LittleEndian(h.finger, 4) + LittleEndian(h.zip, 1) + LittleEndian(h.seqId, 4) + LittleEndian(h.span2, 1)
      + LittleEndian(h.cmd, 2);
    assert |front| == 12 && h.Packed() == front + LittleEndian(h.len1, 2) + LittleEndian(h.len2, 2);
    assert h.Packed()[12] == LittleEndian(h.len1, 2)[0] && h.Packed()[13] == LittleEndian(h.len1, 2)[1];
  }

  // ------------------------------------------------ the frames of a stream

  predicate Complete(s: seq<byte>) { |s| >= HEAD && |s| >= HEAD + Len1(s) }

  /** The frames at the front of `s`. */
  function Frames(s: seq<byte>): seq<Frame> {
    if Complete(s) then
      var n := HEAD + Len1(s);
      [Frame(s[..HEAD], s[HEAD..n])] + Frames(s[n..])
    else []
  }

  /** What is left behind them. */
  function Rest(s: seq<byte>): seq<byte> {
    if Complete(s) then Rest(s[HEAD + Len1(s)..]) else s
  }

  /** A frame whose length field agrees with its body. */
  predicate WellFormed(f: Frame) { |f.head| == HEAD && |f.body| == Len1(f.head) }

  /** The bytes of a list of frames. */
  function Wire(fs: seq<Frame>): seq<byte> {
    if fs == [] then [] else fs[0].head + fs[0].body + Wire(fs[1..])
  }

  /** The frames of a stream are well formed, and with the rest they are the stream. */
  lemma {:induction false} FramesAreTheStream(s: seq<byte>)
    ensures forall f | f in Frames(s) :: WellFormed(f)
    ensures Wire(Frames(s)) + Rest(s) == s && !Complete(Rest(s))
    decreases |s|
  {
    if Complete(s) {
      var n := HEAD + Len1(s);
      FramesAreTheStream(s[n..]);
      assert Frames(s)[1..] == Frames(s[n..]);
      assert s == s[..HEAD] + s[HEAD..n] + s[n..];
    }
  }

  /** One frame off the front. */
  lemma FirstFrame(head: seq<byte>, s: seq<byte>)
    requires |head| == HEAD && |s| >= Len1(head)
    ensures Frames(head + s) == [Frame(head, s[..Len1(head)])] + Frames(s[Len1(head)..])
    ensures Rest(head + s) == Rest(s[Len1(head)..])
  {
    var n := HEAD + Len1(head);
    assert (head + s)[..HEAD] == head && (head + s)[HEAD..n] == s[..Len1(head)];
    assert (head + s)[n..] == s[Len1(head)..];
  }

  /** Nothing complete: no frame. */
  lemma NoFrame(s: seq<byte>)
    requires !Complete(s)
    ensures Frames(s) == [] && Rest(s) == s
  {
  }

  /** A head without the whole of its body: no frame either. */
  lemma BodyMissing(head: seq<byte>, s: seq<byte>)
    requires |head| == HEAD && |s| < Len1(head)
    ensures Frames(head + s) == [] && Rest(head + s) == head + s
  {
    assert (head + s)[..HEAD] == head;
    HeadAlone(head + s);
  }

  /** Reading back: a stream of well-formed frames and an incomplete tail has exactly these frames. */
  lemma {:induction false} WireRoundTrip(fs: seq<Frame>, tail: seq<byte>)
    requires (forall f | f in fs :: WellFormed(f)) && !Complete(tail)
    ensures Frames(Wire(fs) + tail) == fs && Rest(Wire(fs) + tail) == tail
    decreases |fs|
  {
    hide Frames, Rest, Complete, Len1;
    if fs == [] {
      NoFrame(tail);
      assert Wire(fs) + tail == tail;
    } else {
      var f, s := fs[0], Wire(fs) + tail;
      WireRoundTrip(fs[1..], tail);
      assert f in fs && s == f.head + (f.body + (Wire(fs[1..]) + tail));
      FirstFrame(f.head, f.body + (Wire(fs[1..]) + tail));
      assert (f.body + (Wire(fs[1..]) + tail))[|f.body|..] == Wire(fs[1..]) + tail;
    }
  }

  /** What a sender sends: a structure and the number of bytes that its len1 says. */
  datatype Message = Message(head: ResHead, body: seq<byte>)
  {
    predicate Proper() { head.Proper() && |body| == head.len1 }
  }

  function Packets(ms: seq<Message>): (fs: seq<Frame>)
    ensures |fs| == |ms| && forall i | 0 <= i < |ms| :: fs[i] == Frame(ms[i].head.Packed(), ms[i].body)
  {
    seq(|ms|, i requires 0 <= i < |ms| => Frame(ms[i].head.Packed(), ms[i].body))
  }

  /** The stream is that of the messages, and of an incomplete part of another. */
  predicate Carries(s: seq<byte>, ms: seq<Message>, tail: seq<byte>) {
    (forall m | m in ms :: m.Proper()) && !Complete(tail) && s == Wire(Packets(ms)) + tail
  }

  /** Messages are read back, field by field as their structures are packed. */
  lemma MessagesArrive(s: seq<byte>, ms: seq<Message>, tail: seq<byte>)
    requires Carries(s, ms, tail)
    ensures Frames(s) == Packets(ms) && Rest(s) == tail
  {
    hide Frames, Rest, Complete, Len1, Wire;
    var fs := Packets(ms);
    forall f | f in fs ensures WellFormed(f) {
      var i :| 0 <= i < |fs| && fs[i] == f;
      assert ms[i] in ms;
      PackedHead(ms[i].head);
    }
    WireRoundTrip(fs, tail);
  }

  /** For example: 18 bytes, with len1 == 2 and len2 == 3, are one frame with a body of two bytes. */
  lemma EighteenBytes(x: byte, y: byte)
    ensures var head: seq<byte> := [0, 0, 0, 0, 0, 0, 0, 0, 0, 0, 0, 0, 2, 0, 3, 0];
      Frames(head + [x, y]) == [Frame(head, [x, y])] && Rest(head + [x, y]) == []
  {
    var head: seq<byte> := [0, 0, 0, 0, 0, 0, 0, 0, 0, 0, 0, 0, 2, 0, 3, 0];
    FirstFrame(head, [x, y]);
    assert [x, y][..2] == [x, y] && [x, y][2..] == [];
  }

  /** More bytes only add frames, those of the old rest continued. */
  lemma {:induction false} FramesExtend(s: seq<byte>, t: seq<byte>)
    ensures Frames(s + t) == Frames(s) + Frames(Rest(s) + t)
    ensures Rest(s + t) == Rest(Rest(s) + t)
    decreases |s|
  {
    hide Frames, Rest, Len1;
    if !Complete(s) {
      NoFrame(s);
    } else {
      var head, u := s[..HEAD], s[HEAD..];
      HeadAlone(s);
      var n := Len1(head);
      FramesExtend(u[n..], t);
      FirstFrame(head, u);
      FirstFrame(head, u + t);
      assert s == head + u && s + t == head + (u + t);
      assert (u + t)[..n] == u[..n] && (u + t)[n..] == u[n..] + t;
    }
  }

  // ------------------------------------------------ the receiver

  /** Which of the two handlers the outstanding read will call. */
  datatype Handler = AwaitHead | AwaitData

  class Client {
    var stopped: bool
    var inputBuffer: seq<byte>
    var head: seq<byte>
    var data: seq<byte>
    var leftInbuf: nat
    var nextCount: nat
    var pending: Handler
    /** The calls of handler(response) so far. */
    var handled: seq<Frame>
    /** The bytes received since start_read. */
    ghost var received: seq<byte>

    /** The head that has been read while its body is still awaited. */
    ghost function HeadRead(): seq<byte>
      reads this
    {
      if pending == AwaitData then head else []
    }

    /** Between two reads: everything complete has been handled, left_inbuf counts the bytes not yet
        consumed, and next_count is what the awaited part still lacks, never zero. */
    ghost predicate Valid()
      reads this
    {
      && leftInbuf == |inputBuffer| && data == []
      && (pending == AwaitData ==> |head| == HEAD)
      && nextCount > 0
      && nextCount + |inputBuffer| == (if pending == AwaitData then Len1(head) else HEAD)
      && handled == Frames(received) && HeadRead() + inputBuffer == Rest(received)
    }

    /** start_read. */
    constructor ()
      ensures Valid() && !stopped && received == [] && handled == [] && nextCount == HEAD
    {
      stopped, inputBuffer, head, data := false, [], [], [];
      nextCount, leftInbuf, pending := HEAD, 0, AwaitHead;
      handled, received := [], [];
    }

    /** readHead. */
    method ReadHead()
      requires |inputBuffer| >= HEAD
      modifies this`head, this`inputBuffer
      ensures head == old(inputBuffer)[..HEAD] && inputBuffer == old(inputBuffer)[HEAD..]
    {
      head, inputBuffer := inputBuffer[..HEAD], inputBuffer[HEAD..];
    }

    /** readData: an empty body leaves the response without data. */
    method ReadData()
      requires |head| == HEAD && |inputBuffer| >= Len1(head) && data == []
      modifies this`data, this`inputBuffer
      ensures data == old(inputBuffer)[..Len1(head)] && inputBuffer == old(inputBuffer)[Len1(head)..]
    {
      var n := Len1(head);
      if n > 0 {
        data, inputBuffer := inputBuffer[..n], inputBuffer[n..];
      }
    }

    /** handler(response), and memset(&response, 0, sizeof(response)). */
    method HandleResponse()
      requires |head| == HEAD
      modifies this`handled, this`head, this`data
      ensures handled == old(handled) + [Frame(old(head), old(data))]
      ensures head == seq(HEAD, i => 0) && data == []
    {
      handled := handled + [Frame(head, data)];
      head, data := seq(HEAD, i => 0), [];
    }

    /** What both handlers start from: the chunk is in the buffer, and the old rest is continued. */
    ghost predicate Arrived(bytesTransferred: nat)
      reads this
    {
      && |inputBuffer| == bytesTransferred + leftInbuf && data == []
      && (pending == AwaitData ==> |head| == HEAD)
      && Frames(received) == handled + Frames(HeadRead() + inputBuffer)
      && Rest(received) == Rest(HeadRead() + inputBuffer)
    }

    /** handle_readhead. */
    method HandleReadHead(bytesTransferred: nat)
      requires pending == AwaitHead && Arrived(bytesTransferred)
      modifies this
      ensures Valid() && received == old(received) && stopped == old(stopped)
    {
      hide Frames, Rest, Len1;
      var readSize := 0;
      assert HeadRead() + inputBuffer == inputBuffer;
      while true
        invariant readSize + |inputBuffer| == bytesTransferred + leftInbuf && data == []
        invariant received == old(received) && stopped == old(stopped) && pending == AwaitHead
        invariant Frames(received) == handled + Frames(inputBuffer)
        invariant Rest(received) == Rest(inputBuffer)
        decreases |inputBuffer|
      {
        if readSize + HEAD <= bytesTransferred + leftInbuf {
          ghost var s := inputBuffer;
          ReadHead();
          assert s == head + inputBuffer;
          readSize := readSize + HEAD;
          if readSize + Len1(head) <= bytesTransferred + leftInbuf {
            FirstFrame(head, inputBuffer);
            var n := Len1(head);
            ReadData();
            HandleResponse();
            readSize := readSize + n;
          } else {
            BodyMissing(head, inputBuffer);
            nextCount := readSize + Len1(head) - (bytesTransferred + leftInbuf);
            leftInbuf := bytesTransferred + leftInbuf - readSize;
            pending := AwaitData;
            break;
          }
        } else {
          NoFrame(inputBuffer);
          nextCount := readSize + HEAD - (bytesTransferred + leftInbuf);
          leftInbuf := bytesTransferred + leftInbuf - readSize;
          pending := AwaitHead;
          break;
        }
      }
    }

    /** handle_readdata. */
    method HandleReadData(bytesTransferred: nat)
      requires pending == AwaitData && Arrived(bytesTransferred)
      modifies this
      ensures Valid() && received == old(received) && stopped == old(stopped)
    {
      hide Frames, Rest, Len1;
      var readSize := 0;
      while true
        invariant readSize + |inputBuffer| == bytesTransferred + leftInbuf && data == [] && |head| == HEAD
        invariant received == old(received) && stopped == old(stopped) && pending == AwaitData
        invariant Frames(received) == handled + Frames(head + inputBuffer)
        invariant Rest(received) == Rest(head + inputBuffer)
        decreases |inputBuffer|
      {
        if readSize + Len1(head) <= bytesTransferred + leftInbuf {
          FirstFrame(head, inputBuffer);
          var n := Len1(head);
          ReadData();
          HandleResponse();
          readSize := readSize + n;
          if readSize + HEAD <= bytesTransferred + leftInbuf {
            ghost var s := inputBuffer;
            ReadHead();
            assert s == head + inputBuffer;
            readSize := readSize + HEAD;
          } else {
            NoFrame(inputBuffer);
            nextCount := readSize + HEAD - (bytesTransferred + leftInbuf);
            leftInbuf := bytesTransferred + leftInbuf - readSize;
            pending := AwaitHead;
            break;
          }
        } else {
          BodyMissing(head, inputBuffer);
          nextCount := readSize + Len1(head) - (bytesTransferred + leftInbuf);
          leftInbuf := bytesTransferred + leftInbuf - readSize;
          pending := AwaitData;
          break;
        }
      }
    }

    /** A read completes, with any number of bytes: the frames handled are then exactly those of
        everything received so far.  With an error, or once stopped, nothing is handled. */
    method Deliver(chunk: seq<byte>, error: bool)
      requires Valid()
      modifies this
      ensures !old(stopped) && !error ==> Valid() && !stopped && received == old(received) + chunk
      ensures old(stopped) || error ==> stopped && handled == old(handled) && received == old(received)
    {
      if error {
        stopped := true;
      }
      if stopped {
        return;
      }
      hide Frames, Rest, Len1;
      FramesExtend(received, chunk);
      assert HeadRead() + inputBuffer + chunk == HeadRead() + (inputBuffer + chunk);
      received := received + chunk;
      inputBuffer := inputBuffer + chunk;
      match pending
      case AwaitHead => HandleReadHead(|chunk|);
      case AwaitData => HandleReadData(|chunk|);
    }
  }

  function Joined(chunks: seq<seq<byte>>): seq<byte> {
    if chunks == [] then [] else Joined(chunks[..|chunks| - 1]) + chunks[|chunks| - 1]
  }

  /** What an incomplete rest lacks: the head, or the body that the head announces. */
  function Lacking(rest: seq<byte>): (n: int)
    ensures n > 0 <==> !Complete(rest)
  {
    (if |rest| < HEAD then HEAD else HEAD + Len1(rest)) - |rest|
  }

  /** Every stream, however it is cut into chunks, is handled frame by frame; and what the receiver
      waits for, and how much of it, depends on the bytes alone, not on the cuts. */
  method Receive(chunks: seq<seq<byte>>) returns (c: Client)
    ensures c.Valid() && !c.stopped && c.received == Joined(chunks)
    ensures c.handled == Frames(Joined(chunks))
    ensures c.pending == AwaitData <==> |Rest(Joined(chunks))| >= HEAD
    ensures c.nextCount == Lacking(Rest(Joined(chunks)))
    ensures forall ms, tail | Carries(Joined(chunks), ms, tail) ::
      c.handled == Packets(ms) && c.nextCount == Lacking(tail)
  {
    hide Frames, Rest, Len1, Carries;
    c := new Client();
    for i := 0 to |chunks|
      invariant fresh(c) && c.Valid() && !c.stopped && c.received == Joined(chunks[..i])
    {
      c.Deliver(chunks[i], false);
      assert chunks[..i + 1][..i] == chunks[..i];
    }
    assert chunks[..|chunks|] == chunks;
    if c.pending == AwaitData {
      assert (c.head + c.inputBuffer)[..HEAD] == c.head;
      HeadAlone(c.head + c.inputBuffer);
    }
    forall ms, tail | Carries(Joined(chunks), ms, tail)
      ensures c.handled == Packets(ms) && c.nextCount == Lacking(tail)
    {
      MessagesArrive(Joined(chunks), ms, tail);
    }
  }
}
