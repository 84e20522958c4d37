/**
  The buffered reader of the debug server: a fixed-size input buffer that is filled by whatever a
  socket read returns, and a resumable line reader on top of it. However the stream is cut into reads,
  the lines are those of one parse of the whole stream.
 */
module LineFramer {
  import opened Words
  import opened LineParse

  // --------------------------------------------------------------------------
  // The buffer

  class Buffer {
    const buf: array<byte>
    var fill: nat
    var drain: nat

    ghost predicate Valid()
      reads this
    {
      drain <= fill <= buf.Length && (buf.Length > 0 ==> fill < buf.Length)
    }

    /** The bytes filled in and not yet drained. */
    ghost function Contents(): seq<byte>
      requires Valid()
      reads this, buf
    {
      buf[drain..fill]
    }

    constructor (size: nat)
      ensures Valid() && fresh(buf) && buf.Length == size && Contents() == [] && fill == 0
    {
      buf := new byte[size];
      fill := 0;
      drain := 0;
    }

    function Remaining(): nat
      requires Valid()
      reads this
    {
      buf.Length - fill
    }

    /** Moves the fill position, unless it would reach the end: a buffer is never completely full. */
    method IncrFillPos(amount: nat) returns (ok: bool)
      requires Valid()
      modifies this
      ensures Valid() && drain == old(drain)
      ensures ok <==> old(fill) + amount < buf.Length
      ensures fill == if ok then old(fill) + amount else old(fill)
    {
      if fill + amount >= buf.Length {
        return false;
      }
      fill := fill + amount;
      return true;
    }

    method ReadByte() returns (c: int)
      requires Valid()
      modifies this
      ensures Valid() && fill == old(fill)
      ensures old(Contents()) == [] ==> c == -1 && drain == old(drain)
      ensures old(Contents()) != [] ==> c == old(Contents())[0] && Contents() == old(Contents())[1..]
    {
      if drain < fill {
        c := buf[drain];
        drain := drain + 1;
      } else {
        c := -1;
      }
    }

    /** Moves the contents to the beginning. */
    method Compact()
      requires Valid()
      modifies this, buf
      ensures Valid() && drain == 0 && Contents() == old(Contents())
    {
      var i := 0;
      while i < fill - drain
        invariant 0 <= i <= fill - drain
        invariant fill == old(fill) && drain == old(drain)
        invariant forall k :: 0 <= k < i ==> buf[k] == old(buf[drain + k])
        invariant forall k :: drain + i <= k < fill ==> buf[k] == old(buf[k])
      {
        buf[i] := buf[drain + i];
        i := i + 1;
      }
      fill := fill - drain;
      drain := 0;
    }

    /** What a socket read does: puts bytes behind the contents. The fill position is moved separately. */
    method Store(data: seq<byte>)
      requires Valid() && |data| <= Remaining()
      modifies buf
      ensures Contents() == old(Contents()) && buf[fill..fill + |data|] == data
    {
      var i := 0;
      while i < |data|
        invariant 0 <= i <= |data|
        invariant forall k :: 0 <= k < fill ==> buf[k] == old(buf[k])
        invariant forall k :: 0 <= k < i ==> buf[fill + k] == data[k]
      {
        buf[fill + i] := data[i];
        i := i + 1;
      }
    }
  }

  // --------------------------------------------------------------------------
  // The socket

  /** What arrives: the bytes that are there at each of the coming reads, none if there are none. */
  function Flatten(chunks: seq<seq<byte>>): seq<byte> {
    if chunks == [] then [] else chunks[0] + Flatten(chunks[1..])
  }

  /** A read of at most n bytes. */
  function Received(chunks: seq<seq<byte>>, n: nat): seq<byte> {
    if chunks == [] then [] else if |chunks[0]| <= n then chunks[0] else chunks[0][..n]
  }

  function Unread(chunks: seq<seq<byte>>, n: nat): seq<seq<byte>> {
    if chunks == [] then [] else if |chunks[0]| <= n then chunks[1..] else [chunks[0][n..]] + chunks[1..]
  }

  lemma ReadSplits(chunks: seq<seq<byte>>, n: nat)
    ensures Received(chunks, n) + Flatten(Unread(chunks, n)) == Flatten(chunks)
    ensures |Received(chunks, n)| <= n
  {
    if chunks != [] && |chunks[0]| > n {
      var u := Unread(chunks, n);
      assert u[0] == chunks[0][n..] && u[1..] == chunks[1..];
      assert chunks[0][..n] + (chunks[0][n..] + Flatten(chunks[1..])) == chunks[0] + Flatten(chunks[1..]);
    }
  }

  /** What a buffer with n bytes free keeps of a read: all of it, or nothing if that is n bytes. */
  function Kept(chunks: seq<seq<byte>>, n: nat): seq<byte> {
    if |Received(chunks, n)| < n then Received(chunks, n) else []
  }

  /** How much is left to read: bytes and reads. */
  ghost function Amount(contents: seq<byte>, chunks: seq<seq<byte>>): nat {
    |contents| + |Flatten(chunks)| + |chunks|
  }

  lemma ReadProgress(chunks: seq<seq<byte>>, n: nat)
    ensures Amount(Kept(chunks, n), Unread(chunks, n)) <= Amount([], chunks)
    ensures Kept(chunks, n) == [] ==> Amount([], Unread(chunks, n)) < Amount([], chunks) || Unread(chunks, n) == chunks
    ensures Unread(chunks, n) == chunks ==> chunks == [] || n == 0
  {
    ReadSplits(chunks, n);
    if chunks != [] && |chunks[0]| > n {
      var u := Unread(chunks, n);
      assert n == 0 ==> u == chunks;
      assert n > 0 ==> u[0] != chunks[0];
    }
  }

  /** The free space an empty buffer has for a read: it is compacted if less than half is free. */
  function Room(size: nat, fill: nat): nat
    requires fill < size
  {
    if size - fill < size / 2 then size else size - fill
  }

  /** The fill position after a read into an empty buffer. */
  function Refilled(chunks: seq<seq<byte>>, size: nat, fill: nat): (r: nat)
    requires fill < size
    ensures r < size
  {
    var n := Room(size, fill);
    size - n + |Kept(chunks, n)|
  }

  /** The bytes that reads into a buffer filled up to this position will keep. */
  ghost function Accepted(chunks: seq<seq<byte>>, size: nat, fill: nat): seq<byte>
    requires fill < size
    decreases Amount([], chunks)
  {
    if chunks == [] then []
    else
      var n := Room(size, fill);
      ReadProgress(chunks, n);
      Kept(chunks, n) + Accepted(Unread(chunks, n), size, Refilled(chunks, size, fill))
  }

  /** Some read returns as many bytes as there is room for. */
  ghost predicate FillsUp(chunks: seq<seq<byte>>, size: nat, fill: nat)
    requires fill < size
    decreases Amount([], chunks)
  {
    if chunks == [] then false
    else
      var n := Room(size, fill);
      ReadProgress(chunks, n);
      |Received(chunks, n)| == n || FillsUp(Unread(chunks, n), size, Refilled(chunks, size, fill))
  }

  /** Nothing is lost if and only if no read fills the buffer up. */
  lemma {:induction false} AcceptedIff(chunks: seq<seq<byte>>, size: nat, fill: nat)
    requires fill < size
    ensures Accepted(chunks, size, fill) == Flatten(chunks) <==> !FillsUp(chunks, size, fill)
    ensures |Accepted(chunks, size, fill)| <= |Flatten(chunks)|
    decreases Amount([], chunks)
  {
    if chunks != [] {
      var n := Room(size, fill);
      ReadProgress(chunks, n);
      ReadSplits(chunks, n);
      AcceptedIff(Unread(chunks, n), size, Refilled(chunks, size, fill));
      KeptOrLost(Received(chunks, n), n, Accepted(Unread(chunks, n), size, Refilled(chunks, size, fill)),
                 Flatten(Unread(chunks, n)));
    }
  }

  /** One read and what is accepted later, against all that arrives. */
  lemma KeptOrLost(data: seq<byte>, n: nat, later: seq<byte>, rest: seq<byte>)
    requires |data| <= n && n > 0 && |later| <= |rest|
    ensures var kept := if |data| < n then data else [];
            && (kept + later == data + rest <==> |data| != n && later == rest)
            && |kept + later| <= |data + rest|
  {
    if |data| < n && data + later == data + rest {
      assert later == (data + later)[|data|..] == (data + rest)[|data|..] == rest;
    }
  }

  /** Every chunk is shorter than half the buffer. */
  ghost predicate Small(chunks: seq<seq<byte>>, size: nat)
  {
    forall i :: 0 <= i < |chunks| ==> |chunks[i]| < size / 2
  }

  /** Small chunks never fill the buffer up. */
  lemma {:induction false} SmallChunks(chunks: seq<seq<byte>>, size: nat, fill: nat)
    requires fill < size && Small(chunks, size)
    ensures !FillsUp(chunks, size, fill) && Accepted(chunks, size, fill) == Flatten(chunks)
    decreases |chunks|
  {
    if chunks != [] {
      var n := Room(size, fill);
      assert |chunks[0]| < size / 2 <= n;
      assert Unread(chunks, n) == chunks[1..];
      SmallChunks(chunks[1..], size, Refilled(chunks, size, fill));
    }
    AcceptedIff(chunks, size, fill);
  }

  /** What will be accepted is what the next read keeps and what is accepted later. */
  lemma AcceptedNext(chunks: seq<seq<byte>>, size: nat, fill: nat, n: nat)
    requires fill < size && n == Room(size, fill)
    ensures Accepted(chunks, size, fill)
         == Kept(chunks, n) + Accepted(Unread(chunks, n), size, Refilled(chunks, size, fill))
  {
    if chunks == [] {
      assert Unread(chunks, n) == [] && Kept(chunks, n) == [];
    }
  }

  /** A read moves bytes from what is to come to what is accepted. */
  lemma SameStream(taken: seq<byte>, chunks: seq<seq<byte>>, size: nat, fill: nat, n: nat)
    requires fill < size && n == Room(size, fill)
    ensures (taken + Kept(chunks, n)) + Accepted(Unread(chunks, n), size, Refilled(chunks, size, fill))
            == taken + Accepted(chunks, size, fill)
  {
    AcceptedNext(chunks, size, fill, n);
    Associative(taken, Kept(chunks, n), Accepted(Unread(chunks, n), size, Refilled(chunks, size, fill)));
  }

  lemma Associative(a: seq<byte>, b: seq<byte>, c: seq<byte>)
    ensures (a + b) + c == a + (b + c)
  {
  }

  lemma HeadOf(accepted: seq<byte>, parsed: seq<byte>, contents: seq<byte>)
    requires accepted == parsed + contents && contents != []
    ensures accepted == parsed + [contents[0]] + contents[1..]
  {
  }

  // --------------------------------------------------------------------------
  // The line reader

  datatype ReadLineResult = GotData | NoData | Error

  class IOBuf {
    const inBuf: Buffer
    var usingSocket: bool
    var socket: seq<seq<byte>>
    var state: State
    var binPos: int
    var binLength: int
    var curLine: seq<byte>
    var gotDataLastTime: bool

    /** All bytes that were taken into the buffer, the part of them that was parsed, and the lines handed out. */
    ghost var accepted: seq<byte>
    ghost var parsed: seq<byte>
    ghost var delivered: seq<seq<byte>>

    /** All accepted bytes are parsed, or pending, or still in the buffer. */
    ghost predicate Buffered(pending: seq<byte>)
      reads this`accepted, this`parsed, inBuf, inBuf.buf
    {
      inBuf.Valid() && inBuf.buf.Length > 0 && accepted == parsed + pending + inBuf.Contents()
    }

    /** The fields, with this line begun, are the parse of the parsed bytes. */
    ghost predicate Parsed(line: seq<byte>)
      reads this`parsed, this`state, this`binPos, this`binLength, this`delivered
    {
      ParseStream(parsed) == Parse(Machine(state, binPos, binLength), line, delivered)
    }

    /** Between calls. A line that was handed out stays until the next call. */
    ghost predicate Valid()
      reads this, inBuf, inBuf.buf
    {
      Buffered([]) && Parsed(if gotDataLastTime then [] else curLine)
    }

    constructor (inLen: nat, socket: seq<seq<byte>>)
      requires inLen > 0
      ensures Valid() && usingSocket && this.socket == socket && fresh(inBuf) && fresh(inBuf.buf)
      ensures inBuf.buf.Length == inLen && accepted == parsed == [] && delivered == [] && inBuf.fill == 0
    {
      inBuf := new Buffer(inLen);
      usingSocket := true;
      this.socket := socket;
      state, binPos, binLength := Text, 0, 0;
      curLine, gotDataLastTime := [], false;
      accepted, parsed, delivered := [], [], [];
    }

    /** The bytes accepted so far and those that coming reads will add. */
    ghost function Stream(): seq<byte>
      requires inBuf.fill < inBuf.buf.Length
      reads this`accepted, this`socket, inBuf
    {
      accepted + Accepted(socket, inBuf.buf.Length, inBuf.fill)
    }

    ghost function Ahead(): nat
      requires inBuf.Valid()
      reads this`socket, inBuf, inBuf.buf
    {
      Amount(inBuf.Contents(), socket)
    }

    /** Makes room in an empty buffer that has less than half its size free. */
    method MakeRoom()
      requires inBuf.Valid() && inBuf.Contents() == [] && inBuf.buf.Length > 0
      modifies inBuf, inBuf.buf
      ensures inBuf.Valid() && inBuf.Contents() == []
      ensures inBuf.Remaining() == Room(inBuf.buf.Length, old(inBuf.fill))
    {
      if inBuf.Remaining() < inBuf.buf.Length / 2 {
        inBuf.Compact();
      }
    }

    /** One read from the socket into an empty buffer. A read that fills the buffer up completely is lost. */
    method Receive()
      requires inBuf.Valid() && inBuf.Contents() == []
      modifies this`socket, this`accepted, inBuf, inBuf.buf
      ensures inBuf.Valid() && inBuf.Contents() == Kept(old(socket), old(inBuf.Remaining()))
      ensures accepted == old(accepted) + inBuf.Contents() && inBuf.fill == old(inBuf.fill) + |inBuf.Contents()|
      ensures socket == Unread(old(socket), old(inBuf.Remaining()))
    {
      var n := inBuf.Remaining();
      var data := Received(socket, n);
      ReadSplits(socket, n);
      inBuf.Store(data);
      socket := Unread(socket, n);
      var ok := inBuf.IncrFillPos(|data|);
      if ok {
        accepted := accepted + data;
        assert inBuf.Contents() == data;
      } else {
        assert accepted + [] == accepted;
      }
    }

    /** A read into the empty buffer, after compaction if less than half of it is free. */
    method Refill()
      requires Buffered([]) && inBuf.Contents() == []
      modifies this`socket, this`accepted, inBuf, inBuf.buf
      ensures Buffered([]) && Stream() == old(Stream()) && Ahead() <= old(Ahead())
      ensures inBuf.Contents() == [] ==> Ahead() < old(Ahead()) || socket == old(socket) == []
    {
      MakeRoom();
      ghost var n := inBuf.Remaining();
      Receive();
      ReadProgress(old(socket), n);
      SameStream(old(accepted), old(socket), inBuf.buf.Length, old(inBuf.fill), n);
      assert parsed + [] == parsed && parsed + [] + [] == parsed;
    }

    /** The next byte, or -1 if there is none now. At most one read from the socket is made. */
    method ReadChar() returns (c: int)
      requires Buffered([])
      modifies this`socket, this`accepted, inBuf, inBuf.buf
      ensures -1 <= c < 256 && Buffered(if c >= 0 then [c] else [])
      ensures c < 0 ==> inBuf.Contents() == []
      ensures Ahead() < old(Ahead()) || (c < 0 && socket == old(socket) == [])
      ensures Stream() == old(Stream())
    {
      c := inBuf.ReadByte();
      if c >= 0 {
        HeadOf(accepted, parsed, old(inBuf.Contents()));
        return;
      }
      Refill();
      assert parsed + [] == parsed;
      ghost var data := inBuf.Contents();
      c := inBuf.ReadByte();
      if c >= 0 {
        HeadOf(accepted, parsed, data);
      }
    }

    method ProcessChar(c: byte) returns (action: Action)
      modifies this`state, this`binPos, this`binLength
      ensures Machine(state, binPos, binLength) == Next(old(Machine(state, binPos, binLength)), c)
      ensures action == ActionOf(old(Machine(state, binPos, binLength)), c)
    {
      action := NoAction;
      match state {
        case Text =>
          if c == ESCAPE {
            binPos, binLength, state := 0, 0, Bin;
          } else if IsEol(c) {
            state := Eol;
            action := GotLine;
          }
        case Bin =>
          if binPos < 4 {
            binLength := Signed(binLength * 256 + c);
            binPos := Signed(binPos + 1);
          } else {
            binPos := Signed(binPos + 1);
            if binPos == Signed(4 + binLength) {
              state := Text;
            }
          }
        case Eol =>
          if IsEol(c) {
            action := SkipEol;
          } else if c == ESCAPE {
            binPos, binLength, state := 0, 0, Bin;
          } else {
            state := Text;
          }
      }
    }

    /** Parses one byte that was read. */
    method Take(c: byte) returns (action: Action)
      requires Buffered([c]) && Parsed(curLine)
      modifies this`state, this`binPos, this`binLength, this`curLine, this`parsed, this`delivered
      ensures Buffered([]) && parsed == old(parsed) + [c]
      ensures action != GotLine ==> Parsed(curLine) && delivered == old(delivered)
      ensures action == GotLine ==> Parsed([]) && delivered == old(delivered) + [curLine]
    {
      ConsumeConcat(BEGIN, parsed, [c]);
      ConsumeOne(ParseStream(parsed), c);
      action := ProcessChar(c);
      if action == GotLine {
        curLine := curLine + [NUL];
        delivered := delivered + [curLine];
      } else if action == NoAction {
        curLine := curLine + [c];
      }
      parsed := parsed + [c];
    }

    /** Reads and parses one byte, if there is one. */
    method Advance() returns (c: int, action: Action)
      requires Buffered([]) && Parsed(curLine)
      modifies this`socket, this`accepted, inBuf, inBuf.buf
      modifies this`state, this`binPos, this`binLength, this`curLine, this`parsed, this`delivered
      ensures Buffered([]) && c >= -1
      ensures action != GotLine ==> Parsed(curLine) && delivered == old(delivered)
      ensures action == GotLine ==> Parsed([]) && delivered == old(delivered) + [curLine] && c >= 0
      ensures c < 0 ==> parsed == accepted
      ensures Progress(old(Ahead()), old(socket), c < 0)
      ensures Stream() == old(Stream())
    {
      c := ReadChar();
      if c >= 0 {
        action := Take(c);
      } else {
        action := NoAction;
        assert parsed + [] + [] == parsed;
      }
    }

    /** Less is left than before, unless nothing at all was there. */
    ghost predicate Progress(before: nat, chunks: seq<seq<byte>>, done: bool)
      requires inBuf.Valid()
      reads this`socket, inBuf, inBuf.buf
    {
      Ahead() < before || (done && socket == chunks == [])
    }

    /** Reads and parses up to the end of a line, or until nothing more has arrived. */
    method ReadOn() returns (got: bool)
      requires Buffered([]) && Parsed(curLine)
      modifies this`socket, this`accepted, inBuf, inBuf.buf
      modifies this`state, this`binPos, this`binLength, this`curLine, this`parsed, this`delivered
      ensures Buffered([])
      ensures !got ==> Parsed(curLine) && delivered == old(delivered) && parsed == accepted
      ensures got ==> Parsed([]) && delivered == old(delivered) + [curLine]
      ensures Progress(old(Ahead()), old(socket), !got)
      ensures Stream() == old(Stream())
    {
      var c, action := Advance();
      while c >= 0 && action != GotLine
        invariant c >= -1 && Buffered([])
        invariant action != GotLine ==> Parsed(curLine) && delivered == old(delivered)
        invariant action == GotLine ==> Parsed([]) && delivered == old(delivered) + [curLine]
        invariant c < 0 ==> parsed == accepted && action != GotLine
        invariant Progress(old(Ahead()), old(socket), c < 0)
        invariant Stream() == old(Stream())
        decreases c >= 0, Ahead()
      {
        c, action := Advance();
      }
      got := action == GotLine;
    }

    /** One call. What it hands out continues the parse of the bytes accepted so far; with no line, all of them
        are parsed. */
    method TryReadLine() returns (result: ReadLineResult)
      requires Valid()
      modifies this, inBuf, inBuf.buf
      ensures Valid() && usingSocket == old(usingSocket)
      ensures result == Error <==> !usingSocket
      ensures result == GotData ==> delivered == old(delivered) + [curLine]
      ensures result != GotData ==> delivered == old(delivered)
      ensures result == NoData ==> parsed == accepted
      ensures usingSocket ==> Progress(old(Ahead()), old(socket), result == NoData)
      ensures Stream() == old(Stream())
    {
      if !usingSocket {
        return Error;
      }
      if gotDataLastTime {
        curLine := [];
      }
      var got := ReadOn();
      gotDataLastTime := got;
      return if got then GotData else NoData;
    }
  }

  // --------------------------------------------------------------------------
  // Whole streams

  /** Reads a socket to its end. However what arrives is cut into reads, the lines are those of one parse of all the
      bytes that the buffer accepts, which are all that arrive unless a read fills it up. */
  method ReadLines(size: nat, chunks: seq<seq<byte>>) returns (lines: seq<seq<byte>>)
    requires size > 0
    ensures lines == ParseStream(Accepted(chunks, size, 0)).lines
    ensures !FillsUp(chunks, size, 0) ==> lines == ParseStream(Flatten(chunks)).lines
  {
    var io := new IOBuf(size, chunks);
    lines := [];
    var more := true;
    while more
      invariant io.Valid() && io.usingSocket && fresh(io) && fresh(io.inBuf) && fresh(io.inBuf.buf)
      invariant io.inBuf.buf.Length == size && lines == io.delivered
      invariant io.Stream() == [] + Accepted(chunks, size, 0)
      invariant !more ==> io.socket == [] && io.parsed == io.accepted
      decreases more, io.Ahead()
    {
      var result := io.TryReadLine();
      if result == GotData {
        lines := lines + [io.curLine];
      } else {
        more := io.socket != [];
      }
    }
    assert io.accepted + [] == io.accepted;
    assert [] + Accepted(chunks, size, 0) == Accepted(chunks, size, 0);
    AcceptedIff(chunks, size, 0);
  }
}
