/**
  The wire format of the debug server, as a parse of a whole byte stream: lines end at CR or LF, further
  CRs and LFs are skipped, and a '|' starts a binary frame, four length bytes and that many bytes in which
  nothing is special.
 */
module LineParse {
  import opened Words

  type byte = x: int | 0 <= x < 256

  const ESCAPE: byte := 124
  const LF: byte := 10
  const CR: byte := 13
  const NUL: byte := 0

  predicate IsEol(c: byte) {
    c == LF || c == CR
  }

  datatype State = Text | Bin | Eol

  datatype Action = NoAction | GotLine | SkipEol

  /** The finite-state machine: its state and, in a frame, the position and the length read so far. */
  datatype Machine = Machine(state: State, binPos: int, binLength: int)

  const START: Machine := Machine(Text, 0, 0)

  function Next(m: Machine, c: byte): Machine {
    match m.state
    case Text =>
      if c == ESCAPE then Machine(Bin, 0, 0) else if IsEol(c) then m.(state := Eol) else m
    case Bin =>
      if m.binPos < 4 then Machine(Bin, Signed(m.binPos + 1), Signed(m.binLength * 256 + c))
      else
        var pos := Signed(m.binPos + 1);
        Machine(if pos == Signed(4 + m.binLength) then Text else Bin, pos, m.binLength)
    case Eol =>
      if IsEol(c) then m else if c == ESCAPE then Machine(Bin, 0, 0) else m.(state := Text)
  }

  function ActionOf(m: Machine, c: byte): Action {
    if !IsEol(c) || m.state == Bin then NoAction else if m.state == Text then GotLine else SkipEol
  }

  /** A parse so far: the machine, the characters of the line begun, and the complete lines. */
  datatype Parse = Parse(m: Machine, line: seq<byte>, lines: seq<seq<byte>>)

  const BEGIN: Parse := Parse(START, [], [])

  /** A complete line is given a terminating zero. */
  function Consume(p: Parse, c: byte): Parse {
    match ActionOf(p.m, c)
    case NoAction => Parse(Next(p.m, c), p.line + [c], p.lines)
    case GotLine => Parse(Next(p.m, c), [], p.lines + [p.line + [NUL]])
    case SkipEol => Parse(Next(p.m, c), p.line, p.lines)
  }

  function ConsumeAll(p: Parse, s: seq<byte>): Parse {
    if s == [] then p else Consume(ConsumeAll(p, s[..|s| - 1]), s[|s| - 1])
  }

  /** The parse of a whole stream. */
  function ParseStream(s: seq<byte>): Parse {
    ConsumeAll(BEGIN, s)
  }

  lemma {:induction false} ConsumeConcat(p: Parse, s: seq<byte>, t: seq<byte>)
    ensures ConsumeAll(p, s + t) == ConsumeAll(ConsumeAll(p, s), t)
    decreases |t|
  {
    if t == [] {
      assert s + t == s;
    } else {
      assert (s + t)[..|s + t| - 1] == s + t[..|t| - 1];
      ConsumeConcat(p, s, t[..|t| - 1]);
    }
  }

  lemma ConsumeOne(p: Parse, c: byte)
    ensures ConsumeAll(p, [c]) == Consume(p, c)
  {
    assert [c][..0] == [];
  }

  // --------------------------------------------------------------------------
  // Binary frames

  /** The longest payload that a frame can announce. */
  const MAX_PAYLOAD: int := 0x7FFF_FFFC

  function BigEndian(n: int): seq<byte>
    requires 0 <= n < W32
  {
    [n / 0x100_0000, n / 0x1_0000 % 256, n / 256 % 256, n % 256]
  }

  function Frame(payload: seq<byte>): seq<byte>
    requires |payload| < W32
  {
    [ESCAPE] + BigEndian(|payload|) + payload
  }

  lemma LengthDigits(n: int)
    requires 0 <= n < W32
    ensures var b := BigEndian(n); (((b[0] as int) * 256 + b[1]) * 256 + b[2]) * 256 + b[3] == n
  {
  }

  lemma SmallSigned(x: int)
    requires 0 <= x < 0x8000_0000
    ensures Signed(x) == x
  {
  }

  /** The machine after the escape character and the first j length bytes. */
  function Header(n: int, j: nat): Machine
    requires 0 <= n < W32 && j <= 4
  {
    var b := BigEndian(n);
    Machine(Bin, j,
      if j == 0 then 0 else if j == 1 then b[0] else if j == 2 then (b[0] as int) * 256 + b[1]
      else if j == 3 then ((b[0] as int) * 256 + b[1]) * 256 + b[2] else Signed(n))
  }

  lemma HeaderStep(n: int, j: nat)
    requires 0 <= n < W32 && j < 4
    ensures Next(Header(n, j), BigEndian(n)[j]) == Header(n, j + 1)
  {
    var b := BigEndian(n);
    LengthDigits(n);
    SmallSigned(j + 1);
    if j < 3 {
      SmallSigned(Header(n, j).binLength * 256 + b[j]);
    }
  }

  /** The header takes the machine into the frame; its bytes belong to the line. */
  lemma HeaderRead(p: Parse, n: int)
    requires p.m.state != Bin && 0 <= n < W32
    ensures ConsumeAll(p, [ESCAPE] + BigEndian(n))
         == Parse(Machine(Bin, 4, Signed(n)), p.line + [ESCAPE] + BigEndian(n), p.lines)
  {
    var b := BigEndian(n);
    var p0 := Consume(p, ESCAPE);
    assert p0 == Parse(Header(n, 0), p.line + [ESCAPE], p.lines);
    HeaderStep(n, 0);
    HeaderStep(n, 1);
    HeaderStep(n, 2);
    HeaderStep(n, 3);
    var p1, line := Consume(p0, b[0]), p.line + [ESCAPE];
    assert p1 == Parse(Header(n, 1), line + [b[0]], p.lines);
    var p2 := Consume(p1, b[1]);
    assert p2 == Parse(Header(n, 2), line + [b[0]] + [b[1]], p.lines);
    var p3 := Consume(p2, b[2]);
    assert p3 == Parse(Header(n, 3), line + [b[0]] + [b[1]] + [b[2]], p.lines);
    var p4 := Consume(p3, b[3]);
    assert p4 == Parse(Header(n, 4), line + [b[0]] + [b[1]] + [b[2]] + [b[3]], p.lines);
    assert line + [b[0]] + [b[1]] + [b[2]] + [b[3]] == line + b;
    FiveBytes(p, [ESCAPE] + b);
  }

  lemma FiveBytes(p: Parse, s: seq<byte>)
    requires |s| == 5
    ensures ConsumeAll(p, s) == Consume(Consume(Consume(Consume(Consume(p, s[0]), s[1]), s[2]), s[3]), s[4])
  {
    assert s[..4][..3] == s[..3] && s[..3][..2] == s[..2] && s[..2][..1] == s[..1] && s[..1][..0] == [];
    assert ConsumeAll(p, s[..1]) == Consume(p, s[0]);
    assert ConsumeAll(p, s[..2]) == Consume(ConsumeAll(p, s[..1]), s[1]);
    assert ConsumeAll(p, s[..3]) == Consume(ConsumeAll(p, s[..2]), s[2]);
    assert ConsumeAll(p, s[..4]) == Consume(ConsumeAll(p, s[..3]), s[3]);
  }

  /** A frame that announces n bytes can end only at its n-th byte, and only if the counters do not wrap before. */
  predicate Endable(n: int) {
    1 <= n <= MAX_PAYLOAD
  }

  /** The position counter after j bytes of payload. */
  function Position(j: int): int {
    if j < MAX_PAYLOAD then 4 + j else 4 + j - W32
  }

  lemma PositionStep(n: int, j: int)
    requires 0 <= n < W32 && 0 <= j < 0xFFFF_FFFF
    ensures Signed(Position(j) + 1) == Position(j + 1)
    ensures j < MAX_PAYLOAD ==> (Position(j + 1) == Signed(4 + Signed(n)) <==> j + 1 == n)
  {
  }

  /** Inside a frame: up to its end, or for 2^32 bytes if it has none, every byte is added to the line as it is. */
  lemma {:induction false} InFrame(p: Parse, n: int, s: seq<byte>)
    requires 0 <= n < W32 && p.m == Machine(Bin, 4, Signed(n)) && |s| < W32
    requires Endable(n) ==> |s| < n
    ensures var q := ConsumeAll(p, s);
            && q.m.state == Bin && q.m.binPos == Position(|s|) && (|s| < MAX_PAYLOAD ==> q.m.binLength == Signed(n))
            && q.line == p.line + s && q.lines == p.lines
    decreases |s|
  {
    if s != [] {
      var t, c := s[..|s| - 1], s[|s| - 1];
      InFrame(p, n, t);
      PositionStep(n, |t|);
      assert s == t + [c];
      assert p.line + s == p.line + t + [c];
    }
  }

  /** From p to q the bytes s were added to the line, and the parse is back in text. */
  predicate Took(p: Parse, q: Parse, s: seq<byte>) {
    q.m.state == Text && q.line == p.line + s && q.lines == p.lines
  }

  lemma FrameHeader(p: Parse, payload: seq<byte>) returns (h: Parse)
    requires p.m.state != Bin && |payload| < W32
    ensures h.m == Machine(Bin, 4, Signed(|payload|)) && h.lines == p.lines
    ensures h.line + payload == p.line + Frame(payload)
    ensures ConsumeAll(p, Frame(payload)) == ConsumeAll(h, payload)
  {
    var head := [ESCAPE] + BigEndian(|payload|);
    HeaderRead(p, |payload|);
    ConsumeConcat(p, head, payload);
    h := ConsumeAll(p, head);
    assert p.line + Frame(payload) == h.line + payload;
  }

  /** The last byte of a payload leads out of the frame. */
  lemma PayloadEnds(h: Parse, payload: seq<byte>)
    requires Endable(|payload|) && h.m == Machine(Bin, 4, Signed(|payload|))
    ensures Took(h, ConsumeAll(h, payload), payload)
  {
    var n := |payload|;
    var t, c := payload[..n - 1], payload[n - 1];
    InFrame(h, n, t);
    PositionStep(n, n - 1);
    assert h.line + payload == h.line + t + [c];
  }

  /** A frame is taken as a whole if and only if its length is at least one and its end can be counted. */
  lemma FrameEndsIff(p: Parse, payload: seq<byte>)
    requires p.m.state != Bin && |payload| < W32
    ensures Took(p, ConsumeAll(p, Frame(payload)), Frame(payload)) <==> Endable(|payload|)
    ensures !Endable(|payload|) ==> ConsumeAll(p, Frame(payload)).m.state == Bin
  {
    var h := FrameHeader(p, payload);
    if Endable(|payload|) {
      PayloadEnds(h, payload);
    } else {
      InFrame(h, |payload|, payload);
    }
  }

  /** A frame of length zero never ends: it swallows what follows, line ends included. */
  lemma ZeroFrameSwallows(p: Parse, s: seq<byte>)
    requires p.m.state != Bin && |s| < W32
    ensures ConsumeAll(p, Frame([]) + s).lines == p.lines && ConsumeAll(p, Frame([]) + s).m.state == Bin
  {
    HeaderRead(p, 0);
    assert Frame([]) == [ESCAPE] + BigEndian(0);
    ConsumeConcat(p, Frame([]), s);
    InFrame(ConsumeAll(p, Frame([])), 0, s);
  }

  // --------------------------------------------------------------------------
  // Messages

  /** A message is made of ordinary characters and binary frames. */
  datatype AnyItem = Char(c: byte) | Binary(payload: seq<byte>)

  type Item = item: AnyItem | ValidItem(item) witness Char(65)

  type Message = items: seq<Item> | items != [] witness [Char(65)]

  type LineEnd = e: seq<byte> | IsLineEnd(e) witness [LF]

  predicate ValidItem(item: AnyItem) {
    match item
    case Char(c) => c !in {LF, CR, ESCAPE}
    case Binary(payload) => Endable(|payload|)
  }

  predicate IsLineEnd(e: seq<byte>) {
    e != [] && forall i :: 0 <= i < |e| ==> e[i] in {LF, CR}
  }

  function EncodeItem(item: Item): seq<byte> {
    match item
    case Char(c) => [c]
    case Binary(payload) => Frame(payload)
  }

  function Encode(items: seq<Item>): seq<byte> {
    if items == [] then [] else Encode(items[..|items| - 1]) + EncodeItem(items[|items| - 1])
  }

  /** The bytes of some messages, each ended by a line end. */
  function EncodeAll(messages: seq<Message>, e: LineEnd): seq<byte> {
    if messages == [] then []
    else EncodeAll(messages[..|messages| - 1], e) + (Encode(messages[|messages| - 1]) + e)
  }

  /** The lines that should come out. */
  function Lines(messages: seq<Message>): seq<seq<byte>> {
    seq(|messages|, i requires 0 <= i < |messages| => Encode(messages[i]) + [NUL])
  }

  lemma ItemConsumed(p: Parse, item: Item)
    requires p.m.state != Bin
    ensures Took(p, ConsumeAll(p, EncodeItem(item)), EncodeItem(item))
  {
    match item
    case Char(c) => ConsumeOne(p, c);
    case Binary(payload) => FrameEndsIff(p, payload);
  }

  lemma TookTwice(p: Parse, q: Parse, r: Parse, s: seq<byte>, t: seq<byte>)
    requires Took(p, q, s) && Took(q, r, t)
    ensures Took(p, r, s + t)
  {
    assert p.line + s + t == p.line + (s + t);
  }

  lemma {:induction false} MessageConsumed(p: Parse, items: seq<Item>)
    requires p.m.state != Bin && items != []
    ensures Took(p, ConsumeAll(p, Encode(items)), Encode(items))
    decreases |items|
  {
    var front, last := items[..|items| - 1], items[|items| - 1];
    var q := ConsumeAll(p, Encode(front));
    ConsumeConcat(p, Encode(front), EncodeItem(last));
    if front == [] {
      ItemConsumed(p, last);
      assert Encode(items) == EncodeItem(last);
    } else {
      MessageConsumed(p, front);
      ItemConsumed(q, last);
      TookTwice(p, q, ConsumeAll(q, EncodeItem(last)), Encode(front), EncodeItem(last));
    }
  }

  /** The first character of a line end completes the line; the others are skipped. */
  lemma {:induction false} LineEndConsumed(p: Parse, e: seq<byte>)
    requires p.m.state == Text && IsLineEnd(e)
    ensures var q := ConsumeAll(p, e);
            q.m.state == Eol && q.line == [] && q.lines == p.lines + [p.line + [NUL]]
    decreases |e|
  {
    var front := e[..|e| - 1];
    if front == [] {
      assert ConsumeAll(p, front) == p;
    } else {
      LineEndConsumed(p, front);
    }
  }

  lemma MessageLine(p: Parse, items: seq<Item>, e: seq<byte>)
    requires p.m.state != Bin && p.line == [] && items != [] && IsLineEnd(e)
    ensures var q := ConsumeAll(p, Encode(items) + e);
            q.m.state != Bin && q.line == [] && q.lines == p.lines + [Encode(items) + [NUL]]
  {
    var r := ConsumeAll(p, Encode(items));
    ConsumeConcat(p, Encode(items), e);
    MessageConsumed(p, items);
    assert r.line == Encode(items);
    LineEndConsumed(r, e);
  }

  lemma LinesSnoc(messages: seq<Message>)
    requires messages != []
    ensures Lines(messages) == Lines(messages[..|messages| - 1]) + [Encode(messages[|messages| - 1]) + [NUL]]
  {
  }

  /** What is written comes back: the lines of a stream are the messages in it, each with its frames whole
      whatever their payloads contain. */
  lemma {:induction false} RoundTrip(messages: seq<Message>, e: LineEnd)
    ensures var q := ParseStream(EncodeAll(messages, e));
            q.lines == Lines(messages) && q.m.state != Bin && q.line == []
    decreases |messages|
  {
    if messages == [] {
      assert EncodeAll(messages, e) == [];
    } else {
      var front, last := messages[..|messages| - 1], messages[|messages| - 1];
      RoundTrip(front, e);
      ConsumeConcat(BEGIN, EncodeAll(front, e), Encode(last) + e);
      MessageLine(ParseStream(EncodeAll(front, e)), last, e);
      LinesSnoc(messages);
    }
  }
}
