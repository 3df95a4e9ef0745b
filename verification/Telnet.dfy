/** The telnet layer of the serial bridge: escaping, the byte-wise parser, and COM-PORT replies. */
module Telnet {
  import opened Bytes
  import opened Bits

  const IAC: byte := 255
  const DONT: byte := 254
  const DO: byte := 253
  const WONT: byte := 252
  const WILL: byte := 251
  const SB: byte := 250
  const SE: byte := 240
  const BINARY: byte := 0
  const SGA: byte := 3
  const COMPORT: byte := 44
  const SB_MAX: nat := 24

  // ---- the parser on values -----------------------------------------------------------------------------

  datatype Mode = Data | Command | Verb(verb: byte) | Sub(buf: seq<byte>) | SubCommand(buf: seq<byte>)

  /** What a byte completes: data for the line, a negotiation, a subnegotiation, or nothing. */
  datatype Output = Line(b: byte) | Negotiate(verb: byte, opt: byte) | Subnegotiate(buf: seq<byte>)

  /** The buffer takes what fits and ignores the rest. */
  function Collect(buf: seq<byte>, b: byte): seq<byte> { if |buf| < SB_MAX then buf + [b] else buf }

  function Next(m: Mode, b: byte): Mode {
    match m
    case Data => if b == IAC then Command else Data
    case Command => if b == SB then Sub([]) else if WILL <= b <= DONT then Verb(b) else Data
    case Verb(_) => Data
    case Sub(buf) => if b == IAC then SubCommand(buf) else Sub(Collect(buf, b))
    case SubCommand(buf) => if b == IAC then Sub(Collect(buf, IAC)) else Data
  }

  function Emits(m: Mode, b: byte): seq<Output> {
    match m
    case Data => if b == IAC then [] else [Line(b)]
    case Command => if b == IAC then [Line(b)] else []
    case Verb(v) => [Negotiate(v, b)]
    case Sub(_) => []
    case SubCommand(buf) => if b == IAC then [] else [Subnegotiate(buf)]
  }

  /** Everything a stream of bytes completes, and the mode it leaves. */
  function Parse(m: Mode, s: seq<byte>): (Mode, seq<Output>)
    decreases |s|
  {
    if s == [] then (m, [])
    else
      var (n, rest) := Parse(Next(m, s[0]), s[1..]);
      (n, Emits(m, s[0]) + rest)
  }

  /** However the stream is cut, the pieces parse to the same. */
  lemma {:induction false} ParseAppend(m: Mode, s: seq<byte>, t: seq<byte>)
    ensures var (n, a) := Parse(m, s); var (p, b) := Parse(n, t); Parse(m, s + t) == (p, a + b)
    decreases |s|
  {
    if s == [] {
      assert s + t == t;
      var (p, b) := Parse(m, t);
      assert [] + b == b;
    } else {
      assert (s + t)[1..] == s[1..] + t;
      ParseAppend(Next(m, s[0]), s[1..], t);
      var (n, a) := Parse(Next(m, s[0]), s[1..]);
      var (p, b) := Parse(n, t);
      assert Emits(m, s[0]) + (a + b) == Emits(m, s[0]) + a + b;
    }
  }

  // ---- what a peer sends ------------------------------------------------------------------------------------

  /** Doubling, RFC 854. */
  function Escape(b: byte): seq<byte> { if b == IAC then [IAC, IAC] else [b] }

  function EscapeAll(s: seq<byte>): seq<byte> { if s == [] then [] else EscapeAll(s[..|s| - 1]) + Escape(s[|s| - 1]) }

  /** A data byte, a negotiation, a two-byte command, or a subnegotiation closed by any byte but IAC. */
  datatype Token =
    | Byte(b: byte)
    | Offer(verb: byte, opt: byte)
    | Plain(command: byte)
    | Option(body: seq<byte>, close: byte)

  predicate Complete(t: Token) {
    match t
    case Byte(_) => true
    case Offer(v, _) => WILL <= v <= DONT
    case Plain(c) => c < SB
    case Option(_, c) => c != IAC
  }

  function Wire(t: Token): seq<byte> {
    match t
    case Byte(b) => Escape(b)
    case Offer(v, o) => [IAC, v, o]
    case Plain(c) => [IAC, c]
    case Option(body, c) => [IAC, SB] + EscapeAll(body) + [IAC, c]
  }

  /** What the subnegotiation buffer holds of a body. */
  function Clip(s: seq<byte>): seq<byte> { if |s| <= SB_MAX then s else s[..SB_MAX] }

  function Means(t: Token): seq<Output> {
    match t
    case Byte(b) => [Line(b)]
    case Offer(v, o) => [Negotiate(v, o)]
    case Plain(_) => []
    case Option(body, _) => [Subnegotiate(Clip(body))]
  }

  function WireAll(ts: seq<Token>): seq<byte> { if ts == [] then [] else WireAll(ts[..|ts| - 1]) + Wire(ts[|ts| - 1]) }

  function MeansAll(ts: seq<Token>): seq<Output> {
    if ts == [] then [] else MeansAll(ts[..|ts| - 1]) + Means(ts[|ts| - 1])
  }

  lemma ParseOne(m: Mode, b: byte)
    ensures Parse(m, [b]) == (Next(m, b), Emits(m, b))
  {
    assert [b][1..] == [];
    assert Emits(m, b) + [] == Emits(m, b);
  }

  lemma ParseTwo(m: Mode, a: byte, b: byte)
    ensures Parse(m, [a, b]) == (Next(Next(m, a), b), Emits(m, a) + Emits(Next(m, a), b))
  {
    assert [a, b] == [a] + [b];
    ParseAppend(m, [a], [b]);
    ParseOne(m, a);
    ParseOne(Next(m, a), b);
  }

  /** An escaped body is collected as it was, as far as the buffer goes. */
  lemma {:induction false} ParseBody(body: seq<byte>)
    ensures Parse(Sub([]), EscapeAll(body)) == (Sub(Clip(body)), [])
  {
    if body != [] {
      var n := |body| - 1;
      var b := body[n];
      ParseBody(body[..n]);
      ParseAppend(Sub([]), EscapeAll(body[..n]), Escape(b));
      assert Collect(Clip(body[..n]), b) == Clip(body);
      ParseOne(Sub(Clip(body[..n])), b);
      ParseTwo(Sub(Clip(body[..n])), IAC, IAC);
    }
  }

  lemma ParseToken(t: Token)
    requires Complete(t)
    ensures Parse(Data, Wire(t)) == (Data, Means(t))
  {
    hide Parse, EscapeAll;
    match t
    case Byte(b) =>
      ParseOne(Data, b);
      ParseTwo(Data, IAC, IAC);
      assert [] + [Line(IAC)] == [Line(IAC)];
    case Offer(v, o) =>
      assert [IAC, v, o] == [IAC, v] + [o];
      ParseTwo(Data, IAC, v);
      ParseAppend(Data, [IAC, v], [o]);
      ParseOne(Verb(v), o);
      assert [] + [] + [Negotiate(v, o)] == [Negotiate(v, o)];
    case Plain(c) =>
      ParseTwo(Data, IAC, c);
      assert Emits(Data, IAC) + Emits(Command, c) == [];
    case Option(body, c) =>
      ParseOption(body, c);
  }

  lemma ParseOption(body: seq<byte>, c: byte)
    requires c != IAC
    ensures Parse(Data, [IAC, SB] + EscapeAll(body) + [IAC, c]) == (Data, [Subnegotiate(Clip(body))])
  {
    hide Parse, EscapeAll, Clip;
    ParseTwo(Data, IAC, SB);
    assert Emits(Data, IAC) + Emits(Command, SB) == [];
    assert Parse(Data, [IAC, SB]) == (Sub([]), []);
    ParseBody(body);
    var none: seq<Output> := [];
    assert none + none == none;
    ParseAppend(Data, [IAC, SB], EscapeAll(body));
    assert Parse(Data, [IAC, SB] + EscapeAll(body)) == (Sub(Clip(body)), []);
    ParseTwo(Sub(Clip(body)), IAC, c);
    ParseAppend(Data, [IAC, SB] + EscapeAll(body), [IAC, c]);
    assert [] + [Subnegotiate(Clip(body))] == [Subnegotiate(Clip(body))];
  }

  /** Data bytes come back exactly, with any complete negotiations and subnegotiations between them. */
  lemma {:induction false} FramingRoundTrip(ts: seq<Token>)
    requires forall t :: t in ts ==> Complete(t)
    ensures Parse(Data, WireAll(ts)) == (Data, MeansAll(ts))
  {
    if ts != [] {
      var n := |ts| - 1;
      FramingRoundTrip(ts[..n]);
      assert ts[n] in ts;
      ParseToken(ts[n]);
      ParseAppend(Data, WireAll(ts[..n]), Wire(ts[n]));
    }
  }

  function Lines(s: seq<byte>): seq<Output> { seq(|s|, i requires 0 <= i < |s| => Line(s[i])) }

  /** In particular what the bridge escapes, the bridge reads back. */
  lemma {:induction false} EscapeRoundTrip(s: seq<byte>)
    ensures Parse(Data, EscapeAll(s)) == (Data, Lines(s))
  {
    if s == [] {
      assert Lines(s) == [];
    } else {
      hide Parse;
      var n := |s| - 1;
      EscapeRoundTrip(s[..n]);
      ParseToken(Byte(s[n]));
      ParseAppend(Data, EscapeAll(s[..n]), Escape(s[n]));
      assert Lines(s) == Lines(s[..n]) + [Line(s[n])];
    }
  }

  // ---- the code ----------------------------------------------------------------------------------------------

  datatype Tag = TData | TIac | TVerb | TSb | TSbIac

  class Layer {
    var state: Tag
    var verb: byte
    const sbBuf: array<byte>
    var sbLen: nat
    var telnet: bool
    var baud: word32
    var databits: byte
    var parity: byte
    var stop: byte
    var dtr: bool
    var rts: bool
    var comportActive: bool

    ghost predicate Valid()
      reads this
    {
      sbBuf.Length == SB_MAX && sbLen <= SB_MAX
    }

    ghost function Mode(): (m: Mode)
      requires Valid()
      reads this, sbBuf
    {
      match state
      case TData => Data
      case TIac => Command
      case TVerb => Verb(verb)
      case TSb => Sub(sbBuf[..sbLen])
      case TSbIac => SubCommand(sbBuf[..sbLen])
    }

    ghost function Settings(): Port
      reads this
    {
      Port(baud, databits, parity, stop, dtr, rts, comportActive)
    }

    constructor (t: bool)
      ensures Valid() && Mode() == Data && telnet == t && fresh(sbBuf) && Settings() == POWER_ON
    {
      state, verb, sbLen, telnet := TData, 0, 0, t;
      baud, databits, parity, stop, dtr, rts, comportActive := 115200, 8, 1, 1, false, false, false;
      sbBuf := new byte[SB_MAX];
    }

    method Store(b: byte)
      requires Valid()
      modifies this`sbLen, sbBuf
      ensures Valid() && sbBuf[..sbLen] == Collect(old(sbBuf[..sbLen]), b)
    {
      if sbLen < SB_MAX {
        sbBuf[sbLen] := b;
        sbLen := sbLen + 1;
      }
    }

    /** Answer a negotiation; the first one about the COM-PORT option also announces the modem state. */
    method HandleVerb(v: byte, opt: byte) returns (sent: seq<byte>)
      modifies this`comportActive
      ensures (Settings(), sent) == VerbReply(old(Settings()), v, opt)
    {
      var ok := opt == BINARY || opt == SGA || opt == COMPORT;
      sent := [];
      if v == WILL {
        sent := [IAC, if ok then DO else DONT, opt];
      } else if v == DO {
        sent := [IAC, if ok then WILL else WONT, opt];
      }
      if ok && opt == COMPORT && !comportActive {
        comportActive := true;
        var ack := ComportAck(7, [0x30]);
        EightFit([0x30]);
        sent := sent + ack;
      }
    }

    /** Carry out a COM-PORT command and acknowledge it. */
    method HandleSub(buf: seq<byte>) returns (sent: seq<byte>)
      modifies this`baud, this`databits, this`parity, this`stop, this`dtr, this`rts
      ensures (Settings(), sent) == SubReply(old(Settings()), buf)
    {
      hide Ack, Taken, Be32, OctetsBe32;
      if |buf| < 2 || buf[0] != COMPORT {
        return [];
      }
      var cmd, pl := buf[1], buf[2..];
      if cmd == 1 {
        if |pl| >= 4 {
          var want := Be32(pl[0], pl[1], pl[2], pl[3]);
          if 300 <= want <= 1500000 {
            baud := want;
          }
        }
        sent := ComportAck(cmd, OctetsBe32(baud));
      } else if cmd == 2 {
        if |pl| >= 1 && 5 <= pl[0] <= 8 {
          databits := pl[0];
        }
        sent := ComportAck(cmd, [databits]);
      } else if cmd == 3 {
        if |pl| >= 1 && 1 <= pl[0] <= 3 {
          parity := pl[0];
        }
        sent := ComportAck(cmd, [parity]);
      } else if cmd == 4 {
        if |pl| >= 1 && 1 <= pl[0] <= 2 {
          stop := pl[0];
        }
        sent := ComportAck(cmd, [stop]);
      } else if cmd == 5 {
        sent := [];
        if |pl| >= 1 {
          if pl[0] == 8 || pl[0] == 9 {
            dtr := pl[0] == 8;
          } else if pl[0] == 11 || pl[0] == 12 {
            rts := pl[0] == 11;
          }
          sent := ComportAck(cmd, pl[..1]);
        }
      } else {
        sent := ComportAck(cmd, pl);
      }
    }

    /** One byte from TCP: what it completes, a data byte in particular, and what is sent in answer. */
    method Process(b: byte) returns (isData: bool, out: byte, ghost done: seq<Output>, sent: seq<byte>)
      requires Valid()
      modifies this, sbBuf
      ensures Valid() && telnet == old(telnet) && Mode() == Next(old(Mode()), b) && done == Emits(old(Mode()), b)
      ensures (isData <==> done != [] && done[0].Line?) && (isData ==> done == [Line(out)])
      ensures (Settings(), sent) == RespondAll(old(Settings()), done)
    {
      hide VerbReply, SubReply, RespondAll;
      isData, out, done, sent := false, 0, [], [];
      match state {
        case TData =>
          if b == IAC {
            state := TIac;
          } else {
            isData, out, done := true, b, [Line(b)];
          }
        case TIac =>
          if b == IAC {
            state := TData;
            isData, out, done := true, b, [Line(b)];
          } else if b == SB {
            state := TSb;
            sbLen := 0;
          } else if WILL <= b <= DONT {
            verb := b;
            state := TVerb;
          } else {
            state := TData;
          }
        case TVerb =>
          done := [Negotiate(verb, b)];
          sent := HandleVerb(verb, b);
          state := TData;
        case TSb =>
          if b == IAC {
            state := TSbIac;
          } else {
            Store(b);
          }
        case TSbIac =>
          if b == IAC {
            Store(IAC);
            state := TSb;
          } else {
            done := [Subnegotiate(sbBuf[..sbLen])];
            sent := HandleSub(sbBuf[..sbLen]);
            state := TData;
          }
      }
      RespondOne(old(Settings()), done);
    }

    /** The prediction, without consuming the byte, of whether it is data. */
    predicate NextIsData(b: byte)
      requires Valid()
      reads this, sbBuf
      ensures telnet ==> (NextIsData(b) <==> exists d :: Emits(Mode(), b) == [Line(d)])
    {
      assert state == TData && b != IAC ==> Emits(Mode(), b) == [Line(b)];
      assert state == TIac && b == IAC ==> Emits(Mode(), b) == [Line(b)];
      !telnet || (state == TData && b != IAC) || (state == TIac && b == IAC)
    }

    /** A whole stream, byte by byte: its data bytes, and everything sent in answer. */
    method Feed(s: seq<byte>) returns (line: seq<byte>, ghost done: seq<Output>, sent: seq<byte>)
      requires Valid()
      modifies this, sbBuf
      ensures Valid() && (Mode(), done) == Parse(old(Mode()), s) && line == LineBytes(done)
      ensures (Settings(), sent) == RespondAll(old(Settings()), done)
    {
      hide Parse, RespondAll, LineBytes;
      line, done, sent := [], [], [];
      NothingFed(old(Mode()), old(Settings()));
      assert s[..0] == [];
      for i := 0 to |s|
        invariant Valid() && (Mode(), done) == Parse(old(Mode()), s[..i]) && line == LineBytes(done)
        invariant (Settings(), sent) == RespondAll(old(Settings()), done)
      {
        ghost var m, p := Mode(), Settings();
        var isData, out, d, r := Process(s[i]);
        if isData {
          line := line + [out];
        }
        EmitsAtMostOne(m, s[i], isData, out);
        LineBytesAppend(done, d);
        RespondAppend(old(Settings()), done, d);
        done := done + d;
        sent := sent + r;
        assert s[..i + 1] == s[..i] + [s[i]];
        ParseAppend(old(Mode()), s[..i], [s[i]]);
        ParseOne(m, s[i]);
      }
      assert s[..|s|] == s;
    }
  }

  lemma EmitsAtMostOne(m: Mode, b: byte, isData: bool, out: byte)
    requires (isData <==> Emits(m, b) != [] && Emits(m, b)[0].Line?) && (isData ==> Emits(m, b) == [Line(out)])
    ensures LineBytes(Emits(m, b)) == if isData then [out] else []
  {
    var e := Emits(m, b);
    assert |e| <= 1;
    if e != [] {
      assert e == [e[0]];
      OneOutput(e[0]);
    }
  }

  lemma OneOutput(o: Output)
    ensures LineBytes([o]) == if o.Line? then [o.b] else []
  {
    assert [o][..0] == [];
  }

  lemma NothingFed(m: Mode, p: Port)
    ensures Parse(m, []) == (m, []) && RespondAll(p, []) == (p, []) && LineBytes([]) == []
  {
  }

  // ---- replies ------------------------------------------------------------------------------------------------

  /** How much of a payload the 24-byte reply buffer takes, from byte i on: a byte must start below offset 21. */
  function Taken(payload: seq<byte>, i: nat): (k: nat)
    requires i <= |payload|
    ensures i <= k <= |payload|
    decreases |payload| - i
  {
    if i < |payload| && 4 + |EscapeAll(payload[..i])| < 21 then Taken(payload, i + 1) else i
  }

  lemma {:induction false} EscapeGrows(s: seq<byte>, n: nat)
    requires n <= |s|
    ensures n <= |EscapeAll(s[..n])| <= |EscapeAll(s)| <= 2 * |s|
  {
    if n == |s| {
      assert s[..n] == s;
      if s != [] {
        EscapeGrows(s[..n - 1], n - 1);
        assert s[..n - 1][..n - 1] == s[..n - 1];
      }
    } else {
      EscapeGrows(s[..|s| - 1], n);
      assert s[..|s| - 1][..n] == s[..n];
    }
  }

  /** All of it, exactly when what precedes the last byte escapes to at most 16 bytes. */
  lemma {:induction false} TakenExactly(payload: seq<byte>, i: nat)
    requires i < |payload|
    ensures Taken(payload, i) == |payload| <==> |EscapeAll(payload[..|payload| - 1])| <= 16
    decreases |payload| - i
  {
    hide EscapeAll;
    var n := |payload| - 1;
    EscapeGrows(payload[..n], i);
    assert payload[..n][..i] == payload[..i];
    if 4 + |EscapeAll(payload[..i])| < 21 && i < n {
      TakenExactly(payload, i + 1);
    }
  }

  /** Eight bytes always fit, whatever they are; so do nine. */
  lemma EightFit(payload: seq<byte>)
    requires |payload| <= 9
    ensures Taken(payload, 0) == |payload|
  {
    if payload != [] {
      var n := |payload| - 1;
      TakenExactly(payload, 0);
      EscapeGrows(payload[..n], n);
    }
  }

  /** The reply as built: the command byte is the one thing not escaped. */
  function Ack(cmd: byte, payload: seq<byte>): seq<byte> {
    [IAC, SB, COMPORT, (cmd + 100) % 256] + EscapeAll(payload) + [IAC, SE]
  }

  lemma EscapeNone()
    ensures EscapeAll([]) == []
  {
  }

  lemma EscapeNext(s: seq<byte>, i: nat)
    requires i < |s|
    ensures EscapeAll(s[..i + 1]) == EscapeAll(s[..i]) + Escape(s[i])
  {
    assert s[..i + 1][..i] == s[..i];
  }

  /** IAC SB 44 command+100, escaped payload, IAC SE, in a 24-byte buffer. */
  method ComportAck(cmd: byte, payload: seq<byte>) returns (reply: seq<byte>)
    ensures reply == Ack(cmd, payload[..Taken(payload, 0)]) && |reply| <= 24
  {
    hide EscapeAll;
    EscapeNone();
    var buf := new byte[24];
    buf[0], buf[1], buf[2], buf[3] := IAC, SB, COMPORT, (cmd + 100) % 256;
    var w, i := 4, 0;
    ghost var head := [IAC, SB, COMPORT, (cmd + 100) % 256];
    assert payload[..0] == [] && buf[..4] == head + EscapeAll([]);
    while i < |payload| && w < 21
      invariant 0 <= i <= |payload| && 4 <= w <= 22 && w == 4 + |EscapeAll(payload[..i])|
      invariant buf[..w] == head + EscapeAll(payload[..i])
      invariant Taken(payload, 0) == Taken(payload, i)
    {
      EscapeNext(payload, i);
      ghost var before := buf[..w];
      if payload[i] == IAC {
        buf[w] := IAC;
        w := w + 1;
      }
      buf[w] := payload[i];
      w := w + 1;
      assert buf[..w] == before + Escape(payload[i]);
      i := i + 1;
    }
    ghost var before := buf[..w];
    buf[w], buf[w + 1] := IAC, SE;
    w := w + 2;
    reply := buf[..w];
    assert reply == before + [IAC, SE];
  }

  lemma {:induction false} EscapeAppend(s: seq<byte>, t: seq<byte>)
    ensures EscapeAll(s + t) == EscapeAll(s) + EscapeAll(t)
  {
    hide Escape;
    if t == [] {
      assert s + t == s;
    } else {
      var n := |t| - 1;
      assert (s + t)[..|s| + n] == s + t[..n] && (s + t)[|s| + n] == t[n];
      EscapeAppend(s, t[..n]);
      assert (EscapeAll(s) + EscapeAll(t[..n])) + Escape(t[n]) == EscapeAll(s) + (EscapeAll(t[..n]) + Escape(t[n]));
    }
  }

  lemma EscapeOne(b: byte)
    ensures EscapeAll([b]) == Escape(b)
  {
    assert [b][..0] == [];
  }

  lemma EscapeFirst(s: seq<byte>, tail: seq<byte>)
    requires s != []
    ensures EscapeAll(s) + tail == Escape(s[0]) + (EscapeAll(s[1..]) + tail)
  {
    hide EscapeAll;
    assert s == [s[0]] + s[1..];
    EscapeAppend([s[0]], s[1..]);
    EscapeOne(s[0]);
  }

  /** An unescaped IAC before an escaped payload never yields that payload. */
  lemma {:induction false} StrayIac(buf: seq<byte>, s: seq<byte>)
    ensures var (m, o) := Parse(SubCommand(buf), EscapeAll(s) + [IAC, SE]);
            m.Sub? || (o != [] && o[0].Subnegotiate? && |o[0].buf| < |buf| + |s|)
    decreases |s|
  {
    if s == [] {
      assert EscapeAll(s) + [IAC, SE] == [IAC, SE];
      ParseTwo(SubCommand(buf), IAC, SE);
    } else {
      EscapeFirst(s, [IAC, SE]);
      ParseAppend(SubCommand(buf), Escape(s[0]), EscapeAll(s[1..]) + [IAC, SE]);
      if s[0] == IAC {
        ParseTwo(SubCommand(buf), IAC, IAC);
        StrayIac(Collect(buf, IAC), s[1..]);
      } else {
        ParseOne(SubCommand(buf), s[0]);
      }
    }
  }

  /** A reply parses back to its command and payload exactly when the command byte is not itself an IAC. */
  lemma AckParsesBack(cmd: byte, payload: seq<byte>)
    requires |payload| <= SB_MAX - 2
    ensures Parse(Data, Ack(cmd, payload)) == (Data, [Subnegotiate([COMPORT, (cmd + 100) % 256] + payload)]) <==>
        cmd != 155
  {
    hide Parse, EscapeAll;
    var c := (cmd + 100) % 256;
    if cmd != 155 {
      GoodAck(cmd, c, payload);
    } else {
      BadAck(c, payload);
      StrayIac([COMPORT], payload);
    }
  }

  lemma GoodAck(cmd: byte, c: byte, payload: seq<byte>)
    requires c == (cmd + 100) % 256 && c != IAC && |payload| <= SB_MAX - 2
    ensures Parse(Data, Ack(cmd, payload)) == (Data, [Subnegotiate([COMPORT, c] + payload)])
  {
    hide Parse, EscapeAll;
    AckIsOption(cmd, c, payload);
    ParseOption([COMPORT, c] + payload, SE);
  }

  lemma AckIsOption(cmd: byte, c: byte, payload: seq<byte>)
    requires c == (cmd + 100) % 256 && c != IAC
    ensures Ack(cmd, payload) == [IAC, SB] + EscapeAll([COMPORT, c] + payload) + [IAC, SE]
  {
    hide EscapeAll;
    EscapeAppend([COMPORT], [c]);
    EscapeOne(COMPORT);
    EscapeOne(c);
    assert [COMPORT] + [c] == [COMPORT, c];
    EscapeAppend([COMPORT, c], payload);
  }

  lemma BadAck(c: byte, payload: seq<byte>)
    requires c == IAC
    ensures Parse(Data, Ack(155, payload)) == Parse(SubCommand([COMPORT]), EscapeAll(payload) + [IAC, SE])
  {
    hide Parse, EscapeAll;
    var tail := EscapeAll(payload) + [IAC, SE];
    var start := [IAC, SB, COMPORT, IAC];
    assert Ack(155, payload) == start + tail;
    assert start == [IAC, SB] + [COMPORT, IAC];
    ParseTwo(Data, IAC, SB);
    ParseTwo(Sub([]), COMPORT, IAC);
    ParseAppend(Data, [IAC, SB], [COMPORT, IAC]);
    assert Collect([], COMPORT) == [COMPORT];
    assert Emits(Data, IAC) + Emits(Command, SB) == [] == Emits(Sub([]), COMPORT) + Emits(Sub([COMPORT]), IAC);
    var none: seq<Output> := [];
    assert none + none == none;
    assert Parse(Data, start) == (SubCommand([COMPORT]), []);
    ParseAppend(Data, start, tail);
    var (m, o) := Parse(SubCommand([COMPORT]), tail);
    assert [] + o == o;
  }

  // ---- what the handlers do and send ------------------------------------------------------------------------

  /** Line settings and control pins as the COM-PORT option sees them; a pin that is on is driven low. */
  datatype Port = Port(baud: word32, databits: byte, parity: byte, stop: byte, dtr: bool, rts: bool, active: bool)

  const POWER_ON: Port := Port(115200, 8, 1, 1, false, false, false)

  function Be32(a: byte, b: byte, c: byte, d: byte): word32 {
    0x100_0000 * (a as int) + 0x1_0000 * (b as int) + 0x100 * (c as int) + d
  }

  function OctetsBe32(v: word32): seq<byte> { [v / 256 / 256 / 256, v / 256 / 256 % 256, v / 256 % 256, v % 256] }

  /** What the reply buffer takes of an acknowledgement. */
  function Acked(cmd: byte, payload: seq<byte>): seq<byte> { Ack(cmd, payload[..Taken(payload, 0)]) }

  function Supported(opt: byte): bool { opt == BINARY || opt == SGA || opt == COMPORT }

  function VerbReply(p: Port, v: byte, opt: byte): (Port, seq<byte>) {
    var answer :=
      if v == WILL then [IAC, if Supported(opt) then DO else DONT, opt]
      else if v == DO then [IAC, if Supported(opt) then WILL else WONT, opt]
      else [];
    if opt == COMPORT && !p.active then (p.(active := true), answer + Ack(7, [0x30])) else (p, answer)
  }

  function SubReply(p: Port, buf: seq<byte>): (Port, seq<byte>) {
    if |buf| < 2 || buf[0] != COMPORT then (p, [])
    else
      var cmd, pl := buf[1], buf[2..];
      if cmd == 1 then
        var want := if |pl| >= 4 then Be32(pl[0], pl[1], pl[2], pl[3]) else 0;
        var q := if 300 <= want <= 1500000 then p.(baud := want) else p;
        (q, Acked(cmd, OctetsBe32(q.baud)))
      else if cmd == 2 then
        var q := if |pl| >= 1 && 5 <= pl[0] <= 8 then p.(databits := pl[0]) else p;
        (q, Acked(cmd, [q.databits]))
      else if cmd == 3 then
        var q := if |pl| >= 1 && 1 <= pl[0] <= 3 then p.(parity := pl[0]) else p;
        (q, Acked(cmd, [q.parity]))
      else if cmd == 4 then
        var q := if |pl| >= 1 && 1 <= pl[0] <= 2 then p.(stop := pl[0]) else p;
        (q, Acked(cmd, [q.stop]))
      else if cmd == 5 then
        if pl == [] then (p, [])
        else
          var q := if pl[0] == 8 || pl[0] == 9 then p.(dtr := pl[0] == 8)
                   else if pl[0] == 11 || pl[0] == 12 then p.(rts := pl[0] == 11) else p;
          (q, Acked(cmd, pl[..1]))
      else (p, Acked(cmd, pl))
  }

  function Respond(p: Port, o: Output): (Port, seq<byte>) {
    match o
    case Line(_) => (p, [])
    case Negotiate(v, opt) => VerbReply(p, v, opt)
    case Subnegotiate(buf) => SubReply(p, buf)
  }

  function RespondAll(p: Port, os: seq<Output>): (Port, seq<byte>) {
    if os == [] then (p, [])
    else
      var (q, sent) := RespondAll(p, os[..|os| - 1]);
      var (r, more) := Respond(q, os[|os| - 1]);
      (r, sent + more)
  }

  lemma RespondOne(p: Port, os: seq<Output>)
    requires |os| <= 1
    ensures RespondAll(p, os) == if os == [] then (p, []) else Respond(p, os[0])
  {
    hide Respond;
    if os != [] {
      assert os[..0] == [];
      assert [] + Respond(p, os[0]).1 == Respond(p, os[0]).1;
    }
  }

  lemma {:induction false} RespondAppend(p: Port, a: seq<Output>, b: seq<Output>)
    ensures var (q, s) := RespondAll(p, a); var (r, t) := RespondAll(q, b); RespondAll(p, a + b) == (r, s + t)
  {
    hide Respond;
    if b == [] {
      assert a + b == a;
      var (q, s) := RespondAll(p, a);
      assert s + [] == s;
    } else {
      var n := |b| - 1;
      assert (a + b)[..|a| + n] == a + b[..n] && (a + b)[|a| + n] == b[n];
      RespondAppend(p, a, b[..n]);
      var (q, s) := RespondAll(p, a);
      var (r, t) := RespondAll(q, b[..n]);
      assert (s + t) + Respond(r, b[n]).1 == s + (t + Respond(r, b[n]).1);
    }
  }

  /** The data bytes among what was completed. */
  function LineBytes(os: seq<Output>): seq<byte> {
    if os == [] then []
    else LineBytes(os[..|os| - 1]) + if os[|os| - 1].Line? then [os[|os| - 1].b] else []
  }

  lemma {:induction false} LineBytesAppend(a: seq<Output>, b: seq<Output>)
    ensures LineBytes(a + b) == LineBytes(a) + LineBytes(b)
  {
    if b == [] {
      assert a + b == a;
    } else {
      var n := |b| - 1;
      assert (a + b)[..|a| + n] == a + b[..n];
      LineBytesAppend(a, b[..n]);
    }
  }

  lemma BeRoundTrip(a: byte, b: byte, c: byte, d: byte)
    ensures OctetsBe32(Be32(a, b, c, d)) == [a, b, c, d]
  {
    var x: int, y: int := 0x1_0000 * (a as int) + 0x100 * (b as int) + c, 0x100 * (a as int) + b;
    ModUnique(Be32(a, b, c, d), 256, x, d);
    ModUnique(x, 256, y, c);
    ModUnique(y, 256, a, b);
  }

  /** A requested rate in range is acknowledged with exactly the octets of the request. */
  lemma BaudEchoed(p: Port, a: byte, b: byte, c: byte, d: byte)
    requires 300 <= Be32(a, b, c, d) <= 1500000
    ensures var (q, sent) := SubReply(p, [COMPORT, 1, a, b, c, d]);
            q == p.(baud := Be32(a, b, c, d)) && sent == Ack(1, [a, b, c, d])
  {
    hide Ack;
    var pl := [COMPORT, 1, a, b, c, d][2..];
    assert pl == [a, b, c, d];
    BeRoundTrip(a, b, c, d);
    hide Be32, OctetsBe32;
    EightFit([a, b, c, d]);
    assert [a, b, c, d][..4] == [a, b, c, d];
  }

  // ---- what the client sees -----------------------------------------------------------------------------------

  /** IACs and then one other byte: together with a stray IAC before them a plain command and nothing more. */
  predicate ClosesStray(payload: seq<byte>) {
    && payload != [] && payload[|payload| - 1] != IAC
    && forall i :: 0 <= i < |payload| - 1 ==> payload[i] == IAC
  }

  /** Command 155, whose acknowledgement carries an unescaped IAC, with a payload that does not make up for it. */
  predicate Garbling(o: Output) {
    && o.Subnegotiate? && |o.buf| >= 2 && o.buf[0] == COMPORT && o.buf[1] == 155
    && !ClosesStray(o.buf[2..][..Taken(o.buf[2..], 0)])
  }

  /** Parses as complete messages without a single data byte. */
  ghost predicate Silent(s: seq<byte>) { Parse(Data, s).0 == Data && LineBytes(Parse(Data, s).1) == [] }

  lemma NothingSilent()
    ensures Silent([])
  {
  }

  lemma SilentAppend(s: seq<byte>, t: seq<byte>)
    requires Silent(s) && Silent(t)
    ensures Silent(s + t)
  {
    hide Parse, LineBytes;
    ParseAppend(Data, s, t);
    LineBytesAppend(Parse(Data, s).1, Parse(Data, t).1);
  }

  lemma OfferSilent(v: byte, opt: byte)
    requires WILL <= v <= DONT
    ensures Silent([IAC, v, opt])
  {
    ParseToken(Offer(v, opt));
    OneOutput(Negotiate(v, opt));
  }

  /** After a stray IAC a first byte that is not one ends the message, and all that follows is data. */
  lemma StrayIacSpills(buf: seq<byte>, s: seq<byte>)
    requires s != [] && s[0] != IAC
    ensures var (m, os) := Parse(SubCommand(buf), EscapeAll(s) + [IAC, SE]); m == Data && LineBytes(os) == s[1..]
  {
    hide Parse, EscapeAll, LineBytes;
    var rest := EscapeAll(s[1..]) + [IAC, SE];
    EscapeFirst(s, [IAC, SE]);
    ParseAppend(SubCommand(buf), Escape(s[0]), rest);
    ParseOne(SubCommand(buf), s[0]);
    OneOutput(Subnegotiate(buf));
    DataBehind(s[1..]);
    LineBytesAppend([Subnegotiate(buf)], Parse(Data, rest).1);
  }

  lemma {:induction false} StrayIacSilent(buf: seq<byte>, s: seq<byte>)
    ensures var (m, os) := Parse(SubCommand(buf), EscapeAll(s) + [IAC, SE]);
            m == Data && LineBytes(os) == [] <==> ClosesStray(s)
    decreases |s|
  {
    hide Parse, EscapeAll, LineBytes;
    if s == [] {
      EscapeNone();
      assert EscapeAll(s) + [IAC, SE] == [IAC, SE];
      ParseTwo(SubCommand(buf), IAC, SE);
    } else if s[0] != IAC {
      StrayIacSpills(buf, s);
    } else {
      var next, rest := Collect(buf, IAC), EscapeAll(s[1..]) + [IAC, SE];
      EscapeFirst(s, [IAC, SE]);
      ParseAppend(SubCommand(buf), [IAC, IAC], rest);
      ParseTwo(SubCommand(buf), IAC, IAC);
      StrayIacSilent(next, s[1..]);
      var (_, os) := Parse(SubCommand(next), rest);
      assert [] + [] + os == os;
      ClosesStrayRest(s);
    }
  }

  lemma ClosesStrayRest(s: seq<byte>)
    requires s != [] && s[0] == IAC
    ensures ClosesStray(s) <==> ClosesStray(s[1..])
  {
    if ClosesStray(s[1..]) {
      assert forall i :: 0 < i < |s| - 1 ==> s[i] == s[1..][i - 1];
    }
  }

  /** Outside any message, an escaped text and a closing command are that text as data. */
  lemma DataBehind(r: seq<byte>)
    ensures var (m, os) := Parse(Data, EscapeAll(r) + [IAC, SE]); m == Data && LineBytes(os) == r
  {
    hide Parse, EscapeAll;
    EscapeRoundTrip(r);
    ParseAppend(Data, EscapeAll(r), [IAC, SE]);
    ParseTwo(Data, IAC, SE);
    assert Emits(Data, IAC) + Emits(Command, SE) == [];
    assert Lines(r) + [] == Lines(r);
    LineBytesOfLines(r);
  }

  lemma {:induction false} LineBytesOfLines(r: seq<byte>)
    ensures LineBytes(Lines(r)) == r
  {
    if r != [] {
      var n := |r| - 1;
      assert Lines(r)[..n] == Lines(r[..n]);
      LineBytesOfLines(r[..n]);
    }
  }

  /** An acknowledgement stays out of the data exactly when it carries no stray IAC, or one that its payload closes. */
  lemma AckSilent(cmd: byte, payload: seq<byte>)
    ensures Silent(Ack(cmd, payload)) <==> cmd != 155 || ClosesStray(payload)
  {
    hide Parse, EscapeAll, ClosesStray;
    if cmd != 155 {
      var c := (cmd + 100) % 256;
      var body := [COMPORT, c] + payload;
      AckIsOption(cmd, c, payload);
      ParseOption(body, SE);
      OneOutput(Subnegotiate(Clip(body)));
    } else {
      BadAck((cmd + 100) % 256, payload);
      StrayIacSilent([COMPORT], payload);
    }
  }

  /** No answer puts a data byte into the client's stream or leaves a message open, unless it is garbled. */
  lemma RespondSilent(p: Port, o: Output)
    ensures Silent(Respond(p, o).1) <==> !Garbling(o)
  {
    hide Silent, Ack, Be32, OctetsBe32, ClosesStray, Taken;
    NothingSilent();
    match o
    case Line(_) =>
    case Negotiate(v, opt) => VerbSilent(p, v, opt);
    case Subnegotiate(buf) => SubSilent(p, buf);
  }

  lemma VerbSilent(p: Port, v: byte, opt: byte)
    ensures Silent(VerbReply(p, v, opt).1)
  {
    hide Silent, Ack;
    NothingSilent();
    OfferSilent(DO, opt);
    OfferSilent(DONT, opt);
    OfferSilent(WILL, opt);
    OfferSilent(WONT, opt);
    AckSilent(7, [0x30]);
    var answer :=
      if v == WILL then [IAC, if Supported(opt) then DO else DONT, opt]
      else if v == DO then [IAC, if Supported(opt) then WILL else WONT, opt]
      else [];
    SilentAppend(answer, Ack(7, [0x30]));
  }

  lemma SubSilent(p: Port, buf: seq<byte>)
    ensures Silent(SubReply(p, buf).1) <==> !Garbling(Subnegotiate(buf))
  {
    hide Silent, Ack, Be32, OctetsBe32, ClosesStray, Taken;
    NothingSilent();
    if |buf| >= 2 && buf[0] == COMPORT {
      forall payload: seq<byte>
        ensures Silent(Acked(buf[1], payload)) <==> buf[1] != 155 || ClosesStray(payload[..Taken(payload, 0)])
      {
        AckSilent(buf[1], payload[..Taken(payload, 0)]);
      }
    }
  }

  /** Command 155 with a payload that does not start with an IAC: all but its first byte is read as data. */
  lemma AckSpills(payload: seq<byte>)
    requires payload != [] && payload[0] != IAC
    ensures var (m, os) := Parse(Data, Ack(155, payload)); m == Data && LineBytes(os) == payload[1..]
  {
    hide Parse, EscapeAll, Ack;
    BadAck(255, payload);
    StrayIacSpills([COMPORT], payload);
  }

  /** So a client that sends the payload 1, 2 reads a data byte 2 that the line never sent. */
  lemma GarbledExample(p: Port)
    ensures var o := Subnegotiate([COMPORT, 155, 1, 2]);
            && Garbling(o)
            && var (m, os) := Parse(Data, Respond(p, o).1); m == Data && LineBytes(os) == [2]
  {
    hide Parse, EscapeAll, Ack, Taken;
    var pl := [COMPORT, 155, 1, 2][2..];
    assert pl == [1, 2];
    EightFit(pl);
    assert pl[..2] == pl && pl[0] != IAC;
    AckSpills(pl);
    assert pl[1..] == [2];
  }

  /** The client's side of the connection: line bytes are escaped into it, completed messages answered. */
  datatype Traffic = FromLine(b: byte) | Completed(o: Output)

  function Outgoing(p: Port, ts: seq<Traffic>): (Port, seq<byte>) {
    if ts == [] then (p, [])
    else
      var (q, sent) := Outgoing(p, ts[..|ts| - 1]);
      match ts[|ts| - 1]
      case FromLine(b) => (q, sent + Escape(b))
      case Completed(o) => var (r, more) := Respond(q, o); (r, sent + more)
  }

  function LineOf(ts: seq<Traffic>): seq<byte> {
    if ts == [] then []
    else LineOf(ts[..|ts| - 1]) + if ts[|ts| - 1].FromLine? then [ts[|ts| - 1].b] else []
  }

  /** What the client holds after some traffic: nothing half read, and exactly the line's bytes. */
  ghost predicate Clear(p: Port, ts: seq<Traffic>) {
    var (m, os) := Parse(Data, Outgoing(p, ts).1);
    m == Data && LineBytes(os) == LineOf(ts)
  }

  /** One more item keeps the client's view clear exactly when its answer is not garbled. */
  lemma ClearStep(p: Port, ts: seq<Traffic>)
    requires ts != [] && Clear(p, ts[..|ts| - 1])
    ensures var t := ts[|ts| - 1]; Clear(p, ts) <==> t.FromLine? || !Garbling(t.o)
  {
    hide Parse, Respond, LineBytes, Garbling;
    var n := |ts| - 1;
    var (q, sent) := Outgoing(p, ts[..n]);
    var more := if ts[n].FromLine? then Escape(ts[n].b) else Respond(q, ts[n].o).1;
    assert Outgoing(p, ts).1 == sent + more;
    ParseAppend(Data, sent, more);
    LineBytesAppend(Parse(Data, sent).1, Parse(Data, more).1);
    if ts[n].FromLine? {
      ParseToken(Byte(ts[n].b));
      OneOutput(Line(ts[n].b));
    } else {
      RespondSilent(q, ts[n].o);
    }
  }

  /**
   * However answers are interleaved with the line's bytes, the client at every moment has read exactly the
   * line's bytes, if and only if no answer is garbled.
   */
  lemma {:induction false} ClientSeesTheLine(p: Port, ts: seq<Traffic>)
    ensures (forall k :: 0 <= k <= |ts| ==> Clear(p, ts[..k])) <==>
            (forall t :: t in ts && t.Completed? ==> !Garbling(t.o))
  {
    hide Clear, Garbling;
    if ts == [] {
      NothingClear(p);
    } else {
      var n := |ts| - 1;
      var was := ts[..n];
      ClientSeesTheLine(p, was);
      assert ts[..n + 1] == ts && ts == was + [ts[n]];
      assert forall k :: 0 <= k <= n ==> was[..k] == ts[..k];
      assert (forall k :: 0 <= k <= |ts| ==> Clear(p, ts[..k])) <==>
          (forall k :: 0 <= k <= n ==> Clear(p, was[..k])) && Clear(p, ts);
      if forall k :: 0 <= k <= n ==> Clear(p, was[..k]) {
        assert was[..n] == was;
        ClearStep(p, ts);
      }
    }
  }

  lemma NothingClear(p: Port)
    ensures Clear(p, [])
  {
    NothingFed(Data, p);
  }
}
