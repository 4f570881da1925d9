/** The SOCKS5 handshake, its relays and the registry of proxies (windows/core/proxy_engine.py; sections 3 to
    6 of RFC 1928). */
module Socks5 {
  import opened Basics

  type Byte = b: nat | b < 256

  const VERSION: Byte := 5
  const AUTH_NONE: Byte := 0
  const CMD_CONNECT: Byte := 1
  const ATYP_IPV4: Byte := 1
  const ATYP_DOMAIN: Byte := 3
  const ATYP_IPV6: Byte := 4
  const REP_SUCCESS: Byte := 0
  const REP_FAILURE: Byte := 1
  const REP_NOT_ALLOWED: Byte := 2
  const REP_NET_UNREACH: Byte := 3
  const REP_HOST_UNREACH: Byte := 4
  const REP_REFUSED: Byte := 5
  const CHUNK := 65536

  // -------------------------------------------------------------- streams

  function Joined(chunks: seq<seq<Byte>>): seq<Byte> { if chunks == [] then [] else chunks[0] + Joined(chunks[1..]) }

  /** asyncio.StreamReader: what is buffered, and the chunks still to arrive before the peer ends. */
  class StreamReader {
    var buffer: seq<Byte>
    var incoming: seq<seq<Byte>>
    /** Reads that raised. */
    ghost var errors: nat

    constructor (chunks: seq<seq<Byte>>)
      ensures Pending() == Joined(chunks) && errors == 0
    {
      buffer, incoming, errors := [], chunks, 0;
    }

    ghost function Pending(): seq<Byte>
      reads this
    {
      buffer + Joined(incoming)
    }

    method Arrive()
      requires incoming != []
      modifies this`buffer, this`incoming
      ensures Pending() == old(Pending()) && |incoming| == old(|incoming|) - 1 && old(buffer) <= buffer
    {
      assert buffer + Joined(incoming) == (buffer + incoming[0]) + Joined(incoming[1..]);
      buffer, incoming := buffer + incoming[0], incoming[1..];
    }

    /** readexactly: None when the stream ends first (the partial bytes are gone). */
    method ReadExactly(n: nat) returns (r: Option<seq<Byte>>)
      modifies this
      ensures r.Some? <==> n <= |old(Pending())|
      ensures r.Some? ==> r.value == old(Pending())[..n] && Pending() == old(Pending())[n..]
      ensures r == None ==> Pending() == []
    {
      while |buffer| < n && incoming != []
        invariant Pending() == old(Pending())
        decreases |incoming|
      {
        Arrive();
      }
      if |buffer| < n {
        buffer := [];
        return None;
      }
      r := Some(buffer[..n]);
      buffer := buffer[n..];
    }

    /** read: up to `limit` bytes, at least one unless the stream has ended. */
    method Read(limit: nat) returns (data: seq<Byte>)
      requires limit > 0
      modifies this`buffer, this`incoming
      ensures data + Pending() == old(Pending()) && |data| <= limit
      ensures data == [] <==> old(Pending()) == []
    {
      while buffer == [] && incoming != []
        invariant Pending() == old(Pending())
        decreases |incoming|
      {
        Arrive();
      }
      var n := if |buffer| < limit then |buffer| else limit;
      data := buffer[..n];
      buffer := buffer[n..];
    }

    /** A read on a connection that may have been reset: then it raises. */
    method Receive(limit: nat) returns (data: seq<Byte>, raised: bool)
      requires limit > 0
      modifies this
      ensures data + Pending() == old(Pending()) && |data| <= limit
      ensures data == [] <==> raised || old(Pending()) == []
      ensures errors == old(errors) + if raised then 1 else 0
    {
      raised := *;
      if raised {
        data, errors := [], errors + 1;
      } else {
        data := Read(limit);
      }
    }
  }

  /** asyncio.StreamWriter with its drain: a write may fail, and what was written stays written. */
  class StreamWriter {
    var sent: seq<Byte>
    var closed: bool
    /** Writes that failed. */
    ghost var failures: nat

    constructor ()
      ensures sent == [] && !closed && failures == 0
    {
      sent, closed, failures := [], false, 0;
    }

    method Write(data: seq<Byte>) returns (ok: bool)
      modifies this`sent, this`failures
      ensures sent == if ok then old(sent) + data else old(sent)
      ensures failures == old(failures) + if ok then 0 else 1
    {
      ok := *;
      if ok {
        sent := sent + data;
      } else {
        failures := failures + 1;
      }
    }

    method Close()
      modifies this`closed
      ensures closed
    {
      closed := true;
    }
  }

  // -------------------------------------------------------------- messages

  /** A destination: the four address bytes, the bytes of a name, or the sixteen address bytes. */
  datatype Address = Ipv4(bytes: seq<Byte>) | Domain(name: seq<Byte>) | Ipv6(bytes: seq<Byte>)

  ghost predicate WellSized(a: Address) {
    match a
    case Ipv4(bytes) => |bytes| == 4
    case Domain(name) => |name| < 256
    case Ipv6(bytes) => |bytes| == 16
  }

  /** What a client sends: method list of the greeting, reserved byte, destination and port. */
  datatype Hello = Hello(methods: seq<Byte>, rsv: Byte, address: Address, port: nat)

  ghost predicate Sendable(h: Hello) { |h.methods| < 256 && WellSized(h.address) && h.port < 0x1_0000 }

  function PortBytes(port: nat): seq<Byte>
    requires port < 0x1_0000
  {
    [port / 256, port % 256]
  }

  function PortOf(b: seq<Byte>): nat
    requires |b| == 2
  {
    var high: nat, low: nat := b[0], b[1];
    256 * high + low
  }

  function EncodeAddress(a: Address): seq<Byte>
    requires WellSized(a)
  {
    match a
    case Ipv4(bytes) => [ATYP_IPV4] + bytes
    case Domain(name) => [ATYP_DOMAIN, |name|] + name
    case Ipv6(bytes) => [ATYP_IPV6] + bytes
  }

  function EncodeGreeting(methods: seq<Byte>): seq<Byte>
    requires |methods| < 256
  {
    [VERSION, |methods|] + methods
  }

  function EncodeRequest(h: Hello): seq<Byte>
    requires Sendable(h)
  {
    [VERSION, CMD_CONNECT, h.rsv] + EncodeAddress(h.address) + PortBytes(h.port)
  }

  function EncodeHello(h: Hello): seq<Byte>
    requires Sendable(h)
  {
    EncodeGreeting(h.methods) + EncodeRequest(h)
  }

  /** A reply: version, code, reserved, IPv4 address and port. */
  function Reply(rep: Byte, address: seq<Byte>, port: nat): seq<Byte>
    requires port < 0x1_0000
  {
    [VERSION, rep, 0, ATYP_IPV4] + address + PortBytes(port)
  }

  const ANY_ADDRESS: seq<Byte> := [0, 0, 0, 0]

  // -------------------------------------------------------------- reading a request, as a function of the bytes

  /** How far a stream takes the handshake: it ends or starts wrong without an answer to the request, it is
      answered with an error, or it asks for a connection and leaves `rest`. */
  datatype Asked =
    | Cut(greeted: bool)
    | Answered(rep: Byte)
    | Connect(methods: seq<Byte>, rsv: Byte, address: Address, port: nat, rest: seq<Byte>)

  /** The first n bytes and what follows them. */
  function Split(s: seq<Byte>, n: nat): (r: Option<(seq<Byte>, seq<Byte>)>)
    ensures r.Some? <==> n <= |s|
    ensures r.Some? ==> s == r.value.0 + r.value.1 && |r.value.0| == n
  {
    if n <= |s| then Some((s[..n], s[n..])) else None
  }

  datatype Dest = NoDest | BadType | Dest(address: Address, rest: seq<Byte>)

  function ParseAddress(atyp: Byte, s: seq<Byte>): Dest {
    if atyp == ATYP_IPV4 then
      (match Split(s, 4) case None => NoDest case Some(p) => Dest(Ipv4(p.0), p.1))
    else if atyp == ATYP_DOMAIN then
      (match Split(s, 1) case None => NoDest
       case Some(l) => match Split(l.1, l.0[0]) case None => NoDest case Some(p) => Dest(Domain(p.0), p.1))
    else if atyp == ATYP_IPV6 then
      (match Split(s, 16) case None => NoDest case Some(p) => Dest(Ipv6(p.0), p.1))
    else BadType
  }

  function ParseRequest(methods: seq<Byte>, s: seq<Byte>): Asked {
    match Split(s, 4)
    case None => Cut(true)
    case Some(h) =>
      if h.0[0] != VERSION || h.0[1] != CMD_CONNECT then Answered(REP_NOT_ALLOWED)
      else match ParseAddress(h.0[3], h.1)
           case NoDest => Cut(true)
           case BadType => Answered(REP_FAILURE)
           case Dest(address, rest) =>
             match Split(rest, 2)
             case None => Cut(true)
             case Some(p) => Connect(methods, h.0[2], address, PortOf(p.0), p.1)
  }

  function Parse(s: seq<Byte>): Asked {
    match Split(s, 2)
    case None => Cut(false)
    case Some(h) =>
      if h.0[0] != VERSION then Cut(false)
      else match Split(h.1, h.0[1])
           case None => Cut(false)
           case Some(m) => ParseRequest(m.0, m.1)
  }

  // -------------------------------------------------------------- the two are inverse

  lemma SplitAt(a: seq<Byte>, b: seq<Byte>)
    ensures Split(a + b, |a|) == Some((a, b))
  {
  }

  lemma AddressRoundTrip(a: Address, rest: seq<Byte>)
    requires WellSized(a)
    ensures var e := EncodeAddress(a); e != [] && ParseAddress(e[0], e[1..] + rest) == Dest(a, rest)
  {
    match a
    case Ipv4(bytes) =>
      assert EncodeAddress(a)[1..] == bytes;
      SplitAt(bytes, rest);
    case Ipv6(bytes) =>
      assert EncodeAddress(a)[1..] == bytes;
      SplitAt(bytes, rest);
    case Domain(name) =>
      var l: Byte := |name|;
      assert EncodeAddress(a)[1..] + rest == [l] + (name + rest);
      SplitAt([l], name + rest);
      SplitAt(name, rest);
  }

  lemma RequestShape(h: Hello, e: seq<Byte>, payload: seq<Byte>)
    requires Sendable(h) && e == EncodeAddress(h.address) && e != []
    ensures EncodeRequest(h) + payload == [VERSION, CMD_CONNECT, h.rsv, e[0]] + (e[1..] + (PortBytes(h.port) + payload))
  {
  }

  lemma RequestRoundTrip(h: Hello, payload: seq<Byte>)
    requires Sendable(h)
    ensures ParseRequest(h.methods, EncodeRequest(h) + payload) == Connect(h.methods, h.rsv, h.address, h.port, payload)
  {
    var e := EncodeAddress(h.address);
    var tail := PortBytes(h.port) + payload;
    AddressRoundTrip(h.address, tail);
    RequestShape(h, e, payload);
    SplitAt([VERSION, CMD_CONNECT, h.rsv, e[0]], e[1..] + tail);
    SplitAt(PortBytes(h.port), payload);
  }

  /** Whatever a client encodes is recovered, and exactly those bytes are consumed. */
  lemma HelloRoundTrip(h: Hello, payload: seq<Byte>)
    requires Sendable(h)
    ensures Parse(EncodeHello(h) + payload) == Connect(h.methods, h.rsv, h.address, h.port, payload)
  {
    var n: Byte := |h.methods|;
    var after := EncodeRequest(h) + payload;
    assert EncodeHello(h) + payload == [VERSION, n] + (h.methods + after);
    SplitAt([VERSION, n], h.methods + after);
    SplitAt(h.methods, after);
    RequestRoundTrip(h, payload);
  }

  lemma AddressSound(atyp: Byte, s: seq<Byte>)
    ensures match ParseAddress(atyp, s)
            case Dest(a, rest) => WellSized(a) && [atyp] + s == EncodeAddress(a) + rest
            case _ => true
  {
  }

  lemma PortSound(b: seq<Byte>)
    requires |b| == 2
    ensures PortOf(b) < 0x1_0000 && PortBytes(PortOf(b)) == b
  {
  }

  lemma RequestBytes(header: seq<Byte>, after: seq<Byte>, a: Address, port: seq<Byte>, rest: seq<Byte>)
    requires |header| == 4 && header[0] == VERSION && header[1] == CMD_CONNECT && WellSized(a)
    requires [header[3]] + after == EncodeAddress(a) + (port + rest)
    ensures header + after == [VERSION, CMD_CONNECT, header[2]] + EncodeAddress(a) + port + rest
  {
    assert header == [VERSION, CMD_CONNECT, header[2]] + [header[3]];
    assert header + after == [VERSION, CMD_CONNECT, header[2]] + ([header[3]] + after);
  }

  lemma RequestSound(methods: seq<Byte>, s: seq<Byte>)
    requires |methods| < 256
    ensures match ParseRequest(methods, s)
            case Connect(ms, rsv, address, port, rest) =>
              var h := Hello(methods, rsv, address, port);
              ms == methods && Sendable(h) && s == EncodeRequest(h) + rest
            case _ => true
  {
    if ParseRequest(methods, s).Connect? {
      var q := Split(s, 4).value;
      AddressSound(q.0[3], q.1);
      var d := ParseAddress(q.0[3], q.1);
      var p := Split(d.rest, 2).value;
      PortSound(p.0);
      RequestBytes(q.0, q.1, d.address, p.0, p.1);
    }
  }

  lemma GreetingSound(header: seq<Byte>, after: seq<Byte>, methods: seq<Byte>, rest: seq<Byte>)
    requires |header| == 2 && header[0] == VERSION && |methods| == header[1] && after == methods + rest
    ensures header + after == EncodeGreeting(methods) + rest
  {
  }

  /** And nothing else is taken for a connection request: the stream is the encoding of what was read. */
  lemma ParseSound(s: seq<Byte>)
    ensures match Parse(s)
            case Connect(methods, rsv, address, port, rest) =>
              var h := Hello(methods, rsv, address, port);
              Sendable(h) && s == EncodeHello(h) + rest
            case _ => true
  {
    if Parse(s).Connect? {
      var g := Split(s, 2).value;
      var m := Split(g.1, g.0[1]).value;
      RequestSound(m.0, m.1);
      var c := ParseRequest(m.0, m.1);
      GreetingSound(g.0, g.1, m.0, m.1);
      assert s == EncodeGreeting(m.0) + (EncodeRequest(Hello(m.0, c.rsv, c.address, c.port)) + c.rest);
    }
  }

  // -------------------------------------------------------------- the bytes of section 4

  /** The address type and address of a request, byte for byte. */
  ghost predicate AddressBytes(a: Address, b: seq<Byte>) {
    match a
    case Ipv4(bytes) => |bytes| == 4 && b == [1] + bytes
    case Domain(name) => |name| < 256 && b == [3, |name|] + name
    case Ipv6(bytes) => |bytes| == 16 && b == [4] + bytes
  }

  /** A greeting and a CONNECT request for `address` and `port`, with `rest` behind. */
  ghost predicate AsksFor(s: seq<Byte>, methods: seq<Byte>, rsv: Byte, address: Address, port: nat, rest: seq<Byte>) {
    && |methods| < 256 && port < 0x1_0000
    && exists b :: AddressBytes(address, b)
                   && s == [5, |methods|] + methods + [5, 1, rsv] + b + [port / 256, port % 256] + rest
  }

  /** A stream is a connection request exactly when it has that layout. */
  lemma ConnectIff(s: seq<Byte>, methods: seq<Byte>, rsv: Byte, address: Address, port: nat, rest: seq<Byte>)
    ensures Parse(s) == Connect(methods, rsv, address, port, rest) <==> AsksFor(s, methods, rsv, address, port, rest)
  {
    var h := Hello(methods, rsv, address, port);
    ParseSound(s);
    if Sendable(h) {
      HelloRoundTrip(h, rest);
      HelloBytes(h, rest);
    }
  }

  lemma HelloBytes(h: Hello, rest: seq<Byte>)
    requires Sendable(h)
    ensures forall b :: AddressBytes(h.address, b) <==> b == EncodeAddress(h.address)
    ensures EncodeHello(h) + rest == [5, |h.methods|] + h.methods + [5, 1, h.rsv] + EncodeAddress(h.address)
                                     + [h.port / 256, h.port % 256] + rest
  {
  }

  /** The stream starts with a whole greeting. */
  ghost predicate Greets(s: seq<Byte>, methods: seq<Byte>) { |methods| < 256 && [5, |methods|] + methods <= s }

  /** A greeting and the four bytes a request starts with. */
  ghost predicate Begins(s: seq<Byte>, methods: seq<Byte>, v: Byte, cmd: Byte, rsv: Byte, atyp: Byte) {
    |methods| < 256 && [5, |methods|] + methods + [v, cmd, rsv, atyp] <= s
  }

  /** What the first bytes of a request decide: a wrong version or command is answered with code 2, otherwise an
      address type that is none of 1, 3 and 4 with code 1, and all else is a connection request or cut off. */
  lemma BeginningDecides(s: seq<Byte>, methods: seq<Byte>, v: Byte, cmd: Byte, rsv: Byte, atyp: Byte)
    requires Begins(s, methods, v, cmd, rsv, atyp)
    ensures Parse(s) == Answered(2) <==> v != 5 || cmd != 1
    ensures Parse(s) == Answered(1) <==> v == 5 && cmd == 1 && atyp !in {1, 3, 4}
    ensures Parse(s) == Cut(true) || Parse(s).Connect? <==> v == 5 && cmd == 1 && atyp in {1, 3, 4}
  {
    var n: Byte := |methods|;
    var rest := s[6 + n..];
    assert s == EncodeGreeting(methods) + ([v, cmd, rsv, atyp] + rest);
    GreetingRead(methods, [v, cmd, rsv, atyp] + rest);
    SplitAt([v, cmd, rsv, atyp], rest);
  }

  /** The greeting is answered exactly when it is whole. */
  lemma GreetedIff(s: seq<Byte>)
    ensures Parse(s) != Cut(false) <==> exists methods :: Greets(s, methods)
    ensures Parse(s) != Cut(false) ==> |s| >= 2 && s[1] <= |s| - 2 && Greets(s, s[2..][..s[1]])
  {
    if Parse(s) != Cut(false) {
      assert Greets(s, s[2..][..s[1]]);
    }
    if methods :| Greets(s, methods) {
      var n: Byte := |methods|;
      assert s == EncodeGreeting(methods) + s[2 + n..];
      GreetingRead(methods, s[2 + n..]);
    }
  }

  /** A stream without that beginning is cut off. */
  lemma WithoutBeginning(s: seq<Byte>)
    requires forall methods, v, cmd, rsv, atyp :: !Begins(s, methods, v, cmd, rsv, atyp)
    ensures Parse(s).Cut?
  {
    GreetedIff(s);
    if Parse(s) != Cut(false) {
      var n: nat := s[1];
      var at := 2 + n;
      if |s| >= at + 4 {
        assert Begins(s, s[2..][..s[1]], s[at], s[at + 1], s[at + 2], s[at + 3]);
      }
    }
  }

  lemma GreetingRead(methods: seq<Byte>, rest: seq<Byte>)
    requires |methods| < 256
    ensures Parse(EncodeGreeting(methods) + rest) == ParseRequest(methods, rest)
  {
    var n: Byte := |methods|;
    assert EncodeGreeting(methods) + rest == [VERSION, n] + (methods + rest);
    SplitAt([VERSION, n], methods + rest);
    SplitAt(methods, rest);
  }

  // -------------------------------------------------------------- the handshake

  /** What opening the outgoing connection came to. */
  datatype Dial = Opened | TimedOut | Refused | Unreachable

  function DialReply(d: Dial): Byte {
    match d
    case Opened => REP_SUCCESS
    case TimedOut => REP_HOST_UNREACH
    case Refused => REP_REFUSED
    case Unreachable => REP_NET_UNREACH
  }

  /** All bytes the client is sent before any relaying; `local` are the bytes of the bound IPv4 address. */
  function Sent(asked: Asked, d: Dial, local: seq<Byte>): seq<Byte> {
    match asked
    case Cut(greeted) => if greeted then [VERSION, AUTH_NONE] else []
    case Answered(rep) => [VERSION, AUTH_NONE] + Reply(rep, ANY_ADDRESS, 0)
    case Connect(_, _, _, _, _) => [VERSION, AUTH_NONE] + Reply(DialReply(d),
        if d == Opened then local else ANY_ADDRESS, 0)
  }

  /** Every byte the client is sent: the choice of "no authentication" once the greeting is read, and the reply of
      section 6, with the bound address after success (code 0) and 0.0.0.0 after an error: 4 when the dial timed
      out, 5 when it was refused, 3 for any other failure. */
  lemma SentBytes(asked: Asked, d: Dial, local: seq<Byte>)
    ensures asked.Cut? ==> Sent(asked, d, local) == if asked.greeted then [5, 0] else []
    ensures asked.Answered? ==> Sent(asked, d, local) == [5, 0, 5, asked.rep, 0, 1, 0, 0, 0, 0, 0, 0]
    ensures asked.Connect? ==>
              match d
              case Opened => Sent(asked, d, local) == [5, 0, 5, 0, 0, 1] + local + [0, 0]
              case TimedOut => Sent(asked, d, local) == [5, 0, 5, 4, 0, 1, 0, 0, 0, 0, 0, 0]
              case Refused => Sent(asked, d, local) == [5, 0, 5, 5, 0, 1, 0, 0, 0, 0, 0, 0]
              case Unreachable => Sent(asked, d, local) == [5, 0, 5, 3, 0, 1, 0, 0, 0, 0, 0, 0]
  {
  }

  /** The method choice section 3 asks of a server that only knows "no authentication". */
  const NO_METHOD: Byte := 0xFF

  function RfcChoice(methods: seq<Byte>): seq<Byte> {
    [VERSION, if AUTH_NONE in methods then AUTH_NONE else NO_METHOD]
  }

  /** Whatever follows the greeting, the answer begins with the choice section 3 asks for exactly when the
      client offered "no authentication". */
  lemma ChoiceIsRightIffOffered(methods: seq<Byte>, rest: seq<Byte>, d: Dial, local: seq<Byte>)
    requires |methods| < 256
    ensures RfcChoice(methods) <= Sent(Parse(EncodeGreeting(methods) + rest), d, local) <==> AUTH_NONE in methods
  {
    GreetingRead(methods, rest);
    var sent := Sent(ParseRequest(methods, rest), d, local);
    assert sent[..2] == [VERSION, AUTH_NONE];
    assert RfcChoice(methods) <= sent <==> RfcChoice(methods) == sent[..2];
    assert RfcChoice(methods)[1] == [VERSION, AUTH_NONE][1] <==> AUTH_NONE in methods;
  }

  /** The code section 6 asks for when the command is not supported. */
  const REP_COMMAND_UNSUPPORTED: Byte := 7

  /** The code section 6 gives for an unsupported command is sent for one, and for nothing else. */
  predicate RfcAnswer(cmd: Byte, sent: seq<Byte>) {
    (|sent| > 3 && sent[3] == REP_COMMAND_UNSUPPORTED) <==> cmd != CMD_CONNECT
  }

  /** A request is answered with code 2 exactly when its version or its command is not the supported one, so the
      answer is the one section 6 asks for exactly when the command is CONNECT. */
  lemma AnswerIsRightIffConnect(methods: seq<Byte>, v: Byte, cmd: Byte, rsv: Byte, atyp: Byte, rest: seq<Byte>, d: Dial,
                                local: seq<Byte>)
    requires |methods| < 256
    ensures var asked := Parse(EncodeGreeting(methods) + ([v, cmd, rsv, atyp] + rest));
            && (asked == Answered(REP_NOT_ALLOWED) <==> v != VERSION || cmd != CMD_CONNECT)
            && (RfcAnswer(cmd, Sent(asked, d, local)) <==> cmd == CMD_CONNECT)
  {
    GreetingRead(methods, [v, cmd, rsv, atyp] + rest);
    SplitAt([v, cmd, rsv, atyp], rest);
  }

  datatype Got = NoBytes | BadKind | Got(address: Address)

  /** What a reader comes to when its bytes are parsed as `d`. */
  ghost predicate GotAs(g: Got, d: Dest, left: seq<Byte>) {
    match d
    case NoDest => g == NoBytes
    case BadType => g == BadKind
    case Dest(a, rest) => g == Got(a) && left == rest
  }

  method ReadDomain(reader: StreamReader) returns (g: Got)
    modifies reader
    ensures GotAs(g, ParseAddress(ATYP_DOMAIN, old(reader.Pending())), reader.Pending())
  {
    var length := reader.ReadExactly(1);
    if length == None { return NoBytes; }
    var name := reader.ReadExactly(length.value[0]);
    g := if name == None then NoBytes else Got(Domain(name.value));
  }

  method ReadAddress(reader: StreamReader, atyp: Byte) returns (g: Got)
    modifies reader
    ensures GotAs(g, ParseAddress(atyp, old(reader.Pending())), reader.Pending())
  {
    if atyp == ATYP_DOMAIN {
      g := ReadDomain(reader);
    } else if atyp == ATYP_IPV4 || atyp == ATYP_IPV6 {
      var b := reader.ReadExactly(if atyp == ATYP_IPV4 then 4 else 16);
      g := if b == None then NoBytes else if atyp == ATYP_IPV4 then Got(Ipv4(b.value)) else Got(Ipv6(b.value));
    } else {
      g := BadKind;
    }
  }

  /** A request as read: cut off, to be answered with an error, or a destination. */
  datatype Read = Ended | Wrong(rep: Byte) | Wants(address: Address, port: nat)

  ghost predicate ReadAs(r: Read, asked: Asked, left: seq<Byte>) {
    match asked
    case Cut(_) => r == Ended
    case Answered(rep) => r == Wrong(rep)
    case Connect(_, _, a, p, rest) => r == Wants(a, p) && left == rest
  }

  method ReadPort(reader: StreamReader) returns (p: Option<nat>)
    modifies reader
    ensures match Split(old(reader.Pending()), 2)
            case None => p == None
            case Some(q) => p == Some(PortOf(q.0)) && reader.Pending() == q.1
  {
    var b := reader.ReadExactly(2);
    p := if b == None then None else Some(PortOf(b.value));
  }

  method ReadRequest(reader: StreamReader, ghost methods: seq<Byte>) returns (r: Read)
    modifies reader
    ensures ReadAs(r, ParseRequest(methods, old(reader.Pending())), reader.Pending())
  {
    var header := reader.ReadExactly(4);
    if header == None { return Ended; }
    var h := header.value;
    if h[0] != VERSION || h[1] != CMD_CONNECT { return Wrong(REP_NOT_ALLOWED); }
    var g := ReadAddress(reader, h[3]);
    if g == BadKind { return Wrong(REP_FAILURE); }
    if g == NoBytes { return Ended; }
    var port := ReadPort(reader);
    r := if port == None then Ended else Wants(g.address, port.value);
  }

  /** The greeting; the method list is read and not looked at. */
  method ReadGreeting(reader: StreamReader) returns (ok: bool, ghost methods: seq<Byte>)
    modifies reader
    ensures Parse(old(reader.Pending())) == if ok then ParseRequest(methods, reader.Pending()) else Cut(false)
  {
    methods := [];
    var header := reader.ReadExactly(2);
    if header == None || header.value[0] != VERSION { return false, []; }
    var list := reader.ReadExactly(header.value[1]);
    if list == None { return false, []; }
    ok, methods := true, list.value;
  }

  datatype Outcome = Dropped | Replied(rep: Byte) | Relaying(address: Address, port: nat) | Broken

  /** _send_reply. */
  method SendReply(writer: StreamWriter, rep: Byte, address: seq<Byte>) returns (ok: bool)
    modifies writer`sent, writer`failures
    ensures writer.sent == if ok then old(writer.sent) + Reply(rep, address, 0) else old(writer.sent)
    ensures writer.failures == old(writer.failures) + if ok then 0 else 1
  {
    ok := writer.Write(Reply(rep, address, 0));
  }

  /** _socks5_handshake up to the relay. `dial` is what connecting came to; for any chunking of the client's
      bytes the answer is a function of the bytes alone. */
  method Handshake(reader: StreamReader, writer: StreamWriter, local: seq<Byte>, dial: Dial) returns (out: Outcome)
    requires writer.sent == []
    modifies reader, writer
    ensures out.Broken? <==> writer.failures > old(writer.failures)
    ensures out.Broken? ==> writer.sent <= Sent(Parse(old(reader.Pending())), dial, local)
    ensures !out.Broken? ==> writer.sent == Sent(Parse(old(reader.Pending())), dial, local)
    ensures match Parse(old(reader.Pending()))
            case Cut(_) => out.Dropped? || out.Broken?
            case Answered(rep) => out == Replied(rep) || out.Broken?
            case Connect(_, _, a, p, rest) =>
              out.Broken? || (if dial == Opened then out == Relaying(a, p) && reader.Pending() == rest
                              else out == Replied(DialReply(dial)))
  {
    ghost var stream := reader.Pending();
    var greeted;
    ghost var methods;
    greeted, methods := ReadGreeting(reader);
    if !greeted {
      writer.Close();
      return Dropped;
    }
    ghost var asked := ParseRequest(methods, reader.Pending());
    var ok := writer.Write([VERSION, AUTH_NONE]);
    if !ok { return Broken; }
    var r := ReadRequest(reader, methods);
    out := Answer(reader, writer, local, dial, r, asked);
  }

  method Answer(reader: StreamReader, writer: StreamWriter, local: seq<Byte>, dial: Dial, r: Read, ghost asked: Asked)
    returns (out: Outcome)
    requires writer.sent == [VERSION, AUTH_NONE] && ReadAs(r, asked, reader.Pending()) && asked != Cut(false)
    modifies writer
    ensures old(writer.failures) <= writer.failures && (out.Broken? <==> writer.failures > old(writer.failures))
    ensures out.Broken? ==> writer.sent <= Sent(asked, dial, local)
    ensures !out.Broken? ==> writer.sent == Sent(asked, dial, local)
    ensures match asked
            case Cut(_) => out.Dropped?
            case Answered(rep) => out == Replied(rep) || out.Broken?
            case Connect(_, _, a, p, rest) =>
              out.Broken? || (if dial == Opened then out == Relaying(a, p) && reader.Pending() == rest
                              else out == Replied(DialReply(dial)))
  {
    match r
    case Ended => out := Dropped;
    case Wrong(rep) =>
      var ok := SendReply(writer, rep, ANY_ADDRESS);
      out := if ok then Replied(rep) else Broken;
    case Wants(address, port) =>
      var ok := SendReply(writer, DialReply(dial), if dial == Opened then local else ANY_ADDRESS);
      out := if !ok then Broken else if dial == Opened then Relaying(address, port) else Replied(DialReply(dial));
  }

  /** A client that encodes a destination is connected to that destination, with exactly its payload left for
      the relay, whatever the chunks were. */
  method ConnectsWhereAsked(h: Hello, payload: seq<Byte>, chunks: seq<seq<Byte>>, local: seq<Byte>)
      returns (out: Outcome, reader: StreamReader)
    requires Sendable(h) && Joined(chunks) == EncodeHello(h) + payload
    ensures out == Broken || (out == Relaying(h.address, h.port) && reader.Pending() == payload)
  {
    HelloRoundTrip(h, payload);
    reader := new StreamReader(chunks);
    var writer := new StreamWriter();
    out := Handshake(reader, writer, local, Opened);
  }

  // -------------------------------------------------------------- one relay

  lemma Regroup(a: seq<Byte>, b: seq<Byte>, c: seq<Byte>)
    ensures (a + b) + c == a + (b + c)
  {
  }

  /** Write one chunk and read the next. */
  method PassOn(src: StreamReader, dst: StreamWriter, data: seq<Byte>)
    returns (next: seq<Byte>, failed: bool, ghost wrote: bool)
    modifies src, dst`sent, dst`failures
    ensures next + src.Pending() == old(src.Pending()) && (failed ==> next == [])
    ensures dst.sent == (if wrote then old(dst.sent) + data else old(dst.sent)) && (!wrote ==> failed)
    ensures dst.failures == old(dst.failures) + if wrote then 0 else 1
    ensures src.errors == old(src.errors) + if failed && wrote then 1 else 0
    ensures !failed && next == [] ==> src.Pending() == []
  {
    var ok := dst.Write(data);
    wrote := ok;
    if ok {
      next, failed := src.Receive(CHUNK);
    } else {
      next, failed := [], true;
    }
  }

  /** _relay: pipe until the source ends, a read raises or a write fails, then close the destination. What is
      written is always a prefix of what was read, which is a prefix of what was there. */
  method Relay(src: StreamReader, dst: StreamWriter) returns (ghost read: seq<Byte>, ghost put: seq<Byte>, failed: bool)
    modifies src, dst
    ensures dst.closed && old(src.Pending()) == read + src.Pending() && dst.sent == old(dst.sent) + put && put <= read
    ensures failed <==> dst.failures > old(dst.failures) || src.errors > old(src.errors)
    ensures dst.failures == old(dst.failures) ==> put == read
    ensures !failed ==> put == read == old(src.Pending())
  {
    read, put := [], [];
    var data;
    data, failed := src.Receive(CHUNK);
    while data != []
      invariant old(src.Pending()) == read + (data + src.Pending())
      invariant dst.sent == old(dst.sent) + put && put <= read && (dst.failures == old(dst.failures) ==> put == read)
      invariant old(dst.failures) <= dst.failures && old(src.errors) <= src.errors
      invariant failed <==> dst.failures > old(dst.failures) || src.errors > old(src.errors)
      invariant failed ==> data == []
      invariant !failed && data == [] ==> src.Pending() == []
      decreases |src.Pending()| + |data|
    {
      ghost var chunk, rest := data, src.Pending();
      ghost var wrote;
      data, failed, wrote := PassOn(src, dst, data);
      Regroup(read, chunk, rest);
      Regroup(old(dst.sent), put, chunk);
      read := read + chunk;
      put := if wrote then put + chunk else put;
    }
    dst.Close();
  }

  // -------------------------------------------------------------- both relays, interleaved

  datatype Phase = Reading | Writing | Finished

  /** One direction: bytes still to come, bytes read, the chunk between read and write, bytes written. `cut`:
      the source was lost before its end; `failed`: a write failed. */
  datatype Pump = Pump(source: seq<Byte>, read: seq<Byte>, chunk: seq<Byte>, put: seq<Byte>, phase: Phase,
                       cut: bool, failed: bool)

  /** Towards the server and towards the client. */
  datatype Pair = Pair(up: Pump, down: Pump)

  function Start(source: seq<Byte>): Pump { Pump(source, [], [], [], Reading, false, false) }

  /** The steps of one pump between two awaits; losing the source is possible at a read, and at any time once
      the other pump has finished and closed the shared connection. */
  datatype Step = ReadSome(n: nat) | ReadEnd | Lost | WriteAll | WriteFails

  ghost predicate Enabled(p: Pump, otherFinished: bool, s: Step) {
    match s
    case ReadSome(n) => p.phase == Reading && 0 < n <= |p.source| && n <= CHUNK
    case ReadEnd => p.phase == Reading && p.source == []
    case Lost => p.phase != Finished && !p.cut && (p.phase == Reading || otherFinished)
    case WriteAll => p.phase == Writing
    case WriteFails => p.phase == Writing
  }

  function Next(p: Pump, s: Step): Pump {
    match s
    case ReadSome(n) =>
      if n > |p.source| then p
      else p.(source := p.source[n..], read := p.read + p.source[..n], chunk := p.source[..n], phase := Writing)
    case ReadEnd => p.(phase := Finished)
    case Lost => p.(source := [], cut := true)
    case WriteAll => p.(put := p.put + p.chunk, chunk := [], phase := Reading)
    case WriteFails => p.(phase := Finished, failed := true)
  }

  /** One step of either pump. */
  ghost predicate Moves(a: Pair, b: Pair) {
    || (exists s :: Enabled(a.up, a.down.phase == Finished, s) && b == a.(up := Next(a.up, s)))
    || (exists s :: Enabled(a.down, a.up.phase == Finished, s) && b == a.(down := Next(a.down, s)))
  }

  ghost predicate IsRun(run: seq<Pair>, client: seq<Byte>, server: seq<Byte>) {
    run != [] && run[0] == Pair(Start(client), Start(server))
    && forall i | 0 <= i < |run| - 1 :: Moves(run[i], run[i + 1])
  }

  /** What was written and what is in hand are what was read; what was read is a prefix of the stream. */
  ghost predicate Faithful(p: Pump, stream: seq<Byte>) {
    && p.read <= stream && (if p.cut then p.source == [] else stream == p.read + p.source)
    && p.read == p.put + p.chunk
    && (p.phase == Reading ==> p.chunk == [])
    && (p.phase == Finished ==> p.failed || (p.chunk == [] && p.source == []))
  }

  lemma StepKeepsFaithful(p: Pump, other: bool, s: Step, stream: seq<Byte>)
    requires Faithful(p, stream) && Enabled(p, other, s)
    ensures Faithful(Next(p, s), stream)
  {
  }

  lemma {:induction false} RunIsFaithful(run: seq<Pair>, client: seq<Byte>, server: seq<Byte>, i: nat)
    requires IsRun(run, client, server) && i < |run|
    ensures Faithful(run[i].up, client) && Faithful(run[i].down, server)
    decreases i
  {
    if i > 0 {
      RunIsFaithful(run, client, server, i - 1);
      var a, b := run[i - 1], run[i - 1 + 1];
      assert Moves(a, b);
      if s :| Enabled(a.up, a.down.phase == Finished, s) && b == a.(up := Next(a.up, s)) {
        StepKeepsFaithful(a.up, a.down.phase == Finished, s, client);
      } else {
        var s :| Enabled(a.down, a.up.phase == Finished, s) && b == a.(down := Next(a.down, s));
        StepKeepsFaithful(a.down, a.up.phase == Finished, s, server);
      }
    }
  }

  /** Under any interleaving: each way, the bytes written are a prefix of the bytes read and of the stream; a
      pump that finished without a failed write has written all it read, and the whole stream if its source
      was not lost. */
  lemma RelaysAreFaithful(run: seq<Pair>, client: seq<Byte>, server: seq<Byte>, i: nat)
    requires IsRun(run, client, server) && i < |run|
    ensures run[i].up.put <= run[i].up.read <= client && run[i].down.put <= run[i].down.read <= server
    ensures run[i].up.phase == Finished && !run[i].up.failed ==>
              run[i].up.put == run[i].up.read && (!run[i].up.cut ==> run[i].up.put == client)
    ensures run[i].down.phase == Finished && !run[i].down.failed ==>
              run[i].down.put == run[i].down.read && (!run[i].down.cut ==> run[i].down.put == server)
  {
    RunIsFaithful(run, client, server, i);
  }

  // Every step uses up something, so every run ends: no run is longer than the two streams allow.

  function Left(p: Pump): nat {
    2 * |p.source| + (match p.phase case Reading => 1 case Writing => 2 case Finished => 0) + if p.cut then 0 else 1
  }

  lemma StepUsesUp(a: Pair, b: Pair)
    requires Moves(a, b)
    ensures Left(b.up) + Left(b.down) < Left(a.up) + Left(a.down)
  {
  }

  lemma {:induction false} RunsEnd(run: seq<Pair>, client: seq<Byte>, server: seq<Byte>, i: nat)
    requires IsRun(run, client, server) && i < |run|
    ensures i + Left(run[i].up) + Left(run[i].down) <= 2 * |client| + 2 * |server| + 4
    decreases i
  {
    if i > 0 {
      RunsEnd(run, client, server, i - 1);
      assert Moves(run[i - 1], run[i - 1 + 1]);
      StepUsesUp(run[i - 1], run[i]);
    }
  }

  /** And it does not get stuck before both have finished. */
  lemma NeverStuck(a: Pair, client: seq<Byte>, server: seq<Byte>)
    requires Faithful(a.up, client) && Faithful(a.down, server) && !(a.up.phase == Finished && a.down.phase == Finished)
    ensures exists b :: Moves(a, b)
  {
    var p, other := if a.up.phase != Finished then a.up else a.down, if a.up.phase != Finished then a.down else a.up;
    var s := if p.phase == Writing then WriteAll else if p.source == [] then ReadEnd else ReadSome(1);
    assert Enabled(p, other.phase == Finished, s);
    assert Moves(a, if a.up.phase != Finished then a.(up := Next(p, s)) else a.(down := Next(p, s)));
  }

  // -------------------------------------------------------------- the registry

  class Server {
    const ip: string
    var port: nat
    var running: bool

    constructor (ip: string)
      ensures this.ip == ip && !running && port == 0
    {
      this.ip, port, running := ip, 0, false;
    }

    /** start: the system picks a free port; 0 means that listening failed. */
    method Launch() returns (ok: bool)
      modifies this
      ensures ok == (port != 0) && running == ok
    {
      port := *;
      ok := port != 0;
      running := ok;
    }

    method Halt()
      modifies this`running
      ensures !running
    {
      running := false;
    }
  }

  class ProxyRegistry {
    var proxies: map<string, Server>
    /** Servers that could not listen. */
    ghost var failures: nat

    /** One running server per address, each for its own address and no other. */
    ghost predicate Valid()
      reads this, proxies.Values
    {
      (forall ip | ip in proxies :: proxies[ip].ip == ip && proxies[ip].running)
      && forall a, b | a in proxies && b in proxies && a != b :: proxies[a] != proxies[b]
    }

    constructor ()
      ensures Valid() && proxies == map[]
    {
      proxies, failures := map[], 0;
    }

    /** get_or_start: the port of the running proxy, started only if there is none. */
    method GetOrStart(ip: string) returns (port: Option<nat>)
      requires Valid()
      modifies this
      ensures Valid()
      ensures ip in old(proxies) ==> proxies == old(proxies) && port == Some(proxies[ip].port)
      ensures ip !in old(proxies) && port.Some? ==>
                ip in proxies && proxies == old(proxies)[ip := proxies[ip]] && fresh(proxies[ip])
                    && port == Some(proxies[ip].port)
      ensures port == None ==> proxies == old(proxies)
      ensures failures == old(failures) + if port == None then 1 else 0
    {
      if ip !in proxies {
        var server := new Server(ip);
        var ok := server.Launch();
        if !ok {
          failures := failures + 1;
          return None;
        }
        proxies := proxies[ip := server];
      }
      port := Some(proxies[ip].port);
    }

    /** stop_for_ip: that server stops, the others keep running. */
    method StopFor(ip: string)
      requires Valid()
      modifies this, proxies.Values
      ensures Valid() && proxies == old(proxies) - {ip}
      ensures ip in old(proxies) ==> !old(proxies[ip]).running
    {
      if ip in proxies {
        var server := proxies[ip];
        proxies := proxies - {ip};
        server.Halt();
      }
    }

    /** stop_all. */
    method StopAll()
      requires Valid()
      modifies this, proxies.Values
      ensures Valid() && proxies == map[]
      ensures forall s | s in old(proxies.Values) :: !s.running
    {
      var todo := proxies.Keys;
      while todo != {}
        invariant proxies == old(proxies) && todo <= proxies.Keys
        invariant forall ip | ip in proxies && ip !in todo :: !proxies[ip].running
        decreases todo
      {
        var ip :| ip in todo;
        proxies[ip].Halt();
        todo := todo - {ip};
      }
      proxies := map[];
    }
  }
}
