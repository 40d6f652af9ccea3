/** The SOCKS5 upstream client: method negotiation (section 3 of RFC 1928),
    username/password sub-negotiation (section 2 of RFC 1929), the CONNECT
    request with a domain-name address (sections 4 and 5 of RFC 1928), and the
    reply whose bound address is read and discarded (section 6 of RFC 1928). */
module Socks5Upstream {
  import opened Text
  import opened Net

  const VERSION: byte := 0x05
  const METHOD_NO_AUTH: byte := 0x00
  const METHOD_USERNAME_PASSWORD: byte := 0x02
  const NO_ACCEPTABLE_METHODS: byte := 0xFF
  const CMD_CONNECT: byte := 0x01
  const ATYP_IPV4: byte := 0x01
  const ATYP_DOMAIN: byte := 0x03
  const ATYP_IPV6: byte := 0x04
  const AUTH_VERSION: byte := 0x01

  datatype Socks5Client = Socks5Client(proxyHost: string, proxyPort: int32, username: string, password: string)

  /** Username/password authentication is offered when either credential is non-empty. */
  predicate OffersAuth(c: Socks5Client) {
    c.username != "" || c.password != ""
  }

  /** The constructor: a null username or password is stored as "". */
  function NewSocks5Client(proxyHost: string, proxyPort: int32, username: Option<string>, password: Option<string>): (c: Socks5Client)
    ensures c.proxyHost == proxyHost && c.proxyPort == proxyPort
    ensures username.Some? ==> c.username == username.value
    ensures password.Some? ==> c.password == password.value
    ensures OffersAuth(c) <==> (username.Some? && username.value != "") || (password.Some? && password.value != "")
  {
    Socks5Client(proxyHost, proxyPort, username.GetOr(""), password.GetOr(""))
  }

  // ------------------------------------------------------------------ frames

  /** The version/method-selection message, offering exactly one method. */
  function Greeting(useAuth: bool): seq<byte> {
    [VERSION, 1, if useAuth then METHOD_USERNAME_PASSWORD else METHOD_NO_AUTH]
  }

  function AuthRequest(user: seq<byte>, pass: seq<byte>): seq<byte>
    requires |user| <= 255 && |pass| <= 255
  {
    [AUTH_VERSION, |user|] + user + [|pass|] + pass
  }

  /** How an RFC 1929 server reads a username/password request. */
  function ParseAuthRequest(m: seq<byte>): Option<(seq<byte>, seq<byte>)> {
    if |m| < 3 || m[0] != AUTH_VERSION || |m| < 3 + m[1] as int then None
    else
      var ulen := m[1] as int;
      if |m| != 3 + ulen + m[2 + ulen] as int then None
      else Some((m[2..2 + ulen], m[3 + ulen..]))
  }

  /** The sub-negotiation request carries the credentials intact. */
  lemma AuthRequestRoundTrip(user: seq<byte>, pass: seq<byte>)
    requires |user| <= 255 && |pass| <= 255
    ensures ParseAuthRequest(AuthRequest(user, pass)) == Some((user, pass))
  {
    var m := AuthRequest(user, pass);
    assert m[1] == |user|;
    assert m[2 + |user|] == |pass|;
    assert m[2..2 + |user|] == user;
    assert m[3 + |user|..] == pass;
  }

  /** `(port >> 8) & 0xff` and `port & 0xff` of a Java int: its two low bytes, big-endian. */
  function PortBytes(port: int32): seq<byte> {
    [(port / 256) % 256, port % 256]
  }

  /** The CONNECT request, always with a domain-name address. */
  function ConnectRequest(host: seq<byte>, port: int32): seq<byte>
    requires |host| <= 255
  {
    [VERSION, CMD_CONNECT, 0x00, ATYP_DOMAIN, |host|] + host + PortBytes(port)
  }

  /** How a SOCKS5 server reads a CONNECT request with a domain-name address. */
  function ParseConnectRequest(m: seq<byte>): Option<(seq<byte>, int)> {
    if |m| < 5 || m[..4] != [VERSION, CMD_CONNECT, 0x00, ATYP_DOMAIN] || |m| != 7 + m[4] as int then None
    else
      var hlen := m[4] as int;
      Some((m[5..5 + hlen], (m[5 + hlen] as int) * 256 + m[6 + hlen] as int))
  }

  lemma LowTwoBytes(p: int)
    ensures ((p / 256) % 256) * 256 + p % 256 == p % 65536
  {
    var q, r := p / 256, p % 256;
    var q1, q0 := q / 256, q % 256;
    assert p == 256 * q + r;
    assert q == 256 * q1 + q0;
    assert p == 65536 * q1 + (256 * q0 + r);
    assert 0 <= 256 * q0 + r < 65536;
  }

  /** The server reads back the host bytes and the port modulo 2^16. */
  lemma ConnectRequestRoundTrip(host: seq<byte>, port: int32)
    requires |host| <= 255
    ensures ParseConnectRequest(ConnectRequest(host, port)) == Some((host, port % 65536))
  {
    var m := ConnectRequest(host, port);
    assert m[..4] == [VERSION, CMD_CONNECT, 0x00, ATYP_DOMAIN];
    assert m[4] == |host|;
    assert m[5..5 + |host|] == host;
    LowTwoBytes(port);
  }

  // --------------------------------------------------------- the exchange

  /** The bytes a successful CONNECT reply starting at `at` occupies: the
      4-byte header, then 6 bytes (IPv4 and port), 18 (IPv6 and port), or a
      length byte, that many bytes and the port (domain); a missing length
      byte reads as 255 (`-1 & 0xff`). 0 for an unknown address type. */
  function ReplyLength(data: seq<byte>, at: nat): nat
    requires at + 4 <= |data|
  {
    var atyp := data[at + 3];
    if atyp == ATYP_IPV4 then 4 + 6
    else if atyp == ATYP_DOMAIN then
      (if at + 4 < |data| then 4 + 1 + data[at + 4] as int + 2 else 4 + 255 + 2)
    else if atyp == ATYP_IPV6 then 4 + 18
    else 0
  }

  /** The CONNECT phase, once method negotiation (and authentication) took
      the first `at` reply bytes and `sent` was written. */
  function ConnectPhase(targetHost: string, targetPort: int32, data: seq<byte>, at: nat, sent: seq<byte>): (x: Exchange)
    requires at <= |data|
    ensures at <= x.consumed <= |data|
  {
    var host := Utf8(targetHost);
    if |host| > 255 then Exchange(Failed(HostTooLong), sent, at, false)
    else
      var sent := sent + ConnectRequest(host, targetPort);
      if |data| < at + 4 then Exchange(Failed(UnexpectedEof), sent, |data|, true)
      else if data[at] != VERSION || data[at + 1] != 0x00 then Exchange(Failed(ConnectFailedReply), sent, at + 4, false)
      else
        var total := ReplyLength(data, at);
        if total == 0 then Exchange(Failed(UnknownAddressType), sent, at + 4, false)
        else if |data| < at + total then Exchange(Failed(UnexpectedEof), sent, |data|, true)
        else Exchange(Established, sent, at + total, true)
  }

  /** How method selection (and authentication) ended: refused, or done after
      the first `at` reply bytes with `sent` written so far. */
  datatype Negotiation = Refused(x: Exchange) | Negotiated(at: nat, sent: seq<byte>)

  /** Method selection and, when both sides want it, username/password authentication. */
  function Negotiate(c: Socks5Client, data: seq<byte>): (n: Negotiation)
    ensures n.Refused? ==> n.x.verdict.Failed? && n.x.consumed <= |data|
    ensures n.Negotiated? ==> n.at in {2, 4} && n.at <= |data|
  {
    var useAuth := OffersAuth(c);
    var greeting := Greeting(useAuth);
    if |data| < 2 then Refused(Exchange(Failed(UnexpectedEof), greeting, |data|, true))
    else if data[0] != VERSION then Refused(Exchange(Failed(BadVersion), greeting, 2, false))
    else if data[1] == METHOD_USERNAME_PASSWORD && useAuth then
      var user, pass := Utf8(c.username), Utf8(c.password);
      if |user| > 255 || |pass| > 255 then Refused(Exchange(Failed(CredentialsTooLong), greeting, 2, false))
      else
        var sent := greeting + AuthRequest(user, pass);
        if |data| < 4 then Refused(Exchange(Failed(UnexpectedEof), sent, |data|, true))
        else if data[2] != AUTH_VERSION || data[3] != 0x00 then Refused(Exchange(Failed(AuthFailed), sent, 4, false))
        else Negotiated(4, sent)
    else if data[1] == NO_ACCEPTABLE_METHODS then Refused(Exchange(Failed(NoAcceptableMethod), greeting, 2, false))
    else Negotiated(2, greeting)
  }

  /** The whole handshake on the proxy's reply bytes `data`, as the code is written. */
  function Handshake(c: Socks5Client, targetHost: string, targetPort: int32, data: seq<byte>): (x: Exchange)
    ensures x.consumed <= |data|
  {
    match Negotiate(c, data)
    case Refused(x) => x
    case Negotiated(at, sent) => ConnectPhase(targetHost, targetPort, data, at, sent)
  }

  /** `connect`, including the dial, as a function of what the proxy sends back. */
  function ConnectSpec(c: Socks5Client, dial: Dial, targetHost: string, targetPort: int32): Exchange {
    if dial.Unreachable? then Exchange(Failed(DialFailed), [], 0, false)
    else Handshake(c, targetHost, targetPort, Pending(dial.reply))
  }

  // ------------------------------------------------------------- the code

  /** `readExactly(in, n)`: fills an n-byte buffer read by read, failing as
      soon as a read returns no bytes; it never returns a short buffer. */
  method ReadExactly(input: Stream, n: nat) returns (r: Option<seq<byte>>, rest: Stream)
    ensures n <= |Pending(input)| ==> r == Some(Pending(input)[..n]) && Pending(rest) == Pending(input)[n..]
    ensures n > |Pending(input)| ==> r == None && rest == []
  {
    var buf := new byte[n];
    var off := 0;
    rest := input;
    while off < n
      invariant off <= n && off <= |Pending(input)|
      invariant buf[..off] == Pending(input)[..off]
      invariant Pending(rest) == Pending(input)[off..]
    {
      var got := ReadSome(rest, n - off);
      if |got.0| == 0 {
        return None, got.1;
      }
      forall i | 0 <= i < |got.0| {
        buf[off + i] := got.0[i];
      }
      assert buf[..off + |got.0|] == buf[..off] + got.0;
      off := off + |got.0|;
      rest := got.1;
    }
    assert buf[..] == buf[..off];
    return Some(buf[..]), rest;
  }

  /** `connect` after the dial: the handshake step by step on the socket's
      input stream, writing each frame before reading the answer to it. */
  method Connect(c: Socks5Client, dial: Dial, targetHost: string, targetPort: int32)
    returns (verdict: Verdict, sent: seq<byte>, open: bool, rest: Stream)
    ensures var x := ConnectSpec(c, dial, targetHost, targetPort);
      verdict == x.verdict && sent == x.sent && open == x.open
    ensures dial.Connected? ==>
      Pending(rest) == Pending(dial.reply)[ConnectSpec(c, dial, targetHost, targetPort).consumed..]
  {
    if dial.Unreachable? {
      return Failed(DialFailed), [], false, [];
    }
    ghost var data := Pending(dial.reply);
    var n;
    n, rest := NegotiateMethod(c, dial.reply, data);
    match n
    case Refused(x) =>
      return x.verdict, x.sent, x.open, rest;
    case Negotiated(at, sent0) =>
      verdict, sent, open, rest := ConnectRequestAndReply(targetHost, targetPort, rest, sent0, data, at);
  }

  /** The greeting, the method reply and, if chosen, the sub-negotiation. */
  method NegotiateMethod(c: Socks5Client, input: Stream, ghost data: seq<byte>) returns (n: Negotiation, rest: Stream)
    requires Pending(input) == data
    ensures n == Negotiate(c, data)
    ensures n.Refused? ==> Pending(rest) == data[n.x.consumed..]
    ensures n.Negotiated? ==> Pending(rest) == data[n.at..]
  {
    var useAuth := c.username != "" || c.password != "";
    var sent := Greeting(useAuth);
    var methodResp;
    methodResp, rest := ReadExactly(input, 2);
    if methodResp.None? {
      return Refused(Exchange(Failed(UnexpectedEof), sent, |Pending(input)|, true)), rest;
    }
    assert methodResp.value == data[..2];
    if methodResp.value[0] != VERSION {
      return Refused(Exchange(Failed(BadVersion), sent, 2, false)), rest;
    }
    var chosen := methodResp.value[1];
    if chosen == METHOD_USERNAME_PASSWORD && useAuth {
      var user := Utf8(c.username);
      var pass := Utf8(c.password);
      if |user| > 255 || |pass| > 255 {
        return Refused(Exchange(Failed(CredentialsTooLong), sent, 2, false)), rest;
      }
      sent := sent + AuthRequest(user, pass);
      var authResp;
      authResp, rest := ReadExactly(rest, 2);
      if authResp.None? {
        return Refused(Exchange(Failed(UnexpectedEof), sent, |Pending(input)|, true)), rest;
      }
      assert authResp.value == data[2..4];
      if authResp.value[0] != AUTH_VERSION || authResp.value[1] != 0x00 {
        return Refused(Exchange(Failed(AuthFailed), sent, 4, false)), rest;
      }
      return Negotiated(4, sent), rest;
    } else if chosen == NO_ACCEPTABLE_METHODS {
      return Refused(Exchange(Failed(NoAcceptableMethod), sent, 2, false)), rest;
    }
    return Negotiated(2, sent), rest;
  }

  /** The CONNECT request and its reply, from reply byte `at` on. */
  method ConnectRequestAndReply(targetHost: string, targetPort: int32, input: Stream, sent0: seq<byte>,
                                ghost data: seq<byte>, ghost at: nat)
    returns (verdict: Verdict, sent: seq<byte>, open: bool, rest: Stream)
    requires at <= |data| && Pending(input) == data[at..]
    ensures var x := ConnectPhase(targetHost, targetPort, data, at, sent0);
      verdict == x.verdict && sent == x.sent && open == x.open && Pending(rest) == data[x.consumed..]
  {
    sent := sent0;
    rest := input;
    var hostBytes := Utf8(targetHost);
    if |hostBytes| > 255 {
      return Failed(HostTooLong), sent, false, rest;
    }
    sent := sent + ConnectRequest(hostBytes, targetPort);
    var connectResp;
    connectResp, rest := ReadExactly(rest, 4);
    if connectResp.None? {
      return Failed(UnexpectedEof), sent, true, rest;
    }
    assert connectResp.value == data[at..at + 4];
    if connectResp.value[0] != VERSION || connectResp.value[1] != 0x00 {
      return Failed(ConnectFailedReply), sent, false, rest;
    }
    var atyp := connectResp.value[3];
    if atyp != ATYP_IPV4 && atyp != ATYP_DOMAIN && atyp != ATYP_IPV6 {
      return Failed(UnknownAddressType), sent, false, rest;
    }
    var skipped;
    skipped, rest := SkipBoundAddress(atyp, rest, data, at);
    if !skipped {
      return Failed(UnexpectedEof), sent, true, rest;
    }
    return Established, sent, true, rest;
  }

  /** Reads and discards the bound address and port that follow a good reply header. */
  method SkipBoundAddress(atyp: byte, input: Stream, ghost data: seq<byte>, ghost at: nat)
    returns (skipped: bool, rest: Stream)
    requires at + 4 <= |data| && atyp == data[at + 3] && Pending(input) == data[at + 4..]
    requires atyp in {ATYP_IPV4, ATYP_DOMAIN, ATYP_IPV6}
    ensures skipped <==> at + ReplyLength(data, at) <= |data|
    ensures skipped ==> Pending(rest) == data[at + ReplyLength(data, at)..]
    ensures !skipped ==> rest == []
  {
    var bytes: Option<seq<byte>>;
    if atyp == ATYP_IPV4 {
      bytes, rest := ReadExactly(input, 6);
    } else if atyp == ATYP_DOMAIN {
      var lenByte := ReadByte(input);
      var len := lenByte.0 % 256;
      bytes, rest := ReadExactly(lenByte.1, len + 2);
    } else {
      bytes, rest := ReadExactly(input, 18);
    }
    skipped := bytes.Some?;
  }

  // ------------------------------------------------------------ properties

  /** The greeting is written first, and offers username/password exactly when
      a credential is non-empty. */
  lemma GreetingIsSentFirst(c: Socks5Client, dial: Dial, targetHost: string, targetPort: int32)
    requires dial.Connected?
    ensures var x := ConnectSpec(c, dial, targetHost, targetPort);
      |x.sent| >= 3 && x.sent[..3] == [0x05, 0x01, if OffersAuth(c) then 0x02 else 0x00]
  {
  }

  /** Without credentials, a server that picks no-auth and answers with an IPv4
      bound address leaves the tunnel open after exactly 2 + 4 + 6 reply bytes. */
  lemma NoAuthIpv4Exchange(c: Socks5Client, targetHost: string, targetPort: int32,
                           rsv: byte, bound: seq<byte>, tail: seq<byte>)
    requires !OffersAuth(c) && |Utf8(targetHost)| <= 255 && |bound| == 6
    ensures var x := Handshake(c, targetHost, targetPort, [0x05, 0x00] + [0x05, 0x00, rsv, 0x01] + bound + tail);
      x.verdict == Established && x.open && x.consumed == 2 + 4 + 6
      && x.sent == Greeting(false) + ConnectRequest(Utf8(targetHost), targetPort)
  {
    var data := [0x05, 0x00] + [0x05, 0x00, rsv, 0x01] + bound + tail;
    assert data[0] == 5 && data[1] == 0 && data[2] == 5 && data[3] == 0 && data[5] == 1;
  }

  /** With credentials, a server that picks username/password, accepts them and
      answers with an IPv4 bound address: exactly 2 + 2 + 4 + 6 reply bytes are read. */
  lemma AuthIpv4Exchange(c: Socks5Client, targetHost: string, targetPort: int32,
                         rsv: byte, bound: seq<byte>, tail: seq<byte>)
    requires OffersAuth(c) && |Utf8(c.username)| <= 255 && |Utf8(c.password)| <= 255
    requires |Utf8(targetHost)| <= 255 && |bound| == 6
    ensures var x := Handshake(c, targetHost, targetPort, [0x05, 0x02] + [0x01, 0x00] + [0x05, 0x00, rsv, 0x01] + bound + tail);
      x.verdict == Established && x.open && x.consumed == 2 + 2 + 4 + 6
      && x.sent == Greeting(true) + AuthRequest(Utf8(c.username), Utf8(c.password))
                   + ConnectRequest(Utf8(targetHost), targetPort)
  {
    var data := [0x05, 0x02] + [0x01, 0x00] + [0x05, 0x00, rsv, 0x01] + bound + tail;
    assert data[0] == 5 && data[1] == 2 && data[2] == 1 && data[3] == 0;
    assert data[4] == 5 && data[5] == 0 && data[7] == 1;
  }

  /** The sub-negotiation is sent only when the server chose 0x02 and
      credentials exist; any other choice but 0xFF goes straight to CONNECT. */
  lemma OtherMethodSkipsAuth(c: Socks5Client, targetHost: string, targetPort: int32, data: seq<byte>)
    requires |data| >= 2 && data[0] == VERSION && data[1] != NO_ACCEPTABLE_METHODS
    requires !(data[1] == METHOD_USERNAME_PASSWORD && OffersAuth(c))
    requires |Utf8(targetHost)| <= 255
    ensures var x := Handshake(c, targetHost, targetPort, data);
      x.sent == Greeting(OffersAuth(c)) + ConnectRequest(Utf8(targetHost), targetPort)
  {
  }

  /** A method reply whose first byte is not 0x05, or that selects 0xFF, ends
      the handshake after the greeting alone, with the socket closed. */
  lemma MethodReplyFailures(c: Socks5Client, targetHost: string, targetPort: int32, data: seq<byte>)
    requires |data| >= 2 && (data[0] != VERSION || data[1] == NO_ACCEPTABLE_METHODS)
    ensures var x := Handshake(c, targetHost, targetPort, data);
      x.verdict == Failed(if data[0] != VERSION then BadVersion else NoAcceptableMethod)
      && x.sent == Greeting(OffersAuth(c)) && x.consumed == 2 && !x.open
  {
  }

  /** Any authentication reply other than [0x01, 0x00] fails, and no CONNECT is sent. */
  lemma AuthReplyMustBeSuccess(c: Socks5Client, targetHost: string, targetPort: int32, data: seq<byte>)
    requires OffersAuth(c) && |Utf8(c.username)| <= 255 && |Utf8(c.password)| <= 255
    requires |data| >= 4 && data[0] == VERSION && data[1] == METHOD_USERNAME_PASSWORD
    requires data[2..4] != [0x01, 0x00]
    ensures var x := Handshake(c, targetHost, targetPort, data);
      x.verdict == Failed(AuthFailed) && x.consumed == 4 && !x.open
      && x.sent == Greeting(true) + AuthRequest(Utf8(c.username), Utf8(c.password))
  {
    assert data[2..4] == [data[2], data[3]];
  }

  /** Over-long credentials are refused before any sub-negotiation byte is written. */
  lemma LongCredentialsRefusedLocally(c: Socks5Client, targetHost: string, targetPort: int32, data: seq<byte>)
    requires |Utf8(c.username)| > 255 || |Utf8(c.password)| > 255
    requires |data| >= 2 && data[0] == VERSION && data[1] == METHOD_USERNAME_PASSWORD
    ensures var x := Handshake(c, targetHost, targetPort, data);
      x.verdict == Failed(CredentialsTooLong) && x.sent == Greeting(true) && !x.open
  {
  }

  /** A host longer than 255 UTF-8 bytes is refused before the CONNECT request is written. */
  lemma LongHostRefusedLocally(c: Socks5Client, targetHost: string, targetPort: int32, data: seq<byte>, at: nat, sent: seq<byte>)
    requires at <= |data| && |Utf8(targetHost)| > 255
    ensures ConnectPhase(targetHost, targetPort, data, at, sent) == Exchange(Failed(HostTooLong), sent, at, false)
  {
  }

  /** A CONNECT reply whose version is not 0x05 or whose reply code is not 0x00
      fails right after its 4-byte header: nothing more is read or written. */
  lemma ConnectReplyMustSucceed(targetHost: string, targetPort: int32, data: seq<byte>, at: nat, sent: seq<byte>)
    requires |Utf8(targetHost)| <= 255
    requires at + 4 <= |data| && (data[at] != VERSION || data[at + 1] != 0x00)
    ensures ConnectPhase(targetHost, targetPort, data, at, sent)
         == Exchange(Failed(ConnectFailedReply), sent + ConnectRequest(Utf8(targetHost), targetPort), at + 4, false)
  {
  }

  /** The bound address read after a good reply header: 6 bytes for IPv4,
      18 for IPv6, a length byte plus that many and 2 for a domain; any other
      address type fails. */
  lemma BoundAddressSkipped(targetHost: string, targetPort: int32, data: seq<byte>, at: nat, sent: seq<byte>)
    requires |Utf8(targetHost)| <= 255
    requires at + 4 <= |data| && data[at] == VERSION && data[at + 1] == 0x00
    ensures var x := ConnectPhase(targetHost, targetPort, data, at, sent);
      var atyp := data[at + 3];
      && (atyp == ATYP_IPV4 && at + 10 <= |data| ==> x.verdict == Established && x.consumed == at + 4 + 6)
      && (atyp == ATYP_IPV6 && at + 22 <= |data| ==> x.verdict == Established && x.consumed == at + 4 + 18)
      && (atyp == ATYP_DOMAIN && at + 4 < |data| && at + 4 + 1 + data[at + 4] + 2 <= |data| ==>
            x.verdict == Established && x.consumed == at + 4 + 1 + data[at + 4] + 2)
      && (atyp !in {ATYP_IPV4, ATYP_DOMAIN, ATYP_IPV6} ==> x.verdict == Failed(UnknownAddressType))
  {
  }

  /** The handshake succeeds only with the tunnel left open, and then only
      after every byte it asked for arrived. */
  lemma EstablishedOnlyWithWholeReplies(c: Socks5Client, targetHost: string, targetPort: int32, data: seq<byte>)
    ensures var x := Handshake(c, targetHost, targetPort, data);
      x.verdict == Established ==>
        && x.open && |Utf8(targetHost)| <= 255 && data[0] == VERSION
        && exists at: nat | at in {2, 4} ::
             at + 4 <= |data| && data[at] == VERSION && data[at + 1] == 0x00
             && ReplyLength(data, at) > 0 && x.consumed == at + ReplyLength(data, at)
  {
  }

  /** As written, every failure closes the socket except running out of reply
      bytes: readExactly's exception leaves it open. */
  lemma OnlyEofLeavesFailedSocketOpen(c: Socks5Client, targetHost: string, targetPort: int32, data: seq<byte>)
    ensures var x := Handshake(c, targetHost, targetPort, data);
      x.open <==> (x.verdict == Established || x.verdict == Failed(UnexpectedEof))
  {
  }

  /** A proxy that closes without answering the greeting: the handshake fails
      and the socket it opened is never closed. */
  lemma EofLeavesSocketOpen(c: Socks5Client, targetHost: string, targetPort: int32)
    ensures Handshake(c, targetHost, targetPort, []) == Exchange(Failed(UnexpectedEof), Greeting(OffersAuth(c)), 0, true)
  {
  }

  /** `connect` with the socket closed on every failure, premature end of
      stream included; the upstream dispatcher uses this one. */
  method ConnectClosingOnFailure(c: Socks5Client, dial: Dial, targetHost: string, targetPort: int32)
    returns (verdict: Verdict, sent: seq<byte>, open: bool, rest: Stream)
    ensures var x := ConnectSpec(c, dial, targetHost, targetPort);
      verdict == x.verdict && sent == x.sent
    ensures open <==> verdict == Established
    ensures dial.Connected? ==>
      Pending(rest) == Pending(dial.reply)[ConnectSpec(c, dial, targetHost, targetPort).consumed..]
  {
    verdict, sent, open, rest := Connect(c, dial, targetHost, targetPort);
    OnlyEofLeavesFailedSocketOpen(c, targetHost, targetPort, if dial.Connected? then Pending(dial.reply) else []);
    if verdict.Failed? && open {
      open := false;
    }
  }
}
