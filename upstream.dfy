/** The upstream proxy client chosen from the configured proxy type, and its
    one operation: open a tunnel to a target through that proxy. */
module Upstream {
  import opened Text
  import opened Net
  import HttpUpstream
  import Socks5Upstream

  datatype UpstreamProxyClient =
    | Http(http: HttpUpstream.HttpClient)
    | Socks5(socks5: Socks5Upstream.Socks5Client)

  const TYPE_HTTP: string := "http"
  const TYPE_SOCKS5: string := "socks5"

  /** `createUpstreamClient`: the SOCKS5 client for the type "socks5" (compared
      exactly), the HTTP client for any other type or none. */
  function CreateUpstreamClient(proxyType: Option<string>, host: string, port: int32,
                                user: Option<string>, pass: Option<string>): (u: UpstreamProxyClient)
    ensures u.Socks5? <==> proxyType == Some(TYPE_SOCKS5)
    ensures u.Socks5? ==> u.socks5 == Socks5Upstream.NewSocks5Client(host, port, user, pass)
    ensures u.Http? ==> u.http == HttpUpstream.NewHttpClient(host, port, user, pass)
  {
    if proxyType == Some(TYPE_SOCKS5) then Socks5(Socks5Upstream.NewSocks5Client(host, port, user, pass))
    else Http(HttpUpstream.NewHttpClient(host, port, user, pass))
  }

  /** `connect(targetHost, targetPort)` of whichever client it is. */
  function ConnectSpec(u: UpstreamProxyClient, dial: Dial, host: string, port: int32): (x: Exchange)
    ensures x.verdict == Established ==> dial.Connected?
    ensures x.consumed <= |ReplyBytes(dial)|
  {
    match u
    case Http(c) => HttpUpstream.ConnectSpec(c, dial, host, port)
    case Socks5(c) => Socks5Upstream.ConnectSpec(c, dial, host, port)
  }

  /** `connect` through the configured client: on success the tunnel's
      bytes start right after the handshake's. */
  method Connect(u: UpstreamProxyClient, dial: Dial, host: string, port: int32)
    returns (verdict: Verdict, sent: seq<byte>, open: bool, rest: Stream)
    ensures var x := ConnectSpec(u, dial, host, port);
      verdict == x.verdict && sent == x.sent
    ensures open <==> verdict == Established
    ensures dial.Connected? ==> Pending(rest) == Pending(dial.reply)[ConnectSpec(u, dial, host, port).consumed..]
  {
    match u
    case Http(c) =>
      verdict, sent, open, rest := HttpUpstream.ConnectKeepingReadAhead(c, dial, host, port);
      if dial.Connected? {
        HttpUpstream.AcceptedIffTwoHundred(sent, Pending(dial.reply));
      }
    case Socks5(c) =>
      verdict, sent, open, rest := Socks5Upstream.ConnectClosingOnFailure(c, dial, host, port);
  }

  /** `connect` through the configured client as the source writes it. The
      verdict and the bytes sent are the same as `Connect`'s; the differences
      are what is handed on. The HTTP client hands on the bare socket, which
      holds only what its `BufferedReader` left unread. The SOCKS5 client also
      leaves its socket open when the proxy's reply ends early. */
  method ConnectAsWritten(u: UpstreamProxyClient, dial: Dial, host: string, port: int32)
    returns (verdict: Verdict, sent: seq<byte>, open: bool, rest: Stream)
    ensures var x := ConnectSpec(u, dial, host, port);
      verdict == x.verdict && sent == x.sent
    ensures open <==> verdict == Established || (u.Socks5? && verdict == Failed(UnexpectedEof))
    ensures u.Socks5? && dial.Connected? ==>
      Pending(rest) == Pending(dial.reply)[ConnectSpec(u, dial, host, port).consumed..]
    ensures u.Http? && dial.Connected? ==> rest == HttpUpstream.AnswerOn(dial.reply).reader.source
  {
    match u
    case Http(c) =>
      verdict, sent, open, rest := HttpUpstream.Connect(c, dial, host, port);
      if dial.Connected? {
        HttpUpstream.AnswerIsLogical(sent, dial.reply);
        HttpUpstream.AcceptedIffTwoHundred(sent, Pending(dial.reply));
      }
    case Socks5(c) =>
      verdict, sent, open, rest := Socks5Upstream.Connect(c, dial, host, port);
      Socks5Upstream.OnlyEofLeavesFailedSocketOpen(c, host, port, if dial.Connected? then Pending(dial.reply) else []);
  }
}
