# HttpProxyVPN local proxy, in Dafny

This project models the forwarding core of HttpProxyVPN, an Android VPN app. The app routes selected apps' traffic to a local HTTP proxy on 127.0.0.1:18080, which forwards it through a configured upstream HTTP or SOCKS5 proxy. The model covers:

- **`LocalProxy`**: the local proxy server, `LocalProxyServer`.
  - `readLine` reads the client byte by byte. `consumeHeaders` drops a header block.
  - `handleClient` dispatches between CONNECT and plain HTTP.
  - `handleConnect` parses the CONNECT target, asks the upstream for a tunnel and answers "200 Connection established" or "502 Bad Gateway".
  - `handleHttpRequest` runs the `Host:` header loop, falls back to the host of an absolute `http://` URI, rewrites the first line to origin form and forwards the head.
  - `start`/`stop` are the server's lifecycle. They are modelled as a class whose fields are the `running` flag, the listening socket and the executor.
- **`RequestLine`**: the string parsing behind those handlers: the CONNECT target, the `Host:` header step, `parseHostFromRequestLine` and `toRelativeRequestLine`.
- **`Socks5Upstream`**: the SOCKS5 upstream client.
  - Method negotiation and the CONNECT request follow RFC 1928; username/password authentication follows RFC 1929.
  - `readExactly` is modelled as a loop over short reads. The reply's bound address is read and discarded.
- **`HttpUpstream`**: the HTTP upstream client.
  - The CONNECT request, with Basic proxy authorization.
  - `parseStatusCode`, and the status and header lines read through a `BufferedReader`. The reader is modelled in `LineReader`.
- **`Upstream`**: the choice between the two upstream clients from the configured proxy type.
- **`DefaultProxyPackages`**: the set of packages routed through the proxy by default.
- **Helper modules**:
  - `Text`: the Java `String`/`Integer` operations used above.
  - `Base64`: the Base64 encoding.
  - `Net`: sockets as values.

Sockets are values throughout:

- What a peer will still send is a `Stream`: a sequence of non-empty chunks. One read never returns more than the chunk at the head, so short reads happen.
- Dialling the upstream proxy is a parameter (`Dial`): it is either unreachable, or connected with the bytes the proxy will answer.
- Every handshake is stated twice:
  - as a function of the proxy's reply bytes (an `Exchange`: the verdict, the bytes written, how many reply bytes were consumed, and whether the socket is left open);
  - as a method that reads the stream step by step. The method is proved equal to that function, whatever the chunking.
- Handling one client is likewise a function, `LocalProxy.Handle`, of the client's bytes and the dial. Its result is a `Handling`: the target asked of the upstream, every byte written upstream, the reply to the client, whether the sockets are relayed, and what each side still has to send.
- Where the source has one of the bugs listed under "Findings", the handler follows the corrected behaviour. The code as written is modelled beside it (`PlanOfAsWritten`, `Upstream.ConnectAsWritten`), and lemmas state where the two agree and where they differ.

## Model

| member | source | states |
|---|---|---|
| Text.IndexOf | app/src/main/java/com/httpproxy/vpn/vpn/LocalProxyServer.java:135 | `indexOf(c)`: an index holding `c` with none before it; -1 exactly when `c` does not occur |
| Text.LastIndexOf | app/src/main/java/com/httpproxy/vpn/vpn/LocalProxyServer.java:104 | `lastIndexOf(c)`: an index holding `c` with none after it, or -1 |
| Text.IndexOfString | app/src/main/java/com/httpproxy/vpn/vpn/LocalProxyServer.java:176 | `indexOf("http://")`: the first occurrence, none before it; -1 when there is none |
| Text.Trim | app/src/main/java/com/httpproxy/vpn/vpn/LocalProxyServer.java:134 | `trim()`: the result is the slice of the input between a prefix and a suffix made only of characters up to U+0020, and it has no such character at either end; empty exactly when all characters are such; a string with none at its ends is unchanged |
| Text.ParseInt | app/src/main/java/com/httpproxy/vpn/vpn/LocalProxyServer.java:139 | `Integer.parseInt`: empty, sign-only or non-digit text fails (the NumberFormatException); an unsigned result is never negative |
| Text.ParseIntOfIntToString | app/src/main/java/com/httpproxy/vpn/vpn/LocalProxyServer.java:109 | `Integer.parseInt` reads back every `int` that `append(int)` writes |
| Text.SplitOnSpaces | app/src/main/java/com/httpproxy/vpn/vpn/LocalProxyServer.java:98 | `split("\\s+")` on a line not starting with whitespace gives its maximal runs of non-whitespace |
| Text.TokensOfJoinWords | app/src/main/java/com/httpproxy/vpn/vpn/LocalProxyServer.java:98 | splitting words joined by single spaces gives the words back |
| Text.ToUpperAscii | app/src/main/java/com/httpproxy/vpn/vpn/LocalProxyServer.java:87 | `toUpperCase()`: same length, each character folded |
| Text.ToLowerAscii | app/src/main/java/com/httpproxy/vpn/vpn/LocalProxyServer.java:133 | `toLowerCase()`: same length, each character folded |
| Text.Latin1RoundTrip | app/src/main/java/com/httpproxy/vpn/vpn/LocalProxyServer.java:246 | bytes appended as `(char) c` and written one per character come back unchanged |
| Text.Latin1DecodeEncode | app/src/main/java/com/httpproxy/vpn/vpn/LocalProxyServer.java:246 | characters below 256 written one per byte and read back with `(char) c` come back unchanged |
| Text.Utf8Append | app/src/main/java/com/httpproxy/vpn/proxy/HttpUpstreamClient.java:49 | `getBytes(UTF_8)` of a concatenation is the concatenation of the encodings |
| Text.Utf8Longer | app/src/main/java/com/httpproxy/vpn/vpn/LocalProxyServer.java:170 | a string holding a character of U+0080 or above takes more UTF-8 bytes than it has characters |
| Text.Utf8OfAsciiIsLatin1 | app/src/main/java/com/httpproxy/vpn/vpn/LocalProxyServer.java:170 | on ASCII text, UTF-8 and one byte per character agree |
| Net.ReadByte | app/src/main/java/com/httpproxy/vpn/vpn/LocalProxyServer.java:240 | `read()`: -1 at the end of the stream, otherwise the next byte, and the rest follows |
| Net.ReadSome | app/src/main/java/com/httpproxy/vpn/proxy/Socks5UpstreamClient.java:121 | `read(buf, off, len)`: no bytes only at the end of the stream, otherwise 1 to `len` bytes that are the next ones, and the rest follows |
| Base64.DecodeEncode | app/src/main/java/com/httpproxy/vpn/proxy/HttpUpstreamClient.java:43 | decoding the Base64 text gives the credential bytes back |
| Base64.Encode | app/src/main/java/com/httpproxy/vpn/proxy/HttpUpstreamClient.java:43 | `Base64.encodeToString(…, NO_WRAP)` as section 4 of RFC 4648; `DecodeEncode`, `EncodeLength` and `EncodeIsOneToken` state what it produces |
| Base64.EncodeLength | app/src/main/java/com/httpproxy/vpn/proxy/HttpUpstreamClient.java:43 | four characters per started group of three bytes |
| Base64.EncodeIsOneToken | app/src/main/java/com/httpproxy/vpn/proxy/HttpUpstreamClient.java:43 | with `NO_WRAP`, no CR, LF or space in the encoded text |
| LineReader.NextLine | app/src/main/java/com/httpproxy/vpn/proxy/HttpUpstreamClient.java:54 | a logical line: none only at the end of the stream; no CR or LF inside; it is the stream's prefix, and its end (CR, LF or CR LF) is consumed |
| LineReader.NextLineSplits | app/src/main/java/com/httpproxy/vpn/proxy/HttpUpstreamClient.java:54 | the stream is the line, its end (none, CR, LF or CR LF) and the rest |
| LineReader.ReadLineLogical | app/src/main/java/com/httpproxy/vpn/proxy/HttpUpstreamClient.java:52-54 | `BufferedReader.readLine()` returns the stream's logical lines one after another however the bytes are cut into chunks; null only at the end |
| LineReader.Leftover | app/src/main/java/com/httpproxy/vpn/proxy/HttpUpstreamClient.java:69 | the reader's buffered bytes put back in front of the socket: exactly what the reader has not delivered |
| HttpUpstream.NewHttpClient | app/src/main/java/com/httpproxy/vpn/proxy/HttpUpstreamClient.java:25-30 | a null username or password is stored as ""; authorization is offered exactly when one of them is non-empty |
| HttpUpstream.AuthorizationIffCredentials | app/src/main/java/com/httpproxy/vpn/proxy/HttpUpstreamClient.java:38-46 | the request carries a `Proxy-Authorization:` line exactly when a credential is non-empty |
| HttpUpstream.AuthorizationCarriesCredentials | app/src/main/java/com/httpproxy/vpn/proxy/HttpUpstreamClient.java:42-44 | the proxy decodes exactly `user:password` in UTF-8 from the Basic token, which has no CR, LF or space |
| HttpUpstream.Request | app/src/main/java/com/httpproxy/vpn/proxy/HttpUpstreamClient.java:38-46 | the CONNECT request text; `AuthorizationIffCredentials` and `AuthorizationCarriesCredentials` state its authorization line |
| HttpUpstream.StatusCodeBetween | app/src/main/java/com/httpproxy/vpn/proxy/HttpUpstreamClient.java:72-82 | `parseStatusCode` returns the integer between the first space and the next one (or the end) |
| HttpUpstream.StatusCodeOfStatusLine | app/src/main/java/com/httpproxy/vpn/proxy/HttpUpstreamClient.java:72-82 | `version SP code SP reason` yields `code`, whatever the reason says |
| HttpUpstream.StatusCodeWithoutReason | app/src/main/java/com/httpproxy/vpn/proxy/HttpUpstreamClient.java:76-78 | `version SP code` with no reason yields `code` |
| HttpUpstream.NoSpaceNoCode | app/src/main/java/com/httpproxy/vpn/proxy/HttpUpstreamClient.java:74-75 | a status line without a space yields 0 |
| HttpUpstream.ParseStatusCode | app/src/main/java/com/httpproxy/vpn/proxy/HttpUpstreamClient.java:72-82 | `parseStatusCode`; `StatusCodeBetween`, `StatusCodeOfStatusLine`, `StatusCodeWithoutReason` and `NoSpaceNoCode` state its value |
| HttpUpstream.StatusVerdict | app/src/main/java/com/httpproxy/vpn/proxy/HttpUpstreamClient.java:54-63 | no status line: "no response"; otherwise accepted exactly when the code is 2xx, else rejected with the status line as the message |
| HttpUpstream.DrainHeaders | app/src/main/java/com/httpproxy/vpn/proxy/HttpUpstreamClient.java:65-68 | the header loop stops right after the first empty line, or at the end of the stream |
| HttpUpstream.SkipHeaders | app/src/main/java/com/httpproxy/vpn/proxy/HttpUpstreamClient.java:65-68 | the `while` loop over `readLine` computes `DrainHeaders` |
| HttpUpstream.ReadAnswer | app/src/main/java/com/httpproxy/vpn/proxy/HttpUpstreamClient.java:52-69 | the status line and header lines as `connect` reads them, equal to the specification `AnswerOn` |
| HttpUpstream.AnswerIsLogical | app/src/main/java/com/httpproxy/vpn/proxy/HttpUpstreamClient.java:52-69 | however the answer is chunked, the verdict and open socket are those of the byte stream, and the reader stops right after the consumed bytes |
| HttpUpstream.AcceptedIffTwoHundred | app/src/main/java/com/httpproxy/vpn/proxy/HttpUpstreamClient.java:59-68 | accepted exactly when the first line's code is 2xx; the tunnel then starts after the first empty line; a refusal closes the socket |
| HttpUpstream.RefusalReportsStatusLine | app/src/main/java/com/httpproxy/vpn/proxy/HttpUpstreamClient.java:59-63 | a refusal such as 407 fails with the status line as the message, and the socket is closed |
| HttpUpstream.Connect | app/src/main/java/com/httpproxy/vpn/proxy/HttpUpstreamClient.java:33-70 | `connect` as written: a failed dial sends nothing; otherwise it sends the UTF-8 request, and the socket handed on is whatever the reader left in the socket |
| HttpUpstream.ReadAheadSwallowsTunnelBytes | app/src/main/java/com/httpproxy/vpn/proxy/HttpUpstreamClient.java:52-69 | as written: an accepting answer and tunnel bytes arriving in one chunk leave the tunnel bytes in the reader and none on the socket handed on |
| HttpUpstream.ConnectKeepingReadAhead | app/src/main/java/com/httpproxy/vpn/proxy/HttpUpstreamClient.java:33-70 | `connect` with the reader's read-ahead handed on: the verdict, bytes sent and open socket of `ConnectSpec`, and the tunnel starts right after the consumed answer |
| HttpUpstream.ConnectSpec | app/src/main/java/com/httpproxy/vpn/proxy/HttpUpstreamClient.java:33-70 | `connect` on the proxy's reply bytes: an unreachable proxy fails with nothing sent; otherwise the UTF-8 request is sent and the reply decides. `AcceptedIffTwoHundred` and `RefusalReportsStatusLine` state its verdict, `Connect` and `ConnectKeepingReadAhead` are proved against it |
| Socks5Upstream.NewSocks5Client | app/src/main/java/com/httpproxy/vpn/proxy/Socks5UpstreamClient.java:29-34 | a null username or password is stored as ""; authentication is offered exactly when one of them is non-empty |
| Socks5Upstream.Greeting | app/src/main/java/com/httpproxy/vpn/proxy/Socks5UpstreamClient.java:46-50 | the greeting 05 01 and the offered method; `GreetingIsSentFirst` states it |
| Socks5Upstream.AuthRequest | app/src/main/java/com/httpproxy/vpn/proxy/Socks5UpstreamClient.java:65-70 | the RFC 1929 sub-negotiation request; `AuthRequestRoundTrip` reads it back |
| Socks5Upstream.ConnectRequest | app/src/main/java/com/httpproxy/vpn/proxy/Socks5UpstreamClient.java:87-94 | the CONNECT request for a domain name; `ConnectRequestRoundTrip` reads it back |
| Socks5Upstream.ReplyLength | app/src/main/java/com/httpproxy/vpn/proxy/Socks5UpstreamClient.java:102-113 | the length of a CONNECT reply by address type; `SkipBoundAddress` and `BoundAddressSkipped` state it |
| Socks5Upstream.AuthRequestRoundTrip | app/src/main/java/com/httpproxy/vpn/proxy/Socks5UpstreamClient.java:65-70 | an RFC 1929 server reads back exactly the username and password bytes |
| Socks5Upstream.ConnectRequestRoundTrip | app/src/main/java/com/httpproxy/vpn/proxy/Socks5UpstreamClient.java:87-94 | a SOCKS5 server reads back the host bytes and the port modulo 2^16 |
| Socks5Upstream.ReadExactly | app/src/main/java/com/httpproxy/vpn/proxy/Socks5UpstreamClient.java:117-126 | `readExactly(in, n)`: the next `n` bytes whatever the chunking, or failure (with nothing left) when fewer remain |
| Socks5Upstream.SkipBoundAddress | app/src/main/java/com/httpproxy/vpn/proxy/Socks5UpstreamClient.java:102-113 | 6 bytes for IPv4, 18 for IPv6, or a length byte plus that many and 2 for a domain (a missing length byte reads as 255); fails exactly when they do not all arrive |
| Socks5Upstream.NegotiateMethod | app/src/main/java/com/httpproxy/vpn/proxy/Socks5UpstreamClient.java:45-79 | the greeting, the method reply and, when both sides want it, the sub-negotiation, equal to the specification `Negotiate`, with the stream left after the consumed bytes |
| Socks5Upstream.ConnectRequestAndReply | app/src/main/java/com/httpproxy/vpn/proxy/Socks5UpstreamClient.java:81-114 | the CONNECT request and its reply, equal to the specification `ConnectPhase` |
| Socks5Upstream.Negotiate | app/src/main/java/com/httpproxy/vpn/proxy/Socks5UpstreamClient.java:45-79 | method negotiation and authentication on the reply bytes: a refusal is a failure within the reply, a success stops after 2 or 4 bytes; `NegotiateMethod` is proved equal to it, and `MethodReplyFailures`, `OtherMethodSkipsAuth`, `AuthReplyMustBeSuccess` and `LongCredentialsRefusedLocally` state its cases |
| Socks5Upstream.ConnectPhase | app/src/main/java/com/httpproxy/vpn/proxy/Socks5UpstreamClient.java:81-114 | the CONNECT request and reply from a reply offset, never consuming before the offset or past the end; `ConnectRequestAndReply` is proved equal to it, and `ConnectReplyMustSucceed`, `BoundAddressSkipped` and `LongHostRefusedLocally` state its cases |
| Socks5Upstream.Handshake | app/src/main/java/com/httpproxy/vpn/proxy/Socks5UpstreamClient.java:45-115 | the whole handshake on the proxy's reply bytes, as written; never consumes more than the reply; the lemmas below state its cases |
| Socks5Upstream.ConnectSpec | app/src/main/java/com/httpproxy/vpn/proxy/Socks5UpstreamClient.java:37-115 | `connect` as written: an unreachable proxy fails with nothing sent, otherwise `Handshake` |
| Socks5Upstream.Connect | app/src/main/java/com/httpproxy/vpn/proxy/Socks5UpstreamClient.java:37-115 | `connect` as written equals `ConnectSpec` (verdict, bytes sent, socket left open), and the tunnel starts right after the consumed reply |
| Socks5Upstream.GreetingIsSentFirst | app/src/main/java/com/httpproxy/vpn/proxy/Socks5UpstreamClient.java:46-50 | the first three bytes written are 05 01 and 02 exactly when a credential is non-empty, else 00 |
| Socks5Upstream.NoAuthIpv4Exchange | app/src/main/java/com/httpproxy/vpn/proxy/Socks5UpstreamClient.java:37-115 | without credentials, a no-auth choice and an IPv4 reply establish the tunnel after 2 + 4 + 6 reply bytes, with the greeting and the CONNECT request sent |
| Socks5Upstream.AuthIpv4Exchange | app/src/main/java/com/httpproxy/vpn/proxy/Socks5UpstreamClient.java:45-115 | with credentials, an accepted sub-negotiation and an IPv4 reply establish the tunnel after 2 + 2 + 4 + 6 reply bytes |
| Socks5Upstream.OtherMethodSkipsAuth | app/src/main/java/com/httpproxy/vpn/proxy/Socks5UpstreamClient.java:57-79 | any chosen method other than 02-with-credentials and FF goes straight to the CONNECT request |
| Socks5Upstream.MethodReplyFailures | app/src/main/java/com/httpproxy/vpn/proxy/Socks5UpstreamClient.java:52-79 | a bad version or method FF fails after the greeting alone, socket closed |
| Socks5Upstream.AuthReplyMustBeSuccess | app/src/main/java/com/httpproxy/vpn/proxy/Socks5UpstreamClient.java:71-75 | any authentication reply other than 01 00 fails, socket closed, no CONNECT sent |
| Socks5Upstream.LongCredentialsRefusedLocally | app/src/main/java/com/httpproxy/vpn/proxy/Socks5UpstreamClient.java:59-64 | credentials over 255 UTF-8 bytes fail before any sub-negotiation byte is written |
| Socks5Upstream.LongHostRefusedLocally | app/src/main/java/com/httpproxy/vpn/proxy/Socks5UpstreamClient.java:82-86 | a host over 255 UTF-8 bytes fails before the CONNECT request is written |
| Socks5Upstream.ConnectReplyMustSucceed | app/src/main/java/com/httpproxy/vpn/proxy/Socks5UpstreamClient.java:97-101 | a CONNECT reply with a bad version or a non-zero code fails right after its 4-byte header, socket closed |
| Socks5Upstream.BoundAddressSkipped | app/src/main/java/com/httpproxy/vpn/proxy/Socks5UpstreamClient.java:102-113 | the bound address skipped for each address type, and an unknown type fails |
| Socks5Upstream.EstablishedOnlyWithWholeReplies | app/src/main/java/com/httpproxy/vpn/proxy/Socks5UpstreamClient.java:37-115 | success only with the socket open, a host that fits, and every reply byte asked for received |
| Socks5Upstream.OnlyEofLeavesFailedSocketOpen | app/src/main/java/com/httpproxy/vpn/proxy/Socks5UpstreamClient.java:52-126 | as written, the socket stays open exactly on success or a premature end of stream |
| Socks5Upstream.EofLeavesSocketOpen | app/src/main/java/com/httpproxy/vpn/proxy/Socks5UpstreamClient.java:117-126 | as written, a proxy that closes without answering leaves the socket open after the failure |
| Socks5Upstream.ConnectClosingOnFailure | app/src/main/java/com/httpproxy/vpn/proxy/Socks5UpstreamClient.java:37-115 | `connect` closing the socket on every failure: the verdict and bytes sent of `ConnectSpec`, open exactly on success |
| Upstream.CreateUpstreamClient | app/src/main/java/com/httpproxy/vpn/vpn/ProxyVpnService.java:147-157 | the SOCKS5 client exactly for the type "socks5", the HTTP client otherwise (a null type included), built from the same host, port and credentials |
| Upstream.ConnectSpec | app/src/main/java/com/httpproxy/vpn/proxy/UpstreamProxyClient.java:19 | `connect` succeeds only over a connected dial and consumes no more than the proxy sent |
| Upstream.Connect | app/src/main/java/com/httpproxy/vpn/proxy/UpstreamProxyClient.java:11-19 | corrected: `connect` through either client, using the corrected clients `HttpUpstream.ConnectKeepingReadAhead` and `Socks5Upstream.ConnectClosingOnFailure`: the verdict and bytes of `ConnectSpec`, the socket open exactly on success, the tunnel right after the handshake |
| Upstream.ConnectAsWritten | app/src/main/java/com/httpproxy/vpn/proxy/UpstreamProxyClient.java:11-19 | `connect` through either client as written: the verdict and bytes of `ConnectSpec`; the socket open on success and, for SOCKS5, after a premature end of stream; the HTTP tunnel is the socket behind the discarded reader |
| RequestLine.IsConnectAnyCase | app/src/main/java/com/httpproxy/vpn/vpn/LocalProxyServer.java:87 | "CONNECT " is recognised in any letter case |
| RequestLine.IsConnectOfConnect | app/src/main/java/com/httpproxy/vpn/vpn/LocalProxyServer.java:87 | a line starting with "CONNECT " is a CONNECT |
| RequestLine.IsConnect | app/src/main/java/com/httpproxy/vpn/vpn/LocalProxyServer.java:87 | `toUpperCase().startsWith("CONNECT ")`; `IsConnectAnyCase` and `IsConnectOfConnect` state it |
| RequestLine.SplitAuthority | app/src/main/java/com/httpproxy/vpn/vpn/LocalProxyServer.java:103-111 | the host and port of a CONNECT target; `SplitAuthorityRoundTrip`, `SplitAuthorityDefaultPort` and `SplitAuthorityLeadingColon` state its cases |
| RequestLine.ConnectTarget | app/src/main/java/com/httpproxy/vpn/vpn/LocalProxyServer.java:98-111 | the CONNECT target of a first line; `ConnectTargetOfRequest` and `BareConnectHasNoTarget` state it |
| RequestLine.SplitAuthorityRoundTrip | app/src/main/java/com/httpproxy/vpn/vpn/LocalProxyServer.java:103-111 | `host:port` gives back that host and port, even when the host has colons (IPv6) |
| RequestLine.SplitAuthorityDefaultPort | app/src/main/java/com/httpproxy/vpn/vpn/LocalProxyServer.java:104-111 | without a port, or with one that does not parse, the port is 443 |
| RequestLine.SplitAuthorityLeadingColon | app/src/main/java/com/httpproxy/vpn/vpn/LocalProxyServer.java:104-106 | a ':' in first position does not split: the whole token is the host |
| RequestLine.ConnectTargetOfRequest | app/src/main/java/com/httpproxy/vpn/vpn/LocalProxyServer.java:98-111 | `CONNECT host:port version` targets exactly that host and port |
| RequestLine.BareConnectHasNoTarget | app/src/main/java/com/httpproxy/vpn/vpn/LocalProxyServer.java:98-102 | a CONNECT line without a second token has no target |
| RequestLine.HostHeaderStep | app/src/main/java/com/httpproxy/vpn/vpn/LocalProxyServer.java:133-144 | a non-`Host:` line changes nothing; a `Host:` line always sets the host, and a value without ':' sets it to the trimmed value keeping the port |
| RequestLine.IsHostHeader | app/src/main/java/com/httpproxy/vpn/vpn/LocalProxyServer.java:133 | `toLowerCase().startsWith("host:")`; `HostHeaderWithPort` and `HostHeaderWithoutPort` use it on `Host:` lines in any case |
| RequestLine.ScanHeaders | app/src/main/java/com/httpproxy/vpn/vpn/LocalProxyServer.java:132-146 | the host and port the header loop keeps; `ScanHeadersAppend`, `ScanHeadersWithoutHost` and `LastHostHeaderWins` state it |
| RequestLine.ScanHeadersAppend | app/src/main/java/com/httpproxy/vpn/vpn/LocalProxyServer.java:132-146 | the header loop over two blocks is the loop over the second from where the first left off |
| RequestLine.ScanHeadersWithoutHost | app/src/main/java/com/httpproxy/vpn/vpn/LocalProxyServer.java:128-146 | without `Host:` lines there is no host and the port stays 80 |
| RequestLine.LastHostHeaderWins | app/src/main/java/com/httpproxy/vpn/vpn/LocalProxyServer.java:132-146 | the last `Host:` line decides |
| RequestLine.HostHeaderWithPort | app/src/main/java/com/httpproxy/vpn/vpn/LocalProxyServer.java:133-140 | `Host: name:port`, the name in any case, yields that host and port |
| RequestLine.HostHeaderWithoutPort | app/src/main/java/com/httpproxy/vpn/vpn/LocalProxyServer.java:141-143 | `Host: name` sets the host and keeps the earlier port |
| RequestLine.HostPart | app/src/main/java/com/httpproxy/vpn/vpn/LocalProxyServer.java:182-183 | the host part has only characters of the authority, and is all of it when there is no ':' |
| RequestLine.HostFromRequestLine | app/src/main/java/com/httpproxy/vpn/vpn/LocalProxyServer.java:175-184 | `parseHostFromRequestLine` as written: its host never holds a '/' |
| RequestLine.HostOfAbsoluteUri | app/src/main/java/com/httpproxy/vpn/vpn/LocalProxyServer.java:175-184 | the corrected host of the absolute URI: no '/' and no space in it |
| RequestLine.SchemeDecides | app/src/main/java/com/httpproxy/vpn/vpn/LocalProxyServer.java:175-201 | both host parses give null exactly when "http://" is absent; both rewrites need "http://" and a space |
| RequestLine.HostPartOfAuthority | app/src/main/java/com/httpproxy/vpn/vpn/LocalProxyServer.java:181-183 | the host of `host` or `host:port` is `host` |
| RequestLine.OriginFormOfAbsolute | app/src/main/java/com/httpproxy/vpn/vpn/LocalProxyServer.java:187-201 | the corrected rewrite of `method http://authority[path] version` is `method path version`, with "/" for an empty path, and the host is the authority's |
| RequestLine.ToOriginForm | app/src/main/java/com/httpproxy/vpn/vpn/LocalProxyServer.java:187-201 | corrected: the rewrite to origin form, with "/" for an empty path; `OriginFormOfAbsolute` and `SchemeDecides` state it |
| RequestLine.ToRelativeRequestLine | app/src/main/java/com/httpproxy/vpn/vpn/LocalProxyServer.java:187-201 | `toRelativeRequestLine` as written; `RelativeFormOfAbsolute` and `NoPathAsWritten` state its value |
| RequestLine.RelativeFormOfAbsolute | app/src/main/java/com/httpproxy/vpn/vpn/LocalProxyServer.java:187-201 | with a path, `toRelativeRequestLine` as written gives `method path version` and the host parse the authority's host |
| RequestLine.CorrectedAgreesWithPath | app/src/main/java/com/httpproxy/vpn/vpn/LocalProxyServer.java:175-201 | wherever the URI has a path, the corrected functions agree with those as written |
| RequestLine.NoPathAsWritten | app/src/main/java/com/httpproxy/vpn/vpn/LocalProxyServer.java:175-201 | as written, a URI without a path is not rewritten and its host runs past the space up to the version's '/' |
| RequestLine.NoPathDiverges | app/src/main/java/com/httpproxy/vpn/vpn/LocalProxyServer.java:175-201 | on `GET http://example.com HTTP/1.0` the host as written is "example.com HTTP" and nothing is rewritten; corrected, the host is "example.com" and the line `GET / HTTP/1.0` |
| LocalProxy.LineFromFirstEol | app/src/main/java/com/httpproxy/vpn/vpn/LocalProxyServer.java:237-249 | `readLine` returns the bytes before the first CR or LF, one character per byte; a CR takes the following byte too |
| LocalProxy.LineFrom | app/src/main/java/com/httpproxy/vpn/vpn/LocalProxyServer.java:237-249 | `readLine` on the client's bytes: never more bytes than there are, and at least one byte when there is one |
| LocalProxy.ReadLineOfEnding | app/src/main/java/com/httpproxy/vpn/vpn/LocalProxyServer.java:240-247 | a line ended by CR LF, LF, or CR and any byte is read back exactly, and reading resumes after the ending |
| LocalProxy.ReadLineAtEnd | app/src/main/java/com/httpproxy/vpn/vpn/LocalProxyServer.java:240-248 | at the end of the stream the partial line comes back, never null |
| LocalProxy.LoneCrSwallowsNextByte | app/src/main/java/com/httpproxy/vpn/vpn/LocalProxyServer.java:241-243 | after a lone CR the next byte is dropped, one more than a buffered reader consumes |
| LocalProxy.ReadLine | app/src/main/java/com/httpproxy/vpn/vpn/LocalProxyServer.java:237-249 | the byte loop returns `LineFrom` of the pending bytes and leaves the stream after what it consumed |
| LocalProxy.HeaderLinesOfText | app/src/main/java/com/httpproxy/vpn/vpn/LocalProxyServer.java:132 | header lines written with CR LF and a blank line are read back exactly, stopping after the blank line |
| LocalProxy.HeaderLines | app/src/main/java/com/httpproxy/vpn/vpn/LocalProxyServer.java:132-146 | the header lines up to the blank line and the bytes they take, never more than there are; `HeaderLinesOfText` states it, and `ConsumeHeaders` (lines 203-206) and `ReadHeaderBlock` are proved against it |
| LocalProxy.ReadRequestHead | app/src/main/java/com/httpproxy/vpn/vpn/LocalProxyServer.java:82 | a request head is read back as its first line and header lines, and what follows stays unread |
| LocalProxy.ConsumeHeaders | app/src/main/java/com/httpproxy/vpn/vpn/LocalProxyServer.java:203-206 | the loop leaves the stream right after the header block |
| LocalProxy.Closed | app/src/main/java/com/httpproxy/vpn/vpn/LocalProxyServer.java:84 | closing the client: no target, nothing written, no relay |
| LocalProxy.Outcome | app/src/main/java/com/httpproxy/vpn/vpn/LocalProxyServer.java:113-124 | a failed connect writes only "502 Bad Gateway" to the client, with no relay; a success writes the reply, forwards the head after the handshake bytes, and relays from the first byte after the handshake |
| LocalProxy.ConnectPlan | app/src/main/java/com/httpproxy/vpn/vpn/LocalProxyServer.java:97-111 | `handleConnect`'s plan: closes without a target, else the target, no forward, the 200 reply, the tunnel after the header block; `ConnectHead` states it |
| LocalProxy.ForwardedLine | app/src/main/java/com/httpproxy/vpn/vpn/LocalProxyServer.java:164-167 | corrected: the first line forwarded, in origin form by `ToOriginForm` when it is absolute; `RelativeLineAsWritten` is the source's |
| LocalProxy.HttpPlan | app/src/main/java/com/httpproxy/vpn/vpn/LocalProxyServer.java:127-173 | corrected: `handleHttpRequest`'s plan with `HostOfAbsoluteUri`, `ToOriginForm` and a one-byte-per-character forward; `HttpHead` states it |
| LocalProxy.PlanOf | app/src/main/java/com/httpproxy/vpn/vpn/LocalProxyServer.java:78-95 | corrected: `handleClient`'s plan (empty line, CONNECT, plain HTTP), with the corrected `HttpPlan`; `PlanOfHead` states it |
| LocalProxy.Carry | app/src/main/java/com/httpproxy/vpn/vpn/LocalProxyServer.java:113-124 | corrected: a plan carried out through the upstream: `Outcome` of `Upstream.ConnectSpec`, with the tunnel after the handshake |
| LocalProxy.Handle | app/src/main/java/com/httpproxy/vpn/vpn/LocalProxyServer.java:78-95 | corrected: `handleClient` on the client's bytes, `Carry` of `PlanOf`; `RelayOnlyAfterReply` states what it promises |
| LocalProxy.Dispatch | app/src/main/java/com/httpproxy/vpn/vpn/LocalProxyServer.java:155-172 | corrected: the call to `upstream.connect` (through the corrected `Upstream.Connect`) and what follows equal `Carry` of the plan |
| LocalProxy.HandleConnect | app/src/main/java/com/httpproxy/vpn/vpn/LocalProxyServer.java:97-125 | corrected: `handleConnect` equals `Carry` of `ConnectPlan`; the plan is the source's, the upstream connect the corrected one |
| LocalProxy.ReadHeaderBlock | app/src/main/java/com/httpproxy/vpn/vpn/LocalProxyServer.java:128-147 | the header loop: host and port are the `Host:` scan of the header lines, the block is the request head, and the stream is left after the blank line |
| LocalProxy.SwapFirstLine | app/src/main/java/com/httpproxy/vpn/vpn/LocalProxyServer.java:164-167 | `headerBlock.replace(0, firstLine.length(), line)` gives the head with `line` as first line |
| LocalProxy.HandleHttpRequest | app/src/main/java/com/httpproxy/vpn/vpn/LocalProxyServer.java:127-173 | corrected: `handleHttpRequest` equals `Carry` of the corrected `HttpPlan`; `HttpPlanAsWritten` is the source's plan |
| LocalProxy.HandleClient | app/src/main/java/com/httpproxy/vpn/vpn/LocalProxyServer.java:78-95 | corrected: `handleClient` equals the corrected `Handle` on the client's bytes; `PlanOfAsWritten` is the source's plan |
| LocalProxy.PlanOfHead | app/src/main/java/com/httpproxy/vpn/vpn/LocalProxyServer.java:82-91 | a head written with CR LF ends goes to the CONNECT or HTTP plan, with its headers ending where the rest begins |
| LocalProxy.EmptyFirstLineCloses | app/src/main/java/com/httpproxy/vpn/vpn/LocalProxyServer.java:82-86 | an empty first line (no bytes, or a line end first) closes the client with nothing written and no upstream asked |
| LocalProxy.ConnectHead | app/src/main/java/com/httpproxy/vpn/vpn/LocalProxyServer.java:97-125 | a CONNECT with a target asks the upstream for it and starts the tunnel exactly after the blank line; one without a target closes |
| LocalProxy.ConnectRequestTunnels | app/src/main/java/com/httpproxy/vpn/vpn/LocalProxyServer.java:87-125 | `CONNECT host:port version` tunnels to exactly that host and port, replying "200 Connection established" |
| LocalProxy.HttpHead | app/src/main/java/com/httpproxy/vpn/vpn/LocalProxyServer.java:127-173 | corrected: a plain request targets the last `Host:` line's host and port, or the URI's host (`HostOfAbsoluteUri`) on port 80, or closes; the head goes up one byte per character with its first line in origin form (`ToOriginForm`) |
| LocalProxy.OriginFormForwardedVerbatim | app/src/main/java/com/httpproxy/vpn/vpn/LocalProxyServer.java:164-171 | an origin-form request with a `Host:` line is forwarded byte for byte as the client sent it |
| LocalProxy.NoHostCloses | app/src/main/java/com/httpproxy/vpn/vpn/LocalProxyServer.java:148-153 | with no `Host:` line and no "http://" the client is closed and nothing is written |
| LocalProxy.AbsoluteUriKeepsPort80 | app/src/main/java/com/httpproxy/vpn/vpn/LocalProxyServer.java:129-157 | corrected: an absolute URI with a port and no `Host:` line targets the URI's host but port 80, and the line goes up in origin form, `/` for an empty path |
| LocalProxy.LastHostLineTargets | app/src/main/java/com/httpproxy/vpn/vpn/LocalProxyServer.java:132-146 | with several `Host:` lines the last one's host and port are the target |
| LocalProxy.RelayOnlyAfterReply | app/src/main/java/com/httpproxy/vpn/vpn/LocalProxyServer.java:97-173 | relaying happens only over an established tunnel after the reply; otherwise the client gets at most "502 Bad Gateway", and only when the upstream was asked |
| LocalProxy.ForwardAsWritten | app/src/main/java/com/httpproxy/vpn/vpn/LocalProxyServer.java:170 | as written, the head goes upstream in UTF-8: never fewer bytes than characters |
| LocalProxy.Utf8WriteAltersRequest | app/src/main/java/com/httpproxy/vpn/vpn/LocalProxyServer.java:170 | as written, a first line with a byte of 0x80 or more reaches the upstream altered; the corrected forward is the client's own bytes |
| LocalProxy.AsWrittenAgreesOnAscii | app/src/main/java/com/httpproxy/vpn/vpn/LocalProxyServer.java:170 | on an ASCII head the bytes as written and the corrected ones agree |
| LocalProxy.RelativeLineAsWritten | app/src/main/java/com/httpproxy/vpn/vpn/LocalProxyServer.java:164-167 | the first line forwarded as written: `toRelativeRequestLine`'s line, or the line itself when it returns null |
| LocalProxy.HttpPlanAsWritten | app/src/main/java/com/httpproxy/vpn/vpn/LocalProxyServer.java:127-173 | `handleHttpRequest`'s plan as written: `parseHostFromRequestLine`, `toRelativeRequestLine` and the UTF-8 write |
| LocalProxy.PlanOfAsWritten | app/src/main/java/com/httpproxy/vpn/vpn/LocalProxyServer.java:78-95 | `handleClient`'s plan as written |
| LocalProxy.HttpHeadAsWritten | app/src/main/java/com/httpproxy/vpn/vpn/LocalProxyServer.java:127-173 | as written, a plain request targets the last `Host:` line's host and port, or `parseHostFromRequestLine`'s host on port 80, or closes; the head goes up in UTF-8 with `toRelativeRequestLine`'s line |
| LocalProxy.ConnectPlansAgree | app/src/main/java/com/httpproxy/vpn/vpn/LocalProxyServer.java:97-125 | a CONNECT head gets the same plan as written and corrected |
| LocalProxy.OriginFormPlansAgree | app/src/main/java/com/httpproxy/vpn/vpn/LocalProxyServer.java:127-173 | a request in origin form with an ASCII head gets the same plan as written and corrected |
| LocalProxy.PathPlansAgree | app/src/main/java/com/httpproxy/vpn/vpn/LocalProxyServer.java:127-201 | an absolute URI with a path and an ASCII head gets the same plan as written and corrected |
| LocalProxy.NoPathPlansDiverge | app/src/main/java/com/httpproxy/vpn/vpn/LocalProxyServer.java:148-201 | an absolute URI without a path and without a `Host:` line: as written the target is the authority plus the version up to its '/' and the line goes up in absolute form; corrected, the authority and `m / version` |
| LocalProxy.StartSpec | app/src/main/java/com/httpproxy/vpn/vpn/LocalProxyServer.java:47-53 | `start` acts only when not running, and leaves the server running |
| LocalProxy.StopSpec | app/src/main/java/com/httpproxy/vpn/vpn/LocalProxyServer.java:55-61 | `stop` leaves the server not running |
| LocalProxy.StartIsIdempotent | app/src/main/java/com/httpproxy/vpn/vpn/LocalProxyServer.java:48 | a second `start` does nothing |
| LocalProxy.StopIsIdempotent | app/src/main/java/com/httpproxy/vpn/vpn/LocalProxyServer.java:56 | a second `stop` does nothing |
| LocalProxy.StopClosesListener | app/src/main/java/com/httpproxy/vpn/vpn/LocalProxyServer.java:55-61 | stopping leaves no listening socket and the executor shut down |
| LocalProxy.AcceptLoopOnlyOnStart | app/src/main/java/com/httpproxy/vpn/vpn/LocalProxyServer.java:47-53 | an accept loop starts exactly when a stopped server binds before any `stop` |
| LocalProxy.BindFailureStaysRunning | app/src/main/java/com/httpproxy/vpn/vpn/LocalProxyServer.java:48-51 | after a failed bind the server counts as running, so `start` does nothing until a `stop`, after which no loop can start |
| LocalProxy.RestartAfterStopRunsNoLoop | app/src/main/java/com/httpproxy/vpn/vpn/LocalProxyServer.java:47-61 | start, stop, start: the second start binds, but the shut-down executor refuses its accept loop |
| LocalProxy.LocalProxyServer.constructor | app/src/main/java/com/httpproxy/vpn/vpn/LocalProxyServer.java:38-41 | the upstream and port as given, not running, no socket |
| LocalProxy.LocalProxyServer.OnDefaultPort | app/src/main/java/com/httpproxy/vpn/vpn/LocalProxyServer.java:34-36 | the upstream as given on port 18080, not running |
| LocalProxy.LocalProxyServer.Start | app/src/main/java/com/httpproxy/vpn/vpn/LocalProxyServer.java:47-53 | the new state and outcome are `StartSpec` of the old state |
| LocalProxy.LocalProxyServer.Stop | app/src/main/java/com/httpproxy/vpn/vpn/LocalProxyServer.java:55-61 | the new state is `StopSpec` of the old state |
| LocalProxy.LocalProxyServer.Serve | app/src/main/java/com/httpproxy/vpn/vpn/LocalProxyServer.java:78-95 | corrected: an accepted client is handled as the corrected `Handle` through this server's upstream |
| DefaultProxyPackages.InstalledAmongMembers | app/src/main/java/com/httpproxy/vpn/vpn/DefaultProxyPackages.java:60-75 | a loop over names adds exactly the listed, installed, non-excluded names |
| DefaultProxyPackages.InstalledAmong | app/src/main/java/com/httpproxy/vpn/vpn/DefaultProxyPackages.java:59-75 | the listed names that are installed and not excluded; `InstalledAmongMembers` states it and `AddInstalled` is proved against it |
| DefaultProxyPackages.MatchingMembers | app/src/main/java/com/httpproxy/vpn/vpn/DefaultProxyPackages.java:78-95 | a loop over the installed apps adds exactly the non-excluded names of apps the rule selects |
| DefaultProxyPackages.Matching | app/src/main/java/com/httpproxy/vpn/vpn/DefaultProxyPackages.java:77-95 | the non-excluded installed apps a rule selects; `MatchingMembers` states it and `AddMatching` is proved against it |
| DefaultProxyPackages.DefaultPackagesMembers | app/src/main/java/com/httpproxy/vpn/vpn/DefaultProxyPackages.java:42-98 | the result is exactly: with a package manager and not excluded, installed and in the file or either table, or an installed app that looks like a browser or is not a system app |
| DefaultProxyPackages.NoPackageManagerIsEmpty | app/src/main/java/com/httpproxy/vpn/vpn/DefaultProxyPackages.java:44-45 | without a package manager the result is empty |
| DefaultProxyPackages.ExcludedNeverIncluded | app/src/main/java/com/httpproxy/vpn/vpn/DefaultProxyPackages.java:42-98 | the excluded package is never in the result |
| DefaultProxyPackages.OnlyInstalled | app/src/main/java/com/httpproxy/vpn/vpn/DefaultProxyPackages.java:42-98 | everything in the result is installed |
| DefaultProxyPackages.FilePackageIffInstalled | app/src/main/java/com/httpproxy/vpn/vpn/DefaultProxyPackages.java:48-57 | a package in the file, not excluded, is included exactly when installed |
| DefaultProxyPackages.TablePackageIffInstalled | app/src/main/java/com/httpproxy/vpn/vpn/DefaultProxyPackages.java:59-75 | a preferred app or known browser, not excluded, is included exactly when installed |
| DefaultProxyPackages.BrowserLikeAppIncluded | app/src/main/java/com/httpproxy/vpn/vpn/DefaultProxyPackages.java:77-87 | an installed app whose name or label looks like a browser is included unless excluded |
| DefaultProxyPackages.UserAppIncluded | app/src/main/java/com/httpproxy/vpn/vpn/DefaultProxyPackages.java:89-95 | every installed non-system app is included unless excluded |
| DefaultProxyPackages.UnlistedSystemAppLeftOut | app/src/main/java/com/httpproxy/vpn/vpn/DefaultProxyPackages.java:42-98 | an unlisted system app that does not look like a browser is left out |
| DefaultProxyPackages.LowerKeepsNonLetters | app/src/main/java/com/httpproxy/vpn/vpn/DefaultProxyPackages.java:82-84 | lowercasing keeps a substring without capital letters, such as "浏览器" |
| DefaultProxyPackages.ChineseBrowserLabelIncluded | app/src/main/java/com/httpproxy/vpn/vpn/DefaultProxyPackages.java:81-86 | an app labelled with "浏览器" is included unless excluded |
| DefaultProxyPackages.GetPackageInfo | app/src/main/java/com/httpproxy/vpn/vpn/DefaultProxyPackages.java:52-55 | `getPackageInfo` succeeds exactly for an installed package |
| DefaultProxyPackages.LooksLikeBrowser | app/src/main/java/com/httpproxy/vpn/vpn/DefaultProxyPackages.java:77-87 | the fallback test: "browser", "webview" or "web.view" in the lower-cased package name, or "浏览器", "browser" or "webview" in the lower-cased label; `BrowserLikeAppIncluded` states its use |
| DefaultProxyPackages.DefaultPackages | app/src/main/java/com/httpproxy/vpn/vpn/DefaultProxyPackages.java:42-98 | `getDefaultPackages` on its inputs; `DefaultPackagesMembers` states its members |
| DefaultProxyPackages.AddInstalled | app/src/main/java/com/httpproxy/vpn/vpn/DefaultProxyPackages.java:59-66 | a loop over names adds `InstalledAmong` of them to the result |
| DefaultProxyPackages.AddMatching | app/src/main/java/com/httpproxy/vpn/vpn/DefaultProxyPackages.java:89-95 | a loop over the installed apps adds `Matching` of them to the result |
| DefaultProxyPackages.GetDefaultPackages | app/src/main/java/com/httpproxy/vpn/vpn/DefaultProxyPackages.java:42-98 | `getDefaultPackages` computes `DefaultPackages` |

## Left out

- `acceptLoop`, `relay` and `copy` are not modelled: they are threads and blocking byte copying. `LocalProxyServer.Serve` handles one accepted client, and a `Handling` records whether the two sockets would be relayed and what each side still has to send.
- Dialling a proxy (`socket.connect` with its 15-second timeout) is a parameter, `Dial`. `SO_TIMEOUT` and `setReuseAddress` have no effect in the model.
- `handleClient`'s catch-all is not modelled: writes to the client or the upstream never fail here, so no `IOException` arises after the dial.
- `AtomicBoolean.compareAndSet` is modelled as a sequential test-and-set. Races between `start` and `stop` on different threads are not modelled.
- `getPort` is a getter of the `port` field and has no member of its own.
- Text.ToUpperAscii: folds ASCII letters only. Java's `toUpperCase()` also maps other letters and depends on the default locale. No character below U+0100 other than an ASCII letter upper-cases to a letter of "CONNECT", and "CONNECT" has no `i`. So on the lines `readLine` produces, one character per byte, `IsConnect` agrees with Java in every locale.
- Text.ToLowerAscii: folds ASCII letters only. Java's `toLowerCase()` also maps other letters and depends on the default locale. For the `Host:` test at `LocalProxyServer.java:133` this makes no difference, for the same reason as above. In `DefaultProxyPackages` it does, on package names and labels in a Turkish locale. There "WEBVIEW" lower-cases to "webvıew", with a dotless ı, so `LooksLikeBrowser` accepts a label the source rejects. Conversely, "WEBVİEW" lower-cases to "webview" there, which the source accepts and the model does not. Outside a Turkish locale the two agree on every pattern matched.
- Text.ParseInt: ASCII digits only. Java's `Integer.parseInt` also accepts other Unicode decimal digits.
- HttpUpstream.StatusVerdict: the status line is decoded one character per byte, while the source decodes UTF-8. Line ends and spaces fall in the same places either way, because those bytes never occur inside a multi-byte UTF-8 sequence. The verdict is the same unless the code field holds non-ASCII characters: `Integer.parseInt` reads other Unicode decimal digits ("٢٠٠" is 200), while the model reads such a code as 0 and rejects. The rejection message also differs for a non-ASCII reason phrase.
- LocalProxy.HandleClient: follows the corrected program, `Handle`, not the source as written. The corrections are the four rows under "Findings". The source's plan is `PlanOfAsWritten`. `ConnectPlansAgree`, `OriginFormPlansAgree` and `PathPlansAgree` show the two plans agree on a CONNECT, on a request in origin form and on an absolute URI with a path, each with an ASCII head. `NoPathPlansDiverge` states where they differ.
- LocalProxy.PlanOf: the corrected plan. For a plain HTTP request it uses `HttpPlan`, not the source's plan. The source's plan is `PlanOfAsWritten`. `ConnectPlansAgree`, `OriginFormPlansAgree`, `PathPlansAgree` and `NoPathPlansDiverge` relate the two.
- LocalProxy.HttpPlan: the corrected plan for a plain HTTP request. It uses `HostOfAbsoluteUri` and `ToOriginForm`, and forwards one byte per character. The source's plan is `HttpPlanAsWritten`.
- LocalProxy.ForwardedLine: the corrected first line, by `ToOriginForm`. The source's is `RelativeLineAsWritten`.
- LocalProxy.Carry: carries a plan out through the corrected `Upstream.ConnectSpec` semantics. The relay gets every answer byte after the handshake. As written, an HTTP upstream's tunnel is only what its `BufferedReader` left in the socket, as `Upstream.ConnectAsWritten` states.
- LocalProxy.Handle: the corrected program, `Carry` of `PlanOf`. The source's plan is `PlanOfAsWritten`, and its connect is `Upstream.ConnectAsWritten`.
- LocalProxy.HandleHttpRequest: follows the corrected `HttpPlan`. Without a `Host:` line it takes the host from `HostOfAbsoluteUri`, where the source calls `parseHostFromRequestLine`. It rewrites the line with `ToOriginForm`, where the source calls `toRelativeRequestLine`. It forwards the head one byte per character, where the source writes UTF-8. The source's plan is `HttpPlanAsWritten`, and `Utf8WriteAltersRequest` and `NoPathPlansDiverge` show where the two differ.
- LocalProxy.HttpHead: states the corrected plan. `HttpHeadAsWritten` states the source's.
- LocalProxy.AbsoluteUriKeepsPort80: states the corrected plan. For a URI with a path the source agrees (`PathPlansAgree`). For an empty path the source targets another host and sends the absolute-form line (`NoPathPlansDiverge`).
- LocalProxy.HandleConnect: its plan is the source's. The connect goes through the corrected `Upstream.Connect`, so after an HTTP upstream's reply the relay includes bytes the source's reader swallows.
- LocalProxy.Dispatch: calls the corrected `Upstream.Connect`. The source's connect is `Upstream.ConnectAsWritten`.
- LocalProxy.LocalProxyServer.Serve: handles a client as the corrected `Handle`, like `HandleClient`.
- Upstream.Connect: calls the corrected clients. As written, the HTTP client hands on only what its `BufferedReader` left in the socket (`HttpUpstream.ReadAheadSwallowsTunnelBytes`). The SOCKS5 client leaves its socket open when the reply ends early (`Socks5Upstream.EofLeavesSocketOpen`). `Upstream.ConnectAsWritten` is the source's connect. The `Handling` of the corrected handler is not restated for it.
- `BufferedReader`/`InputStreamReader` are modelled as one buffer refilled one chunk of the stream at a time. The real reader may read further ahead, which only strengthens the read-ahead finding below.
- `android.util.Base64.encodeToString` with `NO_WRAP` is a platform call. It is modelled by section 4 of RFC 4648.
- `ConfigFileReader.read` and the `PackageManager` are parameters: the optional file list, and the optional list of installed apps with their labels and system flag. Both calls to `getInstalledApplications` are taken to return the same list. `ConfigFileReader` is not part of this model.
- In `handleHttpRequest` the first line of the header block is replaced after `upstream.connect` returns. The model replaces it before the call. The bytes written are the same, since nothing reads the block in between.
- The SOCKS5 client's own `socket.close()` on failure is the `open` flag of an `Exchange`. The socket objects themselves are not modelled.

## Findings

| source | as written | input that shows it | evidently intended | confidence | as-written member | corrected member |
|---|---|---|---|---|---|---|
| app/src/main/java/com/httpproxy/vpn/vpn/LocalProxyServer.java:175-201 | Two things go wrong for an absolute URI without a path. First, `toRelativeRequestLine` takes the '/' inside the version as the path's start, finds the last space before it, and returns null; the `path.isEmpty()` branch is never reached. Second, `parseHostFromRequestLine` takes everything up to that '/' as the host. | `GET http://example.com HTTP/1.0` with no `Host:` line: the connect goes to host "example.com HTTP", and the line would be forwarded in absolute form | host "example.com", line `GET / HTTP/1.0` | high, not executed | RequestLine.NoPathDiverges | RequestLine.OriginFormOfAbsolute |
| app/src/main/java/com/httpproxy/vpn/proxy/Socks5UpstreamClient.java:117-126 | `readExactly` throws on a premature end of stream without closing the socket, while every other failure closes it first | a proxy that accepts the TCP connection and closes it without answering the greeting | the socket closed on every failure | medium, not executed | Socks5Upstream.EofLeavesSocketOpen | Socks5Upstream.ConnectClosingOnFailure |
| app/src/main/java/com/httpproxy/vpn/vpn/LocalProxyServer.java:170 | `readLine` turns each byte into one `char` (line 246), but the header block is written back with `getBytes(UTF_8)`, so each byte of 0x80 or more becomes two bytes | a request line with a raw UTF-8 path, e.g. bytes C3 A9 for "é", and a `Host:` line: the upstream receives C3 83 C2 A9 | the request head forwarded as the client sent it | high, not executed | LocalProxy.Utf8WriteAltersRequest | LocalProxy.OriginFormForwardedVerbatim |
| app/src/main/java/com/httpproxy/vpn/proxy/HttpUpstreamClient.java:52-69 | The status and header lines are read through a `BufferedReader`, but the raw socket is returned. Bytes the proxy sent after the blank line in the same read stay in the discarded reader. | the proxy answers `HTTP/1.1 200 Connection established` CR LF CR LF and the first tunnel bytes (a server-first protocol's greeting) in one chunk: the tunnel loses them | the tunnel starting right after the blank line | medium, not executed | HttpUpstream.ReadAheadSwallowsTunnelBytes | HttpUpstream.ConnectKeepingReadAhead |
