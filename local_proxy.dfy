/** The local HTTP proxy listening on 127.0.0.1: it reads a client's request
    head byte by byte, opens a tunnel to the target through the upstream proxy
    client, and either answers a CONNECT with "200 Connection established" or
    forwards the request head; then it relays the two sockets. */
module LocalProxy {
  import opened Text
  import opened Net
  import opened RequestLine
  import LineReader
  import Upstream

  const CONNECT_OK: string := "HTTP/1.1 200 Connection established\r\n\r\n"
  const BAD_GATEWAY: string := "HTTP/1.1 502 Bad Gateway\r\n\r\n"
  const LOCAL_PORT: int32 := 18080

  const CR: byte := LineReader.CR
  const LF: byte := LineReader.LF

  // ------------------------------------------------------------ readLine

  /** `readLine(in)` on the bytes `data` still to come: one character per byte
      up to the first CR or LF, and how many bytes it takes. After a CR it
      takes one byte more, whatever that byte is; at the end of the stream it
      returns what it has, possibly the empty line, never null. */
  function LineFrom(data: seq<byte>): (r: (string, nat))
    ensures r.1 <= |data| && |r.0| <= r.1
    ensures data != [] ==> r.1 > 0
    decreases |data|
  {
    if data == [] then ([], 0)
    else if data[0] == CR then ([], if |data| == 1 then 1 else 2)
    else if data[0] == LF then ([], 1)
    else
      var tail := LineFrom(data[1..]);
      ([data[0] as char] + tail.0, tail.1 + 1)
  }

  /** The line is the bytes before the first CR or LF, read one character per
      byte; a CR ending it takes the next byte too, if there is one. */
  lemma {:induction false} LineFromFirstEol(data: seq<byte>)
    ensures var i := LineReader.EolFrom(data, 0);
      && LineFrom(data).0 == Latin1Decode(data[..i])
      && LineFrom(data).1 == (if i == |data| then i else if data[i] == CR && i + 1 < |data| then i + 2 else i + 1)
    decreases |data|
  {
    if data != [] && !LineReader.IsEol(data[0]) {
      LineFromFirstEol(data[1..]);
      EolOfTail(data);
      var i := LineReader.EolFrom(data, 0);
      assert data[1..][..i - 1] == data[1..i];
      assert data[..i] == [data[0]] + data[1..i];
    }
  }

  /** Past a first byte that ends no line, the first line end is one further on. */
  lemma EolOfTail(data: seq<byte>)
    requires data != [] && !LineReader.IsEol(data[0])
    ensures LineReader.EolFrom(data, 0) == 1 + LineReader.EolFrom(data[1..], 0)
  {
    var j := LineReader.EolFrom(data[1..], 0);
    var line, tail := data[..1 + j], data[1..][..j];
    forall k | 0 <= k < 1 + j
      ensures !LineReader.IsEol(line[k])
    {
      if k > 0 {
        assert line[k] == tail[k - 1];
      }
    }
    LineReader.FirstEol(data, 1 + j);
  }

  /** A line of characters as the client writes them: each one byte, none a
      line end. */
  predicate LineChars(line: string) {
    forall k :: 0 <= k < |line| ==> line[k] as int < 256 && line[k] != '\r' && line[k] != '\n'
  }

  lemma LatinLineHasNoEol(line: string)
    requires LineChars(line)
    ensures LineReader.NoEol(Latin1Encode(line))
  {
    var w := Latin1Encode(line);
    forall k | 0 <= k < |w|
      ensures !LineReader.IsEol(w[k])
    {
      assert w[k] == line[k] as int;
    }
  }

  /** A line the client ends with `ending` (CR LF, a lone LF, or a CR with any
      byte after it) is read back exactly, and the reader stops after the ending. */
  lemma ReadLineOfEnding(line: string, ending: seq<byte>, rest: seq<byte>)
    requires LineChars(line)
    requires ending == [CR, LF] || ending == [LF] || (|ending| == 2 && ending[0] == CR)
    ensures LineFrom(Latin1Encode(line) + ending + rest) == (line, |line| + |ending|)
  {
    var w := Latin1Encode(line);
    var data := w + ending + rest;
    assert data[..|w|] == w && data[|w|] == ending[0];
    LatinLineHasNoEol(line);
    LineReader.FirstEol(data, |w|);
    LineFromFirstEol(data);
    Latin1DecodeEncode(line);
  }

  /** At the end of the stream the partial line comes back, without its end. */
  lemma ReadLineAtEnd(line: string)
    requires LineChars(line)
    ensures LineFrom(Latin1Encode(line)) == (line, |line|)
  {
    var w := Latin1Encode(line);
    assert w[..|w|] == w;
    LatinLineHasNoEol(line);
    LineReader.FirstEol(w, |w|);
    LineFromFirstEol(w);
    Latin1DecodeEncode(line);
  }

  /** Unlike a buffered reader's `readLine`, a lone CR swallows the byte
      after it: the next line starts one byte later. */
  lemma LoneCrSwallowsNextByte(line: string, x: byte, rest: seq<byte>)
    requires LineChars(line) && x != LF
    ensures var data := Latin1Encode(line) + [CR, x] + rest;
      && LineFrom(data) == (line, |line| + 2)
      && LineReader.NextLine(data) == Some((Latin1Encode(line), |line| + 1))
  {
    ReadLineOfEnding(line, [CR, x], rest);
    var w := Latin1Encode(line);
    var data := w + [CR, x] + rest;
    assert data[..|w|] == w && data[|w|] == CR && data[|w| + 1] == x;
    LatinLineHasNoEol(line);
    LineReader.FirstEol(data, |w|);
  }

  /** `readLine`: reads byte by byte, appending each one as a character,
      until the end of the stream, a LF, or a CR (after which it reads and
      drops one more byte). */
  method ReadLine(st: Stream) returns (line: string, rest: Stream)
    ensures line == LineFrom(Pending(st)).0
    ensures Pending(rest) == Pending(st)[LineFrom(Pending(st)).1..]
  {
    ghost var data := Pending(st);
    ghost var off: nat := 0;
    line, rest := [], st;
    assert LineFrom(data).0 == line + LineFrom(data).0;
    while true
      invariant off <= |data| && Pending(rest) == data[off..]
      invariant LineFrom(data).0 == line + LineFrom(data[off..]).0
      invariant LineFrom(data).1 == off + LineFrom(data[off..]).1
      decreases |data| - off
    {
      var (c, r1) := ReadByte(rest);
      if c == -1 {
        return;
      }
      if c == CR {
        var (_, r2) := ReadByte(r1);
        rest := r2;
        return;
      }
      if c == LF {
        rest := r1;
        return;
      }
      assert LineFrom(data[off..]).0 == [c as char] + LineFrom(data[off + 1..]).0 by {
        DropDrop(data, off, 1);
      }
      line, rest, off := line + [c as char], r1, off + 1;
    }
  }

  // ------------------------------------------------------------ header lines

  /** The header lines after the first line, read until `readLine` returns
      the empty line (a blank line or the end of the stream), and how many
      bytes they take, blank line included. */
  function HeaderLines(data: seq<byte>): (r: (seq<string>, nat))
    ensures r.1 <= |data|
    decreases |data|
  {
    var line := LineFrom(data);
    if line.0 == [] then ([], line.1)
    else
      var tail := HeaderLines(data[line.1..]);
      ([line.0] + tail.0, line.1 + tail.1)
  }

  /** The header lines as the client writes them, each ended by CR LF. */
  function HeaderText(lines: seq<string>): string {
    if lines == [] then [] else lines[0] + "\r\n" + HeaderText(lines[1..])
  }

  /** The request head as the client writes it: the first line, the header
      lines, and the blank line, each ended by CR LF. */
  function RequestHead(first: string, lines: seq<string>): string {
    first + "\r\n" + HeaderText(lines) + "\r\n"
  }

  predicate HeadLine(line: string) {
    line != [] && LineChars(line)
  }

  predicate HeadLines(lines: seq<string>) {
    forall k :: 0 <= k < |lines| ==> HeadLine(lines[k])
  }

  lemma CrLfBytes()
    ensures Latin1Encode("\r\n") == [CR, LF]
  {
  }

  /** Header lines written with CR LF and a blank line are read back exactly,
      and the reading stops right after the blank line. */
  lemma {:induction false} HeaderLinesOfText(lines: seq<string>, rest: seq<byte>)
    requires HeadLines(lines)
    ensures HeaderLines(Latin1Encode(HeaderText(lines)) + [CR, LF] + rest) == (lines, |HeaderText(lines)| + 2)
    decreases |lines|
  {
    if lines == [] {
      BlankLineEnds(rest);
    } else {
      HeaderLinesOfText(lines[1..], rest);
      HeaderLinesOfTextCons(lines[0], lines[1..], rest);
      assert [lines[0]] + lines[1..] == lines;
    }
  }

  lemma BlankLineEnds(rest: seq<byte>)
    ensures HeaderLines(Latin1Encode(HeaderText([])) + [CR, LF] + rest) == ([], 2)
  {
    var data := Latin1Encode(HeaderText([])) + [CR, LF] + rest;
    assert data == [CR, LF] + rest;
    assert LineFrom(data) == ([], 2);
  }

  lemma HeaderLinesOfTextCons(l: string, ls: seq<string>, rest: seq<byte>)
    requires HeadLine(l)
    requires HeaderLines(Latin1Encode(HeaderText(ls)) + [CR, LF] + rest) == (ls, |HeaderText(ls)| + 2)
    ensures HeaderLines(Latin1Encode(HeaderText([l] + ls)) + [CR, LF] + rest) == ([l] + ls, |HeaderText([l] + ls)| + 2)
  {
    var tail := Latin1Encode(HeaderText(ls)) + [CR, LF] + rest;
    var data := Latin1Encode(HeaderText([l] + ls)) + [CR, LF] + rest;
    assert data == Latin1Encode(l) + [CR, LF] + tail && |HeaderText([l] + ls)| == |l| + 2 + |HeaderText(ls)| by {
      EncodeCons(l, ls, rest);
    }
    ghost var n := |HeaderText(ls)| + 2;
    assert HeaderLines(data) == ([l] + ls, |l| + 2 + n) by {
      HeaderLinesCons(l, tail, data);
    }
  }

  /** One more line in front: its bytes, then CR LF, then the rest. */
  lemma EncodeCons(l: string, ls: seq<string>, rest: seq<byte>)
    ensures var lines := [l] + ls;
      && Latin1Encode(HeaderText(lines)) + [CR, LF] + rest
         == Latin1Encode(l) + [CR, LF] + (Latin1Encode(HeaderText(ls)) + [CR, LF] + rest)
      && |HeaderText(lines)| == |l| + 2 + |HeaderText(ls)|
  {
    var lines := [l] + ls;
    assert lines[0] == l && lines[1..] == ls;
    assert HeaderText(lines) == l + "\r\n" + HeaderText(ls);
    Latin1EncodeAppend(l + "\r\n", HeaderText(ls));
    Latin1EncodeAppend(l, "\r\n");
    CrLfBytes();
    Regroup3(Latin1Encode(l) + [CR, LF], Latin1Encode(HeaderText(ls)), [CR, LF], rest);
  }

  /** A non-empty line ended by CR LF is one more header line. */
  lemma HeaderLinesCons(l: string, tail: seq<byte>, data: seq<byte>)
    requires HeadLine(l) && data == Latin1Encode(l) + [CR, LF] + tail
    ensures var r := HeaderLines(tail);
      HeaderLines(data) == ([l] + r.0, |l| + 2 + r.1)
  {
    ReadLineOfEnding(l, [CR, LF], tail);
    assert data[|l| + 2..] == tail;
  }

  /** A request head the client writes is read back as its first line and
      its header lines, and what follows it is left unread. */
  lemma ReadRequestHead(first: string, lines: seq<string>, rest: seq<byte>)
    requires HeadLine(first) && HeadLines(lines)
    ensures var data := Latin1Encode(RequestHead(first, lines)) + rest;
      var n := |first| + 2;
      && LineFrom(data) == (first, n)
      && HeaderLines(data[n..]) == (lines, |HeaderText(lines)| + 2)
      && data[n + |HeaderText(lines)| + 2..] == rest
  {
    var data := Latin1Encode(RequestHead(first, lines)) + rest;
    var tail := Latin1Encode(HeaderText(lines)) + [CR, LF] + rest;
    assert data == Latin1Encode(first) + [CR, LF] + tail by {
      Latin1EncodeAppend(first + "\r\n" + HeaderText(lines), "\r\n");
      Latin1EncodeAppend(first + "\r\n", HeaderText(lines));
      Latin1EncodeAppend(first, "\r\n");
      CrLfBytes();
      Regroup3(Latin1Encode(first) + [CR, LF], Latin1Encode(HeaderText(lines)), [CR, LF], rest);
    }
    ReadLineOfEnding(first, [CR, LF], tail);
    assert data[|first| + 2..] == tail;
    HeaderLinesOfText(lines, rest);
    assert tail[|HeaderText(lines)| + 2..] == rest;
  }

  /** `consumeHeaders`: reads lines until the empty one. */
  method ConsumeHeaders(st: Stream) returns (rest: Stream)
    ensures Pending(rest) == Pending(st)[HeaderLines(Pending(st)).1..]
  {
    ghost var data := Pending(st);
    ghost var off: nat := 0;
    rest := st;
    while true
      invariant off <= |data| && Pending(rest) == data[off..]
      invariant HeaderLines(data).1 == off + HeaderLines(data[off..]).1
      decreases |data| - off
    {
      var line, r1 := ReadLine(rest);
      ghost var n := LineFrom(data[off..]).1;
      HeaderLinesStep(data[off..]);
      DropDrop(data, off, n);
      if line == [] {
        rest := r1;
        return;
      }
      rest, off := r1, off + n;
    }
  }

  // ------------------------------------------------------------ handling a client

  /** What handling one client amounts to: the host and port handed to
      `upstream.connect` (none when it is not called), every byte written to
      the upstream socket, the text written to the client (in UTF-8) before any relay,
      whether the two sockets are then relayed, and what each side still has
      to send when the relay starts. */
  datatype Handling = Handling(
    target: Option<(string, int32)>,
    toUpstream: seq<byte>,
    toClient: string,
    relayed: bool,
    clientRest: seq<byte>,
    upstreamRest: seq<byte>)

  /** The client is closed without a byte written anywhere. */
  function Closed(clientRest: seq<byte>): (h: Handling)
    ensures h.target.None? && h.toUpstream == [] && h.toClient == [] && !h.relayed
  {
    Handling(None, [], [], false, clientRest, [])
  }

  /** What the request head decides before the upstream is involved: close
      the client, or ask the upstream for a tunnel to `host`:`port`, to which
      `forward` goes on success while the client gets `reply`. */
  datatype Plan =
    | CloseClient(clientRest: seq<byte>)
    | ConnectUpstream(host: string, port: int32, forward: seq<byte>, reply: string, clientRest: seq<byte>)

  /** `upstream.connect(host, port)` having answered with the exchange `x`
      over the proxy's reply bytes `answer`: when it failed, "502 Bad
      Gateway" to the client and close; when it succeeded, the forward bytes
      to the tunnel and the reply to the client before the relay. */
  function Outcome(p: Plan, x: Exchange, answer: seq<byte>): (h: Handling)
    requires p.ConnectUpstream? && x.consumed <= |answer|
    ensures h.target == Some((p.host, p.port)) && h.clientRest == p.clientRest
    ensures h.relayed <==> x.verdict == Established
    ensures h.toClient == (if h.relayed then p.reply else BAD_GATEWAY)
    ensures h.toUpstream == (if h.relayed then x.sent + p.forward else x.sent)
    ensures h.upstreamRest == (if h.relayed then answer[x.consumed..] else [])
  {
    if x.verdict != Established then
      Handling(Some((p.host, p.port)), x.sent, BAD_GATEWAY, false, p.clientRest, [])
    else
      Handling(Some((p.host, p.port)), x.sent + p.forward, p.reply, true, p.clientRest, answer[x.consumed..])
  }

  /** A plan carried out through the upstream client `u` over the dial `dial`. */
  function Carry(u: Upstream.UpstreamProxyClient, dial: Dial, p: Plan): Handling {
    match p
    case CloseClient(rest) => Closed(rest)
    case ConnectUpstream(host, port, _, _, _) =>
      Outcome(p, Upstream.ConnectSpec(u, dial, host, port), ReplyBytes(dial))
  }

  /** `handleConnect`'s plan, on the bytes after the first line: no target
      closes the client; otherwise the headers are read and dropped before the
      upstream is asked for a tunnel, and on success the client gets "200
      Connection established". */
  function ConnectPlan(first: string, after: seq<byte>): Plan {
    match ConnectTarget(first)
    case None => CloseClient(after)
    case Some((host, port)) =>
      ConnectUpstream(host, port, [], CONNECT_OK, after[HeaderLines(after).1..])
  }

  /** The request line forwarded upstream: in origin form when it is in
      absolute form, otherwise as the client sent it. */
  function ForwardedLine(first: string): string {
    match ToOriginForm(first)
    case Some(line) => line
    case None => first
  }

  /** `handleHttpRequest`'s plan, on the bytes after the first line: the host
      and port of the last `Host:` header (port 80 without one), or else the
      host of the absolute URI; with neither the client is closed. On success
      the request head goes on to the tunnel with its first line in origin form. */
  function HttpPlan(first: string, after: seq<byte>): Plan {
    var head := HeaderLines(after);
    var hp := ScanHeaders(NO_HOST, head.0);
    var host := if hp.host.Some? then hp.host else HostOfAbsoluteUri(first);
    match host
    case None => CloseClient(after[head.1..])
    case Some(h) =>
      ConnectUpstream(h, hp.port, Latin1Encode(RequestHead(ForwardedLine(first), head.0)), "", after[head.1..])
  }

  /** `handleClient`'s plan: an empty first line closes the client; a first
      line that starts with "CONNECT " in any letter case is a CONNECT;
      anything else is a plain HTTP request. */
  function PlanOf(client: seq<byte>): Plan {
    var first := LineFrom(client);
    if first.0 == [] then CloseClient(client[first.1..])
    else if IsConnect(first.0) then ConnectPlan(first.0, client[first.1..])
    else HttpPlan(first.0, client[first.1..])
  }

  /** `handleClient` on the client's bytes. */
  function Handle(u: Upstream.UpstreamProxyClient, dial: Dial, client: seq<byte>): Handling {
    Carry(u, dial, PlanOf(client))
  }

  /** The call to `upstream.connect` and what the handlers do with its outcome. */
  method Dispatch(u: Upstream.UpstreamProxyClient, dial: Dial, p: Plan) returns (h: Handling)
    ensures h == Carry(u, dial, p)
  {
    if p.CloseClient? {
      h := Closed(p.clientRest);
      return;
    }
    var verdict, sent, open, rest := Upstream.Connect(u, dial, p.host, p.port);
    if verdict != Established {
      h := Handling(Some((p.host, p.port)), sent, BAD_GATEWAY, false, p.clientRest, []);
      return;
    }
    h := Handling(Some((p.host, p.port)), sent + p.forward, p.reply, true, p.clientRest, Pending(rest));
  }

  /** `handleConnect`. */
  method HandleConnect(u: Upstream.UpstreamProxyClient, dial: Dial, first: string, clientIn: Stream)
    returns (h: Handling)
    ensures h == Carry(u, dial, ConnectPlan(first, Pending(clientIn)))
  {
    var parts := SplitOnSpaces(first);
    if |parts| < 2 {
      h := Closed(Pending(clientIn));
      return;
    }
    var (host, port) := SplitAuthority(parts[1]);
    var rest := ConsumeHeaders(clientIn);
    h := Dispatch(u, dial, ConnectUpstream(host, port, [], CONNECT_OK, Pending(rest)));
  }

  /** The header loop of `handleHttpRequest`: reads lines until the empty
      one, keeping the host and port of `Host:` lines and appending every
      line with CR LF to the header block, which it then closes with a
      blank line. */
  method ReadHeaderBlock(first: string, clientIn: Stream)
    returns (host: Option<string>, port: int32, block: string, rest: Stream)
    ensures HostPort(host, port) == ScanHeaders(NO_HOST, HeaderLines(Pending(clientIn)).0)
    ensures block == RequestHead(first, HeaderLines(Pending(clientIn)).0)
    ensures Pending(rest) == Pending(clientIn)[HeaderLines(Pending(clientIn)).1..]
  {
    ghost var data := Pending(clientIn);
    ghost var seen: seq<string> := [];
    ghost var off: nat := 0;
    host, port := None, HTTP_DEFAULT_PORT;
    block := first + "\r\n";
    rest := clientIn;
    assert HeaderLines(data).0 == seen + HeaderLines(data).0;
    while true
      invariant off <= |data| && Pending(rest) == data[off..]
      invariant HeaderLines(data).0 == seen + HeaderLines(data[off..]).0
      invariant HeaderLines(data).1 == off + HeaderLines(data[off..]).1
      invariant HostPort(host, port) == ScanHeaders(NO_HOST, seen)
      invariant block == first + "\r\n" + HeaderText(seen)
      decreases |data| - off
    {
      var line, r1 := ReadLine(rest);
      ghost var n := LineFrom(data[off..]).1;
      HeaderLinesStep(data[off..]);
      DropDrop(data, off, n);
      if line == [] {
        assert seen + [] == seen;
        rest, off := r1, off + n;
        break;
      }
      var step := HostHeaderStep(HostPort(host, port), line);
      host, port := step.host, step.port;
      ScanHeadersSnoc(NO_HOST, seen, line);
      HeaderTextSnoc(seen, line);
      Append3(seen, [line], HeaderLines(data[off + n..]).0);
      Append4(first + "\r\n", HeaderText(seen), line, "\r\n");
      block := block + line + "\r\n";
      seen := seen + [line];
      rest, off := r1, off + n;
    }
    block := block + "\r\n";
  }

  /** One step of the header loop: the line `readLine` returns, then the rest. */
  lemma HeaderLinesStep(t: seq<byte>)
    ensures LineFrom(t).0 == [] ==> HeaderLines(t) == ([], LineFrom(t).1)
    ensures LineFrom(t).0 != [] ==>
      && HeaderLines(t).0 == [LineFrom(t).0] + HeaderLines(t[LineFrom(t).1..]).0
      && HeaderLines(t).1 == LineFrom(t).1 + HeaderLines(t[LineFrom(t).1..]).1
  {
  }

  lemma ScanHeadersSnoc(st: HostPort, lines: seq<string>, line: string)
    ensures ScanHeaders(st, lines + [line]) == HostHeaderStep(ScanHeaders(st, lines), line)
  {
    ScanHeadersAppend(st, lines, [line]);
    assert [line][1..] == [];
  }

  lemma {:induction false} HeaderTextSnoc(lines: seq<string>, line: string)
    ensures HeaderText(lines + [line]) == HeaderText(lines) + line + "\r\n"
    decreases |lines|
  {
    if lines == [] {
      assert [] + [line] == [line];
      assert [line][1..] == [];
    } else {
      assert (lines + [line])[1..] == lines[1..] + [line];
      HeaderTextSnoc(lines[1..], line);
    }
  }

  /** `handleHttpRequest`: after the header loop, the host falls back to the
      request line's; after the connect, the origin-form line takes the place
      of the first line in the header block. */
  method HandleHttpRequest(u: Upstream.UpstreamProxyClient, dial: Dial, first: string, clientIn: Stream)
    returns (h: Handling)
    ensures h == Carry(u, dial, HttpPlan(first, Pending(clientIn)))
  {
    var host, port, block, rest := ReadHeaderBlock(first, clientIn);
    ghost var lines := HeaderLines(Pending(clientIn)).0;
    if host.None? {
      host := HostOfAbsoluteUri(first);
      if host.None? {
        h := Closed(Pending(rest));
        return;
      }
    }
    var relative := ToOriginForm(first);
    if relative.Some? {
      SwapFirstLine(first, relative.value, lines);
      block := relative.value + block[|first|..];
    }
    assert HttpPlan(first, Pending(clientIn))
        == ConnectUpstream(host.value, port, Latin1Encode(block), "", Pending(rest));
    h := Dispatch(u, dial, ConnectUpstream(host.value, port, Latin1Encode(block), "", Pending(rest)));
  }

  /** Putting another line in place of the first line of a request head. */
  lemma SwapFirstLine(first: string, line: string, lines: seq<string>)
    ensures |first| <= |RequestHead(first, lines)|
    ensures line + RequestHead(first, lines)[|first|..] == RequestHead(line, lines)
  {
    var tail := "\r\n" + HeaderText(lines) + "\r\n";
    Append3(first, "\r\n" + HeaderText(lines), "\r\n");
    Append3(line, "\r\n" + HeaderText(lines), "\r\n");
    Append3(first, "\r\n", HeaderText(lines));
    Append3(line, "\r\n", HeaderText(lines));
    assert RequestHead(first, lines) == first + tail;
    assert RequestHead(line, lines) == line + tail;
    assert (first + tail)[|first|..] == tail;
  }

  /** `handleClient`. */
  method HandleClient(u: Upstream.UpstreamProxyClient, dial: Dial, clientIn: Stream) returns (h: Handling)
    ensures h == Handle(u, dial, Pending(clientIn))
  {
    var first, rest := ReadLine(clientIn);
    if first == [] {
      h := Closed(Pending(rest));
    } else if IsConnect(first) {
      h := HandleConnect(u, dial, first, rest);
    } else {
      h := HandleHttpRequest(u, dial, first, rest);
    }
  }

  // ------------------------------------------------------------ what handling promises

  /** A request head written with CR LF line ends and followed by `rest`:
      the first line is read back, and its headers end where `rest` begins. */
  lemma PlanOfHead(first: string, lines: seq<string>, rest: seq<byte>)
    returns (after: seq<byte>, k: nat)
    requires HeadLine(first) && HeadLines(lines)
    ensures var client := Latin1Encode(RequestHead(first, lines)) + rest;
      && PlanOf(client) == (if IsConnect(first) then ConnectPlan(first, after) else HttpPlan(first, after))
      && HeaderLines(after) == (lines, k) && k <= |after| && after[k..] == rest
  {
    var client := Latin1Encode(RequestHead(first, lines)) + rest;
    ReadRequestHead(first, lines, rest);
    after := client[|first| + 2..];
    k := |HeaderText(lines)| + 2;
    DropDrop(client, |first| + 2, k);
  }

  /** An empty first line (no bytes at all, or a line end first) closes the
      client with nothing written and no upstream asked. */
  lemma EmptyFirstLineCloses(u: Upstream.UpstreamProxyClient, dial: Dial, client: seq<byte>)
    requires client == [] || LineReader.IsEol(client[0])
    ensures var h := Handle(u, dial, client);
      h.target.None? && h.toUpstream == [] && h.toClient == [] && !h.relayed
    ensures client != [] && client[0] == LF ==> Handle(u, dial, client).clientRest == client[1..]
  {
  }

  /** A CONNECT head: with a target, the headers are dropped and the tunnel
      starts exactly at the bytes after the blank line; without one the
      client is closed. */
  lemma ConnectHead(first: string, lines: seq<string>, rest: seq<byte>)
    requires HeadLine(first) && HeadLines(lines) && IsConnect(first)
    ensures ConnectTarget(first).None? ==> PlanOf(Latin1Encode(RequestHead(first, lines)) + rest).CloseClient?
    ensures ConnectTarget(first).Some? ==>
      var target := ConnectTarget(first).value;
      PlanOf(Latin1Encode(RequestHead(first, lines)) + rest) == ConnectUpstream(target.0, target.1, [], CONNECT_OK, rest)
  {
    var after, k := PlanOfHead(first, lines, rest);
  }

  /** `CONNECT host:port version` tunnels to exactly that host and port. */
  lemma ConnectRequestTunnels(host: string, port: int32, version: string, lines: seq<string>, rest: seq<byte>)
    requires host != [] && NoSpace(host) && version != [] && NoSpace(version)
    requires HeadLine("CONNECT " + host + ":" + IntToString(port) + " " + version) && HeadLines(lines)
    ensures var first := "CONNECT " + host + ":" + IntToString(port) + " " + version;
      PlanOf(Latin1Encode(RequestHead(first, lines)) + rest) == ConnectUpstream(host, port, [], CONNECT_OK, rest)
  {
    var first := "CONNECT " + host + ":" + IntToString(port) + " " + version;
    assert ConnectTarget(first) == Some((host, port)) by {
      ConnectTargetOfRequest(host, port, version);
    }
    assert IsConnect(first) by {
      Regroup6("CONNECT ", host, ":", IntToString(port), " ", version);
      IsConnectOfConnect(host + ":" + IntToString(port) + " " + version);
    }
    ConnectHead(first, lines, rest);
  }

  /** A plain HTTP head: the host and port of the last `Host:` line, or the
      host of the absolute URI on port 80; the head goes upstream with its
      first line in origin form, and the relay starts at `rest`. */
  lemma HttpHead(first: string, lines: seq<string>, rest: seq<byte>)
    requires HeadLine(first) && HeadLines(lines) && !IsConnect(first)
    ensures var p := PlanOf(Latin1Encode(RequestHead(first, lines)) + rest);
      var hp := ScanHeaders(NO_HOST, lines);
      var host := if hp.host.Some? then hp.host else HostOfAbsoluteUri(first);
      && (host.None? ==> p == CloseClient(rest))
      && (host.Some? ==> p == ConnectUpstream(host.value, hp.port,
                               Latin1Encode(RequestHead(ForwardedLine(first), lines)), "", rest))
  {
    var after, k := PlanOfHead(first, lines, rest);
  }

  /** A request in origin form (no "http://" in its first line) with a
      `Host:` line goes upstream byte for byte as the client sent it. */
  lemma OriginFormForwardedVerbatim(first: string, lines: seq<string>, rest: seq<byte>)
    requires HeadLine(first) && HeadLines(lines) && !IsConnect(first) && !Contains(first, SCHEME)
    requires ScanHeaders(NO_HOST, lines).host.Some?
    ensures var client := Latin1Encode(RequestHead(first, lines)) + rest;
      var p := PlanOf(client);
      p.ConnectUpstream? && p.forward + p.clientRest == client
  {
    SchemeDecides(first);
    HttpHead(first, lines, rest);
  }

  /** Without a `Host:` line and without "http://" in the first line there
      is nowhere to go: the client is closed and nothing is written. */
  lemma NoHostCloses(u: Upstream.UpstreamProxyClient, dial: Dial, first: string, lines: seq<string>, rest: seq<byte>)
    requires HeadLine(first) && HeadLines(lines) && !IsConnect(first) && !Contains(first, SCHEME)
    requires forall i :: 0 <= i < |lines| ==> !IsHostHeader(lines[i])
    ensures Handle(u, dial, Latin1Encode(RequestHead(first, lines)) + rest) == Closed(rest)
  {
    SchemeDecides(first);
    ScanHeadersWithoutHost(NO_HOST, lines);
    HttpHead(first, lines, rest);
  }

  /** An absolute URI naming a port, with no `Host:` line: the host is the
      URI's but the port stays 80, and the first line goes up in origin form. */
  lemma AbsoluteUriKeepsPort80(m: string, host: string, port: int32, path: string, version: string,
                               lines: seq<string>, rest: seq<byte>)
    requires AbsoluteForm(m, host + ":" + IntToString(port), path, version) && PlainHost(host)
    requires HeadLine(AbsoluteLine(m, host + ":" + IntToString(port), path, version)) && HeadLines(lines)
    requires !IsConnect(AbsoluteLine(m, host + ":" + IntToString(port), path, version))
    requires forall i :: 0 <= i < |lines| ==> !IsHostHeader(lines[i])
    ensures var first := AbsoluteLine(m, host + ":" + IntToString(port), path, version);
      var origin := m + " " + (if path == [] then "/" else path) + " " + version;
      PlanOf(Latin1Encode(RequestHead(first, lines)) + rest)
        == ConnectUpstream(host, HTTP_DEFAULT_PORT, Latin1Encode(RequestHead(origin, lines)), "", rest)
  {
    var authority := host + ":" + IntToString(port);
    var first := AbsoluteLine(m, authority, path, version);
    OriginFormOfAbsolute(m, authority, path, version);
    HostPartOfAuthority(host, port);
    ScanHeadersWithoutHost(NO_HOST, lines);
    HttpHead(first, lines, rest);
  }

  /** With several `Host:` lines the last one decides the target. */
  lemma LastHostLineTargets(first: string, before: seq<string>, name: string, host: string, port: int32,
                            after: seq<string>, rest: seq<byte>)
    requires |name| == 5 && ToLowerAscii(name) == "host:" && PlainHost(host)
    requires HeadLine(first) && !IsConnect(first)
    requires HeadLines(before + [name + " " + host + ":" + IntToString(port)] + after)
    requires forall i :: 0 <= i < |after| ==> !IsHostHeader(after[i])
    ensures var lines := before + [name + " " + host + ":" + IntToString(port)] + after;
      var p := PlanOf(Latin1Encode(RequestHead(first, lines)) + rest);
      p.ConnectUpstream? && p.host == host && p.port == port && p.clientRest == rest
  {
    var line := name + " " + host + ":" + IntToString(port);
    var lines := before + [line] + after;
    HostHeaderWithPort(ScanHeaders(NO_HOST, before), name, host, port);
    LastHostHeaderWins(NO_HOST, before, line, after);
    HttpHead(first, lines, rest);
  }

  /** Whatever the client sends: the sockets are relayed only once the
      upstream tunnel is established and the reply (the 200 line for a
      CONNECT, nothing for a plain request) is written; otherwise the client
      gets at most "502 Bad Gateway" and nothing is relayed. */
  lemma RelayOnlyAfterReply(u: Upstream.UpstreamProxyClient, dial: Dial, client: seq<byte>)
    ensures var h := Handle(u, dial, client);
      && (h.relayed ==> h.target.Some? && dial.Connected? && (h.toClient == CONNECT_OK || h.toClient == ""))
      && (!h.relayed ==> h.upstreamRest == [] && (h.toClient == "" || h.toClient == BAD_GATEWAY))
      && (h.toClient == BAD_GATEWAY ==> h.target.Some?)
  {
    var p := PlanOf(client);
    var first := LineFrom(client);
    if first.0 != [] {
      if IsConnect(first.0) {
        assert p.ConnectUpstream? ==> p.reply == CONNECT_OK;
      } else {
        assert p.ConnectUpstream? ==> p.reply == "";
      }
    }
    if p.ConnectUpstream? {
      var x := Upstream.ConnectSpec(u, dial, p.host, p.port);
      assert Handle(u, dial, client) == Outcome(p, x, ReplyBytes(dial));
    }
  }

  // ------------------------------------------------------------ the head's encoding

  /** The bytes `handleHttpRequest` writes upstream as written: the request
      head, read one character per byte, encoded in UTF-8. */
  function ForwardAsWritten(first: string, lines: seq<string>): (bs: seq<byte>)
    ensures |bs| >= |RequestHead(ForwardedLine(first), lines)|
  {
    Utf8(RequestHead(ForwardedLine(first), lines))
  }

  /** As written, a request whose first line holds a byte of 0x80 or more
      (raw UTF-8 in the path, say) does not reach the upstream as sent: each
      such byte becomes two. The corrected forward is the client's bytes. */
  lemma Utf8WriteAltersRequest(first: string, lines: seq<string>, rest: seq<byte>, j: nat)
    requires HeadLine(first) && HeadLines(lines) && !IsConnect(first) && !Contains(first, SCHEME)
    requires ScanHeaders(NO_HOST, lines).host.Some?
    requires j < |first| && first[j] as int >= 0x80
    ensures var client := Latin1Encode(RequestHead(first, lines)) + rest;
      && ForwardAsWritten(first, lines) + rest != client
      && PlanOf(client).ConnectUpstream? && PlanOf(client).forward + rest == client
  {
    SchemeDecides(first);
    assert ForwardedLine(first) == first;
    var head := RequestHead(first, lines);
    assert head[j] == first[j];
    Utf8Longer(head, j);
    OriginFormForwardedVerbatim(first, lines, rest);
    HttpHead(first, lines, rest);
  }

  /** Where the head is ASCII, the bytes as written are the corrected ones. */
  lemma AsWrittenAgreesOnAscii(first: string, lines: seq<string>, rest: seq<byte>)
    requires HeadLine(first) && HeadLines(lines) && !IsConnect(first)
    requires IsAscii(RequestHead(ForwardedLine(first), lines))
    ensures var p := PlanOf(Latin1Encode(RequestHead(first, lines)) + rest);
      p.ConnectUpstream? ==> p.forward == ForwardAsWritten(first, lines)
  {
    Utf8OfAsciiIsLatin1(RequestHead(ForwardedLine(first), lines));
    HttpHead(first, lines, rest);
  }

  // ------------------------------------------------------------ the plan as written

  /** The first line `handleHttpRequest` as written forwards: what
      `toRelativeRequestLine` returns, or the line itself when it returns null. */
  function RelativeLineAsWritten(first: string): string {
    match ToRelativeRequestLine(first)
    case Some(line) => line
    case None => first
  }

  /** `handleHttpRequest`'s plan as the source writes it: without a `Host:`
      line the host comes from `parseHostFromRequestLine`, the first line is
      rewritten by `toRelativeRequestLine`, and the head is written in UTF-8.
      `HttpPlan` is the corrected plan, which the handler follows. */
  function HttpPlanAsWritten(first: string, after: seq<byte>): Plan {
    var head := HeaderLines(after);
    var hp := ScanHeaders(NO_HOST, head.0);
    var host := if hp.host.Some? then hp.host else HostFromRequestLine(first);
    match host
    case None => CloseClient(after[head.1..])
    case Some(h) =>
      ConnectUpstream(h, hp.port, Utf8(RequestHead(RelativeLineAsWritten(first), head.0)), "", after[head.1..])
  }

  /** `handleClient`'s plan as the source writes it. */
  function PlanOfAsWritten(client: seq<byte>): Plan {
    var first := LineFrom(client);
    if first.0 == [] then CloseClient(client[first.1..])
    else if IsConnect(first.0) then ConnectPlan(first.0, client[first.1..])
    else HttpPlanAsWritten(first.0, client[first.1..])
  }

  /** A plain HTTP head, as written: the host of the last `Host:` line or
      else `parseHostFromRequestLine`'s, and the head in UTF-8 with the line
      `toRelativeRequestLine` gives. */
  lemma HttpHeadAsWritten(first: string, lines: seq<string>, rest: seq<byte>)
    requires HeadLine(first) && HeadLines(lines) && !IsConnect(first)
    ensures var p := PlanOfAsWritten(Latin1Encode(RequestHead(first, lines)) + rest);
      var hp := ScanHeaders(NO_HOST, lines);
      var host := if hp.host.Some? then hp.host else HostFromRequestLine(first);
      && (host.None? ==> p == CloseClient(rest))
      && (host.Some? ==> p == ConnectUpstream(host.value, hp.port,
                               Utf8(RequestHead(RelativeLineAsWritten(first), lines)), "", rest))
  {
    var client := Latin1Encode(RequestHead(first, lines)) + rest;
    ReadRequestHead(first, lines, rest);
    DropDrop(client, |first| + 2, |HeaderText(lines)| + 2);
  }

  /** A CONNECT head is planned alike as written and corrected. */
  lemma ConnectPlansAgree(first: string, lines: seq<string>, rest: seq<byte>)
    requires HeadLine(first) && HeadLines(lines) && IsConnect(first)
    ensures var client := Latin1Encode(RequestHead(first, lines)) + rest;
      PlanOfAsWritten(client) == PlanOf(client)
  {
    ReadRequestHead(first, lines, rest);
  }

  /** A request in origin form (no "http://" in its first line) with an
      ASCII head is planned alike as written and corrected: same target,
      same bytes forwarded, or closed alike when it has no `Host:` line. */
  lemma OriginFormPlansAgree(first: string, lines: seq<string>, rest: seq<byte>)
    requires HeadLine(first) && HeadLines(lines) && !IsConnect(first) && !Contains(first, SCHEME)
    requires IsAscii(RequestHead(first, lines))
    ensures var client := Latin1Encode(RequestHead(first, lines)) + rest;
      PlanOfAsWritten(client) == PlanOf(client)
  {
    SchemeDecides(first);
    assert ForwardedLine(first) == first && RelativeLineAsWritten(first) == first;
    Utf8OfAsciiIsLatin1(RequestHead(first, lines));
    HttpHead(first, lines, rest);
    HttpHeadAsWritten(first, lines, rest);
  }

  /** An absolute URI with a path and an ASCII head is planned alike as
      written and corrected. */
  lemma PathPlansAgree(m: string, authority: string, path: string, version: string,
                       lines: seq<string>, rest: seq<byte>)
    requires AbsoluteForm(m, authority, path, version) && path != []
    requires var first := AbsoluteLine(m, authority, path, version);
      HeadLine(first) && HeadLines(lines) && !IsConnect(first)
    requires IsAscii(RequestHead(m + " " + path + " " + version, lines))
    ensures var client := Latin1Encode(RequestHead(AbsoluteLine(m, authority, path, version), lines)) + rest;
      PlanOfAsWritten(client) == PlanOf(client)
  {
    var first := AbsoluteLine(m, authority, path, version);
    CorrectedAgreesWithPath(m, authority, path, version);
    RelativeFormOfAbsolute(m, authority, path, version);
    assert ForwardedLine(first) == RelativeLineAsWritten(first) == m + " " + path + " " + version;
    Utf8OfAsciiIsLatin1(RequestHead(m + " " + path + " " + version, lines));
    HttpHead(first, lines, rest);
    HttpHeadAsWritten(first, lines, rest);
  }

  /** An absolute URI without a path and without a `Host:` line: as written
      the connect goes to the authority followed by the version's text up to
      its '/', and the line goes up in absolute form; the handler connects to
      the authority and sends the line in origin form. */
  lemma NoPathPlansDiverge(m: string, authority: string, version: string, lines: seq<string>, rest: seq<byte>)
    requires AbsoluteForm(m, authority, [], version) && PlainHost(authority)
    requires Printable(version) && ':' !in version && '/' in version && version[0] != '/'
    requires var first := AbsoluteLine(m, authority, [], version);
      HeadLine(first) && HeadLines(lines) && !IsConnect(first)
    requires forall i :: 0 <= i < |lines| ==> !IsHostHeader(lines[i])
    ensures var first := AbsoluteLine(m, authority, [], version);
      var client := Latin1Encode(RequestHead(first, lines)) + rest;
      && PlanOfAsWritten(client) == ConnectUpstream(authority + " " + version[..IndexOf(version, '/')],
                                      HTTP_DEFAULT_PORT, Utf8(RequestHead(first, lines)), "", rest)
      && PlanOf(client) == ConnectUpstream(authority, HTTP_DEFAULT_PORT,
                             Latin1Encode(RequestHead(m + " " + "/" + " " + version, lines)), "", rest)
  {
    var first := AbsoluteLine(m, authority, [], version);
    NoPathDiverges(m, authority, version);
    ScanHeadersWithoutHost(NO_HOST, lines);
    HttpHead(first, lines, rest);
    HttpHeadAsWritten(first, lines, rest);
  }

  // ------------------------------------------------------------ start and stop

  /** The listening socket: none yet, created but not bound (the bind threw),
      listening on 127.0.0.1, or closed. */
  datatype Listener = NoSocket | Unbound | Listening | ClosedSocket

  /** What `start` did: nothing (already running), started an accept loop,
      threw from the bind, or bound the socket and then had the accept loop
      refused by an executor already shut down. */
  datatype StartOutcome = AlreadyRunning | Started | BindFailed | LoopRefused

  /** The server's state: the `running` flag, the listener, whether the
      executor has been shut down, and how many accept loops were handed to it. */
  datatype ServerState = ServerState(running: bool, socket: Listener, shutDown: bool, acceptLoops: nat)

  const INITIAL: ServerState := ServerState(false, NoSocket, false, 0)

  /** `start`: only the call that turns `running` from false to true acts;
      it creates and binds a new listener and hands the accept loop to the
      executor. A failed bind leaves `running` set. */
  function StartSpec(s: ServerState, bindOk: bool): (r: (ServerState, StartOutcome))
    ensures r.1 == AlreadyRunning <==> s.running
    ensures r.0.running
  {
    if s.running then (s, AlreadyRunning)
    else if !bindOk then (s.(running := true, socket := Unbound), BindFailed)
    else if s.shutDown then (s.(running := true, socket := Listening), LoopRefused)
    else (s.(running := true, socket := Listening, acceptLoops := s.acceptLoops + 1), Started)
  }

  /** `stop`: only the call that turns `running` from true to false acts;
      it closes the listener, if there is one, and shuts the executor down. */
  function StopSpec(s: ServerState): (r: ServerState)
    ensures !r.running
  {
    if !s.running then s
    else s.(running := false, socket := if s.socket == NoSocket then NoSocket else ClosedSocket, shutDown := true)
  }

  /** A second `start` does nothing, whatever the first one did. */
  lemma StartIsIdempotent(s: ServerState, bindOk: bool, bindOk': bool)
    ensures var once := StartSpec(s, bindOk).0;
      StartSpec(once, bindOk') == (once, AlreadyRunning)
  {
  }

  /** A second `stop` does nothing. */
  lemma StopIsIdempotent(s: ServerState)
    ensures StopSpec(StopSpec(s)) == StopSpec(s)
  {
  }

  /** Stopping a running server leaves no listening socket and the executor
      shut down, and starts no accept loop. */
  lemma StopClosesListener(s: ServerState)
    requires s.running
    ensures StopSpec(s).socket != Listening && StopSpec(s).shutDown
    ensures StopSpec(s).acceptLoops == s.acceptLoops
  {
  }

  /** An accept loop is started only by the `start` that binds the listener
      before any `stop`. */
  lemma AcceptLoopOnlyOnStart(s: ServerState, bindOk: bool)
    ensures var r := StartSpec(s, bindOk);
      r.0.acceptLoops == (if r.1 == Started then s.acceptLoops + 1 else s.acceptLoops)
    ensures StartSpec(s, bindOk).1 == Started <==> !s.running && bindOk && !s.shutDown
  {
  }

  /** After a failed bind the server counts as running: further `start`s do
      nothing until a `stop`, after which the executor is gone. */
  lemma BindFailureStaysRunning(s: ServerState, bindOk: bool)
    requires !s.running
    ensures var failed := StartSpec(s, false).0;
      && failed.socket == Unbound && failed.acceptLoops == s.acceptLoops
      && StartSpec(failed, bindOk).1 == AlreadyRunning
      && StartSpec(StopSpec(failed), bindOk).1 != Started
  {
  }

  /** Start, stop, start again: the second start binds a listener and sets
      `running`, but the shut-down executor refuses its accept loop, so only
      the first accept loop ever ran. */
  lemma RestartAfterStopRunsNoLoop()
    ensures var first := StartSpec(INITIAL, true);
      var second := StartSpec(StopSpec(first.0), true);
      && first.1 == Started && second.1 == LoopRefused
      && second.0 == ServerState(true, Listening, true, 1)
  {
  }

  /** `LocalProxyServer`: the upstream client, the port, the `running` flag,
      the listening socket and the executor. */
  class LocalProxyServer {
    const upstream: Upstream.UpstreamProxyClient
    const port: int32
    var running: bool
    var socket: Listener
    var shutDown: bool
    var acceptLoops: nat

    function State(): ServerState
      reads this
    {
      ServerState(running, socket, shutDown, acceptLoops)
    }

    /** `new LocalProxyServer(upstream, port)`. */
    constructor (upstream: Upstream.UpstreamProxyClient, port: int32)
      ensures this.upstream == upstream && this.port == port && State() == INITIAL
    {
      this.upstream := upstream;
      this.port := port;
      running, socket, shutDown, acceptLoops := false, NoSocket, false, 0;
    }

    /** `new LocalProxyServer(upstream)`, on port 18080. */
    constructor OnDefaultPort(upstream: Upstream.UpstreamProxyClient)
      ensures this.upstream == upstream && this.port == LOCAL_PORT && State() == INITIAL
    {
      this.upstream := upstream;
      this.port := LOCAL_PORT;
      running, socket, shutDown, acceptLoops := false, NoSocket, false, 0;
    }

    /** `start`, with the outcome of the bind as a parameter. */
    method Start(bindOk: bool) returns (outcome: StartOutcome)
      modifies this
      ensures (State(), outcome) == StartSpec(old(State()), bindOk)
    {
      if running {
        return AlreadyRunning;
      }
      running := true;
      socket := Unbound;
      if !bindOk {
        return BindFailed;
      }
      socket := Listening;
      if shutDown {
        return LoopRefused;
      }
      acceptLoops := acceptLoops + 1;
      return Started;
    }

    /** `stop`. */
    method Stop()
      modifies this
      ensures State() == StopSpec(old(State()))
    {
      if !running {
        return;
      }
      running := false;
      if socket != NoSocket {
        socket := ClosedSocket;
      }
      shutDown := true;
    }

    /** `handleClient` on an accepted client, through this server's upstream. */
    method Serve(dial: Dial, clientIn: Stream) returns (h: Handling)
      ensures h == Handle(upstream, dial, Pending(clientIn))
    {
      h := HandleClient(upstream, dial, clientIn);
    }
  }
}
