/** The HTTP upstream client: a CONNECT request (section 9.3.6 of RFC 9110)
    with optional Basic proxy authorization (section 11.7.2 of RFC 9110 and
    RFC 7617), then the status line and header lines of the proxy's answer,
    read through a `BufferedReader`. */
module HttpUpstream {
  import opened Text
  import opened Net
  import opened LineReader
  import Base64

  datatype HttpClient = HttpClient(proxyHost: string, proxyPort: int32, username: string, password: string)

  /** A Proxy-Authorization header is sent when either credential is non-empty. */
  predicate OffersAuth(c: HttpClient) {
    c.username != "" || c.password != ""
  }

  /** The constructor: a null username or password is stored as "". */
  function NewHttpClient(proxyHost: string, proxyPort: int32, username: Option<string>, password: Option<string>): (c: HttpClient)
    ensures c.proxyHost == proxyHost && c.proxyPort == proxyPort
    ensures username.Some? ==> c.username == username.value
    ensures password.Some? ==> c.password == password.value
    ensures OffersAuth(c) <==> (username.Some? && username.value != "") || (password.Some? && password.value != "")
  {
    HttpClient(proxyHost, proxyPort, username.GetOr(""), password.GetOr(""))
  }

  // ---------------------------------------------------------------- request

  /** `host:port`, the request target and Host value. */
  function Authority(host: string, port: int32): string {
    host + ":" + IntToString(port)
  }

  /** The Basic credentials: `user:password` in UTF-8, then Base64. */
  function Credentials(c: HttpClient): string {
    Base64.Encode(Utf8(c.username + ":" + c.password))
  }

  const AUTH_PREFIX: string := "Proxy-Authorization: Basic "

  /** The request's lines, each to be ended by CR LF. */
  function RequestLines(c: HttpClient, host: string, port: int32): seq<string> {
    ["CONNECT " + Authority(host, port) + " HTTP/1.1", "Host: " + Authority(host, port)]
    + (if OffersAuth(c) then [AUTH_PREFIX + Credentials(c)] else [])
    + ["Connection: keep-alive"]
  }

  function CrlfLines(lines: seq<string>): string {
    if lines == [] then "" else lines[0] + "\r\n" + CrlfLines(lines[1..])
  }

  /** The whole request: its lines, then the empty line. */
  function Request(c: HttpClient, host: string, port: int32): string {
    CrlfLines(RequestLines(c, host, port)) + "\r\n"
  }

  /** The authorization line is sent exactly when a credential is non-empty. */
  lemma AuthorizationIffCredentials(c: HttpClient, host: string, port: int32)
    ensures var lines := RequestLines(c, host, port);
      (exists i :: 0 <= i < |lines| && StartsWith(lines[i], "Proxy-Authorization:")) <==> OffersAuth(c)
  {
    var lines := RequestLines(c, host, port);
    var a := Authority(host, port);
    var p := "Proxy-Authorization:";
    if OffersAuth(c) {
      assert lines[2] == AUTH_PREFIX + Credentials(c);
      assert lines[2][..|p|] == p;
    } else {
      assert lines == ["CONNECT " + a + " HTTP/1.1", "Host: " + a, "Connection: keep-alive"];
      forall i | 0 <= i < |lines|
        ensures !StartsWith(lines[i], p)
      {
        if |lines[i]| >= |p| {
          assert lines[i][0] != p[0];
        }
      }
    }
  }

  /** The authorization value is one Base64 token, with no CR, LF or space,
      from which the proxy decodes exactly `user:password` in UTF-8. */
  lemma AuthorizationCarriesCredentials(c: HttpClient)
    ensures Base64.Decode(Credentials(c)) == Some(Utf8(c.username + ":" + c.password))
    ensures '\r' !in Credentials(c) && '\n' !in Credentials(c) && ' ' !in Credentials(c)
  {
    var bytes := Utf8(c.username + ":" + c.password);
    Base64.DecodeEncode(bytes);
    Base64.EncodeIsOneToken(bytes);
  }

  // ---------------------------------------------------------------- answer

  /** `parseStatusCode`: the integer between the first space and the next
      one (or the end), trimmed; 0 when there is none or it does not parse. */
  function ParseStatusCode(statusLine: string): int {
    var first := IndexOf(statusLine, ' ');
    if first < 0 then 0
    else
      var next := IndexOfFrom(statusLine, ' ', first + 1);
      var second := if next < 0 then |statusLine| else next;
      match ParseInt(Trim(statusLine[first + 1..second]))
      case None => 0
      case Some(n) => n
  }

  /** The code sits between the first space and the next one (or the end). */
  lemma StatusCodeBetween(s: string, first: nat, second: nat, code: int32)
    requires first < second <= |s| && s[first] == ' ' && s[first + 1..second] == IntToString(code)
    requires forall i :: 0 <= i < first ==> s[i] != ' '
    requires second < |s| ==> s[second] == ' '
    ensures ParseStatusCode(s) == code
  {
    var digits := IntToString(code);
    IndexOfFromIs(s, ' ', 0, first);
    forall i | first + 1 <= i < second
      ensures s[i] != ' '
    {
      assert s[i] == digits[i - first - 1];
    }
    IndexOfFromIs(s, ' ', first + 1, second);
    ParseIntOfIntToString(code);
    NotTrimmableInIntToString(code);
  }

  /** A status line `version SP code SP reason` yields its code, whatever the reason says. */
  lemma StatusCodeOfStatusLine(version: string, code: int32, reason: string)
    requires ' ' !in version
    ensures ParseStatusCode(version + " " + IntToString(code) + " " + reason) == code
  {
    var digits := IntToString(code);
    var n := |version|;
    var s := version + " " + digits + " " + reason;
    assert s[n + 1..n + 1 + |digits|] == digits;
    assert forall i :: 0 <= i < n ==> s[i] == version[i];
    StatusCodeBetween(s, n, n + 1 + |digits|, code);
  }

  /** A status line `version SP code` without a reason yields its code too. */
  lemma StatusCodeWithoutReason(version: string, code: int32)
    requires ' ' !in version
    ensures ParseStatusCode(version + " " + IntToString(code)) == code
  {
    var digits := IntToString(code);
    var n := |version|;
    var t := version + " " + digits;
    assert t[n + 1..] == digits;
    assert forall i :: 0 <= i < n ==> t[i] == version[i];
    StatusCodeBetween(t, n, |t|, code);
  }

  /** A status line without a space has no code. */
  lemma NoSpaceNoCode(statusLine: string)
    requires ' ' !in statusLine
    ensures ParseStatusCode(statusLine) == 0
  {
  }

  predicate Accepted(code: int) {
    200 <= code < 300
  }

  /** Bytes up to and including the first empty line (or all of them). */
  function HeadersEnd(data: seq<byte>): (n: nat)
    ensures n <= |data|
    decreases |data|
  {
    match NextLine(data)
    case None => 0
    case Some((line, k)) => if line == [] then k else k + HeadersEnd(data[k..])
  }

  /** How the status line decides the outcome: no line at all, a code
      outside 2xx (the line becomes the message), or accepted. */
  function StatusVerdict(status: Option<seq<byte>>): (v: Verdict)
    ensures status.None? ==> v == Failed(NoResponse)
    ensures status.Some? ==> (v == Established <==> Accepted(ParseStatusCode(Latin1Decode(status.value))))
    ensures status.Some? && v != Established ==> v == Failed(Rejected(Latin1Decode(status.value)))
  {
    match status
    case None => Failed(NoResponse)
    case Some(s) =>
      var line := Latin1Decode(s);
      if Accepted(ParseStatusCode(line)) then Established else Failed(Rejected(line))
  }

  /** The answer as the proxy's byte stream determines it. */
  function Reply(sent: seq<byte>, data: seq<byte>): (x: Exchange)
    ensures x.consumed <= |data|
  {
    match NextLine(data)
    case None => Exchange(Failed(NoResponse), sent, 0, false)
    case Some((status, k)) => ReplyOf(StatusVerdict(Some(status)), sent, data, k)
  }

  /** The header lines after an accepted status, read until an empty line or
      the end: the reader stops right after the first empty line. */
  function DrainHeaders(r: Reader): (r': Reader)
    ensures Unread(r') == Unread(r)[HeadersEnd(Unread(r))..]
    decreases |Unread(r)|
  {
    ReadLineLogical(r);
    var (l, r2) := ReadLine(r);
    if l.None? || l.value == [] then r2
    else
      assert Unread(r2) == Unread(r)[NextLine(Unread(r)).value.1..];
      HeadersEndStep(Unread(r));
      DrainHeaders(r2)
  }

  /** After a non-empty header line the rest of the block follows. */
  lemma HeadersEndStep(u: seq<byte>)
    requires u != [] && NextLine(u).value.0 != []
    ensures var k := NextLine(u).value.1;
      u[HeadersEnd(u)..] == u[k..][HeadersEnd(u[k..])..]
  {
    var k := NextLine(u).value.1;
    assert HeadersEnd(u) == k + HeadersEnd(u[k..]);
  }

  /** The outcome of reading the answer, and the reader as `connect` leaves it. */
  datatype Answer = Answer(verdict: Verdict, open: bool, reader: Reader)

  /** What `connect` makes of the status line it read: on acceptance it
      goes on to skip the header lines. */
  function AnswerAfter(status: Option<seq<byte>>, r1: Reader): Answer {
    AnswerOf(StatusVerdict(status), r1)
  }

  /** On acceptance `connect` goes on to skip the header lines; otherwise it
      closes the socket. */
  function AnswerOf(v: Verdict, r1: Reader): Answer {
    if v == Established then Answer(v, true, DrainHeaders(r1)) else Answer(v, false, r1)
  }

  /** `connect` after the dial, on the reader it wraps around the socket. */
  function AnswerOn(reply: Stream): Answer {
    var (status, r1) := ReadLine(NewReader(reply));
    AnswerAfter(status, r1)
  }

  /** However the answer is cut into chunks, the outcome is the one the byte
      stream determines, and the reader stops right after what it consumed. */
  lemma AnswerIsLogical(sent: seq<byte>, reply: Stream)
    ensures var a := AnswerOn(reply);
      var x := Reply(sent, Pending(reply));
      a.verdict == x.verdict && a.open == x.open && Unread(a.reader) == Pending(reply)[x.consumed..]
  {
    var r0 := NewReader(reply);
    ReadLineLogical(r0);
    AnswerAfterIsLogical(sent, Pending(reply), ReadLine(r0).0, ReadLine(r0).1);
  }

  /** The same, once the status line has been read off the stream. */
  lemma AnswerAfterIsLogical(sent: seq<byte>, data: seq<byte>, status: Option<seq<byte>>, r1: Reader)
    requires data == [] ==> status.None? && Unread(r1) == []
    requires data != [] ==> status == Some(NextLine(data).value.0) && Unread(r1) == data[NextLine(data).value.1..]
    ensures var a := AnswerAfter(status, r1);
      var x := Reply(sent, data);
      a.verdict == x.verdict && a.open == x.open && Unread(a.reader) == data[x.consumed..]
  {
    if data != [] {
      var (line, k) := NextLine(data).value;
      AnswerAfterLine(sent, data, line, k, r1);
    }
  }

  lemma AnswerAfterLine(sent: seq<byte>, data: seq<byte>, line: seq<byte>, k: nat, r1: Reader)
    requires NextLine(data) == Some((line, k)) && Unread(r1) == data[k..]
    ensures var a := AnswerAfter(Some(line), r1);
      var x := Reply(sent, data);
      a.verdict == x.verdict && a.open == x.open && Unread(a.reader) == data[x.consumed..]
  {
    assert Reply(sent, data) == ReplyOf(StatusVerdict(Some(line)), sent, data, k);
    VerdictAgrees(StatusVerdict(Some(line)), sent, data, k, r1);
  }

  /** Whatever the verdict, the reader and the byte stream agree on it. */
  lemma VerdictAgrees(v: Verdict, sent: seq<byte>, data: seq<byte>, k: nat, r1: Reader)
    requires k <= |data| && Unread(r1) == data[k..]
    ensures var a := AnswerOf(v, r1);
      var x := ReplyOf(v, sent, data, k);
      a.verdict == x.verdict && a.open == x.open && Unread(a.reader) == data[x.consumed..]
  {
    if v == Established {
      DrainedAfterStatus(data, k, r1);
    }
  }

  /** `Reply` once the verdict and the status line's length are known. */
  function ReplyOf(v: Verdict, sent: seq<byte>, data: seq<byte>, k: nat): (x: Exchange)
    requires k <= |data|
  {
    if v == Established then Exchange(v, sent, k + HeadersEnd(data[k..]), true)
    else Exchange(v, sent, k, false)
  }

  /** Draining the headers from a reader positioned at `data[k..]`. */
  lemma DrainedAfterStatus(data: seq<byte>, k: nat, r1: Reader)
    requires k <= |data| && Unread(r1) == data[k..]
    ensures Unread(DrainHeaders(r1)) == data[k + HeadersEnd(data[k..])..]
  {
    var h := HeadersEnd(data[k..]);
    assert Unread(DrainHeaders(r1)) == data[k..][h..];
    assert data[k..][h..] == data[k + h..];
  }

  /** The header lines after an accepted status, read one by one until an
      empty line or the end. */
  method SkipHeaders(r: Reader) returns (r': Reader)
    ensures r' == DrainHeaders(r)
  {
    var next := ReadLine(r);
    ReadLineLogical(r);
    while next.0.Some? && next.0.value != []
      invariant DrainHeaders(r) == (if next.0.None? || next.0.value == [] then next.1 else DrainHeaders(next.1))
      invariant |Unread(next.1)| <= |Unread(r)|
      decreases |Unread(next.1)| + (if next.0.Some? && next.0.value != [] then 1 else 0)
    {
      ReadLineLogical(next.1);
      next := ReadLine(next.1);
    }
    r' := next.1;
  }

  /** The status line and header lines as `connect` reads them, on the
      reader wrapped around the socket. */
  method ReadAnswer(reply: Stream) returns (verdict: Verdict, open: bool, reader: Reader)
    ensures AnswerOn(reply) == Answer(verdict, open, reader)
  {
    var first := ReadLine(NewReader(reply));
    var status := first.0;
    reader := first.1;
    if status.None? {
      return Failed(NoResponse), false, reader;
    }
    var statusLine := Latin1Decode(status.value);
    var code := ParseStatusCode(statusLine);
    if code < 200 || code >= 300 {
      return Failed(Rejected(statusLine)), false, reader;
    }
    reader := SkipHeaders(reader);
    return Established, true, reader;
  }

  /** `connect`, as written: the socket handed to the caller is positioned
      wherever the reader's last refill left it. */
  method Connect(c: HttpClient, dial: Dial, host: string, port: int32)
    returns (verdict: Verdict, sent: seq<byte>, open: bool, rest: Stream)
    ensures dial.Unreachable? ==> verdict == Failed(DialFailed) && sent == [] && !open
    ensures dial.Connected? ==>
      var a := AnswerOn(dial.reply);
      sent == Utf8(Request(c, host, port)) && verdict == a.verdict && open == a.open && rest == a.reader.source
  {
    if dial.Unreachable? {
      return Failed(DialFailed), [], false, [];
    }
    sent := Utf8(Request(c, host, port));
    var reader;
    verdict, open, reader := ReadAnswer(dial.reply);
    rest := reader.source;
  }

  lemma {:induction false} ExhaustedReadLine(r: Reader, acc: seq<byte>)
    requires r.source == []
    ensures ReadLineOnto(r, acc).1.source == []
    decreases |r.buffered|
  {
    if r.buffered != [] {
      var b := r.buffered;
      var start := if r.skipLF && b[0] == LF then 1 else 0;
      if EolFrom(b, start) == |b| {
        ExhaustedReadLine(Reader([], r.source, false), acc + b[start..]);
      }
    }
  }

  lemma {:induction false} ExhaustedStaysExhausted(r: Reader)
    requires r.source == []
    ensures DrainHeaders(r).source == []
    decreases |Unread(r)|
  {
    ReadLineLogical(r);
    var (l, r2) := ReadLine(r);
    ExhaustedReadLine(r, []);
    if !(l.None? || l.value == []) {
      ExhaustedStaysExhausted(r2);
    }
  }

  /** The reply bytes of an accepting answer sent in one chunk together with the first tunnel bytes. */
  lemma OneChunkAnswer(status: seq<byte>, tunnel: seq<byte>)
    requires NoEol(status)
    ensures var chunk := status + [CR, LF, CR, LF] + tunnel;
      && NextLine(chunk).value == (status, |status| + 2)
      && HeadersEnd(chunk[|status| + 2..]) == 2
      && chunk[|status| + 4..] == tunnel
  {
    var chunk := status + [CR, LF, CR, LF] + tunnel;
    FirstLineBeforeCrLf(status, [CR, LF] + tunnel);
    assert chunk == status + [CR, LF] + ([CR, LF] + tunnel);
    assert chunk[|status| + 2..] == [CR, LF] + tunnel;
    FirstLineBeforeCrLf([], tunnel);
    assert [] + [CR, LF] + tunnel == [CR, LF] + tunnel;
  }

  /** A proxy that sends its accepting answer, say `HTTP/1.1 200 Connection
      established`, and the first tunnel bytes in one chunk: the answer is
      accepted and the bytes after the empty line are `tunnel`, yet the socket
      handed on holds nothing, since the reader pulled the whole chunk in. */
  lemma ReadAheadSwallowsTunnelBytes(version: string, code: int32, reason: string, tunnel: seq<byte>)
    requires ' ' !in version && Accepted(code)
    requires var line := version + " " + IntToString(code) + " " + reason;
      forall i :: 0 <= i < |line| ==> line[i] as int < 256 && line[i] != '\r' && line[i] != '\n'
    ensures var chunk := Latin1Encode(version + " " + IntToString(code) + " " + reason) + [CR, LF, CR, LF] + tunnel;
      var a := AnswerOn([chunk]);
      && a.verdict == Established
      && Unread(a.reader) == tunnel
      && Pending(a.reader.source) == []
  {
    var line := version + " " + IntToString(code) + " " + reason;
    var status := Latin1Encode(line);
    StatusCodeOfStatusLine(version, code, reason);
    Latin1DecodeEncode(line);
    assert StatusVerdict(Some(status)) == Established;
    Latin1LineHasNoEol(line);
    OneChunkAnswerOn(status, tunnel);
  }

  /** A line of characters other than CR and LF has no line end once written. */
  lemma Latin1LineHasNoEol(line: string)
    requires forall i :: 0 <= i < |line| ==> line[i] as int < 256 && line[i] != '\r' && line[i] != '\n'
    ensures NoEol(Latin1Encode(line))
  {
    var bytes := Latin1Encode(line);
    forall k | 0 <= k < |bytes|
      ensures !IsEol(bytes[k])
    {
      assert bytes[k] as int == line[k] as int;
    }
  }

  /** The reader's outcome on a status line, an empty line and tunnel bytes
      that all arrive in one chunk. */
  lemma OneChunkAnswerOn(status: seq<byte>, tunnel: seq<byte>)
    requires NoEol(status)
    ensures var a := AnswerOn([status + [CR, LF, CR, LF] + tunnel]);
      && a.verdict == StatusVerdict(Some(status))
      && (a.verdict == Established ==> Unread(a.reader) == tunnel)
      && a.reader.source == []
  {
    var chunk: Segment := status + [CR, LF, CR, LF] + tunnel;
    OneChunkIsDrained(chunk);
    AnswerIsLogical([], [chunk]);
    OneChunkAnswer(status, tunnel);
    ReplyAfterFirstLine([], chunk, status, |status| + 2);
    var a := AnswerOn([chunk]);
    if a.verdict == Established {
      assert Reply([], chunk).consumed == |status| + 4;
    }
  }

  /** The answer once the first line of the stream is known. */
  lemma ReplyAfterFirstLine(sent: seq<byte>, data: seq<byte>, status: seq<byte>, k: nat)
    requires NextLine(data) == Some((status, k))
    ensures var x := Reply(sent, data);
      && x.verdict == StatusVerdict(Some(status))
      && (x.verdict == Established ==> x.consumed == k + HeadersEnd(data[k..]))
  {
  }

  /** A reply that arrives as one chunk is pulled whole into the reader's
      buffer, so the socket's own stream is left empty. */
  lemma OneChunkIsDrained(chunk: Segment)
    ensures Pending([chunk]) == chunk
    ensures AnswerOn([chunk]).reader.source == []
  {
    var one: Stream := [chunk];
    assert Pending(one) == chunk by {
      assert one[0] == chunk && one[1..] == [];
    }
    var r0 := NewReader(one);
    assert ReadLine(r0) == ReadLineOnto(Reader(chunk, [], false), []);
    ExhaustedReadLine(Reader(chunk, [], false), []);
    ExhaustedStaysExhausted(ReadLine(r0).1);
  }

  /** `connect`, including the dial, as a function of what the proxy sends back. */
  function ConnectSpec(c: HttpClient, dial: Dial, host: string, port: int32): Exchange {
    if dial.Unreachable? then Exchange(Failed(DialFailed), [], 0, false)
    else Reply(Utf8(Request(c, host, port)), Pending(dial.reply))
  }

  /** `connect` handing on the reader's buffered bytes in front of the socket's
      stream, so that the tunnel starts right after the empty line; the
      upstream dispatcher uses this one. */
  method ConnectKeepingReadAhead(c: HttpClient, dial: Dial, host: string, port: int32)
    returns (verdict: Verdict, sent: seq<byte>, open: bool, rest: Stream)
    ensures var x := ConnectSpec(c, dial, host, port);
      verdict == x.verdict && sent == x.sent && open == x.open
    ensures dial.Connected? ==> Pending(rest) == Pending(dial.reply)[ConnectSpec(c, dial, host, port).consumed..]
  {
    if dial.Unreachable? {
      return Failed(DialFailed), [], false, [];
    }
    sent := Utf8(Request(c, host, port));
    var reader;
    verdict, open, reader := ReadAnswer(dial.reply);
    AnswerIsLogical(sent, dial.reply);
    rest := Leftover(reader);
  }

  /** The answer is accepted exactly when its first line carries a 2xx code,
      and the tunnel then starts after the first empty line. */
  lemma AcceptedIffTwoHundred(sent: seq<byte>, data: seq<byte>)
    ensures var x := Reply(sent, data);
      x.verdict == Established <==>
        (data != [] && Accepted(ParseStatusCode(Latin1Decode(NextLine(data).value.0))))
    ensures var x := Reply(sent, data);
      x.verdict == Established ==>
        x.open && x.consumed == NextLine(data).value.1 + HeadersEnd(data[NextLine(data).value.1..])
    ensures var x := Reply(sent, data);
      x.verdict != Established ==> !x.open
  {
  }

  /** A line without CR or LF followed by CR LF is the first line. */
  lemma FirstLineBeforeCrLf(line: seq<byte>, rest: seq<byte>)
    requires NoEol(line)
    ensures NextLine(line + [CR, LF] + rest) == Some((line, |line| + 2))
  {
    var after := [CR, LF] + rest;
    NextLineAfterPrefix(line, after);
    assert after[0] == CR && after[1] == LF;
    assert NextLine(after).value == ([], 2);
    assert line + [CR, LF] + rest == line + after;
  }

  /** A refusal such as `HTTP/1.1 407 Proxy Authentication Required` fails
      with the status line as the message, and the socket is closed. */
  lemma RefusalReportsStatusLine(sent: seq<byte>, version: string, code: int32, reason: string, rest: seq<byte>)
    requires ' ' !in version && !Accepted(code)
    requires var line := version + " " + IntToString(code) + " " + reason;
      forall i :: 0 <= i < |line| ==> line[i] as int < 256 && line[i] != '\r' && line[i] != '\n'
    ensures var line := version + " " + IntToString(code) + " " + reason;
      var x := Reply(sent, Latin1Encode(line) + [CR, LF] + rest);
      x.verdict == Failed(Rejected(line)) && !x.open
  {
    var line := version + " " + IntToString(code) + " " + reason;
    assert ParseStatusCode(line) == code by {
      StatusCodeOfStatusLine(version, code, reason);
    }
    RefusalOfLine(sent, line, code, rest);
  }

  /** The same, for any status line whose code is a refusal. */
  lemma RefusalOfLine(sent: seq<byte>, line: string, code: int32, rest: seq<byte>)
    requires ParseStatusCode(line) == code && !Accepted(code)
    requires forall i :: 0 <= i < |line| ==> line[i] as int < 256 && line[i] != '\r' && line[i] != '\n'
    ensures var x := Reply(sent, Latin1Encode(line) + [CR, LF] + rest);
      x.verdict == Failed(Rejected(line)) && !x.open
  {
    var bytes := Latin1Encode(line);
    Latin1DecodeEncode(line);
    assert NoEol(bytes) by {
      forall k | 0 <= k < |bytes|
        ensures !IsEol(bytes[k])
      {
        assert bytes[k] as int == line[k] as int;
      }
    }
    FirstLineBeforeCrLf(bytes, rest);
  }
}
