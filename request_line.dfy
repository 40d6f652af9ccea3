/** What the local proxy reads from a request's first line and headers: the
    CONNECT target, the `Host:` header, the host of an absolute `http://`
    URI, and the rewrite of an absolute-form request line to origin form
    (section 3.2 of RFC 9112). */
module RequestLine {
  import opened Text

  const CONNECT_DEFAULT_PORT: int32 := 443
  const HTTP_DEFAULT_PORT: int32 := 80
  const SCHEME: string := "http://"

  /** `firstLine.toUpperCase().startsWith("CONNECT ")`. */
  predicate IsConnect(firstLine: string) {
    StartsWith(ToUpperAscii(firstLine), "CONNECT ")
  }

  /** The method name is matched in any letter case. */
  lemma IsConnectAnyCase(first: string, rest: string)
    requires |first| == 8 && ToUpperAscii(first) == "CONNECT "
    ensures IsConnect(first + rest)
  {
    var s := first + rest;
    assert ToUpperAscii(s)[..8] == ToUpperAscii(first);
  }

  /** A line starting with "CONNECT " in capitals is a CONNECT. */
  lemma IsConnectOfConnect(rest: string)
    ensures IsConnect("CONNECT " + rest)
  {
    var s := "CONNECT " + rest;
    assert s[..8] == "CONNECT ";
    forall i | 0 <= i < 8
      ensures ToUpperAscii(s)[i] == s[i]
    {
    }
    assert ToUpperAscii(s)[..8] == s[..8];
  }

  // ------------------------------------------------------------ CONNECT

  /** The target of a CONNECT: the host is what precedes the last ':' when that
      ':' is not the first character, otherwise the whole token; the port is
      443 unless the ':' is followed by an integer. */
  function SplitAuthority(hostPort: string): (string, int32) {
    var colon := LastIndexOf(hostPort, ':');
    var host := if colon > 0 then hostPort[..colon] else hostPort;
    var port :=
      if colon > 0 && colon < |hostPort| - 1 then ParseInt(hostPort[colon + 1..]).GetOr(CONNECT_DEFAULT_PORT)
      else CONNECT_DEFAULT_PORT;
    (host, port)
  }

  /** `host:port` splits back into its host and port, even when the host has
      colons of its own (an IPv6 literal). */
  lemma SplitAuthorityRoundTrip(host: string, port: int32)
    requires host != []
    ensures SplitAuthority(host + ":" + IntToString(port)) == (host, port)
  {
    var digits := IntToString(port);
    var s := host + ":" + digits;
    forall i | |host| < i < |s|
      ensures s[i] != ':'
    {
      assert s[i] == digits[i - |host| - 1];
    }
    LastIndexOfIs(s, ':', |host|);
    assert s[..|host|] == host;
    assert s[|host| + 1..] == digits;
    ParseIntOfIntToString(port);
  }

  /** Without a port, or with one that does not parse (an empty one
      included), the port is 443. */
  lemma SplitAuthorityDefaultPort(host: string, junk: string)
    requires host != [] && ':' !in junk && ParseInt(junk).None?
    ensures SplitAuthority(host + ":" + junk) == (host, CONNECT_DEFAULT_PORT)
    ensures ':' !in host ==> SplitAuthority(host) == (host, CONNECT_DEFAULT_PORT)
  {
    var s := host + ":" + junk;
    forall i | |host| < i < |s|
      ensures s[i] != ':'
    {
      assert s[i] == junk[i - |host| - 1];
    }
    LastIndexOfIs(s, ':', |host|);
    assert s[..|host|] == host;
    assert s[|host| + 1..] == junk;
  }

  /** A ':' in first position does not count: the whole token is the host. */
  lemma SplitAuthorityLeadingColon(rest: string)
    requires ':' !in rest
    ensures SplitAuthority(":" + rest) == (":" + rest, CONNECT_DEFAULT_PORT)
  {
    var s := ":" + rest;
    forall i | 0 < i < |s|
      ensures s[i] != ':'
    {
      assert s[i] == rest[i - 1];
    }
    LastIndexOfIs(s, ':', 0);
  }

  /** `handleConnect`'s parse: the second whitespace-separated token is the
      target; fewer than two tokens means there is none. */
  function ConnectTarget(firstLine: string): Option<(string, int32)> {
    var parts := SplitOnSpaces(firstLine);
    if |parts| < 2 then None else Some(SplitAuthority(parts[1]))
  }

  lemma NoSpaceInIntToString(n: int)
    ensures NoSpace(IntToString(n))
  {
    NotTrimmableInIntToString(n);
  }

  /** `CONNECT host:port version` targets exactly `host` and `port`. */
  lemma ConnectTargetOfRequest(host: string, port: int32, version: string)
    requires host != [] && NoSpace(host) && version != [] && NoSpace(version)
    ensures ConnectTarget("CONNECT " + host + ":" + IntToString(port) + " " + version) == Some((host, port))
  {
    var a := host + ":" + IntToString(port);
    NoSpaceInIntToString(port);
    assert NoSpace(a) by {
      forall i | 0 <= i < |a|
        ensures !IsSpace(a[i])
      {
        if i > |host| {
          assert a[i] == IntToString(port)[i - |host| - 1];
        }
      }
    }
    var ws := ["CONNECT", a, version];
    assert AllWords(ws);
    var line := "CONNECT " + host + ":" + IntToString(port) + " " + version;
    assert JoinWords(ws[2..]) == version;
    assert JoinWords(ws[1..]) == a + " " + version;
    assert line == JoinWords(ws);
    TokensOfJoinWords(ws);
    SplitAuthorityRoundTrip(host, port);
  }

  /** A CONNECT line with no target closes the connection. */
  lemma BareConnectHasNoTarget(blanks: string)
    requires forall i :: 0 <= i < |blanks| ==> IsSpace(blanks[i])
    ensures ConnectTarget("CONNECT" + blanks) == None
  {
    var line := "CONNECT" + blanks;
    assert line == "CONNECT" + blanks;
    TokensOfWordThen("CONNECT", blanks) by {
      if blanks != [] {
        assert IsSpace(blanks[0]);
      }
    }
    assert SkipSpaces(blanks) == [] by {
      assert forall i :: 0 <= i < |blanks| ==> IsSpace(blanks[i]);
      OnlySpaces(blanks);
    }
  }

  lemma {:induction false} OnlySpaces(s: string)
    requires forall i :: 0 <= i < |s| ==> IsSpace(s[i])
    ensures SkipSpaces(s) == []
    decreases |s|
  {
    if s != [] {
      OnlySpaces(s[1..]);
    }
  }

  // ------------------------------------------------------------ Host header

  /** The host found so far (null before any `Host:` line) and the port. */
  datatype HostPort = HostPort(host: Option<string>, port: int32)

  const NO_HOST: HostPort := HostPort(None, HTTP_DEFAULT_PORT)

  /** `line.toLowerCase().startsWith("host:")`. */
  predicate IsHostHeader(line: string) {
    StartsWith(ToLowerAscii(line), "host:")
  }

  /** One turn of `handleHttpRequest`'s header loop. A `Host:` line sets the
      host to its trimmed value, cut at a ':' past the first character, and
      then the port to the integer after that ':' if it parses; any other
      line changes nothing. */
  function HostHeaderStep(st: HostPort, line: string): (st': HostPort)
    ensures !IsHostHeader(line) ==> st' == st
    ensures IsHostHeader(line) ==> st'.host.Some?
    ensures IsHostHeader(line) && ':' !in Trim(line[5..]) ==> st' == HostPort(Some(Trim(line[5..])), st.port)
  {
    if !IsHostHeader(line) then st
    else
      var hostVal := Trim(line[5..]);
      var colon := IndexOf(hostVal, ':');
      if colon > 0 then
        HostPort(Some(Trim(hostVal[..colon])), ParseInt(Trim(hostVal[colon + 1..])).GetOr(st.port))
      else HostPort(Some(hostVal), st.port)
  }

  /** The header loop over `lines`, from the state `st`. */
  function ScanHeaders(st: HostPort, lines: seq<string>): HostPort
    decreases |lines|
  {
    if lines == [] then st else ScanHeaders(HostHeaderStep(st, lines[0]), lines[1..])
  }

  lemma {:induction false} ScanHeadersAppend(st: HostPort, a: seq<string>, b: seq<string>)
    ensures ScanHeaders(st, a + b) == ScanHeaders(ScanHeaders(st, a), b)
    decreases |a|
  {
    if a != [] {
      assert (a + b)[0] == a[0] && (a + b)[1..] == a[1..] + b;
      ScanHeadersAppend(HostHeaderStep(st, a[0]), a[1..], b);
    } else {
      assert a + b == b;
    }
  }

  /** Lines other than `Host:` lines leave host and port alone; in particular
      a request without one keeps no host and port 80. */
  lemma {:induction false} ScanHeadersWithoutHost(st: HostPort, lines: seq<string>)
    requires forall i :: 0 <= i < |lines| ==> !IsHostHeader(lines[i])
    ensures ScanHeaders(st, lines) == st
    decreases |lines|
  {
    if lines != [] {
      ScanHeadersWithoutHost(st, lines[1..]);
    }
  }

  /** A later `Host:` line overrides an earlier one: the last one decides. */
  lemma LastHostHeaderWins(st: HostPort, before: seq<string>, h: string, after: seq<string>)
    requires IsHostHeader(h)
    requires forall i :: 0 <= i < |after| ==> !IsHostHeader(after[i])
    ensures ScanHeaders(st, before + [h] + after) == HostHeaderStep(ScanHeaders(st, before), h)
  {
    ScanHeadersAppend(st, before + [h], after);
    ScanHeadersAppend(st, before, [h]);
    ScanHeadersWithoutHost(HostHeaderStep(ScanHeaders(st, before), h), after);
    assert ScanHeaders(ScanHeaders(st, before), [h]) == HostHeaderStep(ScanHeaders(st, before), h) by {
      assert [h][1..] == [];
    }
  }

  /** A host name as clients write it: non-empty, no ':', and no whitespace
      or control character at either end. */
  predicate PlainHost(host: string) {
    host != [] && ':' !in host && !IsTrimmable(host[0]) && !IsTrimmable(host[|host| - 1])
  }

  /** Non-empty, with no whitespace or control character anywhere. */
  predicate Printable(s: string) {
    s != [] && forall i :: 0 <= i < |s| ==> !IsTrimmable(s[i])
  }

  /** A header name matched in any letter case, then one space and `v`. */
  lemma HostHeaderLine(name: string, v: string)
    requires |name| == 5 && ToLowerAscii(name) == "host:"
    ensures IsHostHeader(name + " " + v)
    ensures Trim((name + " " + v)[5..]) == Trim(v)
  {
    var line := name + " " + v;
    assert ToLowerAscii(line)[..5] == ToLowerAscii(name);
    assert line[5..] == " " + v;
    TrimLeadingSpace(v);
  }

  /** How the header loop takes `host:digits` apart. */
  lemma HostValueSplit(host: string, digits: string)
    requires PlainHost(host)
    requires Printable(digits)
    ensures var v := host + ":" + digits;
      && Trim(v) == v && IndexOf(v, ':') == |host|
      && Trim(v[..|host|]) == host && Trim(v[|host| + 1..]) == digits
  {
    HostValueTrimmed(host, digits);
    HostValueColon(host, digits);
    HostValueParts(host, digits);
  }

  lemma HostValueTrimmed(host: string, digits: string)
    requires PlainHost(host) && Printable(digits)
    ensures Trim(host + ":" + digits) == host + ":" + digits
  {
    var v := host + ":" + digits;
    assert v[0] == host[0] && v[|v| - 1] == digits[|digits| - 1];
  }

  lemma HostValueColon(host: string, digits: string)
    requires PlainHost(host)
    ensures IndexOf(host + ":" + digits, ':') == |host|
  {
    IndexOfFromIs(host + ":" + digits, ':', 0, |host|);
  }

  lemma HostValueParts(host: string, digits: string)
    requires PlainHost(host) && Printable(digits)
    ensures var v := host + ":" + digits;
      Trim(v[..|host|]) == host && Trim(v[|host| + 1..]) == digits
  {
    OuterSlices(host, ":", digits);
    assert Trim(host) == host by {
      assert !IsTrimmable(host[0]) && !IsTrimmable(host[|host| - 1]);
    }
    assert Trim(digits) == digits by {
      assert !IsTrimmable(digits[0]) && !IsTrimmable(digits[|digits| - 1]);
    }
  }

  /** `Host: name:port`, its name written in any letter case, yields that
      host and port. */
  lemma HostHeaderWithPort(st: HostPort, name: string, host: string, port: int32)
    requires |name| == 5 && ToLowerAscii(name) == "host:"
    requires PlainHost(host)
    ensures IsHostHeader(name + " " + host + ":" + IntToString(port))
    ensures HostHeaderStep(st, name + " " + host + ":" + IntToString(port)) == HostPort(Some(host), port)
  {
    var digits := IntToString(port);
    var v := host + ":" + digits;
    var line := name + " " + host + ":" + digits;
    assert Printable(digits) && ParseInt(digits) == Some(port) by {
      NotTrimmableInIntToString(port);
      ParseIntOfIntToString(port);
    }
    assert IsHostHeader(line) && Trim(line[5..]) == v by {
      assert line == name + " " + v;
      HostHeaderLine(name, v);
      HostValueSplit(host, digits);
    }
    HostStepWithPort(st, line, host, digits, port);
  }

  /** The step on a `Host:` line whose trimmed value is `host:digits`. */
  lemma HostStepWithPort(st: HostPort, line: string, host: string, digits: string, port: int32)
    requires PlainHost(host)
    requires Printable(digits) && ParseInt(digits) == Some(port)
    requires IsHostHeader(line) && Trim(line[5..]) == host + ":" + digits
    ensures HostHeaderStep(st, line) == HostPort(Some(host), port)
  {
    var v := host + ":" + digits;
    assert IndexOf(v, ':') == |host| && Trim(v[..|host|]) == host && Trim(v[|host| + 1..]) == digits by {
      HostValueSplit(host, digits);
    }
    HostStepOnValue(st, line, v, |host|);
  }

  /** The header loop's step on a `Host:` line whose trimmed value is `v`,
      with its first ':' at `colon`. */
  lemma HostStepOnValue(st: HostPort, line: string, v: string, colon: nat)
    requires IsHostHeader(line) && Trim(line[5..]) == v
    requires 0 < colon < |v| && IndexOf(v, ':') == colon
    ensures HostHeaderStep(st, line) == HostPort(Some(Trim(v[..colon])), ParseInt(Trim(v[colon + 1..])).GetOr(st.port))
  {
  }

  /** `Host: name` without a port sets the host and keeps the port found
      before (80 unless an earlier `Host:` line named one). */
  lemma HostHeaderWithoutPort(st: HostPort, name: string, host: string)
    requires |name| == 5 && ToLowerAscii(name) == "host:"
    requires PlainHost(host)
    ensures HostHeaderStep(st, name + " " + host) == HostPort(Some(host), st.port)
  {
    HostHeaderLine(name, host);
  }

  // ------------------------------------------------------ absolute-form URI

  /** Where `SCHEME` first occurs in `line`, found as `indexOf` finds it. */
  lemma SchemeFirstAt(line: string, k: nat)
    requires OccursAt(line, SCHEME, k) && forall i: nat :: i < k ==> !OccursAt(line, SCHEME, i)
    ensures IndexOfString(line, SCHEME) == k
  {
  }

  /** In `method http://...` the scheme found is the one after the method,
      provided the method has no ':' in it. */
  lemma SchemeAfterMethod(m: string, rest: string)
    requires ':' !in m
    ensures IndexOfString(m + " " + SCHEME + rest, SCHEME) == |m| + 1
  {
    var line := m + " " + SCHEME + rest;
    assert line[|m| + 1..|m| + 8] == SCHEME;
    forall i: nat | i < |m| + 1
      ensures !OccursAt(line, SCHEME, i)
    {
      assert line[i + 4] != ':' by {
        if i + 4 < |m| {
          assert line[i + 4] == m[i + 4];
        }
      }
      assert line[i..i + 7][4] == line[i + 4];
    }
    SchemeFirstAt(line, |m| + 1);
  }

  /** The host in `host:port`: what precedes the first ':' when that is not
      the first character, otherwise all of it. */
  function HostPart(hostPort: string): (h: string)
    ensures forall c :: c in h ==> c in hostPort
    ensures ':' !in hostPort ==> h == hostPort
  {
    var colon := IndexOf(hostPort, ':');
    if colon > 0 then hostPort[..colon] else hostPort
  }

  /** `parseHostFromRequestLine`: the text from just after the first
      "http://" up to the next '/' (or the end of the line), trimmed and cut
      at a ':' past its first character. Null when there is no "http://". */
  function HostFromRequestLine(firstLine: string): (h: Option<string>)
    ensures h.Some? ==> '/' !in h.value
  {
    var start := SchemeEnd(firstLine);
    if start < 0 then None
    else
      var slash := IndexOfFrom(firstLine, '/', start);
      var end := if slash < 0 then |firstLine| else slash;
      var authority := firstLine[start..end];
      assert '/' !in authority by {
        forall i | 0 <= i < |authority|
          ensures authority[i] != '/'
        {
          assert authority[i] == firstLine[start + i];
        }
      }
      Some(HostPart(Trim(authority)))
  }

  /** Just past the first "http://" in `line`, or -1 when there is none. */
  function SchemeEnd(line: string): (e: int)
    ensures e == -1 || |SCHEME| <= e <= |line|
  {
    var k := IndexOfString(line, SCHEME);
    if k < 0 then -1 else k + |SCHEME|
  }

  /** The first '/' after the scheme, or -1. */
  function SlashAfterScheme(line: string): (p: int)
    ensures p == -1 || (0 <= p < |line| && line[p] == '/')
  {
    var e := SchemeEnd(line);
    if e < 0 then -1 else IndexOfFrom(line, '/', e)
  }

  /** The end of the authority after the scheme, or -1 without a scheme. */
  function AuthorityEndAfterScheme(line: string): (p: int)
    ensures -1 <= p <= |line|
  {
    var e := SchemeEnd(line);
    if e < 0 then -1 else AuthorityEnd(line, e)
  }

  /** The rewritten line, given where the method ends, the path starts and
      the version starts (-1 for each that was not found): null when any is
      missing or the version starts before the path. */
  function RewriteAt(line: string, methodEnd: int, pathStart: int, verStart: int): Option<string>
    requires methodEnd <= |line| && pathStart <= |line| && verStart < |line|
  {
    if pathStart < 0 || methodEnd < 0 || verStart < pathStart then None
    else Some(Rebuild(line, methodEnd, pathStart, verStart))
  }

  /** The method (up to `methodEnd`), the trimmed path between `pathStart`
      and `verStart` ("/" if empty), and the version after `verStart`. */
  function Rebuild(line: string, methodEnd: nat, pathStart: nat, verStart: nat): string
    requires methodEnd <= |line| && pathStart <= verStart < |line|
  {
    var path := Trim(line[pathStart..verStart]);
    line[..methodEnd] + " " + (if path == [] then "/" else path) + " " + line[verStart + 1..]
  }

  /** `toRelativeRequestLine`: the method, the text from the first '/' after
      the scheme up to the last space (trimmed, "/" if empty), and the text
      after the last space. Null without "http://", without such a '/', without
      a space, or when the last space comes before that '/'. */
  function ToRelativeRequestLine(firstLine: string): (r: Option<string>) {
    RewriteAt(firstLine, IndexOf(firstLine, ' '), SlashAfterScheme(firstLine), LastIndexOf(firstLine, ' '))
  }

  /** Where the authority of an absolute URI ends: at the first '/' or space
      at or after `from`, or at the end of the line. */
  function AuthorityEnd(line: string, from: nat): (e: nat)
    requires from <= |line|
    ensures from <= e <= |line|
    ensures forall i :: from <= i < e ==> line[i] != '/' && line[i] != ' '
    ensures e < |line| ==> line[e] == '/' || line[e] == ' '
    decreases |line| - from
  {
    if from == |line| || line[from] == '/' || line[from] == ' ' then from
    else AuthorityEnd(line, from + 1)
  }

  /** The host of the absolute URI, its authority ending at a '/' or at the
      space before the version. */
  function HostOfAbsoluteUri(firstLine: string): (h: Option<string>)
    ensures h.Some? ==> '/' !in h.value && ' ' !in h.value
  {
    var start := SchemeEnd(firstLine);
    if start < 0 then None
    else
      var authority := firstLine[start..AuthorityEnd(firstLine, start)];
      assert '/' !in authority && ' ' !in authority by {
        forall i | 0 <= i < |authority|
          ensures authority[i] != '/' && authority[i] != ' '
        {
          assert authority[i] == firstLine[start + i];
        }
      }
      Some(HostPart(Trim(authority)))
  }

  /** The request line in origin form (section 3.2.1 of RFC 9112): the method,
      the path of the absolute URI ("/" when it has none) and the version. */
  function ToOriginForm(firstLine: string): (r: Option<string>) {
    RewriteAt(firstLine, IndexOf(firstLine, ' '), AuthorityEndAfterScheme(firstLine), LastIndexOf(firstLine, ' '))
  }

  /** Without "http://" in the line there is no host to take from it and no
      line to rewrite; with one there is always a host. */
  lemma SchemeDecides(line: string)
    ensures HostFromRequestLine(line).None? <==> !Contains(line, SCHEME)
    ensures HostOfAbsoluteUri(line).None? <==> !Contains(line, SCHEME)
    ensures ToRelativeRequestLine(line).Some? ==> Contains(line, SCHEME) && ' ' in line
    ensures ToOriginForm(line).Some? ==> Contains(line, SCHEME) && ' ' in line
  {
    var k := IndexOfString(line, SCHEME);
    if k >= 0 {
      assert OccursAt(line, SCHEME, k);
    }
  }

  /** The parts of `method http://authority[path] version` as a client sends
      them: no space inside a part, no ':' in the method, no '/' in the
      authority, a path that is empty or starts with '/' and holds no
      whitespace or control character. */
  predicate AbsoluteForm(m: string, authority: string, path: string, version: string) {
    && ' ' !in m && ':' !in m
    && '/' !in authority && ' ' !in authority
    && (path == [] || path[0] == '/')
    && (forall i :: 0 <= i < |path| ==> !IsTrimmable(path[i]))
    && ' ' !in version
  }

  function AbsoluteLine(m: string, authority: string, path: string, version: string): string {
    m + " " + SCHEME + authority + path + " " + version
  }

  /** On an absolute-form line the scheme found is the URI's, the first
      space ends the method and the last one starts the version. */
  lemma AbsoluteSpaces(m: string, authority: string, path: string, version: string)
    requires AbsoluteForm(m, authority, path, version)
    ensures var line := AbsoluteLine(m, authority, path, version);
      && IndexOfString(line, SCHEME) == |m| + 1
      && IndexOf(line, ' ') == |m|
      && LastIndexOf(line, ' ') == |m| + 1 + |SCHEME| + |authority| + |path|
  {
    var line := AbsoluteLine(m, authority, path, version);
    assert IndexOfString(line, SCHEME) == |m| + 1 by {
      assert line == m + " " + SCHEME + (authority + path + " " + version);
      SchemeAfterMethod(m, authority + path + " " + version);
    }
    assert IndexOf(line, ' ') == |m| by {
      assert line == m + " " + (SCHEME + authority + path + " " + version);
      MethodEnd(m, SCHEME + authority + path + " " + version);
    }
    var head := m + " " + SCHEME + authority + path;
    assert line == head + " " + version;
    VersionStart(head, version);
  }

  /** On an absolute-form line the authority ends where the path (or, with
      no path, the space before the version) begins. */
  lemma AbsoluteAuthority(m: string, authority: string, path: string, version: string)
    requires AbsoluteForm(m, authority, path, version)
    ensures var line := AbsoluteLine(m, authority, path, version);
      var start := |m| + 1 + |SCHEME|;
      && AuthorityEnd(line, start) == start + |authority|
      && (path != [] ==> IndexOfFrom(line, '/', start) == start + |authority|)
  {
    var line := AbsoluteLine(m, authority, path, version);
    var head := m + " " + SCHEME;
    var rest := path + " " + version;
    assert rest[0] == '/' || rest[0] == ' ' by {
      if path != [] {
        assert rest[0] == path[0];
      }
    }
    assert line == head + authority + rest;
    AuthorityBounds(head, authority, rest);
    assert path != [] ==> rest[0] == '/';
  }

  lemma MethodEnd(m: string, rest: string)
    requires ' ' !in m
    ensures IndexOf(m + " " + rest, ' ') == |m|
  {
    var line := m + " " + rest;
    forall i | 0 <= i < |m|
      ensures line[i] != ' '
    {
      assert line[i] == m[i];
    }
    IndexOfFromIs(line, ' ', 0, |m|);
  }

  lemma VersionStart(head: string, version: string)
    requires ' ' !in version
    ensures LastIndexOf(head + " " + version, ' ') == |head|
  {
    var line := head + " " + version;
    assert line[|head|] == ' ' && line[|head| + 1..] == version;
    LastSpaceAt(line, |head|);
  }

  /** A space followed by space-free text is the last space. */
  lemma LastSpaceAt(line: string, k: nat)
    requires k < |line| && line[k] == ' ' && ' ' !in line[k + 1..]
    ensures LastIndexOf(line, ' ') == k
  {
    forall i | k < i < |line|
      ensures line[i] != ' '
    {
      assert line[i] == line[k + 1..][i - k - 1];
    }
    LastIndexOfIs(line, ' ', k);
  }

  lemma AuthorityBounds(head: string, authority: string, rest: string)
    requires '/' !in authority && ' ' !in authority
    requires rest != [] && (rest[0] == '/' || rest[0] == ' ')
    ensures AuthorityEnd(head + authority + rest, |head|) == |head| + |authority|
    ensures rest[0] == '/' ==> IndexOfFrom(head + authority + rest, '/', |head|) == |head| + |authority|
  {
    var line := head + authority + rest;
    var e := |head| + |authority|;
    forall i | |head| <= i < e
      ensures line[i] != '/' && line[i] != ' '
    {
      assert line[i] == authority[i - |head|];
    }
    assert line[e] == rest[0];
    AuthorityEndIs(line, |head|, e);
    if rest[0] == '/' {
      IndexOfFromIs(line, '/', |head|, e);
    }
  }

  lemma AuthorityEndIs(line: string, from: nat, e: nat)
    requires from <= e < |line| && (line[e] == '/' || line[e] == ' ')
    requires forall i :: from <= i < e ==> line[i] != '/' && line[i] != ' '
    ensures AuthorityEnd(line, from) == e
  {
  }

  /** The parts of an absolute-form line, cut back out of it at the given
      indexes. */
  lemma AbsoluteParts(m: string, authority: string, path: string, version: string,
                      start: nat, pathStart: nat, verStart: nat)
    requires start == |m| + 1 + |SCHEME| && pathStart == start + |authority| && verStart == pathStart + |path|
    ensures var line := AbsoluteLine(m, authority, path, version);
      && verStart < |line|
      && line[..|m|] == m && line[start..pathStart] == authority
      && line[pathStart..verStart] == path && line[verStart + 1..] == version
  {
    var line := AbsoluteLine(m, authority, path, version);
    assert line == (m + " " + SCHEME) + authority + path + (" " + version);
    assert line[..|m|] == m;
    MiddleSlice(m + " " + SCHEME, authority, path + " " + version);
    assert line == (m + " " + SCHEME + authority) + path + (" " + version);
    MiddleSlice(m + " " + SCHEME + authority, path, " " + version);
  }

  /** The scheme found at `scheme` ends `|SCHEME|` characters later. */
  lemma SchemeEndAt(line: string, scheme: nat)
    requires IndexOfString(line, SCHEME) == scheme
    ensures SchemeEnd(line) == scheme + |SCHEME|
  {
  }

  /** What the corrected rewrite computes, given the indexes it finds. */
  lemma OriginFormAt(line: string, start: nat, pathStart: nat, methodEnd: nat, verStart: nat)
    requires SchemeEnd(line) == start && start <= pathStart <= verStart < |line|
    requires AuthorityEnd(line, start) == pathStart
    requires IndexOf(line, ' ') == methodEnd && LastIndexOf(line, ' ') == verStart
    ensures ToOriginForm(line) == Some(Rebuild(line, methodEnd, pathStart, verStart))
  {
    assert AuthorityEndAfterScheme(line) == pathStart;
  }

  lemma OriginHostAt(line: string, start: nat, pathStart: nat, authority: string)
    requires SchemeEnd(line) == start && start <= pathStart <= |line|
    requires AuthorityEnd(line, start) == pathStart && line[start..pathStart] == authority
    ensures HostOfAbsoluteUri(line) == Some(HostPart(Trim(authority)))
  {
  }

  /** What the rewrite as written computes, given the indexes it finds. */
  lemma RelativeFormAt(line: string, start: nat, pathStart: nat, methodEnd: nat, verStart: nat)
    requires SchemeEnd(line) == start && start <= pathStart <= verStart < |line|
    requires IndexOfFrom(line, '/', start) == pathStart
    requires IndexOf(line, ' ') == methodEnd && LastIndexOf(line, ' ') == verStart
    ensures ToRelativeRequestLine(line) == Some(Rebuild(line, methodEnd, pathStart, verStart))
  {
    assert SlashAfterScheme(line) == pathStart;
  }

  lemma RelativeHostAt(line: string, start: nat, pathStart: nat, authority: string)
    requires SchemeEnd(line) == start && start <= pathStart < |line|
    requires IndexOfFrom(line, '/', start) == pathStart && line[start..pathStart] == authority
    ensures HostFromRequestLine(line) == Some(HostPart(Trim(authority)))
  {
  }

  /** A path without whitespace or control characters is its own trim. */
  lemma TrimOfPath(path: string)
    requires forall i :: 0 <= i < |path| ==> !IsTrimmable(path[i])
    ensures Trim(path) == path
  {
    if path != [] {
      assert !IsTrimmable(path[0]) && !IsTrimmable(path[|path| - 1]);
    }
  }

  /** The line rebuilt from its parts: the method, the path ("/" when empty)
      and the version. */
  lemma RebuildOfParts(line: string, methodEnd: nat, pathStart: nat, verStart: nat,
                       m: string, path: string, version: string)
    requires methodEnd <= |line| && pathStart <= verStart < |line|
    requires line[..methodEnd] == m && Trim(line[pathStart..verStart]) == path && line[verStart + 1..] == version
    ensures Rebuild(line, methodEnd, pathStart, verStart) == m + " " + (if path == [] then "/" else path) + " " + version
  {
  }

  /** The indexes the rewrites look for, and the text between them. */
  predicate Indexed(line: string, methodEnd: nat, start: nat, pathStart: nat, verStart: nat,
                    m: string, authority: string, path: string, version: string) {
    && start <= pathStart <= verStart < |line|
    && SchemeEnd(line) == start && AuthorityEnd(line, start) == pathStart
    && (path != [] ==> IndexOfFrom(line, '/', start) == pathStart)
    && IndexOf(line, ' ') == methodEnd && LastIndexOf(line, ' ') == verStart
    && line[..methodEnd] == m && line[start..pathStart] == authority
    && Trim(line[pathStart..verStart]) == path && line[verStart + 1..] == version
  }

  /** An absolute-form line has its parts where the rewrites look for them. */
  lemma AbsoluteIndexed(m: string, authority: string, path: string, version: string)
    returns (methodEnd: nat, start: nat, pathStart: nat, verStart: nat)
    requires AbsoluteForm(m, authority, path, version)
    ensures Indexed(AbsoluteLine(m, authority, path, version), methodEnd, start, pathStart, verStart,
                    m, authority, path, version)
  {
    var line := AbsoluteLine(m, authority, path, version);
    methodEnd, start := |m|, |m| + 1 + |SCHEME|;
    pathStart := start + |authority|;
    verStart := pathStart + |path|;
    assert SchemeEnd(line) == start && IndexOf(line, ' ') == methodEnd && LastIndexOf(line, ' ') == verStart by {
      AbsoluteSpaces(m, authority, path, version);
      SchemeEndAt(line, |m| + 1);
    }
    assert AuthorityEnd(line, start) == pathStart && (path != [] ==> IndexOfFrom(line, '/', start) == pathStart) by {
      AbsoluteAuthority(m, authority, path, version);
    }
    assert line[..methodEnd] == m && line[start..pathStart] == authority
      && line[pathStart..verStart] == path && line[verStart + 1..] == version by {
      AbsoluteParts(m, authority, path, version, start, pathStart, verStart);
    }
    assert Trim(path) == path by {
      TrimOfPath(path);
    }
  }

  lemma OriginFormOfIndexed(line: string, methodEnd: nat, start: nat, pathStart: nat, verStart: nat,
                            m: string, authority: string, path: string, version: string)
    requires Indexed(line, methodEnd, start, pathStart, verStart, m, authority, path, version)
    ensures ToOriginForm(line) == Some(m + " " + (if path == [] then "/" else path) + " " + version)
    ensures HostOfAbsoluteUri(line) == Some(HostPart(Trim(authority)))
  {
    OriginFormAt(line, start, pathStart, methodEnd, verStart);
    RebuildOfParts(line, methodEnd, pathStart, verStart, m, path, version);
    OriginHostAt(line, start, pathStart, authority);
  }

  lemma RelativeFormOfIndexed(line: string, methodEnd: nat, start: nat, pathStart: nat, verStart: nat,
                              m: string, authority: string, path: string, version: string)
    requires Indexed(line, methodEnd, start, pathStart, verStart, m, authority, path, version) && path != []
    ensures ToRelativeRequestLine(line) == Some(m + " " + path + " " + version)
    ensures HostFromRequestLine(line) == Some(HostPart(Trim(authority)))
  {
    RelativeFormAt(line, start, pathStart, methodEnd, verStart);
    RebuildOfParts(line, methodEnd, pathStart, verStart, m, path, version);
    RelativeHostAt(line, start, pathStart, authority);
  }

  /** On an absolute-form line the corrected rewrite keeps the method and the
      version and puts the path in place of the URI, "/" when the URI has
      none; the host is the authority's host. */
  lemma OriginFormOfAbsolute(m: string, authority: string, path: string, version: string)
    requires AbsoluteForm(m, authority, path, version)
    ensures var line := AbsoluteLine(m, authority, path, version);
      && ToOriginForm(line) == Some(m + " " + (if path == [] then "/" else path) + " " + version)
      && HostOfAbsoluteUri(line) == Some(HostPart(Trim(authority)))
  {
    var methodEnd, start, pathStart, verStart := AbsoluteIndexed(m, authority, path, version);
    OriginFormOfIndexed(AbsoluteLine(m, authority, path, version), methodEnd, start, pathStart, verStart,
      m, authority, path, version);
  }

  /** On an absolute-form line with a path, the rewrite as written does the
      same, and so does the host parse. */
  lemma RelativeFormOfAbsolute(m: string, authority: string, path: string, version: string)
    requires AbsoluteForm(m, authority, path, version) && path != []
    ensures var line := AbsoluteLine(m, authority, path, version);
      && ToRelativeRequestLine(line) == Some(m + " " + path + " " + version)
      && HostFromRequestLine(line) == Some(HostPart(Trim(authority)))
  {
    var methodEnd, start, pathStart, verStart := AbsoluteIndexed(m, authority, path, version);
    RelativeFormOfIndexed(AbsoluteLine(m, authority, path, version), methodEnd, start, pathStart, verStart,
      m, authority, path, version);
  }

  /** Wherever the URI has a path, the corrected functions agree with the
      ones as written. */
  lemma CorrectedAgreesWithPath(m: string, authority: string, path: string, version: string)
    requires AbsoluteForm(m, authority, path, version) && path != []
    ensures var line := AbsoluteLine(m, authority, path, version);
      && ToOriginForm(line) == ToRelativeRequestLine(line)
      && HostOfAbsoluteUri(line) == HostFromRequestLine(line)
  {
    OriginFormOfAbsolute(m, authority, path, version);
    RelativeFormOfAbsolute(m, authority, path, version);
  }

  /** The first '/' from the start of `mid` is the one that begins `post`. */
  lemma SlashAfter(head: string, mid: string, post: string)
    requires '/' !in mid && post != [] && post[0] == '/'
    ensures IndexOfFrom(head + mid + post, '/', |head|) == |head| + |mid|
    ensures (head + mid + post)[|head|..|head| + |mid|] == mid
  {
    var line := head + mid + post;
    forall i | |head| <= i < |head| + |mid|
      ensures line[i] != '/'
    {
      assert line[i] == mid[i - |head|];
    }
    IndexOfFromIs(line, '/', |head|, |head| + |mid|);
    MiddleSlice(head, mid, post);
  }

  /** Where an absolute-form line without a path has its scheme, its last
      space and its first '/' after the scheme: past the last space. */
  lemma NoPathIndexes(m: string, authority: string, version: string)
    returns (start: nat, slash: nat, verStart: nat)
    requires AbsoluteForm(m, authority, [], version) && '/' in version
    ensures var line := AbsoluteLine(m, authority, [], version);
      && SchemeEnd(line) == start && start <= verStart < slash < |line|
      && IndexOfFrom(line, '/', start) == slash && LastIndexOf(line, ' ') == verStart
      && line[start..slash] == authority + " " + version[..IndexOf(version, '/')]
  {
    var line := AbsoluteLine(m, authority, [], version);
    start := |m| + 1 + |SCHEME|;
    verStart := start + |authority|;
    var k := IndexOf(version, '/');
    slash := verStart + 1 + k;
    assert SchemeEnd(line) == start && LastIndexOf(line, ' ') == verStart by {
      AbsoluteSpaces(m, authority, [], version);
      SchemeEndAt(line, |m| + 1);
    }
    assert IndexOfFrom(line, '/', start) == slash
        && line[start..slash] == authority + " " + version[..k] by {
      assert line == (m + " " + SCHEME) + authority + " " + version;
      SlashInVersionAt(m + " " + SCHEME, authority, version, k, start, slash);
    }
  }

  /** In `head + authority + " " + version`, with no '/' in the authority,
      the first '/' after the head is the version's first one, at `k`. */
  lemma SlashInVersionAt(head: string, authority: string, version: string, k: nat, i: nat, j: nat)
    requires '/' !in authority && k < |version| && '/' !in version[..k] && version[k] == '/'
    requires i == |head| && j == i + |authority| + 1 + k
    ensures var line := head + authority + " " + version;
      && j <= |line| && IndexOfFrom(line, '/', i) == j
      && line[i..j] == authority + " " + version[..k]
  {
    var pre, post := version[..k], version[k..];
    var mid := authority + " " + pre;
    assert '/' !in mid by {
      assert '/' !in " ";
      NotInJoin('/', authority, " ", pre);
    }
    assert head + authority + " " + version == head + mid + post by {
      assert version == pre + post;
      Regroup5(head, authority, " ", pre, post);
    }
    SlashAfter(head, mid, post);
  }

  /** As written, an absolute URI without a path is left unrewritten, and its
      host runs on past the space into the version up to that version's '/'. */
  lemma NoPathAsWritten(m: string, authority: string, version: string)
    requires AbsoluteForm(m, authority, [], version) && '/' in version
    ensures var line := AbsoluteLine(m, authority, [], version);
      && ToRelativeRequestLine(line) == None
      && HostFromRequestLine(line) == Some(HostPart(Trim(authority + " " + version[..IndexOf(version, '/')])))
  {
    var start, slash, verStart := NoPathIndexes(m, authority, version);
    NoPathAt(AbsoluteLine(m, authority, [], version), start, slash, verStart,
      authority + " " + version[..IndexOf(version, '/')]);
  }

  lemma NoPathAt(line: string, start: nat, slash: nat, verStart: nat, hostPort: string)
    requires SchemeEnd(line) == start && start <= verStart < slash < |line|
    requires IndexOfFrom(line, '/', start) == slash && LastIndexOf(line, ' ') == verStart
    requires line[start..slash] == hostPort
    ensures ToRelativeRequestLine(line) == None
    ensures HostFromRequestLine(line) == Some(HostPart(Trim(hostPort)))
  {
    assert SlashAfterScheme(line) == slash;
  }

  /** On a line such as "GET http://example.com HTTP/1.0", whose URI has no
      path and whose version holds a '/', the functions as written and the
      corrected ones part ways: as written the host is "example.com HTTP"
      and the line is not rewritten; corrected, the host is "example.com"
      and the line is "GET / HTTP/1.0". */
  lemma NoPathDiverges(m: string, authority: string, version: string)
    requires AbsoluteForm(m, authority, [], version) && PlainHost(authority)
    requires Printable(version) && ':' !in version && '/' in version && version[0] != '/'
    ensures var line := AbsoluteLine(m, authority, [], version);
      && HostFromRequestLine(line) == Some(authority + " " + version[..IndexOf(version, '/')])
      && ToRelativeRequestLine(line) == None
      && HostOfAbsoluteUri(line) == Some(authority)
      && ToOriginForm(line) == Some(m + " " + "/" + " " + version)
  {
    NoPathAsWritten(m, authority, version);
    OriginFormOfAbsolute(m, authority, [], version);
    NoPathHostPlain(authority, version);
    PlainHostPart(authority + " " + version[..IndexOf(version, '/')]);
    PlainHostPart(authority);
  }

  /** The host as written, the authority and the version up to its '/', has
      no ':' and no whitespace at either end. */
  lemma NoPathHostPlain(authority: string, version: string)
    requires PlainHost(authority) && Printable(version) && ':' !in version
    requires '/' in version && version[0] != '/'
    ensures PlainHost(authority + " " + version[..IndexOf(version, '/')])
  {
    var k := IndexOf(version, '/');
    var host := authority + " " + version[..k];
    assert host[|host| - 1] == version[k - 1];
    assert ':' !in version[..k];
    assert forall c :: c in host ==> c in authority || c == ' ' || c in version[..k];
  }

  lemma PlainHostPart(host: string)
    requires PlainHost(host)
    ensures HostPart(Trim(host)) == host
  {
  }

  /** The host named in the URI, whatever port follows it. */
  lemma HostPartOfAuthority(host: string, port: int32)
    requires PlainHost(host)
    ensures HostPart(Trim(host)) == host
    ensures HostPart(Trim(host + ":" + IntToString(port))) == host
  {
    NotTrimmableInIntToString(port);
    HostValueSplit(host, IntToString(port));
    HostPartWithPort(host, IntToString(port));
  }

  lemma HostPartWithPort(host: string, port: string)
    requires host != [] && ':' !in host
    ensures HostPart(host + ":" + port) == host
  {
    var v := host + ":" + port;
    IndexOfFromIs(v, ':', 0, |host|);
    assert v[..|host|] == host;
  }
}
