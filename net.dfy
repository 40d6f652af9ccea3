/** Sockets as values. What a peer will still deliver is a sequence of non-empty
    chunks: a bulk read returns at most the rest of the chunk at the head, so a
    short read is possible whenever the peer's bytes arrive in pieces. */
module Net {
  import opened Text

  /** The bytes that one read can return at once. */
  type Segment = s: seq<byte> | |s| > 0 witness [0]

  /** What a socket's input stream will still deliver, chunk by chunk. */
  type Stream = seq<Segment>

  /** The bytes still to come, in order. */
  function Pending(st: Stream): (p: seq<byte>)
    ensures |p| >= |st|
  {
    if st == [] then [] else st[0] + Pending(st[1..])
  }

  lemma PendingOfCons(head: Segment, tail: Stream)
    ensures Pending([head] + tail) == head + Pending(tail)
  {
    assert ([head] + tail)[1..] == tail;
  }

  /** `InputStream.read()`: the next byte, or -1 at end of stream. */
  function ReadByte(st: Stream): (r: (int, Stream))
    ensures st == [] ==> r == (-1, [])
    ensures st != [] ==> r.0 == Pending(st)[0] && Pending(r.1) == Pending(st)[1..]
  {
    if st == [] then (-1, [])
    else if |st[0]| == 1 then (st[0][0], st[1..])
    else
      PendingOfCons(st[0][1..], st[1..]);
      (st[0][0], [st[0][1..]] + st[1..])
  }

  /** `InputStream.read(buf, off, len)` with `len > 0`: between 1 and `len`
      bytes, never past the head chunk; no bytes means -1 (end of stream). */
  function ReadSome(st: Stream, len: nat): (r: (seq<byte>, Stream))
    requires len > 0
    ensures st == [] ==> r == ([], [])
    ensures st != [] ==> 1 <= |r.0| <= len
    ensures |r.0| <= |Pending(st)| && r.0 == Pending(st)[..|r.0|] && Pending(r.1) == Pending(st)[|r.0|..]
  {
    if st == [] then ([], [])
    else if |st[0]| <= len then (st[0], st[1..])
    else
      PendingOfCons(st[0][len..], st[1..]);
      (st[0][..len], [st[0][len..]] + st[1..])
  }

  /** The outcome of dialling the upstream proxy: refused or timed out, or
      connected, with the bytes the proxy will send back. */
  datatype Dial = Unreachable | Connected(reply: Stream)

  /** The bytes the proxy sends back over the dialled socket (none if the
      dial failed). */
  function ReplyBytes(dial: Dial): seq<byte> {
    if dial.Connected? then Pending(dial.reply) else []
  }

  /** Why an upstream handshake failed (the message of the IOException thrown). */
  datatype ProxyError =
    | DialFailed             // socket.connect threw
    | UnexpectedEof          // "SOCKS5: unexpected EOF"
    | BadVersion             // "SOCKS5: invalid version in method response"
    | CredentialsTooLong     // "SOCKS5: username/password too long"
    | AuthFailed             // "SOCKS5: authentication failed"
    | NoAcceptableMethod     // "SOCKS5: no acceptable method"
    | HostTooLong            // "SOCKS5: host too long"
    | ConnectFailedReply     // "SOCKS5: CONNECT failed reply"
    | UnknownAddressType     // "SOCKS5: unknown address type"
    | NoResponse             // "HTTP proxy: no response"
    | Rejected(statusLine: string)  // "HTTP proxy CONNECT failed: " + status line

  datatype Verdict = Established | Failed(error: ProxyError)

  /** An upstream handshake, stated on the proxy's reply bytes: the verdict, the
      bytes written to the proxy, how many reply bytes were read, and whether
      the socket is still open afterwards (on success it is the tunnel). */
  datatype Exchange = Exchange(verdict: Verdict, sent: seq<byte>, consumed: nat, open: bool)
}
