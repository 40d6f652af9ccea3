/** `BufferedReader.readLine()` over a socket: lines end at LF, CR or CR LF;
    the reader refills its buffer one chunk of the stream at a time, and
    after a CR it drops a LF only when that LF is the next character read. */
module LineReader {
  import opened Text
  import opened Net

  const CR: byte := 13
  const LF: byte := 10

  predicate IsEol(b: byte) {
    b == CR || b == LF
  }

  predicate NoEol(s: seq<byte>) {
    forall k :: 0 <= k < |s| ==> !IsEol(s[k])
  }

  /** The first CR or LF at or after `from`, or `|s|` when there is none. */
  function EolFrom(s: seq<byte>, from: nat): (i: nat)
    requires from <= |s|
    ensures from <= i <= |s|
    ensures NoEol(s[from..i])
    ensures i < |s| ==> IsEol(s[i])
    decreases |s| - from
  {
    if from == |s| || IsEol(s[from]) then from
    else
      var i := EolFrom(s, from + 1);
      assert s[from..i] == [s[from]] + s[from + 1..i];
      i
  }

  /** The line at the head of `data`, as a reader of the whole stream sees it:
      the characters before the first line end, and how many bytes the line
      and its end take (CR LF counts as one end). No line at end of stream. */
  function NextLine(data: seq<byte>): (r: Option<(seq<byte>, nat)>)
    ensures data == [] <==> r.None?
    ensures r.Some? ==> 0 < r.value.1 <= |data| && |r.value.0| <= r.value.1 <= |r.value.0| + 2
    ensures r.Some? ==> NoEol(r.value.0) && data[..|r.value.0|] == r.value.0
  {
    if data == [] then None
    else
      var i := EolFrom(data, 0);
      if i == |data| then Some((data, |data|))
      else if data[i] == CR && i + 1 < |data| && data[i + 1] == LF then Some((data[..i], i + 2))
      else Some((data[..i], i + 1))
  }

  /** The line end is exactly what lies between the line and the rest. */
  lemma NextLineSplits(data: seq<byte>)
    requires data != []
    ensures var (line, n) := NextLine(data).value;
      var ending := data[|line|..n];
      data == line + ending + data[n..]
      && (ending == [] || ending == [CR] || ending == [LF] || ending == [CR, LF])
      && (ending == [] ==> line == data)
  {
    var (line, n) := NextLine(data).value;
    assert data == data[..n] + data[n..];
    assert data[..n] == line + data[|line|..n];
  }

  /** The first line end is the one position with none before it. */
  lemma FirstEol(s: seq<byte>, k: nat)
    requires k <= |s| && NoEol(s[..k]) && (k < |s| ==> IsEol(s[k]))
    ensures EolFrom(s, 0) == k
  {
    FirstEolFrom(s, 0, k);
  }

  lemma {:induction false} FirstEolFrom(s: seq<byte>, j: nat, k: nat)
    requires j <= k <= |s| && NoEol(s[..k]) && (k < |s| ==> IsEol(s[k]))
    ensures EolFrom(s, j) == k
    decreases k - j
  {
    if j < k {
      assert s[..k][j] == s[j];
      FirstEolFrom(s, j + 1, k);
    }
  }

  lemma DropPrefix(w: seq<byte>, p: seq<byte>, n: nat)
    requires n <= |p|
    ensures (w + p)[|w| + n..] == p[n..]
  {
  }

  /** A line that has not ended yet continues into what follows. */
  lemma NextLineAfterPrefix(w: seq<byte>, p: seq<byte>)
    requires NoEol(w) && p != []
    ensures NextLine(w + p) == Some((w + NextLine(p).value.0, |w| + NextLine(p).value.1))
  {
    var s := w + p;
    var i := EolFrom(p, 0);
    assert s[..|w| + i] == w + p[..i];
    FirstEol(s, |w| + i);
    assert s[|w|..] == p;
  }

  // ------------------------------------------------------------ the reader

  /** The reader's state: characters buffered from the last refill, the rest
      of the socket's stream, and whether a LF after a CR is still to be skipped. */
  datatype Reader = Reader(buffered: seq<byte>, source: Stream, skipLF: bool)

  /** A reader that has read nothing yet. */
  function NewReader(st: Stream): (r: Reader)
    ensures Unread(r) == Pending(st)
  {
    Reader([], st, false)
  }

  /** What the reader will still deliver, as one sequence of bytes. */
  function Unread(r: Reader): seq<byte> {
    var all := r.buffered + Pending(r.source);
    if r.skipLF && |all| > 0 && all[0] == LF then all[1..] else all
  }

  /** `readLine()`, with the characters of a line already collected in `acc`. */
  function ReadLineOnto(r: Reader, acc: seq<byte>): (Option<seq<byte>>, Reader)
    decreases |r.source|, |r.buffered|
  {
    if r.buffered == [] then
      if r.source == [] then (if acc == [] then None else Some(acc), r)
      else ReadLineOnto(Reader(r.source[0], r.source[1..], r.skipLF), acc)
    else
      var b := r.buffered;
      var start := if r.skipLF && b[0] == LF then 1 else 0;
      var i := EolFrom(b, start);
      if i < |b| then (Some(acc + b[start..i]), Reader(b[i + 1..], r.source, b[i] == CR))
      else ReadLineOnto(Reader([], r.source, false), acc + b[start..])
  }

  /** The line end found in the buffer is the stream's next line end. */
  lemma LineEndInBuffer(r: Reader, acc: seq<byte>)
    requires r.buffered != []
    requires var b := r.buffered; EolFrom(b, if r.skipLF && b[0] == LF then 1 else 0) < |b|
    ensures var (l, r') := ReadLineOnto(r, acc);
      var u := Unread(r);
      u != [] && l == Some(acc + NextLine(u).value.0) && Unread(r') == u[NextLine(u).value.1..]
  {
    var b := r.buffered;
    var start := if r.skipLF && b[0] == LF then 1 else 0;
    var i := EolFrom(b, start);
    assert Unread(r) == b[start..i] + b[i..] + Pending(r.source) by {
      assert b[start..] == b[start..i] + b[i..];
    }
    LineEndAt(b[start..i], b[i..], r.source);
  }

  /** A line `w` ended by the first byte of `e` is the next line of `w + e`
      followed by the stream `st`,
      and a reader left at `e[1..]` and the stream `st` (skipping a LF after a CR)
      has the rest. */
  lemma LineEndAt(w: seq<byte>, e: seq<byte>, st: Stream)
    requires NoEol(w) && e != [] && IsEol(e[0])
    ensures var u := w + e + Pending(st);
      var n := NextLine(u).value.1;
      && NextLine(u).value.0 == w
      && Unread(Reader(e[1..], st, e[0] == CR)) == u[n..]
  {
    var p := Pending(st);
    var u := w + e + p;
    assert u[..|w|] == w && u[|w|] == e[0];
    FirstEol(u, |w|);
    var n := NextLine(u).value.1;
    assert u[|w| + 1..] == e[1..] + p;
    if e[0] == CR && |w| + 1 < |u| && u[|w| + 1] == LF {
      assert n == |w| + 2;
    } else {
      assert n == |w| + 1;
    }
  }

  lemma {:induction false} ReadLineOntoLogical(r: Reader, acc: seq<byte>)
    requires acc != [] ==> !r.skipLF
    ensures var (l, r') := ReadLineOnto(r, acc);
      var u := Unread(r);
      && (u == [] ==> l == (if acc == [] then None else Some(acc)) && Unread(r') == [])
      && (u != [] ==> l == Some(acc + NextLine(u).value.0) && Unread(r') == u[NextLine(u).value.1..])
    decreases |r.source|, |r.buffered|, 1
  {
    var u := Unread(r);
    if r.buffered == [] {
      if r.source != [] {
        var r2 := Reader(r.source[0], r.source[1..], r.skipLF);
        assert Unread(r2) == u;
        ReadLineOntoLogical(r2, acc);
      }
    } else {
      var b := r.buffered;
      var start := if r.skipLF && b[0] == LF then 1 else 0;
      if EolFrom(b, start) < |b| {
        LineEndInBuffer(r, acc);
      } else {
        LineRunsPastBuffer(r, acc);
      }
    }
  }

  /** A line with no end in the buffer goes on in the stream. */
  lemma {:induction false} LineRunsPastBuffer(r: Reader, acc: seq<byte>)
    requires acc != [] ==> !r.skipLF
    requires r.buffered != []
    requires var b := r.buffered; EolFrom(b, if r.skipLF && b[0] == LF then 1 else 0) == |b|
    ensures var (l, r') := ReadLineOnto(r, acc);
      var u := Unread(r);
      && (u == [] ==> l == (if acc == [] then None else Some(acc)) && Unread(r') == [])
      && (u != [] ==> l == Some(acc + NextLine(u).value.0) && Unread(r') == u[NextLine(u).value.1..])
    decreases |r.source|, |r.buffered|, 0
  {
    var b := r.buffered;
    var start := if r.skipLF && b[0] == LF then 1 else 0;
    var w := b[start..];
    var r2 := Reader([], r.source, false);
    BufferRunsOn(r, acc);
    ReadLineOntoLogical(r2, acc + w);
    var (l, r') := ReadLineOnto(r2, acc + w);
    ContinuedLine(w, Pending(r.source), acc, l, Unread(r'));
  }

  /** The state after a buffer without a line end has been taken in whole. */
  lemma BufferRunsOn(r: Reader, acc: seq<byte>)
    requires r.buffered != []
    requires var b := r.buffered; EolFrom(b, if r.skipLF && b[0] == LF then 1 else 0) == |b|
    ensures var b := r.buffered;
      var w := b[if r.skipLF && b[0] == LF then 1 else 0..];
      && ReadLineOnto(r, acc) == ReadLineOnto(Reader([], r.source, false), acc + w)
      && Unread(r) == w + Pending(r.source)
      && Unread(Reader([], r.source, false)) == Pending(r.source)
      && NoEol(w)
  {
    var b := r.buffered;
    var start := if r.skipLF && b[0] == LF then 1 else 0;
    assert b[start..|b|] == b[start..];
  }

  /** Characters with no line end, followed by the rest of the stream. */
  lemma ContinuedLine(w: seq<byte>, p: seq<byte>, acc: seq<byte>, l: Option<seq<byte>>, rest: seq<byte>)
    requires NoEol(w)
    requires p == [] ==> l == (if acc + w == [] then None else Some(acc + w)) && rest == []
    requires p != [] ==> l == Some(acc + w + NextLine(p).value.0) && rest == p[NextLine(p).value.1..]
    ensures var u := w + p;
      && (u == [] ==> l == (if acc == [] then None else Some(acc)) && rest == [])
      && (u != [] ==> l == Some(acc + NextLine(u).value.0) && rest == u[NextLine(u).value.1..])
  {
    if p != [] {
      var (lp, np) := NextLine(p).value;
      NextLineAfterPrefix(w, p);
      assert acc + w + lp == acc + (w + lp);
      DropPrefix(w, p, np);
    } else {
      assert w + p == w;
      if w == [] {
        assert acc + w == acc;
      }
    }
  }

  /** `BufferedReader.readLine()`. */
  function ReadLine(r: Reader): (Option<seq<byte>>, Reader) {
    ReadLineOnto(r, [])
  }

  /** The reader returns the logical lines of the stream, one after another,
      however the stream is cut into chunks; `None` only at the end. */
  lemma ReadLineLogical(r: Reader)
    ensures var (l, r') := ReadLine(r);
      var u := Unread(r);
      && (u == [] ==> l.None? && Unread(r') == [])
      && (u != [] ==> l == Some(NextLine(u).value.0) && Unread(r') == u[NextLine(u).value.1..])
  {
    ReadLineOntoLogical(r, []);
    if Unread(r) != [] {
      assert [] + NextLine(Unread(r)).value.0 == NextLine(Unread(r)).value.0;
    }
  }

  /** The buffered characters past the current position belong to the reader:
      the socket's own stream has only what the reader has not pulled in. */
  lemma SourceIsSuffixOfUnread(r: Reader)
    ensures |Pending(r.source)| <= |Unread(r)| + 1
    ensures Pending(r.source) == (r.buffered + Pending(r.source))[|r.buffered|..]
  {
  }

  /** A stream holding exactly what the reader has not delivered yet: the
      buffered characters put back in front of the socket's stream. */
  function Leftover(r: Reader): (st: Stream)
    ensures Pending(st) == Unread(r)
  {
    var all := r.buffered + Pending(r.source);
    var rest := if r.skipLF && |all| > 0 && all[0] == LF then all[1..] else all;
    if rest == [] then [] else
      assert [rest][0] == rest && [rest][1..] == [];
      assert Pending([rest]) == rest + Pending([]);
      [rest]
  }
}
