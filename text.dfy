/** Java string and number primitives the proxy relies on, over Dafny strings:
    searching, trim, split on whitespace, Integer.parseInt / Integer.toString,
    ASCII case folding, and the UTF-8 and ISO-8859-1 encoders. */
module Text {

  type byte = x: int | 0 <= x < 256

  /** Java's `int`. */
  type int32 = x: int | -0x8000_0000 <= x < 0x8000_0000

  /** A nullable reference: `None` stands for Java's null. */
  datatype Option<T> = None | Some(value: T) {
    function GetOr(default: T): T {
      if Some? then value else default
    }
  }

  // ---------------------------------------------------------------- search

  /** Java's `s.indexOf(c, from)`: the first index at or after `from` holding `c`, or -1. */
  function IndexOfFrom(s: string, c: char, from: nat): (r: int)
    ensures r == -1 || (from <= r < |s| && s[r] == c)
    ensures r == -1 ==> forall i :: from <= i < |s| ==> s[i] != c
    ensures r >= 0 ==> forall i :: from <= i < r ==> s[i] != c
    decreases |s| - from
  {
    if from >= |s| then -1
    else if s[from] == c then from
    else IndexOfFrom(s, c, from + 1)
  }

  /** The first `c` at or after `from` is the one with none before it. */
  lemma IndexOfFromIs(s: string, c: char, from: nat, k: nat)
    requires from <= k <= |s| && (forall i :: from <= i < k ==> s[i] != c)
    requires k < |s| ==> s[k] == c
    ensures IndexOfFrom(s, c, from) == if k == |s| then -1 else k
  {
  }

  /** Java's `s.indexOf(c)`. */
  function IndexOf(s: string, c: char): (r: int)
    ensures r == -1 || (0 <= r < |s| && s[r] == c)
    ensures r == -1 <==> c !in s
    ensures r >= 0 ==> c !in s[..r]
  {
    IndexOfFrom(s, c, 0)
  }

  /** Java's `s.lastIndexOf(c)`: the last index holding `c`, or -1. */
  function LastIndexOf(s: string, c: char): (r: int)
    ensures r == -1 || (0 <= r < |s| && s[r] == c)
    ensures forall i :: r < i < |s| ==> s[i] != c
  {
    if s == [] then -1
    else if s[|s| - 1] == c then |s| - 1
    else LastIndexOf(s[..|s| - 1], c)
  }

  /** The last `c` is the one with none after it. */
  lemma {:induction false} LastIndexOfIs(s: string, c: char, k: nat)
    requires k < |s| && s[k] == c && forall i :: k < i < |s| ==> s[i] != c
    ensures LastIndexOf(s, c) == k
    decreases |s|
  {
    if k < |s| - 1 {
      LastIndexOfIs(s[..|s| - 1], c, k);
    }
  }

  /** Trimming ignores a leading space. */
  lemma TrimLeadingSpace(t: string)
    ensures Trim(" " + t) == Trim(t)
  {
    var s := " " + t;
    assert s[1..] == t;
    TrimSkipsFirst(s);
  }

  lemma TrimSkipsFirst(s: string)
    requires s != [] && IsTrimmable(s[0])
    ensures Trim(s) == Trim(s[1..])
  {
    assert TrimStart(s) == TrimStart(s[1..]);
  }

  predicate OccursAt(s: string, t: string, i: nat) {
    i + |t| <= |s| && s[i..i + |t|] == t
  }

  /** Java's `s.indexOf(t, from)` for a string `t`. */
  function IndexOfStringFrom(s: string, t: string, from: nat): (r: int)
    ensures r == -1 || (from <= r && OccursAt(s, t, r))
    ensures r == -1 ==> forall i :: from <= i ==> !OccursAt(s, t, i)
    ensures r >= 0 ==> forall i :: from <= i < r ==> !OccursAt(s, t, i)
    decreases |s| - from
  {
    if from + |t| > |s| then -1
    else if s[from..from + |t|] == t then from
    else IndexOfStringFrom(s, t, from + 1)
  }

  /** Java's `s.indexOf(t)`. */
  function IndexOfString(s: string, t: string): (r: int)
    ensures r == -1 || (r >= 0 && OccursAt(s, t, r))
    ensures r == -1 ==> forall i: nat :: !OccursAt(s, t, i)
    ensures r >= 0 ==> forall i: nat :: i < r ==> !OccursAt(s, t, i)
  {
    IndexOfStringFrom(s, t, 0)
  }

  predicate StartsWith(s: string, prefix: string) {
    |prefix| <= |s| && s[..|prefix|] == prefix
  }

  /** Java's `s.contains(t)`. */
  predicate Contains(s: string, t: string) {
    exists i: nat | i <= |s| :: OccursAt(s, t, i)
  }

  // ------------------------------------------------------------------ trim

  /** The characters Java's `String.trim()` strips: every code point up to U+0020. */
  predicate IsTrimmable(c: char) {
    c <= ' '
  }

  function TrimStart(s: string): (r: string)
    ensures |r| <= |s| && r == s[|s| - |r|..]
    ensures forall i :: 0 <= i < |s| - |r| ==> IsTrimmable(s[i])
    ensures r == [] || !IsTrimmable(r[0])
  {
    if s != [] && IsTrimmable(s[0]) then TrimStart(s[1..]) else s
  }

  function TrimEnd(s: string): (r: string)
    ensures |r| <= |s| && r == s[..|r|]
    ensures forall i :: |r| <= i < |s| ==> IsTrimmable(s[i])
    ensures r == [] || !IsTrimmable(r[|r| - 1])
  {
    if s != [] && IsTrimmable(s[|s| - 1]) then TrimEnd(s[..|s| - 1]) else s
  }

  lemma TrimStartAllTrimmable(s: string)
    ensures TrimStart(s) == [] <==> forall i :: 0 <= i < |s| ==> IsTrimmable(s[i])
  {
    var t := TrimStart(s);
    if t != [] {
      assert s[|s| - |t|] == t[0];
    }
  }

  lemma TrimmedFactor(s: string, t: string, r: string, c: char)
    requires |r| <= |t| <= |s| && t == s[|s| - |t|..] && r == t[..|r|]
    requires c in r
    ensures c in s
  {
    var k :| 0 <= k < |r| && r[k] == c;
    assert t[k] == c;
    assert s[|s| - |t| + k] == c;
  }

  /** A prefix `r` of a suffix `t` of `s` is the slice of `s` between them. */
  lemma TrimmedSlice(s: string, t: string, r: string)
    requires |t| <= |s| && t == s[|s| - |t|..] && (forall k :: 0 <= k < |s| - |t| ==> IsTrimmable(s[k]))
    requires |r| <= |t| && r == t[..|r|] && (forall k :: |r| <= k < |t| ==> IsTrimmable(t[k]))
    ensures var i := |s| - |t|; var j := i + |r|;
      && r == s[i..j]
      && (forall k :: 0 <= k < i ==> IsTrimmable(s[k]))
      && (forall k :: j <= k < |s| ==> IsTrimmable(s[k]))
  {
    var i := |s| - |t|;
    forall k | i + |r| <= k < |s|
      ensures IsTrimmable(s[k])
    {
      assert s[k] == t[k - i];
    }
  }

  /** Java's `s.trim()`: `s` without its leading and trailing control characters and spaces. */
  function Trim(s: string): (r: string)
    ensures r == [] || (!IsTrimmable(r[0]) && !IsTrimmable(r[|r| - 1]))
    ensures r == [] <==> forall i :: 0 <= i < |s| ==> IsTrimmable(s[i])
    ensures s == [] || (!IsTrimmable(s[0]) && !IsTrimmable(s[|s| - 1])) ==> r == s
    ensures forall c :: c in r ==> c in s
    ensures var i := |s| - |TrimStart(s)|;
      && i + |r| <= |s| && r == s[i..i + |r|]
      && (forall k :: 0 <= k < i ==> IsTrimmable(s[k]))
      && (forall k :: i + |r| <= k < |s| ==> IsTrimmable(s[k]))
  {
    var t := TrimStart(s);
    var r := TrimEnd(t);
    TrimStartAllTrimmable(s);
    TrimmedSlice(s, t, r);
    forall c | c in r ensures c in s {
      TrimmedFactor(s, t, r, c);
    }
    r
  }

  // ----------------------------------------------------- split on whitespace

  /** The characters of Java's regular-expression class `\s`. */
  predicate IsSpace(c: char) {
    c == ' ' || c == '\t' || c == '\n' || c == '\U{000B}' || c == '\U{000C}' || c == '\r'
  }

  predicate NoSpace(s: string) {
    forall i :: 0 <= i < |s| ==> !IsSpace(s[i])
  }

  /** `s` without its leading whitespace. */
  function SkipSpaces(s: string): (r: string)
    ensures |r| <= |s| && r == s[|s| - |r|..]
    ensures r == [] || !IsSpace(r[0])
    ensures forall i :: 0 <= i < |s| - |r| ==> IsSpace(s[i])
  {
    if s != [] && IsSpace(s[0]) then SkipSpaces(s[1..]) else s
  }

  /** The length of the run of non-whitespace characters `s` starts with. */
  function WordLength(s: string): (n: nat)
    ensures n <= |s|
    ensures NoSpace(s[..n])
    ensures n < |s| ==> IsSpace(s[n])
  {
    if s == [] || IsSpace(s[0]) then 0 else 1 + WordLength(s[1..])
  }

  /** Non-empty runs of non-whitespace characters. */
  predicate AllWords(ws: seq<string>) {
    forall k :: 0 <= k < |ws| ==> ws[k] != [] && NoSpace(ws[k])
  }

  lemma ConsWords(w: string, ws: seq<string>)
    requires w != [] && NoSpace(w) && AllWords(ws)
    ensures AllWords([w] + ws)
  {
    forall k | 0 <= k < |[w] + ws|
      ensures ([w] + ws)[k] != [] && NoSpace(([w] + ws)[k])
    {
      if k > 0 {
        assert ([w] + ws)[k] == ws[k - 1];
      }
    }
  }

  /** The maximal runs of non-whitespace characters of `s`, in order. */
  function Tokens(s: string): (ts: seq<string>)
    ensures AllWords(ts)
    decreases |s|
  {
    var t := SkipSpaces(s);
    if t == [] then []
    else
      var n := WordLength(t);
      var rest := Tokens(t[n..]);
      ConsWords(t[..n], rest);
      [t[..n]] + rest
  }

  /** Java's `s.split("\\s+")`: a leading separator yields an empty first part,
      trailing empty parts are dropped, and an empty `s` yields `[""]`. */
  function SplitOnSpaces(s: string): (parts: seq<string>)
    ensures s != [] && !IsSpace(s[0]) ==> parts == Tokens(s)
  {
    if s == [] then [""]
    else if Tokens(s) == [] then []
    else if IsSpace(s[0]) then [""] + Tokens(s)
    else Tokens(s)
  }

  /** The words joined by single spaces. */
  function JoinWords(ws: seq<string>): string {
    if ws == [] then "" else if |ws| == 1 then ws[0] else ws[0] + " " + JoinWords(ws[1..])
  }

  lemma {:induction false} WordLengthOfWord(w: string, rest: string)
    requires NoSpace(w)
    requires rest == [] || IsSpace(rest[0])
    ensures WordLength(w + rest) == |w|
    decreases |w|
  {
    if w != [] {
      assert (w + rest)[1..] == w[1..] + rest;
      WordLengthOfWord(w[1..], rest);
    } else {
      assert w + rest == rest;
    }
  }

  /** Tokens of a word followed by `rest` (empty or starting with whitespace). */
  lemma TokensOfWordThen(w: string, rest: string)
    requires w != [] && NoSpace(w)
    requires rest == [] || IsSpace(rest[0])
    ensures Tokens(w + rest) == [w] + Tokens(rest)
  {
    var s := w + rest;
    assert SkipSpaces(s) == s;
    WordLengthOfWord(w, rest);
    assert s[..|w|] == w;
    assert s[|w|..] == rest;
  }

  /** A leading space starts no token. */
  lemma TokensAfterSpace(rest: string)
    ensures Tokens(" " + rest) == Tokens(rest)
  {
    assert (" " + rest)[1..] == rest;
    assert SkipSpaces(" " + rest) == SkipSpaces(rest);
  }

  /** Splitting words joined by single spaces gives the words back. */
  lemma {:induction false} TokensOfJoinWords(ws: seq<string>)
    requires AllWords(ws)
    ensures Tokens(JoinWords(ws)) == ws
    decreases |ws|
  {
    if ws == [] {
    } else if |ws| == 1 {
      TokensOfWordThen(ws[0], []);
      assert ws[0] + [] == ws[0];
      assert [ws[0]] == ws;
    } else {
      var tail := ws[1..];
      assert AllWords(tail) by {
        forall k | 0 <= k < |tail|
          ensures tail[k] != [] && NoSpace(tail[k])
        {
          assert tail[k] == ws[k + 1];
        }
      }
      calc {
        Tokens(JoinWords(ws));
        Tokens(ws[0] + " " + JoinWords(tail));
        { TokensOfWordSpaceThen(ws[0], JoinWords(tail)); }
        [ws[0]] + Tokens(JoinWords(tail));
        { TokensOfJoinWords(tail); }
        [ws[0]] + tail;
        ws;
      }
    }
  }

  lemma TokensOfWordSpaceThen(w: string, rest: string)
    requires w != [] && NoSpace(w)
    ensures Tokens(w + " " + rest) == [w] + Tokens(rest)
  {
    assert w + " " + rest == w + (" " + rest);
    TokensOfWordThen(w, " " + rest);
    TokensAfterSpace(rest);
  }

  // ------------------------------------------------- Integer.parseInt/toString

  predicate IsDigit(c: char) {
    '0' <= c <= '9'
  }

  predicate AllDigits(s: string) {
    forall i :: 0 <= i < |s| ==> IsDigit(s[i])
  }

  /** The value of a run of decimal digits. */
  function DigitsValue(s: string): (v: nat)
    requires AllDigits(s)
  {
    if s == [] then 0 else DigitsValue(s[..|s| - 1]) * 10 + (s[|s| - 1] as int - '0' as int)
  }

  /** Java's `Integer.parseInt(s)`: an optional `+` or `-`, then one or more
      ASCII digits, whose value must fit in an `int`; `None` is the
      NumberFormatException. */
  function ParseInt(s: string): (r: Option<int32>)
    ensures s == [] || s == "+" || s == "-" ==> r.None?
    ensures (exists i :: 0 < i < |s| && !IsDigit(s[i])) ==> r.None?
    ensures s != [] && s[0] != '+' && s[0] != '-' && !IsDigit(s[0]) ==> r.None?
    ensures r.Some? && s[0] != '-' ==> r.value >= 0
  {
    var signed := s != [] && (s[0] == '-' || s[0] == '+');
    var digits := if signed then s[1..] else s;
    if digits == [] || !AllDigits(digits) then None
    else
      var v: int := if s[0] == '-' then 0 - DigitsValue(digits) else DigitsValue(digits);
      if -0x8000_0000 <= v < 0x8000_0000 then Some(v) else None
  }

  function Digit(d: nat): (c: char)
    requires d < 10
    ensures IsDigit(c) && c as int - '0' as int == d
  {
    ('0' as int + d) as char
  }

  /** The decimal digits of `n`, without leading zeros. */
  function NatToString(n: nat): (s: string)
    ensures s != [] && AllDigits(s)
    ensures |s| > 1 ==> s[0] != '0'
  {
    if n < 10 then [Digit(n)] else NatToString(n / 10) + [Digit(n % 10)]
  }

  /** Java's `Integer.toString(n)` (what `StringBuilder.append(int)` appends). */
  function IntToString(n: int): (s: string)
    ensures s != []
    ensures ':' !in s && ' ' !in s && '/' !in s
  {
    if n < 0 then "-" + NatToString(-n) else NatToString(n)
  }

  lemma {:induction false} DigitsValueOfNatToString(n: nat)
    ensures DigitsValue(NatToString(n)) == n
  {
    if n >= 10 {
      var s := NatToString(n);
      assert s[..|s| - 1] == NatToString(n / 10);
      DigitsValueOfNatToString(n / 10);
    }
  }

  /** Integer.parseInt reads back every int that Integer.toString writes. */
  lemma ParseIntOfIntToString(n: int32)
    ensures ParseInt(IntToString(n)) == Some(n)
  {
    var s := IntToString(n);
    if n < 0 {
      assert s[1..] == NatToString(-(n as int));
      DigitsValueOfNatToString(-(n as int));
    } else {
      DigitsValueOfNatToString(n);
    }
  }

  /** The decimal form of an int has no whitespace or control character in it. */
  lemma NotTrimmableInIntToString(n: int)
    ensures var s := IntToString(n); forall i :: 0 <= i < |s| ==> !IsTrimmable(s[i])
  {
    var s := IntToString(n);
    if n >= 0 {
      assert AllDigits(s);
    } else {
      assert AllDigits(s[1..]);
      forall i | 0 <= i < |s|
        ensures !IsTrimmable(s[i])
      {
        if i > 0 {
          assert s[i] == s[1..][i - 1];
        }
      }
    }
  }

  // ------------------------------------------------------- ASCII case folding

  function UpperAscii(c: char): char {
    if 'a' <= c <= 'z' then (c as int - 32) as char else c
  }

  function LowerAscii(c: char): char {
    if 'A' <= c <= 'Z' then (c as int + 32) as char else c
  }

  /** `s.toUpperCase()` restricted to ASCII letters. */
  function ToUpperAscii(s: string): (r: string)
    ensures |r| == |s| && forall i :: 0 <= i < |s| ==> r[i] == UpperAscii(s[i])
  {
    seq(|s|, i requires 0 <= i < |s| => UpperAscii(s[i]))
  }

  /** `s.toLowerCase()` restricted to ASCII letters. */
  function ToLowerAscii(s: string): (r: string)
    ensures |r| == |s| && forall i :: 0 <= i < |s| ==> r[i] == LowerAscii(s[i])
  {
    seq(|s|, i requires 0 <= i < |s| => LowerAscii(s[i]))
  }

  // ------------------------------------------------------------- encodings

  /** The UTF-8 encoding of one Unicode scalar value. */
  function Utf8Char(c: char): (bs: seq<byte>)
    ensures 1 <= |bs| <= 4
    ensures c as int < 0x80 <==> bs == [c as int]
    ensures c as int >= 0x80 ==> |bs| >= 2
  {
    var n := c as int;
    if n < 0x80 then [n]
    else if n < 0x800 then [0xC0 + n / 64, 0x80 + n % 64]
    else if n < 0x1_0000 then [0xE0 + n / 4096, 0x80 + (n / 64) % 64, 0x80 + n % 64]
    else [0xF0 + n / 262144, 0x80 + (n / 4096) % 64, 0x80 + (n / 64) % 64, 0x80 + n % 64]
  }

  /** Java's `s.getBytes(StandardCharsets.UTF_8)`. */
  function Utf8(s: string): (bs: seq<byte>)
    ensures |bs| >= |s|
  {
    if s == [] then [] else Utf8Char(s[0]) + Utf8(s[1..])
  }

  predicate IsAscii(s: string) {
    forall i :: 0 <= i < |s| ==> s[i] as int < 0x80
  }

  lemma {:induction false} Utf8Append(a: string, b: string)
    ensures Utf8(a + b) == Utf8(a) + Utf8(b)
    decreases |a|
  {
    if a != [] {
      assert (a + b)[1..] == a[1..] + b;
      Utf8Append(a[1..], b);
    } else {
      assert a + b == b;
    }
  }

  /** An ASCII string encodes to its own character codes, one byte each. */
  lemma {:induction false} Utf8OfAscii(s: string)
    requires IsAscii(s)
    ensures |Utf8(s)| == |s|
    ensures forall i :: 0 <= i < |s| ==> Utf8(s)[i] == s[i] as int
    decreases |s|
  {
    if s != [] {
      Utf8OfAscii(s[1..]);
    }
  }

  /** A string with a character past ASCII takes more bytes in UTF-8 than
      it has characters. */
  lemma {:induction false} Utf8Longer(s: string, i: nat)
    requires i < |s| && s[i] as int >= 0x80
    ensures |Utf8(s)| > |s|
    decreases |s|
  {
    if i > 0 {
      Utf8Longer(s[1..], i - 1);
    }
  }

  /** On ASCII text, UTF-8 and one byte per character agree. */
  lemma Utf8OfAsciiIsLatin1(s: string)
    requires IsAscii(s)
    ensures Utf8(s) == Latin1Encode(s)
  {
    Utf8OfAscii(s);
  }

  /** The characters a byte-at-a-time reader builds with `(char) b`. */
  function Latin1Decode(bs: seq<byte>): (s: string)
    ensures |s| == |bs| && forall i {:trigger s[i]} :: 0 <= i < |bs| ==> s[i] as int == bs[i]
  {
    seq(|bs|, i requires 0 <= i < |bs| => bs[i] as char)
  }

  /** One byte per character: the low eight bits of each code point. */
  function Latin1Encode(s: string): (bs: seq<byte>)
    ensures |bs| == |s| && forall i :: 0 <= i < |s| ==> bs[i] == s[i] as int % 256
  {
    seq(|s|, i requires 0 <= i < |s| => s[i] as int % 256)
  }

  lemma Latin1EncodeAppend(a: string, b: string)
    ensures Latin1Encode(a + b) == Latin1Encode(a) + Latin1Encode(b)
  {
  }

  /** Characters below 256 written one per byte and read back come back unchanged. */
  lemma Latin1DecodeEncode(s: string)
    requires forall i :: 0 <= i < |s| ==> s[i] as int < 256
    ensures Latin1Decode(Latin1Encode(s)) == s
  {
  }

  /** Bytes read one per character and written one per character come back unchanged. */
  lemma Latin1RoundTrip(bs: seq<byte>)
    ensures Latin1Encode(Latin1Decode(bs)) == bs
  {
  }

  // ------------------------------------------------------ sequence regrouping

  // Associativity and slicing facts the proofs elsewhere cite by name, so
  // that the solver need not rediscover them inside larger terms.

  lemma Regroup3<T>(a: seq<T>, b: seq<T>, c: seq<T>, d: seq<T>)
    ensures a + b + c + d == a + b + (c + d)
  {
  }

  lemma DropDrop<T>(s: seq<T>, a: nat, n: nat)
    requires a + n <= |s|
    ensures s[a..][n..] == s[a + n..]
  {
  }

  lemma Append3<T>(a: seq<T>, b: seq<T>, c: seq<T>)
    ensures a + (b + c) == a + b + c
  {
  }

  lemma Append4<T>(a: seq<T>, b: seq<T>, c: seq<T>, d: seq<T>)
    ensures a + b + c + d == a + (b + c + d)
  {
  }

  lemma Regroup6<T>(a: seq<T>, b: seq<T>, c: seq<T>, d: seq<T>, e: seq<T>, f: seq<T>)
    ensures a + b + c + d + e + f == a + (b + c + d + e + f)
  {
  }

  lemma NotInJoin<T>(x: T, a: seq<T>, b: seq<T>, c: seq<T>)
    requires x !in a && x !in b && x !in c
    ensures x !in a + b + c
  {
  }

  lemma Regroup5<T>(a: seq<T>, b: seq<T>, c: seq<T>, d: seq<T>, e: seq<T>)
    ensures a + b + c + (d + e) == a + (b + c + d) + e
  {
  }

  lemma OuterSlices<T>(a: seq<T>, b: seq<T>, c: seq<T>)
    ensures (a + b + c)[..|a|] == a && (a + b + c)[|a| + |b|..] == c
  {
  }

  lemma MiddleSlice<T>(a: seq<T>, b: seq<T>, c: seq<T>)
    ensures (a + b + c)[|a|..|a| + |b|] == b
  {
  }
}
