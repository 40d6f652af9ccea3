/** Base 64 as in section 4 of RFC 4648: the standard alphabet, '=' padding and
    no line breaks (Android's `Base64.NO_WRAP`), with the decoder that the
    receiving proxy applies. */
module Base64 {
  import opened Text

  /** The character for a 6-bit value, from the alphabet
      "A".."Z", "a".."z", "0".."9", "+", "/". */
  function Sextet(v: int): char
    requires 0 <= v < 64
  {
    if v < 26 then ('A' as int + v) as char
    else if v < 52 then ('a' as int + v - 26) as char
    else if v < 62 then ('0' as int + v - 52) as char
    else if v == 62 then '+'
    else '/'
  }

  /** The value of an alphabet character. */
  function ValueOf(ch: char): Option<int> {
    if 'A' <= ch <= 'Z' then Some(ch as int - 'A' as int)
    else if 'a' <= ch <= 'z' then Some(ch as int - 'a' as int + 26)
    else if '0' <= ch <= '9' then Some(ch as int - '0' as int + 52)
    else if ch == '+' then Some(62)
    else if ch == '/' then Some(63)
    else None
  }

  lemma ValueOfSextet(v: int)
    requires 0 <= v < 64
    ensures ValueOf(Sextet(v)) == Some(v)
  {
  }

  predicate IsBase64Char(ch: char) {
    ValueOf(ch).Some? || ch == '='
  }

  /** Three bytes, or the one or two left at the end, as four characters. */
  function EncodeGroup(b: seq<byte>): (s: string)
    requires 1 <= |b| <= 3
    ensures |s| == 4
  {
    var b1 := if |b| > 1 then b[1] as int else 0;
    var b2 := if |b| > 2 then b[2] as int else 0;
    [Sextet(b[0] / 4), Sextet((b[0] % 4) * 16 + b1 / 16)]
    + (if |b| > 1 then [Sextet((b1 % 16) * 4 + b2 / 64)] else ['='])
    + (if |b| > 2 then [Sextet(b2 % 64)] else ['='])
  }

  function Encode(bs: seq<byte>): (s: string)
    decreases |bs|
  {
    if |bs| == 0 then ""
    else if |bs| <= 3 then EncodeGroup(bs)
    else EncodeGroup(bs[..3]) + Encode(bs[3..])
  }

  /** Four characters back to the one to three bytes they carry. */
  function DecodeGroup(s: string): Option<seq<byte>>
    requires |s| == 4
  {
    var a, b := ValueOf(s[0]), ValueOf(s[1]);
    if a.None? || b.None? then None
    else
      var b0 := a.value * 4 + b.value / 16;
      if s[2] == '=' then
        (if s[3] == '=' && b.value % 16 == 0 then Some([b0]) else None)
      else
        var c := ValueOf(s[2]);
        if c.None? then None
        else
          var b1 := (b.value % 16) * 16 + c.value / 4;
          if s[3] == '=' then
            (if c.value % 4 == 0 then Some([b0, b1]) else None)
          else
            var d := ValueOf(s[3]);
            if d.None? then None
            else Some([b0, b1, (c.value % 4) * 64 + d.value])
  }

  /** The strict decoder: whole groups, padding only in the last one. */
  function Decode(s: string): Option<seq<byte>>
    decreases |s|
  {
    if |s| == 0 then Some([])
    else if |s| < 4 then None
    else
      match DecodeGroup(s[..4])
      case None => None
      case Some(g) =>
        if |s| > 4 && |g| < 3 then None
        else
          match Decode(s[4..])
          case None => None
          case Some(rest) => Some(g + rest)
  }

  /** Splitting bytes into sextets and joining them back loses nothing. */
  lemma Regroup(b0: int, b1: int, b2: int)
    requires 0 <= b0 < 256 && 0 <= b1 < 256 && 0 <= b2 < 256
    ensures var b := (b0 % 4) * 16 + b1 / 16;
      var c := (b1 % 16) * 4 + b2 / 64;
      && (b0 / 4) * 4 + b / 16 == b0
      && (b % 16) * 16 + c / 4 == b1
      && (c % 4) * 64 + b2 % 64 == b2
  {
    var b := (b0 % 4) * 16 + b1 / 16;
    var c := (b1 % 16) * 4 + b2 / 64;
    assert b / 16 == b0 % 4 && b % 16 == b1 / 16;
    assert c / 4 == b1 % 16 && c % 4 == b2 / 64;
  }

  lemma DecodeEncodeGroup(b: seq<byte>)
    requires 1 <= |b| <= 3
    ensures DecodeGroup(EncodeGroup(b)) == Some(b)
  {
    if |b| == 3 {
      assert [b[0], b[1], b[2]] == b;
      DecodeEncodeThree(b[0], b[1], b[2]);
    } else if |b| == 2 {
      assert [b[0], b[1]] == b;
      DecodeEncodeTwo(b[0], b[1]);
    } else {
      assert [b[0]] == b;
      DecodeEncodeOne(b[0]);
    }
  }

  lemma DecodeEncodeThree(x: byte, y: byte, z: byte)
    ensures DecodeGroup(EncodeGroup([x, y, z])) == Some([x, y, z])
  {
    var p, q, r, t := x as int / 4, (x as int % 4) * 16 + y as int / 16, (y as int % 16) * 4 + z as int / 64, z as int % 64;
    assert EncodeGroup([x, y, z]) == [Sextet(p), Sextet(q), Sextet(r), Sextet(t)];
    assert [p * 4 + q / 16, (q % 16) * 16 + r / 4, (r % 4) * 64 + t] == [x, y, z] by {
      Regroup(x as int, y as int, z as int);
    }
    DecodeFour(p, q, r, t);
  }

  /** Four alphabet characters carry three bytes. */
  lemma DecodeFour(p: int, q: int, r: int, t: int)
    requires 0 <= p < 64 && 0 <= q < 64 && 0 <= r < 64 && 0 <= t < 64
    ensures DecodeGroup([Sextet(p), Sextet(q), Sextet(r), Sextet(t)])
         == Some([p * 4 + q / 16, (q % 16) * 16 + r / 4, (r % 4) * 64 + t])
  {
    var s := [Sextet(p), Sextet(q), Sextet(r), Sextet(t)];
    ValueOfSextet(p);
    ValueOfSextet(q);
    ValueOfSextet(r);
    ValueOfSextet(t);
    assert ValueOf(s[0]) == Some(p) && ValueOf(s[1]) == Some(q);
    assert s[2] != '=' && ValueOf(s[2]) == Some(r);
    assert s[3] != '=' && ValueOf(s[3]) == Some(t);
  }

  lemma DecodeEncodeTwo(x: byte, y: byte)
    ensures DecodeGroup(EncodeGroup([x, y])) == Some([x, y])
  {
    var p, q, r := x as int / 4, (x as int % 4) * 16 + y as int / 16, (y as int % 16) * 4;
    assert EncodeGroup([x, y]) == [Sextet(p), Sextet(q), Sextet(r), '='];
    assert r % 4 == 0 && [p * 4 + q / 16, (q % 16) * 16 + r / 4] == [x, y] by {
      Regroup(x as int, y as int, 0);
    }
    DecodeThree(p, q, r);
  }

  lemma DecodeEncodeOne(x: byte)
    ensures DecodeGroup(EncodeGroup([x])) == Some([x])
  {
    var p, q := x as int / 4, (x as int % 4) * 16;
    assert EncodeGroup([x]) == [Sextet(p), Sextet(q), '=', '='];
    assert q % 16 == 0 && [p * 4 + q / 16] == [x] by {
      Regroup(x as int, 0, 0);
    }
    DecodeTwo(p, q);
  }

  /** Three alphabet characters and one '=' carry two bytes. */
  lemma DecodeThree(p: int, q: int, r: int)
    requires 0 <= p < 64 && 0 <= q < 64 && 0 <= r < 64 && r % 4 == 0
    ensures DecodeGroup([Sextet(p), Sextet(q), Sextet(r), '='])
         == Some([p * 4 + q / 16, (q % 16) * 16 + r / 4])
  {
    var s := [Sextet(p), Sextet(q), Sextet(r), '='];
    ValueOfSextet(p);
    ValueOfSextet(q);
    ValueOfSextet(r);
    assert ValueOf(s[0]) == Some(p) && ValueOf(s[1]) == Some(q);
    assert s[2] != '=' && ValueOf(s[2]) == Some(r) && s[3] == '=';
  }

  /** Two alphabet characters and two '=' carry one byte. */
  lemma DecodeTwo(p: int, q: int)
    requires 0 <= p < 64 && 0 <= q < 64 && q % 16 == 0
    ensures DecodeGroup([Sextet(p), Sextet(q), '=', '=']) == Some([p * 4 + q / 16])
  {
    var s := [Sextet(p), Sextet(q), '=', '='];
    ValueOfSextet(p);
    ValueOfSextet(q);
    assert ValueOf(s[0]) == Some(p) && ValueOf(s[1]) == Some(q);
    assert s[2] == '=' && s[3] == '=';
  }

  /** The encoded text has four characters per started group of three bytes. */
  lemma {:induction false} EncodeLength(bs: seq<byte>)
    ensures |Encode(bs)| == 4 * ((|bs| + 2) / 3)
    decreases |bs|
  {
    if |bs| > 3 {
      EncodeLength(bs[3..]);
      assert Encode(bs) == EncodeGroup(bs[..3]) + Encode(bs[3..]);
      assert (|bs| - 3 + 2) / 3 + 1 == (|bs| + 2) / 3;
    } else if |bs| > 0 {
      assert (|bs| + 2) / 3 == 1;
    }
  }

  /** The encoded text uses only the alphabet and '=' (so no CR, LF or space). */
  lemma {:induction false} EncodeAlphabet(bs: seq<byte>)
    ensures forall i :: 0 <= i < |Encode(bs)| ==> IsBase64Char(Encode(bs)[i])
    decreases |bs|
  {
    if |bs| > 0 {
      var g := EncodeGroup(if |bs| <= 3 then bs else bs[..3]);
      var gb := if |bs| <= 3 then bs else bs[..3];
      var b1 := if |gb| > 1 then gb[1] as int else 0;
      var b2 := if |gb| > 2 then gb[2] as int else 0;
      ValueOfSextet(gb[0] / 4);
      ValueOfSextet((gb[0] % 4) * 16 + b1 / 16);
      ValueOfSextet((b1 % 16) * 4 + b2 / 64);
      ValueOfSextet(b2 % 64);
      assert forall i :: 0 <= i < 4 ==> IsBase64Char(g[i]);
      if |bs| > 3 {
        EncodeAlphabet(bs[3..]);
      }
    }
  }

  /** The encoded text is one token: no CR, no LF, no space. */
  lemma EncodeIsOneToken(bs: seq<byte>)
    ensures '\r' !in Encode(bs) && '\n' !in Encode(bs) && ' ' !in Encode(bs)
  {
    var s := Encode(bs);
    EncodeAlphabet(bs);
    assert forall i :: 0 <= i < |s| ==> s[i] != '\r' && s[i] != '\n' && s[i] != ' ' by {
      forall i | 0 <= i < |s|
        ensures s[i] != '\r' && s[i] != '\n' && s[i] != ' '
      {
        assert IsBase64Char(s[i]);
      }
    }
  }

  /** Decoding the encoded text gives the bytes back. */
  lemma {:induction false} DecodeEncode(bs: seq<byte>)
    ensures Decode(Encode(bs)) == Some(bs)
    decreases |bs|
  {
    if |bs| == 0 {
    } else if |bs| <= 3 {
      DecodeEncodeGroup(bs);
      assert Encode(bs)[..4] == EncodeGroup(bs);
      assert Encode(bs)[4..] == "";
      assert bs + [] == bs;
    } else {
      var s := Encode(bs);
      DecodeEncodeGroup(bs[..3]);
      assert s[..4] == EncodeGroup(bs[..3]);
      assert s[4..] == Encode(bs[3..]);
      DecodeEncode(bs[3..]);
      EncodeLength(bs[3..]);
      assert bs[..3] + bs[3..] == bs;
    }
  }
}
