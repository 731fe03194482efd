/** Base64 with the standard alphabet and `=` padding (section 4 of
    RFC 4648), as Python's `base64.b64encode` produces it; the decoder is
    the strict inverse, accepting only canonical encodings. */
module Base64 {
  import opened Wrappers
  import opened Bytes

  type sextet = v: int | 0 <= v < 64

  predicate IsAlphabetChar(c: char) {
    ('A' <= c <= 'Z') || ('a' <= c <= 'z') || ('0' <= c <= '9') || c == '+' || c == '/'
  }

  /** A character that may appear in an encoding: the alphabet or padding. */
  predicate IsEncodingChar(c: char) {
    IsAlphabetChar(c) || c == '='
  }

  /** The alphabet of Table 1 of RFC 4648. */
  function CharOf(v: sextet): (c: char)
    ensures IsAlphabetChar(c)
  {
    if v < 26 then (65 + v) as char
    else if v < 52 then (97 + v - 26) as char
    else if v < 62 then (48 + v - 52) as char
    else if v == 62 then '+'
    else '/'
  }

  function ValueOf(c: char): (v: sextet)
    requires IsAlphabetChar(c)
  {
    if 'A' <= c <= 'Z' then c as int - 65
    else if 'a' <= c <= 'z' then c as int - 97 + 26
    else if '0' <= c <= '9' then c as int - 48 + 52
    else if c == '+' then 62
    else 63
  }

  lemma ValueOfCharOf(v: sextet)
    ensures ValueOf(CharOf(v)) == v
  {
  }

  /** Three bytes become four characters. */
  function EncodeGroup(a: byte, b: byte, c: byte): (t: string)
    ensures |t| == 4
  {
    [CharOf(a / 4), CharOf((a % 4) * 16 + b / 16), CharOf((b % 16) * 4 + c / 64), CharOf(c % 64)]
  }

  function Encode(s: Bytes): (t: string)
    ensures |t| == 4 * ((|s| + 2) / 3)
    ensures forall i :: 0 <= i < |t| ==> IsEncodingChar(t[i])
    decreases |s|
  {
    if |s| == 0 then ""
    else if |s| == 1 then [CharOf(s[0] / 4), CharOf((s[0] % 4) * 16), '=', '=']
    else if |s| == 2 then
      [CharOf(s[0] / 4), CharOf((s[0] % 4) * 16 + s[1] / 16), CharOf((s[1] % 16) * 4), '=']
    else EncodeGroup(s[0], s[1], s[2]) + Encode(s[3..])
  }

  /** Four alphabet characters become three bytes. */
  function DecodeGroup(q: string): Option<Bytes>
    requires |q| == 4
  {
    if IsAlphabetChar(q[0]) && IsAlphabetChar(q[1]) && IsAlphabetChar(q[2]) && IsAlphabetChar(q[3]) then
      var v0, v1, v2, v3 := ValueOf(q[0]), ValueOf(q[1]), ValueOf(q[2]), ValueOf(q[3]);
      Some([v0 * 4 + v1 / 16, (v1 % 16) * 16 + v2 / 4, (v2 % 4) * 64 + v3])
    else None
  }

  /** The last group, which may carry one or two padding characters; the
      bits that padding discards must be zero. */
  function DecodeFinalGroup(q: string): Option<Bytes>
    requires |q| == 4
  {
    if q[2] == '=' && q[3] == '=' then
      if IsAlphabetChar(q[0]) && IsAlphabetChar(q[1]) && ValueOf(q[1]) % 16 == 0 then
        Some([ValueOf(q[0]) * 4 + ValueOf(q[1]) / 16])
      else None
    else if q[3] == '=' then
      if IsAlphabetChar(q[0]) && IsAlphabetChar(q[1]) && IsAlphabetChar(q[2]) && ValueOf(q[2]) % 4 == 0 then
        var v0, v1, v2 := ValueOf(q[0]), ValueOf(q[1]), ValueOf(q[2]);
        Some([v0 * 4 + v1 / 16, (v1 % 16) * 16 + v2 / 4])
      else None
    else DecodeGroup(q)
  }

  function Decode(t: string): Option<Bytes>
    decreases |t|
  {
    if |t| == 0 then Some([])
    else if |t| < 4 then None
    else if |t| == 4 then DecodeFinalGroup(t)
    else
      var g :- DecodeGroup(t[..4]);
      var rest :- Decode(t[4..]);
      Some(g + rest)
  }

  lemma Recombine(hi: nat, lo: nat, k: nat)
    requires k == 4 || k == 16 || k == 64
    requires lo < k
    ensures (hi * k + lo) / k == hi && (hi * k + lo) % k == lo
  {
  }

  /** The sextets of a group put back together give the three bytes. */
  lemma GroupArithmetic(a: byte, b: byte, c: byte)
    ensures var v0, v1, v2, v3 := a / 4, (a % 4) * 16 + b / 16, (b % 16) * 4 + c / 64, c % 64;
      v0 * 4 + v1 / 16 == a && (v1 % 16) * 16 + v2 / 4 == b && (v2 % 4) * 64 + v3 == c
  {
    Recombine(a % 4, b / 16, 16);
    Recombine(b % 16, c / 64, 4);
  }

  lemma GroupRoundTrip(a: byte, b: byte, c: byte)
    ensures DecodeGroup(EncodeGroup(a, b, c)) == Some([a, b, c])
  {
    ValueOfCharOf(a / 4);
    ValueOfCharOf((a % 4) * 16 + b / 16);
    ValueOfCharOf((b % 16) * 4 + c / 64);
    ValueOfCharOf(c % 64);
    GroupArithmetic(a, b, c);
  }

  lemma FinalGroupOne(q: string, v0: sextet, v1: sextet)
    requires q == [CharOf(v0), CharOf(v1), '=', '=']
    requires v1 % 16 == 0
    ensures DecodeFinalGroup(q) == Some([v0 * 4 + v1 / 16])
  {
    ValueOfCharOf(v0);
    ValueOfCharOf(v1);
  }

  lemma FinalGroupTwo(q: string, v0: sextet, v1: sextet, v2: sextet)
    requires q == [CharOf(v0), CharOf(v1), CharOf(v2), '=']
    requires v2 % 4 == 0
    ensures DecodeFinalGroup(q) == Some([v0 * 4 + v1 / 16, (v1 % 16) * 16 + v2 / 4])
  {
    ValueOfCharOf(v0);
    ValueOfCharOf(v1);
    ValueOfCharOf(v2);
  }

  lemma DecodeEncodeOne(s: Bytes)
    requires |s| == 1
    ensures Decode(Encode(s)) == Some(s)
  {
    var v0, v1 := s[0] / 4, (s[0] % 4) * 16;
    FinalGroupOne(Encode(s), v0, v1);
    Recombine(s[0] % 4, 0, 16);
    assert [v0 * 4 + v1 / 16] == s;
  }

  lemma DecodeEncodeTwo(s: Bytes)
    requires |s| == 2
    ensures Decode(Encode(s)) == Some(s)
  {
    var v0, v1, v2 := s[0] / 4, (s[0] % 4) * 16 + s[1] / 16, (s[1] % 16) * 4;
    Recombine(s[1] % 16, 0, 4);
    FinalGroupTwo(Encode(s), v0, v1, v2);
    GroupArithmetic(s[0], s[1], 0);
    assert v0 * 4 + v1 / 16 == s[0];
    assert (v1 % 16) * 16 + v2 / 4 == s[1];
    assert [v0 * 4 + v1 / 16, (v1 % 16) * 16 + v2 / 4] == s;
  }

  lemma DecodeEncodeThree(s: Bytes)
    requires |s| == 3
    ensures Decode(Encode(s)) == Some(s)
  {
    var g := EncodeGroup(s[0], s[1], s[2]);
    GroupRoundTrip(s[0], s[1], s[2]);
    assert Encode(s) == g + Encode(s[3..]) == g;
    assert g[3] != '=' && g[2] != '=';
    assert s == [s[0], s[1], s[2]];
  }

  lemma DecodeEncodeShort(s: Bytes)
    requires |s| <= 3
    ensures Decode(Encode(s)) == Some(s)
  {
    if |s| == 1 {
      DecodeEncodeOne(s);
    } else if |s| == 2 {
      DecodeEncodeTwo(s);
    } else if |s| == 3 {
      DecodeEncodeThree(s);
    }
  }

  lemma DecodeAppend(g: string, rest: string, x: Bytes, y: Bytes)
    requires |g| == 4 && |rest| > 0
    requires DecodeGroup(g) == Some(x) && Decode(rest) == Some(y)
    ensures Decode(g + rest) == Some(x + y)
  {
    var t := g + rest;
    assert t[..4] == g && t[4..] == rest;
  }

  lemma SplitGroup(s: Bytes)
    requires |s| > 3
    ensures [s[0], s[1], s[2]] + s[3..] == s
    ensures Encode(s) == EncodeGroup(s[0], s[1], s[2]) + Encode(s[3..])
    ensures |Encode(s[3..])| > 0
  {
  }

  /** Decoding undoes encoding: the payload of a data URI gives back the
      file bytes. */
  lemma {:induction false} DecodeEncode(s: Bytes)
    ensures Decode(Encode(s)) == Some(s)
    decreases |s|
  {
    if |s| <= 3 {
      DecodeEncodeShort(s);
    } else {
      SplitGroup(s);
      GroupRoundTrip(s[0], s[1], s[2]);
      DecodeEncode(s[3..]);
      DecodeAppend(EncodeGroup(s[0], s[1], s[2]), Encode(s[3..]), [s[0], s[1], s[2]], s[3..]);
    }
  }
}
