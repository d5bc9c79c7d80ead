/** Base64 as Node's `Buffer#toString("base64")` writes it (the standard alphabet of
    section 4 of RFC 4648, padded with `=`), the URL-safe token the server derives
    from it (section 5 of RFC 4648, padding stripped as section 3.2 permits), and the
    reverse path: restore the alphabet and the padding, then decode. */
module Base64 {
  import opened Wrappers
  import opened Bytes

  /** The standard alphabet: `A`-`Z`, `a`-`z`, `0`-`9`, `+`, `/`. */
  function Digit(v: int): (c: char)
    requires 0 <= v < 64
    ensures DigitValue(c) == Some(v)
    ensures c != '=' && c != '-' && c != '_'
  {
    if v < 26 then ('A' as int + v) as char
    else if v < 52 then ('a' as int + v - 26) as char
    else if v < 62 then ('0' as int + v - 52) as char
    else if v == 62 then '+'
    else '/'
  }

  function DigitValue(c: char): (r: Option<nat>)
    ensures r.Some? ==> r.value < 64
  {
    if 'A' <= c <= 'Z' then Some(c as int - 'A' as int)
    else if 'a' <= c <= 'z' then Some(c as int - 'a' as int + 26)
    else if '0' <= c <= '9' then Some(c as int - '0' as int + 52)
    else if c == '+' then Some(62)
    else if c == '/' then Some(63)
    else None
  }

  /** The alphabet characters of the encoding: four per three bytes, and two or three
      for a final group of one or two bytes. */
  function Digits(b: seq<byte>): (r: string)
    decreases |b|
  {
    if |b| == 0 then []
    else if |b| == 1 then [Digit(b[0] / 4), Digit((b[0] % 4) * 16)]
    else if |b| == 2 then [Digit(b[0] / 4), Digit((b[0] % 4) * 16 + b[1] / 16), Digit((b[1] % 16) * 4)]
    else Quad(b[0], b[1], b[2]) + Digits(b[3..])
  }

  /** The four characters of a full group of three bytes. */
  function Quad(b0: byte, b1: byte, b2: byte): (r: string)
    ensures |r| == 4
  {
    [Digit(b0 / 4), Digit((b0 % 4) * 16 + b1 / 16), Digit((b1 % 16) * 4 + b2 / 64), Digit(b2 % 64)]
  }

  function Pad(k: nat): (r: string)
    ensures |r| == k && forall i :: 0 <= i < k ==> r[i] == '='
  {
    seq(k, _ => '=')
  }

  /** The number of `=` that complete the last group of four. */
  function PadLength(n: nat): nat {
    (3 - n % 3) % 3
  }

  /** `Buffer.from(b).toString("base64")`. */
  function Encode(b: seq<byte>): string {
    Digits(b) + Pad(PadLength(|b|))
  }

  /** Reads one group of four characters; only the final group may end in padding. */
  function DecodeGroup(g: string, last: bool): (r: Option<seq<byte>>)
    requires |g| == 4
  {
    var d0, d1, d2, d3 := DigitValue(g[0]), DigitValue(g[1]), DigitValue(g[2]), DigitValue(g[3]);
    if d0.None? || d1.None? then None
    else
      var v0, v1 := d0.value, d1.value;
      if last && g[2] == '=' && g[3] == '=' then Some([v0 * 4 + v1 / 16])
      else if d2.None? then None
      else
        var v2 := d2.value;
        if last && g[3] == '=' then Some([v0 * 4 + v1 / 16, (v1 % 16) * 16 + v2 / 4])
        else if d3.None? then None
        else Some([v0 * 4 + v1 / 16, (v1 % 16) * 16 + v2 / 4, (v2 % 4) * 64 + d3.value])
  }

  /** A strict decoder for padded standard base64. */
  function Decode(s: string): Option<seq<byte>>
    decreases |s|
  {
    if s == [] then Some([])
    else if |s| < 4 then None
    else
      match DecodeGroup(s[..4], |s| == 4)
      case None => None
      case Some(bs) =>
        match Decode(s[4..])
        case None => None
        case Some(rest) => Some(bs + rest)
  }

  /** The number of alphabet characters for `n` bytes: four per full group, and
      two or three for a final partial group. */
  function EncodedLength(n: nat): nat {
    4 * (n / 3) + (if n % 3 == 0 then 0 else n % 3 + 1)
  }

  lemma EncodedLengthStep(n: nat)
    requires n >= 3
    ensures EncodedLength(n) == 4 + EncodedLength(n - 3)
  {
    assert n / 3 == (n - 3) / 3 + 1 && n % 3 == (n - 3) % 3;
  }

  lemma {:induction false} DigitsNoPadding(b: seq<byte>)
    ensures forall i :: 0 <= i < |Digits(b)| ==> Digits(b)[i] != '=' && Digits(b)[i] != '-' && Digits(b)[i] != '_'
    decreases |b|
  {
    if |b| >= 3 {
      DigitsNoPadding(b[3..]);
      var d, rest := Digits(b), Digits(b[3..]);
      assert d == Quad(b[0], b[1], b[2]) + rest;
      forall i | 4 <= i < |d| ensures d[i] == rest[i - 4] {}
    }
  }

  lemma {:induction false} DigitsLength(b: seq<byte>)
    ensures |Digits(b)| == EncodedLength(|b|)
    decreases |b|
  {
    if |b| >= 3 {
      DigitsLength(b[3..]);
      EncodedLengthStep(|b|);
    }
  }


  lemma SplitTwo(b0: byte, b1: byte)
    ensures ((b0 % 4) * 16 + b1 / 16) / 16 == b0 % 4
    ensures ((b0 % 4) * 16 + b1 / 16) % 16 == b1 / 16
    ensures ((b1 % 16) * 4) / 4 == b1 % 16
  {
  }

  /** Decoding the standard encoding gives the bytes back. */
  lemma {:induction false} DecodeEncode(b: seq<byte>)
    ensures Decode(Encode(b)) == Some(b)
    decreases |b|
  {
    if |b| == 1 {
      DecodeOneByte(b);
    } else if |b| == 2 {
      DecodeTwoBytes(b);
    } else if |b| >= 3 {
      DecodeEncode(b[3..]);
      DecodeFullGroup(b);
    }
  }

  lemma DecodeOneByte(b: seq<byte>)
    requires |b| == 1
    ensures Decode(Encode(b)) == Some(b)
  {
    var e := Encode(b);
    assert e == [Digit(b[0] / 4), Digit((b[0] % 4) * 16), '=', '='];
    assert e[..4] == e;
    assert ((b[0] % 4) * 16) / 16 == b[0] % 4;
    assert DecodeGroup(e, true) == Some([b[0]]);
    assert Decode(e[4..]) == Some([]);
    assert [b[0]] + [] == b;
  }

  lemma DecodeTwoBytes(b: seq<byte>)
    requires |b| == 2
    ensures Decode(Encode(b)) == Some(b)
  {
    var e := Encode(b);
    assert e == [Digit(b[0] / 4), Digit((b[0] % 4) * 16 + b[1] / 16), Digit((b[1] % 16) * 4), '='];
    assert e[..4] == e;
    SplitTwo(b[0], b[1]);
    assert e[2] != '=';
    assert DecodeGroup(e, true) == Some([b[0], b[1]]);
    assert Decode(e[4..]) == Some([]);
    assert [b[0], b[1]] + [] == b;
  }

  lemma DecodeFullGroup(b: seq<byte>)
    requires |b| >= 3
    requires Decode(Encode(b[3..])) == Some(b[3..])
    ensures Decode(Encode(b)) == Some(b)
  {
    var rest := Encode(b[3..]);
    EncodeFullGroup(b);
    DecodeQuad(b[0], b[1], b[2], |rest| == 0);
    DecodeCons(Quad(b[0], b[1], b[2]), rest);
    assert b == [b[0], b[1], b[2]] + b[3..];
  }

  /** A full group comes first in the encoding, followed by the encoding of the rest. */
  lemma EncodeFullGroup(b: seq<byte>)
    requires |b| >= 3
    ensures Encode(b) == Quad(b[0], b[1], b[2]) + Encode(b[3..])
  {
    assert PadLength(|b|) == PadLength(|b[3..]|);
  }

  lemma DecodeQuad(b0: byte, b1: byte, b2: byte, last: bool)
    ensures DecodeGroup(Quad(b0, b1, b2), last) == Some([b0, b1, b2])
  {
    var g := Quad(b0, b1, b2);
    var v0, v1, v2, v3 := b0 / 4, (b0 % 4) * 16 + b1 / 16, (b1 % 16) * 4 + b2 / 64, b2 % 64;
    DecodeDigits(g, last, v0, v1, v2, v3);
    FirstByte(b0, b1);
    SecondByte(b0, b1, b2);
    ThirdByte(b1, b2);
    var r := DecodeGroup(g, last).value;
    assert r[0] == b0 && r[1] == b1 && r[2] == b2;
  }

  /** Four alphabet characters, none of them padding, decode to the three bytes
      their 24 bits spell. */
  lemma DecodeDigits(g: string, last: bool, v0: nat, v1: nat, v2: nat, v3: nat)
    requires |g| == 4
    requires DigitValue(g[0]) == Some(v0) && DigitValue(g[1]) == Some(v1)
    requires DigitValue(g[2]) == Some(v2) && DigitValue(g[3]) == Some(v3)
    requires g[2] != '=' && g[3] != '='
    ensures DecodeGroup(g, last).Some? && |DecodeGroup(g, last).value| == 3
    ensures DecodeGroup(g, last).value[0] == v0 * 4 + v1 / 16
    ensures DecodeGroup(g, last).value[1] == (v1 % 16) * 16 + v2 / 4
    ensures DecodeGroup(g, last).value[2] == (v2 % 4) * 64 + v3
  {
  }

  /** The six bits of the first digit and the top two of the second give `b0`. */
  lemma FirstByte(b0: byte, b1: byte)
    ensures (b0 / 4) * 4 + ((b0 % 4) * 16 + b1 / 16) / 16 == b0
  {
    Join16(b0 % 4, b1 / 16);
  }

  lemma SecondByte(b0: byte, b1: byte, b2: byte)
    ensures (((b0 % 4) * 16 + b1 / 16) % 16) * 16 + ((b1 % 16) * 4 + b2 / 64) / 4 == b1
  {
    Join16(b0 % 4, b1 / 16);
    Join4(b1 % 16, b2 / 64);
  }

  lemma ThirdByte(b1: byte, b2: byte)
    ensures (((b1 % 16) * 4 + b2 / 64) % 4) * 64 + b2 % 64 == b2
  {
    Join4(b1 % 16, b2 / 64);
  }

  lemma Join4(a: int, c: int)
    requires 0 <= c < 4
    ensures (a * 4 + c) / 4 == a && (a * 4 + c) % 4 == c
  {
  }

  lemma Join16(a: int, c: int)
    requires 0 <= c < 16
    ensures (a * 16 + c) / 16 == a && (a * 16 + c) % 16 == c
  {
  }

  /** A group that decodes, followed by a string that decodes, decodes to the two
      results joined. */
  lemma DecodeCons(g: string, rest: string)
    requires |g| == 4
    requires DecodeGroup(g, |rest| == 0).Some? && Decode(rest).Some?
    ensures Decode(g + rest) == Some(DecodeGroup(g, |rest| == 0).value + Decode(rest).value)
  {
    var e := g + rest;
    assert e[..4] == g;
    assert e[4..] == rest;
  }

  // ---- the URL-safe token ----

  function ToUrlSafe(c: char): char {
    if c == '+' then '-' else if c == '/' then '_' else c
  }

  function FromUrlSafe(c: char): char {
    if c == '-' then '+' else if c == '_' then '/' else c
  }

  function MapChars(s: string, f: char -> char): (r: string)
    ensures |r| == |s| && forall i :: 0 <= i < |s| ==> r[i] == f(s[i])
  {
    seq(|s|, i requires 0 <= i < |s| => f(s[i]))
  }

  /** `replace(/=+$/, "")`: drops the trailing run of `=`. */
  function StripPadding(s: string): (r: string)
    ensures |r| <= |s| && r == s[..|r|]
    ensures forall i :: |r| <= i < |s| ==> s[i] == '='
    ensures r == [] || r[|r| - 1] != '='
    decreases |s|
  {
    if s != [] && s[|s| - 1] == '=' then StripPadding(s[..|s| - 1]) else s
  }

  /** `[A-Za-z0-9_-]`, the URL- and filename-safe alphabet. */
  predicate IsUrlSafeChar(c: char) {
    'A' <= c <= 'Z' || 'a' <= c <= 'z' || '0' <= c <= '9' || c == '-' || c == '_'
  }

  /** The token: base64, then `+` to `-`, `/` to `_`, and the padding removed. */
  function Token(b: seq<byte>): string {
    StripPadding(MapChars(Encode(b), ToUrlSafe))
  }

  /** The receiving side: the standard alphabet back, and `=` up to a multiple of four. */
  function Restore(t: string): string {
    MapChars(t, FromUrlSafe) + Pad((4 - |t| % 4) % 4)
  }

  lemma TokenIsDigits(b: seq<byte>)
    ensures Token(b) == MapChars(Digits(b), ToUrlSafe)
  {
    var d := Digits(b);
    var m := MapChars(Encode(b), ToUrlSafe);
    var md := MapChars(d, ToUrlSafe);
    DigitsNoPadding(b);
    assert m == md + Pad(PadLength(|b|));
    assert md == [] || md[|md| - 1] != '=';
    StripPaddingAppend(md, PadLength(|b|));
  }

  /** A token is as long as the unpadded encoding: nothing but padding is dropped. */
  lemma TokenLength(b: seq<byte>)
    ensures |Token(b)| == EncodedLength(|b|)
    ensures b != [] ==> Token(b) != []
  {
    TokenIsDigits(b);
    DigitsLength(b);
  }

  lemma {:induction false} StripPaddingAppend(s: string, k: nat)
    requires s == [] || s[|s| - 1] != '='
    ensures StripPadding(s + Pad(k)) == s
    decreases k
  {
    if k > 0 {
      assert (s + Pad(k))[..|s| + k - 1] == s + Pad(k - 1);
      StripPaddingAppend(s, k - 1);
    } else {
      assert s + Pad(0) == s;
    }
  }

  /** The token uses only the URL-safe alphabet and carries no padding. */
  lemma TokenAlphabet(b: seq<byte>)
    ensures forall i :: 0 <= i < |Token(b)| ==> IsUrlSafeChar(Token(b)[i])
  {
    TokenIsDigits(b);
    var d := Digits(b);
    forall i | 0 <= i < |d| ensures IsUrlSafeChar(ToUrlSafe(d[i])) {
      DigitsAlphabet(b, i);
    }
  }

  lemma DigitsAlphabet(b: seq<byte>, i: nat)
    requires i < |Digits(b)|
    ensures DigitValue(Digits(b)[i]).Some?
    decreases |b|
  {
    if |b| >= 3 && i >= 4 {
      DigitsAlphabet(b[3..], i - 4);
    }
  }

  /** Restoring the alphabet and the padding gives back exactly the standard encoding. */
  lemma RestoreToken(b: seq<byte>)
    ensures Restore(Token(b)) == Encode(b)
  {
    var t := Token(b);
    TokenChars(b);
    TokenPad(b);
    assert Restore(t) == MapChars(t, FromUrlSafe) + Pad((4 - |t| % 4) % 4);
  }

  /** Mapping the token back to the standard alphabet gives the unpadded encoding. */
  lemma TokenChars(b: seq<byte>)
    ensures MapChars(Token(b), FromUrlSafe) == Digits(b)
  {
    TokenIsDigits(b);
    DigitsNoPadding(b);
    var d := Digits(b);
    forall i | 0 <= i < |d| ensures FromUrlSafe(ToUrlSafe(d[i])) == d[i] {
      assert d[i] != '-' && d[i] != '_';
    }
  }

  /** The padding the receiver adds is the padding the encoder wrote. */
  lemma TokenPad(b: seq<byte>)
    ensures (4 - |Token(b)| % 4) % 4 == PadLength(|b|)
  {
    TokenLength(b);
    PadArithmetic(|b|, |Token(b)|);
  }

  lemma PadArithmetic(n: nat, k: nat)
    requires k == EncodedLength(n)
    ensures (4 - k % 4) % 4 == PadLength(n)
  {
    var q, m := n / 3, n % 3;
    var c := if m == 0 then 0 else m + 1;
    assert k == 4 * q + c;
    ModFour(q, c);
  }

  lemma ModFour(q: nat, c: nat)
    requires c < 4
    ensures (4 * q + c) % 4 == c
  {
  }

  /** The round trip of the synthesised parameter: restore, decode, and the payload
      bytes come back unchanged. */
  lemma TokenRoundTrip(b: seq<byte>)
    ensures Decode(Restore(Token(b))) == Some(b)
    ensures forall i :: 0 <= i < |Token(b)| ==> IsUrlSafeChar(Token(b)[i])
  {
    RestoreToken(b);
    DecodeEncode(b);
    TokenAlphabet(b);
  }
}
