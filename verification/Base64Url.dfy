/**
 The base64url text form of section 5 of RFC 4648 as mock_sponsor_service.py
 uses it: padding stripped when a token is written and recomputed when it is
 read. The reader is the lenient one of Python's base64 module, which skips
 characters outside the alphabet and stops at the padding.
 */
module Base64Url {
  import opened Text

  type Byte = b: int | 0 <= b < 256
  type Sextet = v: int | 0 <= v < 64

  function CharOf(v: Sextet): char {
    if v < 26 then ('A' as int + v) as char
    else if v < 52 then ('a' as int + (v - 26)) as char
    else if v < 62 then ('0' as int + (v - 52)) as char
    else if v == 62 then '-' else '_'
  }

  // urlsafe_b64decode maps '-' and '_' onto '+' and '/' and then reads the standard alphabet.
  function ValueOf(c: char): Option<Sextet> {
    if 'A' <= c <= 'Z' then Some(c as int - 'A' as int)
    else if 'a' <= c <= 'z' then Some(c as int - 'a' as int + 26)
    else if '0' <= c <= '9' then Some(c as int - '0' as int + 52)
    else if c == '-' || c == '+' then Some(62)
    else if c == '_' || c == '/' then Some(63)
    else None
  }

  lemma CharRoundTrip(v: Sextet)
    ensures ValueOf(CharOf(v)) == Some(v)
    ensures CharOf(v) != '=' && CharOf(v) != '.' && CharOf(v) < 128 as char
  {
  }

  function Quad(x: Byte, y: Byte, z: Byte): string {
    [CharOf(x / 4), CharOf(x % 4 * 16 + y / 16), CharOf(y % 16 * 4 + z / 64), CharOf(z % 64)]
  }

  /** urlsafe_b64encode: the last group is padded to four characters. */
  function Encode(b: seq<Byte>): string {
    if b == [] then ""
    else if |b| == 1 then Quad(b[0], 0, 0)[..2] + "=="
    else if |b| == 2 then Quad(b[0], b[1], 0)[..3] + "="
    else Quad(b[0], b[1], b[2]) + Encode(b[3..])
  }

  // rstrip("=")
  function StripPadding(s: string): string {
    if s != "" && s[|s| - 1] == '=' then StripPadding(s[..|s| - 1]) else s
  }

  function Pads(n: nat): string {
    seq(n, _ => '=')
  }

  // s + "=" * (-n % 4), where n is the length of s in bytes.
  function AddPadding(s: string, n: nat): string {
    s + Pads(-(n as int) % 4)
  }

  /** The reader's state is the position in the group of four, the bits left over, and the '=' seen since. */
  function DecodeFrom(s: string, quad: int, left: int, pads: nat): Option<seq<Byte>>
    requires 0 <= quad < 4 && 0 <= left < 64
    requires (quad == 2 ==> left < 16) && (quad == 3 ==> left < 4)
    decreases |s|
  {
    if s == "" then
      if quad == 0 then Some([]) else None
    else if s[0] == '=' then
      if quad >= 2 && quad + pads + 1 >= 4 then Some([])
      else DecodeFrom(s[1..], quad, left, if quad >= 2 then pads + 1 else pads)
    else match ValueOf(s[0])
      case None => DecodeFrom(s[1..], quad, left, pads)
      case Some(v) =>
        if quad == 0 then DecodeFrom(s[1..], 1, v, 0)
        else if quad == 1 then Prepend(left * 4 + v / 16, DecodeFrom(s[1..], 2, v % 16, 0))
        else if quad == 2 then Prepend(left * 16 + v / 4, DecodeFrom(s[1..], 3, v % 4, 0))
        else Prepend(left * 64 + v, DecodeFrom(s[1..], 0, 0, 0))
  }

  function Prepend(b: Byte, rest: Option<seq<Byte>>): Option<seq<Byte>> {
    match rest
    case None => None
    case Some(bs) => Some([b] + bs)
  }

  /** urlsafe_b64decode. */
  function Decode(s: string): Option<seq<Byte>> {
    DecodeFrom(s, 0, 0, 0)
  }

  lemma DecodeFirst(s: string, v: Sextet, quad: int, left: int)
    requires 0 <= quad < 4 && 0 <= left < 64
    requires (quad == 2 ==> left < 16) && (quad == 3 ==> left < 4)
    requires s != "" && s[0] == CharOf(v)
    ensures DecodeFrom(s, quad, left, 0) ==
            if quad == 0 then DecodeFrom(s[1..], 1, v, 0)
            else if quad == 1 then Prepend(left * 4 + v / 16, DecodeFrom(s[1..], 2, v % 16, 0))
            else if quad == 2 then Prepend(left * 16 + v / 4, DecodeFrom(s[1..], 3, v % 4, 0))
            else Prepend(left * 64 + v, DecodeFrom(s[1..], 0, 0, 0))
  {
    CharRoundTrip(v);
  }

  // The first two characters of a group give back its first byte.
  lemma DecodePair(s: string, x: Byte, y: Byte)
    requires |s| >= 2 && s[0] == CharOf(x / 4) && s[1] == CharOf(x % 4 * 16 + y / 16)
    ensures DecodeFrom(s, 0, 0, 0) == Prepend(x, DecodeFrom(s[2..], 2, y / 16, 0))
  {
    DecodeFirst(s, x / 4, 0, 0);
    assert s[1..][0] == s[1] && s[1..][1..] == s[2..];
    DecodeFirst(s[1..], x % 4 * 16 + y / 16, 1, x / 4);
  }

  lemma DecodeQuad(rest: string, x: Byte, y: Byte, z: Byte)
    ensures DecodeFrom(Quad(x, y, z) + rest, 0, 0, 0) ==
            Prepend(x, Prepend(y, Prepend(z, DecodeFrom(rest, 0, 0, 0))))
  {
    var s := Quad(x, y, z) + rest;
    DecodePair(s, x, y);
    var t := s[2..];
    assert t[0] == Quad(x, y, z)[2] && t[1..][0] == Quad(x, y, z)[3];
    assert t[1..] == s[3..] && t[1..][1..] == rest;
    DecodeFirst(t, y % 16 * 4 + z / 64, 2, y / 16);
    DecodeFirst(t[1..], z % 64, 3, z / 64);
  }

  lemma DecodeTwo(x: Byte, y: Byte)
    ensures DecodeFrom(Quad(x, y, 0)[..3] + "=", 0, 0, 0) == Some([x, y])
  {
    var s := Quad(x, y, 0)[..3] + "=";
    DecodePair(s, x, y);
    assert s[2..][1..] == "=";
    DecodeFirst(s[2..], y % 16 * 4, 2, y / 16);
    assert DecodeFrom("=", 3, 0, 0) == Some([]);
    assert [x] + ([y] + []) == [x, y];
  }

  lemma DecodeOne(x: Byte)
    ensures DecodeFrom(Quad(x, 0, 0)[..2] + "==", 0, 0, 0) == Some([x])
  {
    var s := Quad(x, 0, 0)[..2] + "==";
    DecodePair(s, x, 0);
    assert s[2..] == "==" && "=="[1..] == "=";
    assert DecodeFrom("=", 2, 0, 1) == Some([]);
    assert DecodeFrom("==", 2, 0, 0) == DecodeFrom("=", 2, 0, 1);
    assert [x] + [] == [x];
  }

  lemma DecodeNothing()
    ensures DecodeFrom("", 0, 0, 0) == Some([])
  {
  }

  /** Reading what was written gives the bytes back, for every length. */
  lemma {:induction false} DecodeEncode(b: seq<Byte>)
    ensures Decode(Encode(b)) == Some(b)
    decreases |b|
  {
    hide Quad, DecodeFrom;
    if |b| >= 3 {
      DecodeQuad(Encode(b[3..]), b[0], b[1], b[2]);
      DecodeEncode(b[3..]);
      assert [b[0]] + ([b[1]] + ([b[2]] + b[3..])) == b;
    } else if |b| == 2 {
      DecodeTwo(b[0], b[1]);
      assert [b[0], b[1]] == b;
    } else if |b| == 1 {
      DecodeOne(b[0]);
      assert [b[0]] == b;
    } else {
      DecodeNothing();
    }
  }

  // The characters of a token part: none of them is the separator, and all are ASCII.
  predicate PlainText(s: string) {
    forall i :: 0 <= i < |s| ==> s[i] != '.' && s[i] < 128 as char
  }

  lemma QuadIsPlain(x: Byte, y: Byte, z: Byte)
    ensures PlainText(Quad(x, y, z)) && |Quad(x, y, z)| == 4
  {
    CharRoundTrip(x / 4);
    CharRoundTrip(x % 4 * 16 + y / 16);
    CharRoundTrip(y % 16 * 4 + z / 64);
    CharRoundTrip(z % 64);
  }

  lemma {:induction false} EncodeShape(b: seq<Byte>)
    ensures |Encode(b)| % 4 == 0 && PlainText(Encode(b))
    decreases |b|
  {
    hide Quad;
    if b != [] {
      var y, z := if |b| > 1 then b[1] else 0, if |b| > 2 then b[2] else 0;
      QuadIsPlain(b[0], y, z);
      if |b| >= 3 {
        EncodeShape(b[3..]);
      }
    }
  }

  // Taking the padding off leaves a text that ends in a data character, or nothing.
  lemma {:induction false} StripIsPrefix(s: string)
    ensures |StripPadding(s)| <= |s| && s == StripPadding(s) + Pads(|s| - |StripPadding(s)|)
    decreases |s|
  {
    if s != "" && s[|s| - 1] == '=' {
      StripIsPrefix(s[..|s| - 1]);
      assert s == s[..|s| - 1] + "=";
    }
  }

  lemma {:induction false} StripTakesAtMostTwo(b: seq<Byte>)
    ensures |StripPadding(Encode(b))| + 3 > |Encode(b)|
    ensures b != [] ==> Encode(b) != "" && |Encode(b)| >= 4
    decreases |b|
  {
    forall v: Sextet
      ensures CharOf(v) != '='
    {
      CharRoundTrip(v);
    }
    if |b| >= 4 {
      StripTakesAtMostTwo(b[3..]);
      StripKeepsFront(Quad(b[0], b[1], b[2]), Encode(b[3..]));
    } else if |b| == 3 {
      assert Encode(b) == Quad(b[0], b[1], b[2]) + Encode([]);
    } else if |b| == 2 {
      var s := Encode(b);
      assert StripPadding(s) == StripPadding(s[..3]) == s[..3];
    } else if |b| == 1 {
      var s := Encode(b);
      assert s[..3][..2] == s[..2];
      assert StripPadding(s) == StripPadding(s[..3]) == StripPadding(s[..2]) == s[..2];
    }
  }

  lemma {:induction false} StripKeepsFront(front: string, s: string)
    requires StripPadding(s) != ""
    ensures StripPadding(front + s) == front + StripPadding(s)
    decreases |s|
  {
    if s[|s| - 1] == '=' {
      assert (front + s)[..|front + s| - 1] == front + s[..|s| - 1];
      StripKeepsFront(front, s[..|s| - 1]);
    }
  }

  /** The recomputed padding is exactly the padding that was stripped. */
  lemma PaddingRoundTrip(b: seq<Byte>)
    ensures var s := StripPadding(Encode(b)); AddPadding(s, |s|) == Encode(b)
  {
    hide Encode, StripPadding, PlainText;
    var e, s := Encode(b), StripPadding(Encode(b));
    EncodeShape(b);
    StripIsPrefix(e);
    StripTakesAtMostTwo(b);
    assert (-|s|) % 4 == |e| - |s|;
  }

  const CAPITALS := "ABCDEFGHIJKLMNOPQRSTUVWXYZ"
  const SMALL := "abcdefghijklmnopqrstuvwxyz"
  const DIGITS := "0123456789"
  const ALPHABET := CAPITALS + SMALL + DIGITS + "-_"

  lemma CapitalAt(v: nat)
    requires v < 26
    ensures CAPITALS[v] as int == 'A' as int + v
  {
  }

  lemma SmallAt(v: nat)
    requires v < 26
    ensures SMALL[v] as int == 'a' as int + v
  {
  }

  lemma DigitAt(v: nat)
    requires v < 10
    ensures DIGITS[v] as int == '0' as int + v
  {
  }

  /** The alphabet of section 5 of RFC 4648, in its order. */
  lemma CharOfIsAlphabet(v: Sextet)
    ensures |ALPHABET| == 64 && CharOf(v) == ALPHABET[v]
  {
    if v < 26 {
      CapitalAt(v);
    } else if v < 52 {
      SmallAt(v - 26);
    } else if v < 62 {
      DigitAt(v - 52);
    }
  }

  /** A group is the three bytes as one number of 24 bits, written in four digits of 6 bits. */
  lemma QuadIsNumber(x: Byte, y: Byte, z: Byte)
    returns (a: Sextet, b: Sextet, c: Sextet, d: Sextet)
    ensures Quad(x, y, z) == [CharOf(a), CharOf(b), CharOf(c), CharOf(d)]
    ensures x * 65536 + y * 256 + z == a * 262144 + b * 4096 + c * 64 + d
  {
    a, b, c, d := x / 4, x % 4 * 16 + y / 16, y % 16 * 4 + z / 64, z % 64;
  }

  // The characters the reader looks at.
  function DataAndPads(s: string): string {
    if s == "" then ""
    else (if s[0] == '=' || ValueOf(s[0]).Some? then [s[0]] else "") + DataAndPads(s[1..])
  }

  /** The reader skips every character that is neither in the alphabet nor padding. */
  lemma {:induction false} DecodeSkips(s: string, quad: int, left: int, pads: nat)
    requires 0 <= quad < 4 && 0 <= left < 64
    requires (quad == 2 ==> left < 16) && (quad == 3 ==> left < 4)
    ensures DecodeFrom(s, quad, left, pads) == DecodeFrom(DataAndPads(s), quad, left, pads)
    decreases |s|
  {
    hide ValueOf;
    if s != "" {
      var t := DataAndPads(s);
      if s[0] == '=' {
        assert t[0] == s[0] && t[1..] == DataAndPads(s[1..]);
        DecodeSkips(s[1..], quad, left, if quad >= 2 then pads + 1 else pads);
      } else {
        match ValueOf(s[0]) {
          case None =>
            assert t == DataAndPads(s[1..]);
            DecodeSkips(s[1..], quad, left, pads);
          case Some(v) =>
            assert t[0] == s[0] && t[1..] == DataAndPads(s[1..]);
            if quad == 0 {
              DecodeSkips(s[1..], 1, v, 0);
            } else if quad == 1 {
              DecodeSkips(s[1..], 2, v % 16, 0);
            } else if quad == 2 {
              DecodeSkips(s[1..], 3, v % 4, 0);
            } else {
              DecodeSkips(s[1..], 0, 0, 0);
            }
        }
      }
    }
  }

  // The digits of the standard alphabet and of the URL-safe one.
  lemma BothAlphabets(c: char)
    ensures ValueOf('+') == ValueOf('-') && ValueOf('/') == ValueOf('_')
    ensures ValueOf(c).Some? <==> c in ALPHABET || c == '+' || c == '/'
  {
    if ValueOf(c).Some? && c != '+' && c != '/' {
      CharOfIsAlphabet(ValueOf(c).value);
    }
    if i :| 0 <= i < |ALPHABET| && ALPHABET[i] == c {
      CharOfIsAlphabet(i);
      CharRoundTrip(i);
    }
  }

  /** Padding that completes a group ends the text, whatever follows; a group that is never completed is refused. */
  lemma PaddingEnds(x: Byte, y: Byte, rest: string)
    ensures Decode(Encode([x]) + rest) == Some([x]) && Decode(Encode([x, y]) + rest) == Some([x, y])
    ensures Decode([CharOf(x / 4)]) == None && Decode(Encode([x])[..3]) == None && Decode(Encode([x, y])[..3]) == None
  {
    var one, two := Encode([x]) + rest, Encode([x, y]) + rest;
    DecodePair(one, x, 0);
    DecodePair(two, x, y);
    assert one[2..] == "==" + rest && ("==" + rest)[1..] == "=" + rest;
    assert DecodeFrom("=" + rest, 2, 0, 1) == Some([]);
    assert [x] + [] == [x];
    DecodeFirst(two[2..], y % 16 * 4, 2, y / 16);
    assert two[2..][1..] == "=" + rest;
    assert DecodeFrom("=" + rest, 3, 0, 0) == Some([]);
    assert [x] + ([y] + []) == [x, y];
    IncompleteGroups(x, y);
  }

  lemma IncompleteGroups(x: Byte, y: Byte)
    ensures Decode([CharOf(x / 4)]) == None && Decode(Encode([x])[..3]) == None && Decode(Encode([x, y])[..3]) == None
  {
    DecodeFirst([CharOf(x / 4)], x / 4, 0, 0);
    assert [CharOf(x / 4)][1..] == "";
    var one, two := Encode([x])[..3], Encode([x, y])[..3];
    DecodePair(one, x, 0);
    DecodePair(two, x, y);
    assert one[2..] == "=" && one[2..][1..] == "";
    assert DecodeFrom("", 2, 0, 1) == None;
    DecodeFirst(two[2..], y % 16 * 4, 2, y / 16);
    assert two[2..][1..] == "";
  }

  /** Two of the examples of section 10 of RFC 4648, and one with both characters of the URL-safe alphabet. */
  lemma EncodeExamples()
    ensures Encode([102, 111]) == "Zm8="
    ensures Encode([102, 111, 111, 98]) == "Zm9vYg=="
    ensures Encode([251, 255, 254]) == "-__-"
  {
    assert [102, 111, 111, 98][3..] == [98];
    assert Encode([98]) == "Yg==";
    assert Encode([102, 111, 111, 98]) == Quad(102, 111, 111) + Encode([98]);
    assert Encode([251, 255, 254]) == Quad(251, 255, 254) + Encode([]);
  }
}
