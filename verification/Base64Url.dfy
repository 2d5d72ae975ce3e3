/** Python's `urlsafe_b64encode` and `urlsafe_b64decode`: base64url of RFC 4648, section 5. */
module Base64Url {

  type Byte = b: int | 0 <= b < 256

  datatype Decoding = Malformed | Decoded(bytes: seq<Byte>)

  /** The character of a six-bit value. */
  function Character(v: nat): char
    requires v < 64
  {
    if v < 26 then ('A' as int + v) as char
    else if v < 52 then ('a' as int + (v - 26)) as char
    else if v < 62 then ('0' as int + (v - 52)) as char
    else if v == 62 then '-'
    else '_'
  }

  /**
    The six-bit value of a character, 64 when it has none. The decoder maps `-` and `_` to `+` and
    `/` first, so it reads both alphabets.
   */
  function SixBits(c: char): (v: nat)
    ensures v <= 64
  {
    if 'A' <= c <= 'Z' then c as int - 'A' as int
    else if 'a' <= c <= 'z' then c as int - 'a' as int + 26
    else if '0' <= c <= '9' then c as int - '0' as int + 52
    else if c == '-' || c == '+' then 62
    else if c == '_' || c == '/' then 63
    else 64
  }

  /** Three bytes in four characters. */
  function Group(b0: Byte, b1: Byte, b2: Byte): string {
    [Character(b0 / 4), Character(b0 % 4 * 16 + b1 / 16), Character(b1 % 16 * 4 + b2 / 64), Character(b2 % 64)]
  }

  function Encode(b: seq<Byte>): string {
    if b == [] then ""
    else if |b| == 1 then [Character(b[0] / 4), Character(b[0] % 4 * 16), '=', '=']
    else if |b| == 2 then
      [Character(b[0] / 4), Character(b[0] % 4 * 16 + b[1] / 16), Character(b[1] % 16 * 4), '=']
    else Group(b[0], b[1], b[2]) + Encode(b[3..])
  }

  function Prepend(b: Byte, d: Decoding): Decoding {
    match d
    case Malformed => Malformed
    case Decoded(bytes) => Decoded([b] + bytes)
  }

  /**
    The decoder: `quad` is the place in the current group of four, `left` the bits carried over and
    `pads` the padding seen. Characters outside the alphabet are skipped, complete padding ends the
    text, and a text that stops inside a group is malformed.
   */
  function DecodeFrom(s: string, quad: nat, left: nat, pads: nat): Decoding
    requires quad < 4
    requires left < (match quad case 0 => 1 case 1 => 64 case 2 => 16 case _ => 4)
    decreases |s|
  {
    if s == "" then if quad == 0 then Decoded([]) else Malformed
    else if s[0] == '=' then
      if quad >= 2 && quad + pads + 1 >= 4 then Decoded([])
      else DecodeFrom(s[1..], quad, left, if quad >= 2 then pads + 1 else pads)
    else
      var v := SixBits(s[0]);
      if v == 64 then DecodeFrom(s[1..], quad, left, pads)
      else
        match quad
        case 0 => DecodeFrom(s[1..], 1, v, 0)
        case 1 => Prepend(left * 4 + v / 16, DecodeFrom(s[1..], 2, v % 16, 0))
        case 2 => Prepend(left * 16 + v / 4, DecodeFrom(s[1..], 3, v % 4, 0))
        case _ => Prepend(left * 64 + v, DecodeFrom(s[1..], 0, 0, 0))
  }

  function Decode(s: string): Decoding {
    DecodeFrom(s, 0, 0, 0)
  }

  // ---------- Round trip ----------

  lemma CharacterHasItsBits(v: nat)
    requires v < 64
    ensures SixBits(Character(v)) == v && Character(v) != '=' && Character(v) != '\n'
  {
  }

  /** The decoder on the character of a six-bit value. */
  lemma DecodeCharacter(v: nat, s: string, quad: nat, left: nat, pads: nat)
    requires v < 64 && quad < 4
    requires left < (match quad case 0 => 1 case 1 => 64 case 2 => 16 case _ => 4)
    ensures DecodeFrom([Character(v)] + s, quad, left, pads) ==
      match quad
      case 0 => DecodeFrom(s, 1, v, 0)
      case 1 => Prepend(left * 4 + v / 16, DecodeFrom(s, 2, v % 16, 0))
      case 2 => Prepend(left * 16 + v / 4, DecodeFrom(s, 3, v % 4, 0))
      case _ => Prepend(left * 64 + v, DecodeFrom(s, 0, 0, 0))
  {
    CharacterHasItsBits(v);
    assert ([Character(v)] + s)[1..] == s;
  }

  lemma PaddingEnds(s: string, left: nat, pads: nat)
    requires left < 4
    ensures DecodeFrom("=" + s, 3, left, pads) == Decoded([])
  {
  }

  lemma DoublePaddingEnds(left: nat)
    requires left < 16
    ensures DecodeFrom("==", 2, left, 0) == Decoded([])
  {
    assert "=="[1..] == "=";
  }

  /** The decoder on the first half of a group. */
  lemma DecodeFirstHalf(v0: nat, v1: nat, s: string)
    requires v0 < 64 && v1 < 64
    ensures DecodeFrom([Character(v0)] + ([Character(v1)] + s), 0, 0, 0) ==
      Prepend(v0 * 4 + v1 / 16, DecodeFrom(s, 2, v1 % 16, 0))
  {
    DecodeCharacter(v0, [Character(v1)] + s, 0, 0, 0);
    DecodeCharacter(v1, s, 1, v0, 0);
  }

  /** The decoder on the second half of a group. */
  lemma DecodeHalf(left: nat, v2: nat, v3: nat, s: string)
    requires left < 16 && v2 < 64 && v3 < 64
    ensures DecodeFrom([Character(v2)] + ([Character(v3)] + s), 2, left, 0) ==
      Prepend(left * 16 + v2 / 4, Prepend(v2 % 4 * 64 + v3, DecodeFrom(s, 0, 0, 0)))
  {
    DecodeCharacter(v2, [Character(v3)] + s, 2, left, 0);
    DecodeCharacter(v3, s, 3, v2 % 4, 0);
  }

  /** The decoder on a whole group. */
  lemma DecodeGroup(v0: nat, v1: nat, v2: nat, v3: nat, s: string)
    requires v0 < 64 && v1 < 64 && v2 < 64 && v3 < 64
    ensures DecodeFrom([Character(v0), Character(v1), Character(v2), Character(v3)] + s, 0, 0, 0) ==
      Prepend(v0 * 4 + v1 / 16, Prepend(v1 % 16 * 16 + v2 / 4, Prepend(v2 % 4 * 64 + v3, DecodeFrom(s, 0, 0, 0))))
  {
    var half := [Character(v2)] + ([Character(v3)] + s);
    assert [Character(v0), Character(v1), Character(v2), Character(v3)] + s ==
           [Character(v0)] + ([Character(v1)] + half);
    DecodeFirstHalf(v0, v1, half);
    DecodeHalf(v1 % 16, v2, v3, s);
  }

  /** Three bytes as four six-bit values, and back. */
  lemma GroupBits(b0: Byte, b1: Byte, b2: Byte)
    ensures var v0, v1, v2, v3 := b0 / 4, b0 % 4 * 16 + b1 / 16, b1 % 16 * 4 + b2 / 64, b2 % 64;
      && v0 < 64 && v1 < 64 && v2 < 64 && v3 < 64
      && v0 * 4 + v1 / 16 == b0 && v1 % 16 * 16 + v2 / 4 == b1 && v2 % 4 * 64 + v3 == b2
  {
  }

  lemma DecodeOne(b0: Byte)
    ensures Decode(Encode([b0])) == Decoded([b0])
  {
    var v0, v1 := b0 / 4, b0 % 4 * 16;
    assert Encode([b0]) == [Character(v0)] + ([Character(v1)] + "==");
    DecodeFirstHalf(v0, v1, "==");
    DoublePaddingEnds(v1 % 16);
  }

  lemma DecodePadded(v2: nat, left: nat)
    requires v2 < 64 && left < 16
    ensures DecodeFrom([Character(v2)] + "=", 2, left, 0) == Decoded([left * 16 + v2 / 4])
  {
    DecodeCharacter(v2, "=", 2, left, 0);
    assert "=" + "" == "=";
    PaddingEnds("", v2 % 4, 0);
    assert [left * 16 + v2 / 4] + [] == [left * 16 + v2 / 4];
  }

  lemma DecodeTwo(b0: Byte, b1: Byte)
    ensures Decode(Encode([b0, b1])) == Decoded([b0, b1])
  {
    var v0, v1, v2 := b0 / 4, b0 % 4 * 16 + b1 / 16, b1 % 16 * 4;
    assert Encode([b0, b1]) == [Character(v0)] + ([Character(v1)] + ([Character(v2)] + "="));
    DecodeFirstHalf(v0, v1, [Character(v2)] + "=");
    DecodePadded(v2, v1 % 16);
    assert v0 * 4 + v1 / 16 == b0 && v1 % 16 * 16 + v2 / 4 == b1;
    assert [b0] + [b1] == [b0, b1];
  }

  /** The four characters of a group give back its three bytes. */
  lemma DecodeBytes(b0: Byte, b1: Byte, b2: Byte, s: string, rest: Decoding)
    requires rest == DecodeFrom(s, 0, 0, 0)
    ensures DecodeFrom(Group(b0, b1, b2) + s, 0, 0, 0) == Prepend(b0, Prepend(b1, Prepend(b2, rest)))
  {
    var v0, v1, v2, v3 := b0 / 4, b0 % 4 * 16 + b1 / 16, b1 % 16 * 4 + b2 / 64, b2 % 64;
    GroupBits(b0, b1, b2);
    DecodeGroup(v0, v1, v2, v3, s);
  }

  /** Decoding gives back every byte sequence that was encoded. */
  lemma {:induction false} DecodeEncode(b: seq<Byte>)
    ensures Decode(Encode(b)) == Decoded(b)
  {
    if |b| == 1 {
      assert b == [b[0]];
      DecodeOne(b[0]);
    } else if |b| == 2 {
      assert b == [b[0], b[1]];
      DecodeTwo(b[0], b[1]);
    } else if |b| > 2 {
      DecodeEncode(b[3..]);
      DecodeBytes(b[0], b[1], b[2], Encode(b[3..]), Decoded(b[3..]));
      assert b == [b[0]] + ([b[1]] + ([b[2]] + b[3..]));
    }
  }

  /** No encoded text holds a newline, and none is empty but that of no bytes. */
  lemma {:induction false} EncodedIsOneLine(b: seq<Byte>)
    ensures '\n' !in Encode(b)
    ensures Encode(b) == "" <==> b == []
  {
    forall v: nat | v < 64
      ensures Character(v) != '\n'
    {
      CharacterHasItsBits(v);
    }
    if |b| > 2 {
      EncodedIsOneLine(b[3..]);
    }
  }
}
