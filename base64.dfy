/** The base64 encoding of section 4 of RFC 4648, as Ruby's `Base64.strict_encode64` produces it:
    no line breaks, '=' padding to a multiple of four characters. */
module Base64 {
  import opened Wrappers

  type byte = x: int | 0 <= x < 256
  type sextet = x: int | 0 <= x < 64

  /** The character for a 6-bit value: A-Z, a-z, 0-9, '+', '/' (Table 1 of RFC 4648). */
  function CharOf(k: sextet): char {
    if k < 26 then (('A' as int) + k) as char
    else if k < 52 then (('a' as int) + (k - 26)) as char
    else if k < 62 then (('0' as int) + (k - 52)) as char
    else if k == 62 then '+'
    else '/'
  }

  /** The 6-bit value of an alphabet character, or None for any other character. */
  function ValueOf(c: char): Option<sextet> {
    if 'A' <= c <= 'Z' then Some((c as int) - ('A' as int))
    else if 'a' <= c <= 'z' then Some((c as int) - ('a' as int) + 26)
    else if '0' <= c <= '9' then Some((c as int) - ('0' as int) + 52)
    else if c == '+' then Some(62)
    else if c == '/' then Some(63)
    else None
  }

  predicate InAlphabet(c: char) {
    ValueOf(c).Some?
  }

  lemma ValueOfCharOf(k: sextet)
    ensures ValueOf(CharOf(k)) == Some(k)
  {
  }

  /** Three bytes become four characters. */
  function EncodeThree(a: byte, b: byte, c: byte): string {
    [CharOf(a / 4), CharOf((a % 4) * 16 + b / 16), CharOf((b % 16) * 4 + c / 64), CharOf(c % 64)]
  }

  /** Two final bytes become three characters and one '='. */
  function EncodeTwo(a: byte, b: byte): string {
    [CharOf(a / 4), CharOf((a % 4) * 16 + b / 16), CharOf((b % 16) * 4), '=']
  }

  /** One final byte becomes two characters and '=='. */
  function EncodeOne(a: byte): string {
    [CharOf(a / 4), CharOf((a % 4) * 16), '=', '=']
  }

  /** `Base64.strict_encode64`. */
  function Encode(b: seq<byte>): (s: string)
    ensures |s| == 4 * ((|b| + 2) / 3)
    decreases |b|
  {
    if |b| == 0 then ""
    else if |b| == 1 then EncodeOne(b[0])
    else if |b| == 2 then EncodeTwo(b[0], b[1])
    else EncodeThree(b[0], b[1], b[2]) + Encode(b[3..])
  }

  /** The first byte of a quartet: all six bits of `w` and the top two of `x`. */
  function First(w: sextet, x: sextet): byte {
    (w as int) * 4 + (x as int) / 16
  }

  /** The second byte: the low four bits of `x` and the top four of `y`. */
  function Second(x: sextet, y: sextet): byte {
    ((x as int) % 16) * 16 + (y as int) / 4
  }

  /** The third byte: the low two bits of `y` and all six of `z`. */
  function Third(y: sextet, z: sextet): byte {
    ((y as int) % 4) * 64 + (z as int)
  }

  /** Four alphabet characters without padding. */
  function DecodeFull(q: string): Option<seq<byte>>
    requires |q| == 4
  {
    match (ValueOf(q[0]), ValueOf(q[1]), ValueOf(q[2]), ValueOf(q[3]))
    case (Some(w), Some(x), Some(y), Some(z)) =>
      Some([First(w, x), Second(x, y), Third(y, z)])
    case _ => None
  }

  /** The final quartet, which may end in one or two '='. Unused low bits are ignored. */
  function DecodeLast(q: string): Option<seq<byte>>
    requires |q| == 4
  {
    if q[2] == '=' && q[3] == '=' then
      match (ValueOf(q[0]), ValueOf(q[1]))
      case (Some(w), Some(x)) => Some([First(w, x)])
      case _ => None
    else if q[3] == '=' then
      match (ValueOf(q[0]), ValueOf(q[1]), ValueOf(q[2]))
      case (Some(w), Some(x), Some(y)) => Some([First(w, x), Second(x, y)])
      case _ => None
    else DecodeFull(q)
  }

  /** Decodes a padded base64 string; None when the length is not a multiple of four, a
      character is outside the alphabet, or '=' appears anywhere but at the end. */
  function Decode(s: string): Option<seq<byte>>
    decreases |s|
  {
    if s == [] then Some([])
    else if |s| < 4 then None
    else if |s| == 4 then DecodeLast(s)
    else
      match DecodeFull(s[..4])
      case None => None
      case Some(head) =>
        match Decode(s[4..])
        case None => None
        case Some(tail) => Some(head + tail)
  }

  lemma FirstInverse(a: byte, b: byte)
    ensures First(a / 4, (a % 4) * 16 + b / 16) == a
  {
  }

  lemma SecondInverse(a: byte, b: byte, c: byte)
    ensures Second((a % 4) * 16 + b / 16, (b % 16) * 4 + c / 64) == b
  {
    var hi, lo := b / 16, b % 16;
    assert ((a % 4) * 16 + hi) % 16 == hi;
    assert (lo * 4 + c / 64) / 4 == lo;
  }

  lemma ThirdInverse(b: byte, c: byte)
    ensures Third((b % 16) * 4 + c / 64, c % 64) == c
  {
  }

  lemma DecodeEncodeThree(a: byte, b: byte, c: byte)
    ensures DecodeFull(EncodeThree(a, b, c)) == Some([a, b, c])
    ensures DecodeLast(EncodeThree(a, b, c)) == Some([a, b, c])
  {
    var w, x, y, z := a / 4, (a % 4) * 16 + b / 16, (b % 16) * 4 + c / 64, c % 64;
    ValueOfCharOf(w);
    ValueOfCharOf(x);
    ValueOfCharOf(y);
    ValueOfCharOf(z);
    FirstInverse(a, b);
    SecondInverse(a, b, c);
    ThirdInverse(b, c);
    assert EncodeThree(a, b, c) == [CharOf(w), CharOf(x), CharOf(y), CharOf(z)];
  }

  lemma DecodeEncodeTwo(a: byte, b: byte)
    ensures DecodeLast(EncodeTwo(a, b)) == Some([a, b])
  {
    var w, x, y := a / 4, (a % 4) * 16 + b / 16, (b % 16) * 4;
    ValueOfCharOf(w);
    ValueOfCharOf(x);
    ValueOfCharOf(y);
    FirstInverse(a, b);
    SecondInverse(a, b, 0);
  }

  lemma DecodeEncodeOne(a: byte)
    ensures DecodeLast(EncodeOne(a)) == Some([a])
  {
    ValueOfCharOf(a / 4);
    ValueOfCharOf((a % 4) * 16);
    FirstInverse(a, 0);
  }

  lemma DecodePrefixed(q: string, rest: string)
    requires |q| == 4 && rest != []
    requires DecodeFull(q).Some? && Decode(rest).Some?
    ensures Decode(q + rest) == Some(DecodeFull(q).value + Decode(rest).value)
  {
    var s := q + rest;
    assert s[..4] == q && s[4..] == rest;
  }

  lemma EncodeLong(b: seq<byte>)
    requires |b| > 2
    ensures Encode(b) == EncodeThree(b[0], b[1], b[2]) + Encode(b[3..])
  {
  }

  lemma {:induction false} DecodeEncodeShort(b: seq<byte>)
    requires 1 <= |b| <= 3
    ensures Decode(Encode(b)) == Some(b)
  {
    if |b| == 1 {
      DecodeEncodeOne(b[0]);
      assert [b[0]] == b;
    } else if |b| == 2 {
      DecodeEncodeTwo(b[0], b[1]);
      assert [b[0], b[1]] == b;
    } else {
      EncodeLong(b);
      assert Encode(b[3..]) == [];
      assert Encode(b) == EncodeThree(b[0], b[1], b[2]);
      DecodeEncodeThree(b[0], b[1], b[2]);
      assert [b[0], b[1], b[2]] == b;
    }
  }

  lemma {:induction false} DecodeEncodeStep(b: seq<byte>)
    requires |b| > 3
    requires Decode(Encode(b[3..])) == Some(b[3..])
    ensures Decode(Encode(b)) == Some(b)
  {
    EncodeLong(b);
    DecodeEncodeThree(b[0], b[1], b[2]);
    DecodePrefixed(EncodeThree(b[0], b[1], b[2]), Encode(b[3..]));
    assert [b[0], b[1], b[2]] + b[3..] == b;
  }

  /** Decoding an encoding gives back the bytes that were encoded. */
  lemma {:induction false} DecodeEncode(b: seq<byte>)
    ensures Decode(Encode(b)) == Some(b)
    decreases |b|
  {
    if 1 <= |b| <= 3 {
      DecodeEncodeShort(b);
    } else if |b| > 3 {
      DecodeEncode(b[3..]);
      DecodeEncodeStep(b);
    }
  }

  /** Every character of an encoding is an alphabet character or '='. */
  lemma {:induction false} EncodeCharacters(b: seq<byte>)
    ensures forall i :: 0 <= i < |Encode(b)| ==> InAlphabet(Encode(b)[i]) || Encode(b)[i] == '='
    decreases |b|
  {
    if |b| > 2 {
      EncodeCharacters(b[3..]);
      var q := EncodeThree(b[0], b[1], b[2]);
      var rest := Encode(b[3..]);
      assert Encode(b) == q + rest;
      forall i | 0 <= i < |q| + |rest| ensures InAlphabet((q + rest)[i]) || (q + rest)[i] == '=' {
        if i < 4 {
          ValueOfCharOf(if i == 0 then b[0] / 4 else if i == 1 then (b[0] % 4) * 16 + b[1] / 16
                        else if i == 2 then (b[1] % 16) * 4 + b[2] / 64 else b[2] % 64);
        } else {
          assert (q + rest)[i] == rest[i - 4];
        }
      }
    } else if |b| == 2 {
      ValueOfCharOf(b[0] / 4);
      ValueOfCharOf((b[0] % 4) * 16 + b[1] / 16);
      ValueOfCharOf((b[1] % 16) * 4);
    } else if |b| == 1 {
      ValueOfCharOf(b[0] / 4);
      ValueOfCharOf((b[0] % 4) * 16);
    }
  }
}
