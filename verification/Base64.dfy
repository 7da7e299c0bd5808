/** The Base64 coding of src/hdr_encoding.c, section 4 of RFC 4648: three bytes make four digits,
    and the last group is padded with '='.  Decoding reads a padding sign as the digit 0 and does
    not check the digits: every character outside the alphabet counts as EINVAL, that is 22. */
module Base64 {
  import opened Bits
  import opened Leb128
  import opened Results
  import opened Sequences

  // ---------- digits ----------

  /** base64_table */
  function Digit(d: nat): char
    requires d < 64
  {
    if d < 26 then ('A' as int + d) as char
    else if d < 52 then ('a' as int + (d - 26)) as char
    else if d < 62 then ('0' as int + (d - 52)) as char
    else if d == 62 then '+'
    else '/'
  }

  /** from_base_64 */
  function FromBase64(c: char): (d: nat)
    ensures d < 64
  {
    if 'A' <= c <= 'Z' then c as int - 'A' as int
    else if 'a' <= c <= 'z' then c as int - 'a' as int + 26
    else if '0' <= c <= '9' then c as int - '0' as int + 52
    else if c == '+' then 62
    else if c == '/' then 63
    else if c == '=' then 0
    else EINVAL
  }

  lemma DigitRoundTrip(d: nat)
    requires d < 64
    ensures FromBase64(Digit(d)) == d
  {
  }

  /** The alphabet of table 1 in section 4 of RFC 4648: the letters and figures in their order, and
      then '+' and '/'. */
  lemma Alphabet(d: nat)
    requires d < 64
    ensures Digit(0) == 'A' && Digit(26) == 'a' && Digit(52) == '0' && Digit(62) == '+' && Digit(63) == '/'
    ensures d != 25 && d != 51 && d < 61 ==> Digit(d + 1) as int == Digit(d) as int + 1
    ensures FromBase64(Digit(d)) == d && FromBase64('=') == 0
  {
    DigitRoundTrip(d);
  }

  /** Characters outside the alphabet are not rejected: they are read as 'W' is. */
  lemma ForeignCharacter(c: char)
    requires c != '=' && forall d: nat | d < 64 :: Digit(d) != c
    ensures FromBase64(c) == FromBase64('W')
  {
    assert c == Digit(FromBase64(c)) || FromBase64(c) == EINVAL;
  }

  // ---------- blocks ----------

  /** The characters of one block of 24 bits: six bits each, the highest first. */
  function DigitsOf(word: nat): string {
    var up6 := word / 64;
    var up12 := up6 / 64;
    var up18 := up12 / 64;
    [Digit(up18 % 64), Digit(up12 % 64), Digit(up6 % 64), Digit(word % 64)]
  }

  /** (a << 16) + (b << 8) + c */
  function WordOf(a: Byte, b: Byte, c: Byte): nat {
    256 * (256 * a + b) + c
  }

  /** The 24 bits of four digits. */
  function WordOfDigits(s: string): nat
    requires |s| == 4
  {
    64 * (64 * (64 * FromBase64(s[0]) + FromBase64(s[1])) + FromBase64(s[2])) + FromBase64(s[3])
  }

  /** The bytes of one block of 24 bits, the highest first. */
  function BytesOf(word: nat): seq<Byte> {
    var up8 := word / 256;
    var up16 := up8 / 256;
    [up16 % 256, up8 % 256, word % 256]
  }

  lemma WordRoundTrip(word: nat)
    requires word < 0x100_0000
    ensures WordOfDigits(DigitsOf(word)) == word
  {
    var up6 := word / 64;
    var up12 := up6 / 64;
    var up18 := up12 / 64;
    assert up18 < 64;
    DigitRoundTrip(word % 64);
    DigitRoundTrip(up6 % 64);
    DigitRoundTrip(up12 % 64);
    DigitRoundTrip(up18 % 64);
    assert word == 64 * up6 + word % 64;
    assert up6 == 64 * up12 + up6 % 64;
  }

  lemma BytesRoundTrip(a: Byte, b: Byte, c: Byte)
    ensures BytesOf(WordOf(a, b, c)) == [a, b, c]
    ensures WordOf(a, b, c) < 0x100_0000
  {
    assert WordOf(a, b, c) / 256 == 256 * a + b;
    assert (256 * a + b) / 256 == a;
  }

  // ---------- the coding ----------

  /** The characters of the bytes. */
  function Encoding(bytes: seq<Byte>): string {
    if bytes == [] then ""
    else if |bytes| == 1 then DigitsOf(WordOf(bytes[0], 0, 0))[..2] + "=="
    else if |bytes| == 2 then DigitsOf(WordOf(bytes[0], bytes[1], 0))[..3] + "="
    else DigitsOf(WordOf(bytes[0], bytes[1], bytes[2])) + Encoding(bytes[3..])
  }

  /** The bytes of the characters, four at a time. */
  function Decoding(text: string): seq<Byte> {
    if |text| < 4 then [] else BytesOf(WordOfDigits(text[..4])) + Decoding(text[4..])
  }

  /** hdr_base64_encoded_len: ceil(n / 3) * 4 */
  function EncodedLen(n: nat): nat { (n + 2) / 3 * 4 }

  /** hdr_base64_decoded_len */
  function DecodedLen(n: nat): nat { n / 4 * 3 }

  lemma LengthsPerBlock(n: nat)
    ensures n >= 3 ==> EncodedLen(n) == 4 + EncodedLen(n - 3)
    ensures n >= 4 ==> DecodedLen(n) == 3 + DecodedLen(n - 4)
  {
  }

  lemma {:induction false} EncodingBlock(bytes: seq<Byte>)
    requires |bytes| >= 3
    ensures Encoding(bytes) == DigitsOf(WordOf(bytes[0], bytes[1], bytes[2])) + Encoding(bytes[3..])
    ensures |Encoding(bytes)| == 4 + |Encoding(bytes[3..])|
  {
  }

  lemma {:induction false} EncodingLength(bytes: seq<Byte>)
    ensures |Encoding(bytes)| == EncodedLen(|bytes|)
  {
    if |bytes| >= 3 {
      EncodingBlock(bytes);
      EncodingLength(bytes[3..]);
      LengthsPerBlock(|bytes|);
    }
  }

  /** Byte k, or 0 past the end. */
  function ByteAt(bytes: seq<Byte>, k: nat): Byte {
    if k < |bytes| then bytes[k] else 0
  }

  /** The 24 bits of group g. */
  function GroupAt(bytes: seq<Byte>, g: nat): nat {
    0x1_0000 * ByteAt(bytes, 3 * g) + 0x100 * ByteAt(bytes, 3 * g + 1) + ByteAt(bytes, 3 * g + 2)
  }

  /** Digit i of a group of 24 bits, the highest first. */
  function SixBits(group: nat, i: nat): (d: nat)
    requires i < 4
    ensures d < 64
  {
    group / [0x4_0000, 0x1000, 0x40, 1][i] % 64
  }

  lemma GroupDigits(group: nat, i: nat)
    requires i < 4
    ensures DigitsOf(group)[i] == Digit(SixBits(group, i))
  {
    assert group / 64 / 64 == group / 0x1000;
    assert group / 64 / 64 / 64 == group / 0x4_0000;
  }

  lemma {:induction false} GroupsBehind(bytes: seq<Byte>, g: nat)
    requires |bytes| >= 3
    ensures GroupAt(bytes[3..], g) == GroupAt(bytes, g + 1)
  {
  }

  /** What character j of an encoding has to be: six bits of its group of three bytes, or the padding
      of a group that the bytes do not fill. */
  function CharacterFor(bytes: seq<Byte>, j: nat): char {
    var g, i := j / 4, j % 4;
    if i >= 2 && 3 * g + i - 1 >= |bytes| then '=' else Digit(SixBits(GroupAt(bytes, g), i))
  }

  lemma {:induction false} FirstGroupIs(bytes: seq<Byte>)
    ensures GroupAt(bytes, 0) == WordOf(ByteAt(bytes, 0), ByteAt(bytes, 1), ByteAt(bytes, 2))
  {
  }

  lemma {:induction false} InFirstGroup(bytes: seq<Byte>, j: nat)
    requires j < 4
    ensures CharacterFor(bytes, j) == if j >= 2 && j - 1 >= |bytes| then '=' else DigitsOf(GroupAt(bytes, 0))[j]
  {
    GroupDigits(GroupAt(bytes, 0), j);
  }

  lemma {:induction false} FirstCharacters(bytes: seq<Byte>, j: nat)
    requires bytes != [] && j < 4
    ensures j < |Encoding(bytes)| && Encoding(bytes)[j] == CharacterFor(bytes, j)
  {
    var digits := DigitsOf(GroupAt(bytes, 0));
    InFirstGroup(bytes, j);
    FirstGroupIs(bytes);
    if |bytes| == 1 {
      assert Encoding(bytes) == digits[..2] + "==";
    } else if |bytes| == 2 {
      assert Encoding(bytes) == digits[..3] + "=";
    } else {
      assert Encoding(bytes) == digits + Encoding(bytes[3..]);
    }
  }

  lemma {:induction false} CharactersBehind(bytes: seq<Byte>, j: nat)
    requires |bytes| >= 3 && j >= 4
    ensures CharacterFor(bytes, j) == CharacterFor(bytes[3..], j - 4)
  {
    var g := (j - 4) / 4;
    assert j / 4 == g + 1 && j % 4 == (j - 4) % 4;
    GroupsBehind(bytes, g);
  }

  lemma {:induction false} EncodingDigits(bytes: seq<Byte>, j: nat)
    requires j < |Encoding(bytes)|
    ensures Encoding(bytes)[j] == CharacterFor(bytes, j)
  {
    if j >= 4 {
      EncodingDigits(bytes[3..], j - 4);
      CharactersBehind(bytes, j);
    } else {
      FirstCharacters(bytes, j);
    }
  }

  /** The characters of any bytes are whole groups of four. */
  lemma {:induction false} WholeGroups(bytes: seq<Byte>)
    requires bytes != []
    ensures |Encoding(bytes)| >= 4 && |Encoding(bytes)| % 4 == 0
  {
    EncodingLength(bytes);
    var groups := (|bytes| + 2) / 3;
    assert groups >= 1;
    FourTimes(groups);
  }

  lemma FourTimes(groups: nat)
    ensures groups * 4 % 4 == 0
  {
  }

  lemma {:induction false} DecodingLength(text: string)
    ensures |Decoding(text)| == DecodedLen(|text|)
  {
    if |text| >= 4 {
      DecodingLength(text[4..]);
      LengthsPerBlock(|text|);
    }
  }

  lemma DecodingFirst(block: string, rest: string)
    requires |block| == 4
    ensures Decoding(block + rest) == BytesOf(WordOfDigits(block)) + Decoding(rest)
  {
    assert (block + rest)[..4] == block && (block + rest)[4..] == rest;
  }

  lemma BlockRoundTrip(a: Byte, b: Byte, c: Byte, rest: string)
    ensures Decoding(DigitsOf(WordOf(a, b, c)) + rest) == [a, b, c] + Decoding(rest)
  {
    BytesRoundTrip(a, b, c);
    WordRoundTrip(WordOf(a, b, c));
    DecodingFirst(DigitsOf(WordOf(a, b, c)), rest);
  }

  /** A padding sign stands for six bits that are zero. */
  lemma PaddingIsZero(s: string, k: nat)
    requires |s| == 4 && k < 4 && FromBase64(s[k]) == 0
    ensures WordOfDigits(s[k := '=']) == WordOfDigits(s)
  {
  }

  lemma MultipleOf64(k: nat)
    ensures 64 * k % 64 == 0 && 64 * k / 64 == k
  {
  }

  lemma LastDigitZero(a: Byte, b: Byte)
    ensures FromBase64(DigitsOf(WordOf(a, b, 0))[3]) == 0
  {
    assert WordOf(a, b, 0) == 64 * (4 * (256 * a + b));
    MultipleOf64(4 * (256 * a + b));
  }

  lemma LastTwoDigitsZero(a: Byte)
    ensures FromBase64(DigitsOf(WordOf(a, 0, 0))[2]) == FromBase64(DigitsOf(WordOf(a, 0, 0))[3]) == 0
  {
    assert WordOf(a, 0, 0) == 64 * (64 * (16 * a));
    MultipleOf64(64 * (16 * a));
    MultipleOf64(16 * a);
  }

  /** How many zero bytes decoding puts after n bytes. */
  function Missing(n: nat): nat {
    if n % 3 == 0 then 0 else 3 - n % 3
  }

  function Padded(bytes: seq<Byte>): seq<Byte> {
    bytes + seq(Missing(|bytes|), _ => 0)
  }

  lemma SingleBlock(block: string)
    requires |block| == 4
    ensures Decoding(block) == BytesOf(WordOfDigits(block))
  {
    DecodingFirst(block, "");
    assert block + "" == block;
  }

  lemma OneByteRoundTrip(a: Byte)
    ensures Decoding(Encoding([a])) == [a, 0, 0]
  {
    var block := DigitsOf(WordOf(a, 0, 0));
    BytesRoundTrip(a, 0, 0);
    WordRoundTrip(WordOf(a, 0, 0));
    LastTwoDigitsZero(a);
    PaddingIsZero(block, 2);
    PaddingIsZero(block[2 := '='], 3);
    assert Encoding([a]) == block[2 := '='][3 := '='];
    SingleBlock(Encoding([a]));
  }

  lemma TwoBytesRoundTrip(a: Byte, b: Byte)
    ensures Decoding(Encoding([a, b])) == [a, b, 0]
  {
    var block := DigitsOf(WordOf(a, b, 0));
    BytesRoundTrip(a, b, 0);
    WordRoundTrip(WordOf(a, b, 0));
    LastDigitZero(a, b);
    PaddingIsZero(block, 3);
    assert Encoding([a, b]) == block[3 := '='];
    SingleBlock(Encoding([a, b]));
  }

  /** Decoding gives the bytes back, followed by zeros up to a multiple of three. */
  lemma {:induction false} Base64RoundTrip(bytes: seq<Byte>)
    ensures Decoding(Encoding(bytes)) == Padded(bytes)
  {
    if |bytes| == 1 {
      OneByteRoundTrip(bytes[0]);
      assert bytes == [bytes[0]];
    } else if |bytes| == 2 {
      TwoBytesRoundTrip(bytes[0], bytes[1]);
      assert bytes == [bytes[0], bytes[1]];
    } else if |bytes| >= 3 {
      BlockRoundTrip(bytes[0], bytes[1], bytes[2], Encoding(bytes[3..]));
      Base64RoundTrip(bytes[3..]);
      PaddedFurther(bytes);
    }
  }

  lemma {:induction false} PaddedFurther(bytes: seq<Byte>)
    requires |bytes| >= 3
    ensures Padded(bytes) == [bytes[0], bytes[1], bytes[2]] + Padded(bytes[3..])
  {
    assert bytes == [bytes[0], bytes[1], bytes[2]] + bytes[3..];
    assert (|bytes| - 3) % 3 == |bytes| % 3;
  }

  // ---------- the loops ----------

  /** hdr_base64_encode_block_pad */
  method EncodeBlockPad(input: seq<Byte>, i: nat, output: array<char>, j: nat)
    requires i <= |input| && |input| - i < 3 && j + |Encoding(input[i..])| <= output.Length
    modifies output
    ensures output[..] == old(output[..j]) + Encoding(input[i..]) + old(output[j + |Encoding(input[i..])|..])
  {
    if |input| - i == 2 {
      var digits := DigitsOf(WordOf(input[i], input[i + 1], 0));
      output[j], output[j + 1], output[j + 2], output[j + 3] := digits[0], digits[1], digits[2], '=';
    } else if |input| - i == 1 {
      var digits := DigitsOf(WordOf(input[i], 0, 0));
      output[j], output[j + 1], output[j + 2], output[j + 3] := digits[0], digits[1], '=', '=';
    }
  }

  /** hdr_base64_encode_block */
  method EncodeBlock(input: seq<Byte>, i: nat, output: array<char>, j: nat)
    requires i + 3 <= |input| && j + 4 <= output.Length
    modifies output
    ensures output[..]
         == old(output[..j]) + DigitsOf(WordOf(input[i], input[i + 1], input[i + 2])) + old(output[j + 4..])
  {
    var digits := DigitsOf(WordOf(input[i], input[i + 1], input[i + 2]));
    output[j], output[j + 1], output[j + 2], output[j + 3] := digits[0], digits[1], digits[2], digits[3];
  }

  /** The first j characters encode the first i bytes. */
  ghost predicate EncodedSoFar(input: seq<Byte>, i: nat, output: string, j: nat) {
    && i <= |input| && j <= |output| == |Encoding(input)|
    && output[..j] + Encoding(input[i..]) == Encoding(input)
  }

  lemma {:induction false} EncodedBlock(input: seq<Byte>, i: nat, before: string, after: string, j: nat)
    requires EncodedSoFar(input, i, before, j) && i + 3 <= |input| && j + 4 <= |before|
    requires after == before[..j] + DigitsOf(WordOf(input[i], input[i + 1], input[i + 2])) + before[j + 4..]
    ensures EncodedSoFar(input, i + 3, after, j + 4)
  {
    var block := DigitsOf(WordOf(input[i], input[i + 1], input[i + 2]));
    EncodingBlock(input[i..]);
    assert input[i..][3..] == input[i + 3..];
    WriteBlock(before, after, j, block, Encoding(input[i + 3..]), Encoding(input));
  }

  lemma {:induction false} EncodedPad(input: seq<Byte>, i: nat, before: string, after: string, j: nat)
    requires EncodedSoFar(input, i, before, j) && j + |Encoding(input[i..])| <= |before|
    requires after == before[..j] + Encoding(input[i..]) + before[j + |Encoding(input[i..])|..]
    ensures after == Encoding(input)
  {
    assert before[j + |Encoding(input[i..])|..] == [];
  }

  /** hdr_base64_encode, for any input: it refuses an output of any other length than the encoding
      has, and otherwise fills it. */
  method Encode(input: seq<Byte>, output: array<char>) returns (rc: int)
    modifies output
    ensures if output.Length == EncodedLen(|input|) then rc == 0 && output[..] == Encoding(input)
            else rc == EINVAL && output[..] == old(output[..])
  {
    if EncodedLen(|input|) != output.Length {
      return EINVAL;
    }
    EncodingLength(input);
    var i, j: nat := 0, 0;
    assert input[0..] == input;
    while |input| - i >= 3 && j < output.Length
      invariant EncodedSoFar(input, i, output[..], j)
      decreases |input| - i
    {
      ghost var before := output[..];
      EncodingLength(input[i..]);
      EncodeBlock(input, i, output, j);
      EncodedBlock(input, i, before, output[..], j);
      i, j := i + 3, j + 4;
    }
    ghost var before := output[..];
    EncodingLength(input[i..]);
    EncodeBlockPad(input, i, output, j);
    EncodedPad(input, i, before, output[..], j);
    return 0;
  }

  lemma OrBelow(high: nat, low: nat, k: nat, p: nat)
    requires p == Pow2(k) && low < p
    ensures BitOr(high * p, low) == high * p + low
  {
    BitOrDisjoint(low, high, k);
    BitOrCommutes(high * p, low);
  }

  /** Or-ing four digits, each shifted to its own six bits, puts them side by side. */
  lemma OrOfDigits(d0: nat, d1: nat, d2: nat, d3: nat)
    requires d0 < 64 && d1 < 64 && d2 < 64 && d3 < 64
    ensures BitOr(BitOr(BitOr(d0 * 0x4_0000, d1 * 0x1000), d2 * 64), d3) == 64 * (64 * (64 * d0 + d1) + d2) + d3
  {
    PowersOf64();
    OrBelow(d0, d1 * 0x1000, 18, 0x4_0000);
    OrBelow(64 * d0 + d1, d2 * 64, 12, 0x1000);
    OrBelow(64 * (64 * d0 + d1) + d2, d3, 6, 64);
  }

  lemma PowersOf64()
    ensures Pow2(6) == 64 && Pow2(12) == 0x1000 && Pow2(18) == 0x4_0000
  {
    Pow2Add(6, 6);
    Pow2Add(12, 6);
  }

  /** hdr_base64_decode_block */
  method DecodeBlock(input: string, i: nat, output: array<Byte>, j: nat)
    requires i + 4 <= |input| && j + 3 <= output.Length
    modifies output
    ensures output[..] == old(output[..j]) + BytesOf(WordOfDigits(input[i..i + 4])) + old(output[j + 3..])
  {
    var d0, d1 := FromBase64(input[i]), FromBase64(input[i + 1]);
    var d2, d3 := FromBase64(input[i + 2]), FromBase64(input[i + 3]);
    var word := BitOr(BitOr(BitOr(d0 * 0x4_0000, d1 * 0x1000), d2 * 64), d3);
    OrOfDigits(d0, d1, d2, d3);
    assert word == WordOfDigits(input[i..i + 4]);
    var bytes := BytesOf(word);
    output[j], output[j + 1], output[j + 2] := bytes[0], bytes[1], bytes[2];
  }

  /** The first j bytes decode the first i characters. */
  ghost predicate DecodedSoFar(input: string, i: nat, output: seq<Byte>, j: nat) {
    && i <= |input| && j <= |output| == |Decoding(input)|
    && output[..j] + Decoding(input[i..]) == Decoding(input)
  }

  lemma {:induction false} DecodedBlock(input: string, i: nat, before: seq<Byte>, after: seq<Byte>, j: nat)
    requires DecodedSoFar(input, i, before, j) && i + 4 <= |input| && j + 3 <= |before|
    requires after == before[..j] + BytesOf(WordOfDigits(input[i..i + 4])) + before[j + 3..]
    ensures DecodedSoFar(input, i + 4, after, j + 3)
  {
    assert input[i..] == input[i..i + 4] + input[i + 4..];
    DecodingFirst(input[i..i + 4], input[i + 4..]);
    WriteBlock(before, after, j, BytesOf(WordOfDigits(input[i..i + 4])), Decoding(input[i + 4..]), Decoding(input));
  }

  lemma {:induction false} DecodedAll(input: string, output: seq<Byte>, j: nat)
    requires DecodedSoFar(input, |input|, output, j)
    ensures output == Decoding(input)
  {
    assert input[|input|..] == "";
    assert output[..j] + [] == output[..j];
  }

  lemma WholeGroup(n: nat, i: nat)
    requires n % 4 == 0 && i % 4 == 0 && i < n
    ensures i + 4 <= n && (i + 4) % 4 == 0 && DecodedLen(n - i) >= 3
  {
  }

  /** One round of the loop. */
  method DecodeNext(input: string, i: nat, output: array<Byte>, j: nat)
    requires |input| % 4 == 0 && i % 4 == 0 && i < |input| && DecodedSoFar(input, i, output[..], j)
    modifies output
    ensures (i + 4) % 4 == 0 && DecodedSoFar(input, i + 4, output[..], j + 3)
  {
    ghost var before := output[..];
    WholeGroup(|input|, i);
    DecodingLength(input[i..]);
    DecodeBlock(input, i, output, j);
    DecodedBlock(input, i, before, output[..], j);
  }

  /** hdr_base64_decode, for any text: it refuses a text that is not whole groups of four, and an
      output of any other length than the decoding has, and otherwise fills the output. */
  method Decode(input: string, output: array<Byte>) returns (rc: int)
    modifies output
    ensures if |input| >= 4 && |input| % 4 == 0 && output.Length == DecodedLen(|input|)
            then rc == 0 && output[..] == Decoding(input)
            else rc == -EINVAL && output[..] == old(output[..])
  {
    if |input| < 4 || |input| % 4 != 0 || |input| / 4 * 3 != output.Length {
      return -EINVAL;
    }
    DecodeGroups(input, output);
    return 0;
  }

  /** The loop of hdr_base64_decode. */
  method DecodeGroups(input: string, output: array<Byte>)
    requires |input| % 4 == 0 && output.Length == |input| / 4 * 3
    modifies output
    ensures output[..] == Decoding(input)
  {
    DecodingLength(input);
    var i: nat, j: nat := 0, 0;
    assert input[0..] == input;
    while i < |input|
      invariant i % 4 == 0 && DecodedSoFar(input, i, output[..], j)
      decreases |input| - i
    {
      DecodeNext(input, i, output, j);
      i, j := i + 4, j + 3;
    }
    DecodedAll(input, output[..], j);
  }
}
