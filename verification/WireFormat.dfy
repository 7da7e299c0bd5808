/** The bytes of an encoded histogram: the two packed headers of src/hdr_histogram_log.c with
    their big-endian fields, around the encoded counts.  Compression is the identity. */
module WireFormat {
  import opened Bits
  import opened Leb128
  import opened CountsCodec
  import opened Results
  import opened Sequences

  const V0_COMPRESSION_COOKIE := 0x1c849309
  const V1_COMPRESSION_COOKIE := 0x1c849302
  const V2_ENCODING_COOKIE := 0x1c849303
  const V2_COMPRESSION_COOKIE := 0x1c849304

  // The cookies as written, with the word size in the second lowest digit: V2_... | 0x10
  const WRITTEN_ENCODING_COOKIE := 0x1c849313
  const WRITTEN_COMPRESSION_COOKIE := 0x1c849314

  const TWO_TO_32 := 0x1_0000_0000

  /** get_cookie_base: cookie & ~0xf0 */
  function CookieBase(cookie: nat): nat {
    cookie - 16 * (cookie / 16 % 16)
  }

  // ---------- big-endian words ----------

  /** The number of values of n bytes. */
  function Range(n: nat): (r: nat)
    ensures r >= 1
  {
    if n == 0 then 1 else 256 * Range(n - 1)
  }

  function BigEndian(v: nat, n: nat): (bytes: seq<Byte>)
    ensures |bytes| == n
  {
    if n == 0 then [] else BigEndian(v / 256, n - 1) + [v % 256]
  }

  function FromBigEndian(bytes: seq<Byte>): nat {
    if bytes == [] then 0 else 256 * FromBigEndian(bytes[..|bytes| - 1]) + bytes[|bytes| - 1]
  }

  lemma {:induction false} BigEndianRoundTrip(v: nat, n: nat)
    requires v < Range(n)
    ensures FromBigEndian(BigEndian(v, n)) == v
  {
    if n != 0 {
      BigEndianRoundTrip(v / 256, n - 1);
      assert BigEndian(v, n)[..n - 1] == BigEndian(v / 256, n - 1);
    }
  }

  /** The word of n bytes at the head of bytes. */
  function Word(bytes: seq<Byte>, n: nat): nat
    requires n <= |bytes|
  {
    FromBigEndian(bytes[..n])
  }

  lemma {:induction false} WordFirst(v: nat, n: nat, rest: seq<Byte>)
    requires v < Range(n)
    ensures Word(BigEndian(v, n) + rest, n) == v && (BigEndian(v, n) + rest)[n..] == rest
  {
    BigEndianRoundTrip(v, n);
    assert (BigEndian(v, n) + rest)[..n] == BigEndian(v, n);
  }

  lemma Ranges()
    ensures Range(4) == TWO_TO_32 && Range(8) == TWO_TO_64
  {
  }

  /** (uint32_t) v, (int32_t) u */
  function Unsigned32(v: int): nat { v % TWO_TO_32 }
  function Signed32(u: nat): int { if u > INT32_MAX then u - TWO_TO_32 else u }

  // ---------- messages ----------

  /** What an encoded histogram holds.  The conversion ratio is kept as the bits it is sent in. */
  datatype Message = Message(lowest: Int64, highest: Int64, figures: int, offset: int,
                             ratioBits: nat, payload: seq<Byte>)
  {
    predicate Fits() {
      && INT32_MIN <= figures <= INT32_MAX && INT32_MIN <= offset <= INT32_MAX
      && ratioBits < TWO_TO_64 && 40 + |payload| <= INT32_MAX
    }
  }

  /** The fields of encoding_flyweight_v1_t from the offset on. */
  function Parameters(m: Message): seq<Byte> {
    BigEndian(Unsigned32(m.offset), 4) + (BigEndian(Unsigned32(m.figures), 4)
    + (BigEndian(Unsigned(m.lowest), 8) + (BigEndian(Unsigned(m.highest), 8)
    + (BigEndian(m.ratioBits, 8) + m.payload))))
  }

  /** encoding_flyweight_v1_t */
  function Flyweight(m: Message): seq<Byte> {
    BigEndian(WRITTEN_ENCODING_COOKIE, 4) + (BigEndian(|m.payload|, 4) + Parameters(m))
  }

  /** The whole of what hdr_encode_compressed returns. */
  function Packed(m: Message): seq<Byte> {
    BigEndian(WRITTEN_COMPRESSION_COOKIE, 4) + (BigEndian(40 + |m.payload|, 4) + Flyweight(m))
  }

  // ---------- the layout ----------

  /** Byte j of a word of n bytes is its j-th digit to the base 256, the highest first. */
  lemma {:induction false} BigEndianDigits(v: nat, n: nat, j: nat)
    requires j < n
    ensures BigEndian(v, n)[j] == v / Range(n - 1 - j) % 256
  {
    if j < n - 1 {
      BigEndianDigits(v / 256, n - 1, j);
      DivideTwice(v, 256, Range(n - 2 - j));
    }
  }

  lemma Cookies()
    ensures BigEndian(WRITTEN_COMPRESSION_COOKIE, 4) == [0x1c, 0x84, 0x93, 0x14]
    ensures BigEndian(WRITTEN_ENCODING_COOKIE, 4) == [0x1c, 0x84, 0x93, 0x13]
  {
    assert BigEndian(0x1c, 1) == [] + [0x1c];
    assert BigEndian(0x1c84, 2) == [0x1c] + [0x84];
    assert BigEndian(0x1c8493, 3) == [0x1c, 0x84] + [0x93];
  }

  lemma {:induction false} FieldFirst(a: seq<Byte>, b: seq<Byte>, n: nat)
    requires |a| == n
    ensures (a + b)[..n] == a && (a + b)[n..] == b
  {
  }

  lemma ParametersLayout(m: Message)
    ensures var b := Parameters(m);
      && |b| == 32 + |m.payload|
      && b[..4] == BigEndian(Unsigned32(m.offset), 4) && b[4..][..4] == BigEndian(Unsigned32(m.figures), 4)
      && b[4..][4..][..8] == BigEndian(Unsigned(m.lowest), 8)
      && b[4..][4..][8..][..8] == BigEndian(Unsigned(m.highest), 8)
      && b[4..][4..][8..][8..][..8] == BigEndian(m.ratioBits, 8) && b[4..][4..][8..][8..][8..] == m.payload
  {
    var ratio := BigEndian(m.ratioBits, 8) + m.payload;
    var highest := BigEndian(Unsigned(m.highest), 8) + ratio;
    var lowest := BigEndian(Unsigned(m.lowest), 8) + highest;
    var figures := BigEndian(Unsigned32(m.figures), 4) + lowest;
    FieldFirst(BigEndian(m.ratioBits, 8), m.payload, 8);
    FieldFirst(BigEndian(Unsigned(m.highest), 8), ratio, 8);
    FieldFirst(BigEndian(Unsigned(m.lowest), 8), highest, 8);
    FieldFirst(BigEndian(Unsigned32(m.figures), 4), lowest, 4);
    FieldFirst(BigEndian(Unsigned32(m.offset), 4), figures, 4);
  }

  /** Where the fields of an encoded histogram stand, in the order and with the widths of the two
      headers. */
  lemma Layout(m: Message)
    ensures var b := Packed(m);
      && |b| == 48 + |m.payload|
      && b[..4] == [0x1c, 0x84, 0x93, 0x14] && b[4..8] == BigEndian(40 + |m.payload|, 4)
      && b[8..12] == [0x1c, 0x84, 0x93, 0x13] && b[12..16] == BigEndian(|m.payload|, 4)
      && b[16..20] == BigEndian(Unsigned32(m.offset), 4) && b[20..24] == BigEndian(Unsigned32(m.figures), 4)
      && b[24..32] == BigEndian(Unsigned(m.lowest), 8) && b[32..40] == BigEndian(Unsigned(m.highest), 8)
      && b[40..48] == BigEndian(m.ratioBits, 8) && b[48..] == m.payload
  {
    Cookies();
    ParametersLayout(m);
    var b := Packed(m);
    HeadersLayout(m);
    assert b[16..][4..] == b[20..] && b[20..][4..] == b[24..] && b[24..][8..] == b[32..];
    assert b[32..][8..] == b[40..] && b[40..][8..] == b[48..];
    Front(b, 16, 4);
    Front(b, 20, 4);
    Front(b, 24, 8);
    Front(b, 32, 8);
    Front(b, 40, 8);
  }

  lemma HeadersLayout(m: Message)
    ensures var b := Packed(m);
      && |b| == 16 + |Parameters(m)|
      && b[..4] == BigEndian(WRITTEN_COMPRESSION_COOKIE, 4) && b[4..8] == BigEndian(40 + |m.payload|, 4)
      && b[8..12] == BigEndian(WRITTEN_ENCODING_COOKIE, 4) && b[12..16] == BigEndian(|m.payload|, 4)
      && b[16..] == Parameters(m)
  {
    var flyweight := Flyweight(m);
    FieldFirst(BigEndian(|m.payload|, 4), Parameters(m), 4);
    FieldFirst(BigEndian(WRITTEN_ENCODING_COOKIE, 4), BigEndian(|m.payload|, 4) + Parameters(m), 4);
    FieldFirst(BigEndian(40 + |m.payload|, 4), flyweight, 4);
    FieldFirst(BigEndian(WRITTEN_COMPRESSION_COOKIE, 4), BigEndian(40 + |m.payload|, 4) + flyweight, 4);
    var b := Packed(m);
    assert b[4..][4..] == b[8..] && b[8..][4..] == b[12..] && b[12..][4..] == b[16..];
    Front(b, 4, 4);
    Front(b, 8, 4);
    Front(b, 12, 4);
  }

  lemma {:induction false} Front(bytes: seq<Byte>, k: nat, n: nat)
    requires k + n <= |bytes|
    ensures bytes[k..][..n] == bytes[k..k + n]
  {
  }

  // ---------- reading the headers ----------

  /** What the headers say: a message, whose payload is all that follows them, and the length they
      declare for it; or an error; or a message of an older format. */
  datatype Unpacking = Unpacked(message: Message, declared: int) | Rejected(error: int) | OlderFormat

  /** The header checks of hdr_decode_compressed and hdr_decode_compressed_v2 up to the
      configuration. */
  function Unpack(bytes: seq<Byte>): Unpacking {
    if |bytes| < 8 then Rejected(EINVAL)
    else
      var cookie := CookieBase(Word(bytes, 4));
      if cookie == V0_COMPRESSION_COOKIE || cookie == V1_COMPRESSION_COOKIE then OlderFormat
      else if cookie != V2_COMPRESSION_COOKIE then Rejected(HDR_COMPRESSION_COOKIE_MISMATCH)
      else UnpackStream(Signed32(Word(bytes[4..], 4)), bytes[4..][4..])
  }

  /** The compressed stream, of the given length. */
  function UnpackStream(length: int, data: seq<Byte>): Unpacking {
    if length < 0 || |data| < length then Rejected(EINVAL) else UnpackFlyweight(data[..length])
  }

  function UnpackFlyweight(stream: seq<Byte>): Unpacking {
    if |stream| < 40 then Rejected(HDR_INFLATE_FAIL)
    else if CookieBase(Word(stream, 4)) != V2_ENCODING_COOKIE then Rejected(HDR_ENCODING_COOKIE_MISMATCH)
    else Unpacked(UnpackParameters(stream[4..][4..]), Signed32(Word(stream[4..], 4)))
  }

  function UnpackParameters(b: seq<Byte>): Message
    requires |b| >= 32
  {
    var b1 := b[4..];
    var b2 := b1[4..];
    var b3 := b2[8..];
    var b4 := b3[8..];
    Message(Int64Word(b2), Int64Word(b3), Signed32(Word(b1, 4)), Signed32(Word(b, 4)), Word(b4, 8), b4[8..])
  }

  /** Where the fields are read, in any bytes that are not rejected: at the places where they are
      written, and the payload up to the length of the stream. */
  lemma {:induction false} UnpackLayout(bytes: seq<Byte>)
    requires Unpack(bytes).Unpacked?
    ensures var length := Signed32(Word(bytes[4..8], 4));
      && 40 <= length <= |bytes| - 8
      && Unpack(bytes) == Unpacked(
           Message(Int64Word(bytes[24..32]), Int64Word(bytes[32..40]), Signed32(Word(bytes[20..24], 4)),
                   Signed32(Word(bytes[16..20], 4)), Word(bytes[40..48], 8), bytes[48..8 + length]),
           Signed32(Word(bytes[12..16], 4)))
  {
    var length := Signed32(Word(bytes[4..], 4));
    assert bytes[4..][..4] == bytes[4..8][..4];
    var stream := bytes[4..][4..][..length];
    assert stream == bytes[8..8 + length];
    StreamLayout(bytes, stream, length);
  }

  lemma {:induction false} StreamLayout(bytes: seq<Byte>, stream: seq<Byte>, length: nat)
    requires 40 <= length <= |bytes| - 8 && stream == bytes[8..8 + length]
    ensures Signed32(Word(stream[4..], 4)) == Signed32(Word(bytes[12..16], 4))
    ensures UnpackParameters(stream[4..][4..])
         == Message(Int64Word(bytes[24..32]), Int64Word(bytes[32..40]), Signed32(Word(bytes[20..24], 4)),
                    Signed32(Word(bytes[16..20], 4)), Word(bytes[40..48], 8), bytes[48..8 + length])
  {
    var end := 8 + length;
    var b := stream[4..][4..];
    assert stream[4..] == bytes[12..end] && b == bytes[16..end];
    assert b[4..] == bytes[20..end] && b[4..][4..] == bytes[24..end];
    assert b[4..][4..][8..] == bytes[32..end] && b[4..][4..][8..][8..] == bytes[40..end];
    assert b[4..][4..][8..][8..][8..] == bytes[48..end];
    Head(bytes, 12, end, 4);
    Head(bytes, 16, end, 4);
    Head(bytes, 20, end, 4);
    Head(bytes, 24, end, 8);
    Head(bytes, 32, end, 8);
    Head(bytes, 40, end, 8);
  }

  lemma {:induction false} Head(bytes: seq<Byte>, k: nat, end: nat, n: nat)
    requires k + n <= end <= |bytes|
    ensures bytes[k..end][..n] == bytes[k..k + n][..n] == bytes[k..k + n]
  {
  }

  function Int64Word(bytes: seq<Byte>): Int64
    requires |bytes| >= 8
  {
    FromBigEndianBound(bytes[..8]);
    Ranges();
    Signed(Word(bytes, 8))
  }

  lemma {:induction false} FromBigEndianBound(bytes: seq<Byte>)
    ensures FromBigEndian(bytes) < Range(|bytes|)
  {
    if bytes != [] { FromBigEndianBound(bytes[..|bytes| - 1]); }
  }

  /** Declared lengths are int32, and the payload is no longer than a stream can be. */
  lemma {:induction false} UnpackBounds(bytes: seq<Byte>)
    ensures Unpack(bytes).Unpacked? ==>
      INT32_MIN <= Unpack(bytes).declared <= INT32_MAX && |Unpack(bytes).message.payload| <= INT32_MAX - 40
  {
    if Unpack(bytes).Unpacked? {
      var data := bytes[4..][4..];
      WordInt32(bytes[4..]);
      StreamBounds(Signed32(Word(bytes[4..], 4)), data);
    }
  }

  lemma {:induction false} WordInt32(bytes: seq<Byte>)
    requires |bytes| >= 4
    ensures INT32_MIN <= Signed32(Word(bytes, 4)) <= INT32_MAX
  {
    FromBigEndianBound(bytes[..4]);
    Ranges();
  }

  lemma {:induction false} StreamBounds(length: int, data: seq<Byte>)
    requires length <= INT32_MAX && UnpackStream(length, data).Unpacked?
    ensures var u := UnpackStream(length, data);
      INT32_MIN <= u.declared <= INT32_MAX && |u.message.payload| <= INT32_MAX - 40
  {
    WordInt32(data[..length][4..]);
  }

  // ---------- the buffer for the payload ----------

  /** (size_t) counts_limit + 9, in 64 bits */
  function BufferSize(declared: int): nat {
    (declared + 9) % TWO_TO_64
  }

  /** Whether an object of that size can be allocated: none is larger than PTRDIFF_MAX. */
  predicate Allocated(declared: int) {
    BufferSize(declared) <= INT64_MAX
  }

  /** avail_out = (uInt) counts_limit */
  function AvailOut(declared: int): nat {
    declared % TWO_TO_32
  }

  /** What inflate writes into the buffer: all that follows the flyweight, as far as avail_out says
      that there is room. */
  function Inflated(declared: int, rest: seq<Byte>): seq<Byte> {
    if |rest| <= AvailOut(declared) then rest else rest[..AvailOut(declared)]
  }

  /** Nothing is written past the end of the buffer. */
  predicate InBounds(declared: int, rest: seq<Byte>) {
    Allocated(declared) ==> |Inflated(declared, rest)| <= BufferSize(declared)
  }

  /** The declared lengths from -9 to -1 get a buffer of 0 to 8 bytes, but are taken for room of
      nearly 2^32.  These are the ones that can be written past their end. */
  lemma {:induction false} InBoundsIff(declared: int, rest: seq<Byte>)
    requires INT32_MIN <= declared <= INT32_MAX && |rest| <= INT32_MAX
    ensures InBounds(declared, rest) <==> declared >= 0 || declared <= -10 || |rest| <= declared + 9
  {
    BufferOf(declared);
  }

  lemma BufferOf(declared: int)
    requires INT32_MIN <= declared <= INT32_MAX
    ensures Allocated(declared) <==> declared >= -9
    ensures declared >= -9 ==> BufferSize(declared) == declared + 9
    ensures AvailOut(declared) == if declared >= 0 then declared else declared + TWO_TO_32
  {
  }

  /** The payload as it is then read, filled up with zeros to the declared length. */
  function Payload(declared: nat, rest: seq<Byte>): seq<Byte>
    requires |rest| <= declared
  {
    var missing: nat := declared - |rest|;
    rest + seq(missing, _ => 0)
  }

  lemma {:induction false} ParseZeros(n: nat)
    ensures Parse(seq(n, _ => 0)) == Some(seq(n, _ => 0))
  {
    if n > 0 {
      assert seq(n, _ => 0)[1..] == seq(n - 1, _ => 0);
      assert [0] + seq(n - 1, _ => 0) == seq(n, _ => 0);
      ParseZeros(n - 1);
    }
  }

  /** A payload that is shorter than declared is read as if each byte missing were the token of one
      more empty slot. */
  lemma {:induction false} MissingBytes(declared: nat, rest: seq<Byte>, tokens: seq<Int64>)
    requires |rest| <= declared && Parse(rest) == Some(tokens)
    ensures Parse(Payload(declared, rest)) == Some(tokens + seq(declared - |rest|, _ => 0))
  {
    ParseZeros(declared - |rest|);
    ParseSplit(rest, seq(declared - |rest|, _ => 0));
  }

  /** The whole buffer, with nine more bytes. */
  function Buffered(declared: int, rest: seq<Byte>): seq<Byte>
    requires |rest| <= declared + 9
  {
    var missing: nat := declared + 9 - |rest|;
    rest + seq(missing, _ => 0)
  }

  // ---------- the bytes of the headers ----------

  /** A cookie in its big-endian bytes: the second lowest digit, which holds the word size, may be
      anything, and the lowest one tells the version and the header. */
  predicate IsCookie(bytes: seq<Byte>, digit: nat) {
    |bytes| >= 4 && bytes[0] == 0x1c && bytes[1] == 0x84 && bytes[2] == 0x93 && bytes[3] % 16 == digit
  }

  /** A length in its bytes, when it is not negative. */
  function LengthOf(bytes: seq<Byte>): nat
    requires |bytes| >= 4
  {
    var b0: nat, b1: nat, b2: nat, b3: nat := bytes[0], bytes[1], bytes[2], bytes[3];
    0x100_0000 * b0 + 0x1_0000 * b1 + 0x100 * b2 + b3
  }

  /** Which bytes give which error: too few of them, an unknown cookie, a length that is negative or
      too large, a stream shorter than the flyweight, and another cookie in the flyweight. */
  function HeaderFault(bytes: seq<Byte>): Option<int> {
    if |bytes| < 8 then Some(EINVAL)
    else if IsCookie(bytes, 9) || IsCookie(bytes, 2) then None
    else if !IsCookie(bytes, 4) then Some(HDR_COMPRESSION_COOKIE_MISMATCH)
    else if bytes[4] >= 128 || |bytes| - 8 < LengthOf(bytes[4..]) then Some(EINVAL)
    else if LengthOf(bytes[4..]) < 40 then Some(HDR_INFLATE_FAIL)
    else if !IsCookie(bytes[8..], 3) then Some(HDR_ENCODING_COOKIE_MISMATCH)
    else None
  }

  lemma {:induction false} WordOfFour(bytes: seq<Byte>)
    requires |bytes| >= 4
    ensures Word(bytes, 4) == LengthOf(bytes)
  {
    var b := bytes[..4];
    assert b[..3][..2] == b[..2] && b[..2][..1] == b[..1] && b[..1][..0] == [];
    var b0: nat, b1: nat, b2: nat := bytes[0], bytes[1], bytes[2];
    assert FromBigEndian(b[..1]) == b0;
    assert FromBigEndian(b[..2]) == 256 * b0 + b1;
    assert FromBigEndian(b[..3]) == 256 * (256 * b0 + b1) + b2;
  }

  lemma {:induction false} CookieBytes(bytes: seq<Byte>, digit: nat)
    requires |bytes| >= 4 && digit < 16
    ensures CookieBase(Word(bytes, 4)) == 0x1c849300 + digit <==> IsCookie(bytes, digit)
  {
    WordOfFour(bytes);
    BaseOfBytes(bytes[0], bytes[1], bytes[2], bytes[3], digit);
  }

  lemma BaseOfBytes(b0: nat, b1: nat, b2: nat, b3: nat, digit: nat)
    requires b0 < 256 && b1 < 256 && b2 < 256 && b3 < 256 && digit < 16
    ensures CookieBase(0x100_0000 * b0 + 0x1_0000 * b1 + 0x100 * b2 + b3) == 0x1c849300 + digit
      <==> b0 == 0x1c && b1 == 0x84 && b2 == 0x93 && b3 % 16 == digit
  {
    var high := 0x1_0000 * b0 + 0x100 * b1 + b2;
    BaseOfDigits(high, b3);
    HighBytes(b0, b1, b2);
  }

  lemma BaseOfDigits(high: nat, low: nat)
    requires low < 256
    ensures CookieBase(0x100 * high + low) == 0x100 * high + low % 16
  {
    Sixteenth(16 * high + low / 16, low % 16);
    Sixteenth(high, low / 16);
    assert low == 16 * (low / 16) + low % 16;
  }

  lemma Sixteenth(high: nat, low: nat)
    requires low < 16
    ensures (16 * high + low) / 16 == high && (16 * high + low) % 16 == low
  {
  }

  lemma HighBytes(b0: nat, b1: nat, b2: nat)
    requires b0 < 256 && b1 < 256 && b2 < 256
    ensures 0x1_0000 * b0 + 0x100 * b1 + b2 == 0x1c8493 <==> b0 == 0x1c && b1 == 0x84 && b2 == 0x93
  {
  }

  /** The header checks reject exactly these bytes, with these errors. */
  lemma {:induction false} RejectedIff(bytes: seq<Byte>)
    ensures match HeaderFault(bytes)
      case Some(error) => Unpack(bytes) == Rejected(error)
      case None => !Unpack(bytes).Rejected?
    ensures Unpack(bytes).OlderFormat? <==> |bytes| >= 8 && (IsCookie(bytes, 9) || IsCookie(bytes, 2))
  {
    if |bytes| >= 8 {
      CookieBytes(bytes, 9);
      CookieBytes(bytes, 2);
      CookieBytes(bytes, 4);
      WordOfFour(bytes[4..]);
      assert bytes[4..][4..] == bytes[8..];
      var length := LengthOf(bytes[4..]);
      if 40 <= length <= |bytes| - 8 {
        CookieBytes(bytes[8..][..length], 3);
      }
    }
  }

  // ---------- unpacking undoes packing ----------

  lemma CookiesMatch()
    ensures CookieBase(WRITTEN_ENCODING_COOKIE) == V2_ENCODING_COOKIE
    ensures CookieBase(WRITTEN_COMPRESSION_COOKIE) == V2_COMPRESSION_COOKIE
  {
  }

  lemma Signed32RoundTrip(v: int)
    requires INT32_MIN <= v <= INT32_MAX
    ensures Unsigned32(v) < Range(4) && Signed32(Unsigned32(v)) == v
  {
  }

  lemma SignedRoundTrip(v: Int64)
    ensures Unsigned(v) < Range(8) && Signed(Unsigned(v)) == v
  {
    Ranges();
  }

  lemma ParametersRoundTrip(m: Message)
    requires m.Fits()
    ensures |Parameters(m)| == 32 + |m.payload|
    ensures UnpackParameters(Parameters(m)) == m
  {
    Ranges();
    Signed32RoundTrip(m.offset);
    Signed32RoundTrip(m.figures);
    SignedRoundTrip(m.lowest);
    SignedRoundTrip(m.highest);
    var b4 := BigEndian(m.ratioBits, 8) + m.payload;
    var b3 := BigEndian(Unsigned(m.highest), 8) + b4;
    var b2 := BigEndian(Unsigned(m.lowest), 8) + b3;
    var b1 := BigEndian(Unsigned32(m.figures), 4) + b2;
    WordFirst(m.ratioBits, 8, m.payload);
    WordFirst(Unsigned(m.highest), 8, b4);
    WordFirst(Unsigned(m.lowest), 8, b3);
    WordFirst(Unsigned32(m.figures), 4, b2);
    WordFirst(Unsigned32(m.offset), 4, b1);
  }

  lemma FlyweightRoundTrip(m: Message)
    requires m.Fits()
    ensures |Flyweight(m)| == 40 + |m.payload|
    ensures UnpackFlyweight(Flyweight(m)) == Unpacked(m, |m.payload|)
  {
    Ranges();
    CookiesMatch();
    ParametersRoundTrip(m);
    Signed32RoundTrip(|m.payload|);
    WordFirst(|m.payload|, 4, Parameters(m));
    WordFirst(WRITTEN_ENCODING_COOKIE, 4, BigEndian(|m.payload|, 4) + Parameters(m));
  }

  lemma {:induction false} StreamRoundTrip(m: Message, after: seq<Byte>)
    requires m.Fits()
    ensures UnpackStream(40 + |m.payload|, Flyweight(m) + after) == Unpacked(m, |m.payload|)
  {
    FlyweightRoundTrip(m);
    assert (Flyweight(m) + after)[..40 + |m.payload|] == Flyweight(m);
  }

  lemma {:induction false} PackedFollowed(m: Message, after: seq<Byte>)
    ensures Packed(m) + after ==
      BigEndian(WRITTEN_COMPRESSION_COOKIE, 4) + (BigEndian(40 + |m.payload|, 4) + (Flyweight(m) + after))
  {
    var cookie, length := BigEndian(WRITTEN_COMPRESSION_COOKIE, 4), BigEndian(40 + |m.payload|, 4);
    Assoc(cookie, length + Flyweight(m), after);
    Assoc(length, Flyweight(m), after);
  }

  /** A packed message unpacks to itself, whatever bytes follow it. */
  lemma {:induction false} PackedRoundTrip(m: Message, after: seq<Byte>)
    requires m.Fits()
    ensures Unpack(Packed(m) + after) == Unpacked(m, |m.payload|)
  {
    Ranges();
    CookiesMatch();
    var length := 40 + |m.payload|;
    Signed32RoundTrip(length);
    var data := Flyweight(m) + after;
    StreamRoundTrip(m, after);
    PackedFollowed(m, after);
    WordFirst(length, 4, data);
    WordFirst(WRITTEN_COMPRESSION_COOKIE, 4, BigEndian(length, 4) + data);
  }

  // ---------- messages that declare another length ----------

  /** encoding_flyweight_v1_t with any payload_len. */
  function FlyweightDeclaring(m: Message, declared: int): seq<Byte> {
    BigEndian(WRITTEN_ENCODING_COOKIE, 4) + (BigEndian(Unsigned32(declared), 4) + Parameters(m))
  }

  /** What hdr_encode_compressed returns, but for the payload_len. */
  function PackedDeclaring(m: Message, declared: int): seq<Byte> {
    BigEndian(WRITTEN_COMPRESSION_COOKIE, 4) + (BigEndian(40 + |m.payload|, 4) + FlyweightDeclaring(m, declared))
  }

  lemma FlyweightDeclares(m: Message, declared: int)
    requires m.Fits() && INT32_MIN <= declared <= INT32_MAX
    ensures |FlyweightDeclaring(m, declared)| == 40 + |m.payload|
    ensures UnpackFlyweight(FlyweightDeclaring(m, declared)) == Unpacked(m, declared)
  {
    Ranges();
    CookiesMatch();
    ParametersRoundTrip(m);
    Signed32RoundTrip(declared);
    var length := BigEndian(Unsigned32(declared), 4);
    WordFirst(Unsigned32(declared), 4, Parameters(m));
    WordFirst(WRITTEN_ENCODING_COOKIE, 4, length + Parameters(m));
  }

  lemma StreamDeclares(m: Message, declared: int)
    requires m.Fits() && INT32_MIN <= declared <= INT32_MAX
    ensures UnpackStream(40 + |m.payload|, FlyweightDeclaring(m, declared)) == Unpacked(m, declared)
  {
    FlyweightDeclares(m, declared);
    var stream := FlyweightDeclaring(m, declared);
    assert stream[..40 + |m.payload|] == stream;
  }

  /** The headers take any declared length for what it is. */
  lemma PackedDeclares(m: Message, declared: int)
    requires m.Fits() && INT32_MIN <= declared <= INT32_MAX
    ensures Unpack(PackedDeclaring(m, declared)) == Unpacked(m, declared)
  {
    Ranges();
    CookiesMatch();
    var length := 40 + |m.payload|;
    Signed32RoundTrip(length);
    StreamDeclares(m, declared);
    WordFirst(length, 4, FlyweightDeclaring(m, declared));
    WordFirst(WRITTEN_COMPRESSION_COOKIE, 4, BigEndian(length, 4) + FlyweightDeclaring(m, declared));
  }
}
