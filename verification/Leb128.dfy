/** ZigZag LEB128 as in src/hdr_encoding.c: seven bits to a byte, least significant first, except
    that the ninth byte, when there is one, holds eight. */
module Leb128 {
  import opened Bits
  import opened Results

  type Byte = b: int | 0 <= b < 256

  // ---------- ZigZag ----------

  /** (uint64_t) v */
  function Unsigned(v: Int64): nat { v % TWO_TO_64 }

  /** (int64_t) u */
  function Signed(u: nat): int { if u > INT64_MAX then u - TWO_TO_64 else u }

  /** Exclusive or of a 64-bit word with all ones, or with all zeros. */
  function XorMask(u: nat, ones: bool): nat
    requires u < TWO_TO_64
  {
    if ones then TWO_TO_64 - 1 - u else u
  }

  function ZigZag(v: Int64): (z: nat)
    ensures z < TWO_TO_64
  {
    var u := Unsigned(v);
    XorMask(2 * u % TWO_TO_64, u > INT64_MAX)
  }

  function UnZigZag(z: nat): (v: int)
    requires z < TWO_TO_64
    ensures INT64_MIN <= v <= INT64_MAX
  {
    Signed(XorMask(z / 2, z % 2 == 1))
  }

  lemma ZigZagRoundTrip(v: Int64)
    ensures UnZigZag(ZigZag(v)) == v
    ensures ZigZag(v) == if v >= 0 then 2 * v else -2 * v - 1
  {
  }

  // ---------- seven bits to a byte ----------

  /** (uint8_t) (v | 0x80) */
  function Continued(v: nat): Byte {
    v % 128 + 128
  }

  /** What is left for byte k is less than this: a full byte at the ninth place, and seven bits
      more at every place before. */
  function Limit(k: nat): nat
    requires k <= 8
    decreases 8 - k
  {
    if k == 8 then 256 else 128 * Limit(k + 1)
  }

  lemma WordLimit()
    ensures Limit(0) == TWO_TO_64
  {
    assert Limit(4) == 0x10_0000_0000;
  }

  /** The bytes of v from byte k on. */
  function Leb(v: nat, k: nat): seq<Byte>
    requires k <= 8 && v < Limit(k)
    decreases 8 - k
  {
    if k == 8 || v / 128 == 0 then [v] else [Continued(v)] + Leb(v / 128, k + 1)
  }

  /** The value, and the number of bytes read, when byte k is next; None when the bytes run out. */
  function Unleb(bytes: seq<Byte>, k: nat): Option<(nat, nat)>
    requires k <= 8
    decreases 8 - k
  {
    if bytes == [] then None
    else if k == 8 || bytes[0] < 128 then Some((bytes[0], 1))
    else
      match Unleb(bytes[1..], k + 1)
      case None => None
      case Some((v, n)) => Some((bytes[0] - 128 + 128 * v, n + 1))
  }

  lemma {:induction false} LebRoundTrip(v: nat, k: nat, rest: seq<Byte>)
    requires k <= 8 && v < Limit(k)
    ensures 1 <= |Leb(v, k)| <= 9 - k
    ensures Unleb(Leb(v, k) + rest, k) == Some((v, |Leb(v, k)|))
    decreases 8 - k
  {
    if k < 8 && v / 128 != 0 {
      LebRoundTrip(v / 128, k + 1, rest);
      LebStep(v, k, rest);
    }
  }

  lemma {:induction false} LebStep(v: nat, k: nat, rest: seq<Byte>)
    requires k < 8 && v < Limit(k) && v / 128 != 0
    requires Unleb(Leb(v / 128, k + 1) + rest, k + 1) == Some((v / 128, |Leb(v / 128, k + 1)|))
    ensures Unleb(Leb(v, k) + rest, k) == Some((v, |Leb(v, k)|))
  {
    LebFirst(v, k, rest);
    UnlebFirst(Continued(v), Leb(v / 128, k + 1) + rest, k);
  }

  lemma {:induction false} LebFirst(v: nat, k: nat, rest: seq<Byte>)
    requires k < 8 && v < Limit(k) && v / 128 != 0
    ensures |Leb(v, k)| == 1 + |Leb(v / 128, k + 1)|
    ensures Leb(v, k) + rest == [Continued(v)] + (Leb(v / 128, k + 1) + rest)
  {
  }

  lemma {:induction false} UnlebFirst(first: Byte, rest: seq<Byte>, k: nat)
    requires k < 8 && first >= 128
    ensures Unleb([first] + rest, k) ==
      match Unleb(rest, k + 1) case None => None case Some((v, n)) => Some((first - 128 + 128 * v, n + 1))
  {
    assert ([first] + rest)[1..] == rest;
  }

  /** A token has at most nine bytes and a 64-bit value, and nine bytes always hold one. */
  lemma {:induction false} UnlebBounds(bytes: seq<Byte>, k: nat)
    requires k <= 8
    ensures 9 - k <= |bytes| ==> Unleb(bytes, k).Some?
    ensures Unleb(bytes, k).Some? ==>
      1 <= Unleb(bytes, k).value.1 <= |bytes| && Unleb(bytes, k).value.1 <= 9 - k && Unleb(bytes, k).value.0 < Limit(k)
    decreases 8 - k
  {
    LimitPositive(k);
    if bytes != [] && k < 8 && bytes[0] >= 128 {
      UnlebBounds(bytes[1..], k + 1);
    }
  }

  lemma {:induction false} LimitPositive(k: nat)
    requires k <= 8
    ensures Limit(k) >= 256
    decreases 8 - k
  {
    if k < 8 { LimitPositive(k + 1); }
  }

  lemma {:induction false} UnlebMore(bytes: seq<Byte>, k: nat)
    requires bytes != [] && k < 8 && bytes[0] >= 128
    ensures Unleb(bytes, k).Some? <==> Unleb(bytes[1..], k + 1).Some?
    ensures Unleb(bytes, k).Some? ==>
      && Unleb(bytes, k).value.0 == bytes[0] - 128 + 128 * Unleb(bytes[1..], k + 1).value.0
      && Unleb(bytes, k).value.1 == Unleb(bytes[1..], k + 1).value.1 + 1
  {
  }

  /** Reading depends on nothing after the bytes it reads. */
  lemma {:induction false} UnlebPrefix(bytes: seq<Byte>, rest: seq<Byte>, k: nat)
    requires k <= 8
    ensures Unleb(bytes, k).Some? ==> Unleb(bytes + rest, k) == Unleb(bytes, k)
    ensures Unleb(bytes + rest, k).Some? && Unleb(bytes + rest, k).value.1 <= |bytes| ==>
      Unleb(bytes, k) == Unleb(bytes + rest, k)
    decreases 8 - k
  {
    if bytes == [] {
      UnlebBounds(bytes + rest, k);
    } else if k < 8 && bytes[0] >= 128 {
      UnlebPrefix(bytes[1..], rest, k + 1);
      UnlebMore(bytes, k);
      UnlebMore(bytes + rest, k);
      assert (bytes + rest)[1..] == bytes[1..] + rest;
    }
  }

  lemma ShiftSeven(v: nat, i: nat)
    requires i > 0
    ensures v / 128 / Pow2(7 * (i - 1)) == v / Pow2(7 * i)
  {
    assert Pow2(7) == 128;
    Pow2Add(7, 7 * (i - 1));
    DivideTwice(v, 128, Pow2(7 * (i - 1)));
  }

  lemma LebRest(v: nat, k: nat, i: nat)
    requires k <= 8 && v < Limit(k) && 0 < i < |Leb(v, k)|
    ensures k < 8 && v / 128 < Limit(k + 1)
    ensures |Leb(v / 128, k + 1)| == |Leb(v, k)| - 1 && Leb(v, k)[i] == Leb(v / 128, k + 1)[i - 1]
  {
  }

  lemma FirstGroup(v: nat, k: nat)
    requires k <= 8 && v < Limit(k)
    ensures v / Pow2(0) == v && |Leb(v, k)| > 0
    ensures if 1 < |Leb(v, k)| then Leb(v, k)[0] == v % 128 + 128 && v >= 128
            else Leb(v, k)[0] == v && (k < 8 ==> v < 128)
  {
  }

  /** Byte i holds the i-th group of seven bits, the lowest first; all but the last have their top
      bit set, and only as many are written as are needed.  A ninth byte holds all that is left. */
  lemma {:induction false} LebGroups(v: nat, k: nat, i: nat)
    requires k <= 8 && v < Limit(k) && i < |Leb(v, k)|
    ensures var rest := v / Pow2(7 * i);
      if i + 1 < |Leb(v, k)| then Leb(v, k)[i] == rest % 128 + 128 && rest >= 128
      else Leb(v, k)[i] == rest && (k + i < 8 ==> rest < 128)
    decreases i
  {
    if i == 0 {
      FirstGroup(v, k);
    } else {
      LebRest(v, k, i);
      LebGroups(v / 128, k + 1, i - 1);
      ShiftSeven(v, i);
    }
  }

  // ---------- tokens ----------

  /** The bytes of a signed value. */
  function Encoded(v: Int64): seq<Byte> {
    WordLimit();
    Leb(ZigZag(v), 0)
  }

  /** The signed value of the token at the head of bytes, and its length. */
  function Decoded(bytes: seq<Byte>): (r: Option<(Int64, nat)>)
    ensures r.Some? ==> 1 <= r.value.1 <= |bytes| && r.value.1 <= 9
    ensures |bytes| >= 9 ==> r.Some?
  {
    UnlebBounds(bytes, 0);
    match Unleb(bytes, 0)
    case None => None
    case Some((z, n)) => WordLimit(); Some((UnZigZag(z), n))
  }

  /** Decoding an encoded value, whatever follows it, gives the value back and reads exactly its 1
      to 9 bytes. */
  lemma {:induction false} TokenRoundTrip(v: Int64, rest: seq<Byte>)
    ensures 1 <= |Encoded(v)| <= 9
    ensures Decoded(Encoded(v) + rest) == Some((v, |Encoded(v)|))
  {
    WordLimit();
    LebRoundTrip(ZigZag(v), 0, rest);
    ZigZagRoundTrip(v);
  }

  // ---------- the cascades ----------

  /** buffer is before, with bytes written over it from position at on. */
  ghost predicate Overwritten(buffer: seq<Byte>, before: seq<Byte>, at: nat, bytes: seq<Byte>) {
    && at + |bytes| <= |before|
    && buffer == before[..at] + bytes + before[at + |bytes|..]
  }

  lemma {:induction false} OverwriteNext(buffer: seq<Byte>, before: seq<Byte>, at: nat, bytes: seq<Byte>, next: Byte)
    requires Overwritten(buffer, before, at, bytes) && at + |bytes| < |before|
    ensures Overwritten(buffer[at + |bytes| := next], before, at, bytes + [next])
  {
  }

  /** After k bytes of a token have been written, the rest of it is Leb(v, k). */
  ghost predicate Writing(buffer: seq<Byte>, before: seq<Byte>, at: nat, token: seq<Byte>, k: nat, v: nat) {
    && k <= 8 && v < Limit(k) && k <= |token| && at + |token| <= |before|
    && Overwritten(buffer, before, at, token[..k])
    && token == token[..k] + Leb(v, k)
  }

  /** buffer[k] = (uint8_t) (v | 0x80) */
  method PutContinued(buffer: array<Byte>, at: nat, k: nat, v: nat, ghost before: seq<Byte>, ghost token: seq<Byte>)
    requires Writing(buffer[..], before, at, token, k, v) && k < 8 && v / 128 != 0
    modifies buffer
    ensures Writing(buffer[..], before, at, token, k + 1, v / 128)
  {
    OverwriteNext(buffer[..], before, at, token[..k], Continued(v));
    assert token[k] == Continued(v) && token[..k + 1] == token[..k] + [Continued(v)];
    assert token[k + 1..] == Leb(v / 128, k + 1);
    buffer[at + k] := Continued(v);
  }

  /** buffer[k] = (uint8_t) v, for the last byte */
  method PutLast(buffer: array<Byte>, at: nat, k: nat, v: nat, ghost before: seq<Byte>, ghost token: seq<Byte>)
    requires Writing(buffer[..], before, at, token, k, v) && (k == 8 || v / 128 == 0)
    modifies buffer
    ensures Overwritten(buffer[..], before, at, token) && |token| == k + 1
  {
    OverwriteNext(buffer[..], before, at, token[..k], v);
    assert token == token[..k] + [v];
    buffer[at + k] := v;
  }

  /** v >> 7 * k */
  function ShiftedRight(v: nat, k: nat): nat {
    if k == 0 then v else ShiftedRight(v, k - 1) / 128
  }

  /** One level of the cascade: byte k of v is the last one exactly when nothing is left after it. */
  method PutByte(buffer: array<Byte>, at: nat, k: nat, v: nat, ghost before: seq<Byte>, ghost token: seq<Byte>)
    returns (last: bool)
    requires k < 8 && Writing(buffer[..], before, at, token, k, ShiftedRight(v, k))
    modifies buffer
    ensures last ==> Overwritten(buffer[..], before, at, token) && |token| == k + 1
    ensures !last ==> Writing(buffer[..], before, at, token, k + 1, ShiftedRight(v, k + 1))
  {
    if ShiftedRight(v, k + 1) == 0 {
      PutLast(buffer, at, k, ShiftedRight(v, k), before, token);
      return true;
    }
    PutContinued(buffer, at, k, ShiftedRight(v, k), before, token);
    return false;
  }

  /** zig_zag_encode_i64 writes exactly the bytes of the value and returns their number. */
  method ZigZagEncode(buffer: array<Byte>, at: nat, value: Int64) returns (n: nat)
    requires at + |Encoded(value)| <= buffer.Length
    modifies buffer
    ensures n == |Encoded(value)|
    ensures Overwritten(buffer[..], old(buffer[..]), at, Encoded(value))
  {
    WordLimit();
    n := WriteWord(buffer, at, ZigZag(value));
  }

  /** The cascade of zig_zag_encode_i64. */
  method WriteWord(buffer: array<Byte>, at: nat, v: nat) returns (n: nat)
    requires v < Limit(0) && at + |Leb(v, 0)| <= buffer.Length
    modifies buffer
    ensures n == |Leb(v, 0)|
    ensures Overwritten(buffer[..], old(buffer[..]), at, Leb(v, 0))
  {
    ghost var before, token := buffer[..], Leb(v, 0);
    assert Writing(buffer[..], before, at, token, 0, ShiftedRight(v, 0));
    var last := PutByte(buffer, at, 0, v, before, token);
    if last { return 1; }
    last := PutByte(buffer, at, 1, v, before, token);
    if last { return 2; }
    last := PutByte(buffer, at, 2, v, before, token);
    if last { return 3; }
    n := WriteMiddle(buffer, at, v, before, token);
  }

  /** Levels 4 and 5 of the cascade. */
  method WriteMiddle(buffer: array<Byte>, at: nat, v: nat, ghost before: seq<Byte>, ghost token: seq<Byte>)
    returns (n: nat)
    requires Writing(buffer[..], before, at, token, 3, ShiftedRight(v, 3))
    modifies buffer
    ensures n == |token| && Overwritten(buffer[..], before, at, token)
  {
    var last := PutByte(buffer, at, 3, v, before, token);
    if last { return 4; }
    last := PutByte(buffer, at, 4, v, before, token);
    if last { return 5; }
    n := WriteUpper(buffer, at, v, before, token);
  }

  /** Levels 6 and 7 of the cascade. */
  method WriteUpper(buffer: array<Byte>, at: nat, v: nat, ghost before: seq<Byte>, ghost token: seq<Byte>)
    returns (n: nat)
    requires Writing(buffer[..], before, at, token, 5, ShiftedRight(v, 5))
    modifies buffer
    ensures n == |token| && Overwritten(buffer[..], before, at, token)
  {
    var last := PutByte(buffer, at, 5, v, before, token);
    if last { return 6; }
    last := PutByte(buffer, at, 6, v, before, token);
    if last { return 7; }
    n := WriteEnd(buffer, at, v, before, token);
  }

  /** The last two levels of the cascade. */
  method WriteEnd(buffer: array<Byte>, at: nat, v: nat, ghost before: seq<Byte>, ghost token: seq<Byte>)
    returns (n: nat)
    requires Writing(buffer[..], before, at, token, 7, ShiftedRight(v, 7))
    modifies buffer
    ensures n == |token| && Overwritten(buffer[..], before, at, token)
  {
    var last := PutByte(buffer, at, 7, v, before, token);
    if last { return 8; }
    PutLast(buffer, at, 8, ShiftedRight(v, 8), before, token);
    return 9;
  }

  /** b << 7 * k */
  function Placed(b: nat, k: nat): nat {
    if k == 0 then b else 128 * Placed(b, k - 1)
  }

  lemma {:induction false} PlacedIsProduct(b: nat, k: nat)
    ensures Placed(b, k) == b * Pow2(7 * k)
  {
    if k != 0 {
      PlacedIsProduct(b, k - 1);
      assert Pow2(4) == 16;
      Pow2Add(4, 3);
      Pow2Add(7 * (k - 1), 7);
      assert 7 * k == 7 * (k - 1) + 7;
      MulAssoc(b, Pow2(7 * (k - 1)), 128);
    }
  }

  /** Or-ing with a number placed above all bits of value adds it. */
  lemma OrPlaced(value: nat, b: nat, k: nat)
    requires value < Placed(1, k)
    ensures BitOr(value, Placed(b, k)) == value + Placed(b, k)
  {
    PlacedIsProduct(b, k);
    PlacedIsProduct(1, k);
    BitOrDisjoint(value, b, 7 * k);
  }

  lemma {:induction false} PlacedSplits(low: nat, rest: nat, k: nat)
    ensures Placed(low + 128 * rest, k) == Placed(low, k) + Placed(rest, k + 1)
  {
    if k != 0 { PlacedSplits(low, rest, k - 1); }
  }

  lemma {:induction false} PlacedBound(low: nat, k: nat)
    requires low < 128
    ensures Placed(low, k) + Placed(1, k) <= Placed(1, k + 1)
  {
    if k != 0 { PlacedBound(low, k - 1); }
  }

  /** The whole token, from the value of its first k bytes and the token that the others make. */
  function Continuing(value: nat, k: nat, rest: (nat, nat)): (nat, nat) {
    (value + Placed(rest.0, k), k + rest.1)
  }

  /** The first k bytes of a token have been read into value, and the rest of it follows. */
  ghost predicate Reading(bytes: seq<Byte>, at: nat, k: nat, value: nat) {
    && k <= 8 && at + k < |bytes| && value < Placed(1, k)
    && Unleb(bytes[at..], 0).Some? && Unleb(bytes[at + k..], k).Some?
    && Unleb(bytes[at..], 0).value == Continuing(value, k, Unleb(bytes[at + k..], k).value)
  }

  lemma LowSeven(v: Byte)
    requires v >= 128
    ensures v == v % 128 + 128
  {
  }

  /** value |= (v & 0x7F) << 7k, for a byte v that announces another one */
  method ReadMore(bytes: seq<Byte>, at: nat, k: nat, value: nat) returns (value': nat)
    requires Reading(bytes, at, k, value) && k < 8 && bytes[at + k] >= 128
    ensures Reading(bytes, at, k + 1, value')
  {
    var low := bytes[at + k] % 128;
    LowSeven(bytes[at + k]);
    value' := BitOr(value, Placed(low, k));
    OrPlaced(value, low, k);
    MoreToRead(bytes, at, k, value, low);
  }

  lemma {:induction false} MoreToRead(bytes: seq<Byte>, at: nat, k: nat, value: nat, low: nat)
    requires Reading(bytes, at, k, value) && k < 8 && bytes[at + k] == low + 128
    ensures Reading(bytes, at, k + 1, value + Placed(low, k))
  {
    var j := at + k;
    var rest := UnlebOneByte(bytes, j, k, low);
    assert Unleb(bytes[at..], 0).value == Continuing(value, k, (low + 128 * rest.0, rest.1 + 1));
    ContinuingStep(value, low, k, rest);
  }

  lemma {:induction false} UnlebOneByte(bytes: seq<Byte>, j: nat, k: nat, low: nat) returns (rest: (nat, nat))
    requires j < |bytes| && k < 8 && bytes[j] == low + 128 && Unleb(bytes[j..], k).Some?
    ensures j + 1 < |bytes| && Unleb(bytes[j + 1..], k + 1) == Some(rest)
    ensures Unleb(bytes[j..], k) == Some((low + 128 * rest.0, rest.1 + 1))
  {
    assert bytes[j..] == [bytes[j]] + bytes[j + 1..];
    UnlebFirst(bytes[j], bytes[j + 1..], k);
    UnlebBounds(bytes[j + 1..], k + 1);
    rest := Unleb(bytes[j + 1..], k + 1).value;
  }

  lemma ContinuingStep(value: nat, low: nat, k: nat, rest: (nat, nat))
    requires value < Placed(1, k) && low < 128
    ensures value + Placed(low, k) < Placed(1, k + 1)
    ensures Continuing(value, k, (low + 128 * rest.0, rest.1 + 1)) == Continuing(value + Placed(low, k), k + 1, rest)
  {
    PlacedBound(low, k);
    PlacedSplits(low, rest.0, k);
  }

  /** value |= v << 7k, for the last byte v */
  method ReadLast(bytes: seq<Byte>, at: nat, k: nat, value: nat) returns (value': nat)
    requires Reading(bytes, at, k, value) && (k == 8 || bytes[at + k] < 128)
    ensures Unleb(bytes[at..], 0) == Some((value', k + 1))
  {
    var v: Byte := bytes[at + k];
    value' := BitOr(value, Placed(v, k));
    OrPlaced(value, v, k);
    assert bytes[at + k..][0] == v;
    assert Unleb(bytes[at + k..], k) == Some((v, 1));
  }

  /** zig_zag_decode_i64 reads the token at the given position, provided the bytes do not run out
      in the middle of it. */
  method ZigZagDecode(bytes: seq<Byte>, at: nat) returns (n: nat, value: Int64)
    requires at <= |bytes| && Decoded(bytes[at..]).Some?
    ensures Decoded(bytes[at..]) == Some((value, n))
  {
    UnlebBounds(bytes[at..], 0);
    WordLimit();
    assert bytes[at + 0..] == bytes[at..];
    var z;
    z, n := ReadWord(bytes, at);
    value := UnZigZag(z);
  }

  /** The cascade of zig_zag_decode_i64. */
  method ReadWord(bytes: seq<Byte>, at: nat) returns (z: nat, n: nat)
    requires at <= |bytes| && Unleb(bytes[at..], 0).Some?
    ensures Unleb(bytes[at..], 0) == Some((z, n))
  {
    z := 0;
    assert bytes[at + 0..] == bytes[at..];
    if bytes[at + 0] < 128 {
      z := ReadLast(bytes, at, 0, z);
      return z, 1;
    }
    z := ReadMore(bytes, at, 0, z);
    if bytes[at + 1] < 128 {
      z := ReadLast(bytes, at, 1, z);
      return z, 2;
    }
    z := ReadMore(bytes, at, 1, z);
    if bytes[at + 2] < 128 {
      z := ReadLast(bytes, at, 2, z);
      return z, 3;
    }
    z := ReadMore(bytes, at, 2, z);
    if bytes[at + 3] < 128 {
      z := ReadLast(bytes, at, 3, z);
      return z, 4;
    }
    z := ReadMore(bytes, at, 3, z);
    if bytes[at + 4] < 128 {
      z := ReadLast(bytes, at, 4, z);
      return z, 5;
    }
    z := ReadMore(bytes, at, 4, z);
    if bytes[at + 5] < 128 {
      z := ReadLast(bytes, at, 5, z);
      return z, 6;
    }
    z := ReadMore(bytes, at, 5, z);
    if bytes[at + 6] < 128 {
      z := ReadLast(bytes, at, 6, z);
      return z, 7;
    }
    z := ReadMore(bytes, at, 6, z);
    if bytes[at + 7] < 128 {
      z := ReadLast(bytes, at, 7, z);
      return z, 8;
    }
    z := ReadMore(bytes, at, 7, z);
    z := ReadLast(bytes, at, 8, z);
    return z, 9;
  }
}
