/** hdr_encode_compressed and the version 2 branch of hdr_decode_compressed: encoding writes only
    the slots up to that of the greatest value and none of the counters, and decoding recomputes
    the counters from the slots, yet what the histogram shows comes back, and the exact conditions
    under which its extremes do not are known. */
module HistogramCodec {
  import opened Bits
  import opened Leb128
  import opened BucketMath
  import opened BucketConfig
  import opened Recording
  import opened Histograms
  import opened CountsCodec
  import opened WireFormat
  import opened Results
  import opened Adding

  // ---------- encoding ----------

  /** counts_limit: one past the slot of the greatest value, within the slots there are. */
  function CountsLimit(c: Config, max: nat): nat {
    var lenToMax := CountsIndexFor(c, max) + 1;
    if lenToMax < c.countsLen then lenToMax else c.countsLen
  }

  ghost predicate FitsInt64(counts: seq<int>) {
    forall i | 0 <= i < |counts| :: INT64_MIN <= counts[i] <= INT64_MAX
  }

  /** There are less than 2^23 slots in any configuration. */
  lemma FewSlots(c: Config)
    requires c.Valid()
    ensures c.countsLen <= 0x80_0000
  {
    MagnitudeTable(c.figures);
    FewBuckets(c);
    assert Pow2(4) == 16;
    Pow2Add(4, 3);
    Pow2Add(7, 3);
    Pow2Add(10, 4);
    Pow2Add(14, 3);
    MulMonotone(c.bucketCount + 1, 64, c.HalfCount());
  }

  lemma FewBuckets(c: Config)
    requires c.Valid()
    ensures c.bucketCount <= 63
  {
    if c.bucketCount > 63 {
      Pow2At62();
      Pow2Increasing(62, c.unitMagnitude + c.halfMagnitude + c.bucketCount - 1);
    }
  }

  /** What the encoding of a histogram holds. */
  ghost function MessageOf(c: Config, s: State, ratioBits: nat): Message
    requires c.Valid() && |s.counts| == c.countsLen && s.max >= 0 && FitsInt64(s.counts)
  {
    FewSlots(c);
    Message(c.lowest, c.highest, c.figures, 0, ratioBits, Bytes(Runs(s.counts[..CountsLimit(c, s.max)])))
  }

  /** The lengths and fields of a message are within their ranges. */
  lemma MessageFits(c: Config, s: State, ratioBits: nat)
    requires c.Valid() && |s.counts| == c.countsLen && s.max >= 0 && FitsInt64(s.counts)
    requires ratioBits < TWO_TO_64
    ensures MessageOf(c, s, ratioBits).Fits()
  {
    FewSlots(c);
    NineBytesPerSlot(s.counts[..CountsLimit(c, s.max)]);
  }

  /** hdr_encode_compressed */
  method EncodeCompressed(h: Histogram, ratioBits: nat) returns (bytes: seq<Byte>)
    requires h.Valid() && h.maxValue >= 0 && FitsInt64(h.counts[..])
    ensures bytes == Packed(MessageOf(h.cfg, h.State(), ratioBits))
  {
    FewSlots(h.cfg);
    var limit := CountsLimit(h.cfg, h.maxValue);
    var buffer := new Byte[9 * limit](_ => 0);
    var dataIndex := EncodeCounts(h.counts[..limit], buffer, 0);
    assert buffer[..dataIndex] == Bytes(Runs(h.counts[..limit]));
    bytes := Packed(Message(h.cfg.lowest, h.cfg.highest, h.cfg.figures, 0, ratioBits, buffer[..dataIndex]));
  }

  // ---------- decoding ----------

  /** A new histogram with the fields that class Histogram does not have; an error; a message of an
      older format; or bytes written past the end of a buffer, after which C promises nothing. */
  datatype Decoding = Decoded(h: Histogram, offset: int, ratioBits: nat) | Refused(error: int) | Older | Overrun

  ghost predicate IsConfigOf(c: Config, m: Message) {
    c.Valid() && c.lowest == m.lowest && c.highest == m.highest && c.figures == m.figures
  }

  /** hdr_init accepts the parameters. */
  ghost predicate Configured(m: Message) {
    exists c :: IsConfigOf(c, m)
  }

  /** The message has a configuration that hdr_init accepts, and its payload is whole tokens whose
      expansion fits the slots. */
  ghost predicate Decodable(m: Message, declared: int, c: Config, tokens: seq<Int64>) {
    && IsConfigOf(c, m)
    && |m.payload| <= declared
    && Parse(Payload(declared, m.payload)) == Some(tokens) && |Expand(tokens)| <= c.countsLen
  }

  /** Why a message is refused: its configuration, its length, what follows, or its payload. */
  ghost predicate RefusedWith(m: Message, declared: int, error: int) {
    if !Configured(m) then error == EINVAL
    else if declared <= -10 then error == ENOMEM
    else if declared < 0 then error == HDR_VALUE_TRUNCATED
    else if |m.payload| > declared then error == HDR_INFLATE_FAIL
    else
      error != 0 && exists c, at, ts ::
        IsConfigOf(c, m) && Stopped(error, Buffered(declared, m.payload), declared, c.countsLen, at, ts)
  }

  /** The counts are those the tokens stand for, and the counters are recomputed from them. */
  ghost predicate DecodedFrom(r: Decoding, m: Message, declared: int, tokens: seq<Int64>)
    requires r.Decoded?
    reads r.h, r.h.counts
  {
    && r.h.Valid() && Decodable(m, declared, r.h.cfg, tokens)
    && r.h.State() == Recounted(r.h.cfg, Filled(tokens, r.h.cfg.countsLen))
    && r.offset == m.offset && r.ratioBits == m.ratioBits
  }

  /** What decoding a message does: it overruns its buffer exactly when a short one is to hold more
      than fits, and otherwise succeeds exactly when the message is decodable. */
  ghost predicate MessageDecodesTo(m: Message, declared: int, r: Decoding, tokens: seq<Int64>)
    reads if r.Decoded? then {r.h, r.h.counts} else {}
  {
    if r.Decoded? then DecodedFrom(r, m, declared, tokens)
    else
      && (forall c, ts :: !Decodable(m, declared, c, ts))
      && if Configured(m) && !InBounds(declared, m.payload) then r.Overrun?
         else r.Refused? && RefusedWith(m, declared, r.error)
  }

  /** hdr_decode_compressed_v2 from the configuration on. */
  method DecodeMessage(m: Message, declared: int) returns (r: Decoding, ghost tokens: seq<Int64>)
    requires INT32_MIN <= declared <= INT32_MAX && |m.payload| <= INT32_MAX
    ensures MessageDecodesTo(m, declared, r, tokens)
    ensures r.Decoded? ==> fresh(r.h) && fresh(r.h.counts)
  {
    tokens := [];
    InBoundsIff(declared, m.payload);
    BufferOf(declared);
    var histogram := Init(m.lowest, m.highest, m.figures);
    if histogram.Failure? {
      NoConfiguration(m);
      return Refused(histogram.error), tokens;
    }
    var h := histogram.value;
    assert IsConfigOf(h.cfg, m);
    if !Allocated(declared) {
      return Refused(ENOMEM), tokens;
    }
    var written := Inflated(declared, m.payload);
    if |written| > BufferSize(declared) {
      return Overrun, tokens;
    }
    if |m.payload| > AvailOut(declared) {
      return Refused(HDR_INFLATE_FAIL), tokens;
    }
    var rc;
    rc, tokens := DecodePayload(h, m, declared);
    r := if rc == 0 then Decoded(h, m.offset, m.ratioBits) else Refused(rc);
  }

  lemma NoConfiguration(m: Message)
    requires Refuses(m.lowest, m.highest, m.figures)
    ensures !Configured(m)
  {
  }

  /** The rest of hdr_decode_compressed_v2, into the new histogram, when what follows the flyweight
      fits the buffer. */
  method DecodePayload(h: Histogram, m: Message, declared: int) returns (rc: int, ghost tokens: seq<Int64>)
    requires h.Valid() && IsConfigOf(h.cfg, m) && h.State() == EmptyState(h.cfg)
    requires if declared < 0 then |m.payload| <= declared + 9 else |m.payload| <= declared
    modifies h, h.counts
    ensures h.Valid()
    ensures if rc == 0
            then Decodable(m, declared, h.cfg, tokens) && h.State() == Recounted(h.cfg, Filled(tokens, h.cfg.countsLen))
            else RefusedWith(m, declared, rc) && forall c, ts :: !Decodable(m, declared, c, ts)
  {
    FewSlots(h.cfg);
    var data := Buffered(declared, m.payload);
    ghost var at, ts;
    rc, at, ts := ApplyToCountsZz(h.counts, data, declared);
    tokens := ts;
    OnlyConfiguration(m, h.cfg);
    if declared >= 0 {
      SuccessIffTokensFit(rc, data, declared, h.counts.Length, at, ts);
      assert data[..declared] == Payload(declared, m.payload);
    }
    if rc == 0 {
      h.ResetInternalCounters();
    }
  }

  lemma OnlyConfiguration(m: Message, d: Config)
    requires IsConfigOf(d, m)
    ensures forall c | IsConfigOf(c, m) :: c == d
  {
    forall c | IsConfigOf(c, m)
      ensures c == d
    {
      ConfigDetermined(c, d);
    }
  }

  /** The result of decoding any bytes: an error for bytes with a fault in their headers, an older
      format, or what the message decodes to. */
  ghost predicate DecodesTo(bytes: seq<Byte>, r: Decoding, tokens: seq<Int64>)
    reads if r.Decoded? then {r.h, r.h.counts} else {}
  {
    if HeaderFault(bytes).Some? then r == Refused(HeaderFault(bytes).value)
    else if IsCookie(bytes, 9) || IsCookie(bytes, 2) then r == Older
    else Unpack(bytes).Unpacked? && MessageDecodesTo(Unpack(bytes).message, Unpack(bytes).declared, r, tokens)
  }

  /** hdr_decode_compressed into a new histogram, for any bytes. */
  method DecodeCompressed(bytes: seq<Byte>) returns (r: Decoding, ghost tokens: seq<Int64>)
    ensures DecodesTo(bytes, r, tokens)
    ensures r.Decoded? ==> fresh(r.h) && fresh(r.h.counts)
  {
    tokens := [];
    RejectedIff(bytes);
    UnpackBounds(bytes);
    match Unpack(bytes)
    case Rejected(error) => r := Refused(error);
    case OlderFormat => r := Older;
    case Unpacked(m, declared) => r, tokens := DecodeMessage(m, declared);
  }

  // ---------- when decoding overruns its buffer ----------

  /** Decoding writes past the end of its buffer exactly when a message with an acceptable
      configuration declares a length from -9 to -1 and more follows than the few bytes that are
      allocated for it. */
  lemma {:induction false} OverrunIff(bytes: seq<Byte>, r: Decoding, tokens: seq<Int64>)
    requires DecodesTo(bytes, r, tokens)
    ensures r.Overrun? <==>
      && Unpack(bytes).Unpacked?
      && var (m, declared) := (Unpack(bytes).message, Unpack(bytes).declared);
         Configured(m) && -9 <= declared <= -1 && |m.payload| > declared + 9
  {
    RejectedIff(bytes);
    UnpackBounds(bytes);
    if Unpack(bytes).Unpacked? {
      InBoundsIff(Unpack(bytes).declared, Unpack(bytes).message.payload);
    }
  }

  /** The bytes of such a message, for any configuration and any nine bytes of payload: what the
      encoder writes, except that -1 stands for the length of the payload. */
  lemma {:induction false} MinusOneOverruns(m: Message, r: Decoding, tokens: seq<Int64>)
    requires m.Fits() && Configured(m) && |m.payload| == 9
    requires DecodesTo(PackedDeclaring(m, -1), r, tokens)
    ensures r.Overrun?
  {
    PackedDeclares(m, -1);
    OverrunIff(PackedDeclaring(m, -1), r, tokens);
  }

  /** There is such a message. */
  lemma OverrunningMessage() returns (m: Message)
    ensures m.Fits() && Configured(m) && |m.payload| == 9
  {
    var c := WideUnits();
    m := Message(2, 4, 1, 0, 0, seq(9, _ => 0));
    assert IsConfigOf(c, m);
  }

  // ---------- decoding undoes encoding ----------

  /** The slots that are not written hold nothing. */
  lemma ZerosPastLimit(c: Config, s: State)
    requires Bounded(c, s)
    ensures 0 < CountsLimit(c, s.max) <= c.countsLen
    ensures s.counts == s.counts[..CountsLimit(c, s.max)] + seq(c.countsLen - CountsLimit(c, s.max), _ => 0)
  {
  }

  lemma {:induction false} EncodedIsDecodable(c: Config, s: State, ratioBits: nat) returns (tokens: seq<Int64>)
    requires c.Valid() && Bounded(c, s) && FitsInt64(s.counts)
    ensures var m := MessageOf(c, s, ratioBits); Decodable(m, |m.payload|, c, tokens)
    ensures Filled(tokens, c.countsLen) == s.counts
  {
    FewSlots(c);
    ZerosPastLimit(c, s);
    var written := s.counts[..CountsLimit(c, s.max)];
    var m := MessageOf(c, s, ratioBits);
    tokens := Runs(written);
    CountsRoundTrip(written);
    ParseBytes(tokens);
    assert Payload(|m.payload|, m.payload) == m.payload;
  }

  /** The payload stands for the slots up to that of the greatest value, and for no others. */
  lemma {:induction false} EncodedSlots(c: Config, s: State, ratioBits: nat) returns (tokens: seq<Int64>)
    requires c.Valid() && Bounded(c, s) && FitsInt64(s.counts)
    ensures Parse(MessageOf(c, s, ratioBits).payload) == Some(tokens)
    ensures SlotsOf(tokens, |tokens|) == CountsIndexFor(c, s.max) + 1
    ensures forall n | 0 <= n < |tokens| :: StandsAt(s.counts, SlotsOf(tokens, n), tokens[n])
  {
    FewSlots(c);
    var written := s.counts[..CountsLimit(c, s.max)];
    tokens := Runs(written);
    ParseBytes(tokens);
    ExpandRuns(written);
    ExpandLength(tokens);
    forall n | 0 <= n < |tokens|
      ensures StandsAt(s.counts, SlotsOf(tokens, n), tokens[n])
    {
      RunsStandFor(written, n);
      StandsInAll(s.counts, CountsLimit(c, s.max), SlotsOf(tokens, n), tokens[n]);
    }
  }

  lemma StandsInAll(counts: seq<int>, k: nat, p: nat, token: int)
    requires k <= |counts| && StandsAt(counts[..k], p, token)
    ensures StandsAt(counts, p, token)
  {
    forall q | token < 0 && p <= q < p - token
      ensures counts[q] == 0
    {
      assert counts[..k][q] == 0;
    }
  }

  /** t has the counts and the total of s, and shows its least and its greatest value if they come
      back at all. */
  ghost predicate Restores(c: Config, s: State, t: State)
    requires |t.counts| == c.countsLen > 0 && Bounded(c, s)
  {
    && t.counts == s.counts && t.total == s.total
    && t.min >= 0 && t.max >= 0
    && (ReportedMin(c, s.counts[0], s.min) == ReportedMin(c, t.counts[0], t.min) <==> MinComesBack(c, s))
    && (ReportedMax(c, s.max) == ReportedMax(c, t.max) <==> MaxComesBack(c, s))
  }

  lemma RecountedRestores(c: Config, s: State)
    requires c.Valid() && Bounded(c, s)
    ensures c.countsLen > 0 && Restores(c, s, Recounted(c, s.counts))
  {
    ZerosPastLimit(c, s);
    RecountedReports(c, s);
  }

  /** The bytes decode, and only to a histogram of configuration c that shows what contents s
      show. */
  ghost predicate Recoverable(c: Config, s: State, bytes: seq<Byte>)
    requires c.Valid() && Bounded(c, s)
  {
    && c.countsLen > 0 && Unpack(bytes).Unpacked?
    && var u := Unpack(bytes);
    && (exists ts :: Decodable(u.message, u.declared, c, ts))
    && (forall d, ts :: Decodable(u.message, u.declared, d, ts) ==>
          d == c && Restores(c, s, Recounted(c, Filled(ts, c.countsLen))))
  }

  lemma {:induction false} OnlyDecoding(c: Config, s: State, ratioBits: nat, d: Config, tokens: seq<Int64>)
    requires c.Valid() && Bounded(c, s) && FitsInt64(s.counts)
    requires var m := MessageOf(c, s, ratioBits); Decodable(m, |m.payload|, d, tokens)
    ensures d == c && c.countsLen > 0 && Restores(c, s, Recounted(c, Filled(tokens, c.countsLen)))
  {
    var ts := EncodedIsDecodable(c, s, ratioBits);
    ConfigDetermined(c, d);
    RecountedRestores(c, s);
  }

  /** Whatever follows it, the encoding of a histogram that records have left behind decodes, and
      only to a histogram of the same configuration that Restores it. */
  lemma {:induction false} DecodingUndoesEncoding(c: Config, s: State, ratioBits: nat, after: seq<Byte>)
    requires c.Valid() && Bounded(c, s) && FitsInt64(s.counts) && ratioBits < TWO_TO_64
    ensures Recoverable(c, s, Packed(MessageOf(c, s, ratioBits)) + after)
  {
    var m := MessageOf(c, s, ratioBits);
    MessageFits(c, s, ratioBits);
    PackedRoundTrip(m, after);
    var ts := EncodedIsDecodable(c, s, ratioBits);
    forall d, ts | Decodable(m, |m.payload|, d, ts)
      ensures d == c && c.countsLen > 0 && Restores(c, s, Recounted(c, Filled(ts, c.countsLen)))
    {
      OnlyDecoding(c, s, ratioBits, d, ts);
    }
  }

  /** Decoding such bytes gives a histogram that restores s. */
  lemma {:induction false} DecodedRestores(c: Config, s: State, bytes: seq<Byte>, r: Decoding, tokens: seq<Int64>)
    requires c.Valid() && Bounded(c, s) && Recoverable(c, s, bytes) && DecodesTo(bytes, r, tokens)
    ensures r.Decoded? && r.h.cfg == c && c.countsLen > 0 && Restores(c, s, r.h.State())
  {
    RejectedIff(bytes);
    var u := Unpack(bytes);
    var ts :| Decodable(u.message, u.declared, c, ts);
    assert r.Decoded?;
    assert Decodable(u.message, u.declared, r.h.cfg, tokens);
  }

  /** The round trip of the two methods: whatever hdr_decode_compressed returns for the bytes that
      hdr_encode_compressed has returned, and for any bytes after them, is a histogram of the same
      configuration that restores the one encoded. */
  lemma {:induction false} CodecRoundTrip(c: Config, s: State, ratioBits: nat, after: seq<Byte>, r: Decoding,
                                          tokens: seq<Int64>)
    requires c.Valid() && Bounded(c, s) && FitsInt64(s.counts) && ratioBits < TWO_TO_64
    requires DecodesTo(Packed(MessageOf(c, s, ratioBits)) + after, r, tokens)
    ensures r.Decoded? && r.h.cfg == c && c.countsLen > 0 && Restores(c, s, r.h.State())
    ensures r.offset == 0 && r.ratioBits == ratioBits
  {
    var m := MessageOf(c, s, ratioBits);
    DecodingUndoesEncoding(c, s, ratioBits, after);
    DecodedRestores(c, s, Packed(m) + after, r, tokens);
    MessageFits(c, s, ratioBits);
    PackedRoundTrip(m, after);
    RejectedIff(Packed(m) + after);
  }

  // ---------- what does not come back ----------

  /** The greatest value may fail to come back: with a lowest discernible value of 2, a histogram of one
      zero reports the maximum 0, and the maximum 1 once its counters are recomputed. */
  lemma ZeroInWideUnits(c: Config, s: State)
    requires c.Valid() && c.lowest == 2 && c.highest == 4 && c.figures == 1
    requires s == Recorded(c, EmptyState(c), Record(0, 1))
    ensures Consistent(c, s) && s.max >= 0
    ensures ReportedMax(c, s.max) == 0 && ReportedMax(c, Recounted(c, s.counts).max) == 1
  {
    EmptyIsConsistent(c);
    RecordKeepsConsistent(c, EmptyState(c), Record(0, 1));
    OneZero(c, s);
    UnitOfTwo(c);
    ZeroReportsOne(c, s.counts);
  }

  /** There is such a configuration. */
  lemma WideUnits() returns (c: Config)
    ensures c.Valid() && c.lowest == 2 && c.highest == 4 && c.figures == 1
  {
    MagnitudeTable(1);
    assert BitLength(2) == 2;
    c := Config(2, 4, 1, 1, 4, 1, 2 * Pow2(4));
  }

  lemma UnitOfTwo(c: Config)
    requires c.Valid() && c.lowest == 2
    ensures c.unitMagnitude == 1
  {
    assert BitLength(2) == 2;
  }

  lemma ZeroReportsOne(c: Config, counts: seq<int>)
    requires c.unitMagnitude == 1
    requires |counts| == c.countsLen > 0 && counts[0] > 0 && forall i | 0 < i < |counts| :: counts[i] == 0
    ensures Recounted(c, counts).max >= 0 && ReportedMax(c, Recounted(c, counts).max) == 1
  {
    OnlyFirstSlot(c, counts);
    HighestOfZero(c);
    HighestOfHighest(c, 0);
    assert Pow2(1) == 2;
  }

  lemma OneZero(c: Config, s: State)
    requires c.Sized() && s == Recorded(c, EmptyState(c), Record(0, 1))
    ensures s.max == 0 && |s.counts| > 0 && s.counts[0] == 1 && forall i | 0 < i < |s.counts| :: s.counts[i] == 0
  {
    AcceptsIffInRange(c, 0);
    ZeroHasFirstSlot(c);
  }

  lemma OnlyFirstSlot(c: Config, counts: seq<int>)
    requires |counts| == c.countsLen > 0 && counts[0] > 0 && forall i | 0 < i < |counts| :: counts[i] == 0
    ensures Recounted(c, counts).max == HighestEquivalent(c, 0)
  {
    ZeroHasFirstSlot(c);
  }

  /** The least value may fail to come back when it is INT64_MAX, which stands for none: hdr_min
      reports INT64_MAX before, and the start of its slot afterwards. */
  lemma OnlyMaxRecorded(c: Config, s: State)
    requires c.Valid() && c.highest == INT64_MAX && s == Recorded(c, EmptyState(c), Record(INT64_MAX, 1))
    ensures Consistent(c, s) && !MinComesBack(c, s)
    ensures ReportedMin(c, s.counts[0], s.min) == INT64_MAX
    ensures Recounted(c, s.counts).min >= 0 && ReportedMin(c, s.counts[0], Recounted(c, s.counts).min) < INT64_MAX
  {
    EmptyIsConsistent(c);
    RecordKeepsConsistent(c, EmptyState(c), Record(INT64_MAX, 1));
    OneInSlotOfMax(c, s);
    var slot := CountsIndexFor(c, INT64_MAX);
    SlotOfValue(c, INT64_MAX);
    IndexOfValueAtIndex(c, slot);
    MaxStartsNoSlot(c);
  }

  lemma OneInSlotOfMax(c: Config, s: State)
    requires c.Valid() && c.highest == INT64_MAX && s == Recorded(c, EmptyState(c), Record(INT64_MAX, 1))
    ensures var slot := CountsIndexFor(c, INT64_MAX);
      && 0 < slot < |s.counts| && s.min == INT64_MAX && s.counts[0] == 0 && s.counts[slot] == 1
      && FirstPositivePastZero(s.counts, |s.counts|) == slot
  {
    AcceptsIffInRange(c, INT64_MAX);
    BitLengthBounds(c.lowest);
    FirstSlotPassed(c, INT64_MAX);
  }

  /** There is such a configuration. */
  lemma WholeRange() returns (c: Config)
    ensures c.Valid() && c.highest == INT64_MAX
  {
    MagnitudeTable(1);
    assert BitLength(1) == 1;
    Pow2At62();
    Pow2After62(63);
    c := Config(1, INT64_MAX, 1, 0, 4, 59, 60 * Pow2(4));
  }

  lemma Pow2After62(k: nat)
    requires k == 63
    ensures Pow2(k) == INT64_MAX + 1 && Pow2(k - 1) == 0x4000_0000_0000_0000
  {
    Pow2At62();
  }

  /** And so may a value recorded zero times, which moves the maximum but leaves nothing to restore
      it from. */
  lemma ZeroTimes(c: Config, value: nat)
    requires c.Sized() && 0 < value <= c.highest
    ensures var s := Recorded(c, EmptyState(c), Record(value, 0));
      s.max == value && Recounted(c, s.counts).max == 0
  {
    AcceptsIffInRange(c, value);
    var s := Recorded(c, EmptyState(c), Record(value, 0));
    assert s.counts == EmptyState(c).counts;
  }

  /** hdr_decode_compressed into a histogram that exists already: what is decoded is added to it,
      and what does not decode changes nothing.  With an offset other than 0 the slots would be
      added shifted, which is not modelled. */
  method DecodeInto(bytes: seq<Byte>, into: Histogram) returns (r: Decoding, ghost tokens: seq<Int64>)
    requires into.Valid()
    modifies into, into.counts
    ensures into.Valid() && DecodesTo(bytes, r, tokens)
    ensures r.Decoded? && r.offset == 0 ==>
      into.State() == Added(into.cfg, old(into.State()), r.h.cfg, r.h.counts[..], r.h.counts.Length).0
    ensures r.Refused? || r.Older? ==> into.State() == old(into.State())
  {
    r, tokens := DecodeCompressed(bytes);
    if r.Decoded? && r.offset == 0 {
      var from := r.h;
      DecodedIsConsistent(from.cfg, from.State(), tokens);
      var dropped := Add(into, from);
    }
  }

  lemma {:induction false} ExpandNonNegative(tokens: seq<Int64>)
    ensures NonNegative(Expand(tokens))
  {
    if tokens != [] { ExpandNonNegative(tokens[1..]); }
  }

  lemma {:induction false} DecodedIsConsistent(c: Config, s: State, tokens: seq<Int64>)
    requires c.Valid() && |Expand(tokens)| <= c.countsLen && s == Recounted(c, Filled(tokens, c.countsLen))
    ensures Consistent(c, s)
  {
    ExpandNonNegative(tokens);
    forall i | 0 <= i < c.countsLen
      ensures ValueAtIndex(c, i) < INT64_MAX
    {
      SlotBelowMax(c, i);
    }
    RecountedIsConsistent(c, Filled(tokens, c.countsLen));
  }
}
