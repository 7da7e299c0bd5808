/** The counts of a histogram as a sequence of tokens: a run of zeros becomes the negative of its
    length, and any other count stands for itself.  Writing them is the loop of
    hdr_encode_compressed, reading them apply_to_counts_zz. */
module CountsCodec {
  import opened Bits
  import opened Leb128
  import opened Results
  import opened Sequences

  const INT32_MAX := 0x7FFF_FFFF
  const INT32_MIN := -0x8000_0000

  // ---------- tokens and bytes ----------

  /** The number of zeros at the head of counts. */
  function LeadingZeros(counts: seq<Int64>): (n: nat)
    ensures n <= |counts|
  {
    if counts == [] || counts[0] != 0 then 0 else 1 + LeadingZeros(counts[1..])
  }

  /** The token that counts begin with, and the number of counts it stands for. */
  function FirstToken(counts: seq<Int64>): ((Int64, nat))
    requires 0 < |counts| <= INT32_MAX
  {
    if counts[0] == 0 then (0 - LeadingZeros(counts), LeadingZeros(counts)) else (counts[0], 1)
  }

  /** The tokens of counts. */
  function Runs(counts: seq<Int64>): seq<Int64>
    requires |counts| <= INT32_MAX
    decreases |counts|
  {
    if counts == [] then [] else [FirstToken(counts).0] + Runs(counts[FirstToken(counts).1..])
  }

  function Bytes(tokens: seq<Int64>): seq<Byte> {
    if tokens == [] then [] else Encoded(tokens[0]) + Bytes(tokens[1..])
  }

  /** The counts that one token stands for. */
  function Expansion(token: int): (counts: seq<int>)
    ensures |counts| >= 1
  {
    if token < 0 then seq(-token, _ => 0) else [token]
  }

  function Expand(tokens: seq<Int64>): seq<int> {
    if tokens == [] then [] else Expansion(tokens[0]) + Expand(tokens[1..])
  }

  /** The tokens that bytes split into, if they do. */
  function Parse(bytes: seq<Byte>): Option<seq<Int64>>
    decreases |bytes|
  {
    if bytes == [] then Some([])
    else
      match Decoded(bytes)
      case None => None
      case Some((v, n)) =>
        match Parse(bytes[n..])
        case None => None
        case Some(rest) => Some([v] + rest)
  }

  // ---------- they undo each other ----------

  lemma {:induction false} LeadingZerosAre(counts: seq<Int64>)
    ensures forall i | 0 <= i < LeadingZeros(counts) :: counts[i] == 0
    ensures LeadingZeros(counts) < |counts| ==> counts[LeadingZeros(counts)] != 0
  {
    if counts != [] && counts[0] == 0 {
      LeadingZerosAre(counts[1..]);
    }
  }

  lemma {:induction false} LeadingZerosUnique(counts: seq<Int64>, n: nat)
    requires n <= |counts| && forall i | 0 <= i < n :: counts[i] == 0
    requires n < |counts| ==> counts[n] != 0
    ensures LeadingZeros(counts) == n
  {
    LeadingZerosAre(counts);
  }

  lemma {:induction false} ExpandFirst(token: Int64, rest: seq<Int64>)
    ensures Expand([token] + rest) == Expansion(token) + Expand(rest)
  {
    assert ([token] + rest)[1..] == rest;
  }

  lemma {:induction false} FirstTokenExpands(counts: seq<Int64>)
    requires 0 < |counts| <= INT32_MAX && counts[0] >= 0
    ensures Expansion(FirstToken(counts).0) == counts[..FirstToken(counts).1]
  {
    LeadingZerosAre(counts);
  }

  /** The tokens of non-negative counts expand to these counts. */
  lemma {:induction false} ExpandRuns(counts: seq<Int64>)
    requires |counts| <= INT32_MAX && forall i | 0 <= i < |counts| :: counts[i] >= 0
    ensures Expand(Runs(counts)) == counts
    decreases |counts|
  {
    if counts != [] {
      var (token, n) := FirstToken(counts);
      FirstTokenExpands(counts);
      ExpandRuns(counts[n..]);
      ExpandFirst(token, Runs(counts[n..]));
      Rejoin(counts, n);
    }
  }

  /** Runs are as long as they can be: no run of zeros follows another, and no zero is alone. */
  lemma {:induction false} RunsAreMaximal(counts: seq<Int64>)
    requires |counts| <= INT32_MAX && forall i | 0 <= i < |counts| :: counts[i] >= 0
    ensures forall i | 0 <= i < |Runs(counts)| :: Runs(counts)[i] != 0
    ensures forall i | 0 < i < |Runs(counts)| :: Runs(counts)[i] > 0 || Runs(counts)[i - 1] > 0
    ensures counts != [] ==> Runs(counts) != [] && (Runs(counts)[0] > 0 <==> counts[0] > 0)
    decreases |counts|
  {
    if counts != [] {
      LeadingZerosAre(counts);
      RunsAreMaximal(counts[FirstToken(counts).1..]);
    }
  }

  /** The number of slots that the first n tokens stand for: as many as the run is long, or one. */
  function SlotsOf(tokens: seq<Int64>, n: nat): nat
    requires n <= |tokens|
  {
    if n == 0 then 0 else SlotsOf(tokens, n - 1) + SlotsOfOne(tokens[n - 1])
  }

  function SlotsOfOne(token: int): nat {
    if token < 0 then -token else 1
  }

  lemma {:induction false} SlotsOfRest(tokens: seq<Int64>, n: nat)
    requires 0 < n <= |tokens|
    ensures SlotsOf(tokens, n) == SlotsOfOne(tokens[0]) + SlotsOf(tokens[1..], n - 1)
  {
    if n > 1 { SlotsOfRest(tokens, n - 1); }
  }

  /** At slot p the counts are what the token stands for: a run of empty slots when it is negative,
      and otherwise one slot that holds it. */
  ghost predicate StandsAt(counts: seq<int>, p: nat, token: int) {
    if token < 0 then p - token <= |counts| && forall q | p <= q < p - token :: counts[q] == 0
    else p < |counts| && counts[p] == token
  }

  lemma StandsBehind(first: seq<int>, rest: seq<int>, p: nat, token: int)
    requires StandsAt(rest, p, token)
    ensures StandsAt(first + rest, |first| + p, token)
  {
    forall q | token < 0 && |first| + p <= q < |first| + p - token
      ensures (first + rest)[q] == 0
    {
      assert (first + rest)[q] == rest[q - |first|];
    }
  }

  /** Every token stands for the slots behind those of the tokens before it. */
  lemma {:induction false} ExpandStands(tokens: seq<Int64>, n: nat)
    requires n < |tokens|
    ensures StandsAt(Expand(tokens), SlotsOf(tokens, n), tokens[n])
    decreases n
  {
    if n > 0 {
      SlotsOfRest(tokens, n);
      ExpandStands(tokens[1..], n - 1);
      StandsBehind(Expansion(tokens[0]), Expand(tokens[1..]), SlotsOf(tokens[1..], n - 1), tokens[n]);
    }
  }

  /** And all of them together for all slots. */
  lemma {:induction false} ExpandLength(tokens: seq<Int64>)
    ensures |Expand(tokens)| == SlotsOf(tokens, |tokens|)
  {
    if tokens != [] {
      ExpandLength(tokens[1..]);
      SlotsOfRest(tokens, |tokens|);
    }
  }

  /** So do the tokens that are written for the counts of a histogram. */
  lemma {:induction false} RunsStandFor(counts: seq<Int64>, n: nat)
    requires |counts| <= INT32_MAX && (forall i | 0 <= i < |counts| :: counts[i] >= 0) && n < |Runs(counts)|
    ensures StandsAt(counts, SlotsOf(Runs(counts), n), Runs(counts)[n])
    ensures SlotsOf(Runs(counts), |Runs(counts)|) == |counts|
  {
    ExpandRuns(counts);
    ExpandStands(Runs(counts), n);
    ExpandLength(Runs(counts));
  }

  lemma {:induction false} ParseFirst(v: Int64, rest: seq<Byte>)
    ensures Parse(Encoded(v) + rest) == match Parse(rest) case None => None case Some(ts) => Some([v] + ts)
  {
    TokenRoundTrip(v, rest);
    assert (Encoded(v) + rest)[|Encoded(v)|..] == rest;
  }

  /** The bytes of any tokens split into these tokens. */
  lemma {:induction false} ParseBytes(tokens: seq<Int64>)
    ensures Parse(Bytes(tokens)) == Some(tokens)
  {
    if tokens != [] {
      ParseBytes(tokens[1..]);
      ParseFirst(tokens[0], Bytes(tokens[1..]));
      assert [tokens[0]] + tokens[1..] == tokens;
    }
  }

  /** Reading back what was written gives the counts back. */
  lemma {:induction false} CountsRoundTrip(counts: seq<Int64>)
    requires |counts| <= INT32_MAX && forall i | 0 <= i < |counts| :: counts[i] >= 0
    ensures Parse(Bytes(Runs(counts))).Some? && Expand(Parse(Bytes(Runs(counts))).value) == counts
  {
    ParseBytes(Runs(counts));
    ExpandRuns(counts);
  }

  lemma {:induction false} BytesFirst(token: Int64, rest: seq<Int64>)
    ensures Bytes([token] + rest) == Encoded(token) + Bytes(rest)
  {
    assert ([token] + rest)[1..] == rest;
  }

  /** Nine bytes for each slot are enough. */
  lemma {:induction false} NineBytesPerSlot(counts: seq<Int64>)
    requires |counts| <= INT32_MAX
    ensures |Bytes(Runs(counts))| <= 9 * |counts|
    decreases |counts|
  {
    if counts != [] {
      var (token, n) := FirstToken(counts);
      NineBytesPerSlot(counts[n..]);
      BytesFirst(token, Runs(counts[n..]));
      TokenRoundTrip(token, []);
    }
  }

  // ---------- writing ----------

  lemma {:induction false} OverwriteMore(b2: seq<Byte>, b1: seq<Byte>, before: seq<Byte>, at: nat, w: seq<Byte>,
                                         e: seq<Byte>)
    requires Overwritten(b1, before, at, w) && Overwritten(b2, b1, at + |w|, e)
    ensures Overwritten(b2, before, at, w + e)
  {
  }

  /** What has been written, and what is still to come when slot i is next. */
  ghost predicate EncodedUpTo(counts: seq<Int64>, i: nat, written: seq<Byte>) {
    && i <= |counts| <= INT32_MAX && |written| <= 9 * i
    && written + Bytes(Runs(counts[i..])) == Bytes(Runs(counts))
  }

  lemma {:induction false} EncodedStep(counts: seq<Int64>, i: nat, j: nat, written: seq<Byte>, token: Int64)
    requires EncodedUpTo(counts, i, written) && i < j <= |counts|
    requires Runs(counts[i..]) == [token] + Runs(counts[j..])
    ensures EncodedUpTo(counts, j, written + Encoded(token))
  {
    BytesFirst(token, Runs(counts[j..]));
    TokenRoundTrip(token, []);
    Assoc(written, Encoded(token), Bytes(Runs(counts[j..])));
  }

  lemma {:induction false} NextRun(counts: seq<Int64>, i: nat, j: nat)
    requires i < j <= |counts| <= INT32_MAX && forall k | i <= k < j :: counts[k] == 0
    requires j < |counts| ==> counts[j] != 0
    ensures Runs(counts[i..]) == [i - j] + Runs(counts[j..])
  {
    LeadingZerosUnique(counts[i..], j - i);
    assert counts[i..][j - i..] == counts[j..];
  }

  /** The token to write when slot i is next, and the slot that is next after it. */
  method NextToken(counts: seq<Int64>, start: nat) returns (token: Int64, i: nat)
    requires start < |counts| <= INT32_MAX
    ensures start < i <= |counts| && Runs(counts[start..]) == [token] + Runs(counts[i..])
  {
    i := start + 1;
    if counts[start] == 0 {
      var zeros := 1;
      while i < |counts| && counts[i] == 0
        invariant start < i <= |counts| && zeros == i - start
        invariant forall k | start <= k < i :: counts[k] == 0
      {
        zeros, i := zeros + 1, i + 1;
      }
      NextRun(counts, start, i);
      token := -zeros;
    } else {
      assert counts[start..][1..] == counts[i..];
      token := counts[start];
    }
  }

  /** What the loop of hdr_encode_compressed keeps: the bytes written so far, and the slot that is
      next. */
  ghost predicate Encoding(counts: seq<Int64>, i: nat, buffer: seq<Byte>, before: seq<Byte>, at: nat,
                           written: seq<Byte>) {
    EncodedUpTo(counts, i, written) && Overwritten(buffer, before, at, written)
  }

  /** The body of the loop. */
  method EncodeNext(counts: seq<Int64>, i: nat, buffer: array<Byte>, at: nat, dataIndex: nat,
                    ghost before: seq<Byte>, ghost written: seq<Byte>)
    returns (next: nat, n: nat, ghost token: Int64)
    requires i < |counts| && at + 9 * |counts| <= buffer.Length
    requires dataIndex == |written| && Encoding(counts, i, buffer[..], before, at, written)
    modifies buffer
    ensures i < next <= |counts| && n == |Encoded(token)|
    ensures Encoding(counts, next, buffer[..], before, at, written + Encoded(token))
  {
    var value;
    value, next := NextToken(counts, i);
    token := value;
    EncodedStep(counts, i, next, written, value);
    TokenRoundTrip(value, []);
    ghost var b1 := buffer[..];
    n := ZigZagEncode(buffer, at + dataIndex, value);
    OverwriteMore(buffer[..], b1, before, at, written, Encoded(value));
  }

  /** The loop of hdr_encode_compressed over the counts, given as those up to counts_limit, into a
      buffer with nine bytes for each of them. */
  method EncodeCounts(counts: seq<Int64>, buffer: array<Byte>, at: nat) returns (dataIndex: nat)
    requires |counts| <= INT32_MAX && at + 9 * |counts| <= buffer.Length
    modifies buffer
    ensures dataIndex == |Bytes(Runs(counts))|
    ensures Overwritten(buffer[..], old(buffer[..]), at, Bytes(Runs(counts)))
  {
    dataIndex := 0;
    var i: nat := 0;
    ghost var written := [];
    assert counts[0..] == counts;
    while i < |counts|
      invariant i <= |counts| && dataIndex == |written|
      invariant Encoding(counts, i, buffer[..], old(buffer[..]), at, written)
    {
      var next, n, token := EncodeNext(counts, i, buffer, at, dataIndex, old(buffer[..]), written);
      dataIndex, i, written := dataIndex + n, next, written + Encoded(token);
    }
    assert counts[i..] == [];
    assert written + [] == written;
  }

  // ---------- reading ----------

  /** Decoding depends on nothing after the token. */
  lemma {:induction false} DecodedPrefix(a: seq<Byte>, b: seq<Byte>)
    ensures Decoded(a).Some? ==>
      Decoded(a + b) == Decoded(a) && (a + b)[Decoded(a).value.1..] == a[Decoded(a).value.1..] + b
  {
    UnlebPrefix(a, b, 0);
  }

  lemma {:induction false} ParseFurther(a: seq<Byte>, b: seq<Byte>, n: nat)
    requires a != [] && Parse(a).Some? && n == Decoded(a).value.1
    requires Decoded(a + b) == Decoded(a) && (a + b)[n..] == a[n..] + b
    requires Parse(a[n..] + b) == match Parse(b) case None => None case Some(us) => Some(Parse(a[n..]).value + us)
    ensures Parse(a + b) == match Parse(b) case None => None case Some(us) => Some(Parse(a).value + us)
  {
    if Parse(b).Some? {
      Assoc([Decoded(a).value.0], Parse(a[n..]).value, Parse(b).value);
    }
  }

  lemma {:induction false} ParseSplit(a: seq<Byte>, b: seq<Byte>)
    requires Parse(a).Some?
    ensures Parse(a + b) == match Parse(b) case None => None case Some(us) => Some(Parse(a).value + us)
    decreases |a|
  {
    if a == [] {
      assert a + b == b;
      if Parse(b).Some? { assert [] + Parse(b).value == Parse(b).value; }
    } else {
      var n := Decoded(a).value.1;
      DecodedPrefix(a, b);
      ParseSplit(a[n..], b);
      ParseFurther(a, b, n);
    }
  }

  lemma {:induction false} ParseOne(b: seq<Byte>, v: Int64)
    requires Decoded(b) == Some((v, |b|))
    ensures Parse(b) == Some([v])
  {
    assert b[|b|..] == [];
    assert [v] + [] == [v];
  }

  lemma {:induction false} ExpandSplit(ts: seq<Int64>, us: seq<Int64>)
    ensures Expand(ts + us) == Expand(ts) + Expand(us)
  {
    if ts == [] {
      assert ts + us == us;
    } else {
      ExpandSplit(ts[1..], us);
      Assoc([ts[0]], ts[1..], us);
      assert [ts[0]] + ts[1..] == ts;
      ExpandFirst(ts[0], ts[1..] + us);
      Assoc(Expansion(ts[0]), Expand(ts[1..]), Expand(us));
    }
  }

  /** The call has consumed the first at bytes, which are the given whole tokens, and ends with
      result rc: at the end of the data, because all slots are filled, at a run of zeros that
      does not fit, or at a token that goes on past the end of the data. */
  ghost predicate Stopped(rc: int, data: seq<Byte>, limit: nat, len: nat, at: nat, tokens: seq<Int64>) {
    && at <= limit && limit + 9 <= |data|
    && Parse(data[..at]) == Some(tokens) && |Expand(tokens)| <= len
    && if at == limit then rc == 0
       else if |Expand(tokens)| == len then rc == HDR_ENCODED_INPUT_TOO_LONG
       else
         var (v, n) := Decoded(data[at..]).value;
         if |Expand(tokens)| + |Expansion(v)| > len then v < 0 && rc == HDR_TRAILING_ZEROS_INVALID
         else at + n > limit && rc == HDR_VALUE_TRUNCATED
  }

  /** The result is 0 exactly when the data within the limit are whole tokens whose expansion
      fits the slots. */
  lemma {:induction false} SuccessIffTokensFit(rc: int, data: seq<Byte>, limit: nat, len: nat, at: nat,
                                               tokens: seq<Int64>)
    requires Stopped(rc, data, limit, len, at, tokens)
    ensures rc == 0 <==> Parse(data[..limit]).Some? && |Expand(Parse(data[..limit]).value)| <= len
  {
    var rest := data[at..limit];
    ParseUpTo(data, at, limit, tokens);
    if at == limit {
      assert rest == [];
      assert tokens + [] == tokens;
    } else if Parse(rest).Some? {
      ExpandSplit(tokens, Parse(rest).value);
      FirstOfRest(data, at, limit);
    }
  }

  lemma {:induction false} ParseUpTo(data: seq<Byte>, at: nat, limit: nat, tokens: seq<Int64>)
    requires at <= limit <= |data| && Parse(data[..at]) == Some(tokens)
    ensures Parse(data[..limit]) ==
      match Parse(data[at..limit]) case None => None case Some(rest) => Some(tokens + rest)
  {
    assert data[..limit] == data[..at] + data[at..limit];
    ParseSplit(data[..at], data[at..limit]);
  }

  /** Whole tokens up to the limit begin with one that ends within it. */
  lemma {:induction false} FirstOfRest(data: seq<Byte>, at: nat, limit: nat)
    requires at < limit <= |data| && Parse(data[at..limit]).Some?
    ensures Decoded(data[at..]).Some?
    ensures var (v, n) := Decoded(data[at..]).value;
      at + n <= limit && |Expansion(v)| <= |Expand(Parse(data[at..limit]).value)|
  {
    var rest := data[at..limit];
    assert data[at..] == rest + data[limit..];
    DecodedPrefix(rest, data[limit..]);
    var (v, n) := Decoded(rest).value;
    ExpandFirst(v, Parse(rest[n..]).value);
  }

  /** Where the loop stands: slots and bytes consumed so far correspond, and slots not written yet
      are untouched. */
  ghost predicate AppliedUpTo(counts: seq<int>, before: seq<int>, data: seq<Byte>, at: nat, slot: nat,
                              tokens: seq<Int64>) {
    && at <= |data| && slot <= |counts| == |before|
    && Parse(data[..at]) == Some(tokens) && |Expand(tokens)| == slot
    && counts[slot..] == before[slot..]
    && (AllZero(before) ==> counts[..slot] == Expand(tokens))
  }

  ghost predicate AllZero(counts: seq<int>) {
    forall i | 0 <= i < |counts| :: counts[i] == 0
  }

  lemma {:induction false} SplitToken(data: seq<Byte>, at: nat, n: nat)
    requires at + n <= |data|
    ensures data[at..][..n] == data[at..at + n] && data[..at + n] == data[..at] + data[at..at + n]
  {
  }

  lemma {:induction false} ConsumeToken(data: seq<Byte>, at: nat, tokens: seq<Int64>, v: Int64, n: nat)
    requires at <= |data| && Parse(data[..at]) == Some(tokens) && Decoded(data[at..]) == Some((v, n))
    ensures Parse(data[..at + n]) == Some(tokens + [v])
    ensures Expand(tokens + [v]) == Expand(tokens) + Expansion(v)
  {
    var token := data[at..at + n];
    ExactToken(data[at..], v, n);
    SplitToken(data, at, n);
    ParseSplit(data[..at], token);
    ExpandOneMore(tokens, v);
  }

  /** The bytes of a token, without those after it. */
  lemma {:induction false} ExactToken(data: seq<Byte>, v: Int64, n: nat)
    requires Decoded(data) == Some((v, n))
    ensures Parse(data[..n]) == Some([v])
  {
    Rejoin(data, n);
    UnlebPrefix(data[..n], data[n..], 0);
    ParseOne(data[..n], v);
  }

  lemma {:induction false} ExpandOneMore(tokens: seq<Int64>, v: Int64)
    ensures Expand(tokens + [v]) == Expand(tokens) + Expansion(v)
  {
    ExpandSplit(tokens, [v]);
    ExpandFirst(v, []);
    assert [v] + [] == [v];
  }

  /** AppliedUpTo after a token v of n bytes that fits. */
  lemma {:induction false} AppliedMore(counts: seq<int>, counts': seq<int>, before: seq<int>, data: seq<Byte>,
                                       at: nat, slot: nat, tokens: seq<Int64>, v: Int64, n: nat)
    requires AppliedUpTo(counts, before, data, at, slot, tokens)
    requires Decoded(data[at..]) == Some((v, n)) && slot + |Expansion(v)| <= |counts|
    requires counts' == if v < 0 then counts else counts[slot := v]
    ensures AppliedUpTo(counts', before, data, at + n, slot + |Expansion(v)|, tokens + [v])
  {
    ConsumeToken(data, at, tokens, v, n);
    SlotsFilled(counts, counts', before, slot, v);
  }

  lemma SlotsFilled(counts: seq<int>, counts': seq<int>, before: seq<int>, slot: nat, v: Int64)
    requires |counts| == |before| && slot + |Expansion(v)| <= |counts| && counts[slot..] == before[slot..]
    requires counts' == if v < 0 then counts else counts[slot := v]
    ensures counts'[slot + |Expansion(v)|..] == before[slot + |Expansion(v)|..]
    ensures AllZero(before) ==> counts'[..slot + |Expansion(v)|] == counts[..slot] + Expansion(v)
  {
    assert forall i | slot <= i < |counts| :: counts[i] == before[i] by {
      assert forall i | slot <= i < |counts| :: counts[i] == counts[slot..][i - slot];
    }
  }

  /** What the loop of apply_to_counts_zz keeps: it stands behind whole tokens, or a token has
      taken it past the limit. */
  ghost predicate Applying(counts: seq<int>, before: seq<int>, data: seq<Byte>, limit: nat, dataIndex: nat, slot: nat,
                           at: nat, tokens: seq<Int64>) {
    if dataIndex <= limit then at == dataIndex && AppliedUpTo(counts, before, data, at, slot, tokens)
    else Stopped(HDR_VALUE_TRUNCATED, data, limit, |counts|, at, tokens)
  }

  lemma {:induction false} ApplyingStep(counts: seq<int>, counts': seq<int>, before: seq<int>, data: seq<Byte>,
                                        limit: nat, at: nat, slot: nat, tokens: seq<Int64>, v: Int64, n: nat)
    returns (at': nat, tokens': seq<Int64>)
    requires at < limit && limit + 9 <= |data| && slot < |counts| && AppliedUpTo(counts, before, data, at, slot, tokens)
    requires Decoded(data[at..]) == Some((v, n)) && slot + |Expansion(v)| <= |counts|
    requires counts' == if v < 0 then counts else counts[slot := v]
    ensures Applying(counts', before, data, limit, at + n, slot + |Expansion(v)|, at', tokens')
  {
    if at + n <= limit {
      AppliedMore(counts, counts', before, data, at, slot, tokens, v, n);
      at', tokens' := at + n, tokens + [v];
    } else {
      PastTheLimit(counts, before, data, limit, at, slot, tokens, v, n);
      at', tokens' := at, tokens;
    }
  }

  /** A token that goes on past the limit is the one that the call stops at. */
  lemma {:induction false} PastTheLimit(counts: seq<int>, before: seq<int>, data: seq<Byte>, limit: nat, at: nat,
                                        slot: nat, tokens: seq<Int64>, v: Int64, n: nat)
    requires at < limit < at + n && limit + 9 <= |data| && slot < |counts|
    requires AppliedUpTo(counts, before, data, at, slot, tokens)
    requires Decoded(data[at..]) == Some((v, n)) && slot + |Expansion(v)| <= |counts|
    ensures Stopped(HDR_VALUE_TRUNCATED, data, limit, |counts|, at, tokens)
  {
  }

  /** The body of the loop: the token at dataIndex is applied, unless it is a run of zeros that
      does not fit. */
  method ApplyToken(counts: array<int>, data: seq<Byte>, dataIndex: nat, slot: nat)
    returns (ok: bool, n: nat, width: nat, ghost v: Int64)
    requires slot < counts.Length <= INT32_MAX && dataIndex + 9 <= |data|
    modifies counts
    ensures Decoded(data[dataIndex..]) == Some((v, n))
    ensures ok <==> slot + |Expansion(v)| <= counts.Length
    ensures ok ==>
      width == |Expansion(v)| && counts[..] == if v < 0 then old(counts[..]) else old(counts[..])[slot := v]
    ensures !ok ==> v < 0
  {
    var value;
    n, value := ZigZagDecode(data, dataIndex);
    v := value;
    if value < 0 {
      width := 0 - value;
      ok := !(value <= INT32_MIN || slot + width > counts.Length);
    } else {
      counts[slot] := value;
      ok, width := true, 1;
    }
  }

  lemma {:induction false} RunDoesNotFit(counts: seq<int>, before: seq<int>, data: seq<Byte>, limit: nat,
                                         dataIndex: nat, slot: nat, at: nat, tokens: seq<Int64>)
    requires dataIndex < limit && limit + 9 <= |data| && slot < |counts|
    requires AppliedUpTo(counts, before, data, at, slot, tokens) && at == dataIndex
    requires Decoded(data[at..]).value.0 < 0 && slot + |Expansion(Decoded(data[at..]).value.0)| > |counts|
    ensures Stopped(HDR_TRAILING_ZEROS_INVALID, data, limit, |counts|, at, tokens)
  {
  }

  /** One round of the loop. */
  method ApplyNext(counts: array<int>, data: seq<Byte>, limit: nat, dataIndex: nat, slot: nat,
                   ghost before: seq<int>, ghost at: nat, ghost tokens: seq<Int64>)
    returns (ok: bool, dataIndex': nat, slot': nat, ghost at': nat, ghost tokens': seq<Int64>)
    requires slot < counts.Length <= INT32_MAX && dataIndex < limit && limit + 9 <= |data|
    requires Applying(counts[..], before, data, limit, dataIndex, slot, at, tokens)
    modifies counts
    ensures ok ==> dataIndex < dataIndex' && slot' <= counts.Length
    ensures ok ==> Applying(counts[..], before, data, limit, dataIndex', slot', at', tokens')
    ensures !ok ==> Stopped(HDR_TRAILING_ZEROS_INVALID, data, limit, counts.Length, at', tokens')
  {
    ghost var current := counts[..];
    var fits, n, width, v := ApplyToken(counts, data, dataIndex, slot);
    ok, dataIndex', slot' := fits, dataIndex + n, slot + width;
    at', tokens' := at, tokens;
    if fits {
      at', tokens' := ApplyingStep(current, counts[..], before, data, limit, at, slot, tokens, v, n);
    } else {
      RunDoesNotFit(current, before, data, limit, dataIndex, slot, at, tokens);
    }
  }

  /** The comparison after the loop. */
  function Conclusion(dataIndex: nat, limit: int): int {
    if dataIndex > limit then HDR_VALUE_TRUNCATED
    else if dataIndex < limit then HDR_ENCODED_INPUT_TOO_LONG
    else 0
  }

  /** The expansion of the tokens, and zeros after it. */
  function Filled(tokens: seq<Int64>, len: nat): seq<int>
    requires |Expand(tokens)| <= len
  {
    var rest: nat := len - |Expand(tokens)|;
    Expand(tokens) + seq(rest, _ => 0)
  }

  lemma {:induction false} LoopEnd(counts: seq<int>, before: seq<int>, data: seq<Byte>, limit: nat, dataIndex: nat,
                                   slot: nat, at: nat, tokens: seq<Int64>)
    requires limit + 9 <= |data| && slot <= |counts| == |before|
    requires Applying(counts, before, data, limit, dataIndex, slot, at, tokens)
    requires dataIndex >= limit || slot == |counts|
    ensures Stopped(Conclusion(dataIndex, limit), data, limit, |counts|, at, tokens)
    ensures dataIndex == limit && AllZero(before) ==> counts == Filled(tokens, |counts|)
  {
    Rejoin(counts, slot);
  }

  /** The loop of apply_to_counts_zz and what follows it. */
  method ApplyTokens(counts: array<int>, data: seq<Byte>, limit: nat)
    returns (rc: int, ghost at: nat, ghost tokens: seq<Int64>)
    requires counts.Length <= INT32_MAX && limit + 9 <= |data|
    modifies counts
    ensures Stopped(rc, data, limit, counts.Length, at, tokens)
    ensures |Expand(tokens)| <= counts.Length
    ensures rc == 0 && AllZero(old(counts[..])) ==> counts[..] == Filled(tokens, counts.Length)
  {
    ghost var before := counts[..];
    at, tokens := 0, [];
    var dataIndex: nat, slot: nat := 0, 0;
    while dataIndex < limit && slot < counts.Length
      invariant slot <= counts.Length
      invariant Applying(counts[..], before, data, limit, dataIndex, slot, at, tokens)
      decreases limit - dataIndex
    {
      var ok, next, nextSlot, at', tokens' := ApplyNext(counts, data, limit, dataIndex, slot, before, at, tokens);
      dataIndex, slot, at, tokens := next, nextSlot, at', tokens';
      if !ok {
        return HDR_TRAILING_ZEROS_INVALID, at, tokens;
      }
    }
    LoopEnd(counts[..], before, data, limit, dataIndex, slot, at, tokens);
    rc := Conclusion(dataIndex, limit);
  }

  /** apply_to_counts_zz, on data followed by nine more bytes.  It never reads past these, and
      nothing when the limit is negative. */
  method ApplyToCountsZz(counts: array<int>, data: seq<Byte>, limit: int)
    returns (rc: int, ghost at: nat, ghost tokens: seq<Int64>)
    requires counts.Length <= INT32_MAX && limit + 9 <= |data|
    modifies counts
    ensures limit < 0 ==> rc == HDR_VALUE_TRUNCATED && counts[..] == old(counts[..])
    ensures limit >= 0 ==> Stopped(rc, data, limit, counts.Length, at, tokens) && |Expand(tokens)| <= counts.Length
    ensures rc == 0 && AllZero(old(counts[..])) ==> limit >= 0 && counts[..] == Filled(tokens, counts.Length)
  {
    if limit < 0 {
      // the loop is not entered
      return Conclusion(0, limit), 0, [];
    }
    rc, at, tokens := ApplyTokens(counts, data, limit);
  }
}
