/** Logs of histograms: what hdr_log_write_entry appends for any sequence of intervals,
    hdr_log_read_entry reads back, histograms included. */
module LogStream {
  import opened Bits
  import opened Leb128
  import opened BucketMath
  import opened Recording
  import opened Histograms
  import opened WireFormat
  import opened HistogramCodec
  import opened Results
  import opened Sequences
  import opened LogText
  import opened LogReader
  import Base64

  /** The Base64 text of an encoded histogram. */
  ghost function EncodedText(c: Config, s: State, ratioBits: nat): string
    requires c.Valid() && |s.counts| == c.countsLen && s.max >= 0 && FitsInt64(s.counts)
  {
    Base64.Encoding(Packed(MessageOf(c, s, ratioBits)))
  }

  /** hdr_log_encode */
  method LogEncode(h: Histogram, ratioBits: nat) returns (text: string)
    requires h.Valid() && h.maxValue >= 0 && FitsInt64(h.counts[..])
    ensures text == EncodedText(h.cfg, h.State(), ratioBits)
  {
    var bytes := EncodeCompressed(h, ratioBits);
    var output := new char[Base64.EncodedLen(|bytes|)];
    var rc := Base64.Encode(bytes, output);
    text := output[..];
  }

  /** The result of decoding any text: it must be whole groups of four. */
  ghost predicate TextDecodesTo(text: string, r: Decoding, tokens: seq<Int64>)
    reads if r.Decoded? then {r.h, r.h.counts} else {}
  {
    if |text| >= 4 && |text| % 4 == 0 then DecodesTo(Base64.Decoding(text), r, tokens) else r == Refused(-EINVAL)
  }

  /** hdr_log_decode into a new histogram. */
  method LogDecode(text: string) returns (r: Decoding, ghost tokens: seq<Int64>)
    ensures TextDecodesTo(text, r, tokens)
    ensures r.Decoded? ==> fresh(r.h) && fresh(r.h.counts)
  {
    var output := new Byte[Base64.DecodedLen(|text|)];
    var rc := Base64.Decode(text, output);
    if rc != 0 {
      return Refused(rc), [];
    }
    r, tokens := DecodeCompressed(output[..]);
  }

  /** The line for a histogram with contents s.  An empty tag is no tag. */
  ghost function LineOf(tag: Option<string>, startMs: nat, intervalMs: nat, c: Config, s: State, ratioBits: nat): Line
    requires c.Valid() && |s.counts| == c.countsLen && s.max >= 0 && FitsInt64(s.counts)
  {
    Line(if tag == Some("") then None else tag,
         startMs, intervalMs, ReportedMax(c, s.max), EncodedText(c, s, ratioBits))
  }

  /** hdr_log_write_entry, for times in whole milliseconds. */
  method WriteEntry(f: File, tag: Option<string>, startMs: nat, intervalMs: nat, h: Histogram, ratioBits: nat)
    requires f.Valid() && h.Valid() && h.maxValue >= 0 && FitsInt64(h.counts[..])
    modifies f`text
    ensures f.Valid()
    ensures f.text == old(f.text) + LineOf(tag, startMs, intervalMs, h.cfg, h.State(), ratioBits).Text()
  {
    var encoded := LogEncode(h, ratioBits);
    var hasTag := tag.Some? && 0 < |tag.value|;
    f.Append(Line(if hasTag then tag else None, startMs, intervalMs, h.Max(), encoded).Text());
  }

  /** hdr_log_read_entry into a new histogram, for any text. */
  method ReadEntry(f: File, entry: LogEntry) returns (r: Decoding, ghost tokens: seq<Int64>)
    requires f.Valid()
    modifies f`pos, entry.Footprint()
    ensures f.Valid()
    ensures match FromInit(f.text, old(f.pos))
      case EndOfFile => r == Refused(EOF)
      case Invalid => r == Refused(-EINVAL)
      case Entry(tag, start, interval, max, text, next) =>
        && f.pos == next && TextDecodesTo(text, r, tokens)
        && entry.start == start && entry.interval == interval && entry.max == max
        && |entry.Buffer()| == |old(entry.Buffer())|
        && if tag.None? then entry.Buffer() == old(entry.Buffer())
           else if |tag.value| < |entry.Buffer()| then
             && entry.Buffer()[..|tag.value|] == tag.value && entry.Buffer()[|tag.value|] == '\0'
             && entry.Buffer()[|tag.value| + 1..] == old(entry.Buffer())[|tag.value| + 1..]
           else entry.Buffer() == tag.value[..|entry.Buffer()|]
  {
    var rc, text := ScanEntry(f, entry);
    if rc != 0 {
      return Refused(rc), [];
    }
    r, tokens := LogDecode(text);
  }

  // ---------- reading undoes writing ----------

  lemma {:induction false} Base64Follows(bytes: seq<Byte>) returns (after: seq<Byte>)
    requires bytes != []
    ensures var text := Base64.Encoding(bytes); |text| >= 4 && |text| % 4 == 0 && Base64.Decoding(text) == bytes + after
  {
    Base64.WholeGroups(bytes);
    Base64.Base64RoundTrip(bytes);
    after := seq(Base64.Missing(|bytes|), _ => 0);
  }

  /** The text of a histogram decodes, and only to a histogram that restores it. */
  lemma TextIsRecoverable(c: Config, s: State, ratioBits: nat)
    requires c.Valid() && Bounded(c, s) && FitsInt64(s.counts) && ratioBits < TWO_TO_64
    ensures var text := EncodedText(c, s, ratioBits);
      |text| >= 4 && |text| % 4 == 0 && Recoverable(c, s, Base64.Decoding(text))
  {
    var m := MessageOf(c, s, ratioBits);
    PackedNotEmpty(m);
    var after := Base64Follows(Packed(m));
    DecodingUndoesEncoding(c, s, ratioBits, after);
  }

  /** The round trip of hdr_log_encode and hdr_log_decode. */
  lemma {:induction false} TextRoundTrip(c: Config, s: State, ratioBits: nat, r: Decoding, tokens: seq<Int64>)
    requires c.Valid() && Bounded(c, s) && FitsInt64(s.counts) && ratioBits < TWO_TO_64
    requires TextDecodesTo(EncodedText(c, s, ratioBits), r, tokens)
    ensures r.Decoded? && r.h.cfg == c && c.countsLen > 0 && Restores(c, s, r.h.State())
  {
    TextIsRecoverable(c, s, ratioBits);
    DecodedRestores(c, s, Base64.Decoding(EncodedText(c, s, ratioBits)), r, tokens);
  }

  lemma PackedNotEmpty(m: Message)
    ensures Packed(m) != []
  {
  }

  lemma {:induction false} NoNewlines(bytes: seq<Byte>)
    ensures forall x | x in Base64.Encoding(bytes) :: !IsNewline(x)
  {
    if |bytes| >= 3 { NoNewlines(bytes[3..]); }
  }

  /** One call of hdr_log_write_entry. */
  datatype Interval = Interval(tag: Option<string>, startMs: nat, intervalMs: nat,
                               cfg: Config, contents: State, ratioBits: nat)
  {
    ghost predicate Writable() {
      && (tag.Some? ==> forall x | x in tag.value :: x != ',' && !IsNewline(x))
      && cfg.Valid() && Bounded(cfg, contents) && FitsInt64(contents.counts) && ratioBits < TWO_TO_64
    }

    ghost function Line(): Line
      requires Writable()
    {
      LineOf(tag, startMs, intervalMs, cfg, contents, ratioBits)
    }
  }

  ghost predicate AllWritable(log: seq<Interval>) {
    forall k | 0 <= k < |log| :: log[k].Writable()
  }

  lemma LineIsWritable(i: Interval)
    requires i.Writable()
    ensures i.Line().Writable()
  {
    NoNewlines(Packed(MessageOf(i.cfg, i.contents, i.ratioBits)));
  }

  /** The text that these calls append to an empty file. */
  ghost function Written(log: seq<Interval>): string
    requires AllWritable(log)
  {
    if log == [] then "" else log[0].Line().Text() + Written(log[1..])
  }

  /** One more call appends its line. */
  lemma {:induction false} WrittenOneMore(log: seq<Interval>, i: Interval)
    requires AllWritable(log) && i.Writable()
    ensures Written(log + [i]) == Written(log) + i.Line().Text()
    decreases |log|
  {
    if log == [] {
      assert log + [i] == [i];
      assert Written([i]) == i.Line().Text() + Written([i][1..]);
    } else {
      assert (log + [i])[1..] == log[1..] + [i];
      WrittenOneMore(log[1..], i);
      Assoc(log[0].Line().Text(), Written(log[1..]), i.Line().Text());
    }
  }

  /** An entry as it has to be read for a call: the tag, the times in seconds and nanoseconds, the
      greatest value, and a text from which only the histogram can be decoded. */
  ghost predicate IsEntryOf(i: Interval, p: Parsed)
    requires i.Writable()
  {
    && p.Entry?
    && p.tag == (if i.tag == Some("") then None else i.tag)
    && p.start == Timespec(i.startMs / 1000, i.startMs % 1000 * 1_000_000)
    && p.interval == Timespec(i.intervalMs / 1000, i.intervalMs % 1000 * 1_000_000)
    && p.max == Timespec(ReportedMax(i.cfg, i.contents.max), 0)
    && |p.histogram| >= 4 && |p.histogram| % 4 == 0
    && Recoverable(i.cfg, i.contents, Base64.Decoding(p.histogram))
  }

  /** Repeated calls of hdr_log_read_entry find one entry for each call, in order, and then the end of
      the file. */
  ghost predicate ReadsBack(text: string, pos: nat, log: seq<Interval>)
    requires pos <= |text| && AllWritable(log)
    decreases |log|
  {
    var p := FromInit(text, pos);
    if log == [] then p == EndOfFile
    else IsEntryOf(log[0], p) && pos < p.next <= |text| && ReadsBack(text, p.next, log[1..])
  }

  lemma LineShows(i: Interval, next: nat)
    requires i.Writable()
    ensures IsEntryOf(i, i.Line().Entry(next)) && i.Line().Entry(next).next == next && |i.Line().Text()| > 0
  {
    TextIsRecoverable(i.cfg, i.contents, i.ratioBits);
  }

  lemma FirstReadsBack(text: string, pos: nat, i: Interval, rest: string) returns (next: nat)
    requires i.Writable() && pos <= |text| && text[pos..] == i.Line().Text() + rest
    ensures pos < next <= |text| && text[next..] == rest
    ensures IsEntryOf(i, FromInit(text, pos)) && FromInit(text, pos).next == next
  {
    next := FirstLineRead(text, pos, i, rest);
    LineShows(i, next);
  }

  lemma FirstLineRead(text: string, pos: nat, i: Interval, rest: string) returns (next: nat)
    requires i.Writable() && pos <= |text| && text[pos..] == i.Line().Text() + rest
    ensures next == pos + |i.Line().Text()| <= |text| && text[next..] == rest
    ensures FromInit(text, pos) == i.Line().Entry(next)
  {
    LineIsWritable(i);
    next := FirstLine(text, pos, i.Line(), rest);
  }

  lemma EndReadsBack(text: string)
    ensures ReadsBack(text, |text|, [])
  {
  }

  lemma {:induction false} WrittenReadsBack(text: string, pos: nat, log: seq<Interval>)
    requires pos <= |text| && AllWritable(log) && text[pos..] == Written(log)
    ensures ReadsBack(text, pos, log)
    decreases |log|
  {
    if log == [] {
      EndReadsBack(text);
    } else {
      var next := FirstReadsBack(text, pos, log[0], Written(log[1..]));
      WrittenReadsBack(text, next, log[1..]);
    }
  }

  /** A log of any intervals reads back, entry by entry and then to the end of the file, with the
      tags and times written, and with histograms that show what was recorded. */
  lemma LogRoundTrip(log: seq<Interval>)
    requires AllWritable(log)
    ensures ReadsBack(Written(log), 0, log)
  {
    WrittenReadsBack(Written(log), 0, log);
  }
}
