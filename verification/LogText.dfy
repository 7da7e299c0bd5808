/** The text of a log entry, as functions: how hdr_log_write_entry lays a line out, and how the
    state machine of hdr_log_read_entry takes it apart, one character at a time. */
module LogText {
  import opened Results

  datatype Timespec = Timespec(sec: nat, nsec: nat)

  /** What hdr_log_read_entry finds at a position: the end of the file, something that is not an
      entry, or an entry and the position behind it. */
  datatype Parsed = EndOfFile | Invalid | Entry(tag: Option<string>, start: Timespec, interval: Timespec, max: Timespec,
                                                histogram: string, next: nat)

  predicate IsDigit(c: char) { '0' <= c <= '9' }

  predicate IsNewline(c: char) { c == '\r' || c == '\n' }

  // ---------- reading numbers ----------

  /** The local variables of read_ahead_timestamp. */
  datatype Scanned = Scanned(inSeconds: bool, sec: nat, nsec: nat, multiplier: nat)

  const NOTHING_SCANNED := Scanned(true, 0, 0, 1_000_000_000)

  function DigitValue(c: char): nat
    requires IsDigit(c)
  {
    c as int - '0' as int
  }

  function ScanChar(s: Scanned, c: char): Scanned
    requires c == '.' || IsDigit(c)
  {
    if c == '.' then s.(inSeconds := false)
    else if s.inSeconds then s.(sec := s.sec * 10 + DigitValue(c))
    else s.(nsec := s.nsec * 10 + DigitValue(c), multiplier := s.multiplier / 10)
  }

  /** read_ahead_timestamp up to a comma, when s has been read already: what has been read then,
      and the position behind the comma. */
  function ReadNumber(text: string, pos: nat, s: Scanned): Option<(Scanned, nat)>
    requires pos <= |text|
    decreases |text| - pos
  {
    if pos == |text| then None
    else if text[pos] == ',' then Some((s, pos + 1))
    else if text[pos] == '.' || IsDigit(text[pos]) then ReadNumber(text, pos + 1, ScanChar(s, text[pos]))
    else None
  }

  lemma {:induction false} ReadNumberAdvances(text: string, pos: nat, s: Scanned)
    requires pos <= |text|
    ensures ReadNumber(text, pos, s).Some? ==> pos < ReadNumber(text, pos, s).value.1 <= |text|
    decreases |text| - pos
  {
    if pos < |text| && text[pos] != ',' && (text[pos] == '.' || IsDigit(text[pos])) {
      ReadNumberAdvances(text, pos + 1, ScanChar(s, text[pos]));
    }
  }

  /** read_ahead_timestamp: the time, and the position behind the comma. */
  function Time(text: string, pos: nat): (r: Option<(Timespec, nat)>)
    requires pos <= |text|
    ensures r.Some? ==> pos < r.value.1 <= |text|
  {
    ReadNumberAdvances(text, pos, NOTHING_SCANNED);
    match ReadNumber(text, pos, NOTHING_SCANNED)
    case None => None
    case Some((s, next)) => Some((TimeOf(s), next))
  }

  function TimeOf(s: Scanned): Timespec {
    Timespec(s.sec, s.nsec * s.multiplier)
  }

  // ---------- the states of hdr_log_read_entry ----------

  /** s stands in the text at pos. */
  predicate At(text: string, pos: nat, s: string) {
    pos + |s| <= |text| && text[pos..pos + |s|] == s
  }

  /** INIT */
  function FromInit(text: string, pos: nat): Parsed
    requires pos <= |text|
    decreases |text| - pos
  {
    if pos == |text| then EndOfFile
    else if text[pos] == 'T' then
      if At(text, pos + 1, "ag=") then FromTag(text, pos + 4, "") else Invalid
    else if IsDigit(text[pos]) then FromTimes(text, pos, None, [])
    else if IsNewline(text[pos]) then FromInit(text, pos + 1)
    else Invalid
  }

  /** TAG */
  function FromTag(text: string, pos: nat, tag: string): Parsed
    requires pos <= |text|
    decreases |text| - pos
  {
    if pos == |text| || IsNewline(text[pos]) then Invalid
    else if text[pos] == ',' then FromTimes(text, pos + 1, Some(tag), [])
    else FromTag(text, pos + 1, tag + [text[pos]])
  }

  /** BEGIN_TIMESTAMP, INTERVAL and MAX, with no, one or two of the three times read already. */
  function FromTimes(text: string, pos: nat, tag: Option<string>, times: seq<Timespec>): Parsed
    requires pos <= |text| && |times| <= 3
    decreases 3 - |times|
  {
    if |times| == 3 then FromHistogram(text, pos, tag, times, "")
    else
      match Time(text, pos)
      case None => Invalid
      case Some((time, next)) => FromTimes(text, next, tag, times + [time])
  }

  /** HISTOGRAM */
  function FromHistogram(text: string, pos: nat, tag: Option<string>, times: seq<Timespec>, histogram: string): Parsed
    requires pos <= |text| && |times| == 3
    decreases |text| - pos
  {
    if pos == |text| then Entry(tag, times[0], times[1], times[2], histogram, pos)
    else if IsNewline(text[pos]) then Entry(tag, times[0], times[1], times[2], histogram, pos + 1)
    else FromHistogram(text, pos + 1, tag, times, histogram + [text[pos]])
  }

  // ---------- the layout of hdr_log_write_entry ----------

  function DigitOf(d: nat): (c: char)
    requires d < 10
    ensures IsDigit(c) && DigitValue(c) == d
  {
    ('0' as int + d) as char
  }

  /** %d */
  function Decimal(n: nat): string {
    if n < 10 then [DigitOf(n)] else Decimal(n / 10) + [DigitOf(n % 10)]
  }

  function ThreeDigits(n: nat): string
    requires n < 1000
  {
    [DigitOf(n / 10 / 10), DigitOf(n / 10 % 10), DigitOf(n % 10)]
  }

  /** %.3f of a number of milliseconds that is printed in seconds. */
  function Seconds(ms: nat): string {
    Decimal(ms / 1000) + ("." + ThreeDigits(ms % 1000))
  }

  /** One entry to write; the histogram in Base64. */
  datatype Line = Line(tag: Option<string>, startMs: nat, intervalMs: nat, max: nat, histogram: string)
  {
    /** What the format can carry: a tag without commas and line breaks, and a histogram without
        line breaks. */
    ghost predicate Writable() {
      && (tag.Some? ==> |tag.value| > 0 && forall c | c in tag.value :: c != ',' && !IsNewline(c))
      && (forall c | c in histogram :: !IsNewline(c))
    }

    function TagText(): string {
      if tag.Some? then "Tag=" + (tag.value + ",") else ""
    }

    function NumbersText(): string {
      (Seconds(startMs) + ",") + ((Seconds(intervalMs) + ",") + (Decimal(max) + ".0,"))
    }

    function Text(): string {
      TagText() + (NumbersText() + (histogram + "\n"))
    }

    /** What reading it back gives. */
    function Entry(next: nat): Parsed {
      Parsed.Entry(tag, Time(startMs), Time(intervalMs), Timespec(max, 0), histogram, next)
    }

    function Times(): seq<Timespec> {
      [Time(startMs), Time(intervalMs), Timespec(max, 0)]
    }

    static function Time(ms: nat): Timespec {
      Timespec(ms / 1000, ms % 1000 * 1_000_000)
    }
  }

  // ---------- numbers are read back ----------

  lemma AtSplit(text: string, pos: nat, a: string, b: string)
    requires At(text, pos, a + b)
    ensures At(text, pos, a) && At(text, pos + |a|, b)
  {
    var whole := text[pos..pos + |a + b|];
    assert whole[..|a|] == a && whole[|a|..] == b;
    assert whole[..|a|] == text[pos..pos + |a|];
    assert whole[|a|..] == text[pos + |a|..pos + |a| + |b|];
  }

  lemma AtFirst(text: string, pos: nat, s: string)
    requires At(text, pos, s) && s != ""
    ensures text[pos] == s[0] && At(text, pos + 1, s[1..])
  {
    assert text[pos..pos + |s|][0] == text[pos];
    assert text[pos..pos + |s|][1..] == text[pos + 1..pos + |s|];
  }

  ghost predicate AllDigits(s: string) {
    forall c | c in s :: IsDigit(c)
  }

  /** The number that digits make when they follow those of acc. */
  function Continued(acc: nat, digits: string): nat
    requires AllDigits(digits)
    decreases |digits|
  {
    if digits == "" then acc else Continued(acc * 10 + DigitValue(digits[0]), digits[1..])
  }

  function DividedBy10(multiplier: nat, times: nat): nat {
    if times == 0 then multiplier else DividedBy10(multiplier / 10, times - 1)
  }

  /** What has been scanned after some digits. */
  function ScanDigits(s: Scanned, digits: string): Scanned
    requires AllDigits(digits)
  {
    if s.inSeconds then s.(sec := Continued(s.sec, digits))
    else s.(nsec := Continued(s.nsec, digits), multiplier := DividedBy10(s.multiplier, |digits|))
  }

  lemma {:induction false} ReadDigits(text: string, pos: nat, digits: string, s: Scanned)
    requires At(text, pos, digits) && AllDigits(digits)
    ensures ReadNumber(text, pos, s) == ReadNumber(text, pos + |digits|, ScanDigits(s, digits))
    decreases |digits|
  {
    if digits != "" {
      AtFirst(text, pos, digits);
      ReadDigits(text, pos + 1, digits[1..], ScanChar(s, digits[0]));
    }
  }

  lemma {:induction false} ContinuedLast(acc: nat, digits: string, c: char)
    requires AllDigits(digits) && IsDigit(c)
    ensures AllDigits(digits + [c]) && Continued(acc, digits + [c]) == Continued(acc, digits) * 10 + DigitValue(c)
    decreases |digits|
  {
    if digits == "" {
      assert digits + [c] == [c];
    } else {
      ContinuedLast(acc * 10 + DigitValue(digits[0]), digits[1..], c);
      assert (digits + [c])[1..] == digits[1..] + [c];
    }
  }

  /** Printing a number in decimal and reading the digits gives the number. */
  lemma {:induction false} DecimalRoundTrip(n: nat)
    ensures Decimal(n) != "" && AllDigits(Decimal(n)) && Continued(0, Decimal(n)) == n
  {
    if n >= 10 {
      DecimalRoundTrip(n / 10);
      ContinuedLast(0, Decimal(n / 10), DigitOf(n % 10));
    }
  }

  lemma ReadPoint(text: string, pos: nat, s: Scanned)
    requires At(text, pos, ".")
    ensures ReadNumber(text, pos, s) == ReadNumber(text, pos + 1, s.(inSeconds := false))
  {
    AtFirst(text, pos, ".");
  }

  lemma ReadComma(text: string, pos: nat, s: Scanned)
    requires At(text, pos, ",")
    ensures ReadNumber(text, pos, s) == Some((s, pos + 1))
  {
    AtFirst(text, pos, ",");
  }

  /** What has been scanned after digits, a point and more digits. */
  function Fixed(whole: nat, fraction: string): Scanned
    requires AllDigits(fraction)
  {
    Scanned(false, whole, Continued(0, fraction), DividedBy10(1_000_000_000, |fraction|))
  }

  lemma ReadFixed(text: string, pos: nat, whole: string, fraction: string)
    requires AllDigits(whole) && AllDigits(fraction)
    requires At(text, pos, whole) && At(text, pos + |whole|, ".") && At(text, pos + |whole| + 1, fraction)
    requires At(text, pos + |whole| + 1 + |fraction|, ",")
    ensures ReadNumber(text, pos, NOTHING_SCANNED)
         == Some((Fixed(Continued(0, whole), fraction), pos + |whole| + 1 + |fraction| + 1))
  {
    var point := pos + |whole|;
    var s := ScanDigits(NOTHING_SCANNED, whole);
    ReadDigits(text, pos, whole, NOTHING_SCANNED);
    ReadPoint(text, point, s);
    ReadDigits(text, point + 1, fraction, s.(inSeconds := false));
    ReadComma(text, point + 1 + |fraction|, Fixed(Continued(0, whole), fraction));
  }

  lemma FixedParts(text: string, pos: nat, whole: string, fraction: string)
    requires At(text, pos, whole + ("." + fraction)) && At(text, pos + |whole + ("." + fraction)|, ",")
    ensures At(text, pos, whole) && At(text, pos + |whole|, ".") && At(text, pos + |whole| + 1, fraction)
    ensures At(text, pos + |whole| + 1 + |fraction|, ",")
  {
    AtSplit(text, pos, whole, "." + fraction);
    AtSplit(text, pos + |whole|, ".", fraction);
  }

  lemma FixedRoundTrip(text: string, pos: nat, n: nat, fraction: string)
    requires AllDigits(fraction) && At(text, pos, Decimal(n) + ("." + fraction))
    requires At(text, pos + |Decimal(n) + ("." + fraction)|, ",")
    ensures Time(text, pos) == Some((TimeOf(Fixed(n, fraction)), pos + |Decimal(n) + ("." + fraction)| + 1))
  {
    DecimalRoundTrip(n);
    FixedParts(text, pos, Decimal(n), fraction);
    ReadFixed(text, pos, Decimal(n), fraction);
  }

  lemma ThreeDigitsRoundTrip(n: nat)
    requires n < 1000
    ensures AllDigits(ThreeDigits(n)) && Continued(0, ThreeDigits(n)) == n
  {
    var a, b, c := n / 10 / 10, n / 10 % 10, n % 10;
    ContinuedFirst(0, a, [DigitOf(b), DigitOf(c)]);
    ContinuedFirst(a, b, [DigitOf(c)]);
    ContinuedFirst(10 * a + b, c, "");
    assert [DigitOf(b)] + [DigitOf(c)] == [DigitOf(b), DigitOf(c)];
    assert [DigitOf(a)] + [DigitOf(b), DigitOf(c)] == ThreeDigits(n);
    SumOfDigits(n);
    assert [DigitOf(c)] + "" == [DigitOf(c)];
  }

  lemma SumOfDigits(n: nat)
    ensures 10 * (10 * (n / 10 / 10) + n / 10 % 10) + n % 10 == n
  {
    assert n / 10 == 10 * (n / 10 / 10) + n / 10 % 10;
  }

  lemma ContinuedFirst(acc: nat, d: nat, rest: string)
    requires d < 10 && AllDigits(rest)
    ensures AllDigits([DigitOf(d)] + rest) && Continued(acc, [DigitOf(d)] + rest) == Continued(acc * 10 + d, rest)
  {
    assert ([DigitOf(d)] + rest)[1..] == rest;
  }

  lemma MillisecondsScanned(sec: nat, ms: nat)
    requires ms < 1000
    ensures AllDigits(ThreeDigits(ms)) && TimeOf(Fixed(sec, ThreeDigits(ms))) == Timespec(sec, ms * 1_000_000)
  {
    ThreeDigitsRoundTrip(ms);
    assert DividedBy10(1_000_000_000, 3) == 1_000_000;
    assert Fixed(sec, ThreeDigits(ms)) == Scanned(false, sec, ms, 1_000_000);
  }

  lemma SecondsRoundTrip(text: string, pos: nat, ms: nat)
    requires At(text, pos, Seconds(ms) + ",")
    ensures Time(text, pos) == Some((Line.Time(ms), pos + |Seconds(ms) + ","|))
  {
    var sec, rest := ms / 1000, ms % 1000;
    AtSplit(text, pos, Decimal(sec) + ("." + ThreeDigits(rest)), ",");
    MillisecondsScanned(sec, rest);
    FixedRoundTrip(text, pos, sec, ThreeDigits(rest));
  }

  lemma MaxRoundTrip(text: string, pos: nat, max: nat)
    requires At(text, pos, Decimal(max) + ".0,")
    ensures Time(text, pos) == Some((Timespec(max, 0), pos + |Decimal(max) + ".0,"|))
  {
    assert Decimal(max) + ".0," == Decimal(max) + ("." + "0") + ",";
    AtSplit(text, pos, Decimal(max) + ("." + "0"), ",");
    FixedRoundTrip(text, pos, max, "0");
    assert Continued(0, "0") == 0;
  }

  // ---------- entries are read back ----------

  lemma {:induction false} TagRoundTrip(text: string, pos: nat, tag: string, soFar: string)
    requires At(text, pos, tag + ",") && forall c | c in tag :: c != ',' && !IsNewline(c)
    ensures FromTag(text, pos, soFar) == FromTimes(text, pos + |tag + ","|, Some(soFar + tag), [])
    decreases |tag|
  {
    AtFirst(text, pos, tag + ",");
    if tag == "" {
      assert soFar + tag == soFar;
    } else {
      assert (tag + ",")[1..] == tag[1..] + ",";
      assert forall c | c in tag[1..] :: c in tag;
      TagRoundTrip(text, pos + 1, tag[1..], soFar + [tag[0]]);
      assert soFar + [tag[0]] + tag[1..] == soFar + tag;
    }
  }

  lemma {:induction false} HistogramRoundTrip(text: string, pos: nat, tag: Option<string>, times: seq<Timespec>,
                                              histogram: string, soFar: string)
    requires |times| == 3 && At(text, pos, histogram + "\n") && forall c | c in histogram :: !IsNewline(c)
    ensures FromHistogram(text, pos, tag, times, soFar) ==
      Entry(tag, times[0], times[1], times[2], soFar + histogram, pos + |histogram + "\n"|)
    decreases |histogram|
  {
    AtFirst(text, pos, histogram + "\n");
    if histogram == "" {
      assert soFar + histogram == soFar;
    } else {
      assert (histogram + "\n")[1..] == histogram[1..] + "\n";
      assert forall c | c in histogram[1..] :: c in histogram;
      HistogramRoundTrip(text, pos + 1, tag, times, histogram[1..], soFar + [histogram[0]]);
      assert soFar + [histogram[0]] + histogram[1..] == soFar + histogram;
    }
  }

  /** Three numbers, one behind the other, are the start, the interval and the maximum. */
  lemma ReadThree(text: string, pos: nat, tag: Option<string>, p1: nat, p2: nat, p3: nat,
                  start: Timespec, interval: Timespec, max: Timespec)
    requires pos <= p1 <= p2 <= p3 <= |text|
    requires Time(text, pos) == Some((start, p1)) && Time(text, p1) == Some((interval, p2))
    requires Time(text, p2) == Some((max, p3))
    ensures FromTimes(text, pos, tag, []) == FromHistogram(text, p3, tag, [start, interval, max], "")
  {
    assert [] + [start] == [start];
    assert [start] + [interval] == [start, interval];
    assert [start, interval] + [max] == [start, interval, max];
    assert FromTimes(text, p2, tag, [start, interval]) == FromTimes(text, p3, tag, [start, interval, max]);
    assert FromTimes(text, p1, tag, [start]) == FromTimes(text, p2, tag, [start, interval]);
  }

  lemma NumbersRoundTrip(text: string, pos: nat, e: Line)
    requires At(text, pos, e.NumbersText())
    ensures FromTimes(text, pos, e.tag, []) == FromHistogram(text, pos + |e.NumbersText()|, e.tag, e.Times(), "")
  {
    var p1, p2, p3 := ThreeTimes(text, pos, e.startMs, e.intervalMs, e.max);
    ReadThree(text, pos, e.tag, p1, p2, p3, Line.Time(e.startMs), Line.Time(e.intervalMs), Timespec(e.max, 0));
  }

  lemma ThreeTimes(text: string, pos: nat, startMs: nat, intervalMs: nat, max: nat) returns (p1: nat, p2: nat, p3: nat)
    requires At(text, pos, (Seconds(startMs) + ",") + ((Seconds(intervalMs) + ",") + (Decimal(max) + ".0,")))
    ensures Time(text, pos) == Some((Line.Time(startMs), p1))
    ensures p1 <= |text| && Time(text, p1) == Some((Line.Time(intervalMs), p2))
    ensures p2 <= |text| && Time(text, p2) == Some((Timespec(max, 0), p3))
    ensures p3 == pos + |(Seconds(startMs) + ",") + ((Seconds(intervalMs) + ",") + (Decimal(max) + ".0,"))|
    ensures pos <= p1 <= p2 <= p3 <= |text|
  {
    var first, second, third := Seconds(startMs) + ",", Seconds(intervalMs) + ",", Decimal(max) + ".0,";
    AtSplit(text, pos, first, second + third);
    AtSplit(text, pos + |first|, second, third);
    SecondsRoundTrip(text, pos, startMs);
    SecondsRoundTrip(text, pos + |first|, intervalMs);
    MaxRoundTrip(text, pos + |first| + |second|, max);
    p1, p2, p3 := pos + |first|, pos + |first| + |second|, pos + |first| + |second| + |third|;
  }

  /** The tag, if there is one, is read first. */
  lemma InitRoundTrip(text: string, pos: nat, e: Line)
    requires e.Writable() && At(text, pos, e.TagText()) && At(text, pos + |e.TagText()|, e.NumbersText())
    ensures FromInit(text, pos) == FromTimes(text, pos + |e.TagText()|, e.tag, [])
  {
    if e.tag.Some? {
      TagPrefix(text, pos, e.tag.value);
      TagRoundTrip(text, pos + 4, e.tag.value, "");
      assert "" + e.tag.value == e.tag.value;
    } else {
      FirstDigit(text, pos, e);
    }
  }

  lemma TagPrefix(text: string, pos: nat, tag: string)
    requires At(text, pos, "Tag=" + (tag + ","))
    ensures FromInit(text, pos) == FromTag(text, pos + 4, "") && At(text, pos + 4, tag + ",")
  {
    AtSplit(text, pos, "Tag=", tag + ",");
    AtFirst(text, pos, "Tag=");
  }

  lemma FirstDigit(text: string, pos: nat, e: Line)
    requires At(text, pos, e.NumbersText())
    ensures FromInit(text, pos) == FromTimes(text, pos, None, [])
  {
    AtFirst(text, pos, e.NumbersText());
    DecimalRoundTrip(e.startMs / 1000);
    assert e.NumbersText()[0] == Decimal(e.startMs / 1000)[0];
  }

  lemma UntaggedRoundTrip(text: string, pos: nat, e: Line)
    requires e.Writable() && At(text, pos, e.NumbersText()) && At(text, pos + |e.NumbersText()|, e.histogram + "\n")
    ensures FromTimes(text, pos, e.tag, []) == e.Entry(pos + |e.NumbersText()| + |e.histogram + "\n"|)
  {
    NumbersRoundTrip(text, pos, e);
    HistogramRoundTrip(text, pos + |e.NumbersText()|, e.tag, e.Times(), e.histogram, "");
    assert "" + e.histogram == e.histogram;
  }

  lemma AtLine(text: string, pos: nat, e: Line)
    requires At(text, pos, e.Text())
    ensures var p := pos + |e.TagText()|;
      && At(text, pos, e.TagText()) && At(text, p, e.NumbersText())
      && At(text, p + |e.NumbersText()|, e.histogram + "\n")
      && p + |e.NumbersText()| + |e.histogram + "\n"| == pos + |e.Text()|
  {
    AtSplit(text, pos, e.TagText(), e.NumbersText() + (e.histogram + "\n"));
    AtSplit(text, pos + |e.TagText()|, e.NumbersText(), e.histogram + "\n");
  }

  /** A line that has been written reads back as its entry, and reading ends where the next line
      starts. */
  lemma LineRoundTrip(text: string, pos: nat, e: Line)
    requires e.Writable() && At(text, pos, e.Text())
    ensures FromInit(text, pos) == e.Entry(pos + |e.Text()|)
  {
    AtLine(text, pos, e);
    UntaggedRoundTrip(text, pos + |e.TagText()|, e);
    InitRoundTrip(text, pos, e);
  }

  // ---------- streams ----------

  function Stream(lines: seq<Line>): string {
    if lines == [] then "" else lines[0].Text() + Stream(lines[1..])
  }

  /** Repeated calls of hdr_log_read_entry find the lines in order, each ending where the next one
      starts, and then the end of the file. */
  ghost predicate ReadsAs(text: string, pos: nat, lines: seq<Line>)
    requires pos <= |text|
    decreases |lines|
  {
    if lines == [] then FromInit(text, pos) == EndOfFile
    else
      var next := pos + |lines[0].Text()|;
      next <= |text| && FromInit(text, pos) == lines[0].Entry(next) && ReadsAs(text, next, lines[1..])
  }

  lemma FirstLine(text: string, pos: nat, e: Line, rest: string) returns (next: nat)
    requires pos <= |text| && text[pos..] == e.Text() + rest && e.Writable()
    ensures next == pos + |e.Text()| <= |text| && FromInit(text, pos) == e.Entry(next) && text[next..] == rest
  {
    next := pos + |e.Text()|;
    AtSplit(text, pos, e.Text(), rest);
    LineRoundTrip(text, pos, e);
  }

  ghost predicate LinesWritable(lines: seq<Line>) {
    forall e | e in lines :: e.Writable()
  }

  lemma ReadsAsFirst(text: string, pos: nat, lines: seq<Line>, next: nat)
    requires lines != [] && next == pos + |lines[0].Text()| <= |text|
    ensures FromInit(text, pos) == lines[0].Entry(next) && ReadsAs(text, next, lines[1..]) ==> ReadsAs(text, pos, lines)
  {
  }

  lemma StreamEnds(text: string)
    ensures ReadsAs(text, |text|, [])
  {
  }

  /** Any sequence of lines is read back. */
  lemma {:induction false} StreamRoundTrip(text: string, pos: nat, lines: seq<Line>)
    requires pos <= |text| && text[pos..] == Stream(lines) && LinesWritable(lines)
    ensures ReadsAs(text, pos, lines)
    decreases |lines|
  {
    if lines == [] {
      StreamEnds(text);
    } else {
      var next := FirstLine(text, pos, lines[0], Stream(lines[1..]));
      StreamRoundTrip(text, next, lines[1..]);
      ReadsAsFirst(text, pos, lines, next);
    }
  }
}
