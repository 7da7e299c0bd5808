/** What hdr_log_read_entry takes for an entry, on any text at all: a grammar, and the proof that the
    state machine accepts exactly what it describes and reads the values it gives. */
module LogGrammar {
  import opened Bits
  import opened Results
  import opened LogText

  // ---------- numbers ----------

  /** Digits and points in any order, even none. */
  ghost predicate IsNumeral(n: string) {
    forall i | 0 <= i < |n| :: IsDigit(n[i]) || n[i] == '.'
  }

  /** The digits before the first point. */
  function Whole(n: string): string {
    if n == "" then ""
    else
      var q, c := n[..|n| - 1], n[|n| - 1];
      Whole(q) + if c == '.' || '.' in q then "" else [c]
  }

  /** The digits after it. */
  function Fraction(n: string): string {
    if n == "" then ""
    else
      var q, c := n[..|n| - 1], n[|n| - 1];
      Fraction(q) + if c != '.' && '.' in q then [c] else ""
  }

  /** The number that digits stand for. */
  function ValueOf(digits: string): nat
    requires AllDigits(digits)
  {
    if digits == "" then 0
    else 10 * ValueOf(digits[..|digits| - 1]) + DigitValue(digits[|digits| - 1])
  }

  lemma {:induction false} PartsAreDigits(n: string)
    requires IsNumeral(n)
    ensures AllDigits(Whole(n)) && AllDigits(Fraction(n))
  {
    if n != "" { PartsAreDigits(n[..|n| - 1]); }
  }

  /** The time that a numeral stands for.  From the tenth digit behind the point on nothing is left
      of the nanoseconds. */
  ghost function TimeFor(n: string): Timespec
    requires IsNumeral(n)
  {
    PartsAreDigits(n);
    Timespec(ValueOf(Whole(n)), Nanoseconds(ValueOf(Fraction(n)), |Fraction(n)|))
  }

  /** The nanoseconds of a fraction of a second with so many digits. */
  function Nanoseconds(fraction: nat, digits: nat): nat {
    if digits <= 9 then fraction * Pow10(9 - digits) else 0
  }

  ghost function ScanAll(s: Scanned, n: string): Scanned
    requires IsNumeral(n)
    decreases |n|
  {
    if n == "" then s else ScanAll(ScanChar(s, n[0]), n[1..])
  }

  lemma {:induction false} ScanLast(s: Scanned, n: string, c: char)
    requires IsNumeral(n) && (IsDigit(c) || c == '.')
    ensures IsNumeral(n + [c]) && ScanAll(s, n + [c]) == ScanChar(ScanAll(s, n), c)
    decreases |n|
  {
    if n == "" {
      assert n + [c] == [c];
    } else {
      ScanLast(ScanChar(s, n[0]), n[1..], c);
      assert (n + [c])[1..] == n[1..] + [c];
    }
  }

  lemma {:induction false} DividedLast(m: nat, times: nat)
    ensures DividedBy10(m, times + 1) == DividedBy10(m, times) / 10
  {
    if times != 0 { DividedLast(m / 10, times - 1); }
  }

  /** What has been scanned of a numeral. */
  ghost predicate Scans(s: Scanned, n: string)
    requires IsNumeral(n)
  {
    PartsAreDigits(n);
    && (s.inSeconds <==> '.' !in n)
    && s.sec == ValueOf(Whole(n)) && s.nsec == ValueOf(Fraction(n))
    && s.multiplier == DividedBy10(1_000_000_000, |Fraction(n)|)
  }

  lemma {:induction false} ScanMeans(n: string)
    requires IsNumeral(n)
    ensures Scans(ScanAll(NOTHING_SCANNED, n), n)
  {
    if n != "" {
      var q, c := n[..|n| - 1], n[|n| - 1];
      ScanMeans(q);
      ScanLast(NOTHING_SCANNED, q, c);
      assert n == q + [c];
      ScansOneMore(ScanAll(NOTHING_SCANNED, q), q, c);
    }
  }

  lemma {:induction false} ScansOneMore(s: Scanned, q: string, c: char)
    requires IsNumeral(q) && (IsDigit(c) || c == '.') && Scans(s, q)
    ensures IsNumeral(q + [c]) && Scans(ScanChar(s, c), q + [c])
  {
    PartsAreDigits(q);
    PartsAreDigits(q + [c]);
    assert (q + [c])[..|q|] == q;
    DividedLast(1_000_000_000, |Fraction(q)|);
    ValueOneMore(Whole(q), c);
    ValueOneMore(Fraction(q), c);
  }

  lemma ValueOneMore(digits: string, c: char)
    requires AllDigits(digits)
    ensures IsDigit(c) ==> AllDigits(digits + [c]) && ValueOf(digits + [c]) == 10 * ValueOf(digits) + DigitValue(c)
    ensures digits + "" == digits
  {
    assert (digits + [c])[..|digits|] == digits;
  }

  lemma {:induction false} Multiplier(times: nat)
    ensures DividedBy10(1_000_000_000, times) == if times <= 9 then Pow10(9 - times) else 0
  {
    if times == 0 {
      assert Pow10(9) == 1_000_000_000;
    } else {
      Multiplier(times - 1);
      DividedLast(1_000_000_000, times - 1);
    }
  }

  lemma ScannedTime(n: string)
    requires IsNumeral(n)
    ensures TimeOf(ScanAll(NOTHING_SCANNED, n)) == TimeFor(n)
  {
    PartsAreDigits(n);
    ScanMeans(n);
    Multiplier(|Fraction(n)|);
    Scaled(ValueOf(Fraction(n)), |Fraction(n)|, ScanAll(NOTHING_SCANNED, n).multiplier);
  }

  lemma Scaled(fraction: nat, digits: nat, multiplier: nat)
    requires multiplier == if digits <= 9 then Pow10(9 - digits) else 0
    ensures fraction * multiplier == Nanoseconds(fraction, digits)
  {
  }

  lemma {:induction false} ReadNumeral(text: string, pos: nat, n: string, s: Scanned)
    requires At(text, pos, n) && IsNumeral(n)
    ensures ReadNumber(text, pos, s) == ReadNumber(text, pos + |n|, ScanAll(s, n))
    decreases |n|
  {
    if n != "" {
      AtFirst(text, pos, n);
      ReadNumeral(text, pos + 1, n[1..], ScanChar(s, n[0]));
    }
  }

  lemma AtOneMore(text: string, pos: nat, s: string)
    requires pos < |text| && At(text, pos + 1, s)
    ensures At(text, pos, [text[pos]] + s)
  {
  }

  lemma {:induction false} NumeralFound(text: string, pos: nat, s: Scanned) returns (n: string)
    requires pos <= |text| && ReadNumber(text, pos, s).Some?
    ensures IsNumeral(n) && At(text, pos, n) && At(text, pos + |n|, ",")
    ensures ReadNumber(text, pos, s) == Some((ScanAll(s, n), pos + |n| + 1))
    decreases |text| - pos
  {
    if text[pos] == ',' {
      n := "";
    } else {
      var m := NumeralFound(text, pos + 1, ScanChar(s, text[pos]));
      n := [text[pos]] + m;
      AtOneMore(text, pos, m);
      assert n[1..] == m;
    }
  }

  /** The numeral n stands at pos with a comma behind it, and gives this time. */
  ghost predicate IsTimeAt(text: string, pos: nat, n: string, time: Timespec, next: nat) {
    IsNumeral(n) && At(text, pos, n + ",") && next == pos + |n| + 1 && time == TimeFor(n)
  }

  /** read_ahead_timestamp succeeds exactly on a numeral and a comma, and gives its time. */
  lemma TimeIff(text: string, pos: nat, time: Timespec, next: nat)
    requires pos <= |text|
    ensures Time(text, pos) == Some((time, next)) <==> exists n: string :: IsTimeAt(text, pos, n, time, next)
  {
    if Time(text, pos) == Some((time, next)) {
      var n := NumberFound(text, pos);
      assert IsTimeAt(text, pos, n, time, next);
    }
    if n: string :| IsTimeAt(text, pos, n, time, next) { NumeralRead(text, pos, n); }
  }

  lemma NumeralRead(text: string, pos: nat, n: string)
    requires IsNumeral(n) && At(text, pos, n + ",")
    ensures Time(text, pos) == Some((TimeFor(n), pos + |n| + 1))
  {
    AtSplit(text, pos, n, ",");
    ReadToComma(text, pos, n, NOTHING_SCANNED);
    ScannedTime(n);
  }

  lemma ReadToComma(text: string, pos: nat, n: string, s: Scanned)
    requires IsNumeral(n) && At(text, pos, n) && At(text, pos + |n|, ",")
    ensures ReadNumber(text, pos, s) == Some((ScanAll(s, n), pos + |n| + 1))
  {
    ReadNumeral(text, pos, n, s);
    ReadComma(text, pos + |n|, ScanAll(s, n));
  }

  // ---------- entries ----------

  /** The pieces of an entry: line breaks before it, the tag, the numerals of start, interval and
      maximum, the histogram and what follows it in the text. */
  datatype Parts = Parts(skipped: string, tag: Option<string>, numerals: seq<string>, histogram: string, after: string)
  {
    ghost predicate Valid() {
      && AllNewlines(skipped)
      && |numerals| == 3 && AreNumerals(numerals)
      && (if tag.Some? then IsTag(tag.value) else numerals[0] != "" && IsDigit(numerals[0][0]))
      && NoNewline(histogram) && (after != "" ==> IsNewline(after[0]))
    }

    function Text(): string { skipped + Tagged() }

    function Tagged(): string { TagText(tag) + Joined(numerals, histogram + after) }
  }

  ghost predicate AreNumerals(ns: seq<string>) {
    forall i | 0 <= i < |ns| :: IsNumeral(ns[i])
  }

  /** Numerals with a comma behind each. */
  function Joined(ns: seq<string>, rest: string): string {
    if ns == [] then rest else (ns[0] + ",") + Joined(ns[1..], rest)
  }

  ghost function TimesFor(ns: seq<string>): (times: seq<Timespec>)
    requires AreNumerals(ns)
    ensures |times| == |ns| && forall i | 0 <= i < |ns| :: times[i] == TimeFor(ns[i])
  {
    if ns == [] then [] else [TimeFor(ns[0])] + TimesFor(ns[1..])
  }

  function TagText(tag: Option<string>): string {
    if tag.Some? then "Tag=" + (tag.value + ",") else ""
  }

  ghost predicate AllNewlines(s: string) {
    forall i | 0 <= i < |s| :: IsNewline(s[i])
  }

  ghost predicate NoNewline(s: string) {
    forall i | 0 <= i < |s| :: !IsNewline(s[i])
  }

  ghost predicate IsTag(tag: string) {
    NoNewline(tag) && ',' !in tag
  }

  /** The entry that the pieces stand for; reading goes on behind the line break that ends it. */
  ghost function EntryOf(text: string, p: Parts): Parsed
    requires p.Valid() && |p.after| <= |text|
  {
    var end: nat := |text| - |p.after|;
    Entry(p.tag, TimeFor(p.numerals[0]), TimeFor(p.numerals[1]), TimeFor(p.numerals[2]), p.histogram,
          if p.after == "" then end else end + 1)
  }

  /** The text from pos on. */
  ghost predicate Remains(text: string, pos: nat, s: string) {
    pos <= |text| && text[pos..] == s
  }

  lemma RemainsSplit(text: string, pos: nat, a: string, b: string)
    requires Remains(text, pos, a + b)
    ensures At(text, pos, a) && Remains(text, pos + |a|, b)
  {
    assert text[pos..][..|a|] == a && text[pos..][|a|..] == b;
  }

  lemma RemainsJoin(text: string, pos: nat, a: string, b: string)
    requires At(text, pos, a) && Remains(text, pos + |a|, b)
    ensures Remains(text, pos, a + b)
  {
  }

  // ---------- what the grammar describes is accepted ----------

  lemma {:induction false} SkipRead(text: string, pos: nat, skipped: string)
    requires At(text, pos, skipped) && AllNewlines(skipped)
    ensures FromInit(text, pos) == FromInit(text, pos + |skipped|)
    decreases |skipped|
  {
    if skipped != "" {
      AtFirst(text, pos, skipped);
      assert IsNewline(skipped[0]);
      SkipRead(text, pos + 1, skipped[1..]);
    }
  }

  lemma {:induction false} HistogramRead(text: string, pos: nat, tag: Option<string>, times: seq<Timespec>,
                                         histogram: string, soFar: string, end: nat)
    requires |times| == 3 && At(text, pos, histogram) && NoNewline(histogram)
    requires end == pos + |histogram| && (end < |text| ==> IsNewline(text[end]))
    ensures FromHistogram(text, pos, tag, times, soFar)
         == Entry(tag, times[0], times[1], times[2], soFar + histogram, if end < |text| then end + 1 else end)
    decreases |histogram|
  {
    if histogram == "" {
      assert soFar + histogram == soFar;
    } else {
      AtFirst(text, pos, histogram);
      assert !IsNewline(histogram[0]);
      HistogramRead(text, pos + 1, tag, times, histogram[1..], soFar + [histogram[0]], end);
      assert soFar + [histogram[0]] + histogram[1..] == soFar + histogram;
    }
  }

  lemma RestRead(text: string, pos: nat, tag: Option<string>, times: seq<Timespec>, histogram: string, after: string)
    requires |times| == 3 && NoNewline(histogram) && (after != "" ==> IsNewline(after[0]))
    ensures Remains(text, pos, histogram + after) ==>
      var end := |text| - |after|;
      && end >= 0
      && FromHistogram(text, pos, tag, times, "")
         == Entry(tag, times[0], times[1], times[2], histogram, if after == "" then end else end + 1)
  {
    if Remains(text, pos, histogram + after) {
      var end := pos + |histogram|;
      RemainsSplit(text, pos, histogram, after);
      assert end < |text| ==> text[end] == text[end..][0];
      HistogramRead(text, pos, tag, times, histogram, "", end);
      assert "" + histogram == histogram;
    }
  }

  /** One number more. */
  lemma TimeRead(text: string, pos: nat, tag: Option<string>, times: seq<Timespec>, n: string, rest: string)
    returns (next: nat)
    requires |times| < 3 && IsNumeral(n)
    ensures Remains(text, pos, (n + ",") + rest) ==>
      && Remains(text, next, rest)
      && FromTimes(text, pos, tag, times) == FromTimes(text, next, tag, times + [TimeFor(n)])
  {
    next := pos + |n| + 1;
    if Remains(text, pos, (n + ",") + rest) {
      RemainsSplit(text, pos, n + ",", rest);
      NumeralRead(text, pos, n);
    }
  }

  lemma OneTimeMore(times: seq<Timespec>, ns: seq<string>)
    requires ns != [] && AreNumerals(ns)
    ensures times + [TimeFor(ns[0])] + TimesFor(ns[1..]) == times + TimesFor(ns)
  {
  }

  lemma {:induction false} TimesRead(text: string, pos: nat, tag: Option<string>, times: seq<Timespec>,
                                     ns: seq<string>, rest: string)
    returns (q: nat)
    requires |times| + |ns| == 3 && AreNumerals(ns)
    ensures Remains(text, pos, Joined(ns, rest)) ==>
      && Remains(text, q, rest)
      && FromTimes(text, pos, tag, times) == FromHistogram(text, q, tag, times + TimesFor(ns), "")
    decreases |ns|
  {
    if ns == [] {
      assert times + [] == times;
      q := pos;
    } else {
      OneTimeMore(times, ns);
      JoinedSplits(ns, rest);
      var next := TimeRead(text, pos, tag, times, ns[0], Joined(ns[1..], rest));
      q := TimesRead(text, next, tag, times + [TimeFor(ns[0])], ns[1..], rest);
    }
  }

  lemma JoinedSplits(ns: seq<string>, rest: string)
    requires ns != []
    ensures Joined(ns, rest) == (ns[0] + ",") + Joined(ns[1..], rest)
  {
  }

  lemma SomeTagRead(text: string, pos: nat, tag: string, q: nat)
    requires At(text, pos, "Tag=" + (tag + ",")) && IsTag(tag) && q == pos + 4 + |tag + ","|
    ensures q <= |text| && FromInit(text, pos) == FromTimes(text, q, Some(tag), [])
  {
    TagPrefix(text, pos, tag);
    CleanTagRead(text, pos + 4, tag, q);
  }

  lemma CleanTagRead(text: string, pos: nat, tag: string, q: nat)
    requires At(text, pos, tag + ",") && IsTag(tag) && q == pos + |tag + ","|
    ensures q <= |text| && FromTag(text, pos, "") == FromTimes(text, q, Some(tag), [])
  {
    TagRoundTrip(text, pos, tag, "");
    assert "" + tag == tag;
  }

  /** An entry may begin with this tag, or with these numbers when it has none. */
  ghost predicate Heads(tag: Option<string>, rest: string) {
    if tag.Some? then IsTag(tag.value) else rest != "" && IsDigit(rest[0])
  }

  lemma NoTagRead(text: string, pos: nat)
    requires pos < |text| && IsDigit(text[pos])
    ensures FromInit(text, pos) == FromTimes(text, pos, None, [])
  {
  }

  lemma FirstRemains(text: string, pos: nat, rest: string)
    requires Remains(text, pos, rest) && rest != ""
    ensures pos < |text| && text[pos] == rest[0]
  {
    assert text[pos] == text[pos..][0];
  }

  lemma TagRead(text: string, pos: nat, tag: Option<string>, rest: string) returns (q: nat)
    requires Remains(text, pos, TagText(tag) + rest) && Heads(tag, rest)
    ensures Remains(text, q, rest) && FromInit(text, pos) == FromTimes(text, q, tag, [])
  {
    RemainsSplit(text, pos, TagText(tag), rest);
    if tag.Some? {
      q := pos + |TagText(tag)|;
      SomeTagRead(text, pos, tag.value, q);
    } else {
      q := pos;
      FirstRemains(text, pos, rest);
      NoTagRead(text, pos);
    }
  }

  lemma FirstOfJoined(p: Parts, rest: string)
    requires p.Valid() && rest == Joined(p.numerals, p.histogram + p.after)
    ensures Heads(p.tag, rest)
  {
    JoinedSplits(p.numerals, p.histogram + p.after);
  }

  lemma AllTimesRead(text: string, pos: nat, tag: Option<string>, ns: seq<string>, rest: string) returns (q: nat)
    requires |ns| == 3 && AreNumerals(ns) && Remains(text, pos, Joined(ns, rest))
    ensures Remains(text, q, rest) && FromTimes(text, pos, tag, []) == FromHistogram(text, q, tag, TimesFor(ns), "")
  {
    q := TimesRead(text, pos, tag, [], ns, rest);
    assert [] + TimesFor(ns) == TimesFor(ns);
  }

  lemma NumeralsRead(text: string, pos: nat, p: Parts)
    requires p.Valid()
    ensures Remains(text, pos, Joined(p.numerals, p.histogram + p.after)) ==>
      |p.after| <= |text| && FromTimes(text, pos, p.tag, []) == EntryOf(text, p)
  {
    if Remains(text, pos, Joined(p.numerals, p.histogram + p.after)) {
      var q := AllTimesRead(text, pos, p.tag, p.numerals, p.histogram + p.after);
      RestRead(text, q, p.tag, TimesFor(p.numerals), p.histogram, p.after);
    }
  }

  lemma TagPassed(text: string, pos: nat, p: Parts) returns (q: nat)
    requires p.Valid() && Remains(text, pos, p.Tagged())
    ensures Remains(text, q, Joined(p.numerals, p.histogram + p.after))
    ensures FromInit(text, pos) == FromTimes(text, q, p.tag, [])
  {
    var rest := Joined(p.numerals, p.histogram + p.after);
    FirstOfJoined(p, rest);
    q := TagRead(text, pos, p.tag, rest);
  }

  lemma TaggedRead(text: string, pos: nat, p: Parts)
    requires p.Valid() && Remains(text, pos, p.Tagged())
    ensures |p.after| <= |text| && FromInit(text, pos) == EntryOf(text, p)
  {
    var q := TagPassed(text, pos, p);
    NumeralsRead(text, q, p);
  }

  lemma SkippedRead(text: string, pos: nat, skipped: string, rest: string) returns (q: nat)
    requires AllNewlines(skipped) && Remains(text, pos, skipped + rest)
    ensures Remains(text, q, rest) && FromInit(text, pos) == FromInit(text, q)
  {
    q := pos + |skipped|;
    RemainsSplit(text, pos, skipped, rest);
    SkipRead(text, pos, skipped);
  }

  lemma PartsRead(text: string, pos: nat, p: Parts)
    requires p.Valid() && Remains(text, pos, p.Text())
    ensures |p.after| <= |text| && FromInit(text, pos) == EntryOf(text, p)
  {
    var q := SkippedRead(text, pos, p.skipped, p.Tagged());
    TaggedRead(text, q, p);
  }

  // ---------- what is accepted the grammar describes ----------

  lemma {:induction false} SkipFound(text: string, pos: nat) returns (skipped: string)
    requires pos <= |text|
    ensures At(text, pos, skipped) && AllNewlines(skipped)
    ensures pos + |skipped| < |text| ==> !IsNewline(text[pos + |skipped|])
    decreases |text| - pos
  {
    if pos == |text| || !IsNewline(text[pos]) {
      skipped := "";
    } else {
      var rest := SkipFound(text, pos + 1);
      AtOneMore(text, pos, rest);
      skipped := [text[pos]] + rest;
    }
  }

  lemma {:induction false} TagFound(text: string, pos: nat, soFar: string) returns (tag: string)
    requires pos <= |text| && FromTag(text, pos, soFar).Entry?
    ensures At(text, pos, tag + ",") && IsTag(tag)
    decreases |text| - pos
  {
    if text[pos] == ',' {
      tag := "";
    } else {
      var rest := TagFound(text, pos + 1, soFar + [text[pos]]);
      AtOneMore(text, pos, rest + ",");
      tag := [text[pos]] + rest;
      assert tag + "," == [text[pos]] + (rest + ",");
    }
  }

  /** Behind the line breaks, the tag if there is one. */
  lemma HeadFound(text: string, pos: nat) returns (tag: Option<string>)
    requires pos < |text| && !IsNewline(text[pos]) && FromInit(text, pos).Entry?
    ensures if tag.Some? then IsTag(tag.value) else IsDigit(text[pos])
    ensures At(text, pos, TagText(tag)) && FromInit(text, pos) == FromTimes(text, pos + |TagText(tag)|, tag, [])
  {
    if text[pos] == 'T' {
      var name := TagFound(text, pos + 4, "");
      TagRoundTrip(text, pos + 4, name, "");
      assert "" + name == name;
      TagStands(text, pos, name);
      tag := Some(name);
    } else {
      tag := None;
    }
  }

  lemma TagStands(text: string, pos: nat, name: string)
    requires pos < |text| && text[pos] == 'T' && At(text, pos + 1, "ag=") && At(text, pos + 4, name + ",")
    ensures At(text, pos, "Tag=" + (name + ","))
  {
    AtOneMore(text, pos, "ag=");
    assert "Tag=" == ['T'] + "ag=";
    AtJoin(text, pos, "Tag=", name + ",");
  }

  lemma AtJoin(text: string, pos: nat, a: string, b: string)
    requires At(text, pos, a) && At(text, pos + |a|, b)
    ensures At(text, pos, a + b)
  {
  }

  lemma NumberFound(text: string, pos: nat) returns (n: string)
    requires pos <= |text| && Time(text, pos).Some?
    ensures IsNumeral(n) && At(text, pos, n + ",") && Time(text, pos) == Some((TimeFor(n), pos + |n| + 1))
  {
    n := NumeralFound(text, pos, NOTHING_SCANNED);
    AtJoin(text, pos, n, ",");
    ScannedTime(n);
  }

  lemma {:induction false} HistogramFound(text: string, pos: nat) returns (histogram: string, end: nat)
    requires pos <= |text|
    ensures At(text, pos, histogram) && NoNewline(histogram)
    ensures end == pos + |histogram| && (end < |text| ==> IsNewline(text[end]))
    decreases |text| - pos
  {
    if pos == |text| || IsNewline(text[pos]) {
      histogram, end := "", pos;
    } else {
      var rest;
      rest, end := HistogramFound(text, pos + 1);
      AtOneMore(text, pos, rest);
      histogram := [text[pos]] + rest;
    }
  }

  lemma RestFound(text: string, pos: nat) returns (histogram: string, after: string)
    requires pos <= |text|
    ensures Remains(text, pos, histogram + after) && NoNewline(histogram) && (after != "" ==> IsNewline(after[0]))
  {
    var end;
    histogram, end := HistogramFound(text, pos);
    after := text[end..];
    RemainsJoin(text, pos, histogram, after);
  }

  /** One number, if an entry follows. */
  lemma TimeFound(text: string, pos: nat, tag: Option<string>, times: seq<Timespec>) returns (n: string, next: nat)
    requires pos <= |text| && |times| < 3 && FromTimes(text, pos, tag, times).Entry?
    ensures IsNumeral(n) && At(text, pos, n + ",") && next == pos + |n + ","| <= |text|
    ensures FromTimes(text, next, tag, times + [TimeFor(n)]).Entry?
  {
    n := NumberFound(text, pos);
    next := pos + |n + ","|;
  }

  lemma {:induction false} TimesFound(text: string, pos: nat, tag: Option<string>, times: seq<Timespec>)
    returns (ns: seq<string>, q: nat)
    requires pos <= |text| && |times| <= 3 && FromTimes(text, pos, tag, times).Entry?
    ensures |times| + |ns| == 3 && AreNumerals(ns)
    ensures q <= |text| && Remains(text, pos, Joined(ns, text[q..]))
    decreases 3 - |times|
  {
    if |times| == 3 {
      ns, q := [], pos;
    } else {
      var n, next := TimeFound(text, pos, tag, times);
      var rest;
      rest, q := TimesFound(text, next, tag, times + [TimeFor(n)]);
      ns := [n] + rest;
      JoinedFirst(n, rest, text[q..]);
      RemainsJoin(text, pos, n + ",", Joined(rest, text[q..]));
    }
  }

  lemma JoinedFirst(n: string, ns: seq<string>, rest: string)
    ensures Joined([n] + ns, rest) == (n + ",") + Joined(ns, rest)
  {
    assert ([n] + ns)[1..] == ns;
  }

  lemma FirstDigitOf(text: string, pos: nat, ns: seq<string>, rest: string)
    requires Remains(text, pos, Joined(ns, rest)) && ns != [] && pos < |text| && IsDigit(text[pos])
    ensures ns[0] != "" && IsDigit(ns[0][0])
  {
    assert text[pos..][0] == Joined(ns, rest)[0];
  }

  lemma TaggedFound(text: string, pos: nat) returns (p: Parts)
    requires pos < |text| && !IsNewline(text[pos]) && FromInit(text, pos).Entry?
    ensures p.Valid() && p.skipped == "" && Remains(text, pos, p.Tagged())
  {
    var tag := HeadFound(text, pos);
    var q := pos + |TagText(tag)|;
    var ns, q1 := TimesFound(text, q, tag, []);
    var histogram, after := RestFound(text, q1);
    if tag.None? { FirstDigitOf(text, q, ns, text[q1..]); }
    p := Parts("", tag, ns, histogram, after);
    RemainsJoin(text, pos, TagText(tag), Joined(ns, histogram + after));
  }

  lemma PartsFound(text: string, pos: nat) returns (p: Parts)
    requires pos <= |text| && FromInit(text, pos).Entry?
    ensures p.Valid() && Remains(text, pos, p.Text())
  {
    var skipped := SkipFound(text, pos);
    SkipRead(text, pos, skipped);
    p := TaggedFound(text, pos + |skipped|);
    RemainsJoin(text, pos, skipped, p.Tagged());
    p := p.(skipped := skipped);
  }

  // ---------- exactly ----------

  /** The rest of the text falls into these pieces, and e is what they stand for. */
  ghost predicate Describes(p: Parts, text: string, pos: nat, e: Parsed) {
    p.Valid() && Remains(text, pos, p.Text()) && |p.after| <= |text| && e == EntryOf(text, p)
  }

  /** An entry is read exactly where the grammar describes one, and with the values it gives. */
  lemma EntryIff(text: string, pos: nat, e: Parsed)
    requires pos <= |text| && e.Entry?
    ensures FromInit(text, pos) == e <==> exists p: Parts :: Describes(p, text, pos, e)
  {
    if FromInit(text, pos) == e {
      var p := PartsFound(text, pos);
      PartsRead(text, pos, p);
      assert Describes(p, text, pos, e);
    }
    if p: Parts :| Describes(p, text, pos, e) { PartsRead(text, pos, p); }
  }

  lemma {:induction false} TagIsNotEnd(text: string, pos: nat, tag: string)
    requires pos <= |text|
    ensures FromTag(text, pos, tag) != EndOfFile
    decreases |text| - pos
  {
    if pos < |text| && !IsNewline(text[pos]) {
      if text[pos] == ',' {
        TimesAreNotEnd(text, pos + 1, Some(tag), []);
      } else {
        TagIsNotEnd(text, pos + 1, tag + [text[pos]]);
      }
    }
  }

  lemma {:induction false} TimesAreNotEnd(text: string, pos: nat, tag: Option<string>, times: seq<Timespec>)
    requires pos <= |text| && |times| <= 3
    ensures FromTimes(text, pos, tag, times) != EndOfFile
    decreases 3 - |times|
  {
    if |times| == 3 {
      var histogram, end := HistogramFound(text, pos);
      HistogramRead(text, pos, tag, times, histogram, "", end);
    } else if Time(text, pos).Some? {
      TimesAreNotEnd(text, Time(text, pos).value.1, tag, times + [Time(text, pos).value.0]);
    }
  }

  /** The end of the file is reported exactly when nothing but line breaks is left. */
  lemma EndIff(text: string, pos: nat)
    requires pos <= |text|
    ensures FromInit(text, pos) == EndOfFile <==> AllNewlines(text[pos..])
  {
    var skipped := SkipFound(text, pos);
    SkipRead(text, pos, skipped);
    var q := pos + |skipped|;
    if q == |text| {
      assert text[pos..] == skipped;
    } else {
      assert text[pos..][|skipped|] == text[q];
      if q + 4 <= |text| { TagIsNotEnd(text, q + 4, ""); }
      TimesAreNotEnd(text, q, None, []);
    }
  }
}
