/** hdr_log_read_entry as the state machine it is, proved against the functions of LogText for
    every text. */
module LogReader {
  import opened Results
  import opened LogText

  const EOF := -1

  /** FILE: the text and the position of the next character. */
  class File {
    var text: string
    var pos: nat

    ghost predicate Valid()
      reads this
    {
      pos <= |text|
    }

    constructor ()
      ensures Valid() && text == "" && pos == 0
    {
      text, pos := "", 0;
    }

    /** fgetc */
    method Getc() returns (c: int)
      requires Valid()
      modifies this`pos
      ensures Valid()
      ensures if old(pos) == |text| then c == EOF && pos == old(pos)
              else c == text[old(pos)] as int && pos == old(pos) + 1
    {
      if pos == |text| {
        return EOF;
      }
      c, pos := text[pos] as int, pos + 1;
    }

    /** ungetc of the character just read */
    method Ungetc()
      requires pos > 0
      modifies this`pos
      ensures pos == old(pos) - 1
    {
      pos := pos - 1;
    }

    /** fprintf of a text at the end of the file */
    method Append(s: string)
      requires Valid()
      modifies this`text
      ensures Valid() && text == old(text) + s
    {
      text := text + s;
    }
  }

  /** struct hdr_log_entry; its tag is a buffer of the caller, or none. */
  class LogEntry {
    var start: Timespec
    var interval: Timespec
    var max: Timespec
    const tag: Option<array<char>>

    constructor (buffer: Option<array<char>>)
      ensures tag == buffer
    {
      tag := buffer;
      start, interval, max := Timespec(0, 0), Timespec(0, 0), Timespec(0, 0);
    }

    ghost function Footprint(): set<object> {
      {this} + if tag.Some? then {tag.value} else {}
    }

    /** What the tag buffer holds. */
    ghost function Buffer(): string
      reads Footprint()
    {
      if tag.Some? then tag.value[..] else ""
    }
  }

  /** The tag buffer after the characters of a tag have been stored in it, as far as they fit. */
  function StoredSoFar(buffer: string, tag: string): (s: string)
    ensures |s| == |buffer|
  {
    if |tag| < |buffer| then tag + buffer[|tag|..] else tag[..|buffer|]
  }

  /** The tag buffer after a tag: the tag and a terminator, or as much of the tag as fits. */
  function Stored(buffer: string, tag: string): (s: string)
    ensures |s| == |buffer|
  {
    if |tag| < |buffer| then StoredSoFar(buffer, tag)[|tag| := '\0'] else tag[..|buffer|]
  }

  /** read_ahead */
  method ReadAhead(f: File, prefix: string) returns (ok: bool)
    requires f.Valid()
    modifies f`pos
    ensures f.Valid() && (ok <==> At(f.text, old(f.pos), prefix))
    ensures ok ==> f.pos == old(f.pos) + |prefix|
  {
    for i := 0 to |prefix|
      invariant f.Valid() && f.pos == old(f.pos) + i
      invariant f.text[old(f.pos)..f.pos] == prefix[..i]
    {
      var c := f.Getc();
      if prefix[i] as int != c {
        Mismatch(f.text, old(f.pos), prefix, i);
        return false;
      }
    }
    assert prefix[..|prefix|] == prefix;
    return true;
  }

  lemma Mismatch(text: string, pos: nat, s: string, i: nat)
    requires i < |s| && pos + i <= |text|
    requires pos + i == |text| || text[pos + i] != s[i]
    ensures !At(text, pos, s)
  {
    if pos + |s| <= |text| {
      assert text[pos..pos + |s|][i] == text[pos + i];
    }
  }

  /** read_ahead_timestamp, for the terminator ',' that all its callers pass. */
  method ReadAheadTimestamp(f: File) returns (ok: bool, timestamp: Timespec)
    requires f.Valid()
    modifies f`pos
    ensures f.Valid()
    ensures match Time(f.text, old(f.pos))
      case None => !ok
      case Some((time, next)) => ok && timestamp == time && f.pos == next
  {
    ghost var goal := ReadNumber(f.text, f.pos, NOTHING_SCANNED);
    timestamp := Timespec(0, 0);
    var isSeconds, sec: nat, nsec: nat, multiplier: nat := true, 0, 0, 1_000_000_000;
    var c := f.Getc();
    while c != EOF
      invariant f.Valid() && (c == EOF ==> f.pos == |f.text| && goal == None)
      invariant c != EOF ==>
        && f.pos > 0 && c == f.text[f.pos - 1] as int
        && goal == ReadNumber(f.text, f.pos - 1, Scanned(isSeconds, sec, nsec, multiplier))
      decreases |f.text| - f.pos, c != EOF
    {
      if c == ',' as int {
        timestamp := Timespec(sec, nsec * multiplier);
        return true, timestamp;
      } else if c == '.' as int {
        isSeconds := false;
      } else if '0' as int <= c <= '9' as int {
        if isSeconds {
          sec := sec * 10 + (c - '0' as int);
        } else {
          nsec := nsec * 10 + (c - '0' as int);
          multiplier := multiplier / 10;
        }
      } else {
        return false, timestamp;
      }
      c := f.Getc();
    }
    return false, timestamp;
  }

  /** enum parse_log_state */
  datatype ParseState = INIT | TAG | BEGIN_TIMESTAMP | INTERVAL | MAX | HISTOGRAM | DONE
  {
    function StepsLeft(): nat {
      match this
      case INIT => 6
      case TAG => 5
      case BEGIN_TIMESTAMP => 4
      case INTERVAL => 3
      case MAX => 2
      case HISTOGRAM => 1
      case DONE => 0
    }
  }

  /** A call of hdr_log_read_entry: its arguments and local variables. */
  class EntryReader {
    const file: File
    const entry: LogEntry
    var state: ParseState
    var tagOffset: nat
    var base64: array<char>
    var base64Len: nat

    // what has been found, and how the tag buffer was
    ghost const goal: Parsed
    ghost const before: string
    ghost var tag: Option<string>

    constructor (f: File, e: LogEntry)
      requires f.Valid()
      ensures file == f && entry == e && state == INIT && fresh(base64) && Valid()
      ensures goal == FromInit(f.text, f.pos) && before == e.Buffer()
    {
      file, entry, state, tagOffset, base64Len := f, e, INIT, 0, 0;
      base64 := new char[1024](_ => '\0');
      goal, before, tag := FromInit(f.text, f.pos), e.Buffer(), None;
    }

    ghost predicate Valid()
      reads this, file, entry.Footprint(), base64
    {
      && file.Valid() && base64Len <= base64.Length && base64.Length > 0 && base64 !in entry.Footprint()
      && entry.Buffer() == TagBuffer()
      && goal == Remaining()
      && (state == TAG ==> tag.Some? && tagOffset == Smaller(|tag.value|, |before|))
      && (state == INIT ==> tag.None? && tagOffset == 0)
      && (state != HISTOGRAM && state != DONE ==> base64Len == 0)
    }

    /** The tag buffer in the current state. */
    ghost function TagBuffer(): string
      reads this
    {
      if tag.None? then before else if state == TAG then StoredSoFar(before, tag.value) else Stored(before, tag.value)
    }

    /** What the rest of the text makes of what has been read already. */
    ghost function Remaining(): Parsed
      reads this, file, entry, base64
      requires file.Valid() && base64Len <= base64.Length
    {
      match state
      case INIT => FromInit(file.text, file.pos)
      case TAG => if tag.Some? then FromTag(file.text, file.pos, tag.value) else Invalid
      case BEGIN_TIMESTAMP => FromTimes(file.text, file.pos, tag, [])
      case INTERVAL => FromTimes(file.text, file.pos, tag, [entry.start])
      case MAX => FromTimes(file.text, file.pos, tag, [entry.start, entry.interval])
      case HISTOGRAM =>
        FromHistogram(file.text, file.pos, tag, [entry.start, entry.interval, entry.max], base64[..base64Len])
      case DONE => Entry(tag, entry.start, entry.interval, entry.max, base64[..base64Len], file.pos)
    }

    /** A step either continues or fails with what has been found. */
    ghost predicate Stepped(rc: int)
      reads this, file, entry.Footprint(), base64
    {
      if rc == 0 then Valid() else goal == (if rc == EOF then EndOfFile else Invalid) && (rc == EOF || rc == -EINVAL)
    }

    /** case INIT */
    method StepInit() returns (rc: int)
      requires Valid() && state == INIT
      modifies this`state, this`tag, file`pos
      ensures Stepped(rc) && file.Valid()
      ensures rc == 0 ==>
        file.pos > old(file.pos) || (file.pos == old(file.pos) && state.StepsLeft() < old(state).StepsLeft())
    {
      var c := file.Getc();
      if c == 'T' as int {
        var found := ReadAhead(file, "ag=");
        if !found {
          return -EINVAL;
        }
        state, tag := TAG, Some("");
        assert StoredSoFar(before, "") == before;
      } else if '0' as int <= c <= '9' as int {
        file.Ungetc();
        state := BEGIN_TIMESTAMP;
      } else if c == '\r' as int || c == '\n' as int {
      } else if c == EOF {
        return EOF;
      } else {
        return -EINVAL;
      }
      return 0;
    }

    /** case TAG */
    method StepTag() returns (rc: int)
      requires Valid() && state == TAG
      modifies this`state, this`tag, this`tagOffset, file`pos
      modifies if entry.tag.Some? then {entry.tag.value} else {}
      ensures Stepped(rc) && file.Valid()
      ensures rc == 0 ==> file.pos > old(file.pos)
    {
      var c := file.Getc();
      if c == ',' as int {
        if entry.tag.Some? && tagOffset < entry.tag.value.Length {
          entry.tag.value[tagOffset] := '\0';
        }
        state := BEGIN_TIMESTAMP;
      } else if c == '\r' as int || c == '\n' as int || c == EOF {
        return -EINVAL;
      } else {
        if entry.tag.Some? && tagOffset < entry.tag.value.Length {
          entry.tag.value[tagOffset] := c as char;
          tagOffset := tagOffset + 1;
        }
        StoreOne(before, tag.value, c as char);
        tag := Some(tag.value + [c as char]);
      }
      return 0;
    }

    /** case BEGIN_TIMESTAMP, INTERVAL and MAX */
    method StepTime() returns (rc: int)
      requires Valid() && (state == BEGIN_TIMESTAMP || state == INTERVAL || state == MAX)
      modifies this`state, entry, file`pos
      ensures Stepped(rc) && file.Valid()
      ensures rc == 0 ==> file.pos > old(file.pos)
    {
      var found, time := ReadAheadTimestamp(file);
      if !found {
        return -EINVAL;
      }
      ghost var t1, t2 := entry.start, entry.interval;
      assert [] + [time] == [time] && [t1] + [time] == [t1, time] && [t1, t2] + [time] == [t1, t2, time];
      if state == BEGIN_TIMESTAMP {
        entry.start := time;
        state := INTERVAL;
      } else if state == INTERVAL {
        entry.interval := time;
        state := MAX;
      } else {
        entry.max := time;
        state := HISTOGRAM;
        assert base64[..0] == "";
        assert FromTimes(file.text, file.pos, tag, [t1, t2, time])
            == FromHistogram(file.text, file.pos, tag, [t1, t2, time], "");
      }
      return 0;
    }

    /** The buffer is doubled when it is full. */
    method Grow()
      requires base64Len == base64.Length
      modifies this`base64
      ensures fresh(base64) && base64.Length == 2 * old(base64.Length)
      ensures base64[..base64Len] == old(base64[..base64Len])
    {
      var current := base64;
      var larger := new char[2 * current.Length](
        i requires 0 <= i reads current => if i < current.Length then current[i] else '\0');
      assert larger[..base64Len] == current[..base64Len];
      base64 := larger;
    }

    method Collect(c: char)
      requires base64Len <= base64.Length && base64.Length > 0
      modifies this`base64, this`base64Len, base64
      ensures base64 == old(base64) || fresh(base64)
      ensures 0 < base64Len <= base64.Length && base64[..base64Len] == old(base64[..base64Len]) + [c]
    {
      if base64Len == base64.Length {
        Grow();
      }
      ghost var soFar := base64[..base64Len];
      base64[base64Len] := c;
      base64Len := base64Len + 1;
      assert base64[..base64Len] == soFar + [c];
    }

    /** case HISTOGRAM */
    method StepHistogram()
      requires Valid() && state == HISTOGRAM
      modifies this`state, this`base64, this`base64Len, file`pos, base64
      ensures Valid() && (base64 == old(base64) || fresh(base64))
      ensures file.pos > old(file.pos) || (file.pos == old(file.pos) && state == DONE)
    {
      var c := file.Getc();
      if c != '\r' as int && c != '\n' as int && c != EOF {
        Collect(c as char);
      } else {
        state := DONE;
      }
    }

    /** The loop of hdr_log_read_entry, up to DONE. */
    method Run() returns (rc: int)
      requires Valid() && state == INIT
      modifies this, file`pos, entry, base64
      modifies if entry.tag.Some? then {entry.tag.value} else {}
      ensures file.Valid() && Stepped(rc)
      ensures rc == 0 ==> state == DONE
    {
      rc := 0;
      while state != DONE
        invariant Valid() && rc == 0 && (base64 == old(base64) || fresh(base64))
        decreases |file.text| - file.pos, state.StepsLeft()
      {
        if state == INIT {
          rc := StepInit();
        } else if state == TAG {
          rc := StepTag();
        } else if state == HISTOGRAM {
          StepHistogram();
        } else {
          rc := StepTime();
        }
        if rc != 0 {
          return;
        }
      }
    }
  }

  lemma StoreOne(buffer: string, tag: string, c: char)
    ensures StoredSoFar(buffer, tag + [c]) ==
      if |tag| < |buffer| then StoredSoFar(buffer, tag)[|tag| := c] else StoredSoFar(buffer, tag)
  {
  }

  function Smaller(a: nat, b: nat): nat {
    if a < b then a else b
  }

  /** With room to spare the buffer holds the tag and a terminator, and otherwise as much of the tag
      as fits. */
  lemma StoredTag(buffer: string, tag: string)
    ensures var s := Stored(buffer, tag);
      if |tag| < |buffer|
      then s[..|tag|] == tag && s[|tag|] == '\0' && s[|tag| + 1..] == buffer[|tag| + 1..]
      else s == tag[..|buffer|]
  {
  }

  /** hdr_log_read_entry up to the decoding of the histogram, for any text. */
  method ScanEntry(f: File, entry: LogEntry) returns (rc: int, histogram: string)
    requires f.Valid()
    modifies f`pos, entry.Footprint()
    ensures f.Valid()
    ensures match FromInit(f.text, old(f.pos))
      case EndOfFile => rc == EOF
      case Invalid => rc == -EINVAL
      case Entry(tag, start, interval, max, text, next) =>
        && rc == 0 && histogram == text && f.pos == next
        && entry.start == start && entry.interval == interval && entry.max == max
        && |entry.Buffer()| == |old(entry.Buffer())|
        && if tag.None? then entry.Buffer() == old(entry.Buffer())
           else if |tag.value| < |entry.Buffer()| then
             && entry.Buffer()[..|tag.value|] == tag.value && entry.Buffer()[|tag.value|] == '\0'
             && entry.Buffer()[|tag.value| + 1..] == old(entry.Buffer())[|tag.value| + 1..]
           else entry.Buffer() == tag.value[..|entry.Buffer()|]
  {
    var reader := new EntryReader(f, entry);
    rc := reader.Run();
    histogram := if rc == 0 then reader.base64[..reader.base64Len] else "";
    if reader.tag.Some? { StoredTag(reader.before, reader.tag.value); }
  }
}
