/** The reporting levels of the linear and the logarithmic iterator, which are int64 variables and
    wrap around.  One call of hdr_iter_next is a function here, and so is a whole run; the runs
    that report what they promise are exactly those in which no level that has wrapped around is
    reported. */
module Levels {
  import opened Bits
  import opened BucketMath
  import opened BucketConfig
  import opened Recording

  function Power(base: int, k: nat): int {
    if k == 0 then 1 else Power(base, k - 1) * base
  }

  /** How the reporting level grows: iter_linear_next adds value_units_per_bucket to it,
      log_iter_next multiplies it by the base.  In everything else the two are the same. */
  datatype Stride = Linear(width: Int64) | Logarithmic(base: Int64) {
    predicate Valid() {
      match this
      case Linear(width) => width >= 1
      case Logarithmic(base) => base >= 2
    }

    /** The next level, without a limit on its size. */
    function Next(level: int): int {
      match this
      case Linear(width) => level + width
      case Logarithmic(base) => level * base
    }

    /** The level of the k-th step, counting from 0, without a limit on its size: the first one and
        k widths, or the first one times a power of the base. */
    function Level(first: int, k: nat): int {
      match this
      case Linear(width) => first + k * width
      case Logarithmic(base) => first * Power(base, k)
    }

    /** Each level is the next one after the level before. */
    lemma NextLevel(first: int, k: nat)
      ensures Level(first, 0) == first && Level(first, k + 1) == Next(Level(first, k))
    {
      match this
      case Linear(width) => Successor(k, width);
      case Logarithmic(base) => MulAssoc(first, Power(base, k), base);
    }

    lemma Grows(level: nat)
      requires Valid() && level >= 1
      ensures Next(level) > level
    {
      if Logarithmic? { MulMonotone(2, base, level); }
    }

    lemma NextMonotone(level: nat, level': nat)
      requires Valid() && level <= level'
      ensures Next(level) <= Next(level')
    {
      if Logarithmic? { MulMonotone(level, level', base); }
    }

    lemma {:induction false} LevelGrows(first: nat, k: nat)
      requires Valid() && first >= 1
      ensures Level(first, k) >= first + k
    {
      NextLevel(first, if k == 0 then 0 else k - 1);
      if k != 0 {
        LevelGrows(first, k - 1);
        Grows(Level(first, k - 1));
      }
    }
  }

  // ---------- one call ----------

  /** lowest_equivalent_value of an int64.  A negative value has no leading zeros, and what is
      left of it after the shifts is its value rounded down. */
  function Lowest64(c: Config, value: int): int
    requires c.halfMagnitude <= 61
  {
    if value >= 0 then LowestEquivalent(c, value) else value / Pow2(63 - c.halfMagnitude) * Pow2(63 - c.halfMagnitude)
  }

  lemma Lowest64Negative(c: Config, value: int)
    requires c.halfMagnitude <= 61 && value < 0
    ensures Lowest64(c, value) < 0
  {
    RoundedDown(value, Pow2(63 - c.halfMagnitude));
  }

  lemma Lowest64AboveMin(c: Config, value: Int64)
    requires c.halfMagnitude <= 61
    ensures value < 0 ==> Lowest64(c, value) >= INT64_MIN
  {
    Pow2At62();
    Pow2Add(c.halfMagnitude, 62 - c.halfMagnitude);
    var d := Pow2(63 - c.halfMagnitude);
    assert d == 2 * Pow2(62 - c.halfMagnitude);
    MulAssoc(Pow2(c.halfMagnitude), 2, Pow2(62 - c.halfMagnitude));
    var q: int := Pow2(c.halfMagnitude);
    assert INT64_MIN == -q * d;
    RoundedDownFrom(value, d, -q);
  }

  lemma RoundedDownFrom(value: int, d: nat, q: int)
    requires d > 0 && q * d <= value
    ensures q * d <= value / d * d
  {
    var r := value / d;
    Successor(r, d);
    FactorsInOrder(q, r + 1, d);
    MulMonotone(q, r, d);
  }

  lemma FactorsInOrder(x: int, y: int, d: nat)
    requires x * d < y * d
    ensures x < y
  {
    if y <= x { MulMonotone(y, x, d); }
  }

  lemma RoundedDown(value: int, d: int)
    requires d > 0
    ensures value / d * d <= value
  {
  }

  /** What an iterator at slot i holds as its value, before the first slot 0. */
  function ValueAt(c: Config, i: int): nat {
    if i < 0 then 0 else ValueAtIndex(c, i)
  }

  /** peek_next_value_from_index: the slot past the end may start at 2^63. */
  function Peek64(c: Config, i: nat): int {
    Wrap64(ValueAtIndex(c, i))
  }

  /** The number of slots that an iterator at slot i has passed. */
  function Passed(i: int, n: nat): (p: int)
    requires i >= -1
    ensures 0 <= p <= n
  {
    if i < n then i + 1 else n
  }

  function CumulativeAt(counts: seq<int>, i: int): int
    requires i >= -1
  {
    Prefix(counts, Passed(i, |counts|))
  }

  /** The condition of iter_linear_next and log_iter_next: there is something left to count, or the
      next slot starts above the level. */
  predicate Due(c: Config, counts: seq<int>, i: int, level: int)
    requires c.halfMagnitude <= 61 && i >= -1
  {
    CumulativeAt(counts, i) < Sum(counts) || (i < |counts| && Peek64(c, i + 1) > Lowest64(c, level))
  }

  /** The slot and the next level of an iterator. */
  datatype Cursor = Cursor(index: int, level: int)

  /** How a call ends: with no step, with the step to a level, or past the last slot. */
  datatype Outcome = Ended | Reported(to: int) | PastEnd

  /** The loop of iter_linear_next and log_iter_next. */
  function Advance(c: Config, n: nat, stride: Stride, cur: Cursor): ((Outcome, Cursor))
    requires c.halfMagnitude <= 61 && -1 <= cur.index < n
    decreases n - cur.index
  {
    if ValueAt(c, cur.index) >= Lowest64(c, cur.level) then
      (Reported(cur.level), cur.(level := Wrap64(stride.Next(cur.level))))
    else if cur.index + 1 == n then (PastEnd, cur.(index := n))
    else Advance(c, n, stride, cur.(index := cur.index + 1))
  }

  /** One call of hdr_iter_next on a linear or logarithmic iterator. */
  function Call(c: Config, counts: seq<int>, stride: Stride, cur: Cursor): ((Outcome, Cursor))
    requires c.halfMagnitude <= 61 && -1 <= cur.index <= |counts|
  {
    if cur.index < |counts| && Due(c, counts, cur.index, cur.level)
    then Advance(c, |counts|, stride, cur)
    else (Ended, cur)
  }

  lemma {:induction false} AdvanceStays(c: Config, n: nat, stride: Stride, cur: Cursor)
    requires c.halfMagnitude <= 61 && -1 <= cur.index < n
    ensures var (outcome, next) := Advance(c, n, stride, cur);
      !outcome.Ended? && cur.index <= next.index <= n && (outcome.PastEnd? <==> next.index == n)
    decreases n - cur.index
  {
    if ValueAt(c, cur.index) < Lowest64(c, cur.level) && cur.index + 1 < n {
      AdvanceStays(c, n, stride, cur.(index := cur.index + 1));
    }
  }

  // ---------- where a call ends ----------

  /** A level that is reported is the next one, and what comes after it is a width or a factor
      further, wrapped around. */
  lemma {:induction false} AdvanceReports(c: Config, n: nat, stride: Stride, cur: Cursor)
    requires c.halfMagnitude <= 61 && -1 <= cur.index < n
    ensures var (outcome, next) := Advance(c, n, stride, cur);
      outcome.Reported? ==>
        && outcome.to == cur.level
        && next.level == Wrap64(if stride.Linear? then cur.level + stride.width else cur.level * stride.base)
    decreases n - cur.index
  {
    if ValueAt(c, cur.index) < Lowest64(c, cur.level) && cur.index + 1 < n {
      AdvanceReports(c, n, stride, cur.(index := cur.index + 1));
    }
  }

  /** A negative level is reported at once. */
  lemma NegativeLevel(c: Config, n: nat, stride: Stride, cur: Cursor)
    requires c.halfMagnitude <= 61 && -1 <= cur.index < n && cur.level < 0
    ensures Advance(c, n, stride, cur) == (Reported(cur.level), cur.(level := Wrap64(stride.Next(cur.level))))
  {
    Lowest64Negative(c, cur.level);
  }

  lemma ReachedIff(c: Config, i: int, level: nat)
    requires i >= -1
    ensures i >= 0 ==> (ValueAt(c, i) >= LowestEquivalent(c, level) <==> i >= CountsIndexFor(c, level))
    ensures CountsIndexFor(c, level) > 0 ==> LowestEquivalent(c, level) > 0
  {
    var slot := CountsIndexFor(c, level);
    SlotOfValue(c, level);
    ZeroHasFirstSlot(c);
    if 0 < slot { ValueAtIndexIncreasing(c, 0, slot); }
    if 0 <= i < slot { ValueAtIndexIncreasing(c, i, slot); }
    if slot < i { ValueAtIndexIncreasing(c, slot, i); }
  }

  /** Any other level past slot 0 is reported at its slot, or where the iterator stands if that is
      further, or ends past the last slot if it has none. */
  lemma {:induction false} PositiveLevel(c: Config, n: nat, stride: Stride, cur: Cursor)
    requires c.halfMagnitude <= 61 && -1 <= cur.index < n && cur.level >= 0 && CountsIndexFor(c, cur.level) > 0
    ensures var slot := CountsIndexFor(c, cur.level);
      Advance(c, n, stride, cur) ==
        if slot < n || slot <= cur.index
        then (Reported(cur.level), Cursor(if slot < cur.index then cur.index else slot, Wrap64(stride.Next(cur.level))))
        else (PastEnd, Cursor(n, cur.level))
    decreases n - cur.index
  {
    ReachedIff(c, cur.index, cur.level);
    if cur.index < CountsIndexFor(c, cur.level) && cur.index + 1 < n {
      PositiveLevel(c, n, stride, cur.(index := cur.index + 1));
    }
  }

  /** A level in slot 0 is reported where the iterator stands, even before the first slot. */
  lemma LevelInFirstSlot(c: Config, n: nat, stride: Stride, cur: Cursor)
    requires c.halfMagnitude <= 61 && -1 <= cur.index < n && cur.level >= 0 && CountsIndexFor(c, cur.level) == 0
    ensures Advance(c, n, stride, cur) == (Reported(cur.level), cur.(level := Wrap64(stride.Next(cur.level))))
  {
    SlotOfValue(c, cur.level);
    ZeroHasFirstSlot(c);
  }
}
