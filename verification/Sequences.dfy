/** Small facts about sequences that the codecs share. */
module Sequences {

  lemma Assoc<T>(a: seq<T>, b: seq<T>, c: seq<T>)
    ensures a + b + c == a + (b + c)
  {
  }

  lemma Rejoin<T>(s: seq<T>, n: nat)
    requires n <= |s|
    ensures s[..n] + s[n..] == s
  {
  }

  /** Writing a block at position j completes more of the whole. */
  lemma WriteBlock<T>(before: seq<T>, after: seq<T>, j: nat, block: seq<T>, rest: seq<T>, whole: seq<T>)
    requires j + |block| <= |before| && before[..j] + (block + rest) == whole
    requires after == before[..j] + block + before[j + |block|..]
    ensures after[..j + |block|] + rest == whole
  {
    Assoc(before[..j], block, rest);
    assert after[..j + |block|] == before[..j] + block;
  }
}
