/** Bitmaps and the counts of their clear bits. */
module Bitmap {

  /** `true` is a set bit: the block or inode is in use. */
  type Bits = seq<bool>

  function ClearCount(b: Bits): (n: nat)
    ensures n <= |b|
  {
    if |b| == 0 then 0 else ClearCount(b[..|b| - 1]) + (if b[|b| - 1] then 0 else 1)
  }

  lemma {:induction false} CountsZeros(b: Bits)
    ensures ClearCount(b) == |set i | 0 <= i < |b| && !b[i]|
    decreases |b|
  {
    if |b| > 0 {
      CountsZeros(b[..|b| - 1]);
      LastZero(b[..|b| - 1], b[|b| - 1], b);
    }
  }

  lemma LastZero(init: Bits, last: bool, b: Bits)
    requires b == init + [last]
    ensures |set i | 0 <= i < |b| && !b[i]| == |set i | 0 <= i < |init| && !init[i]| + (if last then 0 else 1)
  {
    var before, now := set i | 0 <= i < |init| && !init[i], set i | 0 <= i < |b| && !b[i];
    forall i: int
      ensures i in now <==> i in before || (i == |init| && !last)
    {
    }
    assert now == if last then before else before + {|init|};
  }

  lemma {:induction false} CountSplit(a: Bits, b: Bits)
    ensures ClearCount(a + b) == ClearCount(a) + ClearCount(b)
    decreases |b|
  {
    if |b| == 0 {
      assert a + b == a;
    } else {
      assert (a + b)[..|a + b| - 1] == a + b[..|b| - 1];
      CountSplit(a, b[..|b| - 1]);
    }
  }

  /** Writing one bit changes the count by what it changes. */
  lemma CountUpdate(b: Bits, i: nat, v: bool)
    requires i < |b|
    ensures ClearCount(b[i := v]) == ClearCount(b) + (if b[i] then 1 else 0) - (if v then 1 else 0)
  {
    assert b == b[..i] + ([b[i]] + b[i + 1..]);
    assert b[i := v] == b[..i] + ([v] + b[i + 1..]);
    CountSplit(b[..i], [b[i]] + b[i + 1..]);
    CountSplit(b[..i], [v] + b[i + 1..]);
    CountSplit([b[i]], b[i + 1..]);
    CountSplit([v], b[i + 1..]);
    CountOne(v);
    CountOne(b[i]);
  }

  lemma CountOne(v: bool)
    ensures ClearCount([v]) == if v then 0 else 1
  {
    assert [v][..0] == [];
  }

  /** No clear bits are counted exactly when there are none. */
  lemma {:induction false} CountZero(b: Bits)
    ensures ClearCount(b) == 0 <==> forall i :: 0 <= i < |b| ==> b[i]
    decreases |b|
  {
    if |b| > 0 {
      var init := b[..|b| - 1];
      CountZero(init);
      assert forall i :: 0 <= i < |init| ==> init[i] == b[i];
    }
  }

  /** `find_next_zero_bit_le`: the first clear bit in `[start, size)`, or `size`. */
  method FindNextZeroBit(b: Bits, size: nat, start: nat) returns (i: nat)
    requires size <= |b|
    ensures i <= size && forall k :: start <= k < i ==> b[k]
    ensures i < size ==> start <= i && !b[i]
  {
    if start >= size { return size; }
    i := start;
    while i < size && b[i]
      invariant start <= i <= size && forall k :: start <= k < i ==> b[k]
    {
      i := i + 1;
    }
  }

  function Sum(s: seq<nat>): nat
  {
    if |s| == 0 then 0 else Sum(s[..|s| - 1]) + s[|s| - 1]
  }

  lemma {:induction false} SumUpdate(s: seq<nat>, i: nat, v: nat)
    requires i < |s|
    ensures Sum(s[i := v]) == Sum(s) - s[i] + v
    decreases |s|
  {
    var init := s[..|s| - 1];
    if i == |s| - 1 {
      assert s[i := v][..|s| - 1] == init;
    } else {
      assert s[i := v][..|s| - 1] == init[i := v];
      SumUpdate(init, i, v);
    }
  }
}
