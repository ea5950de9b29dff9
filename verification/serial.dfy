/**
 The integer part of the Serial test (sts_serial.c), the Serial Test of
 section 2.11 of NIST SP 800-22. A run of 32-bit words is read as a cyclic
 bit string of length 32 * tsamples; every nb-bit factor (substring) of the
 cyclic string is counted, and the count table is then folded down one bit
 at a time, giving the table of m-bit factors for every m <= nb, which the
 test feeds to its statistics. The floating-point statistics themselves are
 not modelled.
 */
module StsSerial {
  import opened Bits
  import opened Windows

  /** The factor width sts_serial.c fixes (`nb`); the model allows any 1 <= nb < 32. */
  const FactorWidth: nat := 16

  // ---------------------------------------------------------------------
  // Cyclic factors and their counts

  /** The m-bit factor of the cyclic string S that starts at bit p. */
  function Factor(S: seq<bool>, p: nat, m: nat): (f: seq<bool>)
    requires |S| > 0
    ensures |f| == m
  {
    seq(m, j requires 0 <= j < m => S[(p + j) % |S|])
  }

  /** The number of start positions in [lo, hi) whose m-bit factor has value v. */
  function Count(S: seq<bool>, m: nat, v: nat, lo: nat, hi: nat): nat
    requires lo <= hi
    decreases hi
  {
    if hi == lo || |S| == 0 then 0
    else Count(S, m, v, lo, hi - 1) + (if FromBits(Factor(S, hi - 1, m)) == v then 1 else 0)
  }

  /** How often the value v occurs as an m-bit factor of the cyclic string S. */
  function Occurrences(S: seq<bool>, m: nat, v: nat): nat
  {
    Count(S, m, v, 0, |S|)
  }

  /** c[v] holds the number of m-bit factors of value v, for every m-bit v. */
  ghost predicate Level(S: seq<bool>, m: nat, c: seq<nat>)
  {
    && Pow2(m) <= |c|
    && forall v :: 0 <= v < Pow2(m) ==> c[v] == Occurrences(S, m, v)
  }

  /** Counts over adjacent ranges add up. */
  lemma {:induction false} CountSplit(S: seq<bool>, m: nat, v: nat, lo: nat, mid: nat, hi: nat)
    requires lo <= mid <= hi
    ensures Count(S, m, v, lo, hi) == Count(S, m, v, lo, mid) + Count(S, m, v, mid, hi)
    decreases hi
  {
    if hi > mid {
      CountSplit(S, m, v, lo, mid, hi - 1);
    }
  }

  /** Bit positions wrap around with period |S|. */
  lemma ModPeriod(n: nat, j: nat)
    requires n > 0
    ensures (n + j) % n == j % n
  {
    ModAddMod(n, j, n);
    DivModUnique(n, n, 1, 0);
  }

  /** The factor at position |S| is the factor at position 0. */
  lemma {:induction false} FactorWraps(S: seq<bool>, m: nat)
    requires |S| > 0
    ensures Factor(S, |S|, m) == Factor(S, 0, m)
  {
    forall j | 0 <= j < m
      ensures Factor(S, |S|, m)[j] == Factor(S, 0, m)[j]
    {
      ModPeriod(|S|, j);
    }
  }

  /** An (m+1)-bit factor is its first bit on top of the m-bit factor one position later. */
  lemma FactorHead(S: seq<bool>, p: nat, m: nat)
    requires |S| > 0
    ensures FromBits(Factor(S, p, m + 1))
         == (if S[p % |S|] then Pow2(m) else 0) + FromBits(Factor(S, p + 1, m))
  {
    var F, G := Factor(S, p, m + 1), Factor(S, p + 1, m);
    assert F == [S[p % |S|]] + G;
    FromBitsAppend([S[p % |S|]], G);
    assert FromBits([S[p % |S|]]) == (if S[p % |S|] then 1 else 0) by {
      assert [S[p % |S|]][..0] == [];
    }
    ScaleMul(1, m);
    ScaleMul(0, m);
  }

  /** One fold step, position by position: values i and i + 2^m merge into i. */
  lemma FoldOne(S: seq<bool>, p: nat, m: nat, i: nat)
    requires |S| > 0 && i < Pow2(m)
    ensures (FromBits(Factor(S, p, m + 1)) == i || FromBits(Factor(S, p, m + 1)) == i + Pow2(m))
        <==> FromBits(Factor(S, p + 1, m)) == i
  {
    FactorHead(S, p, m);
    FromBitsBound(Factor(S, p + 1, m));
  }

  /** The fold identity over the start positions [0, k). */
  lemma {:induction false} FoldRange(S: seq<bool>, m: nat, i: nat, k: nat)
    requires |S| > 0 && i < Pow2(m)
    ensures Count(S, m + 1, i, 0, k) + Count(S, m + 1, i + Pow2(m), 0, k) == Count(S, m, i, 1, k + 1)
  {
    if k > 0 {
      FoldRange(S, m, i, k - 1);
      FoldOne(S, k - 1, m, i);
      FromBitsBound(Factor(S, k - 1, m + 1));
    }
  }

  /**
   Folding the (m+1)-bit table: the factors of value i and of value i + 2^m
   together are exactly the m-bit factors of value i.
   */
  lemma FoldLevel(S: seq<bool>, m: nat, i: nat)
    requires i < Pow2(m)
    ensures Occurrences(S, m + 1, i) + Occurrences(S, m + 1, i + Pow2(m)) == Occurrences(S, m, i)
  {
    var n := |S|;
    if n > 0 {
      FoldRange(S, m, i, n);
      CountSplit(S, m, i, 0, 1, n + 1);
      CountSplit(S, m, i, 0, n, n + 1);
      FactorWraps(S, m);
    }
  }

  /** Every position has the empty factor, whose value is 0. */
  lemma {:induction false} CountEmpty(S: seq<bool>, k: nat)
    requires k <= |S|
    ensures Count(S, 0, 0, 0, k) == k
  {
    if k > 0 {
      CountEmpty(S, k - 1);
    }
  }

  /** The 1-bit factors of value 0 are the zero bits of S. */
  lemma {:induction false} CountZeros(S: seq<bool>, k: nat)
    requires k <= |S|
    ensures Count(S, 1, 0, 0, k) == multiset(S[..k])[false]
  {
    if k > 0 {
      CountZeros(S, k - 1);
      var b := S[k - 1];
      assert S[..k] == S[..k - 1] + [b];
      assert multiset(S[..k])[false] == multiset(S[..k - 1])[false] + (if b then 0 else 1);
      FactorHead(S, k - 1, 0);
      assert |Factor(S, k, 0)| == 0;
      ModSmall(k - 1, |S|);
      assert FromBits(Factor(S, k - 1, 1)) == (if b then 1 else 0);
    }
  }

  // ---------------------------------------------------------------------
  // The cyclic buffer

  /** The words with the first repeated after the last, as sts_serial.c lays them out. */
  function Buffer(words: seq<nat>): (buf: seq<nat>)
    requires |words| > 0
  {
    words + [words[0]]
  }

  /** A string followed by a copy of its own start reads like the cyclic string. */
  lemma {:induction false} UnrolledWindow(S: seq<bool>, T: seq<bool>, pos: nat, m: nat)
    requires |T| <= |S| && T == S[..|T|] && pos < |S| && pos + m <= |S| + |T|
    ensures (S + T)[pos .. pos + m] == Factor(S, pos, m)
  {
    var n, B := |S|, S + T;
    forall j | 0 <= j < m
      ensures B[pos .. pos + m][j] == Factor(S, pos, m)[j]
    {
      var q := pos + j;
      if q < n {
        ModSmall(q, n);
      } else {
        DivModUnique(q, n, 1, q - n);
        assert B[q] == T[q - n];
      }
    }
  }

  /**
   Reading from the buffer with the repeated word gives the factor of the
   cyclic string, for any start position inside the string.
   */
  lemma {:induction false} WrappedWindow(words: seq<nat>, pos: nat, m: nat)
    requires |words| > 0 && pos < UintWidth * |words| && m <= UintWidth
    ensures pos + m <= |WordBits(Buffer(words))|
    ensures WordBits(Buffer(words))[pos .. pos + m] == Factor(WordBits(words), pos, m)
  {
    var S, T := WordBits(words), ToBits(words[0], UintWidth);
    var buf := Buffer(words);
    assert buf[..|buf| - 1] == words;
    assert WordBits(buf) == S + T;
    WordAt(words, 0);
    assert T == S[..UintWidth];
    UnrolledWindow(S, T, pos, m);
  }

  // ---------------------------------------------------------------------
  // The base pass, the fold and the total check

  /** `sts_factor`: the nb-bit factor at `pos`, read out of the buffer. */
  method ReadFactor(words: seq<nat>, buf: seq<nat>, pos: nat, nb: nat) returns (f: nat)
    requires Words(words) && |words| > 0 && buf == Buffer(words)
    requires pos < UintWidth * |words| && 1 <= nb < UintWidth
    ensures f < Pow2(nb)
    ensures f == FromBits(Factor(WordBits(words), pos, nb))
  {
    InBoundsIff(|buf|, pos, nb);
    f := ExtractWindow(buf, pos, nb);
    WrappedWindow(words, pos, nb);
    FromToBits(f, nb);
    ModSmall(f, Pow2(nb));
  }

  /**
   The base pass: one nb-bit factor per bit position, each read out of the
   buffer with the repeated word and counted in a table of 2^nb entries.
   */
  method CountFactors(words: seq<nat>, nb: nat) returns (count: seq<nat>)
    requires Words(words) && 1 <= nb < UintWidth
    ensures |count| == Pow2(nb)
    ensures Level(WordBits(words), nb, count)
  {
    var S := WordBits(words);
    var n := UintWidth * |words|;
    count := seq(Pow2(nb), _ => 0);
    if |words| == 0 {
      return;
    }
    var buf := Buffer(words);
    var pos := 0;
    while pos < n
      invariant pos <= n && |count| == Pow2(nb)
      invariant forall v :: 0 <= v < Pow2(nb) ==> count[v] == Count(S, nb, v, 0, pos)
    {
      var f := ReadFactor(words, buf, pos, nb);
      count := count[f := count[f] + 1];
      pos := pos + 1;
    }
  }

  /** One fold step of sts_serial.c, in place: count[i] += count[i + h] for i < h. */
  method FoldStep(c: seq<nat>, h: nat) returns (c': seq<nat>)
    requires 2 * h <= |c|
    ensures |c'| == |c|
    ensures forall i :: 0 <= i < h ==> c'[i] == c[i] + c[i + h]
    ensures forall i :: h <= i < |c| ==> c'[i] == c[i]
  {
    c' := c;
    var i := 0;
    while i < h
      invariant i <= h && |c'| == |c|
      invariant forall k :: 0 <= k < i ==> c'[k] == c[k] + c[k + h]
      invariant forall k :: i <= k < |c| ==> c'[k] == c[k]
    {
      c' := c'[i := c'[i] + c'[i + h]];
      i := i + 1;
    }
  }

  /** The fold takes the (m+1)-bit table to the m-bit table. */
  lemma {:induction false} FoldKeepsLevel(S: seq<bool>, m: nat, c: seq<nat>, c': seq<nat>)
    requires Level(S, m + 1, c) && |c'| == |c|
    requires forall i :: 0 <= i < Pow2(m) ==> c'[i] == c[i] + c[i + Pow2(m)]
    ensures Level(S, m, c')
  {
    forall v | 0 <= v < Pow2(m)
      ensures c'[v] == Occurrences(S, m, v)
    {
      FoldLevel(S, m, v);
    }
  }

  /** The first 2^m entries of a level-m table are a level-m table themselves. */
  lemma LevelPrefix(S: seq<bool>, m: nat, c: seq<nat>)
    requires Level(S, m, c)
    ensures |c[..Pow2(m)]| == Pow2(m) && Level(S, m, c[..Pow2(m)])
  {
  }

  /** One pass of the fold loop: record the level-m table, then fold it to level m - 1. */
  method FoldDown(S: seq<bool>, nb: nat, m: nat, levels: seq<seq<nat>>, cur: seq<nat>)
    returns (levels': seq<seq<nat>>, cur': seq<nat>)
    requires 1 <= m <= nb && |levels| == nb + 1 && |cur| == Pow2(nb) && Level(S, m, cur)
    ensures |levels'| == nb + 1 && |cur'| == Pow2(nb) && Level(S, m - 1, cur')
    ensures |levels'[m]| == Pow2(m) && Level(S, m, levels'[m])
    ensures forall k :: 0 <= k <= nb && k != m ==> levels'[k] == levels[k]
  {
    LevelPrefix(S, m, cur);
    levels' := levels[m := cur[..Pow2(m)]];
    var h := Pow2(m - 1);
    cur' := FoldStep(cur, h);
    FoldKeepsLevel(S, m - 1, cur, cur');
  }

  /**
   The fold loop. `levels[m]` is the table count[0 .. 2^m - 1] the C code
   reads at level m (for m = 0 the one entry left at the end), and
   count0/count1 are saved from the 1-bit table.
   */
  method FoldCounts(S: seq<bool>, nb: nat, count: seq<nat>)
    returns (levels: seq<seq<nat>>, count0: nat, count1: nat)
    requires 1 <= nb && |count| == Pow2(nb) && Level(S, nb, count)
    ensures |levels| == nb + 1
    ensures forall m :: 0 <= m <= nb ==> |levels[m]| == Pow2(m) && Level(S, m, levels[m])
    ensures count0 == Occurrences(S, 1, 0) && count1 == Occurrences(S, 1, 1)
  {
    var cur := count;
    var m := nb;
    levels := seq(nb + 1, _ => []);
    count0, count1 := 0, 0;
    while m > 0
      invariant m <= nb && |levels| == nb + 1 && |cur| == Pow2(nb)
      invariant Level(S, m, cur)
      invariant forall k :: m < k <= nb ==> |levels[k]| == Pow2(k) && Level(S, k, levels[k])
      invariant m == 0 ==> count0 == Occurrences(S, 1, 0) && count1 == Occurrences(S, 1, 1)
    {
      if m == 1 {
        assert Pow2(1) == 2;
        count0, count1 := cur[0], cur[1];
      }
      levels, cur := FoldDown(S, nb, m, levels, cur);
      m := m - 1;
    }
    LevelPrefix(S, 0, cur);
    levels := levels[0 := cur[..1]];
  }

  /** All positions end up in the single 0-bit entry. */
  lemma LevelZero(S: seq<bool>, c: seq<nat>)
    requires Level(S, 0, c)
    ensures c[0] == |S|
  {
    CountEmpty(S, |S|);
  }

  /** The zero and one bits of the string, as counted by the 1-bit table. */
  lemma MonobitCounts(S: seq<bool>)
    ensures Occurrences(S, 1, 0) == multiset(S)[false]
    ensures Occurrences(S, 1, 0) + Occurrences(S, 1, 1) == |S|
  {
    CountZeros(S, |S|);
    assert S[..|S|] == S;
    FoldLevel(S, 0, 0);
    CountEmpty(S, |S|);
  }

  /** What the integer part of the Serial test hands to its statistics. */
  datatype SerialCounts = SerialCounts(levels: seq<seq<nat>>, count0: nat, count1: nat)

  /** The fatal internal-error exit, or the counts. */
  datatype Outcome = InternalError | Counted(counts: SerialCounts)

  /**
   The whole integer pass: count, fold, and the `count[0] == sts_n` check.
   The check never fires, and the tables are the factor counts of the
   cyclic string at every level.
   */
  method SerialPass(words: seq<nat>, nb: nat) returns (r: Outcome)
    requires Words(words) && 1 <= nb < UintWidth
    ensures r.Counted?
    ensures |r.counts.levels| == nb + 1
    ensures forall m :: 0 <= m <= nb ==>
              |r.counts.levels[m]| == Pow2(m) && Level(WordBits(words), m, r.counts.levels[m])
    ensures forall m :: 0 <= m <= nb ==> Sum(r.counts.levels[m]) == UintWidth * |words|
    ensures r.counts.count0 == multiset(WordBits(words))[false]
    ensures r.counts.count0 + r.counts.count1 == UintWidth * |words|
  {
    var S := WordBits(words);
    var stsN := UintWidth * |words|;
    var count := CountFactors(words, nb);
    var levels, count0, count1 := FoldCounts(S, nb, count);
    LevelZero(S, levels[0]);
    forall m | 0 <= m <= nb
      ensures Sum(levels[m]) == stsN
    {
      LevelTotal(S, m, levels[m]);
      assert levels[m][..Pow2(m)] == levels[m];
    }
    MonobitCounts(S);
    if levels[0][0] != stsN {
      return InternalError;
    }
    r := Counted(SerialCounts(levels, count0, count1));
  }

  // ---------------------------------------------------------------------
  // Totals

  lemma {:induction false} SumAppend(a: seq<nat>, b: seq<nat>)
    ensures Sum(a + b) == Sum(a) + Sum(b)
    decreases |b|
  {
    if |b| == 0 {
      assert a + b == a;
    } else {
      assert (a + b)[..|a + b| - 1] == a + b[..|b| - 1];
      SumAppend(a, b[..|b| - 1]);
    }
  }

  /** Pairwise sums of two halves, summed over the first k pairs. */
  lemma {:induction false} SumPairs(c: seq<nat>, c': seq<nat>, h: nat, k: nat)
    requires 2 * h <= |c| && |c'| == |c| && k <= h
    requires forall i :: 0 <= i < h ==> c'[i] == c[i] + c[i + h]
    ensures Sum(c'[..k]) == Sum(c[..k]) + Sum(c[h .. h + k])
  {
    if k > 0 {
      SumPairs(c, c', h, k - 1);
      assert c'[..k][..k - 1] == c'[..k - 1];
      assert c[..k][..k - 1] == c[..k - 1];
      assert c[h .. h + k][..k - 1] == c[h .. h + k - 1];
    }
  }

  /** A fold step keeps the total of the table it folds. */
  lemma FoldKeepsTotal(c: seq<nat>, c': seq<nat>, h: nat)
    requires 2 * h <= |c| && |c'| == |c|
    requires forall i :: 0 <= i < h ==> c'[i] == c[i] + c[i + h]
    ensures Sum(c'[..h]) == Sum(c[..2 * h])
  {
    SumPairs(c, c', h, h);
    assert c[..2 * h] == c[..h] + c[h .. h + h];
    SumAppend(c[..h], c[h .. h + h]);
  }

  /** The counts of the first k values at level m over positions [lo, hi). */
  function CountSum(S: seq<bool>, m: nat, k: nat, lo: nat, hi: nat): nat
    requires lo <= hi
  {
    if k == 0 then 0 else CountSum(S, m, k - 1, lo, hi) + Count(S, m, k - 1, lo, hi)
  }

  /** One more position adds one to exactly the value it has. */
  lemma {:induction false} CountSumStep(S: seq<bool>, m: nat, k: nat, lo: nat, hi: nat)
    requires lo < hi && |S| > 0
    ensures CountSum(S, m, k, lo, hi)
         == CountSum(S, m, k, lo, hi - 1) + (if FromBits(Factor(S, hi - 1, m)) < k then 1 else 0)
  {
    if k > 0 {
      CountSumStep(S, m, k - 1, lo, hi);
    }
  }

  /** Every position is counted under exactly one m-bit value. */
  lemma {:induction false} CountSumAll(S: seq<bool>, m: nat, hi: nat)
    ensures CountSum(S, m, Pow2(m), 0, hi) == (if |S| == 0 then 0 else hi)
  {
    if hi == 0 {
      CountSumZero(S, m, Pow2(m), 0);
    } else if |S| == 0 {
      CountSumZero(S, m, Pow2(m), hi);
    } else {
      CountSumAll(S, m, hi - 1);
      CountSumStep(S, m, Pow2(m), 0, hi);
      FromBitsBound(Factor(S, hi - 1, m));
    }
  }

  /** No positions, or no string: nothing is counted. */
  lemma {:induction false} CountSumZero(S: seq<bool>, m: nat, k: nat, hi: nat)
    requires hi == 0 || |S| == 0
    ensures CountSum(S, m, k, 0, hi) == 0
  {
    if k > 0 {
      CountSumZero(S, m, k - 1, hi);
    }
  }

  /** A table at level m lists exactly that many counts. */
  lemma {:induction false} LevelSum(S: seq<bool>, m: nat, c: seq<nat>, k: nat)
    requires Level(S, m, c) && k <= Pow2(m)
    ensures Sum(c[..k]) == CountSum(S, m, k, 0, |S|)
  {
    if k > 0 {
      LevelSum(S, m, c, k - 1);
      assert c[..k][..k - 1] == c[..k - 1];
    }
  }

  /**
   The base pass makes one increment per bit position: the table at any
   level sums to sts_n = 32 * tsamples.
   */
  lemma {:induction false} LevelTotal(S: seq<bool>, m: nat, c: seq<nat>)
    requires Level(S, m, c)
    ensures Sum(c[..Pow2(m)]) == |S|
  {
    LevelSum(S, m, c, Pow2(m));
    CountSumAll(S, m, |S|);
  }

  // ---------------------------------------------------------------------
  // The p-value slot layout

  /** What a result slot of the Serial test holds. */
  datatype Slot = Monobit | FirstDifference(m: nat) | SecondDifference(m: nat)

  /** The `ntuple` sts_serial.c registers for a slot. */
  function Ntuple(s: Slot): nat
  {
    match s
    case Monobit => 1
    case FirstDifference(m) => m
    case SecondDifference(m) => m
  }

  /**
   The slots in the order sts_serial.c fills them: the monobit test, then for
   m = 2 .. nb the first difference and, from m = 3 on, the second.
   */
  method SlotLayout(nb: nat) returns (slots: seq<Slot>)
    requires nb >= 1
    ensures |slots| == if nb == 1 then 1 else 2 * nb - 2
    ensures slots[0] == Monobit
    ensures nb >= 2 ==> slots[1] == FirstDifference(2)
    ensures forall m :: 3 <= m <= nb ==>
              slots[2 * m - 4] == FirstDifference(m) && slots[2 * m - 3] == SecondDifference(m)
  {
    slots := [Monobit];
    var m := 2;
    while m < nb + 1
      invariant 2 <= m <= nb + 1 || (nb == 1 && m == 2)
      invariant |slots| == if m == 2 then 1 else 2 * m - 4
      invariant slots[0] == Monobit
      invariant m > 2 ==> slots[1] == FirstDifference(2)
      invariant forall k :: 3 <= k < m ==>
                  slots[2 * k - 4] == FirstDifference(k) && slots[2 * k - 3] == SecondDifference(k)
    {
      slots := slots + [FirstDifference(m)];
      if m > 2 {
        slots := slots + [SecondDifference(m)];
      }
      m := m + 1;
    }
  }

  /** Every slot after the first carries the factor width it tests, in 2 .. nb. */
  lemma SlotNtuples(nb: nat, slots: seq<Slot>)
    requires nb >= 2 && |slots| == 2 * nb - 2 && slots[0] == Monobit && slots[1] == FirstDifference(2)
    requires forall m :: 3 <= m <= nb ==>
               slots[2 * m - 4] == FirstDifference(m) && slots[2 * m - 3] == SecondDifference(m)
    ensures Ntuple(slots[0]) == 1
    ensures forall j :: 1 <= j < |slots| ==> Ntuple(slots[j]) == (j + 4) / 2 && 2 <= Ntuple(slots[j]) <= nb
  {
    forall j | 1 <= j < |slots|
      ensures Ntuple(slots[j]) == (j + 4) / 2 && 2 <= Ntuple(slots[j]) <= nb
    {
      if j >= 2 {
        var m := (j + 4) / 2;
        assert 3 <= m <= nb;
        assert slots[2 * m - 4] == FirstDifference(m) && slots[2 * m - 3] == SecondDifference(m);
        if j % 2 == 0 {
          assert j == 2 * m - 4;
        } else {
          assert j == 2 * m - 3;
        }
      }
    }
  }
}
