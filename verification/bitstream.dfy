/**
 The integer part of Marsaglia's Diehard BITSTREAM test
 (diehard_bitstream.c). A run of 32-bit words is read as one bit string;
 `tsamples` 20-bit windows are taken from it, overlapping (window t starts at
 bit t) or not (window t starts at bit 20t); each value seen is marked in a
 presence table of 2^20 entries, and the test statistic is the number of
 20-bit values never seen. The normal-approximation p-value is not modelled.
 */
module DiehardBitstream {
  import opened Bits
  import opened Windows

  /** Width of a window (a "20-letter word" of the test). */
  const WindowWidth: nat := 20

  /** M, the number of 20-bit values; the test's header gives it as 2^20. */
  const M: nat := 0x10_0000

  /** The number of windows the test is designed for, 2^21. */
  const DesignSamples: nat := 0x20_0000

  /** Expected number of missing values, the same in both modes. */
  const MissingMean: nat := 141909

  /** What a mode fixes: the word count to draw and the sigma of the statistic. */
  datatype ModeParams = ModeParams(words: nat, sigma: nat, mean: nat)

  /**
   The mode constants. The words drawn hold every window of the design size
   2^21 (without overlap, exactly), and both modes share one mean.
   */
  function Params(overlap: bool): (p: ModeParams)
    ensures WindowStart(overlap, DesignSamples - 1) + WindowWidth <= UintWidth * p.words
    ensures !overlap ==> WindowStart(overlap, DesignSamples - 1) + WindowWidth == UintWidth * p.words
    ensures p.mean == MissingMean
  {
    if overlap then ModeParams(65537, 428, MissingMean)
    else ModeParams(1310720, 290, MissingMean)
  }

  /** Where window t starts. */
  function WindowStart(overlap: bool, t: nat): nat
  {
    if overlap then t else WindowWidth * t
  }

  /** The largest `tsamples` for which every window lies inside the words drawn. */
  function MaxSamples(overlap: bool): nat
  {
    if overlap then 2097165 else 2097152
  }

  lemma MaskWidth()
    ensures Pow2(WindowWidth) == M
  {
    assert Pow2(10) == 1024;
    Pow2Add(10, 10);
  }

  /** The last window of the mode is exactly the last one that fits. */
  lemma LastWindow(overlap: bool)
    ensures WindowStart(overlap, MaxSamples(overlap) - 1) + WindowWidth <= UintWidth * Params(overlap).words
    ensures WindowStart(overlap, MaxSamples(overlap)) + WindowWidth > UintWidth * Params(overlap).words
  {
  }

  /**
   Every read of a word diehard_bitstream.c makes for windows 0 .. tsamples - 1 is in
   bounds exactly when tsamples is at most MaxSamples; in both modes that
   includes the design size 2^21.
   */
  lemma SamplesInBounds(overlap: bool, tsamples: nat)
    ensures (forall t :: 0 <= t < tsamples ==>
               ReadsInBounds(Params(overlap).words, WindowStart(overlap, t), WindowWidth))
        <==> tsamples <= MaxSamples(overlap)
    ensures DesignSamples <= MaxSamples(overlap)
  {
    var n := Params(overlap).words;
    if tsamples <= MaxSamples(overlap) {
      forall t | 0 <= t < tsamples
        ensures ReadsInBounds(n, WindowStart(overlap, t), WindowWidth)
      {
        InBoundsIff(n, WindowStart(overlap, t), WindowWidth);
      }
    } else {
      var t := MaxSamples(overlap);
      InBoundsIff(n, WindowStart(overlap, t), WindowWidth);
      LastWindow(overlap);
    }
  }

  /** The value of the 20-bit window starting at bit pos of S. */
  function WindowValue(S: seq<bool>, pos: nat): nat
    requires pos + WindowWidth <= |S|
  {
    FromBits(S[pos .. pos + WindowWidth])
  }

  /** The set of values of windows 0 .. k - 1 (windows past the end are not read). */
  function Seen(S: seq<bool>, overlap: bool, k: nat): set<nat>
  {
    if k == 0 then {}
    else
      var pos := WindowStart(overlap, k - 1);
      Seen(S, overlap, k - 1) + (if pos + WindowWidth <= |S| then {WindowValue(S, pos)} else {})
  }

  /** A window value is a 20-bit value. */
  lemma WindowValueBound(S: seq<bool>, pos: nat)
    requires pos + WindowWidth <= |S|
    ensures WindowValue(S, pos) < M
  {
    FromBitsBound(S[pos .. pos + WindowWidth]);
    MaskWidth();
  }

  /** Every seen value is a 20-bit value. */
  lemma {:induction false} SeenRange(S: seq<bool>, overlap: bool, k: nat)
    ensures forall v :: v in Seen(S, overlap, k) ==> v < M
  {
    if k > 0 {
      SeenRange(S, overlap, k - 1);
      var pos := WindowStart(overlap, k - 1);
      if pos + WindowWidth <= |S| {
        WindowValueBound(S, pos);
      }
    }
  }

  /** Adding one value adds at most one element. */
  lemma AddValue(A: set<nat>, v: nat)
    ensures |A + {v}| <= |A| + 1
  {
    if v in A {
      assert A + {v} == A;
    }
  }

  /** There are at most k values among k windows. */
  lemma {:induction false} SeenSize(S: seq<bool>, overlap: bool, k: nat)
    ensures |Seen(S, overlap, k)| <= k
  {
    if k > 0 {
      SeenSize(S, overlap, k - 1);
      var pos := WindowStart(overlap, k - 1);
      if pos + WindowWidth <= |S| {
        AddValue(Seen(S, overlap, k - 1), WindowValue(S, pos));
      } else {
        assert Seen(S, overlap, k) == Seen(S, overlap, k - 1) + {};
      }
    }
  }

  /** The values marked in a presence table. */
  function Marked(w: seq<bool>): set<nat>
  {
    set v | 0 <= v < |w| && w[v]
  }

  /** `w20`: the window value for window t, read out of the words. */
  method ReadWindow(words: seq<nat>, overlap: bool, t: nat) returns (w20: nat)
    requires Words(words) && |words| == Params(overlap).words && t < MaxSamples(overlap)
    ensures WindowStart(overlap, t) + WindowWidth <= |WordBits(words)|
    ensures w20 < M
    ensures w20 == WindowValue(WordBits(words), WindowStart(overlap, t))
  {
    var pos := WindowStart(overlap, t);
    SamplesInBounds(overlap, t + 1);
    assert ReadsInBounds(|words|, pos, WindowWidth);
    w20 := ExtractWindow(words, pos, WindowWidth);
    MaskWidth();
    FromToBits(w20, WindowWidth);
    ModSmall(w20, M);
  }

  /**
   The window loop: afterwards the presence table marks exactly the values
   of the windows read.
   */
  method MarkWindows(words: seq<nat>, overlap: bool, tsamples: nat) returns (w: seq<bool>)
    requires Words(words) && |words| == Params(overlap).words && tsamples <= MaxSamples(overlap)
    ensures |w| == M
    ensures forall v :: 0 <= v < M ==> (w[v] <==> v in Seen(WordBits(words), overlap, tsamples))
  {
    var S := WordBits(words);
    w := seq(M, _ => false);
    var t := 0;
    while t < tsamples
      invariant t <= tsamples && |w| == M
      invariant forall v :: 0 <= v < M ==> (w[v] <==> v in Seen(S, overlap, t))
    {
      var w20 := ReadWindow(words, overlap, t);
      w := w[w20 := true];
      t := t + 1;
    }
  }

  /** The missing-count loop: the entries of the table left unmarked. */
  method CountMissing(w: seq<bool>) returns (x: nat)
    ensures x + |Marked(w)| == |w|
  {
    x := 0;
    var i := 0;
    while i < |w|
      invariant i <= |w|
      invariant x + |set v | 0 <= v < i && w[v]| == i
    {
      var below := set v | 0 <= v < i && w[v];
      var next := set v | 0 <= v < i + 1 && w[v];
      if w[i] {
        assert next == below + {i};
      } else {
        assert next == below;
        x := x + 1;
      }
      i := i + 1;
    }
    assert Marked(w) == set v | 0 <= v < |w| && w[v];
  }

  /**
   The statistic `ptest.x`: M minus the number of distinct window values
   seen, so between M - tsamples and M.
   */
  method MissingWords(words: seq<nat>, overlap: bool, tsamples: nat) returns (x: nat)
    requires Words(words) && |words| == Params(overlap).words && tsamples <= MaxSamples(overlap)
    ensures x + |Seen(WordBits(words), overlap, tsamples)| == M
    ensures x <= M && M <= x + tsamples
  {
    var S := WordBits(words);
    var w := MarkWindows(words, overlap, tsamples);
    x := CountMissing(w);
    SeenRange(S, overlap, tsamples);
    SeenSize(S, overlap, tsamples);
    assert Marked(w) == Seen(S, overlap, tsamples);
  }
}
