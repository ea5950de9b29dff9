/**
 The bit-window engine of static_get_bits.c.

 `get_rand_bits_uint` keeps two function-local statics, the last word drawn
 (`bit_buffer`) and how many of its low bits are still unread
 (`bits_left_in_bit_buffer`). Here they are an explicit `EngineState`,
 together with the number of draws the generator has supplied so far. The
 generator is an abstract stream: `gen(i)` is its i-th raw draw, a value
 below 2^rmaxBits.

 The two `get_bit_ntuple_*` routines read a window out of one word viewed as
 a ring of bits.
 */
module GetBits {
  import opened Bits

  /** The i-th raw draw of the selected generator. */
  type Source = nat -> nat

  /** `bit_buffer`, `bits_left_in_bit_buffer`, and the generator's position. */
  datatype EngineState = EngineState(buffer: nat, left: nat, drawn: nat)

  /** Both statics start at zero and nothing has been drawn yet. */
  const Start := EngineState(0, 0, 0)

  /** Every draw fits in the generator's significant bits. */
  ghost predicate DrawsFit(gen: Source, rmaxBits: nat)
  {
    forall i: nat :: gen(i) < Pow2(rmaxBits)
  }

  /** The first n draws, each as an rmaxBits-bit string, concatenated. */
  function Stream(gen: Source, rmaxBits: nat, n: nat): seq<bool>
  {
    if n == 0 then [] else Stream(gen, rmaxBits, n - 1) + ToBits(gen(n - 1), rmaxBits)
  }

  /** Number of stream bits handed out so far: all drawn bits but the unread ones. */
  function Pos(s: EngineState, gen: Source, rmaxBits: nat): int
  {
    |Stream(gen, rmaxBits, s.drawn)| - s.left
  }

  /**
   The buffer invariant: fewer than rmaxBits bits are waiting, and when
   some are, they are the low bits of the most recent draw.
   */
  ghost predicate Valid(s: EngineState, gen: Source, rmaxBits: nat)
  {
    && s.left < rmaxBits
    && (s.left > 0 ==> s.drawn > 0 && s.buffer == gen(s.drawn - 1))
  }

  // ---------------------------------------------------------------------
  // Facts about the stream

  lemma {:induction false} StreamLength(gen: Source, rmaxBits: nat, n: nat)
    ensures |Stream(gen, rmaxBits, n)| == n * rmaxBits
  {
    if n > 0 {
      StreamLength(gen, rmaxBits, n - 1);
      MulDistSub(n, 1, rmaxBits);
    }
  }

  lemma {:induction false} StreamPrefix(gen: Source, rmaxBits: nat, n: nat, m: nat)
    requires n <= m
    ensures |Stream(gen, rmaxBits, n)| <= |Stream(gen, rmaxBits, m)|
    ensures Stream(gen, rmaxBits, m)[..|Stream(gen, rmaxBits, n)|] == Stream(gen, rmaxBits, n)
    decreases m
  {
    if n < m {
      StreamPrefix(gen, rmaxBits, n, m - 1);
    }
  }

  /** Distinct (drawn, left) pairs with left < rmaxBits sit at distinct positions. */
  lemma PosUnique(d1: nat, l1: nat, d2: nat, l2: nat, rmaxBits: nat)
    requires l1 < rmaxBits && l2 < rmaxBits
    requires d1 * rmaxBits - l1 == d2 * rmaxBits - l2
    ensures d1 == d2 && l1 == l2
  {
    if d1 < d2 {
      MulDistSub(d2, d1, rmaxBits);
      MulLe(1, d2 - d1, rmaxBits);
    } else if d1 > d2 {
      MulDistSub(d1, d2, rmaxBits);
      MulLe(1, d1 - d2, rmaxBits);
    }
  }

  lemma PosNonneg(s: EngineState, gen: Source, rmaxBits: nat)
    requires Valid(s, gen, rmaxBits)
    ensures 0 <= Pos(s, gen, rmaxBits)
  {
  }

  /** The unread bits are the low `left` bits of the buffer. */
  lemma Unread(s: EngineState, gen: Source, rmaxBits: nat, hi: nat, lo: nat)
    requires Valid(s, gen, rmaxBits) && lo <= hi <= s.left
    ensures s.left <= |Stream(gen, rmaxBits, s.drawn)|
    ensures var S := Stream(gen, rmaxBits, s.drawn);
      S[|S| - hi .. |S| - lo] == ToBits(Shr(s.buffer, lo), hi - lo)
  {
    if hi > lo {
      ToBitsSlice(s.buffer, rmaxBits, lo, hi);
    }
  }

  /** Appending the next draw to the stream. */
  lemma StreamNext(gen: Source, rmaxBits: nat, n: nat, p: nat)
    requires p <= |Stream(gen, rmaxBits, n)|
    ensures Stream(gen, rmaxBits, n + 1)[p..]
         == Stream(gen, rmaxBits, n)[p..] + ToBits(gen(n), rmaxBits)
  {
  }

  /** The stream from p0 up to `need` bits into the next draw. */
  lemma StreamWindow(gen: Source, rmaxBits: nat, n: nat, p: nat, need: nat)
    requires p <= |Stream(gen, rmaxBits, n)| && need <= rmaxBits
    ensures var m := |Stream(gen, rmaxBits, n)| + need;
      && m <= |Stream(gen, rmaxBits, n + 1)|
      && Stream(gen, rmaxBits, n + 1)[p .. m]
         == Stream(gen, rmaxBits, n)[p..] + ToBits(gen(n), rmaxBits)[..need]
  {
    var S, W := Stream(gen, rmaxBits, n), ToBits(gen(n), rmaxBits);
    assert Stream(gen, rmaxBits, n + 1) == S + W;
    assert (S + W)[p .. |S| + need] == S[p..] + W[..need];
  }

  /** A whole draw, shifted left by need - rmaxBits, goes below the bits already placed. */
  lemma AppendWord(A: seq<bool>, d: nat, rmaxBits: nat, need: nat)
    requires d < Pow2(rmaxBits) && rmaxBits < need <= UintWidth
    ensures Or(Scale(FromBits(A), need), Shl(d, need - rmaxBits))
         == Scale(FromBits(A + ToBits(d, rmaxBits)), need - rmaxBits)
  {
    var X, k := FromBits(A), need - rmaxBits;
    assert FromBits(A + ToBits(d, rmaxBits)) == Scale(X, rmaxBits) + d by {
      FromBitsAppend(A, ToBits(d, rmaxBits));
      FromToBits(d, rmaxBits);
      DivHigh(0, d, rmaxBits);
    }
    assert Or(Scale(X, need), Shl(d, k)) == Scale(X, need) + Scale(d, k) by {
      ShlNoOverflow(d, rmaxBits, k);
      OrDisjoint(X, Scale(d, k), need);
    }
    ScaleAdd(Scale(X, rmaxBits), d, k);
    ScaleScale(X, rmaxBits, k);
  }

  // ---------------------------------------------------------------------
  // get_rand_bits_uint

  /**
   The next nbits bits of the generator's stream, most significant first.
   nbits > 32 makes get_rand_bits_uint exit, so it is excluded here;
   `mask` is either 0 or nbits ones, as the C code assumes.
   */
  method GetRandBits(s: EngineState, gen: Source, rmaxBits: nat, nbits: nat, mask: nat)
    returns (r: nat, s': EngineState)
    requires 1 <= rmaxBits <= UintWidth && DrawsFit(gen, rmaxBits)
    requires Valid(s, gen, rmaxBits)
    requires nbits <= UintWidth
    requires mask == 0 || mask == Pow2(nbits) - 1
    ensures Valid(s', gen, rmaxBits)
    ensures r < Pow2(nbits)
    ensures s.drawn <= s'.drawn
    ensures 0 <= Pos(s, gen, rmaxBits)
    ensures Pos(s', gen, rmaxBits) == Pos(s, gen, rmaxBits) + nbits
    ensures ToBits(r, nbits)
         == Stream(gen, rmaxBits, s'.drawn)[Pos(s, gen, rmaxBits) .. Pos(s', gen, rmaxBits)]
    ensures nbits == 0 ==> r == 0 && s' == s
    ensures nbits == rmaxBits && s.left == 0 ==> r == gen(s.drawn) && s' == s.(drawn := s.drawn + 1)
    ensures 0 < nbits <= s.left ==> s' == s.(left := s.left - nbits)
  {
    if nbits == 0 {
      PosNonneg(s, gen, rmaxBits);
      return 0, s;
    }
    if nbits == rmaxBits && s.left == 0 {
      r, s' := FreshWord(s, gen, rmaxBits);
      return;
    }
    var m := mask;
    if m == 0 {
      m := if nbits < UintWidth then Pow2(nbits) - 1 else UintMax;
    }
    Pow2Word();
    if s.left >= nbits {
      // the buffer alone has enough bits
      r, s' := BufferedBits(s, gen, rmaxBits, nbits, m);
      return;
    }
    // the buffered bits become the high bits of the answer
    var p0, need, answer := HeadBits(s, gen, rmaxBits, nbits, m);
    r, s' := Refill(gen, rmaxBits, s.drawn, p0, need, answer, nbits);
  }

  /** The fast path: with an empty buffer and nbits == rmaxBits the raw draw is the answer. */
  method FreshWord(s: EngineState, gen: Source, rmaxBits: nat)
    returns (r: nat, s': EngineState)
    requires 1 <= rmaxBits && DrawsFit(gen, rmaxBits) && Valid(s, gen, rmaxBits) && s.left == 0
    ensures r == gen(s.drawn) && s' == s.(drawn := s.drawn + 1) && Valid(s', gen, rmaxBits)
    ensures r < Pow2(rmaxBits)
    ensures 0 <= Pos(s, gen, rmaxBits) && Pos(s', gen, rmaxBits) == Pos(s, gen, rmaxBits) + rmaxBits
    ensures ToBits(r, rmaxBits)
         == Stream(gen, rmaxBits, s'.drawn)[Pos(s, gen, rmaxBits) .. Pos(s', gen, rmaxBits)]
  {
    r := gen(s.drawn);
    s' := s.(drawn := s.drawn + 1);
    var S := Stream(gen, rmaxBits, s.drawn);
    assert Stream(gen, rmaxBits, s'.drawn) == S + ToBits(r, rmaxBits);
    assert (S + ToBits(r, rmaxBits))[|S| .. |S| + rmaxBits] == ToBits(r, rmaxBits);
  }

  /** The all-ones mask of nbits <= 32 bits, as get_rand_bits_uint writes it. */
  lemma FullMask(nbits: nat)
    requires nbits <= UintWidth
    ensures (if nbits < UintWidth then Pow2(nbits) - 1 else UintMax) == Pow2(nbits) - 1
  {
    if nbits == UintWidth {
      Pow2Word();
    }
  }

  /**
   The buffered bits, placed above the `need` bits still owed: the first
   step of get_rand_bits_uint when the buffer is short.
   */
  method HeadBits(s: EngineState, gen: Source, rmaxBits: nat, nbits: nat, mask: nat)
    returns (p0: nat, need: nat, answer: nat)
    requires Valid(s, gen, rmaxBits) && s.left < nbits <= UintWidth
    requires mask == (if nbits < UintWidth then Pow2(nbits) - 1 else UintMax)
    ensures p0 == Pos(s, gen, rmaxBits) && p0 <= |Stream(gen, rmaxBits, s.drawn)|
    ensures 1 <= need <= UintWidth && need == nbits - s.left
    ensures nbits == |Stream(gen, rmaxBits, s.drawn)| - p0 + need
    ensures answer == Scale(FromBits(Stream(gen, rmaxBits, s.drawn)[p0..]), need)
  {
    PosNonneg(s, gen, rmaxBits);
    p0 := Pos(s, gen, rmaxBits);
    need := nbits - s.left;
    answer := if need < UintWidth then And(Shl(s.buffer, need), mask) else 0;
    var S := Stream(gen, rmaxBits, s.drawn);
    assert mask == Pow2(s.left + need) - 1 by {
      FullMask(nbits);
      assert s.left + need == nbits;
    }
    assert answer == Scale(s.buffer % Pow2(s.left), need) by {
      MaskedShl(s.buffer, s.left, need);
    }
    assert S[p0..] == ToBits(s.buffer, s.left) by {
      Unread(s, gen, rmaxBits, s.left, 0);
      assert S[|S| - s.left..] == S[|S| - s.left .. |S| - 0];
    }
    FromToBits(s.buffer, s.left);
  }

  /**
   The refill loop of get_rand_bits_uint: `need` more bits are owed below
   the `answer` built so far, and every pass draws one whole word.
   */
  method Refill(gen: Source, rmaxBits: nat, drawn0: nat, p0: nat, need0: nat, answer0: nat, total: nat)
    returns (r: nat, s': EngineState)
    requires 1 <= rmaxBits <= UintWidth && DrawsFit(gen, rmaxBits)
    requires 1 <= need0 <= UintWidth && p0 <= |Stream(gen, rmaxBits, drawn0)|
    requires answer0 == Scale(FromBits(Stream(gen, rmaxBits, drawn0)[p0..]), need0)
    requires total == |Stream(gen, rmaxBits, drawn0)| - p0 + need0
    ensures Valid(s', gen, rmaxBits) && drawn0 < s'.drawn
    ensures Pos(s', gen, rmaxBits) == p0 + total
    ensures r < Pow2(total)
    ensures ToBits(r, total) == Stream(gen, rmaxBits, s'.drawn)[p0 .. Pos(s', gen, rmaxBits)]
  {
    var drawn, need, answer := drawn0, need0, answer0;
    while true
      invariant drawn0 <= drawn
      invariant 1 <= need <= UintWidth
      invariant p0 <= |Stream(gen, rmaxBits, drawn)|
      invariant |Stream(gen, rmaxBits, drawn)| - p0 + need == total
      invariant answer == Scale(FromBits(Stream(gen, rmaxBits, drawn)[p0..]), need)
      decreases need
    {
      if rmaxBits >= need {
        r, s' := LastDraw(gen, rmaxBits, drawn, p0, need, answer, total);
        return;
      }
      answer, need, drawn := WholeDraw(gen, rmaxBits, drawn, p0, need, answer);
    }
  }

  /** One pass of the refill loop that takes a whole draw, when more bits are still owed. */
  method WholeDraw(gen: Source, rmaxBits: nat, drawn: nat, p0: nat, need: nat, answer: nat)
    returns (answer': nat, need': nat, drawn': nat)
    requires DrawsFit(gen, rmaxBits)
    requires rmaxBits < need <= UintWidth && p0 <= |Stream(gen, rmaxBits, drawn)|
    requires answer == Scale(FromBits(Stream(gen, rmaxBits, drawn)[p0..]), need)
    ensures drawn' == drawn + 1 && need' == need - rmaxBits
    ensures |Stream(gen, rmaxBits, drawn')| == |Stream(gen, rmaxBits, drawn)| + rmaxBits
    ensures answer' == Scale(FromBits(Stream(gen, rmaxBits, drawn')[p0..]), need')
  {
    var buffer := gen(drawn);
    need' := need - rmaxBits;
    answer' := Or(answer, Shl(buffer, need'));
    drawn' := drawn + 1;
    var A := Stream(gen, rmaxBits, drawn)[p0..];
    AppendWord(A, buffer, rmaxBits, need);
    assert Stream(gen, rmaxBits, drawn')[p0..] == A + ToBits(buffer, rmaxBits) by {
      StreamNext(gen, rmaxBits, drawn, p0);
    }
  }

  /** The branch of get_rand_bits_uint that reads only from the buffer. */
  method BufferedBits(s: EngineState, gen: Source, rmaxBits: nat, nbits: nat, mask: nat)
    returns (r: nat, s': EngineState)
    requires Valid(s, gen, rmaxBits) && DrawsFit(gen, rmaxBits)
    requires 0 < nbits <= s.left && mask == Pow2(nbits) - 1
    ensures s' == s.(left := s.left - nbits) && Valid(s', gen, rmaxBits)
    ensures r < Pow2(nbits)
    ensures 0 <= Pos(s, gen, rmaxBits) && Pos(s', gen, rmaxBits) == Pos(s, gen, rmaxBits) + nbits
    ensures ToBits(r, nbits)
         == Stream(gen, rmaxBits, s'.drawn)[Pos(s, gen, rmaxBits) .. Pos(s', gen, rmaxBits)]
  {
    var left := s.left - nbits;
    r := And(Shr(s.buffer, left), mask);
    s' := s.(left := left);
    assert r == Shr(s.buffer, left) % Pow2(nbits) by {
      AndLowMask(Shr(s.buffer, left), nbits);
    }
    Unread(s, gen, rmaxBits, s.left, left);
    ToBitsMod(Shr(s.buffer, left), nbits);
  }

  /** The last iteration of the refill loop: one more draw completes the answer. */
  method LastDraw(gen: Source, rmaxBits: nat, drawn: nat, p0: nat, need: nat, answer: nat, n: nat)
    returns (r: nat, s': EngineState)
    requires 1 <= rmaxBits && DrawsFit(gen, rmaxBits)
    requires 1 <= need <= rmaxBits && p0 <= |Stream(gen, rmaxBits, drawn)|
    requires answer == Scale(FromBits(Stream(gen, rmaxBits, drawn)[p0..]), need)
    requires n == |Stream(gen, rmaxBits, drawn)| - p0 + need
    ensures s' == EngineState(gen(drawn), rmaxBits - need, drawn + 1)
    ensures Valid(s', gen, rmaxBits)
    ensures Pos(s', gen, rmaxBits) == p0 + n
    ensures r < Pow2(n)
    ensures ToBits(r, n) == Stream(gen, rmaxBits, s'.drawn)[p0 .. Pos(s', gen, rmaxBits)]
  {
    var buffer := gen(drawn);
    var left := rmaxBits - need;
    s' := EngineState(buffer, left, drawn + 1);
    assert Valid(s', gen, rmaxBits);
    var A := Stream(gen, rmaxBits, drawn)[p0..];
    var B := A + ToBits(buffer, rmaxBits)[..need];
    r := Or(answer, Shr(buffer, left));
    assert r == FromBits(B) by {
      AppendWindow(A, buffer, rmaxBits, need);
    }
    assert |B| == n;
    assert Pos(s', gen, rmaxBits) == p0 + n by {
      assert |Stream(gen, rmaxBits, drawn + 1)| == |Stream(gen, rmaxBits, drawn)| + rmaxBits;
    }
    assert Stream(gen, rmaxBits, s'.drawn)[p0 .. Pos(s', gen, rmaxBits)] == B by {
      StreamWindow(gen, rmaxBits, drawn, p0, need);
    }
    assert r < Pow2(n) by {
      FromBitsBound(B);
    }
    assert ToBits(r, n) == B by {
      ToFromBits(B);
    }
  }

  // ---------------------------------------------------------------------
  // A run of calls

  /** The outputs of a run of calls, each written out at its requested width. */
  function Concat(outs: seq<nat>, widths: seq<nat>): seq<bool>
    requires |outs| == |widths|
  {
    if |outs| == 0 then []
    else Concat(outs[..|outs| - 1], widths[..|widths| - 1]) + ToBits(outs[|outs| - 1], widths[|widths| - 1])
  }

  /** Two adjacent slices of the stream, the second read after more draws. */
  lemma ChainSlices(gen: Source, rmaxBits: nat, d1: nat, d2: nat, a: nat, b: nat, c: nat)
    requires d1 <= d2 && a <= b <= |Stream(gen, rmaxBits, d1)|
    requires b <= c <= |Stream(gen, rmaxBits, d2)|
    ensures Stream(gen, rmaxBits, d1)[a..b] + Stream(gen, rmaxBits, d2)[b..c]
         == Stream(gen, rmaxBits, d2)[a..c]
  {
    StreamPrefix(gen, rmaxBits, d1, d2);
    var S1, S2 := Stream(gen, rmaxBits, d1), Stream(gen, rmaxBits, d2);
    assert S1[a..b] == S2[a..b];
    assert S2[a..b] + S2[b..c] == S2[a..c];
  }

  /** Appending one output of width widths[i] to a run of i outputs. */
  lemma RunStep(outs: seq<nat>, widths: seq<nat>, i: nat, r: nat)
    requires i < |widths| && |outs| == i
    ensures (outs + [r])[..i] == outs
    ensures Sum(widths[..i + 1]) == Sum(widths[..i]) + widths[i]
    ensures Concat(outs + [r], widths[..i + 1]) == Concat(outs, widths[..i]) + ToBits(r, widths[i])
  {
    assert (outs + [r])[..i] == outs;
    assert widths[..i + 1][..i] == widths[..i];
  }

  /** One call of a run: its output extends the concatenation. */
  method ReadStep(gen: Source, rmaxBits: nat, p0: nat, widths: seq<nat>, i: nat,
                  outs: seq<nat>, cur: EngineState)
    returns (outs': seq<nat>, cur': EngineState)
    requires 1 <= rmaxBits <= UintWidth && DrawsFit(gen, rmaxBits)
    requires i < |widths| && widths[i] <= UintWidth && |outs| == i
    requires forall j :: 0 <= j < i ==> outs[j] < Pow2(widths[j])
    requires Valid(cur, gen, rmaxBits) && p0 <= Pos(cur, gen, rmaxBits)
    requires Pos(cur, gen, rmaxBits) == p0 + Sum(widths[..i])
    requires Concat(outs, widths[..i]) == Stream(gen, rmaxBits, cur.drawn)[p0 .. Pos(cur, gen, rmaxBits)]
    ensures |outs'| == i + 1 && outs'[..i] == outs
    ensures forall j :: 0 <= j < i + 1 ==> outs'[j] < Pow2(widths[j])
    ensures Valid(cur', gen, rmaxBits) && cur.drawn <= cur'.drawn
    ensures Pos(cur', gen, rmaxBits) == p0 + Sum(widths[..i + 1])
    ensures Concat(outs', widths[..i + 1]) == Stream(gen, rmaxBits, cur'.drawn)[p0 .. Pos(cur', gen, rmaxBits)]
  {
    var r;
    r, cur' := GetRandBits(cur, gen, rmaxBits, widths[i], 0);
    outs' := outs + [r];
    RunStep(outs, widths, i, r);
    ChainSlices(gen, rmaxBits, cur.drawn, cur'.drawn, p0, Pos(cur, gen, rmaxBits), Pos(cur', gen, rmaxBits));
  }

  /**
   A run of calls to get_rand_bits_uint with the given widths (mask 0). The
   outputs, concatenated, are exactly the stream bits from the starting
   position on: no bit is dropped or read twice.
   */
  method ReadAll(s: EngineState, gen: Source, rmaxBits: nat, widths: seq<nat>)
    returns (outs: seq<nat>, s': EngineState)
    requires 1 <= rmaxBits <= UintWidth && DrawsFit(gen, rmaxBits) && Valid(s, gen, rmaxBits)
    requires forall i :: 0 <= i < |widths| ==> widths[i] <= UintWidth
    ensures |outs| == |widths| && Valid(s', gen, rmaxBits) && s.drawn <= s'.drawn
    ensures forall i :: 0 <= i < |outs| ==> outs[i] < Pow2(widths[i])
    ensures 0 <= Pos(s, gen, rmaxBits)
    ensures Pos(s', gen, rmaxBits) == Pos(s, gen, rmaxBits) + Sum(widths)
    ensures Concat(outs, widths) == Stream(gen, rmaxBits, s'.drawn)[Pos(s, gen, rmaxBits) .. Pos(s', gen, rmaxBits)]
  {
    PosNonneg(s, gen, rmaxBits);
    var p0: nat := Pos(s, gen, rmaxBits);
    outs, s' := [], s;
    var i := 0;
    while i < |widths|
      invariant i <= |widths| && |outs| == i
      invariant forall j :: 0 <= j < i ==> outs[j] < Pow2(widths[j])
      invariant Valid(s', gen, rmaxBits) && s.drawn <= s'.drawn && p0 <= Pos(s', gen, rmaxBits)
      invariant Pos(s', gen, rmaxBits) == p0 + Sum(widths[..i])
      invariant Concat(outs, widths[..i]) == Stream(gen, rmaxBits, s'.drawn)[p0 .. Pos(s', gen, rmaxBits)]
    {
      outs, s' := ReadStep(gen, rmaxBits, p0, widths, i, outs, s');
      i := i + 1;
    }
    assert widths[..i] == widths;
  }

  /**
   From the initial state, a run whose widths add up to whole draws leaves
   the buffer empty, having made exactly that many draws.
   */
  lemma WholeDraws(s': EngineState, gen: Source, rmaxBits: nat, total: nat)
    requires rmaxBits >= 1 && Valid(s', gen, rmaxBits)
    requires Pos(s', gen, rmaxBits) == total && total % rmaxBits == 0
    ensures s'.left == 0 && s'.drawn * rmaxBits == total
  {
    StreamLength(gen, rmaxBits, s'.drawn);
    DivModParts(total, rmaxBits);
    PosUnique(s'.drawn, s'.left, total / rmaxBits, 0, rmaxBits);
  }

  // ---------------------------------------------------------------------
  // get_bit_ntuple_from_uint and get_bit_ntuple_from_whole_uint

  /**
   The reference meaning of the two extractors: the n-bit number whose bit i
   is bit (off + i) mod w of x, i.e. n bits of the w-bit word x read
   cyclically upward from bit off.
   */
  function CyclicWindow(x: nat, w: nat, off: nat, n: nat): (r: nat)
    requires w > 0
  {
    FromBits(CyclicSeq(x, w, off, n))
  }

  /** The cyclic bits 0 .. n - 1, written most significant first. */
  function CyclicSeq(x: nat, w: nat, off: nat, n: nat): (s: seq<bool>)
    requires w > 0
    ensures |s| == n
  {
    seq(n, i requires 0 <= i < n => CyclicBit(x, w, off, n - 1 - i))
  }

  /** Bit i of a cyclic window: bit (off + i) mod w of x. */
  function CyclicBit(x: nat, w: nat, off: nat, i: nat): bool
    requires w > 0
  {
    Bit(x, (off + i) % w)
  }

  lemma CyclicWindowBit(x: nat, w: nat, off: nat, n: nat, k: nat)
    requires w > 0
    ensures Bit(CyclicWindow(x, w, off, n), k) == (k < n && CyclicBit(x, w, off, k))
  {
    var s := CyclicSeq(x, w, off, n);
    FromBitsBit(s, k);
    if k < n {
      assert s[n - 1 - k] == CyclicBit(x, w, off, n - 1 - (n - 1 - k));
    }
  }

  /** Adding less than w to a multiple of w gives that remainder. */
  lemma ModShift(a: nat, b: nat, w: nat)
    requires w > 0 && a % w == 0 && b < w
    ensures (a + b) % w == b
    ensures (a + w) % w == 0
  {
    DivModParts(a, w);
    DivModUnique(a + b, w, a / w, b);
    MulDistAdd(a / w, 1, w);
    DivModUnique(a + w, w, a / w + 1, 0);
  }

  /**
   The bits of the partial result inside the wrap loop: the first `len`
   cyclic bits, cut at the word's 32 bits.
   */
  ghost predicate WrapHolds(result: nat, x: nat, w: nat, off: nat, len: nat)
    requires w > 0
  {
    forall k: nat :: Bit(result, k) == (k < len && k < UintWidth && CyclicBit(x, w, off, k))
  }

  /** `result = bitstr >> boffset`: the bits up to the top of the word. */
  lemma {:induction false} WrapStart(x: nat, w: nat, off: nat)
    requires 0 < w <= UintWidth && off < w && x < Pow2(w)
    ensures WrapHolds(Shr(x, off), x, w, off, w - off)
  {
    forall k: nat
      ensures Bit(Shr(x, off), k) == (k < w - off && k < UintWidth && CyclicBit(x, w, off, k))
    {
      WrapStartBit(x, w, off, k);
    }
  }

  /** Bit k of `bitstr >> boffset`. */
  lemma {:induction false} WrapStartBit(x: nat, w: nat, off: nat, k: nat)
    requires 0 < w <= UintWidth && off < w && x < Pow2(w)
    ensures Bit(Shr(x, off), k) == (k < w - off && k < UintWidth && CyclicBit(x, w, off, k))
  {
    ShrBit(x, off, k);
    if k < w - off {
      ModSmall(off + k, w);
    } else {
      BitHigh(x, w, k + off);
    }
  }

  /** One pass of the wrap loop: `result |= bitstr << len; len += rmax_bits`. */
  method WrapPass(x: nat, w: nat, off: nat, len: nat, result: nat)
    returns (result': nat, len': nat)
    requires 0 < w <= UintWidth && x < Pow2(w)
    requires (off + len) % w == 0 && WrapHolds(result, x, w, off, len)
    ensures len' == len + w && (off + len') % w == 0
    ensures WrapHolds(result', x, w, off, len')
  {
    result' := Or(result, Shl(x, len));
    len' := len + w;
    ModShift(off + len, 0, w);
    forall k: nat
      ensures Bit(result', k) == (k < len' && k < UintWidth && CyclicBit(x, w, off, k))
    {
      OrBit(result, Shl(x, len), k);
      ShlBit(x, len, k);
      if len <= k < len' {
        ModShift(off + len, k - len, w);
        assert off + k == (off + len) + (k - len);
      } else if len' <= k {
        BitHigh(x, w, k - len);
      }
    }
  }

  /** The wrap loop: whole copies of the word are ORed in until nbits are covered. */
  method WrapLoop(x: nat, w: nat, off: nat, nbits: nat, result0: nat) returns (result: nat, passes: nat)
    requires 0 < w <= UintWidth && off < w && x < Pow2(w) && w - off < nbits
    requires WrapHolds(result0, x, w, off, w - off)
    ensures WrapAgrees(result, x, w, off, nbits) && passes > 0
    ensures (w - off) + (passes - 1) * w < nbits <= (w - off) + passes * w
  {
    var len := w - off;
    result, passes := result0, 0;
    ModShift(0, 0, w);
    assert off + len == w;
    while len < nbits
      invariant (off + len) % w == 0 && WrapHolds(result, x, w, off, len)
      invariant len == (w - off) + passes * w
      invariant passes > 0 ==> len - w < nbits
      decreases nbits - len
    {
      MulDistAdd(passes, 1, w);
      result, len := WrapPass(x, w, off, len, result);
      passes := passes + 1;
    }
    MulDistSub(passes, 1, w);
    WrapWiden(result, x, w, off, len, nbits);
  }

  /** The low n bits of the result are the first n cyclic bits. */
  ghost predicate WrapAgrees(result: nat, x: nat, w: nat, off: nat, n: nat)
    requires w > 0
  {
    forall k: nat :: k < n ==> Bit(result, k) == (k < UintWidth && CyclicBit(x, w, off, k))
  }

  /** Bits past n are masked off later, so covering at least n bits suffices. */
  lemma WrapWiden(result: nat, x: nat, w: nat, off: nat, len: nat, n: nat)
    requires w > 0 && n <= len && WrapHolds(result, x, w, off, len)
    ensures WrapAgrees(result, x, w, off, n)
  {
  }

  /**
   The cyclic extraction shared by both routines, on a w-bit word; `passes`
   counts the iterations of the wrap loop.
   */
  method NtupleWrap(x: nat, w: nat, off: nat, nbits: nat, mask: nat) returns (r: nat, passes: nat)
    requires 0 < w <= UintWidth && off < w && x < Pow2(w)
    requires nbits <= UintWidth && mask == Pow2(nbits) - 1
    ensures r == CyclicWindow(x, w, off, nbits)
    ensures passes == 0 <==> off + nbits <= w
    ensures passes > 0 ==> (w - off) + (passes - 1) * w < nbits <= (w - off) + passes * w
  {
    var result := Shr(x, off);
    WrapStart(x, w, off);
    passes := 0;
    if off + nbits > w {
      // need to wrap
      result, passes := WrapLoop(x, w, off, nbits, result);
    } else {
      WrapWiden(result, x, w, off, w - off, nbits);
    }
    r := And(result, mask);
    forall k: nat
      ensures Bit(r, k) == Bit(CyclicWindow(x, w, off, nbits), k)
    {
      AndMaskBit(result, nbits, k);
      CyclicWindowBit(x, w, off, nbits, k);
    }
    BitExt(r, CyclicWindow(x, w, off, nbits));
  }

  /**
   get_bit_ntuple_from_uint: nbits bits of the rmax_bits-bit draw x read
   cyclically from bit `boffset mod rmax_bits` upward.
   */
  method NtupleFromUint(x: nat, rmaxBits: nat, nbits: nat, mask: nat, boffset: nat)
    returns (r: nat)
    requires 1 <= rmaxBits <= UintWidth && x < Pow2(rmaxBits)
    requires nbits <= UintWidth && mask == Pow2(nbits) - 1
    ensures r < Pow2(nbits)
    ensures forall k: nat :: k < nbits ==> Bit(r, k) == Bit(x, (boffset + k) % rmaxBits)
    ensures r == CyclicWindow(x, rmaxBits, boffset % rmaxBits, nbits)
  {
    var passes;
    r, passes := NtupleWrap(x, rmaxBits, boffset % rmaxBits, nbits, mask);
    CyclicBits(x, rmaxBits, boffset, nbits);
  }

  /**
   get_bit_ntuple_from_whole_uint: the same, treating x as a full 32-bit word
   whatever the generator's rmax_bits. `passes`, the number of wrap-loop
   iterations, is at most one.
   */
  method NtupleFromWholeUint(x: nat, nbits: nat, mask: nat, boffset: nat) returns (r: nat, passes: nat)
    requires x < UintModulus && boffset < UintWidth
    requires nbits <= UintWidth && mask == Pow2(nbits) - 1
    ensures r < Pow2(nbits)
    ensures forall k: nat :: k < nbits ==> Bit(r, k) == Bit(x, (boffset + k) % UintWidth)
    ensures r == CyclicWindow(x, UintWidth, boffset, nbits)
    ensures passes <= 1 && (passes == 1 <==> boffset + nbits > UintWidth)
  {
    Pow2Word();
    r, passes := NtupleWrap(x, UintWidth, boffset, nbits, mask);
    CyclicBits(x, UintWidth, boffset, nbits);
    ModSmall(boffset, UintWidth);
  }

  /** The bits of the reference window, and its width. */
  lemma CyclicBits(x: nat, w: nat, boffset: nat, n: nat)
    requires w > 0
    ensures CyclicWindow(x, w, boffset % w, n) < Pow2(n)
    ensures forall k: nat :: k < n ==>
      Bit(CyclicWindow(x, w, boffset % w, n), k) == Bit(x, (boffset + k) % w)
  {
    var off := boffset % w;
    var s := seq(n, i requires 0 <= i < n => CyclicBit(x, w, off, n - 1 - i));
    FromBitsBound(s);
    forall k: nat | k < n
      ensures Bit(CyclicWindow(x, w, off, n), k) == Bit(x, (boffset + k) % w)
    {
      CyclicWindowBit(x, w, off, n, k);
      ModAddMod(boffset, k, w);
    }
  }
}
