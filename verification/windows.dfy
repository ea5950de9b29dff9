/**
 Reading a w-bit window at an arbitrary bit position of an array of 32-bit
 words, the words laid end to end and each read most significant bit
 first. The Serial test (sts_serial.c) and the Bitstream test
 (diehard_bitstream.c) carry the same code for this: one shifted word when
 the window fits in it, otherwise the tail of one word spliced to the head
 of the next.
 */
module Windows {
  import opened Bits

  /** Every entry is a 32-bit `unsigned int`. */
  ghost predicate Words(buf: seq<nat>)
  {
    forall i :: 0 <= i < |buf| ==> buf[i] < UintModulus
  }

  /** The bit string written by a word array. */
  function WordBits(buf: seq<nat>): (s: seq<bool>)
    ensures |s| == UintWidth * |buf|
  {
    if |buf| == 0 then [] else WordBits(buf[..|buf| - 1]) + ToBits(buf[|buf| - 1], UintWidth)
  }

  /** Word i occupies bits 32i .. 32i+31 of the string. */
  lemma {:induction false} WordAt(buf: seq<nat>, i: nat)
    requires i < |buf|
    ensures WordBits(buf)[UintWidth * i .. UintWidth * i + UintWidth] == ToBits(buf[i], UintWidth)
  {
    var pre := buf[..|buf| - 1];
    var P, T := WordBits(pre), ToBits(buf[|buf| - 1], UintWidth);
    assert WordBits(buf) == P + T;
    if i < |buf| - 1 {
      WordAt(pre, i);
      assert pre[i] == buf[i];
      assert (P + T)[UintWidth * i .. UintWidth * i + UintWidth] == P[UintWidth * i .. UintWidth * i + UintWidth];
    } else {
      assert (P + T)[|P|..] == T;
    }
  }

  /**
   The reads the C code makes: word pos/32, and also word pos/32 + 1 when
   the window runs past the end of the first.
   */
  predicate ReadsInBounds(n: nat, pos: nat, w: nat)
  {
    && pos / UintWidth < n
    && (pos % UintWidth + w > UintWidth ==> pos / UintWidth + 1 < n)
  }

  /** The reads are in bounds exactly when the window lies inside the string. */
  lemma InBoundsIff(n: nat, pos: nat, w: nat)
    requires 1 <= w <= UintWidth
    ensures ReadsInBounds(n, pos, w) <==> pos + w <= UintWidth * n
  {
    var q, r := pos / UintWidth, pos % UintWidth;
    assert pos == UintWidth * q + r;
  }

  /** `(1 << w) - 1` is w ones for w < 32. */
  lemma LowMask(w: nat)
    requires w < UintWidth
    ensures Shl(1, w) == Pow2(w)
  {
    ShlNoOverflow(1, 1, w);
    ScaleMul(1, w);
  }

  /** The window lies inside one word: a single shift and mask. */
  lemma OneWord(x: nat, sh: nat, w: nat)
    requires 1 <= w && sh + w <= UintWidth
    ensures And(Shr(x, UintWidth - w - sh), Pow2(w) - 1) < Pow2(w)
    ensures ToBits(And(Shr(x, UintWidth - w - sh), Pow2(w) - 1), w)
         == ToBits(x, UintWidth)[sh .. sh + w]
  {
    var lo := UintWidth - w - sh;
    AndLowMask(Shr(x, lo), w);
    ToBitsMod(Shr(x, lo), w);
    ToBitsSlice(x, UintWidth, lo, lo + w);
  }

  /** The bits of x from bit sh on (counted from the top) are its low 32 - sh bits. */
  lemma TailValue(x: nat, sh: nat)
    requires sh <= UintWidth
    ensures FromBits(ToBits(x, UintWidth)[sh..]) == x % Pow2(UintWidth - sh)
  {
    var left := UintWidth - sh;
    ToBitsSlice(x, UintWidth, 0, left);
    assert ToBits(x, UintWidth)[sh..] == ToBits(x, UintWidth)[UintWidth - left .. UintWidth - 0];
    assert Shr(x, 0) == x;
    FromToBits(x, left);
  }

  /** The tail of x from bit sh on, shifted up by k and masked to w bits. */
  lemma MaskedTail(x: nat, sh: nat, k: nat, w: nat)
    requires sh < UintWidth && 1 <= k && w == UintWidth - sh + k && w < UintWidth
    ensures And(Shl(x, k), Pow2(w) - 1) == Scale(FromBits(ToBits(x, UintWidth)[sh..]), k)
  {
    var left := UintWidth - sh;
    TailValue(x, sh);
    assert Pow2(left + k) == Pow2(w);
    MaskedShl(x, left, k);
  }

  /** The window crosses into the next word: the tail of x spliced to the head of y. */
  lemma {:induction false} TwoWords(x: nat, y: nat, sh: nat, w: nat, r: nat)
    requires y < UintModulus && sh < UintWidth && w < UintWidth && sh + w > UintWidth
    requires r == Or(And(Shl(x, sh + w - UintWidth), Pow2(w) - 1), Shr(y, 2 * UintWidth - w - sh))
    ensures r < Pow2(w)
    ensures ToBits(r, w) == ToBits(x, UintWidth)[sh..] + ToBits(y, UintWidth)[..sh + w - UintWidth]
  {
    var k := sh + w - UintWidth;
    var A := ToBits(x, UintWidth)[sh..];
    var B := A + ToBits(y, UintWidth)[..k];
    MaskedTail(x, sh, k, w);
    assert Shr(y, 2 * UintWidth - w - sh) == Shr(y, UintWidth - k);
    assert r == FromBits(B) by {
      Pow2Word();
      AppendWindow(A, y, UintWidth, k);
    }
    assert |B| == w;
    FromBitsBound(B);
    ToFromBits(B);
  }

  /** A piece of a known block of the string is the same piece of the block. */
  lemma SubSlice(S: seq<bool>, a: nat, T: seq<bool>, lo: nat, hi: nat)
    requires a + |T| <= |S| && S[a .. a + |T|] == T && lo <= hi <= |T|
    ensures S[a + lo .. a + hi] == T[lo .. hi]
  {
    forall j | 0 <= j < hi - lo
      ensures S[a + lo .. a + hi][j] == T[lo .. hi][j]
    {
      assert S[a + lo + j] == S[a .. a + |T|][lo + j];
    }
  }

  /** A window inside word i of the string. */
  lemma SliceInWord(buf: seq<nat>, i: nat, sh: nat, w: nat)
    requires i < |buf| && sh + w <= UintWidth
    ensures UintWidth * i + sh + w <= |WordBits(buf)|
    ensures WordBits(buf)[UintWidth * i + sh .. UintWidth * i + sh + w]
         == ToBits(buf[i], UintWidth)[sh .. sh + w]
  {
    WordAt(buf, i);
    SubSlice(WordBits(buf), UintWidth * i, ToBits(buf[i], UintWidth), sh, sh + w);
  }

  /** A window that starts in word i and ends in word i + 1. */
  lemma SliceAcross(buf: seq<nat>, i: nat, sh: nat, w: nat)
    requires i + 1 < |buf| && sh < UintWidth < sh + w <= 2 * UintWidth
    ensures UintWidth * i + sh + w <= |WordBits(buf)|
    ensures WordBits(buf)[UintWidth * i + sh .. UintWidth * i + sh + w]
         == ToBits(buf[i], UintWidth)[sh..] + ToBits(buf[i + 1], UintWidth)[..sh + w - UintWidth]
  {
    var S, a := WordBits(buf), UintWidth * i;
    var b, k := a + UintWidth, sh + w - UintWidth;
    var X, Y := ToBits(buf[i], UintWidth), ToBits(buf[i + 1], UintWidth);
    WordAt(buf, i);
    WordAt(buf, i + 1);
    assert UintWidth * (i + 1) == b;
    SubSlice(S, a, X, sh, UintWidth);
    SubSlice(S, b, Y, 0, k);
    assert X[sh .. UintWidth] == X[sh..];
    assert Y[0 .. k] == Y[..k];
    assert a + sh + w == b + k;
    assert S[a + sh .. b + k] == S[a + sh .. b] + S[b .. b + k];
  }

  /**
   The w-bit window at bit `pos`, most significant bit first, as the C code
   computes it (w < 32; the C code relies on that for its mask and for the
   two-word splice).
   */
  method ExtractWindow(buf: seq<nat>, pos: nat, w: nat) returns (r: nat)
    requires Words(buf) && 1 <= w < UintWidth && ReadsInBounds(|buf|, pos, w)
    ensures pos + w <= |WordBits(buf)|
    ensures r < Pow2(w)
    ensures ToBits(r, w) == WordBits(buf)[pos .. pos + w]
  {
    var intpos := pos / UintWidth;
    var intshift := pos % UintWidth;
    assert pos == UintWidth * intpos + intshift;
    LowMask(w);
    var mask: nat := Shl(1, w) - 1;
    if intshift + w <= UintWidth {
      // one word is enough
      r := And(Shr(buf[intpos], UintWidth - w - intshift), mask);
      OneWord(buf[intpos], intshift, w);
      SliceInWord(buf, intpos, intshift, w);
    } else {
      // splice the tail of this word to the head of the next
      r := Or(And(Shl(buf[intpos], intshift + w - UintWidth), mask),
              Shr(buf[intpos + 1], 2 * UintWidth - w - intshift));
      TwoWords(buf[intpos], buf[intpos + 1], intshift, w, r);
      SliceAcross(buf, intpos, intshift, w);
    }
  }
}
