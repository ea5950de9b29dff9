/**
 Machine-word arithmetic shared by every part of the model.

 The C code works on 32-bit `unsigned int` values with shifts, masks, `|`
 and `^`. Here a word is a `nat`; a right shift is division by a power of
 two, a left shift is multiplication taken modulo 2^32, and the bitwise
 operators are defined bit by bit. A window of bits is a `seq<bool>` read
 most-significant bit first, which is the order in which the tests read
 their bit strings.
 */
module Bits {

  /** 2^n */
  function Pow2(n: nat): (r: nat)
    ensures r >= 1
  {
    if n == 0 then 1 else 2 * Pow2(n - 1)
  }

  /** Width of a C `unsigned int`. */
  const UintWidth: nat := 32

  /** 2^32, the modulus of `unsigned int` arithmetic. */
  const UintModulus: nat := 0x1_0000_0000

  /** `UINT_MAX` */
  const UintMax: nat := 0xFFFF_FFFF

  /** x * 2^k: a left shift that loses no bits. */
  function Scale(x: nat, k: nat): nat
  {
    if k == 0 then x else 2 * Scale(x, k - 1)
  }

  /** C `x >> k` on an unsigned value: k halvings. */
  function Shr(x: nat, k: nat): nat
  {
    if k == 0 then x else Shr(x / 2, k - 1)
  }

  /** C `x << k` on a 32-bit `unsigned int` (the high bits fall off). */
  function Shl(x: nat, k: nat): nat
  {
    Scale(x, k) % UintModulus
  }

  /** Bit k (counted from the least significant end) of x. */
  function Bit(x: nat, k: nat): bool
  {
    if k == 0 then x % 2 == 1 else Bit(x / 2, k - 1)
  }

  /** Bitwise `&` on unbounded naturals. */
  function And(a: nat, b: nat): nat
    decreases a + b
  {
    if a == 0 || b == 0 then 0
    else 2 * And(a / 2, b / 2) + (if a % 2 == 1 && b % 2 == 1 then 1 else 0)
  }

  /** Bitwise `|` on unbounded naturals. */
  function Or(a: nat, b: nat): nat
    decreases a + b
  {
    if a == 0 then b
    else if b == 0 then a
    else 2 * Or(a / 2, b / 2) + (if a % 2 == 1 || b % 2 == 1 then 1 else 0)
  }

  /** Bitwise `^` on unbounded naturals. */
  function Xor(a: nat, b: nat): nat
    decreases a + b
  {
    if a == 0 then b
    else if b == 0 then a
    else 2 * Xor(a / 2, b / 2) + (if a % 2 != b % 2 then 1 else 0)
  }

  /** The n low bits of v, most significant first. */
  function ToBits(v: nat, n: nat): (s: seq<bool>)
    ensures |s| == n
  {
    if n == 0 then [] else ToBits(v / 2, n - 1) + [v % 2 == 1]
  }

  /** The number whose binary digits, most significant first, are s. */
  function FromBits(s: seq<bool>): nat
  {
    if |s| == 0 then 0
    else 2 * FromBits(s[..|s| - 1]) + (if s[|s| - 1] then 1 else 0)
  }

  /** The sum of a sequence of counts or widths. */
  function Sum(c: seq<nat>): nat
  {
    if |c| == 0 then 0 else Sum(c[..|c| - 1]) + c[|c| - 1]
  }

  // ---------------------------------------------------------------------
  // Powers of two and division

  lemma {:induction false} Pow2Add(a: nat, b: nat)
    ensures Pow2(a + b) == Pow2(a) * Pow2(b)
  {
    if a > 0 {
      Pow2Add(a - 1, b);
      assert Pow2(a + b) == 2 * Pow2(a - 1 + b);
      MulAssoc(2, Pow2(a - 1), Pow2(b));
    }
  }
  lemma MulLe(a: nat, b: nat, c: nat)
    requires a <= b
    ensures a * c <= b * c
  {
  }
  lemma MulDistSub(a: int, b: int, c: int)
    ensures (a - b) * c == a * c - b * c
  {
  }
  lemma MulDistAdd(a: int, b: int, c: int)
    ensures (a + b) * c == a * c + b * c
  {
  }
  lemma MulAssoc(a: int, b: int, c: int)
    ensures (a * b) * c == a * (b * c)
  {
  }
  lemma DivModUnique(x: nat, d: nat, q: nat, r: nat)
    requires d > 0 && x == q * d + r && r < d
    ensures x / d == q && x % d == r
  {
    var q', r' := x / d, x % d;
    assert x == q' * d + r';
    if q' < q {
      MulDistSub(q, q', d);
      MulLe(1, q - q', d);
      assert false;
    } else if q' > q {
      MulDistSub(q', q, d);
      MulLe(1, q' - q, d);
      assert false;
    }
  }
  lemma ModSmall(a: nat, w: nat)
    requires a < w
    ensures a % w == a
  {
    DivModUnique(a, w, 0, a);
  }

  /** Reducing the first summand modulo w first changes nothing. */
  lemma ModAddMod(b: nat, c: nat, w: nat)
    requires w > 0
    ensures (b % w + c) % w == (b + c) % w
  {
    var q, r := b / w, b % w;
    var q2, r2 := (r + c) / w, (r + c) % w;
    DivModParts(b, w);
    DivModParts(r + c, w);
    MulDistAdd(q, q2, w);
    DivModUnique(b + c, w, q + q2, r2);
  }

  /** x = q*d + r with the Euclidean parts */
  lemma DivModParts(x: nat, d: nat)
    requires d > 0
    ensures x == (x / d) * d + x % d && x % d < d
  {
  }
  lemma DivDiv(x: nat, a: nat, b: nat)
    requires a > 0 && b > 0
    ensures x / a / b == x / (a * b)
    ensures x % (a * b) == (x / a) % b * a + x % a
  {
    var q, r := x / a, x % a;
    var q2, r2 := q / b, q % b;
    DivModParts(x, a);
    DivModParts(q, b);
    MulDistAdd(q2 * b, r2, a);
    MulAssoc(q2, b, a);
    assert x == q2 * (a * b) + (r2 * a + r);
    MulLe(r2, b - 1, a);
    MulDistSub(b, 1, a);
    assert r2 * a + r < a * b;
    DivModUnique(x, a * b, q2, r2 * a + r);
  }
  lemma MulModGen(x: nat, P: nat, K: nat)
    requires P > 0 && K > 0
    ensures (x * K) % (P * K) == (x % P) * K
  {
    var q, r := x / P, x % P;
    DivModParts(x, P);
    MulDistAdd(q * P, r, K);
    MulAssoc(q, P, K);
    assert x * K == q * (P * K) + r * K;
    MulLe(r, P - 1, K);
    MulDistSub(P, 1, K);
    DivModUnique(x * K, P * K, q, r * K);
  }
  /** Shifting up by k, then keeping j + k bits, keeps the j low bits of x. */
  lemma ScaleMod(x: nat, j: nat, k: nat)
    ensures Scale(x, k) % Pow2(j + k) == Scale(x % Pow2(j), k)
  {
    ScaleMul(x, k);
    ScaleMul(x % Pow2(j), k);
    Pow2Add(j, k);
    MulModGen(x, Pow2(j), Pow2(k));
  }

  /** Truncating to 32 bits and then to n <= 32 bits is truncating to n bits. */
  lemma ModWord(y: nat, n: nat)
    requires n <= UintWidth
    ensures (y % UintModulus) % Pow2(n) == y % Pow2(n)
  {
    Pow2Word();
    Pow2Add(n, UintWidth - n);
    ModMod(y, Pow2(n), Pow2(UintWidth - n));
  }
  lemma DivBound(x: nat, a: nat, b: nat)
    requires x < Pow2(a + b)
    ensures x / Pow2(b) < Pow2(a)
  {
    Pow2Add(a, b);
    var q := x / Pow2(b);
    DivModParts(x, Pow2(b));
    if q >= Pow2(a) {
      MulLe(Pow2(a), q, Pow2(b));
      assert false;
    }
  }
  lemma DivHigh(a: nat, b: nat, k: nat)
    requires b < Pow2(k)
    ensures (a * Pow2(k) + b) / Pow2(k) == a
    ensures (a * Pow2(k) + b) % Pow2(k) == b
  {
    DivModUnique(a * Pow2(k) + b, Pow2(k), a, b);
  }
  lemma ModMod(x: nat, a: nat, b: nat)
    requires a > 0 && b > 0
    ensures x % (a * b) % a == x % a
  {
    DivDiv(x, a, b);
    var r2 := (x / a) % b;
    DivModUnique(r2 * a + x % a, a, r2, x % a);
  }
  lemma ModDiv(x: nat, a: nat, b: nat)
    ensures (x / Pow2(a)) % Pow2(b) == (x % Pow2(a + b)) / Pow2(a)
  {
    Pow2Add(a, b);
    DivDiv(x, Pow2(a), Pow2(b));
    DivHigh((x / Pow2(a)) % Pow2(b), x % Pow2(a), a);
  }
  lemma ModPow2Step(x: nat, n: nat)
    requires n >= 1
    ensures x % Pow2(n) == 2 * ((x / 2) % Pow2(n - 1)) + x % 2
  {
    DivDiv(x, 2, Pow2(n - 1));
  }

  lemma Pow2Word()
    ensures Pow2(UintWidth) == UintModulus
  {
    assert Pow2(4) == 16;
    Pow2Add(4, 4);
    Pow2Add(8, 8);
    Pow2Add(16, 16);
  }

  lemma {:induction false} Pow2Le(a: nat, b: nat)
    requires a <= b
    ensures Pow2(a) <= Pow2(b)
  {
    Pow2Add(a, b - a);
    MulLe(1, Pow2(b - a), Pow2(a));
  }

  lemma HalfShr(x: nat, n: nat)
    ensures x / 2 / Pow2(n) == x / Pow2(n + 1)
  {
    DivDiv(x, 2, Pow2(n));
    assert Pow2(n + 1) == 2 * Pow2(n);
  }

  /** The shift-up is multiplication by a power of two. */
  lemma {:induction false} ScaleMul(x: nat, k: nat)
    ensures Scale(x, k) == x * Pow2(k)
  {
    if k > 0 {
      ScaleMul(x, k - 1);
      MulAssoc(2, x, Pow2(k - 1));
      MulAssoc(x, 2, Pow2(k - 1));
    }
  }

  /** The shift-down is division by a power of two. */
  lemma {:induction false} ShrDiv(x: nat, k: nat)
    ensures Shr(x, k) == x / Pow2(k)
  {
    if k > 0 {
      ShrDiv(x / 2, k - 1);
      HalfShr(x, k - 1);
    }
  }

  lemma {:induction false} ScaleAdd(a: nat, b: nat, k: nat)
    ensures Scale(a + b, k) == Scale(a, k) + Scale(b, k)
  {
    if k > 0 {
      ScaleAdd(a, b, k - 1);
    }
  }

  lemma {:induction false} ScaleScale(x: nat, a: nat, b: nat)
    ensures Scale(Scale(x, a), b) == Scale(x, a + b)
  {
    if b > 0 {
      ScaleScale(x, a, b - 1);
    }
  }

  // ---------------------------------------------------------------------
  // Bit strings

  lemma {:induction false} FromBitsBound(s: seq<bool>)
    ensures FromBits(s) < Pow2(|s|)
  {
    if |s| > 0 {
      FromBitsBound(s[..|s| - 1]);
    }
  }

  lemma {:induction false} FromBitsAppend(a: seq<bool>, b: seq<bool>)
    ensures FromBits(a + b) == Scale(FromBits(a), |b|) + FromBits(b)
    decreases |b|
  {
    if |b| == 0 {
      assert a + b == a;
    } else {
      var b' := b[..|b| - 1];
      assert (a + b)[..|a + b| - 1] == a + b';
      assert (a + b)[|a + b| - 1] == b[|b| - 1];
      FromBitsAppend(a, b');
    }
  }

  lemma {:induction false} FromToBits(v: nat, n: nat)
    ensures FromBits(ToBits(v, n)) == v % Pow2(n)
  {
    if n > 0 {
      var s := ToBits(v, n);
      assert s[..n - 1] == ToBits(v / 2, n - 1);
      FromToBits(v / 2, n - 1);
      ModPow2Step(v, n);
    }
  }

  lemma {:induction false} ToFromBits(s: seq<bool>)
    ensures ToBits(FromBits(s), |s|) == s
  {
    if |s| > 0 {
      var s' := s[..|s| - 1];
      var b := if s[|s| - 1] then 1 else 0;
      var v := FromBits(s);
      DivModUnique(v, 2, FromBits(s'), b);
      ToFromBits(s');
      assert s == s' + [s[|s| - 1]];
    }
  }

  /** Only the n low bits of v matter to ToBits(v, n). */
  lemma ToBitsMod(v: nat, n: nat)
    ensures ToBits(v % Pow2(n), n) == ToBits(v, n)
  {
    FromToBits(v, n);
    ToFromBits(ToBits(v, n));
  }

  /** An (a+b)-bit string is its a high bits followed by its b low bits. */
  lemma {:induction false} ToBitsSplit(v: nat, a: nat, b: nat)
    ensures ToBits(v, a + b) == ToBits(Shr(v, b), a) + ToBits(v, b)
    decreases b
  {
    if b == 0 {
      assert Shr(v, 0) == v;
      assert ToBits(v, b) == [];
    } else {
      var h, low := v / 2, [v % 2 == 1];
      ToBitsSplit(h, a, b - 1);
      var X, Y := ToBits(Shr(v, b), a), ToBits(h, b - 1);
      assert Shr(h, b - 1) == Shr(v, b);
      assert ToBits(h, a + (b - 1)) == X + Y;
      assert ToBits(v, a + b) == ToBits(h, a + b - 1) + low;
      assert ToBits(v, b) == Y + low;
      assert ToBits(v, a + b) == (X + Y) + low;
    }
  }

  /** The bits lo .. hi-1 of x sit at indices w-hi .. w-lo of ToBits(x, w). */
  lemma ToBitsSlice(x: nat, w: nat, lo: nat, hi: nat)
    requires lo <= hi <= w
    ensures ToBits(x, w)[w - hi .. w - lo] == ToBits(Shr(x, lo), hi - lo)
  {
    var y := Shr(x, lo);
    var A, B := ToBits(y, w - lo), ToBits(x, lo);
    ToBitsSplit(x, w - lo, lo);
    assert ToBits(x, w) == A + B;
    assert ToBits(x, w)[..w - lo] == A;
    var z := Shr(y, hi - lo);
    ToBitsSplit(y, w - hi, hi - lo);
    assert A == ToBits(z, w - hi) + ToBits(y, hi - lo);
    assert A[w - hi..] == ToBits(y, hi - lo);
  }

  // ---------------------------------------------------------------------
  // Bitwise operators

  /** `x & (2^n - 1)` keeps the n low bits. */
  lemma {:induction false} AndLowMask(x: nat, n: nat)
    ensures And(x, Pow2(n) - 1) == x % Pow2(n)
  {
    if n == 0 {
      assert Pow2(n) - 1 == 0;
    } else if x == 0 {
      DivModUnique(0, Pow2(n), 0, 0);
    } else {
      AndLowMask(x / 2, n - 1);
      AndLowMaskStep(x, n);
    }
  }

  lemma AndLowMaskStep(x: nat, n: nat)
    requires n > 0 && x > 0
    requires And(x / 2, Pow2(n - 1) - 1) == (x / 2) % Pow2(n - 1)
    ensures And(x, Pow2(n) - 1) == x % Pow2(n)
  {
    var m := Pow2(n) - 1;
    assert m != 0 && m / 2 == Pow2(n - 1) - 1 && m % 2 == 1;
    assert And(x, m) == 2 * And(x / 2, m / 2) + x % 2;
    ModPow2Step(x, n);
  }

  lemma {:induction false} OrComm(a: nat, b: nat)
    ensures Or(a, b) == Or(b, a)
    decreases a + b
  {
    if a != 0 && b != 0 {
      OrComm(a / 2, b / 2);
    }
  }

  /** `|` of a multiple of 2^k with a value below 2^k is their sum. */
  lemma {:induction false} OrDisjoint(a: nat, b: nat, k: nat)
    requires b < Pow2(k)
    ensures Or(Scale(a, k), b) == Scale(a, k) + b
    ensures Or(b, Scale(a, k)) == Scale(a, k) + b
  {
    OrComm(Scale(a, k), b);
    if k > 0 && b != 0 {
      OrDisjoint(a, b / 2, k - 1);
    }
  }

  lemma {:induction false} XorBit(a: nat, b: nat, k: nat)
    ensures Bit(Xor(a, b), k) == (Bit(a, k) != Bit(b, k))
    decreases a + b
  {
    if a == 0 {
      ZeroBit(k);
    } else if b == 0 {
      ZeroBit(k);
    } else {
      var x := Xor(a, b);
      var c := if a % 2 != b % 2 then 1 else 0;
      DivModUnique(x, 2, Xor(a / 2, b / 2), c);
      if k > 0 {
        XorBit(a / 2, b / 2, k - 1);
      }
    }
  }

  lemma {:induction false} ZeroBit(k: nat)
    ensures !Bit(0, k)
  {
    if k > 0 {
      ZeroBit(k - 1);
    }
  }

  /** Truncating to n bits clears every bit from n up. */
  lemma {:induction false} BitMod(x: nat, n: nat, k: nat)
    ensures Bit(x % Pow2(n), k) == (k < n && Bit(x, k))
  {
    if n == 0 {
      ZeroBit(k);
    } else {
      ModPow2Step(x, n);
      var y := x % Pow2(n);
      DivModUnique(y, 2, (x / 2) % Pow2(n - 1), x % 2);
      if k > 0 {
        BitMod(x / 2, n - 1, k - 1);
      }
    }
  }

  /** A value below 2^n has no bit at or above n. */
  lemma BitHigh(x: nat, n: nat, k: nat)
    requires x < Pow2(n) && n <= k
    ensures !Bit(x, k)
  {
    BitMod(x, n, k);
  }

  /** Shifting a w-bit value left by k loses nothing when w + k <= 32. */
  lemma ShlNoOverflow(x: nat, w: nat, k: nat)
    requires x < Pow2(w) && w + k <= UintWidth
    ensures Scale(x, k) < Pow2(w + k)
    ensures Shl(x, k) == Scale(x, k)
  {
    ScaleMul(x, k);
    Pow2Add(w, k);
    MulLe(x, Pow2(w) - 1, Pow2(k));
    MulDistSub(Pow2(w), 1, Pow2(k));
    Pow2Le(w + k, UintWidth);
    Pow2Word();
    DivHigh(0, x * Pow2(k), UintWidth);
  }

  // ---------------------------------------------------------------------
  // Single bits of shifts, masks and `|`

  lemma {:induction false} OrBit(a: nat, b: nat, k: nat)
    ensures Bit(Or(a, b), k) == (Bit(a, k) || Bit(b, k))
    decreases a + b
  {
    if a == 0 || b == 0 {
      ZeroBit(k);
    } else {
      var c := if a % 2 == 1 || b % 2 == 1 then 1 else 0;
      DivModUnique(Or(a, b), 2, Or(a / 2, b / 2), c);
      if k > 0 {
        OrBit(a / 2, b / 2, k - 1);
      }
    }
  }

  lemma {:induction false} ShrBit(x: nat, n: nat, k: nat)
    ensures Bit(Shr(x, n), k) == Bit(x, k + n)
  {
    if n > 0 {
      ShrBit(x / 2, n - 1, k);
    }
  }

  lemma {:induction false} ScaleBit(x: nat, n: nat, k: nat)
    ensures Bit(Scale(x, n), k) == (n <= k && Bit(x, k - n))
  {
    if n > 0 {
      var y := Scale(x, n - 1);
      DivModUnique(2 * y, 2, y, 0);
      if k > 0 {
        ScaleBit(x, n - 1, k - 1);
      }
    }
  }

  /** Bit k of the 32-bit `x << n`. */
  lemma ShlBit(x: nat, n: nat, k: nat)
    ensures Bit(Shl(x, n), k) == (k < UintWidth && n <= k && Bit(x, k - n))
  {
    Pow2Word();
    BitMod(Scale(x, n), UintWidth, k);
    ScaleBit(x, n, k);
  }

  /** Bit k of `x & (2^n - 1)`. */
  lemma AndMaskBit(x: nat, n: nat, k: nat)
    ensures Bit(And(x, Pow2(n) - 1), k) == (k < n && Bit(x, k))
  {
    AndLowMask(x, n);
    BitMod(x, n, k);
  }

  /** Bit k of a bit string's value is the k-th digit from the right. */
  lemma {:induction false} FromBitsBit(s: seq<bool>, k: nat)
    ensures Bit(FromBits(s), k) == (k < |s| && s[|s| - 1 - k])
  {
    if |s| == 0 {
      ZeroBit(k);
    } else {
      var s' := s[..|s| - 1];
      var c := if s[|s| - 1] then 1 else 0;
      DivModUnique(FromBits(s), 2, FromBits(s'), c);
      if k > 0 {
        FromBitsBit(s', k - 1);
      }
    }
  }

  /** Two naturals with the same bits are equal. */
  lemma {:induction false} BitExt(a: nat, b: nat)
    requires forall k: nat :: Bit(a, k) == Bit(b, k)
    ensures a == b
    decreases a + b
  {
    if a != 0 || b != 0 {
      assert Bit(a, 0) == Bit(b, 0);
      forall k: nat
        ensures Bit(a / 2, k) == Bit(b / 2, k)
      {
        assert Bit(a, k + 1) == Bit(b, k + 1);
      }
      BitExt(a / 2, b / 2);
    }
  }

  // ---------------------------------------------------------------------
  // Splicing a window from two words

  /** `(x << need) & mask` with a mask of left+need ones keeps x's low `left` bits, shifted up. */
  lemma MaskedShl(x: nat, left: nat, need: nat)
    requires left + need <= UintWidth
    ensures (if need < UintWidth then And(Shl(x, need), Pow2(left + need) - 1) else 0)
         == Scale(x % Pow2(left), need)
  {
    if need < UintWidth {
      var y, n := Scale(x, need), left + need;
      AndLowMask(Shl(x, need), n);
      ModWord(y, n);
      ScaleMod(x, left, need);
      calc {
        And(Shl(x, need), Pow2(n) - 1);
        (y % UintModulus) % Pow2(n);
        y % Pow2(n);
        Scale(x % Pow2(left), need);
      }
    } else {
      assert left == 0;
      assert x % Pow2(left) == 0;
      ScaleMul(0, need);
    }
  }

  /** A number below 2^n written in n bits reads back as itself. */
  lemma FromToSmall(h: nat, n: nat)
    requires h < Pow2(n)
    ensures FromBits(ToBits(h, n)) == h
  {
    FromToBits(h, n);
    DivHigh(0, h, n);
  }

  /** The first `need` bits of a w-bit word, as a number: the word shifted right by w - need. */
  lemma HighBits(d: nat, w: nat, need: nat)
    requires d < Pow2(w) && need <= w
    ensures FromBits(ToBits(d, w)[..need]) == Shr(d, w - need) < Pow2(need)
  {
    var lo := w - need;
    var h := Shr(d, lo);
    var B := ToBits(d, w)[..need];
    assert B == ToBits(h, need) by {
      ToBitsSlice(d, w, lo, w);
    }
    assert h < Pow2(need) by {
      assert need + lo == w;
      ShrDiv(d, lo);
      DivBound(d, need, lo);
    }
    FromToSmall(h, need);
    assert FromBits(B) == FromBits(ToBits(h, need));
  }

  /** The high `need` bits of the w-bit word d, appended below the bits A. */
  lemma AppendWindow(A: seq<bool>, d: nat, w: nat, need: nat)
    requires d < Pow2(w) && 1 <= need <= w
    ensures Or(Scale(FromBits(A), need), Shr(d, w - need))
         == FromBits(A + ToBits(d, w)[..need])
  {
    var B := ToBits(d, w)[..need];
    var h := Shr(d, w - need);
    HighBits(d, w, need);
    assert |B| == need;
    FromBitsAppend(A, B);
    OrDisjoint(FromBits(A), h, need);
  }
}
