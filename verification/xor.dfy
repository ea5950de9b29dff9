/**
 The XOR supergenerator (rng_XOR.c). Table entry 207 stands for a generator
 whose every draw is the XOR of one draw from each of the other requested
 generators (the operands), optionally also XORed with a draw of the
 reference ("etalon") generator. Operand i is allocated from request entry
 i + 1, lazily, the first time the supergenerator is seeded.
 */
module XorRng {
  import opened Bits
  import opened Results
  import opened Generators

  /** The table entry of the supergenerator: its outputs are full unsigned ints. */
  const XorType: RngType := RngType("XOR (supergenerator)", UintMax)

  /** Which file-name slot request entry i reads: entry i > 0 is operand i - 1. */
  function FileSlot(i: nat): nat
  {
    if i > 0 then i - 1 else 0
  }

  /** What `wrap_gsl_rng_alloc` needs of request entry i to allocate it. */
  predicate CanAlloc(p: InputParams, reg: Registry, i: nat)
  {
    && i < |p.gnumbs|
    && p.gnumbs[i] < |reg|
    && reg[p.gnumbs[i]].Some?
    && (p.gnumbs[i] != XorId && IsFileInput(reg[p.gnumbs[i]].value.name) ==> FileSlot(i) < |p.gfilenum|)
  }

  /**
   `wrap_gsl_rng_alloc`: entry 207 becomes the supergenerator, a type whose
   name starts with "file_input" a file generator reading the file bound to
   the entry, anything else a standard generator of that type.
   */
  function WrapAlloc(p: InputParams, reg: Registry, i: nat): (k: Kind)
    requires CanAlloc(p, reg, i)
    ensures k.Composite? <==> p.gnumbs[i] == XorId
    ensures k.FileInput? <==> p.gnumbs[i] != XorId && IsFileInput(reg[p.gnumbs[i]].value.name)
    ensures !k.Composite? ==> k.id == p.gnumbs[i]
    ensures k.FileInput? ==> k.fileIndex == p.gfilenum[FileSlot(i)]
  {
    var id := p.gnumbs[i];
    if id == XorId then Composite
    else if IsFileInput(reg[id].value.name) then FileInput(id, p.gfilenum[FileSlot(i)])
    else Standard(id)
  }

  /** `XOR_state_t`: the operand slots (null until allocated) and the last output. */
  datatype XorState = XorState(grngs: seq<Option<Gen>>, xorRnd: nat)

  /** The number of operands, `gvcount - 1` (none when nothing is requested). */
  function Operands(p: InputParams): nat
  {
    if p.gvcount == 0 then 0 else p.gvcount - 1
  }

  /** What `XOR_set` needs: room for the operands, a seed for each, and allocatable entries. */
  predicate CanSet(st: XorState, p: InputParams, reg: Registry)
  {
    && Operands(p) <= |st.grngs|
    && Operands(p) <= |p.gseeds|
    && forall i :: 0 <= i < Operands(p) && st.grngs[i].None? ==> CanAlloc(p, reg, i + 1)
  }

  /** The kind operand i has after `XOR_set`: kept if allocated, else allocated from entry i + 1. */
  function OperandKind(st: XorState, p: InputParams, reg: Registry, i: nat): Kind
    requires CanSet(st, p, reg) && i < Operands(p)
  {
    if st.grngs[i].Some? then st.grngs[i].value.kind else WrapAlloc(p, reg, i + 1)
  }

  /** The loop of `XOR_set` from operand i on. */
  function SetFrom(g: seq<Option<Gen>>, p: InputParams, reg: Registry, i: nat): (g': seq<Option<Gen>>)
    requires CanSet(XorState(g, 0), p, reg) && i <= Operands(p)
    ensures |g'| == |g|
    ensures forall k :: i <= k < Operands(p) ==>
              g'[k] == Some(Gen(OperandKind(XorState(g, 0), p, reg, k), p.gseeds[k], 0))
    ensures forall k :: 0 <= k < |g| && !(i <= k < Operands(p)) ==> g'[k] == g[k]
    decreases Operands(p) - i
  {
    if i == Operands(p) then g
    else
      var kind := OperandKind(XorState(g, 0), p, reg, i);
      SetFrom(g[i := Some(Gen(kind, p.gseeds[i], 0))], p, reg, i + 1)
  }

  /**
   `XOR_set`: the seed argument s is ignored. Every operand is allocated if
   it is still null and then set with its own seed `gseeds[i]`, which
   restarts its stream; slots past the operands are untouched.
   */
  function XorSet(st: XorState, s: nat, p: InputParams, reg: Registry): (st': XorState)
    requires CanSet(st, p, reg)
    ensures |st'.grngs| == |st.grngs| && st'.xorRnd == st.xorRnd
    ensures forall i :: 0 <= i < Operands(p) ==>
              st'.grngs[i] == Some(Gen(OperandKind(st, p, reg, i), p.gseeds[i], 0))
    ensures forall i :: Operands(p) <= i < |st.grngs| ==> st'.grngs[i] == st.grngs[i]
  {
    XorState(SetFrom(st.grngs, p, reg, 0), st.xorRnd)
  }

  /** Setting twice is setting once, whatever the seeds passed. */
  lemma XorSetTwice(st: XorState, s1: nat, s2: nat, p: InputParams, reg: Registry)
    requires CanSet(st, p, reg)
    ensures CanSet(XorSet(st, s1, p, reg), p, reg)
    ensures XorSet(XorSet(st, s1, p, reg), s2, p, reg) == XorSet(st, s1, p, reg)
  {
    var st1 := XorSet(st, s1, p, reg);
    var st2 := XorSet(st1, s2, p, reg);
    assert st2.grngs == st1.grngs;
  }

  /**
   `XOR_rng_alloc`: the state starts zeroed (every slot null) and is set
   once with the default seed, so every operand i is allocated from request
   entry i + 1 and set with `gseeds[i]`.
   */
  function XorAlloc(p: InputParams, reg: Registry, vecMax: nat, defaultSeed: nat): (st: XorState)
    requires Operands(p) <= vecMax && Operands(p) <= |p.gseeds|
    requires forall i :: 1 <= i <= Operands(p) ==> CanAlloc(p, reg, i)
    ensures |st.grngs| == vecMax
    ensures Allocated(st, Operands(p))
    ensures forall i :: 0 <= i < Operands(p) ==>
              st.grngs[i] == Some(Gen(WrapAlloc(p, reg, i + 1), p.gseeds[i], 0))
  {
    XorSet(XorState(seq(vecMax, _ => None), 0), defaultSeed, p, reg)
  }

  /** The first n operand slots hold generators. */
  predicate Allocated(st: XorState, n: nat)
  {
    n <= |st.grngs| && forall i :: 0 <= i < n ==> st.grngs[i].Some?
  }

  /** The next draw of each of the first n operands, in order. */
  function OperandDraws(st: XorState, out: Outputs, n: nat): (d: seq<nat>)
    requires Allocated(st, n)
    ensures |d| == n
  {
    seq(n, i requires 0 <= i < n => Draw(out, st.grngs[i].value))
  }

  /** The draws a call XORs: one per operand, then the etalon's when it takes part. */
  function Draws(st: XorState, out: Outputs, n: nat, withEtalon: bool, etalon: Gen): seq<nat>
    requires Allocated(st, n)
  {
    OperandDraws(st, out, n) + (if withEtalon then [Draw(out, etalon)] else [])
  }

  /** The XOR of a list of values. */
  function XorFold(d: seq<nat>): nat
  {
    if |d| == 0 then 0 else Xor(XorFold(d[..|d| - 1]), d[|d| - 1])
  }

  /** Whether an odd number of the values have bit k set. */
  function OddBit(d: seq<nat>, k: nat): bool
  {
    if |d| == 0 then false else OddBit(d[..|d| - 1], k) != Bit(d[|d| - 1], k)
  }

  /** Bit k of an XOR is the parity of bit k over the values. */
  lemma {:induction false} XorFoldBit(d: seq<nat>, k: nat)
    ensures Bit(XorFold(d), k) == OddBit(d, k)
  {
    if |d| == 0 {
      ZeroBit(k);
    } else {
      XorFoldBit(d[..|d| - 1], k);
      XorBit(XorFold(d[..|d| - 1]), d[|d| - 1], k);
    }
  }

  /** Truncating to 32 bits before an XOR or after it comes to the same. */
  lemma XorTruncate(a: nat, b: nat)
    ensures Xor(a % UintModulus, b) % UintModulus == Xor(a, b) % UintModulus
  {
    Pow2Word();
    forall k: nat
      ensures Bit(Xor(a % UintModulus, b) % UintModulus, k) == Bit(Xor(a, b) % UintModulus, k)
    {
      BitMod(Xor(a % UintModulus, b), UintWidth, k);
      BitMod(Xor(a, b), UintWidth, k);
      XorBit(a % UintModulus, b, k);
      XorBit(a, b, k);
      BitMod(a, UintWidth, k);
    }
    BitExt(Xor(a % UintModulus, b) % UintModulus, Xor(a, b) % UintModulus);
  }

  /** The bits of a truncated XOR: the parity for each of the 32 low bits, none above. */
  lemma XorWordBits(d: seq<nat>, r: nat)
    requires r == XorFold(d) % UintModulus
    ensures forall k: nat :: Bit(r, k) == (k < UintWidth && OddBit(d, k))
  {
    Pow2Word();
    forall k: nat
      ensures Bit(r, k) == (k < UintWidth && OddBit(d, k))
    {
      BitMod(XorFold(d), UintWidth, k);
      XorFoldBit(d, k);
    }
  }

  /**
   `XOR_get`: XOR one draw of each operand, in order, truncating to the
   32-bit `XOR_rnd` at every step, and then a draw of the etalon when
   `is_etalon && etalon_xor`. Each operand, and the etalon when used,
   advances by exactly one draw.
   */
  method XorGet(st: XorState, gvcount: nat, isEtalon: bool, etalonXor: bool, etalon: Gen, out: Outputs)
    returns (r: nat, st': XorState, etalon': Gen)
    requires 2 <= gvcount && Allocated(st, gvcount - 1)
    ensures r <= XorType.max
    ensures r == XorFold(Draws(st, out, gvcount - 1, isEtalon && etalonXor, etalon)) % UintModulus
    ensures forall k: nat :: Bit(r, k) == (k < UintWidth && OddBit(Draws(st, out, gvcount - 1, isEtalon && etalonXor, etalon), k))
    ensures st'.xorRnd == r && |st'.grngs| == |st.grngs|
    ensures forall i :: 0 <= i < gvcount - 1 ==> st'.grngs[i] == Some(Advance(st.grngs[i].value))
    ensures forall i :: gvcount - 1 <= i < |st.grngs| ==> st'.grngs[i] == st.grngs[i]
    ensures etalon' == if isEtalon && etalonXor then Advance(etalon) else etalon
  {
    var n := gvcount - 1;
    var d := OperandDraws(st, out, n);
    var g := st.grngs;
    var acc := Draw(out, g[0].value) % UintModulus;
    assert d[..1][..0] == [];
    g := g[0 := Some(Advance(g[0].value))];
    var i := 1;
    while i < n
      invariant 1 <= i <= n && |g| == |st.grngs|
      invariant acc == XorFold(d[..i]) % UintModulus
      invariant forall k :: 0 <= k < i ==> g[k] == Some(Advance(st.grngs[k].value))
      invariant forall k :: i <= k < |g| ==> g[k] == st.grngs[k]
    {
      XorTruncate(XorFold(d[..i]), d[i]);
      assert d[..i + 1][..i] == d[..i];
      acc := Xor(acc, Draw(out, g[i].value)) % UintModulus;
      g := g[i := Some(Advance(g[i].value))];
      i := i + 1;
    }
    assert d[..n] == d;
    var all := Draws(st, out, n, isEtalon && etalonXor, etalon);
    etalon' := etalon;
    if isEtalon && etalonXor {
      assert all[..|all| - 1] == d;
      XorTruncate(XorFold(d), Draw(out, etalon));
      acc := Xor(acc, Draw(out, etalon)) % UintModulus;
      etalon' := Advance(etalon);
    } else {
      assert all == d;
    }
    r := acc;
    st' := XorState(g, acc);
    XorWordBits(all, r);
  }

  /**
   With a single operand (two requested entries) and no etalon, the output
   is the operand's draw, truncated to 32 bits: the supergenerator just
   passes the second requested generator through.
   */
  lemma SingleOperand(st: XorState, out: Outputs, etalon: Gen)
    requires Allocated(st, 1)
    ensures XorFold(Draws(st, out, 1, false, etalon)) % UintModulus
         == Draw(out, st.grngs[0].value) % UintModulus
  {
    var d := Draws(st, out, 1, false, etalon);
    assert d[..0] == [];
  }
}
