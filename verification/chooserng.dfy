/**
 Generator selection (`select_rng` in choose_rng.c): turning the requested
 generator names or numbers, declared seeds and file names into a resolved
 parameter record and a newly allocated, seeded generator, or failing.
 Random seeds from the entropy source are an input (`randoms`), and every
 generator is an abstract draw stream (Generators.Outputs).
 */
module ChooseRng {
  import opened Bits
  import opened Results
  import opened Generators
  import opened XorRng

  /** The name search scans table entries 0 .. 999. */
  const NameSearchLimit: nat := 1000

  /** Names are compared on their first 20 characters. */
  const NameCompareLength: nat := 20

  /** Why a selection fails; select_rng reports each with -1. */
  datatype SelectError =
    | NothingRequested
    | UnknownGenerator(entry: nat)
    | NoXorOperands
    | SecondXor(entry: nat)
    | NoFileName(operand: nat)

  // ---------------------------------------------------------------------
  // Resolving names and numbers

  /** The first n characters of a C string (all of it when shorter). */
  function Truncate(s: string, n: nat): (t: string)
    ensures |t| <= n && t <= s
  {
    if |s| <= n then s else s[..n]
  }

  /** `strncmp(a, b, 20) == 0` */
  predicate SameName(a: string, b: string)
  {
    Truncate(a, NameCompareLength) == Truncate(b, NameCompareLength)
  }

  /** Table entry i exists and is named `name`. */
  predicate Matches(reg: Registry, i: nat, name: string)
  {
    i < |reg| && reg[i].Some? && SameName(reg[i].value.name, name)
  }

  /** The name search from entry `from` on: the first matching entry below 1000. */
  function FindByName(reg: Registry, name: string, from: nat): (r: Option<nat>)
    requires from <= NameSearchLimit
    ensures r.Some? ==> from <= r.value < NameSearchLimit && Matches(reg, r.value, name)
    ensures r.Some? ==> forall i :: from <= i < r.value ==> !Matches(reg, i, name)
    ensures r.None? ==> forall i :: from <= i < NameSearchLimit ==> !Matches(reg, i, name)
    decreases NameSearchLimit - from
  {
    if from == NameSearchLimit then None
    else if Matches(reg, from, name) then Some(from)
    else FindByName(reg, name, from + 1)
  }

  /**
   The table number entry j resolves to: a non-empty name is looked up (no
   match gives MAXRNGS, the table length), otherwise the number given is kept.
   */
  function ResolvedNumber(p: InputParams, reg: Registry, j: nat): nat
    requires p.WellFormed() && j < |p.gnumbs|
  {
    if |p.gnames[j]| == 0 then p.gnumbs[j]
    else match FindByName(reg, p.gnames[j], 0)
      case Some(i) => i
      case None => |reg|
  }

  /** The requested numbers after resolution; entries past gvcount are untouched. */
  function Resolve(p: InputParams, reg: Registry): (g: seq<nat>)
    requires p.WellFormed()
    ensures |g| == |p.gnumbs|
  {
    seq(|p.gnumbs|, k requires 0 <= k < |p.gnumbs| =>
      if k < p.gvcount then ResolvedNumber(p, reg, k) else p.gnumbs[k])
  }

  /** A table number that can be used: in range, non-null, with a non-empty name. */
  predicate Usable(reg: Registry, g: nat)
  {
    g < |reg| && reg[g].Some? && |reg[g].value.name| > 0
  }

  /**
   When the request passes validation: something is requested, every entry
   resolves to a usable type, and when the first entry is the XOR
   supergenerator there is at least one more entry and no other entry is
   207. A 207 after a first entry that is not 207 is not rejected.
   */
  predicate ValidRequest(p: InputParams, reg: Registry)
    requires p.WellFormed()
  {
    && p.gvcount > 0
    && (forall j :: 0 <= j < p.gvcount ==> Usable(reg, ResolvedNumber(p, reg, j)))
    && (ResolvedNumber(p, reg, 0) == XorId ==>
          p.gvcount != 1 && forall j :: 1 <= j < p.gvcount ==> ResolvedNumber(p, reg, j) != XorId)
  }

  /** The validation loop of `select_rng`, which also writes the resolved numbers back. */
  method ResolveGenerators(p: InputParams, reg: Registry) returns (r: Result<seq<nat>, SelectError>)
    requires p.WellFormed()
    ensures r.Success? <==> ValidRequest(p, reg)
    ensures r.Success? ==> r.value == Resolve(p, reg)
  {
    if p.gvcount == 0 {
      return Failure(NothingRequested);
    }
    var gnumbs := p.gnumbs;
    var j := 0;
    while j < p.gvcount
      invariant j <= p.gvcount && |gnumbs| == |p.gnumbs|
      invariant forall k :: 0 <= k < j ==> gnumbs[k] == ResolvedNumber(p, reg, k)
      invariant forall k :: j <= k < |gnumbs| ==> gnumbs[k] == p.gnumbs[k]
      invariant forall k :: 0 <= k < j ==> Usable(reg, ResolvedNumber(p, reg, k))
      invariant j > 0 && ResolvedNumber(p, reg, 0) == XorId ==>
                  p.gvcount != 1 && forall k :: 1 <= k < j ==> ResolvedNumber(p, reg, k) != XorId
    {
      if |p.gnames[j]| > 0 {
        var found := FindByName(reg, p.gnames[j], 0);
        gnumbs := gnumbs[j := if found.Some? then found.value else |reg|];
      }
      assert gnumbs[j] == ResolvedNumber(p, reg, j);
      var gennum := gnumbs[j];
      if gennum >= |reg| || reg[gennum].None? || |reg[gennum].value.name| == 0 {
        return Failure(UnknownGenerator(j));
      }
      if gnumbs[0] == XorId {
        if p.gvcount == 1 {
          return Failure(NoXorOperands);
        }
        if j != 0 && gnumbs[j] == XorId {
          return Failure(SecondXor(j));
        }
      }
      j := j + 1;
    }
    assert gnumbs == Resolve(p, reg);
    r := Success(gnumbs);
  }

  // ---------------------------------------------------------------------
  // Operands and seeds

  /** Whether the first requested entry is the XOR supergenerator. */
  predicate IsComposite(gnumbs: seq<nat>)
  {
    |gnumbs| > 0 && gnumbs[0] == XorId
  }

  /** `gscount`: the XOR's operands are the other gvcount - 1 entries; otherwise one generator. */
  function OperandCount(gnumbs: seq<nat>, gvcount: nat): nat
  {
    if IsComposite(gnumbs) && gvcount > 0 then gvcount - 1 else 1
  }

  /** The request entry operand i comes from: the sentinel slot 0 is skipped for the XOR. */
  function OperandEntry(gnumbs: seq<nat>, i: nat): nat
  {
    if IsComposite(gnumbs) then i + 1 else i
  }

  /** Operand i names a usable table entry. */
  predicate OperandOk(gnumbs: seq<nat>, reg: Registry, i: nat)
  {
    OperandEntry(gnumbs, i) < |gnumbs| && Usable(reg, gnumbs[OperandEntry(gnumbs, i)])
  }

  /** The seed the missing seeds are derived from gives its k-th draw to the k-th missing seed. */
  function DerivedSeed(out: Outputs, seed: nat, k: nat): nat
  {
    Draw(out, Gen(Standard(SeedGeneratorId), seed, k))
  }

  /**
   Where the derived seeds begin. Slot 0 of the declared seeds is the user's
   seed itself and is shifted out, so declared seeds 1 .. declared - 1 fill
   slots 0 .. declared - 2 and derivation takes over at slot declared - 1.
   A lone declared seed stays in slot 0.
   */
  function DerivedStart(declared: nat): nat
  {
    if declared >= 2 then declared - 1 else declared
  }

  /**
   Seed i after the non-random branch as evidently intended, a reference
   beside the C's `SeedAsWritten`: the declared seeds move down one place
   (below index declared - 1), the seeds from `DerivedStart(declared)` up to
   gscount are derived, and everything else keeps its value.
   */
  function SeedAfter(seeds: seq<nat>, declared: nat, gscount: nat, out: Outputs, i: nat): nat
    requires 0 < |seeds| && declared <= |seeds| && i < |seeds|
  {
    if i + 1 < declared then seeds[i + 1]
    else if DerivedStart(declared) <= i < gscount then DerivedSeed(out, seeds[0], i - DerivedStart(declared))
    else seeds[i]
  }

  /**
   Seed i as the C loops of choose_rng.c compute it: derivation starts at
   slot `declared`, so slot declared - 1 is neither shifted nor derived.
   */
  function SeedAsWritten(seeds: seq<nat>, declared: nat, gscount: nat, out: Outputs, i: nat): nat
    requires 0 < |seeds| && declared <= |seeds| && i < |seeds|
  {
    if i + 1 < declared then seeds[i + 1]
    else if declared <= i < gscount then DerivedSeed(out, seeds[0], i - declared)
    else seeds[i]
  }

  /** Where an operand's seed comes from: a declared slot, or the k-th derived draw. */
  datatype SeedOrigin = Declared(slot: nat) | Derived(k: nat)

  /** The origin of seed i after the non-random branch. */
  function Origin(declared: nat, gscount: nat, i: nat): SeedOrigin
  {
    if i + 1 < declared then Declared(i + 1)
    else if DerivedStart(declared) <= i < gscount then Derived(i - DerivedStart(declared))
    else Declared(i)
  }

  /** The value an origin stands for. */
  function OriginValue(seeds: seq<nat>, out: Outputs, o: SeedOrigin): nat
  {
    match o
    case Declared(j) => if j < |seeds| then seeds[j] else 0
    case Derived(k) => if |seeds| > 0 then DerivedSeed(out, seeds[0], k) else 0
  }

  /**
   Every operand seed is the value of its origin, and distinct operands
   have distinct origins: no declared slot or derived draw is used twice.
   */
  lemma DistinctSeeds(seeds: seq<nat>, declared: nat, gscount: nat, out: Outputs, i: nat, j: nat)
    requires 0 < |seeds| && declared <= |seeds| && gscount <= |seeds|
    requires i < j < gscount
    ensures SeedAfter(seeds, declared, gscount, out, i) == OriginValue(seeds, out, Origin(declared, gscount, i))
    ensures Origin(declared, gscount, i) != Origin(declared, gscount, j)
  {
  }

  /**
   The seed loops of `select_rng`. A first seed of 0 asks for new random
   seeds for the gscount operands; any other first seed shifts the declared
   seeds and, when fewer were declared than there are operands, derives the
   seeds from slot `declared` on from generator 14 set with that first seed.
   This is the C code as written: slot declared - 1 keeps the seed also
   shifted into slot declared - 2 (see `RepeatedSeed`).
   */
  method AssignSeeds(seeds: seq<nat>, declared: nat, gscount: nat, randoms: seq<nat>, out: Outputs)
    returns (s: seq<nat>)
    requires 0 < |seeds| && declared <= |seeds| && gscount <= |seeds|
    requires seeds[0] == 0 ==> gscount <= |randoms|
    ensures |s| == |seeds|
    ensures seeds[0] == 0 ==>
              forall i :: 0 <= i < |s| ==> s[i] == if i < gscount then randoms[i] else seeds[i]
    ensures seeds[0] != 0 ==>
              forall i :: 0 <= i < |s| ==> s[i] == SeedAsWritten(seeds, declared, gscount, out, i)
  {
    var seed := seeds[0];
    s := seeds;
    var i := 0;
    if seed == 0 {
      while i < gscount
        invariant i <= gscount && |s| == |seeds|
        invariant forall k :: 0 <= k < |s| ==> s[k] == if k < i then randoms[k] else seeds[k]
      {
        s := s[i := randoms[i]];
        i := i + 1;
      }
    } else {
      while i + 1 < declared
        invariant i <= declared && (declared > 0 ==> i < declared) && |s| == |seeds|
        invariant forall k :: 0 <= k < i ==> s[k] == seeds[k + 1]
        invariant forall k :: i <= k < |s| ==> s[k] == seeds[k]
      {
        s := s[i := s[i + 1]];
        i := i + 1;
      }
      assert forall m :: 0 <= m < |s| ==> s[m] == SeedAsWritten(seeds, declared, declared, out, m);
      if declared < gscount {
        var k := declared;
        while k < gscount
          invariant declared <= k <= gscount && |s| == |seeds|
          invariant forall m :: 0 <= m < |s| ==> s[m] == SeedAsWritten(seeds, declared, k, out, m)
        {
          s := s[k := DerivedSeed(out, seed, k - declared)];
          k := k + 1;
        }
      }
    }
  }

  /**
   As the C loops are written, with a non-zero first seed and
   2 <= declared <= gscount, operand declared - 1 keeps its old seed, which
   is also the seed shifted into operand declared - 2: two operands get the
   same seed. With derivation starting one slot earlier they come from
   different origins.
   */
  lemma RepeatedSeed(seeds: seq<nat>, declared: nat, gscount: nat, out: Outputs)
    requires 0 < |seeds| && 2 <= declared <= |seeds| && declared <= gscount
    ensures SeedAsWritten(seeds, declared, gscount, out, declared - 1)
         == SeedAsWritten(seeds, declared, gscount, out, declared - 2)
    ensures SeedAfter(seeds, declared, gscount, out, declared - 1) == DerivedSeed(out, seeds[0], 0)
    ensures Origin(declared, gscount, declared - 1) != Origin(declared, gscount, declared - 2)
  {
  }

  /** With at most one declared seed the correction changes nothing. */
  lemma SingleSeedAgrees(seeds: seq<nat>, declared: nat, gscount: nat, out: Outputs, i: nat)
    requires 0 < |seeds| && declared <= 1 && i < |seeds|
    ensures SeedAfter(seeds, declared, gscount, out, i) == SeedAsWritten(seeds, declared, gscount, out, i)
  {
  }

  // ---------------------------------------------------------------------
  // File names

  /** Operand i is a file-backed generator. */
  predicate IsFileOperand(gnumbs: seq<nat>, reg: Registry, i: nat)
    requires OperandOk(gnumbs, reg, i)
  {
    IsFileInput(reg[gnumbs[OperandEntry(gnumbs, i)]].value.name)
  }

  /** Every one of the first n operands names a usable table entry. */
  predicate OperandsOk(gnumbs: seq<nat>, reg: Registry, n: nat)
  {
    forall i :: 0 <= i < n ==> OperandOk(gnumbs, reg, i)
  }

  /** The number of file-backed operands among operands 0 .. i - 1. */
  function FilesBefore(gnumbs: seq<nat>, reg: Registry, i: nat): nat
    requires OperandsOk(gnumbs, reg, i)
  {
    if i == 0 then 0
    else FilesBefore(gnumbs, reg, i - 1) + (if IsFileOperand(gnumbs, reg, i - 1) then 1 else 0)
  }

  /** Operands further along have at least as many file operands before them. */
  lemma {:induction false} FilesBeforeMono(gnumbs: seq<nat>, reg: Registry, i: nat, j: nat)
    requires i <= j && OperandsOk(gnumbs, reg, j)
    ensures FilesBefore(gnumbs, reg, i) <= FilesBefore(gnumbs, reg, j)
    decreases j
  {
    if i < j {
      FilesBeforeMono(gnumbs, reg, i, j - 1);
    }
  }

  /** The file-name slot operand i gets: its file's number, or GVECMAX when it reads no file. */
  function BoundFile(gnumbs: seq<nat>, reg: Registry, gscount: nat, gfilenum: seq<nat>, i: nat): nat
    requires OperandsOk(gnumbs, reg, gscount) && i < |gfilenum|
  {
    if i >= gscount then gfilenum[i]
    else if IsFileOperand(gnumbs, reg, i) then FilesBefore(gnumbs, reg, i)
    else |gfilenum|
  }

  /**
   The file-name loop of `select_rng`: file-backed operands take files
   0, 1, 2, ... in order; it fails when there are more of them than files.
   */
  method BindFiles(gnumbs: seq<nat>, reg: Registry, gscount: nat, fcount: nat, gfilenum: seq<nat>)
    returns (r: Result<seq<nat>, SelectError>)
    requires OperandsOk(gnumbs, reg, gscount) && gscount <= |gfilenum|
    ensures r.Success? <==> FilesBefore(gnumbs, reg, gscount) <= fcount
    ensures r.Success? ==> |r.value| == |gfilenum|
    ensures r.Success? ==>
              forall i :: 0 <= i < |gfilenum| ==> r.value[i] == BoundFile(gnumbs, reg, gscount, gfilenum, i)
  {
    var f := gfilenum;
    var cur := 0;
    var i := 0;
    while i < gscount
      invariant i <= gscount && |f| == |gfilenum|
      invariant cur == FilesBefore(gnumbs, reg, i) && cur <= fcount
      invariant forall k :: 0 <= k < |f| ==>
                  f[k] == if k < i then BoundFile(gnumbs, reg, gscount, gfilenum, k) else gfilenum[k]
    {
      f := f[i := |gfilenum|];
      if IsFileOperand(gnumbs, reg, i) {
        if cur >= fcount {
          FilesBeforeMono(gnumbs, reg, i + 1, gscount);
          return Failure(NoFileName(i));
        }
        f := f[i := cur];
        cur := cur + 1;
      }
      i := i + 1;
    }
    r := Success(f);
  }

  /** Distinct file operands read distinct files, in increasing order, all below fcount. */
  lemma {:induction false} FilesDistinct(gnumbs: seq<nat>, reg: Registry, gscount: nat, fcount: nat, i: nat, j: nat)
    requires OperandsOk(gnumbs, reg, gscount) && FilesBefore(gnumbs, reg, gscount) <= fcount
    requires i < j < gscount && IsFileOperand(gnumbs, reg, i) && IsFileOperand(gnumbs, reg, j)
    ensures FilesBefore(gnumbs, reg, i) < FilesBefore(gnumbs, reg, j) < fcount
  {
    assert OperandsOk(gnumbs, reg, j) && OperandsOk(gnumbs, reg, j + 1);
    assert FilesBefore(gnumbs, reg, i + 1) == FilesBefore(gnumbs, reg, i) + 1;
    assert FilesBefore(gnumbs, reg, j + 1) == FilesBefore(gnumbs, reg, j) + 1;
    FilesBeforeMono(gnumbs, reg, i + 1, j);
    FilesBeforeMono(gnumbs, reg, j + 1, gscount);
  }

  // ---------------------------------------------------------------------
  // Bit length of the generator's range

  /**
   The `rmax` loop: shift `random_max` right until it is 0, counting the
   shifts and growing a mask of ones. The count is the bit length of
   `random_max` and the mask covers it.
   */
  method RmaxBits(max: nat) returns (bits: nat, mask: nat)
    ensures max < Pow2(bits) && (bits == 0 || Pow2(bits - 1) <= max)
    ensures mask == Pow2(bits) - 1 && max <= mask
    ensures bits >= 1 <==> max >= 1
  {
    var rmax := max;
    bits, mask := 0, 0;
    while rmax > 0
      invariant rmax == max / Pow2(bits) && mask == Pow2(bits) - 1
      invariant bits > 0 ==> Pow2(bits - 1) <= max
      decreases rmax
    {
      DivModParts(max, Pow2(bits));
      MulLe(1, rmax, Pow2(bits));
      DivDiv(max, Pow2(bits), 2);
      rmax := rmax / 2;
      mask := mask * 2 + 1;
      bits := bits + 1;
    }
    DivModParts(max, Pow2(bits));
  }

  /** A generator whose `max` is UINT_MAX, such as the XOR supergenerator, has 32 bits. */
  lemma WordRange(bits: nat, mask: nat)
    requires UintMax < Pow2(bits) && (bits == 0 || Pow2(bits - 1) <= UintMax) && mask == Pow2(bits) - 1
    ensures bits == UintWidth && mask == UintMax
  {
    Pow2Word();
    if bits < UintWidth {
      Pow2Le(bits, UintWidth - 1);
    } else if bits > UintWidth {
      Pow2Le(UintWidth, bits - 1);
    }
  }

  // ---------------------------------------------------------------------
  // The whole selection

  /** The effects of a selection on the generator record, in order. */
  datatype Effect = FreeOld | ResetReadBuffer | AllocNew(kind: Kind) | SetSeed(seed: nat)

  /**
   The fields of `random_generator_t` selection touches: the parameters, the
   generator (null before the first selection), the bits left in its read
   buffer, and the range facts.
   */
  datatype RandomGenerator = RandomGenerator(
    params: InputParams,
    rng: Option<Gen>,
    readBufferBits: nat,
    randomMax: nat,
    rmaxBits: nat,
    rmaxMask: nat)

  /** A valid request makes every operand usable. */
  lemma ValidOperands(p: InputParams, reg: Registry)
    requires p.WellFormed() && ValidRequest(p, reg)
    ensures OperandsOk(Resolve(p, reg), reg, OperandCount(Resolve(p, reg), p.gvcount))
    ensures OperandCount(Resolve(p, reg), p.gvcount) < p.gvcount || !IsComposite(Resolve(p, reg))
  {
    var g := Resolve(p, reg);
    forall i | 0 <= i < OperandCount(g, p.gvcount)
      ensures OperandOk(g, reg, i)
    {
      assert g[OperandEntry(g, i)] == ResolvedNumber(p, reg, OperandEntry(g, i));
    }
  }

  /** When `select_rng` succeeds: a valid request with a file name for every file operand. */
  predicate Acceptable(p: InputParams, reg: Registry)
    requires p.WellFormed()
  {
    && ValidRequest(p, reg)
    && (ValidOperands(p, reg);
        FilesBefore(Resolve(p, reg), reg, OperandCount(Resolve(p, reg), p.gvcount)) <= p.fcount)
  }

  /** The parameter record after a successful selection. */
  predicate SelectedParams(p: InputParams, reg: Registry, randoms: seq<nat>, out: Outputs, q: InputParams)
    requires p.WellFormed() && Acceptable(p, reg) && p.gvcount <= |randoms|
  {
    var g := Resolve(p, reg);
    var n := OperandCount(g, p.gvcount);
    && q.gnames == p.gnames && q.gvcount == p.gvcount && q.fcount == p.fcount && q.isEtalon == p.isEtalon
    && q.gnumbs == g
    && q.gscount == n
    && |q.gseeds| == |p.gseeds|
    && (p.gseeds[0] == 0 ==>
          forall i :: 0 <= i < |q.gseeds| ==> q.gseeds[i] == if i < n then randoms[i] else p.gseeds[i])
    && (p.gseeds[0] != 0 ==>
          forall i :: 0 <= i < |q.gseeds| ==> q.gseeds[i] == SeedAsWritten(p.gseeds, p.gscount, n, out, i))
    && (ValidOperands(p, reg);
        |q.gfilenum| == |p.gfilenum| &&
        forall i :: 0 <= i < |q.gfilenum| ==> q.gfilenum[i] == BoundFile(g, reg, n, p.gfilenum, i))
  }

  /**
   `select_rng`. It fails exactly when the request is not acceptable; then
   no generator is freed and no buffer reset. `seed` is what the call leaves
   in the global `Seed`: once the generator names resolve, `Seed` is set to
   the first requested seed, and this stays so even when binding the file
   names fails afterwards. On success the old generator (if any) is freed
   and the read buffer emptied before the new generator is allocated from
   entry 0 and set with the first seed, and the range of the new generator
   is measured.
   */
  method SelectRng(cur: RandomGenerator, reg: Registry, randoms: seq<nat>, out: Outputs)
    returns (r: Result<RandomGenerator, SelectError>, effects: seq<Effect>, seed: Option<nat>)
    requires cur.params.WellFormed() && cur.params.gvcount <= |randoms|
    ensures r.Success? <==> Acceptable(cur.params, reg)
    ensures seed == if ValidRequest(cur.params, reg) then Some(cur.params.gseeds[0]) else None
    ensures r.Failure? ==> effects == []
    ensures r.Success? ==> SelectedParams(cur.params, reg, randoms, out, r.value.params)
    ensures r.Success? ==> r.value.params.WellFormed() && CanAlloc(r.value.params, reg, 0)
    ensures r.Success? ==>
              && r.value.rng == Some(Gen(WrapAlloc(r.value.params, reg, 0), r.value.params.gseeds[0], 0))
              && effects == (if cur.rng.Some? then [FreeOld] else [])
                            + [ResetReadBuffer, AllocNew(r.value.rng.value.kind), SetSeed(r.value.params.gseeds[0])]
    ensures r.Success? ==> r.value.readBufferBits == 0
    ensures r.Success? ==>
              && r.value.randomMax == reg[r.value.params.gnumbs[0]].value.max
              && r.value.randomMax < Pow2(r.value.rmaxBits)
              && (r.value.rmaxBits == 0 || Pow2(r.value.rmaxBits - 1) <= r.value.randomMax)
              && r.value.rmaxMask == Pow2(r.value.rmaxBits) - 1
              && (r.value.rmaxBits >= 1 <==> r.value.randomMax >= 1)
    ensures r.Success? && IsComposite(r.value.params.gnumbs) && reg[XorId] == Some(XorType) ==>
              r.value.rmaxBits == UintWidth && r.value.rmaxMask == UintMax
  {
    var p := cur.params;
    effects := [];
    var resolved := ResolveGenerators(p, reg);
    if resolved.Failure? {
      return Failure(resolved.error), [], None;
    }
    seed := Some(p.gseeds[0]);
    var g := resolved.value;
    var n := OperandCount(g, p.gvcount);
    ValidOperands(p, reg);
    var seeds := AssignSeeds(p.gseeds, p.gscount, n, randoms, out);
    var files := BindFiles(g, reg, n, p.fcount, p.gfilenum);
    if files.Failure? {
      return Failure(files.error), [], seed;
    }
    var q := p.(gnumbs := g, gseeds := seeds, gscount := n, gfilenum := files.value);
    assert SelectedParams(p, reg, randoms, out, q);
    if cur.rng.Some? {
      effects := effects + [FreeOld];
    }
    effects := effects + [ResetReadBuffer];
    var kind := WrapAlloc(q, reg, 0);
    effects := effects + [AllocNew(kind), SetSeed(seeds[0])];
    var max := reg[g[0]].value.max;
    var bits, mask := RmaxBits(max);
    if IsComposite(g) && reg[XorId] == Some(XorType) {
      WordRange(bits, mask);
    }
    r := Success(RandomGenerator(q, Some(Gen(kind, seeds[0], 0)), 0, max, bits, mask));
  }

  /**
   After selecting the supergenerator, its allocation finds every operand
   allocatable: operand i comes from request entry i + 1, is never the
   supergenerator itself, and a file-backed operand reads the file whose
   number is the count of file operands before it.
   */
  lemma XorOperands(p: InputParams, reg: Registry, randoms: seq<nat>, out: Outputs, q: InputParams, i: nat)
    requires p.WellFormed() && Acceptable(p, reg) && p.gvcount <= |randoms|
    requires SelectedParams(p, reg, randoms, out, q) && IsComposite(q.gnumbs)
    requires OperandsOk(q.gnumbs, reg, q.gscount) && i < Operands(q)
    ensures q.gscount == Operands(q)
    ensures CanAlloc(q, reg, i + 1)
    ensures WrapAlloc(q, reg, i + 1)
         == if IsFileOperand(q.gnumbs, reg, i) then FileInput(q.gnumbs[i + 1], FilesBefore(q.gnumbs, reg, i))
            else Standard(q.gnumbs[i + 1])
  {
    ValidOperands(p, reg);
    assert q.gnumbs[i + 1] == ResolvedNumber(p, reg, i + 1);
    assert q.gfilenum[i] == BoundFile(q.gnumbs, reg, q.gscount, p.gfilenum, i);
    OperandAlloc(q, reg, i);
  }

  /** Allocating a usable entry other than 207 for operand i. */
  lemma OperandAlloc(q: InputParams, reg: Registry, i: nat)
    requires i + 1 < |q.gnumbs| && i < |q.gfilenum| && Usable(reg, q.gnumbs[i + 1]) && q.gnumbs[i + 1] != XorId
    ensures CanAlloc(q, reg, i + 1)
    ensures WrapAlloc(q, reg, i + 1)
         == if IsFileInput(reg[q.gnumbs[i + 1]].value.name) then FileInput(q.gnumbs[i + 1], q.gfilenum[i])
            else Standard(q.gnumbs[i + 1])
  {
  }
}
