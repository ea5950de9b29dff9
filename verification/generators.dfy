/**
 The generator vocabulary shared by the XOR supergenerator (rng_XOR.c) and
 generator selection (choose_rng.c): the table of generator types, the
 parameter record `input_params_t`, and generators as abstract draw streams.
 */
module Generators {
  import opened Results

  /** The table index of the XOR supergenerator. */
  const XorId: nat := 207

  /** The table index of the generator that derives missing seeds. */
  const SeedGeneratorId: nat := 14

  /** The name prefix that marks a file-backed generator type. */
  const FileInputPrefix: string := "file_input"

  /** An entry of the generator type table `dh_rng_types`: its name and its `max`. */
  datatype RngType = RngType(name: string, max: nat)

  /** The type table; a None entry is a null pointer. Its length is MAXRNGS. */
  type Registry = seq<Option<RngType>>

  /** `strncmp("file_input", name, 10) == 0`: the name starts with "file_input". */
  predicate IsFileInput(name: string)
  {
    |FileInputPrefix| <= |name| && name[..|FileInputPrefix|] == FileInputPrefix
  }

  /** What a generator instance was allocated as. */
  datatype Kind =
    | Composite                               // the XOR supergenerator
    | FileInput(id: nat, fileIndex: nat)      // reads filenames[fileIndex]
    | Standard(id: nat)                       // any other table entry

  /**
   A generator instance, seen as a draw stream: what it is, the seed it was
   last set with, and how many draws it has given since.
   */
  datatype Gen = Gen(kind: Kind, seed: nat, drawn: nat)

  /** What a kind of generator, set with a seed, gives at each draw; it is not modelled. */
  type Outputs = (Kind, nat, nat) -> nat

  /** The next draw of g. */
  function Draw(out: Outputs, g: Gen): nat
  {
    out(g.kind, g.seed, g.drawn)
  }

  /** g after one draw. */
  function Advance(g: Gen): (g': Gen)
    ensures g'.kind == g.kind && g'.seed == g.seed && g'.drawn == g.drawn + 1
  {
    g.(drawn := g.drawn + 1)
  }

  /**
   The selection fields of `input_params_t`. The arrays gnames, gnumbs,
   gseeds and gfilenum have GVECMAX entries; gvcount entries are requested,
   gscount seeds declared and fcount file names given.
   */
  datatype InputParams = InputParams(
    gnames: seq<string>,
    gnumbs: seq<nat>,
    gvcount: nat,
    gseeds: seq<nat>,
    gscount: nat,
    gfilenum: seq<nat>,
    fcount: nat,
    isEtalon: bool)
  {
    /** GVECMAX, the length of the parameter arrays. */
    function VecMax(): nat
    {
      |gfilenum|
    }

    /** The arrays all have GVECMAX entries and at most that many are requested. */
    predicate WellFormed()
    {
      && |gnames| == |gnumbs| == |gseeds| == |gfilenum|
      && gvcount <= |gnumbs|
      && gscount <= |gseeds|
    }
  }
}
