/** The default contract every distributable command inherits
    (pilib/distributable.h): no extra memory, identity block correspondence,
    the `Normal` job type, and an initializer-list overload that forwards its
    arguments to the command's own `runDistributed`.
    Also holds the vocabulary shared by the command models: 3-vectors and the
    argument variants commands pop from their argument lists. */
module Distributable {

  /** A `Vec3c`: integer 3-vector used for block positions, sizes and margins. */
  datatype Vec3 = Vec3(x: int, y: int, z: int)

  /** One element of a command's argument list (`ParamVariant`), reduced to the
      alternatives the modelled commands use. Images are named by an identity;
      `NullImage` is a null image pointer. */
  datatype Param =
    | ImageArg(id: nat)
    | NullImage
    | StringArg(s: string)
    | IndexArg(index: nat)
    | OriginArg(origin: Vec3)

  /** Execution-time rating of a task; only `Normal` appears in the modelled code. */
  datatype JobType = Fast | Normal | Slow

  /** The block geometry the distributor hands to `getCorrespondingBlock`:
      what is read for an input, and where valid output is written. */
  datatype BlockGeometry = BlockGeometry(
    readStart: Vec3, readSize: Vec3,
    writeFilePos: Vec3, writeImPos: Vec3, writeSize: Vec3)

  /** Default extra-memory factor of a task. */
  function DefaultExtraMemory(args: seq<Param>): real
  {
    0.0
  }

  /** Bytes of one block of every argument image: block size times pixel size. */
  function RawBlockBytes(blocks: seq<(nat, nat)>): nat
  {
    if |blocks| == 0 then 0
    else RawBlockBytes(blocks[..|blocks| - 1]) + blocks[|blocks| - 1].0 * blocks[|blocks| - 1].1
  }

  /** Memory needed per node or process for the documented formula
      sum((block size) * (pixel size)) * (1 + extraMemFactor). */
  function NodeMemory(blocks: seq<(nat, nat)>, extraMemFactor: real): real
  {
    RawBlockBytes(blocks) as real * (1.0 + extraMemFactor)
  }

  /** With the default factor a node needs exactly the raw block bytes. */
  lemma DefaultNodeMemoryIsRawBytes(args: seq<Param>, blocks: seq<(nat, nat)>)
    ensures NodeMemory(blocks, DefaultExtraMemory(args)) == RawBlockBytes(blocks) as real
  {
  }

  /** Default block correspondence: the method body is empty, so every
      geometry parameter keeps the value the distributor passed in. */
  function DefaultCorrespondingBlock(args: seq<Param>, argIndex: nat, g: BlockGeometry): BlockGeometry
  {
    g
  }

  /** The geometry the distributor ends up with for each of `argCount`
      argument images when the task keeps the default correspondence. */
  function ArgumentGeometries(args: seq<Param>, argCount: nat, reference: BlockGeometry): seq<BlockGeometry>
  {
    seq(argCount, i requires 0 <= i < argCount => DefaultCorrespondingBlock(args, i, reference))
  }

  /** Every argument image is divided exactly like the reference image. */
  lemma DefaultDividesArgumentsLikeReference(args: seq<Param>, argCount: nat, reference: BlockGeometry)
    ensures |ArgumentGeometries(args, argCount, reference)| == argCount
    ensures forall i :: 0 <= i < argCount ==>
      ArgumentGeometries(args, argCount, reference)[i].readStart == reference.readStart
      && ArgumentGeometries(args, argCount, reference)[i].readSize == reference.readSize
      && ArgumentGeometries(args, argCount, reference)[i].writeFilePos == reference.writeFilePos
      && ArgumentGeometries(args, argCount, reference)[i].writeImPos == reference.writeImPos
      && ArgumentGeometries(args, argCount, reference)[i].writeSize == reference.writeSize
  {
  }

  /** Default execution-time rating. */
  function DefaultJobType(): JobType
  {
    Normal
  }

  /** What a task that overrides nothing gets: no extra memory, every
      geometry parameter left as the distributor passed it, and the `Normal`
      rating rather than a faster or slower one. */
  lemma DefaultContract(args: seq<Param>, argIndex: nat, g: BlockGeometry)
    ensures DefaultExtraMemory(args) == 0.0
    ensures DefaultCorrespondingBlock(args, argIndex, g) == g
    ensures DefaultJobType() == Normal && DefaultJobType() != Fast && DefaultJobType() != Slow
  {
  }

  /** The initializer-list overload of `runDistributed`: copies the listed
      arguments into a fresh vector and calls the command's own
      `runDistributed` (passed in as `runDistributed`) on it. */
  method RunDistributedList<P, R>(runDistributed: seq<P> -> R, args: seq<P>)
    returns (forwarded: seq<P>, output: R)
    ensures |forwarded| == |args|
    ensures forall i :: 0 <= i < |args| ==> forwarded[i] == args[i]
    ensures output == runDistributed(args)
  {
    forwarded := [];
    var i := 0;
    while i < |args|
      invariant 0 <= i <= |args|
      invariant forwarded == args[..i]
    {
      forwarded := forwarded + [args[i]];
      i := i + 1;
    }
    assert forwarded == args;
    output := runDistributed(forwarded);
  }
}
