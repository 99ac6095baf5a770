/** The glue around distributed skeleton tracing in
    pilib/thinandskeletoncommands.h: how block tasks pop their arguments, how
    the variants without an original image splice a null image into the
    argument list, which block command the distributed trace dispatches, the
    per-block file names `<template>_<index>.dat`, and the merge stage reading
    those files back in block order. Tracing, graph I/O and graph merging
    (`traceLineSkeletonBlocks`, `Network::read`/`write`, `combineTracedBlocks`)
    are not part of this model; graphs are an opaque type parameter. */
module SkeletonTracing {
  import opened Outcomes
  import opened Decimal
  import opened Distributable

  // ---------------------------------------------------------------------
  // Argument lists

  /** Why popping an argument fails: the list is too short, the variant holds
      another type, or a null image is dereferenced. */
  datatype ArgError = MissingArgument(position: nat) | WrongArgumentType(position: nat) | NullImageReference(position: nat)

  /** `args.insert(args.begin() + pos, p)`. */
  function InsertAt(args: seq<Param>, pos: nat, p: Param): (r: seq<Param>)
    requires pos <= |args|
    ensures |r| == |args| + 1
    ensures r[pos] == p
    ensures r[..pos] + r[pos + 1..] == args
    ensures forall i :: 0 <= i < pos ==> r[i] == args[i]
    ensures forall i :: pos <= i < |args| ==> r[i + 1] == args[i]
  {
    args[..pos] + [p] + args[pos..]
  }

  /** `pop<Image*>`: an image pointer, possibly null. */
  function ImageAt(args: seq<Param>, i: nat): Result<Option<nat>, ArgError>
  {
    if i >= |args| then Err(MissingArgument(i))
    else match args[i]
      case ImageArg(id) => Ok(Some(id))
      case NullImage => Ok(None)
      case _ => Err(WrongArgumentType(i))
  }

  /** `*pop<Image*>`: an image that must not be null. */
  function ImageRefAt(args: seq<Param>, i: nat): Result<nat, ArgError>
  {
    var p :- ImageAt(args, i);
    if p.None? then Err(NullImageReference(i)) else Ok(p.value)
  }

  function StringAt(args: seq<Param>, i: nat): Result<string, ArgError>
  {
    if i >= |args| then Err(MissingArgument(i))
    else if args[i].StringArg? then Ok(args[i].s)
    else Err(WrongArgumentType(i))
  }

  function IndexAt(args: seq<Param>, i: nat): Result<nat, ArgError>
  {
    if i >= |args| then Err(MissingArgument(i))
    else if args[i].IndexArg? then Ok(args[i].index)
    else Err(WrongArgumentType(i))
  }

  function OriginAt(args: seq<Param>, i: nat): Result<Vec3, ArgError>
  {
    if i >= |args| then Err(MissingArgument(i))
    else if args[i].OriginArg? then Ok(args[i].origin)
    else Err(WrongArgumentType(i))
  }

  // ---------------------------------------------------------------------
  // Per-block file names

  /** The file block `index` writes its graphs to, and the merge reads back:
      `template + "_" + toString(index) + ".dat"`. */
  function BlockFileName(template: string, index: nat): string
  {
    template + "_" + DecimalString(index) + ".dat"
  }

  /** Two blocks never share a file. */
  lemma BlockFileNameInjective(template: string, i: nat, j: nat)
    requires BlockFileName(template, i) == BlockFileName(template, j)
    ensures i == j
  {
    var a := BlockFileName(template, i);
    var b := BlockFileName(template, j);
    var k := |template| + 1;
    assert a[k..|a| - 4] == DecimalString(i);
    assert b[k..|b| - 4] == DecimalString(j);
    DecimalInjective(i, j);
  }

  lemma BlockFileNamesDistinct(template: string)
    ensures forall i: nat, j: nat :: BlockFileName(template, i) == BlockFileName(template, j) ==> i == j
  {
    forall i: nat, j: nat | BlockFileName(template, i) == BlockFileName(template, j)
      ensures i == j
    {
      BlockFileNameInjective(template, i, j);
    }
  }

  // ---------------------------------------------------------------------
  // Block commands

  /** What one block trace works on: the skeleton image, the optional
      original image, the output file (already suffixed with the block index),
      and the block's index and origin. */
  datatype BlockJob = BlockJob(skeleton: nat, original: Option<nat>, file: string, index: nat, origin: Vec3)

  /** Argument shape of `TraceLineSkeletonBlockCommand`:
      (skeleton, original, filename, block index, block origin). */
  predicate BlockArgsWellFormed(args: seq<Param>)
  {
    && |args| >= 5
    && args[0].ImageArg?
    && (args[1].ImageArg? || args[1].NullImage?)
    && args[2].StringArg?
    && args[3].IndexArg?
    && args[4].OriginArg?
  }

  /** `TraceLineSkeletonBlockCommand::run`: pops its five arguments in order
      and appends `_<index>.dat` to the file name template. */
  function TraceBlockArgs(args: seq<Param>): (r: Result<BlockJob, ArgError>)
    ensures r.Ok? <==> BlockArgsWellFormed(args)
    ensures r.Ok? ==>
      && args[0] == ImageArg(r.value.skeleton)
      && (r.value.original.None? <==> args[1] == NullImage)
      && (r.value.original.Some? ==> args[1] == ImageArg(r.value.original.value))
      && r.value.index == args[3].index
      && r.value.origin == args[4].origin
      && r.value.file == BlockFileName(args[2].s, args[3].index)
  {
    var skeleton :- ImageRefAt(args, 0);
    var original :- ImageAt(args, 1);
    var template :- StringAt(args, 2);
    var index :- IndexAt(args, 3);
    var origin :- OriginAt(args, 4);
    Ok(BlockJob(skeleton, original, BlockFileName(template, index), index, origin))
  }

  /** `TraceLineSkeletonBlock2Command::run`: inserts a null original image at
      position 1 and runs the block command with an original image. An empty
      list has no position 1 and is reported as a missing argument. */
  function TraceBlock2Args(args: seq<Param>): Result<BlockJob, ArgError>
  {
    if |args| == 0 then Err(MissingArgument(0))
    else TraceBlockArgs(InsertAt(args, 1, NullImage))
  }

  /** The variant without an original traces the same block as the command
      with an original given a null original, and never uses an original. */
  lemma Block2IsBlockWithNullOriginal(skeleton: nat, template: string, index: nat, origin: Vec3, rest: seq<Param>)
    ensures var args := [ImageArg(skeleton), StringArg(template), IndexArg(index), OriginArg(origin)] + rest;
      TraceBlock2Args(args)
      == TraceBlockArgs([ImageArg(skeleton), NullImage, StringArg(template), IndexArg(index), OriginArg(origin)] + rest)
      == Ok(BlockJob(skeleton, None, BlockFileName(template, index), index, origin))
  {
    var args := [ImageArg(skeleton), StringArg(template), IndexArg(index), OriginArg(origin)] + rest;
    assert InsertAt(args, 1, NullImage)
      == [ImageArg(skeleton), NullImage, StringArg(template), IndexArg(index), OriginArg(origin)] + rest;
  }

  // ---------------------------------------------------------------------
  // Whole-image trace commands

  /** The images a trace command works on. */
  datatype TraceTargets = TraceTargets(skeleton: nat, original: Option<nat>, vertices: nat, edges: nat, measurements: nat)

  /** `TraceLineSkeletonCommand::run` and `::runDistributed` pop (skeleton,
      original, vertices, edges, measurements); only the original may be null. */
  function TraceArgs(args: seq<Param>): (r: Result<TraceTargets, ArgError>)
    ensures r.Ok? <==> (
      && |args| >= 5
      && args[0].ImageArg?
      && (args[1].ImageArg? || args[1].NullImage?)
      && args[2].ImageArg? && args[3].ImageArg? && args[4].ImageArg?)
    ensures r.Ok? ==> r.value == TraceTargets(args[0].id, if args[1].NullImage? then None else Some(args[1].id),
                                              args[2].id, args[3].id, args[4].id)
    ensures r.Ok? ==> (r.value.original.None? <==> args[1] == NullImage)
  {
    var skeleton :- ImageRefAt(args, 0);
    var original :- ImageAt(args, 1);
    var vertices :- ImageRefAt(args, 2);
    var edges :- ImageRefAt(args, 3);
    var measurements :- ImageRefAt(args, 4);
    Ok(TraceTargets(skeleton, original, vertices, edges, measurements))
  }

  /** `TraceLineSkeleton2Command::run` and `::runDistributed`: insert a null
      original at position 1 and defer to the command with an original. */
  function Trace2Args(args: seq<Param>): Result<TraceTargets, ArgError>
  {
    if |args| == 0 then Err(MissingArgument(0))
    else TraceArgs(InsertAt(args, 1, NullImage))
  }

  /** The variant without an original succeeds exactly when its first four
      arguments are images (skeleton, vertices, edges, measurements); later
      arguments are ignored, and it never sees an original. */
  lemma Trace2NeverHasOriginal(args: seq<Param>)
    ensures Trace2Args(args).Ok? <==> (
      |args| >= 4 && args[0].ImageArg? && args[1].ImageArg? && args[2].ImageArg? && args[3].ImageArg?)
    ensures Trace2Args(args).Ok? ==>
      Trace2Args(args).value == TraceTargets(args[0].id, None, args[1].id, args[2].id, args[3].id)
  {
    if |args| > 0 {
      var ins := InsertAt(args, 1, NullImage);
      assert |args| >= 4 ==> ins[2] == args[1] && ins[3] == args[2] && ins[4] == args[3];
      assert |ins| >= 5 ==> |args| >= 4;
    }
  }

  /** The block commands the distributed trace can dispatch. */
  datatype BlockTask = TraceBlock | TraceBlock2

  /** One `distributor.distribute(this, args, subdivision, margin)` call of a block command. */
  datatype TraceCall = TraceCall(task: BlockTask, args: seq<Param>, subdivision: nat, margin: Vec3)

  /** Subdivision argument and margin of both block commands' `runDistributed`. */
  const TraceSubdivision: nat := 2
  const TraceMargin: Vec3 := Vec3(0, 0, 0)

  /** What a distributed block command does on one block: pop its arguments,
      as `run` of that command does. */
  function RunBlockTask(task: BlockTask, args: seq<Param>): Result<BlockJob, ArgError>
  {
    match task
    case TraceBlock => TraceBlockArgs(args)
    case TraceBlock2 => TraceBlock2Args(args)
  }

  /** The distributor's filling of the block-index and block-origin
      placeholders for block `index` at `origin`. */
  function AtBlock(args: seq<Param>, index: nat, origin: Vec3): (r: seq<Param>)
    ensures |r| == |args|
  {
    seq(|args|, i requires 0 <= i < |args| =>
      match args[i]
      case IndexArg(_) => IndexArg(index)
      case OriginArg(_) => OriginArg(origin)
      case other => other)
  }

  /** The block command `TraceLineSkeletonCommand::runDistributed` distributes,
      with `tempFilename` as the file name template: the command with an
      original when the original pointer is non-null, the variant without one
      otherwise, both with placeholder index 0 and origin (0, 0, 0). */
  function TraceDistributedPlan(args: seq<Param>, tempFilename: string): (r: Result<TraceCall, ArgError>)
    ensures r.Ok? <==> TraceArgs(args).Ok?
    ensures r.Ok? ==> (r.value.task == TraceBlock <==> TraceArgs(args).value.original.Some?)
    ensures r.Ok? ==> r.value.subdivision == 2 && r.value.margin == Vec3(0, 0, 0)
  {
    var t :- TraceArgs(args);
    var placeholders := [StringArg(tempFilename), IndexArg(0), OriginArg(Vec3(0, 0, 0))];
    if t.original.Some? then
      Ok(TraceCall(TraceBlock, [ImageArg(t.skeleton), ImageArg(t.original.value)] + placeholders, TraceSubdivision, TraceMargin))
    else
      Ok(TraceCall(TraceBlock2, [ImageArg(t.skeleton)] + placeholders, TraceSubdivision, TraceMargin))
  }

  /** Whichever block command is chosen, block `index` at `origin` traces
      the skeleton with the original the caller gave (or none) and writes to
      the block file the merge stage reads for that index. */
  lemma PlannedBlockTracesCallerImages(args: seq<Param>, tempFilename: string, index: nat, origin: Vec3)
    requires TraceArgs(args).Ok?
    ensures var t := TraceArgs(args).value;
      var call := TraceDistributedPlan(args, tempFilename).value;
      RunBlockTask(call.task, AtBlock(call.args, index, origin))
        == Ok(BlockJob(t.skeleton, t.original, BlockFileName(tempFilename, index), index, origin))
  {
    var t := TraceArgs(args).value;
    var call := TraceDistributedPlan(args, tempFilename).value;
    var filled := AtBlock(call.args, index, origin);
    if t.original.Some? {
      assert filled == [ImageArg(t.skeleton), ImageArg(t.original.value), StringArg(tempFilename), IndexArg(index), OriginArg(origin)];
    } else {
      assert filled == [ImageArg(t.skeleton), StringArg(tempFilename), IndexArg(index), OriginArg(origin)];
      Block2IsBlockWithNullOriginal(t.skeleton, tempFilename, index, origin, []);
    }
  }

  /** `TraceLineSkeleton2Command::runDistributed` always dispatches the block
      command without an original. */
  lemma Trace2DistributesWithoutOriginal(args: seq<Param>, tempFilename: string)
    requires |args| > 0
    ensures var r := TraceDistributedPlan(InsertAt(args, 1, NullImage), tempFilename);
      r.Ok? ==> r.value.task == TraceBlock2
  {
  }

  // ---------------------------------------------------------------------
  // Merge stage

  /** Concatenation of per-file graph lists, first file first. */
  function Flatten<N>(lists: seq<seq<N>>): seq<N>
  {
    if |lists| == 0 then [] else Flatten(lists[..|lists| - 1]) + lists[|lists| - 1]
  }

  /** The read-back loop of the distributed trace: for n = 0 .. blockCount - 1
      read the graphs of `BlockFileName(template, n)` (with the reader
      `readNetworks`, standing for `Network::read`) and append them. */
  method LoadBlockNetworks<N>(template: string, blockCount: nat, readNetworks: string -> seq<N>)
    returns (nets: seq<N>, readNames: seq<string>)
    ensures |readNames| == blockCount
    ensures forall n :: 0 <= n < blockCount ==> readNames[n] == BlockFileName(template, n)
    ensures nets == Flatten(seq(blockCount, n requires 0 <= n < blockCount => readNetworks(BlockFileName(template, n))))
  {
    ghost var contents := seq(blockCount, n requires 0 <= n < blockCount => readNetworks(BlockFileName(template, n)));
    nets := [];
    readNames := [];
    var n := 0;
    while n < blockCount
      invariant 0 <= n <= blockCount
      invariant |readNames| == n
      invariant forall k :: 0 <= k < n ==> readNames[k] == BlockFileName(template, k)
      invariant nets == Flatten(contents[..n])
    {
      var fname := BlockFileName(template, n);
      var subnets := readNetworks(fname);
      assert contents[..n + 1][..n] == contents[..n];
      nets := nets + subnets;
      readNames := readNames + [fname];
      n := n + 1;
    }
    assert contents[..blockCount] == contents;
  }

  function FileContents<N>(files: map<string, seq<N>>, name: string): seq<N>
  {
    if name in files then files[name] else []
  }

  /** The files after the blocks have written. `before` is what the file
      system held when the blocks started: the temporary name is random and
      only the bare template is removed beforehand, so a block file of an
      earlier run may still be there. Block i appends its graphs to
      `BlockFileName(template, i)`, as `net.write(filename, true)` does;
      every other file is unchanged. */
  function BlockFiles<N>(template: string, before: map<string, seq<N>>, blockNets: seq<seq<N>>): map<string, seq<N>>
  {
    BlockFileNamesDistinct(template);
    before + map i | 0 <= i < |blockNets| ::
      BlockFileName(template, i) := FileContents(before, BlockFileName(template, i)) + blockNets[i]
  }

  /** What the merge reads from block file n: its earlier contents, if any,
      then block n's graphs. */
  function ReadBack<N>(template: string, before: map<string, seq<N>>, blockNets: seq<seq<N>>): seq<seq<N>>
  {
    seq(|blockNets|, n requires 0 <= n < |blockNets| =>
      FileContents(before, BlockFileName(template, n)) + blockNets[n])
  }

  /** The names of the files of blocks 0 .. blockCount - 1. */
  function BlockFileNames(template: string, blockCount: nat): set<string>
  {
    set n | 0 <= n < blockCount :: BlockFileName(template, n)
  }

  /** No block file of this template exists before the blocks write. */
  predicate NoLeftoverBlockFiles<N>(template: string, before: map<string, seq<N>>, blockCount: nat)
  {
    before.Keys !! BlockFileNames(template, blockCount)
  }

  /** Reading back the block files by index gives, for each block, what its
      file held before followed by that block's own graphs; with no leftover
      files that is exactly each block's graphs, so no block's output is lost
      or read twice. */
  lemma {:induction false} BlockFilesReadBackInOrder<N>(template: string, before: map<string, seq<N>>, blockNets: seq<seq<N>>)
    ensures seq(|blockNets|, n requires 0 <= n < |blockNets| =>
                FileContents(BlockFiles(template, before, blockNets), BlockFileName(template, n)))
            == ReadBack(template, before, blockNets)
    ensures NoLeftoverBlockFiles(template, before, |blockNets|) ==> ReadBack(template, before, blockNets) == blockNets
  {
    var files := BlockFiles(template, before, blockNets);
    forall n | 0 <= n < |blockNets|
      ensures FileContents(files, BlockFileName(template, n)) == FileContents(before, BlockFileName(template, n)) + blockNets[n]
    {
      assert BlockFileName(template, n) in files;
      BlockFileNamesDistinct(template);
    }
    if NoLeftoverBlockFiles(template, before, |blockNets|) {
      forall n | 0 <= n < |blockNets|
        ensures ReadBack(template, before, blockNets)[n] == blockNets[n]
      {
        assert BlockFileName(template, n) in BlockFileNames(template, |blockNets|);
        assert FileContents(before, BlockFileName(template, n)) == [];
      }
    }
  }

  /** The merge stage run against the files the blocks left behind: reading
      `BlockFileName(template, n)` for every block yields each block file's
      earlier contents followed by that block's graphs, block 0 first. */
  method MergeBlockFiles<N>(template: string, before: map<string, seq<N>>, blockNets: seq<seq<N>>) returns (nets: seq<N>)
    ensures nets == Flatten(ReadBack(template, before, blockNets))
  {
    var files := BlockFiles(template, before, blockNets);
    var readNames;
    nets, readNames := LoadBlockNetworks(template, |blockNets|, name => FileContents(files, name));
    BlockFilesReadBackInOrder(template, before, blockNets);
    assert seq(|blockNets|, n requires 0 <= n < |blockNets| => (name => FileContents(files, name))(BlockFileName(template, n)))
        == ReadBack(template, before, blockNets);
  }

  /** With no leftover block files, the merge yields exactly all blocks'
      graphs, block 0 first. */
  lemma {:induction false} MergeWithoutLeftoversIsAllBlocks<N>(template: string, before: map<string, seq<N>>, blockNets: seq<seq<N>>)
    requires NoLeftoverBlockFiles(template, before, |blockNets|)
    ensures Flatten(ReadBack(template, before, blockNets)) == Flatten(blockNets)
  {
    BlockFilesReadBackInOrder(template, before, blockNets);
  }

  /** A block file left over from an earlier run is merged too: with `[9]`
      already in block 0's file, blocks `[1]` and `[2]` merge to `[9, 1, 2]`. */
  lemma LeftoverBlockFileIsMerged()
    ensures Flatten(ReadBack("t", map[BlockFileName("t", 0) := [9]], [[1], [2]])) == [9, 1, 2]
    ensures !NoLeftoverBlockFiles("t", map[BlockFileName("t", 0) := [9]], 2)
  {
    assert BlockFileName("t", 0) in BlockFileNames("t", 2);
    var before := map[BlockFileName("t", 0) := [9]];
    BlockFileNamesDistinct("t");
    assert BlockFileName("t", 1) != BlockFileName("t", 0);
    var read := ReadBack("t", before, [[1], [2]]);
    assert read[0] == [9] + [1];
    assert BlockFileName("t", 1) !in before;
    assert read[1] == [] + [2];
    assert [9] + [1] == [9, 1] && [] + [2] == [2];
    assert |read| == 2;
    assert read == [[9, 1], [2]];
    assert Flatten([[9, 1], [2]]) == Flatten([[9, 1]]) + [2];
  }

  // ---------------------------------------------------------------------
  // cleanskeleton

  /** The network operations `CleanSkeletonCommand::run` performs. */
  datatype NetworkStep = FromImage | DisconnectStraightThroughNodes(flag: bool) | RemoveIsolatedNodes(flag: bool) | ToImage

  function StepIndex(steps: seq<NetworkStep>, s: NetworkStep): (i: nat)
    ensures i <= |steps|
    ensures i < |steps| ==> steps[i] == s
    ensures forall k :: 0 <= k < i ==> steps[k] != s
  {
    if |steps| == 0 then 0
    else if steps[0] == s then 0
    else 1 + StepIndex(steps[1..], s)
  }

  /** The order of `cleanskeleton`: load the network, dissolve straight-through
      nodes, then drop isolated nodes, then store it. */
  function CleanSkeletonSteps(): (steps: seq<NetworkStep>)
    ensures |steps| == 4 && steps[0] == FromImage && steps[3] == ToImage
    ensures StepIndex(steps, DisconnectStraightThroughNodes(true)) < StepIndex(steps, RemoveIsolatedNodes(true)) < |steps|
  {
    [FromImage, DisconnectStraightThroughNodes(true), RemoveIsolatedNodes(true), ToImage]
  }
}
