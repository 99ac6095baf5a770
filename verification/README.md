# Distributed thinning, skeleton tracing and Zarr codec descriptors: a Dafny model

This project models four small pieces of the pi2 image-processing system and
proves properties of them.

- **Zarr codec descriptors** (`itl2/io/zarrcodecs.h`), in modules
  `ZarrCodecs` and `ZarrReadOrder`:
  - converting codec names to and from strings, with case-insensitive parsing;
  - the codec kind each name has;
  - validating the configuration of the `bytes` codec. This is the Zarr v3
    codec `codecs/bytes/v1.0`: its only key is `endian`, the value must be
    exactly `little` or `big`, and the default is `little`.
  - the `transpose` codec (`codecs/transpose/v1.0`), whose configuration is
    stored as given;
  - the JSON form of a codec and equality on it;
  - the order in which `readNoParse` stores the pixels of a raw chunk.
- **The distributed fixed-point driver and skeleton-tracing glue**
  (`pilib/thinandskeletoncommands.h`), in modules `ThinCommands` and
  `SkeletonTracing`:
  - `IterableDistributable::runDistributed` re-runs a thinning task over all
    blocks. It stops at the first round whose total of removed pixels equals
    the previous round's total, the previous total starting at 0.
  - the overlap constants of the thinning tasks and their report line;
  - the per-block file names `<template>_<index>.dat` and the merge stage
    that reads them back in block order;
  - the `*2` command variants that splice a null "original" image into
    position 1;
  - the choice between the block command with and without an original;
  - the order of operations in `cleanskeleton`.
- **The default members of `Distributable`** (`pilib/distributable.h`), in
  module `Distributable`:
  - extra-memory factor 0;
  - identity block correspondence;
  - the `Normal` job type;
  - the initializer-list `runDistributed` overload.
- **The edge-particle filter of `regionRemoval`** (`itl2/regionremoval.h`),
  in module `RegionRemoval`. It is an in-place erase loop with an unsigned
  index. It drops every analysis row whose last column, the on-edge flag, is
  nonzero.

Shared modules:
- `Outcomes` holds `Option` and `Result`. Every exception the code raises is
  an `Err` value.
- `Decimal` models printing and parsing non-negative integers in decimal,
  which the report lines and block file names depend on.

Thinning kernels, the distributor, graph tracing and merging, and file I/O
are not modelled. They appear as function parameters or opaque values:
- `hybridThin`/`lineThin` are parameters of `ThinCommands.ThinRun`;
- `Network::read` is the `readNetworks` parameter of
  `SkeletonTracing.LoadBlockNetworks`;
- the k-th pixel of a chunk's byte stream is the `readPixel` parameter of
  `ZarrReadOrder.ReadNoParse`;
- the per-round totals that `parseTotalCount` extracts from the distributor's
  output are the `totals` sequence given to `ThinCommands.RunIterable`.

## Model

| member | source | states |
|---|---|---|
| `Decimal.DecimalRoundTrip` | pilib/thinandskeletoncommands.h:23-24 | The decimal text printed for a count parses back to the same count. |
| `Decimal.DecimalInjective` | pilib/thinandskeletoncommands.h:163 | Two different block indices never print as the same decimal text. |
| `Distributable.DefaultNodeMemoryIsRawBytes` | pilib/distributable.h:36-43 | With the default extra-memory factor, the documented per-node memory sum·(1+f) equals the raw sum of block size times pixel size. |
| `Distributable.DefaultDividesArgumentsLikeReference` | pilib/distributable.h:45-56 | With the default (empty) `getCorrespondingBlock`, every argument image gets the reference image's read start, read size, write file position, write image position and write size. |
| `Distributable.DefaultContract` | pilib/distributable.h:36-65 | A task that overrides nothing gets extra memory 0, an unchanged block geometry, and the `Normal` rating, which is neither `Fast` nor `Slow`. |
| `Distributable.RunDistributedList` | pilib/distributable.h:29-34 | The initializer-list overload hands the command's own `runDistributed` a list with the same elements in the same order, and returns what that call returns. |
| `ThinCommands.ThinOverlapIsDriverMargin` | pilib/thinandskeletoncommands.h:27-49 | Both thinning tasks declare overlap (10, 10, 10) whatever the arguments, and that is the margin the driver distributes with. |
| `ThinCommands.SkeletonsIterateHybridThin` | pilib/thinandskeletoncommands.h:97-113 | Both distributed skeleton commands iterate `hybridthin`; `lineskeleton` does not iterate `linethin`. |
| `ThinCommands.ReportRoundTrip` | pilib/thinandskeletoncommands.h:23-24 | A report line is "<count> pixels removed.", and the count at its head parses back to the count the kernel returned. |
| `ThinCommands.ThinRun` | pilib/thinandskeletoncommands.h:21-44 | `hybridthin` applies the hybrid kernel and `linethin` the line kernel. Each leaves that kernel's image, and its report is the line "<count> pixels removed." for that kernel's count, whose count reads back. |
| `ThinCommands.FirstRepeatFrom` | pilib/thinandskeletoncommands.h:61-90 | Reference definition of the stopping round: the least round at or after `from` whose total equals the previous total (0 before round 0). No earlier round repeats. `None` means no round repeats. |
| `ThinCommands.FirstRepeatCharacterized` | pilib/thinandskeletoncommands.h:61-90 | A round that repeats, with no repeat before it, is the stopping round of the reference definition. No repeat at all means there is none. |
| `ThinCommands.StrictDecreaseToZeroConvergesNextRound` | pilib/thinandskeletoncommands.h:61-90 | Suppose the totals strictly decrease and first reach 0 at round K >= 1. Then the driver stops at round K + 1, the first repeat of 0. |
| `ThinCommands.RunIterable` | pilib/thinandskeletoncommands.h:59-94 | The driver stops exactly at the first repeating round and never earlier. While running, the last total is the previous round's total. It makes one call per round including the final one. Every call uses the same task, the same arguments, subdivision 2 and margin (10, 10, 10). A total of 0 in round 0 means exactly one call. The result is always empty. |
| `SkeletonTracing.InsertAt` | pilib/thinandskeletoncommands.h:198 | Inserting at a position makes the list one longer and puts the new element there. Every other argument keeps its relative order: removing the inserted element gives the original list back. |
| `SkeletonTracing.BlockFileNameInjective` | pilib/thinandskeletoncommands.h:163 | Distinct block indices give distinct file names `<template>_<index>.dat`. |
| `SkeletonTracing.TraceBlockArgs` | pilib/thinandskeletoncommands.h:155-163 | The block command succeeds exactly when its first five arguments are a non-null skeleton, a possibly null original, a file name template, a block index and a block origin, in that order; later arguments are ignored. It keeps the original (or its absence) and writes to `<template>_<index>.dat`. |
| `SkeletonTracing.Block2IsBlockWithNullOriginal` | pilib/thinandskeletoncommands.h:196-200 | The block command without an original traces the same block as the command with an original when given a null original. It writes to the same file and never uses an original. |
| `SkeletonTracing.TraceArgs` | pilib/thinandskeletoncommands.h:225-244 | The trace command succeeds exactly when its first five arguments are images of which only the original may be null; later arguments are ignored. The skeleton, original, vertices, edges and measurements are the first five arguments in that order. The original is absent exactly when its argument is a null image. |
| `SkeletonTracing.Trace2NeverHasOriginal` | pilib/thinandskeletoncommands.h:337-347 | The trace command without an original succeeds exactly when its first four arguments are non-null images; later arguments are ignored. They are the skeleton, vertices, edges and measurements in that order, and the command never sees an original. |
| `SkeletonTracing.TraceDistributedPlan` | pilib/thinandskeletoncommands.h:273-283 | The distributed trace succeeds exactly when its arguments are well formed. It dispatches the block command with an original exactly when the original pointer is non-null. It uses subdivision 2 and margin (0, 0, 0). |
| `SkeletonTracing.PlannedBlockTracesCallerImages` | pilib/thinandskeletoncommands.h:274-283 | Whichever block command is chosen, block `index` at `origin` traces the caller's skeleton with the caller's original (or none). It writes to the block file the merge stage reads for that index. |
| `SkeletonTracing.Trace2DistributesWithoutOriginal` | pilib/thinandskeletoncommands.h:343-347 | The distributed trace without an original always dispatches the block command without an original. |
| `SkeletonTracing.LoadBlockNetworks` | pilib/thinandskeletoncommands.h:287-298 | The merge stage reads exactly the files of blocks 0 .. k-1, where k is `output.size()`, the number of outputs `distribute` returned. It reads them in index order and with the block naming. It concatenates their graphs in that order. |
| `SkeletonTracing.BlockFilesReadBackInOrder` | pilib/thinandskeletoncommands.h:288-296 | Reading block file n back gives what that file held before the blocks wrote, followed by block n's own graphs. When no block file existed beforehand, each block's graphs come back exactly, so no block's output is lost or read twice. |
| `SkeletonTracing.MergeBlockFiles` | pilib/thinandskeletoncommands.h:163-172 | Running the merge loop of lines 287-298 against the files the blocks appended to gives, block 0 first, each block file's earlier contents followed by that block's graphs. `MergeWithoutLeftoversIsAllBlocks` covers the case with no leftover block files. |
| `SkeletonTracing.MergeWithoutLeftoversIsAllBlocks` | pilib/thinandskeletoncommands.h:163-172 | When no block file existed before the blocks wrote, the merge loop of lines 287-298 yields exactly all blocks' graphs concatenated, block 0 first. |
| `SkeletonTracing.LeftoverBlockFileIsMerged` | pilib/thinandskeletoncommands.h:249-251 | Only the bare template is removed before the blocks write, so a block file left by an earlier run is merged too: with `[9]` already in block 0's file, blocks `[1]` and `[2]` merge to `[9, 1, 2]`. |
| `SkeletonTracing.CleanSkeletonSteps` | pilib/thinandskeletoncommands.h:368-372 | `cleanskeleton` loads the network, removes straight-through nodes before isolated nodes, and stores the network. |
| `ZarrCodecs.LowerIdempotent` | itl2/io/zarrcodecs.h:46-47 | Lower-casing leaves no upper-case letter, so doing it twice is the same as once. |
| `ZarrCodecs.ParseCodecName` | itl2/io/zarrcodecs.h:43-54 | A parsed name is a real name whose string form is the lower-cased input. Otherwise the error carries the lower-cased input. |
| `ZarrCodecs.NameRoundTrip` | itl2/io/zarrcodecs.h:30-54 | `toString` succeeds exactly on the names other than `None`. Parsing its output gives the name back. |
| `ZarrCodecs.ParseCodecNameExactly` | itl2/io/zarrcodecs.h:43-54 | A string parses to a name exactly when it is that name's string form up to letter case. |
| `ZarrCodecs.ParseCodecNameIgnoresCase` | itl2/io/zarrcodecs.h:46-47 | Name parsing gives the same result for a string and for its lower-cased form. |
| `ZarrCodecs.FirstBadMember` | itl2/io/zarrcodecs.h:108-122 | Reference definition of where the configuration loop stops: every member before the index is an `endian` member with value "little" or "big", and the member at the index is not. |
| `ZarrCodecs.ScanBytesMembers` | itl2/io/zarrcodecs.h:108-122 | The loop succeeds exactly when no member is rejected. It raises the error of the first rejected member. It keeps the last endian it read, or the default. |
| `ZarrCodecs.ReadBytesConfig` | itl2/io/zarrcodecs.h:105-126 | The bytes configuration is accepted exactly when it is null, an empty array, or an object whose members are all `endian` with value exactly "little" or "big". The stored configuration is `{"endian": e}` with the declared or default endian. An unknown key raises with that key. An endian string other than "little" or "big" raises with that string. A non-string endian, or a configuration that is not null, an empty array or an object, raises the JSON library's own error. |
| `ZarrCodecs.ReadBytesConfigDefaultAndIdempotent` | itl2/io/zarrcodecs.h:105-126 | An empty configuration gives exactly `{"endian": "little"}`. Reading a stored configuration again gives the same result. |
| `ZarrCodecs.EndianIsCaseSensitive` | itl2/io/zarrcodecs.h:113-116 | The endian value is matched case-sensitively ("Little" is rejected), unlike codec names ("BYTES" parses). |
| `ZarrCodecs.NewCodec` | itl2/io/zarrcodecs.h:67-84 | The constructor gives `bytes` the kind array-to-bytes and the configuration `{"endian": "little"}`. It gives `transpose` the kind array-to-array and an empty configuration. It raises for `None`. The stored configuration is a value the JSON library can hold. |
| `ZarrCodecs.ReadConfig` | itl2/io/zarrcodecs.h:86-104 | Reading a configuration keeps the codec's kind and name. A transpose configuration is stored as given, without checks. A bytes configuration is validated as above. `None` raises. The input and the stored configuration are JSON values the library can hold, whose object keys strictly ascend. |
| `ZarrCodecs.ReadConfigIdempotent` | itl2/io/zarrcodecs.h:86-126 | Re-reading a codec's own configuration changes nothing. A freshly constructed codec already holds the configuration it would read. |
| `ZarrCodecs.ToJson` | itl2/io/zarrcodecs.h:128-134 | The JSON form is an object with exactly the keys `name` and `configuration`. They hold the name's string form and the stored configuration. It raises for `None`. |
| `ZarrCodecs.Equal` | itl2/io/zarrcodecs.h:136-139 | Equality is defined when both codecs have a real name. It holds exactly when the names and the configurations agree; the kind takes no part. |
| `ZarrCodecs.AscendingMembersEqualByContent` | itl2/io/zarrcodecs.h:136-139 | Two member lists with strictly ascending keys are equal exactly when they hold the same members. So listing an object's members in key order loses nothing: the order carries no information. |
| `ZarrCodecs.EqualComparesConfigurationMembers` | itl2/io/zarrcodecs.h:136-139 | For object configurations the library can hold, two codecs are equal exactly when they have the same real name and their configurations hold the same members, as the library's key-sorted objects compare. |
| `ZarrCodecs.EqualIsEquivalence` | itl2/io/zarrcodecs.h:136-139 | On codecs with a real name, equality is reflexive, symmetric and transitive. |
| `ZarrCodecs.ParseCodec` | itl2/io/zarrcodecs.h:188-196 | Parsing a codec succeeds exactly on "bytes" or "transpose" up to case. Its string form is the lower-cased input. Otherwise the error carries the lower-cased input. |
| `ZarrCodecs.ParseCodecRoundTrip` | itl2/io/zarrcodecs.h:182-196 | A parsed codec equals the codec constructed from the parsed name. Parsing the string of a constructed codec gives that codec back. |
| `ZarrReadOrder.ReadPositionInRange` | itl2/io/zarrcodecs.h:153-162 | Every pixel of a w×h×d image is read from a stream position below w·h·d. |
| `ZarrReadOrder.PositionOfPixelRoundTrip` | itl2/io/zarrcodecs.h:153-162 | The pixel stored from the stream position of (x, y, z) is (x, y, z). |
| `ZarrReadOrder.PixelOfPositionRoundTrip` | itl2/io/zarrcodecs.h:153-162 | Every stream position below w·h·d is the read position of a pixel inside the image, so the read order is a bijection onto [0, w·h·d). |
| `ZarrReadOrder.ReadPositionInjective` | itl2/io/zarrcodecs.h:153-162 | No two pixels are read from the same stream position. |
| `ZarrReadOrder.ReadNoParse` | itl2/io/zarrcodecs.h:142-164 | The x-outer, y-middle, z-inner loop reads w·h·d values and fills exactly the pixels of the image. Pixel (x, y, z) holds the value at stream position (x·h + y)·d + z. |
| `RegionRemoval.Analyzers` | itl2/regionremoval.h:21-25 | Coordinates and volume are always measured. The on-edge analyzer is added exactly when edges are preserved, and then it is the last analyzer. |
| `RegionRemoval.InteriorRowsMembers` | itl2/regionremoval.h:34-43 | No row kept by the filter is on the edge, and every kept row comes from the input. Every input row that is not on the edge is kept. |
| `RegionRemoval.InteriorRowsAppend` | itl2/regionremoval.h:34-43 | The filter distributes over concatenation, so kept rows keep their relative order. |
| `RegionRemoval.InteriorRowsIdempotent` | itl2/regionremoval.h:34-43 | Filtering a second time removes nothing more. |
| `RegionRemoval.DecrementIncrementRestores` | itl2/regionremoval.h:38-41 | In `size_t` arithmetic, `n--` then `n++` gives n back, also at n == 0 where `n--` wraps. |
| `RegionRemoval.ExamineNext` | itl2/regionremoval.h:36-41 | Suppose the list is the filtered prefix of the input followed by the rows not yet examined. Then the row at index n is the next unexamined row. Erasing it (on edge) or stepping over it keeps that shape one row further. |
| `RegionRemoval.ExamineRow` | itl2/regionremoval.h:36-41 | One pass of the loop body, with `size_t` wrap-around, keeps the loop's shape one row further and shrinks the number of unexamined rows. |
| `RegionRemoval.LoopShapeDone` | itl2/regionremoval.h:34-42 | When the loop condition fails, every input row has been examined and the list is exactly the filtered input. |
| `RegionRemoval.RemoveEdgeParticles` | itl2/regionremoval.h:33-42 | The erase loop terminates, and what it leaves is exactly the filter `last column == 0` over the input, in the original order. |
| `RegionRemoval.ParticlesToFill` | itl2/regionremoval.h:30-48 | Without edge preservation every particle is filled. With it, exactly the rows whose last column is 0 are filled, in the original order, and none of them has a nonzero last column. |

## Left out

- File and stream I/O is not modelled: opening and seeking the chunk file in
  `readNoParse`, `Network::write`/`Network::read`, `fs::remove`, and console
  output. Only the order of reads and the names of the files are modelled.
- The temporary file name of the distributed trace is built from a
  clock-seeded random number, which is not deterministic. It is a parameter
  (`tempFilename`).
- Code these headers call but do not contain is not part of this model:
  - `Distributor::distribute` and block planning, and `parseTotalCount`;
  - the thinning and skeleton kernels (`hybridThin`, `lineThin`,
    `hybridSkeleton`, `lineSkeleton`, `classifySkeleton`);
  - `traceLineSkeletonBlocks` and `combineTracedBlocks`;
  - the `Network` operations;
  - `analyzeParticles`, `fillParticles` and `threshold`.

  Graphs are a type parameter. Kernels and readers are function parameters.
  `cleanskeleton` is modelled only as the order of its network operations.
- `pop<T>` is not part of this model. The `ArgError` cases (missing
  argument, wrong variant, null image dereferenced) are how this model
  reports a malformed argument list. `ParamVariant` is reduced to the
  alternatives these commands use. Images are named by an identity, and the
  `DistributedImage` arguments of `runDistributed` are treated like images.
- `SkeletonTracing.MergeBlockFiles` and
  `SkeletonTracing.BlockFilesReadBackInOrder` rest on three assumptions
  about code that is not part of this model:
  - `distribute` returns exactly one output per block, so the loop bound
    `output.size()` is the number of blocks;
  - the blocks are numbered 0 .. k-1;
  - `Network::read` gives back the graphs that the per-graph
    `net.write(filename, true)` calls appended, in the same order.
  If `distribute` returned fewer outputs than there are blocks, the merge
  would silently drop the graphs of the remaining blocks. Block files left
  over from an earlier run are not assumed away: line 251 removes only the
  bare `tempFilename`, never `<tempFilename>_<i>.dat`, so the model starts
  the blocks from an arbitrary prior file system (`before`) and the merge
  reads any leftover graphs too.
- `SkeletonTracing.AtBlock` stands for the distributor filling the
  block-index and block-origin placeholders. The distributor is not part of
  this model, so this substitution is an assumption about it.
- The driver stops only when a total repeats, so it may never stop. `RunIterable`
  runs against a finite sequence of round totals. When no total repeats, the
  model reports "still running after the last given round" instead of looping
  forever.
- `ThinCommands.StrictDecreaseToZeroConvergesNextRound` requires K >= 1. If
  round 0 already reports 0, the code stops at round 0, because the previous
  total starts at 0. So "converges at K + 1" does not hold for K = 0.
  `RunIterable` states what the code does in that case: exactly one call.
- `Distributable` is a C++ base class with virtual members. Here its defaults
  are plain functions, and overriding members are functions of each command.
  Only `Normal` of `JobType` appears in these files; the other enumerators are
  an assumption.
- Floating point:
  - analysis rows are sequences of `real`;
  - the extra-memory factor is a `real`;
  - JSON numbers are integers;
  - float32 vertex and measurement images are not modelled.
- JSON is a datatype whose object members are listed in the library's
  iteration order. The library stores an object as a key-sorted map, so
  only `ZarrCodecs.Canonical` values (keys strictly ascending, at every
  depth) can reach `readConfig`; `ZarrCodecs.ReadConfig` requires this of
  its input. Keys are ordered character by character. JSON parsing and
  serialization, and how the parser treats a duplicated key, are not
  modelled.
- `RegionRemoval.OnEdge` reads the on-edge flag from the last column of a
  row. This rests on `analyzeParticles` writing one column per analyzer, in
  analyzer order, and on `IsOnEdge` writing a single column. Neither is
  part of this model; `RegionRemoval.Analyzers` only proves that `IsOnEdge`
  is the last analyzer.
- `SkeletonTracing.FileContents` reads an absent file as no graphs. A block
  that traces no graphs writes no file (lines 171-172 write once per graph),
  and what `Network::read` does with a missing file is not part of this
  model. That an absent file reads as empty is an assumption.
- `fromString<ZarrCodec>` allocates the codec with `new` and returns a copy,
  leaking the allocation. Memory is not modelled.
- `readBytesCodec` only forwards to `readNoParse`. The constructor writes a
  console line, which is not modelled.
- `test_zarr.py` drives a compiled binary against an external Zarr library.
  `pilib/transformcommands.cpp` only registers commands. Neither is modelled.
- Concurrency and worker dispatch belong to the distributor and are not
  modelled.
