/** The thinning commands and the distributed fixed-point driver
    (`IterableDistributable::runDistributed`) of pilib/thinandskeletoncommands.h.

    One round distributes a fresh thinning task over all blocks; the driver sums
    the "pixels removed" counts of the round and stops at the first round whose
    total equals the previous round's total, the previous total starting at 0.
    The thinning kernels, the distributor and `parseTotalCount` are not part of
    this model: the driver takes the parsed per-round totals as a sequence. */
module ThinCommands {
  import opened Outcomes
  import opened Decimal
  import opened Distributable

  /** The two one-layer thinning commands. */
  datatype ThinKind = HybridThin | LineThin

  /** The iterated skeleton commands built on `IterableDistributable`. */
  datatype SkeletonKind = HybridSkeleton | LineSkeleton

  function ThinCommandName(kind: ThinKind): string
  {
    match kind
    case HybridThin => "hybridthin"
    case LineThin => "linethin"
  }

  /** `calculateOverlap` of both thinning commands. */
  function ThinOverlap(kind: ThinKind, args: seq<Param>): Vec3
  {
    Vec3(10, 10, 10)
  }

  /** Subdivision argument and margin the driver passes to `distribute` in every round. */
  const DriverSubdivision: nat := 2
  const DriverMargin: Vec3 := Vec3(10, 10, 10)

  /** The thinning task a skeleton command iterates: its `command_t`.
      Both skeleton commands are instantiated with `HybridThinCommand`. */
  function IteratedThin(kind: SkeletonKind): ThinKind
  {
    match kind
    case HybridSkeleton => HybridThin
    case LineSkeleton => HybridThin
  }

  /** Both thinning tasks declare the same overlap whatever the arguments,
      and it is the margin the driver distributes them with. */
  lemma ThinOverlapIsDriverMargin()
    ensures forall k: ThinKind, a: seq<Param> :: ThinOverlap(k, a) == DriverMargin
  {
  }

  /** Both distributed skeleton commands iterate the hybrid thinning task; the
      line skeleton does not iterate the line thinning task. */
  lemma SkeletonsIterateHybridThin(kind: SkeletonKind)
    ensures IteratedThin(kind) == HybridThin
    ensures IteratedThin(LineSkeleton) != LineThin
    ensures ThinCommandName(IteratedThin(kind)) == "hybridthin"
  {
  }

  /** The line a thinning task prints for one block: "<count> pixels removed." */
  function PixelsRemovedReport(changed: nat): string
  {
    DecimalString(changed) + " pixels removed."
  }

  /** The count at the head of a report line, if the line starts with digits. */
  function ReportedCount(line: string): Option<nat>
  {
    var digits := LeadingDigits(line);
    if |digits| == 0 then None else Some(DigitsValue(digits))
  }

  /** The count printed by a thinning task is recovered from its report line. */
  lemma {:induction false} ReportRoundTrip(changed: nat)
    ensures ReportedCount(PixelsRemovedReport(changed)) == Some(changed)
    ensures PixelsRemovedReport(changed)[|DecimalString(changed)|..] == " pixels removed."
  {
    LeadingDigitsOfNumberThenText(DecimalString(changed), " pixels removed.");
    DecimalRoundTrip(changed);
  }

  /** `run` of a thinning command on one block: apply the kernel of its kind
      (`hybridThin` or `lineThin`, passed in) and report the count it returns. */
  function ThinRun<I>(kind: ThinKind, hybridThin: I -> (I, nat), lineThin: I -> (I, nat), block: I): (r: (I, string))
    ensures kind == HybridThin ==> r.0 == hybridThin(block).0 && ReportedCount(r.1) == Some(hybridThin(block).1)
    ensures kind == LineThin ==> r.0 == lineThin(block).0 && ReportedCount(r.1) == Some(lineThin(block).1)
    ensures r.1 == PixelsRemovedReport(if kind == HybridThin then hybridThin(block).1 else lineThin(block).1)
  {
    var result := if kind == HybridThin then hybridThin(block) else lineThin(block);
    ReportRoundTrip(result.1);
    (result.0, PixelsRemovedReport(result.1))
  }

  /** One `distributor.distribute(&cmd, args, subdivision, margin)` call. */
  datatype DistributeCall = DistributeCall(task: ThinKind, args: seq<Param>, subdivision: nat, margin: Vec3)

  /** The total the driver compares round `n` against: the previous round's
      total, or 0 before the first round. */
  function PreviousTotal(totals: seq<nat>, n: nat): nat
    requires n <= |totals|
  {
    if n == 0 then 0 else totals[n - 1]
  }

  predicate RoundRepeats(totals: seq<nat>, n: nat)
    requires n < |totals|
  {
    totals[n] == PreviousTotal(totals, n)
  }

  /** Reference definition: the first round at or after `from` whose total
      repeats the previous one. */
  function FirstRepeatFrom(totals: seq<nat>, from: nat): (r: Option<nat>)
    requires from <= |totals|
    ensures r.Some? ==> from <= r.value < |totals| && RoundRepeats(totals, r.value)
    ensures r.Some? ==> forall k :: from <= k < r.value ==> !RoundRepeats(totals, k)
    ensures r.None? ==> forall k :: from <= k < |totals| ==> !RoundRepeats(totals, k)
    decreases |totals| - from
  {
    if from == |totals| then None
    else if RoundRepeats(totals, from) then Some(from)
    else FirstRepeatFrom(totals, from + 1)
  }

  function FirstRepeat(totals: seq<nat>): Option<nat>
  {
    FirstRepeatFrom(totals, 0)
  }

  /** A round that repeats its predecessor, with no repeat before it, is the
      round the reference definition finds; no repeat at all means none. */
  lemma FirstRepeatCharacterized(totals: seq<nat>, n: nat)
    requires n <= |totals|
    requires forall k :: 0 <= k < n ==> !RoundRepeats(totals, k)
    ensures n < |totals| && RoundRepeats(totals, n) ==> FirstRepeat(totals) == Some(n)
    ensures n == |totals| ==> FirstRepeat(totals) == None
  {
  }

  /** A task whose totals strictly decrease and first reach 0 at round K >= 1
      converges at round K + 1, the first repeat of 0. */
  lemma StrictDecreaseToZeroConvergesNextRound(totals: seq<nat>, K: nat)
    requires 1 <= K && K + 1 < |totals|
    requires forall k :: 0 <= k < K ==> totals[k] > totals[k + 1]
    requires totals[K] == 0 && totals[K + 1] == 0
    ensures FirstRepeat(totals) == Some(K + 1)
  {
    assert RoundRepeats(totals, K + 1);
    forall k | 0 <= k <= K
      ensures !RoundRepeats(totals, k)
    {
      if k == 0 {
        assert totals[0] > totals[1];
      } else {
        assert totals[k - 1] > totals[k];
      }
    }
  }

  /** The driver's loop run against the parsed round totals `totals`
      (`totals[n]` is what round `n` reports). `calls` are the distribute calls
      made; `converged` says the loop broke out at round `rounds`; when it has
      not, the loop is still running after the last round of `totals`. */
  method RunIterable(kind: SkeletonKind, args: seq<Param>, totals: seq<nat>)
    returns (calls: seq<DistributeCall>, converged: bool, rounds: nat, lastTotal: nat, output: seq<string>)
    ensures converged <==> FirstRepeat(totals).Some?
    ensures converged ==> rounds == FirstRepeat(totals).value
    ensures converged ==> rounds < |totals| && totals[rounds] == PreviousTotal(totals, rounds)
    ensures rounds <= |totals|
    ensures forall k :: 0 <= k < rounds ==> totals[k] != PreviousTotal(totals, k)
    ensures !converged ==> rounds == |totals|
    ensures lastTotal == PreviousTotal(totals, rounds)
    ensures |calls| == if converged then rounds + 1 else rounds
    ensures forall i :: 0 <= i < |calls| ==>
      calls[i] == DistributeCall(IteratedThin(kind), args, DriverSubdivision, DriverMargin)
    ensures |totals| > 0 && totals[0] == 0 ==> converged && |calls| == 1
    ensures output == []
  {
    var round := DistributeCall(IteratedThin(kind), args, DriverSubdivision, DriverMargin);
    calls := [];
    converged := false;
    rounds := 0;
    lastTotal := 0;
    while rounds < |totals|
      invariant rounds <= |totals|
      invariant lastTotal == PreviousTotal(totals, rounds)
      invariant forall k :: 0 <= k < rounds ==> !RoundRepeats(totals, k)
      invariant |calls| == rounds
      invariant forall i :: 0 <= i < |calls| ==> calls[i] == round
      decreases |totals| - rounds
    {
      calls := calls + [round];
      var totalChanged := totals[rounds];
      if totalChanged == lastTotal {
        converged := true;
        break;
      }
      lastTotal := totalChanged;
      rounds := rounds + 1;
    }
    FirstRepeatCharacterized(totals, rounds);
    forall k | 0 <= k < rounds
      ensures totals[k] != PreviousTotal(totals, k)
    {
      assert !RoundRepeats(totals, k);
    }
    output := [];
  }
}
