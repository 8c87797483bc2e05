/** The gas-limit search of chisel's runner (chisel/src/runner.rs). A call that succeeded is
    repeated under other gas limits to find one that is close to the least sufficient limit. */
module GasSearch {
  import opened Bytes

  const U64_MAX: nat := 0xffff_ffff_ffff_ffff
  const ACCURACY: nat := 10

  datatype Exit = Continue | Stop | Return | SelfDestruct | Revert | OutOfGas | OutOfFund | OtherError

  predicate IsOk(e: Exit) {
    e.Continue? || e.Stop? || e.Return? || e.SelfDestruct?
  }

  /** The exits that make the search try a higher limit. */
  predicate WantsMore(e: Exit) {
    e.Revert? || e.OutOfGas? || e.OutOfFund?
  }

  /** One execution: the executor itself may fail, or the call runs to some exit. */
  datatype Call = Failed | Ran(exit: Exit, gasUsed: nat)

  /** What the search makes of a probe: under a non-committing call the answer depends on the
      limit only. */
  type Probe = nat -> Call

  predicate Sufficient(run: Probe, limit: nat) {
    run(limit).Ran? && run(limit).exit !in {Revert, OutOfGas, OutOfFund}
  }

  datatype Found = Estimate(limit: nat) | Kept | CallError(at: nat) | Overflow

  /** Bisection between a limit taken as too low and one taken as high enough, with every u64
      operation checked. It ends early once a success lowers the high limit by less than a tenth. */
  function Search(run: Probe, low: nat, high: nat): (f: Found)
    requires low <= high
    decreases high - low
  {
    if high - low <= 1 then Kept
    else if high + low > U64_MAX then Overflow
    else
      var mid := (high + low) / 2;
      match run(mid)
      case Failed => CallError(mid)
      case Ran(exit, _) =>
        if WantsMore(exit) then Search(run, mid, high)
        else if (high - mid) * ACCURACY > U64_MAX then Overflow
        else if (high - mid) * ACCURACY / high < 1 then Estimate(mid)
        else Search(run, low, mid)
  }

  function SearchFrom(run: Probe, gas: nat): (f: Found)
  {
    if gas * 3 > U64_MAX then Overflow else Search(run, gas, gas * 3)
  }

  lemma TenthTest(step: nat, high: nat)
    requires high > 0
    ensures step * ACCURACY / high < 1 <==> step * ACCURACY < high
  {
  }

  // ----- arithmetic -----

  lemma {:induction false} NarrowSearchIsSafe(run: Probe, low: nat, high: nat)
    requires low <= high && 2 * high <= U64_MAX
    requires (high - low + 1) / 2 * ACCURACY <= U64_MAX
    ensures !Search(run, low, high).Overflow?
    decreases high - low
  {
    if high - low > 1 {
      var mid := (high + low) / 2;
      assert high - mid == (high - low + 1) / 2;
      if run(mid).Ran? {
        if WantsMore(run(mid).exit) {
          NarrowSearchIsSafe(run, mid, high);
        } else {
          NarrowSearchIsSafe(run, low, mid);
        }
      }
    }
  }

  /** No u64 operation can overflow, whatever the executor answers, exactly when ten times the
      measured gas fits. */
  lemma SafeForEveryExecutorIff(gas: nat)
    ensures (forall run: Probe :: !SearchFrom(run, gas).Overflow?) <==> gas * ACCURACY <= U64_MAX
  {
    if gas * ACCURACY <= U64_MAX {
      forall run: Probe ensures !SearchFrom(run, gas).Overflow? {
        NarrowSearchIsSafe(run, gas, gas * 3);
      }
    } else {
      var always: Probe := limit => Ran(Stop, 0);
      assert SearchFrom(always, gas).Overflow?;
    }
  }

  // ----- what an early exit returns -----

  /** The executor answers every limit and is monotone: `least` is the least sufficient limit. */
  ghost predicate Threshold(run: Probe, least: nat) {
    forall limit: nat :: run(limit).Ran? && (Sufficient(run, limit) <==> least <= limit)
  }

  /** An estimate was itself probed and succeeded, strictly between the bounds. */
  lemma {:induction false} EstimateWasProbed(run: Probe, low: nat, high: nat)
    requires low <= high
    requires Search(run, low, high).Estimate?
    ensures var r := Search(run, low, high).limit;
            low < r < high && Sufficient(run, r)
    decreases high - low
  {
    var mid := (high + low) / 2;
    if WantsMore(run(mid).exit) {
      EstimateWasProbed(run, mid, high);
    } else if (high - mid) * ACCURACY / high >= 1 {
      EstimateWasProbed(run, low, mid);
    }
  }

  /** An estimate exceeds the larger of the least sufficient limit and the measured gas by less
      than a ninth of itself. */
  lemma {:induction false} EstimateIsAccurate(run: Probe, gas: nat, least: nat, low: nat, high: nat)
    requires Threshold(run, least)
    requires gas <= low <= high && (low == gas || low < least)
    requires Search(run, low, high).Estimate?
    ensures var r := Search(run, low, high).limit;
            r >= Max(least, gas) && 9 * (r - Max(least, gas)) < r
    decreases high - low
  {
    var mid := (high + low) / 2;
    assert high - mid >= mid - low;
    if WantsMore(run(mid).exit) {
      EstimateIsAccurate(run, gas, least, mid, high);
    } else {
      TenthTest(high - mid, high);
      if (high - mid) * ACCURACY >= high {
        EstimateIsAccurate(run, gas, least, low, mid);
      }
    }
  }

  // ----- when the measured gas is kept -----

  /** Once the next success is certain to be close enough, the search keeps the measured gas
      exactly when nothing below the high limit suffices. */
  lemma {:induction false} FineSearch(run: Probe, least: nat, low: nat, high: nat)
    requires Threshold(run, least)
    requires low < high && 2 * high <= U64_MAX
    requires low < least || high - low > 1
    requires (high - low + 1) / 2 * ACCURACY < high
    ensures Search(run, low, high).Kept? <==> least >= high
    decreases high - low
  {
    if high - low > 1 {
      var mid := (high + low) / 2;
      assert high - mid == (high - low + 1) / 2;
      if WantsMore(run(mid).exit) {
        FineSearch(run, least, mid, high);
      } else {
        TenthTest(high - mid, high);
      }
    }
  }

  /** One bisection step whose success is too far from the high limit to end the search. */
  lemma CoarseStep(run: Probe, least: nat, low: nat, high: nat)
    requires Threshold(run, least)
    requires low <= high && high - low > 1 && 2 * high <= U64_MAX
    requires (high - low + 1) / 2 * ACCURACY <= U64_MAX
    ensures var mid := (high + low) / 2;
            Search(run, low, high) ==
              if mid < least then Search(run, mid, high)
              else if (high - mid) * ACCURACY < high then Estimate(mid)
              else Search(run, low, mid)
  {
    var mid := (high + low) / 2;
    assert high - mid == (high - low + 1) / 2;
    TenthTest(high - mid, high);
  }

  /** The probes between the bounds that any search can come to without having ended, and whose
      success would be too far from the high limit to end it. They depend on the bounds only. */
  function CoarsePoints(low: nat, high: nat): (points: set<nat>)
    requires low <= high
    ensures forall p :: p in points ==> low < p < high
    decreases high - low
  {
    if high - low <= 1 then {}
    else
      var mid := (high + low) / 2;
      if (high - mid) * ACCURACY < high then CoarsePoints(mid, high)
      else {mid} + CoarsePoints(low, mid) + CoarsePoints(mid, high)
  }

  lemma {:induction false} SearchKeepsIff(run: Probe, least: nat, low: nat, high: nat)
    requires Threshold(run, least)
    requires low <= high && low < least && 2 * high <= U64_MAX
    requires (high - low + 1) / 2 * ACCURACY <= U64_MAX
    ensures Search(run, low, high).Kept? <==> least >= high || least in CoarsePoints(low, high)
    decreases high - low
  {
    if high - low > 1 {
      var mid := (high + low) / 2;
      assert high - mid == (high - low + 1) / 2;
      CoarseStep(run, least, low, high);
      if mid < least {
        SearchKeepsIff(run, least, mid, high);
      } else if (high - mid) * ACCURACY >= high {
        SearchKeepsIff(run, least, low, mid);
      }
    }
  }

  /** For any measured gas: when it does not suffice itself, it is kept exactly when the least
      sufficient limit is out of reach or is a coarse point, whose success the search forgets. */
  lemma {:induction false} KeptIffCoarse(run: Probe, gas: nat, least: nat)
    requires Threshold(run, least) && gas < least
    requires gas * ACCURACY <= U64_MAX
    ensures SearchFrom(run, gas).Kept? <==> least >= 3 * gas || least in CoarsePoints(gas, 3 * gas)
  {
    var high := gas * 3;
    assert (high - gas + 1) / 2 == gas;
    assert SearchFrom(run, gas) == Search(run, gas, high);
    SearchKeepsIff(run, least, gas, high);
  }

  /** The limits whose success is too coarse a step to end the search. When the least sufficient
      limit is one of them, all later probes fail and the success is forgotten. */
  predicate IsForgotten(gas: nat, least: nat) {
    var p32 := 3 * gas / 2;
    var p52 := 5 * gas / 2;
    var p54 := (p32 + gas) / 2;
    var p74 := (2 * gas + p32) / 2;
    var p94 := (p52 + 2 * gas) / 2;
    var p98 := (p54 + gas) / 2;
    || least >= 3 * gas
    || least == 2 * gas || least == p32 || least == p52 || least == p54 || least == p74
    || (least == p94 && (p52 - p94) * ACCURACY >= p52)
    || (least == p98 && (p54 - p98) * ACCURACY >= p54)
  }

  /** Below this the bisection runs out of integers before its steps get fine. Any real call uses
      far more: the base cost of a transaction is 21000 gas. */
  const SMALLEST_GAS: nat := 28

  /** In an interval whose steps are fine, only its upper end is forgotten. */
  lemma FineInterval(run: Probe, least: nat, low: nat, high: nat)
    requires Threshold(run, least)
    requires low < high && 2 * high <= U64_MAX && (high - low + 1) / 2 * ACCURACY < high
    requires least <= high && (low < least || high - low > 1)
    ensures Search(run, low, high).Kept? <==> least == high
  {
    FineSearch(run, least, low, high);
  }

  /** The steps to and around 5/4 of the gas. */
  lemma LowerSteps(gas: nat)
    requires SMALLEST_GAS <= gas
    ensures var p32 := 3 * gas / 2;
            var p54 := (p32 + gas) / 2;
            && gas + 1 < p54 && p54 + 1 < p32
            && (p32 - p54) * ACCURACY >= p32 && (p32 - gas + 1) / 2 <= gas
            && (p32 - p54 + 1) / 2 * ACCURACY < p32
  {
  }

  lemma LowestEighths(run: Probe, gas: nat, least: nat)
    requires Threshold(run, least)
    requires SMALLEST_GAS <= gas && gas * ACCURACY <= U64_MAX
    requires least <= (3 * gas / 2 + gas) / 2
    ensures var p54 := (3 * gas / 2 + gas) / 2;
            var p98 := (p54 + gas) / 2;
            Search(run, gas, p54).Kept? <==>
            least == p54 || (least == p98 && (p54 - p98) * ACCURACY >= p54)
  {
    var p54 := (3 * gas / 2 + gas) / 2;
    var p98 := (p54 + gas) / 2;
    CoarseStep(run, least, gas, p54);
    if least <= p98 {
      FineInterval(run, least, gas, p98);
    } else {
      FineInterval(run, least, p98, p54);
    }
  }

  lemma LowerStepTaken(run: Probe, gas: nat, least: nat)
    requires Threshold(run, least)
    requires SMALLEST_GAS <= gas && gas * ACCURACY <= U64_MAX
    ensures var p32 := 3 * gas / 2;
            var p54 := (p32 + gas) / 2;
            Search(run, gas, p32) == if p54 < least then Search(run, p54, p32) else Search(run, gas, p54)
  {
    LowerSteps(gas);
    CoarseStep(run, least, gas, 3 * gas / 2);
  }

  lemma SecondEighths(run: Probe, gas: nat, least: nat)
    requires Threshold(run, least)
    requires SMALLEST_GAS <= gas && gas * ACCURACY <= U64_MAX
    requires (3 * gas / 2 + gas) / 2 < least <= 3 * gas / 2
    ensures Search(run, (3 * gas / 2 + gas) / 2, 3 * gas / 2).Kept? <==> least == 3 * gas / 2
  {
    LowerSteps(gas);
    FineInterval(run, least, (3 * gas / 2 + gas) / 2, 3 * gas / 2);
  }

  lemma LowerQuarters(run: Probe, gas: nat, least: nat)
    requires Threshold(run, least)
    requires SMALLEST_GAS <= gas && gas * ACCURACY <= U64_MAX
    requires least <= 3 * gas / 2
    ensures var p32 := 3 * gas / 2;
            var p54 := (p32 + gas) / 2;
            var p98 := (p54 + gas) / 2;
            Search(run, gas, p32).Kept? <==>
            least == p32 || least == p54 || (least == p98 && (p54 - p98) * ACCURACY >= p54)
  {
    LowerSteps(gas);
    LowerStepTaken(run, gas, least);
    if least <= (3 * gas / 2 + gas) / 2 {
      LowestEighths(run, gas, least);
    } else {
      SecondEighths(run, gas, least);
    }
  }

  lemma UpperQuarters(run: Probe, gas: nat, least: nat)
    requires Threshold(run, least)
    requires SMALLEST_GAS <= gas && gas * ACCURACY <= U64_MAX
    requires 3 * gas / 2 < least <= 2 * gas
    ensures var p32 := 3 * gas / 2;
            Search(run, p32, 2 * gas).Kept? <==> least == 2 * gas || least == (2 * gas + p32) / 2
  {
    var p32 := 3 * gas / 2;
    var p74 := (2 * gas + p32) / 2;
    CoarseStep(run, least, p32, 2 * gas);
    if least <= p74 {
      FineInterval(run, least, p32, p74);
    } else {
      FineInterval(run, least, p74, 2 * gas);
    }
  }

  lemma LowerHalf(run: Probe, gas: nat, least: nat)
    requires Threshold(run, least)
    requires SMALLEST_GAS <= gas && gas * ACCURACY <= U64_MAX
    requires least <= 2 * gas
    ensures Search(run, gas, 2 * gas).Kept? <==> IsForgotten(gas, least)
  {
    CoarseStep(run, least, gas, 2 * gas);
    if least <= 3 * gas / 2 {
      LowerQuarters(run, gas, least);
    } else {
      UpperQuarters(run, gas, least);
    }
  }

  lemma ThirdQuarters(run: Probe, gas: nat, least: nat)
    requires Threshold(run, least)
    requires SMALLEST_GAS <= gas && gas * ACCURACY <= U64_MAX
    requires 2 * gas < least <= 5 * gas / 2
    ensures var p52 := 5 * gas / 2;
            var p94 := (p52 + 2 * gas) / 2;
            Search(run, 2 * gas, p52).Kept? <==>
            least == p52 || (least == p94 && (p52 - p94) * ACCURACY >= p52)
  {
    var p52 := 5 * gas / 2;
    var p94 := (p52 + 2 * gas) / 2;
    CoarseStep(run, least, 2 * gas, p52);
    if least <= p94 {
      FineInterval(run, least, 2 * gas, p94);
    } else {
      FineInterval(run, least, p94, p52);
    }
  }

  lemma UpperHalf(run: Probe, gas: nat, least: nat)
    requires Threshold(run, least)
    requires SMALLEST_GAS <= gas && gas * ACCURACY <= U64_MAX
    requires least > 2 * gas
    ensures Search(run, 2 * gas, 3 * gas).Kept? <==> IsForgotten(gas, least)
  {
    CoarseStep(run, least, 2 * gas, 3 * gas);
    if least <= 5 * gas / 2 {
      ThirdQuarters(run, gas, least);
    } else {
      FineSearch(run, least, 5 * gas / 2, 3 * gas);
    }
  }

  /** From 28 gas on: the measured gas is kept exactly when the least sufficient limit is out of reach
      or one of a handful of fractions of the gas. */
  lemma KeptIff(run: Probe, gas: nat, least: nat)
    requires Threshold(run, least)
    requires SMALLEST_GAS <= gas && gas * ACCURACY <= U64_MAX
    ensures SearchFrom(run, gas).Kept? <==> IsForgotten(gas, least)
  {
    CoarseStep(run, least, gas, 3 * gas);
    if least <= 2 * gas {
      LowerHalf(run, gas, least);
    } else {
      UpperHalf(run, gas, least);
    }
  }

  /** The coarse points in closed form, for every gas a real call can use. */
  lemma CoarsePointsAre(gas: nat, least: nat)
    requires SMALLEST_GAS <= gas && gas * ACCURACY <= U64_MAX && gas < least < 3 * gas
    ensures least in CoarsePoints(gas, 3 * gas) <==> IsForgotten(gas, least)
  {
    var run: Probe := (limit: nat) => Ran(if limit < least then OutOfGas else Stop, 0);
    assert Threshold(run, least);
    KeptIff(run, gas, least);
    KeptIffCoarse(run, gas, least);
  }

  function GasReported(f: Found, gas: nat): (g: nat)
  {
    if f.Estimate? then f.limit else gas
  }

  lemma {:induction false} NeverCallError(run: Probe, least: nat, low: nat, high: nat)
    requires Threshold(run, least) && low <= high
    ensures !Search(run, low, high).CallError?
    decreases high - low
  {
    if high - low > 1 {
      var mid := (high + low) / 2;
      if WantsMore(run(mid).exit) {
        NeverCallError(run, least, mid, high);
      } else {
        NeverCallError(run, least, low, mid);
      }
    }
  }

  predicate FindsEnough(gas: nat, least: nat) {
    least <= gas || (least < 3 * gas && least !in CoarsePoints(gas, 3 * gas))
  }

  /** The reported gas can be used as a gas limit exactly when the measured gas already could, or the
      least sufficient limit is within reach and not a coarse point. */
  lemma ReportedGasSufficesIff(run: Probe, gas: nat, least: nat)
    requires Threshold(run, least)
    requires gas * ACCURACY <= U64_MAX
    ensures GasReported(SearchFrom(run, gas), gas) >= least <==> FindsEnough(gas, least)
  {
    NarrowSearchIsSafe(run, gas, gas * 3);
    NeverCallError(run, least, gas, gas * 3);
    if gas < least { KeptIffCoarse(run, gas, least); }
    if SearchFrom(run, gas).Estimate? {
      EstimateIsAccurate(run, gas, least, gas, gas * 3);
    }
  }

  /** So the reported gas is not always usable: a call that used 21000 gas and needs 42000 is
      reported as needing 21000. */
  lemma ReportedGasCanBeTooLow(run: Probe)
    requires Threshold(run, 42000)
    ensures GasReported(SearchFrom(run, 21000), 21000) == 21000
    ensures !Sufficient(run, 21000)
  {
    KeptIff(run, 21000, 42000);
  }

  /** What is reported is the measured gas, or a limit below three times the gas that was probed with
      success and is close to the least that would do. */
  lemma ReportedGas(run: Probe, gas: nat)
    ensures var g := GasReported(SearchFrom(run, gas), gas);
            && (g == gas || (SearchFrom(run, gas).Estimate? && gas < g < 3 * gas && Sufficient(run, g)))
            && (forall least: nat :: Threshold(run, least) && g != gas ==>
                  g >= Max(least, gas) && 9 * (g - Max(least, gas)) < g)
  {
    if SearchFrom(run, gas).Estimate? {
      EstimateWasProbed(run, gas, gas * 3);
      forall least: nat | Threshold(run, least)
        ensures var g := SearchFrom(run, gas).limit;
                GasReported(SearchFrom(run, gas), gas) == g && g >= Max(least, gas) && 9 * (g - Max(least, gas)) < g
      {
        EstimateIsAccurate(run, gas, least, gas, gas * 3);
      }
    }
  }

  // ----- the runner -----

  datatype Settings = Settings(gasLimit: nat, fsCommit: Option<bool>)

  /** The executor: a plain call and a committing call, as functions of the settings. */
  datatype Executor = Executor(raw: Settings -> Call, committing: Settings -> Call)

  datatype Outcome = Done(gasUsed: nat, last: Call) | CallFailed | ArithmeticOverflow

  /** The settings during the search: file-system writes are off if there are cheatcodes. */
  function Quiet(s: Settings): (q: Settings)
  {
    if s.fsCommit.Some? then s.(fsCommit := Some(false)) else s
  }

  function ProbeOf(evm: Executor, s: Settings): (run: Probe)
  {
    (limit: nat) => evm.raw(Quiet(s).(gasLimit := limit))
  }

  /** What the search finds for a call whose first run is `first`; it only starts after a success. */
  function SearchAfter(evm: Executor, s: Settings, first: Call): (f: Found)
    requires first.Ran?
  {
    if IsOk(first.exit) then SearchFrom(ProbeOf(evm, s), first.gasUsed) else Kept
  }

  /** Some run of the executor fails that the call waits for: the first one, a probe, the repetition
      with file-system writes on, or the committing one. */
  predicate Fails(evm: Executor, s: Settings, commit: bool) {
    var first := evm.raw(Quiet(s));
    first.Failed? ||
    var f := SearchAfter(evm, s, first);
    f.CallError? ||
    (!f.Overflow? && ((Quiet(s) != s && evm.raw(s).Failed?) || (commit && evm.committing(s).Failed?)))
  }

  /** No failure strikes while settings are changed: a failing first run finds file-system writes off
      already, and so does a failing probe, at the very gas limit that was set before. */
  predicate Restores(evm: Executor, s: Settings) {
    var first := evm.raw(Quiet(s));
    if first.Failed? then Quiet(s) == s
    else
      var f := SearchAfter(evm, s, first);
      f.CallError? ==> Quiet(s) == s && f.at == s.gasLimit
  }

  /** The call as the search repeats it: under a gas limit of its own, with file-system writes off. */
  function Repeated(evm: Executor, s: Settings): (run: Probe)
  {
    (limit: nat) => evm.raw(Settings(limit, if s.fsCommit.Some? then Some(false) else None))
  }

  /** The gas is that of the first run; or the first run was a success, and the gas is a limit strictly
      between that and three times it under which the repeated call did well. If there is a least
      sufficient limit, such a gas exceeds it, or the first run's, by less than a ninth of itself; and
      after a success the gas suffices exactly when the first run's does or the search can find one
      that does. */
  ghost predicate Reports(evm: Executor, s: Settings, gasUsed: nat) {
    var first := Repeated(evm, s)(s.gasLimit);
    && first.Ran?
    && (gasUsed != first.gasUsed ==>
          && first.exit in {Continue, Stop, Return, SelfDestruct}
          && first.gasUsed < gasUsed < 3 * first.gasUsed && Sufficient(Repeated(evm, s), gasUsed)
          && forall least: nat :: Threshold(Repeated(evm, s), least) ==>
               var least' := Max(least, first.gasUsed);
               gasUsed >= least' && 9 * (gasUsed - least') < gasUsed)
    && (first.exit in {Continue, Stop, Return, SelfDestruct} && first.gasUsed * ACCURACY <= U64_MAX ==>
          forall least: nat :: Threshold(Repeated(evm, s), least) ==>
            (gasUsed >= least <==> FindsEnough(first.gasUsed, least)))
  }

  lemma SameProbes(evm: Executor, s: Settings)
    ensures forall limit: nat :: ProbeOf(evm, s)(limit) == Repeated(evm, s)(limit)
    ensures evm.raw(Quiet(s)) == Repeated(evm, s)(s.gasLimit)
    ensures forall least: nat :: Threshold(Repeated(evm, s), least) ==> Threshold(ProbeOf(evm, s), least)
  {
    forall limit: nat ensures ProbeOf(evm, s)(limit) == Repeated(evm, s)(limit) {
      assert Quiet(s).(gasLimit := limit) == Settings(limit, if s.fsCommit.Some? then Some(false) else None);
    }
    forall least: nat | Threshold(Repeated(evm, s), least) ensures Threshold(ProbeOf(evm, s), least) {
      forall limit: nat
        ensures ProbeOf(evm, s)(limit).Ran? && (Sufficient(ProbeOf(evm, s), limit) <==> least <= limit)
      {
        assert Repeated(evm, s)(limit).Ran? && (Sufficient(Repeated(evm, s), limit) <==> least <= limit);
      }
    }
  }

  lemma SearchReports(evm: Executor, s: Settings)
    requires evm.raw(Quiet(s)).Ran?
    ensures var first := evm.raw(Quiet(s));
            Reports(evm, s, GasReported(SearchAfter(evm, s, first), first.gasUsed))
  {
    SameProbes(evm, s);
    var run, first := ProbeOf(evm, s), evm.raw(Quiet(s));
    ReportedGas(run, first.gasUsed);
    if IsOk(first.exit) && first.gasUsed * ACCURACY <= U64_MAX {
      forall least: nat | Threshold(run, least)
        ensures GasReported(SearchAfter(evm, s, first), first.gasUsed) >= least <==> FindsEnough(first.gasUsed, least)
      {
        ReportedGasSufficesIff(run, first.gasUsed, least);
      }
    }
  }

  class Runner {
    const evm: Executor
    var settings: Settings

    constructor (evm: Executor, settings: Settings)
      ensures this.evm == evm && this.settings == settings
    {
      this.evm, this.settings := evm, settings;
    }

    /** The bisection loop, run on the live settings. */
    method FindGas(gas: nat) returns (f: Found)
      requires Quiet(settings) == settings
      modifies this
      ensures f == SearchFrom(ProbeOf(evm, old(settings)), gas)
      ensures settings.fsCommit == old(settings).fsCommit
      ensures f.Estimate? || f.Kept? ==> settings == old(settings)
      ensures f.CallError? ==> settings.gasLimit == f.at
    {
      var initGasLimit := settings.gasLimit;
      if gas * 3 > U64_MAX { return Overflow; }
      ghost var run := ProbeOf(evm, old(settings));
      var high, low := gas * 3, gas;
      var lastHigh := high;
      f := Kept;
      while high - low > 1
        invariant 0 <= low <= high == lastHigh
        invariant settings.fsCommit == old(settings).fsCommit
        invariant f.Kept?
        invariant Search(run, low, high) == Search(run, gas, gas * 3)
        decreases high - low
      {
        if high + low > U64_MAX { return Overflow; }
        var mid := (high + low) / 2;
        settings := settings.(gasLimit := mid);
        assert settings == Quiet(old(settings)).(gasLimit := mid);
        var res := evm.raw(settings);
        assert res == run(mid);
        if res.Failed? { return CallError(mid); }
        if WantsMore(res.exit) {
          low := mid;
        } else {
          high := mid;
          if (lastHigh - high) * ACCURACY > U64_MAX { return Overflow; }
          if (lastHigh - high) * ACCURACY / lastHigh < 1 {
            f := Estimate(high);
            break;
          }
          lastHigh := high;
        }
      }
      settings := settings.(gasLimit := initGasLimit);
    }

    /** Runs the call, estimates its gas and restores the settings. On success the settings are
        those from before and the last run was made under them. A failure of the executor leaves the
        probe's gas limit behind if it strikes during the search, and leaves file-system writes off
        if it strikes before they are turned on again. */
    method Call(commit: bool) returns (r: Outcome)
      modifies this
      ensures r.Done? ==> settings == old(settings)
      ensures r.Done? ==>
                var first := evm.raw(Quiet(old(settings)));
                first.Ran? && r.gasUsed == GasReported(SearchAfter(evm, old(settings), first), first.gasUsed)
      ensures r.Done? ==> Reports(evm, old(settings), r.gasUsed)
      ensures r.Done? ==>
                r.last.Ran? &&
                r.last == if commit then evm.committing(old(settings)) else evm.raw(old(settings))
      ensures r.CallFailed? ==>
                var first := evm.raw(Quiet(old(settings)));
                if first.Failed? then settings == Quiet(old(settings))
                else
                  var f := SearchAfter(evm, old(settings), first);
                  if f.CallError? then settings == Quiet(old(settings)).(gasLimit := f.at)
                  else settings == old(settings)
      ensures r.ArithmeticOverflow? <==>
                var first := evm.raw(Quiet(old(settings)));
                first.Ran? && SearchAfter(evm, old(settings), first).Overflow?
      ensures r.CallFailed? <==> Fails(evm, old(settings), commit)
      ensures !r.ArithmeticOverflow? ==>
                (settings == old(settings) <==> Restores(evm, old(settings)))
    {
      var fsCommitChanged := false;
      if settings.fsCommit.Some? {
        fsCommitChanged := settings.fsCommit.value != false;
        settings := settings.(fsCommit := Some(false));
      }
      var res := evm.raw(settings);
      if res.Failed? { return CallFailed; }
      SearchReports(evm, old(settings));
      var gasUsed := res.gasUsed;
      if IsOk(res.exit) {
        var f := FindGas(gasUsed);
        match f {
          case CallError(_) => return CallFailed;
          case Overflow => return ArithmeticOverflow;
          case Estimate(limit) => gasUsed := limit;
          case Kept =>
        }
      }
      if fsCommitChanged {
        settings := settings.(fsCommit := Some(!settings.fsCommit.value));
        res := evm.raw(settings);
        if res.Failed? { return CallFailed; }
      }
      if commit {
        res := evm.committing(settings);
        if res.Failed? { return CallFailed; }
      }
      r := Done(gasUsed, res);
    }
  }

  /** A failing probe leaves its gas limit set and file-system writes off. */
  method FailureLeavesSettings() returns (r: Outcome, after: Settings)
    ensures r == CallFailed && after == Settings(42000, Some(false))
  {
    var evm := Executor((s: Settings) => if s.gasLimit == 42000 then Failed else Ran(Stop, 21000),
                        (s: Settings) => Ran(Stop, 21000));
    var before := Settings(30000000, Some(true));
    var runner := new Runner(evm, before);
    assert ProbeOf(evm, before)(42000) == Failed;
    assert Search(ProbeOf(evm, before), 21000, 63000) == CallError(42000);
    r := runner.Call(true);
    after := runner.settings;
  }
}
