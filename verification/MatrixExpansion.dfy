/**
 `expand_matrix` and `validate_truth_benchmark_config` of performance/soft_ue_truth_benchmark_lib.py:
 one run for every combination of the matrix dimensions and every repetition, each with parameters
 merged from seven layers of overrides.

 Runs are numbered by counting in mixed radix (`RunAt`). The merged parameters are described by the
 last layer that defines a key (`LastLayerWins`), and what validation guarantees about them is
 `AcceptedScenario`.
 */
module MatrixExpansion {
  import opened Basics
  import opened MixedRadix

  /** A JSON value, as Python reads it: an infinity or NaN is a number too. */
  datatype Value =
    | Null
    | Text(text: string)
    | Number(number: int)
    | Fraction(fraction: real)
    | NotFinite
    | Flag(flag: bool)
    | Structure(json: string)

  /** The parameter names the code mentions, and all others. */
  datatype Key =
    | SystemScenarioMode
    | TruthExperimentClass
    | EnableSoftUeObserver
    | EnableSoftUeProtocolLogging
    | TruthProtocolCsvRequired
    | TruthPressureProfile
    | TruthFlowCount
    | TruthPayloadBytes
    | RngRun
    | Other(name: string)

  type Params = map<Key, Value>

  datatype Matrix = Matrix(
    profiles: seq<string>, variants: seq<string>, workloads: seq<string>, tunings: seq<string>,
    timeoutBudgets: seq<string>, resourceTiers: seq<string>, flowCounts: seq<Value>, payloads: seq<Value>)

  datatype Config = Config(
    defaults: Params,
    profileOverrides: map<string, Params>, variantOverrides: map<string, Params>,
    workloadOverrides: map<string, Params>, tuningOverrides: map<string, Params>,
    timeoutOverrides: map<string, Params>, resourceOverrides: map<string, Params>,
    matrix: Matrix, repetitions: int, rngRunBase: int)

  datatype Combination = Combination(
    profile: string, variant: string, workload: string, tuning: string,
    timeoutBudget: string, resourceTier: string, flowCount: Value, payload: Value)

  datatype Run = Run(combination: Combination, repetition: nat, rngRun: int, params: Params)

  /** `int()` of a parameter that is not a number raises an exception. */
  datatype Result<T> = Ok(value: T) | NotAnInteger

  const REQUIRED_TRUTH_PARAMS: Params := map[
    TruthExperimentClass := Text("system_pressure"),
    EnableSoftUeObserver := Flag(true),
    EnableSoftUeProtocolLogging := Flag(true),
    TruthProtocolCsvRequired := Flag(true)]

  const SYSTEM_SCENARIO_MODES: set<Value> := {Text("soft_ue_truth"), Text("soft_ue_fabric")}

  // ---------- the dimensions ----------

  function OrDefault(names: seq<string>): seq<string> {
    if names == [] then ["default"] else names
  }

  function OrNull(values: seq<Value>): seq<Value> {
    if values == [] then [Null] else values
  }

  function KeepProfiles(profiles: seq<string>, filter: set<string>): seq<string> {
    if profiles == [] then []
    else (if profiles[0] in filter then [profiles[0]] else []) + KeepProfiles(profiles[1..], filter)
  }

  /** The dimensions that are multiplied out. An empty filter is no filter; profiles have no fallback. */
  function Effective(m: Matrix, filter: set<string>): Matrix {
    Matrix(if filter == {} then m.profiles else KeepProfiles(m.profiles, filter),
           OrDefault(m.variants), OrDefault(m.workloads), OrDefault(m.tunings),
           OrDefault(m.timeoutBudgets), OrDefault(m.resourceTiers), OrNull(m.flowCounts), OrNull(m.payloads))
  }

  function Sizes(m: Matrix): seq<nat> {
    [|m.profiles|, |m.variants|, |m.workloads|, |m.tunings|,
     |m.timeoutBudgets|, |m.resourceTiers|, |m.flowCounts|, |m.payloads|]
  }

  function CombinationAt(m: Matrix, digits: seq<nat>): Combination
    requires InRange(Sizes(m), digits)
  {
    assert forall j :: 0 <= j < 8 ==> digits[j] < Sizes(m)[j];
    Combination(m.profiles[digits[0]], m.variants[digits[1]], m.workloads[digits[2]], m.tunings[digits[3]],
                m.timeoutBudgets[digits[4]], m.resourceTiers[digits[5]], m.flowCounts[digits[6]], m.payloads[digits[7]])
  }

  // ---------- the parameters ----------

  function Lookup(overrides: map<string, Params>, name: string): Params {
    if name in overrides then overrides[name] else map[]
  }

  /** The name "default" stands for no overrides, even where overrides of that name exist. */
  function Named(overrides: map<string, Params>, name: string): Params {
    if name == "default" then map[] else Lookup(overrides, name)
  }

  /** The seven layers, from the weakest to the strongest. */
  function Layer(config: Config, c: Combination, i: nat): Params
    requires i < 7
  {
    if i == 0 then config.defaults
    else if i == 1 then Lookup(config.profileOverrides, c.profile)
    else if i == 2 then Named(config.variantOverrides, c.variant)
    else if i == 3 then Named(config.workloadOverrides, c.workload)
    else if i == 4 then Named(config.tuningOverrides, c.tuning)
    else if i == 5 then Named(config.timeoutOverrides, c.timeoutBudget)
    else Named(config.resourceOverrides, c.resourceTier)
  }

  /** The first `n` layers on top of each other. */
  function Merged(config: Config, c: Combination, n: nat): Params
    requires n <= 7
  {
    if n == 0 then map[] else Merged(config, c, n - 1) + Layer(config, c, n - 1)
  }

  function Set(params: Params, key: Key, value: Value): Params {
    if value == Null then params else params[key := value]
  }

  /** The merged layers, then what the run itself sets, then the required parameters. */
  function Finish(merged: Params, c: Combination, rngRun: int): Params {
    Set(Set(merged[TruthPressureProfile := Text(c.profile)], TruthFlowCount, c.flowCount), TruthPayloadBytes, c.payload)
      [RngRun := Number(rngRun)] + REQUIRED_TRUTH_PARAMS
  }

  function ParamsOf(config: Config, c: Combination, rngRun: int): Params {
    Finish(Merged(config, c, 7), c, rngRun)
  }

  /** The keys a run sets itself, whatever the layers say. */
  const RUN_KEYS: set<Key> := {
    TruthPressureProfile, TruthFlowCount, TruthPayloadBytes, RngRun,
    TruthExperimentClass, EnableSoftUeObserver, EnableSoftUeProtocolLogging, TruthProtocolCsvRequired}

  // ---------- the runs ----------

  function Repetitions(config: Config): nat {
    if config.repetitions > 0 then config.repetitions else 0
  }

  /** The dimensions, and the repetitions as the fastest one. */
  function RunSizes(config: Config, m: Matrix): seq<nat> {
    Sizes(m) + [Repetitions(config)]
  }

  ghost function RunAt(config: Config, m: Matrix, i: nat): Run
    requires i < Size(RunSizes(config, m))
  {
    SizePositive(RunSizes(config, m));
    DecodeInRange(RunSizes(config, m), i);
    var digits := Decode(RunSizes(config, m), i);
    FrontInRange(Sizes(m), Repetitions(config), digits);
    var c := CombinationAt(m, digits[..8]);
    Run(c, digits[8] + 1, config.rngRunBase + i, ParamsOf(config, c, config.rngRunBase + i))
  }

  lemma FrontInRange(sizes: seq<nat>, last: nat, digits: seq<nat>)
    requires InRange(sizes + [last], digits)
    ensures InRange(sizes, digits[..|sizes|]) && digits[|sizes|] < last
  {
    forall j | 0 <= j < |sizes|
      ensures digits[j] < sizes[j]
    {
      assert (sizes + [last])[j] == sizes[j];
    }
    assert (sizes + [last])[|sizes|] == last;
  }

  /** `int(params.get(key, 0))` succeeds; `parses` says which texts `int` accepts. */
  predicate HasInteger(params: Params, key: Key, parses: string -> bool) {
    key !in params ||
    match params[key]
    case Null => false
    case Text(text) => parses(text)
    case Number(_) => true
    case Fraction(_) => true
    case NotFinite => false
    case Flag(_) => true
    case Structure(_) => false
  }

  ghost predicate Countable(run: Run, parses: string -> bool) {
    HasInteger(run.params, TruthFlowCount, parses) && HasInteger(run.params, TruthPayloadBytes, parses)
  }

  /** Run `k * repetitions + r` is repetition `r + 1` of combination `k`. */
  lemma RunOfCombination(config: Config, m: Matrix, k: nat, r: nat)
    requires k < Size(Sizes(m)) && r < Repetitions(config)
    ensures k < |Product(Sizes(m))| && InRange(Sizes(m), Product(Sizes(m))[k])
    ensures var i := k * Repetitions(config) + r;
            var c := CombinationAt(m, Product(Sizes(m))[k]);
            && i < Size(RunSizes(config, m))
            && RunAt(config, m, i) == Run(c, r + 1, config.rngRunBase + i, ParamsOf(config, c, config.rngRunBase + i))
  {
    var reps, all := Repetitions(config), RunSizes(config, m);
    ProductAt(Sizes(m), k);
    DecodeInRange(Sizes(m), k);
    assert all[..|all| - 1] == Sizes(m);
    MulNext(k, reps);
    MulMonotone(k + 1, Size(Sizes(m)), reps);
    SizePositive(all);
    DecodeStep(all, k, r);
    assert (Decode(Sizes(m), k) + [r])[..8] == Decode(Sizes(m), k);
  }

  /** One named layer is applied, unless it is called "default". */
  method Apply(params: Params, overrides: map<string, Params>, name: string) returns (r: Params)
    ensures r == params + Named(overrides, name)
  {
    r := params;
    if name != "default" {
      r := r + Lookup(overrides, name);
    }
  }

  method MergeLayers(config: Config, c: Combination) returns (params: Params)
    ensures params == Merged(config, c, 7)
  {
    params := config.defaults;
    assert params == Merged(config, c, 1);
    params := params + Lookup(config.profileOverrides, c.profile);
    assert params == Merged(config, c, 2);
    params := Apply(params, config.variantOverrides, c.variant);
    assert params == Merged(config, c, 3);
    params := Apply(params, config.workloadOverrides, c.workload);
    assert params == Merged(config, c, 4);
    params := Apply(params, config.tuningOverrides, c.tuning);
    assert params == Merged(config, c, 5);
    params := Apply(params, config.timeoutOverrides, c.timeoutBudget);
    assert params == Merged(config, c, 6);
    params := Apply(params, config.resourceOverrides, c.resourceTier);
  }

  method BuildParams(config: Config, c: Combination, rngRun: int) returns (params: Params)
    ensures params == ParamsOf(config, c, rngRun)
  {
    var merged := MergeLayers(config, c);
    params := SetRunKeys(merged, c, rngRun);
  }

  method SetRunKeys(merged: Params, c: Combination, rngRun: int) returns (params: Params)
    ensures params == Finish(merged, c, rngRun)
  {
    params := merged[TruthPressureProfile := Text(c.profile)];
    if c.flowCount != Null {
      params := params[TruthFlowCount := c.flowCount];
    }
    if c.payload != Null {
      params := params[TruthPayloadBytes := c.payload];
    }
    params := params[RngRun := Number(rngRun)];
    params := params + REQUIRED_TRUTH_PARAMS;
  }

  ghost predicate AllCountable(config: Config, m: Matrix, parses: string -> bool) {
    forall i :: 0 <= i < Size(RunSizes(config, m)) ==> Countable(RunAt(config, m, i), parses)
  }

  /** What the outer loop asks of repetitions `0..reps` of a combination whose first run is run `start`. */
  ghost predicate RepetitionsOf(config: Config, c: Combination, runs: seq<Run>, start: int, reps: nat) {
    |runs| == reps && forall r :: 0 <= r < reps ==> IsRun(config, c, runs[r], r, start + r)
  }

  ghost predicate IsRun(config: Config, c: Combination, run: Run, r: nat, i: int) {
    run == Run(c, r + 1, config.rngRunBase + i, ParamsOf(config, c, config.rngRunBase + i))
  }

  /** The inner loop: the repetitions of one combination, starting with run number `start`. */
  method ExpandRepetitions(config: Config, parses: string -> bool, c: Combination, start: int)
    returns (r: Result<seq<Run>>, ghost failed: Run, ghost at: nat)
    ensures r.Ok? ==> RepetitionsOf(config, c, r.value, start, Repetitions(config))
    ensures r.Ok? ==> forall run :: run in r.value ==> Countable(run, parses)
    ensures r == NotAnInteger ==>
              at < Repetitions(config) && IsRun(config, c, failed, at, start + at) && !Countable(failed, parses)
  {
    var runs: seq<Run> := [];
    var rngRun := config.rngRunBase + start;
    var repetition := 1;
    while repetition <= config.repetitions
      invariant 1 <= repetition <= Repetitions(config) + 1 && rngRun == config.rngRunBase + start + repetition - 1
      invariant RepetitionsOf(config, c, runs, start, repetition - 1)
      invariant forall run :: run in runs ==> Countable(run, parses)
    {
      var params := BuildParams(config, c, rngRun);
      var run := Run(c, repetition, rngRun, params);
      if !HasInteger(params, TruthFlowCount, parses) || !HasInteger(params, TruthPayloadBytes, parses) {
        failed, at := run, repetition - 1;
        return NotAnInteger, failed, at;
      }
      runs := runs + [run];
      rngRun := rngRun + 1;
      repetition := repetition + 1;
    }
    failed, at := Run(c, 0, 0, map[]), 0;
    r := Ok(runs);
  }

  /** Combination `k` is one of the product. */
  ghost predicate HasCombination(m: Matrix, k: nat) {
    k < Size(Sizes(m)) && k < |Product(Sizes(m))| && InRange(Sizes(m), Product(Sizes(m))[k])
  }

  /** The first runs, all of them countable. */
  ghost predicate Expanded(config: Config, m: Matrix, parses: string -> bool, runs: seq<Run>) {
    && |runs| <= Size(RunSizes(config, m))
    && forall i :: 0 <= i < |runs| ==> runs[i] == RunAt(config, m, i) && Countable(runs[i], parses)
  }

  lemma CombinationExpanded(config: Config, m: Matrix, parses: string -> bool, k: nat, before: seq<Run>, more: seq<Run>)
    requires Expanded(config, m, parses, before) && |before| == k * Repetitions(config)
    requires HasCombination(m, k)
    requires RepetitionsOf(config, CombinationAt(m, Product(Sizes(m))[k]), more, |before|, Repetitions(config))
    requires forall run :: run in more ==> Countable(run, parses)
    ensures Expanded(config, m, parses, before + more)
  {
    var reps := Repetitions(config);
    SizeOfRuns(config, m);
    MulNext(k, reps);
    MulMonotone(k + 1, Size(Sizes(m)), reps);
    forall i | |before| <= i < |before| + reps
      ensures more[i - |before|] == RunAt(config, m, i) && Countable(more[i - |before|], parses)
    {
      RepetitionIsRun(config, m, k, more, i - |before|);
      assert more[i - |before|] in more;
    }
  }

  /** Repetition `at` of combination `k` is the run that counting puts there. */
  lemma RepetitionIsRun(config: Config, m: Matrix, k: nat, more: seq<Run>, at: nat)
    requires HasCombination(m, k)
    requires RepetitionsOf(config, CombinationAt(m, Product(Sizes(m))[k]), more, k * Repetitions(config), Repetitions(config))
    requires at < Repetitions(config)
    ensures k * Repetitions(config) + at < Size(RunSizes(config, m))
    ensures more[at] == RunAt(config, m, k * Repetitions(config) + at)
  {
    RunOfCombination(config, m, k, at);
    assert IsRun(config, CombinationAt(m, Product(Sizes(m))[k]), more[at], at, k * Repetitions(config) + at);
  }

  lemma CombinationFailed(config: Config, m: Matrix, parses: string -> bool, k: nat, run: Run, at: nat)
    requires HasCombination(m, k)
    requires at < Repetitions(config) && !Countable(run, parses)
    requires IsRun(config, CombinationAt(m, Product(Sizes(m))[k]), run, at, k * Repetitions(config) + at)
    ensures !AllCountable(config, m, parses)
  {
    RunOfCombination(config, m, k, at);
    assert run == RunAt(config, m, k * Repetitions(config) + at);
  }

  lemma ExpandedFully(config: Config, m: Matrix, parses: string -> bool, runs: seq<Run>)
    requires Expanded(config, m, parses, runs) && |runs| == Size(RunSizes(config, m))
    ensures AllCountable(config, m, parses) && IsExpansion(config, m, runs)
  {
  }

  lemma CombinationInRange(m: Matrix, k: nat)
    requires k < |Product(Sizes(m))|
    ensures k < Size(Sizes(m)) && InRange(Sizes(m), Product(Sizes(m))[k])
  {
    ProductLength(Sizes(m));
    ProductAt(Sizes(m), k);
    DecodeInRange(Sizes(m), k);
  }

  /** The runs of a matrix: as many as there are digit vectors, each where counting puts it. */
  ghost predicate IsExpansion(config: Config, m: Matrix, runs: seq<Run>) {
    |runs| == Size(RunSizes(config, m)) && forall i :: 0 <= i < |runs| ==> runs[i] == RunAt(config, m, i)
  }

  method ExpandMatrix(config: Config, filter: set<string>, parses: string -> bool) returns (r: Result<seq<Run>>)
    ensures r.Ok? <==> AllCountable(config, Effective(config.matrix, filter), parses)
    ensures r.Ok? ==> IsExpansion(config, Effective(config.matrix, filter), r.value)
  {
    r := ExpandDimensions(config, Effective(config.matrix, filter), parses);
  }

  /** The outer loop, over all combinations. */
  method ExpandDimensions(config: Config, m: Matrix, parses: string -> bool) returns (r: Result<seq<Run>>)
    ensures r.Ok? <==> AllCountable(config, m, parses)
    ensures r.Ok? ==> IsExpansion(config, m, r.value)
  {
    var combinations := Product(Sizes(m));
    var runs: seq<Run> := [];
    for k := 0 to |combinations|
      invariant |runs| == k * Repetitions(config) && Expanded(config, m, parses, runs)
    {
      CombinationInRange(m, k);
      MulNext(k, Repetitions(config));
      var more, failed, at := ExpandRepetitions(config, parses, CombinationAt(m, combinations[k]), |runs|);
      if more == NotAnInteger {
        CombinationFailed(config, m, parses, k, failed, at);
        return NotAnInteger;
      }
      CombinationExpanded(config, m, parses, k, runs, more.value);
      runs := runs + more.value;
    }
    ProductLength(Sizes(m));
    SizeOfRuns(config, m);
    ExpandedFully(config, m, parses, runs);
    return Ok(runs);
  }

  lemma SizeOfRuns(config: Config, m: Matrix)
    ensures Size(RunSizes(config, m)) == Size(Sizes(m)) * Repetitions(config)
  {
    var all := RunSizes(config, m);
    assert all[..|all| - 1] == Sizes(m);
  }

  // ---------- which runs there are ----------

  /** Counting: run `i` has the digits of `i`, so each choice of digits is made by exactly one run. */
  lemma EveryCombinationOnce(config: Config, m: Matrix, digits: seq<nat>, i: nat)
    requires InRange(RunSizes(config, m), digits) && i < Size(RunSizes(config, m))
    ensures Encode(RunSizes(config, m), digits) < Size(RunSizes(config, m))
    ensures forall j :: 0 <= j < 9 ==> RunSizes(config, m)[j] > 0
    ensures Decode(RunSizes(config, m), i) == digits <==> i == Encode(RunSizes(config, m), digits)
  {
    var sizes := RunSizes(config, m);
    EncodeBelow(sizes, digits);
    DecodeEncode(sizes, digits);
    EncodeDecode(sizes, i);
  }

  /** The run made by a choice of digits. */
  lemma RunOfDigits(config: Config, m: Matrix, digits: seq<nat>)
    requires InRange(RunSizes(config, m), digits)
    ensures Encode(RunSizes(config, m), digits) < Size(RunSizes(config, m)) && InRange(Sizes(m), digits[..8])
    ensures var run := RunAt(config, m, Encode(RunSizes(config, m), digits));
            run.combination == CombinationAt(m, digits[..8]) && run.repetition == digits[8] + 1
    ensures var run := RunAt(config, m, Encode(RunSizes(config, m), digits));
            && digits[0] < |m.profiles| && run.combination.profile == m.profiles[digits[0]]
            && digits[1] < |m.variants| && run.combination.variant == m.variants[digits[1]]
            && digits[2] < |m.workloads| && run.combination.workload == m.workloads[digits[2]]
            && digits[3] < |m.tunings| && run.combination.tuning == m.tunings[digits[3]]
            && digits[4] < |m.timeoutBudgets| && run.combination.timeoutBudget == m.timeoutBudgets[digits[4]]
            && digits[5] < |m.resourceTiers| && run.combination.resourceTier == m.resourceTiers[digits[5]]
            && digits[6] < |m.flowCounts| && run.combination.flowCount == m.flowCounts[digits[6]]
            && digits[7] < |m.payloads| && run.combination.payload == m.payloads[digits[7]]
  {
    EncodeBelow(RunSizes(config, m), digits);
    DecodeEncode(RunSizes(config, m), digits);
    FrontInRange(Sizes(m), Repetitions(config), digits);
  }

  /** A run's generator seed is its position, so no two runs share one. */
  lemma SeedsDistinct(config: Config, m: Matrix, i: nat, j: nat)
    requires i < Size(RunSizes(config, m)) && j < Size(RunSizes(config, m))
    ensures RunAt(config, m, i).params[RngRun] == Number(config.rngRunBase + i)
    ensures i != j ==> RunAt(config, m, i).params[RngRun] != RunAt(config, m, j).params[RngRun]
  {
    assert RngRun !in REQUIRED_TRUTH_PARAMS;
  }

  // ---------- what the parameters are ----------

  /** The value of a key in the last of the first `n` layers that has it. */
  ghost function LastDefined(config: Config, c: Combination, n: nat, key: Key): Option<Value>
    requires n <= 7
  {
    if n == 0 then None
    else if key in Layer(config, c, n - 1) then Some(Layer(config, c, n - 1)[key])
    else LastDefined(config, c, n - 1, key)
  }

  ghost predicate Holds(params: Params, key: Key, value: Option<Value>) {
    match value
    case None => key !in params
    case Some(v) => key in params && params[key] == v
  }

  lemma {:induction false} MergedHolds(config: Config, c: Combination, n: nat, key: Key)
    requires n <= 7
    ensures Holds(Merged(config, c, n), key, LastDefined(config, c, n, key))
  {
    if n > 0 {
      MergedHolds(config, c, n - 1, key);
    }
  }

  /** The run leaves the key to the layers: it does not set it, or the matrix has no value for it. */
  predicate LeftToLayers(c: Combination, key: Key) {
    || key !in RUN_KEYS
    || (key == TruthFlowCount && c.flowCount == Null)
    || (key == TruthPayloadBytes && c.payload == Null)
  }

  /** Every such key takes the value of the last layer that defines it. */
  lemma LastLayerWins(config: Config, c: Combination, rngRun: int, key: Key)
    requires LeftToLayers(c, key)
    ensures Holds(ParamsOf(config, c, rngRun), key, LastDefined(config, c, 7, key))
  {
    MergedHolds(config, c, 7, key);
    FinishElsewhere(Merged(config, c, 7), c, rngRun, key);
  }

  lemma FinishElsewhere(merged: Params, c: Combination, rngRun: int, key: Key)
    requires LeftToLayers(c, key)
    ensures var params := Finish(merged, c, rngRun);
            (key in params <==> key in merged) && (key in params ==> params[key] == merged[key])
  {
  }

  /** The layers by name, from the strongest to the weakest: the first that defines the key decides. */
  lemma LayersByName(config: Config, c: Combination, rngRun: int, key: Key)
    requires LeftToLayers(c, key)
    ensures var value :=
              if c.resourceTier != "default" && c.resourceTier in config.resourceOverrides
                 && key in config.resourceOverrides[c.resourceTier]
              then Some(config.resourceOverrides[c.resourceTier][key])
              else if c.timeoutBudget != "default" && c.timeoutBudget in config.timeoutOverrides
                      && key in config.timeoutOverrides[c.timeoutBudget]
              then Some(config.timeoutOverrides[c.timeoutBudget][key])
              else if c.tuning != "default" && c.tuning in config.tuningOverrides
                      && key in config.tuningOverrides[c.tuning]
              then Some(config.tuningOverrides[c.tuning][key])
              else if c.workload != "default" && c.workload in config.workloadOverrides
                      && key in config.workloadOverrides[c.workload]
              then Some(config.workloadOverrides[c.workload][key])
              else if c.variant != "default" && c.variant in config.variantOverrides
                      && key in config.variantOverrides[c.variant]
              then Some(config.variantOverrides[c.variant][key])
              else if c.profile in config.profileOverrides && key in config.profileOverrides[c.profile]
              then Some(config.profileOverrides[c.profile][key])
              else if key in config.defaults then Some(config.defaults[key])
              else None;
            Holds(ParamsOf(config, c, rngRun), key, value)
  {
    LastLayerWins(config, c, rngRun, key);
    LastOfSeven(config, c, key);
  }

  lemma LastOfSeven(config: Config, c: Combination, key: Key)
    ensures LastDefined(config, c, 7, key)
         == if key in Layer(config, c, 6) then Some(Layer(config, c, 6)[key])
            else if key in Layer(config, c, 5) then Some(Layer(config, c, 5)[key])
            else if key in Layer(config, c, 4) then Some(Layer(config, c, 4)[key])
            else if key in Layer(config, c, 3) then Some(Layer(config, c, 3)[key])
            else if key in Layer(config, c, 2) then Some(Layer(config, c, 2)[key])
            else if key in Layer(config, c, 1) then Some(Layer(config, c, 1)[key])
            else if key in Layer(config, c, 0) then Some(Layer(config, c, 0)[key])
            else None
  {
    LastDefinedNext(config, c, 7, key);
    LastDefinedNext(config, c, 6, key);
    LastDefinedNext(config, c, 5, key);
    LastDefinedNext(config, c, 4, key);
    LastDefinedNext(config, c, 3, key);
    LastDefinedNext(config, c, 2, key);
    LastDefinedNext(config, c, 1, key);
    assert LastDefined(config, c, 0, key) == None;
  }

  lemma LastDefinedNext(config: Config, c: Combination, n: nat, key: Key)
    requires 0 < n <= 7
    ensures LastDefined(config, c, n, key)
         == if key in Layer(config, c, n - 1) then Some(Layer(config, c, n - 1)[key]) else LastDefined(config, c, n - 1, key)
  {
  }

  /** What a run sets itself, and the required parameters of every run. */
  lemma RunKeysSet(config: Config, c: Combination, rngRun: int)
    ensures var params := ParamsOf(config, c, rngRun);
            && Holds(params, TruthPressureProfile, Some(Text(c.profile))) && Holds(params, RngRun, Some(Number(rngRun)))
            && (c.flowCount != Null ==> Holds(params, TruthFlowCount, Some(c.flowCount)))
            && (c.payload != Null ==> Holds(params, TruthPayloadBytes, Some(c.payload)))
            && Holds(params, TruthExperimentClass, Some(Text("system_pressure")))
            && Holds(params, EnableSoftUeObserver, Some(Flag(true)))
            && Holds(params, EnableSoftUeProtocolLogging, Some(Flag(true)))
            && Holds(params, TruthProtocolCsvRequired, Some(Flag(true)))
  {
  }

  /** Which values Python's `int` takes; a parameter that is absent counts as 0. */
  lemma HasIntegerIff(params: Params, key: Key, parses: string -> bool)
    ensures HasInteger(params, key, parses)
       <==> (key in params ==> var v := params[key];
                               v.Number? || v.Fraction? || v.Flag? || (v.Text? && parses(v.text)))
  {
  }

  /** The dimensions that are multiplied out: what the matrix lists, or one default each; of the profiles only
      those that pass the filter. */
  lemma EffectiveDimensions(m: Matrix, filter: set<string>)
    ensures var e := Effective(m, filter);
            && (filter == {} ==> e.profiles == m.profiles)
            && e.variants == (if m.variants != [] then m.variants else ["default"])
            && e.workloads == (if m.workloads != [] then m.workloads else ["default"])
            && e.tunings == (if m.tunings != [] then m.tunings else ["default"])
            && e.timeoutBudgets == (if m.timeoutBudgets != [] then m.timeoutBudgets else ["default"])
            && e.resourceTiers == (if m.resourceTiers != [] then m.resourceTiers else ["default"])
            && e.flowCounts == (if m.flowCounts != [] then m.flowCounts else [Null])
            && e.payloads == (if m.payloads != [] then m.payloads else [Null])
  {
  }

  /** Every run carries the required parameters, accepted configuration or not. */
  lemma RequiredParams(config: Config, c: Combination, rngRun: int, key: Key)
    requires key in REQUIRED_TRUTH_PARAMS
    ensures Holds(ParamsOf(config, c, rngRun), key, Some(REQUIRED_TRUTH_PARAMS[key]))
  {
  }

  // ---------- validation ----------

  function Get(params: Params, key: Key): Value {
    if key in params then params[key] else Null
  }

  predicate AcceptsLayer(layer: Params) {
    && (SystemScenarioMode in layer ==> layer[SystemScenarioMode] in SYSTEM_SCENARIO_MODES)
    && (TruthExperimentClass in layer ==> layer[TruthExperimentClass] == Text("system_pressure"))
  }

  predicate AcceptsGroup(overrides: map<string, Params>) {
    forall name :: name in overrides ==> AcceptsLayer(overrides[name])
  }

  predicate AllNamed(names: seq<string>, overrides: map<string, Params>) {
    forall i :: 0 <= i < |names| ==> names[i] in overrides
  }

  /** `validate_truth_benchmark_config` raises no error. A null default counts as an absent one. */
  predicate Accepts(config: Config) {
    var mode := Get(config.defaults, SystemScenarioMode);
    var class_ := Get(config.defaults, TruthExperimentClass);
    && (mode != Null ==> mode in SYSTEM_SCENARIO_MODES)
    && (class_ != Null ==> class_ == Text("system_pressure"))
    && AcceptsGroup(config.profileOverrides) && AcceptsGroup(config.variantOverrides)
    && AcceptsGroup(config.workloadOverrides) && AcceptsGroup(config.tuningOverrides)
    && AcceptsGroup(config.timeoutOverrides) && AcceptsGroup(config.resourceOverrides)
    && AllNamed(config.matrix.variants, config.variantOverrides)
    && AllNamed(config.matrix.workloads, config.workloadOverrides)
    && AllNamed(config.matrix.tunings, config.tuningOverrides)
    && AllNamed(config.matrix.timeoutBudgets, config.timeoutOverrides)
    && AllNamed(config.matrix.resourceTiers, config.resourceOverrides)
  }

  /** No override of the group sets the two restricted keys to anything else. */
  ghost predicate GroupAllowed(overrides: map<string, Params>) {
    forall name :: name in overrides ==>
      && (SystemScenarioMode in overrides[name] ==>
            overrides[name][SystemScenarioMode] == Text("soft_ue_truth")
            || overrides[name][SystemScenarioMode] == Text("soft_ue_fabric"))
      && (TruthExperimentClass in overrides[name] ==> overrides[name][TruthExperimentClass] == Text("system_pressure"))
  }

  ghost predicate Covered(names: seq<string>, overrides: map<string, Params>) {
    forall name :: name in names ==> name in overrides
  }

  /** Which configurations are accepted. */
  lemma AcceptsIff(config: Config)
    ensures Accepts(config)
       <==> && (SystemScenarioMode in config.defaults ==>
                  config.defaults[SystemScenarioMode] in {Null, Text("soft_ue_truth"), Text("soft_ue_fabric")})
            && (TruthExperimentClass in config.defaults ==>
                  config.defaults[TruthExperimentClass] in {Null, Text("system_pressure")})
            && GroupAllowed(config.profileOverrides) && GroupAllowed(config.variantOverrides)
            && GroupAllowed(config.workloadOverrides) && GroupAllowed(config.tuningOverrides)
            && GroupAllowed(config.timeoutOverrides) && GroupAllowed(config.resourceOverrides)
            && Covered(config.matrix.variants, config.variantOverrides)
            && Covered(config.matrix.workloads, config.workloadOverrides)
            && Covered(config.matrix.tunings, config.tuningOverrides)
            && Covered(config.matrix.timeoutBudgets, config.timeoutOverrides)
            && Covered(config.matrix.resourceTiers, config.resourceOverrides)
  {
    GroupIff(config.profileOverrides);
    GroupIff(config.variantOverrides);
    GroupIff(config.workloadOverrides);
    GroupIff(config.tuningOverrides);
    GroupIff(config.timeoutOverrides);
    GroupIff(config.resourceOverrides);
    CoveredIff(config.matrix.variants, config.variantOverrides);
    CoveredIff(config.matrix.workloads, config.workloadOverrides);
    CoveredIff(config.matrix.tunings, config.tuningOverrides);
    CoveredIff(config.matrix.timeoutBudgets, config.timeoutOverrides);
    CoveredIff(config.matrix.resourceTiers, config.resourceOverrides);
  }

  lemma GroupIff(overrides: map<string, Params>)
    ensures AcceptsGroup(overrides) <==> GroupAllowed(overrides)
  {
    assert forall v :: v in SYSTEM_SCENARIO_MODES <==> v == Text("soft_ue_truth") || v == Text("soft_ue_fabric");
  }

  lemma CoveredIff(names: seq<string>, overrides: map<string, Params>)
    ensures AllNamed(names, overrides) <==> Covered(names, overrides)
  {
    if Covered(names, overrides) {
      assert forall i :: 0 <= i < |names| ==> names[i] in names;
    }
  }

  // ---------- overrides and filters without effect ----------

  /** The overrides of a name are applied unless the name is "default" and there are some. */
  lemma NamedIff(overrides: map<string, Params>, name: string)
    ensures Named(overrides, name) == Lookup(overrides, name) <==> name != "default" || Lookup(overrides, name) == map[]
  {
  }

  /** The layers a combination asks for by name. */
  function AskedFor(config: Config, c: Combination, i: nat): Params
    requires i < 7
  {
    if i == 0 then config.defaults
    else if i == 1 then Lookup(config.profileOverrides, c.profile)
    else if i == 2 then Lookup(config.variantOverrides, c.variant)
    else if i == 3 then Lookup(config.workloadOverrides, c.workload)
    else if i == 4 then Lookup(config.tuningOverrides, c.tuning)
    else if i == 5 then Lookup(config.timeoutOverrides, c.timeoutBudget)
    else Lookup(config.resourceOverrides, c.resourceTier)
  }

  predicate Harmless(overrides: map<string, Params>, name: string) {
    name != "default" || Lookup(overrides, name) == map[]
  }

  /** A run gets all the layers it asks for exactly when none of the five names that may be "default" hides
      overrides. */
  lemma AskedForIff(config: Config, c: Combination)
    ensures (forall i :: 0 <= i < 7 ==> Layer(config, c, i) == AskedFor(config, c, i))
       <==> && Harmless(config.variantOverrides, c.variant) && Harmless(config.workloadOverrides, c.workload)
            && Harmless(config.tuningOverrides, c.tuning) && Harmless(config.timeoutOverrides, c.timeoutBudget)
            && Harmless(config.resourceOverrides, c.resourceTier)
  {
    NamedIff(config.variantOverrides, c.variant);
    NamedIff(config.workloadOverrides, c.workload);
    NamedIff(config.tuningOverrides, c.tuning);
    NamedIff(config.timeoutOverrides, c.timeoutBudget);
    NamedIff(config.resourceOverrides, c.resourceTier);
    assert Layer(config, c, 0) == AskedFor(config, c, 0) && Layer(config, c, 1) == AskedFor(config, c, 1);
    if forall i :: 0 <= i < 7 ==> Layer(config, c, i) == AskedFor(config, c, i) {
      assert Layer(config, c, 2) == AskedFor(config, c, 2) && Layer(config, c, 3) == AskedFor(config, c, 3);
      assert Layer(config, c, 4) == AskedFor(config, c, 4) && Layer(config, c, 5) == AskedFor(config, c, 5);
      assert Layer(config, c, 6) == AskedFor(config, c, 6);
    }
  }

  /** An accepted configuration whose matrix lists a variant "default" with an override that its run does not get. */
  lemma DefaultOverrideIgnored(key: Key, value: Value) returns (config: Config, run: Run)
    requires key.Other?
    ensures Accepts(config) && run.combination.variant in config.matrix.variants
    ensures Size(RunSizes(config, Effective(config.matrix, {}))) == 1
    ensures RunAt(config, Effective(config.matrix, {}), 0) == run
    ensures AskedFor(config, run.combination, 2) == map[key := value] && key !in run.params
  {
    var matrix := Matrix(["mixed"], ["default"], [], [], [], [], [], []);
    config := Config(map[], map[], map["default" := map[key := value]], map[], map[], map[], map[], matrix, 1, 1);
    var c := Combination("mixed", "default", "default", "default", "default", "default", Null, Null);
    run := Run(c, 1, 1, ParamsOf(config, c, 1));
    LastLayerWins(config, c, 1, key);
    forall i | 0 <= i < 7
      ensures Layer(config, c, i) == map[]
    {
    }
    NothingMerged(config, c, 7, key);
    OneRun(config, c);
  }

  lemma OneRun(config: Config, c: Combination)
    requires config.matrix == Matrix(["mixed"], ["default"], [], [], [], [], [], [])
    requires config.repetitions == 1 && config.rngRunBase == 1
    requires c == Combination("mixed", "default", "default", "default", "default", "default", Null, Null)
    ensures Size(RunSizes(config, Effective(config.matrix, {}))) == 1
    ensures RunAt(config, Effective(config.matrix, {}), 0) == Run(c, 1, 1, ParamsOf(config, c, 1))
  {
    var m := Effective(config.matrix, {});
    var sizes := RunSizes(config, m);
    assert forall j :: 0 <= j < 9 ==> sizes[j] == 1;
    UnitSizes(sizes);
    DecodeInRange(sizes, 0);
    var digits := Decode(sizes, 0);
    assert forall j :: 0 <= j < 9 ==> digits[j] < sizes[j];
    FrontInRange(Sizes(m), Repetitions(config), digits);
    FirstCombination(m, digits[..8], c);
  }

  lemma FirstCombination(m: Matrix, digits: seq<nat>, c: Combination)
    requires InRange(Sizes(m), digits) && forall j :: 0 <= j < 8 ==> digits[j] == 0
    requires m == Matrix(["mixed"], ["default"], ["default"], ["default"], ["default"], ["default"], [Null], [Null])
    requires c == Combination("mixed", "default", "default", "default", "default", "default", Null, Null)
    ensures CombinationAt(m, digits) == c
  {
  }

  lemma {:induction false} UnitSizes(sizes: seq<nat>)
    requires forall j :: 0 <= j < |sizes| ==> sizes[j] == 1
    ensures Size(sizes) == 1
  {
    if sizes != [] {
      UnitSizes(sizes[..|sizes| - 1]);
    }
  }

  lemma {:induction false} NothingMerged(config: Config, c: Combination, n: nat, key: Key)
    requires n <= 7 && forall i :: 0 <= i < n ==> key !in Layer(config, c, i)
    ensures LastDefined(config, c, n, key) == None
  {
    if n > 0 {
      NothingMerged(config, c, n - 1, key);
    }
  }

  lemma {:induction false} KeptProfiles(profiles: seq<string>, filter: set<string>)
    ensures |KeepProfiles(profiles, filter)| <= |profiles|
    ensures forall p :: p in KeepProfiles(profiles, filter) <==> p in profiles && p in filter
    ensures KeepProfiles(profiles, filter) == profiles <==> forall p :: p in profiles ==> p in filter
  {
    if profiles != [] {
      KeptProfiles(profiles[1..], filter);
      assert profiles == [profiles[0]] + profiles[1..];
    }
  }

  /** A filter has no effect exactly when it is empty or names every profile. */
  lemma FilterWithoutEffectIff(m: Matrix, filter: set<string>)
    ensures Effective(m, filter) == Effective(m, {}) <==> filter == {} || forall p :: p in m.profiles ==> p in filter
    ensures filter != {} ==> forall p :: p in Effective(m, filter).profiles <==> p in m.profiles && p in filter
  {
    KeptProfiles(m.profiles, filter);
  }

  // ---------- the scenario mode ----------

  lemma {:induction false} LastDefinedAt(config: Config, c: Combination, n: nat, key: Key) returns (i: nat)
    requires n <= 7 && LastDefined(config, c, n, key).Some?
    ensures i < n && key in Layer(config, c, i) && LastDefined(config, c, n, key) == Some(Layer(config, c, i)[key])
    ensures forall j :: i < j < n ==> key !in Layer(config, c, j)
  {
    if key in Layer(config, c, n - 1) {
      i := n - 1;
    } else {
      i := LastDefinedAt(config, c, n - 1, key);
    }
  }

  lemma {:induction false} NowhereDefined(config: Config, c: Combination, n: nat, key: Key)
    requires n <= 7 && LastDefined(config, c, n, key) == None
    ensures forall i :: 0 <= i < n ==> key !in Layer(config, c, i)
  {
    if n > 0 {
      NowhereDefined(config, c, n - 1, key);
    }
  }

  /** In a run of an accepted configuration the scenario mode is an allowed one, unless no layer above the
      defaults sets it and the defaults leave it out or null. */
  lemma AcceptedScenario(config: Config, c: Combination, rngRun: int)
    requires Accepts(config)
    ensures var mode := Get(ParamsOf(config, c, rngRun), SystemScenarioMode);
            mode in SYSTEM_SCENARIO_MODES
            || (mode == Null && forall i :: 0 < i < 7 ==> SystemScenarioMode !in Layer(config, c, i))
  {
    LastLayerWins(config, c, rngRun, SystemScenarioMode);
    if LastDefined(config, c, 7, SystemScenarioMode).Some? {
      var i := LastDefinedAt(config, c, 7, SystemScenarioMode);
      assert i > 0 ==> AcceptsLayer(Layer(config, c, i));
    } else {
      NowhereDefined(config, c, 7, SystemScenarioMode);
    }
  }
}
