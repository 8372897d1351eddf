/** Gate propagation over model portfolios in scripts/run_composition_scaling_suite.py: the
    worst registered contribution per axis, with absorbing blocks. */
module PortfolioGates {
  import opened FiniteSets
  import opened Results
  import opened ModelSubsets

  type Gate = string
  type Axis = string

  const GATE_AXES: seq<Axis> := [
    "model_license", "data_rights", "interface_disclosure", "evidence_authority", "robustness", "fairness"]

  const GATE_SEVERITY: seq<Gate> := [
    "NOT_ASSESSED",
    "DECLARED_REQUIRES_INDEPENDENT_REVIEW",
    "LEGAL_REVIEW_REQUIRED",
    "MANUAL_REVIEW_REQUIRED",
    "APPROVED_RECOLLECTION_REQUIRED",
    "RESTRICTED_AUDITOR_ONLY",
    "BLOCKED_NONCOMMERCIAL_RESEARCH_ONLY",
    "BLOCKED_AND_REDESIGN_REQUIRED"]

  datatype GateError = NoGates | UnknownGate | UnregisteredSubset | UnknownLevel | UnknownAxis

  /** A known gate among the values that no value exceeds in severity. */
  ghost predicate IsWorst(severity: seq<Gate>, values: seq<Gate>, worst: Gate) {
    && worst in values
    && forall v :: v in values ==> v in severity && Rank(severity, v) <= Rank(severity, worst)
  }

  /** `max` by rank, the first of equals. */
  function MostSevere(severity: seq<Gate>, values: seq<Gate>): (worst: Gate)
    requires values != []
    ensures worst in values && forall v :: v in values ==> Rank(severity, v) <= Rank(severity, worst)
  {
    var last := values[|values| - 1];
    if |values| == 1 then last
    else
      var init := values[..|values| - 1];
      assert values == init + [last];
      var worst := MostSevere(severity, init);
      if Rank(severity, last) > Rank(severity, worst) then last else worst
  }

  /** `worst_gate`, for any severity order. */
  function WorstGate(severity: seq<Gate>, values: seq<Gate>): (r: Result<Gate, GateError>)
    ensures r == Err(NoGates) <==> values == []
    ensures r == Err(UnknownGate) <==> exists v :: v in values && v !in severity
    ensures r.Err? ==> r.error in {NoGates, UnknownGate}
    ensures r.Ok? ==> IsWorst(severity, values, r.value)
  {
    if values == [] then Err(NoGates)
    else if exists v :: v in values && v !in severity then Err(UnknownGate)
    else Ok(MostSevere(severity, values))
  }

  /** Order and repetition of the contributions are irrelevant: only the set of gates matters. */
  lemma WorstDependsOnSet(severity: seq<Gate>, a: seq<Gate>, b: seq<Gate>, s: Gate, t: Gate)
    requires IsWorst(severity, a, s) && IsWorst(severity, b, t)
    requires forall v :: v in a <==> v in b
    ensures s == t
  {
    RankIsInjective(severity, s, t);
  }

  function Join(severity: seq<Gate>, a: Gate, b: Gate): Gate {
    if Rank(severity, a) < Rank(severity, b) then b else a
  }

  /** Pooling contributions joins their worst gates. */
  lemma WorstOfConcatenation(severity: seq<Gate>, a: seq<Gate>, b: seq<Gate>, s: Gate, t: Gate)
    requires IsWorst(severity, a, s) && IsWorst(severity, b, t)
    ensures IsWorst(severity, a + b, Join(severity, s, t))
  {
  }

  // ---- Gate vectors ----------------------------------------------------------------

  datatype Tables = Tables(
    severity: seq<Gate>,
    axes: seq<Axis>,
    models: map<string, map<Axis, Gate>>,
    levels: map<string, Gate>,
    disclosure: Axis,
    floor: Gate)

  /** What the registered tables satisfy: every gate and axis they name is known. */
  ghost predicate AreRegistered(t: Tables, keys: seq<string>) {
    && t.floor in t.severity && t.disclosure in t.axes
    && (forall k :: k in keys ==> k in t.models)
    && (forall k, axis :: k in t.models && axis in t.models[k] ==> axis in t.axes && t.models[k][axis] in t.severity)
    && (forall level :: level in t.levels ==> t.levels[level] in t.severity)
  }

  /** The gates collected for one axis. */
  function Contributions(t: Tables, subset: seq<string>, axis: Axis): seq<Gate> {
    if subset == [] then [t.floor]
    else
      var before, key := subset[..|subset| - 1], subset[|subset| - 1];
      Contributions(t, before, axis)
      + if key in t.models && axis in t.models[key] then [t.models[key][axis]] else []
  }

  function Collected(t: Tables, subset: seq<string>, level: string, axis: Axis): seq<Gate> {
    Contributions(t, subset, axis) + if level in t.levels && axis == t.disclosure then [t.levels[level]] else []
  }

  /** What the vector of a subset at an interface level says. */
  ghost predicate IsGateVector(t: Tables, subset: seq<string>, level: string, vector: map<Axis, Gate>) {
    && (forall axis :: axis in vector <==> axis in t.axes)
    && forall axis :: axis in vector ==> IsWorst(t.severity, Collected(t, subset, level, axis), vector[axis])
  }

  lemma ContributionsAreKnown(t: Tables, keys: seq<string>, subset: seq<string>, level: string, axis: Axis)
    requires AreRegistered(t, keys)
    ensures forall v :: v in Collected(t, subset, level, axis) ==> v in t.severity
    ensures Collected(t, subset, level, axis) != []
  {
    hide Contributions;
    forall v | v in Contributions(t, subset, axis) ensures v in t.severity {
      ContributionSource(t, subset, axis, v);
      if v != t.floor {
        var k :| k in subset && k in t.models && axis in t.models[k] && t.models[k][axis] == v;
        assert axis in t.axes;
      }
    }
    ContributionSource(t, subset, axis, t.floor);
  }

  /** A contribution of the subset is the floor or comes from one of its models. */
  lemma {:induction false} ContributionSource(t: Tables, subset: seq<string>, axis: Axis, v: Gate)
    ensures v in Contributions(t, subset, axis)
       <==> v == t.floor || exists k :: k in subset && k in t.models && axis in t.models[k] && t.models[k][axis] == v
  {
    if subset != [] {
      var before, key := subset[..|subset| - 1], subset[|subset| - 1];
      ContributionSource(t, before, axis, v);
      assert subset == before + [key];
    }
  }

  lemma CollectedSource(t: Tables, subset: seq<string>, level: string, axis: Axis, v: Gate)
    ensures v in Collected(t, subset, level, axis)
       <==> v == t.floor || (level in t.levels && axis == t.disclosure && v == t.levels[level])
            || exists k :: k in subset && k in t.models && axis in t.models[k] && t.models[k][axis] == v
  {
    hide Contributions;
    ContributionSource(t, subset, axis, v);
  }

  lemma ContributionsNext(t: Tables, subset: seq<string>, i: nat, axis: Axis)
    requires i < |subset|
    ensures Contributions(t, subset[..i + 1], axis)
         == Contributions(t, subset[..i], axis)
            + if subset[i] in t.models && axis in t.models[subset[i]] then [t.models[subset[i]][axis]] else []
  {
    assert subset[..i + 1][..i] == subset[..i];
  }

  ghost predicate Collects(t: Tables, subset: seq<string>, values: map<Axis, seq<Gate>>) {
    && (forall axis :: axis in values <==> axis in t.axes)
    && forall axis :: axis in values ==> values[axis] == Contributions(t, subset, axis)
  }

  /** The two accumulation loops of `gate_vector`. */
  method CollectContributions(t: Tables, subset: seq<string>) returns (values: map<Axis, seq<Gate>>)
    requires forall k :: k in subset ==> k in t.models
    ensures Collects(t, subset, values)
  {
    hide Contributions;
    values := map axis | axis in t.axes :: [t.floor];
    forall axis ensures Contributions(t, subset[..0], axis) == [t.floor] {
      NoContributions(t, subset[..0], axis);
    }
    for i := 0 to |subset|
      invariant Collects(t, subset[..i], values)
    {
      assert subset[i] in subset;
      var contributed := t.models[subset[i]];
      forall axis ensures Contributions(t, subset[..i + 1], axis)
        == Contributions(t, subset[..i], axis) + if axis in contributed then [contributed[axis]] else []
      {
        ContributionsNext(t, subset, i, axis);
      }
      values := map axis | axis in values :: values[axis] + if axis in contributed then [contributed[axis]] else [];
    }
    assert subset[..|subset|] == subset;
  }

  lemma NoContributions(t: Tables, subset: seq<string>, axis: Axis)
    requires subset == []
    ensures Contributions(t, subset, axis) == [t.floor]
  {
  }

  /** `gate_vector`, for any registered tables and any subset of the registered models. */
  method GateVector(t: Tables, keys: seq<string>, subset: seq<string>, level: string)
    returns (r: Result<map<Axis, Gate>, GateError>)
    requires AreRegistered(t, keys)
    ensures r == Err(UnregisteredSubset) <==> subset == [] || !IsSelection(subset, keys)
    ensures r == Err(UnknownLevel) <==> subset != [] && IsSelection(subset, keys) && level !in t.levels
    ensures r.Err? ==> r.error in {UnregisteredSubset, UnknownLevel}
    ensures r.Ok? ==> IsGateVector(t, subset, level, r.value)
  {
    hide Contributions, IsSelection, IsWorst;
    var registered := SubsetsUpTo(keys, |keys|);
    SubsetsAreTheSelections(keys, |keys|, subset);
    SelectionSize(subset, keys);
    if subset !in registered {
      return Err(UnregisteredSubset);
    }
    if level !in t.levels {
      return Err(UnknownLevel);
    }
    SelectionMembers(t, keys, subset);
    var values := CollectContributions(t, subset);
    values := values[t.disclosure := values[t.disclosure] + [t.levels[level]]];
    forall axis | axis in values ensures values[axis] == Collected(t, subset, level, axis) {
      PlusNothing(Contributions(t, subset, axis));
    }
    var vector := WorstPerAxis(t, keys, subset, level, values);
    return Ok(vector);
  }

  lemma PlusNothing(s: seq<Gate>)
    ensures s + [] == s
  {
  }

  lemma SelectionSize(subset: seq<string>, keys: seq<string>)
    ensures IsSelection(subset, keys) ==> |subset| <= |keys|
  {
    if IsSelection(subset, keys) {
      ShorterSelection(subset, keys);
    }
  }

  lemma SelectionMembers(t: Tables, keys: seq<string>, subset: seq<string>)
    requires AreRegistered(t, keys) && IsSelection(subset, keys)
    ensures forall k :: k in subset ==> k in t.models
  {
    ShorterSelection(subset, keys);
  }

  /** `{axis: worst_gate(axis_values) ...}`. */
  method WorstPerAxis(t: Tables, keys: seq<string>, subset: seq<string>, level: string, values: map<Axis, seq<Gate>>)
    returns (vector: map<Axis, Gate>)
    requires AreRegistered(t, keys) && forall axis :: axis in values <==> axis in t.axes
    requires forall axis :: axis in values ==> values[axis] == Collected(t, subset, level, axis)
    ensures IsGateVector(t, subset, level, vector)
  {
    hide Collected, AreRegistered, IsWorst;
    vector := map[];
    for i := 0 to |t.axes|
      invariant forall axis :: axis in vector <==> axis in t.axes[..i]
      invariant forall axis :: axis in vector ==> IsWorst(t.severity, Collected(t, subset, level, axis), vector[axis])
    {
      var axis := t.axes[i];
      assert axis in t.axes;
      ContributionsAreKnown(t, keys, subset, level, axis);
      var worst := WorstGate(t.severity, values[axis]);
      vector := vector[axis := worst.value];
      assert t.axes[..i + 1] == t.axes[..i] + [axis];
    }
    assert t.axes[..|t.axes|] == t.axes;
  }

  // ---- What propagation guarantees -------------------------------------------------

  /** A larger portfolio is at least as severe on every axis. */
  lemma LargerPortfolioIsNoBetter(t: Tables, small: seq<string>, large: seq<string>, level: string,
                                  u: map<Axis, Gate>, v: map<Axis, Gate>, axis: Axis)
    requires IsGateVector(t, small, level, u) && IsGateVector(t, large, level, v)
    requires (forall k :: k in small ==> k in large) && axis in t.axes
    ensures Rank(t.severity, u[axis]) <= Rank(t.severity, v[axis])
  {
    hide Contributions, Collected, Rank;
    CollectedSource(t, small, level, axis, u[axis]);
    CollectedSource(t, large, level, axis, u[axis]);
  }

  /** The vector of a pooled portfolio is the axis-wise join. */
  lemma PooledPortfolioJoins(t: Tables, a: seq<string>, b: seq<string>, pooled: seq<string>, level: string,
                             u: map<Axis, Gate>, v: map<Axis, Gate>, w: map<Axis, Gate>, axis: Axis)
    requires IsGateVector(t, a, level, u) && IsGateVector(t, b, level, v) && IsGateVector(t, pooled, level, w)
    requires (forall k :: k in pooled <==> k in a || k in b) && axis in t.axes
    ensures w[axis] == Join(t.severity, u[axis], v[axis])
  {
    hide Contributions, Collected, Rank;
    var left, right := Collected(t, a, level, axis), Collected(t, b, level, axis);
    var all := Collected(t, pooled, level, axis);
    WorstOfConcatenation(t.severity, left, right, u[axis], v[axis]);
    forall g ensures g in all <==> g in left + right {
      CollectedSource(t, a, level, axis, g);
      CollectedSource(t, b, level, axis, g);
      CollectedSource(t, pooled, level, axis, g);
    }
    WorstDependsOnSet(t.severity, all, left + right, w[axis], Join(t.severity, u[axis], v[axis]));
  }

  /** The gates from rank `from` on. */
  function FromRank(severity: seq<Gate>, from: nat): set<Gate>
    requires from <= |severity|
  {
    set g | g in severity[from..]
  }

  const ABSORBING_GATES: set<Gate> := {"BLOCKED_NONCOMMERCIAL_RESEARCH_ONLY", "BLOCKED_AND_REDESIGN_REQUIRED"}

  lemma AbsorbingGatesAreTheMostSevere()
    ensures |GATE_SEVERITY| == 8 && ABSORBING_GATES == FromRank(GATE_SEVERITY, 6)
  {
    assert GATE_SEVERITY[6..] == ["BLOCKED_NONCOMMERCIAL_RESEARCH_ONLY", "BLOCKED_AND_REDESIGN_REQUIRED"];
  }

  lemma InFromRank(severity: seq<Gate>, from: nat, g: Gate)
    requires from <= |severity| && Distinct(severity) && g in severity
    ensures g in FromRank(severity, from) <==> from <= Rank(severity, g)
  {
    var r := Rank(severity, g);
    if from <= r {
      assert severity[from..][r - from] == g;
    }
    if g in FromRank(severity, from) {
      var i :| 0 <= i < |severity[from..]| && severity[from..][i] == g;
      assert severity[from + i] == g && severity[r] == g;
    }
  }

  /** A blocked axis stays blocked whatever is added to the portfolio. */
  lemma BlocksAbsorb(t: Tables, small: seq<string>, large: seq<string>, level: string,
                     u: map<Axis, Gate>, v: map<Axis, Gate>, axis: Axis, from: nat)
    requires IsGateVector(t, small, level, u) && IsGateVector(t, large, level, v)
    requires (forall k :: k in small ==> k in large) && axis in t.axes
    requires from <= |t.severity| && Distinct(t.severity) && u[axis] in FromRank(t.severity, from)
    ensures v[axis] in FromRank(t.severity, from)
  {
    hide Collected, Rank, FromRank;
    LargerPortfolioIsNoBetter(t, small, large, level, u, v, axis);
    InFromRank(t.severity, from, u[axis]);
    InFromRank(t.severity, from, v[axis]);
  }

  // ---- The registered suite --------------------------------------------------------

  function ModelGates(license: Gate): map<Axis, Gate> {
    map["model_license" := license, "data_rights" := "MANUAL_REVIEW_REQUIRED",
        "evidence_authority" := "APPROVED_RECOLLECTION_REQUIRED"]
  }

  const MODEL_GATES: map<string, map<Axis, Gate>> := map[
    "distilgpt2" := ModelGates("DECLARED_REQUIRES_INDEPENDENT_REVIEW"),
    "meta-opt-125m" := ModelGates("BLOCKED_NONCOMMERCIAL_RESEARCH_ONLY"),
    "pythia-160m" := ModelGates("MANUAL_REVIEW_REQUIRED"),
    "alexnet" := ModelGates("DECLARED_REQUIRES_INDEPENDENT_REVIEW"),
    "densenet121" := ModelGates("DECLARED_REQUIRES_INDEPENDENT_REVIEW")]

  const LEVEL_GATES: map<string, Gate> := map[
    "R0" := "MANUAL_REVIEW_REQUIRED", "R1" := "MANUAL_REVIEW_REQUIRED", "R2" := "MANUAL_REVIEW_REQUIRED",
    "R3" := "RESTRICTED_AUDITOR_ONLY", "R4" := "RESTRICTED_AUDITOR_ONLY", "R5" := "BLOCKED_AND_REDESIGN_REQUIRED"]

  const SUITE: Tables :=
    Tables(GATE_SEVERITY, GATE_AXES, MODEL_GATES, LEVEL_GATES, "interface_disclosure", "NOT_ASSESSED")

  lemma KnownGates()
    ensures "NOT_ASSESSED" in GATE_SEVERITY && "DECLARED_REQUIRES_INDEPENDENT_REVIEW" in GATE_SEVERITY
    ensures "MANUAL_REVIEW_REQUIRED" in GATE_SEVERITY && "APPROVED_RECOLLECTION_REQUIRED" in GATE_SEVERITY
    ensures "RESTRICTED_AUDITOR_ONLY" in GATE_SEVERITY && "BLOCKED_NONCOMMERCIAL_RESEARCH_ONLY" in GATE_SEVERITY
    ensures "BLOCKED_AND_REDESIGN_REQUIRED" in GATE_SEVERITY
  {
  }

  lemma KnownAxes()
    ensures "model_license" in GATE_AXES && "data_rights" in GATE_AXES
    ensures "interface_disclosure" in GATE_AXES && "evidence_authority" in GATE_AXES
  {
  }

  lemma ModelGatesAreKnown(license: Gate)
    requires license in GATE_SEVERITY
    ensures forall axis :: axis in ModelGates(license) ==>
      axis in GATE_AXES && ModelGates(license)[axis] in GATE_SEVERITY
  {
    KnownGates();
    KnownAxes();
    hide GATE_SEVERITY, GATE_AXES;
  }

  lemma ModelsAreKnown(k: string, axis: Axis)
    requires k in MODEL_GATES && axis in MODEL_GATES[k]
    ensures axis in GATE_AXES && MODEL_GATES[k][axis] in GATE_SEVERITY
  {
    KnownGates();
    hide GATE_SEVERITY, GATE_AXES, ModelGates;
    ModelGatesAreKnown("DECLARED_REQUIRES_INDEPENDENT_REVIEW");
    ModelGatesAreKnown("BLOCKED_NONCOMMERCIAL_RESEARCH_ONLY");
    ModelGatesAreKnown("MANUAL_REVIEW_REQUIRED");
  }

  lemma LevelsAreKnown(level: string)
    requires level in LEVEL_GATES
    ensures LEVEL_GATES[level] in GATE_SEVERITY
  {
    KnownGates();
    hide GATE_SEVERITY;
  }

  lemma ModelsAreListed(k: string)
    requires k in MODEL_KEYS
    ensures k in MODEL_GATES
  {
    hide ModelGates;
  }

  lemma SuiteTablesAreRegistered()
    ensures AreRegistered(SUITE, MODEL_KEYS)
  {
    KnownGates();
    KnownAxes();
    hide GATE_SEVERITY, GATE_AXES, MODEL_GATES, LEVEL_GATES, MODEL_KEYS;
    forall k, axis | k in MODEL_GATES && axis in MODEL_GATES[k]
      ensures axis in GATE_AXES && MODEL_GATES[k][axis] in GATE_SEVERITY
    {
      ModelsAreKnown(k, axis);
    }
    forall level | level in LEVEL_GATES ensures LEVEL_GATES[level] in GATE_SEVERITY {
      LevelsAreKnown(level);
    }
    forall k | k in MODEL_KEYS ensures k in MODEL_GATES {
      ModelsAreListed(k);
    }
  }

  lemma SeverityLengths()
    ensures |GATE_SEVERITY| == 8
    ensures |GATE_SEVERITY[0]| == 12 && |GATE_SEVERITY[1]| == 36 && |GATE_SEVERITY[2]| == 21 && |GATE_SEVERITY[3]| == 22
    ensures |GATE_SEVERITY[4]| == 30 && |GATE_SEVERITY[5]| == 23 && |GATE_SEVERITY[6]| == 35 && |GATE_SEVERITY[7]| == 29
  {
  }

  /** No two gates share their number of letters, so the severity order repeats none. */
  lemma SeverityIsDistinct()
    ensures Distinct(GATE_SEVERITY)
  {
    SeverityLengths();
    hide GATE_SEVERITY;
  }

  /** In the registered suite a blocked axis of a portfolio blocks it in every larger one. */
  lemma SuiteBlocksAbsorb(small: seq<string>, large: seq<string>, level: string, u: map<Axis, Gate>, v: map<Axis, Gate>,
                          axis: Axis)
    requires IsGateVector(SUITE, small, level, u) && IsGateVector(SUITE, large, level, v)
    requires (forall k :: k in small ==> k in large) && axis in GATE_AXES && u[axis] in ABSORBING_GATES
    ensures v[axis] in ABSORBING_GATES
  {
    AbsorbingGatesAreTheMostSevere();
    SeverityIsDistinct();
    hide GATE_SEVERITY, GATE_AXES, MODEL_GATES, LEVEL_GATES, ABSORBING_GATES, IsGateVector;
    BlocksAbsorb(SUITE, small, large, level, u, v, axis, 6);
  }
}
