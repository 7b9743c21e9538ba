/**
 Which baseline the startup gate of scripts/measure-startup.ts may trust, and what it then
 enforces. Files, git and the measured timings are inputs.
 */
module StartupGate {
  import opened Wrappers
  import opened StartupStats

  datatype Environment = Environment(runner: string, bun: string, arch: string)

  /** A field of a stored entry: a finite number or anything else. */
  datatype Field = Finite(value: real) | NotFinite

  /** A stored entry is JSON text: an object with some fields, or null. */
  datatype RawEntry = NullEntry | RawEntry(p50: Field, p90: Field, mean: Field, min: Field, max: Field, samples: Field)

  datatype Named = Named(name: string, entry: RawEntry)

  /** A stored baseline, with its entries in property order. */
  datatype RawBaseline = RawBaseline(environment: Environment, scenarios: seq<Named>)

  /** `environmentMatches` */
  predicate EnvironmentMatches(a: Environment, b: Environment) {
    a.runner == b.runner && a.bun == b.bun && a.arch == b.arch
  }

  // --- validateBaselineSchema ---

  function Lookup(entries: seq<Named>, name: string): Option<RawEntry> {
    if entries == [] then None
    else if entries[0].name == name then Some(entries[0].entry)
    else Lookup(entries[1..], name)
  }

  /** The fields that are checked, in order. */
  function Fields(e: RawEntry): seq<(string, Field)>
    requires e.RawEntry?
  {
    [("p50", e.p50), ("p90", e.p90), ("mean", e.mean), ("min", e.min), ("max", e.max), ("samples", e.samples)]
  }

  predicate AllFinite(e: RawEntry) {
    && e.RawEntry? && e.p50.Finite? && e.p90.Finite? && e.mean.Finite?
    && e.min.Finite? && e.max.Finite? && e.samples.Finite?
  }

  lemma FieldsAreFinite(e: RawEntry)
    requires e.RawEntry?
    ensures AllFinite(e) <==> forall f | f in Fields(e) :: f.1.Finite?
  {
    var fs := Fields(e);
    assert fs[0].1 == e.p50 && fs[1].1 == e.p90 && fs[2].1 == e.mean;
    assert fs[3].1 == e.min && fs[4].1 == e.max && fs[5].1 == e.samples;
    assert forall i | 0 <= i < 6 :: fs[i] in fs;
  }

  /** The field of this name is there and is not a finite number. */
  ghost predicate BadField(e: RawEntry, field: string) {
    && e.RawEntry?
    && (|| (field == "p50" && e.p50.NotFinite?) || (field == "p90" && e.p90.NotFinite?)
        || (field == "mean" && e.mean.NotFinite?) || (field == "min" && e.min.NotFinite?)
        || (field == "max" && e.max.NotFinite?) || (field == "samples" && e.samples.NotFinite?))
  }

  lemma BadFieldIff(e: RawEntry, field: string)
    requires e.RawEntry?
    ensures BadField(e, field) <==> (field, NotFinite) in Fields(e)
  {
    var fs := Fields(e);
    assert forall i | 0 <= i < 6 :: fs[i] in fs;
    assert fs[0] == ("p50", e.p50) && fs[1] == ("p90", e.p90) && fs[2] == ("mean", e.mean);
    assert fs[3] == ("min", e.min) && fs[4] == ("max", e.max) && fs[5] == ("samples", e.samples);
  }

  ghost predicate HasBadField(b: RawBaseline, name: string, field: string) {
    Lookup(b.scenarios, name).Some? && BadField(Lookup(b.scenarios, name).value, field)
  }

  datatype SchemaError = Missing(name: string) | NotFiniteField(name: string, field: string) | Unknown(name: string)

  /** Reading a field of null throws. */
  datatype Validation = Crash | Errors(errors: seq<SchemaError>)

  function BadFields(name: string, fields: seq<(string, Field)>): (r: seq<SchemaError>)
    ensures r == [] <==> forall f | f in fields :: f.1.Finite?
    ensures forall e | e in r :: e.NotFiniteField? && e.name == name
    ensures forall field :: NotFiniteField(name, field) in r <==> (field, NotFinite) in fields
  {
    if fields == [] then []
    else (if fields[0].1.Finite? then [] else [NotFiniteField(name, fields[0].0)]) + BadFields(name, fields[1..])
  }

  /** An expected entry is null. */
  ghost predicate HasNull(b: RawBaseline, scenarios: seq<Scenario>) {
    exists s :: s in scenarios && Lookup(b.scenarios, s.name) == Some(NullEntry)
  }

  ghost predicate HasEntry(b: RawBaseline, name: string) {
    Lookup(b.scenarios, name).Some? && AllFinite(Lookup(b.scenarios, name).value)
  }

  ghost predicate Expected(scenarios: seq<Scenario>, name: string) {
    exists s :: s in scenarios && s.name == name
  }

  ghost predicate Stored(entries: seq<Named>, name: string) {
    exists e :: e in entries && e.name == name
  }

  /** The loop over the expected names. */
  method CheckExpected(b: RawBaseline, scenarios: seq<Scenario>) returns (r: Validation)
    ensures r.Crash? <==> HasNull(b, scenarios)
    ensures r.Errors? ==> (r.errors == [] <==> forall s | s in scenarios :: HasEntry(b, s.name))
    ensures r.Errors? ==> forall n :: Missing(n) in r.errors <==> Expected(scenarios, n) && Lookup(b.scenarios, n).None?
    ensures r.Errors? ==> forall e | e in r.errors :: !e.Unknown?
    ensures r.Errors? ==>
              forall n, f :: NotFiniteField(n, f) in r.errors <==> Expected(scenarios, n) && HasBadField(b, n, f)
  {
    var errors := [];
    var i := 0;
    while i < |scenarios|
      invariant 0 <= i <= |scenarios|
      invariant !HasNull(b, scenarios[..i])
      invariant errors == [] <==> forall s | s in scenarios[..i] :: HasEntry(b, s.name)
      invariant forall n :: Missing(n) in errors <==> Expected(scenarios[..i], n) && Lookup(b.scenarios, n).None?
      invariant forall e | e in errors :: !e.Unknown?
      invariant forall n, f :: NotFiniteField(n, f) in errors <==> Expected(scenarios[..i], n) && HasBadField(b, n, f)
    {
      var name := scenarios[i].name;
      var entry := Lookup(b.scenarios, name);
      assert scenarios[..i + 1] == scenarios[..i] + [scenarios[i]];
      assert scenarios[i] in scenarios;
      if entry.None? {
        errors := errors + [Missing(name)];
      } else if entry.value.NullEntry? {
        return Crash;
      } else {
        FieldsAreFinite(entry.value);
        forall f
          ensures BadField(entry.value, f) <==> (f, NotFinite) in Fields(entry.value)
        {
          BadFieldIff(entry.value, f);
        }
        errors := errors + BadFields(name, Fields(entry.value));
      }
      i := i + 1;
    }
    assert scenarios[..i] == scenarios;
    r := Errors(errors);
  }

  /** The loop over the stored names. */
  method CheckUnknown(b: RawBaseline, scenarios: seq<Scenario>) returns (errors: seq<SchemaError>)
    ensures forall n :: Unknown(n) in errors <==> Stored(b.scenarios, n) && !Expected(scenarios, n)
    ensures forall e | e in errors :: e.Unknown?
  {
    errors := [];
    var i := 0;
    while i < |b.scenarios|
      invariant 0 <= i <= |b.scenarios|
      invariant forall n :: Unknown(n) in errors <==> Stored(b.scenarios[..i], n) && !Expected(scenarios, n)
      invariant forall e | e in errors :: e.Unknown?
    {
      assert b.scenarios[..i + 1] == b.scenarios[..i] + [b.scenarios[i]];
      var name := b.scenarios[i].name;
      if forall s | s in scenarios :: s.name != name {
        errors := errors + [Unknown(name)];
      }
      i := i + 1;
    }
    assert b.scenarios[..i] == b.scenarios;
  }

  /** Every scenario has an entry of finite numbers and there is no other entry. */
  ghost predicate Complete(b: RawBaseline, scenarios: seq<Scenario>) {
    && (forall s | s in scenarios :: HasEntry(b, s.name))
    && (forall e | e in b.scenarios :: Expected(scenarios, e.name))
  }

  /** `validateBaselineSchema`: no error exactly for a complete baseline. */
  method ValidateBaselineSchema(b: RawBaseline, scenarios: seq<Scenario>) returns (r: Validation)
    ensures r.Crash? <==> HasNull(b, scenarios)
    ensures r.Errors? ==> (r.errors == [] <==> Complete(b, scenarios))
    ensures r.Errors? ==> forall n :: Missing(n) in r.errors <==> Expected(scenarios, n) && Lookup(b.scenarios, n).None?
    ensures r.Errors? ==> forall n :: Unknown(n) in r.errors <==> Stored(b.scenarios, n) && !Expected(scenarios, n)
    ensures r.Errors? ==>
              forall n, f :: NotFiniteField(n, f) in r.errors <==> Expected(scenarios, n) && HasBadField(b, n, f)
  {
    r := CheckExpected(b, scenarios);
    if r.Errors? {
      var unknown := CheckUnknown(b, scenarios);
      assert unknown != [] ==> unknown[0] in unknown && unknown[0] == Unknown(unknown[0].name);
      assert forall e | e in b.scenarios :: Stored(b.scenarios, e.name);
      r := Errors(r.errors + unknown);
    }
  }

  // --- Choosing the baseline ---

  /** The flags that matter to the choice. */
  datatype Flags =
    Flags(local: bool, updateBaseline: bool, baselineRef: bool, allowMigration: bool, bootstrapCompletion: bool)

  datatype Load = Absent | Loaded(baseline: RawBaseline) | Throws

  /** The outside world: the baseline at the trusted ref, whether main has one (None when
      git fails), and the baseline in the working tree. */
  datatype World = World(ref: Load, tipHasBaseline: Option<bool>, workingTree: Load)

  datatype Source = FromRef | FromWorkingTree

  /** The process ends, or measurement starts with this baseline. */
  datatype Decision = Exit | Measure(existing: Option<RawBaseline>, source: Source, bootstrap: bool)

  predicate GateMode(flags: Flags) {
    !flags.local && !flags.updateBaseline
  }

  ghost predicate Trusted(b: RawBaseline, scenarios: seq<Scenario>, env: Environment) {
    Complete(b, scenarios) && !HasNull(b, scenarios) && b.environment == env
  }

  /** The trusted ref has no baseline and main has none either, or is just getting it. */
  predicate Bootstrap(flags: Flags, world: World) {
    && flags.baselineRef && world.ref.Absent?
    && world.tipHasBaseline.Some? && (!world.tipHasBaseline.value || flags.bootstrapCompletion)
  }

  /** The ref has a baseline that does not fit, and a migration was allowed. */
  ghost predicate Migration(flags: Flags, world: World, scenarios: seq<Scenario>, env: Environment) {
    && flags.baselineRef && flags.allowMigration
    && world.ref.Loaded? && !HasNull(world.ref.baseline, scenarios) && !Trusted(world.ref.baseline, scenarios, env)
  }

  function InTree(load: Load): Option<RawBaseline> {
    if load.Loaded? then Some(load.baseline) else None
  }

  /** The baseline selection of `main`, up to the first measurement. In each mode it goes on
      exactly in these cases, and in gate mode never with a baseline that is not trusted. */
  method SelectBaseline(flags: Flags, world: World, scenarios: seq<Scenario>, env: Environment) returns (d: Decision)
    ensures GateMode(flags) && d.Measure? ==>
              d.bootstrap || (d.existing.Some? && Trusted(d.existing.value, scenarios, env))
    ensures d.Measure? ==> (d.bootstrap <==> Bootstrap(flags, world)) && (d.bootstrap ==> d.existing.None?)
    ensures d.Measure? && flags.baselineRef && d.existing.Some? && d.source.FromWorkingTree? ==>
              Migration(flags, world, scenarios, env)
    ensures d.Measure? && !d.bootstrap ==>
              if flags.baselineRef && world.ref.Loaded? && Trusted(world.ref.baseline, scenarios, env)
              then d.existing == Some(world.ref.baseline) && d.source.FromRef?
              else d.existing == InTree(world.workingTree) && d.source.FromWorkingTree?
    ensures !GateMode(flags) ==> (d.Measure? <==>
              || Bootstrap(flags, world)
              || (flags.baselineRef && world.ref.Loaded? && Trusted(world.ref.baseline, scenarios, env))
              || ((!flags.baselineRef || Migration(flags, world, scenarios, env)) && !world.workingTree.Throws?))
    ensures GateMode(flags) ==> (d.Measure? <==>
              || Bootstrap(flags, world)
              || (flags.baselineRef && world.ref.Loaded? && Trusted(world.ref.baseline, scenarios, env))
              || ((!flags.baselineRef || Migration(flags, world, scenarios, env))
                  && world.workingTree.Loaded? && Trusted(world.workingTree.baseline, scenarios, env)))
  {
    var existing: Option<RawBaseline> := None;
    var source := FromWorkingTree;
    var bootstrapMode := false;
    if flags.baselineRef {
      if world.ref.Throws? {
        return Exit;
      }
      if world.ref.Loaded? {
        var validation := ValidateBaselineSchema(world.ref.baseline, scenarios);
        if validation.Crash? {
          return Exit;
        }
        var envMatches := EnvironmentMatches(env, world.ref.baseline.environment);
        if validation.errors == [] && envMatches {
          existing, source := Some(world.ref.baseline), FromRef;
        } else if flags.allowMigration {
          if world.workingTree.Throws? {
            return Exit;
          }
          existing := if world.workingTree.Loaded? then Some(world.workingTree.baseline) else None;
        } else {
          return Exit;
        }
      } else {
        if world.tipHasBaseline.None? {
          return Exit;
        }
        if world.tipHasBaseline.value && !flags.bootstrapCompletion {
          return Exit;
        }
        bootstrapMode := true;
      }
    } else {
      if world.workingTree.Throws? {
        return Exit;
      }
      existing := if world.workingTree.Loaded? then Some(world.workingTree.baseline) else None;
    }
    if GateMode(flags) {
      if !bootstrapMode && existing.None? {
        return Exit;
      }
      if existing.Some? {
        var validation := ValidateBaselineSchema(existing.value, scenarios);
        if validation.Crash? || validation.errors != [] {
          return Exit;
        }
        if !EnvironmentMatches(env, existing.value.environment) {
          return Exit;
        }
      }
    }
    d := Measure(existing, source, bootstrapMode);
  }

  // --- The gate ---

  /** The entry the rules of a scenario are compared with. */
  function BaselineFor(existing: Option<RawBaseline>, local: bool, name: string): Option<Baseline> {
    if local || existing.None? then None
    else
      match Lookup(existing.value.scenarios, name)
      case Some(RawEntry(Finite(p50), Finite(p90), _, _, _, _)) => Some(Baseline(p50, p90))
      case _ => None
  }

  datatype Measured = Measured(scenario: Scenario, samples: seq<real>)

  ghost predicate GateFails(results: seq<Measured>, existing: Option<RawBaseline>, local: bool) {
    exists m, rule :: m in results && m.samples != []
      && Violates(rule, StatsOf(m.samples), BaselineFor(existing, local, m.scenario.name), m.scenario)
  }

  /** `v` is a violation by one of the scenarios. */
  ghost predicate Reported(v: Violation, results: seq<Measured>, existing: Option<RawBaseline>, local: bool) {
    exists m :: m in results && m.samples != [] && BreaksRule(v, m, existing, local)
  }

  ghost predicate BreaksRule(v: Violation, m: Measured, existing: Option<RawBaseline>, local: bool)
    requires m.samples != []
  {
    IsViolation(v, m.scenario.name, StatsOf(m.samples), BaselineFor(existing, local, m.scenario.name), m.scenario)
  }

  lemma GateFailsIff(results: seq<Measured>, existing: Option<RawBaseline>, local: bool)
    ensures GateFails(results, existing, local) <==> exists v :: Reported(v, results, existing, local)
  {
    if GateFails(results, existing, local) {
      var m, rule :| m in results && m.samples != []
        && Violates(rule, StatsOf(m.samples), BaselineFor(existing, local, m.scenario.name), m.scenario);
      var baseline := BaselineFor(existing, local, m.scenario.name);
      ViolatesIff(rule, StatsOf(m.samples), baseline, m.scenario, m.scenario.name);
      var v :| IsViolation(v, m.scenario.name, StatsOf(m.samples), baseline, m.scenario) && v.rule == rule;
      assert BreaksRule(v, m, existing, local) && Reported(v, results, existing, local);
    }
    if v :| Reported(v, results, existing, local) {
      var m :| m in results && m.samples != [] && BreaksRule(v, m, existing, local);
      var baseline := BaselineFor(existing, local, m.scenario.name);
      ViolatesIff(v.rule, StatsOf(m.samples), baseline, m.scenario, m.scenario.name);
      assert Violates(v.rule, StatsOf(m.samples), baseline, m.scenario);
    }
  }

  lemma ReportedMore(v: Violation, results: seq<Measured>, m: Measured, existing: Option<RawBaseline>, local: bool)
    requires m.samples != []
    ensures Reported(v, results + [m], existing, local) <==>
            Reported(v, results, existing, local) || BreaksRule(v, m, existing, local)
  {
    if Reported(v, results, existing, local) {
      var n :| n in results && n.samples != [] && BreaksRule(v, n, existing, local);
      assert n in results + [m];
    }
    if BreaksRule(v, m, existing, local) {
      assert m in results + [m];
    }
  }

  /** The gate of `main`: it collects the violations of every scenario, and so reports some
      exactly when it fails. */
  method RunGate(results: seq<Measured>, existing: Option<RawBaseline>, local: bool)
    returns (violations: seq<Violation>)
    requires forall m | m in results :: m.samples != []
    ensures forall v :: v in violations <==> Reported(v, results, existing, local)
    ensures violations != [] <==> GateFails(results, existing, local)
  {
    violations := [];
    var i := 0;
    while i < |results|
      invariant 0 <= i <= |results|
      invariant forall v :: v in violations <==> Reported(v, results[..i], existing, local)
    {
      var m := results[i];
      assert results[..i + 1] == results[..i] + [m];
      assert m in results;
      var baseline := BaselineFor(existing, local, m.scenario.name);
      var more := CompareAgainst(m.scenario.name, StatsOf(m.samples), baseline, m.scenario);
      forall v
        ensures Reported(v, results[..i + 1], existing, local) <==>
                Reported(v, results[..i], existing, local) || v in more
      {
        ReportedMore(v, results[..i], m, existing, local);
        assert v in more <==> BreaksRule(v, m, existing, local);
      }
      violations := violations + more;
      i := i + 1;
    }
    assert results[..i] == results;
    GateFailsIff(results, existing, local);
    assert violations != [] ==> violations[0] in violations;
  }

  /** With a trusted baseline every scenario is held to the drift rules. */
  lemma TrustedBaselineCoversEveryScenario(b: RawBaseline, scenarios: seq<Scenario>, env: Environment, s: Scenario)
    requires Trusted(b, scenarios, env) && s in scenarios
    ensures BaselineFor(Some(b), false, s.name).Some? && BaselineFor(Some(b), true, s.name) == None
    ensures exists k :: 0 <= k < |b.scenarios| && b.scenarios[k].name == s.name && AllFinite(b.scenarios[k].entry)
              && BaselineFor(Some(b), false, s.name) ==
                 Some(Baseline(b.scenarios[k].entry.p50.value, b.scenarios[k].entry.p90.value))
  {
    assert HasEntry(b, s.name);
    var k := LookupIs(b.scenarios, s.name);
    assert b.scenarios[k].name == s.name;
  }

  /** What is found is the first entry of the name. */
  lemma {:induction false} LookupIs(entries: seq<Named>, name: string) returns (k: nat)
    ensures k <= |entries| && forall i | 0 <= i < k :: entries[i].name != name
    ensures if k == |entries| then Lookup(entries, name) == None
            else entries[k].name == name && Lookup(entries, name) == Some(entries[k].entry)
  {
    k := 0;
    if entries != [] && entries[0].name != name {
      var n := LookupIs(entries[1..], name);
      k := n + 1;
      assert forall i | 0 < i < k :: entries[i] == entries[1..][i - 1];
    }
  }

  ghost predicate Slower(fast: seq<Measured>, slow: seq<Measured>) {
    && |fast| == |slow|
    && forall i | 0 <= i < |fast| ::
         && fast[i].scenario == slow[i].scenario && |fast[i].samples| == |slow[i].samples|
         && forall k | 0 <= k < |fast[i].samples| :: fast[i].samples[k] <= slow[i].samples[k]
  }

  /** Slowing a run down never turns a failing gate into a passing one. */
  lemma SlowerRunStillFails(fast: seq<Measured>, slow: seq<Measured>, existing: Option<RawBaseline>, local: bool)
    requires Slower(fast, slow) && GateFails(fast, existing, local)
    ensures GateFails(slow, existing, local)
  {
    var m, rule :| m in fast && m.samples != []
      && Violates(rule, StatsOf(m.samples), BaselineFor(existing, local, m.scenario.name), m.scenario);
    var i :| 0 <= i < |fast| && fast[i] == m;
    SlowerRunViolatesMore(m.samples, slow[i].samples, rule, BaselineFor(existing, local, m.scenario.name), m.scenario);
    assert slow[i] in slow;
  }

  // --- A baseline made of a run ---

  function EntryOf(stats: Stats): RawEntry {
    RawEntry(Finite(stats.p50), Finite(stats.p90), Finite(stats.mean), Finite(stats.min), Finite(stats.max),
             Finite(stats.samples as real))
  }

  /** `--update-baseline`: the entries of a run's results. */
  function NewBaseline(env: Environment, results: seq<Measured>): RawBaseline
    requires forall i | 0 <= i < |results| :: results[i].samples != []
  {
    RawBaseline(env, seq(|results|, i requires 0 <= i < |results| =>
                           Named(results[i].scenario.name, EntryOf(StatsOf(results[i].samples)))))
  }

  ghost predicate DistinctNames(results: seq<Measured>) {
    forall i, j | 0 <= i < j < |results| :: results[i].scenario.name != results[j].scenario.name
  }

  lemma {:induction false} LookupAt(entries: seq<Named>, k: nat)
    requires k < |entries| && forall i | 0 <= i < k :: entries[i].name != entries[k].name
    ensures Lookup(entries, entries[k].name) == Some(entries[k].entry)
  {
    if k > 0 {
      assert entries[1..][k - 1] == entries[k];
      LookupAt(entries[1..], k - 1);
    }
  }

  lemma NewBaselineEntry(env: Environment, results: seq<Measured>, k: nat)
    requires forall i | 0 <= i < |results| :: results[i].samples != []
    requires DistinctNames(results) && k < |results|
    ensures Lookup(NewBaseline(env, results).scenarios, results[k].scenario.name) ==
            Some(EntryOf(StatsOf(results[k].samples)))
  {
    LookupAt(NewBaseline(env, results).scenarios, k);
  }

  lemma NewBaselineIsComplete(env: Environment, results: seq<Measured>, scenarios: seq<Scenario>)
    requires forall i | 0 <= i < |results| :: results[i].samples != []
    requires DistinctNames(results)
    requires |scenarios| == |results| && forall i | 0 <= i < |results| :: scenarios[i] == results[i].scenario
    ensures Complete(NewBaseline(env, results), scenarios)
  {
    var b := NewBaseline(env, results);
    forall s | s in scenarios
      ensures HasEntry(b, s.name)
    {
      var k :| 0 <= k < |scenarios| && scenarios[k] == s;
      NewBaselineEntry(env, results, k);
    }
    forall e | e in b.scenarios
      ensures Expected(scenarios, e.name)
    {
      var k :| 0 <= k < |b.scenarios| && b.scenarios[k] == e;
      assert scenarios[k] in scenarios;
    }
  }

  /** A baseline written from a run is accepted by the next run in the same environment. */
  lemma FreshBaselineIsTrusted(env: Environment, results: seq<Measured>, scenarios: seq<Scenario>)
    requires forall i | 0 <= i < |results| :: results[i].samples != []
    requires DistinctNames(results)
    requires |scenarios| == |results| && forall i | 0 <= i < |results| :: scenarios[i] == results[i].scenario
    ensures Trusted(NewBaseline(env, results), scenarios, env)
  {
    NewBaselineIsComplete(env, results, scenarios);
    CompleteHasNoNull(NewBaseline(env, results), scenarios);
  }

  lemma CompleteHasNoNull(b: RawBaseline, scenarios: seq<Scenario>)
    requires Complete(b, scenarios)
    ensures !HasNull(b, scenarios)
  {
    assert forall s | s in scenarios :: HasEntry(b, s.name);
  }

  /** The run a baseline was written from does not drift from it, when slack is not negative. */
  lemma NoDriftFromOwnBaseline(env: Environment, results: seq<Measured>, i: nat, rule: Rule)
    requires forall k | 0 <= k < |results| :: results[k].samples != []
    requires DistinctNames(results) && i < |results| && results[i].scenario.absSlopMs >= 0.0
    requires Violates(rule, StatsOf(results[i].samples),
                      BaselineFor(Some(NewBaseline(env, results)), false, results[i].scenario.name),
                      results[i].scenario)
    ensures rule.HardCeiling?
  {
    NewBaselineEntry(env, results, i);
    if !rule.HardCeiling? {
      NoDriftAgainstItself(StatsOf(results[i].samples), results[i].scenario, rule);
    }
  }
}
