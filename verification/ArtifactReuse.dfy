/**
 Reuse of analysis artifacts by complete logical key, over every sequence of manifests.

 Planning looks each entry's key up in an inventory of verified artifacts; materialising a plan takes
 reused artifacts from the store and adds the analysed ones. Analysis is an arbitrary function of the
 content digest and the semantics of an entry.
 */
module ArtifactReuse {
  import opened Results
  import opened Bytes
  import opened Manifests

  datatype Semantics = Semantics(analyzer: nat, configuration: nat, schema: nat, canonicalization: nat)

  datatype Key = Key(digest: nat, analyzer: nat, configuration: nat, schema: nat, canonicalization: nat)

  datatype Action = Reuse | Analyze

  datatype Planned = Planned(path: Octets, key: Key, action: Action)

  datatype Plan = Plan(entries: seq<Planned>, reused: nat, analysed: nat)

  type Store = map<Key, nat>

  function KeyOf(e: Entry, s: Semantics): Key
  {
    Key(e.digest, s.analyzer, s.configuration, s.schema, s.canonicalization)
  }

  /* What analysis gives for a content digest under given semantics. */
  type Analysis = (nat, Semantics) -> nat

  /* Analysis as the consumer of a plan runs it: everything it needs is in the key. */
  function AnalyzeKey(facts: Analysis, key: Key): nat
  {
    facts(key.digest, Semantics(key.analyzer, key.configuration, key.schema, key.canonicalization))
  }

  /* A key keeps the digest and all of the semantics. */
  lemma KeyKeeps(facts: Analysis, e: Entry, s: Semantics, d: Entry, t: Semantics)
    ensures AnalyzeKey(facts, KeyOf(e, s)) == facts(e.digest, s)
    ensures KeyOf(e, s) == KeyOf(d, t) <==> e.digest == d.digest && s == t
  {
  }

  // Planning.

  function PlanEntry(e: Entry, inventory: set<Key>, semantics: Entry -> Semantics): Planned
  {
    var key := KeyOf(e, semantics(e));
    Planned(e.path, key, if key in inventory then Reuse else Analyze)
  }

  function PlanEntries(manifest: seq<Entry>, inventory: set<Key>, semantics: Entry -> Semantics): (r: seq<Planned>)
    ensures |r| == |manifest| && forall i :: 0 <= i < |r| ==> r[i] == PlanEntry(manifest[i], inventory, semantics)
  {
    seq(|manifest|, i requires 0 <= i < |manifest| => PlanEntry(manifest[i], inventory, semantics))
  }

  function CountReused(entries: seq<Planned>): nat
  {
    if entries == [] then 0
    else CountReused(entries[..|entries| - 1]) + if entries[|entries| - 1].action.Reuse? then 1 else 0
  }

  lemma {:induction false} ReusedBound(entries: seq<Planned>)
    ensures CountReused(entries) <= |entries|
  {
    if entries != [] {
      ReusedBound(entries[..|entries| - 1]);
    }
  }

  function ReusedAt(entries: seq<Planned>): set<nat>
  {
    set i | 0 <= i < |entries| && entries[i].action == Reuse
  }

  /* The number of entries to reuse. */
  lemma {:induction false} ReusedCounted(entries: seq<Planned>)
    ensures CountReused(entries) == |ReusedAt(entries)|
  {
    if entries == [] {
      assert ReusedAt(entries) == {};
    } else {
      var n := |entries| - 1;
      ReusedCounted(entries[..n]);
      if entries[n].action == Reuse {
        assert ReusedAt(entries) == ReusedAt(entries[..n]) + {n};
      } else {
        assert ReusedAt(entries) == ReusedAt(entries[..n]);
      }
    }
  }

  /* The count of analysed entries is a subtraction that cannot underflow. */
  method PlanArtifactReuse(manifest: seq<Entry>, inventory: set<Key>, semantics: Entry -> Semantics) returns (plan: Plan)
    ensures plan.entries == PlanEntries(manifest, inventory, semantics)
    ensures plan.reused == |ReusedAt(plan.entries)| && plan.reused + plan.analysed == |manifest|
    ensures forall i :: 0 <= i < |manifest| ==>
      var key := plan.entries[i].key;
      && plan.entries[i].path == manifest[i].path && key.digest == manifest[i].digest
      && Semantics(key.analyzer, key.configuration, key.schema, key.canonicalization) == semantics(manifest[i])
      && (plan.entries[i].action == Reuse <==> key in inventory)
  {
    var entries, reused := [], 0;
    for i := 0 to |manifest|
      invariant entries == PlanEntries(manifest, inventory, semantics)[..i]
      invariant reused == CountReused(entries)
    {
      var e := manifest[i];
      var key := KeyOf(e, semantics(e));
      var action := Analyze;
      if key in inventory {
        reused := reused + 1;
        action := Reuse;
      }
      ghost var before := entries;
      entries := entries + [Planned(e.path, key, action)];
      assert entries[..|entries| - 1] == before;
    }
    ReusedBound(entries);
    ReusedCounted(entries);
    return Plan(entries, reused, |manifest| - reused);
  }

  // Materialising.

  datatype Built = Built(output: map<Octets, nat>, store: Store)

  /* The error is the source's expectation that a reused key has a verified artifact. */
  datatype ReuseError = NotAvailable

  function MaterializeEntry(b: Built, e: Planned, facts: Analysis): Result<Built, ReuseError>
  {
    match e.action
    case Reuse => if e.key in b.store then Ok(b.(output := b.output[e.path := b.store[e.key]])) else Err(NotAvailable)
    case Analyze => Ok(Built(b.output[e.path := AnalyzeKey(facts, e.key)], b.store[e.key := AnalyzeKey(facts, e.key)]))
  }

  function Materialize(entries: seq<Planned>, store: Store, facts: Analysis): Result<Built, ReuseError>
  {
    if entries == [] then Ok(Built(map[], store))
    else
      var n := |entries| - 1;
      match Materialize(entries[..n], store, facts)
      case Err(e) => Err(e)
      case Ok(b) => MaterializeEntry(b, entries[n], facts)
  }

  class ArtifactStore {
    var available: Store

    constructor ()
      ensures available == map[]
    {
      available := map[];
    }

    method MaterializePlan(entries: seq<Planned>, facts: Analysis) returns (r: Result<map<Octets, nat>, ReuseError>)
      modifies this
      ensures match Materialize(entries, old(available), facts)
        case Ok(b) => r == Ok(b.output) && available == b.store
        case Err(e) => r == Err(e)
    {
      var output: map<Octets, nat> := map[];
      for i := 0 to |entries|
        invariant Materialize(entries[..i], old(available), facts) == Ok(Built(output, available))
      {
        assert entries[..i + 1][..i] == entries[..i];
        var e := entries[i];
        match e.action
        case Reuse =>
          if e.key !in available {
            FailureStays(entries, i + 1, old(available), facts);
            return Err(NotAvailable);
          }
          output := output[e.path := available[e.key]];
        case Analyze =>
          var generated := AnalyzeKey(facts, e.key);
          available := available[e.key := generated];
          output := output[e.path := generated];
      }
      assert entries[..|entries|] == entries;
      return Ok(output);
    }
  }

  lemma {:induction false} FailureStays(entries: seq<Planned>, i: nat, store: Store, facts: Analysis)
    requires i <= |entries| && Materialize(entries[..i], store, facts) == Err(NotAvailable)
    ensures Materialize(entries, store, facts) == Err(NotAvailable)
    decreases |entries|
  {
    if i == |entries| {
      assert entries[..i] == entries;
    } else {
      var n := |entries| - 1;
      assert entries[..n][..i] == entries[..i];
      FailureStays(entries[..n], i, store, facts);
    }
  }

  // One round.

  /* Every stored artifact is what analysis of its key gives. */
  ghost predicate Verified(store: Store, facts: Analysis)
  {
    forall key :: key in store ==> store[key] == AnalyzeKey(facts, key)
  }

  function Keys(manifest: seq<Entry>, semantics: Entry -> Semantics): set<Key>
  {
    set e | e in manifest :: KeyOf(e, semantics(e))
  }

  /* Analysis of every entry from scratch. */
  function Clean(manifest: seq<Entry>, semantics: Entry -> Semantics, facts: Analysis): map<Octets, nat>
  {
    if manifest == [] then map[]
    else
      var n := |manifest| - 1;
      Clean(manifest[..n], semantics, facts)[manifest[n].path := facts(manifest[n].digest, semantics(manifest[n]))]
  }

  lemma PlanPrefix(manifest: seq<Entry>, e: Entry, inventory: set<Key>, semantics: Entry -> Semantics)
    ensures PlanEntries(manifest + [e], inventory, semantics) ==
      PlanEntries(manifest, inventory, semantics) + [PlanEntry(e, inventory, semantics)]
  {
  }

  lemma MaterializeAppend(entries: seq<Planned>, e: Planned, store: Store, facts: Analysis)
    ensures Materialize(entries + [e], store, facts) ==
      match Materialize(entries, store, facts)
      case Err(x) => Err(x)
      case Ok(b) => MaterializeEntry(b, e, facts)
  {
    assert (entries + [e])[..|entries|] == entries;
  }

  lemma CleanAppend(manifest: seq<Entry>, e: Entry, semantics: Entry -> Semantics, facts: Analysis)
    ensures Clean(manifest + [e], semantics, facts) ==
      Clean(manifest, semantics, facts)[e.path := facts(e.digest, semantics(e))]
    ensures Keys(manifest + [e], semantics) == Keys(manifest, semantics) + {KeyOf(e, semantics(e))}
  {
    assert (manifest + [e])[..|manifest|] == manifest;
  }

  /**
   A plan against any inventory of a verified store materialises to exactly what clean analysis gives,
   and leaves a verified store that also holds every key of the manifest.
   */
  lemma {:induction false} RoundIsClean(manifest: seq<Entry>, inventory: set<Key>, semantics: Entry -> Semantics, store: Store, facts: Analysis)
    requires inventory <= store.Keys && Verified(store, facts)
    ensures match Materialize(PlanEntries(manifest, inventory, semantics), store, facts)
      case Err(_) => false
      case Ok(b) =>
        && b.output == Clean(manifest, semantics, facts)
        && Verified(b.store, facts)
        && b.store.Keys == store.Keys + Keys(manifest, semantics)
  {
    if manifest != [] {
      hide PlanEntries, Materialize, Clean, Keys, KeyOf, AnalyzeKey;
      var n := |manifest| - 1;
      var init, e := manifest[..n], manifest[n];
      assert manifest == init + [e];
      RoundIsClean(init, inventory, semantics, store, facts);
      PlanPrefix(init, e, inventory, semantics);
      MaterializeAppend(PlanEntries(init, inventory, semantics), PlanEntry(e, inventory, semantics), store, facts);
      CleanAppend(init, e, semantics, facts);
      KeyKeeps(facts, e, semantics(e), e, semantics(e));
    }
  }

  lemma OneMoreKey(keys: set<Key>, key: Key, inventory: set<Key>, held: set<Key>)
    ensures (keys + {key}) * inventory <= held <==> keys * inventory <= held && (key in inventory ==> key in held)
  {
    if keys * inventory <= held && (key in inventory ==> key in held) {
      forall k | k in (keys + {key}) * inventory ensures k in held {
        assert k == key || k in keys * inventory;
      }
    }
  }

  /* With any store and inventory, materialising works exactly when the store has every key the plan reuses. */
  lemma {:induction false} HonouredExactly(manifest: seq<Entry>, inventory: set<Key>, semantics: Entry -> Semantics, store: Store, facts: Analysis)
    ensures var r := Materialize(PlanEntries(manifest, inventory, semantics), store, facts);
      && (r.Ok? <==> Keys(manifest, semantics) * inventory <= store.Keys)
      && (r.Ok? ==> r.value.store.Keys == store.Keys + Keys(manifest, semantics))
  {
    if manifest != [] {
      hide PlanEntries, Materialize, Clean, Keys;
      var n := |manifest| - 1;
      var init, e := manifest[..n], manifest[n];
      assert manifest == init + [e];
      HonouredExactly(init, inventory, semantics, store, facts);
      PlanPrefix(init, e, inventory, semantics);
      MaterializeAppend(PlanEntries(init, inventory, semantics), PlanEntry(e, inventory, semantics), store, facts);
      CleanAppend(init, e, semantics, facts);
      OneMoreKey(Keys(init, semantics), KeyOf(e, semantics(e)), inventory, store.Keys);
    }
  }

  // Runs.

  /* One generation: its manifest and the semantics of its entries. */
  datatype Step = Step(manifest: seq<Entry>, semantics: Entry -> Semantics)

  /* Outputs of every generation and the final store; each plan's inventory is all the store holds. */
  datatype Progress = Progress(outputs: seq<map<Octets, nat>>, store: Store)

  function RunSteps(steps: seq<Step>, facts: Analysis): Result<Progress, ReuseError>
  {
    if steps == [] then Ok(Progress([], map[]))
    else
      var n := |steps| - 1;
      match RunSteps(steps[..n], facts)
      case Err(e) => Err(e)
      case Ok(p) =>
        match Materialize(PlanEntries(steps[n].manifest, p.store.Keys, steps[n].semantics), p.store, facts)
        case Err(e) => Err(e)
        case Ok(b) => Ok(Progress(p.outputs + [b.output], b.store))
  }

  function KeysOf(steps: seq<Step>): set<Key>
  {
    if steps == [] then {}
    else KeysOf(steps[..|steps| - 1]) + Keys(steps[|steps| - 1].manifest, steps[|steps| - 1].semantics)
  }

  /**
   Over every run the incremental outputs equal clean analysis of each generation, and the store holds
   exactly the keys seen so far, each with the value analysis gives.
   */
  lemma {:induction false} RunsAreClean(steps: seq<Step>, facts: Analysis)
    ensures match RunSteps(steps, facts)
      case Err(_) => false
      case Ok(p) =>
        && |p.outputs| == |steps|
        && (forall i :: 0 <= i < |steps| ==> p.outputs[i] == Clean(steps[i].manifest, steps[i].semantics, facts))
        && Verified(p.store, facts)
        && p.store.Keys == KeysOf(steps)
  {
    if steps != [] {
      hide PlanEntries, Materialize, Clean, Keys;
      var n := |steps| - 1;
      RunsAreClean(steps[..n], facts);
      var p := RunSteps(steps[..n], facts).value;
      RoundIsClean(steps[n].manifest, p.store.Keys, steps[n].semantics, p.store, facts);
    }
  }

  /* Clean analysis is the analysis of each entry, and of nothing else. */
  lemma {:induction false} CleanExactly(manifest: seq<Entry>, semantics: Entry -> Semantics, facts: Analysis)
    requires Increasing(manifest)
    ensures Clean(manifest, semantics, facts).Keys == Paths(manifest)
    ensures forall e :: e in manifest ==> Clean(manifest, semantics, facts)[e.path] == facts(e.digest, semantics(e))
  {
    hide LexLess, Increasing, Clean;
    if manifest == [] {
      assert Clean([], semantics, facts) == map[] by { NothingClean(semantics, facts); }
    } else {
      var n := |manifest| - 1;
      var init, e := manifest[..n], manifest[n];
      assert manifest == init + [e];
      LastIsNew(init, e);
      CleanExactly(init, semantics, facts);
      CleanAppend(init, e, semantics, facts);
      PathsAppend(init, e);
    }
  }

  lemma NothingClean(semantics: Entry -> Semantics, facts: Analysis)
    ensures Clean([], semantics, facts) == map[]
  {
  }

  /* So the output of every generation holds the analysis of each of its entries. */
  lemma {:induction false} OutputsExactly(steps: seq<Step>, facts: Analysis, i: nat, e: Entry)
    requires i < |steps| && Increasing(steps[i].manifest) && e in steps[i].manifest
    ensures RunSteps(steps, facts).Ok? && i < |RunSteps(steps, facts).value.outputs|
    ensures var output := RunSteps(steps, facts).value.outputs[i];
      e.path in output && output[e.path] == facts(e.digest, steps[i].semantics(e)) && output.Keys == Paths(steps[i].manifest)
  {
    hide RunSteps, Clean, Increasing;
    RunsAreClean(steps, facts);
    CleanExactly(steps[i].manifest, steps[i].semantics, facts);
  }

  /* An earlier generation had an entry with this digest under these semantics. */
  ghost predicate Seen(steps: seq<Step>, digest: nat, semantics: Semantics)
  {
    exists j, e :: 0 <= j < |steps| && e in steps[j].manifest && e.digest == digest && steps[j].semantics(e) == semantics
  }

  /* An entry is reused exactly when its digest occurred in an earlier generation under the same semantics. */
  lemma {:induction false} ReusedExactly(steps: seq<Step>, next: Step, facts: Analysis, i: nat)
    requires i < |next.manifest|
    ensures RunSteps(steps, facts).Ok?
    ensures PlanEntries(next.manifest, RunSteps(steps, facts).value.store.Keys, next.semantics)[i].action == Reuse <==>
      Seen(steps, next.manifest[i].digest, next.semantics(next.manifest[i]))
  {
    hide RunSteps, KeyOf, Seen;
    RunsAreClean(steps, facts);
    KeysOfExactly(steps, next.manifest[i], next.semantics(next.manifest[i]));
  }

  lemma {:induction false} KeysOfExactly(steps: seq<Step>, d: Entry, s: Semantics)
    ensures KeyOf(d, s) in KeysOf(steps) <==> Seen(steps, d.digest, s)
  {
    if steps != [] {
      hide KeyOf;
      var n := |steps| - 1;
      KeysOfExactly(steps[..n], d, s);
      forall e: Entry ensures KeyOf(e, steps[n].semantics(e)) == KeyOf(d, s) <==> e.digest == d.digest && steps[n].semantics(e) == s {
        KeyKeeps((digest, semantics) => 0, e, steps[n].semantics(e), d, s);
      }
      if Seen(steps[..n], d.digest, s) {
        var j, e :| 0 <= j < n && e in steps[..n][j].manifest && e.digest == d.digest && steps[..n][j].semantics(e) == s;
        assert e in steps[j].manifest;
      }
      if j, e :| 0 <= j < n && e in steps[j].manifest && e.digest == d.digest && steps[j].semantics(e) == s {
        assert e in steps[..n][j].manifest;
      }
    }
  }
}
