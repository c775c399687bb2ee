/** The SDK payload scrubbers: what the payload keeps of the features, the
    auto experiments and the saved-group id lists for an SDK that declares a
    given list of capabilities. Older SDKs get saved-group references
    resolved into literal id lists, and only the keys they understand. */
module SdkPayload {
  import opened Wrappers
  import opened Assoc
  import opened Json
  import opened GroupRefs

  /** The capability names an SDK declares, such as "bucketingV2". */
  type Capabilities = seq<string>

  /** The key tiers: what every SDK understands, and what each capability adds. */
  const StrictFeatureKeys: seq<string> := ["defaultValue", "rules"]
  const StrictFeatureRuleKeys: seq<string> :=
    ["key", "variations", "weights", "coverage", "condition", "namespace", "force", "hashAttribute"]
  const BucketingV2Keys: seq<string> :=
    ["hashVersion", "range", "ranges", "meta", "filters", "seed", "name", "phase"]
  const StickyBucketingKeys: seq<string> :=
    ["fallbackAttribute", "disableStickyBucketing", "bucketVersion", "minBucketVersion"]
  const PrerequisiteKeys: seq<string> := ["parentConditions"]

  /** The rule keys a strict SDK is sent: the strict ones, then each tier whose
      capability it declares, in that order. */
  function AllowedFeatureRuleKeys(caps: Capabilities): (ks: seq<string>)
    ensures forall k :: k in ks <==>
      k in StrictFeatureRuleKeys
      || ("bucketingV2" in caps && k in BucketingV2Keys)
      || ("stickyBucketing" in caps && k in StickyBucketingKeys)
      || ("prerequisites" in caps && k in PrerequisiteKeys)
  {
    StrictFeatureRuleKeys
      + (if "bucketingV2" in caps then BucketingV2Keys else [])
      + (if "stickyBucketing" in caps then StickyBucketingKeys else [])
      + (if "prerequisites" in caps then PrerequisiteKeys else [])
  }

  /** What a scrubber does: returns a value, or throws a TypeError. */
  datatype Outcome = Returned(value: Json) | TypeError

  /** `v?.k`, with a `null` property read as missing, as the `?.` or `??`
      after it treats it. */
  function Member(v: Json, k: string): Option<Json> {
    if v.JObj? then
      var g := Get(v.fields, k);
      if g == Some(JNull) then None else g
    else None
  }

  /** `x?.parentConditions?.length ?? 0`, as the value the comparisons see:
      the length of an array or a string, an object's own `length` property,
      and 0 when that is missing or `null` (a number or a boolean has no
      `length`). */
  function PrerequisiteLength(x: Json): Json {
    match Member(x, "parentConditions")
    case None => JNum(0)
    case Some(JArr(items)) => JNum(|items|)
    case Some(JStr(s)) => JNum(|s|)
    case Some(JObj(ps)) =>
      var l := Get(ps, "length");
      if l.None? || l.value.JNull? then JNum(0) else l.value
    case Some(_) => JNum(0)
  }

  /** `(rule.parentConditions?.length ?? 0) === 0`: strict equality, so only
      the number 0 passes. */
  predicate WithoutParentConditions(x: Json) {
    PrerequisiteLength(x) == JNum(0)
  }

  /** `(experiment.parentConditions?.length ?? 0) > 0`, a comparison that
      converts the length with ToNumber. */
  predicate WithParentConditions(x: Json) {
    AboveZero(PrerequisiteLength(x))
  }

  /** A length that passes the `=== 0` test never passes the `> 0` test; for
      the shapes the types promise (no `parentConditions`, or a list of them)
      exactly one of the two passes, the `> 0` test when the list is not
      empty. */
  lemma ParentConditionTests(x: Json)
    ensures WithoutParentConditions(x) ==> !WithParentConditions(x)
    ensures Member(x, "parentConditions").None? ==> WithoutParentConditions(x)
    ensures var pcs := Member(x, "parentConditions");
      pcs.Some? && pcs.value.JArr? ==>
        (WithParentConditions(x) <==> |pcs.value.items| > 0) &&
        (WithoutParentConditions(x) <==> |pcs.value.items| == 0)
  {
  }

  /** A `length` that is a string is never `=== 0`, so such a rule is always
      dropped; it is `> 0` exactly when it reads as a number above zero, so
      `"5"` skips the experiment and `"0"` does not. */
  lemma StringLengthTests(s: string)
    ensures var x := JObj([("parentConditions", JObj([("length", JStr(s))]))]);
      !WithoutParentConditions(x) && (WithParentConditions(x) <==> StringAboveZero(s))
    ensures StringAboveZero("5") && !StringAboveZero("0")
  {
    assert TrimBlanks("5") == "5" && TrimBlanks("0") == "0";
    assert "5"[0] == '5';
  }

  /** `pcs.some((pc) => !!pc.gate)`; None when it reaches a `null` condition
      first, whose `gate` cannot be read. */
  function AnyGate(pcs: seq<Json>): Option<bool> {
    if pcs == [] then Some(false)
    else if pcs[0].JNull? then None
    else if Member(pcs[0], "gate").Some? && Truthy(Member(pcs[0], "gate").value) then Some(true)
    else AnyGate(pcs[1..])
  }

  /** `rule?.parentConditions?.some(...)`; calling `some` on anything but an
      array throws. */
  function RuleGated(rule: Json): Option<bool> {
    match Member(rule, "parentConditions")
    case None => Some(false)
    case Some(JArr(pcs)) => AnyGate(pcs)
    case Some(_) => None
  }

  function AnyRuleGated(rules: seq<Json>): Option<bool> {
    if rules == [] then Some(false)
    else
      var g := RuleGated(rules[0]);
      if g.None? then None
      else if g.value then Some(true)
      else AnyRuleGated(rules[1..])
  }

  /** Whether a feature has a rule with a gating prerequisite:
      `f?.rules?.some(...)`. */
  function FeatureGated(f: Json): Option<bool> {
    match Member(f, "rules")
    case None => Some(false)
    case Some(JArr(rules)) => AnyRuleGated(rules)
    case Some(_) => None
  }

  /** `a` is `b` with some elements left out, the others in their order. */
  ghost predicate Subsequence<T>(a: seq<T>, b: seq<T>)
    decreases |b|
  {
    if b == [] then a == []
    else (a != [] && a[0] == b[0] && Subsequence(a[1..], b[1..])) || Subsequence(a, b[1..])
  }

  lemma {:induction false} SubsequenceConcat<T>(a: seq<T>, b: seq<T>, c: seq<T>, d: seq<T>)
    requires Subsequence(a, b) && Subsequence(c, d)
    ensures Subsequence(a + c, b + d)
    decreases |b|
  {
    if b == [] {
      assert a + c == c && b + d == d;
    } else {
      assert (b + d)[0] == b[0] && (b + d)[1..] == b[1..] + d;
      if a != [] && a[0] == b[0] && Subsequence(a[1..], b[1..]) {
        SubsequenceConcat(a[1..], b[1..], c, d);
        assert (a + c)[0] == a[0] && (a + c)[1..] == a[1..] + c;
      } else {
        SubsequenceConcat(a, b[1..], c, d);
      }
    }
  }

  /** `rules.filter((rule) => (rule.parentConditions?.length ?? 0) === 0)`;
      None when a rule is `null`. */
  function RulesWithoutPrerequisites(rules: seq<Json>): (r: Option<seq<Json>>)
    ensures r.Some? ==> forall i :: 0 <= i < |r.value| ==> r.value[i] in rules && WithoutParentConditions(r.value[i])
    ensures r.Some? ==> forall i :: 0 <= i < |rules| && WithoutParentConditions(rules[i]) ==> rules[i] in r.value
    ensures r.Some? ==> Subsequence(r.value, rules)
    ensures r.None? <==> exists i :: 0 <= i < |rules| && rules[i].JNull?
  {
    if rules == [] then Some([])
    else if rules[0].JNull? then None
    else
      var rest := RulesWithoutPrerequisites(rules[1..]);
      if rest.None? then None
      else if WithoutParentConditions(rules[0]) then Some([rules[0]] + rest.value)
      else rest
  }

  /** `f.rules = f.rules?.filter(...)` on one feature. A missing or `null`
      list becomes `undefined`, which the serialized payload omits; assigning
      a property of `null` or of a primitive throws (the code is strict-mode
      module code), and a property on an array does not show in the payload. */
  function WithoutPrerequisiteRules(f: Json): Option<Json> {
    match f
    case JObj(fs) =>
      (match Member(f, "rules")
       case None => Some(JObj(Remove(fs, "rules")))
       case Some(JArr(rules)) =>
         var kept := RulesWithoutPrerequisites(rules);
         if kept.Some? then Some(JObj(Put(fs, "rules", JArr(kept.value)))) else None
       case Some(_) => None)
    case JArr(_) => Some(f)
    case _ => None
  }

  /** lodash `pick(v, ks)`: the listed own properties, none for a value that is
      not an object. */
  function PickProps(v: Json, ks: seq<string>): Fields {
    if v.JObj? then Pick(v.fields, ks) else []
  }

  /** `f = pick(f, strictFeatureKeys)`, then, when `f.rules` is truthy,
      `f.rules = f.rules.map((rule) => ({...pick(rule, ruleKeys)}))`. Calling
      `map` on anything but an array throws. */
  function PickFeature(f: Json, ruleKeys: seq<string>): Option<Json> {
    var picked := PickProps(f, StrictFeatureKeys);
    var rules := Get(picked, "rules");
    if rules.None? || !Truthy(rules.value) then Some(JObj(picked))
    else if rules.value.JArr? then
      var items := rules.value.items;
      Some(JObj(Put(picked, "rules",
        JArr(seq(|items|, i requires 0 <= i < |items| => JObj(PickProps(items[i], ruleKeys)))))))
    else None
  }

  /** What one visit of a `for (const k in newFeatures)` loop does with the
      feature stored under `k`. */
  datatype Visit = Delete | Assign(value: Json) | Throw

  /** The two loops of `scrubFeatures`: dropping prerequisites, and pruning to
      the allowed keys. */
  datatype FeaturePass = DropPrerequisites | Prune(ruleKeys: seq<string>)

  function VisitFeature(pass: FeaturePass, f: Json): Visit {
    match pass
    case DropPrerequisites =>
      var gated := FeatureGated(f);
      if gated.None? then Throw
      else if gated.value then Delete
      else
        var g := WithoutPrerequisiteRules(f);
        if g.Some? then Assign(g.value) else Throw
    case Prune(ruleKeys) =>
      var g := PickFeature(f, ruleKeys);
      if g.Some? then Assign(g.value) else Throw
  }

  /** A loop `pass` over the features object `fs`, as the object it leaves:
      every feature visited in turn, each kept key in its place; None when a
      visit throws. */
  function ForEachFeature(pass: FeaturePass, fs: Fields): (r: Option<Fields>)
    ensures r.None? <==> exists i {:trigger VisitFeature(pass, fs[i].1)} :: 0 <= i < |fs| && VisitFeature(pass, fs[i].1).Throw?
    ensures r.Some? ==> forall x :: x in Keys(r.value) ==> x in Keys(fs)
    decreases |fs|
  {
    if fs == [] then Some([])
    else
      var n := |fs| - 1;
      assert forall i :: 0 <= i < n ==> fs[..n][i] == fs[i];
      var prev := ForEachFeature(pass, fs[..n]);
      if prev.None? then None
      else
        var visit := VisitFeature(pass, fs[n].1);
        if visit.Throw? then None
        else if visit.Delete? then
          KeysPrefix(fs, n);
          prev
        else
          KeysAppend(prev.value, [(fs[n].0, visit.value)]);
          KeysPrefix(fs, n);
          KeyAt(fs, n);
          Some(prev.value + [(fs[n].0, visit.value)])
  }

  /** The key the loop visits at step `i` is in neither the part already
      visited nor the part still to come. */
  lemma NotYetVisited(pass: FeaturePass, fs: Fields, i: nat)
    requires Distinct(fs) && i < |fs| && ForEachFeature(pass, fs[..i]).Some?
    ensures fs[i].0 !in Keys(ForEachFeature(pass, fs[..i]).value)
    ensures fs[i].0 !in Keys(fs[i + 1..])
  {
    forall m | 0 <= m < i ensures Keys(fs[..i])[m] != fs[i].0 {
      assert fs[..i][m] == fs[m];
    }
    var rest := fs[i + 1..];
    forall m | 0 <= m < |rest| ensures Keys(rest)[m] != fs[i].0 {
      assert rest[m] == fs[i + 1 + m];
    }
  }

  /** One more feature visited: the loop over `fs[..i + 1]` is the loop over
      `fs[..i]` followed by the visit of `fs[i]`. */
  lemma ForEachFeatureStep(pass: FeaturePass, fs: Fields, i: nat, done: Fields)
    requires i < |fs| && ForEachFeature(pass, fs[..i]) == Some(done)
    ensures var visit := VisitFeature(pass, fs[i].1);
      ForEachFeature(pass, fs[..i + 1]) ==
        if visit.Throw? then None
        else if visit.Delete? then Some(done)
        else Some(done + [(fs[i].0, visit.value)])
  {
    assert fs[..i + 1][..i] == fs[..i] && fs[..i + 1][i] == fs[i];
  }

  /** One visit of the loop, on the live object `done + fs[i..]`: the feature
      read is the snapshot's, a deletion or reassignment touches that entry
      alone, and the result is the loop function one entry further on. */
  lemma VisitStep(pass: FeaturePass, fs: Fields, i: nat, done: Fields)
    requires Distinct(fs) && i < |fs| && ForEachFeature(pass, fs[..i]) == Some(done)
    ensures var k := fs[i].0;
      var visit := VisitFeature(pass, fs[i].1);
      Get(done + fs[i..], k) == Some(fs[i].1) &&
      (visit.Throw? ==> ForEachFeature(pass, fs).None?) &&
      (visit.Delete? ==>
        ForEachFeature(pass, fs[..i + 1]) == Some(done) &&
        Remove(done + fs[i..], k) == done + fs[i + 1..]) &&
      (visit.Assign? ==>
        ForEachFeature(pass, fs[..i + 1]) == Some(done + [(k, visit.value)]) &&
        Put(done + fs[i..], k, visit.value) == done + [(k, visit.value)] + fs[i + 1..])
  {
    var k := fs[i].0;
    var visit := VisitFeature(pass, fs[i].1);
    var rest := fs[i + 1..];
    NotYetVisited(pass, fs, i);
    assert done + fs[i..] == done + [(k, fs[i].1)] + rest by {
      assert fs[i..] == [fs[i]] + rest;
    }
    GetUnique(done, k, fs[i].1, rest);
    ForEachFeatureStep(pass, fs, i, done);
    if visit.Delete? {
      RemoveUnique(done, k, fs[i].1, rest);
    } else if visit.Assign? {
      PutUnique(done, k, fs[i].1, rest, visit.value);
    }
  }

  /** The loop as the source writes it, on the deep copy `newFeatures`: the
      feature is read from the live object, then deleted or reassigned. */
  method ForEachFeatureLoop(pass: FeaturePass, fs: Fields) returns (r: Option<Fields>)
    requires Distinct(fs)
    ensures r == ForEachFeature(pass, fs)
  {
    var newFeatures := fs;
    ghost var done: Fields := [];
    var i := 0;
    while i < |fs|
      invariant 0 <= i <= |fs|
      invariant ForEachFeature(pass, fs[..i]) == Some(done)
      invariant newFeatures == done + fs[i..]
    {
      var k := fs[i].0;
      VisitStep(pass, fs, i, done);
      var f := Get(newFeatures, k).value;
      var visit := VisitFeature(pass, f);
      if visit.Throw? {
        return None;
      } else if visit.Delete? {
        newFeatures := Remove(newFeatures, k);
      } else {
        newFeatures := Put(newFeatures, k, visit.value);
        done := done + [(k, visit.value)];
      }
      i := i + 1;
    }
    assert fs[..|fs|] == fs && fs[|fs|..] == [];
    assert newFeatures == done;
    return Some(newFeatures);
  }

  /** The caller's object, which `recursiveWalk` rewrites in place. */
  class JsonRef {
    var value: Json

    constructor (v: Json)
      ensures value == v
    {
      value := v;
    }
  }

  /** The group references are resolved unless the SDK declares
      "savedGroupReferences"; then the value is left as it is. */
  function PayloadWalk(j: Json, caps: Capabilities, ids: IdLists): Walked<Json>
    requires WellFormed(j)
  {
    if "savedGroupReferences" in caps then Walked(j, false) else Walk(ids, j)
  }

  /** The prerequisite loop, which runs unless the SDK supports prerequisites. */
  function PrerequisitePass(fs: Fields, caps: Capabilities): Option<Fields> {
    if "prerequisites" in caps then Some(fs) else ForEachFeature(DropPrerequisites, fs)
  }

  /** The pruning loop, which runs unless the SDK unmarshals loosely. */
  function StrictPass(fs: Fields, caps: Capabilities): Option<Fields> {
    if "looseUnmarshalling" in caps then Some(fs) else ForEachFeature(Prune(AllowedFeatureRuleKeys(caps)), fs)
  }

  /** `scrubFeatures(features, capabilities, idLists)`, as the value it returns
      or the TypeError it throws. */
  function ScrubbedFeatures(features: Json, caps: Capabilities, ids: IdLists): Outcome
    requires features.JObj? && WellFormed(features)
  {
    var walked := PayloadWalk(features, caps, ids);
    if walked.threw then TypeError
    else
      var filtered := PrerequisitePass(walked.value.fields, caps);
      if filtered.None? then TypeError
      else
        var pruned := StrictPass(filtered.value, caps);
        if pruned.None? then TypeError else Returned(JObj(pruned.value))
  }

  lemma ForEachFeatureDistinct(pass: FeaturePass, fs: Fields)
    requires Distinct(fs)
    ensures var r := ForEachFeature(pass, fs); r.Some? ==> Distinct(r.value)
    decreases |fs|
  {
    if fs != [] {
      var n := |fs| - 1;
      assert fs[..n] == fs[..n][..n];
      ForEachFeatureDistinct(pass, fs[..n]);
      var prev := ForEachFeature(pass, fs[..n]);
      if prev.Some? && VisitFeature(pass, fs[n].1).Assign? {
        NotYetVisited(pass, fs, n);
        var r := prev.value + [(fs[n].0, VisitFeature(pass, fs[n].1).value)];
        forall a, b | 0 <= a < b < |r| ensures r[a].0 != r[b].0 {
          if b == n || b == |prev.value| {
            KeyAt(prev.value, a);
          }
        }
      }
    }
  }

  /** The method the source exports. The caller's `features` are walked in
      place; the result is built on a deep copy. */
  method ScrubFeatures(features: JsonRef, caps: Capabilities, ids: IdLists) returns (out: Outcome)
    requires features.value.JObj? && WellFormed(features.value)
    modifies features
    ensures features.value == PayloadWalk(old(features.value), caps, ids).value
    ensures out == ScrubbedFeatures(old(features.value), caps, ids)
  {
    ghost var input := features.value;
    var allowedFeatureRuleKeys := AllowedFeatureRuleKeys(caps);
    if "savedGroupReferences" !in caps {
      var w := RecursiveWalk(ids, features.value);
      features.value := w.value;
      if w.threw {
        return TypeError;
      }
      WalkResolvesAll(ids, input);
    }
    var newFeatures := features.value.fields;
    if "prerequisites" !in caps {
      var r := ForEachFeatureLoop(DropPrerequisites, newFeatures);
      if r.None? {
        return TypeError;
      }
      ForEachFeatureDistinct(DropPrerequisites, newFeatures);
      newFeatures := r.value;
    }
    if "looseUnmarshalling" in caps {
      return Returned(JObj(newFeatures));
    }
    var r := ForEachFeatureLoop(Prune(allowedFeatureRuleKeys), newFeatures);
    if r.None? {
      return TypeError;
    }
    return Returned(JObj(r.value));
  }

  /** An array of objects, the type of the experiments list. */
  predicate ObjectList(j: Json) {
    j.JArr? && forall i :: 0 <= i < |j.items| ==> j.items[i].JObj?
  }

  /** `experiment.changeType === "redirect"`. */
  predicate IsRedirect(x: Json)
    requires x.JObj?
  {
    Get(x.fields, "changeType") == Some(JStr("redirect"))
  }

  /** The experiments the loop passes over with `continue`. */
  predicate Skipped(x: Json, caps: Capabilities)
    requires x.JObj?
  {
    ("redirects" !in caps && IsRedirect(x))
    || ("prerequisites" !in caps && WithParentConditions(x))
  }

  /** `removedExperimentKeys`. */
  function RemovedExperimentKeys(caps: Capabilities): seq<string> {
    if "prerequisites" in caps then [] else PrerequisiteKeys
  }

  /** The experiments that survive the loop, each with the removed keys
      omitted, in their order. */
  function KeptExperiments(xs: seq<Json>, caps: Capabilities): (r: seq<Json>)
    requires forall i :: 0 <= i < |xs| ==> xs[i].JObj?
    ensures |r| <= |xs|
    decreases |xs|
  {
    if xs == [] then []
    else
      var n := |xs| - 1;
      KeptExperiments(xs[..n], caps) + KeptItem(xs[n], caps)
  }

  /** What one pass of the loop adds to `newExperiments`. */
  function KeptItem(x: Json, caps: Capabilities): (r: seq<Json>)
    requires x.JObj?
    ensures |r| <= 1
  {
    if Skipped(x, caps) then [] else [JObj(Omit(x.fields, RemovedExperimentKeys(caps)))]
  }

  lemma KeptItemCases(x: Json, caps: Capabilities)
    requires x.JObj?
    ensures Skipped(x, caps) ==> KeptItem(x, caps) == []
    ensures !Skipped(x, caps) ==> KeptItem(x, caps) == [JObj(Omit(x.fields, RemovedExperimentKeys(caps)))]
  {
  }

  lemma KeptExperimentsLast(xs: seq<Json>, caps: Capabilities)
    requires forall m :: 0 <= m < |xs| ==> xs[m].JObj?
    requires xs != []
    ensures KeptExperiments(xs, caps) == KeptExperiments(xs[..|xs| - 1], caps) + KeptItem(xs[|xs| - 1], caps)
  {
  }

  lemma KeptExperimentsStep(xs: seq<Json>, i: nat, caps: Capabilities)
    requires forall m :: 0 <= m < |xs| ==> xs[m].JObj?
    requires i < |xs|
    ensures KeptExperiments(xs[..i + 1], caps) == KeptExperiments(xs[..i], caps) + KeptItem(xs[i], caps)
  {
    assert xs[..i + 1][..i] == xs[..i] && xs[..i + 1][i] == xs[i];
  }

  /** One pass of the experiments loop, from the list kept so far. */
  lemma KeptItemStep(xs: seq<Json>, i: nat, caps: Capabilities, kept: seq<Json>)
    requires forall m :: 0 <= m < |xs| ==> xs[m].JObj?
    requires i < |xs| && kept == KeptExperiments(xs[..i], caps)
    ensures Skipped(xs[i], caps) ==> kept == KeptExperiments(xs[..i + 1], caps)
    ensures !Skipped(xs[i], caps) ==>
      kept + [JObj(Omit(xs[i].fields, RemovedExperimentKeys(caps)))] == KeptExperiments(xs[..i + 1], caps)
  {
    KeptExperimentsStep(xs, i, caps);
    KeptItemCases(xs[i], caps);
  }

  /** Walking an array of objects leaves an array of objects, even when it
      throws part way. */
  lemma {:induction false} WalkKeepsObjectItems(ids: IdLists, j: Json, i: nat, live: seq<Json>)
    requires ObjectList(j) && WellFormed(j) && i <= |j.items|
    requires |live| == |j.items| && live[i..] == j.items[i..]
    requires forall m :: 0 <= m < i ==> live[m].JObj?
    ensures ObjectList(JArr(WalkItems(ids, j, i, live).value))
    decreases |j.items| - i
  {
    assert forall m :: i <= m < |live| ==> live[m] == live[i..][m - i];
    if i < |j.items| {
      var w := Walk(ids, j.items[i]);
      assert live[i..][1..] == live[i + 1..] && j.items[i..][1..] == j.items[i + 1..];
      if !w.threw {
        WalkKeepsObjectItems(ids, j, i + 1, live[i := w.value]);
      }
    }
  }

  lemma WalkKeepsObjectList(ids: IdLists, j: Json, caps: Capabilities)
    requires ObjectList(j) && WellFormed(j)
    ensures ObjectList(PayloadWalk(j, caps, ids).value)
  {
    if "savedGroupReferences" !in caps {
      WalkKeepsObjectItems(ids, j, 0, j.items);
    }
  }

  /** `scrubExperiments(experiments, capabilities, idLists)`, as the value it
      returns or the TypeError it throws. An SDK that supports both
      prerequisites and redirects gets the walked list itself. */
  function ScrubbedExperiments(experiments: Json, caps: Capabilities, ids: IdLists): Outcome
    requires ObjectList(experiments) && WellFormed(experiments)
  {
    var walked := PayloadWalk(experiments, caps, ids);
    if walked.threw then TypeError
    else if "prerequisites" in caps && "redirects" in caps then Returned(walked.value)
    else
      WalkKeepsObjectList(ids, experiments, caps);
      Returned(JArr(KeptExperiments(walked.value.items, caps)))
  }

  /** The method the source exports: the caller's list is walked in place,
      and the scrubbed experiments are pushed onto a new array. */
  method ScrubExperiments(experiments: JsonRef, caps: Capabilities, ids: IdLists) returns (out: Outcome)
    requires ObjectList(experiments.value) && WellFormed(experiments.value)
    modifies experiments
    ensures experiments.value == PayloadWalk(old(experiments.value), caps, ids).value
    ensures out == ScrubbedExperiments(old(experiments.value), caps, ids)
  {
    ghost var input := experiments.value;
    var removedExperimentKeys: seq<string> := [];
    var supportsPrerequisites := "prerequisites" in caps;
    var supportsRedirects := "redirects" in caps;
    if "savedGroupReferences" !in caps {
      var w := RecursiveWalk(ids, experiments.value);
      experiments.value := w.value;
      if w.threw {
        return TypeError;
      }
    }
    WalkKeepsObjectList(ids, input, caps);
    if supportsPrerequisites && supportsRedirects {
      return Returned(experiments.value);
    }
    if !supportsPrerequisites {
      removedExperimentKeys := removedExperimentKeys + PrerequisiteKeys;
    }
    var xs := experiments.value.items;
    assert forall m :: 0 <= m < |xs| ==> xs[m].JObj?;
    var newExperiments := FilterExperiments(xs, caps, removedExperimentKeys);
    return Returned(JArr(newExperiments));
  }

  /** The loop over the walked experiments, collecting into a new list each
      experiment the SDK can use, with the keys it does not know removed. */
  method FilterExperiments(xs: seq<Json>, caps: Capabilities, removedExperimentKeys: seq<string>) returns (newExperiments: seq<Json>)
    requires forall m :: 0 <= m < |xs| ==> xs[m].JObj?
    requires removedExperimentKeys == RemovedExperimentKeys(caps)
    ensures newExperiments == KeptExperiments(xs, caps)
  {
    var supportsPrerequisites := "prerequisites" in caps;
    var supportsRedirects := "redirects" in caps;
    newExperiments := [];
    for i := 0 to |xs|
      invariant newExperiments == KeptExperiments(xs[..i], caps)
    {
      var experiment := xs[i];
      KeptItemStep(xs, i, caps, newExperiments);
      if !supportsRedirects && IsRedirect(experiment) {
        continue;
      }
      if !supportsPrerequisites && WithParentConditions(experiment) {
        continue;
      }
      newExperiments := newExperiments + [JObj(Omit(experiment.fields, removedExperimentKeys))];
    }
    assert xs[..|xs|] == xs;
  }

  /** `scrubIdLists(idLists, capabilities)`: the id lists travel with the
      payload only to an SDK that resolves saved-group references itself. */
  function ScrubIdLists(ids: IdLists, caps: Capabilities): (r: Option<IdLists>)
    ensures r.Some? <==> "savedGroupReferences" in caps
    ensures r.Some? ==> r.value == ids
  {
    if "savedGroupReferences" !in caps then None else Some(ids)
  }
}
