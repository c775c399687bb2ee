/** What the scrubbed payload is guaranteed to be: which features and
    experiments survive, which keys they keep, and that an SDK which is not
    sent the id lists is not sent a group reference either. */
module PayloadProperties {
  import opened Wrappers
  import opened Assoc
  import opened Json
  import opened GroupRefs
  import opened SdkPayload

  // ---------------------------------------------------------------------------
  // The feature loops

  /** Each feature is visited once and on its own: a loop that completes
      leaves, under the key `k`, what the visit of `k`'s feature made of it. */
  lemma {:induction false} ForEachFeatureGet(pass: FeaturePass, fs: Fields, k: string)
    requires Distinct(fs) && ForEachFeature(pass, fs).Some? && Get(fs, k).Some?
    ensures var visit := VisitFeature(pass, Get(fs, k).value);
      !visit.Throw? &&
      Get(ForEachFeature(pass, fs).value, k) == (if visit.Delete? then None else Some(visit.value))
    decreases |fs|
  {
    var n := |fs| - 1;
    var init := fs[..n];
    var last := fs[n];
    assert fs == init + [last];
    GetAppend(init, [last], k);
    assert init[..n] == init;
    assert Distinct(init) by {
      forall a, b | 0 <= a < b < |init| ensures init[a].0 != init[b].0 {
        assert init[a] == fs[a] && init[b] == fs[b];
      }
    }
    NotYetVisited(pass, fs, n);
    var prev := ForEachFeature(pass, init).value;
    var visit := VisitFeature(pass, last.1);
    if k == last.0 {
      assert k !in Keys(init) by {
        forall m | 0 <= m < n ensures Keys(init)[m] != k {
          assert init[m] == fs[m];
        }
      }
      GetSome(prev, k);
      if visit.Assign? {
        GetAppend(prev, [(k, visit.value)], k);
      }
    } else {
      ForEachFeatureGet(pass, init, k);
      if visit.Assign? {
        GetAppend(prev, [(last.0, visit.value)], k);
        GetSome(prev, k);
      }
    }
  }

  /** No rule of the feature has a prerequisite: its `rules`, if any, are a
      list of rules without `parentConditions`. */
  predicate NoPrerequisiteRules(g: Json) {
    var rules := Member(g, "rules");
    rules.Some? ==>
      rules.value.JArr? && forall i :: 0 <= i < |rules.value.items| ==> WithoutParentConditions(rules.value.items[i])
  }

  /** The prerequisite loop deletes exactly the features with a gating
      prerequisite; of any other it keeps the rules without prerequisites,
      in their order, and every other property as it was. */
  lemma DropPrerequisitesVisit(f: Json)
    ensures VisitFeature(DropPrerequisites, f).Delete? <==> FeatureGated(f) == Some(true)
    ensures var visit := VisitFeature(DropPrerequisites, f);
      visit.Assign? ==> NoPrerequisiteRules(visit.value)
    ensures var visit := VisitFeature(DropPrerequisites, f);
      visit.Assign? && f.JObj? ==>
        visit.value.JObj? && forall x :: x != "rules" ==> Get(visit.value.fields, x) == Get(f.fields, x)
    ensures var visit := VisitFeature(DropPrerequisites, f);
      visit.Assign? && Member(f, "rules").Some? ==>
        var before := Member(f, "rules").value;
        var after := Member(visit.value, "rules");
        before.JArr? && after.Some? && after.value.JArr? &&
        Subsequence(after.value.items, before.items) &&
        forall i :: 0 <= i < |before.items| && WithoutParentConditions(before.items[i]) ==>
          before.items[i] in after.value.items
  {
    var visit := VisitFeature(DropPrerequisites, f);
    if visit.Assign? && f.JObj? {
      var fs := f.fields;
      var rules := Member(f, "rules");
      if rules.None? {
        forall x ensures Get(Remove(fs, "rules"), x) == if x == "rules" then None else Get(fs, x) {
          GetRemove(fs, "rules", x);
        }
      } else {
        var kept := RulesWithoutPrerequisites(rules.value.items).value;
        forall x ensures Get(Put(fs, "rules", JArr(kept)), x) == if x == "rules" then Some(JArr(kept)) else Get(fs, x) {
          GetPut(fs, "rules", JArr(kept), x);
        }
      }
    }
  }

  /** A rule as the strict pruning leaves it: an object holding exactly the
      allowed keys the original rule had, with their values. */
  ghost predicate PrunedRule(rule: Json, rule': Json, ruleKeys: seq<string>) {
    rule'.JObj?
    && (forall x :: x in Keys(rule'.fields) ==> x in ruleKeys)
    && (forall x :: x in ruleKeys ==> Get(rule'.fields, x) == (if rule.JObj? then Get(rule.fields, x) else None))
  }

  /** A feature as the strict pruning leaves it: an object with no keys but
      `defaultValue` and `rules`, the first as it was, and a list of rules
      pruned one by one where a list of rules was. */
  ghost predicate PrunedFeature(f: Json, g: Json, ruleKeys: seq<string>) {
    var before := if f.JObj? then Get(f.fields, "rules") else None;
    g.JObj?
    && (forall x :: x in Keys(g.fields) ==> x in StrictFeatureKeys)
    && Get(g.fields, "defaultValue") == (if f.JObj? then Get(f.fields, "defaultValue") else None)
    && (before.Some? && before.value.JArr? ==>
          var after := Get(g.fields, "rules");
          after.Some? && after.value.JArr? && |after.value.items| == |before.value.items|
          && forall i :: 0 <= i < |before.value.items| ==>
               PrunedRule(before.value.items[i], after.value.items[i], ruleKeys))
    && (!(before.Some? && before.value.JArr?) ==> Get(g.fields, "rules") == before)
  }

  lemma PickRule(rule: Json, ruleKeys: seq<string>)
    ensures PrunedRule(rule, JObj(PickProps(rule, ruleKeys)), ruleKeys)
  {
    var r := PickProps(rule, ruleKeys);
    forall x | x in Keys(r) ensures x in ruleKeys {
      if rule.JObj? {
        PickKeys(rule.fields, ruleKeys, x);
      }
    }
    forall x | x in ruleKeys ensures Get(r, x) == (if rule.JObj? then Get(rule.fields, x) else None) {
      if rule.JObj? {
        GetPick(rule.fields, ruleKeys, x);
      }
    }
  }

  /** The pruning loop never deletes a feature, and prunes each one. */
  lemma PruneVisit(f: Json, ruleKeys: seq<string>)
    ensures !VisitFeature(Prune(ruleKeys), f).Delete?
    ensures var visit := VisitFeature(Prune(ruleKeys), f);
      visit.Assign? ==> PrunedFeature(f, visit.value, ruleKeys)
  {
    if PickFeature(f, ruleKeys).Some? {
      PickFeaturePrunes(f, ruleKeys);
    }
  }

  lemma PickFeaturePrunes(f: Json, ruleKeys: seq<string>)
    requires PickFeature(f, ruleKeys).Some?
    ensures PrunedFeature(f, PickFeature(f, ruleKeys).value, ruleKeys)
  {
    var picked := PickProps(f, StrictFeatureKeys);
    PickStrictKeys(f);
    var rules := Get(picked, "rules");
    if rules.Some? && Truthy(rules.value) {
      var items := rules.value.items;
      var mapped := JArr(seq(|items|, i requires 0 <= i < |items| => JObj(PickProps(items[i], ruleKeys))));
      GetPut(picked, "rules", mapped, "rules");
      GetPut(picked, "rules", mapped, "defaultValue");
      forall i | 0 <= i < |items| ensures PrunedRule(items[i], mapped.items[i], ruleKeys) {
        PickRule(items[i], ruleKeys);
      }
    }
  }

  /** `pick(f, strictFeatureKeys)` keeps `defaultValue` and `rules` as they were, and nothing else. */
  lemma PickStrictKeys(f: Json)
    ensures var picked := PickProps(f, StrictFeatureKeys);
      (forall x :: x in Keys(picked) ==> x in StrictFeatureKeys)
      && Get(picked, "defaultValue") == (if f.JObj? then Get(f.fields, "defaultValue") else None)
      && Get(picked, "rules") == (if f.JObj? then Get(f.fields, "rules") else None)
  {
    var picked := PickProps(f, StrictFeatureKeys);
    forall x | x in Keys(picked) ensures x in StrictFeatureKeys {
      if f.JObj? {
        PickKeys(f.fields, StrictFeatureKeys, x);
      }
    }
    if f.JObj? {
      GetPick(f.fields, StrictFeatureKeys, "defaultValue");
      GetPick(f.fields, StrictFeatureKeys, "rules");
    }
  }

  // ---------------------------------------------------------------------------
  // Group references

  lemma NoGroupRefsGet(fs: Fields, k: string)
    requires NoGroupRefs(JObj(fs)) && Get(fs, k).Some?
    ensures NoGroupRefs(Get(fs, k).value)
  {
    GetEntry(fs, k);
  }

  /** An object made of entries of an object without group references has none. */
  lemma NoGroupRefsEntries(s: Fields, t: Fields)
    requires NoGroupRefs(JObj(s))
    requires forall i :: 0 <= i < |t| ==> t[i] in s
    ensures NoGroupRefs(JObj(t))
  {
    forall i | 0 <= i < |t| ensures !IsGroupRef(t[i].0) && NoGroupRefs(t[i].1) {
      var m :| 0 <= m < |s| && s[m] == t[i];
    }
  }

  lemma NoGroupRefsPick(s: Fields, ks: seq<string>)
    requires NoGroupRefs(JObj(s)) && forall k :: k in ks ==> !IsGroupRef(k)
    ensures NoGroupRefs(JObj(Pick(s, ks)))
  {
    var r := Pick(s, ks);
    forall i | 0 <= i < |r| ensures !IsGroupRef(r[i].0) && NoGroupRefs(r[i].1) {
      NoGroupRefsGet(s, r[i].0);
    }
  }

  lemma NoGroupRefsPut(s: Fields, k: string, v: Json)
    requires NoGroupRefs(JObj(s)) && !IsGroupRef(k) && NoGroupRefs(v)
    ensures NoGroupRefs(JObj(Put(s, k, v)))
  {
    PutEntries(s, k, v);
    var r := Put(s, k, v);
    forall i | 0 <= i < |r| ensures !IsGroupRef(r[i].0) && NoGroupRefs(r[i].1) {
      if r[i] != (k, v) {
        var m :| 0 <= m < |s| && s[m] == r[i];
      }
    }
  }

  lemma NoGroupRefsSublist(items: seq<Json>, sub: seq<Json>)
    requires NoGroupRefs(JArr(items)) && forall i :: 0 <= i < |sub| ==> sub[i] in items
    ensures NoGroupRefs(JArr(sub))
  {
    forall i | 0 <= i < |sub| ensures NoGroupRefs(sub[i]) {
      var m :| 0 <= m < |items| && items[m] == sub[i];
    }
  }

  /** Neither loop adds a group reference to a feature. */
  lemma VisitKeepsNoGroupRefs(pass: FeaturePass, f: Json)
    requires NoGroupRefs(f)
    requires pass.Prune? ==> forall k :: k in pass.ruleKeys ==> !IsGroupRef(k)
    ensures var visit := VisitFeature(pass, f); visit.Assign? ==> NoGroupRefs(visit.value)
  {
    var visit := VisitFeature(pass, f);
    if visit.Assign? && f.JObj? {
      var fs := f.fields;
      match pass
      case DropPrerequisites =>
        var rules := Member(f, "rules");
        if rules.None? {
          RemoveEntries(fs, "rules");
          NoGroupRefsEntries(fs, Remove(fs, "rules"));
        } else {
          NoGroupRefsGet(fs, "rules");
          var kept := RulesWithoutPrerequisites(rules.value.items).value;
          NoGroupRefsSublist(rules.value.items, kept);
          NoGroupRefsPut(fs, "rules", JArr(kept));
        }
      case Prune(ruleKeys) =>
        PruneKeepsNoGroupRefs(fs, ruleKeys);
    } else if visit.Assign? && pass.Prune? {
      assert PickProps(f, StrictFeatureKeys) == [];
    }
  }

  lemma PruneKeepsNoGroupRefs(fs: Fields, ruleKeys: seq<string>)
    requires NoGroupRefs(JObj(fs)) && forall k :: k in ruleKeys ==> !IsGroupRef(k)
    ensures var g := PickFeature(JObj(fs), ruleKeys); g.Some? ==> NoGroupRefs(g.value)
  {
    var picked := Pick(fs, StrictFeatureKeys);
    NoGroupRefsPick(fs, StrictFeatureKeys);
    var rules := Get(picked, "rules");
    if rules.Some? && Truthy(rules.value) && rules.value.JArr? {
      NoGroupRefsGet(picked, "rules");
      var items := rules.value.items;
      var mapped := JArr(seq(|items|, i requires 0 <= i < |items| => JObj(PickProps(items[i], ruleKeys))));
      forall i | 0 <= i < |items| ensures NoGroupRefs(mapped.items[i]) {
        if items[i].JObj? {
          NoGroupRefsPick(items[i].fields, ruleKeys);
        }
      }
      NoGroupRefsPut(picked, "rules", mapped);
    }
  }

  lemma {:induction false} ForEachFeatureKeepsNoGroupRefs(pass: FeaturePass, fs: Fields)
    requires NoGroupRefs(JObj(fs))
    requires pass.Prune? ==> forall k :: k in pass.ruleKeys ==> !IsGroupRef(k)
    ensures var r := ForEachFeature(pass, fs); r.Some? ==> NoGroupRefs(JObj(r.value))
    decreases |fs|
  {
    if fs != [] {
      var n := |fs| - 1;
      assert forall i :: 0 <= i < n ==> fs[..n][i] == fs[i];
      ForEachFeatureKeepsNoGroupRefs(pass, fs[..n]);
      VisitKeepsNoGroupRefs(pass, fs[n].1);
    }
  }

  /** The walk leaves an object an object, and one whose keys are distinct
      when it completes; when it resolves group references, none is left. */
  lemma PayloadWalkObject(j: Json, caps: Capabilities, ids: IdLists)
    requires j.JObj? && WellFormed(j)
    ensures var w := PayloadWalk(j, caps, ids);
      w.value.JObj? &&
      (!w.threw ==> WellFormed(w.value) && Distinct(w.value.fields)) &&
      (!w.threw && "savedGroupReferences" !in caps ==> NoGroupRefs(w.value))
  {
    if "savedGroupReferences" !in caps {
      WalkResolvesAll(ids, j);
    }
  }

  lemma AllowedRuleKeysAreOrdinary(caps: Capabilities)
    ensures forall k :: k in AllowedFeatureRuleKeys(caps) ==> !IsGroupRef(k)
  {
  }

  // ---------------------------------------------------------------------------
  // scrubFeatures

  /** The prerequisite loop keeps the keys distinct; it keeps every feature of
      an SDK with the prerequisites capability as it is, and otherwise keeps
      exactly the features without a gating prerequisite, rid of the rules
      with prerequisites. */
  lemma PrerequisitePassGet(fs: Fields, caps: Capabilities, k: string)
    requires Distinct(fs) && PrerequisitePass(fs, caps).Some?
    ensures var r := PrerequisitePass(fs, caps).value;
      Distinct(r) &&
      (forall x :: x in Keys(r) ==> x in Keys(fs)) &&
      ("prerequisites" in caps ==> r == fs) &&
      ("prerequisites" !in caps && Get(fs, k).Some? ==>
        (Get(r, k).Some? <==> FeatureGated(Get(fs, k).value) == Some(false)) &&
        (Get(r, k).Some? ==> NoPrerequisiteRules(Get(r, k).value)) &&
        (Get(r, k).Some? && Get(fs, k).value.JObj? ==>
          Get(r, k).value.JObj? && Get(Get(r, k).value.fields, "defaultValue") == Get(Get(fs, k).value.fields, "defaultValue")))
  {
    if "prerequisites" !in caps {
      ForEachFeatureDistinct(DropPrerequisites, fs);
      if Get(fs, k).Some? {
        DropPrerequisitesGet(fs, k, "defaultValue");
        assert |"defaultValue"| != |"rules"|;
      }
    }
  }

  /** The prerequisite loop on one feature it visits: every property but
      `rules` of a feature it keeps is as it was. */
  lemma DropPrerequisitesGet(fs: Fields, k: string, x: string)
    requires Distinct(fs) && ForEachFeature(DropPrerequisites, fs).Some? && Get(fs, k).Some?
    ensures var r := ForEachFeature(DropPrerequisites, fs).value;
      (Get(r, k).Some? <==> FeatureGated(Get(fs, k).value) == Some(false)) &&
      (Get(r, k).Some? ==> NoPrerequisiteRules(Get(r, k).value)) &&
      (Get(r, k).Some? && Get(fs, k).value.JObj? && x != "rules" ==>
        Get(r, k).value.JObj? && Get(Get(r, k).value.fields, x) == Get(Get(fs, k).value.fields, x))
  {
    ForEachFeatureGet(DropPrerequisites, fs, k);
    DropPrerequisitesVisit(Get(fs, k).value);
  }

  /** The pruning loop keeps every feature, and prunes each one. */
  lemma StrictPassGet(fs: Fields, caps: Capabilities, k: string)
    requires Distinct(fs) && StrictPass(fs, caps).Some?
    ensures var r := StrictPass(fs, caps).value;
      (Get(r, k).Some? <==> Get(fs, k).Some?) &&
      ("looseUnmarshalling" in caps ==> r == fs) &&
      ("looseUnmarshalling" !in caps && Get(fs, k).Some? ==>
        PrunedFeature(Get(fs, k).value, Get(r, k).value, AllowedFeatureRuleKeys(caps)))
  {
    if "looseUnmarshalling" !in caps {
      var ruleKeys := AllowedFeatureRuleKeys(caps);
      if Get(fs, k).Some? {
        ForEachFeatureGet(Prune(ruleKeys), fs, k);
        PruneVisit(Get(fs, k).value, ruleKeys);
      } else {
        GetSome(fs, k);
        GetSome(ForEachFeature(Prune(ruleKeys), fs).value, k);
      }
    }
  }

  /** The object the walk leaves, for a scrub that returns. */
  function WalkedFeatures(features: Json, caps: Capabilities, ids: IdLists): (fs: Fields)
    requires features.JObj? && WellFormed(features)
    ensures !PayloadWalk(features, caps, ids).threw ==> Distinct(fs)
  {
    PayloadWalkObject(features, caps, ids);
    PayloadWalk(features, caps, ids).value.fields
  }

  /** The features brought to an SDK, with the loops' results named. */
  lemma ScrubbedFeaturesSteps(features: Json, caps: Capabilities, ids: IdLists)
    requires features.JObj? && WellFormed(features)
    requires ScrubbedFeatures(features, caps, ids).Returned?
    ensures var fs := WalkedFeatures(features, caps, ids);
      !PayloadWalk(features, caps, ids).threw &&
      PrerequisitePass(fs, caps).Some? &&
      StrictPass(PrerequisitePass(fs, caps).value, caps).Some? &&
      ScrubbedFeatures(features, caps, ids).value == JObj(StrictPass(PrerequisitePass(fs, caps).value, caps).value)
  {
    PayloadWalkObject(features, caps, ids);
  }

  /** The features the walked object held that an SDK is sent: all of them to
      an SDK that supports prerequisites, and otherwise exactly those without
      a gating prerequisite; no other key appears. */
  lemma ScrubbedFeatureKeys(features: Json, caps: Capabilities, ids: IdLists, k: string)
    requires features.JObj? && WellFormed(features)
    requires ScrubbedFeatures(features, caps, ids).Returned?
    ensures var walkedFs := WalkedFeatures(features, caps, ids);
      var r := ScrubbedFeatures(features, caps, ids).value;
      r.JObj? &&
      (Get(r.fields, k).Some? <==>
        Get(walkedFs, k).Some? && ("prerequisites" in caps || FeatureGated(Get(walkedFs, k).value) == Some(false)))
  {
    ScrubbedFeaturesSteps(features, caps, ids);
    var fs := WalkedFeatures(features, caps, ids);
    PrerequisitePassGet(fs, caps, k);
    var filtered := PrerequisitePass(fs, caps).value;
    StrictPassGet(filtered, caps, k);
    GetSome(fs, k);
    GetSome(filtered, k);
  }

  /** An SDK without the prerequisites capability is sent no rule with a
      prerequisite. */
  lemma ScrubbedRulesHaveNoPrerequisites(features: Json, caps: Capabilities, ids: IdLists, k: string)
    requires features.JObj? && WellFormed(features)
    requires "prerequisites" !in caps
    requires ScrubbedFeatures(features, caps, ids).Returned?
    ensures var r := ScrubbedFeatures(features, caps, ids).value;
      r.JObj? && (Get(r.fields, k).Some? ==> NoPrerequisiteRules(Get(r.fields, k).value))
  {
    ScrubbedFeaturesSteps(features, caps, ids);
    var fs := WalkedFeatures(features, caps, ids);
    var filtered := PrerequisitePass(fs, caps).value;
    PrerequisitePassGet(fs, caps, k);
    StrictPassGet(filtered, caps, k);
    var r := StrictPass(filtered, caps).value;
    if Get(r, k).Some? {
      GetSome(filtered, k);
      GetSome(fs, k);
      PrerequisitePassGet(fs, caps, k);
      if "looseUnmarshalling" !in caps {
        NoPrerequisiteRulesAfterPruning(Get(filtered, k).value, Get(r, k).value, caps);
      }
    }
  }

  /** Pruning for an SDK without the prerequisites capability takes
      `parentConditions` off every rule. */
  lemma NoPrerequisiteRulesAfterPruning(f: Json, g: Json, caps: Capabilities)
    requires "prerequisites" !in caps
    requires NoPrerequisiteRules(f) && PrunedFeature(f, g, AllowedFeatureRuleKeys(caps))
    ensures NoPrerequisiteRules(g)
  {
    var rules := Member(g, "rules");
    if rules.Some? && rules.value.JArr? {
      var before := Get(f.fields, "rules");
      forall i | 0 <= i < |rules.value.items| ensures WithoutParentConditions(rules.value.items[i]) {
        if before.Some? && before.value.JArr? {
          PrunedRuleHasNoPrerequisites(before.value.items[i], rules.value.items[i], caps);
        }
      }
    }
  }

  lemma PrunedRuleHasNoPrerequisites(rule: Json, rule': Json, caps: Capabilities)
    requires "prerequisites" !in caps
    requires PrunedRule(rule, rule', AllowedFeatureRuleKeys(caps))
    ensures WithoutParentConditions(rule')
  {
    var ks := AllowedFeatureRuleKeys(caps);
    assert "parentConditions" !in ks;
    assert "parentConditions" !in Keys(rule'.fields);
    GetSome(rule'.fields, "parentConditions");
  }


  /** A strict SDK (no "looseUnmarshalling") is sent, of each feature, a
      `defaultValue` and `rules` only, and of each rule only the strict keys
      and those of the tiers it declares. */
  lemma StrictFeaturesKeepAllowedKeys(features: Json, caps: Capabilities, ids: IdLists, k: string)
    requires features.JObj? && WellFormed(features)
    requires "looseUnmarshalling" !in caps
    requires ScrubbedFeatures(features, caps, ids).Returned?
    ensures var r := ScrubbedFeatures(features, caps, ids).value;
      r.JObj? && (Get(r.fields, k).Some? ==>
        var g := Get(r.fields, k).value;
        g.JObj? && (forall x :: x in Keys(g.fields) ==> x in StrictFeatureKeys) &&
        (Get(g.fields, "rules").Some? && Get(g.fields, "rules").value.JArr? ==>
          var rules := Get(g.fields, "rules").value.items;
          forall i :: 0 <= i < |rules| ==>
            rules[i].JObj? && forall x :: x in Keys(rules[i].fields) ==> x in AllowedFeatureRuleKeys(caps)))
  {
    ScrubbedFeaturesSteps(features, caps, ids);
    var fs := WalkedFeatures(features, caps, ids);
    var filtered := PrerequisitePass(fs, caps).value;
    PrerequisitePassGet(fs, caps, k);
    StrictPassGet(filtered, caps, k);
  }

  /** A strict SDK gets each feature's `defaultValue` as the walked feature
      had it; one with the prerequisites capability gets each walked feature
      pruned, with every allowed value kept. */
  lemma StrictFeaturesKeepValues(features: Json, caps: Capabilities, ids: IdLists, k: string)
    requires features.JObj? && WellFormed(features)
    requires "looseUnmarshalling" !in caps
    requires ScrubbedFeatures(features, caps, ids).Returned?
    ensures var walkedFs := WalkedFeatures(features, caps, ids);
      var r := ScrubbedFeatures(features, caps, ids).value;
      r.JObj? && (Get(r.fields, k).Some? && Get(walkedFs, k).Some? && Get(walkedFs, k).value.JObj? ==>
        Get(r.fields, k).value.JObj? &&
        Get(Get(r.fields, k).value.fields, "defaultValue") == Get(Get(walkedFs, k).value.fields, "defaultValue")) &&
      ("prerequisites" in caps && Get(walkedFs, k).Some? ==>
        Get(r.fields, k).Some? &&
        PrunedFeature(Get(walkedFs, k).value, Get(r.fields, k).value, AllowedFeatureRuleKeys(caps)))
  {
    ScrubbedFeaturesSteps(features, caps, ids);
    var fs := WalkedFeatures(features, caps, ids);
    var filtered := PrerequisitePass(fs, caps).value;
    PrerequisitePassGet(fs, caps, k);
    StrictPassGet(filtered, caps, k);
    GetSome(filtered, k);
    GetSome(fs, k);
  }

  /** An SDK with every capability that matters here gets the features as
      they are. */
  lemma FullySupportedFeaturesUntouched(features: Json, caps: Capabilities, ids: IdLists)
    requires features.JObj? && WellFormed(features)
    requires "savedGroupReferences" in caps && "prerequisites" in caps && "looseUnmarshalling" in caps
    ensures ScrubbedFeatures(features, caps, ids) == Returned(features)
  {
  }

  /** An SDK that is not sent the id lists is sent no group reference. */
  lemma ScrubbedFeaturesResolveGroups(features: Json, caps: Capabilities, ids: IdLists)
    requires features.JObj? && WellFormed(features)
    requires "savedGroupReferences" !in caps
    requires ScrubbedFeatures(features, caps, ids).Returned?
    ensures NoGroupRefs(ScrubbedFeatures(features, caps, ids).value)
  {
    ScrubbedFeaturesSteps(features, caps, ids);
    PayloadWalkObject(features, caps, ids);
    var fs := WalkedFeatures(features, caps, ids);
    if "prerequisites" !in caps {
      ForEachFeatureKeepsNoGroupRefs(DropPrerequisites, fs);
    }
    var filtered := PrerequisitePass(fs, caps).value;
    if "looseUnmarshalling" !in caps {
      AllowedRuleKeysAreOrdinary(caps);
      ForEachFeatureKeepsNoGroupRefs(Prune(AllowedFeatureRuleKeys(caps)), filtered);
    }
  }

  // ---------------------------------------------------------------------------
  // scrubExperiments

  /** The experiments an SDK is sent are exactly those the loop does not skip,
      each with the removed keys omitted. */
  lemma KeptExperimentsExactly(xs: seq<Json>, caps: Capabilities, y: Json)
    requires forall i :: 0 <= i < |xs| ==> xs[i].JObj?
    ensures y in KeptExperiments(xs, caps) <==>
      exists m {:trigger KeptItem(xs[m], caps)} :: 0 <= m < |xs| && y in KeptItem(xs[m], caps)
  {
    if y in KeptExperiments(xs, caps) {
      var m := KeptComesFrom(xs, caps, y);
    }
    if exists m {:trigger KeptItem(xs[m], caps)} :: 0 <= m < |xs| && y in KeptItem(xs[m], caps) {
      var m :| 0 <= m < |xs| && y in KeptItem(xs[m], caps);
      KeptIncludes(xs, caps, m, y);
    }
  }

  /** Every experiment sent comes from one the loop visited. */
  lemma {:induction false} KeptComesFrom(xs: seq<Json>, caps: Capabilities, y: Json) returns (m: nat)
    requires forall i :: 0 <= i < |xs| ==> xs[i].JObj?
    requires y in KeptExperiments(xs, caps)
    ensures m < |xs| && y in KeptItem(xs[m], caps)
    decreases |xs|
  {
    var n := |xs| - 1;
    var init := xs[..n];
    assert forall i :: 0 <= i < n ==> init[i] == xs[i];
    KeptExperimentsLast(xs, caps);
    if y in KeptExperiments(init, caps) {
      m := KeptComesFrom(init, caps, y);
      assert init[m] == xs[m];
    } else {
      m := n;
    }
  }

  /** Every experiment the loop keeps is sent. */
  lemma {:induction false} KeptIncludes(xs: seq<Json>, caps: Capabilities, m: nat, y: Json)
    requires forall i :: 0 <= i < |xs| ==> xs[i].JObj?
    requires m < |xs| && y in KeptItem(xs[m], caps)
    ensures y in KeptExperiments(xs, caps)
    decreases |xs|, 1
  {
    if m < |xs| - 1 {
      KeptIncludesEarlier(xs, caps, m, y);
    } else {
      KeptExperimentsLast(xs, caps);
    }
  }

  lemma {:induction false} KeptIncludesEarlier(xs: seq<Json>, caps: Capabilities, m: nat, y: Json)
    requires forall i :: 0 <= i < |xs| ==> xs[i].JObj?
    requires m < |xs| - 1 && y in KeptItem(xs[m], caps)
    ensures y in KeptExperiments(xs, caps)
    decreases |xs|, 0
  {
    var init := xs[..|xs| - 1];
    assert init[m] == xs[m];
    KeptIncludes(init, caps, m, y);
    KeptExperimentsLast(xs, caps);
  }



  /** One kept experiment, spelled out. */
  lemma KeptItemExactly(x: Json, caps: Capabilities, y: Json)
    requires x.JObj?
    ensures y in KeptItem(x, caps) <==> !Skipped(x, caps) && y == JObj(Omit(x.fields, RemovedExperimentKeys(caps)))
  {
  }

  /** What an SDK that does not support both prerequisites and redirects is
      sent: the walked experiments the loop keeps. */
  lemma ScrubbedExperimentsAreKept(experiments: Json, caps: Capabilities, ids: IdLists, y: Json)
    requires ObjectList(experiments) && WellFormed(experiments)
    requires !("prerequisites" in caps && "redirects" in caps)
    requires ScrubbedExperiments(experiments, caps, ids).Returned?
    ensures ObjectList(PayloadWalk(experiments, caps, ids).value)
    ensures var xs := PayloadWalk(experiments, caps, ids).value.items;
      var r := ScrubbedExperiments(experiments, caps, ids).value;
      r.JArr? &&
      (y in r.items <==>
        exists m {:trigger Skipped(xs[m], caps)} :: 0 <= m < |xs| && !Skipped(xs[m], caps) && y == JObj(Omit(xs[m].fields, RemovedExperimentKeys(caps))))
  {
    WalkKeepsObjectList(ids, experiments, caps);
    var xs := PayloadWalk(experiments, caps, ids).value.items;
    KeptExperimentsExactly(xs, caps, y);
    forall m | 0 <= m < |xs|
      ensures y in KeptItem(xs[m], caps) <==> !Skipped(xs[m], caps) && y == JObj(Omit(xs[m].fields, RemovedExperimentKeys(caps)))
    {
      KeptItemExactly(xs[m], caps, y);
    }
  }

  /** Every experiment of `xs` with the removed keys omitted, in order: what
      the loop would push if it skipped none. */
  function AllOmitted(xs: seq<Json>, caps: Capabilities): (r: seq<Json>)
    requires forall i :: 0 <= i < |xs| ==> xs[i].JObj?
    ensures |r| == |xs|
    ensures forall i :: 0 <= i < |xs| ==> r[i] == JObj(Omit(xs[i].fields, RemovedExperimentKeys(caps)))
  {
    seq(|xs|, i requires 0 <= i < |xs| => JObj(Omit(xs[i].fields, RemovedExperimentKeys(caps))))
  }

  /** The experiments kept come in the order of the list. */
  lemma {:induction false} KeptExperimentsInOrder(xs: seq<Json>, caps: Capabilities)
    requires forall i :: 0 <= i < |xs| ==> xs[i].JObj?
    ensures Subsequence(KeptExperiments(xs, caps), AllOmitted(xs, caps))
    decreases |xs|
  {
    if xs != [] {
      var n := |xs| - 1;
      KeptExperimentsInOrder(xs[..n], caps);
      AllOmittedLast(xs, caps);
      KeptExperimentsLast(xs, caps);
      KeptItemInOrder(xs[n], caps);
      SubsequenceConcat(KeptExperiments(xs[..n], caps), AllOmitted(xs[..n], caps),
        KeptItem(xs[n], caps), [JObj(Omit(xs[n].fields, RemovedExperimentKeys(caps)))]);
    }
  }

  lemma AllOmittedLast(xs: seq<Json>, caps: Capabilities)
    requires forall i :: 0 <= i < |xs| ==> xs[i].JObj?
    requires xs != []
    ensures AllOmitted(xs, caps) ==
      AllOmitted(xs[..|xs| - 1], caps) + [JObj(Omit(xs[|xs| - 1].fields, RemovedExperimentKeys(caps)))]
  {
  }

  lemma KeptItemInOrder(x: Json, caps: Capabilities)
    requires x.JObj?
    ensures Subsequence(KeptItem(x, caps), [JObj(Omit(x.fields, RemovedExperimentKeys(caps)))])
  {
    var y := JObj(Omit(x.fields, RemovedExperimentKeys(caps)));
    KeptItemCases(x, caps);
    assert [y][1..] == [];
  }

  /** The experiments sent keep the order of the walked list. */
  lemma ScrubbedExperimentsInOrder(experiments: Json, caps: Capabilities, ids: IdLists)
    requires ObjectList(experiments) && WellFormed(experiments)
    requires !("prerequisites" in caps && "redirects" in caps)
    requires ScrubbedExperiments(experiments, caps, ids).Returned?
    ensures ObjectList(PayloadWalk(experiments, caps, ids).value)
    ensures var xs := PayloadWalk(experiments, caps, ids).value.items;
      var r := ScrubbedExperiments(experiments, caps, ids).value;
      r.JArr? && Subsequence(r.items, AllOmitted(xs, caps))
  {
    WalkKeepsObjectList(ids, experiments, caps);
    KeptExperimentsInOrder(PayloadWalk(experiments, caps, ids).value.items, caps);
  }

  /** No redirect experiment reaches an SDK without the redirects capability,
      and no `parentConditions` one without the prerequisites capability. */
  lemma ScrubbedExperimentsSupported(experiments: Json, caps: Capabilities, ids: IdLists, y: Json)
    requires ObjectList(experiments) && WellFormed(experiments)
    requires ScrubbedExperiments(experiments, caps, ids).Returned?
    requires y in ScrubbedExperiments(experiments, caps, ids).value.items
    ensures y.JObj?
    ensures "redirects" !in caps ==> !IsRedirect(y)
    ensures "prerequisites" !in caps ==> "parentConditions" !in Keys(y.fields)
  {
    WalkKeepsObjectList(ids, experiments, caps);
    var xs := PayloadWalk(experiments, caps, ids).value.items;
    if !("prerequisites" in caps && "redirects" in caps) {
      KeptExperimentsExactly(xs, caps, y);
      var m :| 0 <= m < |xs| && y in KeptItem(xs[m], caps);
      KeptItemExactly(xs[m], caps, y);
      GetOmit(xs[m].fields, RemovedExperimentKeys(caps), "changeType");
    }
  }

  /** An SDK that supports prerequisites is sent experiments as they are
      (walked), never altered. */
  lemma PrerequisiteSdkGetsWholeExperiments(experiments: Json, caps: Capabilities, ids: IdLists, y: Json)
    requires ObjectList(experiments) && WellFormed(experiments)
    requires "prerequisites" in caps
    requires ScrubbedExperiments(experiments, caps, ids).Returned?
    requires y in ScrubbedExperiments(experiments, caps, ids).value.items
    ensures PayloadWalk(experiments, caps, ids).value.JArr?
    ensures y in PayloadWalk(experiments, caps, ids).value.items
  {
    WalkKeepsObjectList(ids, experiments, caps);
    var xs := PayloadWalk(experiments, caps, ids).value.items;
    if "redirects" !in caps {
      KeptExperimentsExactly(xs, caps, y);
      var m :| 0 <= m < |xs| && y in KeptItem(xs[m], caps);
      KeptItemExactly(xs[m], caps, y);
      OmitNothing(xs[m].fields);
    }
  }

  lemma {:induction false} KeptExperimentsKeepNoGroupRefs(xs: seq<Json>, caps: Capabilities)
    requires forall i :: 0 <= i < |xs| ==> xs[i].JObj? && NoGroupRefs(xs[i])
    ensures forall i :: 0 <= i < |KeptExperiments(xs, caps)| ==> NoGroupRefs(KeptExperiments(xs, caps)[i])
    decreases |xs|
  {
    if xs != [] {
      var n := |xs| - 1;
      var init := xs[..n];
      assert forall i :: 0 <= i < n ==> init[i] == xs[i];
      KeptExperimentsLast(xs, caps);
      KeptExperimentsKeepNoGroupRefs(init, caps);
      KeptItemKeepsNoGroupRefs(xs[n], caps);
      var a, b := KeptExperiments(init, caps), KeptItem(xs[n], caps);
      forall i | 0 <= i < |a + b|
        ensures NoGroupRefs((a + b)[i])
      {
        if i < |a| {
          assert (a + b)[i] == a[i];
        } else {
          assert (a + b)[i] == b[i - |a|];
        }
      }
    }
  }

  lemma KeptItemKeepsNoGroupRefs(x: Json, caps: Capabilities)
    requires x.JObj? && NoGroupRefs(x)
    ensures var r := KeptItem(x, caps); forall i :: 0 <= i < |r| ==> NoGroupRefs(r[i])
  {
    OmitEntries(x.fields, RemovedExperimentKeys(caps));
    NoGroupRefsEntries(x.fields, Omit(x.fields, RemovedExperimentKeys(caps)));
  }

  lemma ScrubbedExperimentsResolveGroups(experiments: Json, caps: Capabilities, ids: IdLists)
    requires ObjectList(experiments) && WellFormed(experiments)
    requires "savedGroupReferences" !in caps
    requires ScrubbedExperiments(experiments, caps, ids).Returned?
    ensures NoGroupRefs(ScrubbedExperiments(experiments, caps, ids).value)
  {
    WalkResolvesAll(ids, experiments);
    WalkKeepsObjectList(ids, experiments, caps);
    var xs := PayloadWalk(experiments, caps, ids).value.items;
    assert forall i :: 0 <= i < |xs| ==> NoGroupRefs(xs[i]);
    if !("prerequisites" in caps && "redirects" in caps) {
      KeptExperimentsKeepNoGroupRefs(xs, caps);
      var r := KeptExperiments(xs, caps);
      assert forall i :: 0 <= i < |r| ==> NoGroupRefs(r[i]);
    }
  }

  // ---------------------------------------------------------------------------
  // scrubIdLists

  /** Every SDK can evaluate its saved groups: it is sent the id lists
      verbatim, or features and experiments with no group reference left. */
  lemma IdListsShippedOrResolved(features: Json, experiments: Json, caps: Capabilities, ids: IdLists)
    requires features.JObj? && WellFormed(features)
    requires ObjectList(experiments) && WellFormed(experiments)
    requires ScrubbedFeatures(features, caps, ids).Returned?
    requires ScrubbedExperiments(experiments, caps, ids).Returned?
    ensures ScrubIdLists(ids, caps) == Some(ids) ||
      (NoGroupRefs(ScrubbedFeatures(features, caps, ids).value) &&
       NoGroupRefs(ScrubbedExperiments(experiments, caps, ids).value))
  {
    if "savedGroupReferences" !in caps {
      ScrubbedFeaturesResolveGroups(features, caps, ids);
      ScrubbedExperimentsResolveGroups(experiments, caps, ids);
    }
  }
}
