/** Resolution of saved-group references: the tree walker `recursiveWalk`
    together with its one visitor, `replaceIdLists`, which rewrites
    `{"$ingroup": g}` into `{"$in": <members of g>}` and `{"$ningroup": g}`
    into `{"$nin": <members of g>}`. */
module GroupRefs {
  import opened Wrappers
  import opened Assoc
  import opened Json

  /** Saved-group id to the ids of its members. */
  type IdLists = map<string, seq<string>>

  /** The two condition operators that refer to a saved group. */
  predicate IsGroupRef(k: string) {
    k == "$ingroup" || k == "$ningroup"
  }

  /** The operators a group reference is rewritten into. */
  predicate IsResolvedKey(k: string) {
    k == "$in" || k == "$nin"
  }

  /** `s.replace(pat, rep)` with a string pattern: only the first occurrence is replaced. */
  function ReplaceFirst(s: string, pat: string, rep: string): string
    decreases |s|
  {
    if |s| < |pat| then s
    else if s[..|pat|] == pat then rep + s[|pat|..]
    else [s[0]] + ReplaceFirst(s[1..], pat, rep)
  }

  /** `idLists[value] || []`: the members of the group `value` names, or no
      members when there is no such group. A list, even an empty one, is truthy,
      so a known group is never replaced by `[]`. */
  function ResolvedList(ids: IdLists, value: Json): Json {
    var g := PropertyKey(value);
    if g in ids then Strings(ids[g]) else Strings([])
  }

  /** The visitor `replaceIdLists(idLists)`: a replacement entry for a group
      reference, no replacement for any other key. */
  function ReplaceIdLists(ids: IdLists, key: string, value: Json): (r: Option<(string, Json)>)
    ensures r.Some? <==> IsGroupRef(key)
    ensures r.Some? ==> r.value.0 == (if key == "$ingroup" then "$in" else "$nin")
    ensures r.Some? ==> IsResolvedKey(r.value.0) && IsStringList(r.value.1)
    ensures r.Some? && value.JStr? ==> r.value.1 == Strings(if value.s in ids then ids[value.s] else [])
  {
    if key == "$ingroup" || key == "$ningroup" then
      GroupSuffixDropped();
      Some((ReplaceFirst(key, "group", ""), ResolvedList(ids, value)))
    else
      None
  }

  /** `"$ingroup".replace("group", "")` is "$in" and `"$ningroup".replace("group", "")` is "$nin". */
  lemma GroupSuffixDropped()
    ensures ReplaceFirst("$ingroup", "group", "") == "$in"
    ensures ReplaceFirst("$ningroup", "group", "") == "$nin"
  {
    InGroupSuffixDropped();
    NinGroupSuffixDropped();
  }

  /** A string that does not start with the pattern keeps its first character. */
  lemma ReplaceFirstSkip(s: string, pat: string, rep: string)
    requires |s| >= |pat| && s[..|pat|] != pat
    ensures ReplaceFirst(s, pat, rep) == [s[0]] + ReplaceFirst(s[1..], pat, rep)
  {
  }

  lemma InGroupSuffixDropped()
    ensures ReplaceFirst("$ingroup", "group", "") == "$in"
  {
    var pat := "group";
    assert "group"[..5] == pat && "group"[5..] == "";
    assert "ngroup"[..5][0] == 'n' && "ngroup"[1..] == "group";
    ReplaceFirstSkip("ngroup", pat, "");
    assert "ingroup"[..5][0] == 'i' && "ingroup"[1..] == "ngroup";
    ReplaceFirstSkip("ingroup", pat, "");
    assert "$ingroup"[..5][0] == '$' && "$ingroup"[1..] == "ingroup";
    ReplaceFirstSkip("$ingroup", pat, "");
  }

  lemma NinGroupSuffixDropped()
    ensures ReplaceFirst("$ningroup", "group", "") == "$nin"
  {
    var pat := "group";
    assert "group"[..5] == pat && "group"[5..] == "";
    assert "ngroup"[..5][0] == 'n' && "ngroup"[1..] == "group";
    ReplaceFirstSkip("ngroup", pat, "");
    assert "ingroup"[..5][0] == 'i' && "ingroup"[1..] == "ngroup";
    ReplaceFirstSkip("ingroup", pat, "");
    assert "ningroup"[..5][0] == 'n' && "ningroup"[1..] == "ingroup";
    ReplaceFirstSkip("ningroup", pat, "");
    assert "$ningroup"[..5][0] == '$' && "$ningroup"[1..] == "ningroup";
    ReplaceFirstSkip("$ningroup", pat, "");
  }

  /** The state of a walked value, and whether the walk threw a TypeError. When
      it threw, `value` is the value as far as the walk had rewritten it. */
  datatype Walked<T> = Walked(value: T, threw: bool)

  /** `recursiveWalk(j, replaceIdLists(ids))`, as the value `j` becomes. A
      value whose `typeof` is not "object" is left alone; `null`, whose typeof
      IS "object", makes `Object.entries` throw. */
  function Walk(ids: IdLists, j: Json): Walked<Json>
    requires WellFormed(j)
    decreases j, 1
  {
    match j
    case JNull => Walked(j, true)
    case JArr(items) =>
      var r := WalkItems(ids, j, 0, items);
      Walked(JArr(r.value), r.threw)
    case JObj(fields) =>
      PendingInit(fields);
      var r := WalkFields(ids, j, 0, fields);
      Walked(JObj(r.value), r.threw)
    case _ => Walked(j, false)
  }

  /** The entries of an array from index `i` on, `live` being the array so far.
      The visitor is called with the decimal index as key, which is never a group
      reference (IndexKeyIsNotGroupRef), so no element is replaced: each is
      walked in place, in order. */
  function WalkItems(ids: IdLists, j: Json, i: nat, live: seq<Json>): Walked<seq<Json>>
    requires j.JArr? && WellFormed(j) && i <= |j.items|
    requires |live| == |j.items| && live[i..] == j.items[i..]
    decreases j, 0, |j.items| - i
  {
    if i == |j.items| then Walked(live, false)
    else
      var w := Walk(ids, j.items[i]);
      var live' := live[i := w.value];
      if w.threw then Walked(live', true)
      else
        assert live'[i + 1..] == j.items[i + 1..] by {
          assert live[i..][1..] == live[i + 1..] && j.items[i..][1..] == j.items[i + 1..];
        }
        WalkItems(ids, j, i + 1, live')
  }

  /** What the forEach over `Object.entries` finds still to do from entry `i`
      of the snapshot `S` on: each pending key holds its original value, or, for
      `$in` / `$nin`, the list an earlier replacement stored under it. */
  ghost predicate Pending(S: Fields, i: nat, live: Fields) {
    forall m {:trigger Get(live, S[m].0)} :: i <= m < |S| ==>
      Get(live, S[m].0) == Some(S[m].1) ||
      (IsResolvedKey(S[m].0) && Get(live, S[m].0).Some? && IsStringList(Get(live, S[m].0).value))
  }

  /** One call of the forEach callback, on entry `i` of the snapshot `S` of
      the object's entries, `live` being the object so far. A replaced entry
      is deleted and the new key assigned: appended at the end, or overwritten
      in place if the object already has it. The recursion then goes into
      `object[key]`, which for a replacement (and for a `$in` a replacement
      overwrote) is a list of strings the walk leaves unchanged
      (WalkStringListUnchanged); otherwise it is the entry's own value, walked
      and assigned back. */
  function WalkEntry(ids: IdLists, j: Json, i: nat, live: Fields): (r: Walked<Fields>)
    requires j.JObj? && WellFormed(j) && i < |j.fields|
    requires Pending(j.fields, i, live)
    ensures !r.threw ==> Pending(j.fields, i + 1, r.value)
    decreases j, 0, |j.fields| - i, 0
  {
    var k := j.fields[i].0;
    var v := j.fields[i].1;
    match ReplaceIdLists(ids, k, v)
    case Some(repl) =>
      PendingReplace(j.fields, i, live, repl.0, repl.1);
      Walked(Put(Remove(live, k), repl.0, repl.1), false)
    case None =>
      var cur := Get(live, k).value;
      if cur == v then
        var w := Walk(ids, v);
        PendingWalk(j.fields, i, live, w.value);
        Walked(Put(live, k, w.value), w.threw)
      else
        Walked(live, false)
  }

  /** The forEach over the entries of an object, from snapshot index `i` on. */
  function WalkFields(ids: IdLists, j: Json, i: nat, live: Fields): Walked<Fields>
    requires j.JObj? && WellFormed(j) && i <= |j.fields|
    requires Pending(j.fields, i, live)
    decreases j, 0, |j.fields| - i, 1
  {
    if i == |j.fields| then Walked(live, false)
    else
      var r := WalkEntry(ids, j, i, live);
      if r.threw then r else WalkFields(ids, j, i + 1, r.value)
  }

  lemma PendingInit(S: Fields)
    requires Distinct(S)
    ensures Pending(S, 0, S)
  {
    forall m | 0 <= m < |S| ensures Get(S, S[m].0) == Some(S[m].1) {
      GetDistinct(S, m);
    }
  }

  lemma PendingReplace(S: Fields, i: nat, live: Fields, k2: string, v2: Json)
    requires Distinct(S) && i < |S| && Pending(S, i, live)
    requires IsResolvedKey(k2) && IsStringList(v2)
    ensures Pending(S, i + 1, Put(Remove(live, S[i].0), k2, v2))
  {
    forall m | i + 1 <= m < |S|
      ensures var g := Get(Put(Remove(live, S[i].0), k2, v2), S[m].0);
        g == Some(S[m].1) || (IsResolvedKey(S[m].0) && g.Some? && IsStringList(g.value))
    {
      assert S[m].0 != S[i].0;
      GetPut(Remove(live, S[i].0), k2, v2, S[m].0);
      GetRemove(live, S[i].0, S[m].0);
    }
  }

  lemma PendingWalk(S: Fields, i: nat, live: Fields, v: Json)
    requires Distinct(S) && i < |S| && Pending(S, i, live)
    ensures Pending(S, i + 1, Put(live, S[i].0, v))
  {
    forall m | i + 1 <= m < |S|
      ensures var g := Get(Put(live, S[i].0, v), S[m].0);
        g == Some(S[m].1) || (IsResolvedKey(S[m].0) && g.Some? && IsStringList(g.value))
    {
      assert S[m].0 != S[i].0;
      GetPut(live, S[i].0, v, S[m].0);
    }
  }

  /** The walk itself, as the source runs it: a forEach over the entries of
      each object or array, rewriting the value in place. */
  method RecursiveWalk(ids: IdLists, j: Json) returns (w: Walked<Json>)
    requires WellFormed(j)
    ensures w == Walk(ids, j)
    decreases j, 1
  {
    match j
    case JNull =>
      w := Walked(j, true);
    case JArr(items) =>
      var live := items;
      var i := 0;
      while i < |items|
        invariant 0 <= i <= |items| && |live| == |items| && live[i..] == items[i..]
        invariant WalkItems(ids, j, i, live) == WalkItems(ids, j, 0, items)
      {
        var c := RecursiveWalk(ids, items[i]);
        assert live[i..][1..] == live[i + 1..] && items[i..][1..] == items[i + 1..];
        live := live[i := c.value];
        if c.threw {
          return Walked(JArr(live), true);
        }
        i := i + 1;
      }
      w := Walked(JArr(live), false);
    case JObj(fields) =>
      var live := fields;
      var i := 0;
      PendingInit(fields);
      while i < |fields|
        invariant 0 <= i <= |fields| && Pending(fields, i, live)
        invariant WalkFields(ids, j, i, live) == WalkFields(ids, j, 0, fields)
      {
        ghost var before := live;
        var k := fields[i].0;
        var v := fields[i].1;
        var result := ReplaceIdLists(ids, k, v);
        if result.Some? {
          var k2 := result.value.0;
          var v2 := result.value.1;
          live := Remove(live, k);
          live := Put(live, k2, v2);
        } else {
          var cur := Get(live, k).value;
          if cur == v {
            var c := RecursiveWalk(ids, v);
            live := Put(live, k, c.value);
            if c.threw {
              assert WalkEntry(ids, j, i, before) == Walked(live, true);
              return Walked(JObj(live), true);
            }
          }
        }
        assert WalkEntry(ids, j, i, before) == Walked(live, false);
        i := i + 1;
      }
      w := Walked(JObj(live), false);
    case _ =>
      w := Walked(j, false);
  }

  /** No object key, at any depth, is a group reference. */
  ghost predicate NoGroupRefs(j: Json) {
    match j
    case JArr(items) => forall i :: 0 <= i < |items| ==> NoGroupRefs(items[i])
    case JObj(fields) => forall i :: 0 <= i < |fields| ==> !IsGroupRef(fields[i].0) && NoGroupRefs(fields[i].1)
    case _ => true
  }

  ghost predicate Clean(j: Json) {
    NoGroupRefs(j) && WellFormed(j)
  }

  /** An array index, passed to the visitor as a decimal key, is never replaced. */
  lemma IndexKeyIsNotGroupRef(ids: IdLists, i: nat, v: Json)
    ensures ReplaceIdLists(ids, NatToString(i), v) == None
  {
    var key := NatToString(i);
    assert '0' <= key[0] <= '9';
    assert "$ingroup"[0] == '$' && "$ningroup"[0] == '$';
  }

  lemma {:induction false} WalkItemsOfStrings(ids: IdLists, j: Json, i: nat)
    requires IsStringList(j) && i <= |j.items|
    ensures WellFormed(j) && WalkItems(ids, j, i, j.items) == Walked(j.items, false)
    decreases |j.items| - i
  {
    StringListFacts(j);
    if i < |j.items| {
      assert j.items[i := j.items[i]] == j.items;
      WalkItemsOfStrings(ids, j, i + 1);
    }
  }

  /** A list of strings, the value every replacement stores, comes out of the walk unchanged. */
  lemma WalkStringListUnchanged(ids: IdLists, j: Json)
    requires IsStringList(j)
    ensures WellFormed(j) && Walk(ids, j) == Walked(j, false)
  {
    WalkItemsOfStrings(ids, j, 0);
  }

  /** A walk that completes leaves no group reference anywhere, and the result
      is still a well-formed value: unresolved references never reach the payload. */
  lemma {:induction false} WalkResolvesAll(ids: IdLists, j: Json)
    requires WellFormed(j)
    ensures !Walk(ids, j).threw ==> Clean(Walk(ids, j).value)
    decreases j, 1
  {
    match j
    case JArr(items) => WalkItemsResolve(ids, j, 0, items);
    case JObj(fields) =>
      PendingInit(fields);
      assert fields[0..] == fields;
      forall x | Get(fields, x).Some? ensures x in Keys(fields) {
        GetSome(fields, x);
      }
      WalkFieldsResolve(ids, j, 0, fields);
    case _ =>
  }

  lemma {:induction false} WalkItemsResolve(ids: IdLists, j: Json, i: nat, live: seq<Json>)
    requires j.JArr? && WellFormed(j) && i <= |j.items|
    requires |live| == |j.items| && live[i..] == j.items[i..]
    requires forall m :: 0 <= m < i ==> Clean(live[m])
    ensures var r := WalkItems(ids, j, i, live);
      !r.threw ==> forall m :: 0 <= m < |r.value| ==> Clean(r.value[m])
    decreases j, 0, |j.items| - i
  {
    if i < |j.items| {
      var w := Walk(ids, j.items[i]);
      if !w.threw {
        WalkResolvesAll(ids, j.items[i]);
        assert live[i..][1..] == live[i + 1..] && j.items[i..][1..] == j.items[i + 1..];
        WalkItemsResolve(ids, j, i + 1, live[i := w.value]);
      }
    }
  }

  /** Every key of `live` that is no longer pending is an ordinary key with a clean value. */
  ghost predicate Settled(S: Fields, i: nat, live: Fields)
    requires i <= |S|
  {
    forall x :: Get(live, x).Some? && x !in Keys(S[i..]) ==>
      !IsGroupRef(x) && Clean(Get(live, x).value)
  }

  lemma SettledAfterReplace(S: Fields, i: nat, live: Fields, k2: string, v2: Json)
    requires Distinct(S) && i < |S| && Distinct(live) && Settled(S, i, live)
    requires IsResolvedKey(k2) && IsStringList(v2)
    ensures var next := Put(Remove(live, S[i].0), k2, v2);
      Distinct(next) && Settled(S, i + 1, next)
  {
    var k := S[i].0;
    var next := Put(Remove(live, k), k2, v2);
    assert S[i..][0] == S[i] && S[i..][1..] == S[i + 1..];
    assert Keys(S[i..]) == [k] + Keys(S[i + 1..]);
    DistinctRemove(live, k);
    DistinctPut(Remove(live, k), k2, v2);
    forall x | Get(next, x).Some? && x !in Keys(S[i + 1..])
      ensures !IsGroupRef(x) && Clean(Get(next, x).value)
    {
      GetPut(Remove(live, k), k2, v2, x);
      GetRemove(live, k, x);
      if x == k2 {
        StringListFacts(v2);
      }
    }
  }

  lemma SettledAfterWalk(S: Fields, i: nat, live: Fields, w: Json)
    requires Distinct(S) && i < |S| && Distinct(live) && Settled(S, i, live)
    requires !IsGroupRef(S[i].0) && Clean(w)
    ensures var next := Put(live, S[i].0, w);
      Distinct(next) && Settled(S, i + 1, next)
  {
    var k := S[i].0;
    var next := Put(live, k, w);
    assert S[i..][0] == S[i] && S[i..][1..] == S[i + 1..];
    assert Keys(S[i..]) == [k] + Keys(S[i + 1..]);
    DistinctPut(live, k, w);
    forall x | Get(next, x).Some? && x !in Keys(S[i + 1..])
      ensures !IsGroupRef(x) && Clean(Get(next, x).value)
    {
      GetPut(live, k, w, x);
    }
  }

  lemma SettledAfterSkip(S: Fields, i: nat, live: Fields)
    requires Distinct(S) && i < |S| && Settled(S, i, live)
    requires !IsGroupRef(S[i].0) && Get(live, S[i].0).Some? && Clean(Get(live, S[i].0).value)
    ensures Settled(S, i + 1, live)
  {
    assert S[i..][0] == S[i] && S[i..][1..] == S[i + 1..];
    assert Keys(S[i..]) == [S[i].0] + Keys(S[i + 1..]);
  }

  lemma {:induction false} WalkFieldsResolve(ids: IdLists, j: Json, i: nat, live: Fields)
    requires j.JObj? && WellFormed(j) && i <= |j.fields|
    requires Pending(j.fields, i, live) && Distinct(live) && Settled(j.fields, i, live)
    ensures var r := WalkFields(ids, j, i, live);
      !r.threw ==> Clean(JObj(r.value))
    decreases j, 0, |j.fields| - i, 1
  {
    if i == |j.fields| {
      forall p | 0 <= p < |live| ensures !IsGroupRef(live[p].0) && Clean(live[p].1) {
        KeyAt(live, p);
        GetDistinct(live, p);
      }
    } else {
      EntryResolves(ids, j, i, live);
      var r := WalkEntry(ids, j, i, live);
      if !r.threw {
        WalkFieldsResolve(ids, j, i + 1, r.value);
      }
    }
  }

  /** One callback settles its entry: what it stores is clean. */
  lemma {:induction false} EntryResolves(ids: IdLists, j: Json, i: nat, live: Fields)
    requires j.JObj? && WellFormed(j) && i < |j.fields|
    requires Pending(j.fields, i, live) && Distinct(live) && Settled(j.fields, i, live)
    ensures var r := WalkEntry(ids, j, i, live);
      !r.threw ==> Distinct(r.value) && Settled(j.fields, i + 1, r.value)
    decreases j, 0, |j.fields| - i, 0
  {
    var S := j.fields;
    var k := S[i].0;
    var v := S[i].1;
    var r := ReplaceIdLists(ids, k, v);
    if r.Some? {
      SettledAfterReplace(S, i, live, r.value.0, r.value.1);
    } else if Get(live, k).value == v {
      var w := Walk(ids, v);
      if !w.threw {
        WalkResolvesAll(ids, v);
        SettledAfterWalk(S, i, live, w.value);
      }
    } else {
      StringListFacts(Get(live, k).value);
      SettledAfterSkip(S, i, live);
    }
  }

  /** A walk over a value without `null` never throws. */
  lemma {:induction false} NullFreeWalkCompletes(ids: IdLists, j: Json)
    requires WellFormed(j) && NoNulls(j)
    ensures !Walk(ids, j).threw
    decreases j, 1
  {
    match j
    case JArr(items) => NullFreeItemsComplete(ids, j, 0, items);
    case JObj(fields) =>
      PendingInit(fields);
      NullFreeFieldsComplete(ids, j, 0, fields);
    case _ =>
  }

  lemma {:induction false} NullFreeItemsComplete(ids: IdLists, j: Json, i: nat, live: seq<Json>)
    requires j.JArr? && WellFormed(j) && NoNulls(j) && i <= |j.items|
    requires |live| == |j.items| && live[i..] == j.items[i..]
    ensures !WalkItems(ids, j, i, live).threw
    decreases j, 0, |j.items| - i
  {
    if i < |j.items| {
      var w := Walk(ids, j.items[i]);
      NullFreeWalkCompletes(ids, j.items[i]);
      assert live[i..][1..] == live[i + 1..] && j.items[i..][1..] == j.items[i + 1..];
      NullFreeItemsComplete(ids, j, i + 1, live[i := w.value]);
    }
  }

  lemma {:induction false} NullFreeFieldsComplete(ids: IdLists, j: Json, i: nat, live: Fields)
    requires j.JObj? && WellFormed(j) && NoNulls(j) && i <= |j.fields|
    requires Pending(j.fields, i, live)
    ensures !WalkFields(ids, j, i, live).threw
    decreases j, 0, |j.fields| - i, 1
  {
    if i < |j.fields| {
      var v := j.fields[i].1;
      NullFreeWalkCompletes(ids, v);
      var r := WalkEntry(ids, j, i, live);
      NullFreeFieldsComplete(ids, j, i + 1, r.value);
    }
  }

  /** An ordinary key (neither a group reference nor `$in` / `$nin`) keeps its
      place in the object and ends up holding its own value, walked; a key
      the object did not have is not added. */
  lemma WalkKeepsOrdinaryKeys(ids: IdLists, j: Json, p: nat, x: string)
    requires j.JObj? && WellFormed(j) && p < |j.fields|
    requires !IsGroupRef(j.fields[p].0) && !IsResolvedKey(j.fields[p].0)
    requires !IsGroupRef(x) && !IsResolvedKey(x) && x !in Keys(j.fields)
    ensures var w := Walk(ids, j);
      !w.threw ==>
        Get(w.value.fields, j.fields[p].0) == Some(Walk(ids, j.fields[p].1).value) &&
        Get(w.value.fields, x) == None
  {
    PendingInit(j.fields);
    GetDistinct(j.fields, p);
    GetSome(j.fields, x);
    KeepsOrdinaryKeysFrom(ids, j, 0, j.fields, p, x, Walk(ids, j.fields[p].1).value);
  }

  /** The ordinary key `S[p].0` holds `wp`, its walked value, once its entry
      is done and its original value before; the absent key `x` stays absent. */
  ghost predicate Kept(S: Fields, i: nat, live: Fields, p: nat, x: string, wp: Json)
    requires p < |S|
  {
    Get(live, S[p].0) == Some(if p < i then wp else S[p].1) && Get(live, x) == None
  }

  /** Kept at the end of the walk, unless it threw. */
  ghost predicate KeptUnlessThrew(S: Fields, r: Walked<Fields>, p: nat, x: string, wp: Json)
    requires p < |S|
  {
    !r.threw ==> Kept(S, |S|, r.value, p, x, wp)
  }

  lemma KeptAfterReplace(S: Fields, i: nat, live: Fields, p: nat, x: string, wp: Json, k2: string, v2: Json)
    requires Distinct(S) && i < |S| && p < |S| && Kept(S, i, live, p, x, wp)
    requires IsGroupRef(S[i].0) && !IsGroupRef(S[p].0) && !IsResolvedKey(S[p].0)
    requires IsResolvedKey(k2) && !IsResolvedKey(x)
    ensures Kept(S, i + 1, Put(Remove(live, S[i].0), k2, v2), p, x, wp)
  {
    var k := S[i].0;
    assert i != p;
    GetPut(Remove(live, k), k2, v2, S[p].0);
    GetRemove(live, k, S[p].0);
    GetPut(Remove(live, k), k2, v2, x);
    GetRemove(live, k, x);
  }

  lemma KeptAfterWalk(S: Fields, i: nat, live: Fields, p: nat, x: string, wp: Json, w: Json)
    requires Distinct(S) && i < |S| && p < |S| && Kept(S, i, live, p, x, wp)
    requires x != S[i].0 && (i == p ==> w == wp)
    ensures Kept(S, i + 1, Put(live, S[i].0, w), p, x, wp)
  {
    GetPut(live, S[i].0, w, S[p].0);
    GetPut(live, S[i].0, w, x);
  }

  lemma KeptAfterSkip(S: Fields, i: nat, live: Fields, p: nat, x: string, wp: Json)
    requires i < |S| && p < |S| && i != p && Kept(S, i, live, p, x, wp)
    ensures Kept(S, i + 1, live, p, x, wp)
  {
  }

  lemma {:induction false} KeepsOrdinaryKeysFrom(ids: IdLists, j: Json, i: nat, live: Fields, p: nat, x: string, wp: Json)
    requires j.JObj? && WellFormed(j) && i <= |j.fields| && Pending(j.fields, i, live)
    requires p < |j.fields| && !IsGroupRef(j.fields[p].0) && !IsResolvedKey(j.fields[p].0)
    requires wp == Walk(ids, j.fields[p].1).value
    requires Kept(j.fields, i, live, p, x, wp)
    requires !IsResolvedKey(x)
    ensures KeptUnlessThrew(j.fields, WalkFields(ids, j, i, live), p, x, wp)
    decreases |j.fields| - i
  {
    if i < |j.fields| {
      KeptAfterEntry(ids, j, i, live, p, x, wp);
      var r := WalkEntry(ids, j, i, live);
      if !r.threw {
        KeepsOrdinaryKeysFrom(ids, j, i + 1, r.value, p, x, wp);
      }
    }
  }

  lemma KeptAfterEntry(ids: IdLists, j: Json, i: nat, live: Fields, p: nat, x: string, wp: Json)
    requires j.JObj? && WellFormed(j) && i < |j.fields| && Pending(j.fields, i, live)
    requires p < |j.fields| && !IsGroupRef(j.fields[p].0) && !IsResolvedKey(j.fields[p].0)
    requires wp == Walk(ids, j.fields[p].1).value
    requires Kept(j.fields, i, live, p, x, wp)
    requires !IsResolvedKey(x)
    ensures var r := WalkEntry(ids, j, i, live);
      !r.threw ==> Kept(j.fields, i + 1, r.value, p, x, wp)
  {
    var S := j.fields;
    var k := S[i].0;
    var v := S[i].1;
    var r := ReplaceIdLists(ids, k, v);
    if r.Some? {
      KeptAfterReplace(S, i, live, p, x, wp, r.value.0, r.value.1);
    } else if Get(live, k).value == v {
      KeptAfterWalk(S, i, live, p, x, wp, Walk(ids, v).value);
    } else {
      KeptAfterSkip(S, i, live, p, x, wp);
    }
  }

  /** `{"$ingroup": g}` resolves to `{"$in": <members of g>}`, and to `{"$in": []}`
      when `g` is not a known saved group; likewise `$ningroup` to `$nin`. */
  lemma ResolvesGroupReference(ids: IdLists, op: string, g: string)
    requires IsGroupRef(op)
    ensures var w := Walk(ids, JObj([(op, JStr(g))]));
      !w.threw &&
      w.value == JObj([(if op == "$ingroup" then "$in" else "$nin",
                        Strings(if g in ids then ids[g] else []))])
  {
    var S := [(op, JStr(g))];
    var k2 := if op == "$ingroup" then "$in" else "$nin";
    var l := ResolvedList(ids, JStr(g));
    PendingInit(S);
    assert Remove(S, op) == [];
    assert Put([], k2, l) == [(k2, l)];
    assert WalkEntry(ids, JObj(S), 0, S) == Walked([(k2, l)], false);
    assert WalkFields(ids, JObj(S), 1, [(k2, l)]) == Walked([(k2, l)], false);
  }

  /** The rewritten entry is deleted and re-added, so it moves to the end of
      the object's key order. */
  lemma ReplacedKeyMovesToEnd(ids: IdLists, g: string, k: string, s: string)
    requires !IsGroupRef(k) && !IsResolvedKey(k)
    ensures var w := Walk(ids, JObj([("$ingroup", JStr(g)), (k, JStr(s))]));
      !w.threw && w.value == JObj([(k, JStr(s)), ("$in", ResolvedList(ids, JStr(g)))])
  {
    var S := [("$ingroup", JStr(g)), (k, JStr(s))];
    var l := ResolvedList(ids, JStr(g));
    var live := [(k, JStr(s)), ("$in", l)];
    assert Distinct(S);
    PendingInit(S);
    assert Remove(S, "$ingroup") == [(k, JStr(s))] by {
      assert S[1..] == [(k, JStr(s))] && S[1..][1..] == [];
      assert Remove(S[1..], "$ingroup") == [(k, JStr(s))] + Remove(S[1..][1..], "$ingroup");
    }
    assert Keys([(k, JStr(s))]) == [k];
    assert Put([(k, JStr(s))], "$in", l) == live;
    assert WalkEntry(ids, JObj(S), 0, S) == Walked(live, false);
    MovedKeyWalked(ids, g, k, s);
  }

  /** The second callback of ReplacedKeyMovesToEnd: the ordinary entry, now
      first, is walked in place. */
  lemma MovedKeyWalked(ids: IdLists, g: string, k: string, s: string)
    requires !IsGroupRef(k) && !IsResolvedKey(k)
    ensures var S := [("$ingroup", JStr(g)), (k, JStr(s))];
      var live := [(k, JStr(s)), ("$in", ResolvedList(ids, JStr(g)))];
      WellFormed(JObj(S)) && Pending(S, 1, live) &&
      WalkFields(ids, JObj(S), 1, live) == Walked(live, false)
  {
    var S := [("$ingroup", JStr(g)), (k, JStr(s))];
    var l := ResolvedList(ids, JStr(g));
    var live := [(k, JStr(s)), ("$in", l)];
    StringListFacts(l);
    assert Distinct(S);
    assert Get(live, k) == Some(JStr(s));
    assert Pending(S, 1, live);
    assert Keys(live) == [k, "$in"];
    assert Put(live, k, JStr(s)) == live by {
      assert Replace(live, k, JStr(s)) == [(k, JStr(s))] + Replace(live[1..], k, JStr(s));
      assert live[1..] == [("$in", l)];
    }
    assert WalkEntry(ids, JObj(S), 1, live) == Walked(live, false);
  }

  /** A `null` under an ordinary key makes the walk throw... */
  lemma NullValueThrows(ids: IdLists, k: string)
    requires !IsGroupRef(k)
    ensures Walk(ids, JObj([(k, JNull)])).threw
  {
    var S := [(k, JNull)];
    PendingInit(S);
    assert WalkEntry(ids, JObj(S), 0, S).threw;
  }

  /** ...but a `null` group id is replaced before the walk descends, so it
      resolves (as the group named "null") without throwing. */
  lemma NullGroupIdResolves(ids: IdLists)
    ensures var w := Walk(ids, JObj([("$ingroup", JNull)]));
      !w.threw && w.value == JObj([("$in", Strings(if "null" in ids then ids["null"] else []))])
  {
    var S := [("$ingroup", JNull)];
    var l := ResolvedList(ids, JNull);
    PendingInit(S);
    assert Remove(S, "$ingroup") == [];
    assert Put([], "$in", l) == [("$in", l)];
    assert WalkEntry(ids, JObj(S), 0, S) == Walked([("$in", l)], false);
    assert WalkFields(ids, JObj(S), 1, [("$in", l)]) == Walked([("$in", l)], false);
  }

  /** Wherever `op: g` sits among its siblings (a `$in` / `$nin` before or
      after it included), the walked object holds the resolved operator with
      exactly the members of `g`, or no members for an unknown group. */
  lemma WalkResolvesGroupRef(ids: IdLists, j: Json, op: string, g: string)
    requires j.JObj? && WellFormed(j) && IsGroupRef(op)
    requires Get(j.fields, op) == Some(JStr(g))
    ensures var w := Walk(ids, j);
      !w.threw ==>
        w.value.JObj? &&
        Get(w.value.fields, if op == "$ingroup" then "$in" else "$nin") == Some(Strings(if g in ids then ids[g] else []))
  {
    var S := j.fields;
    GetEntry(S, op);
    var q :| 0 <= q < |S| && S[q] == (op, JStr(g));
    PendingInit(S);
    ResolvedFrom(ids, j, 0, S, q, if op == "$ingroup" then "$in" else "$nin", ResolvedList(ids, JStr(g)));
  }

  /** The operator a group reference resolves to. */
  predicate ResolvesTo(op: string, rk: string) {
    (op == "$ingroup" && rk == "$in") || (op == "$ningroup" && rk == "$nin")
  }

  /** Once the callback of the group reference at `q` has run, its resolved
      operator `rk` holds the resolved list `l`. */
  ghost predicate HoldsResolved(i: nat, live: Fields, q: nat, rk: string, l: Json) {
    q < i ==> Get(live, rk) == Some(l)
  }

  lemma {:induction false} ResolvedFrom(ids: IdLists, j: Json, i: nat, live: Fields, q: nat, rk: string, l: Json)
    requires j.JObj? && WellFormed(j) && i <= |j.fields| && Pending(j.fields, i, live)
    requires q < |j.fields| && ResolvesTo(j.fields[q].0, rk) && l == ResolvedList(ids, j.fields[q].1)
    requires HoldsResolved(i, live, q, rk, l)
    ensures var r := WalkFields(ids, j, i, live);
      !r.threw ==> HoldsResolved(|j.fields|, r.value, q, rk, l)
    decreases |j.fields| - i
  {
    if i < |j.fields| {
      ResolvedAfterEntry(ids, j, i, live, q, rk, l);
      var r := WalkEntry(ids, j, i, live);
      if !r.threw {
        ResolvedFrom(ids, j, i + 1, r.value, q, rk, l);
      }
    }
  }

  lemma ResolvedAfterEntry(ids: IdLists, j: Json, i: nat, live: Fields, q: nat, rk: string, l: Json)
    requires j.JObj? && WellFormed(j) && i < |j.fields| && Pending(j.fields, i, live)
    requires q < |j.fields| && ResolvesTo(j.fields[q].0, rk) && l == ResolvedList(ids, j.fields[q].1)
    requires HoldsResolved(i, live, q, rk, l)
    ensures var r := WalkEntry(ids, j, i, live);
      !r.threw ==> HoldsResolved(i + 1, r.value, q, rk, l)
  {
    var S := j.fields;
    var k := S[i].0;
    var v := S[i].1;
    var repl := ReplaceIdLists(ids, k, v);
    if repl.Some? {
      GetPut(Remove(live, k), repl.value.0, repl.value.1, rk);
      GetRemove(live, k, rk);
      assert i != q ==> k != S[q].0;
    } else if Get(live, k).value == v {
      var w := Walk(ids, v);
      GetPut(live, k, w.value, rk);
      if k == rk && q < i {
        WalkStringListUnchanged(ids, l);
      }
    }
  }

  /** A step from a value to one of its parts: an object's property or an
      array's element. */
  datatype Step = Field(key: string) | Index(index: nat)

  /** The part of `j` that `path` leads to, if there is one. */
  ghost function At(j: Json, path: seq<Step>): Option<Json>
    decreases |path|
  {
    if path == [] then Some(j)
    else match path[0]
      case Field(k) =>
        if j.JObj? && Get(j.fields, k).Some? then At(Get(j.fields, k).value, path[1..]) else None
      case Index(i) =>
        if j.JArr? && i < |j.items| then At(j.items[i], path[1..]) else None
  }

  /** A path through properties that the walk never renames. */
  ghost predicate OrdinaryPath(path: seq<Step>) {
    forall m :: 0 <= m < |path| && path[m].Field? ==> !IsGroupRef(path[m].key) && !IsResolvedKey(path[m].key)
  }

  /** A string longer than each of `ks`, so none of them. */
  function Longer(ks: seq<string>): (x: string)
    ensures |x| > 0 && x[0] == 'a'
    ensures forall i :: 0 <= i < |ks| ==> |ks[i]| < |x|
  {
    if ks == [] then "a"
    else
      var y := Longer(ks[1..]);
      assert forall i :: 1 <= i < |ks| ==> ks[i] == ks[1..][i - 1];
      "a" + y + ks[0]
  }

  /** A completed walk also completed the walk of the value under each
      ordinary key. */
  lemma FieldWalkCompletes(ids: IdLists, j: Json, p: nat)
    requires j.JObj? && WellFormed(j) && p < |j.fields|
    requires !IsGroupRef(j.fields[p].0) && !IsResolvedKey(j.fields[p].0)
    ensures !Walk(ids, j).threw ==> WellFormed(j.fields[p].1) && !Walk(ids, j.fields[p].1).threw
  {
    PendingInit(j.fields);
    FieldCompletesFrom(ids, j, 0, j.fields, p);
  }

  lemma {:induction false} FieldCompletesFrom(ids: IdLists, j: Json, i: nat, live: Fields, p: nat)
    requires j.JObj? && WellFormed(j) && i <= p < |j.fields| && Pending(j.fields, i, live)
    requires !IsGroupRef(j.fields[p].0) && !IsResolvedKey(j.fields[p].0)
    ensures !WalkFields(ids, j, i, live).threw ==> !Walk(ids, j.fields[p].1).threw
    decreases p - i
  {
    var r := WalkEntry(ids, j, i, live);
    if i < p && !r.threw {
      FieldCompletesFrom(ids, j, i + 1, r.value, p);
    }
  }

  /** A completed walk of an array walked each element, completely, in place. */
  lemma ItemWalked(ids: IdLists, j: Json, m: nat)
    requires j.JArr? && WellFormed(j) && m < |j.items|
    ensures var w := Walk(ids, j);
      !w.threw ==>
        !Walk(ids, j.items[m]).threw && m < |w.value.items| && w.value.items[m] == Walk(ids, j.items[m]).value
  {
    ItemWalkedFrom(ids, j, 0, j.items, m);
  }

  lemma {:induction false} ItemWalkedFrom(ids: IdLists, j: Json, i: nat, live: seq<Json>, m: nat)
    requires j.JArr? && WellFormed(j) && i <= |j.items| && m < |j.items|
    requires |live| == |j.items| && live[i..] == j.items[i..]
    requires m < i ==> !Walk(ids, j.items[m]).threw && live[m] == Walk(ids, j.items[m]).value
    ensures var r := WalkItems(ids, j, i, live);
      !r.threw ==>
        !Walk(ids, j.items[m]).threw && m < |r.value| && r.value[m] == Walk(ids, j.items[m]).value
    decreases |j.items| - i
  {
    if i < |j.items| {
      var w := Walk(ids, j.items[i]);
      if !w.threw {
        assert live[i..][1..] == live[i + 1..] && j.items[i..][1..] == j.items[i + 1..];
        ItemWalkedFrom(ids, j, i + 1, live[i := w.value], m);
      }
    }
  }

  /** The walk commutes with following an ordinary path: a completed walk
      completed the walk of the part the path leads to, and leaves that part,
      walked, at the end of the same path. */
  lemma {:induction false} WalkAt(ids: IdLists, j: Json, path: seq<Step>)
    requires WellFormed(j) && OrdinaryPath(path) && At(j, path).Some?
    ensures !Walk(ids, j).threw ==>
      WellFormed(At(j, path).value) && !Walk(ids, At(j, path).value).threw &&
      At(Walk(ids, j).value, path) == Some(Walk(ids, At(j, path).value).value)
    decreases |path|
  {
    if path != [] && !Walk(ids, j).threw {
      assert OrdinaryPath(path[1..]) by {
        forall m | 0 <= m < |path[1..]| && path[1..][m].Field?
          ensures !IsGroupRef(path[1..][m].key) && !IsResolvedKey(path[1..][m].key)
        {
          assert path[1..][m] == path[m + 1];
        }
      }
      match path[0]
      case Field(k) =>
        var S := j.fields;
        GetEntry(S, k);
        var p :| 0 <= p < |S| && S[p] == (k, Get(S, k).value);
        var x := Longer(Keys(S));
        assert x !in Keys(S) by {
          forall m | 0 <= m < |Keys(S)| ensures Keys(S)[m] != x {
            assert |Keys(S)[m]| < |x|;
          }
        }
        assert !IsGroupRef(x) && !IsResolvedKey(x) by {
          assert "$ingroup"[0] == '$' && "$ningroup"[0] == '$' && "$in"[0] == '$' && "$nin"[0] == '$';
        }
        WalkKeepsOrdinaryKeys(ids, j, p, x);
        FieldWalkCompletes(ids, j, p);
        WalkAt(ids, S[p].1, path[1..]);
      case Index(i) =>
        ItemWalked(ids, j, i);
        WalkAt(ids, j.items[i], path[1..]);
    }
  }

  /** At any depth reached through ordinary properties and array elements,
      `op: g` is resolved to `g`'s members; with WalkResolvesAll no group
      reference is left anywhere. */
  lemma ResolvesGroupReferenceAt(ids: IdLists, j: Json, path: seq<Step>, op: string, g: string)
    requires WellFormed(j) && OrdinaryPath(path) && IsGroupRef(op)
    requires At(j, path).Some? && At(j, path).value.JObj?
    requires Get(At(j, path).value.fields, op) == Some(JStr(g))
    ensures var w := Walk(ids, j);
      !w.threw ==>
        At(w.value, path).Some? && At(w.value, path).value.JObj? &&
        Get(At(w.value, path).value.fields, if op == "$ingroup" then "$in" else "$nin")
          == Some(Strings(if g in ids then ids[g] else []))
  {
    WalkAt(ids, j, path);
    if !Walk(ids, j).threw {
      WalkResolvesGroupRef(ids, At(j, path).value, op, g);
    }
  }
}
