/** Ordered association lists. A JavaScript object's own properties and a
    JavaScript `Map` both remember the order in which keys were first
    inserted; assigning to a key that is already present keeps its place,
    deleting a key removes it, and assigning to a new key appends it. */
module Assoc {
  import opened Wrappers

  function Keys<V>(s: seq<(string, V)>): (ks: seq<string>)
    ensures |ks| == |s|
    ensures forall i {:trigger ks[i]} :: 0 <= i < |s| ==> ks[i] == s[i].0
  {
    if s == [] then [] else [s[0].0] + Keys(s[1..])
  }

  /** No key occurs twice: true of every JavaScript object and Map. */
  ghost predicate Distinct<V>(s: seq<(string, V)>) {
    forall i, j :: 0 <= i < j < |s| ==> s[i].0 != s[j].0
  }

  /** `obj[k]` / `map.get(k)`: the value stored under `k`, if any. */
  function Get<V>(s: seq<(string, V)>, k: string): (r: Option<V>)
  {
    if s == [] then None
    else if s[0].0 == k then Some(s[0].1)
    else Get(s[1..], k)
  }

  /** A key has a value exactly when it is among the keys. */
  lemma GetSome<V>(s: seq<(string, V)>, k: string)
    ensures Get(s, k).Some? <==> k in Keys(s)
  {
    if s != [] && s[0].0 != k {
      GetSome(s[1..], k);
    }
  }

  /** `delete obj[k]` / `map.delete(k)`. */
  function Remove<V>(s: seq<(string, V)>, k: string): (r: seq<(string, V)>)
    ensures k !in Keys(r)
    ensures forall x :: x in Keys(r) ==> x in Keys(s)
  {
    if s == [] then []
    else if s[0].0 == k then Remove(s[1..], k)
    else [s[0]] + Remove(s[1..], k)
  }

  /** Overwrites, in place, every entry stored under `k`. */
  function Replace<V>(s: seq<(string, V)>, k: string, v: V): (r: seq<(string, V)>)
    ensures Keys(r) == Keys(s)
  {
    if s == [] then []
    else [if s[0].0 == k then (k, v) else s[0]] + Replace(s[1..], k, v)
  }

  /** `obj[k] = v` / `map.set(k, v)`: in place when `k` is present, appended otherwise. */
  function Put<V>(s: seq<(string, V)>, k: string, v: V): (r: seq<(string, V)>)
    ensures k in Keys(s) ==> Keys(r) == Keys(s)
    ensures k !in Keys(s) ==> Keys(r) == Keys(s) + [k]
  {
    if k in Keys(s) then Replace(s, k, v) else s + [(k, v)]
  }

  /** lodash `pick(obj, ks)`: the entries of `s` whose keys are in `ks`,
      in the order of `ks`. */
  function Pick<V>(s: seq<(string, V)>, ks: seq<string>): (r: seq<(string, V)>)
    ensures forall i :: 0 <= i < |r| ==> r[i].0 in ks && Get(s, r[i].0) == Some(r[i].1)
  {
    if ks == [] then []
    else match Get(s, ks[0])
      case Some(v) => [(ks[0], v)] + Pick(s, ks[1..])
      case None => Pick(s, ks[1..])
  }

  /** lodash `omit(obj, ks)`: the entries of `s` whose keys are not in `ks`,
      in their own order. */
  function Omit<V>(s: seq<(string, V)>, ks: seq<string>): (r: seq<(string, V)>)
    ensures forall x :: x in Keys(r) ==> x in Keys(s) && x !in ks
  {
    if s == [] then []
    else if s[0].0 in ks then Omit(s[1..], ks)
    else [s[0]] + Omit(s[1..], ks)
  }

  /** The key of the `i`-th entry is among the keys. */
  lemma KeyAt<V>(s: seq<(string, V)>, i: nat)
    requires i < |s|
    ensures s[i].0 in Keys(s)
  {
    assert Keys(s)[i] == s[i].0;
  }

  lemma KeysPrefix<V>(s: seq<(string, V)>, n: nat)
    requires n <= |s|
    ensures Keys(s[..n]) == Keys(s)[..n]
  {
    assert forall i :: 0 <= i < n ==> Keys(s[..n])[i] == Keys(s)[i];
  }

  lemma KeysAppend<V>(a: seq<(string, V)>, b: seq<(string, V)>)
    ensures Keys(a + b) == Keys(a) + Keys(b)
  {
  }

  lemma GetAppend<V>(a: seq<(string, V)>, b: seq<(string, V)>, x: string)
    ensures Get(a + b, x) == if x in Keys(a) then Get(a, x) else Get(b, x)
  {
    if a != [] {
      assert (a + b)[0] == a[0] && (a + b)[1..] == a[1..] + b;
      assert Keys(a) == [a[0].0] + Keys(a[1..]);
      GetAppend(a[1..], b, x);
    } else {
      assert a + b == b;
    }
  }

  lemma GetReplace<V>(s: seq<(string, V)>, k: string, v: V, x: string)
    ensures Get(Replace(s, k, v), x) == if x == k && k in Keys(s) then Some(v) else Get(s, x)
  {
    if s != [] {
      GetReplace(s[1..], k, v, x);
    }
  }

  lemma GetPut<V>(s: seq<(string, V)>, k: string, v: V, x: string)
    ensures Get(Put(s, k, v), x) == if x == k then Some(v) else Get(s, x)
  {
    if k in Keys(s) {
      GetReplace(s, k, v, x);
    } else {
      GetAppend(s, [(k, v)], x);
      GetSome(s, x);
    }
  }

  lemma GetRemove<V>(s: seq<(string, V)>, k: string, x: string)
    ensures Get(Remove(s, k), x) == if x == k then None else Get(s, x)
  {
    if s != [] {
      GetRemove(s[1..], k, x);
    }
  }

  /** In a list without repeated keys, looking up an entry's key finds it. */
  lemma GetDistinct<V>(s: seq<(string, V)>, i: nat)
    requires Distinct(s) && i < |s|
    ensures Get(s, s[i].0) == Some(s[i].1)
  {
    if i > 0 {
      assert s[0].0 != s[i].0;
      assert s[1..][i - 1] == s[i];
      GetDistinct(s[1..], i - 1);
    }
  }

  lemma DistinctRemove<V>(s: seq<(string, V)>, k: string)
    requires Distinct(s)
    ensures Distinct(Remove(s, k))
  {
    if s != [] {
      DistinctRemove(s[1..], k);
      var t := Remove(s[1..], k);
      forall j | 0 <= j < |t| ensures t[j].0 != s[0].0 {
        KeyAt(t, j);
      }
    }
  }

  lemma DistinctPut<V>(s: seq<(string, V)>, k: string, v: V)
    requires Distinct(s)
    ensures Distinct(Put(s, k, v))
  {
    var r := Put(s, k, v);
    var ks := Keys(r);
    forall i, j | 0 <= i < j < |r| ensures r[i].0 != r[j].0 {
      assert ks[i] == r[i].0 && ks[j] == r[j].0;
      if k !in Keys(s) && j == |s| {
        assert Keys(s)[i] == s[i].0;
      }
    }
  }


  lemma RemoveAbsent<V>(s: seq<(string, V)>, k: string)
    requires k !in Keys(s)
    ensures Remove(s, k) == s
  {
    if s != [] {
      assert Keys(s) == [s[0].0] + Keys(s[1..]);
      RemoveAbsent(s[1..], k);
    }
  }

  lemma ReplaceAbsent<V>(s: seq<(string, V)>, k: string, v: V)
    requires k !in Keys(s)
    ensures Replace(s, k, v) == s
  {
    if s != [] {
      assert Keys(s) == [s[0].0] + Keys(s[1..]);
      ReplaceAbsent(s[1..], k, v);
    }
  }

  lemma RemoveAppend<V>(a: seq<(string, V)>, b: seq<(string, V)>, k: string)
    ensures Remove(a + b, k) == Remove(a, k) + Remove(b, k)
  {
    if a == [] {
      assert a + b == b;
    } else {
      assert (a + b)[0] == a[0] && (a + b)[1..] == a[1..] + b;
      RemoveAppend(a[1..], b, k);
    }
  }

  lemma ReplaceAppend<V>(a: seq<(string, V)>, b: seq<(string, V)>, k: string, v: V)
    ensures Replace(a + b, k, v) == Replace(a, k, v) + Replace(b, k, v)
  {
    if a == [] {
      assert a + b == b;
    } else {
      assert (a + b)[0] == a[0] && (a + b)[1..] == a[1..] + b;
      ReplaceAppend(a[1..], b, k, v);
    }
  }

  /** Deleting a key stored once, between entries without it, drops just that entry. */
  lemma RemoveUnique<V>(a: seq<(string, V)>, k: string, v: V, b: seq<(string, V)>)
    requires k !in Keys(a) && k !in Keys(b)
    ensures Remove(a + [(k, v)] + b, k) == a + b
  {
    var e: seq<(string, V)> := [(k, v)];
    assert Remove(e, k) == [] by {
      assert e[1..] == [];
    }
    RemoveAppend(a + e, b, k);
    RemoveAppend(a, e, k);
    RemoveAbsent(a, k);
    RemoveAbsent(b, k);
    assert a + [] == a;
  }

  /** Assigning to a key stored once overwrites that entry where it stands. */
  lemma PutUnique<V>(a: seq<(string, V)>, k: string, v: V, b: seq<(string, V)>, w: V)
    requires k !in Keys(a) && k !in Keys(b)
    ensures Put(a + [(k, v)] + b, k, w) == a + [(k, w)] + b
  {
    assert k in Keys(a + [(k, v)] + b) by {
      KeysAppend(a + [(k, v)], b);
      KeysAppend(a, [(k, v)]);
    }
    ReplaceUnique(a, k, v, b, w);
  }

  lemma ReplaceUnique<V>(a: seq<(string, V)>, k: string, v: V, b: seq<(string, V)>, w: V)
    requires k !in Keys(a) && k !in Keys(b)
    ensures Replace(a + [(k, v)] + b, k, w) == a + [(k, w)] + b
  {
    var e: seq<(string, V)> := [(k, v)];
    assert Replace(e, k, w) == [(k, w)] by {
      assert e[1..] == [];
    }
    ReplaceAppend(a + e, b, k, w);
    ReplaceAppend(a, e, k, w);
    ReplaceAbsent(a, k, w);
    ReplaceAbsent(b, k, w);
  }

  lemma GetUnique<V>(a: seq<(string, V)>, k: string, v: V, b: seq<(string, V)>)
    requires k !in Keys(a)
    ensures Get(a + [(k, v)] + b, k) == Some(v)
  {
    assert a + [(k, v)] + b == a + ([(k, v)] + b);
    GetAppend(a, [(k, v)] + b, k);
  }

  /** A value `Get` finds is stored in one of the entries. */
  lemma GetEntry<V>(s: seq<(string, V)>, k: string)
    requires Get(s, k).Some?
    ensures exists i :: 0 <= i < |s| && s[i] == (k, Get(s, k).value)
  {
    if s[0].0 != k {
      GetEntry(s[1..], k);
      var i :| 0 <= i < |s[1..]| && s[1..][i] == (k, Get(s, k).value);
      assert s[i + 1] == s[1..][i];
    }
  }

  lemma RemoveEntries<V>(s: seq<(string, V)>, k: string)
    ensures forall i :: 0 <= i < |Remove(s, k)| ==> Remove(s, k)[i] in s
  {
    if s != [] {
      RemoveEntries(s[1..], k);
    }
  }

  lemma PutEntries<V>(s: seq<(string, V)>, k: string, v: V)
    ensures forall i :: 0 <= i < |Put(s, k, v)| ==> Put(s, k, v)[i] in s || Put(s, k, v)[i] == (k, v)
  {
    if k in Keys(s) {
      ReplaceEntries(s, k, v);
    }
  }

  lemma ReplaceEntries<V>(s: seq<(string, V)>, k: string, v: V)
    ensures forall i :: 0 <= i < |Replace(s, k, v)| ==> Replace(s, k, v)[i] in s || Replace(s, k, v)[i] == (k, v)
  {
    if s != [] {
      ReplaceEntries(s[1..], k, v);
      var r := Replace(s, k, v);
      forall i | 0 <= i < |r| ensures r[i] in s || r[i] == (k, v) {
        if i > 0 {
          assert r[i] == Replace(s[1..], k, v)[i - 1];
        }
      }
    }
  }

  /** `omit` leaves every key it does not name as it was. */
  lemma GetOmit<V>(s: seq<(string, V)>, ks: seq<string>, x: string)
    requires x !in ks
    ensures Get(Omit(s, ks), x) == Get(s, x)
  {
    if s != [] {
      GetOmit(s[1..], ks, x);
    }
  }

  lemma OmitNothing<V>(s: seq<(string, V)>)
    ensures Omit(s, []) == s
  {
    if s != [] {
      OmitNothing(s[1..]);
    }
  }

  lemma OmitEntries<V>(s: seq<(string, V)>, ks: seq<string>)
    ensures forall i :: 0 <= i < |Omit(s, ks)| ==> Omit(s, ks)[i] in s
  {
    if s != [] {
      OmitEntries(s[1..], ks);
    }
  }

  /** `pick` never yields a key it was not asked for. */
  lemma PickKeys<V>(s: seq<(string, V)>, ks: seq<string>, x: string)
    requires x in Keys(Pick(s, ks))
    ensures x in ks
  {
    var r := Pick(s, ks);
    var i :| 0 <= i < |r| && Keys(r)[i] == x;
    assert r[i].0 == x;
  }

  /** `pick` keeps the value of every key it was asked for. */
  lemma GetPick<V>(s: seq<(string, V)>, ks: seq<string>, x: string)
    requires x in ks
    ensures Get(Pick(s, ks), x) == Get(s, x)
  {
    var rest := Pick(s, ks[1..]);
    if ks[0] != x {
      assert x in ks[1..];
      GetPick(s, ks[1..], x);
    } else if x !in ks[1..] && x in Keys(rest) {
      PickKeys(s, ks[1..], x);
    } else {
      GetSome(rest, x);
    }
  }

  /** Assigning the same value twice is assigning it once. */
  lemma PutIdempotent<V>(s: seq<(string, V)>, k: string, v: V)
    ensures Put(Put(s, k, v), k, v) == Put(s, k, v)
  {
    if k in Keys(s) {
      ReplaceTwice(s, k, v);
    } else {
      ReplaceAppend(s, [(k, v)], k, v);
      ReplaceAbsent(s, k, v);
    }
  }

  lemma ReplaceTwice<V>(s: seq<(string, V)>, k: string, v: V)
    ensures Replace(Replace(s, k, v), k, v) == Replace(s, k, v)
  {
    if s != [] {
      ReplaceTwice(s[1..], k, v);
    }
  }

  /** `new Map(pairs)`: each pair is `set` in turn, so a later pair for a key
      overwrites the value of an earlier one and keeps the earlier position. */
  function FromPairs<V>(s: seq<(string, V)>): (r: seq<(string, V)>)
    decreases |s|
  {
    if s == [] then [] else Put(FromPairs(s[..|s| - 1]), s[|s| - 1].0, s[|s| - 1].1)
  }

  /** The value of the last pair in `s` with key `k`. */
  function LastValue<V>(s: seq<(string, V)>, k: string): (r: Option<V>)
    ensures r.Some? <==> k in Keys(s)
    decreases |s|
  {
    if s == [] then None
    else if s[|s| - 1].0 == k then KeyAt(s, |s| - 1); Some(s[|s| - 1].1)
    else
      assert Keys(s) == Keys(s[..|s| - 1]) + [s[|s| - 1].0] by { KeysAppend(s[..|s| - 1], [s[|s| - 1]]); assert s == s[..|s| - 1] + [s[|s| - 1]]; }
      LastValue(s[..|s| - 1], k)
  }

  /** The Map built from a list of pairs is a Map (no key twice), and it holds,
      under each key, the value of the last pair for that key. */
  lemma {:induction false} FromPairsGet<V>(s: seq<(string, V)>, k: string)
    ensures Distinct(FromPairs(s))
    ensures Get(FromPairs(s), k) == LastValue(s, k)
    decreases |s|
  {
    if s != [] {
      var init := s[..|s| - 1];
      FromPairsGet(init, k);
      DistinctPut(FromPairs(init), s[|s| - 1].0, s[|s| - 1].1);
      GetPut(FromPairs(init), s[|s| - 1].0, s[|s| - 1].1, k);
    }
  }

  /** Building a Map from pairs whose keys are already distinct keeps them as they are. */
  lemma {:induction false} FromDistinctPairs<V>(s: seq<(string, V)>)
    requires Distinct(s)
    ensures FromPairs(s) == s
    decreases |s|
  {
    if s != [] {
      var init := s[..|s| - 1];
      LastKeyIsNew(s);
      FromDistinctPairs(init);
      assert s == init + [(s[|s| - 1].0, s[|s| - 1].1)];
    }
  }

  /** In a list without repeated keys, the last key does not occur earlier,
      and the list without its last entry has no repeated keys either. */
  lemma LastKeyIsNew<V>(s: seq<(string, V)>)
    requires Distinct(s) && s != []
    ensures s[|s| - 1].0 !in Keys(s[..|s| - 1])
    ensures Distinct(s[..|s| - 1])
  {
    var init := s[..|s| - 1];
    forall i | 0 <= i < |init| ensures Keys(init)[i] != s[|s| - 1].0 {
      assert init[i] == s[i];
    }
  }

  lemma DistinctTail<V>(s: seq<(string, V)>)
    requires Distinct(s) && s != []
    ensures Distinct(s[1..])
  {
    forall i, j | 0 <= i < j < |s| - 1 ensures s[1..][i].0 != s[1..][j].0 {
      assert s[1..][i] == s[i + 1] && s[1..][j] == s[j + 1];
    }
  }
}
