# Capability-negotiated SDK payloads, in Dafny

This project models two parts of the feature-flag platform in Dafny and
proves properties of them.

The first is the **payload scrubber**. It takes the feature map, the auto
experiments and the saved-group id lists, and reduces them to what an SDK
that declares a given list of capabilities can parse:

- group references (`$ingroup` / `$ningroup`) are resolved into literal
  id lists (`$in` / `$nin`) for SDKs without `savedGroupReferences`;
- gated features and rules with prerequisites are dropped for SDKs without
  `prerequisites`;
- features and rules are pruned to the key tiers the SDK understands,
  unless it unmarshals loosely;
- redirect experiments and experiments with prerequisites are dropped for
  SDKs that cannot run them;
- id lists are shipped only to SDKs that resolve references themselves.

The second is the JavaScript SDK's **feature repository**. It keeps an
in-memory cache of payloads keyed by `apiHost||clientKey` with a one-minute
time to live. It coalesces concurrent fetches for one key into a single
request, refreshes stale entries in the background, and copies the cache to
and from local storage.

Modules:

- `Wrappers`: `Option`.
- `Assoc`: ordered association lists, which stand for a JavaScript
  object's own properties and for a `Map`. They keep insertion order:
  - `Get` reads a key;
  - `Put` is an assignment or `set`;
  - `Remove` is `delete`;
  - `Pick` and `Omit` are lodash's functions of those names;
  - `FromPairs` is `new Map(pairs)`.
- `Json`: the JSON datatype (objects keep key order; numbers are
  integers), JavaScript truthiness, and `String(v)` as a property key.
- `GroupRefs`: the visitor `replaceIdLists` and the tree walk
  `recursiveWalk`:
  - `Walk` is the walk as a function;
  - `RecursiveWalk` is the walk as the forEach loop the source runs,
    proved equal to `Walk`.
- `SdkPayload`: the key tiers, `scrubFeatures`, `scrubExperiments` and
  `scrubIdLists`. Each scrubber is a method that mirrors the source's loops.
  It is proved equal to a function (`ScrubbedFeatures`,
  `ScrubbedExperiments`) that states the result or the TypeError the call
  throws.
- `PayloadProperties`: what the scrubbed payload is guaranteed to be.
- `FeaturesRepository`: the class `Repository` with the fields `cache`,
  `activeFetches`, the request log and the storage slot, plus the
  functions its methods are specified by.

The asynchronous fetch is split in two steps:

- **Start.** `FetchFeatures` and `LoadFeatures` start a fetch or join the
  one in flight, and record the waiter.
- **Settle.** `SettleFetch` is the moment the network answers. The fetch
  leaves `activeFetches`, then every waiter resumes in the order it joined.

The clock (`now`, in milliseconds) and the network answer (`Option<Json>`,
where `None` is a failed fetch or a failed `res.json()`) are parameters.
Local storage is the field `storage`. It holds the item
`growthbook:cache:features`, present only when
`storageAvailable`.

Where the design description and the code disagree, the model follows the
code:

- A background refresh never updates the cache. Its result is discarded,
  and only a `loadFeatures` call that missed the cache stores a payload
  and saves the cache.
- A persisted value that is not an object makes the assignment of
  `staleAt` throw. That aborts the whole restore loop, so the remaining
  records are not admitted (`BadRecordAbortsRest`). It does not drop the
  one record only.
- Restored records keep their saved `staleAt`. Those with
  `staleAt >= now` are admitted as they are (fresh, not stale); the
  others remove their key.
- Two different (host, client key) pairs can share a repository key.
  `KeysCollide` shows this for every host that ends in `|`.
- Scrubbing can fail. `Object.entries(null)` throws a TypeError, so a
  `null` anywhere below the walked value (except directly under a group
  reference, which is replaced before the walk descends) makes
  `scrubFeatures` / `scrubExperiments` throw. This is the `TypeError`
  outcome. Calling `some` / `map` on a `rules` or `parentConditions` that
  is not an array, and assigning a property of `null`, also throw.

## Model

| member | source | states |
|---|---|---|
| SdkPayload.AllowedFeatureRuleKeys | packages/shared/src/sdk-versioning/sdk-payload.ts:10-37 | a key is an allowed rule key exactly when it is a strict rule key or belongs to a tier (bucketing v2, sticky bucketing, prerequisites) whose capability the SDK declares |
| SdkPayload.ScrubIdLists | packages/shared/src/sdk-versioning/sdk-payload.ts:177-185 | the id lists are returned, unchanged, exactly when the SDK declares `savedGroupReferences`; otherwise `undefined` |
| GroupRefs.ReplaceIdLists | packages/shared/src/sdk-versioning/sdk-payload.ts:187-195 | the visitor replaces an entry exactly when its key is `$ingroup` or `$ningroup`; the new key is `$in` resp. `$nin`; for a group id `g` the new value is exactly the members `idLists[g]`, or `[]` for an unknown group |
| GroupRefs.GroupSuffixDropped | packages/shared/src/sdk-versioning/sdk-payload.ts:192 | `replace("group", "")` turns `$ingroup` into `$in` and `$ningroup` into `$nin` |
| GroupRefs.InGroupSuffixDropped | packages/shared/src/sdk-versioning/sdk-payload.ts:192 | `"$ingroup".replace("group", "")` is `$in` |
| GroupRefs.NinGroupSuffixDropped | packages/shared/src/sdk-versioning/sdk-payload.ts:192 | `"$ningroup".replace("group", "")` is `$nin` |
| GroupRefs.ResolvesGroupReference | packages/shared/src/sdk-versioning/sdk-payload.ts:187-195 | walking `{$ingroup: g}` gives `{$in: <members of g>}`, and `{$in: []}` for an unknown group; likewise `$ningroup` to `$nin` |
| GroupRefs.WalkResolvesGroupRef | packages/shared/src/sdk-versioning/sdk-payload.ts:46-64 | in an object holding `op: g` with any siblings (a `$in` / `$nin` before or after it included), a completed walk leaves the resolved operator holding exactly the members of `g`, or `[]` for an unknown group |
| GroupRefs.FieldWalkCompletes | packages/shared/src/sdk-versioning/sdk-payload.ts:50-63 | a completed walk of an object completed the walk of the value under each ordinary key |
| GroupRefs.ItemWalked | packages/shared/src/sdk-versioning/sdk-payload.ts:50-63 | a completed walk of an array completed the walk of each element and left it, walked, at its index |
| GroupRefs.WalkAt | packages/shared/src/sdk-versioning/sdk-payload.ts:46-64 | the walk commutes with following a path of ordinary keys and indices: the part at the end of the path in the walked value is that part walked |
| GroupRefs.ResolvesGroupReferenceAt | packages/shared/src/sdk-versioning/sdk-payload.ts:46-64 | at any depth reached through ordinary keys and array indices, `op: g` is resolved to the members of `g` |
| GroupRefs.WalkEntry | packages/shared/src/sdk-versioning/sdk-payload.ts:50-63 | one forEach callback keeps the loop invariant: every entry still to visit holds its original value, or the id list a replacement stored under `$in` / `$nin` |
| GroupRefs.RecursiveWalk | packages/shared/src/sdk-versioning/sdk-payload.ts:46-64 | the in-place forEach walk (delete, re-assign, recurse into `object[key]`, throw on `null`) computes exactly `Walk` |
| GroupRefs.IndexKeyIsNotGroupRef | packages/shared/src/sdk-versioning/sdk-payload.ts:50-55 | an array index, given to the visitor as a decimal key, is never replaced, so the `splice` branch never runs |
| GroupRefs.WalkStringListUnchanged | packages/shared/src/sdk-versioning/sdk-payload.ts:62 | descending into a replacement's list of strings leaves it unchanged and cannot throw |
| GroupRefs.WalkResolvesAll | packages/shared/src/sdk-versioning/sdk-payload.ts:46-64 | a walk that completes leaves no `$ingroup` / `$ningroup` key at any depth, and distinct keys in every object |
| GroupRefs.WalkKeepsOrdinaryKeys | packages/shared/src/sdk-versioning/sdk-payload.ts:50-63 | every key other than the group and resolved operators keeps its entry, holding its own value walked; no such key is added |
| GroupRefs.ReplacedKeyMovesToEnd | packages/shared/src/sdk-versioning/sdk-payload.ts:56-60 | a replaced entry is deleted and re-added, so it moves behind the entries that followed it |
| GroupRefs.NullFreeWalkCompletes | packages/shared/src/sdk-versioning/sdk-payload.ts:46-50 | a walk over a value without `null` never throws |
| GroupRefs.NullValueThrows | packages/shared/src/sdk-versioning/sdk-payload.ts:47-50 | `null` under an ordinary key makes `Object.entries` throw |
| GroupRefs.NullGroupIdResolves | packages/shared/src/sdk-versioning/sdk-payload.ts:50-62 | `null` under `$ingroup` is replaced before the walk descends, and resolves as the group named "null" |
| SdkPayload.ParentConditionTests | packages/shared/src/sdk-versioning/sdk-payload.ts:103-164 | a length passing the `=== 0` rule test never passes the `> 0` experiment test; with no `parentConditions` or a list of them exactly one passes, `> 0` when the list is not empty |
| SdkPayload.StringLengthTests | packages/shared/src/sdk-versioning/sdk-payload.ts:103-164 | a string `length` is never `=== 0`, so the rule is dropped; it is `> 0` exactly when it reads as a number above zero (`"5"` but not `"0"`) |
| SdkPayload.RulesWithoutPrerequisites | packages/shared/src/sdk-versioning/sdk-payload.ts:103-105 | the filter keeps exactly the rules whose `parentConditions?.length ?? 0` is `=== 0`, the number 0 (both directions), in their relative order, and throws exactly when some rule is `null` |
| SdkPayload.ForEachFeature | packages/shared/src/sdk-versioning/sdk-payload.ts:92-126 | a `for…in` pass over the features throws exactly when one visit throws, and never introduces a key |
| SdkPayload.VisitStep | packages/shared/src/sdk-versioning/sdk-payload.ts:92-126 | in the live copy, the visited key still holds its original feature, and its deletion or reassignment touches that entry alone |
| SdkPayload.ForEachFeatureLoop | packages/shared/src/sdk-versioning/sdk-payload.ts:92-126 | the loop that reads, deletes and reassigns `newFeatures[k]` on the live object computes exactly the pass `ForEachFeature` |
| SdkPayload.ForEachFeatureDistinct | packages/shared/src/sdk-versioning/sdk-payload.ts:92-106 | a pass leaves an object with distinct keys |
| SdkPayload.ScrubFeatures | packages/shared/src/sdk-versioning/sdk-payload.ts:66-129 | the caller's features are rewritten in place by the walk (before the deep copy), and the outcome is `ScrubbedFeatures`: walk, then prerequisite pass, then pruning pass, each throwing a TypeError where the source does |
| SdkPayload.KeptExperiments | packages/shared/src/sdk-versioning/sdk-payload.ts:150-174 | the experiments the loop keeps; `KeptExperimentsExactly` states which, and `KeptExperimentsInOrder` that they keep the list's order |
| SdkPayload.FilterExperiments | packages/shared/src/sdk-versioning/sdk-payload.ts:150-174 | the `for…of` loop with its two `continue`s and the `push` builds exactly `KeptExperiments` |
| SdkPayload.WalkKeepsObjectList | packages/shared/src/sdk-versioning/sdk-payload.ts:140-142 | walking a list of experiment objects leaves a list of objects, even when it throws part way |
| SdkPayload.ScrubExperiments | packages/shared/src/sdk-versioning/sdk-payload.ts:131-175 | the caller's list is walked in place (before the fast path), and the outcome is `ScrubbedExperiments`: the walked list itself with both capabilities, otherwise the kept experiments |
| PayloadProperties.ForEachFeatureGet | packages/shared/src/sdk-versioning/sdk-payload.ts:92-126 | after a pass that completes, each key holds what the visit of its own feature made of it, or nothing if that visit deleted it |
| PayloadProperties.DropPrerequisitesVisit | packages/shared/src/sdk-versioning/sdk-payload.ts:94-105 | the prerequisite visit deletes a feature exactly when one of its rules has a condition with a truthy `gate`; of a kept feature it keeps only rules without `parentConditions`, keeps every such rule in its order, and leaves every other property as it was |
| PayloadProperties.DropPrerequisitesGet | packages/shared/src/sdk-versioning/sdk-payload.ts:91-107 | after the prerequisite loop, a feature is present exactly when it is not gated; its rules have no prerequisites; every property but `rules` is as it was |
| PayloadProperties.PrerequisitePassGet | packages/shared/src/sdk-versioning/sdk-payload.ts:91-107 | the prerequisite step keeps keys distinct and introduces none; with `prerequisites` it changes nothing; otherwise it keeps exactly the ungated features, without prerequisite rules, with `defaultValue` as it was |
| PayloadProperties.PickRule | packages/shared/src/sdk-versioning/sdk-payload.ts:119-124 | `{...pick(rule, keys)}` has only allowed keys, and each allowed key has the value it had in the rule |
| PayloadProperties.PickStrictKeys | packages/shared/src/sdk-versioning/sdk-payload.ts:114-117 | `pick(f, strictFeatureKeys)` keeps `defaultValue` and `rules` as they were, and no other key |
| PayloadProperties.PickFeaturePrunes | packages/shared/src/sdk-versioning/sdk-payload.ts:113-126 | a pruned feature has only `defaultValue` and `rules`; its list of rules has the same length and order, each rule pruned |
| PayloadProperties.PruneVisit | packages/shared/src/sdk-versioning/sdk-payload.ts:113-126 | the pruning visit never deletes a feature, and prunes each one it assigns |
| PayloadProperties.StrictPassGet | packages/shared/src/sdk-versioning/sdk-payload.ts:109-126 | the pruning step keeps exactly the features it is given; with `looseUnmarshalling` it changes nothing; otherwise each feature is pruned |
| PayloadProperties.ScrubbedFeatureKeys | packages/shared/src/sdk-versioning/sdk-payload.ts:91-111 | the features sent are exactly the walked features for an SDK with `prerequisites`, and otherwise exactly the ungated ones; no other key appears |
| PayloadProperties.ScrubbedRulesHaveNoPrerequisites | packages/shared/src/sdk-versioning/sdk-payload.ts:91-126 | without `prerequisites`, no rule an SDK is sent has a prerequisite, whichever passes ran |
| PayloadProperties.NoPrerequisiteRulesAfterPruning | packages/shared/src/sdk-versioning/sdk-payload.ts:79-126 | pruning for an SDK without `prerequisites` keeps the rules free of prerequisites |
| PayloadProperties.PrunedRuleHasNoPrerequisites | packages/shared/src/sdk-versioning/sdk-payload.ts:79-124 | a rule pruned without the prerequisite tier has no `parentConditions` |
| PayloadProperties.StrictFeaturesKeepAllowedKeys | packages/shared/src/sdk-versioning/sdk-payload.ts:71-126 | for a strict SDK every feature sent has keys only from `defaultValue` and `rules`, and every rule keys only from the allowed rule keys |
| PayloadProperties.StrictFeaturesKeepValues | packages/shared/src/sdk-versioning/sdk-payload.ts:113-126 | for a strict SDK each feature keeps its `defaultValue`; with `prerequisites`, every walked feature is sent pruned, with every allowed value kept |
| PayloadProperties.FullySupportedFeaturesUntouched | packages/shared/src/sdk-versioning/sdk-payload.ts:82-111 | an SDK with `savedGroupReferences`, `prerequisites` and `looseUnmarshalling` is sent the features as they are |
| PayloadProperties.ScrubbedFeaturesResolveGroups | packages/shared/src/sdk-versioning/sdk-payload.ts:82-126 | an SDK without `savedGroupReferences` is sent features without any group reference |
| PayloadProperties.ForEachFeatureKeepsNoGroupRefs | packages/shared/src/sdk-versioning/sdk-payload.ts:92-126 | neither feature pass adds a group reference |
| PayloadProperties.PayloadWalkObject | packages/shared/src/sdk-versioning/sdk-payload.ts:82-84 | the walk leaves an object an object, with distinct keys when it completes, and without group references when it runs |
| PayloadProperties.KeptExperimentsExactly | packages/shared/src/sdk-versioning/sdk-payload.ts:152-173 | an experiment is in the kept list exactly when some visited experiment contributes it |
| PayloadProperties.KeptComesFrom | packages/shared/src/sdk-versioning/sdk-payload.ts:152-173 | every experiment kept comes from a visited one |
| PayloadProperties.KeptIncludes | packages/shared/src/sdk-versioning/sdk-payload.ts:152-173 | every experiment a visit keeps is in the list |
| PayloadProperties.ScrubbedExperimentsAreKept | packages/shared/src/sdk-versioning/sdk-payload.ts:144-174 | without both capabilities, an experiment is sent exactly when it is a walked experiment that is not skipped, with `parentConditions` omitted when prerequisites are unsupported |
| PayloadProperties.KeptExperimentsInOrder | packages/shared/src/sdk-versioning/sdk-payload.ts:150-174 | the experiments kept are a subsequence of the list with the removed keys omitted: the loop keeps the list's order |
| PayloadProperties.ScrubbedExperimentsInOrder | packages/shared/src/sdk-versioning/sdk-payload.ts:144-174 | the experiments sent keep the order of the walked list |
| PayloadProperties.ScrubbedExperimentsSupported | packages/shared/src/sdk-versioning/sdk-payload.ts:144-174 | no redirect experiment reaches an SDK without `redirects`, and no experiment with a `parentConditions` key reaches one without `prerequisites` |
| PayloadProperties.PrerequisiteSdkGetsWholeExperiments | packages/shared/src/sdk-versioning/sdk-payload.ts:144-170 | with `prerequisites`, every experiment sent is a walked experiment, unaltered |
| PayloadProperties.KeptExperimentsKeepNoGroupRefs | packages/shared/src/sdk-versioning/sdk-payload.ts:152-173 | the experiments loop adds no group reference |
| PayloadProperties.ScrubbedExperimentsResolveGroups | packages/shared/src/sdk-versioning/sdk-payload.ts:140-142 | an SDK without `savedGroupReferences` is sent experiments without any group reference |
| PayloadProperties.IdListsShippedOrResolved | packages/shared/src/sdk-versioning/sdk-payload.ts:177-185 | every SDK is sent the id lists verbatim, or features and experiments in which no group reference is left |
| Assoc.Remove | packages/shared/src/sdk-versioning/sdk-payload.ts:57 | `delete obj[k]` leaves no entry for `k` and adds no key |
| Assoc.Put | packages/shared/src/sdk-versioning/sdk-payload.ts:60 | assignment keeps a present key in place and appends a new one at the end |
| Assoc.GetPut | packages/shared/src/sdk-versioning/sdk-payload.ts:60 | after the assignment `k` holds the new value and every other key its old one |
| Assoc.GetRemove | packages/shared/src/sdk-versioning/sdk-payload.ts:57 | after the deletion `k` holds nothing and every other key its old value |
| Assoc.Pick | packages/shared/src/sdk-versioning/sdk-payload.ts:114-121 | `pick` yields only listed keys, each with the value it had |
| Assoc.GetPick | packages/shared/src/sdk-versioning/sdk-payload.ts:114-121 | `pick` keeps the value of every listed key |
| Assoc.Omit | packages/shared/src/sdk-versioning/sdk-payload.ts:167-170 | `omit` yields only keys the object had and the list does not name |
| Assoc.GetOmit | packages/shared/src/sdk-versioning/sdk-payload.ts:167-170 | `omit` leaves every key it does not name as it was |
| Assoc.FromPairsGet | packages/sdk-js/src/featuresRepository.ts:89 | `new Map(pairs)` has distinct keys, and each key holds the value of its last pair |
| Assoc.PutIdempotent | packages/sdk-js/src/featuresRepository.ts:68 | setting the same value twice is setting it once |
| FeaturesRepository.RepositoryKey | packages/sdk-js/src/featuresRepository.ts:59 | the key is host, two bars, client key; `SplitKey` states that splitting it gives back host and client key |
| FeaturesRepository.Split | packages/sdk-js/src/featuresRepository.ts:35 | splitting on the two bars yields at least one piece; `SplitKey` states what the pieces of a repository key are |
| FeaturesRepository.SplitKey | packages/sdk-js/src/featuresRepository.ts:35-59 | splitting a key gives back the host and the client key when neither contains two bars in a row and the host does not end in a bar |
| FeaturesRepository.KeyAfterFirst | packages/sdk-js/src/featuresRepository.ts:35-59 | such a key does not start with the separator, and past its first character it is the key of the rest of the host |
| FeaturesRepository.KeyRoundTrip | packages/sdk-js/src/featuresRepository.ts:35-59 | under those conditions the URL fetched is the host, `/api/features/`, then the client key |
| FeaturesRepository.KeysCollide | packages/sdk-js/src/featuresRepository.ts:35-59 | a host ending in a bar shares its key, its split and its URL with the host without that bar and a client key that gains a leading bar |
| FeaturesRepository.JoiningTwiceRequestsOnce | packages/sdk-js/src/featuresRepository.ts:33-52 | a second caller for a key whose fetch has not settled sends no further request, and is added to its waiters; one caller sends at most one request |
| FeaturesRepository.SettledKeyRequestsAgain | packages/sdk-js/src/featuresRepository.ts:47-49 | once a key's fetch has settled, the next caller sends a new request |
| FeaturesRepository.LoadCount | packages/sdk-js/src/featuresRepository.ts:62-74 | the number of `loadFeatures` waiters of a fetch; `Resolution` states what each of them returns |
| FeaturesRepository.Resolution | packages/sdk-js/src/featuresRepository.ts:42-79 | a resuming load returns the payload exactly when the fetch delivered a truthy one, and `null` otherwise |
| FeaturesRepository.AfterLoad | packages/sdk-js/src/featuresRepository.ts:18-68 | a delivered payload is stored under the key, stale one minute from now; every other key (and every key on failure) is unchanged |
| FeaturesRepository.AfterLoadIdempotent | packages/sdk-js/src/featuresRepository.ts:61-69 | several loads resumed by one fetch leave the same cache as one |
| FeaturesRepository.StoredPayloadIsFresh | packages/sdk-js/src/featuresRepository.ts:64-77 | a payload just stored holds the fetched data and is not stale within the minute, so no refresh follows |
| FeaturesRepository.FreshEntry | packages/sdk-js/src/featuresRepository.ts:92-97 | a record yields an entry exactly when its date is valid and not yet passed, and the entry has the record's data and date |
| FeaturesRepository.AdmittedGet | packages/sdk-js/src/featuresRepository.ts:89-98 | when every record is an object, restoring sets each key with a fresh record to that record, removes each key with a stale or invalid one, and leaves every other key as it was |
| FeaturesRepository.BadRecordAbortsRest | packages/sdk-js/src/featuresRepository.ts:88-101 | a value that is not an object ends the restore: the records before it are admitted and none after it |
| FeaturesRepository.FreshEntries | packages/sdk-js/src/featuresRepository.ts:93 | the entries whose `staleAt` has not passed; `AdmitPersisted` states that restoring admits exactly these, in saved order |
| FeaturesRepository.AdmitPersisted | packages/sdk-js/src/featuresRepository.ts:89-108 | restoring the saved records onto a cache that shares no key with them appends exactly the entries still fresh, in the saved order |
| FeaturesRepository.PersistRoundTrip | packages/sdk-js/src/featuresRepository.ts:82-114 | a page that loads what was saved holds exactly the saved entries still fresh, in the saved order |
| FeaturesRepository.FreshEntriesAll | packages/sdk-js/src/featuresRepository.ts:93 | when nothing has expired, every entry is fresh |
| FeaturesRepository.Repository.constructor | packages/sdk-js/src/featuresRepository.ts:20-29 | module start: an empty cache and no fetches, then the persisted cache is loaded |
| FeaturesRepository.Repository.FetchFeatures | packages/sdk-js/src/featuresRepository.ts:30-53 | the key's fetch is joined or started, a request is sent only when none is in flight, and the cache and storage are unchanged; at most one fetch per key, for that key's URL |
| FeaturesRepository.Repository.LoadFeatures | packages/sdk-js/src/featuresRepository.ts:55-80 | a miss awaits the key's fetch; a hit returns the cached data at once, and joins or starts a background refresh exactly when the entry is stale; the cache is unchanged |
| FeaturesRepository.Repository.SettleFetch | packages/sdk-js/src/featuresRepository.ts:42-79 | the fetch leaves `activeFetches`; each waiting load gets the payload or `null`; a delivered payload is stored fresh and saved; a failure leaves cache and storage alone; a refresh ignores the answer |
| FeaturesRepository.Repository.ResumeWaiters | packages/sdk-js/src/featuresRepository.ts:52-74 | the waiters resume in the order they joined, with the same cache and storage effect as above |
| FeaturesRepository.Repository.ResumeLoad | packages/sdk-js/src/featuresRepository.ts:62-79 | a load resumed with `null` returns `null` and changes nothing; with a payload it stores it fresh for one minute, saves the cache and returns it |
| FeaturesRepository.Repository.LoadPersistentCache | packages/sdk-js/src/featuresRepository.ts:82-104 | with storage and a parsable item, the cache becomes `Admitted` of the Map built from the records; otherwise it is unchanged; storage is never changed |
| FeaturesRepository.Repository.SavePersistentCache | packages/sdk-js/src/featuresRepository.ts:106-114 | with storage, the item becomes every cache entry in order; otherwise nothing changes |

## Left out

- Promise scheduling and the event loop are left out beyond the start/settle split of a fetch. `SettleFetch` resumes every waiter of a fetch at once, so no other call interleaves between the `finally` and the waiters, or between two waiters.
- `fetch`, `res.json()`, `localStorage`, `JSON.parse` / `JSON.stringify` and `Date` are not modelled as themselves. Each is an injected value:
  - the answer is an `Option<Json>`;
  - a date is an integer millisecond count; an invalid date is `None`, and it compares as false;
  - local storage is a slot that is absent, unreadable (caught by the `try`) or a list of records.
- The `console.error` calls are left out; they have no effect on the state.
- Persisted keys are assumed to be strings. `new Map(JSON.parse(...))` also keeps a non-string key, such as the number `1` from a tampered item `[[1, {...}]]`; such a key matches no repository key and a later save writes it back. The module itself only ever writes string keys.
- A persisted record whose object lacks `data` is read as holding some JSON value. `undefined` is not a JSON value here.
- `FeaturesRepository.Repository.LoadFeatures`: after a miss, the code repeats the stale check on the entry it just stored. The model does not repeat it, because an entry stored at `now` is not stale at `now` (`StoredPayloadIsFresh`).
- `FeaturesRepository.Repository.SavePersistentCache`: a failing `setItem` (quota exceeded, storage disabled) is not modelled; every write succeeds. In the code the exception is outside any `try`, so it escapes `loadFeatures` after `cache.set` and rejects that caller's promise.
- `FeaturesRepository.Repository.LoadPersistentCache`: a `getItem` that throws is not modelled. It runs before the `try`, so in the code its exception escapes the module's initialisation.
- `SdkPayload.WithoutPrerequisiteRules`: the code assigns `undefined` to `rules`, which keeps the key (or adds it) holding `undefined`; the model removes the key. The two agree once the payload is serialized, since `JSON.stringify` omits `undefined` properties.
- `SdkPayload.WithParentConditions`: ToNumber of a string (or of an array's joined string) is modelled for decimal numerals with an optional `+` sign, a fraction and surrounding ASCII blanks. Exponents (`"1e3"`), `0x` / `0o` / `0b` numerals, `"Infinity"` and non-ASCII whitespace are read as no number, although JavaScript reads them as numbers above zero; a decimal too small for a double, which JavaScript rounds to 0, is read as above zero.
- `FeaturesRepository.KeyRoundTrip`: the round trip is stated under a stronger condition than "neither part contains `||`". The host must also not end in `|`, because without that the round trip is false (`KeysCollide`).
- Object semantics that the payload does not exercise are left out:
  - prototype properties, getters and `__proto__` keys;
  - the engine's reordering of integer-like keys to the front of an object;
  - `Array.isArray` on objects and the `splice` branch (which never runs, by `IndexKeyIsNotGroupRef`);
  - properties set on arrays.
- JSON numbers are integers only; no floating-point or non-integer numbers are modelled. String lengths count `char`s, not UTF-16 code units.
- `cloneDeep` is the identity on values, because values have no identity and no aliasing here. So the model shows that the walk changes the caller's object, not that the copy is detached from it.
- The types the TypeScript signatures promise are preconditions:
  - features form an object and experiments a list of objects;
  - keys are distinct at every depth.

  Other malformed shapes of `rules` and `parentConditions` are modelled as the TypeError or the value the code gives, within the limit on ToNumber stated under `SdkPayload.WithParentConditions`.
