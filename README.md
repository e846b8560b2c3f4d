# Chrome extension utilities: storage accessor and helpers, in Dafny

This project models two parts of a small utility library for browser
extensions, and proves properties of the model.

- **The storage accessor** (`src/storage.js`, module `ChromeStorage`).
  `asyncGet(key, def)` reads one key from the extension's local storage area.
  It falls back to the caller's default only when that default is not
  `undefined`. A failed read is reported to the analytics error reporter.
  `asyncSet(key, value, keyBool)` writes one key. It returns `false` and
  broadcasts one `STORAGE_EXCEEDED` message when the write fails.
  The class `LocalStore` holds the storage area as a `map<string, Value>`.
  It also holds two logs: the error reports sent to analytics, and the
  attempted message broadcasts. Its methods `AsyncGet` and `AsyncSet` update
  these fields step by step, as the JavaScript does. Spec functions
  (`GetResult`, `GetReports`, `StoreAfterSet`, `SetBroadcasts`) state the
  outcome of each call. The lemmas prove the read/write properties about
  those functions.
- **The helpers** (`src/utils.js`, module `ChromeUtils`).
  - `getPlatformOS` is a method that assigns its output in a switch.
    It is proved against the table `OSNames`.
  - `isOS`, `isWindows`, `isChromeOS` and `isMac` are functions.
    They are tied to the same display names.
  - `isWhiteSpace` checks the regular expression `^\s*$`. It is proved equal
    to "every character is a space".
  - `getChromeVersion` models the leftmost match of
    `/Chrom(e|ium)\/([0-9]+)\./` followed by `parseInt`. The proofs show that
    greedy matching of the digits settles the group.
  - `getRandomString` is a counting loop over a draw oracle.
  - `shuffleArray` is the in-place Fisher–Yates loop on an `array`, with a
    draw oracle. It is proved equal to a spec function on sequences, and that
    function is proved to be a permutation.

JavaScript's `undefined` and `null` are the distinct constructors `Undefined`
and `Null` of `ChromeStorage.Value`. Host calls are inputs to the model:
- `HostOutcome` says whether a storage read, storage write or message
  delivery resolved or was rejected.
- `PlatformQuery` says whether the platform query answered with an OS code or
  threw.
- The user-agent is a string parameter.

`Math.random()` is replaced by a sequence of draws. Each draw already lies in
the range that `Math.floor(Math.random() * n)` gives for the `n` of its call.

The model follows the code where the code and its doc comment disagree.
The doc comment of `asyncGet` says the result is `null` when the key is not
found. The code returns `undefined` when the read succeeds, the key is absent
and no default is given, because `res[key]` is `undefined`. So the model
returns `Undefined` there (lemma `GetAbsentKey`). It returns the initial
`null` only when the read itself is rejected (lemma `GetRejected`).

## Model

| member | source | states |
|---|---|---|
| `ChromeStorage.LocalStore.AsyncGet` | src/storage.js:24-43 | returns `GetResult` of the store, key, default and read outcome; appends exactly one report `(message, "ChromeStorage.asyncGet")` when the read is rejected and none otherwise; never changes the store or the broadcast log, and never fails |
| `ChromeStorage.LocalStore.AsyncSet` | src/storage.js:54-69 | returns `true` exactly when the host write resolves; the store becomes `old[key := value]` on success and stays unchanged on failure; exactly one `StorageExceeded` send attempt on failure, whatever its delivery outcome, and none on success; `keyBool` affects nothing |
| `ChromeStorage.SetThenGet` | src/storage.js:24-68 | a caller writing a defined value and then reading the same key, with both host calls resolving, gets `true` and that value back, with no report or broadcast |
| `ChromeStorage.GetReturnsStored` | src/storage.js:27-28 | a resolved read of a key holding a defined value returns it unchanged, for any default |
| `ChromeStorage.GetAbsentKey` | src/storage.js:36-41 | a resolved read of an absent key returns the default when one is supplied, and `undefined` (not `null`) when none is |
| `ChromeStorage.GetRejected` | src/storage.js:25-35 | a rejected read returns the default if supplied, else `null`, and produces exactly one report tagged `ChromeStorage.asyncGet` carrying the error message |
| `ChromeStorage.GetResolvedIsSilent` | src/storage.js:26-29 | a resolved read produces no report |
| `ChromeStorage.FalsyDefaultsHonoured` | src/storage.js:32-40 | the defaults `false`, `0`, `""` and `null` are returned for an absent key and for a rejected read, because the test is `!== undefined` and not truthiness |
| `ChromeStorage.StoredNullIsReturned` | src/storage.js:36-41 | a stored `null` counts as a defined value: it is returned and the default is not substituted |
| `ChromeStorage.GetCannotTellFailureFromNull` | src/storage.js:25-42 | without a default, a rejected read and a stored `null` give the caller the same result, and so do an absent key and a stored `undefined` |
| `ChromeStorage.SetWritesOneKey` | src/storage.js:56-67 | a resolved write maps `key` to `value`, adds only `key` to the key set, and leaves every other key's lookup unchanged; a rejected write leaves the store unchanged |
| `ChromeStorage.SetBroadcastsOnFailureOnly` | src/storage.js:63-67 | a rejected write yields exactly one send attempt, of type `StorageExceeded`; a resolved write yields none |
| `ChromeStorage.SetThenGetRoundTrip` | src/storage.js:24-61 | after a resolved write of a defined value `v`, a resolved read of that key returns `v` for any default |
| `ChromeStorage.SetUndefinedReadsDefault` | src/storage.js:36-40 | a stored `undefined` reads back as the default (or `undefined`), which is why the round trip needs a defined value |
| `ChromeStorage.SetDoesNotDisturbOtherKeys` | src/storage.js:57-61 | a write to one key, whatever its outcome, does not change what a read of any other key returns |
| `ChromeUtils.GetPlatformOS` | src/utils.js:52-84 | the output is the table name of the queried code when the query answers with one of the six codes, and "Unknown" otherwise or when the query throws; the output is always one of the seven names |
| `ChromeUtils.KnownOSNames` | src/utils.js:57-75 | `win`, `mac`, `android`, `cros`, `linux` and `openbsd` map to `MS Windows`, `Mac`, `Android`, `Chrome OS`, `Linux` and `OpenBSD` |
| `ChromeUtils.UnknownExactlyWhenUnrecognised` | src/utils.js:53-83 | "Unknown" is shown if and only if the query throws or answers with a code outside the six |
| `ChromeUtils.OSNamesInjective` | src/utils.js:57-75 | distinct known codes have distinct display names |
| `ChromeUtils.IsOS` | src/utils.js:193-202 | true exactly when the query answers with the given code; false whenever the query throws |
| `ChromeUtils.IsOSAgreesWithDisplayName` | src/utils.js:193-202 | for each known code, `isOS` holds if and only if `getPlatformOS` shows that code's name |
| `ChromeUtils.IsWindows` | src/utils.js:86-88 | true exactly when the platform's display name is `MS Windows` |
| `ChromeUtils.IsChromeOS` | src/utils.js:90-92 | true exactly when the platform's display name is `Chrome OS` |
| `ChromeUtils.IsMac` | src/utils.js:94-96 | true exactly when the platform's display name is `Mac` |
| `ChromeUtils.IsWhiteSpace` | src/utils.js:105-107 | `isWhiteSpace(str)`: true if and only if the argument is null/undefined or every character of the string is in JavaScript's `\s` class, so also for the empty string |
| `ChromeUtils.SpaceStarIffAllSpace` | src/utils.js:106 | `/^\s*$/` matches a string if and only if every character is in JavaScript's `\s` class |
| `ChromeUtils.IsWhiteSpaceCharacterised` | src/utils.js:105-107 | `isWhiteSpace` is true for null and for space-only strings, including the empty string, and false exactly when some character is not a space |
| `ChromeUtils.DigitRun` | src/utils.js:38 | the greedy `[0-9]+` from a position covers only digits and stops at the end of the input or at a non-digit |
| `ChromeUtils.GroupIsDigitRun` | src/utils.js:38 | in any match, the digit group is the whole run of digits, so backtracking never yields a shorter group |
| `ChromeUtils.MatchUniqueAt` | src/utils.js:38 | at a given position the regular expression matches in at most one way |
| `ChromeUtils.GroupAt` | src/utils.js:38 | finds the digit group exactly when the regular expression matches at the position |
| `ChromeUtils.FirstMatch` | src/utils.js:38 | returns the leftmost match position at or after the start, with its group, and returns none exactly when there is no match at or after the start |
| `ChromeUtils.GetChromeVersion` | src/utils.js:37-40 | the version is 0 when the regular expression matches nowhere in the user-agent; any non-zero version is the decimal value of the digit group of some match (the lemmas below pin it to the leftmost match) |
| `ChromeUtils.ChromeVersionWithoutMatch` | src/utils.js:38-39 | the version is 0 when the user-agent has no `Chrome/<digits>.` or `Chromium/<digits>.` |
| `ChromeUtils.ChromeVersionOfFirstMatch` | src/utils.js:38-39 | otherwise the version is the decimal value of the digits of the leftmost match |
| `ChromeUtils.ParseDecimal` | src/utils.js:39 | `parseInt(digits, 10)` on a digit string: the value is below ten to the power of the string's length |
| `ChromeUtils.ParseDecimalOfDecimalString` | src/utils.js:39 | the base-10 parse inverts decimal rendering: parsing the digits of `n` gives `n` |
| `ChromeUtils.ParseDecimalLeadingZero` | src/utils.js:39 | the base-10 parse ignores a leading zero |
| `ChromeUtils.GetRandomString` | src/utils.js:114-122 | the result has exactly `len` characters, or none when `len <= 0`; every character is in the 62-character alphabet, and character `i` is the alphabet character the `i`-th draw picks |
| `ChromeUtils.Swap` | src/utils.js:156-158 | the two positions are exchanged and every other position is kept |
| `ChromeUtils.ShuffleArray` | src/utils.js:152-160 | a null array is left alone; otherwise the array's new contents equal `Shuffled` of the old contents under the draws, with the same multiset of elements; each exchange index `j` lies in `[0, i]` |
| `ChromeUtils.ShuffleFromPermutes` | src/utils.js:154-159 | every run of the loop's passes keeps the length and the multiset of elements |
| `ChromeUtils.ShuffledIsPermutation` | src/utils.js:152-160 | the shuffle is a permutation of its input |
| `ChromeUtils.ShuffleFromFixesAbove` | src/utils.js:154-159 | the passes for `i` and below never touch positions above `i`, so a position is final once its pass is done |
| `ChromeUtils.LastPositionFromFirstDraw` | src/utils.js:154-159 | the last position ends up holding the element that the first draw picked |
| `ChromeUtils.ShortArraysUnchanged` | src/utils.js:153-155 | arrays of length 0 or 1 are unchanged |
| `ChromeUtils.SelfDrawsKeepOrder` | src/utils.js:154-159 | when every pass draws its own index, the order is kept, so all change comes from the draws |

## Left out

- The host APIs are not modelled: `chrome.storage.local`, `chrome.runtime.getPlatformInfo`, `getManifest`, `runtime.id` and `navigator`. Their outcomes and the user-agent are inputs instead.
- ChromeStorage.Lookup: a key that names an inherited `Object.prototype` property (`constructor`, `toString`, `hasOwnProperty`, `__proto__`, …) reads as absent in the model. In the source, `res[key]` for such an unstored key is the inherited property, not `undefined`, so the default is not used and that property is returned. The model's store only holds the keys written to it.
- ChromeStorage.StoreAfterSet: the model stores every `Value` exactly as given. The host keeps a serialised copy instead: it drops a top-level `undefined` value (so `asyncSet(key, undefined)` leaves the old entry in place) and turns `undefined` list items into `null`. So `SetThenGetRoundTrip`, `SetThenGet`, `SetUndefinedReadsDefault` and the second ensures of `GetCannotTellFailureFromNull` describe the model's store. For values holding `undefined` at any depth, they do not describe what the host returns.
- The model treats a host write as atomic. A rejected `asyncSet` leaves the store exactly as it was, and the source does no rollback.
- The analytics module (`analytics.js`) and the messaging module (`msg.js`) are not part of this model. Their effects are the `reports` and `sent` logs of `LocalStore`.
- `getExtensionName`, `getVersion` and `getFullChromeVersion` are left out. They only wrap host values, with no logic of their own.
- `getRandomInt`, `getRandomFloat` and the `Math.random` floating-point arithmetic are left out. The draw oracles stand in for randomness.
- `wait` and `checkNetworkConnection` are left out. They depend on timers, the browser's network state and the localisation module, which is not part of this model.
- The `DEBUG` flag is left out. Module load sets it from a background `asyncGet` with no await; that is a race, not logic.
- `noop` is left out. It does nothing.
- The commented-out rollback sketch after `asyncSet` is dead code and is not modelled.
- Promise scheduling and the asynchrony of `asyncGet`, `asyncSet`, `getPlatformOS` and `isOS` are left out. Each call is one sequential step.
- ChromeStorage.Value: numbers are modelled as unbounded integers, not IEEE doubles. The accessor only relies on telling values apart, and on `0` being a present default.
- ChromeUtils.GetChromeVersion: `parseInt` is modelled as exact on any digit string. Above 2^53 JavaScript rounds to the nearest double, and the model does not capture that.
- ChromeUtils.GetRandomString: the default length of 8 is not a separate member, so callers pass 8 themselves. A non-integer `len` (JavaScript would loop up to its ceiling) is not modelled, because `len` is an `int`.
- ChromeUtils.IsJsSpace: characters are Unicode scalar values rather than UTF-16 code units. JavaScript splits a character outside the Basic Multilingual Plane into two code units. Neither unit is in `\s`, so the whitespace result is the same.
- ChromeUtils.IsWhiteSpace: the argument is a string or absent (null/undefined). Non-string arguments are not modelled.
