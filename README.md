# updates-rs, modelled in Dafny

`updates` is a Rust crate that asks crates.io whether a newer version of a
crate exists. This project models the crate's core, `src/core.rs`, which has
three parts:

- **The version key.** `parse_version` turns a version string into a list of
  strings; two versions compare as those lists compare lexicographically.
  The steps are:
  - lower-case the string;
  - scan it into digit runs, letter runs, `.` and `-`;
  - rename the pre-release words (`pre`, `preview` and `rc` become `c`, `dev` becomes `@`, `alpha` becomes `a`, `beta` becomes `b`, `-` becomes `final-`);
  - drop the dots;
  - zero-pad numbers to eight digits and prefix every other token with `*`;
  - append `*final`;
  - clean the list up with stack pops.
  
  `standard_release` says a version is made of digits and dots only.
- **Candidate selection**, the part of `crates_io` that runs after the HTTP
  request:
  - drop the yanked versions;
  - sort the rest newest first with a stable sort on the key;
  - take the first one the pre-release preference admits.
- **The checker.** `UpdateChecker::check` answers from a cache keyed by
  (crate name, running version) while the entry is under an hour old.
  Otherwise it queries the registry and reports an update exactly when the
  selected version's key is greater than the running one's. It records the
  answer with the current time.

Modules:

- `Ordering`: the order of Rust's `String` and `Vec<String>`, proved a strict total order.
- `VersionKey`:
  - the key, both as a specification function `Key` and as the imperative method `ParseVersion`, with its two loops and its pop loops;
  - `standard_release`.
- `VersionKeyShape`, `VersionKeyEquivalence`, `VersionKeyPadding`, `VersionKeyOrder` and `VersionKeyExamples`: what the key promises.
- `Registry`: the selection. It is a specification function `Select`, shown equal to an independent reference (a single left-to-right scan for the first candidate with the greatest key). The method `CratesIo` sorts an `array` in place by insertion and finds the first admitted entry.
- `Checker`: the records `UpdateResult` and `CacheEntry`, and the class `UpdateChecker`, whose `cache` is a `map` field that `Check` updates.

The selection and the checker's specification take the key function as a parameter, `key`. The class passes `VersionKey.Key`, which is `parse_version`. The proofs about them use only the facts that the key order is a strict total order.

Rust compares the key strings byte by byte, and `*` (0x2A) comes before `0` (0x30), so a tag sorts before any padded number: `*final` sorts before `00000001`. This is what makes `1.0` older than `1.0.1` and `1.0-rc` older than `1.0-rc1` (`Ordering.StrLtByFirstChar`, `VersionKeyOrder.NumberPartOrder`).

## Model

| member | source | states |
|---|---|---|
| Ordering.KeyLtStrictTotalOrder | src/core.rs:340 | the lexicographic order on keys is irreflexive, transitive, total and asymmetric, so the sort's comparator is a total order |
| Ordering.KeyLeTotal | src/core.rs:266 | any two keys compare one way or the other with `>=`, and both ways only when equal |
| Ordering.KeyLeTransitive | src/core.rs:266 | `<=` on keys is transitive |
| Ordering.StrLtTrichotomy | src/core.rs:485 | two strings are equal or one is lexicographically smaller |
| Ordering.StrLtByFirstChar | src/core.rs:475 | a string whose first character is smaller is smaller, e.g. a `*` token against a padded number |
| VersionKey.LowerChar | src/core.rs:449 | lower-casing maps an ASCII capital to its small letter (code + 32) and leaves every other character alone |
| VersionKey.LowerFromChars | src/core.rs:449 | the lower-cased string has the same length and is the character-wise lower case |
| VersionKey.RunEndMaximal | src/core.rs:448 | a digit or letter run of the scanner is maximal: every character in it has the class, the next one does not |
| VersionKey.ComponentsAreMatches | src/core.rs:448-452 | every component the scanner yields is a non-empty digit run, letter run, `.` or `-` |
| VersionKey.PopAll | src/core.rs:487-494 | popping a value leaves a prefix of the stack that does not end in that value |
| VersionKey.PopAllPrefix | src/core.rs:487-494 | everything popped was the value popped |
| VersionKey.PopWhile | src/core.rs:487-494 | the `while last == x { pop }` loop computes `PopAll` |
| VersionKey.ParseVersion | src/core.rs:447-500 | the two loops of `parse_version` (pushing the parts, then the clean-up with its pop loops) compute `Key` |
| VersionKey.StandardReleaseChars | src/core.rs:362-364 | `standard_release` holds exactly when every character is an ASCII digit or `.` (so the empty string is standard) |
| VersionKeyShape.KeyShape | src/core.rs:467-479 | the key is non-empty and ends in `*final`; every element is a `*` token or an all-digit string of length at least 8, never empty nor `.` |
| VersionKeyShape.KeyNoTagAfterZero | src/core.rs:481-497 | in the key no `*` token directly follows `00000000` |
| VersionKeyShape.CleanupNoTagAfterZero | src/core.rs:482-497 | the clean-up loop keeps "no tag right after a zero" at every step |
| VersionKeyShape.CleanupWellFormed | src/core.rs:482-497 | the clean-up only removes parts, so every element stays a tag or a padded number |
| VersionKeyShape.PartsWellFormed | src/core.rs:452-477 | every part pushed is a `*` token or a zero-padded digit string |
| VersionKeyEquivalence.LowerAppend | src/core.rs:449 | lower-casing distributes over concatenation |
| VersionKeyEquivalence.ComponentsAppend | src/core.rs:448-452 | when no run spans the join, scanning `t + u` yields the components of `t` then those of `u` |
| VersionKeyEquivalence.PartsAppend | src/core.rs:452-477 | the parts of concatenated component lists are the concatenated parts |
| VersionKeyEquivalence.CleanupTrailingZero | src/core.rs:491-494 | a `00000000` just before `*final` is popped: the clean-up result is as if it was never there |
| VersionKeyEquivalence.TrailingZeroComponent | src/core.rs:491-494 | appending `.0` (or `.00…`, at most eight zeros) to any version leaves the key unchanged, e.g. `1.0` and `1.0.0` |
| VersionKeyEquivalence.AliasedWords | src/core.rs:456-465 | two words with the same replacement (`rc`, `pre`, `preview`) give the same key in the same context |
| VersionKeyEquivalence.KeyIgnoresCase | src/core.rs:449 | versions that agree up to ASCII case have the same key |
| VersionKeyPadding.PadValue | src/core.rs:471-473 | padding a run of at most 8 digits gives 8 digits with the same numeric value |
| VersionKeyPadding.PaddedNumbersCompareByValue | src/core.rs:471-473 | padded runs of at most 8 digits compare as their numeric values, and are equal exactly when the values are, whatever the leading zeros |
| VersionKeyPadding.SameLengthOrder | src/core.rs:473 | digit strings of equal length compare lexicographically as their values |
| VersionKeyOrder.ReleaseKey | src/core.rs:471-497 | the key of a standard release is its padded numbers with the trailing zeros dropped, then `*final` |
| VersionKeyOrder.NewerComponent | src/core.rs:447-500 | appending a non-zero `.N` to a standard release gives a strictly greater key |
| VersionKeyOrder.PreReleaseKey | src/core.rs:456-497 | the key of `release-wordN` is the release's numbers, the word's tag, N padded (unless N is one to eight zeros, which pad to `00000000` and are popped), then `*final`: the `*final-` is popped |
| VersionKeyOrder.PreReleaseBeforeRelease | src/core.rs:484-490 | a pre-release whose tag sorts below `*final` is older than its release |
| VersionKeyOrder.PreReleasesByTag | src/core.rs:456-465 | pre-releases of one release order by their tags (`*a` < `*b` < `*c`) whatever their numbers |
| VersionKeyOrder.NumberPartOrder | src/core.rs:471-479 | a pre-release number of at most 8 digits orders by value, and any number sorts after `*final` |
| VersionKeyOrder.PreReleasesByNumber | src/core.rs:471-473 | pre-releases of one release with one tag order by the value of their numbers |
| VersionKeyExamples.StandardReleaseExamples | src/lib.rs:127-131 | `1.0.0` and `2.4.1` are standard; `1.0.0-alpha`, `2.4.1-rc1` and `1.1.1-beta.1` are not |
| VersionKeyExamples.NewerPatchRelease | src/lib.rs:136-139 | for every standard base (as `2.4`, `1.1`): `base.1` > `base.0` |
| VersionKeyExamples.AlphaBeforePatchRelease | src/lib.rs:137 | for every standard base (as `2.4`): `base.0` > `base.0-alpha` |
| VersionKeyExamples.PreReleaseOrdering | src/lib.rs:144-147 | for every standard release (as `1.0.0`): release > `-rc1`, `-rc2` > `-rc1`, `-beta` < `-rc`, `-alpha` < `-beta` |
| VersionKeyExamples.ReleaseCandidateSpellings | src/core.rs:457-460 | `-rc1`, `-pre1` and `-preview1` after any release give the same key |
| VersionKeyExamples.UpperCaseReleaseCandidate | src/core.rs:449 | `-RC1` and `-rc1` after any release give the same key |
| Registry.NonYankedMembers | src/core.rs:329-337 | the filter keeps exactly the versions that are not yanked, and is empty exactly when all are yanked |
| Registry.InsertPermutation | src/core.rs:340 | one insertion step is a permutation |
| Registry.InsertSorted | src/core.rs:340 | one insertion step keeps the list newest first |
| Registry.SortNewestFirstCorrect | src/core.rs:340 | the sort yields a permutation of its input ordered newest first |
| Registry.FirstEligibleFound | src/core.rs:343-346 | `find` returns the first admitted entry of the list (no earlier entry is admitted), and nothing exactly when no entry is admitted |
| Registry.FirstEligibleOfSorted | src/core.rs:339-346 | sorting stably newest first and taking the first admitted entry is the reference scan |
| Registry.BestOfNonYanked | src/core.rs:329-333 | yanked versions never change the reference selection |
| Registry.BestOfSpec | src/core.rs:339-346 | the reference scan finds nothing exactly when there is no candidate, and otherwise the first candidate with the greatest key |
| Registry.BestAtUnique | src/core.rs:339-346 | at most one version is the one to select |
| Registry.SelectSpec | src/core.rs:329-351 | the selection errs with "no non-yanked" exactly when all are yanked, with "no suitable" exactly when some is not yanked but none is a candidate, and otherwise returns the first non-yanked admitted version with the greatest key, with its `created_at` |
| Registry.SelectStandard | src/core.rs:343-346 | without pre-releases the selected version is a standard release |
| Registry.SortInPlace | src/core.rs:340 | the in-place sort of the array leaves it as the stable newest-first sort of its old contents |
| Registry.InsertLast | src/core.rs:340 | one pass of the insertion sort puts `a[i]` into the sorted prefix and leaves the rest alone |
| Registry.MakeRoom | src/core.rs:340 | the shifting loop moves right the entries with a smaller key and returns the place for the new one |
| Registry.InsertPlace | src/core.rs:340 | an entry goes in after every entry whose key is not smaller and before the smaller ones |
| Registry.CratesIo | src/core.rs:315-351 | a failed request errs; otherwise filtering, sorting in place and `find` return `Select` of the listed versions |
| Checker.UpdateChecker.constructor | src/core.rs:176-201 | a new checker keeps the bypass flag and starts from the restored cache, or an empty one |
| Checker.UpdateChecker.Check | src/core.rs:243-293 | the answer and the new cache are `CheckSpec` of the old cache: the stored result on a fresh hit, otherwise the registry's answer compared with the running version and recorded with time `now` |
| Checker.UpdateFound | src/core.rs:262-278 | without the cache, an update is reported exactly when the registry answers and its selected version has a greater key than the running one; it carries the crate name, the running version, the selected version and its parsed date |
| Checker.UpToDate | src/core.rs:266-267 | no update is reported when the running version's key is at least that of every candidate the registry lists |
| Checker.StandardOffersStandard | src/core.rs:263-264 | a running standard release is only ever offered a standard release |
| Checker.CheckReportsNewer | src/core.rs:252-292 | if the cache held only updates reported for their own key, so does the new cache, and the answer (from cache or registry) names the crate and running version and offers a strictly newer version |
| Checker.HitAnswersFromCache | src/core.rs:252-258 | an entry under an hour old is returned and the cache is unchanged, whatever the registry would say |
| Checker.MissRecords | src/core.rs:262-289 | when bypassed, absent or expired, the answer is the registry's; the cache gains that key with `{now, result}` and every other entry is unchanged |
| Checker.RepeatWithinHour | src/core.rs:252-289 | after a check that queried the registry, a second check within the hour returns the same answer and leaves the cache as it was, whatever the registry answers |

## Left out

- The HTTP request, its status check and the JSON decoding in `crates_io` (src/core.rs:316-327): the registry's answer is the parameter `fetched`, `None` when any of these failed. The error messages are the constructors of `RegistryError`.
- The cache file: `load_from_permacache` and `save_to_permacache` (src/core.rs:191-212) with their postcard format and the temp-directory path. This is I/O. The constructor takes the restored map as a parameter, and saving after `check` is not modelled.
- The `Mutex` around the map (src/core.rs:152): the map is a plain field. A poisoned lock, which makes `check` skip the cache, is not modelled.
- `SystemTime::now()` (src/core.rs:244-247): the time is the parameter `now`.
- Checker.UpdateChecker.Check: requires that the consulted entry's timestamp is not later than `now`. The subtraction at src/core.rs:255 is on `u64` and would underflow otherwise.
- The RFC 3339 parsing in `UpdateResult::new` (src/core.rs:69-73) is the parameter `parseDate`, which gives seconds since the epoch or `None`.
- `Display`, `pretty_date` and `update_check` (src/core.rs:84-98, 366-432): human-readable output and printing to standard error.
- The test that queries crates.io (src/lib.rs:150-155).
- Unicode: `to_lowercase` and the regex's `\d` are modelled on ASCII only. Other characters are skipped by the scanner and kept by lower-casing.
- VersionKeyEquivalence.TrailingZeroComponent: covers one to eight zeros only. A run of nine or more zeros pads to itself, not to `00000000`, so the pop at src/core.rs:492 keeps it: `1.000000000` does not have the key of `1`.
- VersionKeyOrder.PreReleaseKey: drops the number only when it is one to eight zeros; a longer run of zeros stays in the key, as in `1.0-rc000000000`.
- VersionKeyPadding.PaddedNumbersCompareByValue: holds only for digit runs of at most 8 digits. `{:0>8}` does not truncate longer runs, so a 9-digit number compares as a string (`100000000` sorts before `99999999`).
- Registry.SortNewestFirst: `sort_by` is modelled as a stable insertion sort. Any stable sort yields the same order; uniqueness of the stable order is not proved.
- Registry and Checker are stated for a key function `key`. Their lemmas use only the key's total order, and the class passes `VersionKey.Key`.
