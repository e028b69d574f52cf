# Module comparison between two hosts, modelled in Dafny

`comparison.py` compares the environment modules installed on two hosts. For each host it
lists the module catalog, splits each catalog entry `name/version` into a name and a
version, and looks up the build time of the module's definition file. It then reconciles
the two hosts' lists:

* the modules whose full name only the first host has;
* the modules whose full name only the second host has;
* the `(older, newer)` pairs of records with the same name and version but different build
  times.

This project models that core:

* `Text`: Python's `str.strip()` with the code points `str.isspace()` accepts, and
  `s.split(c)[0]`.
* `BuildTime`: `datetime` values with Python's ordering. It also models the fixed-format
  `strptime` as a partial function, and the decoding of the `stat -c '%z'` output, which
  falls back to 1970-01-01 00:00:00.
* `Listing`: the `ModuleInfo` record, the name/version split, and the per-line record
  construction of `get_modules_list`.
* `UniqueModules`: the dictionaries keyed by full name, where later records overwrite
  earlier ones and keep the key's first position, and the two unique lists.
* `Mismatches`: grouping by name, then comparing every pair of records across the groups
  of each shared name, as methods with loops. `GroupByName` is proved to give each name
  its records in list order (`WithName`). `CompareGroups` is proved equal, as a multiset,
  to the plain double loop (`CrossJoin`) over the two groups it gets. `MismatchedPairs`
  as a whole is proved equal, as a multiset, to the plain double loop over all index
  pairs of the two hosts' lists.
* `Comparison`: `compare_modules` as a whole, its symmetry, its empty-host behaviour, and
  worked scenarios.

The remote commands are not modelled: their outputs are parameters. `ListModules` takes
the catalog lines and the raw `stat` outputs.

Two behaviours of the code that a reader may not expect, both followed by the model:

* A full name with several `/` takes the text between the first and the second `/` as the
  version (`"a/b/c"` gives `"b"`), not everything after the first `/`.
* Two identical listings give three empty results only when no name/version is listed
  twice with different build times. Otherwise, each copy is reported against the other
  (`Comparison.SelfComparisonWithRebuild`).

## Model

| member | source | states |
|---|---|---|
| Text.StripTrims | comparison.py:56 | the stripped line is a slice of the line; everything cut off on either side is whitespace; the result neither starts nor ends with whitespace |
| Text.StripIdempotent | comparison.py:56 | stripping a stripped line changes nothing |
| Text.BeforeFirstOfJoin | comparison.py:67 | `split(c)[0]` of `head + c + tail` is `head` when `head` has no `c` |
| BuildTime.LessIsStrictTotalOrder | comparison.py:125 | the `datetime` comparison is irreflexive, asymmetric, total on distinct values and transitive |
| BuildTime.ParseFixed | comparison.py:67 | a successful parse has the `YYYY-MM-DD HH:MM:SS` layout and gives a real calendar date and time of day |
| BuildTime.ParseFormat | comparison.py:67 | every valid timestamp printed in that layout parses back to itself |
| BuildTime.DecodeBuildTime | comparison.py:65-71 | decoding never fails and always gives a valid timestamp; `Unknown` gives the epoch; text whose part before the first `.` does not parse gives the epoch; otherwise the result is the parsed value |
| BuildTime.DecodeStatOutput | comparison.py:61-71 | the stat output of a timestamp, with or without fractional seconds and zone after a `.`, decodes to that timestamp |
| Listing.SplitFullName | comparison.py:74-80 | without `/`: the whole name and version `unknown`; with `/`: name and version hold no `/`, the name is the text before the first `/`, and the version is the text after it up to the next `/` or the end |
| Listing.SplitJoin | comparison.py:74-80 | splitting `name/version`, or `name/version/rest`, gives back that name and that version |
| Listing.MakeModule | comparison.py:65-82 | a record keeps the full name, takes name and version from the split and the build time from the decoding, and always has a valid build time |
| Listing.ListModules | comparison.py:50-84 | one record per catalog line, in catalog order, built from the stripped line and the stripped build-time lookup output |
| UniqueModules.Put | comparison.py:96 | assigning a key keeps keys distinct, adds the key, and replaces exactly the entry with that key |
| UniqueModules.DictItems | comparison.py:96-97 | the dictionary has one entry per full name of the list and holds exactly the last record listed under each full name |
| UniqueModules.KeepAbsent | comparison.py:100-101 | the comprehension keeps exactly the entries whose key the other dictionary lacks |
| UniqueModules.OnlyFirst | comparison.py:96-101 | the unique list has distinct full names; its full names are the first host's minus the second host's; it holds exactly the last record of the first host for each such name |
| UniqueModules.OnlyFirstSize | comparison.py:96-101 | the unique list has exactly one entry per full name only the first host has |
| UniqueModules.NothingUnique | comparison.py:100-101 | when every full name of the first host occurs on the second, the unique list is empty |
| UniqueModules.OnlyFirstAgainstEmpty | comparison.py:96-101 | against an empty host the unique list is the deduplicated dictionary; an empty host has no unique modules |
| Mismatches.OrderedIsOlderFirst | comparison.py:124-128 | a reported pair of conflicting records has the same name and version, a strictly older first record, consists of the two records, and does not depend on which host each came from |
| Mismatches.CrossJoinOfSingletons | comparison.py:124-128 | one record against one record gives the ordered pair when name and version match and build times differ, nothing otherwise |
| Mismatches.CrossJoinAppendLeft | comparison.py:121-128 | comparing a concatenation is the sum of comparing its parts, so no pair is merged with an equal one |
| Mismatches.CrossJoinAppendRight | comparison.py:121-128 | the same on the second host's side |
| Mismatches.CrossJoinWithEmpty | comparison.py:121-128 | with an empty host on either side there are no mismatches |
| Mismatches.CrossJoinSymmetric | comparison.py:121-128 | swapping the hosts gives the same mismatches |
| Mismatches.CrossJoinMembers | comparison.py:121-128 | a pair is reported if and only if some record `xs[i]` and some record `ys[j]` share name and version, differ in build time, and give that pair |
| Mismatches.CrossJoinCount | comparison.py:121-128 | each pair is reported exactly as many times as there are index pairs (i, j) that give it |
| Mismatches.CrossJoinPairsAreMismatches | comparison.py:124-128 | every reported pair has equal names and versions, a strictly earlier first build time (never equal build times), and one record from each host |
| Mismatches.WithNameMembers | comparison.py:107-118 | a name's group holds exactly the records with that name |
| Mismatches.CrossJoinOneName | comparison.py:121-123 | a name's records only meet the other host's records of that name |
| Mismatches.CrossJoinSharedNames | comparison.py:121 | leaving out the names the other host lacks loses no mismatch |
| Mismatches.GroupByName | comparison.py:107-118 | the grouping loop's keys are the names of the list, and each group is that name's records in list order |
| Mismatches.CompareGroups | comparison.py:122-128 | the two inner loops over one shared name produce exactly the double loop's pairs for the two groups |
| Mismatches.MismatchedPairs | comparison.py:104-128 | grouping, then comparing the groups of each shared name in any order, produces exactly the plain double loop's pairs with their multiplicities; every pair is same name, same version, older first, one record from each host |
| Comparison.CompareModules | comparison.py:86-130 | the three results are the two unique lists and, as a multiset, the double loop's pairs; the unique lists' full names are each host's minus the other's; every pair is same name, same version, older first |
| Comparison.SwapHosts | comparison.py:96-128 | swapping the hosts swaps the unique lists and keeps the mismatches |
| Comparison.EmptyHost | comparison.py:96-130 | against an empty host: the other host's deduplicated records, nothing unique to the empty host, no mismatches |
| Comparison.UniqueListsPartition | comparison.py:96-101 | the unique lists share no full name, and together with the shared full names they cover both hosts' full names |
| Comparison.OneModuleAgainstNothing | comparison.py:96-130 | one module against an empty host is unique to its host and nothing else is reported |
| Comparison.RebuiltModule | comparison.py:96-128 | the same module built at two dates gives no unique modules and the one pair (older, newer) |
| Comparison.IdenticalHosts | comparison.py:96-128 | identical listings without conflicting records give three empty results |
| Comparison.DuplicateRecord | comparison.py:121-128 | a record listed twice is compared twice and its mismatch is reported twice |
| Comparison.SelfComparisonWithRebuild | comparison.py:121-128 | a host listing one name and version with two build times reports two mismatches against an identical host |
| Comparison.UnversionedModule | comparison.py:74-80 | a catalog line without `/` gives a module of that name with version `unknown` |
| Comparison.UnknownBuildTime | comparison.py:65-71 | an `Unknown` build time is the epoch, and the module still conflicts with a later build of the same version |

## Left out

- Connecting to the hosts and running remote commands (`connect_to_server`, `exec_command`, comparison.py:32-48, 55, 61-63) are network I/O through paramiko. `ListModules` receives the command outputs as parameters instead.
- The catalog filtering happens in the remote shell's `grep` pipeline (comparison.py:55). Only the Python-side `strip()` is modelled.
- The UTF-8 decoding of the `stat` output (`stdout.read().decode()`) is not modelled. Outputs are already strings.
- `parse_arguments` and the printing, sorting and server labelling in `main` (comparison.py:22-30, 132-184) are console I/O and presentation.
- BuildTime.ParseFixed: accepts only the zero-padded `YYYY-MM-DD HH:MM:SS` layout with a single space. Python's `strptime` also accepts shorter numeric fields, runs of whitespace and non-ASCII digits; such inputs decode to the epoch in the model.
- Mismatches.MismatchedPairs: states the result as a multiset, not a list. Python iterates the shared names as a `set`, whose order is unspecified.
- Mismatches.CompareGroups: the two inner loops of `compare_modules` form their own method. The outer loop over shared names in `MismatchedPairs` calls it once per name.
- Comparison.IdenticalHosts: requires that no two records of the listing conflict. Without that, identical hosts report mismatches; `Comparison.SelfComparisonWithRebuild` shows that case.
