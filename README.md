# action-changed-files: the job-matrix generator, in Dafny

This project models the core of `action-changed-files`, a GitHub Action that turns the
files changed between two revisions into a CI job matrix.

Each changed file is a filename and a status. The filename is matched, at position 0,
against an include pattern. Each matching file becomes a key: the named-group values of
the match, or `{"path": filename}` when the pattern has no named groups. The statuses seen
for a key are collected into a set. A pattern that defines a group named `reason` is an
error, because `reason` is the field the matrix itself adds.

A second pass can run over every file of the repository, each with status `"default"`. It
runs when no key was found and `defaults` is on, or when some glob of `default_patterns`
matches a changed filename. This pass is seeded with the keys of the first one. Every key
then gets a `reason`: its status when its status set has one element, else `"updated"`.
The rows are returned sorted.

The `--defaults` flag is parsed by `strtobool`, which is modelled as well.

Modules, one file each:

- `Wrappers` (`wrappers.dfy`): `Option` and `Result`.
- `Common` (`common.dfy`): `strtobool`.
- `Hdict` (`hdict.dfy`): the record type used for keys and rows, and the total order used
  to sort them.
- `Fnmatch` (`fnmatch.dfy`): glob matching for the default patterns.
- `Matches` (`matches.dfy`): `update_matches`, as a method with a loop.
- `Sorting` (`sorting.dfy`): `sorted`, over any strict total order.
- `Matrix` (`matrix.dfy`): `generate_matrix`, with the reason-resolution loop as its own
  method.

The regular-expression engine is a parameter, `m: Matcher`. It maps a filename to `None`
when the pattern does not match, or to the match's named-group dictionary. A group that
took no part in the match has the value `None`. The directory walk is a parameter too:
`tree`, the list of relative paths.

**Where a reader might expect a merge, the model follows the code.** The docstring calls
`old_matches` the "old matches object to update" (neo/neo.py:22). That suggests the
repository-wide pass *merges* its `"default"` statuses into the keys already found,
without losing a real change's status. The code does not merge (neo/neo.py:37-39):

- The first repository file that hits a key already found pops that key from the earlier
  map.
- It records one arbitrary status from the key's earlier set, in place of `"default"`.
- Only later files hitting the same key add `"default"`.
- The function returns a fresh dictionary, so earlier keys that no repository file hits
  are dropped. Without named groups, a key is `{"path": filename}`. A removed file's path
  is not in the repository tree, so its key is dropped whenever the second pass runs
  (`Matrix.RemovedPathKeyDropped`). A named-group key can survive, when some repository file yields the same group values.

`Matches.Seeded` states exactly what the code does. `Matches.SeedingPicksOneEarlierStatus`
shows that the result depends on which status `pop()` hands out, and that the merged
result is not a possible one.

## Model

| member | source | states |
|---|---|---|
| Common.Lower | neo/common.py:34 | lower-casing keeps the length and lower-cases each ASCII letter, leaving every other character as it is |
| Common.StrToBool | neo/common.py:31-40 | the result is true exactly when the lower-cased input is one of y, yes, t, true, on, 1; false exactly when it is one of n, no, f, false, off, 0; an error carrying the lower-cased input exactly when it is neither |
| Common.WordSetsDisjoint | neo/common.py:35-38 | no word is both a true word and a false word, so the order of the two tests does not matter |
| Common.WordsAreLowerCase | neo/common.py:35-38 | every listed word is its own lower case and parses to the boolean of its list |
| Common.LowerOfUpper | neo/common.py:34 | lower-casing forgets case: lowering an upper-cased string gives the lowered original |
| Common.StrToBoolIgnoresCase | neo/common.py:34-40 | parsing is case-insensitive: the upper-cased input parses to the same result |
| Common.UpperWordsAccepted | neo/common.py:34-38 | the upper-case spelling of every listed word ("TRUE", "OFF", ...) parses to that word's boolean |
| Hdict.SortedNames | neo/neo.py:101 | a record's field names, each once, in strictly ascending order |
| Hdict.Fields | neo/neo.py:101 | a record's cells list every field once with its value, in ascending name order |
| Hdict.FieldsInjective | neo/neo.py:101 | two records with the same cells are the same record, so comparing cells compares records |
| Hdict.LexIrreflexive | neo/neo.py:101 | lexicographic order from a strict total order is irreflexive |
| Hdict.LexTransitive | neo/neo.py:101 | lexicographic order from a strict total order is transitive |
| Hdict.LexTotal | neo/neo.py:101 | any two different sequences are lexicographically ordered one way or the other |
| Hdict.RecordBelowStrictTotal | neo/neo.py:101 | the order used to sort rows is a strict total order, so `sorted` has one answer |
| Fnmatch.Filter | neo/neo.py:75 | `fnmatch.filter` keeps exactly the names that match the glob, and no more of them than were given |
| Fnmatch.LiteralMatchesItselfOnly | neo/neo.py:75 | a glob without wildcards matches exactly the name it spells |
| Fnmatch.StarMatchesAll | neo/neo.py:75 | `*` matches every name |
| Fnmatch.PrefixStarMatchesPrefixed | neo/neo.py:75 | a literal prefix followed by `*` matches exactly the names that begin with that prefix |
| Fnmatch.NoStarFixesLength | neo/neo.py:75 | a glob without `*` matches only names of its own length |
| Matches.Classify | neo/neo.py:29-36 | a file is dropped exactly when the pattern does not match it, and rejected exactly when the match has a group named `reason`; an accepted key never holds `reason`; it is the named-group dictionary when there is one, else `{"path": filename}` |
| Matches.SameKey | neo/neo.py:31-36 | two accepted files share a key exactly when their named-group values are equal; without named groups the key is `{"path": filename}` with the whole filename, so the keys are equal exactly when the filenames are |
| Matches.AddStatus | neo/neo.py:39 | `matches[key].add(status)` on a dictionary whose missing entries read as empty sets: the key is present afterwards, it gains the status, and every other entry is unchanged |
| Matches.HitKeysExcludeReason | neo/neo.py:32-34 | no key of the result holds the `reason` field |
| Matches.StatusesOfEmpty | neo/neo.py:37-39 | a key has statuses exactly when some file was accepted under it, so no result set is empty |
| Matches.LaterStatusesEmpty | neo/neo.py:37-39 | a key no file has hit yet has no later statuses |
| Matches.HitKeysAt | neo/neo.py:28-39 | a key is a result key exactly when some file is accepted under it |
| Matches.StatusesOfAt | neo/neo.py:28-39 | a status is recorded for a key exactly when some file accepted under that key has it |
| Matches.LaterStatusesAt | neo/neo.py:37-39 | a status is among a key's later statuses exactly when a file accepted under the key has it and an earlier file was accepted under the same key |
| Matches.Collect | neo/neo.py:27-41 | without earlier matches, the keys are those of the accepted files; none holds `reason` and each has a non-empty status set |
| Matches.CollectMembers | neo/neo.py:27-41 | without earlier matches, a key is present exactly when an accepted file produces it, and its statuses are exactly those of its files, each once |
| Matches.CollectDependsOnAcceptedFiles | neo/neo.py:28-39 | without earlier matches, the result depends only on which files the pattern accepts: not on their order, on repeats, or on the files it does not accept |
| Matches.SeededFromNothing | neo/neo.py:16-41 | with no earlier matches, the seeded result has one possible value: every key with all of its statuses |
| Matches.SeededStatusesFrom | neo/neo.py:37-39 | every recorded status either was in the key's earlier set or is the status of a file accepted under the key |
| Matches.SeededWithUniformStatus | neo/neo.py:37-39 | when every file has one status, a new key gets that status alone, and an earlier key gets one earlier status, with or without the uniform one |
| Matches.SeedingPicksOneEarlierStatus | neo/neo.py:37-38 | with earlier statuses {modified, removed} and one default file for the key, {modified} and {removed} are both possible results and the merged {modified, removed, default} is not |
| Matches.UpdateMatches | neo/neo.py:16-41 | fails exactly when some file's match has a `reason` group; otherwise the result has exactly the keys of the accepted files; a key without earlier matches has all its statuses; a key with earlier matches has one status from its earlier set plus those of its later files; the earlier map loses exactly the keys that were hit |
| Sorting.InsertSpec | neo/neo.py:101 | inserting into an ascending list keeps it ascending and adds exactly the new element |
| Sorting.Sort | neo/neo.py:101 | `sorted`: the result is ascending and holds the same elements, each as often |
| Sorting.AscendingUnique | neo/neo.py:96-101 | a collection has only one ascending arrangement, so the output does not depend on the order the dictionary lists its keys in |
| Sorting.SameElementsSameList | neo/neo.py:96-101 | two ascending lists without repeats that hold the same elements are equal |
| Matrix.Reason | neo/neo.py:97 | the reason is the key's status when its set has exactly one element, and `"updated"` otherwise |
| Matrix.ReasonOfOne | neo/neo.py:97 | a key whose status set has one element takes that status as its reason |
| Matrix.RowOf | neo/neo.py:97 | a row has the key's fields plus `reason`, every key field keeps its value, and `reason` holds the key's reason |
| Matrix.RowKeyRoundTrip | neo/neo.py:97 | dropping `reason` from a row gives back its key, and the row's `reason` is the key's reason |
| Matrix.RowOfInjective | neo/neo.py:96-98 | different keys give different rows, whatever their statuses |
| Matrix.AppendRow | neo/neo.py:96-98 | appending the row of a key not yet handled keeps exactly one row per handled key |
| Matrix.ResolveReasons | neo/neo.py:95-98 | the rows are exactly the keys' rows with their reasons, one per key, none repeated |
| Matrix.MatchedDefaultPatterns | neo/neo.py:72-76 | a default pattern is kept exactly when some changed filename matches it |
| Matrix.SomePatternMatched | neo/neo.py:72-84 | the list of matched default patterns is non-empty exactly when some default pattern matches some changed filename |
| Matrix.CollectEmpty | neo/neo.py:81-84 | the first pass finds no key exactly when no changed file is accepted by the pattern |
| Matrix.Expands | neo/neo.py:84 | the second pass runs exactly when `defaults` is on and no changed file is accepted, or some default pattern matches some changed filename |
| Matrix.DefaultFiles | neo/neo.py:88-92 | every repository file is listed once, in order, with status `"default"` |
| Matrix.GenerateMatrix | neo/neo.py:44-101 | fails exactly when a changed file, or (when the second pass runs) a repository file, matches with a `reason` group; the second pass runs exactly when no key was found and `defaults` is on, or some default pattern matched; the rows are the final keys with their reasons, one per key, none repeated, in ascending order |
| Matrix.NothingMatchedNoRows | neo/neo.py:81-101 | with no changed file accepted, `defaults` off and no default pattern matched, there are no rows |
| Matrix.DefaultPassReasons | neo/neo.py:88-98 | after a seeded pass whose files all have status `"default"`, a new key has reason `"default"`, and a key with earlier statuses has one of them or `"updated"` |
| Matrix.ExpandedReasons | neo/neo.py:84-98 | after the second pass, a key no changed file produced has reason `"default"`, and any other key has one of its changed-file statuses or `"updated"` |
| Matrix.RemovedPathKeyDropped | neo/neo.py:27-41 | with a pattern without named groups, the repository-wide pass drops the `{"path": p}` key of every path `p` the tree does not hold, whatever the earlier matches |
| Matrix.PathRowsSortByPath | neo/neo.py:101 | without named groups, rows for two different paths are ordered by their paths |

## Left out

- Compiling the include pattern with `re.M | re.S`, and the regex engine itself, are not modelled (neo/neo.py:68). The compiled pattern is the parameter `m`. An invalid pattern's `re.error` is not modelled.
- Fnmatch.GlobMatches: bracket classes (`[...]`) and `os.path.normcase` are not modelled. Only `*`, `?` and literal characters are.
- Walking the directory with `os.walk` and `os.path.relpath` is I/O (neo/neo.py:88-92). The relative paths come in as the parameter `tree`, so `default_dir` and its `GITHUB_WORKSPACE` default have no counterpart.
- Reading `filename` and `status` out of the API's dictionaries is not modelled (neo/neo.py:69). Changed files arrive as `ChangedFile` records, so a missing field's `KeyError` cannot occur.
- `hdict` is imported but its definition is not part of this model, so its hashing and its ordering are unknown. Records compare by structure. `sorted` uses a chosen order: lexicographic over the (name, value) cells in ascending name order, with an absent value below any string.
- Matches.UpdateMatches: requires every earlier status set to be non-empty. Python would raise `KeyError` from `set.pop()` on an empty set. The only caller passes the result of an earlier call, whose sets are never empty (`Matches.Collect`).
- Matches.UpdateMatches: the mutable default argument `old_matches=defaultdict(set)` is modelled as the empty map the first call passes. The shared default object is only popped from when it holds the key, so it stays empty.
- Which element `set.pop()` returns is an arbitrary choice (`:|`). So is the order of `matches.items()`. The sorted output does not depend on the latter (`Sorting.AscendingUnique`), but it does depend on the former (`Matches.SeedingPicksOneEarlierStatus`).
- Matrix.ResolveReasons: the source writes `reason` into the key dictionary itself, which is also a key of `matches`. The model builds a new row value, so that aliasing is not captured.
- Common.Lower: covers ASCII letters only, not Python's full Unicode `str.lower()`.
- `main`, the HTTP session and the pagination over the compare API are left out as network I/O (neo/neo.py:104-141).
- `github_webhook_ref`, which reads environment variables and the event file, is left out (neo/neo.py:144-186).
- `set_github_actions_output` and the `__main__` block are left out as printing, argument parsing and logging set-up (neo/neo.py:189-250).
- `EnvDefault` and `env_default` are argument-parser plumbing and are left out (neo/common.py:7-28).
- `logging` calls are left out.
- `neo/tests.py` calls `generate_matrix` with a keyword the function no longer takes and expects rows without `reason`. It is used only as evidence of intent: `Matrix.NothingMatchedNoRows` corresponds to its empty case, `Matches.SameKey` to its full-path keys and `Matrix.PathRowsSortByPath` to its ordering by path.
