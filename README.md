# Combination engine — a verified Dafny model

This project models the core of a small combination service. The service takes an array of
per-category item counts and a combination length, then:

1. expands the counts into item names: category 0 gives `A1..A<n0>`, category 1 gives
   `B1..B<n1>`, and so on;
2. enumerates every selection of `length` items at strictly increasing positions of that
   list, using a recursive backtracking generator over a shared `path` array;
3. keeps a full-length selection only when no two of its items share a first character (the
   first UTF-16 code unit, as JavaScript indexing gives it).
   This is the prefix validator, a set-based scan with an early `false`;
4. collects the result and stores it through two repository inserts inside one transaction.
   The batch insert stores one row per combination; the response insert stores the
   serialised `{id, combinations}`. A run that generates nothing fails, because an `INSERT`
   with no values is rejected by the database.
   The caller gets back the same `{id, combinations}`.

The model also covers the SQL setup step, which splits the setup script on `';'`, trims every
piece and drops the empty pieces.

Modules, one per source file:

- `CombinationValidator` (`combination_validator.dfy`): `IsValid` is the loop over a set of
  seen prefixes. It is proved against the predicate `DistinctPrefixes`.
- `ItemRepository` (`item_repository.dfy`): `GetItems` is the reduce, written as nested loops
  that append to a sequence. It is proved equal to the function `Expand`. The lemmas give its
  length, its category-major order, the exact position of every name, per-category counts and
  distinctness. Ordinals are decimal text, and a parse-back round trip is proved for it.
- `CombinationModel` (`combination_model.dfy`): the `Combination` wrapper around `items`.
- `CombinationService` (`combination_service.dfy`): the spec functions `Gen`/`GenFrom` give the
  index tuples the generator yields.
  - The recursive method `CombinationGenerator` mutates a `Path` object, just as the source
    pushes to and pops from its shared array. It is proved to yield exactly the combinations
    of `Gen` and to leave `path` as it found it.
  - Lemmas prove `Gen` sound, complete and strictly lexicographically sorted. So every valid
    selection is yielded exactly once.
  - `SaveCombinations` composes the generator with the two repository inserts.
- `DatabaseSetup` (`database_setup.dfy`): `Split`, `Trim`, `NonEmpty` and `Statements`, with a
  join round trip, uniqueness of the split, and the shape and order of the statements.
- `Wrappers` (`wrappers.dfy`): `Option` and `Result`.

The model follows the code as written:

- the generator filters after a full-length path is built and does not prune;
- there is no "not enough items" short-circuit, so a too-long `length` just yields no
  combinations;
- no per-item rows or combination-item link rows are written;
- negative counts are accepted and contribute nothing.

## Model

| member | source | states |
|---|---|---|
| `CombinationValidator.Prefix` | utils/combination-validator.util.js:21 | `item[0]`: nothing (`undefined`) exactly for the empty item; for an item starting inside the Basic Multilingual Plane, its first character's code. |
| `CombinationValidator.FirstCodeUnit` | utils/combination-validator.util.js:21 | The code unit `item[0]` reads is below 65536: the character itself inside the Basic Multilingual Plane, a high surrogate outside it. |
| `CombinationValidator.PrefixBmp` | utils/combination-validator.util.js:21 | For items starting with Basic Multilingual Plane characters, equal prefixes mean equal first characters, and conversely. |
| `CombinationValidator.SharedHighSurrogate` | utils/combination-validator.util.js:21-24 | Two different astral first characters with the same high surrogate count as the same prefix: `["\u{1D400}1", "\u{1D401}1"]` is rejected. |
| `CombinationValidator.IsValid` | utils/combination-validator.util.js:17-31 | Returns true exactly when the prefixes of all items are pairwise distinct. A prefix is the first UTF-16 code unit, or `undefined` for "". Loop invariant: the seen set equals the prefixes of the items scanned so far, and those are distinct. The early `false` fires on a repeat. |
| `CombinationValidator.DistinctPrefixesSnoc` | utils/combination-validator.util.js:20-27 | One step of the scan: appending an item keeps a combination valid if and only if its prefix is not already in the seen set. |
| `CombinationValidator.ValidPrefixClosed` | utils/combination-validator.util.js:17-31 | Every initial segment of a valid combination is valid, and so is each of its items on its own. |
| `CombinationValidator.SmallCombinationsValid` | utils/combination-validator.util.js:18-30 | The empty combination is valid, and so is every combination of a single item, whatever the item. |
| `CombinationValidator.PrefixSetSnoc` | utils/combination-validator.util.js:26 | After one more item the seen set is the previous set plus that item's prefix. |
| `CombinationValidator.DistinctPrefixesCardinality` | utils/combination-validator.util.js:18-28 | The set of seen prefixes is never larger than the combination. The combination is valid exactly when the two sizes are equal. |
| `ItemRepository.Decimal` | repositories/item.repository.js:20 | The ordinal text `${i + 1}` is a non-empty string of decimal digits with no leading zero. |
| `ItemRepository.ParseDecimalOfDecimal` | repositories/item.repository.js:20 | Reading the ordinal text back gives the number it came from, so different ordinals give different texts. |
| `ItemRepository.GetItems` | repositories/item.repository.js:15-25 | The reduce with its nested push loop produces exactly `Expand(data)`. Invariants: after `letter` categories the accumulator is the expansion of those categories; inside category `letter` it holds the first `i` names of that category. |
| `ItemRepository.Expand` | repositories/item.repository.js:16-24 | The accumulator after the reduce: its number of names is the sum of the positive counts. Zero or negative counts add nothing, and an empty array gives no names. |
| `ItemRepository.ExpandAt` | repositories/item.repository.js:17-20 | For 1 <= k <= data[j], position `Offset(data, j) + k - 1` holds letter `chr(65 + j)` followed by the decimal k. |
| `ItemRepository.ExpandSource` | repositories/item.repository.js:16-24 | Every position holds the k-th name of some category j, with 1 <= k <= data[j], at position `Offset(data, j) + k - 1`. Its prefix is `chr(65 + j)`, so the prefix identifies the category. |
| `ItemRepository.CategoryMajor` | repositories/item.repository.js:16-24 | In the output, the k-th name of category j sits at an earlier position than the k'-th name of any later category j'; both positions are given and hold those names. |
| `ItemRepository.OffsetMonotone` | repositories/item.repository.js:16-24 | Category start positions never decrease, and the last one equals the total count. |
| `ItemRepository.CountPerCategory` | repositories/item.repository.js:19-21 | Exactly `data[j]` names have the prefix `chr(65 + j)`, or none when `data[j] <= 0`. |
| `ItemRepository.ExpandDistinct` | repositories/item.repository.js:17-20 | No name appears twice. |
| `CombinationService.Gen` | services/combination.service.js:50-65 | The index tuples that `combinationGenerator(path, start)` yields: the path itself at full length if it is valid, otherwise the loop from `start`. Every index in them is in range. |
| `CombinationService.GenFrom` | services/combination.service.js:59-65 | The index tuples yielded by loop iterations i, i+1, and so on. Every index is in range. |
| `CombinationService.GenAtFullLength` | services/combination.service.js:51-56 | A full-length path yields its own combination when the validator accepts it, and nothing otherwise. |
| `CombinationService.SelectSnoc` | services/combination.service.js:60 | Pushing `items[i]` onto the path is the same as appending index i to the selection. |
| `CombinationService.GenSound` | services/combination.service.js:49-69 | Every yielded tuple has exactly `length` strictly increasing in-range indices, and its items pass the validator. It extends the current path with indices at or after `start`. |
| `CombinationService.GenFromSound` | services/combination.service.js:59-65 | Tuples from loop iteration i onward are valid selections that extend the path. Their next index is at least i. |
| `CombinationService.GenComplete` | services/combination.service.js:49-69 | Every valid selection that extends the path with indices at or after `start` is yielded. |
| `CombinationService.GenFromComplete` | services/combination.service.js:59-65 | Every valid selection whose next index is at least i is yielded from loop iteration i onward. |
| `CombinationService.GenSorted` | services/combination.service.js:59-65 | The yielded tuples come out in strictly increasing lexicographic order. |
| `CombinationService.GenFromSorted` | services/combination.service.js:59-65 | The tuples of the loop come out in strictly increasing lexicographic order. |
| `CombinationService.SplitLess` | services/combination.service.js:59-65 | Every tuple from the branch that pushed i comes before every tuple from later iterations. |
| `CombinationService.GenerateSpec` | services/combination.service.js:49-69 | From an empty path, a tuple is yielded if and only if it is a valid selection of `length` items at strictly increasing indices. Tuples come out in lexicographic order and none repeats, so each valid selection is yielded exactly once. |
| `CombinationService.GenerateEdgeCases` | services/combination.service.js:50-59 | `length == 0` yields exactly one empty combination. A negative `length`, or one greater than the number of items, yields none. |
| `CombinationService.Path.constructor` | services/combination.service.js:50 | The generator starts with an empty path. |
| `CombinationService.Path.Push` | services/combination.service.js:60 | `path.push(x)` appends x. |
| `CombinationService.Path.Pop` | services/combination.service.js:64 | `path.pop()` removes the last element and leaves an empty array unchanged. |
| `CombinationService.CombinationGenerator` | services/combination.service.js:50-66 | Yields exactly the combinations of `Gen` for the index path that `path` holds, in generation order. Every push is matched by a pop, so on return `path` equals its value on entry. |
| `CombinationService.ExtendPath` | services/combination.service.js:59-65 | The loop below full length: for each i from `start` it pushes `items[i]`, recurses from i + 1 and pops; it yields exactly the combinations of `GenFrom`, in order, and leaves `path` as it found it. |
| `CombinationService.GenLoopStep` | services/combination.service.js:59-65 | One loop iteration keeps the generator's invariant: the tuples yielded so far, followed by the tuples of the branch that pushes i, are the loop's tuples up to i + 1, and mapping them to combinations distributes over that concatenation. |
| `CombinationService.GenerateCombinations` | services/combination.service.js:49-69 | Yields the combinations of `Gen` from an empty path. Each has exactly `length` items with pairwise distinct prefixes. |
| `CombinationService.GenerateValidCombinations` | services/combination.service.js:33-37 | The generator applied to the expanded item names, with the same length and validity guarantees. |
| `CombinationService.ItemLists` | services/combination.service.js:95 | `combinations.map((c) => c.items)`: one list per combination, in order, each the items of that combination. |
| `CombinationService.CombinationRows` | repositories/combination.repository.js:20-26 | The batch insert writes one `combinations` row per combination, in order, holding that combination's items. |
| `CombinationService.SaveCombinations` | services/combination.service.js:83-105 | On success it returns the id that the batch insert reported, together with the generated item lists in generation order, which are never empty. The committed rows are one row per combination and a response row whose text is the serialisation of that same id and list. If either insert fails, the result is a failure and nothing is committed; in particular, when nothing is generated the empty batch insert fails. |
| `DatabaseSetup.Split` | config/db-setup.config.js:61 | `split(';')` gives at least one piece, and no piece contains `';'`. |
| `DatabaseSetup.JoinSplit` | config/db-setup.config.js:61 | Joining the pieces with `';'` gives back the script. |
| `DatabaseSetup.SplitJoin` | config/db-setup.config.js:61 | The split is the only list of `';'`-free pieces that joins back to the script. |
| `DatabaseSetup.SplitAtSeparator` | config/db-setup.config.js:61 | Splitting `a + ";" + b` gives the pieces of `a` followed by the pieces of `b`. |
| `DatabaseSetup.TrimStart` | config/db-setup.config.js:62 | Drops a whitespace prefix. What is left is a suffix that is empty or starts with a non-whitespace character. |
| `DatabaseSetup.TrimEnd` | config/db-setup.config.js:62 | Drops a whitespace suffix. What is left is a prefix that is empty or ends with a non-whitespace character. |
| `DatabaseSetup.Trim` | config/db-setup.config.js:62 | The result has no leading or trailing whitespace. |
| `DatabaseSetup.TrimSpec` | config/db-setup.config.js:62 | `trim()` returns the infix left between a whitespace prefix and a whitespace suffix. It is empty exactly when the input is all whitespace. |
| `DatabaseSetup.TrimKeepsOut` | config/db-setup.config.js:61-62 | Trimming introduces no character, so a `';'`-free piece stays `';'`-free. |
| `DatabaseSetup.TrimmedShape` | config/db-setup.config.js:61-63 | Trimming and filtering `';'`-free pieces leaves only non-empty, `';'`-free statements with no whitespace at either end. |
| `DatabaseSetup.TrimAll` | config/db-setup.config.js:62 | `.map((stmt) => stmt.trim())`: one result per piece; each is no longer than its piece and is empty or has no whitespace at either end. |
| `DatabaseSetup.TrimAllAppend` | config/db-setup.config.js:62 | The map distributes over concatenation, so it keeps the order of the pieces. |
| `DatabaseSetup.NonEmpty` | config/db-setup.config.js:63 | The filter keeps exactly the non-empty strings. |
| `DatabaseSetup.NonEmptyAppend` | config/db-setup.config.js:63 | The filter keeps order: it distributes over concatenation. |
| `DatabaseSetup.Statements` | config/db-setup.config.js:60-63 | No extracted statement is empty, contains `';'`, or starts or ends with whitespace. |
| `DatabaseSetup.StatementsAreTrimmedPieces` | config/db-setup.config.js:60-63 | A string is a statement exactly when it is non-empty and is the trimmed form of some `';'`-separated piece. |
| `DatabaseSetup.StatementsAtSeparator` | config/db-setup.config.js:60-63 | Statements keep script order: those of `a + ";" + b` are those of `a` followed by those of `b`. |
| `DatabaseSetup.NoStatements` | config/db-setup.config.js:60-63 | A script made only of `';'` and whitespace yields no statements. |
| `DatabaseSetup.SplitWithoutSeparator` | config/db-setup.config.js:61 | A script without `';'` is a single piece. |
| `DatabaseSetup.SingleStatement` | config/db-setup.config.js:60-63 | A script with no `';'` and some non-whitespace character yields one statement: the trimmed script. |

## Left out

- CombinationValidator.IsValid: items are Dafny strings, sequences of Unicode scalar values.
  A JavaScript string holding an unpaired surrogate cannot be represented; for every other
  string the prefix is the first UTF-16 code unit, as `item[0]` reads it. The item names the
  expander produces start with Basic Multilingual Plane letters (`ExpandSource`), so for them
  the prefix is the letter itself.
- CombinationModel.Combination: the class is a datatype; a combination's `items` array is
  never mutated after construction, so identity and aliasing are not modelled.
- ItemRepository.GetItems: the model requires at most `0xD800 - 65` categories, because
  `String.fromCharCode(65 + j)` can produce UTF-16 surrogates and wraps at 65536, and Dafny
  `char` values are Unicode scalar values. `ItemRepository.Expand` carries the same bound.
- Non-integer input: counts are integers in the model. JavaScript also accepts fractional counts
  (`i < 2.5` runs three times) and strings coerced by `<`; these are not modelled. The same
  holds for a non-integer `length` in the generator, which in JavaScript never equals
  `path.length` and so yields nothing.
- Generator laziness, `yield*` and `async`/`await`: every enumeration is modelled as a finished
  sequence, in the order the source would yield it.
- The transaction executor (`executeInTransaction` in repositories/base.repository.js):
  connection acquisition, begin, commit, rollback and release are not modelled. Its effect is
  modelled only as "a failed insert commits nothing and the call fails". A failure to acquire
  a connection is not modelled.
- The SQL text of `batchInsert` and of the response `insert`, with `connection.escape` and
  `execute`: both repositories are parameters that return the id the database reports, or
  nothing when they throw. A combination row holds the item list itself, not its
  `items.toString()` text. The ids of the individual combination rows are not modelled.
- CombinationService.SaveCombinations: the rejection of the empty batch insert is stated as a
  precondition on the `batchInsert` parameter (`batchInsert([]) == None`), since the SQL text
  that causes it is not modelled.
- `JSON.stringify`: a parameter `serialize` of `(id, lists)`. JSON itself and the
  deserialisation round trip are not modelled.
- CombinationService.SaveCombinations: which exception escapes is not modelled; the failure
  only names the insert that failed.
- The HTTP controller, `app.js`, `index.js`, the API documentation setup, the connection pool
  configuration and the lint configuration: transport, bootstrap and tooling.
- In `initializeDatabase`, reading the setup file and running each statement are not
  modelled, because both are I/O. Only the split/trim/filter step is modelled.
