# DeepCopyDebugger: property/filter classification

DeepCopyDebugger is a debugging helper for the DeepCopy library. Given an
entity class, it reports which DeepCopy filters apply to each of the class's
properties. It also reports which properties are matched (at least one filter
applies) and which are unmatched (no filter applies).

This project models the classification core of `src/DeepCopyDebugger.php` in
Dafny and proves what it computes:

- `GetPropertyCollection` is the loop that turns the declared property names
  into a keyed collection (name => name). A repeated name overwrites its own
  entry, so each name is kept once, at its first position.
- `GetMatchedAndUnmatchedEntityProperties` is the nested loop. It starts every
  property with an empty list and appends each filter whose matcher applies.
  A `PropertyNameMatcher` applies when the property name is equal. A
  `PropertyMatcher` applies when both the class and the property name are
  equal. Any other matcher kind never applies.
- `GetMatchedEntityProperties` and `GetUnmatchedEntityProperties` keep the
  entries whose lists are non-empty, or empty.

PHP arrays with string keys are modelled in module `OrderedMaps` as sequences
of (key, value) entries in insertion order. `Set` is `$m[$k] = $v`: an existing
key keeps its place and gets the new value, and a new key is appended. `Push`
is `$m[$k][] = $x`.

Each loop method is proved against a specification function on values:
`Dedup` (first-occurrence deduplication), `MatchingFilters` (the filters that
apply, in collection order), `Classify` (each property with its filters),
`Matched` and `Unmatched`. The lemmas prove the following properties of those
functions:

- Every property is present, in order.
- Each list is the filter collection read at exactly the positions of the
  filters that apply.
- The two matcher kinds apply under exactly the stated conditions.
- Other matcher kinds never apply.
- A filter is listed for at most one property.
- The two views partition the result.
- The empty cases give the expected results.

The filter records and the declared property names are inputs. The
DeepCopy engine and PHP reflection that produce them are not modelled.

Files: `sequences.dfy` (module `Sequences`), `ordered_maps.dfy` (module
`OrderedMaps`), `deep_copy_debugger.dfy` (module `DeepCopyDebugger`).

## Model

| member | source | states |
|---|---|---|
| `DeepCopyDebugger.GetPropertyCollection` | src/DeepCopyDebugger.php:113-125 | the collection's keys are the declared names with repeats dropped, each at its first position (`Dedup`), and every entry's value equals its key |
| `DeepCopyDebugger.GetMatchedAndUnmatchedEntityProperties` | src/DeepCopyDebugger.php:35-66 | the nested loops produce `Classify(entityClass, Dedup(declared), filters)`: one entry per property of the collection, in collection order, each with the filters that apply to it |
| `DeepCopyDebugger.GetMatchedEntityProperties` | src/DeepCopyDebugger.php:73-78 | the result is the matched view of the full classification; every entry has a non-empty filter list and a declared property name |
| `DeepCopyDebugger.GetUnmatchedEntityProperties` | src/DeepCopyDebugger.php:85-92 | the result is the unmatched view of the full classification; every entry has the empty list and a declared property name |
| `DeepCopyDebugger.MatchingFiltersStep` | src/DeepCopyDebugger.php:44-61 | scanning one more filter appends it to the property's list exactly when its matcher applies, and leaves the list unchanged otherwise |
| `DeepCopyDebugger.ClassifyKeys` | src/DeepCopyDebugger.php:41-42 | the full result has exactly the properties as keys, in the same order, including properties no filter applies to; its keys are distinct exactly when the property names are |
| `DeepCopyDebugger.MatchingFiltersInOrder` | src/DeepCopyDebugger.php:44-57 | a property's list is the filter collection read at strictly increasing positions, and a position is taken exactly when the filter there applies, so filter order is kept |
| `DeepCopyDebugger.MatchingFiltersMembership` | src/DeepCopyDebugger.php:44-61 | a filter is in a property's list if and only if it is in the collection and its matcher applies to that property |
| `DeepCopyDebugger.PropertyNameMatcherMatchesAnyClass` | src/DeepCopyDebugger.php:46-51 | a PropertyNameMatcher filter is listed for a property if and only if its property equals the property's name, for any entity class |
| `DeepCopyDebugger.PropertyMatcherNeedsClassAndName` | src/DeepCopyDebugger.php:52-60 | a PropertyMatcher filter is listed for a property if and only if its class equals the entity class and its property equals the property's name |
| `DeepCopyDebugger.OtherMatcherNeverListed` | src/DeepCopyDebugger.php:45-61 | every listed filter comes from the collection and has one of the two recognised matcher kinds; a filter of any other kind is never listed and causes no error |
| `DeepCopyDebugger.FilterListedForAtMostOneProperty` | src/DeepCopyDebugger.php:41-61 | because the property collection has distinct keys, no filter is listed for two different properties |
| `DeepCopyDebugger.MatchedInOrder` | src/DeepCopyDebugger.php:77 | the matched view is the full result read at strictly increasing positions, and a position is taken exactly when its list is non-empty |
| `DeepCopyDebugger.UnmatchedInOrder` | src/DeepCopyDebugger.php:89-91 | the unmatched view is the full result read at strictly increasing positions, and a position is taken exactly when its list is empty |
| `DeepCopyDebugger.MatchedEntries` | src/DeepCopyDebugger.php:77 | every entry of the matched view is an entry of the full result with a non-empty list |
| `DeepCopyDebugger.UnmatchedEntries` | src/DeepCopyDebugger.php:89-91 | every entry of the unmatched view is an entry of the full result with an empty list |
| `DeepCopyDebugger.ViewsSizes` | src/DeepCopyDebugger.php:73-92 | the two views together have as many entries as the full result |
| `DeepCopyDebugger.ViewsPartitionKeys` | src/DeepCopyDebugger.php:73-92 | for a result with distinct keys, a key is in the result if and only if it is in one of the views, and no key is in both |
| `DeepCopyDebugger.ResultViewsPartitionProperties` | src/DeepCopyDebugger.php:73-92 | on the result for an entity, every declared property is in exactly one of the matched and unmatched views, and the views hold nothing else |
| `DeepCopyDebugger.NoFiltersLeavesEveryPropertyUnmatched` | src/DeepCopyDebugger.php:41-44 | with an empty filter collection every property maps to the empty list, the matched view is empty and the unmatched view is the whole result |
| `DeepCopyDebugger.NoPropertiesGivesEmptyResults` | src/DeepCopyDebugger.php:37-41 | with no declared property the full result and both views are empty |
| `DeepCopyDebugger.PropertyNameScenario` | src/DeepCopyDebugger.php:46-51 | with one PropertyNameMatcher filter for `createdAt` and properties `id`, `createdAt`, `total`, only `createdAt` is matched, on any class |
| `DeepCopyDebugger.ClassMismatchScenario` | src/DeepCopyDebugger.php:52-60 | a PropertyMatcher filter for `Order::total` matches `total` on `Order` and leaves `total` unmatched on any other class |
| `Sequences.DedupCharacterisation` | src/DeepCopyDebugger.php:119-122 | the deduplicated names are exactly the declared names, each once, ordered by their first declaration |
| `Sequences.DedupOfDistinct` | src/DeepCopyDebugger.php:119-122 | when no name is declared twice, the property collection keeps the declared names unchanged |
| `OrderedMaps.Set` | src/DeepCopyDebugger.php:121 | `$m[$k] = $v` keeps the key order when `k` is present and appends `k` otherwise, and adds no entry other than `(k, v)` |
| `OrderedMaps.SetLookup` | src/DeepCopyDebugger.php:121 | after `$m[$k] = $v`, reading `k` gives `v` and reading any other key gives what it gave before |
| `OrderedMaps.Lookup` | src/DeepCopyDebugger.php:48 | a key has a value exactly when it is a key of the array, and the value is that key's entry |
| `OrderedMaps.SetAbsent` | src/DeepCopyDebugger.php:42 | assigning to a key not yet present appends one entry at the end |
| `OrderedMaps.Push` | src/DeepCopyDebugger.php:48 | `$m[$k][] = $x` keeps the key order when `k` is present and appends `k` otherwise, makes `k` read its former list (or the empty list) with `x` appended, and adds no entry under another key; `PushLast` gives the case the loop meets |
| `DeepCopyDebugger.Applies` | src/DeepCopyDebugger.php:45-61 | a filter that applies has one of the two recognised matcher kinds and names the property, and a `PropertyMatcher` that applies also names the entity class; the converse directions are proved by `PropertyNameMatcherMatchesAnyClass`, `PropertyMatcherNeedsClassAndName` and `OtherMatcherNeverListed` |
| `OrderedMaps.PushLast` | src/DeepCopyDebugger.php:48 | `$m[$k][] = $x` on the last key, which occurs nowhere before, appends `x` to that key's list and changes nothing else |

## Left out

- `getFilterCollection` and `getPrivateProperty` (src/DeepCopyDebugger.php:25-28, 97-108) read DeepCopy's private `filters` property through `Closure::bind`. This is a PHP scope trick on an external library. The model takes the filter records as an input sequence, already in the `matcher` / `matcherData` shape that the matching loop reads.
- Line 39 passes the result of `getFilterCollection()` to the loop unchanged, although the variable is named `$formattedFilterCollection`. Line 27 returns DeepCopy's raw `filters` array, and nothing in this file builds the records that lines 45-55 read, with `matcher` as a class name and a `matcherData` array. The model covers the matching loop only on such normalised records, which this file never produces itself.
- The constructor and the stored DeepCopy instance are plumbing with nothing to verify.
- `ReflectionClass::getProperties()` is PHP reflection. Its output is an input sequence of names, in declaration order, possibly with repeats. Which properties reflection reports (inherited, private) is outside the model. `new ReflectionClass($object)` at line 117 throws when the class does not exist. The model cannot represent that error, because it takes the names as an input.
- The `switch` uses PHP loose comparison on class-name strings. It is modelled as an exact match on the `Matcher` datatype's constructor. `array_filter` truthiness is modelled as "list non-empty", which is exact for arrays.
- PHP converts numeric-string array keys to integers. Property names are PHP identifiers and cannot be numeric, so this case is not modelled.
- Filter records whose `matcherData` lacks a field are not modelled. PHP would read such a field as null and the comparison would fail. Each recognised matcher kind carries its fields by construction.
- `src/DeepCopyDebugger.php` has no property-type matcher, does not normalise filter names, and raises no error for a missing `matcherData` field. Any matcher kind other than the two recognised ones falls under `OtherMatcher` and never matches.
- Repeated calls with the same inputs give identical results. The model states this by construction, since every operation is a function of its inputs. Concurrent mutation of the engine is not modelled.
