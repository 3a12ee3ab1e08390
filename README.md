# DiffMerge diff reversal, modelled in Dafny

DiffMerge works with the diff records of a structural-diff library. A record maps
a *change-type* (`values_changed`, `iterable_item_added`, …) to a map from
*path* (such as `root[1]`) to a *payload*. The core modelled here is the
reversal engine in `diffmerge.py`. Given the record that turns state A into
state B, it builds the record that turns B back into A without seeing A or B.
It has three parts:

- `swap_keys(d, rules)` copies a flat mapping. For every `(from_, to)` pair it
  pops both fields from a deep copy, writes them crosswise into a fresh result,
  and then adds whatever is left of the copy.
- `REVERSE_RULES` is a constant table with one row per known change-type. The
  `values_changed` row swaps `new_value` and `old_value`. Each of the four
  added/removed change-types is renamed to its counterpart.
- `reverse_diff(diff)` looks each change-type up in the table. It passes every
  payload of that change-type through `swap_keys` when the row has swaps, and
  stores the result under the renamed change-type.

Files:

- `wrappers.dfy` holds `Option` and `Result`. A raised exception is modelled as
  a `Failure`.
- `key_swap.dfy` (module `KeySwap`) models `swap_keys`.
  - `SwapKeysOf` is its closed form. It fails with the field of the first
    `pop` that finds that field absent. Otherwise every field holds its
    `Partner`'s value.
  - `SwapKeys` is the loop, proved equal to `SwapKeysOf`.
- `diff_reversal.dfy` (module `DiffReversal`) models the payload values, the
  change-types, the rule table and `reverse_diff`.
  - `ReverseDiffOf` is the closed form of a reversal that raises nothing.
  - `Reversible` says when no exception is raised.
  - `ReverseDiff` and `ReverseChanges` are the two loops, proved against those
    two definitions.

The main results:

- `swap_keys` succeeds exactly when every named field is present and no field
  is named twice. It then exchanges each pair and keeps every other key.
  Applying it twice gives the input back.
- `reverse_diff` is total on records whose change-types are all known and whose
  `values_changed` payloads are mappings holding both fields.
- Reversal keeps every path and payload in place, except for the swap and the
  rename.
- Reversing twice gives back the original record, and the reversed record is
  itself reversible.

Pairs that share a field, including a pair `(f, f)`, always raise `KeyError`,
because the first pop has already removed the shared field from the copy.
`SwapKeysOf` and `SwapOnePair` state this.

## Model

| member | source | states |
|---|---|---|
| KeySwap.SwapKeysOf | diffmerge.py:3-11 | Defines what `swap_keys` returns or raises: the field of the first pop that finds that field absent, or else `d` with every key holding its partner's value. It ensures that a success keeps exactly the keys of `d` and that a failure names a field of the rules |
| KeySwap.SwapKeys | diffmerge.py:3-11 | The pop loop over a copy of `d` returns exactly `SwapKeysOf(d, rules)`: it raises on the first field a pop finds absent, and otherwise returns `d` with every named field holding its partner's value |
| KeySwap.PopStep | diffmerge.py:7-9 | One pair's two pops: the first fails when `from_` is absent, and the second fails when `to` is absent after `from_` has gone (so `from_ == to` fails). The pair's fields are each other's partners, and every other field's partner is decided by the remaining pairs |
| KeySwap.LoopDone | diffmerge.py:10-11 | When no pop failed, the crosswise-written entries plus what is left of the copy (`result.update(d)`) are the swapped mapping |
| KeySwap.NoFailedPop | diffmerge.py:7-9 | No pop raises exactly when every popped field is present and no field is popped twice (both directions) |
| KeySwap.FailedPopIsAbsent | diffmerge.py:8-9 | The field a failing pop reports is popped at a step where it is absent: it was never in the mapping, or an earlier pop took it |
| KeySwap.PairInPops | diffmerge.py:7-9 | Both fields of every pair are popped |
| KeySwap.PartnerNamedOrSelf | diffmerge.py:7-10 | The value under a key comes from that key itself or from a popped field |
| KeySwap.PartnerOfUnnamed | diffmerge.py:10 | A key that no pair names keeps its own value |
| KeySwap.PartnersPresent | diffmerge.py:7-10 | When every popped field is present, every key's value source is present |
| KeySwap.PartnerOfPair | diffmerge.py:8-9 | With no field named twice, each pair's two fields take each other's values |
| KeySwap.PartnerInvolutive | diffmerge.py:7-9 | With no field named twice, the partner of a key's partner is the key itself |
| KeySwap.SwapKeysSucceedsIff | diffmerge.py:3-11 | `swap_keys` raises nothing exactly when every named field is in `d` and no field is named twice |
| KeySwap.SwapKeysReportsMissingField | diffmerge.py:8-9 | On failure, the reported field is a named field that is absent from `d` or was named by an earlier pop |
| KeySwap.SwapKeysExchangesPairs | diffmerge.py:8-9 | On success, for every pair, the result holds `d[to]` under `from_` and `d[from_]` under `to` |
| KeySwap.SwapKeysKeepsOthers | diffmerge.py:10 | On success, the result has exactly the keys of `d`, and every unnamed key keeps its value |
| KeySwap.SwapKeysTwice | diffmerge.py:3-11 | Swapping the result again with the same rules gives back `d` |
| KeySwap.SwapOnePair | diffmerge.py:7-9 | For a single pair `(a, b)`: it raises on `a` if `a` is absent, and on `b` if `b` is absent or equals `a`; otherwise it is `d` with the two values exchanged |
| KeySwap.SwapKeysExample | tests/test_diff_merge.py:53-57 | `{'x': 1, 'y': 2}` swapped by `[('x', 'y')]` is `{'x': 2, 'y': 1}` |
| DiffReversal.ChangeTypeOf | diffmerge.py:36 | Defines the change-type a name in a record denotes: one of the five when the name spells one, else `Unknown(name)`. It ensures that the change-type's name is the name it was read from |
| DiffReversal.ChangeTypeLookup | diffmerge.py:36 | Every name denotes a canonical change-type, and the table lookup succeeds exactly for the five names the table spells |
| DiffReversal.CanonicalNamesDistinct | diffmerge.py:13-31 | Distinct canonical change-types have distinct names, so each name has one table row at most |
| DiffReversal.ReverseRules | diffmerge.py:13-31 | Defines the rule table: `values_changed` swaps `new_value` with `old_value`, and each of the four added/removed change-types renames to its counterpart |
| DiffReversal.ReversedType | diffmerge.py:43-45 | Defines the change-type a known change-type is stored under: the row's rename if it has one, else the change-type itself. It ensures that the result is also in the table |
| DiffReversal.ReversedPayload | diffmerge.py:39-41 | Defines one payload after its rule: unchanged when the rule has no swaps, else the mapping through `swap_keys`, with `MissingField` for a failing pop and `NotAMapping` for a non-mapping payload. It ensures that a swap keeps the mapping's field set, and that `NotAMapping` is raised exactly for a non-mapping payload |
| DiffReversal.ReversedChanges | diffmerge.py:37-42 | Defines one change-type's changes after the rule, at the same paths. It ensures that the set of paths is unchanged |
| DiffReversal.Reversible | diffmerge.py:33-47 | Defines when `reverse_diff` raises nothing: every change-type has a table row and every payload takes its rule |
| DiffReversal.FailsWith | diffmerge.py:33-47 | Defines the errors a record can raise: `UnsupportedChangeType` for a change-type with no row, or the error of some payload under its rule |
| DiffReversal.ReverseDiffOf | diffmerge.py:33-47 | Defines what `reverse_diff` returns when it raises nothing: each change-type's changes after its rule, stored under its renamed change-type |
| DiffReversal.ReverseDiff | diffmerge.py:33-47 | The loop over change-types succeeds exactly when the record is `Reversible`, and then returns `ReverseDiffOf(diff)`. On failure, it returns an error that some entry of the record raises: an unknown change-type at the table lookup, or a payload that the swap rejects |
| DiffReversal.ReverseChanges | diffmerge.py:37-42 | The loop over one change-type's paths succeeds exactly when every payload takes its rule, and then returns every payload through its rule under the same path. On failure, it returns the error of some payload |
| DiffReversal.ReverseStep | diffmerge.py:43-46 | One outer iteration: storing one more change-type's new changes under its renamed change-type extends the key set by that name and keeps every earlier entry |
| DiffReversal.ReverseLoopDone | diffmerge.py:43-47 | After the last change-type, the record built by storing each change-type's new changes under its renamed change-type is `ReverseDiffOf(diff)` |
| DiffReversal.ReversedTypeInjective | diffmerge.py:13-31 | No two known change-types are renamed to the same change-type, so no stored entry overwrites another |
| DiffReversal.RenameTable | diffmerge.py:13-31 | `values_changed` keeps its name, and the iterable/dictionary added/removed change-types trade names pairwise |
| DiffReversal.ReversedTypeInvolution | diffmerge.py:13-31 | Every known change-type is renamed to a known change-type with the same swaps, and renaming that gives the original back |
| DiffReversal.ReversibleIff | diffmerge.py:36-41 | `reverse_diff` raises nothing exactly when every change-type is one of the five in the table and every `values_changed` payload is a mapping holding both `new_value` and `old_value` |
| DiffReversal.ReverseDiffPathLocal | diffmerge.py:38-46 | The reversed record holds exactly the renamed change-types of the input, and each has the same set of paths as its source |
| DiffReversal.ValuesChangedPayload | diffmerge.py:39-41 | A `values_changed` payload holding both fields comes out with `new_value` and `old_value` exchanged |
| DiffReversal.ReverseDiffValuesChanged | diffmerge.py:39-42 | `values_changed` keeps its change-type and its paths, and each payload has `new_value` and `old_value` exchanged with nothing else changed |
| DiffReversal.ReverseDiffRenames | diffmerge.py:43-46 | An added/removed change-type is stored under its counterpart with unchanged payloads |
| DiffReversal.ReverseDiffAt | diffmerge.py:43-46 | Each change-type of the input is stored under its renamed change-type, holding its payloads after the rule |
| DiffReversal.PayloadTwice | diffmerge.py:39-41 | A payload reversed twice by rules with the same swaps is unchanged |
| DiffReversal.ChangesTwice | diffmerge.py:38-42 | One change-type's changes, reversed twice by rules with the same swaps, are unchanged and raise nothing the second time |
| DiffReversal.ReverseDiffReversible | diffmerge.py:33-47 | The reversed record is itself accepted by `reverse_diff` |
| DiffReversal.ReverseDiffTwiceAt | diffmerge.py:33-47 | For any record `reverse_diff` accepts, the reversed record is accepted too, and after two reversals each change-type of the input is back with the changes it had |
| DiffReversal.ReverseDiffTwiceKeys | diffmerge.py:33-47 | For any record `reverse_diff` accepts, two reversals give back exactly the change-types of the input |
| DiffReversal.ReverseDiffTwiceValues | diffmerge.py:33-47 | For any record `reverse_diff` accepts, every change-type holds its original changes after two reversals |
| DiffReversal.ReverseDiffTwice | diffmerge.py:33-47 | Reversing twice is the identity on every record `reverse_diff` accepts |
| DiffReversal.FieldNamesDistinct | diffmerge.py:16 | The two swapped field names `new_value` and `old_value` differ, so the table's swap never raises for a repeated field |
| DiffReversal.ExamplePayloadSwapped | tests/test_diff_merge.py:47-48 | Under the `values_changed` rule, the test's payload `{'new_value': 3, 'old_value': 2}` reverses to `{'new_value': 2, 'old_value': 3}` |
| DiffReversal.TestRecordReversible | tests/test_diff_merge.py:46-49 | The test record raises nothing |
| DiffReversal.TestReversedKeys | tests/test_diff_merge.py:46-49 | Any accepted record holding just a changed value and a removed item reverses to the change-types `values_changed` and `iterable_item_added` |
| DiffReversal.TestReversedValuesChanged | tests/test_diff_merge.py:46-49 | The test record's `values_changed` entry reverses to the expected one |
| DiffReversal.ReverseDiffExample | tests/test_diff_merge.py:46-49 | For any two paths, the test record is reversible and reverses to exactly the expected record |

## Left out

- Dictionary iteration order is not modelled. Both loops take their keys in an unspecified order. So when several entries would raise, `ReverseDiff` and `ReverseChanges` promise only that the error is one that some entry raises, not the one Python's insertion order reaches first.
- The deep copy in `swap_keys` and aliasing between payloads are not modelled. Values are immutable here, so the result never shares state with the input by construction.
- Python's exception classes are not modelled. A missing field (`KeyError` from `pop`) is `MissingField`. An unknown change-type (`KeyError` from the table lookup) is `UnsupportedChangeType`. Swapping a payload that is not a mapping raises `AttributeError` or `TypeError` in Python, and both become `NotAMapping`.
- Payload values are null, booleans, integers, strings, lists and string-keyed mappings. Floats, other scalar types and mappings with non-string keys are not modelled, and neither are user objects with their own `pop`, such as `Puppet`.
- A change-type is a datatype, and a name read from a record is `ChangeTypeOf(name)`. Such change-types are `Canonical`: they are never an `Unknown` that spells one of the five known names. The datatype still admits such a value, and the results about `reverse_diff` hold for it too; it is simply not the image of any name.
- `Puppet` (`diffmerge.py:50-56`) is not part of this model. It is a stub whose copy hooks raise or return a fresh stub, and it has no behaviour to state.
- The structural-diff library (`DeepDiff`, `Delta`) is not part of this model. So the property that applying the reversed delta walks state B back to state A is not modelled. That property is stated here only through its record-level counterpart, `ReverseDiffTwice`.
- Chain merge and the auto-vivifying placeholder tree have no implementation in `diffmerge.py`, so they are not modelled.
