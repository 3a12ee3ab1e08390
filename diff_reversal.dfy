/**
 * The diff-reversal engine `reverse_diff(diff)`. A diff record maps a
 * change-type to a map from path to payload; reversing it looks each
 * change-type up in the constant table `REVERSE_RULES`, swaps the
 * `new_value`/`old_value` fields of every `values_changed` payload (through
 * `swap_keys`) and renames each added/removed change-type to its counterpart,
 * leaving those payloads and every path as they are. A change-type missing from
 * the table raises `KeyError` at the lookup.
 */
module DiffReversal {
  import opened Wrappers
  import opened KeySwap

  /**
   * A change-type key of a diff record. The five the rule table knows are
   * constructors, named after `values_changed`, `iterable_item_added`,
   * `iterable_item_removed`, `dictionary_item_added` and
   * `dictionary_item_removed`; any other name is `Unknown`.
   */
  datatype ChangeType =
    | ValuesChanged
    | IterableItemAdded
    | IterableItemRemoved
    | DictionaryItemAdded
    | DictionaryItemRemoved
    | Unknown(name: string)

  /** The name a change-type has in a diff record. */
  function NameOf(t: ChangeType): string
  {
    match t
    case ValuesChanged => "values_changed"
    case IterableItemAdded => "iterable_item_added"
    case IterableItemRemoved => "iterable_item_removed"
    case DictionaryItemAdded => "dictionary_item_added"
    case DictionaryItemRemoved => "dictionary_item_removed"
    case Unknown(name) => name
  }

  /** The change-type a name in a diff record denotes: one of the five when it spells one, else `Unknown`. */
  function ChangeTypeOf(name: string): (t: ChangeType)
    ensures NameOf(t) == name
  {
    if name == "values_changed" then ValuesChanged
    else if name == "iterable_item_added" then IterableItemAdded
    else if name == "iterable_item_removed" then IterableItemRemoved
    else if name == "dictionary_item_added" then DictionaryItemAdded
    else if name == "dictionary_item_removed" then DictionaryItemRemoved
    else Unknown(name)
  }

  /** A change-type some name denotes: never an `Unknown` spelling one of the five known names. */
  predicate Canonical(t: ChangeType)
  {
    ChangeTypeOf(NameOf(t)) == t
  }

  /** A location in a tree, produced by the diff library; never parsed here. */
  type Path = string
  type Field = string

  /** A payload: the JSON-like values a diff carries. */
  datatype Value =
    | Null
    | Bool(b: bool)
    | Int(i: int)
    | Str(s: string)
    | List(items: seq<Value>)
    | Dict(fields: map<Field, Value>)

  type Changes = map<Path, Value>
  type Diff = map<ChangeType, Changes>

  datatype Error =
    | MissingField(field: Field)                  // `KeyError` raised by a pop in `swap_keys`
    | UnsupportedChangeType(changeType: ChangeType)  // `KeyError` raised by the table lookup
    | NotAMapping                                  // a payload to swap that has no `pop` taking a field name

  /** A row of the rule table: the field pairs to swap in every payload, and the change-type to rename to. */
  datatype Rule = Rule(swapKeys: seq<(Field, Field)>, rename: Option<ChangeType>)

  const NewValue: Field := "new_value"
  const OldValue: Field := "old_value"

  /** `REVERSE_RULES`. */
  const ReverseRules: map<ChangeType, Rule> := map[
    ValuesChanged := Rule([(NewValue, OldValue)], None),
    IterableItemRemoved := Rule([], Some(IterableItemAdded)),
    IterableItemAdded := Rule([], Some(IterableItemRemoved)),
    DictionaryItemAdded := Rule([], Some(DictionaryItemRemoved)),
    DictionaryItemRemoved := Rule([], Some(DictionaryItemAdded))
  ]

  /** The change-type a known change-type is stored under in the reversed record. */
  function ReversedType(t: ChangeType): (r: ChangeType)
    requires t in ReverseRules
    ensures r in ReverseRules
  {
    match ReverseRules[t].rename
    case Some(u) => u
    case None => t
  }

  /** One payload after its rule: swapped through `swap_keys` when the rule has swaps, else the same payload. */
  function ReversedPayload(rule: Rule, payload: Value): (r: Result<Value, Error>)
    ensures rule.swapKeys == [] ==> r == Success(payload)
    ensures r.Success? && rule.swapKeys != [] ==>
      payload.Dict? && r.value.Dict? && r.value.fields.Keys == payload.fields.Keys
    ensures r.Failure? ==> rule.swapKeys != [] && (r.error == NotAMapping <==> !payload.Dict?)
  {
    if rule.swapKeys == [] then Success(payload)
    else
      match payload
      case Dict(fields) =>
        (match SwapKeysOf(fields, rule.swapKeys)
         case Success(swapped) => Success(Dict(swapped))
         case Failure(f) => Failure(MissingField(f)))
      case _ => Failure(NotAMapping)
  }

  predicate ChangesReversible(rule: Rule, changes: Changes)
  {
    forall p :: p in changes ==> ReversedPayload(rule, changes[p]).Success?
  }

  /** `reverse_diff` raises nothing on `diff`: every change-type has a rule and every payload takes its swap. */
  predicate Reversible(diff: Diff)
  {
    forall t :: t in diff ==> t in ReverseRules && ChangesReversible(ReverseRules[t], diff[t])
  }

  /** `e` is an error that processing some entry of `diff` raises. */
  ghost predicate FailsWith(diff: Diff, e: Error)
  {
    exists t :: t in diff &&
      if t in ReverseRules then
        exists p :: p in diff[t] && ReversedPayload(ReverseRules[t], diff[t][p]) == Failure(e)
      else e == UnsupportedChangeType(t)
  }

  /** Every payload of one change-type after its rule, under the same path. */
  function ReversedChanges(rule: Rule, changes: Changes): (r: Changes)
    requires ChangesReversible(rule, changes)
    ensures r.Keys == changes.Keys
  {
    map p | p in changes :: ReversedPayload(rule, changes[p]).value
  }

  /** What `reverse_diff(diff)` returns when it raises nothing. */
  function ReverseDiffOf(diff: Diff): (r: Diff)
    requires Reversible(diff)
  {
    ReversedTypeInjective();
    map t | t in diff :: ReversedType(t) := ReversedChanges(ReverseRules[t], diff[t])
  }

  /**
   * The outer loop of `reverse_diff`, over the change-types. Dictionary order
   * is not modelled, so the keys are taken in any order; on failure the error
   * is one that some entry raises.
   */
  method ReverseDiff(diff: Diff) returns (out: Result<Diff, Error>)
    ensures out.Success? <==> Reversible(diff)
    ensures out.Success? ==> out.value == ReverseDiffOf(diff)
    ensures out.Failure? ==> FailsWith(diff, out.error)
  {
    var result: Diff := map[];
    var pending := diff.Keys;
    while pending != {}
      invariant pending <= diff.Keys
      invariant forall t :: t in diff.Keys - pending ==> t in ReverseRules && ChangesReversible(ReverseRules[t], diff[t])
      invariant result.Keys == set t | t in diff.Keys - pending && t in ReverseRules :: ReversedType(t)
      invariant forall t :: t in diff.Keys - pending && t in ReverseRules ==>
        ChangesReversible(ReverseRules[t], diff[t]) && result[ReversedType(t)] == ReversedChanges(ReverseRules[t], diff[t])
      decreases pending
    {
      var changeType :| changeType in pending;
      if changeType !in ReverseRules {
        assert FailsWith(diff, UnsupportedChangeType(changeType));
        return Failure(UnsupportedChangeType(changeType));
      }
      var rule := ReverseRules[changeType];
      var newChanges := ReverseChanges(rule, diff[changeType]);
      if newChanges.Failure? {
        assert FailsWith(diff, newChanges.error);
        return Failure(newChanges.error);
      }
      var newType := changeType;
      if rule.rename.Some? {
        newType := rule.rename.value;
      }
      assert newType == ReversedType(changeType);
      ReverseStep(diff, diff.Keys - pending, result, changeType, newChanges.value);
      result := result[newType := newChanges.value];
      assert diff.Keys - (pending - {changeType}) == (diff.Keys - pending) + {changeType};
      pending := pending - {changeType};
    }
    ReverseLoopDone(diff, result);
    out := Success(result);
  }

  /** The inner loop of `reverse_diff`: every payload of one change-type through its rule, paths kept. */
  method ReverseChanges(rule: Rule, changes: Changes) returns (out: Result<Changes, Error>)
    ensures out.Success? <==> ChangesReversible(rule, changes)
    ensures out.Success? ==> out.value == ReversedChanges(rule, changes)
    ensures out.Failure? ==> exists p :: p in changes && ReversedPayload(rule, changes[p]) == Failure(out.error)
  {
    var newChanges: Changes := map[];
    var paths := changes.Keys;
    while paths != {}
      invariant paths <= changes.Keys
      invariant newChanges.Keys == changes.Keys - paths
      invariant forall p :: p in newChanges ==> ReversedPayload(rule, changes[p]) == Success(newChanges[p])
      decreases paths
    {
      var path :| path in paths;
      var change := changes[path];
      if rule.swapKeys != [] {
        match change
        case Dict(fields) =>
          var swapped := SwapKeys(fields, rule.swapKeys);
          if swapped.Failure? {
            assert ReversedPayload(rule, changes[path]) == Failure(MissingField(swapped.error));
            return Failure(MissingField(swapped.error));
          }
          change := Dict(swapped.value);
        case _ =>
          assert ReversedPayload(rule, changes[path]) == Failure(NotAMapping);
          return Failure(NotAMapping);
      }
      newChanges := newChanges[path := change];
      paths := paths - {path};
    }
    assert newChanges == ReversedChanges(rule, changes);
    out := Success(newChanges);
  }

  /** One iteration of the outer loop: storing the changes of one more known change-type under its renamed change-type. */
  lemma ReverseStep(diff: Diff, done: set<ChangeType>, result: Diff, t: ChangeType, changes: Changes)
    requires done <= diff.Keys && t in diff && t in ReverseRules && ChangesReversible(ReverseRules[t], diff[t])
    requires changes == ReversedChanges(ReverseRules[t], diff[t])
    requires result.Keys == set u | u in done && u in ReverseRules :: ReversedType(u)
    requires forall u :: u in done && u in ReverseRules ==>
      ChangesReversible(ReverseRules[u], diff[u]) && result[ReversedType(u)] == ReversedChanges(ReverseRules[u], diff[u])
    ensures var result' := result[ReversedType(t) := changes];
      && result'.Keys == (set u | u in done + {t} && u in ReverseRules :: ReversedType(u))
      && forall u :: u in done + {t} && u in ReverseRules ==>
        ChangesReversible(ReverseRules[u], diff[u]) && result'[ReversedType(u)] == ReversedChanges(ReverseRules[u], diff[u])
  {
    ReversedTypeInjective();
  }

  /** After the last change-type, the record built is the reversed record. */
  lemma ReverseLoopDone(diff: Diff, result: Diff)
    requires forall t :: t in diff ==> t in ReverseRules && ChangesReversible(ReverseRules[t], diff[t])
    requires result.Keys == set t | t in diff.Keys && t in ReverseRules :: ReversedType(t)
    requires forall t :: t in diff && t in ReverseRules ==>
      ChangesReversible(ReverseRules[t], diff[t]) && result[ReversedType(t)] == ReversedChanges(ReverseRules[t], diff[t])
    ensures Reversible(diff) && result == ReverseDiffOf(diff)
  {
    var reversed := ReverseDiffOf(diff);
    forall u | u in result ensures u in reversed && result[u] == reversed[u] {
      var t :| t in diff && t in ReverseRules && ReversedType(t) == u;
    }
    assert result == reversed;
  }

  /** Two known change-types never land on the same reversed change-type. */
  lemma ReversedTypeInjective()
    ensures forall t, u :: t in ReverseRules && u in ReverseRules && ReversedType(t) == ReversedType(u) ==> t == u
  {
  }

  /**
   * The table lookup by name succeeds exactly for the five names the table
   * spells, and every name denotes a canonical change-type.
   */
  lemma ChangeTypeLookup(name: string)
    ensures Canonical(ChangeTypeOf(name))
    ensures ChangeTypeOf(name) in ReverseRules <==>
      name in ["values_changed", "iterable_item_added", "iterable_item_removed", "dictionary_item_added", "dictionary_item_removed"]
  {
  }

  /** Distinct canonical change-types have distinct names. */
  lemma CanonicalNamesDistinct(t: ChangeType, u: ChangeType)
    requires Canonical(t) && Canonical(u) && t != u
    ensures NameOf(t) != NameOf(u)
  {
  }

  /** The renames of the table, row by row: `values_changed` keeps its name, the other four trade places pairwise. */
  lemma RenameTable()
    ensures ReversedType(ValuesChanged) == ValuesChanged
    ensures ReversedType(IterableItemAdded) == IterableItemRemoved
    ensures ReversedType(IterableItemRemoved) == IterableItemAdded
    ensures ReversedType(DictionaryItemAdded) == DictionaryItemRemoved
    ensures ReversedType(DictionaryItemRemoved) == DictionaryItemAdded
  {
  }

  /**
   * The rename table is an involution on the known change-types: every known
   * change-type is reversed to a known one carrying the same swaps, and
   * reversing that gives the original back.
   */
  lemma ReversedTypeInvolution()
    ensures forall t :: t in ReverseRules ==>
      && ReversedType(t) in ReverseRules
      && ReversedType(ReversedType(t)) == t
      && ReverseRules[ReversedType(t)].swapKeys == ReverseRules[t].swapKeys
  {
    forall t | t in ReverseRules
      ensures && ReversedType(t) in ReverseRules
              && ReversedType(ReversedType(t)) == t
              && ReverseRules[ReversedType(t)].swapKeys == ReverseRules[t].swapKeys
    {
        RenameTable();
    }
  }

  /** The `values_changed` payloads that `swap_keys` accepts: mappings holding both swapped fields. */
  predicate SwappablePayload(v: Value)
  {
    v.Dict? && NewValue in v.fields && OldValue in v.fields
  }

  /**
   * `reverse_diff` raises nothing exactly when every change-type is one of the
   * five in the table and every `values_changed` payload is a mapping holding
   * both `new_value` and `old_value`.
   */
  lemma ReversibleIff(diff: Diff)
    ensures Reversible(diff) <==>
      && (forall t :: t in diff ==> t in ReverseRules)
      && (ValuesChanged in diff ==> forall p :: p in diff[ValuesChanged] ==> SwappablePayload(diff[ValuesChanged][p]))
  {
    forall v: Value ensures ReversedPayload(ReverseRules[ValuesChanged], v).Success? <==> SwappablePayload(v) {
      if v.Dict? {
        SwapOnePair(v.fields, NewValue, OldValue);
      }
    }
  }

  /**
   * Reversal is path-local: the reversed record holds exactly the reversed
   * change-types of the input, each with the same set of paths as its source.
   */
  lemma ReverseDiffPathLocal(diff: Diff)
    requires Reversible(diff)
    ensures var r := ReverseDiffOf(diff);
      && r.Keys == (set t | t in diff && t in ReverseRules :: ReversedType(t))
      && forall t :: t in diff ==> ReversedType(t) in r && r[ReversedType(t)].Keys == diff[t].Keys
  {
    forall t | t in diff ensures ReversedType(t) in ReverseDiffOf(diff) && ReverseDiffOf(diff)[ReversedType(t)].Keys == diff[t].Keys {
      ReverseDiffAt(diff, t);
    }
  }

  /** A `values_changed` payload the swap accepts comes out with `new_value` and `old_value` exchanged. */
  lemma ValuesChangedPayload(v: Value)
    requires SwappablePayload(v)
    ensures ReversedPayload(ReverseRules[ValuesChanged], v) ==
      Success(Dict(v.fields[NewValue := v.fields[OldValue]][OldValue := v.fields[NewValue]]))
  {
    FieldNamesDistinct();
    SwapOnePair(v.fields, NewValue, OldValue);
  }

  /** `values_changed` keeps its change-type, and each payload has `new_value` and `old_value` exchanged. */
  lemma ReverseDiffValuesChanged(diff: Diff)
    requires Reversible(diff) && ValuesChanged in diff
    ensures var r := ReverseDiffOf(diff);
      && ValuesChanged in r
      && r[ValuesChanged].Keys == diff[ValuesChanged].Keys
      && forall p :: p in diff[ValuesChanged] ==>
        && SwappablePayload(diff[ValuesChanged][p])
        && var f := diff[ValuesChanged][p].fields;
           r[ValuesChanged][p] == Dict(f[NewValue := f[OldValue]][OldValue := f[NewValue]])
  {
    ReversibleIff(diff);
    RenameTable();
    ReverseDiffAt(diff, ValuesChanged);
    var changes := diff[ValuesChanged];
    var reversed := ReversedChanges(ReverseRules[ValuesChanged], changes);
    forall p | p in changes
      ensures var f := changes[p].fields;
        reversed[p] == Dict(f[NewValue := f[OldValue]][OldValue := f[NewValue]])
    {
      ValuesChangedPayload(changes[p]);
    }
  }

  /** An added/removed change-type is stored under its counterpart with the same payloads. */
  lemma ReverseDiffRenames(diff: Diff, t: ChangeType)
    requires Reversible(diff) && t in diff && ReverseRules[t].rename.Some?
    ensures var u := ReverseRules[t].rename.value;
      u in ReverseDiffOf(diff) && ReverseDiffOf(diff)[u] == diff[t]
  {
    ReverseDiffAt(diff, t);
    var rule := ReverseRules[t];
    assert rule.swapKeys == [];
    forall p | p in diff[t] ensures ReversedPayload(rule, diff[t][p]) == Success(diff[t][p]) {
    }
    assert ReversedChanges(rule, diff[t]) == diff[t];
  }

  /** Where a change-type of `diff` lands in the reversed record, and with what. */
  lemma ReverseDiffAt(diff: Diff, t: ChangeType)
    requires Reversible(diff) && t in diff
    ensures ReversedType(t) in ReverseDiffOf(diff)
    ensures ReverseDiffOf(diff)[ReversedType(t)] == ReversedChanges(ReverseRules[t], diff[t])
  {
    ReversedTypeInjective();
  }

  /** Reversing one payload a second time with a rule of the same swaps gives the payload back. */
  lemma PayloadTwice(rule: Rule, rule': Rule, v: Value)
    requires rule'.swapKeys == rule.swapKeys && ReversedPayload(rule, v).Success?
    ensures ReversedPayload(rule', ReversedPayload(rule, v).value) == Success(v)
  {
    if rule.swapKeys != [] {
      SwapKeysTwice(v.fields, rule.swapKeys);
    }
  }

  lemma ChangesTwice(rule: Rule, rule': Rule, changes: Changes)
    requires rule'.swapKeys == rule.swapKeys && ChangesReversible(rule, changes)
    ensures ChangesReversible(rule', ReversedChanges(rule, changes))
    ensures ReversedChanges(rule', ReversedChanges(rule, changes)) == changes
  {
    var once := ReversedChanges(rule, changes);
    forall p | p in once ensures ReversedPayload(rule', once[p]) == Success(changes[p]) {
      PayloadTwice(rule, rule', changes[p]);
    }
    assert ReversedChanges(rule', once) == changes;
  }

  /** The reversed record is itself accepted by `reverse_diff`. */
  lemma ReverseDiffReversible(diff: Diff)
    requires Reversible(diff)
    ensures Reversible(ReverseDiffOf(diff))
  {
    var r := ReverseDiffOf(diff);
    ReversedTypeInvolution();
    forall u | u in r ensures u in ReverseRules && ChangesReversible(ReverseRules[u], r[u]) {
      var t :| t in diff && ReversedType(t) == u;
      ReverseDiffAt(diff, t);
      ChangesTwice(ReverseRules[t], ReverseRules[u], diff[t]);
    }
  }

  /** Each change-type of `diff` comes back, after two reversals, with the changes it had. */
  lemma ReverseDiffTwiceAt(diff: Diff, t: ChangeType)
    requires Reversible(diff) && t in diff
    ensures Reversible(ReverseDiffOf(diff))
    ensures t in ReverseDiffOf(ReverseDiffOf(diff)) && ReverseDiffOf(ReverseDiffOf(diff))[t] == diff[t]
  {
    ReverseDiffReversible(diff);
    var u := ReversedType(t);
    ReversedTypeInvolution();
    ReverseDiffAt(diff, t);
    ReverseDiffAt(ReverseDiffOf(diff), u);
    ChangesTwice(ReverseRules[t], ReverseRules[u], diff[t]);
  }

  /** Two reversals give back exactly the change-types of `diff`. */
  lemma ReverseDiffTwiceKeys(diff: Diff)
    requires Reversible(diff)
    ensures Reversible(ReverseDiffOf(diff))
    ensures ReverseDiffOf(ReverseDiffOf(diff)).Keys == diff.Keys
  {
    ReverseDiffReversible(diff);
    var r := ReverseDiffOf(diff);
    ReversedTypeInvolution();
    forall k | k in ReverseDiffOf(r) ensures k in diff {
      var u :| u in r && ReversedType(u) == k;
      var t :| t in diff && ReversedType(t) == u;
    }
    forall t | t in diff ensures t in ReverseDiffOf(r) {
      ReverseDiffTwiceAt(diff, t);
    }
  }

  lemma ReverseDiffTwiceValues(diff: Diff)
    requires Reversible(diff)
    ensures Reversible(ReverseDiffOf(diff))
    ensures forall t :: t in diff ==> t in ReverseDiffOf(ReverseDiffOf(diff)) && ReverseDiffOf(ReverseDiffOf(diff))[t] == diff[t]
  {
    ReverseDiffReversible(diff);
    forall t | t in diff ensures t in ReverseDiffOf(ReverseDiffOf(diff)) && ReverseDiffOf(ReverseDiffOf(diff))[t] == diff[t] {
      ReverseDiffTwiceAt(diff, t);
    }
  }

  /** Reversing twice is the identity on every record `reverse_diff` accepts. */
  lemma ReverseDiffTwice(diff: Diff)
    requires Reversible(diff)
    ensures Reversible(ReverseDiffOf(diff))
    ensures ReverseDiffOf(ReverseDiffOf(diff)) == diff
  {
    ReverseDiffReversible(diff);
    ReverseDiffTwiceKeys(diff);
    ReverseDiffTwiceValues(diff);
    MapsEqual(ReverseDiffOf(ReverseDiffOf(diff)), diff);
  }

  lemma MapsEqual<K, V>(a: map<K, V>, b: map<K, V>)
    requires a.Keys == b.Keys
    requires forall k :: k in b ==> a[k] == b[k]
    ensures a == b
  {
  }

  lemma FieldNamesDistinct()
    ensures NewValue != OldValue
  {
    assert NewValue[0] != OldValue[0];
  }

  /** The unit test's `values_changed` payload `{new_value: 3, old_value: 2}` reverses to `{new_value: 2, old_value: 3}`. */
  lemma ExamplePayloadSwapped()
    ensures ReversedPayload(ReverseRules[ValuesChanged], Dict(map[NewValue := Int(3), OldValue := Int(2)]))
      == Success(Dict(map[NewValue := Int(2), OldValue := Int(3)]))
  {
    var f := map[NewValue := Int(3), OldValue := Int(2)];
    FieldNamesDistinct();
    ValuesChangedPayload(Dict(f));
    assert f[NewValue := f[OldValue]][OldValue := f[NewValue]] == map[NewValue := Int(2), OldValue := Int(3)];
  }

  /** The record of the unit test, with its paths `root[1]` and `root[2]` as `p1` and `p2`. */
  function TestRecord(p1: Path, p2: Path): Diff
  {
    map[ValuesChanged := map[p1 := Dict(map[NewValue := Int(3), OldValue := Int(2)])],
        IterableItemRemoved := map[p2 := Int(3)]]
  }

  /** The reversed record the unit test expects. */
  function TestReversed(p1: Path, p2: Path): Diff
  {
    map[ValuesChanged := map[p1 := Dict(map[NewValue := Int(2), OldValue := Int(3)])],
        IterableItemAdded := map[p2 := Int(3)]]
  }

  /** The test record raises nothing: its change-types are known and its payload holds both swapped fields. */
  lemma TestRecordReversible(p1: Path, p2: Path)
    ensures Reversible(TestRecord(p1, p2))
  {
    FieldNamesDistinct();
    ReversibleIff(TestRecord(p1, p2));
  }

  lemma TestReversedValuesChanged(p1: Path, p2: Path)
    requires Reversible(TestRecord(p1, p2))
    ensures ReverseDiffOf(TestRecord(p1, p2))[ValuesChanged] == TestReversed(p1, p2)[ValuesChanged]
  {
    var plain := TestRecord(p1, p2);
    RenameTable();
    ReverseDiffAt(plain, ValuesChanged);
    ExamplePayloadSwapped();
    var changes := ReverseDiffOf(plain)[ValuesChanged];
    assert changes.Keys == {p1};
    MapsEqual(changes, TestReversed(p1, p2)[ValuesChanged]);
  }

  /** A record holding a changed value and a removed item reverses to one holding a changed value and an added item. */
  lemma TestReversedKeys(diff: Diff)
    requires Reversible(diff) && diff.Keys == {ValuesChanged, IterableItemRemoved}
    ensures ReverseDiffOf(diff).Keys == {ValuesChanged, IterableItemAdded}
  {
    var r := ReverseDiffOf(diff);
    RenameTable();
    ReverseDiffAt(diff, ValuesChanged);
    ReverseDiffAt(diff, IterableItemRemoved);
    forall u | u in r ensures u == ValuesChanged || u == IterableItemAdded {
      var t :| t in diff && ReversedType(t) == u;
    }
  }

  /**
   * The unit test's record, at any two paths: a changed value and a removed
   * item become the changed value the other way round and an added item.
   */
  lemma ReverseDiffExample(p1: Path, p2: Path)
    ensures Reversible(TestRecord(p1, p2)) && ReverseDiffOf(TestRecord(p1, p2)) == TestReversed(p1, p2)
  {
    var plain := TestRecord(p1, p2);
    TestRecordReversible(p1, p2);
    TestReversedKeys(plain);
    assert TestReversed(p1, p2).Keys == {ValuesChanged, IterableItemAdded};
    TestReversedValuesChanged(p1, p2);
    ReverseDiffRenames(plain, IterableItemRemoved);
    MapsEqual(ReverseDiffOf(plain), TestReversed(p1, p2));
  }
}
