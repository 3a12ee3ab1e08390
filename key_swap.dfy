/**
 * The key-swap transform `swap_keys(d, rules)`: a copy of the flat mapping `d`
 * in which the values under the two fields of every pair of `rules` are
 * exchanged. The source pops both fields of each pair, in order, from a deep
 * copy of `d`, writes them crosswise into a fresh result, and finally adds what
 * is left of the copy. A pop of a field that is not (or no longer) in the copy
 * raises `KeyError`; here that is `Failure(field)`.
 */
module KeySwap {
  import opened Wrappers

  /** The fields `swap_keys` pops, in the order it pops them: for each pair, its first then its second field. */
  function Pops<K(==)>(rules: seq<(K, K)>): seq<K>
  {
    if rules == [] then [] else [rules[0].0, rules[0].1] + Pops(rules[1..])
  }

  /**
   * The field of the first pop that fails when `pops` are popped in turn from a
   * mapping whose keys are `keys`: every pop removes its field, so a field is
   * missing when the mapping never had it or an earlier pop already took it.
   */
  function FirstFailedPop<K(==)>(keys: set<K>, pops: seq<K>): Option<K>
  {
    if pops == [] then None
    else if pops[0] !in keys then Some(pops[0])
    else FirstFailedPop(keys - {pops[0]}, pops[1..])
  }

  /** The field whose value ends up under `k`: the other field of the first pair naming `k`, or `k` itself. */
  function Partner<K(==)>(rules: seq<(K, K)>, k: K): K
  {
    if rules == [] then k
    else if k == rules[0].0 then rules[0].1
    else if k == rules[0].1 then rules[0].0
    else Partner(rules[1..], k)
  }

  ghost predicate Distinct<K>(s: seq<K>)
  {
    forall i, j :: 0 <= i < j < |s| ==> s[i] != s[j]
  }

  /**
   * What `swap_keys(d, rules)` returns or raises: the key of the first failing
   * pop, or else `d` with every named field holding its partner's value.
   */
  function SwapKeysOf<K(==), V>(d: map<K, V>, rules: seq<(K, K)>): (r: Result<map<K, V>, K>)
    ensures r.Success? ==> r.value.Keys == d.Keys
    ensures r.Failure? ==> r.error in Pops(rules)
  {
    match FirstFailedPop(d.Keys, Pops(rules))
    case Some(k) =>
      FailedPopIsAbsent(d.Keys, Pops(rules), k);
      Failure(k)
    case None =>
      NoFailedPop(d.Keys, Pops(rules));
      PartnersPresent(d, rules);
      Success(map k | k in d :: d[Partner(rules, k)])
  }

  /** The loop of `swap_keys`, over a copy `rest` of `d` that it pops from (value semantics give the deep copy). */
  method SwapKeys<K(==), V>(d: map<K, V>, rules: seq<(K, K)>) returns (out: Result<map<K, V>, K>)
    ensures out == SwapKeysOf(d, rules)
  {
    var result: map<K, V> := map[];
    var rest := d;
    var i := 0;
    while i < |rules|
      invariant 0 <= i <= |rules|
      invariant FirstFailedPop(d.Keys, Pops(rules)) == FirstFailedPop(rest.Keys, Pops(rules[i..]))
      invariant forall k :: k in rest ==> k in d && rest[k] == d[k]
      invariant result.Keys !! rest.Keys && result.Keys + rest.Keys == d.Keys
      invariant forall k :: k in rest ==> Partner(rules, k) == Partner(rules[i..], k)
      invariant forall k :: k in result ==> Partner(rules, k) in d && result[k] == d[Partner(rules, k)]
    {
      var (from, to) := rules[i];
      PopStep(rest.Keys, rules, i);
      if from !in rest {
        return Failure(from);
      }
      result := result[to := rest[from]];
      rest := rest - {from};
      if to !in rest {
        return Failure(to);
      }
      result := result[from := rest[to]];
      rest := rest - {to};
      i := i + 1;
    }
    assert rules[i..] == [];
    LoopDone(d, rules, result, rest);
    out := Success(result + rest);
  }

  /** After the last pair: the popped entries together with what is left of the copy are the swapped mapping. */
  lemma LoopDone<K, V>(d: map<K, V>, rules: seq<(K, K)>, result: map<K, V>, rest: map<K, V>)
    requires FirstFailedPop(d.Keys, Pops(rules)) == None
    requires forall k :: k in rest ==> k in d && rest[k] == d[k]
    requires result.Keys !! rest.Keys && result.Keys + rest.Keys == d.Keys
    requires forall k :: k in rest ==> Partner(rules, k) == Partner([], k)
    requires forall k :: k in result ==> Partner(rules, k) in d && result[k] == d[Partner(rules, k)]
    ensures SwapKeysOf(d, rules) == Success(result + rest)
  {
    var swapped := SwapKeysOf(d, rules).value;
    forall k | k in d ensures (result + rest)[k] == swapped[k] {
      if k in rest {
        assert Partner(rules, k) == k;
      }
    }
    assert result + rest == swapped;
  }

  /** One iteration of the loop: popping the `i`-th pair from a mapping with keys `keys`. */
  lemma PopStep<K>(keys: set<K>, rules: seq<(K, K)>, i: int)
    requires 0 <= i < |rules|
    ensures var (a, b) := rules[i];
      && FirstFailedPop(keys, Pops(rules[i..])) ==
        (if a !in keys then Some(a)
         else if b !in keys - {a} then Some(b)
         else FirstFailedPop(keys - {a} - {b}, Pops(rules[i + 1..])))
      && Partner(rules[i..], a) == b
      && (b != a ==> Partner(rules[i..], b) == a)
      && forall k :: k != a && k != b ==> Partner(rules[i..], k) == Partner(rules[i + 1..], k)
  {
    var (a, b) := rules[i];
    assert rules[i..][1..] == rules[i + 1..];
    var tail := Pops(rules[i + 1..]);
    assert Pops(rules[i..]) == [a, b] + tail;
    assert ([a, b] + tail)[1..] == [b] + tail;
    assert ([b] + tail)[1..] == tail;
  }

  /** No pop fails exactly when every popped field is present and no field is popped twice. */
  lemma {:induction false} NoFailedPop<K>(keys: set<K>, pops: seq<K>)
    ensures FirstFailedPop(keys, pops) == None <==> (forall f :: f in pops ==> f in keys) && Distinct(pops)
  {
    if pops != [] && pops[0] in keys {
      NoFailedPop(keys - {pops[0]}, pops[1..]);
      if (forall f :: f in pops ==> f in keys) && Distinct(pops) {
        PresentDistinctTail(keys, pops);
      }
      if (forall f :: f in pops[1..] ==> f in keys - {pops[0]}) && Distinct(pops[1..]) {
        PresentDistinctCons(keys, pops);
      }
    }
  }

  lemma PresentDistinctTail<K>(keys: set<K>, pops: seq<K>)
    requires pops != [] && (forall f :: f in pops ==> f in keys) && Distinct(pops)
    ensures (forall f :: f in pops[1..] ==> f in keys - {pops[0]}) && Distinct(pops[1..])
  {
    var rest := pops[1..];
    forall f | f in rest ensures f in keys - {pops[0]} {
      var j :| 0 <= j < |rest| && rest[j] == f;
      assert pops[j + 1] == f;
    }
    forall i, j | 0 <= i < j < |rest| ensures rest[i] != rest[j] {
      assert pops[i + 1] != pops[j + 1];
    }
  }

  lemma PresentDistinctCons<K>(keys: set<K>, pops: seq<K>)
    requires pops != [] && pops[0] in keys
    requires (forall f :: f in pops[1..] ==> f in keys - {pops[0]}) && Distinct(pops[1..])
    ensures (forall f :: f in pops ==> f in keys) && Distinct(pops)
  {
    var rest := pops[1..];
    assert pops == [pops[0]] + rest;
    forall i, j | 0 <= i < j < |pops| ensures pops[i] != pops[j] {
      if i == 0 {
        assert pops[j] == rest[j - 1];
        assert rest[j - 1] in rest;
      } else {
        assert pops[i] == rest[i - 1] && pops[j] == rest[j - 1];
      }
    }
  }

  /** The field a failing pop reports is popped at some step where it is absent: never present, or popped before. */
  lemma {:induction false} FailedPopIsAbsent<K>(keys: set<K>, pops: seq<K>, k: K)
    requires FirstFailedPop(keys, pops) == Some(k)
    ensures exists j :: 0 <= j < |pops| && pops[j] == k && (k !in keys || k in pops[..j])
  {
    if pops[0] in keys {
      var rest := pops[1..];
      FailedPopIsAbsent(keys - {pops[0]}, rest, k);
      var j :| 0 <= j < |rest| && rest[j] == k && (k !in keys - {pops[0]} || k in rest[..j]);
      assert pops[j + 1] == k;
      if k in rest[..j] {
        var m :| 0 <= m < j && rest[..j][m] == k;
        assert pops[..j + 1][m + 1] == k;
      } else if k == pops[0] {
        assert pops[..j + 1][0] == k;
      }
    } else {
      assert pops[0] == k;
    }
  }

  lemma {:induction false} PairInPops<K>(rules: seq<(K, K)>, i: int)
    requires 0 <= i < |rules|
    ensures rules[i].0 in Pops(rules) && rules[i].1 in Pops(rules)
  {
    assert Pops(rules) == [rules[0].0, rules[0].1] + Pops(rules[1..]);
    if i > 0 {
      PairInPops(rules[1..], i - 1);
    }
  }

  lemma {:induction false} PartnerNamedOrSelf<K>(rules: seq<(K, K)>, k: K)
    ensures Partner(rules, k) == k || Partner(rules, k) in Pops(rules)
  {
    if rules != [] && k != rules[0].0 && k != rules[0].1 {
      PartnerNamedOrSelf(rules[1..], k);
    }
  }

  /** A field no pair names keeps its own value. */
  lemma {:induction false} PartnerOfUnnamed<K>(rules: seq<(K, K)>, k: K)
    requires k !in Pops(rules)
    ensures Partner(rules, k) == k
  {
    if rules != [] {
      assert Pops(rules) == [rules[0].0, rules[0].1] + Pops(rules[1..]);
      PartnerOfUnnamed(rules[1..], k);
    }
  }

  lemma PartnersPresent<K, V>(d: map<K, V>, rules: seq<(K, K)>)
    requires forall f :: f in Pops(rules) ==> f in d
    ensures forall k :: k in d ==> Partner(rules, k) in d
  {
    forall k | k in d ensures Partner(rules, k) in d {
      PartnerNamedOrSelf(rules, k);
    }
  }

  lemma DistinctTail<K>(rules: seq<(K, K)>)
    requires rules != [] && Distinct(Pops(rules))
    ensures Distinct(Pops(rules[1..]))
    ensures rules[0].0 != rules[0].1
    ensures rules[0].0 !in Pops(rules[1..]) && rules[0].1 !in Pops(rules[1..])
  {
    var tail := Pops(rules[1..]);
    assert Pops(rules) == [rules[0].0, rules[0].1] + tail;
    assert Pops(rules)[0] == rules[0].0 && Pops(rules)[1] == rules[0].1;
    assert forall j :: 0 <= j < |tail| ==> tail[j] == Pops(rules)[j + 2];
  }

  /** With no field named twice, each pair's fields are each other's partners. */
  lemma {:induction false} PartnerOfPair<K>(rules: seq<(K, K)>, i: int)
    requires Distinct(Pops(rules)) && 0 <= i < |rules|
    ensures Partner(rules, rules[i].0) == rules[i].1 && Partner(rules, rules[i].1) == rules[i].0
  {
    DistinctTail(rules);
    if i > 0 {
      PairInPops(rules[1..], i - 1);
      PartnerOfPair(rules[1..], i - 1);
    }
  }

  /** With no field named twice, taking the partner twice gives the field back. */
  lemma {:induction false} PartnerInvolutive<K>(rules: seq<(K, K)>, k: K)
    requires Distinct(Pops(rules))
    ensures Partner(rules, Partner(rules, k)) == k
  {
    if rules != [] {
      DistinctTail(rules);
      if k != rules[0].0 && k != rules[0].1 {
        PartnerNamedOrSelf(rules[1..], k);
        PartnerInvolutive(rules[1..], k);
      }
    }
  }

  /** `swap_keys` succeeds exactly when both fields of every pair are in `d` and no field is named twice. */
  lemma SwapKeysSucceedsIff<K, V>(d: map<K, V>, rules: seq<(K, K)>)
    ensures SwapKeysOf(d, rules).Success? <==> (forall f :: f in Pops(rules) ==> f in d) && Distinct(Pops(rules))
  {
    NoFailedPop(d.Keys, Pops(rules));
  }

  /** On failure the reported field is one of the rule fields, absent from `d` or named by an earlier pop. */
  lemma SwapKeysReportsMissingField<K, V>(d: map<K, V>, rules: seq<(K, K)>)
    requires SwapKeysOf(d, rules).Failure?
    ensures var k := SwapKeysOf(d, rules).error;
      exists j :: 0 <= j < |Pops(rules)| && Pops(rules)[j] == k && (k !in d || k in Pops(rules)[..j])
  {
    FailedPopIsAbsent(d.Keys, Pops(rules), SwapKeysOf(d, rules).error);
  }

  /** Every pair's values are exchanged. */
  lemma SwapKeysExchangesPairs<K, V>(d: map<K, V>, rules: seq<(K, K)>, i: int)
    requires SwapKeysOf(d, rules).Success? && 0 <= i < |rules|
    ensures var r := SwapKeysOf(d, rules).value;
      rules[i].0 in d && rules[i].1 in d && r[rules[i].0] == d[rules[i].1] && r[rules[i].1] == d[rules[i].0]
  {
    SwapKeysSucceedsIff(d, rules);
    PairInPops(rules, i);
    PartnerOfPair(rules, i);
  }

  /** No key appears or disappears, and every key no pair names keeps its value. */
  lemma SwapKeysKeepsOthers<K, V>(d: map<K, V>, rules: seq<(K, K)>)
    requires SwapKeysOf(d, rules).Success?
    ensures var r := SwapKeysOf(d, rules).value;
      r.Keys == d.Keys && forall k :: k in d && k !in Pops(rules) ==> r[k] == d[k]
  {
    forall k | k in d && k !in Pops(rules) ensures Partner(rules, k) == k {
      PartnerOfUnnamed(rules, k);
    }
  }

  /** Swapping the result again with the same rules gives back `d`. */
  lemma SwapKeysTwice<K, V>(d: map<K, V>, rules: seq<(K, K)>)
    requires SwapKeysOf(d, rules).Success?
    ensures SwapKeysOf(SwapKeysOf(d, rules).value, rules) == Success(d)
  {
    var r := SwapKeysOf(d, rules).value;
    SwapKeysSucceedsIff(d, rules);
    assert r.Keys == d.Keys;
    SwapKeysSucceedsIff(r, rules);
    var back := SwapKeysOf(r, rules).value;
    PartnersPresent(d, rules);
    forall k | k in d ensures back[k] == d[k] {
      PartnerInvolutive(rules, k);
      assert back[k] == r[Partner(rules, k)] == d[Partner(rules, Partner(rules, k))];
    }
    assert back == d;
  }

  /** One pair `(a, b)`: raises on `a` if it is missing, on `b` if it is missing or is `a`; else exchanges the two. */
  lemma SwapOnePair<K, V>(d: map<K, V>, a: K, b: K)
    ensures SwapKeysOf(d, [(a, b)]) ==
      if a !in d then Failure(a)
      else if b !in d || a == b then Failure(b)
      else Success(d[a := d[b]][b := d[a]])
  {
    PopStep(d.Keys, [(a, b)], 0);
    assert [(a, b)][0..] == [(a, b)];
    if a in d && b in d && a != b {
      PopStep(d.Keys, [(a, b)], 0);
      assert [(a, b)][1..] == [];
      forall k | k in d ensures Partner([(a, b)], k) == if k == a then b else if k == b then a else k {
        assert Partner([(a, b)][1..], k) == k;
      }
      assert SwapKeysOf(d, [(a, b)]).value == d[a := d[b]][b := d[a]];
    }
  }

  /** The unit test's case: `{'x': 1, 'y': 2}` with `[('x', 'y')]` becomes `{'x': 2, 'y': 1}`. */
  lemma SwapKeysExample()
    ensures SwapKeysOf(map["x" := 1, "y" := 2], [("x", "y")]) == Success(map["x" := 2, "y" := 1])
  {
    SwapOnePair(map["x" := 1, "y" := 2], "x", "y");
    assert map["x" := 1, "y" := 2]["x" := 2]["y" := 1] == map["x" := 2, "y" := 1];
  }
}
