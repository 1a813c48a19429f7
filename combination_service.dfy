/**
 * The combination service of services/combination.service.js: a backtracking
 * enumerator over index-increasing selections of the expanded items that keeps
 * a full-length selection only when the prefix validator accepts it, and the
 * save operation that collects the enumeration and hands it to the repositories.
 */
module CombinationService {
  import opened Wrappers
  import opened CombinationValidator
  import opened ItemRepository
  import opened CombinationModel

  /** Strictly increasing indices. */
  predicate Increasing(t: seq<nat>)
  {
    forall a, b :: 0 <= a < b < |t| ==> t[a] < t[b]
  }

  /** Every index is below n. */
  predicate Below(t: seq<nat>, n: nat)
  {
    forall a :: 0 <= a < |t| ==> t[a] < n
  }

  /** Every tuple of the list has all its indices below n. */
  predicate AllBelow(ts: seq<seq<nat>>, n: nat)
  {
    forall t :: t in ts ==> Below(t, n)
  }

  /** The items at the given indices, in index order. */
  function Select(items: seq<string>, t: seq<nat>): seq<string>
    requires Below(t, |items|)
  {
    seq(|t|, a requires 0 <= a < |t| => items[t[a]])
  }

  /** Pushing index i onto a path pushes items[i] onto the selected items. */
  lemma SelectSnoc(items: seq<string>, t: seq<nat>, i: nat)
    requires Below(t, |items|) && i < |items|
    ensures Below(t + [i], |items|)
    ensures Select(items, t + [i]) == Select(items, t) + [items[i]]
  {
  }

  /**
   * What `combinationGenerator(path, start)` yields, as index tuples: `path`
   * holds the items at indices `path`; at full length the path is kept when it
   * is valid, otherwise each i from `start` on is pushed and explored in turn.
   * Every yielded tuple has all its indices in range.
   */
  function Gen(items: seq<string>, length: int, path: seq<nat>, start: nat): (r: seq<seq<nat>>)
    requires start <= |items| && Below(path, |items|)
    ensures AllBelow(r, |items|)
    decreases |items| - start, 1
  {
    if |path| == length then
      if DistinctPrefixes(Select(items, path)) then [path] else []
    else
      GenFrom(items, length, path, start)
  }

  /** The iterations i, i + 1, ... of the `for` loop of `combinationGenerator`. */
  function GenFrom(items: seq<string>, length: int, path: seq<nat>, i: nat): (r: seq<seq<nat>>)
    requires i <= |items| && Below(path, |items|)
    ensures AllBelow(r, |items|)
    decreases |items| - i, 0
  {
    if i == |items| then []
    else Gen(items, length, path + [i], i + 1) + GenFrom(items, length, path, i + 1)
  }

  /**
   * The declarative specification: `t` picks `length` items at strictly
   * increasing indices, and the picked items have pairwise distinct prefixes.
   */
  ghost predicate IsValidSelection(items: seq<string>, length: int, t: seq<nat>)
  {
    |t| == length && Increasing(t) && Below(t, |items|) && DistinctPrefixes(Select(items, t))
  }

  /** `t` extends `path` with indices that are all at least `start`. */
  ghost predicate Extends(t: seq<nat>, path: seq<nat>, start: nat)
  {
    |path| <= |t| && t[..|path|] == path && forall a :: |path| <= a < |t| ==> start <= t[a]
  }

  /** Lexicographic order on index tuples. */
  ghost predicate LexLess(a: seq<nat>, b: seq<nat>)
  {
    exists k :: 0 <= k < |a| && k < |b| && a[..k] == b[..k] && a[k] < b[k]
  }

  ghost predicate LexSorted(s: seq<seq<nat>>)
  {
    forall a, b :: 0 <= a < b < |s| ==> LexLess(s[a], s[b])
  }

  /** Soundness of one call: what it yields are valid selections extending the path. */
  lemma {:induction false} GenSound(items: seq<string>, length: int, path: seq<nat>, start: nat, t: seq<nat>)
    requires start <= |items| && Below(path, start) && Increasing(path)
    requires t in Gen(items, length, path, start)
    ensures IsValidSelection(items, length, t) && Extends(t, path, start)
    decreases |items| - start, 1
  {
    if |path| == length {
      assert t == path;
    } else {
      GenFromSound(items, length, path, start, t);
    }
  }

  /** Soundness of the loop from i: each tuple also has a next index of at least i. */
  lemma {:induction false} GenFromSound(items: seq<string>, length: int, path: seq<nat>, i: nat, t: seq<nat>)
    requires i <= |items| && Below(path, i) && Increasing(path)
    requires t in GenFrom(items, length, path, i)
    ensures IsValidSelection(items, length, t) && Extends(t, path, i) && |path| < |t|
    decreases |items| - i, 0
  {
    var p := path + [i];
    if t in Gen(items, length, p, i + 1) {
      GenSound(items, length, p, i + 1, t);
      assert t[..|path|] == t[..|p|][..|path|];
      assert t[|path|] == t[..|p|][|path|];
    } else {
      GenFromSound(items, length, path, i + 1, t);
    }
  }

  /** Completeness of one call: every valid selection extending the path is yielded. */
  lemma {:induction false} GenComplete(items: seq<string>, length: int, path: seq<nat>, start: nat, t: seq<nat>)
    requires start <= |items| && Below(path, start)
    requires IsValidSelection(items, length, t) && Extends(t, path, start)
    ensures t in Gen(items, length, path, start)
    decreases |items| - start, 1
  {
    if |path| == length {
      assert t == t[..|path|];
    } else {
      GenFromComplete(items, length, path, start, t);
    }
  }

  lemma {:induction false} GenFromComplete(items: seq<string>, length: int, path: seq<nat>, i: nat, t: seq<nat>)
    requires i <= |items| && Below(path, i)
    requires IsValidSelection(items, length, t) && Extends(t, path, i) && |path| < |t|
    ensures t in GenFrom(items, length, path, i)
    decreases |items| - i, 0
  {
    var p := path + [i];
    if t[|path|] == i {
      assert t[..|p|] == t[..|path|] + [t[|path|]];
      GenComplete(items, length, p, i + 1, t);
    } else {
      GenFromComplete(items, length, path, i + 1, t);
    }
  }

  /** The tuples of one call come out in strictly increasing lexicographic order. */
  lemma {:induction false} GenSorted(items: seq<string>, length: int, path: seq<nat>, start: nat)
    requires start <= |items| && Below(path, start) && Increasing(path)
    ensures LexSorted(Gen(items, length, path, start))
    decreases |items| - start, 1
  {
    if |path| != length {
      GenFromSorted(items, length, path, start);
    }
  }

  lemma {:induction false} GenFromSorted(items: seq<string>, length: int, path: seq<nat>, i: nat)
    requires i <= |items| && Below(path, i) && Increasing(path)
    ensures LexSorted(GenFrom(items, length, path, i))
    decreases |items| - i, 0
  {
    if i < |items| {
      var p := path + [i];
      var first := Gen(items, length, p, i + 1);
      var rest := GenFrom(items, length, path, i + 1);
      GenSorted(items, length, p, i + 1);
      GenFromSorted(items, length, path, i + 1);
      var s := first + rest;
      forall a, b | 0 <= a < b < |s| ensures LexLess(s[a], s[b]) {
        if b < |first| {
          assert s[a] == first[a] && s[b] == first[b];
        } else if a >= |first| {
          assert s[a] == rest[a - |first|] && s[b] == rest[b - |first|];
        } else {
          SplitLess(items, length, path, i, first[a], rest[b - |first|]);
        }
      }
    }
  }

  /** A tuple from the branch that pushed i precedes every tuple of later branches. */
  lemma SplitLess(items: seq<string>, length: int, path: seq<nat>, i: nat, x: seq<nat>, y: seq<nat>)
    requires i < |items| && Below(path, i) && Increasing(path)
    requires x in Gen(items, length, path + [i], i + 1)
    requires y in GenFrom(items, length, path, i + 1)
    ensures LexLess(x, y)
  {
    var p := path + [i];
    GenSound(items, length, p, i + 1, x);
    GenFromSound(items, length, path, i + 1, y);
    var k := |path|;
    assert x[..k] == x[..|p|][..k];
    assert x[k] == x[..|p|][k];
    assert x[..k] == y[..k] && x[k] < y[k];
  }

  /** Two tuples in lexicographic order are different tuples. */
  lemma LexLessDistinct(a: seq<nat>, b: seq<nat>)
    requires LexLess(a, b)
    ensures a != b
  {
  }

  /**
   * The enumeration from an empty path at index 0 yields exactly the valid
   * selections, each once, in lexicographic order of their index tuples.
   */
  lemma GenerateSpec(items: seq<string>, length: int)
    ensures forall t :: t in Gen(items, length, [], 0) <==> IsValidSelection(items, length, t)
    ensures LexSorted(Gen(items, length, [], 0))
    ensures forall a, b :: 0 <= a < b < |Gen(items, length, [], 0)| ==>
              Gen(items, length, [], 0)[a] != Gen(items, length, [], 0)[b]
  {
    var g := Gen(items, length, [], 0);
    forall t | t in g ensures IsValidSelection(items, length, t) {
      GenSound(items, length, [], 0, t);
    }
    forall t | IsValidSelection(items, length, t) ensures t in g {
      GenComplete(items, length, [], 0, t);
    }
    GenSorted(items, length, [], 0);
    forall a, b | 0 <= a < b < |g| ensures g[a] != g[b] {
      LexLessDistinct(g[a], g[b]);
    }
  }

  /** Strictly increasing indices below n are at most n in number. */
  lemma {:induction false} IncreasingBound(t: seq<nat>, n: nat)
    requires Increasing(t) && Below(t, n)
    ensures |t| <= n
  {
    if t != [] {
      var a := 0;
      while a < |t| - 1
        invariant 0 <= a < |t| && t[a] >= a
      {
        a := a + 1;
      }
    }
  }

  /**
   * Length 0 yields exactly one, empty, combination; a negative length or one
   * beyond the number of items yields none.
   */
  lemma GenerateEdgeCases(items: seq<string>, length: int)
    ensures length == 0 ==> Gen(items, length, [], 0) == [[]]
    ensures length < 0 || length > |items| ==> Gen(items, length, [], 0) == []
  {
    var g := Gen(items, length, [], 0);
    if length == 0 {
      assert Select(items, []) == [];
    }
    if (length < 0 || length > |items|) && g != [] {
      GenSound(items, length, [], 0, g[0]);
      IncreasingBound(g[0], |items|);
    }
  }

  /** The Combination objects for a list of index tuples, in the same order. */
  function Combinations(items: seq<string>, ts: seq<seq<nat>>): seq<Combination>
    requires AllBelow(ts, |items|)
  {
    seq(|ts|, k requires 0 <= k < |ts| => Combination(Select(items, ts[k])))
  }

  lemma CombinationsAppend(items: seq<string>, ts: seq<seq<nat>>, us: seq<seq<nat>>)
    requires AllBelow(ts, |items|)
    requires AllBelow(us, |items|)
    ensures AllBelow(ts + us, |items|)
    ensures Combinations(items, ts + us) == Combinations(items, ts) + Combinations(items, us)
  {
    forall t | t in ts + us ensures Below(t, |items|) {
      assert t in ts || t in us;
    }
    var l, r := Combinations(items, ts + us), Combinations(items, ts) + Combinations(items, us);
    forall k | 0 <= k < |l| ensures l[k] == r[k] {
      if k < |ts| { assert (ts + us)[k] == ts[k]; } else { assert (ts + us)[k] == us[k - |ts|]; }
    }
  }

  /** A path of full length yields its own combination exactly when it is valid. */
  lemma GenAtFullLength(items: seq<string>, length: int, path: seq<nat>, start: nat)
    requires start <= |items| && Below(path, |items|) && |path| == length
    ensures Combinations(items, Gen(items, length, path, start))
            == if DistinctPrefixes(Select(items, path)) then [Combination(Select(items, path))] else []
  {
  }

  /**
   * One iteration of the generator's loop: the tuples yielded so far, followed
   * by those of the branch that pushes i, are the tuples of the loop up to i + 1.
   */
  lemma GenLoopStep(items: seq<string>, length: int, idx: seq<nat>, start: nat, i: nat, done: seq<seq<nat>>)
    requires start <= i < |items| && Below(idx, |items|) && |idx| != length
    requires AllBelow(done, |items|)
    requires GenFrom(items, length, idx, start) == done + GenFrom(items, length, idx, i)
    ensures Below(idx + [i], |items|)
    ensures AllBelow(done + Gen(items, length, idx + [i], i + 1), |items|)
    ensures GenFrom(items, length, idx, start)
            == (done + Gen(items, length, idx + [i], i + 1)) + GenFrom(items, length, idx, i + 1)
    ensures Combinations(items, done + Gen(items, length, idx + [i], i + 1))
            == Combinations(items, done) + Combinations(items, Gen(items, length, idx + [i], i + 1))
  {
    var g := Gen(items, length, idx + [i], i + 1);
    assert GenFrom(items, length, idx, i) == g + GenFrom(items, length, idx, i + 1);
    assert done + GenFrom(items, length, idx, i) == (done + g) + GenFrom(items, length, idx, i + 1);
    CombinationsAppend(items, done, g);
  }

  /** The shared, mutable `path` array of the generator. */
  class Path {
    var elems: seq<string>

    constructor ()
      ensures elems == []
    {
      elems := [];
    }

    /** `path.push(x)` */
    method Push(x: string)
      modifies this
      ensures elems == old(elems) + [x]
    {
      elems := elems + [x];
    }

    /** `path.pop()`, which leaves an empty array as it is. */
    method Pop()
      modifies this
      ensures elems == if old(elems) == [] then [] else old(elems)[..|old(elems)| - 1]
    {
      if elems != [] {
        elems := elems[..|elems| - 1];
      }
    }
  }

  /**
   * `combinationGenerator(path, start)`: the ghost `idx` records which indices
   * the shared path holds. It yields what Gen describes and leaves the path as
   * it found it (every push is matched by a pop).
   */
  method CombinationGenerator(items: seq<string>, length: int, path: Path, start: nat, ghost idx: seq<nat>)
      returns (yielded: seq<Combination>)
    requires start <= |items| && Below(idx, |items|)
    requires path.elems == Select(items, idx)
    modifies path
    ensures path.elems == old(path.elems)
    ensures yielded == Combinations(items, Gen(items, length, idx, start))
    decreases |items| - start, 1
  {
    if |path.elems| == length {
      var valid := IsValid(path.elems);
      yielded := if valid then [Combination(path.elems)] else [];
      GenAtFullLength(items, length, idx, start);
    } else {
      yielded := ExtendPath(items, length, path, start, idx);
    }
  }

  /**
   * The loop of the generator below full length: for each index i from start,
   * push items[i], recurse from i + 1 and pop again.
   */
  method ExtendPath(items: seq<string>, length: int, path: Path, start: nat, ghost idx: seq<nat>)
      returns (yielded: seq<Combination>)
    requires start <= |items| && Below(idx, |items|) && |idx| != length
    requires path.elems == Select(items, idx)
    modifies path
    ensures path.elems == old(path.elems)
    ensures yielded == Combinations(items, GenFrom(items, length, idx, start))
    decreases |items| - start, 0
  {
    yielded := [];
    ghost var done: seq<seq<nat>> := [];
    var i := start;
    while i < |items|
      invariant start <= i <= |items|
      invariant path.elems == Select(items, idx)
      invariant AllBelow(done, |items|)
      invariant GenFrom(items, length, idx, start) == done + GenFrom(items, length, idx, i)
      invariant yielded == Combinations(items, done)
    {
      ghost var selected := path.elems;
      SelectSnoc(items, idx, i);
      path.Push(items[i]);
      var sub := CombinationGenerator(items, length, path, i + 1, idx + [i]);
      path.Pop();
      assert path.elems == (selected + [items[i]])[..|selected|] == selected;
      GenLoopStep(items, length, idx, start, i, done);
      done := done + Gen(items, length, idx + [i], i + 1);
      yielded := yielded + sub;
      i := i + 1;
    }
    assert done == GenFrom(items, length, idx, start);
  }

  /**
   * `generateCombinations`: every yielded combination has exactly `length`
   * items with distinct prefixes, taken at strictly increasing indices; every
   * such selection is yielded once, in lexicographic order of indices.
   */
  method GenerateCombinations(items: seq<string>, length: int) returns (combinations: seq<Combination>)
    ensures combinations == Combinations(items, Gen(items, length, [], 0))
    ensures forall c :: c in combinations ==> |c.items| == length && DistinctPrefixes(c.items)
  {
    var path := new Path();
    combinations := CombinationGenerator(items, length, path, 0, []);
    GenerateSpec(items, length);
    var g := Gen(items, length, [], 0);
    forall c | c in combinations ensures |c.items| == length && DistinctPrefixes(c.items) {
      var k :| 0 <= k < |combinations| && combinations[k] == c;
      assert g[k] in g;
    }
  }

  /** `generateValidCombinations`: the expander composed with the generator. */
  method GenerateValidCombinations(data: seq<int>, length: int) returns (combinations: seq<Combination>)
    requires |data| <= MaxCategories
    ensures combinations == Combinations(Expand(data), Gen(Expand(data), length, [], 0))
    ensures forall c :: c in combinations ==> |c.items| == length && DistinctPrefixes(c.items)
  {
    var itemNames := GetItems(data);
    combinations := GenerateCombinations(itemNames, length);
  }

  /** `combinations.map((c) => c.items)` */
  function ItemLists(cs: seq<Combination>): (r: seq<seq<string>>)
    ensures |r| == |cs| && forall k :: 0 <= k < |cs| ==> r[k] == cs[k].items
  {
    seq(|cs|, k requires 0 <= k < |cs| => cs[k].items)
  }

  datatype SaveError = BatchInsertFailed | ResponseInsertFailed

  /** The value `saveCombinations` resolves to. */
  datatype SavedCombinations = SavedCombinations(id: int, combinations: seq<seq<string>>)

  /**
   * Rows the transaction commits: one `combinations` row per combination, holding
   * its items, and one `responses` row keyed by the id the batch insert returned.
   */
  datatype Row =
    | CombinationRow(items: seq<string>)
    | ResponseRow(id: int, combinationId: int, response: string)

  /** The `combinations` rows of one batch insert, in the order of the batch. */
  function CombinationRows(cs: seq<Combination>): (r: seq<Row>)
    ensures |r| == |cs| && forall k :: 0 <= k < |cs| ==> r[k] == CombinationRow(cs[k].items)
  {
    seq(|cs|, k requires 0 <= k < |cs| => CombinationRow(cs[k].items))
  }

  /**
   * `saveCombinations`: collects the enumeration, then inside one transaction
   * inserts the batch, inserts the serialised `{id, combinations}` response and
   * resolves to the same `{id, combinations}`. The two repository inserts are
   * parameters returning the id the database reports, or None when they throw
   * (the transaction then rolls back and nothing is committed); `serialize`
   * stands for `JSON.stringify`. A batch insert of no combinations builds an
   * `INSERT` with an empty `VALUES` list, which the database rejects, so
   * `batchInsert([])` fails: when nothing is generated the call fails.
   */
  method SaveCombinations(
      data: seq<int>, length: int,
      batchInsert: seq<Combination> -> Option<int>,
      responseInsert: (int, string) -> Option<int>,
      serialize: (int, seq<seq<string>>) -> string)
    returns (result: Result<SavedCombinations, SaveError>, committed: seq<Row>)
    requires |data| <= MaxCategories
    requires batchInsert([]) == None
    ensures var generated := Combinations(Expand(data), Gen(Expand(data), length, [], 0));
      match batchInsert(generated)
      case None => result == Failure(BatchInsertFailed) && committed == []
      case Some(id) =>
        var text := serialize(id, ItemLists(generated));
        match responseInsert(id, text)
        case None => result == Failure(ResponseInsertFailed) && committed == []
        case Some(responseId) =>
          && result == Success(SavedCombinations(id, ItemLists(generated)))
          && committed == CombinationRows(generated) + [ResponseRow(responseId, id, text)]
    ensures Combinations(Expand(data), Gen(Expand(data), length, [], 0)) == [] ==>
      result == Failure(BatchInsertFailed) && committed == []
    ensures result.Success? ==>
      && result.value.combinations != []
      && |committed| == |result.value.combinations| + 1
      && committed[|committed| - 1].response == serialize(result.value.id, result.value.combinations)
      && forall l :: l in result.value.combinations ==> |l| == length && DistinctPrefixes(l)
  {
    var generated := GenerateValidCombinations(data, length);
    var combinations: seq<Combination> := [];
    var k := 0;
    while k < |generated|
      invariant 0 <= k <= |generated| && combinations == generated[..k]
    {
      combinations := combinations + [generated[k]];
      k := k + 1;
    }
    assert generated[..k] == generated;

    match batchInsert(combinations)
    case None =>
      result, committed := Failure(BatchInsertFailed), [];
    case Some(combinationId) =>
      var responseText := serialize(combinationId, ItemLists(combinations));
      match responseInsert(combinationId, responseText)
      case None =>
        result, committed := Failure(ResponseInsertFailed), [];
      case Some(responseId) =>
        result := Success(SavedCombinations(combinationId, ItemLists(combinations)));
        committed := CombinationRows(combinations) + [ResponseRow(responseId, combinationId, responseText)];
        forall l | l in result.value.combinations ensures |l| == length && DistinctPrefixes(l) {
          var i :| 0 <= i < |combinations| && l == ItemLists(combinations)[i];
          assert combinations[i] in generated;
        }
  }
}
