/** `rh_get_match`: both texts are normalised, every window of length `k` of
    the first is inserted into an open-addressing table keyed by its rolling
    hash, and every window of the second is looked up there; each hit
    contributes one pair `(i, j)` per recorded start index `i`.

    `Build` is the table the insertion loop leaves behind, as a function of
    the text; `TableInv` is what that table knows about the text, and with it
    the result of the method is exactly `AllMatches` of the normalised texts. */
module Matcher {
  import opened Wrappers
  import opened HashTables
  import opened RollingHash
  import opened TableSize
  import opened Processing
  import opened Windows
  import opened Primes

  /** The two ways the source fails: the insertion loop raises "All slots in
      hash table is filled!" (also at once when the table has no slot at
      all), or a single-slot table divides by zero in `hash_function_2`. */
  datatype MatchError = TableFull | DivisionByZero

  /** The table after inserting the first `n` windows of `x` into an empty
      table of `m` slots, each under its hash with its start index; `None`
      once an insertion finds every probe blocked. */
  function Build(x: string, k: nat, m: nat, n: nat): (r: Option<Table>)
    requires m >= 2 && n <= NumWindows(x, k)
    ensures r.Some? ==> |r.value| == m
  {
    if n == 0 then Some(EmptyTable(m))
    else match Build(x, k, m, n - 1)
      case None => None
      case Some(t) => Insert(t, Hash(Window(x, n - 1, k)), Window(x, n - 1, k), n - 1)
  }

  /** Every node is keyed by the hash of its text. */
  ghost predicate KeyedByHash(t: Table)
  {
    forall s :: 0 <= s < |t| && t[s].Some? ==> t[s].value.key == Hash(t[s].value.value)
  }

  /** Every node's index list is exactly the start indexes of its text among
      the first `n` windows of `x`. */
  ghost predicate IndexesExact(x: string, k: nat, t: Table, n: nat)
    requires n <= NumWindows(x, k)
  {
    forall s :: 0 <= s < |t| && t[s].Some? ==> t[s].value.indexes == Occurrences(x, k, t[s].value.value, n)
  }

  /** Some node holds `value`. */
  ghost predicate Stored(t: Table, value: string)
  {
    exists s :: HoldsValue(t, s, value)
  }

  /** Every one of the first `n` windows of `x` has a node. */
  ghost predicate Complete(x: string, k: nat, t: Table, n: nat)
    requires n <= NumWindows(x, k)
  {
    forall i :: 0 <= i < n ==> Stored(t, Window(x, i, k))
  }

  /** What a table built from the first `n` windows of `x` records. */
  ghost predicate TableInv(x: string, k: nat, t: Table, n: nat)
    requires n <= NumWindows(x, k)
  {
    Valid(t) && KeyedByHash(t) && IndexesExact(x, k, t, n) && Complete(x, k, t, n)
  }

  /** Looking a text up under its hash returns exactly its start indexes
      among the windows inserted, and misses when there are none. */
  lemma SearchBuilt(x: string, k: nat, t: Table, n: nat, w: string)
    requires n <= NumWindows(x, k) && TableInv(x, k, t, n)
    ensures Search(t, Hash(w), w) == if Occurrences(x, k, w, n) == [] then None else Some(Occurrences(x, k, w, n))
    ensures Found(Search(t, Hash(w), w)) == Occurrences(x, k, w, n)
  {
    OccurrencesEmpty(x, k, w, n);
    SearchMisses(t, Hash(w), w);
    if s :| HoldsValue(t, s, w) {
      assert HoldsEntry(t, s, Hash(w), w);
      SearchFindsNode(t, Hash(w), w, s);
    } else {
      forall i: nat | i < n
        ensures Window(x, i, k) != w
      {
        assert Stored(t, Window(x, i, k));
      }
    }
  }

  /** Inserting window `n` changes one slot `j`: it now holds that window,
      keyed by its hash, with every start index of it up to `n`; every other
      slot is as it was and holds a different text. */
  lemma InsertWindow(x: string, k: nat, t: Table, n: nat, j: nat)
    requires n < NumWindows(x, k) && TableInv(x, k, t, n)
    requires InsertSlot(t, Hash(Window(x, n, k)), Window(x, n, k)) == Some(j)
    ensures var w := Window(x, n, k);
      var t' := Insert(t, Hash(w), w, n).value;
      && Insert(t, Hash(w), w, n).Some?
      && Valid(t')
      && HoldsEntry(t', j, Hash(w), w)
      && t'[j].value.indexes == Occurrences(x, k, w, n + 1)
      && (forall s :: 0 <= s < |t| && s != j ==> t'[s] == t[s] && !HoldsValue(t, s, w))
  {
    var w := Window(x, n, k);
    var key := Hash(w);
    var t' := Insert(t, key, w, n).value;
    assert t' == t[j := Some(Placed(t[j], key, w, n))];
    assert KeyedFor(t, key, w);
    InsertKeepsValid(t, key, w, n);
    SearchBuilt(x, k, t, n, w);
    InsertThenSearch(t, key, w, n);
    assert HoldsEntry(t', j, key, w);
    SearchFindsNode(t', key, w, j);
    forall s | HoldsValue(t, s, w)
      ensures s == j
    {
      ValueAtInsertSlot(t, key, w, s);
    }
  }

  /** A table that differs from `t` only in slot `j`, where it now holds
      window `n` with all its start indexes up to `n`, is still keyed by
      hashes and exact for the first `n + 1` windows. */
  lemma ChangedSlotExact(x: string, k: nat, t: Table, t': Table, n: nat, j: nat)
    requires n < NumWindows(x, k) && KeyedByHash(t) && IndexesExact(x, k, t, n)
    requires |t'| == |t| && 0 <= j < |t|
    requires HoldsEntry(t', j, Hash(Window(x, n, k)), Window(x, n, k))
    requires t'[j].value.indexes == Occurrences(x, k, Window(x, n, k), n + 1)
    requires forall s :: 0 <= s < |t| && s != j ==> t'[s] == t[s] && !HoldsValue(t, s, Window(x, n, k))
    ensures KeyedByHash(t') && IndexesExact(x, k, t', n + 1)
  {
    forall s | 0 <= s < |t'| && t'[s].Some? && s != j
      ensures t'[s].value.key == Hash(t'[s].value.value)
      ensures t'[s].value.indexes == Occurrences(x, k, t'[s].value.value, n + 1)
    {
      assert t'[s] == t[s] && !HoldsValue(t, s, Window(x, n, k));
    }
  }

  /** A table that keeps every node of `t` and holds window `n` covers the
      first `n + 1` windows. */
  lemma ChangedSlotComplete(x: string, k: nat, t: Table, t': Table, n: nat, j: nat)
    requires n < NumWindows(x, k) && Complete(x, k, t, n)
    requires |t'| == |t| && HoldsValue(t', j, Window(x, n, k))
    requires forall s :: 0 <= s < |t| && t[s].Some? ==> t'[s].Some? && t'[s].value.value == t[s].value.value
    ensures Complete(x, k, t', n + 1)
  {
    forall i | 0 <= i < n + 1
      ensures Stored(t', Window(x, i, k))
    {
      if i < n {
        assert Stored(t, Window(x, i, k));
        var s :| HoldsValue(t, s, Window(x, i, k));
        assert HoldsValue(t', s, Window(x, i, k));
      } else {
        assert HoldsValue(t', j, Window(x, n, k));
      }
    }
  }

  /** Inserting the next window keeps `TableInv`. */
  lemma BuildKeepsInvariant(x: string, k: nat, t: Table, n: nat)
    requires n < NumWindows(x, k) && TableInv(x, k, t, n)
    requires Insert(t, Hash(Window(x, n, k)), Window(x, n, k), n).Some?
    ensures TableInv(x, k, Insert(t, Hash(Window(x, n, k)), Window(x, n, k), n).value, n + 1)
  {
    var w := Window(x, n, k);
    var t' := Insert(t, Hash(w), w, n).value;
    var j := InsertSlot(t, Hash(w), w).value;
    InsertWindow(x, k, t, n, j);
    InsertKeepsNodes(t, Hash(w), w, n);
    ChangedSlotExact(x, k, t, t', n, j);
    ChangedSlotComplete(x, k, t, t', n, j);
  }

  /** One more step of `Build` is one more insertion. */
  lemma BuildStep(x: string, k: nat, m: nat, n: nat, t: Table)
    requires m >= 2 && n < NumWindows(x, k) && Build(x, k, m, n) == Some(t)
    ensures Build(x, k, m, n + 1) == Insert(t, Hash(Window(x, n, k)), Window(x, n, k), n)
  {
  }

  /** Every table `Build` produces satisfies `TableInv`. */
  lemma {:induction false} BuildInvariant(x: string, k: nat, m: nat, n: nat)
    requires m >= 2 && n <= NumWindows(x, k) && Build(x, k, m, n).Some?
    ensures TableInv(x, k, Build(x, k, m, n).value, n)
  {
    if n == 0 {
      EmptyTableValid(m);
    } else {
      BuildInvariant(x, k, m, n - 1);
      BuildKeepsInvariant(x, k, Build(x, k, m, n - 1).value, n - 1);
    }
  }

  /** Once an insertion has failed, the whole build fails. */
  lemma {:induction false} BuildFailureStays(x: string, k: nat, m: nat, n: nat, n': nat)
    requires m >= 2 && n <= n' <= NumWindows(x, k) && Build(x, k, m, n).None?
    ensures Build(x, k, m, n').None?
    decreases n' - n
  {
    if n < n' {
      BuildFailureStays(x, k, m, n + 1, n');
    }
  }

  /** The pairs the search loop of `rh_get_match` collects from table `t`
      for the first `m` windows of `y`. */
  function Probes(t: Table, y: string, k: nat, m: nat): seq<(nat, nat)>
    requires |t| != 1 && m <= NumWindows(y, k)
  {
    if m == 0 then []
    else Probes(t, y, k, m - 1) + PairWith(Found(Search(t, Hash(Window(y, m - 1, k)), Window(y, m - 1, k))), m - 1)
  }

  /** Probing a table built from all windows of `x` yields exactly the
      matching pairs. */
  lemma {:induction false} ProbesMatch(x: string, y: string, k: nat, t: Table, m: nat)
    requires TableInv(x, k, t, NumWindows(x, k)) && m <= NumWindows(y, k)
    ensures Probes(t, y, k, m) == MatchesUpTo(x, y, k, m)
  {
    if m > 0 {
      ProbesMatch(x, y, k, t, m - 1);
      SearchBuilt(x, k, t, NumWindows(x, k), Window(y, m - 1, k));
    }
  }

  /** Appending one more index appends one more pair. */
  lemma PairWithSnoc(starts: seq<nat>, l: nat, j: nat)
    requires l < |starts|
    ensures PairWith(starts[..l + 1], j) == PairWith(starts[..l], j) + [(starts[l], j)]
  {
    assert starts[..l + 1] == starts[..l] + [starts[l]];
  }

  /** The inner loop of the lookup: one pair `(i, j)` for each index `i`
      found for window `j`, in the order the node holds them. */
  method AppendPairs(dup: seq<(nat, nat)>, found: seq<nat>, j: nat) returns (r: seq<(nat, nat)>)
    ensures r == dup + PairWith(found, j)
  {
    r := dup;
    for l := 0 to |found|
      invariant r == dup + PairWith(found[..l], j)
    {
      PairWithSnoc(found, l, j);
      r := r + [(found[l], j)];
    }
    assert found[..|found|] == found;
  }

  /** The search loop of `rh_get_match`: every window of `y` is looked up
      under its hash, and each hit appends one pair per recorded index, in
      the order the node recorded them. The table is only read. */
  method CollectMatches(hTable1: HashTable, y: string, k: nat) returns (dup: seq<(nat, nat)>)
    requires hTable1.Sized() && hTable1.capacity != 1
    ensures dup == Probes(hTable1.hashTable[..], y, k, NumWindows(y, k))
  {
    ghost var t := hTable1.hashTable[..];
    dup := [];
    var j := 0;
    while j < |y| - k + 1
      invariant 0 <= j <= NumWindows(y, k)
      invariant dup == Probes(t, y, k, j)
    {
      var currentSub := y[j..j + k];
      var indexes := hTable1.OpenAddressingSearch(Hash(currentSub), currentSub);
      if indexes.Some? {
        dup := AppendPairs(dup, indexes.value, j);
      }
      assert dup == Probes(t, y, k, j) + PairWith(Found(indexes), j);
      j := j + 1;
    }
  }

  /** A table built from `n` windows has at most `n` occupied slots: each
      insertion fills at most one empty slot. */
  lemma {:induction false} BuildOccupancy(x: string, k: nat, m: nat, n: nat)
    requires m >= 2 && n <= NumWindows(x, k) && Build(x, k, m, n).Some?
    ensures |Occupied(Build(x, k, m, n).value)| <= n
  {
    if n == 0 {
      assert Occupied(EmptyTable(m)) == {};
    } else {
      BuildOccupancy(x, k, m, n - 1);
      var t := Build(x, k, m, n - 1).value;
      var w := Window(x, n - 1, k);
      var j := InsertSlot(t, Hash(w), w).value;
      if t[j].None? {
        InsertNewValue(t, Hash(w), w, n - 1, j);
      } else {
        InsertExistingValue(t, Hash(w), w, n - 1, j);
      }
    }
  }

  /** With a prime number of slots, at least one per window, every window
      finds a slot: the build never fails. */
  lemma {:induction false} BuildSucceedsPrime(x: string, k: nat, m: nat, n: nat)
    requires IsPrime(m) && n <= NumWindows(x, k) && n <= m
    ensures Build(x, k, m, n).Some?
  {
    if n > 0 {
      BuildSucceedsPrime(x, k, m, n - 1);
      BuildOccupancy(x, k, m, n - 1);
      var t := Build(x, k, m, n - 1).value;
      var w := Window(x, n - 1, k);
      InsertFailsOnlyWhenFull(t, Hash(w), w, n - 1);
    }
  }

  /** The insertion loop of `rh_get_match`: window `i` of `x1` goes in
      under `hashVal[i]` with index `i`. With two slots or more it leaves
      the table `Build` describes, or stops where an insertion raises; with
      no slot at all the first insertion raises. */
  method InsertWindows(hTable1: HashTable, x1: string, k: nat, hashVal: seq<int>) returns (ok: bool)
    requires hTable1.Sized() && hTable1.capacity != 1
    requires |hashVal| >= 1
    requires hTable1.capacity >= 2 ==> hTable1.hashTable[..] == EmptyTable(hTable1.capacity)
    requires hTable1.capacity >= 2 ==> k <= |x1| && |hashVal| == NumWindows(x1, k)
    requires hTable1.capacity >= 2 ==> forall i :: 0 <= i < |hashVal| ==> hashVal[i] == Hash(x1[i..i + k])
    modifies hTable1.hashTable
    ensures hTable1.capacity <= 0 ==> !ok
    ensures hTable1.capacity >= 2 ==>
      Build(x1, k, hTable1.capacity, |hashVal|) == if ok then Some(hTable1.hashTable[..]) else None
  {
    var size := hTable1.capacity;
    ghost var n := |hashVal|;
    var i := 0;
    while i < |hashVal|
      invariant 0 <= i <= |hashVal|
      invariant size <= 0 ==> i == 0
      invariant size >= 2 ==> Build(x1, k, size, i) == Some(hTable1.hashTable[..])
    {
      var w := if i + k <= |x1| then x1[i..i + k] else x1[i..];
      ghost var before := hTable1.hashTable[..];
      if size >= 2 {
        assert Build(x1, k, size, i + 1) == Insert(before, hashVal[i], w, i) by {
          BuildStep(x1, k, size, i, before);
          assert w == Window(x1, i, k) && hashVal[i] == Hash(w);
        }
      }
      var inserted := hTable1.OpenAddressingInsert(hashVal[i], w, i);
      if !inserted {
        assert size >= 2 ==> Build(x1, k, size, n).None? by {
          if size >= 2 {
            BuildFailureStays(x1, k, size, i + 1, n);
          }
        }
        return false;
      }
      i := i + 1;
    }
    return true;
  }

  /** The body of `rh_get_match` once the table size is chosen: insert every
      window of `x1`, then look up every window of `y1`. A size of 0 or less
      leaves no slot, so the first insertion raises; a size of 1 divides by
      zero; otherwise the result is `AllMatches` unless the build fails. */
  method MatchWithSize(x1: string, y1: string, k: nat, size: int) returns (r: Result<seq<(nat, nat)>, MatchError>)
    requires k >= 1 && (size <= 0 || size == 1 || k <= |x1|)
    ensures r.Success? ==> r.value == AllMatches(x1, y1, k)
    ensures size <= 0 ==> r == Failure(TableFull)
    ensures size == 1 ==> r == Failure(DivisionByZero)
    ensures size >= 2 ==>
      && (r.Failure? <==> Build(x1, k, size, NumWindows(x1, k)).None?)
      && (r.Failure? ==> r.error == TableFull)
  {
    var hTable1 := new HashTable(size);
    var hashVal := RollingHashing(x1, k);
    if size == 1 {
      // the first insertion computes `hash_function_2` with modulus 0
      return Failure(DivisionByZero);
    }
    var ok := InsertWindows(hTable1, x1, k, hashVal);
    if !ok {
      return Failure(TableFull);
    }
    ghost var n := NumWindows(x1, k);
    ghost var t := hTable1.hashTable[..];
    assert TableInv(x1, k, t, n) by {
      BuildInvariant(x1, k, size, n);
    }
    var dup := CollectMatches(hTable1, y1, k);
    assert dup == AllMatches(x1, y1, k) by {
      ProbesMatch(x1, y1, k, t, NumWindows(y1, k));
    }
    return Success(dup);
  }

  /** `rh_get_match`. On success the result is every pair `(i, j)` whose
      windows of length `k` in the normalised texts are equal, ordered by `j`
      and then `i` (see `AllMatches`). It fails exactly as the source raises:
      with no window in `x` the table has no slot; with one window the table
      has one slot and hashing divides by zero; otherwise the table size is
      not always prime, and an insertion whose probe step shares a factor
      with it can find every probed slot taken. */
  method RhGetMatch(x: string, y: string, k: nat) returns (r: Result<seq<(nat, nat)>, MatchError>)
    requires k >= 1
    ensures r.Success? ==> r.value == AllMatches(ProcessString(x, y).0, ProcessString(x, y).1, k)
    ensures NumWindows(ProcessString(x, y).0, k) == 0 ==> r == Failure(TableFull)
    ensures NumWindows(ProcessString(x, y).0, k) == 1 ==> r == Failure(DivisionByZero)
    ensures var x1 := ProcessString(x, y).0;
      NumWindows(x1, k) >= 2 ==>
        && (r.Failure? <==> Build(x1, k, TableSize.TableSize(|x1| - k + 1), NumWindows(x1, k)).None?)
        && (r.Failure? ==> r.error == TableFull)
  {
    var processed := ProcessString(x, y);
    var x1, y1 := processed.0, processed.1;
    var size := RollingTableSize(|x1| - k + 1);
    r := MatchWithSize(x1, y1, k, size);
  }

  /** `rh_get_match` with the table size the source evidently intends, the
      least prime at or above `int(keyNum * 1.3)`: with two windows or more it
      always succeeds, with every matching pair. */
  method RhGetMatchPrime(x: string, y: string, k: nat) returns (r: Result<seq<(nat, nat)>, MatchError>)
    requires k >= 1
    ensures NumWindows(ProcessString(x, y).0, k) == 0 ==> r == Failure(TableFull)
    ensures NumWindows(ProcessString(x, y).0, k) == 1 ==> r == Failure(DivisionByZero)
    ensures NumWindows(ProcessString(x, y).0, k) >= 2 ==>
      r == Success(AllMatches(ProcessString(x, y).0, ProcessString(x, y).1, k))
  {
    var processed := ProcessString(x, y);
    var x1, y1 := processed.0, processed.1;
    var size := RollingPrimeTableSize(|x1| - k + 1);
    if size >= 2 {
      BuildSucceedsPrime(x1, k, size, NumWindows(x1, k));
    }
    r := MatchWithSize(x1, y1, k, size);
  }
}
