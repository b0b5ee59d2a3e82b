/** The open-addressing hash table of the plagiarism detector: a fixed row of
    `capacity` slots, each empty or holding one node, with collisions resolved
    by double hashing.

    The class `HashTable` works in place on an array; the functions over
    `Table` (the array's contents as a sequence) are its specification, and the
    lemmas below state what insertion and search promise. Python's `%` with a
    positive divisor is the Euclidean `%` of Dafny, and every divisor here is
    positive. */
module HashTables {
  import opened Wrappers
  import opened Primes

  /** One distinct window: its hash number, its text, and every start index at
      which it was inserted, in insertion order. (The source's `next` field is
      never used by this table.) */
  datatype HashTableNode = HashTableNode(key: int, value: string, indexes: seq<nat>)

  /** The contents of the slot array; `None` is an empty slot. */
  type Table = seq<Option<HashTableNode>>

  /** The home slot of a key. */
  function HashFunction1(m: int, k: int): (r: int)
    requires m >= 1
    ensures 0 <= r < m
  {
    k % m
  }

  /** The probe step of a key: never 0, so consecutive probes move on. */
  function HashFunction2(m: int, k: int): (r: int)
    requires m >= 2
    ensures 1 <= r <= m - 1
  {
    1 + k % (m - 1)
  }

  /** The slot visited by probe number `i` for `key`. */
  function DoubleHashing(m: int, key: int, i: int): (r: int)
    requires m >= 2
    ensures 0 <= r < m
  {
    (HashFunction1(m, key) + i * HashFunction2(m, key)) % m
  }

  // ---------------------------------------------------------------------
  // Specification of insertion and search on the slot contents
  // ---------------------------------------------------------------------

  /** Probe `p` of `key` lands on a node holding another value, so insertion
      moves on to the next probe. */
  predicate Blocked(t: Table, key: int, value: string, p: int)
  {
    |t| >= 2 && var j := DoubleHashing(|t|, key, p); t[j].Some? && t[j].value.value != value
  }

  /** Slot `s` holds a node whose text is `value`. */
  predicate HoldsValue(t: Table, s: int, value: string)
  {
    0 <= s < |t| && t[s].Some? && t[s].value.value == value
  }

  /** Slot `s` holds a node with both this key and this text: what search looks for. */
  predicate HoldsEntry(t: Table, s: int, key: int, value: string)
  {
    HoldsValue(t, s, value) && t[s].value.key == key
  }

  /** The first probe number from `i` on at which insertion stops: the slot is
      empty or already holds `value`. */
  function InsertProbe(t: Table, key: int, value: string, i: nat): (r: Option<nat>)
    requires |t| != 1
    ensures r.Some? ==> i <= r.value < |t| && !Blocked(t, key, value, r.value)
    ensures r.Some? ==> forall q :: i <= q < r.value ==> Blocked(t, key, value, q)
    ensures r.None? ==> forall q :: i <= q < |t| ==> Blocked(t, key, value, q)
    decreases |t| - i
  {
    if i >= |t| then None
    else if !Blocked(t, key, value, i) then Some(i)
    else InsertProbe(t, key, value, i + 1)
  }

  /** No probe before the one insertion stops at is unblocked. */
  lemma {:induction false} FirstUnblocked(t: Table, key: int, value: string, i: nat, q: nat)
    requires |t| != 1 && i <= q < |t| && !Blocked(t, key, value, q)
    ensures InsertProbe(t, key, value, i).Some? && InsertProbe(t, key, value, i).value <= q
    decreases |t| - i
  {
    if Blocked(t, key, value, i) {
      FirstUnblocked(t, key, value, i + 1, q);
    }
  }

  /** The slot insertion writes to, if any. */
  function InsertSlot(t: Table, key: int, value: string): (r: Option<nat>)
    requires |t| != 1
    ensures r.Some? ==> r.value < |t| && (t[r.value].None? || t[r.value].value.value == value)
  {
    match InsertProbe(t, key, value, 0)
    case None => None
    case Some(p) => Some(DoubleHashing(|t|, key, p))
  }

  /** The node that insertion leaves in the slot it stops at. */
  function Placed(slot: Option<HashTableNode>, key: int, value: string, index: nat): HashTableNode
  {
    match slot
    case None => HashTableNode(key, value, [index])
    case Some(n) => n.(indexes := n.indexes + [index])
  }

  /** `open_addressing_insert` on the slot contents; `None` when it raises. */
  function Insert(t: Table, key: int, value: string, index: nat): (r: Option<Table>)
    requires |t| != 1
    ensures r.None? <==> forall q :: 0 <= q < |t| ==> Blocked(t, key, value, q)
    ensures r.Some? ==> |r.value| == |t|
  {
    match InsertSlot(t, key, value)
    case None => None
    case Some(j) => Some(t[j := Some(Placed(t[j], key, value, index))])
  }

  /** `open_addressing_search` from probe number `i` on; `None` is `False`. */
  function SearchFrom(t: Table, key: int, value: string, i: nat): (r: Option<seq<nat>>)
    requires |t| != 1
    ensures r.Some? ==> exists s :: HoldsEntry(t, s, key, value) && r.value == t[s].value.indexes
    decreases |t| - i
  {
    if i >= |t| then None
    else
      var j := DoubleHashing(|t|, key, i);
      if t[j].None? then None
      else if t[j].value.key == key && t[j].value.value == value then Some(t[j].value.indexes)
      else SearchFrom(t, key, value, i + 1)
  }

  /** `open_addressing_search`: the probes from 0 on; a hit is the index
      list of a node holding both the key and the text. */
  function Search(t: Table, key: int, value: string): (r: Option<seq<nat>>)
    requires |t| != 1
    ensures r.Some? ==> exists s :: HoldsEntry(t, s, key, value) && r.value == t[s].value.indexes
  {
    SearchFrom(t, key, value, 0)
  }

  /** The indexes a search returns, `[]` for a miss. */
  function Found(r: Option<seq<nat>>): seq<nat>
  {
    match r
    case None => []
    case Some(indexes) => indexes
  }

  /** The set of occupied slots. */
  ghost function Occupied(t: Table): set<int>
  {
    set s | 0 <= s < |t| && t[s].Some?
  }

  // ---------------------------------------------------------------------
  // Table invariants
  // ---------------------------------------------------------------------

  /** Every node holding `value` carries `key`: keys are a function of values. */
  ghost predicate KeyedFor(t: Table, key: int, value: string)
  {
    forall s :: HoldsValue(t, s, value) ==> t[s].value.key == key
  }

  /** No two nodes hold the same text. */
  ghost predicate UniqueValues(t: Table)
  {
    forall s1, s2 ::
      0 <= s1 < |t| && 0 <= s2 < |t| && t[s1].Some? && t[s2].Some? && t[s1].value.value == t[s2].value.value
      ==> s1 == s2
  }

  /** Every node records at least one index. */
  ghost predicate IndexesNonEmpty(t: Table)
  {
    forall s :: 0 <= s < |t| && t[s].Some? ==> t[s].value.indexes != []
  }

  /** Probe `p` of `key` lands on slot `s`, and every earlier probe of `key`
      lands on an occupied slot. */
  ghost predicate Reaches(t: Table, key: int, p: int, s: int)
  {
    && |t| >= 2
    && 0 <= p < |t|
    && DoubleHashing(|t|, key, p) == s
    && forall q :: 0 <= q < p ==> t[DoubleHashing(|t|, key, q)].Some?
  }

  /** Every node sits on the probe path of its own key, after occupied slots
      only: the node is where insertion found the first empty slot. */
  ghost predicate Reachable(t: Table)
  {
    forall s :: 0 <= s < |t| && t[s].Some? ==> exists p :: Reaches(t, t[s].value.key, p, s)
  }

  /** The invariant a table built by insertions alone keeps. */
  ghost predicate Valid(t: Table)
  {
    |t| != 1 && UniqueValues(t) && IndexesNonEmpty(t) && Reachable(t)
  }

  function EmptyTable(m: int): (t: Table)
    ensures |t| == (if m < 0 then 0 else m)
    ensures forall s :: 0 <= s < |t| ==> t[s].None?
  {
    seq(if m < 0 then 0 else m, _ => None)
  }

  lemma EmptyTableValid(m: int)
    requires m != 1
    ensures Valid(EmptyTable(m))
  {
  }

  // ---------------------------------------------------------------------
  // What one insertion does
  // ---------------------------------------------------------------------

  /** Insertion of a value not on its probe path: one previously empty slot
      now holds a fresh node with that key, value and `[index]`; every other
      slot is unchanged and exactly one more slot is occupied. */
  lemma InsertNewValue(t: Table, key: int, value: string, index: nat, j: nat)
    requires |t| != 1
    requires InsertSlot(t, key, value) == Some(j) && t[j].None?
    ensures Insert(t, key, value, index).Some?
    ensures Insert(t, key, value, index).value[j] == Some(HashTableNode(key, value, [index]))
    ensures forall s :: 0 <= s < |t| && s != j ==> Insert(t, key, value, index).value[s] == t[s]
    ensures Occupied(Insert(t, key, value, index).value) == Occupied(t) + {j}
    ensures |Occupied(Insert(t, key, value, index).value)| == |Occupied(t)| + 1
  {
    var t' := Insert(t, key, value, index).value;
    assert j !in Occupied(t);
    assert Occupied(t') == Occupied(t) + {j};
  }

  /** Insertion of a value already on its probe path: that node keeps its key
      and value and gains `index` at the end of its indexes; no slot changes
      occupancy. */
  lemma InsertExistingValue(t: Table, key: int, value: string, index: nat, j: nat)
    requires |t| != 1
    requires InsertSlot(t, key, value) == Some(j) && t[j].Some?
    ensures Insert(t, key, value, index).Some?
    ensures var n' := Insert(t, key, value, index).value[j];
      && n'.Some? && n'.value.key == t[j].value.key && n'.value.value == value
      && n'.value.indexes == t[j].value.indexes + [index]
    ensures forall s :: 0 <= s < |t| && s != j ==> Insert(t, key, value, index).value[s] == t[s]
    ensures Occupied(Insert(t, key, value, index).value) == Occupied(t)
  {
  }

  /** After insertion every node of the old table is still there with the same
      key and value, so occupied slots stay occupied. */
  lemma InsertKeepsNodes(t: Table, key: int, value: string, index: nat)
    requires |t| != 1 && Insert(t, key, value, index).Some?
    ensures var t' := Insert(t, key, value, index).value;
      forall s :: 0 <= s < |t| && t[s].Some? ==>
        t'[s].Some? && t'[s].value.key == t[s].value.key && t'[s].value.value == t[s].value.value
  {
  }

  // ---------------------------------------------------------------------
  // Search
  // ---------------------------------------------------------------------

  /** From probe `i` up to `p` the search for `key` and `value` meets no empty
      slot and no slot with this key and value except possibly `s`; so it
      returns the indexes of the node at `s`. */
  lemma {:induction false} SearchFromReaches(t: Table, key: int, value: string, s: nat, p: nat, i: nat)
    requires |t| != 1 && UniqueValues(t)
    requires HoldsEntry(t, s, key, value) && Reaches(t, key, p, s) && i <= p
    ensures SearchFrom(t, key, value, i) == Some(t[s].value.indexes)
    decreases p - i
  {
    var j := DoubleHashing(|t|, key, i);
    if i < p {
      assert t[j].Some?;
      if t[j].value.key == key && t[j].value.value == value {
        assert HoldsValue(t, j, t[s].value.value);
      } else {
        SearchFromReaches(t, key, value, s, p, i + 1);
      }
    }
  }

  /** In a valid table, a node with this key and value is always found, and
      the search returns its indexes. */
  lemma SearchFindsNode(t: Table, key: int, value: string, s: nat)
    requires Valid(t) && HoldsEntry(t, s, key, value)
    ensures Search(t, key, value) == Some(t[s].value.indexes)
  {
    var p :| Reaches(t, t[s].value.key, p, s);
    SearchFromReaches(t, key, value, s, p, 0);
  }

  /** Search misses exactly when no node has this key and value. */
  lemma SearchMisses(t: Table, key: int, value: string)
    requires Valid(t)
    ensures Search(t, key, value).None? <==> forall s :: !HoldsEntry(t, s, key, value)
  {
    if s :| HoldsEntry(t, s, key, value) {
      SearchFindsNode(t, key, value, s);
    }
  }

  // ---------------------------------------------------------------------
  // Insert, then search
  // ---------------------------------------------------------------------

  /** Search and insertion follow the same probes up to the slot `j` where
      insertion stops: before it they both pass blocked slots, which insertion
      leaves alone. */
  lemma {:induction false} SearchAlongInsertPath(t: Table, key: int, value: string, index: nat, p: nat, i: nat)
    requires |t| != 1 && KeyedFor(t, key, value)
    requires InsertProbe(t, key, value, 0) == Some(p) && i <= p
    ensures var j := DoubleHashing(|t|, key, p);
      && SearchFrom(t, key, value, i) == (if t[j].None? then None else Some(t[j].value.indexes))
      && SearchFrom(Insert(t, key, value, index).value, key, value, i)
         == Some(Placed(t[j], key, value, index).indexes)
    decreases p - i
  {
    var j := DoubleHashing(|t|, key, p);
    var t' := Insert(t, key, value, index).value;
    var ji := DoubleHashing(|t|, key, i);
    if i < p {
      assert Blocked(t, key, value, i);
      assert ji != j;
      assert t'[ji] == t[ji];
      SearchAlongInsertPath(t, key, value, index, p, i + 1);
    } else if t[j].Some? {
      assert HoldsValue(t, j, value);
    }
  }

  /** Round trip: when keys are a function of values, a successful insertion
      of `index` is found by the next search, which returns what it returned
      before with `index` appended. */
  lemma InsertThenSearch(t: Table, key: int, value: string, index: nat)
    requires |t| != 1 && Insert(t, key, value, index).Some? && KeyedFor(t, key, value)
    ensures Search(Insert(t, key, value, index).value, key, value)
            == Some(Found(Search(t, key, value)) + [index])
  {
    var p := InsertProbe(t, key, value, 0).value;
    var j := DoubleHashing(|t|, key, p);
    SearchAlongInsertPath(t, key, value, index, p, 0);
    if t[j].None? {
      assert Found(Search(t, key, value)) == [];
      assert Placed(t[j], key, value, index).indexes == [] + [index];
    } else {
      assert Found(Search(t, key, value)) == t[j].value.indexes;
    }
  }

  // ---------------------------------------------------------------------
  // Insertion keeps the table valid
  // ---------------------------------------------------------------------

  /** With keys a function of values, a node holding `value` can only sit in
      the slot where insertion of `value` stops: every earlier probe is
      blocked by another value, and the node's own path has no gap. */
  lemma ValueAtInsertSlot(t: Table, key: int, value: string, s: nat)
    requires Valid(t) && KeyedFor(t, key, value) && HoldsValue(t, s, value)
    requires InsertSlot(t, key, value).Some?
    ensures s == InsertSlot(t, key, value).value
  {
    var p := InsertProbe(t, key, value, 0).value;
    var j := DoubleHashing(|t|, key, p);
    var ps :| Reaches(t, key, ps, s);
    assert !Blocked(t, key, value, ps);
    FirstUnblocked(t, key, value, 0, ps);
    if p < ps {
      assert t[j].Some?;
      assert HoldsValue(t, j, value);
    }
  }

  /** After insertion, the slot written holds the only node with `value`. */
  lemma ValueAtInsertSlotAfter(t: Table, key: int, value: string, index: nat, s: nat)
    requires Valid(t) && Insert(t, key, value, index).Some? && KeyedFor(t, key, value)
    requires HoldsValue(Insert(t, key, value, index).value, s, value)
    ensures s == InsertSlot(t, key, value).value
  {
    var j := InsertSlot(t, key, value).value;
    if s != j {
      ValueAtInsertSlot(t, key, value, s);
    }
  }

  lemma InsertKeepsUnique(t: Table, key: int, value: string, index: nat)
    requires Valid(t) && Insert(t, key, value, index).Some? && KeyedFor(t, key, value)
    ensures UniqueValues(Insert(t, key, value, index).value)
  {
    var t' := Insert(t, key, value, index).value;
    var j := InsertSlot(t, key, value).value;
    forall s1, s2 |
      0 <= s1 < |t'| && 0 <= s2 < |t'| && t'[s1].Some? && t'[s2].Some? && t'[s1].value.value == t'[s2].value.value
      ensures s1 == s2
    {
      if t'[s1].value.value == value {
        ValueAtInsertSlotAfter(t, key, value, index, s1);
        ValueAtInsertSlotAfter(t, key, value, index, s2);
      } else {
        assert t'[s1] == t[s1] && t'[s2] == t[s2];
      }
    }
  }

  lemma ReachesGrows(t: Table, t': Table, key: int, p: int, s: int)
    requires |t| == |t'| && Reaches(t, key, p, s)
    requires forall s :: 0 <= s < |t| && t[s].Some? ==> t'[s].Some?
    ensures Reaches(t', key, p, s)
  {
  }

  lemma InsertKeepsReachable(t: Table, key: int, value: string, index: nat)
    requires Valid(t) && Insert(t, key, value, index).Some?
    ensures Reachable(Insert(t, key, value, index).value)
  {
    var t' := Insert(t, key, value, index).value;
    var p := InsertProbe(t, key, value, 0).value;
    var j := DoubleHashing(|t|, key, p);
    InsertKeepsNodes(t, key, value, index);
    forall s | 0 <= s < |t'| && t'[s].Some?
      ensures exists ps :: Reaches(t', t'[s].value.key, ps, s)
    {
      if s == j && t[j].None? {
        forall q | 0 <= q < p
          ensures t[DoubleHashing(|t|, key, q)].Some?
        {
          assert Blocked(t, key, value, q);
        }
        assert Reaches(t, key, p, j);
        ReachesGrows(t, t', key, p, j);
      } else {
        var ps :| Reaches(t, t[s].value.key, ps, s);
        ReachesGrows(t, t', t[s].value.key, ps, s);
      }
    }
  }

  /** Insertion keeps a valid table valid, provided keys are a function of
      values: in particular it never creates a second node for a value. */
  lemma InsertKeepsValid(t: Table, key: int, value: string, index: nat)
    requires Valid(t) && Insert(t, key, value, index).Some? && KeyedFor(t, key, value)
    ensures Valid(Insert(t, key, value, index).value)
  {
    InsertKeepsUnique(t, key, value, index);
    InsertKeepsReachable(t, key, value, index);
  }

  // ---------------------------------------------------------------------
  // Prime table sizes: every probe sequence reaches every slot
  // ---------------------------------------------------------------------

  /** With a prime number of slots, the first `m` probes of any key land on
      pairwise distinct slots: the step `HashFunction2` lies in `[1, m)`, so
      no difference of two probe numbers below `m` is a multiple of `m`. */
  lemma ProbesDistinct(m: int, key: int, i: int, j: int)
    requires IsPrime(m) && 0 <= j < i < m
    ensures DoubleHashing(m, key, i) != DoubleHashing(m, key, j)
  {
    var h1, h2 := HashFunction1(m, key), HashFunction2(m, key);
    PrimeNotDividesProduct(m, i - j, h2);
    assert (h1 + i * h2) - (h1 + j * h2) == (i - j) * h2;
    if DoubleHashing(m, key, i) == DoubleHashing(m, key, j) {
      ModEqualDiff(h1 + i * h2, h1 + j * h2, m);
    }
  }

  /** The slots visited by the first `n` probes of `key`. */
  ghost function ProbeSlots(m: int, key: int, n: nat): set<int>
    requires m >= 2
  {
    if n == 0 then {} else ProbeSlots(m, key, n - 1) + {DoubleHashing(m, key, n - 1)}
  }

  lemma {:induction false} LaterProbeIsNew(m: int, key: int, i: int, n: nat)
    requires IsPrime(m) && n <= i < m
    ensures DoubleHashing(m, key, i) !in ProbeSlots(m, key, n)
  {
    if n > 0 {
      LaterProbeIsNew(m, key, i, n - 1);
      ProbesDistinct(m, key, i, n - 1);
    }
  }

  /** With a prime number of slots, `n <= m` probes visit `n` distinct slots. */
  lemma {:induction false} ProbeSlotsCount(m: int, key: int, n: nat)
    requires IsPrime(m) && n <= m
    ensures |ProbeSlots(m, key, n)| == n
  {
    if n > 0 {
      ProbeSlotsCount(m, key, n - 1);
      LaterProbeIsNew(m, key, n - 1, n - 1);
    }
  }

  /** When the first `n` probes are all blocked, the slots they visit are
      all occupied. */
  lemma {:induction false} BlockedProbesOccupied(t: Table, key: int, value: string, n: nat)
    requires |t| >= 2 && forall q :: 0 <= q < n ==> Blocked(t, key, value, q)
    ensures ProbeSlots(|t|, key, n) <= Occupied(t)
  {
    if n > 0 {
      BlockedProbesOccupied(t, key, value, n - 1);
      assert Blocked(t, key, value, n - 1);
    }
  }

  lemma SubsetCount<T>(a: set<T>, b: set<T>)
    requires a <= b
    ensures |a| <= |b|
  {
    assert b == a + (b - a);
  }

  /** With a prime number of slots, insertion fails only on a full table:
      every slot holds a node. */
  lemma InsertFailsOnlyWhenFull(t: Table, key: int, value: string, index: nat)
    requires IsPrime(|t|)
    ensures Insert(t, key, value, index).None? ==> |Occupied(t)| >= |t|
  {
    if Insert(t, key, value, index).None? {
      BlockedProbesOccupied(t, key, value, |t|);
      ProbeSlotsCount(|t|, key, |t|);
      SubsetCount(ProbeSlots(|t|, key, |t|), Occupied(t));
    }
  }

  // ---------------------------------------------------------------------
  // The table object
  // ---------------------------------------------------------------------

  /** `HashTable(m)`: `capacity` slots in an array updated in place. A
      negative `m` gives an empty slot list, as `range(m)` does. */
  class HashTable {
    const capacity: int
    const hashTable: array<Option<HashTableNode>>

    /** The array has `capacity` slots, none when the capacity is not
        positive. */
    ghost predicate Sized()
    {
      hashTable.Length == if capacity < 0 then 0 else capacity
    }

    constructor (m: int)
      ensures Sized() && capacity == m && fresh(hashTable)
      ensures hashTable[..] == EmptyTable(m)
    {
      capacity := m;
      hashTable := new Option<HashTableNode>[if m < 0 then 0 else m](_ => None);
    }

    /** Probes until an empty slot (a new node goes there) or a node with the
        same value (the index is appended to it); `ok` is false where the
        source raises after `capacity` probes. A capacity of 1 divides by
        zero in `HashFunction2`, so it is excluded. */
    method OpenAddressingInsert(key: int, value: string, index: nat) returns (ok: bool)
      requires Sized() && capacity != 1
      modifies hashTable
      ensures Insert(old(hashTable[..]), key, value, index) == if ok then Some(hashTable[..]) else None
      ensures !ok ==> hashTable[..] == old(hashTable[..])
    {
      ghost var t := hashTable[..];
      var i := 0;
      while i < capacity
        invariant 0 <= i <= |t|
        invariant hashTable[..] == t
        invariant InsertProbe(t, key, value, i) == InsertProbe(t, key, value, 0)
        decreases capacity - i
      {
        var j := DoubleHashing(capacity, key, i);
        if hashTable[j].None? {
          hashTable[j] := Some(HashTableNode(key, value, [index]));
          return true;
        }
        var node := hashTable[j].value;
        if node.value == value {
          hashTable[j] := Some(node.(indexes := node.indexes + [index]));
          return true;
        }
        i := i + 1;
      }
      return false;
    }

    /** Probes until an empty slot (a miss) or a node with the same key and
        value (its indexes are returned), at most `capacity` probes. */
    method OpenAddressingSearch(key: int, value: string) returns (r: Option<seq<nat>>)
      requires Sized() && capacity != 1
      ensures r == Search(hashTable[..], key, value)
    {
      ghost var t := hashTable[..];
      var i := 0;
      while i < capacity
        invariant 0 <= i <= |t|
        invariant SearchFrom(t, key, value, i) == Search(t, key, value)
        decreases capacity - i
      {
        var j := DoubleHashing(capacity, key, i);
        if hashTable[j].None? {
          return None;
        }
        var node := hashTable[j].value;
        if node.key == key && value == node.value {
          return Some(node.indexes);
        }
        i := i + 1;
      }
      return None;
    }
  }
}
