/** The matcher on concrete inputs: the two documented calls, and a text
    whose seven windows get a table of 10 slots on which the last insertion
    finds every probed slot taken. */
module WorkedCases {
  import opened Wrappers
  import opened HashTables
  import opened RollingHash
  import opened TableSize
  import opened Processing
  import opened Windows
  import opened Primes
  import opened Matcher

  /** The hash of a two-character window. */
  lemma HashPair(a: char, b: char)
    ensures Hash([a, b]) == (7 * Ord(a) + Ord(b)) % 10
  {
    assert [a, b][1..] == [b];
    assert [b][1..] == [];
    assert Pow(7, 1) == 7;
    assert StrToInt([b]) == Ord(b);
  }

  /** The node a fresh insertion leaves. */
  function Node(key: int, value: string, index: nat): Option<HashTableNode>
  {
    Some(HashTableNode(key, value, [index]))
  }

  /** A key whose home slot is empty goes there. */
  lemma HomeSlotEmpty(t: Table, key: int, value: string, index: nat)
    requires |t| >= 2 && t[key % |t|].None?
    ensures Insert(t, key, value, index) == Some(t[key % |t| := Node(key, value, index)])
  {
    var m := |t|;
    var home := key % m;
    assert 0 * HashFunction2(m, key) == 0;
    ModUnique(home, m, 0, home);
    assert DoubleHashing(m, key, 0) == home;
    assert !Blocked(t, key, value, 0);
    assert InsertProbe(t, key, value, 0) == Some(0);
    assert InsertSlot(t, key, value) == Some(home);
  }

  const Crowded: string := "aabcbada"

  /** The hashes of the seven windows of `Crowded`: 6, 7, 5, 1, 3, 9, 7. */
  lemma CrowdedHashes()
    ensures NumWindows(Crowded, 2) == 7
    ensures Window(Crowded, 0, 2) == "aa" && Hash("aa") == 6
    ensures Window(Crowded, 1, 2) == "ab" && Hash("ab") == 7
    ensures Window(Crowded, 2, 2) == "bc" && Hash("bc") == 5
    ensures Window(Crowded, 3, 2) == "cb" && Hash("cb") == 1
    ensures Window(Crowded, 4, 2) == "ba" && Hash("ba") == 3
    ensures Window(Crowded, 5, 2) == "ad" && Hash("ad") == 9
    ensures Window(Crowded, 6, 2) == "da" && Hash("da") == 7
  {
    HashPair('a', 'a'); HashPair('a', 'b'); HashPair('b', 'c'); HashPair('c', 'b');
    HashPair('b', 'a'); HashPair('a', 'd'); HashPair('d', 'a');
  }

  /** Seven windows whose hashes are 6, 7, 5, 1, 3, 9 and 7, the last
      differing from the five before it. */
  predicate Stranding(x: string, k: nat)
  {
    && NumWindows(x, k) == 7
    && Hash(Window(x, 0, k)) == 6 && Hash(Window(x, 1, k)) == 7 && Hash(Window(x, 2, k)) == 5
    && Hash(Window(x, 3, k)) == 1 && Hash(Window(x, 4, k)) == 3 && Hash(Window(x, 5, k)) == 9
    && Hash(Window(x, 6, k)) == 7
    && forall i :: 1 <= i < 6 ==> Window(x, i, k) != Window(x, 6, k)
  }

  /** One window whose home slot in a 10-slot table is empty goes there. */
  lemma StrandStep(x: string, k: nat, n: nat, t: Table, key: int)
    requires n < NumWindows(x, k) && Build(x, k, 10, n) == Some(t)
    requires Hash(Window(x, n, k)) == key && t[key % 10].None?
    ensures Build(x, k, 10, n + 1) == Some(t[key % 10 := Node(key, Window(x, n, k), n)])
  {
    HomeSlotEmpty(t, key, Window(x, n, k), n);
    BuildStep(x, k, 10, n, t);
  }

  /** The table after the first six windows: each on its home slot. */
  function StrandSix(x: string, k: nat): Table
    requires NumWindows(x, k) == 7
  {
    EmptyTable(10)[6 := Node(6, Window(x, 0, k), 0)][7 := Node(7, Window(x, 1, k), 1)]
      [5 := Node(5, Window(x, 2, k), 2)][1 := Node(1, Window(x, 3, k), 3)]
      [3 := Node(3, Window(x, 4, k), 4)][9 := Node(9, Window(x, 5, k), 5)]
  }

  /** The home slots 6, 7, 5, 1, 3 and 9 of the first six windows are
      distinct, so each lands on an empty one. */
  lemma StrandBuildSix(x: string, k: nat)
    requires Stranding(x, k)
    ensures Build(x, k, 10, 6) == Some(StrandSix(x, k))
  {
    var t0 := EmptyTable(10);
    var t1 := t0[6 := Node(6, Window(x, 0, k), 0)];
    var t2 := t1[7 := Node(7, Window(x, 1, k), 1)];
    var t3 := t2[5 := Node(5, Window(x, 2, k), 2)];
    var t4 := t3[1 := Node(1, Window(x, 3, k), 3)];
    var t5 := t4[3 := Node(3, Window(x, 4, k), 4)];
    StrandStep(x, k, 0, t0, 6);
    StrandStep(x, k, 1, t1, 7);
    StrandStep(x, k, 2, t2, 5);
    StrandStep(x, k, 3, t3, 1);
    StrandStep(x, k, 4, t4, 3);
    StrandStep(x, k, 5, t5, 9);
  }

  /** Every probe of key 7 (step 8) in a 10-slot table visits slot 7, 5, 3,
      1 or 9. */
  lemma ProbesOfSeven(q: int)
    requires 0 <= q < 10
    ensures var j := DoubleHashing(10, 7, q); j == 7 || j == 5 || j == 3 || j == 1 || j == 9
  {
    assert HashFunction1(10, 7) == 7 && HashFunction2(10, 7) == 8;
    assert DoubleHashing(10, 7, q) == (7 + q * 8) % 10;
    if q < 5 {
      assert q == 0 || q == 1 || q == 2 || q == 3 || q == 4;
    } else {
      assert (7 + q * 8) % 10 == (7 + (q - 5) * 8) % 10 by {
        assert 7 + q * 8 == 7 + (q - 5) * 8 + 40;
      }
      assert q - 5 == 0 || q - 5 == 1 || q - 5 == 2 || q - 5 == 3 || q - 5 == 4;
    }
  }

  /** The seventh window cannot be placed: its probes visit only the slots
      of windows 1 to 5, although slots 0, 2, 4 and 8 are free. */
  lemma StrandedBuildFails(x: string, k: nat)
    requires Stranding(x, k)
    ensures Build(x, k, 10, 7).None?
  {
    StrandBuildSix(x, k);
    var t6 := StrandSix(x, k);
    var w := Window(x, 6, k);
    forall q | 0 <= q < 10
      ensures Blocked(t6, 7, w, q)
    {
      ProbesOfSeven(q);
    }
    assert Insert(t6, 7, w, 6).None?;
    BuildStep(x, k, 10, 6, t6);
  }

  /** `"aabcbada"` has seven windows of length 2, all distinct, so the table
      gets `TableSize(7) == 10` slots. The first six land on the empty slots
      6, 7, 5, 1, 3 and 9; the last, `"da"`, has key 7 and probe step 8,
      whose probes 7, 5, 3, 1, 9, 7, ... visit only taken slots although
      four slots are free. */
  lemma CompositeSizeFails()
    ensures NumWindows(Crowded, 2) == 7 && TableSize.TableSize(7) == 10
    ensures Build(Crowded, 2, 10, 7).None?
  {
    TableSizeSeven();
    CrowdedStranding();
    StrandedBuildFails(Crowded, 2);
  }

  lemma CrowdedStranding()
    ensures Stranding(Crowded, 2)
  {
    CrowdedHashes();
  }

  /** The windows of `Crowded` are pairwise distinct. */
  lemma CrowdedDistinct()
    ensures forall a: nat, b: nat :: a < b < NumWindows(Crowded, 2) ==> Window(Crowded, a, 2) != Window(Crowded, b, 2)
  {
    CrowdedHashes();
    forall a: nat, b: nat | a < b < 7
      ensures Window(Crowded, a, 2) != Window(Crowded, b, 2)
    {
      assert a == 0 || a == 1 || a == 2 || a == 3 || a == 4 || a == 5;
      assert b == 1 || b == 2 || b == 3 || b == 4 || b == 5 || b == 6;
    }
  }

  lemma SevenOnDiagonal(r: seq<(nat, nat)>)
    requires |r| == 7 && forall i :: 0 <= i < 7 ==> r[i] == (i, i)
    ensures r == [(0, 0), (1, 1), (2, 2), (3, 3), (4, 4), (5, 5), (6, 6)]
  {
    assert r[0] == (0, 0) && r[1] == (1, 1) && r[2] == (2, 2) && r[3] == (3, 3);
    assert r[4] == (4, 4) && r[5] == (5, 5) && r[6] == (6, 6);
  }

  /** `rh_get_match(x, x, 2)` raises for every normalised text with the
      stranding pattern: seven windows get the composite size 10. */
  method StrandedMatch(x: string) returns (r: Result<seq<(nat, nat)>, MatchError>)
    requires Normalise(x) == x && Stranding(x, 2)
    ensures r == Failure(TableFull)
  {
    TableSizeSeven();
    StrandedBuildFails(x, 2);
    r := RhGetMatch(x, x, 2);
  }

  /** With the prime size, a normalised text whose windows are pairwise
      distinct matches itself exactly on the diagonal. */
  method DiagonalMatchPrime(x: string, k: nat) returns (r: Result<seq<(nat, nat)>, MatchError>)
    requires k >= 1 && Normalise(x) == x && NumWindows(x, k) >= 2
    requires forall a: nat, b: nat :: a < b < NumWindows(x, k) ==> Window(x, a, k) != Window(x, b, k)
    ensures r.Success? && |r.value| == NumWindows(x, k)
    ensures forall i :: 0 <= i < |r.value| ==> r.value[i] == (i, i)
  {
    SelfMatchesDistinct(x, k, NumWindows(x, k));
    r := RhGetMatchPrime(x, x, k);
  }

  /** `rh_get_match("aabcbada", "aabcbada", 2)` raises although the text
      only matches itself: the composite size 10 strands the last window. */
  method CrowdedAsWritten() returns (r: Result<seq<(nat, nat)>, MatchError>)
    ensures r == Failure(TableFull)
  {
    NormaliseClean(Crowded);
    CrowdedStranding();
    r := StrandedMatch(Crowded);
  }

  /** With the next prime, 11, as the size the same call reports every window
      matched with itself. */
  method CrowdedCorrected() returns (r: Result<seq<(nat, nat)>, MatchError>)
    ensures r == Success([(0, 0), (1, 1), (2, 2), (3, 3), (4, 4), (5, 5), (6, 6)])
  {
    NormaliseClean(Crowded);
    CrowdedDistinct();
    r := DiagonalMatchPrime(Crowded, 2);
    SevenOnDiagonal(r.value);
  }

  // ---------------------------------------------------------------------
  // The documented calls
  // ---------------------------------------------------------------------

  /** A capitalised word normalises to its lower-case form. */
  lemma NormaliseCapitalised(c: char, w: string, s: string, r: string)
    requires IsUpper(c) && ' ' !in w && (forall d :: d in w ==> !IsUpper(d))
    requires s == [c] + w && r == [LowerChar(c)] + w
    ensures Normalise(s) == r
  {
    NormaliseAppend([c], w);
    NormaliseClean(w);
    NormaliseChar(c);
  }

  /** Two texts separated by a space normalise to the two normalised texts
      side by side. */
  lemma NormaliseSpaced(a: string, b: string)
    ensures Normalise(a + " " + b) == Normalise(a) + Normalise(b)
  {
    NormaliseIgnoresSpace(a, b);
    NormaliseAppend(a, b);
  }

  lemma NormaliseToday()
    ensures Normalise("Today") == "today"
  {
    NormaliseCapitalised('T', "oday", "Today", "today");
  }

  lemma NormaliseMonday()
    ensures Normalise("Monday") == "monday"
  {
    NormaliseCapitalised('M', "onday", "Monday", "monday");
  }

  lemma NormaliseTodayWords()
    ensures Normalise("Today is Monday") == Normalise("Today") + (Normalise("is") + Normalise("Monday"))
  {
    assert "Today is Monday" == "Today" + " " + ("is" + " " + "Monday");
    NormaliseSpaced("Today", "is" + " " + "Monday");
    NormaliseSpaced("is", "Monday");
  }

  lemma NormaliseTodayLower()
    ensures Normalise("Today is Monday") == "today" + ("is" + "monday")
  {
    NormaliseTodayWords();
    NormaliseToday();
    NormaliseMonday();
    NormaliseClean("is");
  }

  /** The concatenation is stated on its own: proved beside the literal
      `ProcessString` facts it is far costlier for the solver. */
  lemma TodayGlued()
    ensures "today" + ("is" + "monday") == "todayismonday"
  {
  }

  /** `process_string("Today is Monday", "day")`. */
  lemma ProcessToday()
    ensures ProcessString("Today is Monday", "day") == ("todayismonday", "day")
  {
    NormaliseTodayLower();
    TodayGlued();
    NormaliseClean("day");
  }

  /** The windows of length 3 of `"todayismonday"` equal to `"day"` start at
      2 and 10. */
  lemma TodayStart(i: nat)
    ensures i in [2, 10] <==> i < 11 && Window("todayismonday", i, 3) == "day"
  {
    var x := "todayismonday";
    if i == 2 || i == 10 {
      assert x[i] == 'd' && x[i + 1] == 'a' && x[i + 2] == 'y';
      assert Window(x, i, 3) == [x[i], x[i + 1], x[i + 2]];
    } else if i < 11 {
      assert x[i] != 'd' by {
        assert i == 0 || i == 1 || i == 3 || i == 4 || i == 5 || i == 6 || i == 7 || i == 8 || i == 9;
      }
      assert Window(x, i, 3)[0] == x[i];
    }
  }

  lemma TodayOccurrences()
    ensures Occurrences("todayismonday", 3, "day", 11) == [2, 10]
  {
    forall i: nat
      ensures i in [2, 10] <==> i < 11 && Window("todayismonday", i, 3) == "day"
    {
      TodayStart(i);
    }
    OccurrencesExactly("todayismonday", 3, "day", 11, [2, 10]);
  }

  lemma TodayMatches()
    ensures AllMatches("todayismonday", "day", 3) == [(2, 0), (10, 0)]
  {
    TodayOccurrences();
    assert Window("day", 0, 3) == "day";
  }

  lemma SeventeenIsPrime()
    ensures IsPrime(17)
  {
    forall d | 2 <= d < 17
      ensures 17 % d != 0
    {
      assert d == 2 || d == 3 || d == 4 || d == 5 || d == 6 || d == 7 || d == 8 || d == 9 || d == 10
        || d == 11 || d == 12 || d == 13 || d == 14 || d == 15 || d == 16;
    }
  }

  /** `rh_get_match("Today is Monday", "day", 3)`: "day" occurs at 2 and at
      10 of the normalised text. Eleven windows get 17 slots, a prime, so
      the build succeeds. */
  method TodayIsMonday() returns (r: Result<seq<(nat, nat)>, MatchError>)
    ensures r == Success([(2, 0), (10, 0)])
  {
    ProcessToday();
    TodayMatches();
    TableSizeEleven();
    SeventeenIsPrime();
    BuildSucceedsPrime("todayismonday", 3, 17, 11);
    r := RhGetMatch("Today is Monday", "day", 3);
  }

  /** Two characters, neither a space, normalise to their lower-case forms. */
  lemma NormalisePair(c: char, d: char, s: string, r: string)
    requires c != ' ' && d != ' ' && s == [c, d] && r == [LowerChar(c), LowerChar(d)]
    ensures Normalise(s) == r
  {
    assert s == [c] + [d];
    NormaliseAppend([c], [d]);
    NormaliseChar(c);
    NormaliseChar(d);
  }

  lemma NormaliseHa()
    ensures Normalise("Ha") == "ha" && Normalise("HA") == "ha" && Normalise("hA") == "ha"
  {
    NormalisePair('H', 'a', "Ha", "ha");
    NormalisePair('H', 'A', "HA", "ha");
    NormalisePair('h', 'A', "hA", "ha");
  }

  lemma NormaliseApple()
    ensures Normalise("Apple") == "apple"
  {
    NormaliseCapitalised('A', "pple", "Apple", "apple");
  }

  lemma NormaliseDotApple()
    ensures Normalise("h.Apple") == "h." + "apple"
  {
    assert "h.Apple" == "h." + "Apple";
    NormaliseAppend("h.", "Apple");
    NormaliseClean("h.");
    NormaliseApple();
  }

  lemma NormaliseHaWords()
    ensures Normalise("Ha HA hA h.Apple ")
      == Normalise("Ha") + (Normalise("HA") + (Normalise("hA") + (Normalise("h.Apple") + Normalise(""))))
  {
    assert "Ha HA hA h.Apple " == "Ha" + " " + ("HA" + " " + ("hA" + " " + ("h.Apple" + " " + "")));
    NormaliseSpaced("Ha", "HA" + " " + ("hA" + " " + ("h.Apple" + " " + "")));
    NormaliseSpaced("HA", "hA" + " " + ("h.Apple" + " " + ""));
    NormaliseSpaced("hA", "h.Apple" + " " + "");
    NormaliseSpaced("h.Apple", "");
  }

  lemma NormaliseHaLower()
    ensures Normalise("Ha HA hA h.Apple ") == "ha" + ("ha" + ("ha" + (("h." + "apple") + "")))
  {
    NormaliseHaWords();
    NormaliseHa();
    NormaliseDotApple();
  }

  /** The concatenation, stated on its own as `TodayGlued` is. */
  lemma HaGlued()
    ensures "ha" + ("ha" + ("ha" + (("h." + "apple") + ""))) == "hahahah.apple"
  {
  }

  /** `process_string("Ha HA hA h.Apple ", "ha")`. */
  lemma ProcessHa()
    ensures ProcessString("Ha HA hA h.Apple ", "ha") == ("hahahah.apple", "ha")
  {
    NormaliseHaLower();
    HaGlued();
    NormaliseClean("ha");
  }

  /** The windows of length 2 of `"hahahah.apple"` equal to `"ha"` start at
      0, 2 and 4; the one at 6 is `"h."`. */
  lemma HaStart(i: nat)
    ensures i in [0, 2, 4] <==> i < 12 && Window("hahahah.apple", i, 2) == "ha"
  {
    var x := "hahahah.apple";
    if i == 0 || i == 2 || i == 4 {
      assert x[i] == 'h' && x[i + 1] == 'a';
      assert Window(x, i, 2) == [x[i], x[i + 1]];
    } else if i == 6 {
      assert Window(x, i, 2)[1] == '.';
    } else if i < 12 {
      assert x[i] != 'h' by {
        assert i == 1 || i == 3 || i == 5 || i == 7 || i == 8 || i == 9 || i == 10 || i == 11;
      }
      assert Window(x, i, 2)[0] == x[i];
    }
  }

  lemma HaOccurrences()
    ensures Occurrences("hahahah.apple", 2, "ha", 12) == [0, 2, 4]
  {
    forall i: nat
      ensures i in [0, 2, 4] <==> i < 12 && Window("hahahah.apple", i, 2) == "ha"
    {
      HaStart(i);
    }
    OccurrencesExactly("hahahah.apple", 2, "ha", 12, [0, 2, 4]);
  }

  lemma PairsOfThree(a: nat, b: nat, c: nat, j: nat)
    ensures PairWith([a, b, c], j) == [(a, j), (b, j), (c, j)]
  {
    var p := PairWith([a, b, c], j);
    assert p[0] == (a, j) && p[1] == (b, j) && p[2] == (c, j);
  }

  lemma HaMatches()
    ensures AllMatches("hahahah.apple", "ha", 2) == [(0, 0), (2, 0), (4, 0)]
  {
    HaOccurrences();
    SingleWindowMatches("hahahah.apple", "ha", 2, [0, 2, 4]);
    PairsOfThree(0, 2, 4, 0);
  }

  /** `rh_get_match("Ha HA hA h.Apple ", "ha", 2)`: spaces and letter case
      are ignored, "." is kept, and "ha" starts at 0, 2 and 4. Twelve
      windows get 17 slots, a prime, so the build succeeds. */
  method HaHaHa() returns (r: Result<seq<(nat, nat)>, MatchError>)
    ensures r == Success([(0, 0), (2, 0), (4, 0)])
  {
    ProcessHa();
    HaMatches();
    TableSizeTwelve();
    SeventeenIsPrime();
    BuildSucceedsPrime("hahahah.apple", 2, 17, 12);
    r := RhGetMatch("Ha HA hA h.Apple ", "ha", 2);
  }
}
