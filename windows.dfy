/** What the matcher is meant to compute: every pair `(i, j)` such that the
    window of length `k` of `x` at `i` equals the window of `y` at `j`, listed
    by increasing `j` and, for one `j`, by increasing `i`. */
module Windows {

  /** The number of windows of length `k` in `s`: `len(s) - k + 1`, and none
      when `k` exceeds `len(s)`. */
  function NumWindows(s: string, k: nat): nat
  {
    if k <= |s| then |s| - k + 1 else 0
  }

  /** `s[i:i+k]` */
  function Window(s: string, i: nat, k: nat): string
    requires i + k <= |s|
  {
    s[i..i + k]
  }

  /** The start indexes `i < n` of the windows of `x` equal to `w`, in
      increasing order. */
  function Occurrences(x: string, k: nat, w: string, n: nat): seq<nat>
    requires n <= NumWindows(x, k)
  {
    if n == 0 then [] else Occurrences(x, k, w, n - 1) + (if Window(x, n - 1, k) == w then [n - 1] else [])
  }

  predicate Increasing(s: seq<nat>)
  {
    forall a, b :: 0 <= a < b < |s| ==> s[a] < s[b]
  }

  /** `i` occurs in `Occurrences(x, k, w, n)` exactly when `i < n` and the
      window at `i` is `w`; and the list is strictly increasing. */
  lemma {:induction false} OccurrencesSpec(x: string, k: nat, w: string, n: nat)
    requires n <= NumWindows(x, k)
    ensures forall i: nat :: i in Occurrences(x, k, w, n) <==> i < n && Window(x, i, k) == w
    ensures Increasing(Occurrences(x, k, w, n))
    ensures forall i :: i in Occurrences(x, k, w, n) ==> i < n
  {
    if n > 0 {
      OccurrencesSpec(x, k, w, n - 1);
      var prev := Occurrences(x, k, w, n - 1);
      var last: seq<nat> := if Window(x, n - 1, k) == w then [n - 1] else [];
      var r := prev + last;
      assert Occurrences(x, k, w, n) == r;
      forall a, b | 0 <= a < b < |r|
        ensures r[a] < r[b]
      {
        if b >= |prev| {
          assert r[a] == prev[a] && prev[a] in prev;
        }
      }
    }
  }

  /** The first member of a non-empty strictly increasing list is its
      least, and the rest are the other members. */
  lemma IncreasingHead(s: seq<nat>)
    requires Increasing(s) && s != []
    ensures forall v :: v in s ==> s[0] <= v
    ensures forall v :: v in s[1..] <==> v in s && v != s[0]
  {
    forall v | v in s
      ensures s[0] <= v
    {
      var i :| 0 <= i < |s| && s[i] == v;
    }
    forall v | v in s && v != s[0]
      ensures v in s[1..]
    {
      var i :| 0 <= i < |s| && s[i] == v;
      assert s[1..][i - 1] == v;
    }
    forall v | v in s[1..]
      ensures v in s && v != s[0]
    {
      var i :| 0 <= i < |s| - 1 && s[1..][i] == v;
      assert s[i + 1] == v;
    }
  }

  /** Two strictly increasing lists with the same members are equal. */
  lemma {:induction false} IncreasingSameMembers(s1: seq<nat>, s2: seq<nat>)
    requires Increasing(s1) && Increasing(s2)
    requires forall v :: v in s1 <==> v in s2
    ensures s1 == s2
    decreases |s1|
  {
    if s1 != [] {
      assert s1[0] in s2;
    }
    if s2 != [] {
      assert s2[0] in s1;
    }
    if s1 != [] && s2 != [] {
      IncreasingHead(s1);
      IncreasingHead(s2);
      assert s1[0] == s2[0];
      assert Increasing(s1[1..]) && Increasing(s2[1..]);
      IncreasingSameMembers(s1[1..], s2[1..]);
      assert s1 == [s1[0]] + s1[1..] && s2 == [s2[0]] + s2[1..];
    }
  }

  /** The occurrences are the one increasing list of the starts whose window
      is `w`. */
  lemma OccurrencesExactly(x: string, k: nat, w: string, n: nat, starts: seq<nat>)
    requires n <= NumWindows(x, k) && Increasing(starts)
    requires forall i: nat :: i in starts <==> i < n && Window(x, i, k) == w
    ensures Occurrences(x, k, w, n) == starts
  {
    OccurrencesSpec(x, k, w, n);
    IncreasingSameMembers(Occurrences(x, k, w, n), starts);
  }

  /** No occurrence at all exactly when no window before `n` is `w`. */
  lemma OccurrencesEmpty(x: string, k: nat, w: string, n: nat)
    requires n <= NumWindows(x, k)
    ensures Occurrences(x, k, w, n) == [] <==> forall i: nat :: i < n ==> Window(x, i, k) != w
  {
    OccurrencesSpec(x, k, w, n);
    var occ := Occurrences(x, k, w, n);
    if occ != [] {
      assert occ[0] in occ;
    }
  }

  /** The pairs `(i, j)` for every `i` of `starts`, in the order of `starts`. */
  function PairWith(starts: seq<nat>, j: nat): (r: seq<(nat, nat)>)
    ensures |r| == |starts|
    ensures forall t :: 0 <= t < |r| ==> r[t] == (starts[t], j)
  {
    seq(|starts|, t requires 0 <= t < |starts| => (starts[t], j))
  }

  /** The pairs contributed by the windows of `y` before `m`. */
  function MatchesUpTo(x: string, y: string, k: nat, m: nat): seq<(nat, nat)>
    requires m <= NumWindows(y, k)
  {
    if m == 0 then []
    else MatchesUpTo(x, y, k, m - 1) + PairWith(Occurrences(x, k, Window(y, m - 1, k), NumWindows(x, k)), m - 1)
  }

  /** Every matching pair of windows of `x` and `y`. */
  function AllMatches(x: string, y: string, k: nat): seq<(nat, nat)>
  {
    MatchesUpTo(x, y, k, NumWindows(y, k))
  }

  lemma {:induction false} MatchesUpToMember(x: string, y: string, k: nat, m: nat, i: nat, j: nat)
    requires m <= NumWindows(y, k)
    ensures (i, j) in MatchesUpTo(x, y, k, m)
        <==> i < NumWindows(x, k) && j < m && Window(x, i, k) == Window(y, j, k)
  {
    if m > 0 {
      MatchesUpToMember(x, y, k, m - 1, i, j);
      var occ := Occurrences(x, k, Window(y, m - 1, k), NumWindows(x, k));
      OccurrencesSpec(x, k, Window(y, m - 1, k), NumWindows(x, k));
      var prev := MatchesUpTo(x, y, k, m - 1);
      var last := PairWith(occ, m - 1);
      assert MatchesUpTo(x, y, k, m) == prev + last;
      assert (i, j) in prev + last <==> (i, j) in prev || (i, j) in last;
      if (i, j) in last {
        var t :| 0 <= t < |last| && last[t] == (i, j);
        assert occ[t] == i;
      }
      if j == m - 1 && i in occ {
        var t :| 0 <= t < |occ| && occ[t] == i;
        assert last[t] == (i, j);
      }
    }
  }

  /** Soundness and completeness: `(i, j)` is reported exactly when both are
      window starts and their windows are equal. */
  lemma AllMatchesMember(x: string, y: string, k: nat, i: nat, j: nat)
    ensures (i, j) in AllMatches(x, y, k)
        <==> i < NumWindows(x, k) && j < NumWindows(y, k) && Window(x, i, k) == Window(y, j, k)
  {
    MatchesUpToMember(x, y, k, NumWindows(y, k), i, j);
  }

  /** Pair `p` comes before pair `q`: smaller `j`, or the same `j` and smaller `i`. */
  predicate Before(p: (nat, nat), q: (nat, nat))
  {
    p.1 < q.1 || (p.1 == q.1 && p.0 < q.0)
  }

  predicate Ordered(r: seq<(nat, nat)>)
  {
    forall a, b :: 0 <= a < b < |r| ==> Before(r[a], r[b])
  }

  lemma {:induction false} MatchesUpToOrdered(x: string, y: string, k: nat, m: nat)
    requires m <= NumWindows(y, k)
    ensures Ordered(MatchesUpTo(x, y, k, m))
    ensures forall a :: 0 <= a < |MatchesUpTo(x, y, k, m)| ==> MatchesUpTo(x, y, k, m)[a].1 < m
  {
    if m > 0 {
      MatchesUpToOrdered(x, y, k, m - 1);
      var occ := Occurrences(x, k, Window(y, m - 1, k), NumWindows(x, k));
      OccurrencesSpec(x, k, Window(y, m - 1, k), NumWindows(x, k));
      var prev := MatchesUpTo(x, y, k, m - 1);
      var last := PairWith(occ, m - 1);
      var r := prev + last;
      assert MatchesUpTo(x, y, k, m) == r;
      forall a, b | 0 <= a < b < |r|
        ensures Before(r[a], r[b])
      {
        if b < |prev| {
          assert r[a] == prev[a] && r[b] == prev[b];
        } else if a < |prev| {
          assert r[a] == prev[a] && r[b] == last[b - |prev|];
          assert r[a].1 < m - 1 && r[b].1 == m - 1;
        } else {
          assert r[a] == last[a - |prev|] && r[b] == last[b - |prev|];
          assert occ[a - |prev|] < occ[b - |prev|];
        }
      }
      forall a | 0 <= a < |r|
        ensures r[a].1 < m
      {
        if a < |prev| {
          assert r[a] == prev[a];
        } else {
          assert r[a] == last[a - |prev|];
        }
      }
    }
  }

  /** The pairs come by increasing `j`, and for one `j` by increasing `i`. */
  lemma AllMatchesOrdered(x: string, y: string, k: nat)
    ensures Ordered(AllMatches(x, y, k))
  {
    MatchesUpToOrdered(x, y, k, NumWindows(y, k));
  }

  /** A strictly increasing list whose only member is `v` is `[v]`. */
  lemma IncreasingSingleton(s: seq<nat>, v: nat)
    requires Increasing(s) && v in s && forall u :: u in s ==> u == v
    ensures s == [v]
  {
    assert s[0] in s && s[|s| - 1] in s;
  }

  /** When the windows of `x` are all distinct, the window at `i` occurs
      at `i` alone. */
  lemma OccurrencesOfDistinct(x: string, k: nat, i: nat)
    requires i < NumWindows(x, k)
    requires forall a: nat, b: nat :: a < b < NumWindows(x, k) ==> Window(x, a, k) != Window(x, b, k)
    ensures Occurrences(x, k, Window(x, i, k), NumWindows(x, k)) == [i]
  {
    var n := NumWindows(x, k);
    forall u: nat
      ensures u in [i] <==> u < n && Window(x, u, k) == Window(x, i, k)
    {
      if u < n && u < i {
        assert Window(x, u, k) != Window(x, i, k);
      } else if u < n && u > i {
        assert Window(x, i, k) != Window(x, u, k);
      }
    }
    OccurrencesExactly(x, k, Window(x, i, k), n, [i]);
  }

  /** A text whose windows are all distinct matches itself only on the
      diagonal: the result is `[(0, 0), (1, 1), ...]`. */
  lemma {:induction false} SelfMatchesDistinct(x: string, k: nat, m: nat)
    requires m <= NumWindows(x, k)
    requires forall a: nat, b: nat :: a < b < NumWindows(x, k) ==> Window(x, a, k) != Window(x, b, k)
    ensures |MatchesUpTo(x, x, k, m)| == m
    ensures forall i :: 0 <= i < m ==> MatchesUpTo(x, x, k, m)[i] == (i, i)
  {
    if m > 0 {
      SelfMatchesDistinct(x, k, m - 1);
      OccurrencesOfDistinct(x, k, m - 1);
      var prev := MatchesUpTo(x, x, k, m - 1);
      var last := PairWith([m - 1], m - 1);
      assert last == [(m - 1, m - 1)];
      var r := prev + last;
      assert MatchesUpTo(x, x, k, m) == r;
      forall i | 0 <= i < m
        ensures r[i] == (i, i)
      {
        if i < m - 1 {
          assert r[i] == prev[i];
        }
      }
    }
  }

  /** A `y` that is a single window: the matches are its occurrences in `x`,
      each paired with 0. */
  lemma SingleWindowMatches(x: string, y: string, k: nat, occ: seq<nat>)
    requires |y| == k && Occurrences(x, k, y, NumWindows(x, k)) == occ
    ensures AllMatches(x, y, k) == PairWith(occ, 0)
  {
    assert NumWindows(y, k) == 1 && Window(y, 0, k) == y;
    assert AllMatches(x, y, k) == MatchesUpTo(x, y, k, 1);
    assert MatchesUpTo(x, y, k, 1) == MatchesUpTo(x, y, k, 0) + PairWith(occ, 0);
  }
}
