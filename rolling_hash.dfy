/** The rolling hash of the matcher: every window is read as a base-7 number
    over its character codes, and its hash is that number modulo 10. The
    hashes of all windows are computed in one pass, each from the previous one
    in constant time. */
module RollingHash {
  import opened Primes

  function Pow(b: nat, e: nat): nat
  {
    if e == 0 then 1 else b * Pow(b, e - 1)
  }

  /** Python's `ord`. */
  function Ord(c: char): nat
  {
    c as nat
  }

  /** `str_to_int`: with base 7, the sum of `ord(sub[i]) * 7^(k-1-i)` over the `k`
      characters of `sub`, most significant first. */
  function StrToInt(sub: string): nat
  {
    if sub == [] then 0 else Ord(sub[0]) * Pow(7, |sub| - 1) + StrToInt(sub[1..])
  }

  /** `_hash`: a small, lossy digest of a window. */
  function Hash(sub: string): (h: int)
    ensures 0 <= h < 10
  {
    StrToInt(sub) % 10
  }

  /** The value of one character is its code. */
  lemma StrToIntChar(c: char)
    ensures StrToInt([c]) == Ord(c)
  {
    assert [c][1..] == [];
  }

  /** Appending a character shifts the number one place (Horner's rule). */
  lemma {:induction false} StrToIntAppend(s: string, c: char)
    ensures StrToInt(s + [c]) == 7 * StrToInt(s) + Ord(c)
  {
    if s == [] {
      StrToIntChar(c);
      assert s + [c] == [c];
    } else {
      var o, p := Ord(s[0]), Pow(7, |s| - 1);
      assert (s + [c])[0] == s[0] && (s + [c])[1..] == s[1..] + [c];
      StrToIntAppend(s[1..], c);
      assert Pow(7, |s|) == 7 * p;
      calc {
        StrToInt(s + [c]);
        o * (7 * p) + StrToInt(s[1..] + [c]);
        o * (7 * p) + 7 * StrToInt(s[1..]) + Ord(c);
        { assert o * (7 * p) == 7 * (o * p); }
        7 * (o * p + StrToInt(s[1..])) + Ord(c);
      }
    }
  }

  /** Numbers congruent modulo 10 stay congruent under subtraction. */
  lemma ModSub(x: int, x': int, y: int, y': int)
    requires x % 10 == x' % 10 && y % 10 == y' % 10
    ensures (x - y) % 10 == (x' - y') % 10
  {
    var d := (x / 10 - x' / 10) - (y / 10 - y' / 10);
    assert x - y == x' - y' + 10 * d;
  }

  /** Reducing a factor modulo 10 first does not change a product modulo 10. */
  lemma ModMul(o: nat, p: nat)
    ensures (o * (p % 10)) % 10 == (o * p) % 10
  {
    var q, r := p / 10, p % 10;
    assert p == 10 * q + r;
    assert o * p == 10 * (o * q) + o * r by {
      assert o * (10 * q + r) == o * (10 * q) + o * r;
    }
    ModAddMultiple(o * r, 10, o * q);
  }

  /** The arithmetic of one rolling step: with `a = m + r` the value of the
      current window and `o0 * p = 7 * m` the leading character's weight after
      the shift, the update lands on the digit of `7 * r + oc`. */
  lemma RollArith(a: int, r: int, m: int, o0: nat, p: nat, oc: int)
    requires a == m + r && o0 * p == 7 * m
    ensures (((a % 10) * 7 + oc) % 10 - o0 * (p % 10)) % 10 == (7 * r + oc) % 10
  {
    var x := (a % 10) * 7 + oc;
    assert x % 10 == (7 * a + oc) % 10 by {
      assert 7 * a + oc == x + 10 * (7 * (a / 10));
    }
    ModMul(o0, p);
    ModSub(x % 10, 7 * a + oc, o0 * (p % 10), o0 * p);
  }

  /** The update step of `rolling_hashing` is right: from the hash of window
      `w`, appending `c` and taking out the leading character's weighted code
      gives the hash of the next window `w[1..] + [c]`. The subtraction may go
      negative; Python's `%` by 10, like Dafny's, then still lies in [0, 10). */
  lemma RollStep(w: string, c: char, h: int, oc: int, o0: nat, p: nat)
    requires |w| >= 1
    requires h == Hash(w) && oc == StrToInt([c]) && o0 == StrToInt([w[0]]) && p == Pow(7, |w|)
    ensures ((h * 7 + oc) % 10 - o0 * (p % 10)) % 10 == Hash(w[1..] + [c])
  {
    var a, r := StrToInt(w), StrToInt(w[1..]);
    var p1 := Pow(7, |w| - 1);
    var m: int := o0 * p1;
    assert o0 == Ord(w[0]) by { StrToIntChar(w[0]); }
    assert a == m + r && o0 * p == 7 * m by { LeadWeight(w); }
    assert Hash(w[1..] + [c]) == (7 * r + oc) % 10 by { HashNext(w, c); StrToIntChar(c); }
    RollArith(a, r, m, o0, p, oc);
  }

  /** The next window's hash, by Horner's rule. */
  lemma HashNext(w: string, c: char)
    requires |w| >= 1
    ensures Hash(w[1..] + [c]) == (7 * StrToInt(w[1..]) + Ord(c)) % 10
  {
    StrToIntAppend(w[1..], c);
  }

  /** The leading character's weight, and that weight after one more shift. */
  lemma LeadWeight(w: string)
    requires |w| >= 1
    ensures StrToInt(w) == Ord(w[0]) * Pow(7, |w| - 1) + StrToInt(w[1..])
    ensures Ord(w[0]) * Pow(7, |w|) == 7 * (Ord(w[0]) * Pow(7, |w| - 1))
  {
    var o, p1 := Ord(w[0]), Pow(7, |w| - 1);
    assert Pow(7, |w|) == 7 * p1;
    assert o * (7 * p1) == 7 * (o * p1);
  }

  /** `rolling_hashing`: the hash of every window of length `k` of `x`, in
      order of start index, each window's after the first computed from the
      previous one. When `k` exceeds `|x|` the source hashes `x[0:k]`, which
      is `x` itself, and there are no further windows. */
  method RollingHashing(x: string, k: nat) returns (hashVal: seq<int>)
    requires k >= 1
    ensures k <= |x| ==> |hashVal| == |x| - k + 1
    ensures k <= |x| ==> forall i :: 0 <= i < |hashVal| ==> hashVal[i] == Hash(x[i..i + k])
    ensures k > |x| ==> hashVal == [Hash(x)]
  {
    hashVal := [];
    var sub1 := x[..if k <= |x| then k else |x|];
    var sub1Hash := Hash(sub1);
    hashVal := hashVal + [sub1Hash];
    var tempSub := sub1;
    var tempHash := sub1Hash;
    var t := k;
    assert k > |x| ==> sub1 == x;
    while t < |x|
      invariant k <= t && (k <= |x| ==> t <= |x|)
      invariant k > |x| ==> t == k && hashVal == [Hash(x)]
      invariant k <= |x| ==> tempSub == x[t - k..t]
      invariant tempHash == Hash(tempSub)
      invariant k <= |x| ==> |hashVal| == t - k + 1
      invariant k <= |x| ==> forall i :: 0 <= i < |hashVal| ==> hashVal[i] == Hash(x[i..i + k])
    {
      var ch := x[t];
      ghost var previous := tempHash;
      tempHash := (tempHash * 7 + StrToInt([ch])) % 10;
      var currentHash := (tempHash - StrToInt([tempSub[0]]) * (Pow(7, k) % 10)) % 10;
      RollStep(tempSub, ch, previous, StrToInt([ch]), StrToInt([tempSub[0]]), Pow(7, k));
      hashVal := hashVal + [currentHash];
      tempSub := tempSub[1..] + [ch];
      assert tempSub == x[t + 1 - k..t + 1];
      tempHash := currentHash;
      t := t + 1;
    }
  }
}
