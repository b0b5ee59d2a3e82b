/** The normaliser: both texts lose every space character and are
    lower-cased before any window is taken, so matching ignores spaces and
    letter case. Only ASCII letters are lower-cased here. */
module Processing {

  predicate IsUpper(c: char)
  {
    'A' <= c <= 'Z'
  }

  /** `str.replace(" ", "")`: every space removed, the rest kept in order. */
  function RemoveSpaces(s: string): (r: string)
    ensures ' ' !in r
    ensures |r| <= |s|
    ensures forall c :: c in r ==> c in s
  {
    if s == [] then [] else (if s[0] == ' ' then [] else [s[0]]) + RemoveSpaces(s[1..])
  }

  /** Lower-casing one character: `A`-`Z` become the letter in the same
      place of `a`-`z`, every other character stays as it is. */
  function LowerChar(c: char): (d: char)
    ensures IsUpper(c) ==> 'a' <= d <= 'z' && d as int - 'a' as int == c as int - 'A' as int
    ensures !IsUpper(c) ==> d == c
    ensures !IsUpper(d)
    ensures (d == ' ') == (c == ' ')
  {
    if IsUpper(c) then (c as int - 'A' as int + 'a' as int) as char else c
  }

  /** `str.lower()` on ASCII letters: every character lower-cased in place,
      so no upper-case letter is left and spaces are neither made nor
      removed. */
  function Lower(s: string): (r: string)
    ensures |r| == |s|
    ensures forall i :: 0 <= i < |s| ==> r[i] == LowerChar(s[i])
    ensures forall c :: c in r ==> !IsUpper(c)
    ensures (' ' in r) == (' ' in s)
  {
    if s == [] then [] else [LowerChar(s[0])] + Lower(s[1..])
  }

  /** One text after normalisation: no space, no upper-case letter, and
      never longer than before. */
  function Normalise(s: string): (r: string)
    ensures ' ' !in r
    ensures forall c :: c in r ==> !IsUpper(c)
    ensures |r| <= |s|
  {
    Lower(RemoveSpaces(s))
  }

  /** `process_string`: both texts without spaces and in lower case, never
      longer than they were. */
  function ProcessString(x: string, y: string): (r: (string, string))
    ensures ' ' !in r.0 && ' ' !in r.1
    ensures forall c :: c in r.0 ==> !IsUpper(c)
    ensures forall c :: c in r.1 ==> !IsUpper(c)
    ensures |r.0| <= |x| && |r.1| <= |y|
  {
    (Normalise(x), Normalise(y))
  }

  lemma {:induction false} RemoveSpacesAppend(a: string, b: string)
    ensures RemoveSpaces(a + b) == RemoveSpaces(a) + RemoveSpaces(b)
  {
    if a == [] {
      assert a + b == b;
    } else {
      assert (a + b)[0] == a[0] && (a + b)[1..] == a[1..] + b;
      RemoveSpacesAppend(a[1..], b);
      var h: string := if a[0] == ' ' then [] else [a[0]];
      assert RemoveSpaces(a + b) == h + RemoveSpaces(a[1..] + b);
      assert RemoveSpaces(a) == h + RemoveSpaces(a[1..]);
      assert h + (RemoveSpaces(a[1..]) + RemoveSpaces(b)) == (h + RemoveSpaces(a[1..])) + RemoveSpaces(b);
    }
  }

  lemma {:induction false} RemoveSpacesNoSpace(s: string)
    requires ' ' !in s
    ensures RemoveSpaces(s) == s
  {
    if s != [] {
      assert s[0] in s;
      assert forall c :: c in s[1..] ==> c in s;
      RemoveSpacesNoSpace(s[1..]);
    }
  }

  lemma {:induction false} LowerNoUpper(s: string)
    requires forall c :: c in s ==> !IsUpper(c)
    ensures Lower(s) == s
  {
    if s != [] {
      assert s[0] in s;
      assert forall c :: c in s[1..] ==> c in s;
      LowerNoUpper(s[1..]);
    }
  }

  /** Removing spaces and lower-casing commute. */
  lemma {:induction false} RemoveSpacesLower(s: string)
    ensures RemoveSpaces(Lower(s)) == Lower(RemoveSpaces(s))
  {
    if s != [] {
      RemoveSpacesLower(s[1..]);
      assert Lower(s)[0] == LowerChar(s[0]) && Lower(s)[1..] == Lower(s[1..]);
      if s[0] != ' ' {
        assert RemoveSpaces(Lower(s)) == [LowerChar(s[0])] + RemoveSpaces(Lower(s[1..]));
        assert RemoveSpaces(s) == [s[0]] + RemoveSpaces(s[1..]);
        assert Lower(RemoveSpaces(s)) == [LowerChar(s[0])] + Lower(RemoveSpaces(s[1..]));
      } else {
        assert RemoveSpaces(Lower(s)) == [] + RemoveSpaces(Lower(s[1..])) == RemoveSpaces(Lower(s[1..]));
        assert RemoveSpaces(s) == [] + RemoveSpaces(s[1..]) == RemoveSpaces(s[1..]);
      }
    }
  }

  /** Lower-casing works character by character: it distributes over
      concatenation. */
  lemma LowerAppend(a: string, b: string)
    ensures Lower(a + b) == Lower(a) + Lower(b)
  {
    var l, r := Lower(a + b), Lower(a) + Lower(b);
    forall i | 0 <= i < |a + b|
      ensures l[i] == r[i]
    {
      if i < |a| {
        assert (a + b)[i] == a[i];
      } else {
        assert (a + b)[i] == b[i - |a|];
      }
    }
  }

  /** Normalisation works character by character: it distributes over
      concatenation. */
  lemma NormaliseAppend(a: string, b: string)
    ensures Normalise(a + b) == Normalise(a) + Normalise(b)
  {
    RemoveSpacesAppend(a, b);
    LowerAppend(RemoveSpaces(a), RemoveSpaces(b));
  }

  /** One character normalises to nothing if it is a space, else to its
      lower-case form. */
  lemma NormaliseChar(c: char)
    ensures Normalise([c]) == if c == ' ' then [] else [LowerChar(c)]
  {
    assert [c][1..] == [];
  }

  /** A text without spaces or upper-case letters is already normalised. */
  lemma NormaliseClean(s: string)
    requires ' ' !in s && forall c :: c in s ==> !IsUpper(c)
    ensures Normalise(s) == s
  {
    RemoveSpacesNoSpace(s);
    LowerNoUpper(s);
  }

  /** Normalising a normalised text changes nothing. */
  lemma NormaliseIdempotent(s: string)
    ensures Normalise(Normalise(s)) == Normalise(s)
  {
    var n := Normalise(s);
    RemoveSpacesNoSpace(n);
    LowerNoUpper(n);
  }

  /** Letter case does not matter: a text and its lower-cased form normalise
      alike. */
  lemma NormaliseIgnoresCase(s: string)
    ensures Normalise(Lower(s)) == Normalise(s)
  {
    RemoveSpacesLower(s);
    LowerNoUpper(Lower(RemoveSpaces(s)));
  }

  /** Two texts of the same length that agree on every character once
      lower-cased; they differ at most in letter case. */
  predicate SameUpToCase(a: string, b: string)
  {
    |a| == |b| && forall i :: 0 <= i < |a| ==> LowerChar(a[i]) == LowerChar(b[i])
  }

  /** Letter case does not matter: two texts that differ only in letter
      case normalise to the same text. */
  lemma NormaliseCaseInsensitive(a: string, b: string)
    requires SameUpToCase(a, b)
    ensures Normalise(a) == Normalise(b)
  {
    assert Lower(a) == Lower(b);
    RemoveSpacesLower(a);
    RemoveSpacesLower(b);
  }

  /** Spaces do not matter: a space between two texts normalises away. */
  lemma NormaliseIgnoresSpace(a: string, b: string)
    ensures Normalise(a + " " + b) == Normalise(a + b)
  {
    RemoveSpacesAppend(a + " ", b);
    RemoveSpacesAppend(a, " ");
    RemoveSpacesAppend(a, b);
    assert RemoveSpaces(" ") == [];
    assert RemoveSpaces(a) + [] == RemoveSpaces(a);
  }
}
