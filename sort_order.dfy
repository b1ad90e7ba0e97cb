/** The order that `Array.prototype.sort()` uses when it is given no
    comparator and every element is a string: the default SortCompare of
    ECMA-262 (section 23.1.3.30.2 of the 2023 edition) compares the two
    strings code unit by code unit, and a proper prefix sorts first.
    A Dafny `char` is a Unicode scalar value; for the characters up to
    U+FFFF, which are one UTF-16 code unit each, the order below is that
    code-unit order. */
module SortOrder {

  /** `a` sorts no later than `b`. */
  predicate Below(a: string, b: string)
    decreases |a|
  {
    if |a| == 0 then true
    else if |b| == 0 then false
    else if a[0] != b[0] then a[0] < b[0]
    else Below(a[1..], b[1..])
  }

  lemma {:induction false} BelowReflexive(a: string)
    ensures Below(a, a)
    decreases |a|
  {
    if |a| > 0 {
      BelowReflexive(a[1..]);
    }
  }

  lemma {:induction false} BelowTotal(a: string, b: string)
    ensures Below(a, b) || Below(b, a)
    decreases |a|
  {
    if |a| > 0 && |b| > 0 && a[0] == b[0] {
      BelowTotal(a[1..], b[1..]);
    }
  }

  lemma {:induction false} BelowAntisymmetric(a: string, b: string)
    requires Below(a, b) && Below(b, a)
    ensures a == b
    decreases |a|
  {
    if |a| > 0 && |b| > 0 {
      BelowAntisymmetric(a[1..], b[1..]);
      assert a == [a[0]] + a[1..];
      assert b == [b[0]] + b[1..];
    }
  }

  lemma {:induction false} BelowTransitive(a: string, b: string, c: string)
    requires Below(a, b) && Below(b, c)
    ensures Below(a, c)
    decreases |a|
  {
    if |a| > 0 && |b| > 0 && |c| > 0 && a[0] == b[0] && b[0] == c[0] {
      BelowTransitive(a[1..], b[1..], c[1..]);
    }
  }

  /** A string sorts before every extension of itself. */
  lemma {:induction false} BelowExtension(a: string, t: string)
    ensures Below(a, a + t)
    decreases |a|
  {
    if |a| > 0 {
      assert (a + t)[1..] == a[1..] + t;
      BelowExtension(a[1..], t);
    }
  }

  /** The comparison is by code unit, so every upper-case ASCII letter
      sorts before every lower-case one. */
  lemma UpperCaseFirst(u: char, l: char, s: string, t: string)
    requires 'A' <= u <= 'Z' && 'a' <= l <= 'z'
    ensures Below([u] + s, [l] + t) && !Below([l] + t, [u] + s)
  {
  }

  predicate Sorted(s: seq<string>) {
    forall i, j :: 0 <= i < j < |s| ==> Below(s[i], s[j])
  }

  /** Places `x` in the sorted sequence `s`, before the first element it
      sorts no later than. */
  function Insert(x: string, s: seq<string>): (r: seq<string>)
    ensures multiset(r) == multiset(s) + multiset{x}
    ensures |r| == |s| + 1
    decreases |s|
  {
    if s == [] then [x]
    else if Below(x, s[0]) then [x] + s
    else
      assert s == [s[0]] + s[1..];
      [s[0]] + Insert(x, s[1..])
  }

  lemma {:induction false} InsertSorted(x: string, s: seq<string>)
    requires Sorted(s)
    ensures Sorted(Insert(x, s))
    decreases |s|
  {
    if s == [] {
    } else if Below(x, s[0]) {
      forall j | 0 <= j < |s|
        ensures Below(x, s[j])
      {
        if j > 0 {
          BelowTransitive(x, s[0], s[j]);
        }
      }
    } else {
      BelowTotal(x, s[0]);
      InsertSorted(x, s[1..]);
      var t := Insert(x, s[1..]);
      forall j | 0 <= j < |t|
        ensures Below(s[0], t[j])
      {
        assert t[j] in multiset(t);
        if t[j] != x {
          assert t[j] in multiset(s[1..]);
          var k :| 0 <= k < |s[1..]| && s[1..][k] == t[j];
          assert s[k + 1] == t[j];
        }
      }
    }
  }

  /** The model of `names.sort()`: the names in ascending code-unit order. */
  function SortNames(s: seq<string>): (r: seq<string>)
    ensures Sorted(r)
    ensures multiset(r) == multiset(s)
    ensures |r| == |s|
    decreases |s|
  {
    if s == [] then []
    else
      var init := SortNames(s[..|s| - 1]);
      InsertSorted(s[|s| - 1], init);
      assert s == s[..|s| - 1] + [s[|s| - 1]];
      Insert(s[|s| - 1], init)
  }

  /** Two sorted permutations of each other start with the same string. */
  lemma SortedPermutationsShareHead(a: seq<string>, b: seq<string>)
    requires Sorted(a) && Sorted(b)
    requires multiset(a) == multiset(b)
    requires a != []
    ensures b != [] && a[0] == b[0]
  {
    assert a[0] in multiset(b);
    assert b[0] in multiset(a);
    var i :| 0 <= i < |a| && a[i] == b[0];
    var j :| 0 <= j < |b| && b[j] == a[0];
    assert Below(a[0], b[0]) by {
      if i > 0 {
        assert Below(a[0], a[i]);
      } else {
        BelowReflexive(a[0]);
      }
    }
    assert Below(b[0], a[0]) by {
      if j > 0 {
        assert Below(b[0], b[j]);
      } else {
        BelowReflexive(b[0]);
      }
    }
    BelowAntisymmetric(a[0], b[0]);
  }

  lemma MultisetOfTail(a: seq<string>)
    requires a != []
    ensures multiset(a[1..]) == multiset(a) - multiset{a[0]}
  {
    assert a == [a[0]] + a[1..];
  }

  /** A sorted permutation is unique: whatever algorithm an engine uses for
      `sort()`, the result is the one `SortNames` gives. */
  lemma {:induction false} SortedPermutationUnique(a: seq<string>, b: seq<string>)
    requires Sorted(a) && Sorted(b)
    requires multiset(a) == multiset(b)
    ensures a == b
    decreases |a|
  {
    if a != [] {
      SortedPermutationsShareHead(a, b);
      MultisetOfTail(a);
      MultisetOfTail(b);
      SortedPermutationUnique(a[1..], b[1..]);
      assert a == [a[0]] + a[1..];
      assert b == [b[0]] + b[1..];
    }
  }

  /** The sorted group depends only on which names it holds, not on the
      order they came in. */
  lemma SortDependsOnlyOnMultiset(s: seq<string>, t: seq<string>)
    requires multiset(s) == multiset(t)
    ensures SortNames(s) == SortNames(t)
  {
    SortedPermutationUnique(SortNames(s), SortNames(t));
  }

  /** Sorting is idempotent: sorting a sorted group changes nothing. */
  lemma SortSortedIsIdentity(s: seq<string>)
    requires Sorted(s)
    ensures SortNames(s) == s
  {
    SortedPermutationUnique(SortNames(s), s);
  }
}
