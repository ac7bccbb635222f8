/** Ordinal (character-code) lexicographic order on strings and a stable
    insertion sort by it, used to keep `using` directives ordered by name. */
module StringOrder {

  /** `a` sorts before or equal to `b`: a proper prefix comes first, otherwise
      the first differing character decides. */
  predicate AtMost(a: string, b: string)
    decreases |a|
  {
    |a| == 0 || (|b| > 0 && (a[0] < b[0] || (a[0] == b[0] && AtMost(a[1..], b[1..]))))
  }

  lemma {:induction false} AtMostReflexive(a: string)
    ensures AtMost(a, a)
    decreases |a|
  {
    if |a| > 0 {
      AtMostReflexive(a[1..]);
    }
  }

  /** Any two strings are comparable. */
  lemma {:induction false} AtMostTotal(a: string, b: string)
    ensures AtMost(a, b) || AtMost(b, a)
    decreases |a|
  {
    if |a| > 0 && |b| > 0 && a[0] == b[0] {
      AtMostTotal(a[1..], b[1..]);
    }
  }

  lemma {:induction false} AtMostTransitive(a: string, b: string, c: string)
    requires AtMost(a, b) && AtMost(b, c)
    ensures AtMost(a, c)
    decreases |a|
  {
    if |a| > 0 && a[0] == b[0] && b[0] == c[0] {
      AtMostTransitive(a[1..], b[1..], c[1..]);
    }
  }

  /** Only equal strings sort both ways. */
  lemma {:induction false} AtMostAntisymmetric(a: string, b: string)
    requires AtMost(a, b) && AtMost(b, a)
    ensures a == b
    decreases |a|
  {
    if |a| > 0 {
      AtMostAntisymmetric(a[1..], b[1..]);
      assert a == [a[0]] + a[1..] && b == [b[0]] + b[1..];
    }
  }

  predicate Sorted(s: seq<string>)
  {
    forall i, j :: 0 <= i < j < |s| ==> AtMost(s[i], s[j])
  }

  /** `x` placed after every leading element that sorts at or before it. */
  function Insert(x: string, s: seq<string>): (r: seq<string>)
    ensures multiset(r) == multiset(s) + multiset{x}
    ensures |r| == |s| + 1
    decreases |s|
  {
    if |s| == 0 then [x]
    else if AtMost(x, s[0]) && s[0] != x then [x] + s
    else
      assert s == [s[0]] + s[1..];
      [s[0]] + Insert(x, s[1..])
  }

  /** `a` sorts at or before every element of `s`. */
  predicate AtMostAll(a: string, s: seq<string>)
  {
    forall j :: 0 <= j < |s| ==> AtMost(a, s[j])
  }

  /** A sorted sequence stays sorted when an element that sorts at or before
      all of it is put in front. */
  lemma SortedCons(a: string, s: seq<string>)
    requires Sorted(s) && AtMostAll(a, s)
    ensures Sorted([a] + s)
  {
    var r := [a] + s;
    forall i, j | 0 <= i < j < |r| ensures AtMost(r[i], r[j]) {
      assert r[j] == s[j - 1];
      if i > 0 { assert r[i] == s[i - 1]; }
    }
  }

  /** Inserting into a sorted sequence keeps it sorted. */
  lemma {:induction false} InsertSorted(x: string, s: seq<string>)
    requires Sorted(s)
    ensures Sorted(Insert(x, s))
    decreases |s|
  {
    if |s| == 0 {
    } else if AtMost(x, s[0]) && s[0] != x {
      forall j | 0 <= j < |s| ensures AtMost(x, s[j]) {
        if j > 0 { AtMostTransitive(x, s[0], s[j]); }
      }
      SortedCons(x, s);
    } else {
      var tail := s[1..];
      InsertSorted(x, tail);
      var rest := Insert(x, tail);
      forall j | 0 <= j < |rest| ensures AtMost(s[0], rest[j]) {
        var y := rest[j];
        assert y in multiset(rest);
        if y == x {
          AtMostTotal(x, s[0]);
          if s[0] == x { AtMostReflexive(x); }
        } else {
          assert y in multiset(tail);
          var k :| 0 <= k < |tail| && tail[k] == y;
          assert s[k + 1] == y;
        }
      }
      SortedCons(s[0], rest);
    }
  }

  /** `OrderBy` by name: a sorted permutation. */
  function SortStrings(s: seq<string>): (r: seq<string>)
    ensures Sorted(r)
    ensures multiset(r) == multiset(s)
    ensures |r| == |s|
    decreases |s|
  {
    if |s| == 0 then []
    else
      assert s == s[..|s| - 1] + [s[|s| - 1]];
      var sorted := SortStrings(s[..|s| - 1]);
      InsertSorted(s[|s| - 1], sorted);
      Insert(s[|s| - 1], sorted)
  }

  /** Inserting an element that sorts after everything appends it. */
  lemma {:induction false} InsertLast(x: string, s: seq<string>)
    requires forall i :: 0 <= i < |s| ==> AtMost(s[i], x)
    ensures Insert(x, s) == s + [x]
    decreases |s|
  {
    if |s| > 0 {
      if AtMost(x, s[0]) && s[0] != x {
        AtMostAntisymmetric(x, s[0]);
      }
      InsertLast(x, s[1..]);
      assert s == [s[0]] + s[1..];
    }
  }

  /** Sorting an already sorted sequence changes nothing. */
  lemma {:induction false} SortSorted(s: seq<string>)
    requires Sorted(s)
    ensures SortStrings(s) == s
    decreases |s|
  {
    if |s| > 0 {
      var init := s[..|s| - 1];
      SortSorted(init);
      InsertLast(s[|s| - 1], init);
      assert init + [s[|s| - 1]] == s;
    }
  }
}
