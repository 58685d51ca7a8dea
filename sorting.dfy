/**
 * What `std::sort` does to a group of identifiers, as a specification: the
 * unique ascending permutation of the group. `SortSpec` is one insertion
 * sort; the lemmas show that any sorted permutation equals it.
 */
module Sorting {
  import opened StringOrder

  predicate Sorted(s: seq<string>)
  {
    forall i, j :: 0 <= i < j < |s| ==> LessOrEqual(s[i], s[j])
  }

  /** Puts `x` in front of the first element it does not come after. */
  function Insert(x: string, s: seq<string>): seq<string>
  {
    if |s| == 0 then [x]
    else if LessOrEqual(x, s[0]) then [x] + s
    else [s[0]] + Insert(x, s[1..])
  }

  /** The sorted permutation of `s`. */
  function SortSpec(s: seq<string>): seq<string>
  {
    if |s| == 0 then [] else Insert(s[0], SortSpec(s[1..]))
  }

  lemma SortSpecSingleton(x: string)
    ensures SortSpec([x]) == [x]
  {
    assert [x][1..] == [];
  }

  lemma {:induction false} InsertPermutation(x: string, s: seq<string>)
    ensures multiset(Insert(x, s)) == multiset(s) + multiset{x}
  {
    if |s| > 0 && !LessOrEqual(x, s[0]) {
      InsertPermutation(x, s[1..]);
      assert s == [s[0]] + s[1..];
    }
  }

  lemma {:induction false} InsertSorted(x: string, s: seq<string>)
    requires Sorted(s)
    ensures Sorted(Insert(x, s))
  {
    if |s| == 0 {
    } else if LessOrEqual(x, s[0]) {
      forall j | 0 < j < |s| ensures LessOrEqual(x, s[j]) {
        LessOrEqualTransitive(x, s[0], s[j]);
      }
    } else {
      var rest := Insert(x, s[1..]);
      InsertSorted(x, s[1..]);
      InsertPermutation(x, s[1..]);
      LessOrEqualIsLessOrEqual(x, s[0]);
      LessOrEqualIsLessOrEqual(s[0], x);
      forall j | 0 <= j < |rest| ensures LessOrEqual(s[0], rest[j]) {
        assert rest[j] in multiset(rest);
        if rest[j] != x {
          assert rest[j] in multiset(s[1..]);
          var k :| 0 <= k < |s[1..]| && s[1..][k] == rest[j];
          assert s[k + 1] == rest[j];
        }
      }
      var r := [s[0]] + rest;
      forall i, j | 0 <= i < j < |r| ensures LessOrEqual(r[i], r[j]) {
        if i > 0 {
          assert r[i] == rest[i - 1] && r[j] == rest[j - 1];
        } else {
          assert r[j] == rest[j - 1];
        }
      }
    }
  }

  lemma {:induction false} SortSpecSortsAndPermutes(s: seq<string>)
    ensures Sorted(SortSpec(s))
    ensures multiset(SortSpec(s)) == multiset(s)
  {
    if |s| > 0 {
      SortSpecSortsAndPermutes(s[1..]);
      InsertSorted(s[0], SortSpec(s[1..]));
      InsertPermutation(s[0], SortSpec(s[1..]));
      assert s == [s[0]] + s[1..];
    }
  }

  /** The first element of a sorted sequence comes before every element. */
  lemma SortedHeadFirst(s: seq<string>, x: string)
    requires Sorted(s) && x in multiset(s)
    ensures LessOrEqual(s[0], x)
  {
    var k :| 0 <= k < |s| && s[k] == x;
    if k == 0 {
      LessIrreflexive(x);
    }
  }

  lemma SortedTail(s: seq<string>)
    requires Sorted(s) && |s| > 0
    ensures Sorted(s[1..]) && multiset(s[1..]) == multiset(s) - multiset{s[0]}
  {
    assert s == [s[0]] + s[1..];
  }

  /** A sorted permutation is unique: equal multisets sort the same way. */
  lemma {:induction false} SortedUnique(a: seq<string>, b: seq<string>)
    requires Sorted(a) && Sorted(b)
    requires multiset(a) == multiset(b)
    ensures a == b
  {
    if |a| == 0 {
      assert |multiset(b)| == 0;
    } else {
      assert |b| > 0 by {
        assert a[0] in multiset(b);
      }
      assert b[0] in multiset(a) && a[0] in multiset(b);
      SortedHeadFirst(a, b[0]);
      SortedHeadFirst(b, a[0]);
      LessOrEqualAntisymmetric(a[0], b[0]);
      SortedTail(a);
      SortedTail(b);
      SortedUnique(a[1..], b[1..]);
      calc {
        a;
        [a[0]] + a[1..];
        [b[0]] + b[1..];
        b;
      }
    }
  }

  /** The result of a sort depends only on the multiset of its input. */
  lemma SortSpecPermutationInvariant(a: seq<string>, b: seq<string>)
    requires multiset(a) == multiset(b)
    ensures SortSpec(a) == SortSpec(b)
  {
    SortSpecSortsAndPermutes(a);
    SortSpecSortsAndPermutes(b);
    SortedUnique(SortSpec(a), SortSpec(b));
  }

  /** Any sorted permutation of `s` is `SortSpec(s)`. */
  lemma SortedPermutationIsSortSpec(s: seq<string>, r: seq<string>)
    requires Sorted(r) && multiset(r) == multiset(s)
    ensures r == SortSpec(s)
  {
    SortSpecSortsAndPermutes(s);
    SortedUnique(r, SortSpec(s));
  }

  /** Sorting an already sorted group changes nothing. */
  lemma SortIdempotent(s: seq<string>)
    ensures SortSpec(SortSpec(s)) == SortSpec(s)
  {
    SortSpecSortsAndPermutes(s);
    SortedPermutationIsSortSpec(SortSpec(s), SortSpec(s));
  }
}
