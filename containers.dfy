/**
 * The two mutable objects the writer works on: a `std::vector<std::string>`
 * holding one group of identifiers, and the output stream, whose text only
 * grows.
 */
module Containers {
  import opened StringOrder
  import opened Sorting

  /** A `std::vector<std::string>`; variables of type StringVector are
      references, so two of them can name the same storage. */
  class StringVector {
    var elems: seq<string>

    constructor ()
      ensures elems == []
    {
      elems := [];
    }

    /** `push_back`. */
    method PushBack(s: string)
      modifies this
      ensures elems == old(elems) + [s]
    {
      elems := elems + [s];
    }

    /** `*this = other`: the contents of `other` are copied over this vector's. */
    method Assign(other: StringVector)
      modifies this
      ensures elems == old(other.elems)
    {
      elems := other.elems;
    }

    /** `std::sort(begin(), end())`: sorts the elements in place by
        `operator<`, here by insertion. */
    method Sort()
      modifies this
      ensures Sorted(elems) && multiset(elems) == multiset(old(elems))
      ensures elems == SortSpec(old(elems))
    {
      var n := |elems|;
      for i := 0 to n
        invariant |elems| == n
        invariant forall k, l :: 0 <= k < l < i ==> LessOrEqual(elems[k], elems[l])
        invariant multiset(elems) == multiset(old(elems))
      {
        elems := SinkLast(elems, i);
      }
      SortedPermutationIsSortSpec(old(elems), elems);
    }
  }

  /** One insertion step: `s[i]` is swapped towards the front until it no
      longer comes before its left neighbour, so `s[..i+1]` ends up sorted. */
  method SinkLast(s: seq<string>, i: nat) returns (r: seq<string>)
    requires i < |s|
    requires forall k, l :: 0 <= k < l < i ==> LessOrEqual(s[k], s[l])
    ensures |r| == |s| && r[i + 1..] == s[i + 1..]
    ensures forall k, l :: 0 <= k < l <= i ==> LessOrEqual(r[k], r[l])
    ensures multiset(r) == multiset(s)
  {
    r := s;
    var j := i;
    while 0 < j && Less(r[j], r[j - 1])
      invariant 0 <= j <= i && |r| == |s| && r[i + 1..] == s[i + 1..]
      invariant multiset(r) == multiset(s)
      invariant forall k, l :: 0 <= k < l <= i && k != j && l != j ==> LessOrEqual(r[k], r[l])
      invariant forall l :: j < l <= i ==> LessOrEqual(r[j], r[l])
    {
      LessAsymmetric(r[j], r[j - 1]);
      ghost var prev := r;
      r := r[j - 1 := r[j]][j := r[j - 1]];
      assert r[j - 1] == prev[j] && r[j] == prev[j - 1];
      assert forall m :: 0 <= m < |r| && m != j - 1 && m != j ==> r[m] == prev[m];
      assert multiset(r) == multiset(prev);
      j := j - 1;
    }
    SinkFinished(r, i, j);
  }

  /** When the sinking element no longer comes before its left neighbour (or
      has reached the front), the first `i + 1` elements are sorted. */
  lemma SinkFinished(r: seq<string>, i: nat, j: nat)
    requires j <= i < |r|
    requires j == 0 || !Less(r[j], r[j - 1])
    requires forall k, l :: 0 <= k < l <= i && k != j && l != j ==> LessOrEqual(r[k], r[l])
    requires forall l :: j < l <= i ==> LessOrEqual(r[j], r[l])
    ensures forall k, l :: 0 <= k < l <= i ==> LessOrEqual(r[k], r[l])
  {
    forall k, l | 0 <= k < l <= i
      ensures LessOrEqual(r[k], r[l])
    {
      if l == j && k < j - 1 {
        LessOrEqualTransitive(r[k], r[j - 1], r[j]);
      }
    }
  }

  /** The output stream: writing appends, nothing is ever taken back. */
  class OutStream {
    var text: string

    constructor ()
      ensures text == ""
    {
      text := "";
    }

    /** `ofs << s`. */
    method Write(s: string)
      modifies this
      ensures text == old(text) + s
    {
      text := text + s;
    }
  }
}
