/**
 * How a group of identifiers is laid out in one layer of the output: the
 * members in order with a separator between neighbours and nowhere else.
 * `SplitGroup` is the inverse used to show that nothing is lost.
 */
module Joining {

  /** The group written with `sep` before every member but the first. */
  function Join(items: seq<string>, sep: char): string
  {
    if |items| == 0 then ""
    else if |items| == 1 then items[0]
    else Join(items[..|items| - 1], sep) + [sep] + items[|items| - 1]
  }

  /** Number of occurrences of `c` in `s`. */
  function Count(s: string, c: char): nat
  {
    if |s| == 0 then 0 else (if s[0] == c then 1 else 0) + Count(s[1..], c)
  }

  /** The pieces of `s` between occurrences of `c`, the first one continuing
      `piece` (always at least one piece). */
  function SplitFrom(s: string, c: char, piece: string): seq<string>
  {
    if |s| == 0 then [piece]
    else if s[0] == c then [piece] + SplitFrom(s[1..], c, "")
    else SplitFrom(s[1..], c, piece + [s[0]])
  }

  function SplitAt(s: string, c: char): seq<string>
  {
    SplitFrom(s, c, "")
  }

  /** A layer read back as its members; the empty layer is the empty group. */
  function SplitGroup(s: string, sep: char): seq<string>
  {
    if s == "" then [] else SplitAt(s, sep)
  }

  /** Every member is non-empty and free of `c`. */
  predicate Plain(items: seq<string>, c: char)
  {
    forall i :: 0 <= i < |items| ==> items[i] != "" && c !in items[i]
  }

  lemma {:induction false} CountConcat(a: string, b: string, c: char)
    ensures Count(a + b, c) == Count(a, c) + Count(b, c)
  {
    if |a| == 0 {
      assert a + b == b;
    } else {
      assert (a + b)[1..] == a[1..] + b;
      CountConcat(a[1..], b, c);
    }
  }

  lemma {:induction false} CountAbsent(s: string, c: char)
    requires c !in s
    ensures Count(s, c) == 0
  {
    if |s| > 0 {
      assert s == [s[0]] + s[1..];
      CountAbsent(s[1..], c);
    }
  }

  /** A group of N separator-free members carries N - 1 separators (none when N <= 1). */
  lemma {:induction false} JoinSeparatorCount(items: seq<string>, sep: char)
    requires forall i :: 0 <= i < |items| ==> sep !in items[i]
    ensures Count(Join(items, sep), sep) == if |items| == 0 then 0 else |items| - 1
  {
    if |items| == 1 {
      CountAbsent(items[0], sep);
    } else if |items| > 1 {
      var init, last := items[..|items| - 1], items[|items| - 1];
      JoinSeparatorCount(init, sep);
      CountConcat(Join(init, sep) + [sep], last, sep);
      CountConcat(Join(init, sep), [sep], sep);
      CountAbsent(last, sep);
      assert Count([sep], sep) == 1 + Count([], sep);
    }
  }

  lemma {:induction false} SplitFromAbsent(s: string, c: char, piece: string)
    requires c !in s
    ensures SplitFrom(s, c, piece) == [piece + s]
  {
    if |s| == 0 {
      assert piece + s == piece;
    } else {
      assert s == [s[0]] + s[1..];
      SplitFromAbsent(s[1..], c, piece + [s[0]]);
      assert piece + [s[0]] + s[1..] == piece + s;
    }
  }

  lemma SplitAtAbsent(s: string, c: char)
    requires c !in s
    ensures SplitAt(s, c) == [s]
  {
    SplitFromAbsent(s, c, "");
    assert "" + s == s;
  }

  lemma {:induction false} SplitFromConcat(x: string, y: string, c: char, piece: string)
    ensures SplitFrom(x + [c] + y, c, piece) == SplitFrom(x, c, piece) + SplitAt(y, c)
  {
    var s := x + [c] + y;
    if |x| == 0 {
      assert s[0] == c && s[1..] == y;
    } else {
      assert s[0] == x[0] && s[1..] == x[1..] + [c] + y;
      if x[0] == c {
        SplitFromConcat(x[1..], y, c, "");
      } else {
        SplitFromConcat(x[1..], y, c, piece + [x[0]]);
      }
    }
  }

  /** Splitting distributes over a separator placed between two strings. */
  lemma SplitAtConcat(x: string, y: string, c: char)
    ensures SplitAt(x + [c] + y, c) == SplitAt(x, c) + SplitAt(y, c)
  {
    SplitFromConcat(x, y, c, "");
  }

  /** Reading a layer back gives exactly the group that was joined. */
  lemma {:induction false} SplitJoin(items: seq<string>, sep: char)
    requires Plain(items, sep)
    ensures SplitGroup(Join(items, sep), sep) == items
  {
    if |items| == 1 {
      SplitAtAbsent(items[0], sep);
    } else if |items| > 1 {
      var init, last := items[..|items| - 1], items[|items| - 1];
      SplitJoin(init, sep);
      SplitAtConcat(Join(init, sep), last, sep);
      SplitAtAbsent(last, sep);
      assert Join(init, sep) != "" by {
        JoinNonEmpty(init, sep);
      }
      assert items == init + [last];
    }
  }

  lemma {:induction false} JoinNonEmpty(items: seq<string>, sep: char)
    requires |items| > 0 && Plain(items, sep)
    ensures Join(items, sep) != ""
  {
    if |items| > 1 {
      assert |Join(items, sep)| >= 1 + |items[|items| - 1]|;
    }
  }

  /** A character that is in no member and is not the separator is not in the layer. */
  lemma {:induction false} JoinExcludes(items: seq<string>, sep: char, c: char)
    requires c != sep
    requires forall i :: 0 <= i < |items| ==> c !in items[i]
    ensures c !in Join(items, sep)
  {
    if |items| > 1 {
      JoinExcludes(items[..|items| - 1], sep, c);
    }
  }
}
