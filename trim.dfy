/**
 * `TrimInChI`: the body of a standard InChI, taken from the text the InChI
 * generator printed. The text is read through its C-string pointer, so the
 * terminating NUL after the last character is modelled by `CharAt`.
 */
module InChITrim {

  const InChIPrefix: string := "InChI=1S/"

  /** `strncmp(inchi, "InChI=1S/", 9) == 0`: the prefix holds no NUL, so a
      shorter text or an embedded NUL is a mismatch. */
  predicate HasInChIPrefix(s: string)
  {
    |s| >= |InChIPrefix| && s[..|InChIPrefix|] == InChIPrefix
  }

  /** A prefixed text other than the bare prefix has a character at offset 9. */
  lemma PrefixedTextIsLonger(s: string)
    requires HasInChIPrefix(s) && s != InChIPrefix
    ensures |s| > |InChIPrefix|
  {
    assert |s| != |InChIPrefix| by {
      assert s[..|s|] == s;
    }
  }

  predicate IsLineEnd(ch: char)
  {
    ch == '\n' || ch == '\0'
  }

  /** `*p` for a pointer `i` characters into the C string of `s`. */
  function CharAt(s: string, i: nat): char
  {
    if i < |s| then s[i] else '\0'
  }

  /** The characters of `s` before its first line end or NUL. */
  function TakeLine(s: string): string
  {
    if |s| == 0 || IsLineEnd(s[0]) then "" else [s[0]] + TakeLine(s[1..])
  }

  /** The character at offset 9 always, then the rest of its line. */
  function Trim(inchi: string): string
    requires |inchi| > |InChIPrefix|
  {
    [inchi[9]] + TakeLine(inchi[10..])
  }

  /** `r` is the longest prefix of `s` without a line end. */
  predicate IsFirstLine(s: string, r: string)
  {
    && |r| <= |s| && r == s[..|r|]
    && (forall k :: 0 <= k < |r| ==> !IsLineEnd(r[k]))
    && (|r| == |s| || IsLineEnd(s[|r|]))
  }

  /** What `TrimInChI` returns, stated on the input: the characters from
      offset 9 up to, not including, the first line end or NUL after offset 9. */
  predicate IsTrimOf(inchi: string, t: string)
    requires |inchi| > |InChIPrefix|
  {
    && |t| >= 1 && 9 + |t| <= |inchi| && t == inchi[9..9 + |t|]
    && (forall k :: 1 <= k < |t| ==> !IsLineEnd(t[k]))
    && (9 + |t| == |inchi| || IsLineEnd(inchi[9 + |t|]))
  }

  lemma {:induction false} TakeLineIsFirstLine(s: string)
    ensures IsFirstLine(s, TakeLine(s))
  {
    if |s| > 0 && !IsLineEnd(s[0]) {
      TakeLineIsFirstLine(s[1..]);
    }
  }

  lemma FirstLineUnique(s: string, r1: string, r2: string)
    requires IsFirstLine(s, r1) && IsFirstLine(s, r2)
    ensures r1 == r2
  {
  }

  /** `Trim` is exactly the characterisation `IsTrimOf`, in both directions. */
  lemma TrimCharacterization(inchi: string, t: string)
    requires |inchi| > |InChIPrefix|
    ensures IsTrimOf(inchi, t) <==> t == Trim(inchi)
  {
    var rest := inchi[10..];
    TakeLineIsFirstLine(rest);
    var line := TakeLine(rest);
    assert inchi[9..9 + |Trim(inchi)|] == [inchi[9]] + rest[..|line|];
    if IsTrimOf(inchi, t) {
      assert IsFirstLine(rest, t[1..]) by {
        assert t[1..] == rest[..|t| - 1];
        forall k | 0 <= k < |t[1..]| ensures !IsLineEnd(t[1..][k]) {
          assert t[1..][k] == t[k + 1];
        }
      }
      FirstLineUnique(rest, t[1..], line);
      assert t == [t[0]] + t[1..];
    }
  }

  /** The pointer walk of `TrimInChI`: copy `*p`, advance, stop before a line
      end or NUL. The first character is copied before any test. */
  method TrimInChI(inchi: string) returns (trimmed: string)
    requires |inchi| > |InChIPrefix|
    ensures IsTrimOf(inchi, trimmed)
    ensures trimmed == Trim(inchi)
  {
    trimmed := "";
    var p := 9;
    while true
      invariant 9 <= p < |inchi|
      invariant trimmed == inchi[9..p]
      invariant forall k :: 10 <= k <= p ==> !IsLineEnd(inchi[k])
      decreases |inchi| - p
    {
      trimmed := trimmed + [CharAt(inchi, p)];
      p := p + 1;
      if IsLineEnd(CharAt(inchi, p)) {
        break;
      }
    }
    assert forall k :: 1 <= k < |trimmed| ==> trimmed[k] == inchi[9 + k];
    TrimCharacterization(inchi, trimmed);
  }
}
