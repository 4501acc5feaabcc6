/** The .NET string operations the competition service relies on:
    `Char.IsWhiteSpace`, `String.Trim` and ordinal `String.LastIndexOf`. */
module Text {

  /** `Char.IsWhiteSpace`: the Unicode space, line and paragraph separators,
      the control characters U+0009 to U+000D, and U+0085. */
  predicate IsWhiteSpace(c: char)
  {
    || c == ' '
    || ('\t' <= c <= '\r')
    || c == '\U{0085}' || c == '\U{00A0}' || c == '\U{1680}'
    || ('\U{2000}' <= c <= '\U{200A}')
    || c == '\U{2028}' || c == '\U{2029}' || c == '\U{202F}'
    || c == '\U{205F}' || c == '\U{3000}'
  }

  /** Empty or made of white space only (`String.IsNullOrWhiteSpace` on a non-null string). */
  predicate IsBlank(s: string)
  {
    forall i :: 0 <= i < |s| ==> IsWhiteSpace(s[i])
  }

  /** Neither starts nor ends with white space. */
  predicate IsTrimmed(s: string)
  {
    s == [] || (!IsWhiteSpace(s[0]) && !IsWhiteSpace(s[|s| - 1]))
  }

  /** Drops the leading white space. */
  function TrimStart(s: string): (r: string)
    ensures |r| <= |s| && r == s[|s| - |r|..]
    ensures IsBlank(s[..|s| - |r|])
    ensures r != [] ==> !IsWhiteSpace(r[0])
  {
    if s != [] && IsWhiteSpace(s[0]) then TrimStart(s[1..]) else s
  }

  /** Drops the trailing white space. */
  function TrimEnd(s: string): (r: string)
    ensures |r| <= |s| && r == s[..|r|]
    ensures IsBlank(s[|r|..])
    ensures r != [] ==> !IsWhiteSpace(r[|r| - 1])
  {
    if s != [] && IsWhiteSpace(s[|s| - 1]) then TrimEnd(s[..|s| - 1]) else s
  }

  /** `String.Trim()`: removes the white space at both ends. */
  function Trim(s: string): (r: string)
    ensures IsTrimmed(r)
  {
    TrimEnd(TrimStart(s))
  }

  /** What `Trim` removes is white space at the two ends, and nothing else:
      the result is an infix of `s` with only blanks around it. */
  lemma TrimRemovesOnlyBlankEnds(s: string)
    ensures exists a :: 0 <= a <= |s| - |Trim(s)| && Trim(s) == s[a..a + |Trim(s)|]
                        && IsBlank(s[..a]) && IsBlank(s[a + |Trim(s)|..])
  {
    var t := TrimStart(s);
    var r := TrimEnd(t);
    var a := |s| - |t|;
    assert t == s[a..];
    assert r == t[..|r|];
    assert r == s[a..a + |r|];
    assert IsBlank(s[..a]);
    assert IsBlank(t[|r|..]);
    assert s[a + |r|..] == t[|r|..];
    assert Trim(s) == r;
  }

  /** Trimming leaves a string alone exactly when it is already trimmed. */
  lemma TrimFixedPoint(s: string)
    ensures Trim(s) == s <==> IsTrimmed(s)
  {
    if IsTrimmed(s) && s != [] {
      assert TrimStart(s) == s;
      assert TrimEnd(s) == s;
    }
  }

  /** The blank strings are exactly those that trim to the empty string
      (how `RequiredAttribute` decides that a string is missing). */
  lemma {:induction false} BlankIffTrimsToEmpty(s: string)
    ensures IsBlank(s) <==> Trim(s) == []
  {
    var t := TrimStart(s);
    if Trim(s) == [] {
      assert IsBlank(t[0..]);
      assert s == s[..|s| - |t|] + t;
    }
  }

  /** A string that does not start with white space loses only its tail. */
  lemma TrimNoLeadingSpace(s: string)
    requires s != [] && !IsWhiteSpace(s[0])
    ensures Trim(s) == TrimEnd(s)
  {
    assert TrimStart(s) == s;
  }

  /** Appending a space to a trimmed string and trimming gives it back. */
  lemma TrimTrailingSpace(d: string)
    requires IsTrimmed(d)
    ensures Trim(d + " ") == d
  {
    var s := d + " ";
    assert s[..|s| - 1] == d;
    if d == [] {
      assert TrimStart(s) == [];
    } else {
      assert TrimStart(s) == s;
      assert TrimEnd(s) == TrimEnd(d) == d;
    }
  }

  /** `p` occurs in `s` starting at index `i`. */
  predicate OccursAt(s: string, p: string, i: int)
  {
    0 <= i && i + |p| <= |s| && s[i..i + |p|] == p
  }

  /** `p` occurs somewhere in `s`. */
  predicate Contains(s: string, p: string)
  {
    exists i | 0 <= i <= |s| :: OccursAt(s, p, i)
  }

  /** `i` is where the last occurrence of `p` in `s` starts. */
  predicate IsLastOccurrence(s: string, p: string, i: int)
  {
    OccursAt(s, p, i) && forall j | i < j <= |s| :: !OccursAt(s, p, j)
  }

  /** A string has at most one last occurrence of a pattern. */
  lemma LastOccurrenceIsUnique(s: string, p: string, i: int)
    requires IsLastOccurrence(s, p, i)
    ensures forall j :: IsLastOccurrence(s, p, j) ==> j == i
  {
  }

  /** An occurrence that ends within the first `n` characters is one of the prefix. */
  lemma OccursInPrefix(s: string, p: string, n: int, j: int)
    requires 0 <= n <= |s| && j + |p| <= n
    ensures OccursAt(s[..n], p, j) <==> OccursAt(s, p, j)
  {
    if 0 <= j {
      assert s[..n][j..j + |p|] == s[j..j + |p|];
    }
  }

  /** Occurrences in a suffix are occurrences in the whole string, shifted. */
  lemma OccursInSuffix(s: string, p: string, i: int, j: int)
    requires 0 <= i <= |s| && 0 <= j
    ensures OccursAt(s[i..], p, j) <==> OccursAt(s, p, i + j)
  {
    if j + |p| <= |s| - i {
      assert s[i..][j..j + |p|] == s[i + j..i + j + |p|];
    }
  }

  /** Dropping the last character keeps every occurrence but one that would
      end at the very end. */
  lemma OccurrencesWithoutLast(s: string, p: string)
    requires |s| >= |p| && |s| > 0 && s[|s| - |p|..] != p
    ensures forall j :: OccursAt(s, p, j) <==> OccursAt(s[..|s| - 1], p, j)
    ensures Contains(s, p) <==> Contains(s[..|s| - 1], p)
  {
    forall j ensures OccursAt(s, p, j) <==> OccursAt(s[..|s| - 1], p, j) {
      if j + |p| <= |s| - 1 {
        OccursInPrefix(s, p, |s| - 1, j);
      } else if j + |p| == |s| {
        assert !OccursAt(s, p, j);
      }
    }
    if Contains(s, p) {
      var i :| 0 <= i <= |s| && OccursAt(s, p, i);
      assert OccursAt(s[..|s| - 1], p, i);
    }
    if Contains(s[..|s| - 1], p) {
      var i :| 0 <= i <= |s| - 1 && OccursAt(s[..|s| - 1], p, i);
      assert OccursAt(s, p, i);
    }
  }

  /** Ordinal `String.LastIndexOf(p)`: the start of the last occurrence of
      `p` in `s`, or -1 when there is none. */
  function LastIndexOf(s: string, p: string): (r: int)
    ensures r == -1 <==> !Contains(s, p)
    ensures r != -1 ==> IsLastOccurrence(s, p, r)
  {
    if |s| < |p| then -1
    else if s[|s| - |p|..] == p then
      assert OccursAt(s, p, |s| - |p|);
      |s| - |p|
    else
      OccurrencesWithoutLast(s, p);
      LastIndexOf(s[..|s| - 1], p)
  }
}
