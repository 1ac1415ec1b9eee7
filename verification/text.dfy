/** Models of the few routines of Go's `strings` and `unicode` packages that the
    tool relies on. Text is a sequence of Unicode scalar values (`string`). */
module Text {

  /** `pat` occurs in `s` starting at position `i`. */
  predicate OccursAt(s: string, pat: string, i: int)
  {
    0 <= i && i + |pat| <= |s| && s[i..i + |pat|] == pat
  }

  /** `pat` occurs somewhere in `s`. A regular expression made only of plain
      literal characters matches exactly the texts that contain it. */
  ghost predicate Contains(s: string, pat: string)
  {
    exists i :: OccursAt(s, pat, i)
  }

  /** `i` is the leftmost position at which `pat` occurs in `s`. */
  predicate IsFirstOccurrence(s: string, pat: string, i: int)
  {
    OccursAt(s, pat, i) && forall j :: 0 <= j < i ==> !OccursAt(s, pat, j)
  }

  /** A text that lacks the first character of a non-empty pattern does not
      contain the pattern. */
  lemma MissingFirstChar(s: string, pat: string)
    requires |pat| > 0 && pat[0] !in s
    ensures !Contains(s, pat)
  {
    forall i | 0 <= i && i + |pat| <= |s| ensures !OccursAt(s, pat, i) {
      assert s[i..i + |pat|][0] == s[i];
    }
  }

  /** An occurrence found at a known position. */
  lemma ContainsAt(s: string, pat: string, i: int)
    requires OccursAt(s, pat, i)
    ensures Contains(s, pat)
  {
  }

  lemma OccursAtTail(s: string, pat: string, j: int)
    requires |s| > 0 && 0 <= j
    ensures OccursAt(s[1..], pat, j) <==> OccursAt(s, pat, j + 1)
  {
    if 0 <= j && j + |pat| <= |s| - 1 {
      assert s[1..][j..j + |pat|] == s[j + 1..j + 1 + |pat|];
    }
  }

  /** Past a non-matching first position, the first occurrence moves one step left. */
  lemma FirstOccurrenceTail(s: string, pat: string, i: int)
    requires IsFirstOccurrence(s, pat, i) && !OccursAt(s, pat, 0)
    ensures 1 <= i && IsFirstOccurrence(s[1..], pat, i - 1)
  {
    OccursAtTail(s, pat, i - 1);
    forall j | 0 <= j < i - 1 ensures !OccursAt(s[1..], pat, j) {
      OccursAtTail(s, pat, j);
    }
  }

  /** strings.Index: the position of the first occurrence of `pat`, or -1. */
  function Index(s: string, pat: string): (r: int)
    ensures r == -1 || 0 <= r
    ensures r == -1 <==> !Contains(s, pat)
    ensures 0 <= r ==> IsFirstOccurrence(s, pat, r)
    decreases |s|
  {
    if |s| < |pat| then
      -1
    else if s[..|pat|] == pat then
      assert OccursAt(s, pat, 0);
      0
    else
      var k := Index(s[1..], pat);
      assert !OccursAt(s, pat, 0);
      assert forall j :: 0 <= j ==> (OccursAt(s[1..], pat, j) <==> OccursAt(s, pat, j + 1)) by {
        forall j | 0 <= j ensures OccursAt(s[1..], pat, j) <==> OccursAt(s, pat, j + 1) {
          OccursAtTail(s, pat, j);
        }
      }
      if k < 0 then
        assert forall i :: !OccursAt(s, pat, i) by {
          forall i ensures !OccursAt(s, pat, i) {
            if 1 <= i {
              assert !OccursAt(s[1..], pat, i - 1);
            }
          }
        }
        -1
      else
        assert OccursAt(s, pat, k + 1);
        assert forall j :: 1 <= j < k + 1 ==> !OccursAt(s, pat, j) by {
          forall j | 1 <= j < k + 1 ensures !OccursAt(s, pat, j) {
            assert !OccursAt(s[1..], pat, j - 1);
          }
        }
        k + 1
  }

  /** strings.Replace(s, pat, rep, 1): the first occurrence of `pat`, and only
      that one, is replaced by `rep`; an empty `pat` occurs at the start. */
  function ReplaceFirst(s: string, pat: string, rep: string): (r: string)
    ensures forall i :: IsFirstOccurrence(s, pat, i) ==> r == s[..i] + rep + s[i + |pat|..]
    decreases |s|
  {
    if |s| < |pat| then
      s
    else if s[..|pat|] == pat then
      assert OccursAt(s, pat, 0);
      rep + s[|pat|..]
    else
      var r := [s[0]] + ReplaceFirst(s[1..], pat, rep);
      assert forall i :: IsFirstOccurrence(s, pat, i) ==> r == s[..i] + rep + s[i + |pat|..] by {
        forall i | IsFirstOccurrence(s, pat, i) ensures r == s[..i] + rep + s[i + |pat|..] {
          FirstOccurrenceTail(s, pat, i);
          assert s[1..][..i - 1] == s[1..i] && s[1..][i - 1 + |pat|..] == s[i + |pat|..];
          assert s[..i] == [s[0]] + s[1..i];
        }
      }
      r
  }

  /** Without an occurrence nothing is replaced. */
  lemma {:induction false} ReplaceFirstWithoutOccurrence(s: string, pat: string, rep: string)
    requires !Contains(s, pat)
    ensures ReplaceFirst(s, pat, rep) == s
    decreases |s|
  {
    if |s| >= |pat| {
      assert !OccursAt(s, pat, 0);
      assert !Contains(s[1..], pat) by {
        forall j | 0 <= j ensures !OccursAt(s[1..], pat, j) {
          OccursAtTail(s, pat, j);
        }
      }
      ReplaceFirstWithoutOccurrence(s[1..], pat, rep);
      assert s == [s[0]] + s[1..];
    }
  }

  /** A character absent from the text and from the replacement is absent from the result. */
  lemma {:induction false} ReplaceFirstKeepsAbsent(s: string, pat: string, rep: string, c: char)
    requires c !in s && c !in rep
    ensures c !in ReplaceFirst(s, pat, rep)
    decreases |s|
  {
    if |s| >= |pat| {
      if s[..|pat|] == pat {
        assert forall k :: |pat| <= k < |s| ==> s[|pat|..][k - |pat|] == s[k];
      } else {
        assert c !in s[1..];
        ReplaceFirstKeepsAbsent(s[1..], pat, rep, c);
      }
    }
  }

  /** unicode.IsSpace: the characters Go's strings.TrimSpace removes. */
  predicate IsSpace(c: char)
  {
    || ('\t' <= c <= '\r')  // tab, line feed, vertical tab, form feed, carriage return
    || c == ' '
    || c == '\U{0085}' || c == '\U{00A0}' || c == '\U{1680}'
    || ('\U{2000}' <= c <= '\U{200A}')
    || c == '\U{2028}' || c == '\U{2029}' || c == '\U{202F}' || c == '\U{205F}'
    || c == '\U{3000}'
  }

  predicate AllSpace(s: string)
  {
    forall k :: 0 <= k < |s| ==> IsSpace(s[k])
  }

  /** Neither end of `s` is whitespace. */
  predicate Trimmed(s: string)
  {
    |s| == 0 || (!IsSpace(s[0]) && !IsSpace(s[|s| - 1]))
  }

  /** `r` is `s` with some whitespace removed from both ends. */
  ghost predicate IsCoreOf(r: string, s: string)
  {
    exists i, j :: 0 <= i <= j <= |s| && r == s[i..j] && AllSpace(s[..i]) && AllSpace(s[j..])
  }

  /** The number of whitespace characters `s` starts with. */
  function LeadingSpace(s: string): (n: nat)
    ensures n <= |s| && AllSpace(s[..n])
    ensures n == |s| || !IsSpace(s[n])
  {
    if |s| > 0 && IsSpace(s[0]) then
      var n := 1 + LeadingSpace(s[1..]);
      assert forall k :: 1 <= k < n ==> s[k] == s[1..][k - 1];
      n
    else 0
  }

  /** The length of `s` without the whitespace it ends with. */
  function TrailingEnd(s: string): (n: nat)
    ensures n <= |s| && AllSpace(s[n..])
    ensures n == 0 || !IsSpace(s[n - 1])
  {
    if |s| > 0 && IsSpace(s[|s| - 1]) then
      var n := TrailingEnd(s[..|s| - 1]);
      assert forall k :: n <= k < |s| - 1 ==> s[k] == s[..|s| - 1][k];
      n
    else |s|
  }

  /** strings.TrimSpace: the start moves past the leading whitespace, the end
      moves back over the trailing whitespace, never before the start. */
  function TrimSpace(s: string): (r: string)
    ensures Trimmed(r)
  {
    var i := LeadingSpace(s);
    var j := TrailingEnd(s[i..]);
    assert j == 0 || s[i..][j - 1] == s[i + j - 1];
    s[i..i + j]
  }

  lemma AllSpaceSlice(s: string, i: int, j: int)
    requires 0 <= i <= j <= |s| && AllSpace(s[i..j])
    ensures forall k :: i <= k < j ==> IsSpace(s[k])
  {
    forall k | i <= k < j ensures IsSpace(s[k]) {
      assert s[i..j][k - i] == s[k];
    }
  }

  /** What TrimSpace keeps is a slice of the text with only whitespace around it. */
  lemma TrimSpaceIsCore(s: string)
    ensures IsCoreOf(TrimSpace(s), s)
  {
    var i := LeadingSpace(s);
    var n := TrailingEnd(s[i..]);
    CoreWitness(s, i, i + n);
  }

  /** The slice between `i` and `j` is a core when only whitespace surrounds it. */
  lemma CoreWitness(s: string, i: int, j: int)
    requires 0 <= i <= j <= |s| && AllSpace(s[..i]) && AllSpace(s[i..][j - i..])
    ensures IsCoreOf(s[i..j], s)
  {
    assert s[i..][j - i..] == s[j..];
  }

  /** A character absent from the text is absent from its trimmed core. */
  lemma TrimSpaceKeepsAbsent(s: string, c: char)
    requires c !in s
    ensures c !in TrimSpace(s)
  {
    var i := LeadingSpace(s);
    var j := i + TrailingEnd(s[i..]);
    assert forall k :: 0 <= k < j - i ==> s[i..j][k] == s[i + k];
  }

  /** Any whitespace prefix that stops at a non-space is the one LeadingSpace counts. */
  lemma LeadingSpaceUnique(s: string, i: int)
    requires 0 <= i <= |s| && AllSpace(s[..i])
    requires i == |s| || !IsSpace(s[i])
    ensures LeadingSpace(s) == i
  {
    var n := LeadingSpace(s);
    assert s[..n] == s[0..n] && s[..i] == s[0..i];
    AllSpaceSlice(s, 0, n);
    AllSpaceSlice(s, 0, i);
  }

  /** Any whitespace suffix that starts after a non-space is the one TrailingEnd cuts. */
  lemma TrailingEndUnique(s: string, j: int)
    requires 0 <= j <= |s| && AllSpace(s[j..])
    requires j == 0 || !IsSpace(s[j - 1])
    ensures TrailingEnd(s) == j
  {
    var n := TrailingEnd(s);
    assert s[n..] == s[n..|s|] && s[j..] == s[j..|s|];
    AllSpaceSlice(s, n, |s|);
    AllSpaceSlice(s, j, |s|);
  }

  /** The whitespace-trimmed core of a text is unique: TrimSpace computes it. */
  lemma TrimSpaceUnique(s: string, r: string)
    requires Trimmed(r) && IsCoreOf(r, s)
    ensures TrimSpace(s) == r
  {
    var i, j :| 0 <= i <= j <= |s| && r == s[i..j] && AllSpace(s[..i]) && AllSpace(s[j..]);
    TrimmedSliceIsTrimSpace(s, i, j);
  }

  lemma TrimmedSliceIsTrimSpace(s: string, i: int, j: int)
    requires 0 <= i <= j <= |s| && AllSpace(s[..i]) && AllSpace(s[j..])
    requires Trimmed(s[i..j])
    ensures TrimSpace(s) == s[i..j]
  {
    if i == j {
      SpaceAroundEmptyCore(s, i);
    } else {
      assert s[i..j][0] == s[i] && s[i..j][j - i - 1] == s[j - 1];
      SpaceAroundCore(s, i, j);
    }
  }

  /** Whitespace before `i` and from `j` on, non-space at both ends of the
      slice between: that slice is the trimmed text. */
  lemma SpaceAroundCore(s: string, i: int, j: int)
    requires 0 <= i < j <= |s| && AllSpace(s[..i]) && AllSpace(s[j..])
    requires !IsSpace(s[i]) && !IsSpace(s[j - 1])
    ensures TrimSpace(s) == s[i..j]
  {
    LeadingSpaceUnique(s, i);
    assert s[i..][j - i..] == s[j..] && s[i..][j - i - 1] == s[j - 1];
    TrailingEndUnique(s[i..], j - i);
  }

  /** A text that is whitespace before and after some position trims to nothing. */
  lemma SpaceAroundEmptyCore(s: string, i: int)
    requires 0 <= i <= |s| && AllSpace(s[..i]) && AllSpace(s[i..])
    ensures TrimSpace(s) == []
  {
    assert s[..i] == s[0..i] && s[i..] == s[i..|s|];
    AllSpaceSlice(s, 0, i);
    AllSpaceSlice(s, i, |s|);
    assert AllSpace(s[..|s|]) by {
      forall k | 0 <= k < |s| ensures IsSpace(s[..|s|][k]) {
        assert s[..|s|][k] == s[k];
      }
    }
    LeadingSpaceUnique(s, |s|);
  }

  /** A text without surrounding whitespace is left as it is. */
  lemma TrimSpaceOfTrimmed(s: string)
    requires Trimmed(s)
    ensures TrimSpace(s) == s
  {
    assert s == s[0..|s|] && s[..0] == [] && s[|s|..] == [];
    assert IsCoreOf(s, s);
    TrimSpaceUnique(s, s);
  }

  /** Trimming twice is trimming once. */
  lemma TrimSpaceIdempotent(s: string)
    ensures TrimSpace(TrimSpace(s)) == TrimSpace(s)
  {
    TrimSpaceOfTrimmed(TrimSpace(s));
  }

  /** strings.Split(s, [sep]): the pieces between the separators, in order;
      there is always one more piece than separators. */
  function Split(s: string, sep: char): (r: seq<string>)
    ensures |r| >= 1
    ensures forall k :: 0 <= k < |r| ==> sep !in r[k]
    ensures Join(r, sep) == s
  {
    if |s| == 0 then
      [""]
    else
      var rest := Split(s[1..], sep);
      if s[0] == sep then
        assert s == [sep] + s[1..];
        [""] + rest
      else
        var r := [[s[0]] + rest[0]] + rest[1..];
        assert r[1..] == rest[1..];
        assert s == [s[0]] + s[1..];
        r
  }

  /** strings.Join(parts, [sep]): the pieces with `sep` between neighbours. */
  function Join(parts: seq<string>, sep: char): string
  {
    if |parts| == 0 then ""
    else if |parts| == 1 then parts[0]
    else parts[0] + [sep] + Join(parts[1..], sep)
  }

  lemma {:induction false} SplitNoSeparator(a: string, sep: char)
    requires sep !in a
    ensures Split(a, sep) == [a]
    decreases |a|
  {
    if |a| > 0 {
      SplitNoSeparator(a[1..], sep);
      assert a == [a[0]] + a[1..];
    }
  }

  lemma {:induction false} SplitFirstPiece(a: string, sep: char, b: string)
    requires sep !in a
    ensures Split(a + [sep] + b, sep) == [a] + Split(b, sep)
    decreases |a|
  {
    var s := a + [sep] + b;
    if |a| == 0 {
      assert s == [sep] + b;
      assert s[1..] == b;
    } else {
      assert s[1..] == a[1..] + [sep] + b;
      SplitFirstPiece(a[1..], sep, b);
      assert a == [a[0]] + a[1..];
    }
  }

  /** Split undoes Join when no piece holds the separator. */
  lemma {:induction false} SplitJoin(parts: seq<string>, sep: char)
    requires |parts| >= 1
    requires forall k :: 0 <= k < |parts| ==> sep !in parts[k]
    ensures Split(Join(parts, sep), sep) == parts
    decreases |parts|
  {
    if |parts| == 1 {
      SplitNoSeparator(parts[0], sep);
    } else {
      SplitJoin(parts[1..], sep);
      SplitFirstPiece(parts[0], sep, Join(parts[1..], sep));
      assert parts == [parts[0]] + parts[1..];
    }
  }
}
