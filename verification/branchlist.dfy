/** Turning the output of `git branch` into the list of local branch names. */
module BranchList {
  import opened Text

  /** The marker `git branch` puts before the checked-out branch. */
  const Marker: string := "* "

  /** What every listed name looks like: non-empty, no whitespace at either end. */
  predicate IsBranchName(name: string)
  {
    |name| > 0 && Trimmed(name)
  }

  /** One line of the listing: the first "* " anywhere in the line is removed
      (not only a leading one), then the surrounding whitespace. */
  function CleanLine(line: string): (name: string)
    ensures Trimmed(name)
  {
    TrimSpace(ReplaceFirst(line, Marker, ""))
  }

  /** Only the leftmost marker goes; any later one stays in the name. */
  lemma CleanLineRemovesFirstMarker(line: string, i: int)
    requires IsFirstOccurrence(line, Marker, i)
    ensures CleanLine(line) == TrimSpace(line[..i] + line[i + 2..])
  {
    assert line[..i] + "" + line[i + 2..] == line[..i] + line[i + 2..];
  }

  /** A line without a marker is only trimmed. */
  lemma CleanLineWithoutMarker(line: string)
    requires !Contains(line, Marker)
    ensures CleanLine(line) == TrimSpace(line)
  {
    ReplaceFirstWithoutOccurrence(line, Marker, "");
  }

  /** A character absent from the line is absent from its name. */
  lemma CleanLineKeepsAbsent(line: string, c: char)
    requires c !in line
    ensures c !in CleanLine(line)
  {
    ReplaceFirstKeepsAbsent(line, Marker, "", c);
    TrimSpaceKeepsAbsent(ReplaceFirst(line, Marker, ""), c);
  }

  /** A line that holds no marker and no surrounding whitespace is its own name. */
  lemma CleanLineKeepsPlainName(line: string)
    requires !Contains(line, Marker) && Trimmed(line)
    ensures CleanLine(line) == line
  {
    TrimSpaceOfTrimmed(line);
    CleanLineWithoutMarker(line);
  }

  /** The marked current branch is listed under its plain name. */
  lemma CleanMarkedLine(name: string)
    requires Trimmed(name)
    ensures CleanLine(Marker + name) == name
  {
    var line := Marker + name;
    assert line[0..2] == Marker;
    CleanLineRemovesFirstMarker(line, 0);
    assert line[..0] + line[2..] == name;
    TrimSpaceOfTrimmed(name);
  }

  /** Whitespace around an unmarked name is dropped. */
  lemma CleanPaddedLine(left: string, name: string, right: string)
    requires AllSpace(left) && AllSpace(right) && Trimmed(name)
    requires !Contains(left + name + right, Marker)
    ensures CleanLine(left + name + right) == name
  {
    var line := left + name + right;
    CleanLineWithoutMarker(line);
    assert line[..|left|] == left && line[|left|..|left| + |name|] == name && line[|left| + |name|..] == right;
    assert IsCoreOf(name, line);
    TrimSpaceUnique(line, name);
  }

  /** The non-empty results of `f` over `xs`, in order. */
  function NonEmptyImages(f: string -> string, xs: seq<string>): (r: seq<string>)
    ensures |r| <= |xs|
  {
    if |xs| == 0 then
      []
    else
      (if |f(xs[0])| > 0 then [f(xs[0])] else []) + NonEmptyImages(f, xs[1..])
  }

  /** The images of a concatenation are the images of its parts, in order. */
  lemma {:induction false} NonEmptyImagesAppend(f: string -> string, a: seq<string>, b: seq<string>)
    ensures NonEmptyImages(f, a + b) == NonEmptyImages(f, a) + NonEmptyImages(f, b)
    decreases |a|
  {
    if |a| > 0 {
      assert (a + b)[0] == a[0] && (a + b)[1..] == a[1..] + b;
      NonEmptyImagesAppend(f, a[1..], b);
    } else {
      assert a + b == b;
    }
  }

  /** A string is an image exactly when it is non-empty and some element maps to it. */
  lemma {:induction false} NonEmptyImagesMembership(f: string -> string, xs: seq<string>, y: string)
    ensures y in NonEmptyImages(f, xs) <==> |y| > 0 && exists j :: 0 <= j < |xs| && f(xs[j]) == y
    decreases |xs|
  {
    if |xs| > 0 {
      NonEmptyImagesMembership(f, xs[1..], y);
      if exists j :: 0 <= j < |xs| && f(xs[j]) == y {
        var j :| 0 <= j < |xs| && f(xs[j]) == y;
        if j > 0 {
          assert xs[1..][j - 1] == xs[j];
        }
      }
      if exists j :: 0 <= j < |xs| - 1 && f(xs[1..][j]) == y {
        var j :| 0 <= j < |xs| - 1 && f(xs[1..][j]) == y;
        assert xs[j + 1] == xs[1..][j];
      }
    }
  }

  /** The names of a sequence of lines: each line cleaned, empty results
      dropped, order kept. */
  function CleanAll(lines: seq<string>): (names: seq<string>)
    ensures |names| <= |lines|
  {
    NonEmptyImages(CleanLine, lines)
  }

  /** Cleaning works line by line: the names of a concatenation are the
      names of its parts, in the same order. */
  lemma CleanAllAppend(a: seq<string>, b: seq<string>)
    ensures CleanAll(a + b) == CleanAll(a) + CleanAll(b)
  {
    NonEmptyImagesAppend(CleanLine, a, b);
  }

  /** A single line yields its name, or nothing when the name is empty. */
  lemma CleanAllSingle(line: string)
    ensures CleanAll([line]) == if |CleanLine(line)| > 0 then [CleanLine(line)] else []
  {
    assert [line][1..] == [];
  }

  /** A name is listed exactly when some line cleans to it. */
  lemma CleanAllMembership(lines: seq<string>, name: string)
    ensures name in CleanAll(lines) <==> |name| > 0 && exists j :: 0 <= j < |lines| && CleanLine(lines[j]) == name
  {
    NonEmptyImagesMembership(CleanLine, lines, name);
  }

  /** Every listed name is a branch name: non-empty and trimmed. */
  lemma CleanAllNames(lines: seq<string>)
    ensures forall k :: 0 <= k < |CleanAll(lines)| ==> IsBranchName(CleanAll(lines)[k])
  {
    var names := CleanAll(lines);
    forall k | 0 <= k < |names| ensures IsBranchName(names[k]) {
      CleanAllMembership(lines, names[k]);
    }
  }

  /** One more line adds its name, if any, at the end. */
  lemma CleanAllStep(lines: seq<string>, i: int)
    requires 0 <= i < |lines|
    ensures CleanAll(lines[..i + 1]) == CleanAll(lines[..i]) + (if |CleanLine(lines[i])| > 0 then [CleanLine(lines[i])] else [])
  {
    assert lines[..i + 1] == lines[..i] + [lines[i]];
    CleanAllAppend(lines[..i], [lines[i]]);
    CleanAllSingle(lines[i]);
  }

  /** Lines that already are plain branch names are listed unchanged. */
  lemma {:induction false} CleanAllKeepsNames(names: seq<string>)
    requires forall k :: 0 <= k < |names| ==> IsBranchName(names[k]) && !Contains(names[k], Marker)
    ensures CleanAll(names) == names
    decreases |names|
  {
    if |names| > 0 {
      CleanLineKeepsPlainName(names[0]);
      assert forall k :: 0 <= k < |names| - 1 ==> names[1..][k] == names[k + 1];
      CleanAllKeepsNames(names[1..]);
      assert names == [names[0]] + names[1..];
    }
  }

  /** cleanBranchNames, as the tool writes it: one pass appending the kept names. */
  method CleanBranchNames(lines: seq<string>) returns (ls: seq<string>)
    ensures ls == CleanAll(lines)
  {
    ls := [];
    for i := 0 to |lines|
      invariant ls == CleanAll(lines[..i])
    {
      var v := ReplaceFirst(lines[i], Marker, "");
      v := TrimSpace(v);
      CleanAllStep(lines, i);
      if |v| > 0 {
        ls := ls + [v];
      }
    }
    assert lines[..|lines|] == lines;
  }

  /** The "\r\n" line endings of a Windows listing become "\n"; no other
      character changes. */
  function NormalizeLineEndings(s: string): (r: string)
    ensures |r| <= |s|
    ensures '\r' !in s ==> r == s
  {
    if |s| >= 2 && s[0] == '\r' && s[1] == '\n' then
      "\n" + NormalizeLineEndings(s[2..])
    else if |s| == 0 then
      ""
    else
      [s[0]] + NormalizeLineEndings(s[1..])
  }

  /** The same text with Windows line endings: every "\n" becomes "\r\n". */
  function CrlfLineEndings(s: string): (r: string)
    ensures |r| == 0 || r[0] != '\n'
  {
    if |s| == 0 then ""
    else if s[0] == '\n' then "\r\n" + CrlfLineEndings(s[1..])
    else [s[0]] + CrlfLineEndings(s[1..])
  }

  /** Normalising the line endings undoes their Windows form. */
  lemma {:induction false} NormalizeUndoesCrlf(s: string)
    ensures NormalizeLineEndings(CrlfLineEndings(s)) == s
    decreases |s|
  {
    if |s| > 0 {
      NormalizeUndoesCrlf(s[1..]);
      var t := CrlfLineEndings(s);
      if s[0] == '\n' {
        assert t[2..] == CrlfLineEndings(s[1..]);
      } else {
        assert t[1..] == CrlfLineEndings(s[1..]);
      }
      assert s == [s[0]] + s[1..];
    }
  }

  /** The pure part of `branches`: normalise line endings, split into lines,
      clean the lines. No listed name spans two lines. */
  function ParseBranchList(text: string): (names: seq<string>)
    ensures forall k :: 0 <= k < |names| ==> IsBranchName(names[k]) && '\n' !in names[k]
  {
    var lines := Split(NormalizeLineEndings(text), '\n');
    var names := CleanAll(lines);
    CleanAllNames(lines);
    assert forall k :: 0 <= k < |names| ==> '\n' !in names[k] by {
      forall k | 0 <= k < |names| ensures '\n' !in names[k] {
        CleanAllMembership(lines, names[k]);
        var j :| 0 <= j < |lines| && CleanLine(lines[j]) == names[k];
        CleanLineKeepsAbsent(lines[j], '\n');
      }
    }
    names
  }

  /** A listing with Windows line endings names the same branches. */
  lemma CrlfListingSameNames(text: string)
    requires '\r' !in text
    ensures ParseBranchList(CrlfLineEndings(text)) == ParseBranchList(text)
  {
    NormalizeUndoesCrlf(text);
  }

}
