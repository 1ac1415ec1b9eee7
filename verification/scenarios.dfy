/** Concrete runs: a line-cleaning example ("* main", "  feature-1  ", "",
    "release/1.0") and a three-branch session in which the user always
    answers "Nothing". */
module Scenarios {
  import opened Text
  import opened Git
  import opened Checks
  import opened BranchList
  import opened Driver

  // CleanAllOfFour, ConcatSingles and SessionCommandList only split the
  // concrete computations below into steps small enough for the verifier.

  lemma CleanAllOfFour(a: string, b: string, c: string, d: string)
    ensures CleanAll([a, b, c, d]) == CleanAll([a]) + CleanAll([b]) + CleanAll([c]) + CleanAll([d])
  {
    assert [a, b, c, d] == [a] + [b] + [c] + [d];
    CleanAllAppend([a] + [b] + [c], [d]);
    CleanAllAppend([a] + [b], [c]);
    CleanAllAppend([a], [b]);
  }

  lemma ConcatSingles<T>(x: seq<T>, y: seq<T>, z: seq<T>, w: seq<T>, a: T, b: T, d: T)
    requires x == [a] && y == [b] && z == [] && w == [d]
    ensures x + y + z + w == [a, b, d]
  {
  }

  lemma MarkedLineExample()
    ensures CleanAll(["* main"]) == ["main"]
  {
    assert "* main" == Marker + "main";
    CleanMarkedLine("main");
    CleanAllSingle("* main");
  }

  lemma PaddedLineExample()
    ensures CleanAll(["  feature-1  "]) == ["feature-1"]
  {
    assert "  feature-1  " == "  " + "feature-1" + "  ";
    MissingFirstChar("  feature-1  ", Marker);
    CleanPaddedLine("  ", "feature-1", "  ");
    CleanAllSingle("  feature-1  ");
  }

  lemma EmptyLineExample()
    ensures CleanAll([""]) == []
  {
    CleanAllSingle("");
  }

  lemma PlainLineExample()
    ensures CleanAll(["release/1.0"]) == ["release/1.0"]
  {
    MissingFirstChar("release/1.0", Marker);
    CleanLineKeepsPlainName("release/1.0");
    CleanAllSingle("release/1.0");
  }

  /** A listing with the current-branch marker, padding and an empty line. */
  lemma CleanAllExample()
    ensures CleanAll(["* main", "  feature-1  ", "", "release/1.0"]) == ["main", "feature-1", "release/1.0"]
  {
    MarkedLineExample();
    PaddedLineExample();
    EmptyLineExample();
    PlainLineExample();
    CleanAllOfFour("* main", "  feature-1  ", "", "release/1.0");
    ConcatSingles(CleanAll(["* main"]), CleanAll(["  feature-1  "]), CleanAll([""]), CleanAll(["release/1.0"]), "main", "feature-1", "release/1.0");
  }

  /** Three local branches, one per line. */
  const Listing: string := "A\nB\nC"

  lemma SplitListing()
    ensures Split(Listing, '\n') == ["A", "B", "C"]
  {
    assert Listing == "A" + ['\n'] + ("B" + ['\n'] + "C");
    SplitNoSeparator("C", '\n');
    SplitFirstPiece("B", '\n', "C");
    SplitFirstPiece("A", '\n', "B" + ['\n'] + "C");
  }

  lemma CleanListing()
    ensures CleanAll(["A", "B", "C"]) == ["A", "B", "C"]
  {
    var names := ["A", "B", "C"];
    forall k | 0 <= k < |names| ensures IsBranchName(names[k]) && !Contains(names[k], Marker) {
      MissingFirstChar(names[k], Marker);
    }
    CleanAllKeepsNames(names);
  }

  lemma ListingHasNoCarriageReturn()
    ensures NormalizeLineEndings(Listing) == Listing
  {
    assert '\r' !in Listing;
  }

  lemma ListingNames()
    ensures ParseBranchList(Listing) == ["A", "B", "C"]
  {
    ListingHasNoCarriageReturn();
    SplitListing();
    CleanListing();
  }

  /** The status texts of the three branches: A has lost its upstream, B has
      diverged from it, C is clean. */
  function SessionStatus(k: nat): string
  {
    if k == 0 then "Your upstream is gone"
    else if k == 1 then "Branches have diverged"
    else "nothing to commit"
  }

  /** The user answers "Nothing" at every menu. */
  function DeclineAll(k: nat, p: Prompt): string
  {
    NothingLabel
  }

  lemma GoneStatusMatches()
    ensures Contains(SessionStatus(0), "upstream is gone")
  {
    var s := SessionStatus(0);
    assert s[5..21] == "upstream is gone";
    ContainsAt(s, "upstream is gone", 5);
  }

  lemma GoneStatus()
    ensures Contains(SessionStatus(0), "upstream is gone")
    ensures !Contains(SessionStatus(0), "diverged") && !Contains(SessionStatus(0), "behind")
  {
    var s := SessionStatus(0);
    GoneStatusMatches();
    MissingFirstChar(s, "diverged");
    MissingFirstChar(s, "behind");
  }

  lemma DivergedStatus()
    ensures Contains(SessionStatus(1), "diverged")
    ensures !Contains(SessionStatus(1), "upstream is gone") && !Contains(SessionStatus(1), "behind")
  {
    var s := SessionStatus(1);
    assert s[14..22] == "diverged";
    ContainsAt(s, "diverged", 14);
    MissingFirstChar(s, "upstream is gone");
    MissingFirstChar(s, "behind");
  }

  lemma CleanStatus()
    ensures !Contains(SessionStatus(2), "upstream is gone")
    ensures !Contains(SessionStatus(2), "diverged") && !Contains(SessionStatus(2), "behind")
  {
    var s := SessionStatus(2);
    MissingFirstChar(s, "upstream is gone");
    MissingFirstChar(s, "diverged");
    MissingFirstChar(s, "behind");
  }

  /** The menus of the whole session: upstream gone for A, diverged for B. */
  lemma SessionMenus()
    ensures TriggeredByAll(["A", "B", "C"], 0, SessionStatus) == [PromptFor(UpstreamGone, "A"), PromptFor(Diverged, "B")]
  {
    GoneStatus();
    AllChecksPrompts(SessionStatus(0), "A");
    DivergedStatus();
    AllChecksPrompts(SessionStatus(1), "B");
    CleanStatus();
    AllChecksPrompts(SessionStatus(2), "C");
    var names := ["A", "B", "C"];
    assert names[1..] == ["B", "C"] && names[1..][1..] == ["C"] && names[1..][1..][1..] == [];
    assert TriggeredByAll([], 3, SessionStatus) == [];
  }

  lemma SessionInspections()
    ensures Inspections(["A", "B", "C"]) == [Checkout("A"), Status, Checkout("B"), Status, Checkout("C"), Status]
  {
    var names := ["A", "B", "C"];
    assert names[1..] == ["B", "C"] && names[1..][1..] == ["C"] && names[1..][1..][1..] == [];
  }

  lemma SessionCommandList(inspections: seq<Command>)
    requires inspections == [Checkout("A"), Status, Checkout("B"), Status, Checkout("C"), Status]
    ensures [Fetch, Prune, ListBranches] + inspections + [Checkout(Primary)]
      == [Fetch, Prune, ListBranches, Checkout("A"), Status, Checkout("B"), Status, Checkout("C"), Status, Checkout(Primary)]
  {
  }

  lemma SessionCommands()
    ensures Commands(Run(Listing, SessionStatus, DeclineAll))
      == [Fetch, Prune, ListBranches, Checkout("A"), Status, Checkout("B"), Status, Checkout("C"), Status, Checkout(Primary)]
  {
    ListingNames();
    DeclinedRunChangesNothing(Listing, SessionStatus, DeclineAll);
    SessionInspections();
    SessionCommandList(Inspections(["A", "B", "C"]));
  }

  lemma SessionPrompts()
    ensures Prompts(Run(Listing, SessionStatus, DeclineAll)) == [PromptFor(UpstreamGone, "A"), PromptFor(Diverged, "B")]
  {
    ListingNames();
    RunPrompts(Listing, SessionStatus, DeclineAll);
    SessionMenus();
  }

  /** The session fetches and prunes once, checks out and reads the status of
      A, B and C once each in that order, shows the upstream menu for A and
      the diverged menu for B and none for C, deletes, resets and pulls
      nothing, and ends on the primary branch. */
  lemma DeclinedSession()
    ensures Commands(Run(Listing, SessionStatus, DeclineAll))
      == [Fetch, Prune, ListBranches, Checkout("A"), Status, Checkout("B"), Status, Checkout("C"), Status, Checkout(Primary)]
    ensures Prompts(Run(Listing, SessionStatus, DeclineAll)) == [PromptFor(UpstreamGone, "A"), PromptFor(Diverged, "B")]
  {
    SessionCommands();
    SessionPrompts();
  }
}
