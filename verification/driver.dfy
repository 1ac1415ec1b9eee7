/** The tool's main routine as a trace of events. The output of `git branch`,
    the output of `git status` for each visited branch and the user's answers
    are inputs; everything else follows from them. */
module Driver {
  import opened Text
  import opened Git
  import opened Checks
  import opened BranchList

  /** One step of a run: a git invocation, or a menu with the user's answer. */
  datatype Event = Exec(cmd: Command) | Ask(prompt: Prompt, answer: string)

  function ExecAll(cmds: seq<Command>): (r: seq<Event>)
    ensures |r| == |cmds|
    ensures forall k :: 0 <= k < |r| ==> r[k] == Exec(cmds[k])
  {
    if |cmds| == 0 then [] else [Exec(cmds[0])] + ExecAll(cmds[1..])
  }

  /** The git invocations of a trace, in order. */
  function Commands(t: seq<Event>): seq<Command>
  {
    if |t| == 0 then []
    else (if t[0].Exec? then [t[0].cmd] else []) + Commands(t[1..])
  }

  /** The menus shown in a trace, in order. */
  function Prompts(t: seq<Event>): seq<Prompt>
  {
    if |t| == 0 then []
    else (if t[0].Ask? then [t[0].prompt] else []) + Prompts(t[1..])
  }

  lemma {:induction false} CommandsAppend(a: seq<Event>, b: seq<Event>)
    ensures Commands(a + b) == Commands(a) + Commands(b)
    decreases |a|
  {
    if |a| == 0 {
      assert a + b == b;
    } else {
      assert (a + b)[1..] == a[1..] + b;
      CommandsAppend(a[1..], b);
    }
  }

  lemma {:induction false} PromptsAppend(a: seq<Event>, b: seq<Event>)
    ensures Prompts(a + b) == Prompts(a) + Prompts(b)
    decreases |a|
  {
    if |a| == 0 {
      assert a + b == b;
    } else {
      assert (a + b)[0] == a[0] && (a + b)[1..] == a[1..] + b;
      PromptsAppend(a[1..], b);
      assert Prompts(a + b) == (if a[0].Ask? then [a[0].prompt] else []) + Prompts(a[1..] + b);
    }
  }

  lemma {:induction false} ExecAllCommands(cmds: seq<Command>)
    ensures Commands(ExecAll(cmds)) == cmds && Prompts(ExecAll(cmds)) == []
    decreases |cmds|
  {
    if |cmds| > 0 {
      ExecAllCommands(cmds[1..]);
      assert ExecAll(cmds)[1..] == ExecAll(cmds[1..]);
    }
  }

  /** The events of one check: its menu with the answer the user gives to it,
      then the commands that answer selects. */
  function CheckEvents(c: Check, status: string, branch: string, answer: Prompt -> string): (t: seq<Event>)
    ensures t == [] <==> !Contains(status, Phrase(c))
    ensures t != [] ==> t == [Ask(PromptFor(c, branch), answer(PromptFor(c, branch)))]
                              + ExecAll(Remedy(c, branch, answer(PromptFor(c, branch))))
  {
    match Decide(c, status, branch, answer(PromptFor(c, branch)))
    case NoPrompt => []
    case Prompted(p, cmds) => [Ask(p, answer(p))] + ExecAll(cmds)
  }

  /** The checks of `cs`, one after the other, on the same status text. */
  function ChecksEvents(cs: seq<Check>, status: string, branch: string, answer: Prompt -> string): seq<Event>
    decreases |cs|
  {
    if |cs| == 0 then []
    else CheckEvents(cs[0], status, branch, answer) + ChecksEvents(cs[1..], status, branch, answer)
  }

  /** One iteration of the main loop: check out the branch, read its status,
      then run the three checks in their fixed order. */
  function InspectBranch(branch: string, status: string, answer: Prompt -> string): seq<Event>
  {
    [Exec(Checkout(branch)), Exec(Status)] + ChecksEvents(AllChecks, status, branch, answer)
  }

  /** The main loop over the listed branches; `from` is the position of the
      first of them in the whole list, which indexes the oracles. */
  function InspectAll(names: seq<string>, from: nat, status: nat -> string, answer: (nat, Prompt) -> string): seq<Event>
    decreases |names|
  {
    if |names| == 0 then []
    else
      InspectBranch(names[0], status(from), p => answer(from, p))
      + InspectAll(names[1..], from + 1, status, answer)
  }

  /** main: fetch, prune, list the branches, inspect each one, and return to
      the primary branch. `status(k)` is the status text seen for the k-th
      listed branch and `answer(k, p)` the label picked at menu `p` for it. */
  function Run(listing: string, status: nat -> string, answer: (nat, Prompt) -> string): (t: seq<Event>)
    ensures |t| >= 4
    ensures t[..3] == [Exec(Fetch), Exec(Prune), Exec(ListBranches)]
    ensures t[|t| - 1] == Exec(Checkout(Primary))
  {
    var body := InspectAll(ParseBranchList(listing), 0, status, answer);
    Framed(body)
  }

  /** The loop's events between the syncing commands and the final checkout. */
  function Framed(body: seq<Event>): (t: seq<Event>)
    ensures |t| == |body| + 4
    ensures t[..3] == [Exec(Fetch), Exec(Prune), Exec(ListBranches)]
    ensures t[3..|t| - 1] == body
    ensures t[|t| - 1] == Exec(Checkout(Primary))
  {
    [Exec(Fetch), Exec(Prune), Exec(ListBranches)] + body + [Exec(Checkout(Primary))]
  }

  /** Choosing to delete a branch whose upstream is gone shows the menu, then
      moves to the primary branch, then force-deletes the branch. */
  lemma DeleteChoiceEvents(status: string, branch: string, answer: Prompt -> string)
    requires Contains(status, Phrase(UpstreamGone))
    requires answer(PromptFor(UpstreamGone, branch)) == DeleteLabel(branch)
    ensures CheckEvents(UpstreamGone, status, branch, answer)
      == [Ask(PromptFor(UpstreamGone, branch), DeleteLabel(branch)), Exec(Checkout(Primary)), Exec(DeleteBranch(branch))]
  {
    RemedyOfEachOption(branch);
  }

  // ---------------------------------------------------------------------
  // Which branches a run visits

  /** The branches a trace inspects: those checked out with a status read
      right after. */
  function Inspected(t: seq<Event>): seq<string>
    decreases |t|
  {
    if |t| < 2 then []
    else if t[0].Exec? && t[0].cmd.Checkout? && t[1] == Exec(Status) then
      [t[0].cmd.branch] + Inspected(t[2..])
    else
      Inspected(t[1..])
  }

  predicate EndsWithCheckout(t: seq<Event>)
  {
    |t| > 0 && t[|t| - 1].Exec? && t[|t| - 1].cmd.Checkout?
  }

  lemma {:induction false} InspectedAppend(a: seq<Event>, b: seq<Event>)
    requires !EndsWithCheckout(a)
    ensures Inspected(a + b) == Inspected(a) + Inspected(b)
    decreases |a|
  {
    if |a| == 0 {
      assert a + b == b;
    } else if |a| == 1 {
      assert (a + b)[1..] == b;
    } else if a[0].Exec? && a[0].cmd.Checkout? && a[1] == Exec(Status) {
      assert (a + b)[2..] == a[2..] + b;
      if |a| > 2 {
        assert a[2..][|a| - 3] == a[|a| - 1];
      }
      InspectedAppend(a[2..], b);
    } else {
      assert (a + b)[1..] == a[1..] + b;
      assert a[1..][|a| - 2] == a[|a| - 1];
      InspectedAppend(a[1..], b);
    }
  }

  /** No event of the trace reads a status. */
  predicate NoStatus(t: seq<Event>)
  {
    forall k :: 0 <= k < |t| ==> t[k] != Exec(Status)
  }

  /** A trace without a status read inspects nothing. */
  lemma {:induction false} InspectedWithoutStatus(t: seq<Event>)
    requires NoStatus(t)
    ensures Inspected(t) == []
    decreases |t|
  {
    if |t| >= 2 {
      assert NoStatus(t[1..]) by {
        forall k | 0 <= k < |t| - 1 ensures t[1..][k] != Exec(Status) {
          assert t[1..][k] == t[k + 1];
        }
      }
      InspectedWithoutStatus(t[1..]);
    }
  }

  lemma ShapeConcat(x: seq<Event>, y: seq<Event>)
    requires NoStatus(x) && NoStatus(y)
    requires !EndsWithCheckout(x) && !EndsWithCheckout(y)
    ensures NoStatus(x + y) && !EndsWithCheckout(x + y)
  {
    if |y| > 0 {
      assert (x + y)[|x + y| - 1] == y[|y| - 1];
    }
  }

  /** The events of a check never read a status and never end on a checkout. */
  lemma CheckEventsShape(c: Check, status: string, branch: string, answer: Prompt -> string)
    ensures NoStatus(CheckEvents(c, status, branch, answer))
    ensures !EndsWithCheckout(CheckEvents(c, status, branch, answer))
  {
    var d := Decide(c, status, branch, answer(PromptFor(c, branch)));
    if d.Prompted? {
      var a := [Ask(d.prompt, answer(d.prompt))];
      var x := ExecAll(d.commands);
      assert CheckEvents(c, status, branch, answer) == a + x;
      assert NoStatus(x);
      ShapeConcat(a, x);
    }
  }

  lemma {:induction false} ChecksEventsShape(cs: seq<Check>, status: string, branch: string, answer: Prompt -> string)
    ensures NoStatus(ChecksEvents(cs, status, branch, answer))
    ensures !EndsWithCheckout(ChecksEvents(cs, status, branch, answer))
    decreases |cs|
  {
    if |cs| > 0 {
      CheckEventsShape(cs[0], status, branch, answer);
      ChecksEventsShape(cs[1..], status, branch, answer);
      ShapeConcat(CheckEvents(cs[0], status, branch, answer), ChecksEvents(cs[1..], status, branch, answer));
    }
  }

  /** Inspecting a branch checks out that branch, reads its status, and
      inspects nothing else. */
  lemma InspectBranchVisitsIt(branch: string, status: string, answer: Prompt -> string)
    ensures Inspected(InspectBranch(branch, status, answer)) == [branch]
    ensures !EndsWithCheckout(InspectBranch(branch, status, answer))
  {
    var rest := ChecksEvents(AllChecks, status, branch, answer);
    ChecksEventsShape(AllChecks, status, branch, answer);
    InspectedWithoutStatus(rest);
    var head := [Exec(Checkout(branch)), Exec(Status)];
    InspectedAppend(head, rest);
    assert Inspected(head) == [branch] by {
      assert head[2..] == [];
    }
    if |rest| > 0 {
      assert (head + rest)[|head + rest| - 1] == rest[|rest| - 1];
    }
  }

  lemma {:induction false} InspectAllVisitsEach(names: seq<string>, from: nat, status: nat -> string, answer: (nat, Prompt) -> string)
    ensures Inspected(InspectAll(names, from, status, answer)) == names
    ensures !EndsWithCheckout(InspectAll(names, from, status, answer))
    decreases |names|
  {
    if |names| > 0 {
      var first := InspectBranch(names[0], status(from), p => answer(from, p));
      var rest := InspectAll(names[1..], from + 1, status, answer);
      InspectBranchVisitsIt(names[0], status(from), p => answer(from, p));
      InspectAllVisitsEach(names[1..], from + 1, status, answer);
      InspectedAppend(first, rest);
      assert names == [names[0]] + names[1..];
      if |rest| > 0 {
        assert (first + rest)[|first + rest| - 1] == rest[|rest| - 1];
      }
    }
  }

  /** The syncing commands before the loop and the final checkout after it
      inspect nothing. */
  lemma InspectedFraming(body: seq<Event>)
    requires !EndsWithCheckout(body)
    ensures Inspected(Framed(body)) == Inspected(body)
  {
    var head := [Exec(Fetch), Exec(Prune), Exec(ListBranches)];
    var tail := [Exec(Checkout(Primary))];
    InspectedWithoutStatus(head);
    InspectedAppend(head, body);
    assert !EndsWithCheckout(head + body) by {
      if |body| > 0 {
        assert (head + body)[|head + body| - 1] == body[|body| - 1];
      }
    }
    InspectedAppend(head + body, tail);
  }

  /** A run inspects exactly the listed branches, each once, in list order. */
  lemma RunInspectsListedBranches(listing: string, status: nat -> string, answer: (nat, Prompt) -> string)
    ensures Inspected(Run(listing, status, answer)) == ParseBranchList(listing)
  {
    var names := ParseBranchList(listing);
    InspectAllVisitsEach(names, 0, status, answer);
    InspectedFraming(InspectAll(names, 0, status, answer));
  }

  // ---------------------------------------------------------------------
  // Which menus a branch shows

  /** The menus of the given checks whose phrase occurs in the status text, in
      the order of the checks. */
  ghost function TriggeredPrompts(checks: seq<Check>, status: string, branch: string): seq<Prompt>
  {
    if |checks| == 0 then []
    else
      (if Contains(status, Phrase(checks[0])) then [PromptFor(checks[0], branch)] else [])
      + TriggeredPrompts(checks[1..], status, branch)
  }

  lemma CheckEventsPrompts(c: Check, status: string, branch: string, answer: Prompt -> string)
    ensures Prompts(CheckEvents(c, status, branch, answer))
      == if Contains(status, Phrase(c)) then [PromptFor(c, branch)] else []
  {
    var d := Decide(c, status, branch, answer(PromptFor(c, branch)));
    if d.Prompted? {
      var a := [Ask(d.prompt, answer(d.prompt))];
      PromptsAppend(a, ExecAll(d.commands));
      ExecAllCommands(d.commands);
    }
  }

  lemma {:induction false} ChecksEventsPrompts(cs: seq<Check>, status: string, branch: string, answer: Prompt -> string)
    ensures Prompts(ChecksEvents(cs, status, branch, answer)) == TriggeredPrompts(cs, status, branch)
    decreases |cs|
  {
    if |cs| > 0 {
      CheckEventsPrompts(cs[0], status, branch, answer);
      ChecksEventsPrompts(cs[1..], status, branch, answer);
      PromptsAppend(CheckEvents(cs[0], status, branch, answer), ChecksEvents(cs[1..], status, branch, answer));
    }
  }

  /** The menus triggered by all three checks, written out in their order. */
  lemma AllChecksPrompts(status: string, branch: string)
    ensures TriggeredPrompts(AllChecks, status, branch)
      == (if Contains(status, "upstream is gone") then [PromptFor(UpstreamGone, branch)] else [])
       + (if Contains(status, "diverged") then [PromptFor(Diverged, branch)] else [])
       + (if Contains(status, "behind") then [PromptFor(Behind, branch)] else [])
  {
    assert AllChecks == [UpstreamGone] + ([Diverged] + ([Behind] + []));
    TriggeredCons(UpstreamGone, [Diverged] + ([Behind] + []), status, branch);
    TriggeredCons(Diverged, [Behind] + [], status, branch);
    TriggeredCons(Behind, [], status, branch);
  }

  lemma TriggeredCons(c: Check, rest: seq<Check>, status: string, branch: string)
    ensures TriggeredPrompts([c] + rest, status, branch)
      == (if Contains(status, Phrase(c)) then [PromptFor(c, branch)] else []) + TriggeredPrompts(rest, status, branch)
  {
    assert ([c] + rest)[1..] == rest;
  }

  /** Every check runs whatever the earlier ones did: a branch shows the menu of
      each check whose phrase occurs in its status text, in the fixed order of
      the checks, whatever the user answers. */
  lemma InspectBranchPrompts(branch: string, status: string, answer: Prompt -> string)
    ensures Prompts(InspectBranch(branch, status, answer)) == TriggeredPrompts(AllChecks, status, branch)
  {
    var head := [Exec(Checkout(branch)), Exec(Status)];
    PromptsAppend(head, ChecksEvents(AllChecks, status, branch, answer));
    assert Prompts(head) == [] by {
      assert head[1..][1..] == [];
    }
    ChecksEventsPrompts(AllChecks, status, branch, answer);
  }

  /** The menus due in a run: for each listed branch in list order, those its
      status text triggers. */
  ghost function TriggeredByAll(names: seq<string>, from: nat, status: nat -> string): seq<Prompt>
    decreases |names|
  {
    if |names| == 0 then []
    else TriggeredPrompts(AllChecks, status(from), names[0]) + TriggeredByAll(names[1..], from + 1, status)
  }

  lemma {:induction false} InspectAllPrompts(names: seq<string>, from: nat, status: nat -> string, answer: (nat, Prompt) -> string)
    ensures Prompts(InspectAll(names, from, status, answer)) == TriggeredByAll(names, from, status)
    decreases |names|
  {
    if |names| > 0 {
      var ans := (p: Prompt) => answer(from, p);
      InspectBranchPrompts(names[0], status(from), ans);
      InspectAllPrompts(names[1..], from + 1, status, answer);
      PromptsAppend(InspectBranch(names[0], status(from), ans), InspectAll(names[1..], from + 1, status, answer));
    }
  }

  /** A run shows exactly the menus its status texts trigger, branch by branch
      in list order, whatever the user answers. */
  lemma RunPrompts(listing: string, status: nat -> string, answer: (nat, Prompt) -> string)
    ensures Prompts(Run(listing, status, answer)) == TriggeredByAll(ParseBranchList(listing), 0, status)
  {
    var names := ParseBranchList(listing);
    InspectAllPrompts(names, 0, status, answer);
    FramedPrompts(InspectAll(names, 0, status, answer));
  }

  /** The syncing commands and the final checkout show no menu. */
  lemma FramedPrompts(body: seq<Event>)
    ensures Prompts(Framed(body)) == Prompts(body)
  {
    var head := [Exec(Fetch), Exec(Prune), Exec(ListBranches)];
    var tail := [Exec(Checkout(Primary))];
    PromptsAppend(head + body, tail);
    PromptsAppend(head, body);
    assert Prompts(head) == [] by {
      assert head[1..][1..][1..] == [];
    }
    assert Prompts(tail) == [] by {
      assert tail[1..] == [];
    }
  }

  // ---------------------------------------------------------------------
  // No command unless chosen

  /** An answer that picks no remedy: "Nothing", or a label the menu does not offer. */
  predicate Declines(p: Prompt, choice: string)
  {
    choice == NothingLabel || choice !in p.options
  }

  /** Every menu the `k`-th branch shows for its status text is declined; the
      answers at menus its status does not trigger do not matter. */
  ghost predicate DeclinesShownMenus(branch: string, status: string, k: nat, answer: (nat, Prompt) -> string)
  {
    forall c: Check :: Contains(status, Phrase(c)) ==> Declines(PromptFor(c, branch), answer(k, PromptFor(c, branch)))
  }

  /** The commands of inspecting the given branches when nothing is chosen. */
  function Inspections(names: seq<string>): seq<Command>
  {
    if |names| == 0 then [] else [Checkout(names[0]), Status] + Inspections(names[1..])
  }

  /** A check runs no command when its menu, if shown, is declined. */
  lemma DeclinedCheckRunsNothing(c: Check, status: string, branch: string, answer: Prompt -> string)
    requires Contains(status, Phrase(c)) ==> Declines(PromptFor(c, branch), answer(PromptFor(c, branch)))
    ensures Commands(CheckEvents(c, status, branch, answer)) == []
  {
    var p := PromptFor(c, branch);
    RemedyOnlyWhenChosen(c, branch, answer(p));
    var t := CheckEvents(c, status, branch, answer);
    if t != [] {
      assert ExecAll([]) == [];
      assert t == [Ask(p, answer(p))];
      assert t[1..] == [];
    }
  }

  lemma {:induction false} DeclinedChecksRunNothing(cs: seq<Check>, status: string, branch: string, answer: Prompt -> string)
    requires forall c :: c in cs && Contains(status, Phrase(c)) ==> Declines(PromptFor(c, branch), answer(PromptFor(c, branch)))
    ensures Commands(ChecksEvents(cs, status, branch, answer)) == []
    decreases |cs|
  {
    if |cs| > 0 {
      DeclinedCheckRunsNothing(cs[0], status, branch, answer);
      assert forall c :: c in cs[1..] ==> c in cs;
      DeclinedChecksRunNothing(cs[1..], status, branch, answer);
      CommandsAppend(CheckEvents(cs[0], status, branch, answer), ChecksEvents(cs[1..], status, branch, answer));
    }
  }

  /** A branch whose shown menus are all declined is only checked out and read. */
  lemma DeclinedBranchRunsNothing(name: string, status: string, k: nat, answer: (nat, Prompt) -> string)
    requires DeclinesShownMenus(name, status, k, answer)
    ensures Commands(InspectBranch(name, status, p => answer(k, p))) == [Checkout(name), Status]
  {
    var ans := (p: Prompt) => answer(k, p);
    var head := [Exec(Checkout(name)), Exec(Status)];
    DeclinedChecksRunNothing(AllChecks, status, name, ans);
    CommandsAppend(head, ChecksEvents(AllChecks, status, name, ans));
    assert Commands(head) == [Checkout(name), Status] by {
      assert head[1..][1..] == [];
    }
  }

  /** Every menu shown for the branches `names`, listed from position `from`
      on, is declined. */
  ghost predicate DeclinedFrom(names: seq<string>, from: nat, status: nat -> string, answer: (nat, Prompt) -> string)
    decreases |names|
  {
    |names| == 0
    || (DeclinesShownMenus(names[0], status(from), from, answer) && DeclinedFrom(names[1..], from + 1, status, answer))
  }

  /** The suffix of `all` from position `from` on has all its shown menus
      declined when each of those positions does. */
  lemma {:induction false} DeclinedFromEach(all: seq<string>, from: nat, status: nat -> string, answer: (nat, Prompt) -> string)
    requires from <= |all|
    requires forall k :: from <= k < |all| ==> DeclinesShownMenus(all[k], status(k), k, answer)
    ensures DeclinedFrom(all[from..], from, status, answer)
    decreases |all| - from
  {
    if from < |all| {
      DeclinedFromEach(all, from + 1, status, answer);
      assert all[from..][0] == all[from] && all[from..][1..] == all[from + 1..];
    }
  }

  lemma {:induction false} DeclinedInspectionsRunNothing(names: seq<string>, from: nat, status: nat -> string, answer: (nat, Prompt) -> string)
    requires DeclinedFrom(names, from, status, answer)
    ensures Commands(InspectAll(names, from, status, answer)) == Inspections(names)
    decreases |names|
  {
    if |names| > 0 {
      DeclinedBranchRunsNothing(names[0], status(from), from, answer);
      var rest := InspectAll(names[1..], from + 1, status, answer);
      CommandsAppend(InspectBranch(names[0], status(from), p => answer(from, p)), rest);
      DeclinedInspectionsRunNothing(names[1..], from + 1, status, answer);
    }
  }

  /** When every menu a run shows is declined, it only syncs, inspects each
      listed branch and returns to the primary branch: no deletion, unset,
      pull or reset. */
  lemma DeclinedRunChangesNothing(listing: string, status: nat -> string, answer: (nat, Prompt) -> string)
    requires forall k :: 0 <= k < |ParseBranchList(listing)| ==> DeclinesShownMenus(ParseBranchList(listing)[k], status(k), k, answer)
    ensures Commands(Run(listing, status, answer))
      == [Fetch, Prune, ListBranches] + Inspections(ParseBranchList(listing)) + [Checkout(Primary)]
  {
    var names := ParseBranchList(listing);
    DeclinedFromEach(names, 0, status, answer);
    assert names[0..] == names;
    DeclinedInspectionsRunNothing(names, 0, status, answer);
    FramedCommands(InspectAll(names, 0, status, answer));
  }

  /** The commands of a run are the syncing commands, those of the loop, and
      the final checkout. */
  lemma FramedCommands(body: seq<Event>)
    ensures Commands(Framed(body)) == [Fetch, Prune, ListBranches] + Commands(body) + [Checkout(Primary)]
  {
    var head := [Exec(Fetch), Exec(Prune), Exec(ListBranches)];
    var tail := [Exec(Checkout(Primary))];
    CommandsAppend(head + body, tail);
    CommandsAppend(head, body);
    assert Commands(head) == [Fetch, Prune, ListBranches] by {
      assert head[1..][1..][1..] == [];
    }
    assert Commands(tail) == [Checkout(Primary)] by {
      assert tail[1..] == [];
    }
  }

  // ---------------------------------------------------------------------
  // Fatal failures

  /** The outcome of running a trace: the events that happened, and whether a
      failing command stopped the tool. */
  datatype Outcome = Outcome(executed: seq<Event>, halted: bool)

  /** Position `k` of the trace is a command that fails and is not allowed to. */
  predicate FatalFailure(t: seq<Event>, fails: nat -> bool, k: int)
  {
    0 <= k < |t| && t[k].Exec? && t[k].cmd.IsFatal() && fails(k)
  }

  /** Running a trace when `fails(k)` says whether its k-th event exits
      unsuccessfully: every command but checkout stops the tool at its first
      failure, after which nothing else happens; failed checkouts are ignored. */
  function Execute(t: seq<Event>, fails: nat -> bool): (o: Outcome)
    ensures o.executed <= t
    ensures o.halted <==> exists k :: FatalFailure(t, fails, k)
    ensures o.halted ==> |o.executed| > 0 && FatalFailure(t, fails, |o.executed| - 1)
    ensures !o.halted ==> o.executed == t
    ensures forall k :: 0 <= k < |o.executed| - 1 ==> !FatalFailure(t, fails, k)
  {
    ExecuteFrom(t, fails, 0)
  }

  function ExecuteFrom(t: seq<Event>, fails: nat -> bool, k: nat): (o: Outcome)
    requires k <= |t|
    requires forall j :: 0 <= j < k ==> !FatalFailure(t, fails, j)
    ensures o.executed <= t && |o.executed| >= k
    ensures o.halted <==> exists j :: FatalFailure(t, fails, j)
    ensures o.halted ==> FatalFailure(t, fails, |o.executed| - 1)
    ensures !o.halted ==> o.executed == t
    ensures forall j :: 0 <= j < |o.executed| - 1 ==> !FatalFailure(t, fails, j)
    decreases |t| - k
  {
    if k == |t| then
      Outcome(t, false)
    else if FatalFailure(t, fails, k) then
      Outcome(t[..k + 1], true)
    else
      ExecuteFrom(t, fails, k + 1)
  }

  /** gitCheckout ignores its error: a trace in which only checkouts fail runs
      to its end. */
  lemma CheckoutFailuresIgnored(t: seq<Event>, fails: nat -> bool)
    requires forall k :: 0 <= k < |t| && fails(k) && t[k].Exec? ==> t[k].cmd.Checkout?
    ensures Execute(t, fails) == Outcome(t, false)
  {
  }

  /** printErr: the first failing command other than a checkout ends the run
      right after it. */
  lemma FailedCommandHalts(t: seq<Event>, fails: nat -> bool, k: nat)
    requires k < |t| && t[k].Exec? && !t[k].cmd.Checkout? && fails(k)
    requires forall j :: 0 <= j < k ==> !FatalFailure(t, fails, j)
    ensures Execute(t, fails) == Outcome(t[..k + 1], true)
  {
    var o := Execute(t, fails);
    assert FatalFailure(t, fails, k);
    assert |o.executed| - 1 == k;
  }
}
