/** The three status checks: each looks for one literal phrase in the output of
    `git status` and, when it finds it, asks the user to pick a remedy. */
module Checks {
  import opened Text
  import opened Git

  datatype Check = UpstreamGone | Diverged | Behind

  /** The checks, in the order they run for every branch. */
  const AllChecks: seq<Check> := [UpstreamGone, Diverged, Behind]

  /** A single-choice menu: a message and its option labels, in display order. */
  datatype Prompt = Prompt(message: string, options: seq<string>)

  /** What one check does with one status text: nothing, or a menu followed by
      the commands the user's answer selects. */
  datatype Decision = NoPrompt | Prompted(prompt: Prompt, commands: seq<Command>)

  /** The literal pattern each check matches against the status text. */
  function Phrase(c: Check): string
  {
    match c
    case UpstreamGone => "upstream is gone"
    case Diverged => "diverged"
    case Behind => "behind"
  }

  const NothingLabel: string := "Nothing"

  /** The git command lines the option labels quote. */
  function DeleteCommandText(branch: string): string { "git branch -D " + branch }
  const UnsetCommandText: string := "git branch --unset-upstream"
  const PullCommandText: string := "git pull"
  function ResetCommandText(branch: string): string { "git reset --hard origin/" + branch }

  function DeleteLabel(branch: string): string
  {
    "Delete branch (" + DeleteCommandText(branch) + ")"
  }

  const RemoveLabel: string := "Remove remote (" + UnsetCommandText + ")"

  /** The reset option of the diverged menu, which carries a warning. */
  function WarnResetLabel(branch: string): string
  {
    "Reset WARNING: You will lose any local changes (" + ResetCommandText(branch) + ")"
  }

  const PullLabel: string := "Pull (" + PullCommandText + ")"

  /** The reset option of the behind menu. */
  function ResetLabel(branch: string): string
  {
    "Reset (" + ResetCommandText(branch) + ")"
  }

  /** The option labels of a check's menu; "Nothing" always comes first. */
  function Options(c: Check, branch: string): (r: seq<string>)
    ensures |r| >= 2 && r[0] == NothingLabel
  {
    match c
    case UpstreamGone => [NothingLabel, DeleteLabel(branch), RemoveLabel]
    case Diverged => [NothingLabel, WarnResetLabel(branch)]
    case Behind => [NothingLabel, PullLabel, ResetLabel(branch)]
  }

  /** No label is offered twice in one menu, so an answer selects at most one option. */
  lemma OptionsDistinct(c: Check, branch: string)
    ensures var r := Options(c, branch); forall i, j :: 0 <= i < j < |r| ==> r[i] != r[j]
  {
    match c
    case UpstreamGone =>
      // "Nothing" is shorter than both other labels, which differ in their first character
      assert DeleteLabel(branch)[0] == 'D' && RemoveLabel[0] == 'R';
    case Diverged =>
    case Behind =>
      // the three labels have different lengths
  }

  function Message(c: Check, branch: string): string
  {
    match c
    case UpstreamGone => "(" + branch + ") Upstream is gone"
    case Diverged => "(" + branch + ") Branch has diverged"
    case Behind => "(" + branch + ") Branch is behind"
  }

  function PromptFor(c: Check, branch: string): Prompt
  {
    Prompt(Message(c, branch), Options(c, branch))
  }

  /** The commands run for the user's answer. Each known label is compared
      with the answer on its own, as the tool does; "Nothing", and any answer
      that is not an offered label (such as the empty answer of a failed
      prompt), selects no command. */
  function Remedy(c: Check, branch: string, choice: string): (r: seq<Command>)
    ensures choice == NothingLabel ==> r == []
    ensures Status !in r && (|r| > 0 ==> !r[|r| - 1].Checkout?)
  {
    match c
    case UpstreamGone =>
      (if choice == DeleteLabel(branch) then DeleteBranchCommands(branch) else [])
      + (if choice == RemoveLabel then [UnsetUpstream] else [])
    case Diverged =>
      if choice == WarnResetLabel(branch) then ResetHardCommands(branch) else []
    case Behind =>
      (if choice == PullLabel then [Pull] else [])
      + (if choice == ResetLabel(branch) then ResetHardCommands(branch) else [])
  }

  /** A remedy runs exactly when the answer is one of the offered labels other
      than "Nothing"; any other answer runs no command. */
  lemma RemedyOnlyWhenChosen(c: Check, branch: string, choice: string)
    ensures Remedy(c, branch, choice) != [] <==> choice in Options(c, branch) && choice != NothingLabel
  {
  }

  /** Each offered remedy runs exactly its own commands: delete moves to the
      primary branch before deleting, reset targets the remote counterpart. */
  lemma RemedyOfEachOption(branch: string)
    ensures Remedy(UpstreamGone, branch, DeleteLabel(branch)) == [Checkout(Primary), DeleteBranch(branch)]
    ensures Remedy(UpstreamGone, branch, RemoveLabel) == [UnsetUpstream]
    ensures Remedy(Diverged, branch, WarnResetLabel(branch)) == [ResetHard("origin/" + branch)]
    ensures Remedy(Behind, branch, PullLabel) == [Pull]
    ensures Remedy(Behind, branch, ResetLabel(branch)) == [ResetHard("origin/" + branch)]
  {
    assert DeleteLabel(branch)[0] != RemoveLabel[0];
    assert RemoteRef(branch) == "origin/" + branch;
  }

  /** One check applied to one status text: it prompts exactly when the text
      contains the check's phrase, and then runs the remedy of the answer. */
  function Decide(c: Check, status: string, branch: string, choice: string): (d: Decision)
    ensures d.Prompted? <==> Contains(status, Phrase(c))
    ensures d.Prompted? ==> d.prompt == PromptFor(c, branch) && d.commands == Remedy(c, branch, choice)
  {
    if Index(status, Phrase(c)) >= 0 then
      Prompted(PromptFor(c, branch), Remedy(c, branch, choice))
    else
      NoPrompt
  }

  /** A menu names its branch: one check's menus for two branches coincide
      exactly when the branches do. */
  lemma PromptNamesBranch(c: Check, branch: string, branch': string)
    ensures PromptFor(c, branch) == PromptFor(c, branch') <==> branch == branch'
  {
    if PromptFor(c, branch) == PromptFor(c, branch') {
      var m, m' := Message(c, branch), Message(c, branch');
      assert |branch| == |branch'|;
      assert m[1..|branch| + 1] == branch && m'[1..|branch'| + 1] == branch';
    }
  }

  /** Menus of different checks never coincide, whatever the branch. */
  lemma PromptsDistinct(c: Check, d: Check, branch: string, branch': string)
    requires c != d
    ensures PromptFor(c, branch) != PromptFor(d, branch')
  {
    var o, o' := Options(c, branch), Options(d, branch');
    if |o| == |o'| {
      assert o[1][0] != o'[1][0];
    }
  }
}
