# cleanbranch in Dafny

A model of `cleanbranch`, a small command-line tool that tidies the local
branches of a git repository. It fetches, prunes the stale remote-tracking
references of `origin`, lists the local branches, and for each one checks it
out, reads `git status`, and runs three checks on the status text in a fixed
order:

- upstream gone: offers to delete the branch or to unset its upstream;
- diverged: offers to hard-reset it to `origin/<branch>`;
- behind: offers to pull or to hard-reset.

Each menu starts with "Nothing". At the end the tool checks out `master`.
Every git command except `checkout` stops the tool when it fails.

The model is split into modules that follow the program:

- `Text` (text.dfy): the Go library routines the tool relies on:
  - `strings.Index` and the first-occurrence form of `strings.Replace`;
  - `strings.TrimSpace`, with Go's `unicode.IsSpace` set of whitespace;
  - `strings.Split` on one character;
  - matching a regular expression that is a plain literal, which is substring
    containment.
- `Git` (git.dfy): the git invocations as an abstract `Command` datatype, and
  the command sequences of `gitDeleteBranch` and `gitResetHard`.
- `BranchList` (branchlist.dfy): `cleanBranchNames` and the pure part of
  `branches`. That part normalises line endings, splits into lines and cleans
  each line.
- `Checks` (checks.dfy): the three checks as one `Check` datatype. For each
  check the module gives its trigger phrase, menu text and option labels, and
  the commands each answer selects.
- `Driver` (driver.dfy): `main` as a trace of events. An event is a git
  invocation or a menu together with the user's answer. `Execute` cuts the
  trace at the first fatal failure, as `log.Fatalf` in `printErr` does.
- `Scenarios` (scenarios.dfy): concrete instances. One is a line-cleaning
  example ("* main", "  feature-1  ", "", "release/1.0"). The other is a
  three-branch session in which every answer is "Nothing".

What the tool reads from outside is passed in:

- the text printed by `git branch`;
- `status(k)`: the text `git status` prints for the k-th listed branch;
- `answer(k, p)`: the label the user picks at menu `p` for that branch;
- `fails(k)`: whether the k-th event of the trace exits unsuccessfully.

Two behaviours of the code worth noting:

- The diverged and behind checks match the bare words "diverged" and
  "behind". Any status text containing those words triggers the menu.
- Cleaning a line removes the first "* " anywhere in the line, not only a
  leading marker. Only that first occurrence is removed. A line such as
  "a* b* c" becomes "ab* c".

## Model

| member | source | states |
|---|---|---|
| Text.Index | cleanbranch.go:107-108 | -1 exactly when the pattern does not occur in the text, otherwise the leftmost position where it occurs; this is how a literal pattern's MatchString decides |
| Text.ReplaceFirst | cleanbranch.go:73 | the result is the text with its leftmost occurrence of the pattern replaced, everything before and after it kept |
| Text.ReplaceFirstWithoutOccurrence | cleanbranch.go:73 | a text that does not contain the pattern is returned unchanged |
| Text.ReplaceFirstKeepsAbsent | cleanbranch.go:73 | replacing introduces no character that is absent from both the text and the replacement |
| Text.TrimSpace | cleanbranch.go:74 | the result neither starts nor ends with a Unicode whitespace character |
| Text.LeadingSpace | cleanbranch.go:74 | the count covers only whitespace and stops at the first non-space or the end of the text |
| Text.TrailingEnd | cleanbranch.go:74 | everything from the returned position on is whitespace, and the character before it is not |
| Text.LeadingSpaceUnique | cleanbranch.go:74 | a whitespace prefix followed by a non-space or the end is exactly the leading whitespace that trimming drops |
| Text.TrailingEndUnique | cleanbranch.go:74 | a whitespace suffix preceded by a non-space or the start is exactly the trailing whitespace that trimming drops |
| Text.TrimSpaceIsCore | cleanbranch.go:74 | the result is a slice of the input whose removed prefix and suffix consist only of whitespace |
| Text.TrimSpaceUnique | cleanbranch.go:74 | any slice with whitespace-only surroundings that is itself trimmed is exactly what TrimSpace returns |
| Text.TrimmedSliceIsTrimSpace | cleanbranch.go:74 | a trimmed slice with only whitespace before and after it is the trimmed text |
| Text.SpaceAroundCore | cleanbranch.go:74 | a slice with non-space ends and only whitespace around it is the trimmed text |
| Text.SpaceAroundEmptyCore | cleanbranch.go:74 | an all-whitespace text trims to the empty string |
| Text.TrimSpaceOfTrimmed | cleanbranch.go:74 | a text without surrounding whitespace is returned unchanged |
| Text.TrimSpaceIdempotent | cleanbranch.go:74 | trimming twice gives the same result as trimming once |
| Text.TrimSpaceKeepsAbsent | cleanbranch.go:74 | trimming introduces no character absent from the input |
| Text.Split | cleanbranch.go:87 | there is at least one piece, no piece contains the separator, and joining the pieces with the separator gives back the input |
| Text.SplitJoin | cleanbranch.go:87 | splitting undoes joining separator-free pieces |
| Text.SplitNoSeparator | cleanbranch.go:87 | a text without the separator splits into itself alone |
| Text.SplitFirstPiece | cleanbranch.go:87 | the text before the first separator is the first piece, and the rest is split on its own |
| Text.MissingFirstChar | cleanbranch.go:107-108 | a text lacking the first character of a non-empty pattern does not match it |
| Git.RemoteRef | cleanbranch.go:49 | the reset target is `origin/` followed by the branch name |
| Git.DeleteBranchCommands | cleanbranch.go:19-25 | the branch is force-deleted, and only right after the primary branch `master` is checked out |
| Git.ResetHardCommands | cleanbranch.go:48-54 | a single hard reset whose target is `origin/` followed by the branch name |
| BranchList.CleanLine | cleanbranch.go:73-74 | a cleaned line has no surrounding whitespace |
| BranchList.CleanLineRemovesFirstMarker | cleanbranch.go:73-74 | only the leftmost "* " of a line is removed before trimming; later ones stay |
| BranchList.CleanLineWithoutMarker | cleanbranch.go:73-74 | a line without "* " is only trimmed |
| BranchList.CleanLineKeepsAbsent | cleanbranch.go:73-74 | cleaning adds no character, so no name holds a character that its line lacks |
| BranchList.CleanLineKeepsPlainName | cleanbranch.go:73-74 | a line with no marker and no surrounding whitespace is its own name |
| BranchList.CleanMarkedLine | cleanbranch.go:73-74 | the marked current branch "* name" is listed as "name" |
| BranchList.CleanPaddedLine | cleanbranch.go:73-74 | whitespace padding around an unmarked name is dropped |
| BranchList.NonEmptyImages | cleanbranch.go:70-80 | mapping then dropping empty results never gives more results than inputs |
| BranchList.NonEmptyImagesAppend | cleanbranch.go:72-78 | the results for concatenated inputs are the concatenated results, in order |
| BranchList.NonEmptyImagesMembership | cleanbranch.go:75-77 | a string is a result exactly when it is non-empty and some input maps to it |
| BranchList.CleanAll | cleanbranch.go:70-80 | there are never more names than lines |
| BranchList.CleanAllNames | cleanbranch.go:74-77 | every listed name is non-empty and trimmed |
| BranchList.CleanAllAppend | cleanbranch.go:72-78 | the names of concatenated line lists are the concatenated names, in order |
| BranchList.CleanAllSingle | cleanbranch.go:75-77 | one line yields its cleaned name when that is non-empty, and nothing otherwise |
| BranchList.CleanAllMembership | cleanbranch.go:70-80 | a string is listed exactly when it is non-empty and some line cleans to it |
| BranchList.CleanAllStep | cleanbranch.go:72-78 | one more loop iteration appends the cleaned line when it is non-empty and nothing otherwise |
| BranchList.CleanAllKeepsNames | cleanbranch.go:70-80 | lines that are already trimmed, non-empty and unmarked come back unchanged |
| BranchList.CleanBranchNames | cleanbranch.go:70-80 | the loop that appends kept names returns the line-by-line cleaning of all lines |
| BranchList.NormalizeLineEndings | cleanbranch.go:86 | never lengthens the text and leaves a text without carriage returns unchanged |
| BranchList.NormalizeUndoesCrlf | cleanbranch.go:86 | normalising turns the Windows form of a text back into the text |
| BranchList.CrlfLineEndings | cleanbranch.go:86 | the reverse rewriting, every "\n" to "\r\n", used to state what line 86 undoes; its result never starts with a bare line feed |
| BranchList.ParseBranchList | cleanbranch.go:86-88 | every listed name is non-empty, trimmed and contains no line feed |
| BranchList.CrlfListingSameNames | cleanbranch.go:86-88 | a listing with "\r\n" line endings yields the same names as with "\n" |
| Checks.Options | cleanbranch.go:109-160 | every menu has at least two options and "Nothing" comes first |
| Checks.OptionsDistinct | cleanbranch.go:109-160 | no label appears twice in a menu, so an answer picks at most one option |
| Checks.PromptsDistinct | cleanbranch.go:117-161 | menus of different checks differ, whatever the branch names |
| Checks.PromptNamesBranch | cleanbranch.go:118-161 | each menu message names its branch, so one check's menus for two branches coincide exactly when the branches do |
| Checks.Remedy | cleanbranch.go:121-170 | "Nothing" runs no command; no remedy reads a status or ends with a checkout |
| Checks.RemedyOnlyWhenChosen | cleanbranch.go:121-170 | commands run exactly when the answer is an offered label other than "Nothing"; the empty answer of a failed prompt runs nothing |
| Checks.RemedyOfEachOption | cleanbranch.go:121-170 | delete is a checkout of master then `branch -D`; unset, pull and the two resets are their single commands, and the resets target `origin/<branch>` |
| Checks.Decide | cleanbranch.go:106-172 | a check prompts exactly when the status contains its phrase (`Phrase`: "upstream is gone", "diverged" or "behind"); it then shows its menu and runs the remedy of the answer |
| Driver.ExecAll | cleanbranch.go:121-170 | each command becomes one execution event, in order |
| Driver.CheckEvents | cleanbranch.go:96-172 | one check (checkUpstream, checkDiverged or checkBehind with createSelect) gives no event exactly when the status lacks its phrase; otherwise its menu with the user's answer, then the commands of that answer's remedy |
| Driver.CommandsAppend | cleanbranch.go:174-196 | the commands of a concatenated trace are the concatenated commands |
| Driver.PromptsAppend | cleanbranch.go:174-196 | the menus of a concatenated trace are the concatenated menus |
| Driver.ExecAllCommands | cleanbranch.go:121-170 | a trace of executions has exactly those commands and no menu |
| Driver.DeleteChoiceEvents | cleanbranch.go:19-25 | choosing delete at the upstream-gone menu shows the menu, then checks out master, then force-deletes the branch |
| Driver.Run | cleanbranch.go:174-196 | a run starts with fetch, prune and the branch listing, and ends with checking out master |
| Driver.Framed | cleanbranch.go:174-196 | the loop's events sit between fetch, prune and the listing, and the final checkout of master, unchanged |
| Driver.InspectedAppend | cleanbranch.go:179-193 | when the first part does not end with a checkout, the inspections of a concatenated trace are the concatenated inspections |
| Driver.InspectedWithoutStatus | cleanbranch.go:179-193 | a trace that never reads a status inspects no branch |
| Driver.CheckEventsShape | cleanbranch.go:106-172 | the events of one check never read a status and never end with a checkout |
| Driver.ChecksEventsShape | cleanbranch.go:190-192 | ChecksEvents, the checks called one after the other, never reads a status and never ends with a checkout |
| Driver.InspectBranchVisitsIt | cleanbranch.go:180-192 | InspectBranch, one loop iteration (checkout, status, the three checks), inspects exactly its own branch |
| Driver.InspectAllVisitsEach | cleanbranch.go:179-193 | InspectAll, the loop, inspects exactly the given branches, once each, in order |
| Driver.InspectedFraming | cleanbranch.go:174-196 | the syncing commands and the final checkout inspect no branch |
| Driver.RunInspectsListedBranches | cleanbranch.go:174-196 | a run checks out each listed branch and reads its status, exactly once each, in listing order |
| Driver.CheckEventsPrompts | cleanbranch.go:106-172 | one check shows its menu exactly when its phrase occurs, whatever the answer |
| Driver.ChecksEventsPrompts | cleanbranch.go:190-192 | ChecksEvents shows the menus of the checks whose phrase occurs, in check order |
| Driver.TriggeredCons | cleanbranch.go:190-192 | the menus triggered by a check followed by more checks are that check's menu, if any, then the rest |
| Driver.AllChecksPrompts | cleanbranch.go:190-192 | the menus due are upstream gone, diverged, behind, each when its phrase occurs, in that order |
| Driver.InspectBranchPrompts | cleanbranch.go:180-192 | every check in InspectBranch runs whatever earlier checks did, so a branch shows exactly the menus its status triggers |
| Driver.InspectAllPrompts | cleanbranch.go:179-193 | the loop shows the triggered menus branch by branch |
| Driver.RunPrompts | cleanbranch.go:174-196 | a run shows exactly the menus its status texts trigger, branch by branch in listing order, whatever the answers |
| Driver.FramedPrompts | cleanbranch.go:174-196 | the menus of a run are exactly those of its loop: the syncing commands and the final checkout show none |
| Driver.DeclinedCheckRunsNothing | cleanbranch.go:108-127 | a check runs no command when its menu, if its phrase makes it shown, gets an answer that picks no remedy; the answer at a menu not shown does not matter |
| Driver.DeclinedChecksRunNothing | cleanbranch.go:190-192 | when each menu the branch's status actually shows is declined, the checks run no command |
| Driver.DeclinedBranchRunsNothing | cleanbranch.go:180-192 | a branch whose shown menus are all declined is only checked out and has its status read, whatever the answers at menus it does not show |
| Driver.DeclinedFromEach | cleanbranch.go:179-193 | declining the shown menus at every position from some point on is the same as declining them branch after branch |
| Driver.DeclinedInspectionsRunNothing | cleanbranch.go:179-193 | when every menu actually shown for the listed branches is declined, the loop only checks out and reads the status of each branch; answers at menus never shown do not matter |
| Driver.DeclinedRunChangesNothing | cleanbranch.go:174-196 | when every menu a run actually shows is declined (answers at menus never shown do not matter), it issues only fetch, prune, listing, one checkout and status per branch, and the final checkout |
| Driver.FramedCommands | cleanbranch.go:174-196 | the commands of a run are fetch, prune, the listing, the loop's commands and the final checkout |
| Driver.Execute | cleanbranch.go:13-17 | the executed events are a prefix of the trace; the run halts exactly when some non-checkout command fails; it halts at the first such failure; without one, the whole trace runs |
| Driver.ExecuteFrom | cleanbranch.go:13-17 | the same, scanning from a position before which nothing failed fatally |
| Driver.CheckoutFailuresIgnored | cleanbranch.go:91-94 | gitCheckout ignores its error: a trace in which only checkouts fail runs to its end without halting |
| Driver.FailedCommandHalts | cleanbranch.go:13-17 | the first failing command other than a checkout halts the run right after it |
| Scenarios.CleanAllExample | cleanbranch.go:70-80 | the lines "* main", "  feature-1  ", "" and "release/1.0" give main, feature-1 and release/1.0 |
| Scenarios.ListingNames | cleanbranch.go:86-88 | the listing "A\nB\nC" gives A, B and C |
| Scenarios.SessionMenus | cleanbranch.go:106-172 | the statuses of A, B and C trigger the upstream menu, the diverged menu and no menu |
| Scenarios.DeclinedSession | cleanbranch.go:174-196 | in the three-branch session with every answer "Nothing", the run fetches and prunes once, checks out and reads A, B and C once each, shows only the menus of A and B, and ends on master |

## Left out

- Running processes: each `exec.Command` becomes a `Command` value. An exit status becomes the `fails` oracle. The output of `git branch` and `git status` becomes an input.
- The effect of git commands on the repository is not modelled. The status text of each branch is an input.
- Printing: the progress lines written with `fmt.Printf` and `fmt.Println` have no effect on behaviour and are not modelled.
- The interactive prompt library: `survey.AskOne` becomes the `answer` oracle. Its error is ignored by the tool, which leaves the empty answer. The model covers this as an answer that matches no label.
- Regular expressions: the three patterns are plain literal words, so matching is modelled as substring containment. The regexp engine is not modelled.
- Text.TrimSpace: works on decoded Unicode text. The tool works on the UTF-8 bytes of the output. Input that is not valid UTF-8 is not modelled.
- The argument that `gitUnsetUpstream` receives is never used, so `UnsetUpstream` carries none.
- Process exit: `log.Fatalf` is modelled by `Execute` cutting the trace at the first fatal failure. The exit status and the log message are not modelled.
