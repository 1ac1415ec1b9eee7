/** The git invocations the tool makes, as abstract commands. */
module Git {

  /** The primary branch, hard-coded by the tool. */
  const Primary: string := "master"

  /** The remote whose branches are the upstreams. */
  const Remote: string := "origin"

  datatype Command =
    | Fetch                        // git fetch
    | Prune                        // git remote prune origin
    | ListBranches                 // git branch
    | Checkout(branch: string)     // git checkout <branch>
    | Status                       // git status
    | DeleteBranch(branch: string) // git branch -D <branch>
    | UnsetUpstream                // git branch --unset-upstream
    | Pull                         // git pull
    | ResetHard(target: string)    // git reset --hard <target>
  {
    /** A failure of this command stops the tool. Checkout is the one
        best-effort command: its exit status is never looked at. */
    predicate IsFatal()
    {
      !Checkout?
    }
  }

  /** The remote-tracking counterpart of a local branch. */
  function RemoteRef(branch: string): (r: string)
    ensures |r| == |Remote| + 1 + |branch|
    ensures r[..|Remote| + 1] == Remote + "/"
    ensures r[|Remote| + 1..] == branch
  {
    Remote + "/" + branch
  }

  /** gitDeleteBranch: move off the branch first, then force-delete it. */
  function DeleteBranchCommands(branch: string): (r: seq<Command>)
    ensures DeleteBranch(branch) in r
    ensures forall k :: 0 <= k < |r| && r[k] == DeleteBranch(branch) ==> k > 0 && r[k - 1] == Checkout(Primary)
  {
    [Checkout(Primary), DeleteBranch(branch)]
  }

  /** gitResetHard: reset the current branch to its remote counterpart. */
  function ResetHardCommands(branch: string): (r: seq<Command>)
    ensures |r| == 1 && r[0].ResetHard? && |r[0].target| == |Remote| + 1 + |branch|
    ensures r[0].target[..|Remote| + 1] == Remote + "/" && r[0].target[|Remote| + 1..] == branch
  {
    [ResetHard(RemoteRef(branch))]
  }
}
