/** The fixed set of git hook types the installer recognises as hook files. */
module Whitelist {

  /** The ten hook type names, in the order the installer lists them. */
  function GitHookWhitelist(): (r: seq<string>)
    ensures |r| == 10
    ensures forall i, j :: 0 <= i < j < |r| ==> r[i] != r[j]
    ensures "pre-commit" in r && "pre-push" in r && "commit-msg" in r
  {
    ["applypatch-msg", "commit-msg", "post-update", "pre-applypatch", "pre-commit",
     "pre-push", "pre-rebase", "pre-receive", "prepare-commit-msg", "update"]
  }

  /** A file name is a hook type exactly when the whitelist contains it. */
  predicate IsValidHookType(name: string)
  {
    name in GitHookWhitelist()
  }

  /** A file named like a hook-helper but not like a git hook is rejected. */
  lemma NotAHookIsRejected()
    ensures !IsValidHookType("not-a-hook")
    ensures !IsValidHookType("post-commit") && !IsValidHookType("pre-commit.sample")
    ensures IsValidHookType("pre-commit") && IsValidHookType("update")
  {
  }
}
