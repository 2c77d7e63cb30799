/** The commit list of a listing reply and the adjacent pairs list_commits diffs. */
module Pairing {

  /** One entry of the listing reply; only its `sha` is used. */
  datatype CommitRef = CommitRef(sha: string)

  /** The two-element list `[newer, older]` that list_commits stores in `diff_sha`:
      `diff[0]` is the newer SHA, `diff[1]` the one just before it. */
  datatype DiffPair = DiffPair(newer: string, older: string)

  /** Reference definition of the adjacent pairs of a newest-first commit list:
      `n - 1` pairs for `n >= 1` commits, pair `i` made of commits `i` and `i + 1`. */
  function Pairs(commits: seq<CommitRef>): (ps: seq<DiffPair>)
    ensures |ps| == if |commits| == 0 then 0 else |commits| - 1
    ensures forall i :: 0 <= i < |ps| ==> ps[i] == DiffPair(commits[i].sha, commits[i + 1].sha)
  {
    if |commits| <= 1 then []
    else [DiffPair(commits[0].sha, commits[1].sha)] + Pairs(commits[1..])
  }

  /** The `enumerate` loop of list_commits: every commit except the last is paired with
      the one after it, in list order. */
  method ExtractPairs(commits: seq<CommitRef>) returns (diffSha: seq<DiffPair>)
    ensures diffSha == Pairs(commits)
  {
    diffSha := [];
    for index := 0 to |commits|
      invariant |diffSha| == if index == |commits| && index > 0 then index - 1 else index
      invariant forall k :: 0 <= k < |diffSha| ==> diffSha[k] == DiffPair(commits[k].sha, commits[k + 1].sha)
    {
      var sha := commits[index].sha;
      if index != |commits| - 1 {
        diffSha := diffSha + [DiffPair(sha, commits[index + 1].sha)];
      }
    }
    ghost var ps := Pairs(commits);
    assert |diffSha| == |ps|;
    forall k | 0 <= k < |ps|
      ensures diffSha[k] == ps[k]
    {
      assert ps[k] == DiffPair(commits[k].sha, commits[k + 1].sha);
    }
  }
}
