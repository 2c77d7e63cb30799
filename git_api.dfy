/** GitApi.list_commits: list the recent commits, diff every adjacent pair, narrate each
    diff with the model, and compose the narrations into one tweet. */
module GitApi {

  import opened Wrappers
  import opened Strings
  import opened Pairing
  import opened Patches
  import opened Envelope
  import opened Upstream

  /** Where the compare loop finished: stopped by a failing comparison (with its status
      code), or through every pair with the accumulated `tweet_refrence`; both with the
      requests made so far. */
  datatype Narration =
    | Aborted(status: int, calls: seq<Call>)
    | Narrated(text: string, calls: seq<Call>)

  /** The whole run: the envelope returned and every request made, in order. */
  datatype Trace = Trace(reply: Reply, calls: seq<Call>)

  /** Status code of the comparison of one pair (older...newer). */
  function Status(p: DiffPair, compare: (string, string) -> CompareReply): int {
    compare(p.older, p.newer).status
  }

  /** The narration input built from the comparison of one pair. */
  function PairInput(p: DiffPair, compare: (string, string) -> CompareReply): string {
    Content(compare(p.older, p.newer).files)
  }

  /** The two requests one passing pair causes: its comparison, then its narration. */
  function PairCalls(p: DiffPair, compare: (string, string) -> CompareReply): seq<Call> {
    [CompareRequest(p.older, p.newer), LlmRequest(NarrationPrompt, PairInput(p, compare))]
  }

  /** The requests of a sequence of passing pairs, pair after pair. */
  function AllPairCalls(pairs: seq<DiffPair>, compare: (string, string) -> CompareReply): seq<Call> {
    if |pairs| == 0 then []
    else AllPairCalls(pairs[..|pairs| - 1], compare) + PairCalls(pairs[|pairs| - 1], compare)
  }

  /** The narration of each pair, in pair order. */
  function Narrations(pairs: seq<DiffPair>, compare: (string, string) -> CompareReply,
                      llm: (Prompt, string) -> string): seq<string>
  {
    seq(|pairs|, j requires 0 <= j < |pairs| => llm(NarrationPrompt, PairInput(pairs[j], compare)))
  }

  /** The comparisons of the first `k` pairs all pass the `> 200` check. */
  predicate ComparesPass(pairs: seq<DiffPair>, compare: (string, string) -> CompareReply, k: nat)
    requires k <= |pairs|
  {
    forall j :: 0 <= j < k ==> Status(pairs[j], compare) <= 200
  }

  /** The index of the first pair whose comparison fails, or `|pairs|` if none does. */
  function FirstFailure(pairs: seq<DiffPair>, compare: (string, string) -> CompareReply): (k: nat)
    ensures k <= |pairs|
    ensures ComparesPass(pairs, compare, k)
    ensures k < |pairs| ==> Status(pairs[k], compare) > 200
  {
    if |pairs| == 0 || Status(pairs[0], compare) > 200 then 0
    else 1 + FirstFailure(pairs[1..], compare)
  }

  /** The compare loop, pair by pair as list_commits runs it: a status above 200 stops
      it; otherwise the diff's content is narrated and the narration appended. */
  function NarrateAll(pairs: seq<DiffPair>, compare: (string, string) -> CompareReply,
                      llm: (Prompt, string) -> string): (n: Narration)
    ensures n.Aborted? ==> n.status > 200 && 0 < |n.calls| < 2 * |pairs| && n.calls[|n.calls| - 1].CompareRequest?
    ensures n.Narrated? ==> |n.calls| == 2 * |pairs|
  {
    if |pairs| == 0 then Narrated("", [])
    else
      var p := pairs[|pairs| - 1];
      match NarrateAll(pairs[..|pairs| - 1], compare, llm)
      case Aborted(s, calls) => Aborted(s, calls)
      case Narrated(text, calls) =>
        if Status(p, compare) > 200 then Aborted(Status(p, compare), calls + [CompareRequest(p.older, p.newer)])
        else Narrated(text + llm(NarrationPrompt, PairInput(p, compare)), calls + PairCalls(p, compare))
  }

  /** list_commits on a listing reply, a comparison oracle and a model. */
  function Run(listingStatus: int, commits: seq<CommitRef>,
               compare: (string, string) -> CompareReply, llm: (Prompt, string) -> string): (t: Trace)
    ensures |t.calls| >= 1 && t.calls[0] == ListRequest
    ensures t.reply.success <==> t.reply.statusCode < 400
    ensures t.reply.data.Some? <==> t.reply.message == TweetIsHere
  {
    if listingStatus >= 400 then Trace(Make(listingStatus, None, SomethingWentWrong), [ListRequest])
    else if |commits| <= 1 then Trace(Make(400, None, CommitsMustBeGreaterThanOne), [ListRequest])
    else
      var narration := NarrateAll(Pairs(commits), compare, llm);
      if narration.Aborted? then Trace(Make(narration.status, None, ErrorWhileComparingCommits), [ListRequest] + narration.calls)
      else
        var tweet := llm(TweetPrompt, narration.text);
        Trace(Make(200, Some(Tweet(tweet)), TweetIsHere), [ListRequest] + narration.calls + [LlmRequest(TweetPrompt, narration.text)])
  }

  /** The requests of passing pairs alternate: the comparison of pair `j` (older...newer,
      in pair order), then the narration of its content; no tweet request among them. */
  lemma {:induction false} AllPairCallsShape(pairs: seq<DiffPair>, compare: (string, string) -> CompareReply)
    ensures |AllPairCalls(pairs, compare)| == 2 * |pairs|
    ensures forall j :: 0 <= j < |pairs| ==>
      AllPairCalls(pairs, compare)[2 * j] == CompareRequest(pairs[j].older, pairs[j].newer) &&
      AllPairCalls(pairs, compare)[2 * j + 1] == LlmRequest(NarrationPrompt, PairInput(pairs[j], compare))
    ensures forall c :: c in AllPairCalls(pairs, compare) && c.LlmRequest? ==> c.prompt == NarrationPrompt
  {
    if |pairs| > 0 {
      var n := |pairs| - 1;
      var init := pairs[..n];
      AllPairCallsShape(init, compare);
      var calls0 := AllPairCalls(init, compare);
      var calls := AllPairCalls(pairs, compare);
      assert calls == calls0 + PairCalls(pairs[n], compare);
      forall j | 0 <= j < |pairs|
        ensures calls[2 * j] == CompareRequest(pairs[j].older, pairs[j].newer)
        ensures calls[2 * j + 1] == LlmRequest(NarrationPrompt, PairInput(pairs[j], compare))
      {
        if j < n {
          assert init[j] == pairs[j];
          assert calls[2 * j] == calls0[2 * j];
          assert calls[2 * j + 1] == calls0[2 * j + 1];
        }
      }
    }
  }

  /** When every comparison passes, the loop narrates every pair in order and
      `tweet_refrence` is the concatenation of the narrations, with no separator. */
  lemma {:induction false} NarrateAllPasses(pairs: seq<DiffPair>, compare: (string, string) -> CompareReply,
                                           llm: (Prompt, string) -> string)
    requires ComparesPass(pairs, compare, |pairs|)
    ensures NarrateAll(pairs, compare, llm) ==
            Narrated(Concat(Narrations(pairs, compare, llm)), AllPairCalls(pairs, compare))
  {
    if |pairs| > 0 {
      var n := |pairs| - 1;
      var init := pairs[..n];
      assert forall j :: 0 <= j < n ==> init[j] == pairs[j];
      NarrateAllPasses(init, compare, llm);
      var ns := Narrations(pairs, compare, llm);
      assert ns[..n] == Narrations(init, compare, llm);
    }
  }

  /** When pair `k` is the first whose comparison fails, the loop stops right after that
      comparison with its status code: the narrations so far are dropped and the later
      pairs are never compared. */
  lemma {:induction false} NarrateAllAborts(pairs: seq<DiffPair>, compare: (string, string) -> CompareReply,
                                           llm: (Prompt, string) -> string, k: nat)
    requires k < |pairs| && ComparesPass(pairs, compare, k) && Status(pairs[k], compare) > 200
    ensures NarrateAll(pairs, compare, llm) ==
            Aborted(Status(pairs[k], compare),
                    AllPairCalls(pairs[..k], compare) + [CompareRequest(pairs[k].older, pairs[k].newer)])
  {
    var n := |pairs| - 1;
    var init := pairs[..n];
    assert forall j :: 0 <= j < n ==> init[j] == pairs[j];
    if k == n {
      NarrateAllPasses(init, compare, llm);
    } else {
      assert init[..k] == pairs[..k];
      NarrateAllAborts(init, compare, llm, k);
    }
  }

  /** One more turn of the compare loop, after the first `i` pairs passed. */
  lemma {:induction false} NarrateAllStep(pairs: seq<DiffPair>, compare: (string, string) -> CompareReply,
                       llm: (Prompt, string) -> string, i: nat, text: string, calls: seq<Call>)
    requires i < |pairs| && NarrateAll(pairs[..i], compare, llm) == Narrated(text, calls)
    ensures NarrateAll(pairs[..i + 1], compare, llm) ==
            if Status(pairs[i], compare) > 200
            then Aborted(Status(pairs[i], compare), calls + [CompareRequest(pairs[i].older, pairs[i].newer)])
            else Narrated(text + llm(NarrationPrompt, PairInput(pairs[i], compare)), calls + PairCalls(pairs[i], compare))
  {
    assert pairs[..i + 1][..i] == pairs[..i];
  }

  /** Once the loop has stopped on some prefix of the pairs, the later pairs change nothing. */
  lemma {:induction false} AbortPersists(pairs: seq<DiffPair>, compare: (string, string) -> CompareReply,
                                        llm: (Prompt, string) -> string, m: nat)
    requires m <= |pairs| && NarrateAll(pairs[..m], compare, llm).Aborted?
    ensures NarrateAll(pairs, compare, llm) == NarrateAll(pairs[..m], compare, llm)
    decreases |pairs|
  {
    if m == |pairs| {
      assert pairs[..m] == pairs;
    } else {
      var init := pairs[..|pairs| - 1];
      assert init[..m] == pairs[..m];
      AbortPersists(init, compare, llm, m);
    }
  }

  /** The comparison requests among a list of requests, in order. */
  function Compares(calls: seq<Call>): seq<Call> {
    if |calls| == 0 then []
    else Compares(calls[..|calls| - 1]) + if calls[|calls| - 1].CompareRequest? then [calls[|calls| - 1]] else []
  }

  /** The comparison request of each pair, older...newer, in pair order. */
  function CompareRequests(pairs: seq<DiffPair>): seq<Call> {
    seq(|pairs|, j requires 0 <= j < |pairs| => CompareRequest(pairs[j].older, pairs[j].newer))
  }

  lemma {:induction false} ComparesAppend(a: seq<Call>, b: seq<Call>)
    ensures Compares(a + b) == Compares(a) + Compares(b)
    decreases |b|
  {
    if |b| > 0 {
      var b0 := b[..|b| - 1];
      var x := b[|b| - 1];
      var tail := if x.CompareRequest? then [x] else [];
      assert (a + b)[..|a + b| - 1] == a + b0;
      assert (a + b)[|a + b| - 1] == x;
      assert Compares(a + b) == Compares(a + b0) + tail;
      assert Compares(b) == Compares(b0) + tail;
      ComparesAppend(a, b0);
    } else {
      assert a + b == a;
    }
  }

  /** The comparisons among one passing pair's requests: just its own. */
  lemma {:induction false} ComparesOfPair(p: DiffPair, compare: (string, string) -> CompareReply)
    ensures Compares(PairCalls(p, compare)) == [CompareRequest(p.older, p.newer)]
  {
    var c := CompareRequest(p.older, p.newer);
    var l := LlmRequest(NarrationPrompt, PairInput(p, compare));
    assert PairCalls(p, compare) == [c] + [l];
    ComparesAppend([c], [l]);
    ComparesSingle(c);
    ComparesSingle(l);
  }

  /** Passing pairs are compared exactly once each, in pair order. */
  lemma {:induction false} ComparesOfPairCalls(pairs: seq<DiffPair>, compare: (string, string) -> CompareReply)
    ensures Compares(AllPairCalls(pairs, compare)) == CompareRequests(pairs)
  {
    if |pairs| > 0 {
      var n := |pairs| - 1;
      var p := pairs[n];
      var init := pairs[..n];
      assert AllPairCalls(pairs, compare) == AllPairCalls(init, compare) + PairCalls(p, compare);
      ComparesAppend(AllPairCalls(init, compare), PairCalls(p, compare));
      ComparesOfPair(p, compare);
      ComparesOfPairCalls(init, compare);
      CompareRequestsSnoc(pairs);
    }
  }

  /** One more pair adds its comparison at the end. */
  lemma {:induction false} CompareRequestsSnoc(pairs: seq<DiffPair>)
    requires |pairs| > 0
    ensures CompareRequests(pairs) ==
            CompareRequests(pairs[..|pairs| - 1]) + [CompareRequest(pairs[|pairs| - 1].older, pairs[|pairs| - 1].newer)]
  {
    var n := |pairs| - 1;
    var init := pairs[..n];
    var all := CompareRequests(pairs);
    var before := CompareRequests(init);
    forall j | 0 <= j < n
      ensures all[j] == before[j]
    {
      assert init[j] == pairs[j];
    }
  }

  /** A failing listing or a list of fewer than two commits returns at once, and these
      are the only cases where nothing but the listing request is made. */
  lemma {:induction false} RunShortCircuits(listingStatus: int, commits: seq<CommitRef>,
                         compare: (string, string) -> CompareReply, llm: (Prompt, string) -> string)
    ensures Run(listingStatus, commits, compare, llm).calls == [ListRequest] <==>
            listingStatus >= 400 || |commits| <= 1
    ensures listingStatus >= 400 ==>
            Run(listingStatus, commits, compare, llm).reply == Reply(listingStatus, None, SomethingWentWrong, false)
    ensures listingStatus < 400 && |commits| <= 1 ==>
            Run(listingStatus, commits, compare, llm).reply == Reply(400, None, CommitsMustBeGreaterThanOne, false)
  {
    if listingStatus < 400 && |commits| > 1 {
      var ps := Pairs(commits);
      var k := FirstFailure(ps, compare);
      if k < |ps| {
        NarrateAllAborts(ps, compare, llm, k);
      } else {
        NarrateAllPasses(ps, compare, llm);
      }
    }
  }

  /** With a good listing of at least two commits and every comparison passing, each pair
      is compared and narrated in order, the tweet model gets the narrations concatenated,
      and the success envelope carries its answer. */
  lemma {:induction false} RunSucceeds(listingStatus: int, commits: seq<CommitRef>,
                    compare: (string, string) -> CompareReply, llm: (Prompt, string) -> string)
    requires listingStatus < 400 && |commits| >= 2
    requires ComparesPass(Pairs(commits), compare, |commits| - 1)
    ensures var reference := Concat(Narrations(Pairs(commits), compare, llm));
            Run(listingStatus, commits, compare, llm) ==
            Trace(Reply(200, Some(Tweet(llm(TweetPrompt, reference))), TweetIsHere, true),
                  [ListRequest] + AllPairCalls(Pairs(commits), compare) + [LlmRequest(TweetPrompt, reference)])
  {
    var ps := Pairs(commits);
    NarrateAllPasses(ps, compare, llm);
    var reference := Concat(Narrations(ps, compare, llm));
    assert NarrateAll(ps, compare, llm) == Narrated(reference, AllPairCalls(ps, compare));
  }

  /** The first comparison with a status above 200 ends the run with that status and no
      data: the accumulated narrations are discarded, later pairs are not compared and
      the tweet model is never asked. The flag follows the status, so a status from 201
      to 399 gives an error message with `success` true. */
  lemma {:induction false} RunAbortsOnFirstCompareError(listingStatus: int, commits: seq<CommitRef>,
                                     compare: (string, string) -> CompareReply, llm: (Prompt, string) -> string,
                                     k: nat)
    requires listingStatus < 400 && k < |commits| - 1
    requires ComparesPass(Pairs(commits), compare, k) && Status(Pairs(commits)[k], compare) > 200
    ensures var ps := Pairs(commits);
            var s := Status(ps[k], compare);
            Run(listingStatus, commits, compare, llm) ==
            Trace(Reply(s, None, ErrorWhileComparingCommits, s < 400),
                  [ListRequest] + AllPairCalls(ps[..k], compare) + [CompareRequest(ps[k].older, ps[k].newer)])
    ensures forall c :: c in Run(listingStatus, commits, compare, llm).calls && c.LlmRequest? ==>
            c.prompt == NarrationPrompt
  {
    var ps := Pairs(commits);
    var s := Status(ps[k], compare);
    var calls := AllPairCalls(ps[..k], compare) + [CompareRequest(ps[k].older, ps[k].newer)];
    NarrateAllAborts(ps, compare, llm, k);
    assert NarrateAll(ps, compare, llm) == Aborted(s, calls);
    AllPairCallsShape(ps[..k], compare);
  }

  /** A single request is kept exactly when it is a comparison. */
  lemma {:induction false} ComparesSingle(c: Call)
    ensures Compares([c]) == if c.CompareRequest? then [c] else []
  {
    assert [c][..0] == [];
  }

  /** The comparisons among the requests of a run that got past the listing: those of
      the middle part, then the last request if it is one. */
  lemma {:induction false} ComparesFramed(middle: seq<Call>, last: Call)
    ensures Compares([ListRequest] + middle + [last]) ==
            Compares(middle) + if last.CompareRequest? then [last] else []
  {
    var head := [ListRequest] + middle;
    assert Compares(head) == Compares(middle) by {
      ComparesAppend([ListRequest], middle);
      ComparesSingle(ListRequest);
    }
    assert Compares(head + [last]) == Compares(head) + Compares([last]) by {
      ComparesAppend(head, [last]);
    }
    ComparesSingle(last);
  }

  /** The comparisons of a run stopped by pair `k`: those of the pairs before it, then its own. */
  lemma {:induction false} ComparesAfterAbort(pairs: seq<DiffPair>, compare: (string, string) -> CompareReply, k: nat)
    requires k < |pairs|
    ensures Compares([ListRequest] + (AllPairCalls(pairs[..k], compare) + [CompareRequest(pairs[k].older, pairs[k].newer)])) ==
            CompareRequests(pairs[..k + 1])
  {
    var req := CompareRequest(pairs[k].older, pairs[k].newer);
    var before := AllPairCalls(pairs[..k], compare);
    assert [ListRequest] + (before + [req]) == [ListRequest] + before + [req];
    ComparesFramed(before, req);
    ComparesOfPairCalls(pairs[..k], compare);
    assert pairs[..k + 1][..k] == pairs[..k];
    assert CompareRequests(pairs[..k + 1]) == CompareRequests(pairs[..k]) + [req];
  }

  /** The comparisons of a run through every pair, ended by a request that is not a comparison. */
  lemma {:induction false} ComparesAfterNarration(pairs: seq<DiffPair>, compare: (string, string) -> CompareReply,
                                                 last: Call)
    requires !last.CompareRequest?
    ensures Compares([ListRequest] + AllPairCalls(pairs, compare) + [last]) == CompareRequests(pairs)
  {
    ComparesFramed(AllPairCalls(pairs, compare), last);
    ComparesOfPairCalls(pairs, compare);
  }

  /** The comparisons are requested older...newer in pair order, up to and including the
      first that fails, and no further. */
  lemma {:induction false} RunComparesInPairOrder(listingStatus: int, commits: seq<CommitRef>,
                               compare: (string, string) -> CompareReply, llm: (Prompt, string) -> string)
    requires listingStatus < 400 && |commits| >= 2
    ensures var ps := Pairs(commits);
            var k := FirstFailure(ps, compare);
            Compares(Run(listingStatus, commits, compare, llm).calls) ==
            CompareRequests(ps[..if k < |ps| then k + 1 else k])
  {
    var ps := Pairs(commits);
    var k := FirstFailure(ps, compare);
    if k < |ps| {
      var middle := AllPairCalls(ps[..k], compare) + [CompareRequest(ps[k].older, ps[k].newer)];
      NarrateAllAborts(ps, compare, llm, k);
      RunWhenAborted(listingStatus, commits, compare, llm, ps, Status(ps[k], compare), middle);
      ComparesAfterAbort(ps, compare, k);
    } else {
      var reference := Concat(Narrations(ps, compare, llm));
      NarrateAllPasses(ps, compare, llm);
      RunWhenNarrated(listingStatus, commits, compare, llm, ps, reference, AllPairCalls(ps, compare));
      ComparesAfterNarration(ps, compare, LlmRequest(TweetPrompt, reference));
      assert ps[..k] == ps;
    }
  }

  /** `Run` when the listing fails. */
  lemma {:induction false} RunWhenListingFails(listingStatus: int, commits: seq<CommitRef>,
                            compare: (string, string) -> CompareReply, llm: (Prompt, string) -> string)
    requires listingStatus >= 400
    ensures Run(listingStatus, commits, compare, llm) ==
            Trace(Reply(listingStatus, None, SomethingWentWrong, false), [ListRequest])
  {
  }

  /** `Run` when a good listing has fewer than two commits. */
  lemma {:induction false} RunWhenTooFewCommits(listingStatus: int, commits: seq<CommitRef>,
                             compare: (string, string) -> CompareReply, llm: (Prompt, string) -> string)
    requires listingStatus < 400 && |commits| <= 1
    ensures Run(listingStatus, commits, compare, llm) ==
            Trace(Reply(400, None, CommitsMustBeGreaterThanOne, false), [ListRequest])
  {
  }

  /** `Run` once the compare loop has stopped on a failing comparison. */
  lemma {:induction false} RunWhenAborted(listingStatus: int, commits: seq<CommitRef>,
                       compare: (string, string) -> CompareReply, llm: (Prompt, string) -> string,
                       pairs: seq<DiffPair>, status: int, calls: seq<Call>)
    requires listingStatus < 400 && |commits| > 1 && pairs == Pairs(commits)
    requires NarrateAll(pairs, compare, llm) == Aborted(status, calls)
    ensures Run(listingStatus, commits, compare, llm) ==
            Trace(Reply(status, None, ErrorWhileComparingCommits, status < 400), [ListRequest] + calls)
  {
  }

  /** `Run` once the compare loop has gone through every pair. */
  lemma {:induction false} RunWhenNarrated(listingStatus: int, commits: seq<CommitRef>,
                        compare: (string, string) -> CompareReply, llm: (Prompt, string) -> string,
                        pairs: seq<DiffPair>, text: string, calls: seq<Call>)
    requires listingStatus < 400 && |commits| > 1 && pairs == Pairs(commits)
    requires NarrateAll(pairs, compare, llm) == Narrated(text, calls)
    ensures Run(listingStatus, commits, compare, llm) ==
            Trace(Reply(200, Some(Tweet(llm(TweetPrompt, text))), TweetIsHere, true),
                  [ListRequest] + calls + [LlmRequest(TweetPrompt, text)])
  {
  }

  /** The compare loop of GitApi.list_commits over the extracted pairs: each pair is
      compared older...newer; a status above 200 stops the loop with that status in
      `failure`, otherwise the diff's content is narrated and appended to
      `tweetRefrence`. The requests it makes and its outcome are those given by
      `NarrateAll`. */
  method ComparePairs(world: World, diffSha: seq<DiffPair>) returns (failure: Option<int>, tweetRefrence: string)
    modifies world
    ensures var n := NarrateAll(diffSha, world.compare, world.llm);
            world.log == old(world.log) + n.calls &&
            (if n.Aborted? then failure == Some(n.status) else failure == None && tweetRefrence == n.text)
  {
    tweetRefrence := "";
    ghost var start := world.log;
    ghost var calls: seq<Call> := [];
    var i := 0;
    while i < |diffSha|
      invariant 0 <= i <= |diffSha|
      invariant NarrateAll(diffSha[..i], world.compare, world.llm) == Narrated(tweetRefrence, calls)
      invariant world.log == start + calls
    {
      var diff := diffSha[i];
      NarrateAllStep(diffSha, world.compare, world.llm, i, tweetRefrence, calls);
      var response := world.FetchCompare(diff.older, diff.newer);
      if response.status > 200 {
        AppendRegroup(start, calls, [CompareRequest(diff.older, diff.newer)]);
        calls := calls + [CompareRequest(diff.older, diff.newer)];
        AbortPersists(diffSha, world.compare, world.llm, i + 1);
        return Some(response.status), tweetRefrence;
      }
      var content := BuildContent(response.files);
      var llmResult := world.Invoke(NarrationPrompt, content);
      AppendRegroup(start + calls, [CompareRequest(diff.older, diff.newer)], [LlmRequest(NarrationPrompt, content)]);
      AppendRegroup(start, calls, PairCalls(diff, world.compare));
      calls := calls + PairCalls(diff, world.compare);
      tweetRefrence := tweetRefrence + llmResult;
      i := i + 1;
    }
    assert diffSha[..i] == diffSha;
    failure := None;
  }

  /** Appending to a log in two steps is appending the two parts at once. */
  lemma {:induction false} AppendRegroup(log: seq<Call>, a: seq<Call>, b: seq<Call>)
    ensures log + a + b == log + (a + b)
  {
  }

  /** Regrouping the log: the listing request, the compare loop's requests and the
      requests after it, appended one part at a time. */
  lemma {:induction false} LogRegroup(log: seq<Call>, calls: seq<Call>, after: seq<Call>)
    ensures log + [ListRequest] + calls + after == log + ([ListRequest] + calls + after)
  {
  }

  /** GitApi.list_commits against the world: the listing request, the status and length
      checks, the pair extraction, the compare loop with its early return, and the final
      tweet request. Its requests and its envelope are those `Run` gives. */
  method ListCommits(world: World) returns (r: Response)
    modifies world
    ensures fresh(r)
    ensures var t := Run(world.listingStatus, world.listing, world.compare, world.llm);
            world.log == old(world.log) + t.calls && r.View() == t.reply
  {
    ghost var log0 := world.log;
    var status, commits := world.FetchCommits();
    if status >= 400 {
      RunWhenListingFails(world.listingStatus, commits, world.compare, world.llm);
      r := new Response(status, None, SomethingWentWrong);
      return;
    }
    if |commits| <= 1 {
      RunWhenTooFewCommits(world.listingStatus, commits, world.compare, world.llm);
      r := new Response(400, None, CommitsMustBeGreaterThanOne);
      return;
    }
    var diffSha := ExtractPairs(commits);
    ghost var narration := NarrateAll(diffSha, world.compare, world.llm);
    var failure, tweetRefrence := ComparePairs(world, diffSha);
    if failure.Some? {
      RunWhenAborted(world.listingStatus, commits, world.compare, world.llm, diffSha, narration.status, narration.calls);
      AppendRegroup(log0, [ListRequest], narration.calls);
      r := new Response(failure.value, None, ErrorWhileComparingCommits);
      return;
    }
    RunWhenNarrated(world.listingStatus, commits, world.compare, world.llm, diffSha, tweetRefrence, narration.calls);
    var tweet := world.Invoke(TweetPrompt, tweetRefrence);
    LogRegroup(log0, narration.calls, [LlmRequest(TweetPrompt, tweetRefrence)]);
    r := new Response(200, Some(Tweet(tweet)), TweetIsHere);
  }
}
