# TweetMyCommit backend core in Dafny

TweetMyCommit turns a developer's recent commits into a tweet. The method behind the
backend endpoint, `GitApi.list_commits` (backend/main.py), works in these steps:

1. It lists up to twenty commits of a repository, newest first, from a fixed window: the
   four days before the module was imported. The `since` and `until` defaults are
   evaluated once, when the method is defined, and the route never passes them, so the
   window stays the same for the life of the process.
2. It pairs each commit but the last with the next one in the list, its predecessor in time.
3. It asks the code host to compare each pair (older...newer).
4. For each comparison it builds a text from the files that carry a patch. Each line is
   tagged with the file's position in the reply.
5. It has a text model narrate that text.
6. It hands the narrations, concatenated, to the model once more for a tweet.

Every outcome is wrapped in a `Response` envelope: status code, data, message and a
`success` flag.

This project models the envelope class and the whole of `list_commits` imperatively:

- **`Envelope.Response`** is a class. Its constructor keeps Python's defaults.
  `Envelope.Reply` is its value view, and `Envelope.Make` is the envelope built when no
  `success` is passed.
- **`Upstream.World`** stands for everything outside the function: the listing endpoint,
  the comparison endpoint and the text model. Each is a fixed oracle. Every request
  made goes, in order, onto the world's `log`.
- **`GitApi.ListCommits`** is the endpoint body, written as a method with the source's
  loops:
  - `Pairing.ExtractPairs` is the `enumerate` loop that builds `diff_sha`;
  - `GitApi.ComparePairs` is the compare loop, including its early return;
  - `Patches.BuildContent` is the inner loop that builds `content`.
- **Specification functions.** Each loop is proved against a pure function:
  `Pairing.Pairs`, `GitApi.NarrateAll` and `Patches.Content`. The whole endpoint is
  proved against `GitApi.Run`, which gives the envelope and the exact list of requests
  for a listing reply, a comparison oracle and a model.
- **Lemmas about `Run`** state the endpoint's promises:
  - which statuses short-circuit, and that they make no further request;
  - the order of the compare and model requests;
  - that the narrations are concatenated with no separator;
  - that the first failing comparison discards everything accumulated;
  - which envelope comes back in each case.

The model follows the code as written:

- **No truncation.** Neither the commit list nor the file list is cut to a maximum.
  No character budget is applied to the content.
- **Two thresholds.** The listing fails at status `>= 400`, but a comparison fails at
  status `> 200`. So a comparison answered with 201 to 399 ends the run with "Error while
  comparing commits", and that envelope carries `success == true`, because the flag
  follows `statusCode < 400`. `GitApi.RunAbortsOnFirstCompareError` states this.
- **Ids keep their gaps.** The index in each content line is the file's position in the
  whole file list. Files without a patch leave a gap in the ids.

## Model

| member | source | states |
|---|---|---|
| Envelope.Response.constructor | backend/main.py:21-29 | Without `success`, the envelope holds the given status, data and message, and `success` is `statusCode < 400`. A `success` that is passed is stored unchanged, whatever the status. |
| Envelope.Make | backend/main.py:22-29 | The envelope built without a `success` argument keeps status, data and message, and has `success` exactly when the status is below 400. |
| Envelope.TextInjective | backend/main.py:22-124 | Distinct messages have distinct texts, so modelling the message strings as an enumeration loses nothing. |
| Upstream.World.FetchCommits | backend/main.py:41-43 | The listing request returns the listing's status and commit list, and is recorded as one request. |
| Upstream.World.FetchCompare | backend/main.py:60-61 | A comparison request returns the oracle's answer for `base...head`, and is recorded with exactly that base and head. |
| Upstream.World.Invoke | backend/main.py:74-118 | A model request returns the model's answer for the instruction and the human content, and is recorded with both. |
| Pairing.Pairs | backend/main.py:50-55 | For `n >= 1` commits there are exactly `n - 1` pairs, and none for an empty list. Pair `i` is (commit `i`, commit `i + 1`): newer first, adjacent, in list order. |
| Pairing.ExtractPairs | backend/main.py:50-55 | The `enumerate` loop that appends `[sha, commits[index+1].sha]` for every index but the last builds exactly `Pairs(commits)`. |
| Patches.Line | backend/main.py:72 | The line for one patched file is the f-string `"id: {idx},filename: {filename} & changed content: {patch}\n"`: it starts with `id: `, ends with a newline, and is 36 characters longer than the rendered index, the file name and the patch together. |
| Patches.Content | backend/main.py:68-72 | The content as the loop accumulates it, file by file, appending the line of each file that has a patch. A file list with no patch gives the empty string. |
| Strings.NatToString | backend/main.py:72 | The rendered id is non-empty, all digits and has no leading zero. It is "0" exactly for 0. |
| Strings.DecimalRoundTrip | backend/main.py:72 | The rendered id reads back as the index, so distinct indices give distinct ids. |
| Strings.ConcatSnoc | backend/main.py:72 | Appending one more string with `+=` extends the concatenation by that string. |
| Patches.PatchedIndices | backend/main.py:70-71 | The indices that contribute are in range and strictly increasing. They are exactly the files that carry a patch. |
| Patches.LinesSnoc | backend/main.py:70-72 | Visiting one more file adds its tagged line when it has a patch, and nothing otherwise. |
| Patches.ContentIsLines | backend/main.py:68-72 | The content is one line per patched file, in file order, each line tagged with the file's index in the whole list. Unpatched files contribute nothing and leave gaps in the ids. |
| Patches.BuildContent | backend/main.py:68-72 | The inner loop builds exactly `Content(files)`, which is the concatenation of the patched files' lines. |
| GitApi.NarrateAll | backend/main.py:57-90 | The compare loop as a function of the pairs. If it stops early, it stops with a status above 200, right after a comparison request, having made fewer than two requests per pair. If it runs through, it makes exactly two requests per pair. |
| GitApi.Run | backend/main.py:40-124 | The whole of list_commits as a function of the listing reply, the comparison oracle and the model: the envelope returned and every request made, in order. The first request is always the listing. `success` is true exactly when the status is below 400. Data is present exactly with the tweet message. |
| GitApi.FirstFailure | backend/main.py:59-64 | Every pair before the returned index passes the `> 200` check, and the pair at that index (if any) fails it. |
| GitApi.AllPairCallsShape | backend/main.py:59-90 | While comparisons pass, pair `j` causes exactly two requests: first its comparison older...newer, then the narration of its content. No tweet request is among them. |
| GitApi.NarrateAllPasses | backend/main.py:57-90 | When every comparison passes, the loop ends with `tweet_refrence` equal to the narrations concatenated in pair order with no separator. Its requests are those of every pair. |
| GitApi.NarrateAllAborts | backend/main.py:59-64 | When pair `k` is the first to fail, the loop stops right after that comparison with its status. Later pairs are not compared. |
| GitApi.NarrateAllStep | backend/main.py:59-90 | One turn of the compare loop: a failing comparison stops it with that status; otherwise the narration is appended and both requests are recorded. |
| GitApi.AbortPersists | backend/main.py:63-64 | Once the loop has returned on some prefix of the pairs, the remaining pairs change nothing. |
| GitApi.ComparesAppend | backend/main.py:59-61 | Picking out the comparison requests distributes over concatenating request lists. |
| GitApi.ComparesSingle | backend/main.py:59-61 | A single request is counted as a comparison exactly when it is one. |
| GitApi.ComparesFramed | backend/main.py:42-118 | Around a run's middle requests, the leading listing request adds no comparison, and the last request adds itself exactly when it is a comparison. |
| GitApi.ComparesOfPair | backend/main.py:59-86 | A passing pair makes exactly one comparison, older...newer. |
| GitApi.ComparesOfPairCalls | backend/main.py:59-61 | While comparisons pass, each pair is compared exactly once, older...newer, in pair order. |
| GitApi.ComparesAfterAbort | backend/main.py:59-64 | A run stopped by pair `k` has compared pairs `0..k` in order, and nothing more. |
| GitApi.ComparesAfterNarration | backend/main.py:59-118 | A run through every pair has compared every pair in order, and nothing more. |
| GitApi.RunShortCircuits | backend/main.py:42-48 | A listing status `>= 400` returns (status, None, "Something went wrong!", false). A good listing of at most one commit returns (400, None, "Commits must be greater than one", false). These are exactly the runs that make no request beyond the listing. |
| GitApi.RunSucceeds | backend/main.py:57-124 | With at least two commits and every comparison passing, each pair is compared and narrated in order. The tweet model gets the narrations concatenated, and the result is (200, {"tweet": answer}, "Your today's tweet message is here.", true). |
| GitApi.RunAbortsOnFirstCompareError | backend/main.py:59-64 | The first comparison with status `> 200` returns (status, None, "Error while comparing commits", status < 400). Later pairs are not compared and the narrations are discarded. The tweet model is never asked. |
| GitApi.RunComparesInPairOrder | backend/main.py:59-64 | The comparisons requested are those of the pairs in order, older...newer, up to and including the first that fails, and none after it. |
| GitApi.RunWhenListingFails | backend/main.py:44-45 | A listing status of 400 or more returns (status, None, "Something went wrong!", false) after the listing request alone. |
| GitApi.RunWhenTooFewCommits | backend/main.py:47-48 | A good listing of at most one commit returns (400, None, "Commits must be greater than one", false) after the listing request alone. |
| GitApi.RunWhenAborted | backend/main.py:63-64 | Once the compare loop has stopped on a failing comparison, the run returns that status with "Error while comparing commits" and makes no further request. |
| GitApi.RunWhenNarrated | backend/main.py:92-124 | Once the compare loop has gone through every pair, the run asks for the tweet with the accumulated text and returns the success envelope. |
| GitApi.ComparePairs | backend/main.py:57-90 | The compare loop records exactly the requests `NarrateAll` gives. It reports the failing status when the loop stops early, and otherwise returns the accumulated `tweet_refrence`. |
| GitApi.ListCommits | backend/main.py:40-124 | The endpoint returns a fresh envelope equal to `Run`'s reply for the world's oracles. It makes exactly `Run`'s requests, in order. |

## Left out

- Upstream.World: its oracles are total, so no request in the model can fail. The source's uncaught exceptions are not modelled. These are a network error in `requests.get` (lines 42 and 61), a body that is not JSON in `response.json()` (lines 43 and 66), and an error raised by `llm.invoke` (lines 74 and 92). Each of them ends the request with a server error and no envelope. In particular, the listing body is decoded at line 43, before the `>= 400` test at line 44. So a failing listing whose body is not JSON raises in the source. The model returns the "Something went wrong!" envelope for every status of 400 or more.
- Patches.FileChange: `patch` is an `Option`, so a file whose `"patch"` key is present with the value `null` cannot be told apart from one without the key. The source's `"patch" in file` (line 71) treats the first as patched and would render `None` into its line.
- HTTP and JSON (`requests.get`, `response.json()`): replaced by the world's oracles, because they are I/O. The URLs are not built. Only which SHA is the base and which the head of a comparison is kept.
- The listing's request parameters (`per_page=20`, `since`, `until`) and the default dates, which are read from the clock once at import time and so fix the same four-day window for the life of the process: the listing is an oracle, so they have no effect in the model.
- The text model (Gemini through `llm.invoke`): a deterministic function of the instruction and the human content. Its nondeterminism and the text of the two system prompts are not modelled; the prompts appear only as the two values of `Upstream.Prompt`.
- The message strings are the enumeration `Envelope.Message`, whose `Text` gives the exact wording, because long string constants make the proofs costly.
- `load_dotenv`, environment variables, the API key and the authorisation headers: configuration only.
- The FastAPI route `healthCheck`, its Redis-backed rate limiter and the startup hook: framework code with concurrency handled by the server.
- The `print` calls: debugging output.
- The React frontend: user-interface code outside the backend.
- The compare loop of list_commits is the method `GitApi.ComparePairs`, a method of its own, and its early `return` of the error envelope becomes a `failure` result that `ListCommits` turns into that envelope. The order of requests and envelopes is the same.
- GitApi.ListCommits: a commit or file entry whose `sha`, `filename` or `files` key is missing would raise in the source. The model's records always carry these fields.
