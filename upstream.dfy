/** The outside world list_commits talks to: the code host's listing and comparison
    endpoints and the text-generation model. Each answer comes from a fixed oracle and
    every request is recorded, in order, in `log`. */
module Upstream {

  import opened Pairing
  import opened Patches

  /** Status code and `files` of a comparison reply. */
  datatype CompareReply = CompareReply(status: int, files: seq<FileChange>)

  /** The two system instructions the model is given. */
  datatype Prompt = NarrationPrompt | TweetPrompt

  /** One outgoing request. A comparison addresses `base...head`, i.e. older...newer. */
  datatype Call =
    | ListRequest
    | CompareRequest(base: string, head: string)
    | LlmRequest(prompt: Prompt, human: string)

  class World {
    const listingStatus: int
    const listing: seq<CommitRef>
    const compare: (string, string) -> CompareReply
    const llm: (Prompt, string) -> string
    var log: seq<Call>

    constructor (listingStatus: int, listing: seq<CommitRef>,
                 compare: (string, string) -> CompareReply, llm: (Prompt, string) -> string)
      ensures this.listingStatus == listingStatus && this.listing == listing
      ensures this.compare == compare && this.llm == llm
      ensures log == []
    {
      this.listingStatus := listingStatus;
      this.listing := listing;
      this.compare := compare;
      this.llm := llm;
      log := [];
    }

    /** GET .../commits: the status code and the decoded commit list. */
    method FetchCommits() returns (status: int, commits: seq<CommitRef>)
      modifies this
      ensures status == listingStatus && commits == listing
      ensures log == old(log) + [ListRequest]
    {
      status, commits := listingStatus, listing;
      log := log + [ListRequest];
    }

    /** GET .../compare/{base}...{head}. */
    method FetchCompare(base: string, head: string) returns (reply: CompareReply)
      modifies this
      ensures reply == compare(base, head)
      ensures log == old(log) + [CompareRequest(base, head)]
    {
      reply := compare(base, head);
      log := log + [CompareRequest(base, head)];
    }

    /** `llm.invoke` with a system instruction and the human content. */
    method Invoke(prompt: Prompt, human: string) returns (text: string)
      modifies this
      ensures text == llm(prompt, human)
      ensures log == old(log) + [LlmRequest(prompt, human)]
    {
      text := llm(prompt, human);
      log := log + [LlmRequest(prompt, human)];
    }
  }
}
