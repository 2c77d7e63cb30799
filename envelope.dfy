/** The response envelope every reply of the service is wrapped in. */
module Envelope {

  import opened Wrappers

  /** The `data` of the success reply: the JSON object `{"tweet": ...}`. */
  datatype Payload = Tweet(tweet: string)

  /** The fixed message texts the envelopes carry. */
  datatype Message =
    | Success
    | SomethingWentWrong
    | CommitsMustBeGreaterThanOne
    | ErrorWhileComparingCommits
    | TweetIsHere
  {
    function Text(): string {
      match this
      case Success => "Success"
      case SomethingWentWrong => "Something went wrong!"
      case CommitsMustBeGreaterThanOne => "Commits must be greater than one"
      case ErrorWhileComparingCommits => "Error while comparing commits"
      case TweetIsHere => "Your today's tweet message is here."
    }
  }

  /** Distinct messages have distinct texts, so naming a message loses nothing. */
  lemma {:induction false} TextInjective(m: Message, n: Message)
    ensures m.Text() == n.Text() ==> m == n
  {
  }

  /** The value an envelope holds: status code, data (`None` for Python's `None`),
      message and success flag. */
  datatype Reply = Reply(statusCode: int, data: Option<Payload>, message: Message, success: bool)

  /** The envelope `Response(statusCode, data, message)` builds when no `success` is
      passed, as list_commits always calls it. */
  function Make(statusCode: int, data: Option<Payload>, message: Message): (r: Reply)
    ensures r.statusCode == statusCode && r.data == data && r.message == message
    ensures r.success <==> statusCode < 400
  {
    Reply(statusCode, data, message, statusCode < 400)
  }

  /** The `Response` class: four fields set by the constructor, `success` derived from
      the status code unless it is passed explicitly. */
  class Response {
    var statusCode: int
    var data: Option<Payload>
    var message: Message
    var success: bool

    function View(): Reply
      reads this
    {
      Reply(statusCode, data, message, success)
    }

    constructor (statusCode: int := 200, data: Option<Payload> := None, message: Message := Success,
                 success: Option<bool> := None)
      ensures success.None? ==> View() == Make(statusCode, data, message)
      ensures success.Some? ==> View() == Reply(statusCode, data, message, success.value)
    {
      this.statusCode := statusCode;
      this.data := data;
      this.message := message;
      if success.Some? {
        this.success := success.value;
      } else {
        this.success := statusCode < 400;
      }
    }
  }
}
