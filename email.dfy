/** The email adapter: builds the birthday message, records the attempt on
    the delivery record, posts the message and records the outcome.

    The HTTP call is not modelled: its answer (`Reply`) is an input, and the
    service keeps the list of requests it has posted (`posted`). */
module Email {
  import opened Wrappers
  import opened TimeZones
  import opened MessageLogs

  /** The configuration key holding the email API's base URL. */
  const ApiBaseUrlKey := "EMAIL_API_BASE_URL"

  /** The base URL used when the configuration does not set one. */
  const DefaultBaseUrl := "https://email-service.digitalenvision.com.au"

  /** `configService.get("EMAIL_API_BASE_URL") ?? default`. */
  function BaseUrl(config: map<string, string>): (r: string)
    ensures ApiBaseUrlKey in config ==> r == config[ApiBaseUrlKey]
    ensures ApiBaseUrlKey !in config ==> r == DefaultBaseUrl
  {
    if ApiBaseUrlKey in config then config[ApiBaseUrlKey] else DefaultBaseUrl
  }

  const Greeting := "Hey, "
  const Closing := " it's your birthday."

  /** The text sent to a person called `fullName`. */
  function BirthdayMessage(fullName: string): (m: string)
    ensures |m| == |Greeting| + |fullName| + |Closing|
    ensures m[..|Greeting|] == Greeting && m[|m| - |Closing|..] == Closing
    ensures m[|Greeting|..|Greeting| + |fullName|] == fullName
  {
    Greeting + fullName + Closing
  }

  /** Reads the recipient's name back out of a birthday message. */
  function NameInMessage(message: string): Option<string> {
    if |message| >= |Greeting| + |Closing|
       && message[..|Greeting|] == Greeting
       && message[|message| - |Closing|..] == Closing
    then Some(message[|Greeting|..|message| - |Closing|])
    else None
  }

  /** The message names its recipient: the name can be read back out of it. */
  lemma MessageNamesRecipient(fullName: string)
    ensures NameInMessage(BirthdayMessage(fullName)) == Some(fullName)
  {
    var m := BirthdayMessage(fullName);
    assert m[..|Greeting|] == Greeting;
    assert m[|m| - |Closing|..] == Closing;
    assert m[|Greeting|..|m| - |Closing|] == fullName;
  }

  /** Conversely, every text the name can be read out of is the birthday
      message for that name. */
  lemma OnlyBirthdayMessagesName(message: string, fullName: string)
    requires NameInMessage(message) == Some(fullName)
    ensures BirthdayMessage(fullName) == message
  {
    var g, c := |Greeting|, |Closing|;
    assert message == message[..g] + message[g..|message| - c] + message[|message| - c..];
  }

  /** The JSON body of the post. */
  datatype Payload = Payload(email: string, message: string)

  /** One HTTP POST made by the service. */
  datatype Post = Post(url: string, payload: Payload)

  /** How the email API answered: success, or a rejection (network error,
      timeout or error status) carrying the error's `message` ("" when the
      error has none). */
  datatype Reply = Delivered | Rejected(message: string)

  /** `error.message || "Unknown error"`. */
  function ErrorText(message: string): (r: string)
    ensures r != ""
    ensures message != "" ==> r == message
  {
    if message == "" then "Unknown error" else message
  }

  /** The post `sendBirthdayEmail(fullName, userEmail, _)` makes. */
  function BirthdayPost(baseUrl: string, fullName: string, userEmail: string): (p: Post)
    ensures p.payload.email == userEmail
    ensures NameInMessage(p.payload.message) == Some(fullName)
  {
    MessageNamesRecipient(fullName);
    Post(baseUrl + "/send-email", Payload(userEmail, BirthdayMessage(fullName)))
  }

  /** The delivery record after one call of `sendBirthdayEmail` at `now`:
      the attempt is recorded whatever the reply, then the outcome. */
  function AfterSend(l: MessageLog, now: Instant, reply: Reply): (r: MessageLog)
    ensures r.id == l.id && r.key == l.key
    ensures r.attemptCount == l.attemptCount + 1 && r.lastAttemptAt == Some(now)
    ensures reply.Delivered? ==> r.status == Sent && r.sentAt == Some(now) && r.errorMessage == None
    ensures reply.Rejected? ==> r.status == Failed && r.sentAt == l.sentAt
                                && r.errorMessage == Some(ErrorText(reply.message))
  {
    var attempted := Apply(l, RecordAttempt(now));
    match reply
    case Delivered => Apply(attempted, MarkSent(now))
    case Rejected(m) => Apply(attempted, MarkFailed(ErrorText(m)))
  }

  /** The unit tests' request: a configuration that only sets
      `EMAIL_SERVICE_BASE_URL` leaves the default base URL in force, so the
      message for John Doe is posted to the default host's `/send-email`. */
  lemma SendExamples()
    ensures var config := map["EMAIL_SERVICE_BASE_URL" := "https://email-service.digitalenvision.com.au"];
            BirthdayPost(BaseUrl(config), "John Doe", "john.doe@example.com")
            == Post("https://email-service.digitalenvision.com.au/send-email",
                    Payload("john.doe@example.com", "Hey, John Doe it's your birthday."))
  {
    var config := map["EMAIL_SERVICE_BASE_URL" := "https://email-service.digitalenvision.com.au"];
    assert ApiBaseUrlKey !in config;
    assert Greeting + "John Doe" + Closing == "Hey, John Doe it's your birthday.";
  }

  /** The unit tests' outcomes: a rejection with "Network error" leaves the
      record FAILED with that error, and a successful post leaves it SENT
      with the error cleared. */
  lemma OutcomeExamples(l: MessageLog, now: Instant)
    ensures var r := AfterSend(l, now, Rejected("Network error"));
            r.status == Failed && r.errorMessage == Some("Network error") && r.attemptCount == l.attemptCount + 1
    ensures var r := AfterSend(l, now, Delivered);
            r.status == Sent && r.sentAt == Some(now) && r.errorMessage == None
  {
  }

  /** One call of `sendBirthdayEmail(fullName, userEmail, messageLogId)`. */
  datatype Dispatch = Dispatch(fullName: string, userEmail: string, messageLogId: nat)

  /** The post a dispatch makes through a service whose base URL is `baseUrl`. */
  function PostOf(baseUrl: string, d: Dispatch): Post {
    BirthdayPost(baseUrl, d.fullName, d.userEmail)
  }

  class EmailService {
    const prisma: MessageLogTable
    const baseUrl: string
    /** Every request posted to the email API so far, oldest first. */
    var posted: seq<Post>

    constructor (prisma: MessageLogTable, config: map<string, string>)
      ensures this.prisma == prisma && baseUrl == BaseUrl(config) && posted == []
    {
      this.prisma := prisma;
      baseUrl := BaseUrl(config);
      posted := [];
    }

    /** Records an attempt on log `messageLogId`, posts the message and
        records the outcome; answers whether the post succeeded. Fails,
        without posting, when no log has that id. */
    method SendBirthdayEmail(fullName: string, userEmail: string, messageLogId: nat,
                             now: Instant, reply: Reply) returns (r: Result<bool, nat>)
      requires prisma.Valid()
      modifies this, prisma
      ensures prisma.Valid()
      ensures messageLogId < |old(prisma.logs)| ==>
                && r == Success(reply.Delivered?)
                && prisma.logs == old(prisma.logs)[messageLogId := AfterSend(old(prisma.logs)[messageLogId], now, reply)]
                && posted == old(posted) + [BirthdayPost(baseUrl, fullName, userEmail)]
      ensures messageLogId >= |old(prisma.logs)| ==>
                r == Failure(messageLogId) && prisma.logs == old(prisma.logs) && posted == old(posted)
    {
      var message := BirthdayMessage(fullName);
      var payload := Payload(userEmail, message);
      var sentSuccessfully := false;

      var attempt := prisma.Update(messageLogId, RecordAttempt(now));
      if attempt.Failure? {
        return Failure(attempt.error);
      }

      posted := posted + [Post(baseUrl + "/send-email", payload)];
      match reply {
        case Delivered =>
          sentSuccessfully := true;
          var _ := prisma.Update(messageLogId, MarkSent(now));
        case Rejected(m) =>
          var _ := prisma.Update(messageLogId, MarkFailed(ErrorText(m)));
      }
      r := Success(sentSuccessfully);
    }
  }
}
