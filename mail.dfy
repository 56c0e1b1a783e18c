/**
 * The configuration record and `send_email` (main.py). The HTTP POST to
 * Mailgun is not modelled: what it would answer is a parameter, either a
 * status code or an exception.
 */
module Mail {
  import opened Wrappers

  /** The settings the function reads; loading them is not modelled. */
  datatype Settings = Settings(
    debug: bool,
    mailgunApiKey: string,
    mailgunDomain: string,
    appsScriptToken: string,
    sendFromEmail: string,
    accessControlOrigin: string)

  /** The values used when nothing overrides them. */
  const DefaultSettings: Settings :=
    Settings(false, "", "edwardsgrounds.co.uk", "", "test@edwardsgrounds.co.uk", "*")

  /** The form fields of a Mailgun message. */
  datatype Payload = Payload(from: string, to: seq<string>, cc: seq<string>, subject: string, text: string)

  /** A POST to the Mailgun messages endpoint with basic authentication. */
  datatype Post = Post(url: string, user: string, password: string, data: Payload)

  /** How the POST ended: an HTTP status code, or an exception. */
  datatype Reply = Replied(statusCode: int) | Raised

  /** The European messages endpoint of a Mailgun domain. */
  function MessagesUrl(domain: string): string
  {
    "https://api.eu.mailgun.net/v3/" + domain + "/messages"
  }

  /** The request `send_email` makes. */
  function EmailPost(settings: Settings, subject: string, body: string, to: string, cc: string, apiKey: string): Post
  {
    Post(MessagesUrl(settings.mailgunDomain), "api", apiKey,
         Payload(settings.sendFromEmail, [to], [cc], subject, body))
  }

  /**
   * What `send_email` returns once the POST has ended: `Some(true)` for a
   * status of 200, `Some(false)` for any other status, and `None` when the
   * POST raised, in which case the exception reaches the caller.
   */
  function SendEmail(reply: Reply): (delivered: Option<bool>)
    ensures delivered == Some(true) <==> reply == Replied(200)
    ensures delivered == Some(false) <==> reply.Replied? && reply.statusCode != 200
    ensures delivered == None <==> reply == Raised
  {
    match reply
    case Raised => None
    case Replied(code) => Some(code == 200)
  }
}
