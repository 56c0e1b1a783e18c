/**
 * The `transcribe` webhook handler (main.py) as a decision procedure over
 * the request and the outcomes of the services it calls. Staging the upload
 * on disk, the ffmpeg decoder, the ffprobe length probe, the speech
 * recogniser and the Mailgun POST are not run: each is represented by what
 * it produced, in `Collaborators`.
 */
module Handler {
  import opened Wrappers
  import Upload
  import Phone
  import Transcript
  import Mail

  /** The message of every failure answered with a 400. */
  const ErrorMessage: string := "An error occured."
  /** The message of the answer to a GET. */
  const GetMessage: string := "Get success"
  /** What the e-mail states as the length when probing fails. */
  const LengthUnknown: string := "audio length not detected"

  /** An uploaded file; only its name is looked at. */
  datatype FileStorage = FileStorage(filename: string)

  /** The parts of an HTTP request the handler reads. */
  datatype Request = Request(
    verb: string,
    url: string,
    form: map<string, string>,
    files: map<string, FileStorage>)

  /** What probing the audio length produced. */
  datatype Probe = Duration(seconds: string) | ProbeError

  /**
   * What the services called while processing an upload produce: whether
   * decoding succeeded, the length probe, the top alternative of each
   * recognition result, and how the e-mail POST ended.
   */
  datatype Collaborators = Collaborators(
    decodeOk: bool,
    probe: Probe,
    recognized: seq<string>,
    reply: Mail.Reply)

  /** What the handler answers: a redirect, a JSON body with its status, or the end of the process. */
  datatype Response =
    | Redirect(location: string)
    | Json(status: int, success: bool, message: Option<string>, allowOrigin: string)
    | ProcessExit(code: int)

  /** `form.get(key)`. */
  function FormGet(req: Request, key: string): (v: Option<string>)
    ensures v.Some? <==> key in req.form
    ensures v.Some? ==> v.value == req.form[key]
  {
    if key in req.form then Some(req.form[key]) else None
  }

  /** `str` of a form value: a missing one becomes the text `None`. */
  function Str(v: Option<string>): string
  {
    match v
    case Some(s) => s
    case None => "None"
  }

  /** The submitted token equals the configured secret; a missing token never does. */
  predicate TokenAccepted(settings: Mail.Settings, req: Request)
  {
    FormGet(req, "token") == Some(settings.appsScriptToken)
  }

  /**
   * A POST that passes every check and is processed: the token matches, a
   * `file` part is present, and its name is non-empty with an allowed
   * extension.
   */
  predicate Admitted(settings: Mail.Settings, req: Request)
  {
    && req.verb == "POST"
    && TokenAccepted(settings, req)
    && "file" in req.files
    && req.files["file"].filename != ""
    && Upload.AllowedFile(req.files["file"].filename)
  }

  /** The length as the e-mail states it. */
  function LengthText(probe: Probe): string
  {
    match probe
    case Duration(seconds) => seconds
    case ProbeError => LengthUnknown
  }

  /** The body of the e-mail. */
  function EmailBody(phone: string, length: string, transcript: string): string
  {
    "Voicemail from: " + phone + "\nLength: " + length + "s\n" + transcript
  }

  /** The request for the e-mail sent about an admitted upload. */
  function VoicemailPost(settings: Mail.Settings, req: Request, env: Collaborators): Mail.Post
  {
    var subject := Str(FormGet(req, "subject"));
    Mail.EmailPost(
      settings,
      "Re: " + subject,
      EmailBody(Phone.GetPhoneNumber(subject), LengthText(env.probe), Transcript.TranscriptOf(env.recognized)),
      Str(FormGet(req, "from")),
      Str(FormGet(req, "group")),
      settings.mailgunApiKey)
  }

  /** The generic failure answer. */
  function ErrorResponse(settings: Mail.Settings): Response
  {
    Json(400, false, Some(ErrorMessage), settings.accessControlOrigin)
  }

  /**
   * The webhook: checks a POST's token and file, decodes and describes the
   * recording, and e-mails the result to the sender of the voicemail;
   * answers a GET; refuses anything else. `dispatched` is the e-mail request
   * that was made, if any.
   */
  method Transcribe(settings: Mail.Settings, req: Request, env: Collaborators)
    returns (resp: Response, dispatched: Option<Mail.Post>)
    // The checks, in the order they are made.
    ensures req.verb == "POST" && !TokenAccepted(settings, req)
      ==> resp == Redirect(req.url)
    ensures req.verb == "POST" && TokenAccepted(settings, req) && "file" !in req.files
      ==> resp == Redirect(req.url)
    ensures req.verb == "POST" && TokenAccepted(settings, req) && "file" in req.files && !Admitted(settings, req)
      ==> resp == ErrorResponse(settings)
    ensures req.verb == "GET"
      ==> resp == Json(200, true, Some(GetMessage), settings.accessControlOrigin)
    ensures req.verb != "POST" && req.verb != "GET"
      ==> resp == ErrorResponse(settings)
    // Processing an admitted upload.
    ensures Admitted(settings, req) && !env.decodeOk
      ==> resp == ProcessExit(1)
    ensures Admitted(settings, req) && env.decodeOk && env.reply.Raised?
      ==> resp == ErrorResponse(settings)
    ensures Admitted(settings, req) && env.decodeOk && env.reply.Replied?
      ==> resp == Json(200, true, None, settings.accessControlOrigin)
    // An e-mail is sent exactly for a decoded admitted upload, and it is this one.
    ensures dispatched.Some? <==> Admitted(settings, req) && env.decodeOk
    ensures dispatched.Some? ==> dispatched.value == VoicemailPost(settings, req, env)
    // Every JSON answer succeeds exactly with a 200 and carries the configured origin.
    ensures resp.Json? ==> (resp.success <==> resp.status == 200)
    ensures resp.Json? ==> resp.allowOrigin == settings.accessControlOrigin
  {
    if req.verb == "POST" {
      if FormGet(req, "token") != Some(settings.appsScriptToken) {
        return Redirect(req.url), None;
      }
      if "file" !in req.files {
        return Redirect(req.url), None;
      }
      var file := req.files["file"];
      if file.filename != "" && Upload.AllowedFile(file.filename) {
        if !env.decodeOk {
          return ProcessExit(1), None;
        }
        var audioLength := LengthText(env.probe);
        var phoneNumber := Phone.GetPhoneNumber(Str(FormGet(req, "subject")));
        var transcription := Transcript.GetTranscript(env.recognized);
        var message := EmailBody(phoneNumber, audioLength, transcription);
        var subject := "Re: " + Str(FormGet(req, "subject"));
        var mailFrom := Str(FormGet(req, "from"));
        var mailGroup := Str(FormGet(req, "group"));
        var post := Mail.EmailPost(settings, subject, message, mailFrom, mailGroup, settings.mailgunApiKey);
        var delivered := Mail.SendEmail(env.reply);
        if delivered.None? {
          return ErrorResponse(settings), Some(post);
        }
        return Json(200, true, None, settings.accessControlOrigin), Some(post);
      }
    }
    if req.verb == "GET" {
      return Json(200, true, Some(GetMessage), settings.accessControlOrigin), None;
    }
    return ErrorResponse(settings), None;
  }
}
