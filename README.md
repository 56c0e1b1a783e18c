# Voicemail transcription webhook, modelled in Dafny

The system is a single HTTP endpoint (`transcribe` in `main.py`). An
Apps Script posts a voicemail recording to it, together with the subject,
sender and group of the e-mail the recording came in. The endpoint checks a
shared token and the file's extension. It decodes the audio, measures its
length and has it transcribed. It then pulls the caller's phone number out of
the subject line and e-mails the result back through Mailgun.

This project models the logic underneath that glue, one module per concern:

- `Text` (`text.dfy`): the Python string operations the code relies on.
  These are `lower`, `rsplit(".", 1)`, `strip` and `" ".join`, over ASCII.
- `Upload` (`upload.dfy`): `allowed_file`, the extension whitelist.
- `Phone` (`phone.dfy`): `get_phone_number`.
  - `Matches` describes declaratively which texts match the pattern
    `(?:0|\+?44)(?:\d\s?){9,10}` as a whole.
  - `MatchAt` and `FirstMatch` are the matcher: leftmost position, greedy
    groups, the first element of `findall`, then `strip`.
  - Lemmas tie the matcher to the description.
- `Transcript` (`transcript.dfy`): how `get_transcript` assembles its result
  from the recogniser's answers.
  - A prefix and the results are joined with single spaces.
  - The whole text is replaced by a sentinel when it is shorter than 15
    characters.
  - `GetTranscript` keeps the source's loop that appends to a list.
- `Mail` (`mail.dfy`): the settings record with its defaults, the request
  `send_email` makes, and its status rule.
- `Handler` (`handler.dfy`): `transcribe` as a method.
  - It takes the request and what each service produced (decoding, length
    probe, recognition, the e-mail POST).
  - It returns the response and the e-mail request that was made, if any.

Where the description of the system and the code differ, the model follows
the code:

- A POST with a valid token and a file whose extension is not allowed gets
  the generic `400` with `"An error occured."`. The code reaches this by
  falling through to the end of the handler. It is not silently dropped, and
  it is not a redirect.
- The transcript prefix and sentinel begin with the robot emoji U+1F916. The
  source file shows it as the mis-decoded bytes of its UTF-8 encoding. It is
  taken as one character, so the prefix `🤖 Transcript:` is 13 characters
  long. Under this reading the source's no-audio expectation holds:
  - no results give 13 characters;
  - one empty result gives 14;
  - both are replaced by the sentinel.

## Model

| member | source | states |
|---|---|---|
| Upload.AllowedFile | main.py:132-141 | a file is allowed only if its name contains a dot |
| Upload.AllowedFileByExtension | main.py:133-141 | for a name `stem.ext` with no dot in `ext`: allowed iff `ext`, lowercased, is one of wav, mp3, m4a, flac, mp4, wma, aac; the stem does not matter, however many dots it has |
| Upload.NoDotRefused | main.py:133 | a name without a dot is refused |
| Upload.TrailingDotRefused | main.py:133-141 | a name ending in a dot (empty extension) is refused |
| Upload.AllowedAtLastDot | main.py:133-141 | with the last dot of a name at `k`, the name is allowed exactly when the text after `k`, lowercased, is a whitelisted extension |
| Upload.AllowedFileIgnoresCase | main.py:133 | two names that are equal once lowercased are both accepted or both refused |
| Upload.WavAccepted | tests/test_main.py:67-69 | `/path/to/file.wav` is allowed |
| Upload.PdfRefused | tests/test_main.py:72-74 | `/path/to/file.pdf` is refused |
| Upload.UpperCaseLastExtensionAccepted | main.py:133 | `a.pdf.WAV` is allowed: only the last extension counts, and case does not |
| Upload.InnerExtensionIgnored | main.py:133 | `a.wav.pdf` is refused |
| Upload.DottedDirectoryRefused | main.py:133 | `/path.d/file` is refused: its last dot is in a directory name |
| Text.Lower | main.py:133 | `lower()` keeps the length and lowers each ASCII capital by 32 code points, changing nothing else |
| Text.LowerIdempotent | main.py:133 | lowering twice is lowering once |
| Text.RSplitOnce | main.py:133 | `rsplit(sep, 1)`: one part equal to the input when `sep` is absent; otherwise two parts that rejoin around `sep` into the input, the second free of `sep` |
| Text.RSplitOnceUnique | main.py:133 | splitting `stem + sep + tail` with `sep` not in `tail` gives exactly `[stem, tail]` |
| Text.LastIndexOf | main.py:133 | the index of the last occurrence of a character, or -1 exactly when it is absent |
| Text.TrimStart | main.py:128 | the leading whitespace removed: a suffix of the input, starting with a non-space, only whitespace dropped |
| Text.TrimEnd | main.py:128 | the trailing whitespace removed: a prefix of the input, ending with a non-space, only whitespace dropped |
| Text.Strip | main.py:128 | `strip()` gives a text no longer than its input that is empty or starts and ends with a non-space |
| Text.StripSlice | main.py:128 | `strip()` keeps one contiguous part of its input and drops only whitespace before and after it |
| Text.StripUnpadded | main.py:128 | `strip` leaves a text that neither starts nor ends with whitespace unchanged |
| Text.StripOneTrailing | main.py:128 | `strip` removes exactly one trailing whitespace character when the character before it is not whitespace and the text does not start with whitespace |
| Phone.PrefixEnd | main.py:123 | an end it returns closes one of the alternatives `0` / `44` / `+44` starting at the position, and the first character decides its length |
| Phone.PrefixEndComplete | main.py:123 | when an alternative `0` / `44` / `+44` starts at the position, `PrefixEnd` finds it and returns its end |
| Phone.Groups | main.py:123 | the greedy repetition of `\d\s?` takes at most `limit` groups, stays inside the subject, and is empty exactly when it takes no group |
| Phone.GroupsSound | main.py:123 | what the greedy repetition takes is exactly that many groups `\d\s?` |
| Phone.GroupsLongest | main.py:123 | no run of groups from the same position is longer or has more groups than the greedy one |
| Phone.MatchAt | main.py:123-125 | a match found at a position is non-empty and lies inside the subject; `MatchAtSound` and `MatchAtLongest` state that it is the longest whole match there |
| Phone.MatchAtSound | main.py:123-125 | what the matcher finds at a position is a whole match of the pattern |
| Phone.MatchAtLongest | main.py:123-125 | the match found at a position is at least as long as any match of the pattern there (the engine's greedy, backtracking answer) |
| Phone.FirstMatch | main.py:125-127 | what the scan returns is a position at or after its start where the matcher succeeds, with the end of that match |
| Phone.FirstMatchLeftmost | main.py:125-127 | the matcher succeeds at no position before the one the scan returns |
| Phone.FirstMatchNone | main.py:125-127 | when the scan finds nothing, the matcher succeeds at no position |
| Phone.ScanReaches | main.py:125-127 | wherever the matcher succeeds, the scan from the start finds a match there or further left |
| Phone.GetPhoneNumber | main.py:122-129 | no contract of its own: `NotFoundIffNoMatch`, `FoundIsPhoneNumber` and `LeftmostLongest` state what it answers |
| Phone.NotFoundIffNoMatch | main.py:125-129 | the answer is `Phone number not found.` exactly when no substring of the subject matches the pattern |
| Phone.FoundIsPhoneNumber | main.py:123-128 | any other answer is a substring of the subject; it starts with `0`, `44` or `+44`, continues with 9 or 10 digits each followed by at most one whitespace character, and ends with a digit |
| Phone.StripMatch | main.py:128 | stripping a match removes at most its one trailing whitespace character, and what remains still matches |
| Phone.LeftmostLongest | main.py:123-128 | the answer is the stripped longest match at the leftmost position where the pattern matches |
| Phone.ZeroAndTenDigitsFound | main.py:123-128 | a `0` and ten digits, followed by a space, after text with no `0`, `4` or `+`, is returned exactly |
| Phone.TestedSubjectWithNumber | tests/test_main.py:77-81 | `Voice Message Attached from 07712345678 - name unavailable` gives `07712345678` |
| Phone.MatchHoldsTenDigits | main.py:123 | every match of the pattern contains at least ten digits |
| Phone.FewDigitsNotFound | main.py:123-129 | a subject with fewer than ten digits gives `Phone number not found.` |
| Phone.TestedSubjectWithShortNumber | tests/test_main.py:84-88 | `Voice Message Attached from 077123456 - name unavailable` gives `Phone number not found.` |
| Text.Join | main.py:116 | `sep.join(parts)` starts with the first part; `Transcript.JoinSpaced` states the whole joined text |
| Transcript.JoinSpaced | main.py:116 | joining a head and the results with `" "` is the head followed by `" " + r` for each result `r`, in order |
| Transcript.SpacedLength | main.py:116-117 | each result adds its length plus one space to the joined text |
| Transcript.Assemble | main.py:116-118 | the joined text is kept only when it has at least 15 characters; otherwise the sentinel is returned |
| Transcript.AssembleShape | main.py:116-118 | the outcome is the sentinel or the joined text; it is the joined text exactly when that reaches 15 characters |
| Transcript.TranscriptShape | main.py:112-118 | the transcript is `🤖 No speech detected` or the prefix followed by the spaced results; it is the latter exactly when 13 + the number of results + their total length reaches 15 |
| Transcript.TranscriptOf | main.py:112-118 | the transcript is `🤖 No speech detected` or a text of at least 15 characters; `TranscriptShape` and `NoSpeechIff` state which |
| Transcript.NoSpeechIff | main.py:112-118 | the sentinel is returned exactly when there are no results or a single empty one; otherwise the prefix and results are kept verbatim |
| Transcript.NoResults | main.py:112-118 | no recognition results give the sentinel |
| Transcript.OneEmptyResult | main.py:112-118 | a single empty result (14 characters joined) gives the sentinel |
| Transcript.OneCharResultKept | main.py:112-118 | a single one-character result (exactly 15 characters) is kept |
| Transcript.GetTranscript | main.py:112-119 | the loop builds the list of the prefix and the results, and the returned text is the assembled transcript, with the sentinel exactly for no results or one empty result |
| Mail.EmailPost | main.py:46-58 | no contract of its own: the POST `send_email` makes, to `https://api.eu.mailgun.net/v3/{domain}/messages` with user `api` and the API key, from the configured sender, to one address, copied to one address; `Handler.Transcribe` states which request is made |
| Mail.SendEmail | main.py:59-63 | `send_email` returns true exactly for status 200, false for every other status, and passes an exception from the POST on to its caller |
| Handler.FormGet | main.py:178 | a form field is present exactly when its key is in the form, with that value |
| Handler.Transcribe | main.py:176-259 | the routing, in order: a POST with a wrong or missing token is redirected; so is one without a `file` part; one with an empty or disallowed file name gets 400 `An error occured.`; a GET gets 200 `Get success`; any other method gets 400. For an admitted upload, a failed decode (`decode_audio`, main.py:66-78) ends the process with code 1 and sends nothing; otherwise exactly one e-mail is sent: subject `Re: ` + subject, to the `from` field, copied to the `group` field (missing fields become `None`), body `Voicemail from: {phone}\nLength: {length}s\n{transcript}` with `audio length not detected` when probing fails. The answer is 200 whenever the POST returns, whatever its status, and 400 only when it raises. Every JSON answer succeeds exactly when its status is 200 and carries the configured allowed origin |

## Left out

- Decoding with ffmpeg (main.py:66-78) is not run. Its success or failure is an input of the handler.
- Probing the length with ffprobe, and its `str(float(...))` formatting (main.py:81-96), are not run. The probe's text or its failure is an input.
- The Google Speech client and its recognition settings (main.py:101-111) are not modelled. The response is the sequence of top-alternative strings, one per result.
- `Transcript.GetTranscript`: a result with no alternatives, where `alternatives[0]` raises, is not modelled, since the response is already reduced to strings.
- The Mailgun POST itself (main.py:53-58) is network I/O. Its outcome is an input: a status code or an exception. `Mail.EmailPost` records the request that would be made.
- Staging the upload on disk (`os.path.exists`, `os.remove`, `file.save`, `secure_filename`, main.py:189-195) is filesystem I/O. Werkzeug's `secure_filename` is not part of this model.
- Loading settings from the environment or YAML (main.py:144-152), and the start-up credential checks, are configuration I/O. Settings are an immutable record. `Mail.DefaultSettings` holds the declared defaults.
- The Flask application, route registration and logging are not modelled.
- JSON serialisation is not modelled. Responses are a datatype, and a redirect is its location; Flask's 302 status for it is not modelled.
- Responses Flask generates itself (405, 500, OPTIONS) are not part of the handler.
- The `ContentType` header is the same on every JSON answer and is not modelled; the allowed-origin header is.
- `\d`, `\s`, `lower()` and `strip()` are modelled on ASCII only:
  - digits are `0`-`9`;
  - whitespace is the ten ASCII characters Python counts as whitespace: tab, newline, vertical tab, form feed, carriage return, the separators U+001C to U+001F, and space;
  - only `A`-`Z` are lowered.
  Python's versions also act on non-ASCII characters, such as other Unicode digits, U+0085 and U+00A0 as whitespace, and non-ASCII capitals. The model does not.
- Python exceptions other than those the handler catches are not modelled. An example is a failure inside the recogniser.
