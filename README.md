# VisionFlow AI demo API: a Dafny model

This project models the two "generate video" HTTP services of the VisionFlow
AI backend repository. Both are stubs. They validate a request, run a keyword
moderation check and answer with a canned demo response whose video URL is a
constant. The two services disagree in several places, so each one is its own
module:

- `MainApp` (`main.py`): moderation against a 7-word set, a text schema that
  accepts 1 to 3600 seconds with default 30 and then a 60-second demo limit,
  and an image endpoint that checks the content type before the duration. The
  response echoes the duration and names the provider `"demo"`.
- `BackendApp` (`backend/main.py`): a text schema that needs a prompt of at
  least 3 characters and a duration of 1 to 60 seconds, moderation of the
  stripped prompt against a 3-word list, an image endpoint that checks the
  duration before the content type, and `GET /test`. The response has only a
  URL and a note.
- `Strings`: the Python string operations both services use: `lower()`,
  `strip()`, `startswith` and the substring test `in`. `Lower`, `Strip` and
  the substring scan `Contains` are each tied to a reference definition
  (per character, "whitespace around a slice", "occurs at some index").
  `StartsWith` is stated character by character, and lemmas show that it
  holds exactly for the prefix followed by anything.
- `Http`: the shared values. `Option`, the request outcome `Result`, the
  uploaded file (seen only through its content type) and the three error
  kinds.
- `Variants`: lemmas on prompts that the two services judge differently.

Every handler is a pure function from the already-parsed request fields to
`Ok(response)` or `Err(error)`. There are three error kinds:

- `SchemaRejected(field)`: the framework refuses the request before the
  handler runs (HTTP 422).
- `InvalidRequest(detail)`: the handler raises HTTP 400 for a duration limit
  or a file type.
- `ModerationBlocked(detail)`: the handler raises HTTP 400 from the keyword
  filter.

A parameter the client may leave out is an `Option`. The declared default is
applied with `GetOr`.

`main.py` declares no length bound on the prompt (main.py:91). An empty
prompt therefore passes the schema and, since no keyword occurs in `""`, is
accepted.

## Model

| member | source | states |
|---|---|---|
| Strings.IsSpace | backend/main.py:28 | the characters `strip()` removes: exactly the ten ASCII characters Python's `isspace()` accepts (space, `\t`, `\n`, `\x0b`, `\x0c`, `\r`, `\x1c`–`\x1f`) |
| Strings.StartsWith | main.py:127 | `startswith(p)` holds exactly when `p` fits in the string and agrees with it at every index of `p` |
| Strings.StartsWithConcat | backend/main.py:43 | every string made of a prefix followed by anything starts with that prefix |
| Strings.StartsWithSplit | backend/main.py:43 | a string that starts with a prefix is that prefix followed by the rest |
| Strings.Lower | main.py:84 | `lower()` keeps the length and lowers each character on its own: `A`–`Z` move up by 32 and every other character stays the same |
| Strings.LowerIdempotent | main.py:84 | lowering a lowered string changes nothing |
| Strings.LowerConcat | main.py:84 | lowering distributes over concatenation |
| Strings.Contains | main.py:86 | the left-to-right scan that models Python's `w in s` is true exactly when `w` occurs at some index of `s` |
| Strings.ContainsAny | backend/main.py:29 | `any(w in s for w in words)` is true exactly when some word of the list passes the substring test |
| Strings.ContainsInfix | main.py:86 | a word placed anywhere inside a string, with any text before and after it, is found |
| Strings.AbsentCharNotContained | main.py:86 | a word is not found in a string that lacks one of its characters |
| Strings.Strip | backend/main.py:28 | `strip()` gives a slice of the input with only whitespace before and after it, and the slice neither starts nor ends with whitespace |
| Strings.StripIdempotent | backend/main.py:28 | stripping a stripped string changes nothing |
| Strings.StripOfCore | backend/main.py:28 | a string with no whitespace at either end is its own stripped form |
| Strings.StripKeepsContains | backend/main.py:28-29 | a non-empty word without whitespace is found in `lower(strip(s))` exactly when it is found in `lower(s)` |
| MainApp.Flagged | main.py:84-86 | the loop over the keywords finds a hit exactly when some keyword occurs at some index of the lowered prompt |
| MainApp.ModeratePrompt | main.py:83-87 | the prompt is blocked, with the moderation message, exactly when it is present and some `NSFW_KEYWORDS` word occurs in its lowered form; a missing or empty prompt always passes |
| MainApp.KeywordsAreLowerCase | main.py:78-80 | every keyword is already lower case |
| MainApp.ModerationIgnoresCase | main.py:84-86 | two prompts with the same lowered form get the same verdict, and a prompt gets the same verdict as its lowered form |
| MainApp.ModerationMatchesInsideWords | main.py:84-86 | a keyword inside any surrounding text, in any letter case, blocks the prompt |
| MainApp.NonViolenceIsBlocked | main.py:84-86 | "NonViolence" is blocked |
| MainApp.DemoResponse | main.py:113-118 | the demo response carries the sample URL, provider "demo", the fixed note and the duration it is given |
| MainApp.ParseTextVideoRequest | main.py:90-92 | the body is accepted exactly when the prompt is present and the duration is absent or in [1, 3600]; an absent duration becomes 30 |
| MainApp.GenerateTextVideo | main.py:103-118 | a flagged prompt gets the moderation error; otherwise a duration over 60 gets "Demo limit: max 60 seconds"; otherwise the result is the sample URL, provider "demo", the fixed note and the requested duration |
| MainApp.PostTextVideo | main.py:90-118 | the request succeeds exactly when the prompt is present and not flagged and the duration (default 30) is in [1, 60]; every success echoes that duration and is the demo response |
| MainApp.ModerationBeforeDurationLimit | main.py:105-107 | a flagged prompt with any duration the schema accepts, including ones over 60, gets the moderation error |
| MainApp.BlockedPromptWithDuration100 | main.py:105-107 | "some gore" with duration 100 gets the moderation error, not the duration error |
| MainApp.DurationLimits | main.py:92 | for a clean prompt, a duration in (60, 3600] gets the demo-limit error, and one outside [1, 3600] is refused by the schema |
| MainApp.TextResponseIgnoresPrompt | main.py:111-118 | two accepted requests with the same duration get the same response, whatever their prompts |
| MainApp.DefaultTextDurationEchoed | main.py:92 | a clean prompt without a duration gets the demo response for 30 seconds |
| MainApp.EmptyPromptAccepted | main.py:91 | the empty prompt with no duration is accepted with the 30-second demo response |
| MainApp.IsImageType | main.py:127 | a content type passes exactly when it is present and is "image/" followed by anything |
| MainApp.GenerateImageVideo | main.py:121-143 | the upload succeeds exactly when the file is present, its content type is present, non-empty and starts with "image/", and the duration (default 30) is at most 60; a bad type gets the file-type error before any duration check; a success echoes the duration |
| MainApp.ImageTypeBeforeDuration | main.py:127-131 | a missing or non-image content type with duration 999 gets the file-type error |
| MainApp.ImageNoLowerBound | main.py:124-143 | any duration up to 60, zero and negative ones included, succeeds with an `image/*` type and is echoed |
| MainApp.PlainTextUploadRejected | main.py:127-128 | a `text/plain` upload is refused |
| MainApp.PngUploadAccepted | main.py:127-143 | an `image/png` upload of 30 seconds succeeds |
| MainApp.SameUrlOnBothEndpoints | main.py:111-143 | both endpoints answer every success with the same sample URL |
| BackendApp.ParseTextVideoRequest | backend/main.py:17-20 | the body is accepted exactly when the prompt is present with at least 3 characters and the duration is present and in [1, 60]; `voiceover` is optional and is kept unchanged |
| BackendApp.Blocked | backend/main.py:28-29 | a prompt is blocked exactly when "nsfw", "nude" or "sexual" occurs at some index of the stripped, lowered prompt |
| BackendApp.GenerateTextVideo | backend/main.py:27-34 | the request is blocked, with the moderation message, exactly when "nsfw", "nude" or "sexual" occurs in the stripped, lowered prompt; otherwise the result is the demo URL and note |
| BackendApp.PostTextVideo | backend/main.py:17-34 | the request succeeds exactly when the schema holds and the prompt is not blocked; every success is the same URL-and-note response |
| BackendApp.KeywordsHaveNoWhitespace | backend/main.py:29 | every keyword is non-empty and contains no whitespace |
| BackendApp.StripDoesNotChangeVerdict | backend/main.py:28-29 | moderating the stripped prompt gives the same verdict as moderating the unstripped prompt |
| BackendApp.VoiceoverIgnored | backend/main.py:20-34 | the voiceover never changes the outcome |
| BackendApp.LengthCountedBeforeStrip | backend/main.py:18-28 | three spaces pass the length bound and are accepted, although they strip to "" |
| BackendApp.GenerateImageVideo | backend/main.py:37-47 | the upload succeeds exactly when the file is present, the duration (default 60) is at most 60 and the content type (missing means "") starts with "image/"; a duration over 60 gets the duration error before any type check |
| BackendApp.DurationBeforeType | backend/main.py:39-44 | duration 61 gets the duration error whatever the content type |
| BackendApp.DefaultDurationAccepted | backend/main.py:38-47 | with no duration, an `image/*` upload is accepted |
| BackendApp.MissingContentTypeRejected | backend/main.py:42-44 | a missing content type is refused with the file-type error |
| BackendApp.ImageResponseConstant | backend/main.py:38-47 | every duration up to 60, with no lower bound, and every `image/*` upload get the same response |
| BackendApp.ResponsesAreConstant | backend/main.py:23-47 | an accepted text request and an accepted image request get the same response |
| BackendApp.Test | backend/main.py:50-52 | `/test` returns an object whose only key is `status`, with value `ok` |
| Variants.NudeBlockedOnlyByBackend | backend/main.py:29 | "nude" passes the root moderation and is blocked by the backend |
| Variants.ViolenceBlockedOnlyByRoot | main.py:78-80 | "violence" is blocked by the root moderation and is accepted by the backend text endpoint |

## Left out

- Framework plumbing is not modelled: app construction, CORS middleware, route registration and the uvicorn start-up with `PORT` (main.py:7-15, 147-150; backend/main.py:6-14).
- `test_database` in main.py is not modelled. It imports an external `database` module, calls it, reads environment variables and catches its exceptions, all of which is I/O and foreign code.
- The static greetings `GET /` and `GET /api/hello` in main.py are not modelled. They take no input and have no logic.
- `await image.read()` is not modelled. It is stream I/O whose result is discarded, so an upload is only its declared content type.
- Pydantic's parsing and coercion of JSON and form values is not modelled. The model starts from fields that are already typed: each one is present or absent, then the declared `ge`/`le`/`min_length` bounds are checked.
- When several schema fields are wrong at once, the framework reports them all. `SchemaRejected` names only the first one in declaration order.
- Exact HTTP status codes and the framework's 422 error bodies are not modelled. An error is its kind plus the handler's message.
- Strings.Lower: lowers only ASCII `A`–`Z`. Python's `str.lower()` also lowers non-ASCII letters, and it can change a string's length.
- Strings.Strip: strips only the ASCII whitespace that Python's `str.isspace()` accepts (space, `\t`, `\n`, `\x0b`, `\x0c`, `\r` and `\x1c`–`\x1f`), not the Unicode separators.
- `NSFW_KEYWORDS` is a Python set. The model keeps it as a list in source order. The order never matters, because every hit raises the same error.
