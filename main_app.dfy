/** The root `main.py` service: keyword moderation, the text-to-video and
    image-to-video endpoints, and the demo response they both return. */
module MainApp {
  import opened Http
  import opened Strings

  /** Demo cost limit applied by both handlers (main.py:76). */
  const SafeMaxSeconds: int := 60

  /** The blocklist, a Python set in the source; every hit raises the same
      error, so the order of this list never changes an outcome. */
  const NsfwKeywords: seq<string> :=
    ["explicit", "nsfw", "nudity", "gore", "violence", "blood", "sexual"]

  const ModerationDetail: string := "Prompt blocked by moderation policy."
  const DemoLimitDetail: string := "Demo limit: max 60 seconds"
  const BadImageDetail: string := "Please upload a valid image file"
  const SampleUrl: string :=
    "https://interactive-examples.mdn.mozilla.net/media/cc0-videos/flower.mp4"
  const DemoProvider: string := "demo"
  const DemoNote: string :=
    "Demo response. Integrate with Replicate/Runway/Pika for real generation."

  /** Declared bounds and defaults of the request schemas. */
  const MinTextDuration: int := 1
  const MaxTextDuration: int := 3600
  const DefaultTextDuration: int := 30
  const DefaultImageDuration: int := 30

  /** A text request once the framework has validated its body. */
  datatype TextVideoRequest = TextVideoRequest(prompt: string, durationSeconds: int)

  /** The response model; `provider` defaults to "demo", `note` to none. */
  datatype GenerateResponse =
    GenerateResponse(url: string, provider: string, durationSeconds: int, note: Option<string>)

  /** Some keyword of the blocklist occurs in the lower-cased prompt; the
      order in which the keywords are tried does not matter. */
  predicate Flagged(prompt: string): (r: bool)
    ensures r <==> exists k :: 0 <= k < |NsfwKeywords| && Occurs(Lower(prompt), NsfwKeywords[k])
  {
    ContainsAny(Lower(prompt), NsfwKeywords)
  }

  /** `moderate_prompt`: a missing prompt counts as empty; the prompt is
      lower-cased and blocked as soon as some keyword occurs in it. */
  function ModeratePrompt(prompt: Option<string>): (r: Result<()>)
    ensures r.Err? <==> (prompt.Some? &&
      exists k :: 0 <= k < |NsfwKeywords| && Contains(Lower(prompt.value), NsfwKeywords[k]))
    ensures r.Err? ==> r.error == ModerationBlocked(ModerationDetail)
    ensures prompt == None || prompt == Some("") ==> r == Ok(())
  {
    var p := GetOr(prompt, "");
    if Flagged(p) then Err(ModerationBlocked(ModerationDetail)) else Ok(())
  }

  /** The demo response, identical for both endpoints except for the echoed
      duration. */
  function DemoResponse(durationSeconds: int): (r: GenerateResponse)
    ensures r.url == SampleUrl && r.provider == DemoProvider && r.note == Some(DemoNote)
    ensures r.durationSeconds == durationSeconds
  {
    GenerateResponse(SampleUrl, DemoProvider, durationSeconds, Some(DemoNote))
  }

  /** Framework validation of a text body: `prompt` is required, and
      `duration_seconds` defaults to 30 and must lie in [1, 3600]. */
  function ParseTextVideoRequest(prompt: Option<string>, durationSeconds: Option<int>)
    : (r: Result<TextVideoRequest>)
    ensures r.Ok? <==> (prompt.Some? &&
      (durationSeconds.None? || MinTextDuration <= durationSeconds.value <= MaxTextDuration))
    ensures r.Ok? ==> (r.value.prompt == prompt.value
      && MinTextDuration <= r.value.durationSeconds <= MaxTextDuration
      && r.value.durationSeconds == GetOr(durationSeconds, DefaultTextDuration))
    ensures r.Err? ==> r.error.SchemaRejected?
  {
    if prompt.None? then Err(SchemaRejected("prompt"))
    else
      var d := GetOr(durationSeconds, DefaultTextDuration);
      if d < MinTextDuration || d > MaxTextDuration then Err(SchemaRejected("duration_seconds"))
      else Ok(TextVideoRequest(prompt.value, d))
  }

  /** `generate_text_video`: moderation first, then the 60-second demo limit,
      then the demo response echoing the requested duration. */
  function GenerateTextVideo(payload: TextVideoRequest): (r: Result<GenerateResponse>)
    ensures r.Ok? <==> !Flagged(payload.prompt) && payload.durationSeconds <= SafeMaxSeconds
    ensures Flagged(payload.prompt) ==> r == Err(ModerationBlocked(ModerationDetail))
    ensures !Flagged(payload.prompt) && payload.durationSeconds > SafeMaxSeconds
      ==> r == Err(InvalidRequest(DemoLimitDetail))
    ensures r.Ok? ==> (r.value.url == SampleUrl && r.value.provider == DemoProvider
      && r.value.note == Some(DemoNote) && r.value.durationSeconds == payload.durationSeconds)
  {
    match ModeratePrompt(Some(payload.prompt))
    case Err(e) => Err(e)
    case Ok(_) =>
      if payload.durationSeconds > SafeMaxSeconds then Err(InvalidRequest(DemoLimitDetail))
      else Ok(DemoResponse(payload.durationSeconds))
  }

  /** `POST /api/generate-text-video`: schema validation, then the handler.
      Every success echoes a duration in [1, 60]. */
  function PostTextVideo(prompt: Option<string>, durationSeconds: Option<int>)
    : (r: Result<GenerateResponse>)
    ensures r.Ok? <==> (prompt.Some? && !Flagged(prompt.value)
      && MinTextDuration <= GetOr(durationSeconds, DefaultTextDuration) <= SafeMaxSeconds)
    ensures r.Ok? ==> (MinTextDuration <= r.value.durationSeconds <= SafeMaxSeconds
      && r.value.durationSeconds == GetOr(durationSeconds, DefaultTextDuration)
      && r.value == DemoResponse(r.value.durationSeconds))
  {
    match ParseTextVideoRequest(prompt, durationSeconds)
    case Err(e) => Err(e)
    case Ok(payload) => GenerateTextVideo(payload)
  }

  /** The upload is accepted as an image: its content type is declared, is
      not empty and starts with "image/"; that is, it is "image/" followed by
      anything. */
  predicate IsImageType(contentType: Option<string>): (r: bool)
    ensures r <==> exists t :: contentType == Some("image/" + t)
  {
    match contentType
    case None => false
    case Some(v) =>
      if v != "" && StartsWith(v, "image/") then
        StartsWithSplit(v, "image/");
        true
      else
        NotImageType(v);
        false
  }

  /** A type that does not start with "image/" is not "image/" followed by
      anything. */
  lemma NotImageType(v: string)
    requires v == "" || !StartsWith(v, "image/")
    ensures forall t :: v != "image/" + t
  {
    forall t ensures v != "image/" + t {
      StartsWithConcat("image/", t);
    }
  }

  /** `POST /api/generate-image-video`: the file is required and the form
      duration defaults to 30; the content type is checked before the demo
      limit, and no lower bound on the duration is enforced. */
  function GenerateImageVideo(image: Option<UploadFile>, durationSeconds: Option<int>)
    : (r: Result<GenerateResponse>)
    ensures r.Ok? <==> (image.Some? && IsImageType(image.value.contentType)
      && GetOr(durationSeconds, DefaultImageDuration) <= SafeMaxSeconds)
    ensures image.Some? && !IsImageType(image.value.contentType)
      ==> r == Err(InvalidRequest(BadImageDetail))
    ensures (image.Some? && IsImageType(image.value.contentType)
      && GetOr(durationSeconds, DefaultImageDuration) > SafeMaxSeconds)
      ==> r == Err(InvalidRequest(DemoLimitDetail))
    ensures r.Ok? ==> (r.value.url == SampleUrl && r.value.provider == DemoProvider
      && r.value.note == Some(DemoNote)
      && r.value.durationSeconds == GetOr(durationSeconds, DefaultImageDuration))
  {
    if image.None? then Err(SchemaRejected("image"))
    else
      var d := GetOr(durationSeconds, DefaultImageDuration);
      if !IsImageType(image.value.contentType) then Err(InvalidRequest(BadImageDetail))
      else if d > SafeMaxSeconds then Err(InvalidRequest(DemoLimitDetail))
      else Ok(DemoResponse(d))
  }

  // ---------------------------------------------------------------------
  // Properties of the model
  // ---------------------------------------------------------------------

  /** Every keyword is already lower case. */
  lemma KeywordsAreLowerCase(k: nat)
    requires k < |NsfwKeywords|
    ensures Lower(NsfwKeywords[k]) == NsfwKeywords[k]
  {
    var w := NsfwKeywords[k];
    forall i | 0 <= i < |w| ensures !IsUpper(w[i]) {
    }
    LowerOfLower(w);
  }

  /** Moderation ignores case: a prompt and its lower-cased form get the same
      verdict, and so do two prompts that differ only in letter case. */
  lemma ModerationIgnoresCase(s: string, t: string)
    requires Lower(s) == Lower(t)
    ensures ModeratePrompt(Some(s)) == ModeratePrompt(Some(t))
    ensures ModeratePrompt(Some(s)) == ModeratePrompt(Some(Lower(s)))
  {
    LowerIdempotent(s);
    assert Flagged(s) == Flagged(t) == Flagged(Lower(s));
  }

  /** Matching is by substring, not by word: a keyword anywhere inside the
      prompt, in any letter case, blocks it. */
  lemma ModerationMatchesInsideWords(pre: string, k: nat, post: string, prompt: string)
    requires k < |NsfwKeywords|
    requires Lower(prompt) == Lower(pre + NsfwKeywords[k] + post)
    ensures ModeratePrompt(Some(prompt)) == Err(ModerationBlocked(ModerationDetail))
  {
    var w := NsfwKeywords[k];
    LowerConcat(pre + w, post);
    LowerConcat(pre, w);
    KeywordsAreLowerCase(k);
    assert Lower(prompt) == Lower(pre) + w + Lower(post);
    ContainsInfix(Lower(pre), w, Lower(post));
  }

  /** "NonViolence" is blocked: "violence" occurs inside it after lowering.
      The fixed prompt is a parameter pinned by its requires, so that the
      solver does not unfold the string functions on a literal. */
  lemma NonViolenceIsBlocked(prompt: string)
    requires prompt == "NonViolence"
    ensures ModeratePrompt(Some(prompt)) == Err(ModerationBlocked(ModerationDetail))
  {
    LowerNonViolence(prompt);
    ContainsInfix("non", NsfwKeywords[4], "");
  }

  lemma LowerNonViolence(prompt: string)
    requires prompt == "NonViolence"
    ensures Lower(prompt) == "non" + NsfwKeywords[4] + ""
  {
    var l := Lower(prompt);
    assert l[0] == LowerChar(prompt[0]) == 'n';
    assert l[1] == LowerChar(prompt[1]) == 'o';
    assert l[2] == LowerChar(prompt[2]) == 'n';
    assert l[3] == LowerChar(prompt[3]) == 'v';
    assert l[4] == LowerChar(prompt[4]) == 'i';
    assert l[5] == LowerChar(prompt[5]) == 'o';
    assert l[6] == LowerChar(prompt[6]) == 'l';
    assert l[7] == LowerChar(prompt[7]) == 'e';
    assert l[8] == LowerChar(prompt[8]) == 'n';
    assert l[9] == LowerChar(prompt[9]) == 'c';
    assert l[10] == LowerChar(prompt[10]) == 'e';
    assert l == "nonviolence";
  }

  /** Moderation runs before the duration limit: a blocked prompt with any
      schema-valid duration, 100 included, gets the moderation error. */
  lemma ModerationBeforeDurationLimit(prompt: string, d: int)
    requires Flagged(prompt)
    requires MinTextDuration <= d <= MaxTextDuration
    ensures PostTextVideo(Some(prompt), Some(d)) == Err(ModerationBlocked(ModerationDetail))
  {
  }

  /** "some gore" with duration 100 gets the moderation error (the prompt is
      pinned by its requires, as in NonViolenceIsBlocked). */
  lemma BlockedPromptWithDuration100(prompt: string)
    requires prompt == "some gore"
    ensures PostTextVideo(Some(prompt), Some(100)) == Err(ModerationBlocked(ModerationDetail))
  {
    ModerationMatchesInsideWords("some ", 3, "", prompt);
  }

  /** The schema sets no lower bound on the prompt's length: the empty prompt
      contains no keyword and is accepted. */
  lemma EmptyPromptAccepted()
    ensures PostTextVideo(Some(""), None) == Ok(DemoResponse(DefaultTextDuration))
  {
  }

  /** A clean prompt over the demo limit but inside the schema gets the
      demo-limit error; one over 3600 is refused by the schema. */
  lemma DurationLimits(prompt: string, d: int)
    requires !Flagged(prompt)
    ensures SafeMaxSeconds < d <= MaxTextDuration ==>
      PostTextVideo(Some(prompt), Some(d)) == Err(InvalidRequest(DemoLimitDetail))
    ensures d > MaxTextDuration || d < MinTextDuration ==>
      PostTextVideo(Some(prompt), Some(d)) == Err(SchemaRejected("duration_seconds"))
  {
  }

  /** The text response does not depend on the prompt. */
  lemma TextResponseIgnoresPrompt(p1: string, p2: string, d: Option<int>)
    requires PostTextVideo(Some(p1), d).Ok? && PostTextVideo(Some(p2), d).Ok?
    ensures PostTextVideo(Some(p1), d) == PostTextVideo(Some(p2), d)
  {
  }

  /** With no duration the default 30 is used and echoed. */
  lemma DefaultTextDurationEchoed(prompt: string)
    requires !Flagged(prompt)
    ensures PostTextVideo(Some(prompt), None) == Ok(DemoResponse(30))
  {
  }

  /** A bad content type is reported before the duration: duration 999 with a
      missing or non-image type gets the file-type error. */
  lemma ImageTypeBeforeDuration(contentType: Option<string>)
    requires contentType.None? || !StartsWith(contentType.value, "image/")
    ensures GenerateImageVideo(Some(UploadFile(contentType)), Some(999))
      == Err(InvalidRequest(BadImageDetail))
  {
  }

  /** The image endpoint has no lower bound on the duration: any duration up
      to 60, zero and negative ones included, succeeds and is echoed. */
  lemma ImageNoLowerBound(contentType: string, d: int)
    requires StartsWith(contentType, "image/")
    requires d <= SafeMaxSeconds
    ensures GenerateImageVideo(Some(UploadFile(Some(contentType))), Some(d)) == Ok(DemoResponse(d))
  {
  }

  lemma PlainTextUploadRejected()
    ensures GenerateImageVideo(Some(UploadFile(Some("text/plain"))), Some(30))
      == Err(InvalidRequest(BadImageDetail))
  {
    assert "text/plain"[0] != "image/"[0];
  }

  lemma PngUploadAccepted()
    ensures GenerateImageVideo(Some(UploadFile(Some("image/png"))), Some(30)) == Ok(DemoResponse(30))
  {
  }

  /** Both endpoints answer with the same sample URL. */
  lemma SameUrlOnBothEndpoints(prompt: Option<string>, d1: Option<int>,
                               image: Option<UploadFile>, d2: Option<int>)
    requires PostTextVideo(prompt, d1).Ok? && GenerateImageVideo(image, d2).Ok?
    ensures PostTextVideo(prompt, d1).value.url == GenerateImageVideo(image, d2).value.url == SampleUrl
  {
  }
}
