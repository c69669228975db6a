/** The `backend/main.py` service: a stricter text schema, moderation of the
    stripped prompt against a three-word list, an image endpoint that checks
    the duration before the file type, and the `/test` probe. */
module BackendApp {
  import opened Http
  import opened Strings

  const MinPromptLength: int := 3
  const MinDuration: int := 1
  const MaxDuration: int := 60
  const DefaultImageDuration: int := 60

  const BlockedKeywords: seq<string> := ["nsfw", "nude", "sexual"]

  const DemoVideoUrl: string := "https://cdn.coverr.co/videos/coverr-black-cat-1447/1080p.mp4"
  const DemoNote: string := "Demo mode: static sample video returned."
  const ModerationDetail: string := "Prompt blocked by moderation policy."
  const DurationDetail: string := "Demo allows up to 60 seconds only."
  const BadImageDetail: string := "Please upload a valid image file."

  /** A text request once the framework has validated its body. */
  datatype TextVideoRequest =
    TextVideoRequest(prompt: string, durationSeconds: int, voiceover: Option<string>)

  /** The JSON object both endpoints return on success. */
  datatype DemoResponse = DemoResponse(url: string, note: string)

  /** Some keyword of the list occurs in the prompt once it is stripped and
      lower-cased. */
  predicate Blocked(prompt: string): (r: bool)
    ensures r <==> exists k :: 0 <= k < |BlockedKeywords| && Occurs(Lower(Strip(prompt)), BlockedKeywords[k])
  {
    ContainsAny(Lower(Strip(prompt)), BlockedKeywords)
  }

  /** Framework validation of a text body: `prompt` is required with at least
      three characters (counted before any stripping), `duration_seconds` is
      required in [1, 60], `voiceover` is optional. */
  function ParseTextVideoRequest(prompt: Option<string>, durationSeconds: Option<int>,
                                 voiceover: Option<string>)
    : (r: Result<TextVideoRequest>)
    ensures r.Ok? <==> (prompt.Some? && |prompt.value| >= MinPromptLength
      && durationSeconds.Some? && MinDuration <= durationSeconds.value <= MaxDuration)
    ensures r.Ok? ==> r.value == TextVideoRequest(prompt.value, durationSeconds.value, voiceover)
    ensures r.Err? ==> r.error.SchemaRejected?
  {
    if prompt.None? || |prompt.value| < MinPromptLength then Err(SchemaRejected("prompt"))
    else if durationSeconds.None? || durationSeconds.value < MinDuration
         || durationSeconds.value > MaxDuration then Err(SchemaRejected("duration_seconds"))
    else Ok(TextVideoRequest(prompt.value, durationSeconds.value, voiceover))
  }

  /** `generate_text_video`: blocked exactly when a listed keyword occurs in
      the stripped, lower-cased prompt; otherwise the fixed demo response. */
  function GenerateTextVideo(req: TextVideoRequest): (r: Result<DemoResponse>)
    ensures r.Err? <==> (exists k :: 0 <= k < |BlockedKeywords|
                           && Contains(Lower(Strip(req.prompt)), BlockedKeywords[k]))
    ensures r.Err? ==> r.error == ModerationBlocked(ModerationDetail)
    ensures r.Ok? ==> r.value.url == DemoVideoUrl && r.value.note == DemoNote
  {
    if Blocked(req.prompt) then Err(ModerationBlocked(ModerationDetail))
    else Ok(DemoResponse(DemoVideoUrl, DemoNote))
  }

  /** `POST /api/generate-text-video`: schema validation, then the handler. */
  function PostTextVideo(prompt: Option<string>, durationSeconds: Option<int>,
                         voiceover: Option<string>)
    : (r: Result<DemoResponse>)
    ensures r.Ok? <==> (prompt.Some? && |prompt.value| >= MinPromptLength
      && durationSeconds.Some? && MinDuration <= durationSeconds.value <= MaxDuration
      && !Blocked(prompt.value))
    ensures r.Ok? ==> r.value == DemoResponse(DemoVideoUrl, DemoNote)
  {
    match ParseTextVideoRequest(prompt, durationSeconds, voiceover)
    case Err(e) => Err(e)
    case Ok(req) => GenerateTextVideo(req)
  }

  /** `POST /api/generate-image-video`: the file is required; the duration
      is a query parameter (not a form field, unlike the root service) that
      defaults to 60. A duration over 60 is refused first, then a content type
      (missing counts as "") that does not start with "image/". */
  function GenerateImageVideo(image: Option<UploadFile>, durationSeconds: Option<int>)
    : (r: Result<DemoResponse>)
    ensures r.Ok? <==> (image.Some? && GetOr(durationSeconds, DefaultImageDuration) <= MaxDuration
      && StartsWith(GetOr(image.value.contentType, ""), "image/"))
    ensures image.Some? && GetOr(durationSeconds, DefaultImageDuration) > MaxDuration
      ==> r == Err(InvalidRequest(DurationDetail))
    ensures (image.Some? && GetOr(durationSeconds, DefaultImageDuration) <= MaxDuration
      && !StartsWith(GetOr(image.value.contentType, ""), "image/"))
      ==> r == Err(InvalidRequest(BadImageDetail))
    ensures r.Ok? ==> r.value == DemoResponse(DemoVideoUrl, DemoNote)
  {
    if image.None? then Err(SchemaRejected("image"))
    else if GetOr(durationSeconds, DefaultImageDuration) > MaxDuration then
      Err(InvalidRequest(DurationDetail))
    else
      var contentType := GetOr(image.value.contentType, "");
      if !StartsWith(contentType, "image/") then Err(InvalidRequest(BadImageDetail))
      else Ok(DemoResponse(DemoVideoUrl, DemoNote))
  }

  /** `GET /test`: the one-key status object. */
  function Test(): (r: map<string, string>)
    ensures r.Keys == {"status"} && r["status"] == "ok"
  {
    map["status" := "ok"]
  }

  // ---------------------------------------------------------------------
  // Properties of the model
  // ---------------------------------------------------------------------

  /** No keyword is empty and none contains whitespace. */
  lemma KeywordsHaveNoWhitespace(k: nat)
    requires k < |BlockedKeywords|
    ensures |BlockedKeywords[k]| > 0
    ensures forall j :: 0 <= j < |BlockedKeywords[k]| ==> !IsSpace(BlockedKeywords[k][j])
  {
  }

  /** Stripping the prompt before moderating it never changes the verdict. */
  lemma StripDoesNotChangeVerdict(prompt: string)
    ensures Blocked(prompt) <==> ContainsAny(Lower(prompt), BlockedKeywords)
  {
    forall k | 0 <= k < |BlockedKeywords|
      ensures Contains(Lower(Strip(prompt)), BlockedKeywords[k])
          <==> Contains(Lower(prompt), BlockedKeywords[k])
    {
      KeywordsHaveNoWhitespace(k);
      StripKeepsContains(prompt, BlockedKeywords[k]);
    }
  }

  /** `voiceover` never affects the outcome. */
  lemma VoiceoverIgnored(prompt: Option<string>, d: Option<int>, v1: Option<string>, v2: Option<string>)
    ensures PostTextVideo(prompt, d, v1) == PostTextVideo(prompt, d, v2)
  {
  }

  /** The length bound is measured before stripping: three spaces pass the
      schema and are accepted, although nothing is left once stripped. */
  lemma LengthCountedBeforeStrip()
    ensures Strip("   ") == ""
    ensures PostTextVideo(Some("   "), Some(10), None) == Ok(DemoResponse(DemoVideoUrl, DemoNote))
  {
  }

  /** The duration is checked before the file type: a non-image file with
      duration 61 gets the duration error. */
  lemma DurationBeforeType(contentType: Option<string>)
    ensures GenerateImageVideo(Some(UploadFile(contentType)), Some(61)) == Err(InvalidRequest(DurationDetail))
  {
  }

  /** With no duration the default 60 is accepted. */
  lemma DefaultDurationAccepted(contentType: string)
    requires StartsWith(contentType, "image/")
    ensures GenerateImageVideo(Some(UploadFile(Some(contentType))), None).Ok?
  {
  }

  /** A missing content type is treated as "" and refused. */
  lemma MissingContentTypeRejected(d: Option<int>)
    requires GetOr(d, DefaultImageDuration) <= MaxDuration
    ensures GenerateImageVideo(Some(UploadFile(None)), d) == Err(InvalidRequest(BadImageDetail))
  {
  }

  /** A successful image response depends on neither the image nor the
      duration, and no duration is too small. */
  lemma ImageResponseConstant(image: UploadFile, d: int)
    requires StartsWith(GetOr(image.contentType, ""), "image/")
    requires d <= MaxDuration
    ensures GenerateImageVideo(Some(image), Some(d)) == Ok(DemoResponse(DemoVideoUrl, DemoNote))
  {
  }

  /** Every accepted text request gets the same response, and so does every
      accepted image request. */
  lemma ResponsesAreConstant(prompt: Option<string>, d1: Option<int>, v: Option<string>,
                             image: Option<UploadFile>, d2: Option<int>)
    requires PostTextVideo(prompt, d1, v).Ok? && GenerateImageVideo(image, d2).Ok?
    ensures PostTextVideo(prompt, d1, v) == GenerateImageVideo(image, d2)
  {
  }
}
