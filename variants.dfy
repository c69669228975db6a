/** How the two services disagree on the same prompt.

    The lemmas about one fixed prompt take it as a parameter pinned by
    `requires prompt == "..."`: a literal argument would let the solver unfold
    the recursive string functions on it without bound. */
module Variants {
  import opened Http
  import opened Strings
  import MainApp
  import BackendApp

  /** "nude" is on the backend list only: the root service lets it through
      and the backend service blocks it. */
  lemma NudeBlockedOnlyByBackend(prompt: string)
    requires prompt == "nude"
    ensures MainApp.ModeratePrompt(Some(prompt)) == Ok(())
    ensures BackendApp.PostTextVideo(Some(prompt), Some(10), None)
      == Err(ModerationBlocked(BackendApp.ModerationDetail))
  {
    NudePassesRoot(prompt);
    NudeBlockedByBackend(prompt);
  }

  lemma NudePassesRoot(prompt: string)
    requires prompt == "nude"
    ensures !MainApp.Flagged(prompt)
  {
    LowerOfLower(prompt);
    AbsentCharNotContained(prompt, "explicit", 1);
    AbsentCharNotContained(prompt, "nsfw", 1);
    AbsentCharNotContained(prompt, "nudity", 3);
    AbsentCharNotContained(prompt, "gore", 0);
    AbsentCharNotContained(prompt, "violence", 0);
    AbsentCharNotContained(prompt, "blood", 0);
    AbsentCharNotContained(prompt, "sexual", 0);
  }

  lemma NudeBlockedByBackend(prompt: string)
    requires prompt == "nude"
    ensures BackendApp.Blocked(prompt)
  {
    StripOfCore(prompt);
    LowerOfLower(prompt);
    ContainsInfix("", BackendApp.BlockedKeywords[1], "");
    assert "" + BackendApp.BlockedKeywords[1] + "" == prompt;
  }

  /** "violence" is on the root list only. */
  lemma ViolenceBlockedOnlyByRoot(prompt: string)
    requires prompt == "violence"
    ensures MainApp.ModeratePrompt(Some(prompt)) == Err(ModerationBlocked(MainApp.ModerationDetail))
    ensures BackendApp.PostTextVideo(Some(prompt), Some(10), None).Ok?
  {
    ViolenceBlockedByRoot(prompt);
    ViolencePassesBackend(prompt);
  }

  lemma ViolenceBlockedByRoot(prompt: string)
    requires prompt == "violence"
    ensures MainApp.ModeratePrompt(Some(prompt)) == Err(ModerationBlocked(MainApp.ModerationDetail))
  {
    assert "" + MainApp.NsfwKeywords[4] + "" == prompt;
    MainApp.ModerationMatchesInsideWords("", 4, "", prompt);
  }

  lemma ViolencePassesBackend(prompt: string)
    requires prompt == "violence"
    ensures !BackendApp.Blocked(prompt)
  {
    StripOfCore(prompt);
    LowerOfLower(prompt);
    assert Lower(Strip(prompt)) == prompt;
    AbsentCharNotContained(prompt, "nsfw", 1);
    AbsentCharNotContained(prompt, "nude", 1);
    AbsentCharNotContained(prompt, "sexual", 0);
  }
}
