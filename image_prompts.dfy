/** The prompts of the image generator: one per known blog slug, a fallback
    for any other slug, and the author headshot prompt. The wording of the
    prompts is prose for the remote model; a prompt is identified here by
    which of these it is. */
module ImagePrompts {

  datatype Prompt =
    | PostPrompt(slug: string)  // the table's entry for `slug`
    | FallbackPrompt            // the generic numerology scene
    | AuthorPrompt              // the headshot of the author

  /** The keys of the prompt table. */
  const PromptSlugs: set<string> := {
    "life-path-number-guide", "lucky-numbers-date-of-birth", "master-numbers-numerology",
    "expression-number-calculation", "lucky-numbers-different-purposes", "numerology-compatibility"
  }

  /** `image_prompts.get(slug, fallback)`. */
  function PromptFor(slug: string): Prompt {
    if slug in PromptSlugs then PostPrompt(slug) else FallbackPrompt
  }

  /** A post gets the fallback prompt exactly when its slug is not a key of
      the table, and otherwise the table's entry for its own slug; two posts
      get the same prompt only when both fall back or their slugs are equal. */
  lemma PromptLookup(slug: string, other: string)
    ensures PromptFor(slug) == FallbackPrompt <==> slug !in PromptSlugs
    ensures slug in PromptSlugs <==> PromptFor(slug) == PostPrompt(slug)
    ensures PromptFor(slug) == PromptFor(other) ==> slug == other || (slug !in PromptSlugs && other !in PromptSlugs)
    ensures PromptFor(slug) != AuthorPrompt
  {
  }
}
