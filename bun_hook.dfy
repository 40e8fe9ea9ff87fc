/**
 * The Bun copy of the hook (proofread.ts). Its decorative glyphs are stored as
 * the bytes of their UTF-8 encoding read back as Mac Roman text, so the strings
 * it sends and prints differ from the Node copy's in those characters alone.
 */
module BunHook {
  import opened Text
  import Proofread

  /** The glyphs meant as a cross, an arrow, a memo and a check mark, as proofread.ts spells them. */
  const BunMarks := Proofread.Marks(
    cross := "\U{201A}\U{00FA}\U{00F3}",
    arrow := "\U{201A}\U{00DC}\U{00ED}",
    memo := "\U{F8FF}\U{00FC}\U{00EC}\U{00F9}",
    check := "\U{201A}\U{00FA}\U{00EC}")

  /**
   * `buildProofreadPrompt`: the request carries the user's text, the sentinel, the
   * explanation label and the issue format spelled with this file's glyphs.
   */
  function BuildProofreadPrompt(text: string): (prompt: string)
    ensures Contains(prompt, text)
    ensures Contains(prompt, "NO_ISSUES") && Contains(prompt, "Explanation:")
    ensures Contains(prompt, BunMarks.cross + " \"[original phrase]\" " + BunMarks.arrow + " \"[corrected phrase]\"")
  {
    Proofread.PromptEmbedsText(BunMarks, text, text);
    Proofread.PromptStatesReplyFormat(BunMarks, text);
    Proofread.BuildProofreadPrompt(BunMarks, text)
  }

  /** What proofread.ts prints: a reason opened by its memo glyph, or its check-marked message. */
  lemma Outputs(input: Proofread.HookInput, query: string -> Proofread.Reply)
    ensures
      var out := Proofread.Decide(BunMarks, input, query);
      && (out.Block? ==> StartsWith(out.reason, "\U{F8FF}\U{00FC}\U{00EC}\U{00F9}" + " English Proofreading:\n\n"))
      && (out.Pass? ==> out.systemMessage == "\U{201A}\U{00FA}\U{00EC}" + " No English issues found")
  {
    var out := Proofread.Decide(BunMarks, input, query);
    if out.Block? {
      Proofread.BlockReasonShowsFeedback(BunMarks, Trim(Proofread.LastResult(query(Proofread.BuildProofreadPrompt(BunMarks, Proofread.PromptOf(input))).messages)));
    }
  }

  /** `main`: the decision of the shared model, with the strings proofread.ts prints. */
  method Run(input: Proofread.HookInput, query: string -> Proofread.Reply) returns (out: Proofread.HookOutput)
    ensures out == Proofread.Decide(BunMarks, input, query)
    ensures out.Block? ==> StartsWith(out.reason, "\U{F8FF}\U{00FC}\U{00EC}\U{00F9}" + " English Proofreading:\n\n")
    ensures out.Pass? ==> out.systemMessage == "\U{201A}\U{00FA}\U{00EC}" + " No English issues found"
  {
    out := Proofread.RunHook(BunMarks, input, query);
    Outputs(input, query);
  }
}
