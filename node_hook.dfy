/**
 * The Node copy of the hook (proofread.mjs). Its decorative glyphs are the
 * intended characters: U+2717 (ballot x), U+2192 (rightwards arrow), U+1F4DD
 * (memo) and U+2713 (check mark).
 */
module NodeHook {
  import opened Text
  import Proofread

  /** The glyphs meant as a cross, an arrow, a memo and a check mark, as proofread.mjs spells them. */
  const NodeMarks := Proofread.Marks(
    cross := "\U{2717}",
    arrow := "\U{2192}",
    memo := "\U{1F4DD}",
    check := "\U{2713}")

  /**
   * `buildProofreadPrompt`: the request carries the user's text, the sentinel, the
   * explanation label and the issue format spelled with this file's glyphs.
   */
  function BuildProofreadPrompt(text: string): (prompt: string)
    ensures Contains(prompt, text)
    ensures Contains(prompt, "NO_ISSUES") && Contains(prompt, "Explanation:")
    ensures Contains(prompt, NodeMarks.cross + " \"[original phrase]\" " + NodeMarks.arrow + " \"[corrected phrase]\"")
  {
    Proofread.PromptEmbedsText(NodeMarks, text, text);
    Proofread.PromptStatesReplyFormat(NodeMarks, text);
    Proofread.BuildProofreadPrompt(NodeMarks, text)
  }

  /** What proofread.mjs prints: a reason opened by its memo glyph, or its check-marked message. */
  lemma Outputs(input: Proofread.HookInput, query: string -> Proofread.Reply)
    ensures
      var out := Proofread.Decide(NodeMarks, input, query);
      && (out.Block? ==> StartsWith(out.reason, "\U{1F4DD}" + " English Proofreading:\n\n"))
      && (out.Pass? ==> out.systemMessage == "\U{2713}" + " No English issues found")
  {
    var out := Proofread.Decide(NodeMarks, input, query);
    if out.Block? {
      Proofread.BlockReasonShowsFeedback(NodeMarks, Trim(Proofread.LastResult(query(Proofread.BuildProofreadPrompt(NodeMarks, Proofread.PromptOf(input))).messages)));
    }
  }

  /** `main`: the decision of the shared model, with the strings proofread.mjs prints. */
  method Run(input: Proofread.HookInput, query: string -> Proofread.Reply) returns (out: Proofread.HookOutput)
    ensures out == Proofread.Decide(NodeMarks, input, query)
    ensures out.Block? ==> StartsWith(out.reason, "\U{1F4DD}" + " English Proofreading:\n\n")
    ensures out.Pass? ==> out.systemMessage == "\U{2713}" + " No English issues found"
  {
    out := Proofread.RunHook(NodeMarks, input, query);
    Outputs(input, query);
  }
}
