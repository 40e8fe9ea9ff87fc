/**
 * The proofreading hook that runs before a user's prompt is submitted: it asks a
 * text-generation capability whether the English in the prompt has grammar,
 * word-usage or naturalness problems, and either lets the prompt through or
 * blocks it with the capability's feedback.
 *
 * The hook exists twice, for Bun (proofread.ts) and for Node (proofread.mjs). The
 * two copies have the same logic. Apart from type annotations and the test that
 * decides whether `main` runs at all, they differ only in how four decorative
 * glyphs are spelled, so this module is parameterised by a `Marks` record and the
 * per-file modules fix it.
 */
module Proofread {
  import opened Wrappers
  import opened Text

  // ---------------------------------------------------------------------------
  // Language gate: containsEnglish
  // ---------------------------------------------------------------------------

  /** A character of the regular-expression class `[a-zA-Z]`. */
  predicate IsAsciiLetter(c: char) {
    ('a' <= c <= 'z') || ('A' <= c <= 'Z')
  }

  /** `/[a-zA-Z]/.test(text)`, as a left-to-right scan for a matching character. */
  function ContainsEnglish(text: string): (found: bool)
    ensures found <==> exists i :: 0 <= i < |text| && IsAsciiLetter(text[i])
  {
    if text == [] then false
    else if IsAsciiLetter(text[0]) then true
    else
      var rest := ContainsEnglish(text[1..]);
      assert forall i :: 0 < i < |text| ==> text[i] == text[1..][i - 1];
      rest
  }

  /** The strings the unit tests gate: any ASCII letter lets a prompt through, nothing else does. */
  lemma ContainsEnglishExamples()
    ensures ContainsEnglish("Hello world") && ContainsEnglish("HELLO") && ContainsEnglish("hello")
    ensures ContainsEnglish("a") && ContainsEnglish("Z")
    ensures ContainsEnglish("\U{C548}\U{B155} Hello")
    ensures !ContainsEnglish("\U{C548}\U{B155}\U{D558}\U{C138}\U{C694}")
    ensures !ContainsEnglish("12345") && !ContainsEnglish("!@#$%") && !ContainsEnglish("")
  {
  }

  // ---------------------------------------------------------------------------
  // Request builder: buildProofreadPrompt
  // ---------------------------------------------------------------------------

  /** The four glyphs whose spelling differs between the two copies of the hook. */
  datatype Marks = Marks(
    cross: string,  // marks an original phrase in the requested reply format
    arrow: string,  // separates the original phrase from its correction
    memo: string,   // opens the reason of a blocked prompt
    check: string   // opens the message shown for a clean prompt
  )

  const GrammarErrors := "Grammar errors"
  const WrongWordUsage := "Wrong word usage"
  const UnnaturalExpressions := "Unnatural expressions"
  /** The sentinel reply meaning that no issue was found. */
  const NoIssues := "NO_ISSUES"
  const ExplanationLabel := "Explanation:"

  /** The fragments of the template before the user's text: role, rubric, opening fence. */
  const HeadPieces: seq<string> :=
    [ "You are an English proofreading assistant for a non-native speaker who wants to learn.\n\n"
      + "Analyze the following text for:\n1. ",
      GrammarErrors,
      "\n2. ",
      WrongWordUsage,
      "\n3. ",
      UnnaturalExpressions,
      " (from a native speaker's perspective)\n\n"
      + "Focus ONLY on the English parts. Ignore any Korean or other non-English text.\n\n"
      + "Text to proofread:\n\"\"\"\n" ]

  /** The one-line shape in which the capability is asked to report each issue. */
  function FormatLine(marks: Marks): string {
    marks.cross + " \"[original phrase]\" " + marks.arrow + " \"[corrected phrase]\""
  }

  const FenceClose := "\n\"\"\"\n\nIf there are NO issues, respond with exactly:\n"
  const FormatIntro := "\n\nIf there ARE issues, respond in this format for EACH issue:\n\n"
  const Closing :=
    " [Detailed educational explanation of why this is wrong and how to remember the "
    + "correct usage. Include grammar rules, common patterns, or helpful tips.]\n\n---\n\n"
    + "Be thorough but focus on actual errors, not style preferences. If the English is "
    + "grammatically correct and natural-sounding, respond with NO_ISSUES."

  /** The fragments of the template after the user's text: closing fence and reply format. */
  function TailPieces(marks: Marks): seq<string> {
    [FenceClose, NoIssues, FormatIntro, FormatLine(marks), "\n", ExplanationLabel, Closing]
  }

  function PromptHead(): string { Concat(HeadPieces) }

  function PromptTail(marks: Marks): string { Concat(TailPieces(marks)) }

  /** The request sent to the capability: the user's text spliced into the fixed template. */
  function BuildProofreadPrompt(marks: Marks, text: string): (prompt: string)
    ensures |prompt| == |PromptHead()| + |text| + |PromptTail(marks)|
    ensures prompt[|PromptHead()|..|PromptHead()| + |text|] == text
  {
    PromptHead() + text + PromptTail(marks)
  }

  lemma HeadPieceInPrompt(marks: Marks, text: string, k: nat)
    requires k < |HeadPieces|
    ensures Contains(BuildProofreadPrompt(marks, text), HeadPieces[k])
  {
    ConcatContainsPiece(HeadPieces, k);
    var i: nat :| OccursAt(PromptHead(), HeadPieces[k], i);
    assert OccursAt(BuildProofreadPrompt(marks, text), HeadPieces[k], i);
  }

  lemma TailPieceInPrompt(marks: Marks, text: string, k: nat)
    requires k < |TailPieces(marks)|
    ensures Contains(BuildProofreadPrompt(marks, text), TailPieces(marks)[k])
  {
    var tail := TailPieces(marks);
    ConcatContainsPiece(tail, k);
    var i: nat :| OccursAt(PromptTail(marks), tail[k], i);
    assert OccursAt(BuildProofreadPrompt(marks, text), tail[k], |PromptHead()| + |text| + i);
  }

  /** The template asks for the three kinds of problem, whatever the user's text. */
  lemma PromptStatesRubric(marks: Marks, text: string)
    ensures Contains(BuildProofreadPrompt(marks, text), GrammarErrors)
    ensures Contains(BuildProofreadPrompt(marks, text), WrongWordUsage)
    ensures Contains(BuildProofreadPrompt(marks, text), UnnaturalExpressions)
  {
    HeadPieceInPrompt(marks, text, 1);
    HeadPieceInPrompt(marks, text, 3);
    HeadPieceInPrompt(marks, text, 5);
  }

  /** The template names the sentinel, the issue format and the explanation label. */
  lemma PromptStatesReplyFormat(marks: Marks, text: string)
    ensures Contains(BuildProofreadPrompt(marks, text), NoIssues)
    ensures Contains(BuildProofreadPrompt(marks, text), FormatLine(marks))
    ensures Contains(BuildProofreadPrompt(marks, text), ExplanationLabel)
  {
    TailPieceInPrompt(marks, text, 1);
    TailPieceInPrompt(marks, text, 3);
    TailPieceInPrompt(marks, text, 5);
  }

  /**
   * The user's text appears in the request, and can be read back from it: the
   * request determines the text, so two texts never share one request.
   */
  lemma PromptEmbedsText(marks: Marks, text: string, other: string)
    ensures Contains(BuildProofreadPrompt(marks, text), text)
    ensures BuildProofreadPrompt(marks, text) == BuildProofreadPrompt(marks, other) <==> text == other
  {
    var head, tail := PromptHead(), PromptTail(marks);
    var prompt := BuildProofreadPrompt(marks, text);
    ContainsInfix(head, text, tail);
    if prompt == BuildProofreadPrompt(marks, other) {
      assert |text| == |other|;
      assert text == prompt[|head|..|head| + |text|] == other;
    }
  }

  // ---------------------------------------------------------------------------
  // Reply classifier: parseProofreadResult
  // ---------------------------------------------------------------------------

  datatype ProofreadResult = ProofreadResult(hasIssues: bool, feedback: string)

  /**
   * A reply is clean when, once trimmed, it is or starts with the sentinel;
   * otherwise the trimmed reply is the feedback.
   */
  function ParseProofreadResult(result: string): (parsed: ProofreadResult)
    ensures parsed.hasIssues <==> !StartsWith(Trim(result), NoIssues)
    ensures !parsed.hasIssues ==> parsed.feedback == ""
    ensures parsed.hasIssues ==> Bare(parsed.feedback) && exists lead: nat :: Framed(result, lead, parsed.feedback)
  {
    var trimmed := Trim(result);
    if trimmed == NoIssues || StartsWith(trimmed, NoIssues) then
      ProofreadResult(false, "")
    else
      ProofreadResult(true, trimmed)
  }

  /** Surrounding whitespace never changes the verdict or the feedback. */
  lemma ParseAbsorbsTrim(result: string)
    ensures ParseProofreadResult(Trim(result)) == ParseProofreadResult(result)
  {
    TrimIdempotent(result);
  }

  /**
   * A blank reply (empty, or whitespace only) is not clean: it blocks with empty
   * feedback, and it is the only reply that does.
   */
  lemma BlankReplyBlocksSilently(result: string)
    ensures ParseProofreadResult(result) == ProofreadResult(true, "") <==> Blank(result)
  {
    TrimEmptyIffBlank(result);
  }

  /**
   * A reply whose first non-whitespace text is the sentinel is clean, whatever
   * follows it: the sentinel alone, padded with spaces, or followed by more text.
   */
  lemma LeadingSentinelIsClean(pre: string, rest: string)
    requires Blank(pre)
    ensures ParseProofreadResult(pre + NoIssues + rest) == ProofreadResult(false, "")
  {
    assert NoIssues[0] == 'N' && NoIssues[|NoIssues| - 1] == 'S';
    TrimKeepsLeadingWord(pre, NoIssues, rest);
  }

  // ---------------------------------------------------------------------------
  // Reply selection: the loop over the capability's messages in main
  // ---------------------------------------------------------------------------

  /** One event of the capability's reply stream: its `type` and optional `result`. */
  datatype QueryMessage = QueryMessage(kind: string, result: Option<string>)

  /** `message.type === "result" && message.result`: a result message with non-empty text. */
  predicate Selected(message: QueryMessage) {
    message.kind == "result" && message.result.Some? && message.result.value != ""
  }

  /** The reply the hook keeps: the text of the last selected message, or "" if none. */
  function LastResult(messages: seq<QueryMessage>): (reply: string)
    ensures reply == "" || exists i :: 0 <= i < |messages| && Selected(messages[i]) && reply == messages[i].result.value
  {
    if messages == [] then ""
    else if Selected(messages[|messages| - 1]) then messages[|messages| - 1].result.value
    else LastResult(messages[..|messages| - 1])
  }

  /** The reply is the text of the last selected message; earlier matches are overwritten. */
  lemma {:induction false} LastResultIsLastSelected(messages: seq<QueryMessage>, i: nat)
    requires i < |messages| && Selected(messages[i])
    requires forall j :: i < j < |messages| ==> !Selected(messages[j])
    ensures LastResult(messages) == messages[i].result.value
  {
    if i < |messages| - 1 {
      var init := messages[..|messages| - 1];
      assert forall j :: i < j < |init| ==> init[j] == messages[j];
      LastResultIsLastSelected(init, i);
    }
  }

  /** The reply is empty exactly when no message is selected. */
  lemma {:induction false} LastResultEmptyIff(messages: seq<QueryMessage>)
    ensures LastResult(messages) == "" <==> forall i :: 0 <= i < |messages| ==> !Selected(messages[i])
  {
    if messages != [] {
      var init := messages[..|messages| - 1];
      LastResultEmptyIff(init);
      assert forall i :: 0 <= i < |init| ==> init[i] == messages[i];
    }
  }

  /** The `for await` loop of main: keeps the text of every selected message, the last one winning. */
  method SelectReply(messages: seq<QueryMessage>) returns (reply: string)
    ensures reply == LastResult(messages)
  {
    reply := "";
    var i := 0;
    while i < |messages|
      invariant 0 <= i <= |messages|
      invariant reply == LastResult(messages[..i])
    {
      var message := messages[i];
      assert messages[..i + 1][..i] == messages[..i];
      if Selected(message) {
        reply := message.result.value;
      }
      i := i + 1;
    }
    assert messages[..i] == messages;
  }

  // ---------------------------------------------------------------------------
  // Decision mapping: the rest of main
  // ---------------------------------------------------------------------------

  /**
   * The hook's standard input. `Invalid` is text that does not parse as JSON, or
   * `null`, where reading `prompt` throws; `Valid` is any other JSON value, with
   * `None` when it has no `prompt`.
   */
  datatype HookInput = Invalid | Valid(prompt: Option<string>)

  /**
   * What the capability produced for one request: the messages it delivered, and
   * whether loading it, starting it or reading its stream threw.
   */
  datatype Reply = Reply(messages: seq<QueryMessage>, failed: bool)

  /**
   * The JSON object written to standard output: `{}`; a pass, which always carries
   * `suppressOutput: true` beside its `systemMessage`; or a block, whose `decision`
   * is always "block" beside its `reason`.
   */
  datatype HookOutput = Empty | Pass(systemMessage: string) | Block(reason: string)

  /** `input.prompt || ""`. */
  function PromptOf(input: HookInput): (prompt: string)
    requires input.Valid?
    ensures input.prompt.None? ==> prompt == ""
    ensures input.prompt.Some? ==> prompt == input.prompt.value
  {
    input.prompt.GetOr("")
  }

  const ReasonTitle := " English Proofreading:\n\n"
  const ReasonFooter := "\n\nPlease revise your prompt and re-submit."

  function BlockReason(marks: Marks, feedback: string): string {
    marks.memo + ReasonTitle + feedback + ReasonFooter
  }

  function SystemMessage(marks: Marks): string {
    marks.check + " No English issues found"
  }

  /** The output for a classified reply: a block carrying the feedback, or a quiet pass. */
  function Respond(marks: Marks, parsed: ProofreadResult): (out: HookOutput)
    ensures !out.Empty? && (out.Block? <==> parsed.hasIssues)
    ensures out.Block? ==>
      && StartsWith(out.reason, marks.memo + ReasonTitle)
      && out.reason[|marks.memo + ReasonTitle|..] == parsed.feedback + ReasonFooter
    ensures out.Pass? ==> out.systemMessage == SystemMessage(marks)
  {
    if parsed.hasIssues then Block(BlockReason(marks, parsed.feedback)) else Pass(SystemMessage(marks))
  }

  /**
   * The whole decision. Invalid input, a prompt without an English letter, or a
   * failing capability give `{}`; a prompt with English is sent, inside the
   * template, to the capability, and its last reply decides between a block
   * carrying the trimmed reply and a quiet pass.
   */
  function Decide(marks: Marks, input: HookInput, query: string -> Reply): (out: HookOutput)
    ensures out.Empty? <==>
      || input.Invalid?
      || !(exists i :: 0 <= i < |PromptOf(input)| && IsAsciiLetter(PromptOf(input)[i]))
      || query(BuildProofreadPrompt(marks, PromptOf(input))).failed
    ensures out.Block? ==>
      var reply := LastResult(query(BuildProofreadPrompt(marks, PromptOf(input))).messages);
      && !StartsWith(Trim(reply), NoIssues)
      && out.reason == BlockReason(marks, Trim(reply))
    ensures out.Pass? ==>
      var reply := LastResult(query(BuildProofreadPrompt(marks, PromptOf(input))).messages);
      && StartsWith(Trim(reply), NoIssues)
      && out.systemMessage == SystemMessage(marks)
  {
    if input.Invalid? then Empty
    else
      var prompt := PromptOf(input);
      if !ContainsEnglish(prompt) then Empty
      else
        var reply := query(BuildProofreadPrompt(marks, prompt));
        if reply.failed then Empty
        else Respond(marks, ParseProofreadResult(LastResult(reply.messages)))
  }

  /**
   * A reply stream with no non-empty `result` message blocks an English prompt
   * with an empty feedback: the loop leaves `result` at "", and "" does not
   * start with `NO_ISSUES`.
   */
  lemma NoReplyBlocksWithEmptyReason(marks: Marks, input: HookInput, query: string -> Reply)
    requires input.Valid? && exists i :: 0 <= i < |PromptOf(input)| && IsAsciiLetter(PromptOf(input)[i])
    requires !query(BuildProofreadPrompt(marks, PromptOf(input))).failed
    requires
      var messages := query(BuildProofreadPrompt(marks, PromptOf(input))).messages;
      forall i :: 0 <= i < |messages| ==> !Selected(messages[i])
    ensures Decide(marks, input, query) == Block(BlockReason(marks, ""))
  {
    LastResultEmptyIff(query(BuildProofreadPrompt(marks, PromptOf(input))).messages);
  }

  /** A prompt without English is answered with `{}` whatever the capability would say. */
  lemma CapabilityNotConsulted(marks: Marks, input: HookInput, query: string -> Reply, other: string -> Reply)
    requires input.Valid? && forall i :: 0 <= i < |PromptOf(input)| ==> !IsAsciiLetter(PromptOf(input)[i])
    ensures Decide(marks, input, query) == Decide(marks, input, other) == Empty
  {
    assert !ContainsEnglish(PromptOf(input));
  }

  /** The feedback can be read back, verbatim, from between the reason's title and footer. */
  lemma BlockReasonShowsFeedback(marks: Marks, feedback: string)
    ensures StartsWith(BlockReason(marks, feedback), marks.memo + ReasonTitle)
    ensures
      var reason := BlockReason(marks, feedback);
      |reason| == |marks.memo + ReasonTitle| + |feedback| + |ReasonFooter|
      && reason[|marks.memo + ReasonTitle|..|reason| - |ReasonFooter|] == feedback
  {
    var head := marks.memo + ReasonTitle;
    var reason := BlockReason(marks, feedback);
    assert reason == head + feedback + ReasonFooter;
    assert reason[..|head|] == head;
    assert reason[|head|..|reason| - |ReasonFooter|] == feedback;
  }

  /** Malformed input and an absent or empty prompt give `{}`. */
  lemma EmptyPromptPassesThrough(marks: Marks, query: string -> Reply)
    ensures Decide(marks, Invalid, query) == Empty
    ensures Decide(marks, Valid(None), query) == Empty
    ensures Decide(marks, Valid(Some("")), query) == Empty
  {
  }

  /** The digit-only prompt of the integration tests gives `{}`. */
  lemma DigitPromptPassesThrough(marks: Marks, query: string -> Reply)
    ensures Decide(marks, Valid(Some("12345 67890")), query) == Empty
  {
    var p := "12345 67890";
    forall i | 0 <= i < |p| ensures !IsAsciiLetter(p[i]) {
      assert p[i] <= '9';
    }
    CapabilityNotConsulted(marks, Valid(Some(p)), query, query);
  }

  /** The Hangul-only prompt of the integration tests gives `{}`. */
  lemma HangulPromptPassesThrough(marks: Marks, query: string -> Reply)
    ensures Decide(marks, Valid(Some(KoreanOnly)), query) == Empty
  {
    forall i | 0 <= i < |KoreanOnly| ensures !IsAsciiLetter(KoreanOnly[i]) {
      assert KoreanOnly[i] == ' ' || KoreanOnly[i] >= '\U{AC00}';
    }
    CapabilityNotConsulted(marks, Valid(Some(KoreanOnly)), query, query);
  }

  /** "한글만 있는 프롬프트입니다", the Hangul-only prompt of the integration tests. */
  const KoreanOnly := "\U{D55C}\U{AE00}\U{B9CC} \U{C788}\U{B294} \U{D504}\U{B86C}\U{D504}\U{D2B8}\U{C785}\U{B2C8}\U{B2E4}"

  /** `main`: reads the input, consults the capability only for English, and answers. */
  method RunHook(marks: Marks, input: HookInput, query: string -> Reply) returns (out: HookOutput)
    ensures out == Decide(marks, input, query)
  {
    if input.Invalid? {
      return Empty;
    }
    var prompt := PromptOf(input);
    if !ContainsEnglish(prompt) {
      return Empty;
    }
    var reply := query(BuildProofreadPrompt(marks, prompt));
    var result := SelectReply(reply.messages);
    if reply.failed {
      return Empty;
    }
    var parsed := ParseProofreadResult(result);
    if parsed.hasIssues {
      out := Block(BlockReason(marks, parsed.feedback));
    } else {
      out := Pass(SystemMessage(marks));
    }
  }
}
