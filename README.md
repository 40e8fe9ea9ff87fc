# English proofreading hook — a Dafny model

The english-proofreader plugin installs a hook that runs before a user's prompt is
submitted. The hook reads a JSON object from standard input. If the object's
`prompt` contains at least one ASCII letter, the hook sends the prompt, wrapped in
a fixed proofreading template, to a text-generation capability. It then keeps the
last non-empty `result` message of the capability's reply stream and classifies
that reply. A reply whose trimmed text starts with `NO_ISSUES` lets the prompt
through with a quiet confirmation. Any other reply blocks the prompt, and the
reason shown to the user carries the trimmed reply. Invalid input, a prompt
without English, or a thrown error gives the empty answer `{}` (fail-open).

The hook exists twice: `proofread.ts` for Bun and `proofread.mjs` for Node. Their
logic is identical. Apart from the glyphs, they differ only in type annotations and
in the check that decides whether `main` runs (proofread.ts:166, proofread.mjs:129),
which is not modelled. The four decorative glyphs are spelled differently.
In the Bun file those glyphs are UTF-8 bytes read back as Mac Roman text (for
example `‚úì` where the Node file has `✓`).

Files:

- `wrappers.dfy` — `Option`, for the JSON fields that may be absent.
- `text.dfy` — the JavaScript string built-ins the hook uses: `trim` (with the
  full ECMAScript whitespace set), `startsWith`, the joining of a template
  literal's fragments, and `includes`, which the tests use to check the request. `Trim` is proved to return the unique
  whitespace-free core of its input.
- `proofread.dfy` — the shared logic, parameterised by the four glyphs (`Marks`):
  the language gate, the prompt template, the reply classifier, the reply
  selection loop, the decision, and `main` as the method `RunHook`.
- `bun_hook.dfy`, `node_hook.dfy` — each file's glyphs, its prompt builder and its
  `main`, with contracts that spell out the strings that file sends and prints.

The capability is a parameter `query: string -> Reply`. Given the request text, it
returns the messages it delivered and whether anything threw. A thrown error can
come from loading the SDK, starting the query or reading the stream. The decision
`Decide` applies `query` only when the prompt contains English, so "no call for a
non-English prompt" is part of the model's shape. `CapabilityNotConsulted` states
it outright.

The hook does no command or mention normalisation, reads no transcript,
truncates nothing, does not parse JSON-array replies and writes no audit log. A
reply is classified only by the `NO_ISSUES` prefix, and anything else becomes raw
feedback.

## Model

| member | source | states |
|---|---|---|
| `Proofread.ContainsEnglish` | english-proofreader/hooks/proofread.ts:64-66 | the gate holds exactly when some character of the text is in `a`..`z` or `A`..`Z` |
| `Proofread.ContainsEnglishExamples` | english-proofreader/hooks/proofread.test.ts:63-96 | "Hello world", "HELLO", "a", "Z" and mixed Hangul/English pass the gate; Hangul only, digits, symbols and "" do not |
| `Proofread.BuildProofreadPrompt` | english-proofreader/hooks/proofread.ts:69-95 | the one definition of the template: the request is the fixed head, the text, then the fixed tail, so the text can be read back at a fixed offset |
| `Proofread.PromptStatesRubric` | english-proofreader/hooks/proofread.ts:70-77 | for every text and both glyph sets, the request names "Grammar errors", "Wrong word usage" and "Unnatural expressions" |
| `Proofread.PromptStatesReplyFormat` | english-proofreader/hooks/proofread.ts:84-94 | for every text, the request names the `NO_ISSUES` sentinel, the issue format line with the file's glyphs, and "Explanation:" |
| `Proofread.PromptEmbedsText` | english-proofreader/hooks/proofread.ts:79-82 | the request contains the user's text, and two texts give the same request only if they are equal (the text can be read back) |
| `BunHook.BuildProofreadPrompt` | english-proofreader/hooks/proofread.ts:69-95 | the Bun request contains the text, "NO_ISSUES", "Explanation:" and the format line spelled with the Bun glyphs |
| `NodeHook.BuildProofreadPrompt` | english-proofreader/hooks/proofread.mjs:33-59 | the Node request contains the text, "NO_ISSUES", "Explanation:" and the format line spelled with ✗ and → |
| `Text.LeadingBlanks` | english-proofreader/hooks/proofread.ts:99 | the count of leading characters `trim` removes: all of them are whitespace and the next one, if any, is not |
| `Text.ContentEnd` | english-proofreader/hooks/proofread.ts:99 | where the trailing whitespace `trim` removes begins: everything from there on is whitespace and the character before it, if any, is not |
| `Text.TrimEndOfTrimStart` | english-proofreader/hooks/proofread.mjs:63 | cutting the leading, then the trailing whitespace leaves a core with no whitespace at its ends, framed in the input by whitespace only |
| `Text.Trim` | english-proofreader/hooks/proofread.ts:99 | the result has no whitespace at either end and sits in the input with only whitespace around it |
| `Text.TrimUnique` | english-proofreader/hooks/proofread.mjs:63 | any whitespace-free core framed by whitespace in a string is exactly its `trim` |
| `Text.TrimIdempotent` | english-proofreader/hooks/proofread.mjs:63 | trimming twice is trimming once |
| `Text.TrimEmptyIffBlank` | english-proofreader/hooks/proofread.ts:99 | `trim` gives "" exactly for empty or whitespace-only text |
| `Text.TrimKeepsLeadingWord` | english-proofreader/hooks/proofread.ts:101 | after leading whitespace, a word with non-whitespace ends is still at the front of the trimmed text |
| `Proofread.ParseProofreadResult` | english-proofreader/hooks/proofread.ts:98-106 | the reply has issues exactly when its trimmed form does not start with `NO_ISSUES` (the equality test is subsumed); clean replies carry "" and issue replies carry the reply with its surrounding whitespace removed |
| `Proofread.ParseAbsorbsTrim` | english-proofreader/hooks/proofread.mjs:62-70 | classifying the trimmed reply gives the same result as classifying the reply |
| `Proofread.BlankReplyBlocksSilently` | english-proofreader/hooks/proofread.mjs:62-70 | a reply is classified as "issues, empty feedback" exactly when it is empty or whitespace only |
| `Proofread.LeadingSentinelIsClean` | english-proofreader/hooks/proofread.test.ts:181-195 | any reply made of whitespace, then `NO_ISSUES`, then anything is clean; this covers "NO_ISSUES", "  NO_ISSUES  " and "NO_ISSUES - your text is perfect!" |
| `Proofread.Selected` | english-proofreader/hooks/proofread.ts:133 | defines which messages the loop keeps: type "result" with a non-empty `result` |
| `Proofread.LastResult` | english-proofreader/hooks/proofread.ts:124-136 | the reference for the loop: the reply is "" or the `result` of some selected message |
| `Proofread.LastResultIsLastSelected` | english-proofreader/hooks/proofread.ts:124-136 | the reply is the `result` of the last message of type "result" whose `result` is non-empty; earlier matches are overwritten |
| `Proofread.LastResultEmptyIff` | english-proofreader/hooks/proofread.mjs:88-100 | the reply is "" exactly when no message is of type "result" with a non-empty `result` |
| `Proofread.SelectReply` | english-proofreader/hooks/proofread.mjs:88-100 | the loop's final `result` is the last selected message's text, or "" |
| `Proofread.PromptOf` | english-proofreader/hooks/proofread.ts:114 | an absent prompt reads as "", a present string prompt as itself |
| `Proofread.BlockReason` | english-proofreader/hooks/proofread.ts:145 | defines the block reason: memo glyph, " English Proofreading:\n\n", the feedback, "\n\nPlease revise your prompt and re-submit." |
| `Proofread.SystemMessage` | english-proofreader/hooks/proofread.ts:152 | defines the pass message: check glyph and " No English issues found" |
| `Proofread.Respond` | english-proofreader/hooks/proofread.ts:139-155 | issues give a block whose reason starts with the memo glyph and " English Proofreading:\n\n", followed by exactly the feedback and "\n\nPlease revise your prompt and re-submit."; a clean reply gives a pass with the file's system message; never `{}` |
| `Proofread.BlockReasonShowsFeedback` | english-proofreader/hooks/proofread.mjs:105-110 | the block reason starts with the memo glyph and title, and the feedback can be read back verbatim between title and footer |
| `Proofread.Decide` | english-proofreader/hooks/proofread.ts:109-163 | the output is `{}` exactly for invalid input, a prompt without an ASCII letter, or a failing capability; a block carries the trimmed last reply and its reply does not start with `NO_ISSUES`; a pass has the fixed message and its reply does |
| `Proofread.CapabilityNotConsulted` | english-proofreader/hooks/proofread.ts:116-120 | for a prompt without an ASCII letter, the output is `{}` whatever the capability would answer |
| `Proofread.NoReplyBlocksWithEmptyReason` | english-proofreader/hooks/proofread.ts:123-146 | an English prompt whose reply stream has no non-empty `result` message is blocked, with an empty feedback between title and footer, rather than let through |
| `Proofread.EmptyPromptPassesThrough` | english-proofreader/hooks/proofread.ts:112-120 | malformed input (the `catch` path), an absent prompt and an empty prompt all give `{}` for every capability |
| `Proofread.DigitPromptPassesThrough` | english-proofreader/hooks/proofread.test.mjs:171-176 | the prompt "12345 67890" gives `{}` for every capability |
| `Proofread.HangulPromptPassesThrough` | english-proofreader/hooks/proofread.test.mjs:157-162 | the Hangul-only prompt gives `{}` for every capability |
| `Proofread.RunHook` | english-proofreader/hooks/proofread.mjs:73-126 | the imperative `main` (gate, query, selection loop, classification) produces exactly `Decide`'s output |
| `BunHook.Outputs` | english-proofreader/hooks/proofread.ts:141-155 | with the Bun glyphs, a block reason starts with its mis-encoded memo glyph and " English Proofreading:\n\n", and the pass message is its mis-encoded check mark and " No English issues found" |
| `BunHook.Run` | english-proofreader/hooks/proofread.ts:109-163 | Bun's `main` gives `Decide`'s output with the strings proofread.ts prints |
| `NodeHook.Outputs` | english-proofreader/hooks/proofread.mjs:105-117 | with the Node glyphs, a block reason starts with "📝 English Proofreading:\n\n" and the pass message is "✓ No English issues found" |
| `NodeHook.Run` | english-proofreader/hooks/proofread.mjs:73-126 | Node's `main` gives `Decide`'s output with the strings proofread.mjs prints |

## Left out

- `readStdin`, `console.log`, `console.error` and `process.exit` are stream I/O. The model returns the output as a `HookOutput` value, and the diagnostic line written on error is not modelled.
- `JSON.parse` is not modelled. `HookInput.Invalid` stands for text that does not parse, or for `null`, where reading `input.prompt` throws. `Valid(None)` stands for any other JSON value without a `prompt`.
- `input.prompt || ""` also coerces non-string values such as numbers or objects. The model only covers a prompt that is absent or a string.
- `getQuery` and the lazily assigned `_query` run `npm root -g` and load the SDK module. These are foreign calls. The capability is the `query` parameter, and a failure to load it is a `Reply` with `failed` set.
- The query options (`allowedTools: []`, `maxTurns: 1`, `model: "haiku"`) are fixed arguments to the foreign call. They are not modelled.
- Messages are delivered as a finite sequence. The asynchronous iteration is not modelled. An error part-way through the stream is folded into `failed`, which discards whatever was read, as the `catch` does.
- `Text.IsWhiteSpace` uses the `Zs` category as of Unicode 15. A later Unicode version that adds space separators would widen JavaScript's `trim`.
- english-proofreader/hooks/ensure-deps.ts checks the filesystem and runs `bun install`. It is I/O only.
- `truncateContext` and `extractTextContent` are imported and tested by proofread.test.ts, but neither proofread.ts nor proofread.mjs defines them. With no code to follow, they are not modelled.
- JavaScript strings are sequences of UTF-16 code units; here a `string` is a sequence of Unicode scalar values. No decision depends on the difference, since no whitespace character and no ASCII letter is a surrogate or lies outside the Basic Multilingual Plane. But lone surrogates, which `JSON.parse` can produce, cannot be represented, and lengths such as those in `BlockReasonShowsFeedback` count scalar values rather than code units.
- A thrown value without a `message` property (`throw null`, `throw undefined`) makes the `catch` block itself throw, so nothing is printed and `process.exit(0)` is not reached. The model treats every failure as `failed`, which gives `{}`.
- The test that decides whether `main` runs (`import.meta.main` in proofread.ts, a comparison of `process.argv[1]` with the module path in proofread.mjs) is not modelled. The model assumes `main` runs.
