# PDF rule checker backend: JSON extractor and prompt template

The backend of this rule checker takes a PDF and a list of free-text rules,
asks a language model whether the document satisfies each rule, and returns
the model's JSON verdict array. Two pieces of it are self-contained string
logic, and this project models and proves properties of exactly those two:

- the "safe JSON extractor" `extractJSON`. It finds the first `[` and the last
  `]` of the model's raw reply and passes the slice between them to
  `JSON.parse`. If the reply has no `[`, it throws
  "Model did not return valid JSON array".
- the prompt template. It joins a fixed instruction block, the PDF text under
  `PDF TEXT:` and the rules, joined by newlines, under `RULES:`.

Files:

- `JsString.dfy`: JavaScript's `indexOf`, `lastIndexOf`, `slice` (with its
  negative and clamped bounds) and `join` as pure functions over `seq<char>`.
  It also defines `Split`, the inverse of `Join`, which the round-trip lemmas
  use.
- `Extractor.dfy`: `Locate` (the index arithmetic of `extractJSON`, with its
  guard as written) and `ExtractJson`. `JSON.parse` is an arbitrary function
  parameter, so every property holds whatever the parser does. The file also
  holds the corrected `LocateStrict` / `ExtractJsonStrict` (see Findings).
- `Prompt.dfy`: `Fill`, which fills in a template, and `Backend`, the
  backend's own template. `Build` is `Fill` applied to `Backend`, the prompt
  the backend sends. `TextOf` and `RulesOf` read the text and the rules back
  out of a prompt. The layout lemmas are stated for any template, so they
  hold for `Backend` in particular.

The `end === -1` test at backend/index.js:32 shows that a reply without a `]`
was meant to be rejected. In the code such a reply gets past the guard, because
`end` is `lastIndexOf("]") + 1` and so never below 0, and the empty string goes
to `JSON.parse`. The model follows the code: `MissingCloseBracketReachesParse`
states that behaviour, and the corrected version is kept apart (see Findings).

## Model

| member | source | states |
|---|---|---|
| JsString.IndexOf | backend/index.js:29 | the result is -1 exactly when the character is absent; otherwise the position holds it and no earlier position does |
| JsString.LastIndexOf | backend/index.js:30 | the result is -1 exactly when the character is absent; otherwise the position holds it and no later position does |
| JsString.IndexOfIsFirst | backend/index.js:29 | any occurrence with no earlier occurrence is the position `indexOf` returns |
| JsString.LastIndexOfIsLast | backend/index.js:30 | any occurrence with no later occurrence is the position `lastIndexOf` returns |
| JsString.Slice | backend/index.js:37 | the slice is as long as the distance from the resolved start to the resolved end, or empty when the end is not after the start, and never longer than the input |
| JsString.SliceChars | backend/index.js:37 | each character of a slice is the character of the input that many places after the resolved start |
| JsString.SliceInRange | backend/index.js:37 | with non-negative bounds, `slice` is the plain substring when the end lies inside the string and after the start, and empty when the end is not after the start, which are the two cases the extractor meets |
| JsString.SliceFromEnd | backend/index.js:37 | a negative start counts back from the end: `s.slice(-n)` is the last `n` characters |
| JsString.SliceClamps | backend/index.js:37 | an end past the string acts like the string's length, and a start before `-length` acts like 0 |
| JsString.Join | backend/index.js:72 | `rules.join("\n")`. Its meaning is stated by the lemmas below: the length (`JoinLength`), each part at its offset (`JoinEmbedsParts`), one separator between neighbours (`JoinSeparatesParts`), and `Split` as its inverse (`SplitJoin`, `JoinSplit`) |
| JsString.JoinLength | backend/index.js:72 | a joined string is as long as its parts plus one separator between each pair |
| JsString.JoinEmbedsParts | backend/index.js:72 | each part appears unchanged in `join`'s result, at its offset |
| JsString.JoinSeparatesParts | backend/index.js:72 | consecutive parts are exactly one separator apart, so they stay in input order |
| JsString.SplitJoin | backend/index.js:72 | splitting the joined rules on newlines gives back the rules, when there is at least one and none contains a newline |
| JsString.JoinSplit | backend/index.js:72 | joining the pieces of a split string gives the string back: every string is the newline-join of its newline-free pieces, so splitting loses nothing |
| Extractor.Locate | backend/index.js:29-37 | the error branch is taken exactly when there is no `[`, so the `end == -1` test never decides anything. Otherwise the slice starts at the first `[`. `end` is one past the last `]`, or 0 without a `]`, and no `]` follows it. The slice is the contiguous text between them, or empty when `end` is not after `start` |
| Extractor.ExtractJson | backend/index.js:28-39 | a reply with no `[` throws "Model did not return valid JSON array"; any other reply yields what `JSON.parse` makes of the located slice |
| Extractor.FirstOpenAfterProse | backend/index.js:29 | a `[` that follows prose containing no `[` is the first `[` |
| Extractor.LastCloseBeforeProse | backend/index.js:30 | a `]` followed by prose containing no `]` is the last `]` |
| Extractor.ProseIsStripped | backend/index.js:29-37 | take an array that opens with `[` and closes with `]`, with no `[` in the prose before it and no `]` in the prose after it; the slice is exactly that array |
| Extractor.SpanSplitsReply | backend/index.js:29-37 | conversely, a non-empty slice splits the reply into prose without `[`, the slice, and prose without `]` |
| Extractor.ExampleChattyReply | backend/index.js:28-39 | for "Here you go:" followed by a one-verdict array and a closing remark, exactly the array is parsed |
| Extractor.ExampleRefusal | backend/index.js:29-34 | "I cannot determine this." throws the no-array error |
| Extractor.MissingCloseBracketReachesParse | backend/index.js:30-38 | a reply with a `[` and no `]` passes the guard, and the empty string goes to `JSON.parse` |
| Extractor.DeadGuardExamples | backend/index.js:30-37 | the guard lets "[" and "] [" through, each with an empty slice, and "] [" reaches `JSON.parse` with the empty string |
| Extractor.BracketPairAroundFirstOpen | backend/index.js:29-30 | some `[` has a `]` after it exactly when the last `]` lies after the first `[` |
| Extractor.LocateStrict | backend/index.js:29-37 | corrected guard: the error branch is taken exactly when no `]` follows some `[`. Otherwise the slice still runs from the first `[` to one past the last `]`, is at least two characters long, opens with `[` and closes with `]` |
| Extractor.ExtractJsonStrict | backend/index.js:28-38 | the corrected extractor throws "Model did not return valid JSON array" exactly when no `]` follows a `[` in the reply. Otherwise it parses the text of the reply from its first `[` through its last `]` |
| Extractor.StrictAgreesOnArrays | backend/index.js:28-39 | the corrected extractor behaves like the original on every reply where the original slice is non-empty |
| Extractor.StrictRejectsEmptySlice | backend/index.js:32-37 | the corrected extractor rejects every reply whose original slice is empty |
| Prompt.Fill | backend/index.js:60-73 | the prompt starts with the instruction block. Next come the text label and the PDF text verbatim. Then come the rules label and the newline-joined rules verbatim, and a final newline |
| Prompt.Build | backend/index.js:60-73 | the prompt the backend sends, `Fill` applied to the backend's own template. Its layout is stated by `Fill`, and its round trip by `BuildRoundTrip` |
| Prompt.RoundTrip | backend/index.js:60-73 | given the PDF text's length, the PDF text can be read back verbatim from a prompt. The rules can be read back in input order when there is at least one and none contains a newline |
| Prompt.BuildRoundTrip | backend/index.js:60-73 | given the PDF text's length, the same round trip holds for the backend's own template, with its `PDF TEXT:` and `RULES:` labels |
| Prompt.TextCanPoseAsRules | backend/index.js:68-72 | without the text's length a prompt cannot be taken apart: for a template whose rules label is the backend's, the text "a", the label, "b" with the rule "c" gives the same prompt as the text "a" with the rules "b", "", "RULES:", "c" |
| Prompt.BuildCannotSeparateTextFromRules | backend/index.js:60-73 | the same collision for the backend's own prompt |
| Prompt.NoRulesGiveOneEmptyLine | backend/index.js:72 | with an empty rule list the rules section is empty, and splitting it yields one empty line |
| Prompt.RulesInOrder | backend/index.js:72 | each rule appears verbatim in the prompt at its offset in the rules section, followed by a newline when another rule comes next |

## Findings

| source | as written | input that shows it | evidently intended | confidence | as-written member | corrected member |
|---|---|---|---|---|---|---|
| backend/index.js:30-32 | `end` is `lastIndexOf("]") + 1`, so it is never -1. The `end === -1` test cannot fire, and a reply with a `[` but no `]` sends the empty string to `JSON.parse` | `"["` | a reply with no `]` takes the "Model did not return valid JSON array" branch, as the `end` test means to. The correction also rejects a reply such as `"] ["`, whose only `]` comes before the first `[`; that is the stricter reading "no `]` after the first `[`", not what the test literally checks | not executed | Extractor.MissingCloseBracketReachesParse | Extractor.ExtractJsonStrict |

Both halves are modelled. `Locate` and `ExtractJson` keep the code's
behaviour, because that is what the backend does. `LocateStrict` and
`ExtractJsonStrict` are the corrected guard. `StrictAgreesOnArrays` and
`StrictRejectsEmptySlice` show that the two versions differ on exactly the
replies with an empty slice.

## Left out

- The Express server, multer upload, CORS, dotenv, `app.listen` and the mapping of errors to HTTP 400/500 responses: these are I/O plumbing.
- Decoding the `rules` form field with `JSON.parse`: it is JSON syntax. The model takes the rules as an already-decoded sequence of strings.
- PDF text extraction through `pdf-parse-fixed`: a foreign library. The PDF text is a parameter of `Prompt.Build`.
- The chat-completion call and reading `response.choices[0]`: a network client.
- `JSON.parse` itself: it is left as the arbitrary parameter `parse`, so nothing depends on JSON syntax.
- Verdict schema validation (status values, confidence range, required fields): the code does not do it.
- The logging of the raw reply before the throw, and every other `console` output.
- The front end: React state, `fetch` and animation, with no logic beyond display.
- JsString.IndexOf: positions count Unicode characters, not UTF-16 code units as in JavaScript. This differs for text outside the Basic Multilingual Plane, where it never changes which characters end up in the slice. A JavaScript string holding a lone surrogate has no counterpart at all, because a Dafny `char` is a Unicode scalar value.
- Prompt.Fill: the rules are strings. JavaScript's `join` would also stringify other values and write `null`/`undefined` as empty; the model does not cover that.
- Prompt.RoundTrip: the rules are only recovered when none contains a newline and the list is not empty. Otherwise newline-joining is ambiguous, and splitting an empty section yields one empty rule.
- Prompt.RoundTrip: the text and rules are recovered only given the PDF text's length. A PDF text containing "\n\nRULES:\n" cannot be told apart from extra rules, because the template marks no boundaries (`TextCanPoseAsRules`).
