# A verified model of the reasoning agent in `api.py`

`api.py` is a small reasoning agent. `run_agent(question)` hands a transcript
to a language model and reads the reply. Depending on the reply it searches
the web, evaluates an arithmetic expression, or returns an answer. Tool results
go back into the transcript as "OBSERVATION: " messages. After twelve replies
without an answer it falls back on the latest successful calculation.

The model has six modules:

- `Options` (`text.dfy`) is the `Option` type that stands for Python's `None`
  or a value.
- `Text` (`text.dfy`) gives the Python string operations the agent relies on,
  as Python defines them: `in` (first occurrence), `str.split(sep)`,
  `sep.join`, `str.strip()` (with CPython's whitespace set) and
  `str.replace` of one character.
- `Calculator` (`calculator.dfy`) is `calculate`: the `re.fullmatch`
  whitelist, the `^` to `**` rewrite, and the hand-off to an evaluator.
- `WebSearch` (`search.dfy`) is `search_web`: how the backend's records, an
  empty result or a raised exception become the observation text.
- `Directives` (`directives.dfy`) is the classification of a reply into
  `Search`, `Calculate`, `Answer` or `Think`, and the extraction of its
  payload.
- `Agent` (`agent.dfy`) is the loop of `run_agent`. It has two halves. `Run`
  and `Continue` are a function that states the run step by step. `RunAgent`
  is the loop itself, as a method with the source's local variables, proved
  to compute `Run`. The lemmas read the finished transcript back and prove
  what it consists of.

The model is deterministic because its collaborators are parameters. The
language model is a function from the transcript to the reply text. The search
backend, the evaluator (`eval` followed by `float`) and the renderings of
values into text are parameters too; they are bundled in `Agent.Env`.

An answer's payload ends at a second "ANSWER:", not at the end of the reply,
because the code takes `content.split("ANSWER:")[1]`
(`Directives.SecondAnswerTruncates`, `Directives.AnswerPayloadCut`). For the
same reason a tool payload ends at a second occurrence of its own marker as
well as at the first line break (`Directives.ToolPayloadCut`).

## Model

| member | source | states |
|---|---|---|
| `Text.Find` | api.py:70 | The result is the first index at which the pattern occurs, or none when it occurs nowhere |
| `Text.FindOrEnd` | api.py:72 | The result is where the first occurrence starts, or the length of the text when there is none: no occurrence starts before it, and one starts at it unless it is the end |
| `Text.Split` | api.py:72 | There is always a first piece, and it is a prefix of the text; there are at least two pieces exactly when the separator occurs |
| `Text.SplitFirst` | api.py:72 | The first piece of `split(sep)` runs from the start of the text up to the first separator, or is the whole text |
| `Text.Join` | api.py:13 | `sep.join(pieces)` begins with the first piece; `Text.JoinSplit` and `Text.SplitJoinChar` prove it undoes `split` and is undone by it |
| `Text.JoinSplit` | api.py:72 | Joining the pieces of a split with the separator gives back the text |
| `Text.SplitPiecesFree` | api.py:72 | No piece of a split contains the separator |
| `Text.SplitJoinChar` | api.py:13 | Lines that contain no line break, joined with line breaks and split again, come back unchanged |
| `Text.Strip` | api.py:64 | The result is a slice of the input; everything cut off on either side is whitespace; the result neither begins nor ends with whitespace |
| `Text.StripPadded` | api.py:64 | Stripping whitespace + a stripped text + whitespace gives back exactly that text |
| `Text.ReplaceChar` | api.py:27 | `str.replace` of one character; `Text.ReplaceCharIsSplitJoin` proves it equal to Python's definition |
| `Text.ReplaceCharIsSplitJoin` | api.py:27 | Replacing every occurrence of a character equals splitting at it and joining with the replacement |
| `Calculator.FullMatch` | api.py:22 | `re.fullmatch` of the character class with `+`; `Calculator.FullMatchIff` gives its meaning |
| `Calculator.FullMatchIff` | api.py:22 | The whitelist accepts a text exactly when it is non-empty and every character is a digit, `.`, `+`, `-`, `*`, `/`, `(`, `)`, whitespace or `^` |
| `Calculator.Calculate` | api.py:20-23 | A text the whitelist refuses yields the error "Invalid math expression" |
| `Calculator.RejectedWithoutEvaluation` | api.py:22-23 | An empty expression, or one with a character outside the class, gets that error whatever the evaluator does |
| `Calculator.AcceptedIsEvaluatedNormalized` | api.py:25-29 | An accepted expression is answered by the evaluator applied to the rewritten text; that text is non-empty, has no `^`, and has only class characters |
| `Calculator.Normalize` | api.py:27 | The `^` to `**` rewrite; `Calculator.NormalizeIsReplace` and `Calculator.NormalizeAt` give its meaning |
| `Calculator.NormalizeRemovesCaret` | api.py:27 | No `^` is left after the rewrite |
| `Calculator.NormalizeLength` | api.py:27 | The rewrite adds one character per `^` |
| `Calculator.NormalizeAt` | api.py:27 | Each `^` becomes `**` in place; every other character is kept, shifted by the number of `^` before it |
| `Calculator.NormalizeKeepsCaretFree` | api.py:27 | An expression without `^` reaches the evaluator unchanged |
| `Calculator.NormalizeKeepsClass` | api.py:27 | The rewrite of a whitelisted expression contains only class characters |
| `Calculator.NormalizeConcat` | api.py:27 | Rewriting a concatenation rewrites each part |
| `Calculator.NormalizeIsReplace` | api.py:27 | The rewrite is `str.replace("^", "**")`: split at `^`, join with `**` |
| `WebSearch.FormatHit` | api.py:13 | A record's line starts with "- " and contains a line break only if one of its fields does |
| `WebSearch.FormatHits` | api.py:12-15 | The text is "No results found." exactly when there are no records |
| `WebSearch.OneLinePerHit` | api.py:12-13 | When no field holds a line break, splitting the text at line breaks gives one line per record, in order |
| `WebSearch.SearchWeb` | api.py:7-17 | `search_web`: the backend's error, an empty result or the records become the text; `WebSearch.OutcomeFromText` shows the three are told apart by the text alone |
| `WebSearch.OutcomeFromText` | api.py:7-17 | The text tells the outcomes apart: error prefix exactly when the backend raised; "No results found." exactly for an empty result; "- " exactly for a non-empty one |
| `Directives.AfterMarker` | api.py:72 | The text taken after the first marker holds no further occurrence of that marker |
| `Directives.AfterMarkerIsSplit` | api.py:72 | The text after the first marker, up to the next one or the end, is exactly `content.split(marker)[1]` |
| `Directives.AfterMarkerCut` | api.py:72 | `split(marker)[1]` is the slice of the reply from the end of the first marker to the next occurrence of the marker, or to the end of the reply |
| `Directives.FirstLine` | api.py:72 | The first line holds no line break |
| `Directives.FirstLineIsSplit` | api.py:72 | The text up to the first line break is exactly `s.split("\n")[0]` |
| `Directives.Parse` | api.py:70-114 | A reply is a search exactly when it contains "ACTION: SEARCH:"; a calculation exactly when it contains "ACTION: CALCULATE:" and not the search marker; an answer exactly when it contains "ANSWER:" and neither action marker |
| `Directives.ToolPayload` | api.py:72 | The query of a search (and the expression of a calculation, line 83); `Directives.ToolPayloadIsSplit` ties it to the Python expression and `Directives.ToolPayloadCut` says where it is cut |
| `Directives.ToolPayloadIsSplit` | api.py:72 | A search or calculation payload equals `content.split(marker)[1].split("\n")[0].strip()` |
| `Directives.ToolPayloadCut` | api.py:83 | A tool payload is the stripped slice of the reply from the end of the first marker up to the next marker or the first line break after it, whichever comes first, or to the end of the reply |
| `Directives.ToolPayloadFree` | api.py:72 | A tool payload holds no line break, no whitespace at either end and no occurrence of its marker |
| `Directives.ToolPayloadKeepsFree` | api.py:83 | A tool payload holds no text that the whole reply does not hold |
| `Directives.AnswerPayload` | api.py:109 | The text of an answer; `Directives.AnswerPayloadIsSplit` ties it to the Python expression and `Directives.AnswerPayloadCut` says where it is cut |
| `Directives.AnswerPayloadIsSplit` | api.py:109 | An answer payload equals `content.split("ANSWER:")[1].strip()` |
| `Directives.AnswerPayloadCut` | api.py:109 | An answer payload is the stripped slice of the reply from the end of the first "ANSWER:" up to the next "ANSWER:" or the end of the reply; line breaks do not cut it |
| `Directives.AnswerPayloadFree` | api.py:109 | An answer payload holds no whitespace at either end and no "ANSWER:" |
| `Directives.AnswerPayloadKeepsFree` | api.py:108-109 | An answer payload holds no text that the whole reply does not hold, so an answer from a reply without action markers has none either |
| `Directives.ParseRender` | api.py:70-114 | Writing a directive as its marker, a space and a well-formed payload, then classifying it, gives the directive back |
| `Directives.ParseIsRenderable` | api.py:70-114 | Every classification is such a well-formed directive, so writing it out and classifying again gives the same result |
| `Directives.SecondAnswerTruncates` | api.py:108-109 | With two "ANSWER:" lines, the payload is the text of the first one only |
| `Agent.ObservationsOf` | api.py:74-103 | The messages a reply's step appends: "OBSERVATION: " and the search text; or "OBSERVATION: " and the calculation result, then the forced-answer notice after a success, then the stop notice from the fourth calculation on; `Agent.HandleObservations` states their number, kind and order |
| `Agent.Handle` | api.py:70-103 | The state after a non-answer reply; `Agent.HandleObservations` and `Agent.HandleCounters` give its meaning, and `Agent.Act` is the loop body proved to compute it |
| `Agent.Continue` | api.py:62-114 | The rest of a run from a state and a step: the fallback at step 12, the payload of an answer reply, or the next step after handling the reply; `Agent.RunConcludes` states what its outcome satisfies |
| `Agent.Run` | api.py:52-123 | The run for a question, from the system prompt and the question; `Agent.RunAgent` computes it and `Agent.RunConcludes` reads it back |
| `Agent.Fallback` | api.py:116-123 | There is a fallback text exactly when a value was recorded, and it starts with "Approx final value: " |
| `Agent.Act` | api.py:70-103 | The tool branches change the transcript and counters exactly as `Handle` states |
| `Agent.RunAgent` | api.py:34-123 | The loop returns the answer of `Run`; its transcript and model-call count are `Run`'s too |
| `Agent.HandleObservations` | api.py:70-103 | Handling a reply appends only observations: for a search 1, "OBSERVATION: " followed by `search_web(query)`; for a calculation 1, plus 1 on success, plus 1 from the fourth calculation on; 0 for reasoning. The success notice comes right after the result, the stop notice last |
| `Agent.HandleCounters` | api.py:70-91 | Handling a reply counts it under its kind and records the value of a successful calculation |
| `Agent.RunConcludes` | api.py:34-123 | Every run's outcome satisfies all the facts below together |
| `Agent.TranscriptShape` | api.py:52-103 | The transcript starts with the system prompt and the question. Then each step holds the model's stripped reply to the transcript so far, followed by exactly the messages `Agent.ObservationsOf` gives for that reply: the search text, or the calculation result and its notices, in order |
| `Agent.CountersMatchReplies` | api.py:57-82 | The model is asked between 1 and 12 times, once per reply; the counters equal the number of calculation and search replies |
| `Agent.CountsBounded` | api.py:71-82 | Calculation and search counts together never exceed the number of replies; each is zero exactly when no reply has that kind |
| `Agent.LastSuccessIsLatest` | api.py:89-91 | The recorded value is absent exactly when no calculation succeeded, and otherwise comes from the latest successful one |
| `Agent.AnswerStopsRun` | api.py:105-111 | A run ends answered exactly when its last reply is an answer, and no earlier reply is one; the result is that reply's answer payload, and nothing follows the reply in the transcript |
| `Agent.ExhaustedFallback` | api.py:116-123 | A run without an answer asks the model 12 times and returns the fallback for the latest successful value; it returns nothing exactly when no calculation succeeded |

## Left out

- `ollama.chat` (api.py:63) is the parameter `Env.chat`, a function from the transcript to the reply text. The model name is not modelled. A real model's nondeterminism, and a failing call, are not modelled: the function fixes one reply per transcript.
- `DDGS().text` (api.py:9-10) is the parameter `Env.searchBackend`. It gives the records or the text of the exception it raised. The network and the `with` block are not modelled.
- `eval` and `float(val)` (api.py:28-31) are the single parameter `Env.eval`. Evaluation errors reach the model only through the `Error` result it returns.
- The renderings `f"{result}"` of the dictionary `calculate` returns, `f"{last_calc_value}"` and `f"{last_calc_value:.2f}"` (api.py:87, 94, 118) are the parameters `Env.showResult`, `Env.showValue` and `Env.showFixed2`. Floating-point values are a stand-in type that is only stored and handed to these renderings. The search text at api.py:76 is already a string and goes into the observation unchanged.
- The `print` calls that trace each step (api.py:35, 73, 84, 110, 114, 119, 122) and the `__main__` entry point (api.py:125-126) are console output only. For that reason `Think` carries no text.
- Python strings are sequences of characters. The whitespace set of `strip()` and of `\s` is CPython's list of Unicode whitespace; no other Unicode property is modelled.
- The dictionaries `calculate` returns, and the transcript's dictionaries, are the datatypes `CalcResult` and `Message`.
