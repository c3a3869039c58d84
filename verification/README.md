# Passmed2Anki content script, modelled in Dafny

Passmed2Anki is a browser extension for the Passmedicine question bank. Its content
script watches the page, and once the user has submitted an answer it places an
"Add to Anki" button next to the result alert. Clicking the button turns the question,
the correct option and the explanation into an AnkiConnect `addNote` request. This
project models the decision logic of `contentScript.js` and proves what that logic
promises:

- which element counts as the question, the answer alert or the option list (the
  selector catalogue with first-visible-wins, plus the scoring heuristic fallback);
- when an answer counts as chosen;
- how text and HTML are normalised;
- how settings and tags are cleaned;
- what the note request contains;
- when the button appears, stays, is replaced or goes away.

The page is an abstract value. A `Dom.Document` records, for each CSS selector and
search scope, the matching elements in document order. A `Dom.Node` carries what
the script reads from an element:
- whether it is visible;
- its `innerText`;
- its inner HTML, as fragments tagged with the selectors of the descendants that
  enclose them;
- its number of ancestors;
- its `style` attribute and its class list.

The script's mutable `STATE` is the class `Trigger.Engine`. Its fields are the
button, the last question signature, the settings and the evaluation timer. Its
pending timers are kept as a map from handle to delay.

Modules, one per file:
- `wrappers.dfy`: `Option`.
- `text.dfy`: the JavaScript string and array operations the script uses.
- `dom.dfy`: the page.
- `extract.dfy`: `extractText`, `normalizeHtml`, `extractCleanHtml`.
- `locator.dfy`: `findVisibleElement`, `extractOptionsText`.
- `heuristic.dfy`: `getDomDepth`, `scoreCandidate`, `heuristicFindPanel`.
- `answer_state.dfy`: `getChosenAnswerState`.
- `settings.dfy`: `normalizeSettings`, `normalizeTags`.
- `payload.dfy`: `buildNotePayload` and its extractors.
- `trigger.dfy`: `evaluateInjection`, `removeButton`, `scheduleEvaluation`, `loadSettings`.

## Model

| member | source | states |
|---|---|---|
| Text.Trim | contentScript.js:307 | `trim()` leaves no whitespace at either end |
| Text.TrimIsStripped | contentScript.js:307 | `trim()` returns the slice of the input that has only whitespace around it |
| Text.TrimKeepsVisible | contentScript.js:307 | `trim()` keeps every character that is not whitespace |
| Text.TrimFixesTrimmed | contentScript.js:307 | trimming a string with no whitespace at its ends returns it unchanged |
| Text.ContainsIff | contentScript.js:362 | `includes(part)` is true exactly when `part` occurs at some offset |
| Text.Prefix | contentScript.js:199 | `slice(0, n)` is the prefix of exactly `min(n, length)` characters |
| Text.Split | contentScript.js:549 | `split(",")` yields at least one piece, and no piece contains a comma |
| Text.TrimEmptyIff | contentScript.js:307 | `trim()` returns "" exactly when the input is all whitespace |
| Text.JoinSplit | contentScript.js:549 | joining the pieces of a split with the separator gives back the input |
| Text.SplitJoin | contentScript.js:549 | splitting a join of separator-free pieces gives back the pieces |
| Text.JoinHasPart | contentScript.js:411 | every part occurs in the joined string |
| Text.Dedup | contentScript.js:411 | `Array.from(new Set(xs))` has no repeats and exactly the values of `xs` |
| Text.DedupKeepsFirstOccurrenceOrder | contentScript.js:411 | the deduplicated values keep the order of their first occurrences |
| Text.DedupOfDistinct | contentScript.js:505 | a list without repeats is left as it is |
| Text.NonEmpty | contentScript.js:409 | a string survives `filter(Boolean)` exactly when it is non-empty and in the input |
| Text.NonEmptyAppend | contentScript.js:409 | `filter(Boolean)` of a concatenation is the concatenation of the filtered parts, so kept strings stay in order, repeats included |
| Text.NonEmptyOne | contentScript.js:409 | a lone string is kept exactly when it is non-empty |
| Text.NonEmptyKeepsIndexOrder | contentScript.js:409 | two non-empty strings first occur in the same order before and after `filter(Boolean)` |
| Text.NonEmptyKeepsNonEmpty | contentScript.js:551 | filtering a list with no empty strings keeps it whole |
| Dom.MarkupAppend | contentScript.js:320 | the inner HTML of consecutive fragments is their markups one after the other, in document order |
| Extract.CollapseRuns | contentScript.js:301-302 | no contract of its own; CollapseRunsOfRun and CollapseRunsAround determine its result, and CollapseRunsLeavesNoRun, CollapseRunsKeepsNoRun and CollapseRunsFixesNoRun state what the global replace leaves |
| Extract.CollapseRunsOfRun | contentScript.js:301-302 | a maximal run of the class becomes the replacement when it is at least `m` long and stays as it is otherwise |
| Extract.CollapseRunsAppend | contentScript.js:301-302 | the replace works independently on both sides of any point where a run cannot continue |
| Extract.CollapseRunsAround | contentScript.js:301-302 | a character outside the class stays in place, and the text before and after it is replaced independently |
| Extract.CollapseRunsKeepsChar | contentScript.js:301-302 | every character outside the class survives the replace |
| Extract.CollapseRunsLeavesNoRun | contentScript.js:301-302 | after the global regex replace, no run of `m` or more characters of the class is left |
| Extract.CollapseRunsKeepsNoRun | contentScript.js:302 | collapsing spaces and tabs creates no run of three newlines |
| Extract.CollapseRunsFixesNoRun | contentScript.js:301-302 | the replace changes nothing on text without such a run |
| Extract.TrimKeepsNoRun | contentScript.js:303 | the final `trim()` creates no run |
| Extract.NormalizeText | contentScript.js:299-303 | no contract of its own; NormalizeTextIsClean, NormalizeTextIdempotent, NormalizeTextKeepsVisible and NormalizeTextEmptyIff state it |
| Extract.NormalizeTextIsClean | contentScript.js:299-303 | normalised text is trimmed, has no three newlines in a row and no two adjacent spaces or tabs |
| Extract.NormalizeTextIdempotent | contentScript.js:299-303 | normalising normalised text changes nothing |
| Extract.NormalizeTextKeepsVisible | contentScript.js:299-303 | every character of the text that is not whitespace is still in the normalised text |
| Extract.NormalizeTextEmptyIff | contentScript.js:299-303 | normalised text is "" exactly when the text is all whitespace |
| Extract.ExtractText | contentScript.js:295-304 | no contract of its own; ExtractTextIsClean and ExtractTextEmptyIff state it |
| Extract.ExtractTextIsClean | contentScript.js:295-304 | `extractText(null)` is "", and any result is trimmed, without three newlines in a row and without two adjacent blanks |
| Extract.ExtractTextEmptyIff | contentScript.js:295-304 | `extractText` is "" exactly for null or an element whose `innerText` is all whitespace |
| Extract.NormalizeHtml | contentScript.js:306-308 | "" for a missing value; a present value comes back as its slice with only whitespace around it, trimmed, and "" exactly when it is all whitespace |
| Extract.Kept | contentScript.js:316-318 | a fragment is kept exactly when it is in the input and no removed descendant encloses it |
| Extract.KeptAppend | contentScript.js:316-318 | removal works piece by piece: the kept fragments of consecutive pieces are those of each piece, in the same order |
| Extract.KeptOne | contentScript.js:316-318 | a lone fragment is kept exactly when no removed descendant encloses it |
| Extract.ExtractCleanHtml | contentScript.js:310-321 | "" for null; otherwise the markup of the kept fragments with only whitespace stripped from both ends, and "" exactly when that markup is all whitespace |
| Extract.CleanHtmlOfUntouched | contentScript.js:310-321 | when no remove selector matches inside the element, the clean HTML is its trimmed inner HTML |
| Locator.FirstVisible | contentScript.js:269-279 | no contract of its own; FirstVisibleIsFirst states it, and FindVisibleElement's loops are proved equal to it |
| Locator.FirstVisibleInIsFirst | contentScript.js:272-276 | the inner loop returns the first visible candidate, and null exactly when none is visible |
| Locator.FirstVisibleIsFirst | contentScript.js:269-279 | `findVisibleElement` is null exactly when no selector has a visible match; otherwise it is the visible match that comes first by selector order and then document order |
| Locator.FirstVisibleAppend | contentScript.js:222-224 | `find(a) \|\| find(b)` equals `find(a + b)` |
| Locator.FindVisibleElement | contentScript.js:269-279 | the nested loops with early return compute the first visible match |
| Locator.TextsAt | contentScript.js:408 | the mapped texts are, position by position, `extractText` of the nodes |
| Locator.OptionLinesInOrder | contentScript.js:398-411 | every option line is an entry text, and the lines come in the order of their first occurrence among the entries' texts |
| Locator.OptionLines | contentScript.js:398-411 | option lines are distinct and non-empty; none without a visible option list; otherwise exactly the non-empty entry texts |
| Locator.ExtractOptionsText | contentScript.js:398-412 | "" when no option list is visible, and "" exactly when there are no option lines |
| Locator.ExtractOptionsTextListsLines | contentScript.js:411 | every option line occurs in the text; when no line holds a newline, splitting the text at newlines gives back exactly the lines |
| Heuristic.GetDomDepth | contentScript.js:385-396 | the depth is the number of ancestors capped at 81 |
| Heuristic.LengthPenalty | contentScript.js:381 | 800 times the penalty is at most 1200, zero exactly at 800 characters, and 1200 from 2000 characters on |
| Heuristic.ScaledScore | contentScript.js:378-383 | 800 times the score lies between 1600·depth − 1200 and 1600·depth, and reaches the top exactly at 800 characters |
| Heuristic.DeeperScoresHigher | contentScript.js:380-382 | a deeper node outscores a shallower one whatever the text lengths |
| Heuristic.LongerScoresHigherBelowTarget | contentScript.js:381 | at equal depth, below 800 characters longer text scores no lower |
| Heuristic.LongerScoresLowerAboveTarget | contentScript.js:381 | at equal depth, above 800 characters longer text scores no higher, and from 2000 on all lengths tie |
| Heuristic.ScoreCandidate | contentScript.js:378-383 | `scoreCandidate` returns 800 times `2·min(ancestors, 81) − |800 − min(len, 2000)|/800` |
| Heuristic.Lowered | contentScript.js:346 | no contract of its own; HeuristicWinnerIsBest states the filter in terms of the lower-cased keywords |
| Heuristic.Qualifies | contentScript.js:351-364 | no contract of its own; CandidatesOfStep states that a node is pushed exactly when it qualifies, and HeuristicWinnerIsBest that the winner qualifies |
| Heuristic.CandidatesOfStep | contentScript.js:350-366 | one loop iteration appends the node with its score exactly when it qualifies |
| Heuristic.TopIndex | contentScript.js:368-369 | the head of the stable descending sort has the highest score, and every earlier candidate scores strictly less |
| Heuristic.BestIndex | contentScript.js:341-376 | reference choice: None exactly when no node qualifies, otherwise a qualifying node with maximal score and strictly higher than every qualifying node before it |
| Heuristic.TopCandidateIsBest | contentScript.js:349-369 | the pushed-then-sorted candidate list picks the reference choice |
| Heuristic.WinnerAmongIsBest | contentScript.js:349-375 | the top candidate is null exactly when no node qualifies; otherwise it is a qualifying node of maximal score, the earliest such one |
| Heuristic.HeuristicWinner | contentScript.js:341-376 | no contract of its own; HeuristicWinnerIsBest states it, and HeuristicFindPanel is proved equal to it |
| Heuristic.HeuristicWinnerIsBest | contentScript.js:341-376 | `heuristicFindPanel` is null exactly when there is no root or no node qualifies; otherwise it returns a qualifying node of maximal score, the earliest such one |
| Heuristic.CollectCandidates | contentScript.js:349-366 | the push loop, with its four `continue` guards, builds exactly the candidate list of the qualifying nodes with their scores, in document order |
| Heuristic.TopOf | contentScript.js:368-369 | the scan finds the candidate a stable descending sort puts first |
| Heuristic.HeuristicFindPanel | contentScript.js:341-376 | the push loop and the selection of the sort's head compute the heuristic winner |
| AnswerState.OptionRoot | contentScript.js:227 | no contract of its own; ChosenIffAlertAndSignal and Payload.ExtractGreenOptionHtml state the option queries scoped by it |
| AnswerState.ResultAlert | contentScript.js:222-224 | no contract of its own; ResultAlertIsSuccessThenDanger states it |
| AnswerState.IsResultStyled | contentScript.js:229-243 | no contract of its own; ChosenIffAlertAndSignal states how it decides the chosen state, and Payload.GreenIsResultStyled that every green option satisfies it |
| AnswerState.GetChosenAnswerState | contentScript.js:218-259 | no contract of its own; ChosenIffAlertAndSignal and ResultAlertIsSuccessThenDanger state it |
| AnswerState.ResultAlertIsSuccessThenDanger | contentScript.js:222-224 | the alert is the first visible match over the success selectors followed by the danger selectors, in selector order and then document order; it is missing exactly when no success or danger selector has a visible match; a visible success alert takes priority; the alert is always a visible match of those selectors, never a generic alert |
| AnswerState.ChosenIffAlertAndSignal | contentScript.js:226-256 | an answer counts as chosen exactly when a success or danger alert is visible and a result-styled option, a popularity or score badge, or a missing or hidden submit button is present |
| Settings.NormalizeSettings | contentScript.js:137-143 | every field is non-empty and trimmed; it is the stored value, trimmed, when that is non-empty, and the default otherwise |
| Settings.NormalizeSettingsIdempotent | contentScript.js:137-143 | normalising normalised settings changes nothing |
| Settings.NormalizeSettingsOfEmpty | contentScript.js:4-8 | an empty store yields the defaults |
| Settings.TrimAllKeepsAbsence | contentScript.js:550 | trimmed pieces are trimmed and gain no character |
| Settings.NormalizeTags | contentScript.js:547-552 | no contract of its own; NormalizeTagsAreClean, NormalizeTagsOfPieces, NormalizeTagsOfPiece, NormalizeTagsOfJoin and NormalizeTagsIdempotent state it |
| Settings.NormalizeTagsAreClean | contentScript.js:547-552 | every tag is non-empty, trimmed and comma-free; a string is a tag exactly when it is a non-empty trimmed piece |
| Settings.NormalizeTagsOfPieces | contentScript.js:547-552 | the tags of comma-joined pieces are the trimmed pieces without the empty ones, in the pieces' order |
| Settings.NormalizeTagsOfPiece | contentScript.js:547-552 | a comma-free piece gives its trimmed self as the single tag, or no tag when that is empty |
| Settings.NormalizeTagsOfJoin | contentScript.js:547-552 | clean tags survive being comma-joined and normalised again, in order |
| Settings.NormalizeTagsIdempotent | contentScript.js:547-552 | normalising the joined tags again changes nothing |
| Payload.ExplanationAlert | contentScript.js:324-327 | no contract of its own; ExplanationAlertOrder states it |
| Payload.ExplanationAlertOrder | contentScript.js:323-327 | the explanation alert is the first visible match over success, danger and generic alert selectors; when an answer counts as chosen it is the chosen-state alert |
| Payload.ExtractAlertSuccessInfoOnlyHtml | contentScript.js:323-339 | "" without an alert; otherwise the alert's markup without the rating widgets, stripped at both ends, and "" exactly when that markup is all whitespace |
| Payload.IsGreen | contentScript.js:521-534 | no contract of its own; GreenIsResultStyled and FirstGreen state it |
| Payload.GreenIsResultStyled | contentScript.js:521-534 | an option marked green also counts as result-styled |
| Payload.FirstGreen | contentScript.js:521-536 | None exactly when no option is green, otherwise the first green option |
| Payload.ExtractGreenOptionHtml | contentScript.js:514-545 | "" when no option is green; otherwise the inner HTML of the first green option's first `span`, or of the option itself without one, stripped at both ends |
| Payload.QuestionHtml | contentScript.js:477-478 | "" without a `#question_only` element; otherwise its inner HTML stripped at both ends, and "" exactly when that HTML is all whitespace |
| Payload.NoteTags | contentScript.js:505 | no contract of its own; NoteTagsAppendRequired and NoteTagsKeepRequired state it |
| Payload.NoteTagsAppendRequired | contentScript.js:505 | distinct tags without "passmedicine" are kept in order, with "passmedicine" appended |
| Payload.NoteTagsKeepRequired | contentScript.js:505 | distinct tags that already hold "passmedicine" are kept unchanged |
| Payload.AssembleNote | contentScript.js:482-511 | null exactly when the question or the explanation is empty; otherwise `addNote` version 6 with the settings' deck and note type. Front is the question. Back is the explanation, preceded by the green option and "<br><br>" when that is non-empty. Tags are distinct, contain "passmedicine" and are otherwise the normalised tags, in the order of their first occurrence in the normalised tags followed by "passmedicine". Duplicates are not allowed |
| Payload.BuildNotePayload | contentScript.js:473-512 | no contract of its own; BuildNotePayloadIff and AssembleNote state it |
| Payload.BuildNotePayloadIff | contentScript.js:473-488 | a payload is built exactly when the question HTML and the explanation are non-empty, that is, exactly when `#question_only` exists with HTML that is not all whitespace and an explanation alert exists whose markup without the rating widgets is not all whitespace; Front is then the question HTML |
| Trigger.QuestionElement | contentScript.js:168-173 | no contract of its own; ObservePage proves the selector lookup with its heuristic fallback equal to it, and Locator.FirstVisibleIsFirst and Heuristic.HeuristicWinnerIsBest state its two halves |
| Trigger.Signature | contentScript.js:199 | no contract of its own; SignatureSeesOnlyPrefixes and SignatureTellsShortQuestionsApart state it |
| Trigger.SignatureSeesOnlyPrefixes | contentScript.js:199 | the signature depends only on the first 120 characters of each text |
| Trigger.SignatureTellsShortQuestionsApart | contentScript.js:199-203 | for the same answer, two different questions of at most 120 characters have different signatures |
| Trigger.PlacementFor | contentScript.js:210-215 | no contract of its own; StepReplacesOnlyOnNewSignature states where a fresh button goes |
| Trigger.Ready | contentScript.js:183-197 | no contract of its own; StepShowsButtonIffReady states that a button exists after an evaluation exactly when it holds |
| Trigger.Step | contentScript.js:183-215 | no contract of its own; StepShowsButtonIffReady, StepNotReadyOnlyRemoves and StepReplacesOnlyOnNewSignature state it |
| Trigger.StepShowsButtonIffReady | contentScript.js:183-215 | after an evaluation a button exists exactly when an answer is chosen, its alert has text and a question with text is found; the remembered signature is then the page's |
| Trigger.StepNotReadyOnlyRemoves | contentScript.js:183-197 | on a page that is not ready only the button is removed; the signature is untouched |
| Trigger.StepReplacesOnlyOnNewSignature | contentScript.js:199-215 | a new signature, or no button, yields a fresh button placed before the result alert, or appended to the body when the alert has no parent; an existing button with an unchanged signature is kept |
| Trigger.Evaluate | contentScript.js:167-216 | no contract of its own; EvaluateIdempotent and NoButtonWithoutAlert state it, and Engine.EvaluateInjection is proved equal to it |
| Trigger.EvaluateIdempotent | contentScript.js:167-216 | evaluating the same page twice changes nothing more than evaluating it once, on a page the evaluation itself leaves unchanged |
| Trigger.NoButtonWithoutAlert | contentScript.js:175-191 | without a visible success or danger alert there is never a button |
| Trigger.Observe | contentScript.js:168-181 | no contract of its own; ObservePage is proved equal to it |
| Trigger.ObservePage | contentScript.js:168-181 | the question element (selectors first, then the heuristic over the body), the chosen state and both texts |
| Trigger.Engine.constructor | contentScript.js:77-85 | the initial state: no button, empty signature, default settings, no timer |
| Trigger.Engine.LoadSettings | contentScript.js:122-135 | settings become the normalised stored values; nothing changes without storage |
| Trigger.Engine.RemoveButton | contentScript.js:261-267 | the button is gone and nothing else changes; without a button nothing changes at all, so a second call is a no-op |
| Trigger.Engine.ScheduleEvaluation | contentScript.js:162-165 | afterwards exactly one evaluation is pending, 250 ms out, and it is the one `evaluationTimeout` holds |
| Trigger.Engine.Decide | contentScript.js:183-215 | the state after the checks is the one the evaluation step prescribes |
| Trigger.Engine.EvaluateInjection | contentScript.js:167-216 | the new button, signature and creation count are those of `Evaluate` on the page; settings and timers are untouched |
| Trigger.Engine.FireTimer | contentScript.js:164 | a firing timer is disarmed and runs one evaluation |

## Left out

- The real DOM is not modelled. CSS selector matching, `getComputedStyle`, `getClientRects`, `closest("[hidden]")`, the layout behind `innerText` and the serialisation behind `innerHTML` are inputs. They appear as the document's match table and as node fields.
- `document.body` is assumed present. Queries scoped to the body are modelled as queries over the whole document.
- Text lengths count characters, not UTF-16 code units. `toLowerCase` folds ASCII letters only.
- Kept: its own contract states membership only. The order of the kept fragments, repeats included, is stated by Extract.KeptAppend and Extract.KeptOne.
- NonEmpty: its own contract states membership only. The order, repeats included, is stated by Text.NonEmptyAppend and Text.NonEmptyOne.
- NormalizeTagsAreClean: states membership only. The order of the tags is stated by Settings.NormalizeTagsOfPieces.
- Heuristic.HeuristicFindPanel: the stable `Array.prototype.sort` is modelled by a scan for the first candidate of highest score, which is the only element the script reads after sorting.
- Heuristic.ScoreCandidate: the floating-point score is modelled as 800 times its value, an integer. Two candidates' exact scores are equal exactly when their depth and capped length penalty are, so the order of candidates is unchanged.
- Trigger.Engine.EvaluateInjection: the button is a value with a serial number and a placement. Inserting it into the page, and the page removing it by itself, are not modelled. The inserted button's own text joins the `innerText` of the elements that enclose it. If the question element encloses the alert, the button can change the question signature. The pass the insertion triggers then recreates the button once. The model does not capture this.
- The export path is not modelled: `handleAddToAnki`, `sendToBackground`, `createButton`'s click listener and `showToast`. These are asynchronous messaging and UI. `buildNotePayload` takes the settings as a parameter instead of reading `STATE.settings`.
- `init`, `observeDom` and the `hashchange` and `popstate` listeners are not modelled. `init` awaits `loadSettings` (modelled as Trigger.Engine.LoadSettings), then calls `installDebugBridge` and `observeDom`, then `evaluateInjection` once. `observeDom` installs, once and only when a body exists, a MutationObserver and the two listeners; each of them only calls `scheduleEvaluation`. The MutationObserver and the timer clock are replaced by explicit `ScheduleEvaluation` and `FireTimer` calls.
- `logDebug`, the debug flag and the `postMessage` debug bridge are not modelled. `logDebug` only logs. Setting the debug flag, through the bridge or through `window.passmed2ankiDebug`, also schedules an evaluation (contentScript.js:115 and 582); that effect is Trigger.Engine.ScheduleEvaluation.
- Stored settings that are not strings are not modelled; `trim()` would throw on them. Settings.NormalizeSettings takes each field as a string or as absent.
- `HEURISTICS.answerKeywords`, `minAnswerChars` and `maxAnswerChars` are never read by the script, so they are not modelled. `SELECTORS.answer` (contentScript.js:26-43) is never read either, and is not modelled.
- `extractOptionsText` (contentScript.js:398-412) is never called inside the script. It is modelled as Locator.ExtractOptionsText, but `evaluateInjection` and `buildNotePayload` do not use it.
- `background.js` and `options.js` are not part of this model.
